/**
 * The MSG_TASK_FILE payload: how the REPL builds a task, how the dispatcher lays it out, and what the worker
 * accepts.
 */
module TaskFile {
  import opened Bytes
  import opened Common
  import opened Framing

  // task->filename is a NUL-terminated char[256]; file_size is a uint32_t
  type FileName = s: seq<Byte> | |s| < MAX_FILENAME_LEN witness []

  datatype Task = Task(name: FileName, data: seq<Byte>)

  const SLASH: Byte := 47

  /** The part of a path after its last slash. */
  function Basename(path: seq<Byte>): (b: seq<Byte>)
    ensures |b| <= |path| && b == path[|path| - |b|..]
    ensures SLASH !in b
    ensures |b| < |path| ==> path[|path| - |b| - 1] == SLASH
  {
    if path == [] || path[|path| - 1] == SLASH then []
    else
      var b := Basename(path[..|path| - 1]);
      assert path == path[..|path| - 1] + [path[|path| - 1]];
      b + [path[|path| - 1]]
  }

  /** The task that `submit path` dispatches: none when read_file refuses the contents. */
  function Submit(path: seq<Byte>, contents: seq<Byte>): Option<Task> {
    if |contents| == 0 || |contents| > MAX_FILE_SIZE then None
    else
      var name := Basename(path);
      var kept := if |name| <= MAX_FILENAME_LEN - 1 then name else name[..MAX_FILENAME_LEN - 1];
      Some(Task(kept, contents))
  }

  function EncodedSize(t: Task): nat {
    2 + |t.name| + 4 + |t.data|
  }

  /** Lengths in network order, each followed by its bytes. */
  function EncodeTask(t: Task): (s: seq<Byte>)
    requires EncodedSize(t) < 0x1_0000_0000
    ensures |s| == EncodedSize(t)
  {
    BE16(|t.name|) + t.name + BE32(|t.data|) + t.data
  }

  predicate InLimits(t: Task) {
    |t.name| < MAX_FILENAME_LEN && |t.data| <= MAX_FILE_SIZE
  }

  /** The task the worker makes of a payload, if any. */
  function ParseTask(p: seq<Byte>): Option<Task> {
    if |p| < 6 then None
    else
      var fnLen := FromBE16(p[..2]);
      if fnLen >= MAX_FILENAME_LEN || 2 + fnLen + 4 > |p| then None
      else
        var fileLen := FromBE32(p[2 + fnLen..6 + fnLen]);
        if fileLen > MAX_FILE_SIZE || 6 + fnLen + fileLen > |p| then None
        else Some(Task(p[2..2 + fnLen], p[6 + fnLen..6 + fnLen + fileLen]))
  }

  /**
   * The parse as the connection handler does it, with a cursor moving through the payload. That every slice is
   * well formed is the proof that nothing outside the payload is read.
   */
  method ParseWithCursor(payload: seq<Byte>) returns (r: Option<Task>)
    ensures r == ParseTask(payload)
    ensures r.Some? ==> InLimits(r.value)
  {
    var plen := |payload|;
    if plen < 6 {
      return None;
    }
    var p := 0;
    var fnLen := FromBE16(payload[p..p + 2]);
    p := p + 2;
    if fnLen >= MAX_FILENAME_LEN || p + fnLen + 4 > plen {
      return None;
    }
    var filename := payload[p..p + fnLen];
    p := p + fnLen;
    var fileLen := FromBE32(payload[p..p + 4]);
    p := p + 4;
    if fileLen > MAX_FILE_SIZE || p + fileLen > plen {
      return None;
    }
    return Some(Task(filename, payload[p..p + fileLen]));
  }

  lemma ParsedIsEncoding(p: seq<Byte>, t: Task)
    requires ParseTask(p) == Some(t)
    ensures InLimits(t) && EncodedSize(t) <= |p| && p == EncodeTask(t) + p[EncodedSize(t)..]
  {
    var n := |t.name|;
    BE16Onto(p[..2]);
    BE32Onto(p[2 + n..6 + n]);
    assert p == p[..2] + p[2..2 + n] + p[2 + n..6 + n] + p[6 + n..6 + n + |t.data|] + p[EncodedSize(t)..];
  }

  lemma EncodingParses(t: Task, tail: seq<Byte>)
    requires InLimits(t)
    ensures ParseTask(EncodeTask(t) + tail) == Some(t)
  {
    var p, n := EncodeTask(t) + tail, |t.name|;
    assert p[..2] == BE16(n);
    BE16RoundTrip(n);
    assert p[2 + n..6 + n] == BE32(|t.data|);
    BE32RoundTrip(|t.data|);
    assert p[2..2 + n] == t.name;
    assert p[6 + n..6 + n + |t.data|] == t.data;
  }

  /** The worker accepts exactly the encodings of tasks within the limits, each with any tail at all. */
  lemma AcceptedPayloads(p: seq<Byte>, t: Task)
    ensures ParseTask(p) == Some(t) <==>
            |t.name| <= 255 && |t.data| <= 4194304 && exists tail: seq<Byte> :: p == EncodeTask(t) + tail
  {
    if ParseTask(p) == Some(t) {
      ParsedIsEncoding(p, t);
    }
    forall tail: seq<Byte> | InLimits(t) && p == EncodeTask(t) + tail
      ensures ParseTask(p) == Some(t)
    {
      EncodingParses(t, tail);
    }
  }

  /** The payload, byte by byte. */
  lemma TaskBytes(t: Task)
    requires InLimits(t)
    ensures var n, m := |t.name|, |t.data|;
            EncodeTask(t) == [n / 256, n % 256] + t.name
                             + [m / 16777216, m / 65536 % 256, m / 256 % 256, m % 256] + t.data
  {
    NetworkOrder(|t.name|);
    NetworkOrder(|t.data|);
    hide BE16, BE32;
  }

  /** No task the REPL builds trips a check on its way, and none of its length fields wraps. */
  lemma SubmittedTaskFits(path: seq<Byte>, contents: seq<Byte>)
    ensures Submit(path, contents).Some? <==> 1 <= |contents| <= 0x40_0000
    ensures var r := Submit(path, contents);
            r.Some? ==>
              && r.value.name == (if |Basename(path)| <= 255 then Basename(path) else Basename(path)[..255])
              && |r.value.name| <= 255 && SLASH !in r.value.name
              && EncodedSize(r.value) <= 0x40_0000 + 261 < PAYLOAD_GUARD
              && Sendable(Frame(6, EncodeTask(r.value)))
              && ParseTask(EncodeTask(r.value)) == Some(r.value)
              && r.value.data == contents
  {
    var r := Submit(path, contents);
    if r.Some? {
      var e := EncodeTask(r.value);
      assert e == e + [];
      EncodingParses(r.value, []);
    }
  }
}
