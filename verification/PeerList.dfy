/**
 * The peer registry: a fixed array of slots, scanned and overwritten in place, that behaves as a map from address
 * to peer holding at most MAX_PEERS entries.
 */
module PeerList {
  import opened Bytes
  import opened Common
  import opened LoadReport

  const INET_ADDRSTRLEN: nat := 16

  // inet_ntop output: NUL-free and short enough for strncpy to keep it whole
  predicate IsAddress(s: string) {
    |s| < INET_ADDRSTRLEN && '\0' !in s
  }

  type Ip = s: string | IsAddress(s) witness ""

  /** One slot; time_t is signed, so times are integers. */
  datatype Peer = Peer(ip: Ip, port: uint16, load: Report, lastSeen: int, valid: bool)

  // memset to zero
  const NO_PEER: Peer := Peer("", 0, Report(0, 0, 0, 0), 0, false)

  function NewPeer(ip: Ip): Peer {
    NO_PEER.(ip := ip, load := Report(0, 0, 0, 1), valid := true)
  }

  predicate Stale(p: Peer, now: int) {
    now - p.lastSeen > PEER_TIMEOUT_SECS
  }

  // ------------------------------------------------------------ slots

  /** The first index from `i` on at which `ip` is listed, or -1. */
  function SlotFrom(s: seq<Peer>, ip: Ip, i: nat): (r: int)
    requires i <= |s|
    ensures r == -1 || (i <= r < |s| && s[r].valid && s[r].ip == ip)
    ensures forall k :: i <= k < (if r < 0 then |s| else r) ==> !(s[k].valid && s[k].ip == ip)
    decreases |s| - i
  {
    if i == |s| then -1
    else if s[i].valid && s[i].ip == ip then i
    else SlotFrom(s, ip, i + 1)
  }

  /** The first index from `i` on at which nothing is listed, or -1. */
  function FreeFrom(s: seq<Peer>, i: nat): (r: int)
    requires i <= |s|
    ensures r == -1 || (i <= r < |s| && !s[r].valid)
    ensures forall k :: i <= k < (if r < 0 then |s| else r) ==> s[k].valid
    decreases |s| - i
  {
    if i == |s| then -1
    else if !s[i].valid then i
    else FreeFrom(s, i + 1)
  }

  /** What one locked operation on the registry does. */
  datatype Op =
    | Add(ip: Ip, port: uint16, now: int)
    | Remove(ip: Ip)
    | Touch(ip: Ip, now: int)
    | UpdateLoad(ip: Ip, load: Report, now: int)
    | Reap(sample: int)

  function AddSlots(s: seq<Peer>, ip: Ip, port: uint16, now: int): seq<Peer> {
    var i := SlotFrom(s, ip, 0);
    if i >= 0 then s[i := s[i].(port := port, lastSeen := now)]
    else
      var j := FreeFrom(s, 0);
      if j < 0 then s else s[j := NewPeer(ip).(port := port, lastSeen := now)]
  }

  function UpdateSlots(s: seq<Peer>, ip: Ip, f: Peer -> Peer): seq<Peer> {
    var i := SlotFrom(s, ip, 0);
    if i < 0 then s else s[i := f(s[i])]
  }

  function ReapSlots(s: seq<Peer>, sample: int): seq<Peer> {
    seq(|s|, i requires 0 <= i < |s| => if s[i].valid && Stale(s[i], sample) then NO_PEER else s[i])
  }

  function SlotStep(s: seq<Peer>, op: Op): (r: seq<Peer>)
    ensures |r| == |s|
  {
    match op
    case Add(ip, port, now) => AddSlots(s, ip, port, now)
    case Remove(ip) => UpdateSlots(s, ip, (p: Peer) => NO_PEER)
    case Touch(ip, now) => UpdateSlots(s, ip, (p: Peer) => p.(lastSeen := now))
    case UpdateLoad(ip, load, now) => UpdateSlots(s, ip, (p: Peer) => p.(load := load, lastSeen := now))
    case Reap(sample) => ReapSlots(s, sample)
  }

  /** The listed peers in slot order. */
  function Listed(s: seq<Peer>): seq<Peer> {
    if s == [] then []
    else
      var last := s[|s| - 1];
      Listed(s[..|s| - 1]) + if last.valid then [last] else []
  }

  /** The global table, guarded by its lock: each method is one atomic step. */
  class PeerTable {
    const slots: array<Peer>

    ghost predicate Valid() {
      slots.Length == MAX_PEERS
    }

    constructor ()
      ensures Valid() && fresh(slots) && slots.Length == 64
      ensures slots[..] == EmptySlots()
    {
      slots := new Peer[MAX_PEERS](_ => NO_PEER);
    }

    method FindSlot(ip: Ip) returns (idx: int)
      requires Valid()
      ensures idx == SlotFrom(slots[..], ip, 0)
    {
      for i := 0 to MAX_PEERS
        invariant SlotFrom(slots[..], ip, i) == SlotFrom(slots[..], ip, 0)
      {
        if slots[i].valid && slots[i].ip == ip {
          return i;
        }
      }
      return -1;
    }

    method FindFreeSlot() returns (idx: int)
      requires Valid()
      ensures idx == FreeFrom(slots[..], 0)
    {
      for i := 0 to MAX_PEERS
        invariant FreeFrom(slots[..], i) == FreeFrom(slots[..], 0)
      {
        if !slots[i].valid {
          return i;
        }
      }
      return -1;
    }

    method Add(ip: Ip, port: uint16, now: int)
      requires Valid()
      modifies slots
      ensures slots[..] == SlotStep(old(slots[..]), Op.Add(ip, port, now))
    {
      var idx := FindSlot(ip);
      if idx < 0 {
        idx := FindFreeSlot();
        if idx < 0 {
          return;
        }
        slots[idx] := NO_PEER;
        slots[idx] := slots[idx].(ip := ip);
        slots[idx] := slots[idx].(valid := true);
        slots[idx] := slots[idx].(load := slots[idx].load.(numCores := 1));
      }
      slots[idx] := slots[idx].(port := port);
      slots[idx] := slots[idx].(lastSeen := now);
    }

    method Remove(ip: Ip)
      requires Valid()
      modifies slots
      ensures slots[..] == SlotStep(old(slots[..]), Op.Remove(ip))
    {
      var idx := FindSlot(ip);
      if idx >= 0 {
        slots[idx] := NO_PEER;
      }
    }

    /** `resp` is the report as received, still in network order. */
    method UpdateLoad(ip: Ip, resp: seq<Byte>, now: int)
      requires Valid() && |resp| == REPORT_SIZE
      modifies slots
      ensures slots[..] == SlotStep(old(slots[..]), Op.UpdateLoad(ip, Unpack(resp), now))
    {
      var idx := FindSlot(ip);
      if idx >= 0 {
        slots[idx] := slots[idx].(load := Unpack(resp));
        slots[idx] := slots[idx].(lastSeen := now);
      }
    }

    method Touch(ip: Ip, now: int)
      requires Valid()
      modifies slots
      ensures slots[..] == SlotStep(old(slots[..]), Op.Touch(ip, now))
    {
      var idx := FindSlot(ip);
      if idx >= 0 {
        slots[idx] := slots[idx].(lastSeen := now);
      }
    }

    /** Snapshot the first `max` listed peers, in slot order, into `out`. */
    method GetAll(out: array<Peer>, max: int) returns (count: nat)
      requires Valid() && max <= out.Length && out != slots
      modifies out
      ensures count == if max < 0 then 0 else if max < |Listed(slots[..])| then max else |Listed(slots[..])|
      ensures count <= out.Length && out[..count] == Listed(slots[..])[..count]
    {
      count := 0;
      var i := 0;
      while i < MAX_PEERS && count < max
        invariant 0 <= i <= MAX_PEERS
        invariant count <= out.Length && (max >= 0 ==> count <= max) && (max < 0 ==> count == 0)
        invariant out[..count] == Listed(slots[..i])
      {
        assert slots[..i + 1][..i] == slots[..i];
        if slots[i].valid {
          ghost var before := out[..count];
          out[count] := slots[i];
          count := count + 1;
          assert out[..count] == before + [slots[i]];
        }
        i := i + 1;
      }
      ListedPrefix(slots[..], i);
      assert slots[..MAX_PEERS] == slots[..];
    }

    /**
     * `sample` is the clock reading the reaper took before it got the lock. A peer seen at most 30 s before that
     * stays as it was, any other is forgotten.
     */
    method ReapStale(sample: int)
      requires Valid()
      modifies slots
      ensures slots[..] == SlotStep(old(slots[..]), Op.Reap(sample))
      ensures UniqueIps(old(slots[..])) ==>
                forall ip: Ip ::
                  Lookup(slots[..], ip)
                  == match Lookup(old(slots[..]), ip)
                     case None => None
                     case Some(p) => if sample - p.lastSeen <= 30 then Some(p) else None
    {
      for i := 0 to MAX_PEERS
        invariant forall k :: 0 <= k < i ==> slots[k] == ReapSlots(old(slots[..]), sample)[k]
        invariant forall k :: i <= k < MAX_PEERS ==> slots[k] == old(slots[k])
      {
        if slots[i].valid && sample - slots[i].lastSeen > PEER_TIMEOUT_SECS {
          slots[i] := NO_PEER;
        }
      }
      assert slots[..] == SlotStep(old(slots[..]), Op.Reap(sample));
      hide *;
      if UniqueIps(old(slots[..])) {
        ReapedEverywhere(old(slots[..]), sample);
      }
    }

    /** One locked operation, of whichever thread. */
    method Perform(op: Op)
      requires Valid()
      modifies slots
      ensures slots[..] == SlotStep(old(slots[..]), op)
    {
      match op
      case Add(ip, port, now) => Add(ip, port, now);
      case Remove(ip) => Remove(ip);
      case Touch(ip, now) => Touch(ip, now);
      case UpdateLoad(ip, load, now) =>
        UnpackPack(load);
        UpdateLoad(ip, Pack(load), now);
      case Reap(sample) => ReapStale(sample);
    }

    /** A run of locked operations, of whichever threads. */
    method PerformAll(ops: seq<Op>)
      requires Valid()
      modifies slots
      ensures slots[..] == SlotRun(old(slots[..]), ops)
    {
      for i := 0 to |ops|
        invariant slots[..] == SlotRun(old(slots[..]), ops[..i])
      {
        Perform(ops[i]);
        assert ops[..i + 1][..i] == ops[..i];
      }
      assert ops[..|ops|] == ops;
    }
  }

  /** Listing goes slot by slot, in order, and takes what is valid. */
  lemma {:induction false} ListedInOrder(s: seq<Peer>, p: Peer, t: seq<Peer>)
    ensures Listed(s + [p] + t) == Listed(s) + (if p.valid then [p] else []) + Listed(t)
  {
    var whole := s + [p] + t;
    var init := whole[..|whole| - 1];
    if t == [] {
      assert init == s;
    } else {
      assert init == s + [p] + t[..|t| - 1];
      ListedInOrder(s, p, t[..|t| - 1]);
      hide Listed;
      ListedLast(whole);
      ListedLast(t);
    }
  }

  lemma ListedLast(s: seq<Peer>)
    requires s != []
    ensures Listed(s) == Listed(s[..|s| - 1]) + if s[|s| - 1].valid then [s[|s| - 1]] else []
  {}

  lemma {:induction false} ListedPrefix(s: seq<Peer>, i: nat)
    requires i <= |s|
    ensures |Listed(s[..i])| <= |Listed(s)|
    ensures Listed(s[..i]) == Listed(s)[..|Listed(s[..i])|]
  {
    if i < |s| {
      assert s[..|s| - 1][..i] == s[..i];
      ListedPrefix(s[..|s| - 1], i);
    } else {
      assert s[..i] == s;
    }
  }

  // ------------------------------------------------------------ the map the slots stand for

  ghost predicate UniqueIps(s: seq<Peer>) {
    forall i, j :: 0 <= i < j < |s| && s[i].valid && s[j].valid ==> s[i].ip != s[j].ip
  }

  /** What the table knows of an address. */
  function Lookup(s: seq<Peer>, ip: Ip): Option<Peer> {
    var i := SlotFrom(s, ip, 0);
    if i < 0 then None else Some(s[i])
  }

  type Registry = map<Ip, Peer>

  function Known(m: Registry, ip: Ip): Option<Peer> {
    if ip in m then Some(m[ip]) else None
  }

  ghost predicate Represents(s: seq<Peer>, m: Registry) {
    && UniqueIps(s)
    && forall ip: Ip :: Lookup(s, ip) == Known(m, ip)
  }

  /** The registry's specification: a map of bounded size, with no trace of slots. */
  function MapStep(m: Registry, op: Op): Registry {
    match op
    case Add(ip, port, now) =>
      if ip in m then m[ip := m[ip].(port := port, lastSeen := now)]
      else if |m| < MAX_PEERS then m[ip := NewPeer(ip).(port := port, lastSeen := now)]
      else m
    case Remove(ip) => m - {ip}
    case Touch(ip, now) => if ip in m then m[ip := m[ip].(lastSeen := now)] else m
    case UpdateLoad(ip, load, now) => if ip in m then m[ip := m[ip].(load := load, lastSeen := now)] else m
    case Reap(sample) => map ip | ip in m && !Stale(m[ip], sample) :: m[ip]
  }

  lemma SlotIs(s: seq<Peer>, i: nat)
    requires UniqueIps(s) && i < |s| && s[i].valid
    ensures SlotFrom(s, s[i].ip, 0) == i
  {}

  lemma NoSlot(s: seq<Peer>, ip: Ip)
    requires forall i :: 0 <= i < |s| ==> !(s[i].valid && s[i].ip == ip)
    ensures SlotFrom(s, ip, 0) == -1
  {}

  /** Writing a peer over its own entry, or over a free slot if it has none, changes only what is known of it. */
  lemma LookupWritten(s: seq<Peer>, i: nat, p: Peer, ip: Ip)
    requires UniqueIps(s) && i < |s| && p.valid
    requires if s[i].valid then p.ip == s[i].ip else Lookup(s, p.ip) == None
    ensures UniqueIps(s[i := p])
    ensures Lookup(s[i := p], ip) == if ip == p.ip then Some(p) else Lookup(s, ip)
  {
    var t := s[i := p];
    var k := SlotFrom(s, ip, 0);
    if ip == p.ip {
      SlotIs(t, i);
    } else if k >= 0 {
      SlotIs(t, k);
    } else {
      NoSlot(t, ip);
    }
  }

  lemma LookupCleared(s: seq<Peer>, i: nat, ip: Ip)
    requires UniqueIps(s) && i < |s| && s[i].valid
    ensures UniqueIps(s[i := NO_PEER])
    ensures Lookup(s[i := NO_PEER], ip) == if ip == s[i].ip then None else Lookup(s, ip)
  {
    var t := s[i := NO_PEER];
    var k := SlotFrom(s, ip, 0);
    if ip != s[i].ip && k >= 0 {
      SlotIs(t, k);
    } else {
      NoSlot(t, ip);
    }
  }

  lemma LookupReaped(s: seq<Peer>, sample: int, ip: Ip)
    requires UniqueIps(s)
    ensures UniqueIps(ReapSlots(s, sample))
    ensures Lookup(ReapSlots(s, sample), ip)
         == (var p := Lookup(s, ip); if p.Some? && Stale(p.value, sample) then None else p)
  {
    var t := ReapSlots(s, sample);
    var k := SlotFrom(s, ip, 0);
    if k >= 0 && !Stale(s[k], sample) {
      SlotIs(t, k);
    } else {
      NoSlot(t, ip);
    }
  }

  /** What an operation makes of the knowledge of one address; only Add depends on the rest of the table. */
  function After(before: Option<Peer>, ip: Ip, op: Op, full: bool): Option<Peer> {
    match op
    case Add(a, port, now) =>
      if a != ip then before
      else if before.Some? then Some(before.value.(port := port, lastSeen := now))
      else if full then None
      else Some(NewPeer(ip).(port := port, lastSeen := now))
    case Remove(a) => if a == ip then None else before
    case Touch(a, now) => if a == ip && before.Some? then Some(before.value.(lastSeen := now)) else before
    case UpdateLoad(a, load, now) =>
      if a == ip && before.Some? then Some(before.value.(load := load, lastSeen := now)) else before
    case Reap(sample) => if before.Some? && Stale(before.value, sample) then None else before
  }

  lemma KnownStep(m: Registry, op: Op, ip: Ip)
    ensures Known(MapStep(m, op), ip) == After(Known(m, ip), ip, op, |m| >= MAX_PEERS)
  {}

  lemma LookupStep(s: seq<Peer>, op: Op, ip: Ip)
    requires UniqueIps(s)
    ensures UniqueIps(SlotStep(s, op))
    ensures Lookup(SlotStep(s, op), ip) == After(Lookup(s, ip), ip, op, FreeFrom(s, 0) < 0)
  {
    if op.Reap? {
      LookupReaped(s, op.sample, ip);
    } else {
      var i := SlotFrom(s, op.ip, 0);
      var j := if op.Add? && i < 0 then FreeFrom(s, 0) else i;
      if j >= 0 {
        if op.Remove? {
          LookupCleared(s, j, ip);
        } else {
          LookupWritten(s, j, SlotStep(s, op)[j], ip);
        }
      }
    }
  }

  /** What each operation does to what is known of each address, in full. */
  lemma EachOperation(s: seq<Peer>, op: Op, ip: Ip)
    requires UniqueIps(s)
    ensures UniqueIps(SlotStep(s, op))
    ensures !op.Reap? && op.ip != ip ==> Lookup(SlotStep(s, op), ip) == Lookup(s, ip)
    ensures !op.Reap? && !op.Add? && Lookup(s, ip) == None ==> Lookup(SlotStep(s, op), ip) == None
    ensures op.Add? && op.ip == ip && Lookup(s, ip) == None ==>
              Lookup(SlotStep(s, op), ip)
              == if forall k :: 0 <= k < |s| ==> s[k].valid then None
                 else Some(Peer(ip, op.port, Report(0, 0, 0, 1), op.now, true))
    ensures !op.Reap? && op.ip == ip && Lookup(s, ip).Some? ==>
              var p := Lookup(s, ip).value;
              Lookup(SlotStep(s, op), ip)
              == match op
                 case Add(_, port, now) => Some(p.(port := port, lastSeen := now))
                 case Remove(_) => None
                 case Touch(_, now) => Some(p.(lastSeen := now))
                 case UpdateLoad(_, load, now) => Some(p.(load := load, lastSeen := now))
    ensures op.Reap? ==>
              Lookup(SlotStep(s, op), ip)
              == if Lookup(s, ip).Some? && op.sample - Lookup(s, ip).value.lastSeen <= 30 then Lookup(s, ip) else None
  {
    LookupStep(s, op, ip);
    hide SlotStep, Lookup, UniqueIps;
  }

  lemma ReapedEverywhere(s: seq<Peer>, sample: int)
    requires UniqueIps(s)
    ensures forall ip: Ip ::
              Lookup(SlotStep(s, Reap(sample)), ip)
              == match Lookup(s, ip)
                 case None => None
                 case Some(p) => if sample - p.lastSeen <= 30 then Some(p) else None
  {
    hide UniqueIps, Lookup, SlotStep;
    forall ip: Ip
      ensures Lookup(SlotStep(s, Reap(sample)), ip)
           == match Lookup(s, ip)
              case None => None
              case Some(p) => if sample - p.lastSeen <= 30 then Some(p) else None
    {
      EachOperation(s, Reap(sample), ip);
    }
  }

  /** A table without its last slot stands for the map without that slot's entry. */
  lemma RepresentsInit(s: seq<Peer>, m: Registry)
    requires s != [] && Represents(s, m)
    ensures var last := s[|s| - 1];
            && Represents(s[..|s| - 1], if last.valid then m - {last.ip} else m)
            && (last.valid ==> last.ip in m)
  {
    var last := s[|s| - 1];
    var m' := if last.valid then m - {last.ip} else m;
    forall ip: Ip ensures Lookup(s[..|s| - 1], ip) == Known(m', ip) {
      LookupInit(s, ip);
    }
    if last.valid {
      SlotIs(s, |s| - 1);
      assert Lookup(s, last.ip) == Known(m, last.ip);
    }
  }

  lemma {:induction false} SizeOf(s: seq<Peer>, m: Registry)
    requires Represents(s, m)
    ensures |m| == |Listed(s)| <= |s|
    ensures |m| < |s| <==> FreeFrom(s, 0) >= 0
  {
    if s == [] {
      if m != map[] {
        var ip: Ip :| ip in m;
        assert Lookup(s, ip) == Known(m, ip);
      }
    } else {
      var init, last := s[..|s| - 1], s[|s| - 1];
      var m' := if last.valid then m - {last.ip} else m;
      RepresentsInit(s, m);
      SizeOf(init, m');
      if last.valid {
        assert m.Keys == m'.Keys + {last.ip};
      }
      assert s == init + [last];
      assert FreeFrom(s, 0) >= 0 <==> exists i :: 0 <= i < |s| && !s[i].valid;
    }
  }

  lemma LookupInit(s: seq<Peer>, ip: Ip)
    requires s != [] && UniqueIps(s)
    ensures var last := s[|s| - 1];
            Lookup(s[..|s| - 1], ip) == if last.valid && last.ip == ip then None else Lookup(s, ip)
  {
    var init, last := s[..|s| - 1], s[|s| - 1];
    var k := SlotFrom(s, ip, 0);
    if k >= 0 && k < |init| {
      SlotIs(init, k);
    } else {
      NoSlot(init, ip);
    }
  }

  /** One operation on the slots is one operation on the map. */
  lemma StepRefines(s: seq<Peer>, m: Registry, op: Op)
    requires |s| == MAX_PEERS && Represents(s, m)
    ensures Represents(SlotStep(s, op), MapStep(m, op))
  {
    SizeOf(s, m);
    LookupStep(s, op, "");
    forall ip: Ip
      ensures Lookup(SlotStep(s, op), ip) == Known(MapStep(m, op), ip)
    {
      LookupStep(s, op, ip);
      KnownStep(m, op, ip);
    }
  }

  function EmptySlots(): (s: seq<Peer>)
    ensures |s| == MAX_PEERS
  {
    seq(MAX_PEERS, _ => NO_PEER)
  }

  function SlotRun(s: seq<Peer>, ops: seq<Op>): (r: seq<Peer>)
    ensures |r| == |s|
  {
    if ops == [] then s else SlotStep(SlotRun(s, ops[..|ops| - 1]), ops[|ops| - 1])
  }

  function MapRun(ops: seq<Op>): Registry {
    if ops == [] then map[] else MapStep(MapRun(ops[..|ops| - 1]), ops[|ops| - 1])
  }

  /**
   * From peer_list_init on, whatever operations follow and in whatever order the lock admits them, no address is
   * in two slots and the table is the bounded map that the same operations make.
   */
  lemma {:induction false} RunRefines(ops: seq<Op>)
    ensures Represents(SlotRun(EmptySlots(), ops), MapRun(ops)) && |MapRun(ops)| <= 64
  {
    if ops == [] {
      forall ip: Ip ensures Lookup(EmptySlots(), ip) == None {
        NoSlot(EmptySlots(), ip);
      }
    } else {
      RunRefines(ops[..|ops| - 1]);
      StepRefines(SlotRun(EmptySlots(), ops[..|ops| - 1]), MapRun(ops[..|ops| - 1]), ops[|ops| - 1]);
    }
    SizeOf(SlotRun(EmptySlots(), ops), MapRun(ops));
  }

  /** After any operations at most 64 peers are listed, and a new one is dropped exactly when it would be the 65th. */
  lemma Capacity(ops: seq<Op>, ip: Ip, port: uint16, now: int)
    requires Lookup(SlotRun(EmptySlots(), ops), ip) == None
    ensures var s := SlotRun(EmptySlots(), ops);
            |Listed(s)| <= 64 && (Lookup(SlotStep(s, Add(ip, port, now)), ip) == None <==> |Listed(s)| == 64)
  {
    var s := SlotRun(EmptySlots(), ops);
    RunRefines(ops);
    SizeOf(s, MapRun(ops));
    LookupStep(s, Add(ip, port, now), ip);
    hide SlotStep, SlotRun, MapRun, Lookup, UniqueIps;
  }

  /** A snapshot lists each known address once, with its entry, and nothing else. */
  lemma {:induction false} SnapshotExact(s: seq<Peer>)
    requires UniqueIps(s)
    ensures forall i, j :: 0 <= i < j < |Listed(s)| ==> Listed(s)[i].ip != Listed(s)[j].ip
    ensures forall p :: p in Listed(s) <==> Lookup(s, p.ip) == Some(p)
  {
    if s != [] {
      var init, last := s[..|s| - 1], s[|s| - 1];
      SnapshotExact(init);
      forall p: Peer ensures p in Listed(s) <==> Lookup(s, p.ip) == Some(p) {
        LookupInit(s, p.ip);
        if last.valid {
          SlotIs(s, |s| - 1);
        }
      }
      if last.valid {
        forall i | 0 <= i < |Listed(init)| ensures Listed(init)[i].ip != last.ip {
          assert Listed(init)[i] in Listed(init);
          LookupInit(s, last.ip);
        }
      }
    }
  }
}
