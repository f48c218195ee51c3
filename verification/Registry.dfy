/**
 * The registry under concurrency: listener, reaper and dispatcher threads interleave at every lock acquisition,
 * a HELLO takes the lock twice, and the reaper reads the clock before it waits for the lock.
 */
module Registry {
  import opened Bytes
  import opened Common
  import opened LoadReport
  import opened PeerList

  // how long the reaper sleeps between two scans
  const REAP_PERIOD: int := PEER_TIMEOUT_SECS / 2

  /**
   * `touching` is the address whose HELLO has been added but not yet touched; `sample` the clock reading with
   * which the reaper waits for the lock; `reaped` the reading its last completed scan used (at the start, the
   * time the reaper was started).
   */
  datatype State = State(slots: seq<Peer>, clock: int, touching: Option<Ip>, sample: Option<int>, reaped: int)

  datatype Event =
    | Tick(now: int)
    | HelloAdd(ip: Ip, port: uint16)
    | HelloTouch
    | Bye(ip: Ip)
    | LoadReply(ip: Ip, load: Report)
    | SampleClock
    | ReapNow

  ghost predicate Init(s: State) {
    s.slots == EmptySlots() && s.touching == None && s.sample == None && s.reaped == s.clock
  }

  /** The listener handles one datagram at a time and drops those from its own address. */
  ghost predicate Enabled(local: Ip, s: State, e: Event) {
    match e
    case Tick(now) => now >= s.clock
    case HelloAdd(ip, _) => s.touching == None && ip != local
    case HelloTouch => s.touching.Some?
    case Bye(ip) => s.touching == None && ip != local
    case LoadReply(_, _) => true
    case SampleClock => s.sample == None
    case ReapNow => s.sample.Some?
  }

  /** The operation an event performs on the table, if any. */
  function OpOf(s: State, e: Event): Option<Op> {
    match e
    case HelloAdd(ip, port) => Some(Add(ip, port, s.clock))
    case HelloTouch => if s.touching.Some? then Some(Touch(s.touching.value, s.clock)) else None
    case Bye(ip) => Some(Remove(ip))
    case LoadReply(ip, load) => Some(UpdateLoad(ip, load, s.clock))
    case ReapNow => if s.sample.Some? then Some(Reap(s.sample.value)) else None
    case _ => None
  }

  function Step(s: State, e: Event): State {
    var op := OpOf(s, e);
    var t := if op.Some? then s.(slots := SlotStep(s.slots, op.value)) else s;
    match e
    case Tick(now) => t.(clock := now)
    case HelloAdd(ip, _) => t.(touching := Some(ip))
    case HelloTouch => t.(touching := None)
    case SampleClock => t.(sample := Some(s.clock))
    case ReapNow => if s.sample.Some? then t.(sample := None, reaped := s.sample.value) else t
    case _ => t
  }

  /** The states that a sequence of events goes through. */
  datatype Trace = Trace(states: seq<State>, events: seq<Event>)

  type Run = t: Trace | |t.states| == |t.events| + 1
    witness Trace([State([], 0, None, None, 0)], [])

  /** The state after the first `n` events. */
  function At(r: Run, n: nat): State
    requires n <= |r.events|
  {
    r.states[n]
  }

  ghost predicate IsRun(local: Ip, r: Run) {
    && Init(At(r, 0))
    && forall n :: 0 <= n < |r.events| ==> Follows(local, r, n)
  }

  ghost predicate Follows(local: Ip, r: Run, n: nat)
    requires n < |r.events|
  {
    Enabled(local, At(r, n), r.events[n]) && At(r, n + 1) == Step(At(r, n), r.events[n])
  }

  // ------------------------------------------------------------ what holds in every reachable state

  /**
   * No address is in two slots and the local one is in none; no entry is older than the time-out by the clock
   * reading of the last scan; nothing comes from the future.
   */
  ghost predicate Inv(local: Ip, s: State) {
    && |s.slots| == MAX_PEERS && UniqueIps(s.slots)
    && Lookup(s.slots, local) == None
    && s.touching != Some(local)
    && s.reaped <= s.clock
    && (s.sample.Some? ==> s.reaped <= s.sample.value <= s.clock)
    && forall ip: Ip :: Lookup(s.slots, ip).Some? ==> FreshEntry(s, Lookup(s.slots, ip).value)
  }

  predicate FreshEntry(s: State, p: Peer) {
    s.reaped - PEER_TIMEOUT_SECS <= p.lastSeen <= s.clock
  }

  lemma InitInv(local: Ip, s: State)
    requires Init(s)
    ensures Inv(local, s)
  {
    forall ip: Ip ensures Lookup(s.slots, ip) == None {
      NoSlot(s.slots, ip);
    }
  }

  /** The effect of an event on what is known of one address. */
  lemma StepLookup(s: State, e: Event, ip: Ip)
    requires UniqueIps(s.slots)
    ensures UniqueIps(Step(s, e).slots)
    ensures Lookup(Step(s, e).slots, ip)
         == match OpOf(s, e)
            case None => Lookup(s.slots, ip)
            case Some(op) => After(Lookup(s.slots, ip), ip, op, FreeFrom(s.slots, 0) < 0)
  {
    var op := OpOf(s, e);
    if op.Some? {
      LookupStep(s.slots, op.value, ip);
    }
  }

  lemma StepInv(local: Ip, s: State, e: Event)
    requires Inv(local, s) && Enabled(local, s, e)
    ensures Inv(local, Step(s, e))
  {
    var t := Step(s, e);
    StepLookup(s, e, local);
    forall ip: Ip | Lookup(t.slots, ip).Some?
      ensures FreshEntry(t, Lookup(t.slots, ip).value)
    {
      StepLookup(s, e, ip);
    }
  }

  /** Every state of every interleaving. */
  lemma {:induction false} Reachable(local: Ip, r: Run, n: nat)
    requires IsRun(local, r) && n <= |r.events|
    ensures Inv(local, At(r, n))
  {
    hide Inv, Init, Enabled, Step;
    if n == 0 {
      InitInv(local, At(r, 0));
    } else {
      Reachable(local, r, n - 1);
      assert Follows(local, r, n - 1);
      StepInv(local, At(r, n - 1), r.events[n - 1]);
    }
  }

  lemma RunStep(local: Ip, r: Run, n: nat)
    requires IsRun(local, r) && n < |r.events|
    ensures Inv(local, At(r, n)) && Enabled(local, At(r, n), r.events[n])
    ensures At(r, n + 1) == Step(At(r, n), r.events[n])
  {
    Reachable(local, r, n);
    assert Follows(local, r, n);
    hide Inv, Enabled, Step;
  }

  lemma ListedIsFresh(local: Ip, r: Run, n: nat, ip: Ip)
    requires IsRun(local, r) && n <= |r.events| && Lookup(At(r, n).slots, ip).Some?
    ensures Lookup(At(r, n).slots, ip).value.lastSeen >= At(r, n).reaped - PEER_TIMEOUT_SECS
  {
    Reachable(local, r, n);
    hide Lookup, At;
  }

  /** The table never lists the node itself, whatever is reaped or dropped between the two halves of a HELLO. */
  lemma SelfExcluded(local: Ip, r: Run, n: nat)
    requires IsRun(local, r) && n <= |r.events|
    ensures forall p :: p in Listed(At(r, n).slots) ==> p.ip != local
  {
    Reachable(local, r, n);
    SnapshotExact(At(r, n).slots);
  }

  /** At any moment of a run, a HELLO makes its sender known at the port it names, unless 64 others are listed. */
  lemma HelloKnown(local: Ip, r: Run, n: nat, ip: Ip, port: uint16)
    requires IsRun(local, r) && n < |r.events| && r.events[n] == HelloAdd(ip, port)
    ensures match Lookup(At(r, n + 1).slots, ip)
            case Some(p) => p.port == port && p.lastSeen == At(r, n).clock
            case None => Lookup(At(r, n).slots, ip) == None && |Listed(At(r, n).slots)| == 64
  {
    RunStep(local, r, n);
    var s := At(r, n).slots;
    EachOperation(s, Add(ip, port, At(r, n).clock), ip);
    AllValid(s);
    hide SlotStep, Lookup, UniqueIps, Listed;
  }

  lemma {:induction false} AllValid(s: seq<Peer>)
    ensures (forall k :: 0 <= k < |s| ==> s[k].valid) ==> |Listed(s)| == |s|
  {
    if s != [] {
      var init := s[..|s| - 1];
      AllValid(init);
      assert forall k :: 0 <= k < |init| ==> init[k] == s[k];
    }
  }

  // ------------------------------------------------------------ timing

  /** The event refreshes what is known of `ip`, if it is listed, and may list it. */
  predicate Sights(s: State, e: Event, ip: Ip) {
    || (e.HelloAdd? && e.ip == ip)
    || (e.HelloTouch? && s.touching == Some(ip))
    || (e.LoadReply? && e.ip == ip)
  }

  ghost predicate Silent(r: Run, ip: Ip, i: nat, j: nat)
    requires i <= j <= |r.events|
  {
    forall n :: i <= n < j ==> !Sights(At(r, n), r.events[n], ip)
  }

  /** The reaper reads the clock again within `gap` of its previous reading. */
  ghost predicate ReapsEvery(r: Run, gap: int) {
    forall n :: 0 <= n < |r.events| && r.events[n].SampleClock? ==> At(r, n).clock - At(r, n).reaped <= gap
  }

  lemma StepSilent(s: State, e: Event, ip: Ip)
    requires UniqueIps(s.slots) && !Sights(s, e, ip)
    ensures var before, after := Lookup(s.slots, ip), Lookup(Step(s, e).slots, ip);
            after.Some? ==> before.Some? && after.value.lastSeen == before.value.lastSeen
  {
    StepLookup(s, e, ip);
  }

  /** A silent peer is never listed anew, and what is known of it does not get younger. */
  lemma {:induction false} StillSilent(local: Ip, r: Run, ip: Ip, i: nat, j: nat)
    requires IsRun(local, r) && i <= j <= |r.events| && Silent(r, ip, i, j)
    ensures var before, after := Lookup(At(r, i).slots, ip), Lookup(At(r, j).slots, ip);
            after.Some? ==> before.Some? && after.value.lastSeen == before.value.lastSeen
  {
    hide Step, Lookup, Enabled;
    if i < j {
      StillSilent(local, r, ip, i, j - 1);
      RunStep(local, r, j - 1);
      StepSilent(At(r, j - 1), r.events[j - 1], ip);
    }
  }

  /** The first moment at which the last completed scan used a reading above `t`. */
  lemma {:induction false} FirstScanAbove(r: Run, i: nat, j: nat, t: int) returns (k: nat)
    requires i < j <= |r.events| && At(r, i).reaped <= t < At(r, j).reaped
    ensures i < k <= j && At(r, k - 1).reaped <= t < At(r, k).reaped
  {
    if At(r, j - 1).reaped > t {
      k := FirstScanAbove(r, i, j - 1, t);
    } else {
      k := j;
    }
  }

  /** Only a scan moves the reading of the last scan, and it moves it to the reading it held. */
  lemma ScanMoved(s: State, e: Event)
    requires Step(s, e).reaped != s.reaped
    ensures e == ReapNow && s.sample == Some(Step(s, e).reaped)
  {}

  lemma {:induction false} PendingSampleRecent(local: Ip, r: Run, gap: int, n: nat)
    requires IsRun(local, r) && ReapsEvery(r, gap) && n <= |r.events|
    ensures At(r, n).sample.Some? ==> At(r, n).sample.value - At(r, n).reaped <= gap
  {
    hide SlotStep, Lookup, Inv;
    if n > 0 {
      PendingSampleRecent(local, r, gap, n - 1);
      RunStep(local, r, n - 1);
    }
  }

  lemma ScanInTime(local: Ip, r: Run, gap: int, k: nat, t: int)
    requires IsRun(local, r) && ReapsEvery(r, gap) && k < |r.events|
    requires At(r, k).reaped <= t < At(r, k + 1).reaped
    ensures r.events[k] == ReapNow && At(r, k + 1).reaped <= t + gap
  {
    PendingSampleRecent(local, r, gap, k);
    RunStep(local, r, k);
    ScanMoved(At(r, k), r.events[k]);
  }

  /**
   * A peer last seen at time t and silent from then on is gone from the first completed scan whose clock reading
   * exceeds t + 30, and stays gone; with readings at most `gap` apart that reading is at most t + 30 + gap.
   */
  lemma SilentPeerGone(local: Ip, r: Run, ip: Ip, i: nat, j: nat, gap: int) returns (k: nat)
    requires IsRun(local, r) && ReapsEvery(r, gap)
    requires i <= j <= |r.events| && Silent(r, ip, i, j)
    requires Lookup(At(r, i).slots, ip).Some?
    requires At(r, j).reaped > Lookup(At(r, i).slots, ip).value.lastSeen + PEER_TIMEOUT_SECS
    ensures var t := Lookup(At(r, i).slots, ip).value.lastSeen;
            && i < k <= j
            && r.events[k - 1] == ReapNow
            && At(r, k - 1).reaped <= t + PEER_TIMEOUT_SECS < At(r, k).reaped <= t + PEER_TIMEOUT_SECS + gap
            && forall n :: k <= n <= j ==> Lookup(At(r, n).slots, ip) == None
  {
    hide *;
    var t := Lookup(At(r, i).slots, ip).value.lastSeen;
    ListedIsFresh(local, r, i, ip);
    k := FirstScanAbove(r, i, j, t + PEER_TIMEOUT_SECS);
    ScanInTime(local, r, gap, k - 1, t + PEER_TIMEOUT_SECS);
    SilentWithin(r, ip, i, j, k);
    StillSilent(local, r, ip, i, k);
    if Lookup(At(r, k).slots, ip).Some? {
      ListedIsFresh(local, r, k, ip);
    }
    forall n | k <= n <= j ensures Lookup(At(r, n).slots, ip) == None {
      SilentWithin(r, ip, k, j, n);
      StillSilent(local, r, ip, k, n);
    }
  }

  lemma SilentWithin(r: Run, ip: Ip, i: nat, j: nat, k: nat)
    requires i <= k <= j <= |r.events| && Silent(r, ip, i, j)
    ensures Silent(r, ip, i, k) && Silent(r, ip, k, j)
  {}

  /**
   * With the reaper's own period, for a peer of which there is no HELLO and no load reply any more: gone for good by
   * a reading of at most t + 45.
   */
  lemma SilentPeerGoneInTime(local: Ip, r: Run, ip: Ip, i: nat, j: nat)
    requires IsRun(local, r) && i <= j <= |r.events|
    requires forall n :: 0 <= n < |r.events| && r.events[n].SampleClock? ==> At(r, n).clock - At(r, n).reaped <= 15
    requires forall n :: i <= n < j ==>
               match r.events[n]
               case HelloAdd(a, _) => a != ip
               case HelloTouch => At(r, n).touching != Some(ip)
               case LoadReply(a, _) => a != ip
               case _ => true
    requires Lookup(At(r, i).slots, ip).Some?
    requires At(r, j).reaped > Lookup(At(r, i).slots, ip).value.lastSeen + 30
    ensures exists k :: i < k <= j && At(r, k).reaped <= Lookup(At(r, i).slots, ip).value.lastSeen + 45
                        && forall n :: k <= n <= j ==> Lookup(At(r, n).slots, ip) == None
  {
    assert ReapsEvery(r, REAP_PERIOD);
    assert Silent(r, ip, i, j);
    hide IsRun, Lookup, At, ReapsEvery, Silent;
    var k := SilentPeerGone(local, r, ip, i, j, REAP_PERIOD);
  }

  /** When `ip`, listed at `i`, was last sighted before `n`. */
  function LastSighted(r: Run, ip: Ip, i: nat, n: nat): int
    requires i <= n <= |r.events| && Lookup(At(r, i).slots, ip).Some?
  {
    if n == i then Lookup(At(r, i).slots, ip).value.lastSeen
    else if Sights(At(r, n - 1), r.events[n - 1], ip) then At(r, n - 1).clock
    else LastSighted(r, ip, i, n - 1)
  }

  /** Never more than the time-out since the last sighting, and no BYE. */
  ghost predicate KeepsUp(r: Run, ip: Ip, i: nat, j: nat)
    requires i <= j <= |r.events| && Lookup(At(r, i).slots, ip).Some?
  {
    && (forall n :: i <= n <= j ==> At(r, n).clock - LastSighted(r, ip, i, n) <= PEER_TIMEOUT_SECS)
    && (forall n :: i <= n < j ==> r.events[n] != Bye(ip))
  }

  /** What is known of a peer last sighted at `last`, and how a waiting scan would judge it. */
  ghost predicate Kept(s: State, ip: Ip, last: int) {
    && Lookup(s.slots, ip).Some? && Lookup(s.slots, ip).value.lastSeen == last
    && (s.sample.Some? ==> s.sample.value - last <= PEER_TIMEOUT_SECS)
  }

  lemma StepKept(local: Ip, s: State, e: Event, ip: Ip, last: int)
    requires Inv(local, s) && Enabled(local, s, e)
    requires Kept(s, ip, last) && s.clock - last <= PEER_TIMEOUT_SECS && e != Bye(ip)
    ensures Kept(Step(s, e), ip, if Sights(s, e, ip) then s.clock else last)
  {
    StepLookup(s, e, ip);
  }

  lemma KeepsUpBefore(r: Run, ip: Ip, i: nat, j: nat)
    requires i < j <= |r.events| && Lookup(At(r, i).slots, ip).Some? && KeepsUp(r, ip, i, j)
    ensures KeepsUp(r, ip, i, j - 1)
    ensures At(r, j - 1).clock - LastSighted(r, ip, i, j - 1) <= PEER_TIMEOUT_SECS
    ensures r.events[j - 1] != Bye(ip)
    ensures LastSighted(r, ip, i, j) == if Sights(At(r, j - 1), r.events[j - 1], ip) then At(r, j - 1).clock
                                        else LastSighted(r, ip, i, j - 1)
  {
    hide At, Lookup, Sights;
  }

  lemma KeptAtStart(local: Ip, r: Run, ip: Ip, i: nat)
    requires IsRun(local, r) && i <= |r.events|
    requires Lookup(At(r, i).slots, ip).Some? && KeepsUp(r, ip, i, i)
    ensures Kept(At(r, i), ip, LastSighted(r, ip, i, i))
  {
    Reachable(local, r, i);
    hide At, Lookup;
    assert At(r, i).clock - LastSighted(r, ip, i, i) <= PEER_TIMEOUT_SECS;
  }

  /** Such a peer stays listed, and the table holds the time of its last sighting. */
  lemma {:induction false} StaysListed(local: Ip, r: Run, ip: Ip, i: nat, j: nat)
    requires IsRun(local, r) && i <= j <= |r.events|
    requires Lookup(At(r, i).slots, ip).Some? && KeepsUp(r, ip, i, j)
    ensures Kept(At(r, j), ip, LastSighted(r, ip, i, j))
    decreases j
  {
    hide *;
    if i < j {
      KeepsUpBefore(r, ip, i, j);
      StaysListed(local, r, ip, i, j - 1);
      RunStep(local, r, j - 1);
      StepKept(local, At(r, j - 1), r.events[j - 1], ip, LastSighted(r, ip, i, j - 1));
    } else {
      KeptAtStart(local, r, ip, i);
    }
  }

  lemma {:induction false} ClockNeverGoesBack(local: Ip, r: Run, m: nat, n: nat)
    requires IsRun(local, r) && m <= n <= |r.events|
    ensures At(r, m).clock <= At(r, n).clock
  {
    hide SlotStep, Lookup, Inv;
    if m < n {
      ClockNeverGoesBack(local, r, m, n - 1);
      RunStep(local, r, n - 1);
    }
  }

  lemma {:induction false} NoEarlierThanSightings(local: Ip, r: Run, ip: Ip, i: nat, n: nat)
    requires IsRun(local, r) && i <= n <= |r.events| && Lookup(At(r, i).slots, ip).Some?
    ensures LastSighted(r, ip, i, n) >= Lookup(At(r, i).slots, ip).value.lastSeen
    ensures forall m :: i <= m < n && Sights(At(r, m), r.events[m], ip) ==> LastSighted(r, ip, i, n) >= At(r, m).clock
  {
    hide At, Sights, Lookup, IsRun;
    if i < n {
      NoEarlierThanSightings(local, r, ip, i, n - 1);
      Reachable(local, r, i);
      ClockNeverGoesBack(local, r, i, n - 1);
      forall m | i <= m < n ensures At(r, m).clock <= At(r, n - 1).clock {
        ClockNeverGoesBack(local, r, m, n - 1);
      }
    }
  }

  /**
   * A listed peer that says no BYE, and of which at every moment a HELLO or a load reply is at most 30 s old, is
   * never reaped, although the reaper reads its clock before it waits for the lock.
   */
  lemma NeverReaped(local: Ip, r: Run, ip: Ip, i: nat, j: nat)
    requires IsRun(local, r) && i <= j <= |r.events| && Lookup(At(r, i).slots, ip).Some?
    requires forall n :: i <= n < j ==> r.events[n] != Bye(ip)
    requires forall n :: i <= n <= j ==>
               || At(r, n).clock - Lookup(At(r, i).slots, ip).value.lastSeen <= 30
               || exists m :: i <= m < n && At(r, n).clock - At(r, m).clock <= 30
                              && match r.events[m]
                                 case HelloAdd(a, _) => a == ip
                                 case HelloTouch => At(r, m).touching == Some(ip)
                                 case LoadReply(a, _) => a == ip
                                 case _ => false
    ensures Lookup(At(r, j).slots, ip).Some?
  {
    forall n | i <= n <= j ensures At(r, n).clock - LastSighted(r, ip, i, n) <= PEER_TIMEOUT_SECS {
      NoEarlierThanSightings(local, r, ip, i, n);
    }
    hide IsRun, At, Lookup, LastSighted;
    assert KeepsUp(r, ip, i, j);
    StaysListed(local, r, ip, i, j);
  }
}
