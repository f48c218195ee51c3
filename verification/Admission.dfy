/**
 * Admission and counting under concurrency: the accept loop tests the active counter, but a handler only raises it
 * once its thread has received and parsed its task.
 */
module Admission {
  import opened Bytes
  import opened Common
  import opened LoadMonitor

  /**
   * Where an admitted handler stands. Starting a task is two atomic additions, so there is a moment at which it is
   * counted as active but not yet in the total.
   */
  datatype Phase = Waiting | HalfStarted | Running | Finished | Aborted

  datatype State = State(handlers: seq<Phase>, active: uint32, total: uint32)

  datatype Event =
    | Admit                // the accept loop finds room; the handler's thread follows
    | Reject               // the accept loop closes the connection
    | CountActive(i: nat)  // first half of load_task_start
    | CountTotal(i: nat)   // second half
    | Finish(i: nat)       // load_task_done
    | Abort(i: nat)        // the handler gives up before starting a task

  const INITIAL: State := State([], 0, 0)

  predicate InPhase(s: State, i: nat, p: Phase) {
    i < |s.handlers| && s.handlers[i] == p
  }

  predicate Enabled(s: State, e: Event) {
    match e
    case Admit => !AtCapacity(s.active)
    case Reject => AtCapacity(s.active)
    case CountActive(i) => InPhase(s, i, Waiting)
    case CountTotal(i) => InPhase(s, i, HalfStarted)
    case Finish(i) => InPhase(s, i, Running)
    case Abort(i) => InPhase(s, i, Waiting)
  }

  function Step(s: State, e: Event): State
    requires Enabled(s, e)
  {
    match e
    case Admit => s.(handlers := s.handlers + [Waiting])
    case Reject => s
    case CountActive(i) => s.(handlers := s.handlers[i := HalfStarted], active := Inc(s.active))
    case CountTotal(i) => s.(handlers := s.handlers[i := Running], total := Inc(s.total))
    case Finish(i) => s.(handlers := s.handlers[i := Finished], active := Dec(s.active))
    case Abort(i) => s.(handlers := s.handlers[i := Aborted])
  }

  /** A run from the initial state is its list of states. */
  ghost predicate IsRun(ss: seq<State>) {
    && |ss| > 0 && ss[0] == INITIAL
    && forall n :: 0 < n < |ss| ==> IsStep(ss[n - 1], ss[n])
  }

  ghost predicate IsStep(s: State, t: State) {
    exists e :: Enabled(s, e) && t == Step(s, e)
  }

  /** How many handlers are in phase `p`. */
  function Count(hs: seq<Phase>, p: Phase): (n: nat)
    ensures n <= |hs|
  {
    if hs == [] then 0
    else Count(hs[..|hs| - 1], p) + if hs[|hs| - 1] == p then 1 else 0
  }

  function WaitingNow(s: State): nat {
    Count(s.handlers, Waiting)
  }

  /** The handlers between the start and the end of their task. */
  function ActiveNow(s: State): nat {
    Count(s.handlers, HalfStarted) + Count(s.handlers, Running)
  }

  lemma {:induction false} CountMove(hs: seq<Phase>, i: nat, to: Phase, p: Phase)
    requires i < |hs| && hs[i] != to
    ensures Count(hs[i := to], p) == Count(hs, p) + (if p == to then 1 else 0) - (if p == hs[i] then 1 else 0)
    ensures p == hs[i] ==> Count(hs, p) >= 1
  {
    var last := |hs| - 1;
    if i == last {
      assert hs[i := to][..last] == hs[..last];
    } else {
      assert hs[i := to][..last] == hs[..last][i := to];
      CountMove(hs[..last], i, to, p);
    }
  }

  lemma CountAppend(hs: seq<Phase>, q: Phase, p: Phase)
    ensures Count(hs + [q], p) == Count(hs, p) + if p == q then 1 else 0
  {
    assert (hs + [q])[..|hs|] == hs;
  }

  /** What an event does to the number of handlers in a phase. */
  function Shift(s: State, e: Event, p: Phase): int
    requires Enabled(s, e)
  {
    match e
    case Admit => if p == Waiting then 1 else 0
    case Reject => 0
    case CountActive(_) => if p == HalfStarted then 1 else if p == Waiting then -1 else 0
    case CountTotal(_) => if p == Running then 1 else if p == HalfStarted then -1 else 0
    case Finish(_) => if p == Finished then 1 else if p == Running then -1 else 0
    case Abort(_) => if p == Aborted then 1 else if p == Waiting then -1 else 0
  }

  lemma CountStep(s: State, e: Event, p: Phase)
    requires Enabled(s, e)
    ensures Count(Step(s, e).handlers, p) == Count(s.handlers, p) + Shift(s, e, p)
  {
    match e
    case Admit => CountAppend(s.handlers, Waiting, p);
    case Reject =>
    case CountActive(i) => CountMove(s.handlers, i, HalfStarted, p);
    case CountTotal(i) => CountMove(s.handlers, i, Running, p);
    case Finish(i) => CountMove(s.handlers, i, Finished, p);
    case Abort(i) => CountMove(s.handlers, i, Aborted, p);
  }

  // ------------------------------------------------------------ conservation

  /** The counters are the numbers of handlers, modulo what an atomic_uint can hold. */
  ghost predicate Conserved(s: State) {
    && s.active == ActiveNow(s) % 0x1_0000_0000
    && s.total == (Count(s.handlers, Running) + Count(s.handlers, Finished)) % 0x1_0000_0000
  }

  lemma WrapInc(n: nat)
    ensures Inc(n % 0x1_0000_0000) == (n + 1) % 0x1_0000_0000
  {}

  lemma WrapDec(n: nat)
    requires n >= 1
    ensures Dec(n % 0x1_0000_0000) == (n - 1) % 0x1_0000_0000
  {}

  /** How an event moves the two counters. */
  lemma CountersStep(s: State, e: Event)
    requires Enabled(s, e)
    ensures ActiveNow(Step(s, e)) - ActiveNow(s) == Shift(s, e, HalfStarted) + Shift(s, e, Running)
    ensures Step(s, e).active == if e.CountActive? then Inc(s.active) else if e.Finish? then Dec(s.active) else s.active
    ensures Step(s, e).total == if e.CountTotal? then Inc(s.total) else s.total
    ensures e.Finish? ==> ActiveNow(s) >= 1
  {
    CountStep(s, e, HalfStarted);
    CountStep(s, e, Running);
  }

  lemma StepConserves(s: State, e: Event)
    requires Enabled(s, e) && Conserved(s)
    ensures Conserved(Step(s, e))
  {
    CountersStep(s, e);
    CountStep(s, e, Running);
    CountStep(s, e, Finished);
    var n, d := ActiveNow(s), Count(s.handlers, Running) + Count(s.handlers, Finished);
    WrapInc(n);
    WrapInc(d);
    if e.Finish? {
      WrapDec(n);
    }
    hide Step, Inc, Dec, ActiveNow, Enabled, Count;
  }

  lemma InitialConserved()
    ensures Conserved(INITIAL)
  {
    assert forall p :: Count([], p) == 0;
    hide Count;
  }

  lemma IsStepConserves(s: State, t: State)
    requires IsStep(s, t) && Conserved(s)
    ensures Conserved(t)
  {
    hide Conserved, Step, Enabled;
    var e :| Enabled(s, e) && t == Step(s, e);
    StepConserves(s, e);
  }

  lemma {:induction false} Reachable(ss: seq<State>, n: nat)
    requires IsRun(ss) && n < |ss|
    ensures Conserved(ss[n])
  {
    hide Conserved, IsStep;
    if n == 0 {
      InitialConserved();
    } else {
      Reachable(ss, n - 1);
      IsStepConserves(ss[n - 1], ss[n]);
    }
  }

  lemma {:induction false} CountsDisjoint(hs: seq<Phase>)
    ensures Count(hs, HalfStarted) + Count(hs, Running) + Count(hs, Finished) <= |hs|
  {
    if hs != [] {
      CountsDisjoint(hs[..|hs| - 1]);
    }
  }

  /**
   * As long as fewer than 2^32 connections have been admitted: `active` is the number of tasks under way, `total`
   * is that plus the finished ones, except for those caught between the two additions, and a handler that is
   * about to finish always finds `active` positive.
   */
  lemma CountersExact(ss: seq<State>, n: nat)
    requires IsRun(ss) && n < |ss| && |ss[n].handlers| < 0x1_0000_0000
    ensures ss[n].active == ActiveNow(ss[n])
    ensures ss[n].total + Count(ss[n].handlers, HalfStarted) == ss[n].active + Count(ss[n].handlers, Finished)
    ensures forall i :: InPhase(ss[n], i, Running) ==> ss[n].active >= 1
  {
    Reachable(ss, n);
    CountsDisjoint(ss[n].handlers);
    forall i | InPhase(ss[n], i, Running)
      ensures Count(ss[n].handlers, Running) >= 1
    {
      CountMove(ss[n].handlers, i, Finished, Running);
    }
  }

  // ------------------------------------------------------------ the real bound

  /** At most `p` admitted handlers are ever on their way to start a task. */
  ghost predicate WaitingBounded(ss: seq<State>, p: nat) {
    forall n :: 0 <= n < |ss| ==> WaitingNow(ss[n]) <= p
  }

  lemma StepBounded(s: State, e: Event, p: nat)
    requires Enabled(s, e) && Conserved(s) && p + 7 < 0x1_0000_0000
    requires ActiveNow(s) + WaitingNow(s) <= 7 + p && WaitingNow(Step(s, e)) <= p
    ensures ActiveNow(Step(s, e)) + WaitingNow(Step(s, e)) <= 7 + p
  {
    CountersStep(s, e);
    CountStep(s, e, Waiting);
    hide Step, Inc, Dec, ActiveNow, Count;
  }

  lemma IsStepBounded(s: State, t: State, p: nat)
    requires IsStep(s, t) && Conserved(s) && p + 7 < 0x1_0000_0000
    requires ActiveNow(s) + WaitingNow(s) <= 7 + p && WaitingNow(t) <= p
    ensures ActiveNow(t) + WaitingNow(t) <= 7 + p
  {
    hide Conserved, Step, Enabled, ActiveNow, WaitingNow;
    var e :| Enabled(s, e) && t == Step(s, e);
    StepBounded(s, e, p);
  }

  /** The accept loop's limit lets through one less than itself, plus however many are on their way. */
  lemma {:induction false} AdmissionBound(ss: seq<State>, p: nat, n: nat)
    requires IsRun(ss) && WaitingBounded(ss, p) && n < |ss|
    requires p + 7 < 0x1_0000_0000
    ensures ActiveNow(ss[n]) + WaitingNow(ss[n]) <= 7 + p
  {
    assert ActiveNow(INITIAL) + WaitingNow(INITIAL) == 0;
    hide Conserved, IsStep, ActiveNow, WaitingNow;
    if n > 0 {
      AdmissionBound(ss, p, n - 1);
      Reachable(ss, n - 1);
      assert WaitingNow(ss[n]) <= p;
      IsStepBounded(ss[n - 1], ss[n], p);
    }
  }

  /** A state with `a` running tasks and `w` handlers on their way, reached without ever exceeding `p` of those. */
  ghost predicate Attains(ss: seq<State>, p: nat, a: nat, w: nat) {
    && IsRun(ss) && WaitingBounded(ss, p)
    && ss[|ss| - 1].handlers == seq(a, _ => Running) + seq(w, _ => Waiting)
    && ss[|ss| - 1].active == a % 0x1_0000_0000
  }

  lemma Extend(ss: seq<State>, p: nat, e: Event) returns (tt: seq<State>)
    requires IsRun(ss) && WaitingBounded(ss, p) && Enabled(ss[|ss| - 1], e)
    requires WaitingNow(Step(ss[|ss| - 1], e)) <= p
    ensures IsRun(tt) && WaitingBounded(tt, p) && tt[|tt| - 1] == Step(ss[|ss| - 1], e)
  {
    tt := ss + [Step(ss[|ss| - 1], e)];
    assert IsStep(ss[|ss| - 1], tt[|ss|]);
  }

  lemma {:induction false} CountRow(a: nat, w: nat)
    ensures Count(seq(a, _ => Running) + seq(w, _ => Waiting), Waiting) == w
  {
    var hs := seq(a, _ => Running) + seq(w, _ => Waiting);
    if w > 0 {
      assert hs[..|hs| - 1] == seq(a, _ => Running) + seq(w - 1, _ => Waiting);
      CountRow(a, w - 1);
    } else if a > 0 {
      assert hs[..|hs| - 1] == seq(a - 1, _ => Running) + seq(0, _ => Waiting);
      CountRow(a - 1, 0);
    }
  }

  lemma AdmitOne(ss: seq<State>, p: nat, a: nat, w: nat) returns (tt: seq<State>)
    requires Attains(ss, p, a, w) && a < 8 && w < p
    ensures Attains(tt, p, a, w + 1)
  {
    var s := ss[|ss| - 1];
    assert s.handlers + [Waiting] == seq(a, _ => Running) + seq(w + 1, _ => Waiting);
    CountRow(a, w + 1);
    tt := Extend(ss, p, Admit);
  }

  lemma StartOne(ss: seq<State>, p: nat, a: nat, w: nat) returns (tt: seq<State>)
    requires Attains(ss, p, a, w) && 0 < w <= p
    ensures Attains(tt, p, a + 1, w - 1)
  {
    var s := ss[|ss| - 1];
    CountRow(a, w);
    CountStep(s, CountActive(a), Waiting);
    tt := Extend(ss, p, CountActive(a));
    var t := tt[|tt| - 1];
    CountStep(t, CountTotal(a), Waiting);
    tt := Extend(tt, p, CountTotal(a));
    WrapInc(a);
    StartRow(a, w);
  }

  lemma StartRow(a: nat, w: nat)
    requires w > 0
    ensures (seq(a, _ => Running) + seq(w, _ => Waiting))[a := HalfStarted][a := Running]
         == seq(a + 1, _ => Running) + seq(w - 1, _ => Waiting)
  {}

  lemma {:induction false} AdmitMany(p: nat, ss: seq<State>, w: nat) returns (tt: seq<State>)
    requires Attains(ss, p, 7, 0) && w <= p
    ensures Attains(tt, p, 7, w)
  {
    if w == 0 {
      tt := ss;
    } else {
      tt := AdmitMany(p, ss, w - 1);
      tt := AdmitOne(tt, p, 7, w - 1);
    }
  }

  lemma {:induction false} StartMany(p: nat, ss: seq<State>, a: nat, w: nat) returns (tt: seq<State>)
    requires Attains(ss, p, a, w) && w <= p
    ensures Attains(tt, p, a + w, 0)
    decreases w
  {
    if w == 0 {
      tt := ss;
    } else {
      tt := StartOne(ss, p, a, w);
      tt := StartMany(p, tt, a + 1, w - 1);
    }
  }

  lemma {:induction false} OneByOne(p: nat, a: nat) returns (ss: seq<State>)
    requires 1 <= p && a <= 7
    ensures Attains(ss, p, a, 0)
  {
    if a == 0 {
      ss := [INITIAL];
      CountRow(0, 0);
      assert INITIAL.handlers == seq(0, _ => Running) + seq(0, _ => Waiting);
    } else {
      ss := OneByOne(p, a - 1);
      ss := AdmitOne(ss, p, a - 1, 0);
      ss := StartOne(ss, p, a - 1, 1);
    }
  }

  /** The bound is attained: seven tasks running, `p` connections let in at once, then all of them start. */
  lemma BoundAttained(p: nat) returns (ss: seq<State>)
    requires 1 <= p
    ensures IsRun(ss) && WaitingBounded(ss, p)
    ensures ActiveNow(ss[|ss| - 1]) == 7 + p
  {
    ss := OneByOne(p, 7);
    ss := AdmitMany(p, ss, p);
    ss := StartMany(p, ss, 7, p);
    AllRunning(7 + p);
    assert ss[|ss| - 1].handlers == seq(7 + p, _ => Running);
  }

  lemma {:induction false} AllRunning(a: nat)
    ensures Count(seq(a, _ => Running), Running) == a && Count(seq(a, _ => Running), HalfStarted) == 0
  {
    if a > 0 {
      assert seq(a, _ => Running)[..a - 1] == seq(a - 1, _ => Running);
      AllRunning(a - 1);
    }
  }

  /**
   * The intended limit of MAX_CONCURRENT_TASKS holds in all runs exactly when no two admitted handlers are ever
   * on their way to start a task at the same time.
   */
  lemma LimitHoldsExactly(p: nat)
    ensures (forall ss, n: nat :: IsRun(ss) && WaitingBounded(ss, p) && n < |ss|
               ==> ActiveNow(ss[n]) <= 8)
       <==> p <= 1
  {
    if p <= 1 {
      forall ss, n: nat | IsRun(ss) && WaitingBounded(ss, p) && n < |ss|
        ensures ActiveNow(ss[n]) <= 8
      {
        AdmissionBound(ss, p, n);
      }
    } else {
      var ss := BoundAttained(p);
      assert ActiveNow(ss[|ss| - 1]) > 8;
    }
  }
}
