/**
 * Load accounting: the two task counters, the load percentage and the score.
 */
module LoadMonitor {
  import opened Bytes
  import opened Common

  // atomic_uint arithmetic
  function Inc(n: uint32): uint32 {
    (n + 1) % 0x1_0000_0000
  }

  function Dec(n: uint32): uint32 {
    (n + 0xFFFF_FFFF) % 0x1_0000_0000
  }

  lemma DecInc(n: uint32)
    ensures ((n + 1) % 0x1_0000_0000 + 0x1_0000_0000 - 1) % 0x1_0000_0000 == n
  {
    if n == 0xFFFF_FFFF {
      assert (n + 1) % 0x1_0000_0000 == 0;
    } else {
      assert (n + 1) % 0x1_0000_0000 == n + 1;
    }
  }

  class Monitor {
    var active: uint32
    var total: uint32

    constructor ()
      ensures active == 0 && total == 0
    {
      active, total := 0, 0;
    }

    method TaskStart()
      modifies this
      ensures active == (old(active) + 1) % 0x1_0000_0000
      ensures total == (old(total) + 1) % 0x1_0000_0000
    {
      active := Inc(active);
      total := Inc(total);
    }

    method TaskDone()
      modifies this`active
      ensures active == (old(active) + 0x1_0000_0000 - 1) % 0x1_0000_0000
    {
      active := Dec(active);
    }
  }

  /** The accept loop's test. */
  predicate AtCapacity(active: uint32) {
    active >= MAX_CONCURRENT_TASKS
  }

  /** load_get_core_count: never zero. */
  function CoreCount(online: int): (n: int)
    ensures n >= 1 && (n == online || n == 1)
    ensures online >= 1 ==> n == online
  {
    if online < 1 then 1 else online
  }

  // load_get on Linux: the one-minute average, or a failure
  type LoadAverage = l: real | l >= 0.0 witness 0.0

  method LoadPercentage(load1: Option<LoadAverage>, online: int) returns (pct: real)
    ensures 0.0 <= pct <= 100.0
    ensures load1 == None ==> pct == 0.0
    ensures load1.Some? ==>
              if load1.value >= CoreCount(online) as real then pct == 100.0
              else pct * CoreCount(online) as real == load1.value * 100.0
  {
    if load1 == None {
      return 0.0;
    }
    var cores := CoreCount(online) as real;
    pct := load1.value / cores * 100.0;
    Quotient(load1.value, cores);
    if pct > 100.0 {
      pct := 100.0;
    }
  }

  lemma Quotient(a: real, b: real)
    requires a >= 0.0 && b > 0.0
    ensures a / b >= 0.0 && a / b * b == a
    ensures a / b >= 1.0 <==> a >= b
  {}

  /** A percentage and ten points for each active task, on this node as on every other. */
  function Score(pct: real, active: uint32): real {
    pct + 10.0 * active as real
  }

  /** An idle node scores its percentage, and each further task adds ten points. */
  lemma ScorePerTask(pct: real, active: uint32)
    ensures Score(pct, 0) == pct
    ensures active < 0xFFFF_FFFF ==> Score(pct, active + 1) == Score(pct, active) + 10.0
  {}
}
