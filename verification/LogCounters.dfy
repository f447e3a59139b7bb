// The static counters behind LOG_EVERY_N, LOG_IF_EVERY_N and LOG_FIRST_N, and the schedules
// they produce. Counters are unbounded here.
module LogCounters {

  // ---------------------------------------------------------------------------------
  // One execution of each statement
  // ---------------------------------------------------------------------------------

  /** SOME_KIND_OF_LOG_EVERY_N: count up, and wrap by subtracting. */
  function EveryNext(c: nat, n: nat): nat
    requires n >= 1
  {
    if c + 1 > n then c + 1 - n else c + 1
  }

  /** SOME_KIND_OF_LOG_IF_EVERY_N, when its condition holds: count up modulo n. */
  function IfNext(c: nat, n: nat): nat
    requires n >= 1
  {
    (c + 1) % n
  }

  /** SOME_KIND_OF_LOG_FIRST_N: count up, but never past n + 1. */
  function FirstNext(c: nat, n: int): nat {
    if c <= n then c + 1 else c
  }

  // ---------------------------------------------------------------------------------
  // Counters after m executions, from zero
  // ---------------------------------------------------------------------------------

  function EveryAfter(m: nat, n: nat): nat
    requires n >= 1
  {
    if m == 0 then 0 else EveryNext(EveryAfter(m - 1, n), n)
  }

  /** Does execution m, counted from 1, log? */
  predicate EveryLogs(m: nat, n: nat)
    requires n >= 1
  {
    m >= 1 && EveryAfter(m, n) == 1
  }

  function IfAfter(conditions: seq<bool>, n: nat): nat
    requires n >= 1
  {
    if conditions == [] then 0
    else
      var before := IfAfter(conditions[..|conditions| - 1], n);
      if conditions[|conditions| - 1] then IfNext(before, n) else before
  }

  predicate IfLogs(conditions: seq<bool>, n: nat)
    requires n >= 1
  {
    conditions != [] && conditions[|conditions| - 1] && IfAfter(conditions, n) == 1 % n
  }

  function FirstAfter(m: nat, n: int): nat {
    if m == 0 then 0 else FirstNext(FirstAfter(m - 1, n), n)
  }

  predicate FirstLogs(m: nat, n: int) {
    m >= 1 && FirstAfter(m, n) <= n
  }

  function Trues(conditions: seq<bool>): nat {
    if conditions == [] then 0
    else Trues(conditions[..|conditions| - 1]) + if conditions[|conditions| - 1] then 1 else 0
  }

  // ---------------------------------------------------------------------------------
  // Schedules
  // ---------------------------------------------------------------------------------

  lemma MulSucc(q: nat, n: nat)
    ensures (q + 1) * n == q * n + n
  {
  }

  lemma {:induction false} Gap(a: nat, b: nat, n: nat)
    requires a > b
    ensures a * n >= b * n + n
  {
    MulSucc(a - 1, n);
    if a - 1 > b {
      Gap(a - 1, b, n);
    }
  }

  lemma Euclid(x: nat, n: nat) returns (q: nat, r: nat)
    requires n >= 1
    ensures q == x / n && r == x % n && x == q * n + r && r < n
  {
    q, r := x / n, x % n;
  }

  lemma Quotient(x: nat, q: nat, r: nat, n: nat)
    requires x == q * n + r && r < n
    ensures x / n == q && x % n == r
  {
    var q', r' := Euclid(x, n);
    if q > q' {
      Gap(q, q', n);
    } else if q < q' {
      Gap(q', q, n);
    }
  }

  lemma Wrap(x: nat, n: nat)
    requires n >= 1
    ensures (x + 1) % n == if x % n == n - 1 then 0 else x % n + 1
    ensures (x + 1) / n == x / n + if (x + 1) % n == 0 then 1 else 0
  {
    var q, r := Euclid(x, n);
    MulSucc(q, n);
    if r == n - 1 {
      Quotient(x + 1, q + 1, 0, n);
    } else {
      Quotient(x + 1, q, r + 1, n);
    }
  }

  lemma ShiftMod(x: nat, n: nat)
    requires n >= 1
    ensures (x + n) % n == x % n
  {
    var q, r := Euclid(x, n);
    MulSucc(q, n);
    Quotient(x + n, q + 1, r, n);
  }

  /** The subtracting counter runs 1, 2, ..., n, 1, 2, ... */
  lemma {:induction false} EveryCounter(m: nat, n: nat)
    requires n >= 1
    ensures EveryAfter(m, n) == if m == 0 then 0 else (m - 1) % n + 1
  {
    if m > 1 {
      EveryCounter(m - 1, n);
      Wrap(m - 2, n);
    }
  }

  /** LOG_EVERY_N logs on executions 1, n + 1, 2n + 1, ... and on no others. */
  lemma EverySchedule(m: nat, n: nat)
    requires n >= 1
    ensures EveryLogs(m, n) <==> m >= 1 && (m - 1) % n == 0
  {
    EveryCounter(m, n);
  }

  function EveryTotal(m: nat, n: nat): nat
    requires n >= 1
  {
    if m == 0 then 0 else EveryTotal(m - 1, n) + if EveryLogs(m, n) then 1 else 0
  }

  /** In m executions it logs ceil(m / n) times. */
  lemma {:induction false} EveryCount(m: nat, n: nat)
    requires n >= 1
    ensures EveryTotal(m, n) == (m + n - 1) / n
  {
    if m == 0 {
      Quotient(n - 1, 0, n - 1, n);
    } else {
      EveryCount(m - 1, n);
      EverySchedule(m, n);
      Wrap(m + n - 2, n);
      ShiftMod(m - 1, n);
    }
  }

  lemma ModUpTo(c: nat, n: nat)
    requires 1 <= n && c <= n
    ensures c % n == if c == n then 0 else c
  {
    if c == n {
      Quotient(c, 1, 0, n);
    } else {
      Quotient(c, 0, c, n);
    }
  }

  /** The two counters stay in step: one in 0..n-1, the other in 1..n, equal modulo n. */
  lemma {:induction false} CountersInStep(conditions: seq<bool>, n: nat)
    requires n >= 1
    ensures IfAfter(conditions, n) == EveryAfter(Trues(conditions), n) % n
    ensures EveryAfter(Trues(conditions), n) <= n
  {
    if conditions == [] {
      ModUpTo(0, n);
    } else {
      var before := conditions[..|conditions| - 1];
      CountersInStep(before, n);
      if conditions[|conditions| - 1] {
        var c := EveryAfter(Trues(before), n);
        ModUpTo(c, n);
        ModUpTo(1, n);
        if c < n {
          ModUpTo(c + 1, n);
        }
      }
    }
  }

  /** LOG_IF_EVERY_N logs exactly where LOG_EVERY_N would on the executions whose condition holds. */
  lemma SchemesAgree(conditions: seq<bool>, n: nat)
    requires n >= 1 && conditions != []
    ensures IfLogs(conditions, n)
       <==> conditions[|conditions| - 1] && EveryLogs(Trues(conditions), n)
  {
    CountersInStep(conditions, n);
    EveryCounter(Trues(conditions), n);
    ModUpTo(EveryAfter(Trues(conditions), n), n);
    ModUpTo(1, n);
  }

  /** LOG_FIRST_N logs on the first n executions and no others; its counter stops at n + 1. */
  lemma {:induction false} FirstSchedule(m: nat, n: int)
    ensures FirstLogs(m, n) <==> 1 <= m <= n
    ensures FirstAfter(m, n) == if n < 0 then 0 else if m <= n then m else if m == 0 then 0 else n + 1
  {
    if m > 0 {
      FirstSchedule(m - 1, n);
    }
  }

  // ---------------------------------------------------------------------------------
  // The statements and their static counters
  // ---------------------------------------------------------------------------------

  /** LOG_EVERY_N: the counters tell how often the statement has been executed, and it keeps the schedule. */
  class EveryN {
    const n: nat
    var occurrences: nat
    var modN: nat

    ghost predicate Valid()
      reads this
    {
      n >= 1 && modN == if occurrences == 0 then 0 else (occurrences - 1) % n + 1
    }

    constructor (n: nat)
      requires n >= 1
      ensures Valid() && this.n == n && occurrences == 0
    {
      this.n, occurrences, modN := n, 0, 0;
    }

    method Execute() returns (logs: bool)
      requires Valid()
      modifies this
      ensures Valid() && occurrences == old(occurrences) + 1
      ensures logs <==> (occurrences - 1) % n == 0
      ensures logs <==> EveryLogs(occurrences, n)
    {
      EveryCounter(occurrences, n);
      EveryCounter(occurrences + 1, n);
      EverySchedule(occurrences + 1, n);
      occurrences := occurrences + 1;
      modN := modN + 1;
      if modN > n {
        modN := modN - n;
      }
      logs := modN == 1;
    }
  }

  /** LOG_IF_EVERY_N: `history` is every condition the statement has met. */
  class IfEveryN {
    const n: nat
    var occurrences: nat
    var modN: nat
    ghost var history: seq<bool>

    ghost predicate Valid()
      reads this
    {
      n >= 1 && occurrences == |history| && modN == Trues(history) % n
    }

    constructor (n: nat)
      requires n >= 1
      ensures Valid() && this.n == n && history == []
    {
      this.n, occurrences, modN, history := n, 0, 0, [];
      Quotient(0, 0, 0, n);
    }

    method Execute(condition: bool) returns (logs: bool)
      requires Valid()
      modifies this
      ensures Valid() && history == old(history) + [condition]
      ensures logs <==> condition && (Trues(history) - 1) % n == 0
      ensures logs <==> IfLogs(history, n)
    {
      ghost var k := Trues(history);
      history := history + [condition];
      assert history[..|history| - 1] == old(history);
      Wrap(k, n);
      ModUpTo(1, n);
      EverySchedule(Trues(history), n);
      SchemesAgree(history, n);
      NextMod(k, n);
      occurrences := occurrences + 1;
      logs := false;
      if condition {
        modN := (modN + 1) % n;
        logs := modN == 1 % n;
      }
    }
  }

  /** Counting on from a remainder; and when the next count is one past a multiple. */
  lemma NextMod(k: nat, n: nat)
    requires n >= 1
    ensures (k % n + 1) % n == (k + 1) % n
    ensures (k + 1) % n == 1 % n <==> k % n == 0
  {
    Wrap(k, n);
    ModUpTo(1, n);
    ModUpTo(k % n + 1, n);
  }

  /** LOG_FIRST_N: its counter stops, so `executions` is kept beside it. */
  class FirstN {
    const n: int
    var occurrences: nat
    ghost var executions: nat

    ghost predicate Valid()
      reads this
    {
      occurrences == if n < 0 then 0 else if executions <= n then executions else n + 1
    }

    constructor (n: int)
      ensures Valid() && this.n == n && executions == 0
    {
      this.n, occurrences, executions := n, 0, 0;
    }

    method Execute() returns (logs: bool)
      requires Valid()
      modifies this
      ensures Valid() && executions == old(executions) + 1
      ensures logs <==> executions <= n
      ensures logs <==> FirstLogs(executions, n)
    {
      FirstSchedule(executions + 1, n);
      executions := executions + 1;
      if occurrences <= n {
        occurrences := occurrences + 1;
      }
      logs := occurrences <= n;
    }
  }
}
