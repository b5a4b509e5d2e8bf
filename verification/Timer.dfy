/** The 5 ms timer interrupt and the schedule of work ticks it produces. */
module Timer {
  import opened Bytes
  import opened MsgInterface

  const PHASES: nat := 10

  /** Timer interrupts per work tick, from the configured query cycle in seconds. */
  function CycleOf(queryCycle: byte): (c: nat)
    ensures 20 <= c <= 5100
  {
    if queryCycle > 0 then 20 * queryCycle as int else 20
  }

  function NextCount(cnt: nat, cycle: nat): nat {
    if cnt + 1 >= cycle * PHASES then 0 else cnt + 1
  }

  /** The work tick an interrupt asks for when the counter stands at `cnt`. */
  function Tick(cnt: nat, cycle: nat): seq<Msg>
    requires cycle > 0
  {
    if cnt % cycle == 0 then [Msg(MSG_WORKTICK, (cnt / cycle) % PHASES)] else []
  }

  class TickTimer {
    const ring: MsgRing
    var timerCnt: nat
    var cycle: nat
    var lwipLocaltime: nat

    ghost predicate Valid()
      reads this
    {
      0 < cycle <= 5100 && timerCnt < cycle * PHASES && lwipLocaltime < 0x1_0000_0000
    }

    constructor (ring: MsgRing, queryCycle: byte)
      ensures Valid() && this.ring == ring && timerCnt == 0 && cycle == CycleOf(queryCycle)
    {
      this.ring := ring;
      timerCnt, lwipLocaltime := 0, 0;
      if queryCycle > 0 {
        cycle := 20 * queryCycle as int;
      } else {
        cycle := 20;
      }
    }

    method TimerProcess()
      requires Valid() && ring.Valid()
      modifies this, ring`iPush, ring`n, ring.list
      ensures Valid() && ring.Valid()
      ensures cycle == old(cycle) && timerCnt == NextCount(old(timerCnt), cycle)
      ensures lwipLocaltime == (old(lwipLocaltime) + 5) % 0x1_0000_0000
      ensures ring.Pending() == var due := Tick(old(timerCnt), cycle);
                                if due == [] then old(ring.Pending()) else Enqueue(old(ring.Pending()), due[0])
    {
      lwipLocaltime := (lwipLocaltime + 5) % 0x1_0000_0000;
      if timerCnt % cycle == 0 {
        var status := ring.PublishMsg(MSG_WORKTICK, (timerCnt / cycle) % PHASES);
      }
      timerCnt := timerCnt + 1;
      if timerCnt >= cycle * PHASES {
        timerCnt := 0;
      }
    }
  }

  // ----- the schedule

  /** Counter after n interrupts, and the work ticks asked for by them. */
  function CountAfter(cycle: nat, n: nat): nat {
    if n == 0 then 0 else NextCount(CountAfter(cycle, n - 1), cycle)
  }

  function TicksAfter(cycle: nat, n: nat): seq<Msg>
    requires cycle > 0
  {
    if n == 0 then [] else TicksAfter(cycle, n - 1) + Tick(CountAfter(cycle, n - 1), cycle)
  }

  /** The work ticks 0, 1, .., 9, 0, 1, .. */
  function Schedule(k: nat): seq<Msg> {
    seq(k, i requires 0 <= i < k => Msg(MSG_WORKTICK, i % PHASES))
  }

  function CeilDiv(n: nat, c: nat): nat
    requires c > 0
  {
    (n + c - 1) / c
  }

  lemma Quotient(n: nat, c: nat, q: nat, r: nat)
    requires 0 <= r < c && n == c * q + r
    ensures n / c == q && n % c == r
  {
    var d := n / c - q;
    assert c * d == r - n % c by {
      assert n == c * (n / c) + n % c;
      assert c * (n / c) == c * q + c * d;
    }
  }

  /** A counter that wraps after ten cycles tells cycle and phase of the true count. */
  lemma WrappedCount(n: nat, c: nat)
    requires c > 0
    ensures (n % (c * PHASES)) % c == n % c
    ensures (n % (c * PHASES)) / c == (n / c) % PHASES
  {
    var q, r := n / c, n % c;
    var k, p := q / PHASES, q % PHASES;
    SplitRounds(c, k, p);
    Quotient(n, c * PHASES, k, c * p + r);
    Quotient(c * p + r, c, p, r);
  }

  lemma SplitRounds(c: nat, k: nat, p: nat)
    requires p < PHASES
    ensures c * (PHASES * k + p) == (c * PHASES) * k + c * p
    ensures 0 <= c * p <= c * PHASES - c
  {
    assert c * (PHASES * k + p) == c * (PHASES * k) + c * p;
    assert c * p == 0 || p >= 1;
    assert c * PHASES - c - c * p == c * (PHASES - 1 - p);
  }

  lemma CeilDivIs(n: nat, c: nat, q: nat, r: nat)
    requires r < c && n == c * q + r
    ensures CeilDiv(n, c) == if r == 0 then q else q + 1
  {
    if r == 0 {
      Quotient(n + c - 1, c, q, c - 1);
    } else {
      assert c * (q + 1) == c * q + c;
      Quotient(n + c - 1, c, q + 1, r - 1);
    }
  }

  lemma CeilDivStep(n: nat, c: nat)
    requires c > 0
    ensures CeilDiv(n + 1, c) == CeilDiv(n, c) + if n % c == 0 then 1 else 0
    ensures n % c == 0 ==> CeilDiv(n, c) == n / c
  {
    var q, r := n / c, n % c;
    CeilDivIs(n, c, q, r);
    if r + 1 == c {
      assert c * (q + 1) == c * q + c;
      CeilDivIs(n + 1, c, q + 1, 0);
    } else {
      CeilDivIs(n + 1, c, q, r + 1);
    }
  }

  lemma {:induction false} CounterIsModular(cycle: nat, n: nat)
    requires cycle > 0
    ensures CountAfter(cycle, n) == n % (cycle * PHASES)
  {
    if n == 0 {
      Quotient(0, cycle * PHASES, 0, 0);
    } else {
      CounterIsModular(cycle, n - 1);
      ModStep(n - 1, cycle * PHASES);
    }
  }

  lemma ModStep(n: nat, m: nat)
    requires m > 0
    ensures n % m < m
    ensures (n + 1) % m == if n % m + 1 == m then 0 else n % m + 1
  {
    var q, r := n / m, n % m;
    if r + 1 == m {
      assert n + 1 == m * (q + 1) + 0;
      Quotient(n + 1, m, q + 1, 0);
    } else {
      Quotient(n + 1, m, q, r + 1);
    }
  }

  /** After n interrupts exactly the first ceil(n / cycle) ticks of 0..9, 0..9, .. were asked for. */
  lemma {:induction false} TickSchedule(cycle: nat, n: nat)
    requires cycle > 0
    ensures TicksAfter(cycle, n) == Schedule(CeilDiv(n, cycle))
  {
    if n == 0 {
      Quotient(cycle - 1, cycle, 0, cycle - 1);
    } else {
      TickSchedule(cycle, n - 1);
      CounterIsModular(cycle, n - 1);
      WrappedCount(n - 1, cycle);
      CeilDivStep(n - 1, cycle);
      Remainder(n - 1, cycle);
    }
  }

  lemma Remainder(n: nat, c: nat)
    requires c > 0
    ensures ((n / c) % PHASES) % PHASES == (n / c) % PHASES
  {
  }

  lemma PhaseTimes(cycle: nat, t: nat, p: nat)
    requires cycle > 0 && p < PHASES
    ensures Tick(CountAfter(cycle, t), cycle) == [Msg(MSG_WORKTICK, p)] <==> t % (cycle * PHASES) == cycle * p
  {
    CounterIsModular(cycle, t);
    ModStep(t, cycle * PHASES);
    PhaseOfCount(CountAfter(cycle, t), cycle, p);
  }

  lemma PhaseOfCount(w: nat, c: nat, p: nat)
    requires c > 0 && p < PHASES && w < c * PHASES
    ensures w % c == 0 && (w / c) % PHASES == p <==> w == c * p
  {
    var q, r := w / c, w % c;
    assert w == c * q + r;
    FewerFactors(c, q, PHASES);
    if w == c * p {
      Quotient(w, c, p, 0);
    }
  }

  lemma FewerFactors(c: nat, q: nat, k: nat)
    requires c > 0 && c * q < c * k
    ensures q < k
  {
    assert c * (q - k) == c * q - c * k;
  }

  /**
   With a query cycle of q seconds (zero counting as one), interrupt number t asks for phase p
   exactly when t stands 20qp interrupts into a round of 200q: one phase comes every 200q.
   */
  lemma PhasePeriod(queryCycle: byte, t: nat, p: nat)
    requires p < PHASES
    ensures var q: nat := if queryCycle > 0 then queryCycle else 1;
            Tick(CountAfter(CycleOf(queryCycle), t), CycleOf(queryCycle)) == [Msg(MSG_WORKTICK, p)]
            <==> t % (200 * q) == 20 * q * p
  {
    PhaseTimes(CycleOf(queryCycle), t, p);
  }
}
