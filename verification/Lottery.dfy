/** The lottery scheduler (p2A proc.c, settickets in sysfile.c). */
module Lottery {
  // Each round adds up the tickets of the RUNNABLE processes, doubled while a process has boosts
  // left, draws a number below the sum and walks the table to the winner.  Arithmetic on `int`
  // wraps at 32 bits, as the compiled code does.

  import opened Options
  import opened Params

  const RAND_RANGE: int := 0x8000_0000

  datatype ProcState = UNUSED | EMBRYO | SLEEPING | RUNNABLE | RUNNING | ZOMBIE

  datatype Proc = Proc(state: ProcState, pid: int, tickets: int, boosts: int, runticks: int,
                       chan: int, sleepstart: int, sleepticks: int)

  function Int32(x: int): int { (x + RAND_RANGE) % UINT_LIMIT - RAND_RANGE }

  // ---- shares ---------------------------------------------------------------------------

  function Weight(p: Proc): int {
    if !p.state.RUNNABLE? then 0 else if p.boosts > 0 then 2 * p.tickets else p.tickets
  }

  /** The tickets of the processes before slot i. */
  function Before(ps: seq<Proc>, i: nat): int
    requires i <= |ps|
  {
    if i == 0 then 0 else Before(ps, i - 1) + Weight(ps[i - 1])
  }

  function Total(ps: seq<Proc>): int { Before(ps, |ps|) }

  /** Draw d falls among the tickets of the process in slot i. */
  predicate Picks(ps: seq<Proc>, d: int, i: int) {
    0 <= i < |ps| && ps[i].state.RUNNABLE? && Before(ps, i) <= d < Before(ps, i) + Weight(ps[i])
  }

  ghost predicate SlotOk(ps: seq<Proc>, i: int)
    requires 0 <= i < |ps|
  {
    !ps[i].state.UNUSED? ==> 1 <= ps[i].tickets <= INT_MAX
  }

  /** Live processes hold a ticket. */
  ghost predicate TicketsOk(ps: seq<Proc>) {
    forall i {:trigger SlotOk(ps, i)} :: 0 <= i < |ps| ==> SlotOk(ps, i)
  }

  lemma {:induction false} BeforeGrows(ps: seq<Proc>, i: nat, j: nat)
    requires i <= j <= |ps| && TicketsOk(ps)
    ensures Before(ps, i) <= Before(ps, j)
    decreases j
  {
    if i < j {
      assert SlotOk(ps, j - 1);
      BeforeGrows(ps, i, j - 1);
    }
  }

  /** Each draw below the total picks a RUNNABLE process, and only one. */
  lemma {:induction false} OneWinner(ps: seq<Proc>, d: int) returns (i: int)
    requires TicketsOk(ps) && 0 <= d < Total(ps)
    ensures Picks(ps, d, i)
    ensures forall j :: Picks(ps, d, j) ==> j == i
  {
    i := 0;
    while i < |ps| && Before(ps, i + 1) <= d
      invariant 0 <= i <= |ps| && Before(ps, i) <= d
    {
      i := i + 1;
    }
    assert SlotOk(ps, i);
    forall j | Picks(ps, d, j) ensures j == i {
      PicksApart(ps, d, i, j);
    }
  }

  lemma {:induction false} PicksApart(ps: seq<Proc>, d: int, i: int, j: int)
    requires TicketsOk(ps) && Picks(ps, d, i) && Picks(ps, d, j)
    ensures i == j
  {
    if i < j {
      BeforeGrows(ps, i + 1, j);
    } else if j < i {
      BeforeGrows(ps, j + 1, i);
    }
  }

  /** The draws that pick slot i. */
  ghost function Wins(ps: seq<Proc>, i: int): set<int> { set d | 0 <= d < Total(ps) && Picks(ps, d, i) }

  /** A RUNNABLE process wins as many draws as it has tickets, twice as many while it is boosted, and
      a process that is not RUNNABLE wins none. */
  lemma {:induction false} ExactShare(ps: seq<Proc>, i: int)
    requires TicketsOk(ps) && 0 <= i < |ps|
    ensures !ps[i].state.RUNNABLE? ==> |Wins(ps, i)| == 0
    ensures ps[i].state.RUNNABLE? && ps[i].boosts <= 0 ==> |Wins(ps, i)| == ps[i].tickets
    ensures ps[i].state.RUNNABLE? && ps[i].boosts > 0 ==> |Wins(ps, i)| == 2 * ps[i].tickets
  {
    assert SlotOk(ps, i);
    BeforeGrows(ps, 0, i);
    BeforeGrows(ps, i + 1, |ps|);
    var lo, hi := Before(ps, i), Before(ps, i) + Weight(ps[i]);
    IntervalSize(lo, hi);
    assert Wins(ps, i) == Interval(lo, hi);
  }

  /** The draws won by the processes before slot i, counted one process at a time. */
  ghost function WonBefore(ps: seq<Proc>, i: nat): int
    requires i <= |ps|
  {
    if i == 0 then 0 else WonBefore(ps, i - 1) + |Wins(ps, i - 1)|
  }

  /** The total is the sum of the shares: there is a draw for every ticket and no other. */
  lemma {:induction false} SharesAddUp(ps: seq<Proc>, i: nat)
    requires TicketsOk(ps) && i <= |ps|
    ensures Before(ps, i) == WonBefore(ps, i)
    ensures i == |ps| ==> Total(ps) == WonBefore(ps, |ps|)
  {
    if i > 0 {
      SharesAddUp(ps, i - 1);
      ExactShare(ps, i - 1);
    }
  }

  ghost function Interval(lo: int, hi: int): set<int>
    decreases hi - lo
  {
    if lo >= hi then {} else Interval(lo, hi - 1) + {hi - 1}
  }

  lemma {:induction false} IntervalSize(lo: int, hi: int)
    requires lo <= hi
    ensures |Interval(lo, hi)| == hi - lo
    ensures forall d :: d in Interval(lo, hi) <==> lo <= d < hi
    decreases hi - lo
  {
    if lo < hi {
      IntervalSize(lo, hi - 1);
    }
  }

  /** Nobody can win exactly when nobody is RUNNABLE. */
  lemma {:induction false} NoTickets(ps: seq<Proc>)
    requires TicketsOk(ps)
    ensures Total(ps) == 0 <==> forall i :: 0 <= i < |ps| ==> !ps[i].state.RUNNABLE?
  {
    if i :| 0 <= i < |ps| && ps[i].state.RUNNABLE? {
      assert SlotOk(ps, i);
      BeforeGrows(ps, 0, i);
      BeforeGrows(ps, i + 1, |ps|);
    } else {
      NoneBefore(ps, |ps|);
    }
  }

  lemma {:induction false} NoneBefore(ps: seq<Proc>, n: nat)
    requires n <= |ps| && forall i :: 0 <= i < |ps| ==> !ps[i].state.RUNNABLE?
    ensures Before(ps, n) == 0
  {
    if n > 0 {
      NoneBefore(ps, n - 1);
    }
  }

  // ---- 32-bit sums ----------------------------------------------------------------------

  lemma {:induction false} Int32Add(a: int, b: int)
    ensures Int32(Int32(a) + b) == Int32(a + b) && Int32(a + Int32(b)) == Int32(a + b)
    ensures Int32(a) == a <==> -RAND_RANGE <= a <= INT_MAX
  {
  }

  /** The scheduler's sum, wrapping at 32 bits. */
  function Tally(ps: seq<Proc>, i: nat): int
    requires i <= |ps|
  {
    if i == 0 then 0 else Int32(Tally(ps, i - 1) + Int32(Weight(ps[i - 1])))
  }

  lemma {:induction false} TallyWraps(ps: seq<Proc>, i: nat)
    requires i <= |ps|
    ensures Tally(ps, i) == Int32(Before(ps, i))
  {
    if i > 0 {
      TallyWraps(ps, i - 1);
      Int32Add(Tally(ps, i - 1), Weight(ps[i - 1]));
      Int32Add(Before(ps, i - 1), Weight(ps[i - 1]));
    }
  }

  /** The tally is the ticket total exactly when the total fits an int. */
  lemma {:induction false} TallyExact(ps: seq<Proc>)
    requires TicketsOk(ps)
    ensures Tally(ps, |ps|) == Total(ps) <==> Total(ps) <= INT_MAX
  {
    TallyWraps(ps, |ps|);
    BeforeGrows(ps, 0, |ps|);
    Int32Add(Total(ps), 0);
  }

  /** One boosted process with 2^30 tickets makes the tally negative. */
  lemma {:induction false} TallyOverflows()
    ensures var p := Proc(RUNNABLE, 1, 0x4000_0000, 1, 0, 0, 0, 0);
            TicketsOk([p]) && Tally([p], 1) < 0
  {
    var ps := [Proc(RUNNABLE, 1, 0x4000_0000, 1, 0, 0, 0, 0)];
    assert Tally(ps, 0) == 0;
    assert forall i :: 0 <= i < |ps| ==> SlotOk(ps, i);
  }

  // ---- runs -----------------------------------------------------------------------------

  datatype Step =
    | Alloc(p: int, pid: int)                // allocproc
    | Publish(p: int, parent: int)           // the end of fork
    | Release(p: int)                        // a failed fork or a reaped zombie
    | Round(winner: Option<int>)             // one lottery: hold_lottery and the switch to its winner
    | Yield(p: int)
    | Sleep(p: int, chan: int, start: int, ticks: int)
    | Wakeup(chan: int, now: int)
    | Kill(p: int)
    | SetTickets(pid: int, tickets: int)
    | Exit(p: int)

  predicate Enabled(ps: seq<Proc>, s: Step) {
    match s
    case Alloc(p, _) => 0 <= p < |ps| && ps[p].state.UNUSED?
    case Publish(p, parent) => 0 <= p < |ps| && ps[p].state.EMBRYO? && 0 <= parent < |ps| && ps[parent].state.RUNNING?
    case Release(p) => 0 <= p < |ps| && (ps[p].state.EMBRYO? || ps[p].state.ZOMBIE?)
    case Round(w) => if w.Some? then 0 <= w.value < |ps| && ps[w.value].state.RUNNABLE? else Total(ps) > INT_MAX
    case Yield(p) => 0 <= p < |ps| && ps[p].state.RUNNING?
    case Sleep(p, _, _, _) => 0 <= p < |ps| && ps[p].state.RUNNING?
    case Wakeup(_, _) => true
    case Kill(p) => 0 <= p < |ps|
    case SetTickets(_, _) => true
    case Exit(p) => 0 <= p < |ps| && ps[p].state.RUNNING?
  }

  /** hold_lottery's second pass: a boost is used up by a RUNNABLE process and earned by a SLEEPING one. */
  function Boosted(p: Proc): Proc {
    if p.state.RUNNABLE? then (if p.boosts > 0 then p.(boosts := p.boosts - 1) else p)
    else if p.state.SLEEPING? then p.(boosts := Int32(p.boosts + 1))
    else p
  }

  /** The test of wakeup1, which compares unsigned: a negative sleepticks counts as a large one. */
  predicate TimeUp(p: Proc, now: int) { (now - p.sleepstart) % UINT_LIMIT >= p.sleepticks % UINT_LIMIT }

  /** wakeup1: a sleeper whose time is not up stays asleep and earns a boost. */
  function Wake(p: Proc, chan: int, now: int): Proc {
    if !p.state.SLEEPING? || p.chan != chan then p
    else if TimeUp(p, now) then p.(state := RUNNABLE, sleepticks := 0, sleepstart := 0)
    else p.(boosts := Int32(p.boosts + 1))
  }

  /** settickets refuses a negative pid and anything but a positive number of tickets. */
  predicate Accepts(pid: int, tickets: int) { pid >= 0 && 0 < tickets <= INT_MAX }

  function AfterIn(ps: seq<Proc>, s: Step, i: int): Proc
    requires 0 <= i < |ps| && Enabled(ps, s)
  {
    match s
    case Alloc(p, pid) =>
      if i == p then ps[i].(state := EMBRYO, pid := pid, tickets := 1, boosts := 0, runticks := 0, sleepticks := 0) else ps[i]
    case Publish(p, parent) =>
      if i == p then ps[i].(tickets := ps[parent].tickets, boosts := 0, runticks := 0, sleepticks := 0, state := RUNNABLE)
      else ps[i]
    case Release(p) => if i == p then ps[i].(state := UNUSED) else ps[i]
    case Round(w) =>
      var p := Boosted(ps[i]);
      if w == Some(i) then p.(state := RUNNING, runticks := p.runticks + 1) else p
    case Yield(p) => if i == p then ps[i].(state := RUNNABLE) else ps[i]
    case Sleep(p, chan, start, ticks) =>
      if i == p then ps[i].(state := SLEEPING, chan := chan, sleepstart := start, sleepticks := ticks) else ps[i]
    case Wakeup(chan, now) => Wake(ps[i], chan, now)
    case Kill(p) => if i == p && ps[i].state.SLEEPING? then ps[i].(state := RUNNABLE) else ps[i]
    case SetTickets(pid, tickets) => if Accepts(pid, tickets) && ps[i].pid == pid then ps[i].(tickets := tickets) else ps[i]
    case Exit(p) => if i == p then ps[i].(state := ZOMBIE) else ps[i]
  }

  function Next(ps: seq<Proc>, s: Step): (r: seq<Proc>)
    requires Enabled(ps, s)
    ensures |r| == |ps|
  {
    seq(|ps|, i requires 0 <= i < |ps| => AfterIn(ps, s, i))
  }

  lemma {:induction false} StepKeeps(ps: seq<Proc>, s: Step)
    requires TicketsOk(ps) && Enabled(ps, s)
    ensures TicketsOk(Next(ps, s))
  {
    var r := Next(ps, s);
    forall i | 0 <= i < |r| ensures SlotOk(r, i) {
      assert SlotOk(ps, i);
      if s.Publish? { assert SlotOk(ps, s.parent); }
    }
  }

  /** Where tickets come from: one at allocation, the parent's at the end of fork, and settickets. */
  lemma {:induction false} TicketsFlow(ps: seq<Proc>, s: Step, i: int)
    requires Enabled(ps, s) && 0 <= i < |ps|
    ensures s.Alloc? && s.p == i ==> Next(ps, s)[i].tickets == 1
    ensures s.Publish? && s.p == i ==> Next(ps, s)[i].tickets == ps[s.parent].tickets
    ensures s.SetTickets? && s.pid == ps[i].pid && s.pid >= 0 && 0 < s.tickets <= INT_MAX ==>
              Next(ps, s)[i].tickets == s.tickets
    ensures Next(ps, s)[i].tickets != ps[i].tickets ==>
              || ((s.Alloc? || s.Publish?) && s.p == i)
              || (s.SetTickets? && s.pid == ps[i].pid && s.pid >= 0 && 0 < s.tickets <= INT_MAX)
  {
  }

  /** Where boosts come from and go: a lottery takes one from a RUNNABLE process that has any and gives
      one to a sleeper; a wakeup before its time gives one; a new process has none. */
  lemma {:induction false} BoostsFlow(ps: seq<Proc>, s: Step, i: int)
    requires Enabled(ps, s) && 0 <= i < |ps|
    ensures var p, b := ps[i], Next(ps, s)[i].boosts;
            && ((s.Alloc? || s.Publish?) && s.p == i ==> b == 0)
            && (s.Round? && p.state.RUNNABLE? ==> b == if p.boosts > 0 then p.boosts - 1 else p.boosts)
            && (s.Round? && p.state.SLEEPING? ==> b == Int32(p.boosts + 1))
            && (s.Wakeup? && p.state.SLEEPING? && p.chan == s.chan ==>
                  b == if (s.now - p.sleepstart) % UINT_LIMIT < p.sleepticks % UINT_LIMIT then Int32(p.boosts + 1) else p.boosts)
            && (b != p.boosts ==>
                  || ((s.Alloc? || s.Publish?) && s.p == i)
                  || (s.Round? && (p.state.RUNNABLE? || p.state.SLEEPING?))
                  || (s.Wakeup? && p.state.SLEEPING? && p.chan == s.chan))
  {
  }

  ghost function After(ps: seq<Proc>, steps: seq<Step>): (r: seq<Proc>)
    ensures |r| == |ps|
  {
    if steps == [] then ps
    else
      var most := After(ps, steps[..|steps| - 1]);
      if Enabled(most, steps[|steps| - 1]) then Next(most, steps[|steps| - 1]) else most
  }

  ghost predicate CanRun(ps: seq<Proc>, steps: seq<Step>) {
    steps != [] ==>
      CanRun(ps, steps[..|steps| - 1]) && Enabled(After(ps, steps[..|steps| - 1]), steps[|steps| - 1])
  }

  const FREE_SLOT := Proc(UNUSED, 0, 0, 0, 0, 0, 0, 0)

  /** The table after userinit, with n slots besides init's. */
  function Boot(n: nat): (ps: seq<Proc>)
    ensures |ps| == n + 1
  {
    [FREE_SLOT.(state := RUNNABLE, pid := 1, tickets := 1)] + seq(n, _ => FREE_SLOT)
  }

  /** In every run, however long, live processes hold at least one ticket. */
  lemma {:induction false} RunsKeepTickets(n: nat, steps: seq<Step>)
    requires CanRun(Boot(n), steps)
    ensures TicketsOk(After(Boot(n), steps))
  {
    if steps == [] {
      forall i | 0 <= i < |Boot(n)| ensures SlotOk(Boot(n), i) {
      }
    } else {
      var most := steps[..|steps| - 1];
      RunsKeepTickets(n, most);
      StepKeeps(After(Boot(n), most), steps[|steps| - 1]);
    }
  }

  // ---- boosts ---------------------------------------------------------------------------

  ghost predicate BoostsOk(ps: seq<Proc>) {
    forall i :: 0 <= i < |ps| ==> 0 <= ps[i].boosts <= INT_MAX
  }

  /** Step s gives a boost to a sleeping process. */
  predicate EarnsBoost(p: Proc, s: Step) {
    p.state.SLEEPING? && (s.Round? || (s.Wakeup? && p.chan == s.chan && !TimeUp(p, s.now)))
  }

  /** Step s gives a boost to a sleeper whose count is full. */
  ghost predicate Wraps(ps: seq<Proc>, s: Step) {
    exists i :: 0 <= i < |ps| && EarnsBoost(ps[i], s) && ps[i].boosts == INT_MAX
  }

  /** A step takes good boost counts to good ones exactly when it meets no full sleeper. */
  lemma {:induction false} StepKeepsBoosts(ps: seq<Proc>, s: Step)
    requires BoostsOk(ps) && Enabled(ps, s)
    ensures BoostsOk(Next(ps, s)) <==> !Wraps(ps, s)
  {
    var r := Next(ps, s);
    forall i | 0 <= i < |ps|
      ensures 0 <= r[i].boosts <= INT_MAX <==> !(EarnsBoost(ps[i], s) && ps[i].boosts == INT_MAX)
    {
      Int32Add(ps[i].boosts + 1, 0);
    }
  }

  ghost predicate NeverWraps(ps: seq<Proc>, steps: seq<Step>) {
    steps != [] ==>
      NeverWraps(ps, steps[..|steps| - 1]) && !Wraps(After(ps, steps[..|steps| - 1]), steps[|steps| - 1])
  }

  ghost predicate AlwaysBoostsOk(ps: seq<Proc>, steps: seq<Step>) {
    && BoostsOk(After(ps, steps))
    && (steps != [] ==> AlwaysBoostsOk(ps, steps[..|steps| - 1]))
  }

  /** Boost counts stay non-negative throughout a run exactly when no lottery, and no wakeup before
      its time, meets a sleeper that holds INT_MAX boosts. */
  lemma {:induction false} BoostsKeptIff(n: nat, steps: seq<Step>)
    requires CanRun(Boot(n), steps)
    ensures AlwaysBoostsOk(Boot(n), steps) <==> NeverWraps(Boot(n), steps)
  {
    if steps != [] {
      var most := steps[..|steps| - 1];
      BoostsKeptIff(n, most);
      if AlwaysBoostsOk(Boot(n), most) {
        StepKeepsBoosts(After(Boot(n), most), steps[|steps| - 1]);
      }
    }
  }

  lemma {:induction false} Extend(ps: seq<Proc>, steps: seq<Step>, s: Step) returns (more: seq<Step>)
    requires CanRun(ps, steps) && Enabled(After(ps, steps), s)
    ensures more == steps + [s] && CanRun(ps, more) && After(ps, more) == Next(After(ps, steps), s)
  {
    more := steps + [s];
    assert more[..|more| - 1] == steps;
  }

  lemma {:induction false} OneSleeps() returns (steps: seq<Step>)
    ensures CanRun(Boot(1), steps)
    ensures var ps := After(Boot(1), steps); ps[0].state.RUNNABLE? && ps[1].state.SLEEPING? && ps[1].boosts == 0
  {
    steps := [];
    steps := Extend(Boot(1), steps, Round(Some(0)));
    steps := Extend(Boot(1), steps, Alloc(1, 2));
    steps := Extend(Boot(1), steps, Publish(1, 0));
    steps := Extend(Boot(1), steps, Round(Some(1)));
    steps := Extend(Boot(1), steps, Sleep(1, 7, 0, 0));
    steps := Extend(Boot(1), steps, Yield(0));
  }

  /** A process asleep through n lotteries holds n boosts, counted in 32 bits. */
  lemma {:induction false} BoostsGrow(n: nat) returns (steps: seq<Step>)
    ensures CanRun(Boot(1), steps)
    ensures var ps := After(Boot(1), steps); ps[0].state.RUNNABLE? && ps[1].state.SLEEPING? && ps[1].boosts == Int32(n)
  {
    if n == 0 {
      steps := OneSleeps();
    } else {
      steps := BoostsGrow(n - 1);
      steps := Extend(Boot(1), steps, Round(Some(0)));
      steps := Extend(Boot(1), steps, Yield(0));
      Int32Add(n - 1, 1);
    }
  }

  /** A process asleep through 2^31 lotteries has a negative count of boosts. */
  lemma {:induction false} BoostsOverflow() returns (steps: seq<Step>)
    ensures CanRun(Boot(1), steps) && After(Boot(1), steps)[1].boosts < 0
  {
    steps := BoostsGrow(INT_MAX + 1);
  }
}
