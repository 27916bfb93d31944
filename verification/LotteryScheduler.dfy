/** The lottery scheduler's loops over the process table (p2A proc.c and sysfile.c). */
module LotteryScheduler {
  import opened Options
  import opened Params
  import opened Lottery

  class Scheduler {
    const proc: array<Proc>
    var rseed: nat

    constructor (slots: nat)
      requires slots >= 1
      ensures proc[..] == Boot(slots - 1) && rseed == 0 && fresh(proc)
    {
      proc := new Proc[slots](i => if i == 0 then FREE_SLOT.(state := RUNNABLE, pid := 1, tickets := 1) else FREE_SLOT);
      rseed := 0;
    }

    method Rand() returns (r: nat)
      modifies `rseed
      ensures r == rseed < RAND_RANGE
    {
      rseed := (rseed * 1103515245 + 12345) % RAND_RANGE;
      r := rseed;
    }

    /** The scheduler's first pass. */
    method SumTickets() returns (total: int)
      ensures total == Tally(proc[..], proc.Length) == Int32(Total(proc[..]))
    {
      total := 0;
      for i := 0 to proc.Length
        invariant total == Tally(proc[..], i)
      {
        if proc[i].state.RUNNABLE? {
          if proc[i].boosts > 0 {
            total := Int32(total + Int32(2 * proc[i].tickets));
          } else {
            total := Int32(total + Int32(proc[i].tickets));
          }
        } else {
          TallyInRange(proc[..], i);
        }
      }
      TallyWraps(proc[..], proc.Length);
    }

    /** hold_lottery's walk: the process among whose tickets draw d falls. */
    method FindWinner(d: int) returns (winner: Option<int>)
      requires TicketsOk(proc[..]) && 0 <= d <= INT_MAX
      ensures winner.Some? ==> 0 <= winner.value < proc.Length && proc[winner.value].state.RUNNABLE?
      ensures d < Total(proc[..]) <= INT_MAX ==> winner.Some? && Picks(proc[..], d, winner.value)
    {
      ghost var fits := d < Total(proc[..]) <= INT_MAX;
      var temp, i := d, 0;
      winner := None;
      while i < proc.Length
        invariant 0 <= i <= proc.Length && winner.None?
        invariant fits ==> temp == d - Before(proc[..], i) >= 0
      {
        if proc[i].state.RUNNABLE? {
          WalkStep(proc[..], d, i, temp);
          if proc[i].boosts > 0 {
            temp := Int32(temp - Int32(2 * proc[i].tickets));
          } else {
            temp := Int32(temp - proc[i].tickets);
          }
          if temp < 0 {
            return Some(i);
          }
        }
        i := i + 1;
      }
    }

    /** hold_lottery's second pass. */
    method UpdateBoosts()
      modifies proc
      ensures forall i :: 0 <= i < proc.Length ==> proc[i] == Boosted(old(proc[i]))
      ensures forall i :: 0 <= i < proc.Length ==>
                var p := old(proc[i]);
                && (p.state.RUNNABLE? && p.boosts > 0 ==> proc[i] == p.(boosts := p.boosts - 1))
                && (p.state.SLEEPING? ==> proc[i] == p.(boosts := Int32(p.boosts + 1)))
                && (!p.state.SLEEPING? && !(p.state.RUNNABLE? && p.boosts > 0) ==> proc[i] == p)
    {
      for i := 0 to proc.Length
        invariant forall j :: 0 <= j < i ==> proc[j] == Boosted(old(proc[j]))
        invariant forall j :: i <= j < proc.Length ==> proc[j] == old(proc[j])
      {
        if proc[i].state.RUNNABLE? {
          if proc[i].boosts > 0 {
            proc[i] := proc[i].(boosts := proc[i].boosts - 1);
          }
        } else if proc[i].state.SLEEPING? {
          proc[i] := proc[i].(boosts := Int32(proc[i].boosts + 1));
        }
      }
    }

    /** One round of the scheduler: sum, draw, switch to the winner. */
    method Round() returns (winner: Option<int>)
      requires TicketsOk(proc[..])
      modifies proc, `rseed
      ensures old(Total(proc[..])) <= INT_MAX ==>
                if old(Total(proc[..])) == 0 then winner.None? && proc[..] == old(proc[..])
                else winner.Some? && Picks(old(proc[..]), rseed % old(Total(proc[..])), winner.value)
      ensures old(Tally(proc[..], proc.Length)) <= 0 ==> winner.None? && proc[..] == old(proc[..])
      ensures old(Tally(proc[..], proc.Length)) > 0 ==>
                && Enabled(old(proc[..]), Lottery.Round(winner))
                && proc[..] == Next(old(proc[..]), Lottery.Round(winner))
      ensures winner.Some? ==>
                && 0 <= winner.value < proc.Length && old(proc[..])[winner.value].state.RUNNABLE?
                && proc[winner.value].state.RUNNING?
                && proc[winner.value].runticks == old(proc[..])[winner.value].runticks + 1
    {
      ghost var ps := proc[..];
      var total := SumTickets();
      TallyExact(ps);
      BeforeGrows(ps, 0, |ps|);
      if total <= 0 {
        return None;
      }
      var r := Rand();
      winner := FindWinner(r % total);
      UpdateBoosts();
      if winner.Some? {
        var w := winner.value;
        proc[w] := proc[w].(state := RUNNING, runticks := proc[w].runticks + 1);
      }
      assert proc[..] == Next(ps, Lottery.Round(winner));
    }

    /** allocproc's section: the first unused slot becomes an embryo with one ticket. */
    method Allocproc(pid: int) returns (np: Option<int>)
      modifies proc
      ensures np.None? ==> proc[..] == old(proc[..]) && forall i :: 0 <= i < proc.Length ==> !proc[i].state.UNUSED?
      ensures np.Some? ==>
                && 0 <= np.value < proc.Length && Enabled(old(proc[..]), Alloc(np.value, pid))
                && proc[..] == Next(old(proc[..]), Alloc(np.value, pid))
                && (forall i :: 0 <= i < np.value ==> !old(proc[..])[i].state.UNUSED?)
    {
      for i := 0 to proc.Length
        invariant forall j :: 0 <= j < i ==> !proc[j].state.UNUSED?
        invariant proc[..] == old(proc[..])
      {
        if proc[i].state.UNUSED? {
          ghost var ps := proc[..];
          proc[i] := proc[i].(state := EMBRYO, pid := pid, tickets := 1, boosts := 0, runticks := 0, sleepticks := 0);
          assert proc[..] == Next(ps, Alloc(i, pid));
          return Some(i);
        }
      }
      np := None;
    }

    /** The end of fork: the child np inherits the tickets of its parent and becomes RUNNABLE. */
    method ForkEnd(np: int, parent: int)
      requires Enabled(proc[..], Publish(np, parent))
      modifies proc
      ensures proc[..] == Next(old(proc[..]), Publish(np, parent))
      ensures proc[np].tickets == old(proc[parent].tickets) && proc[np].state.RUNNABLE?
      ensures proc[np].boosts == proc[np].runticks == proc[np].sleepticks == 0
    {
      ghost var ps := proc[..];
      proc[np] := proc[np].(tickets := proc[parent].tickets, boosts := 0, runticks := 0, sleepticks := 0, state := RUNNABLE);
      assert proc[..] == Next(ps, Publish(np, parent));
    }

    method SetTickets(pid: int, tickets: int) returns (r: int)
      requires tickets <= INT_MAX
      modifies proc
      ensures proc[..] == Next(old(proc[..]), Lottery.SetTickets(pid, tickets))
      ensures r == if pid >= 0 && tickets > 0 then 0 else -1
      ensures forall i :: 0 <= i < proc.Length ==>
                proc[i] == if r == 0 && old(proc[i]).pid == pid then old(proc[i]).(tickets := tickets) else old(proc[i])
    {
      if pid < 0 || tickets <= 0 {
        return -1;
      }
      for i := 0 to proc.Length
        invariant forall j :: 0 <= j < i ==> proc[j] == AfterIn(old(proc[..]), Lottery.SetTickets(pid, tickets), j)
        invariant forall j :: i <= j < proc.Length ==> proc[j] == old(proc[j])
      {
        if proc[i].pid == pid {
          proc[i] := proc[i].(tickets := tickets);
        }
      }
      r := 0;
    }

    method Wakeup1(chan: int, now: int)
      modifies proc
      ensures proc[..] == Next(old(proc[..]), Lottery.Wakeup(chan, now))
      ensures forall i :: 0 <= i < proc.Length ==>
                var p := old(proc[i]);
                if !p.state.SLEEPING? || p.chan != chan then proc[i] == p
                else if (now - p.sleepstart) % UINT_LIMIT >= p.sleepticks % UINT_LIMIT
                then proc[i] == p.(state := RUNNABLE, sleepticks := 0, sleepstart := 0)
                else proc[i] == p.(boosts := Int32(p.boosts + 1))
    {
      for i := 0 to proc.Length
        invariant forall j :: 0 <= j < i ==> proc[j] == Wake(old(proc[j]), chan, now)
        invariant forall j :: i <= j < proc.Length ==> proc[j] == old(proc[j])
      {
        if proc[i].state.SLEEPING? && proc[i].chan == chan {
          if TimeUp(proc[i], now) {
            proc[i] := proc[i].(state := RUNNABLE, sleepticks := 0, sleepstart := 0);
          } else {
            proc[i] := proc[i].(boosts := Int32(proc[i].boosts + 1));
          }
        }
      }
    }
  }

  /** One subtraction of hold_lottery's walk, while the total fits an int. */
  lemma {:induction false} WalkStep(ps: seq<Proc>, d: int, i: int, temp: int)
    requires TicketsOk(ps) && 0 <= i < |ps| && ps[i].state.RUNNABLE?
    requires d < Total(ps) <= INT_MAX ==> temp == d - Before(ps, i) >= 0
    ensures d < Total(ps) <= INT_MAX ==> Int32(Weight(ps[i])) == Weight(ps[i]) >= 1
    ensures d < Total(ps) <= INT_MAX ==> Int32(temp - Weight(ps[i])) == d - Before(ps, i + 1)
    ensures d < Total(ps) <= INT_MAX && temp < Weight(ps[i]) ==> Picks(ps, d, i)
  {
    assert SlotOk(ps, i);
    BeforeGrows(ps, i + 1, |ps|);
    BeforeGrows(ps, 0, i);
    Int32Add(temp - Weight(ps[i]), 0);
    Int32Add(Weight(ps[i]), 0);
  }

  lemma {:induction false} TallyInRange(ps: seq<Proc>, i: nat)
    requires i <= |ps|
    ensures Int32(Tally(ps, i)) == Tally(ps, i)
  {
    TallyWraps(ps, i);
  }
}
