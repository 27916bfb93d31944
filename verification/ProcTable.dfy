/** The process table (proc.c): table scans that carry out the steps of the state machine. */
module ProcTable {
  import opened Options
  import opened Processes

  /** How one scan of wait ends: it returns a child's pid, returns -1, or sleeps. */
  datatype WaitEnd = Reaped(pid: int) | NoChild | Asleep

  /** exit's scan has handed the children among the first i slots to init. */
  function PartAdopted(ps: seq<Proc>, p: int, i: int): (r: seq<Proc>)
    ensures |r| == |ps|
  {
    seq(|ps|, j requires 0 <= j < |ps| => if j < i then Adopt(ps[j], p) else ps[j])
  }

  lemma {:induction false} AdoptStep(ps: seq<Proc>, p: int, i: int)
    requires 0 <= i < |ps|
    ensures PartAdopted(ps, p, i)[i] == ps[i]
    ensures PartAdopted(ps, p, i + 1) == PartAdopted(ps, p, i)[i := Adopt(ps[i], p)]
  {
  }

  /** Waking init and handing over children can be done in either order. */
  lemma {:induction false} WakeWhileAdopting(ps: seq<Proc>, p: int, i: int, chan: Chan)
    ensures Woken(PartAdopted(ps, p, i), chan) == PartAdopted(Woken(ps, chan), p, i)
    ensures Woken(Woken(ps, chan), chan) == Woken(ps, chan)
  {
  }

  ghost predicate HasZombieBefore(ps: seq<Proc>, p: int, i: int)
    requires i <= |ps|
  {
    exists z :: 0 <= z < i && ZombieChild(ps, z, p)
  }

  lemma {:induction false} WakingKeepsZombies(ps: seq<Proc>, p: int, chan: Chan)
    ensures HasZombieChild(ps, p) <==> HasZombieBefore(Woken(ps, chan), p, |ps|)
  {
    var r := Woken(ps, chan);
    if z :| 0 <= z < |ps| && ZombieChild(ps, z, p) {
      assert ZombieChild(r, z, p);
    }
    if z :| 0 <= z < |ps| && ZombieChild(r, z, p) {
      assert ZombieChild(ps, z, p);
    }
  }

  /** What exit of p leaves of another process, in slot i of the table before: its children go to init;
      its parent is woken from wait, and so is init if it inherits a zombie. */
  ghost predicate Survives(ps: seq<Proc>, p: int, i: int, now: Proc)
    requires 0 <= p < |ps| && 0 <= i < |ps|
  {
    var was := ps[i];
    && now.pid == was.pid && now.chan == was.chan && now.killed == was.killed
    && now.parent == (if was.parent == Some(p) then Some(INIT) else was.parent)
    && now.state == if was.state.SLEEPING? && was.chan.ProcChan?
                       && (ps[p].parent == Some(was.chan.slot) || (was.chan.slot == INIT && HasZombieChild(ps, p)))
                    then RUNNABLE else was.state
  }

  class ProcTable {
    const proc: array<Proc>
    var nextpid: int
    ghost var forking: map<int, int>
    ghost var exited: set<int>
    ghost var reaped: seq<int>

    ghost function Abs(): Table
      reads this, proc
    {
      Table(proc[..], nextpid, forking, exited, reaped)
    }

    ghost predicate Valid()
      reads this, proc
    {
      Inv(Abs())
    }

    /** The table after userinit. */
    constructor (slots: nat)
      requires slots >= 1
      ensures Valid() && Abs() == Boot(slots - 1) && fresh(proc)
    {
      proc := new Proc[slots](i => if i == INIT then Proc(RUNNABLE, 1, None, NoChan, false) else FREE_SLOT);
      nextpid, forking, exited, reaped := 2, map[], {}, [];
      new;
      assert proc[..] == Boot(slots - 1).ps;
      BootInv(slots - 1);
    }

    method Wakeup1(chan: Chan)
      modifies proc
      ensures proc[..] == Woken(old(proc[..]), chan)
      ensures forall i :: 0 <= i < proc.Length ==>
                var p := old(proc[i]);
                proc[i] == if p.state.SLEEPING? && p.chan == chan then p.(state := RUNNABLE) else p
    {
      for i := 0 to proc.Length
        invariant forall j :: 0 <= j < i ==> proc[j] == Wake(old(proc[j]), chan)
        invariant forall j :: i <= j < proc.Length ==> proc[j] == old(proc[j])
      {
        if proc[i].state.SLEEPING? && proc[i].chan == chan {
          proc[i] := proc[i].(state := RUNNABLE);
        }
      }
    }

    /** The first slot with the wanted property, or the table's length. */
    method Find(want: Proc -> bool) returns (k: nat)
      ensures k == FirstFrom(proc[..], 0, want)
    {
      k := 0;
      while k < proc.Length && !want(proc[k])
        invariant k <= proc.Length && FirstFrom(proc[..], 0, want) == FirstFrom(proc[..], k, want)
      {
        k := k + 1;
      }
    }

    /** fork's first section, by process p. */
    method Allocproc(ghost p: int) returns (np: Option<int>)
      requires Valid() && Runs(Abs(), p)
      modifies this, proc
      ensures Valid() && Abs() == Next(old(Abs()), Fork(p))
      ensures np.Some? <==> exists i :: 0 <= i < |old(proc[..])| && old(proc[..])[i].state.UNUSED?
      ensures np.Some? ==> p in forking && forking[p] == np.value
      ensures np.None? ==> proc[..] == old(proc[..]) && nextpid == old(nextpid)
      ensures np.Some? ==>
                && 0 <= np.value < proc.Length && old(proc[..])[np.value].state.UNUSED?
                && (forall i :: 0 <= i < np.value ==> !old(proc[..])[i].state.UNUSED?)
                && proc[..] == old(proc[..])[np.value := old(proc[..])[np.value].(state := EMBRYO, pid := old(nextpid))]
                && nextpid == old(nextpid) + 1
    {
      StepKeeps(Abs(), Fork(p));
      var k := Find(IsUnused);
      if k == proc.Length {
        return None;
      }
      proc[k] := proc[k].(state := EMBRYO, pid := nextpid);
      nextpid := nextpid + 1;
      forking := forking[p := k];
      np := Some(k);
    }

    /** The end of fork by process p: its new process np becomes runnable. */
    method Publish(p: int, np: int)
      requires Valid() && Enabled(Abs(), Processes.Publish(p)) && np == forking[p]
      modifies this, proc
      ensures Valid() && Abs() == Next(old(Abs()), Processes.Publish(p))
      ensures 0 <= np < proc.Length && proc[..] == old(proc[..])[np := old(proc[..])[np].(state := RUNNABLE, parent := Some(p))]
    {
      StepKeeps(Abs(), Processes.Publish(p));
      assert Embryo(Abs(), p);
      proc[np] := proc[np].(state := RUNNABLE, parent := Some(p));
      forking := forking - {p};
    }

    /** fork fails after taking slot np. */
    method Abort(ghost p: int, np: int)
      requires Valid() && Enabled(Abs(), Processes.Abort(p)) && np == forking[p]
      modifies this, proc
      ensures Valid() && Abs() == Next(old(Abs()), Processes.Abort(p))
      ensures 0 <= np < proc.Length && proc[..] == old(proc[..])[np := old(proc[..])[np].(state := UNUSED)]
    {
      StepKeeps(Abs(), Processes.Abort(p));
      assert Embryo(Abs(), p);
      proc[np] := proc[np].(state := UNUSED);
      forking := forking - {p};
    }

    /** Hands the children of p to init, waking init if one of them has exited. */
    method AbandonChildren(p: int)
      modifies proc
      ensures var told := if HasZombieBefore(old(proc[..]), p, |old(proc[..])|) then Woken(old(proc[..]), ProcChan(INIT))
                          else old(proc[..]);
              proc[..] == Adopted(told, p)
    {
      ghost var ps, told := proc[..], proc[..];
      assert PartAdopted(ps, p, 0) == ps;
      for i := 0 to proc.Length
        invariant told == if HasZombieBefore(ps, p, i) then Woken(ps, ProcChan(INIT)) else ps
        invariant proc[..] == PartAdopted(told, p, i)
      {
        AdoptStep(told, p, i);
        if proc[i].parent == Some(p) {
          proc[i] := proc[i].(parent := Some(INIT));
          assert proc[..] == PartAdopted(told, p, i + 1);
          if proc[i].state.ZOMBIE? {
            WakeWhileAdopting(told, p, i + 1, ProcChan(INIT));
            WakeWhileAdopting(ps, p, i + 1, ProcChan(INIT));
            Wakeup1(ProcChan(INIT));
            told := Woken(ps, ProcChan(INIT));
            assert ZombieChild(ps, i, p);
          }
        } else {
          assert proc[..] == PartAdopted(told, p, i + 1);
        }
      }
      assert PartAdopted(told, p, |ps|) == Adopted(told, p);
    }

    method Exit(p: int)
      requires Valid() && Enabled(Abs(), Processes.Exit(p))
      modifies this, proc
      ensures Valid() && Abs() == Next(old(Abs()), Processes.Exit(p))
      ensures proc[p] == old(proc[p]).(state := ZOMBIE) && exited == old(exited) + {old(proc[p]).pid}
      ensures forall i :: 0 <= i < proc.Length && i != p ==> Survives(old(proc[..]), p, i, proc[i])
    {
      StepKeeps(Abs(), Processes.Exit(p));
      ghost var ps := proc[..];
      WakingKeepsZombies(ps, p, ParentChan(ps[p].parent));
      exited := exited + {proc[p].pid};
      Wakeup1(ParentChan(proc[p].parent));
      AbandonChildren(p);
      proc[p] := proc[p].(state := ZOMBIE);
      assert proc[..] == Exited(ps, p);
      assert Placed(ps, p);
      forall i | 0 <= i < proc.Length && i != p ensures Survives(ps, p, i, proc[i]) {
        ExitSurvivors(ps, p, i);
      }
    }

    /** One scan of wait by process p. */
    method Wait(p: int) returns (r: WaitEnd)
      requires Valid() && Enabled(Abs(), Processes.Wait(p))
      modifies this, proc
      ensures Valid() && Abs() == Next(old(Abs()), Processes.Wait(p))
      ensures r.Reaped? <==> HasZombieChild(old(proc[..]), p)
      ensures r.Reaped? ==> reaped == old(reaped) + [r.pid]
      ensures r.NoChild? ==> Abs() == old(Abs())
      ensures r.Asleep? ==> AsleepInWait(proc[..], p)
      ensures r.Reaped? ==>
                exists z :: && 0 <= z < |old(proc[..])| && ZombieChild(old(proc[..]), z, p) && r.pid == old(proc[..])[z].pid
                            && (forall j :: 0 <= j < z ==> !ZombieChild(old(proc[..]), j, p))
                            && proc[..] == old(proc[..])[z := Proc(UNUSED, 0, None, old(proc[..])[z].chan, false)]
      ensures r.NoChild? <==>
                && !HasZombieChild(old(proc[..]), p)
                && (old(proc[p]).killed || forall i :: 0 <= i < |old(proc[..])| ==> old(proc[..])[i].parent != Some(p))
      ensures r.Asleep? ==> proc[..] == old(proc[..])[p := old(proc[p]).(state := SLEEPING, chan := ProcChan(p))]
    {
      StepKeeps(Abs(), Processes.Wait(p));
      var havekids, i := false, 0;
      ghost var t := Abs();
      while i < proc.Length
        invariant 0 <= i <= proc.Length && Abs() == t
        invariant forall j :: 0 <= j < i ==> !ZombieChild(proc[..], j, p)
        invariant havekids <==> exists j :: 0 <= j < i && proc[j].parent == Some(p)
      {
        if proc[i].parent == Some(p) {
          havekids := true;
          if proc[i].state.ZOMBIE? {
            FoundChild(t, p, i);
            r := Reaped(proc[i].pid);
            reaped := reaped + [proc[i].pid];
            proc[i] := Reap(proc[i]);
            return;
          }
        }
        i := i + 1;
      }
      NoneFound(t, p, havekids);
      if !havekids || proc[p].killed {
        return NoChild;
      }
      proc[p] := proc[p].(state := SLEEPING, chan := ProcChan(p));
      r := Asleep;
    }

    method Sleep(p: int, id: int)
      requires Valid() && Enabled(Abs(), Processes.Sleep(p, id))
      modifies proc
      ensures Valid() && Abs() == Next(old(Abs()), Processes.Sleep(p, id))
      ensures proc[..] == old(proc[..])[p := old(proc[p]).(state := SLEEPING, chan := Other(id))]
    {
      StepKeeps(Abs(), Processes.Sleep(p, id));
      proc[p] := proc[p].(state := SLEEPING, chan := Other(id));
    }

    method Kill(pid: int) returns (r: int)
      requires Valid()
      modifies proc
      ensures Valid() && Abs() == Next(old(Abs()), Processes.Kill(pid))
      ensures r == if exists i :: 0 <= i < |old(proc[..])| && old(proc[..])[i].pid == pid then 0 else -1
      ensures r == -1 ==> proc[..] == old(proc[..])
      ensures r == 0 ==>
                exists k :: && 0 <= k < |old(proc[..])| && old(proc[..])[k].pid == pid
                            && (forall j :: 0 <= j < k ==> old(proc[..])[j].pid != pid)
                            && proc[..] == old(proc[..])[k := proc[k]] && proc[k].killed
                            && proc[k].state == (if old(proc[..])[k].state.SLEEPING? then RUNNABLE else old(proc[..])[k].state)
                            && proc[k] == old(proc[..])[k].(killed := proc[k].killed, state := proc[k].state)
    {
      StepKeeps(Abs(), Processes.Kill(pid));
      ghost var ps := proc[..];
      var k := Find((c: Proc) => c.pid == pid);
      if k == proc.Length {
        return -1;
      }
      proc[k] := proc[k].(killed := true);
      if proc[k].state.SLEEPING? {
        proc[k] := proc[k].(state := RUNNABLE);
      }
      assert proc[..] == Killed(ps, pid);
      r := 0;
    }

    /** The scheduler switches to p. */
    method Schedule(p: int)
      requires Valid() && Enabled(Abs(), Processes.Schedule(p))
      modifies proc
      ensures Valid() && Abs() == Next(old(Abs()), Processes.Schedule(p))
      ensures proc[..] == old(proc[..])[p := old(proc[p]).(state := RUNNING)]
    {
      StepKeeps(Abs(), Processes.Schedule(p));
      proc[p] := proc[p].(state := RUNNING);
    }

    method Yield(p: int)
      requires Valid() && Enabled(Abs(), Processes.Yield(p))
      modifies proc
      ensures Valid() && Abs() == Next(old(Abs()), Processes.Yield(p))
      ensures proc[..] == old(proc[..])[p := old(proc[p]).(state := RUNNABLE)]
    {
      StepKeeps(Abs(), Processes.Yield(p));
      proc[p] := proc[p].(state := RUNNABLE);
    }
  }

  lemma {:induction false} ExitSurvivors(ps: seq<Proc>, p: int, i: int)
    requires 0 <= p < |ps| && 0 <= i < |ps| && i != p && ps[p].parent.Some?
    ensures Survives(ps, p, i, Exited(ps, p)[i])
  {
  }

  lemma {:induction false} FoundChild(t: Table, p: int, z: int)
    requires 0 <= p < |t.ps| && 0 <= z < |t.ps| && ZombieChild(t.ps, z, p)
    requires forall j :: 0 <= j < z ==> !ZombieChild(t.ps, j, p)
    ensures HasZombieChild(t.ps, p)
    ensures Waited(t, p) == t.(ps := t.ps[z := Reap(t.ps[z])], reaped := t.reaped + [t.ps[z].pid])
  {
    var k := FirstFrom(t.ps, 0, (c: Proc) => c.state.ZOMBIE? && c.parent == Some(p));
    assert k == z by {
      if k < z { assert ZombieChild(t.ps, k, p); }
    }
  }

  lemma {:induction false} NoneFound(t: Table, p: int, havekids: bool)
    requires 0 <= p < |t.ps| && (forall j :: 0 <= j < |t.ps| ==> !ZombieChild(t.ps, j, p))
    requires havekids <==> exists j :: 0 <= j < |t.ps| && t.ps[j].parent == Some(p)
    ensures !HasZombieChild(t.ps, p)
    ensures Waited(t, p) == if !havekids || t.ps[p].killed then t
                            else t.(ps := t.ps[p := t.ps[p].(state := SLEEPING, chan := ProcChan(p))])
  {
    var z := FirstFrom(t.ps, 0, (c: Proc) => c.state.ZOMBIE? && c.parent == Some(p));
    if z < |t.ps| { assert ZombieChild(t.ps, z, p); }
  }
}
