/** Process lifecycles (proc.c) as a state machine over the process table: fork, exit, wait, sleep,
wakeup and kill.  Each step is one critical section under ptable.lock. */
module Processes {
  import opened Options

  const INIT: nat := 0    // userinit's process takes the first slot of the empty table

  datatype ProcState = UNUSED | EMBRYO | SLEEPING | RUNNABLE | RUNNING | ZOMBIE

  /** wait sleeps on the address of the process itself; every other sleep uses some other address. */
  datatype Chan = NoChan | ProcChan(slot: int) | Other(id: int)

  datatype Proc = Proc(state: ProcState, pid: int, parent: Option<int>, chan: Chan, killed: bool)

  /** `forking` maps a process inside fork to the slot it has allocated; `exited` and `reaped` record
      the pids of processes that have exited and that wait has returned. */
  datatype Table = Table(ps: seq<Proc>, nextpid: int, forking: map<int, int>, exited: set<int>, reaped: seq<int>)

  predicate Live(p: Proc) { p.state.SLEEPING? || p.state.RUNNABLE? || p.state.RUNNING? }

  // ---- what the critical sections do to the table ---------------------------------------

  function Wake(p: Proc, chan: Chan): Proc {
    if p.state.SLEEPING? && p.chan == chan then p.(state := RUNNABLE) else p
  }

  /** wakeup1 */
  function Woken(ps: seq<Proc>, chan: Chan): (r: seq<Proc>)
    ensures |r| == |ps|
  {
    seq(|ps|, i requires 0 <= i < |ps| => Wake(ps[i], chan))
  }

  function ParentChan(parent: Option<int>): Chan {
    match parent
    case None => NoChan
    case Some(q) => ProcChan(q)
  }

  predicate ZombieChild(ps: seq<Proc>, z: int, p: int)
    requires 0 <= z < |ps|
  {
    ps[z].state.ZOMBIE? && ps[z].parent == Some(p)
  }

  ghost predicate HasZombieChild(ps: seq<Proc>, p: int) {
    exists z :: 0 <= z < |ps| && ZombieChild(ps, z, p)
  }

  function Adopt(p: Proc, from: int): Proc { if p.parent == Some(from) then p.(parent := Some(INIT)) else p }

  /** Every child of p handed over to init. */
  function Adopted(ps: seq<Proc>, p: int): (r: seq<Proc>)
    ensures |r| == |ps|
  {
    seq(|ps|, i requires 0 <= i < |ps| => Adopt(ps[i], p))
  }

  /** exit wakes the parent, hands the children to init (waking it for a dead one) and leaves a zombie. */
  ghost function Exited(ps: seq<Proc>, p: int): seq<Proc>
    requires 0 <= p < |ps|
  {
    var woken := Woken(ps, ParentChan(ps[p].parent));
    var told := if HasZombieChild(ps, p) then Woken(woken, ProcChan(INIT)) else woken;
    var adopted := Adopted(told, p);
    adopted[p := adopted[p].(state := ZOMBIE)]
  }

  /** First slot at or after i with a given property, or the table's length. */
  function FirstFrom(ps: seq<Proc>, i: nat, want: Proc -> bool): (k: nat)
    requires i <= |ps|
    ensures i <= k <= |ps| && (k < |ps| ==> want(ps[k])) && forall j :: i <= j < k ==> !want(ps[j])
    decreases |ps| - i
  {
    if i == |ps| || want(ps[i]) then i else FirstFrom(ps, i + 1, want)
  }

  predicate IsUnused(p: Proc) { p.state.UNUSED? }

  function Reap(p: Proc): Proc { p.(state := UNUSED, pid := 0, parent := None, killed := false) }

  datatype Step =
    | Fork(p: int)             // allocproc's section
    | Publish(p: int)          // the end of fork: the child becomes runnable
    | Abort(p: int)            // fork gives its slot back: out of memory
    | Exit(p: int)
    | Wait(p: int)             // one scan of wait: reap, fail or sleep
    | Sleep(p: int, id: int)
    | Wakeup(chan: Chan)
    | Kill(pid: int)
    | Schedule(p: int)
    | Yield(p: int)

  predicate Runs(t: Table, p: int) { 0 <= p < |t.ps| && t.ps[p].state.RUNNING? && p !in t.forking }

  predicate Enabled(t: Table, s: Step) {
    match s
    case Fork(p) => Runs(t, p)
    case Publish(p) => p in t.forking && 0 <= p < |t.ps| && t.ps[p].state.RUNNING?
    case Abort(p) => p in t.forking && 0 <= p < |t.ps| && t.ps[p].state.RUNNING?
    case Exit(p) => Runs(t, p) && p != INIT
    case Wait(p) => Runs(t, p)
    case Sleep(p, _) => Runs(t, p)
    case Wakeup(_) => true
    case Kill(_) => true
    case Schedule(p) => 0 <= p < |t.ps| && t.ps[p].state.RUNNABLE?
    case Yield(p) => 0 <= p < |t.ps| && t.ps[p].state.RUNNING?
  }

  /** fork's first section: the first unused slot becomes an embryo with a fresh pid. */
  function Allocated(t: Table, p: int): Table {
    var np := FirstFrom(t.ps, 0, IsUnused);
    if np == |t.ps| then t
    else t.(ps := t.ps[np := t.ps[np].(state := EMBRYO, pid := t.nextpid)],
            nextpid := t.nextpid + 1, forking := t.forking[p := np])
  }

  /** One scan of wait by p. */
  function Waited(t: Table, p: int): Table
    requires 0 <= p < |t.ps|
  {
    var z := FirstFrom(t.ps, 0, (c: Proc) => c.state.ZOMBIE? && c.parent == Some(p));
    var k := FirstFrom(t.ps, 0, (c: Proc) => c.parent == Some(p));
    if z < |t.ps| then t.(ps := t.ps[z := Reap(t.ps[z])], reaped := t.reaped + [t.ps[z].pid])
    else if k == |t.ps| || t.ps[p].killed then t
    else t.(ps := t.ps[p := t.ps[p].(state := SLEEPING, chan := ProcChan(p))])
  }

  function Hit(p: Proc): Proc {
    p.(killed := true, state := if p.state.SLEEPING? then RUNNABLE else p.state)
  }

  function Killed(ps: seq<Proc>, pid: int): seq<Proc> {
    var k := FirstFrom(ps, 0, (c: Proc) => c.pid == pid);
    if k == |ps| then ps else ps[k := Hit(ps[k])]
  }

  ghost function Next(t: Table, s: Step): Table
    requires Enabled(t, s)
  {
    match s
    case Fork(p) => Allocated(t, p)
    case Publish(p) =>
      var np := t.forking[p];
      if 0 <= np < |t.ps| then
        t.(ps := t.ps[np := t.ps[np].(state := RUNNABLE, parent := Some(p))], forking := t.forking - {p})
      else t
    case Abort(p) =>
      var np := t.forking[p];
      if 0 <= np < |t.ps| then t.(ps := t.ps[np := t.ps[np].(state := UNUSED)], forking := t.forking - {p}) else t
    case Exit(p) => t.(ps := Exited(t.ps, p), exited := t.exited + {t.ps[p].pid})
    case Wait(p) => Waited(t, p)
    case Sleep(p, id) => t.(ps := t.ps[p := t.ps[p].(state := SLEEPING, chan := Other(id))])
    case Wakeup(chan) => t.(ps := Woken(t.ps, chan))
    case Kill(pid) => t.(ps := Killed(t.ps, pid))
    case Schedule(p) => t.(ps := t.ps[p := t.ps[p].(state := RUNNING)])
    case Yield(p) => t.(ps := t.ps[p := t.ps[p].(state := RUNNABLE)])
  }

  // ---- what holds between sections ------------------------------------------------------

  /** Slot i's place in the family tree: a parent is alive, and only init has none. */
  ghost predicate Placed(ps: seq<Proc>, i: int)
    requires 0 <= i < |ps|
  {
    && (ps[i].parent.Some? ==>
          && i != INIT && ps[i].parent.value != i && (Live(ps[i]) || ps[i].state.ZOMBIE?)
          && 0 <= ps[i].parent.value < |ps| && Live(ps[ps[i].parent.value]))
    && (Live(ps[i]) && i != INIT ==> ps[i].parent.Some?)
    && (ps[i].state.ZOMBIE? ==> ps[i].parent.Some?)
  }

  ghost predicate Family(ps: seq<Proc>) {
    && INIT < |ps| && Live(ps[INIT])
    && forall i {:trigger Placed(ps, i)} :: 0 <= i < |ps| ==> Placed(ps, i)
  }

  ghost predicate AsleepInWait(ps: seq<Proc>, p: int)
    requires 0 <= p < |ps|
  {
    ps[p].state.SLEEPING? && ps[p].chan == ProcChan(p)
  }

  /** No process sleeps in wait beside a zombie child. */
  ghost predicate NoneOverlooked(ps: seq<Proc>) {
    forall p, z {:trigger ZombieChild(ps, z, p)} ::
      0 <= p < |ps| && 0 <= z < |ps| && AsleepInWait(ps, p) ==> !ZombieChild(ps, z, p)
  }

  /** Slot i's pid: fresh, not reaped, and counted as exited exactly for a zombie. */
  ghost predicate Numbered(t: Table, i: int)
    requires 0 <= i < |t.ps|
  {
    !t.ps[i].state.UNUSED? ==>
      t.ps[i].pid < t.nextpid && t.ps[i].pid !in t.reaped && (t.ps[i].pid in t.exited <==> t.ps[i].state.ZOMBIE?)
  }

  ghost predicate ZombieWithPid(ps: seq<Proc>, z: int, pid: int)
    requires 0 <= z < |ps|
  {
    ps[z].state.ZOMBIE? && ps[z].pid == pid
  }

  ghost predicate NotLost(t: Table, pid: int) {
    pid in t.reaped || exists z :: 0 <= z < |t.ps| && ZombieWithPid(t.ps, z, pid)
  }

  ghost predicate Pids(t: Table) {
    && (forall i {:trigger Numbered(t, i)} :: 0 <= i < |t.ps| ==> Numbered(t, i))
    && (forall i, j :: 0 <= i < j < |t.ps| && !t.ps[i].state.UNUSED? && !t.ps[j].state.UNUSED? ==>
          t.ps[i].pid != t.ps[j].pid)
    && (forall pid :: pid in t.reaped ==> pid in t.exited)
    && (forall pid :: pid in t.exited ==> pid < t.nextpid)
    && (forall pid {:trigger NotLost(t, pid)} :: pid in t.exited ==> NotLost(t, pid))
    && (forall i, j :: 0 <= i < j < |t.reaped| ==> t.reaped[i] != t.reaped[j])
  }

  ghost predicate Embryo(t: Table, p: int)
    requires p in t.forking
  {
    && 0 <= p < |t.ps| && 0 <= t.forking[p] < |t.ps|
    && Live(t.ps[p]) && t.ps[t.forking[p]].state.EMBRYO?
  }

  ghost predicate Forks(t: Table) {
    && (forall p {:trigger Embryo(t, p)} :: p in t.forking ==> Embryo(t, p))
    && (forall p, q {:trigger t.forking[p], t.forking[q]} ::
          p in t.forking && q in t.forking && t.forking[p] == t.forking[q] ==> p == q)
  }

  ghost predicate Inv(t: Table) {
    Family(t.ps) && NoneOverlooked(t.ps) && Pids(t) && Forks(t)
  }

  // ---- steps that only move live processes ----------------------------------------------

  /** Slot i keeps its identity; a live process stays live and does not fall asleep in wait. */
  ghost predicate Moved(a: seq<Proc>, b: seq<Proc>, i: int)
    requires 0 <= i < |a| == |b|
  {
    && b[i].pid == a[i].pid && b[i].parent == a[i].parent
    && (b[i].state == a[i].state || (Live(a[i]) && Live(b[i])))
    && (AsleepInWait(b, i) ==> AsleepInWait(a, i))
  }

  ghost predicate Moves(a: seq<Proc>, b: seq<Proc>) {
    |a| == |b| && forall i {:trigger Moved(a, b, i)} :: 0 <= i < |a| ==> Moved(a, b, i)
  }

  lemma {:induction false} MovesKeepFamily(a: seq<Proc>, b: seq<Proc>)
    requires Moves(a, b) && Family(a) && NoneOverlooked(a)
    ensures Family(b) && NoneOverlooked(b)
  {
    assert Moved(a, b, INIT);
    forall i | 0 <= i < |b| ensures Placed(b, i) {
      assert Moved(a, b, i) && Placed(a, i);
      if a[i].parent.Some? { assert Moved(a, b, a[i].parent.value); }
    }
    forall p, z | 0 <= p < |b| && 0 <= z < |b| && AsleepInWait(b, p) ensures !ZombieChild(b, z, p) {
      assert Moved(a, b, p) && Moved(a, b, z);
      assert !ZombieChild(a, z, p);
    }
  }

  lemma {:induction false} MovesKeepPids(t: Table, b: seq<Proc>)
    requires Moves(t.ps, b) && Pids(t)
    ensures Pids(t.(ps := b))
  {
    var r := t.(ps := b);
    forall i | 0 <= i < |b| ensures Numbered(r, i) && b[i].pid == t.ps[i].pid && (b[i].state.UNUSED? <==> t.ps[i].state.UNUSED?) {
      assert Moved(t.ps, b, i) && Numbered(t, i);
    }
    forall pid | pid in t.exited ensures NotLost(r, pid) {
      assert NotLost(t, pid);
      if pid !in t.reaped {
        var z :| 0 <= z < |t.ps| && ZombieWithPid(t.ps, z, pid);
        assert Moved(t.ps, b, z);
        assert ZombieWithPid(b, z, pid);
      }
    }
  }

  lemma {:induction false} MovesKeepForks(t: Table, b: seq<Proc>)
    requires Moves(t.ps, b) && Forks(t)
    ensures Forks(t.(ps := b))
  {
    var r := t.(ps := b);
    forall p | p in r.forking ensures Embryo(r, p) {
      assert Embryo(t, p);
      assert Moved(t.ps, b, p) && Moved(t.ps, b, t.forking[p]);
    }
  }

  lemma {:induction false} MovesKeep(t: Table, b: seq<Proc>)
    requires Inv(t) && Moves(t.ps, b)
    ensures Inv(t.(ps := b))
  {
    MovesKeepFamily(t.ps, b);
    MovesKeepPids(t, b);
    MovesKeepForks(t, b);
  }

  lemma {:induction false} WokenMoves(ps: seq<Proc>, chan: Chan)
    ensures Moves(ps, Woken(ps, chan))
    ensures forall q :: 0 <= q < |ps| && chan == ProcChan(q) ==> !AsleepInWait(Woken(ps, chan), q)
  {
    var r := Woken(ps, chan);
    forall i | 0 <= i < |ps| ensures Moved(ps, r, i) {
    }
  }

  lemma {:induction false} KilledMoves(ps: seq<Proc>, pid: int)
    ensures Moves(ps, Killed(ps, pid))
  {
    var r := Killed(ps, pid);
    forall i | 0 <= i < |ps| ensures Moved(ps, r, i) {
    }
  }

  lemma {:induction false} SetMoves(ps: seq<Proc>, p: int, q: Proc)
    requires 0 <= p < |ps| && Live(ps[p]) && Live(q) && q.pid == ps[p].pid && q.parent == ps[p].parent
    requires q.state.SLEEPING? ==> q.chan != ProcChan(p)
    ensures Moves(ps, ps[p := q])
  {
    var r := ps[p := q];
    forall i | 0 <= i < |ps| ensures Moved(ps, r, i) {
    }
  }

  // ---- fork -----------------------------------------------------------------------------

  lemma {:induction false} ForkKeeps(t: Table, p: int)
    requires Inv(t) && Runs(t, p)
    ensures Inv(Allocated(t, p))
  {
    var np, r := FirstFrom(t.ps, 0, IsUnused), Allocated(t, p);
    if np < |t.ps| {
      assert Placed(t.ps, np);
      forall i | 0 <= i < |r.ps| ensures Placed(r.ps, i) {
        assert Placed(t.ps, i);
      }
      forall q, z | 0 <= q < |r.ps| && 0 <= z < |r.ps| && AsleepInWait(r.ps, q) ensures !ZombieChild(r.ps, z, q) {
        assert !ZombieChild(t.ps, z, q);
      }
      NewPid(t, p, np);
      forall q | q in r.forking ensures Embryo(r, q) && (q != p ==> r.forking[q] != np) {
        assert q != p ==> Embryo(t, q);
      }
    }
  }

  lemma {:induction false} NewPid(t: Table, p: int, np: int)
    requires Pids(t) && 0 <= np < |t.ps| && t.ps[np].state.UNUSED? && np == FirstFrom(t.ps, 0, IsUnused)
    ensures Pids(Allocated(t, p))
  {
    var r := Allocated(t, p);
    forall i | 0 <= i < |r.ps| ensures Numbered(r, i) && (i != np && !r.ps[i].state.UNUSED? ==> r.ps[i].pid < t.nextpid) {
      assert Numbered(t, i);
    }
    forall pid | pid in r.exited ensures NotLost(r, pid) {
      assert NotLost(t, pid);
      if pid !in t.reaped {
        var z :| 0 <= z < |t.ps| && ZombieWithPid(t.ps, z, pid);
        assert ZombieWithPid(r.ps, z, pid);
      }
    }
  }

  /** A slot changes hands: embryo np of process p becomes a child of p, or is given back. */
  lemma {:induction false} EmbryoEnds(t: Table, p: int, child: Proc)
    requires Inv(t) && p in t.forking && 0 <= t.forking[p] < |t.ps|
    requires child.pid == t.ps[t.forking[p]].pid && t.ps[t.forking[p]].parent.None?
    requires (child.state.UNUSED? && child.parent.None?) || (child.state.RUNNABLE? && child.parent == Some(p))
    ensures Inv(t.(ps := t.ps[t.forking[p] := child], forking := t.forking - {p}))
  {
    var np := t.forking[p];
    var r := t.(ps := t.ps[np := child], forking := t.forking - {p});
    assert Embryo(t, p);
    forall i | 0 <= i < |r.ps| ensures Placed(r.ps, i) {
      assert Placed(t.ps, i);
    }
    forall q, z | 0 <= q < |r.ps| && 0 <= z < |r.ps| && AsleepInWait(r.ps, q) ensures !ZombieChild(r.ps, z, q) {
      assert !ZombieChild(t.ps, z, q);
    }
    SamePids(t, r, np);
    forall q | q in r.forking ensures Embryo(r, q) {
      assert Embryo(t, q);
    }
  }

  /** The pids stay in order when a slot that is not a zombie changes to another such state. */
  lemma {:induction false} SamePids(t: Table, r: Table, np: int)
    requires Pids(t) && 0 <= np < |t.ps| && |r.ps| == |t.ps| && r.ps == t.ps[np := r.ps[np]]
    requires !t.ps[np].state.UNUSED? && !t.ps[np].state.ZOMBIE? && !r.ps[np].state.ZOMBIE? && r.ps[np].pid == t.ps[np].pid
    requires r.nextpid == t.nextpid && r.exited == t.exited && r.reaped == t.reaped
    ensures Pids(r)
  {
    forall i | 0 <= i < |r.ps| ensures Numbered(r, i) {
      assert Numbered(t, i);
    }
    forall pid | pid in r.exited ensures NotLost(r, pid) {
      assert NotLost(t, pid);
      if pid !in t.reaped {
        var z :| 0 <= z < |t.ps| && ZombieWithPid(t.ps, z, pid);
        assert ZombieWithPid(r.ps, z, pid);
      }
    }
  }

  // ---- exit -----------------------------------------------------------------------------

  lemma {:induction false} AdoptedKeeps(t: Table, p: int)
    requires Inv(t) && 0 <= p < |t.ps| && (HasZombieChild(t.ps, p) ==> !AsleepInWait(t.ps, INIT))
    ensures Inv(t.(ps := Adopted(t.ps, p)))
  {
    var b := Adopted(t.ps, p);
    forall i | 0 <= i < |b| ensures Placed(b, i) {
      assert Placed(t.ps, i);
    }
    forall q, z | 0 <= q < |b| && 0 <= z < |b| && AsleepInWait(b, q) ensures !ZombieChild(b, z, q) {
      assert !ZombieChild(t.ps, z, q);
      if t.ps[z].parent == Some(p) && t.ps[z].state.ZOMBIE? {
        assert ZombieChild(t.ps, z, p);
      }
    }
    AdoptedPids(t, p);
    forall q | q in t.forking ensures Embryo(t.(ps := b), q) {
      assert Embryo(t, q);
    }
  }

  lemma {:induction false} AdoptedPids(t: Table, p: int)
    requires Pids(t)
    ensures Pids(t.(ps := Adopted(t.ps, p)))
  {
    var r := t.(ps := Adopted(t.ps, p));
    forall i | 0 <= i < |r.ps| ensures Numbered(r, i) {
      assert Numbered(t, i);
    }
    forall pid | pid in r.exited ensures NotLost(r, pid) {
      assert NotLost(t, pid);
      if pid !in t.reaped {
        var z :| 0 <= z < |t.ps| && ZombieWithPid(t.ps, z, pid);
        assert ZombieWithPid(r.ps, z, pid);
      }
    }
  }

  ghost predicate Childless(ps: seq<Proc>, p: int) {
    forall i :: 0 <= i < |ps| ==> ps[i].parent != Some(p)
  }

  lemma {:induction false} ZombieKeeps(t: Table, p: int)
    requires Inv(t) && Runs(t, p) && p != INIT && Childless(t.ps, p)
    requires forall q :: 0 <= q < |t.ps| && t.ps[p].parent == Some(q) ==> !AsleepInWait(t.ps, q)
    ensures Inv(t.(ps := t.ps[p := t.ps[p].(state := ZOMBIE)], exited := t.exited + {t.ps[p].pid}))
  {
    var r := t.(ps := t.ps[p := t.ps[p].(state := ZOMBIE)], exited := t.exited + {t.ps[p].pid});
    forall i | 0 <= i < |r.ps| ensures Placed(r.ps, i) {
      assert Placed(t.ps, i);
    }
    forall q, z | 0 <= q < |r.ps| && 0 <= z < |r.ps| && AsleepInWait(r.ps, q) ensures !ZombieChild(r.ps, z, q) {
      assert !ZombieChild(t.ps, z, q);
    }
    ZombiePids(t, p);
    forall q | q in r.forking ensures Embryo(r, q) {
      assert Embryo(t, q);
    }
  }

  lemma {:induction false} ZombiePids(t: Table, p: int)
    requires Pids(t) && Runs(t, p)
    ensures Pids(t.(ps := t.ps[p := t.ps[p].(state := ZOMBIE)], exited := t.exited + {t.ps[p].pid}))
  {
    var r := t.(ps := t.ps[p := t.ps[p].(state := ZOMBIE)], exited := t.exited + {t.ps[p].pid});
    assert Numbered(t, p);
    forall i | 0 <= i < |r.ps| ensures Numbered(r, i) {
      assert Numbered(t, i);
    }
    assert ZombieWithPid(r.ps, p, t.ps[p].pid);
    forall pid | pid in r.exited ensures NotLost(r, pid) {
      if pid in t.exited && pid !in t.reaped {
        assert NotLost(t, pid);
        var z :| 0 <= z < |t.ps| && ZombieWithPid(t.ps, z, pid);
        assert ZombieWithPid(r.ps, z, pid);
      }
    }
  }

  lemma {:induction false} ExitKeeps(t: Table, p: int)
    requires Inv(t) && Runs(t, p) && p != INIT
    ensures Inv(t.(ps := Exited(t.ps, p), exited := t.exited + {t.ps[p].pid}))
  {
    var parent := t.ps[p].parent;
    var woken := Woken(t.ps, ParentChan(parent));
    WokenMoves(t.ps, ParentChan(parent));
    MovesKeep(t, woken);
    var t1 := t.(ps := woken);
    var told := if HasZombieChild(t.ps, p) then Woken(woken, ProcChan(INIT)) else woken;
    WokenMoves(woken, ProcChan(INIT));
    MovesKeep(t1, told);
    var t2 := t.(ps := told);
    assert HasZombieChild(told, p) ==> HasZombieChild(t.ps, p) by {
      if z :| 0 <= z < |told| && ZombieChild(told, z, p) {
        assert ZombieChild(t.ps, z, p);
      }
    }
    AdoptedKeeps(t2, p);
    var t3 := t.(ps := Adopted(told, p));
    assert Childless(t3.ps, p);
    assert Placed(t.ps, p);
    assert !AsleepInWait(woken, parent.value);
    assert Moved(woken, told, parent.value);
    ZombieKeeps(t3, p);
  }

  // ---- wait -----------------------------------------------------------------------------

  lemma {:induction false} ReapKeeps(t: Table, z: int)
    requires Inv(t) && 0 <= z < |t.ps| && t.ps[z].state.ZOMBIE?
    ensures Inv(t.(ps := t.ps[z := Reap(t.ps[z])], reaped := t.reaped + [t.ps[z].pid]))
  {
    var r := t.(ps := t.ps[z := Reap(t.ps[z])], reaped := t.reaped + [t.ps[z].pid]);
    forall i | 0 <= i < |r.ps| ensures Placed(r.ps, i) {
      assert Placed(t.ps, i);
    }
    forall p, y | 0 <= p < |r.ps| && 0 <= y < |r.ps| && AsleepInWait(r.ps, p) ensures !ZombieChild(r.ps, y, p) {
      assert !ZombieChild(t.ps, y, p);
    }
    ReapPids(t, z);
    forall q | q in r.forking ensures Embryo(r, q) {
      assert Embryo(t, q);
    }
  }

  lemma {:induction false} ReapPids(t: Table, z: int)
    requires Pids(t) && 0 <= z < |t.ps| && t.ps[z].state.ZOMBIE?
    ensures Pids(t.(ps := t.ps[z := Reap(t.ps[z])], reaped := t.reaped + [t.ps[z].pid]))
  {
    var r := t.(ps := t.ps[z := Reap(t.ps[z])], reaped := t.reaped + [t.ps[z].pid]);
    assert Numbered(t, z);
    forall i | 0 <= i < |r.ps| ensures Numbered(r, i) {
      assert Numbered(t, i);
    }
    forall pid | pid in r.exited ensures NotLost(r, pid) {
      assert NotLost(t, pid);
      if pid !in r.reaped {
        var y :| 0 <= y < |t.ps| && ZombieWithPid(t.ps, y, pid);
        assert ZombieWithPid(r.ps, y, pid);
      }
    }
  }

  lemma {:induction false} WaitSleepKeeps(t: Table, p: int)
    requires Inv(t) && Runs(t, p) && !HasZombieChild(t.ps, p)
    ensures Inv(t.(ps := t.ps[p := t.ps[p].(state := SLEEPING, chan := ProcChan(p))]))
  {
    var b := t.ps[p := t.ps[p].(state := SLEEPING, chan := ProcChan(p))];
    var r := t.(ps := b);
    forall i | 0 <= i < |b| ensures Placed(b, i) {
      assert Placed(t.ps, i);
    }
    forall q, z | 0 <= q < |b| && 0 <= z < |b| && AsleepInWait(b, q) ensures !ZombieChild(b, z, q) {
      assert !ZombieChild(t.ps, z, q);
    }
    SamePids(t, r, p);
    forall q | q in r.forking ensures Embryo(r, q) {
      assert Embryo(t, q);
    }
  }

  lemma {:induction false} WaitKeeps(t: Table, p: int)
    requires Inv(t) && Runs(t, p)
    ensures Inv(Waited(t, p))
  {
    var z := FirstFrom(t.ps, 0, (c: Proc) => c.state.ZOMBIE? && c.parent == Some(p));
    if z < |t.ps| {
      ReapKeeps(t, z);
    } else if Waited(t, p) != t {
      forall y | 0 <= y < |t.ps| ensures !ZombieChild(t.ps, y, p) {
      }
      WaitSleepKeeps(t, p);
    }
  }

  /** wait never sleeps or fails when a child has exited: it returns that child's pid. */
  lemma {:induction false} WaitFindsZombie(t: Table, p: int)
    requires 0 <= p < |t.ps| && HasZombieChild(t.ps, p)
    ensures exists z :: 0 <= z < |t.ps| && ZombieChild(t.ps, z, p) &&
              Waited(t, p) == t.(ps := t.ps[z := Reap(t.ps[z])], reaped := t.reaped + [t.ps[z].pid])
  {
    var y :| 0 <= y < |t.ps| && ZombieChild(t.ps, y, p);
    var z := FirstFrom(t.ps, 0, (c: Proc) => c.state.ZOMBIE? && c.parent == Some(p));
    assert ZombieChild(t.ps, z, p);
  }

  // ---- runs -----------------------------------------------------------------------------

  lemma {:induction false} StepKeeps(t: Table, s: Step)
    requires Inv(t) && Enabled(t, s)
    ensures Inv(Next(t, s))
  {
    match s
    case Fork(p) => ForkKeeps(t, p);
    case Publish(p) =>
      var np := t.forking[p];
      assert Embryo(t, p) && Placed(t.ps, np);
      EmbryoEnds(t, p, t.ps[np].(state := RUNNABLE, parent := Some(p)));
    case Abort(p) =>
      var np := t.forking[p];
      assert Embryo(t, p) && Placed(t.ps, np);
      EmbryoEnds(t, p, t.ps[np].(state := UNUSED));
    case Exit(p) => ExitKeeps(t, p);
    case Wait(p) => WaitKeeps(t, p);
    case Sleep(p, id) => SetMoves(t.ps, p, t.ps[p].(state := SLEEPING, chan := Other(id))); MovesKeep(t, Next(t, s).ps);
    case Wakeup(chan) => WokenMoves(t.ps, chan); MovesKeep(t, Woken(t.ps, chan));
    case Kill(pid) => KilledMoves(t.ps, pid); MovesKeep(t, Killed(t.ps, pid));
    case Schedule(p) => SetMoves(t.ps, p, t.ps[p].(state := RUNNING)); MovesKeep(t, Next(t, s).ps);
    case Yield(p) => SetMoves(t.ps, p, t.ps[p].(state := RUNNABLE)); MovesKeep(t, Next(t, s).ps);
  }

  const FREE_SLOT := Proc(UNUSED, 0, None, NoChan, false)

  /** The table after userinit, with n slots besides init's. */
  function Boot(n: nat): Table {
    Table([Proc(RUNNABLE, 1, None, NoChan, false)] + seq(n, _ => FREE_SLOT), 2, map[], {}, [])
  }

  ghost function After(t: Table, steps: seq<Step>): Table {
    if steps == [] then t
    else
      var u := After(t, steps[..|steps| - 1]);
      if Enabled(u, steps[|steps| - 1]) then Next(u, steps[|steps| - 1]) else u
  }

  ghost predicate CanRun(t: Table, steps: seq<Step>) {
    steps != [] ==>
      CanRun(t, steps[..|steps| - 1]) && Enabled(After(t, steps[..|steps| - 1]), steps[|steps| - 1])
  }

  lemma {:induction false} RunsKeepInv(t: Table, steps: seq<Step>)
    requires Inv(t) && CanRun(t, steps)
    ensures Inv(After(t, steps))
  {
    if steps != [] {
      var most := steps[..|steps| - 1];
      RunsKeepInv(t, most);
      StepKeeps(After(t, most), steps[|steps| - 1]);
    }
  }

  lemma {:induction false} BootInv(n: nat)
    ensures Inv(Boot(n))
  {
    var t := Boot(n);
    forall i | 0 <= i < |t.ps| ensures Placed(t.ps, i) && Numbered(t, i) {
    }
    assert forall z :: 0 <= z < |t.ps| ==> !t.ps[z].state.ZOMBIE?;
  }

  /** In every reachable table each zombie has a live parent, no process sleeps in wait beside a
      zombie child, every exit is reaped or waits to be, and no pid is reaped twice. */
  lemma {:induction false} NoLostExit(n: nat, steps: seq<Step>)
    requires CanRun(Boot(n), steps)
    ensures var t := After(Boot(n), steps);
            && (forall z :: 0 <= z < |t.ps| && t.ps[z].state.ZOMBIE? ==>
                  t.ps[z].parent.Some? && 0 <= t.ps[z].parent.value < |t.ps| && Live(t.ps[t.ps[z].parent.value]))
            && NoneOverlooked(t.ps)
            && (forall pid :: pid in t.exited ==> NotLost(t, pid))
            && (forall i, j :: 0 <= i < j < |t.reaped| ==> t.reaped[i] != t.reaped[j])
  {
    BootInv(n);
    RunsKeepInv(Boot(n), steps);
    var t := After(Boot(n), steps);
    forall z | 0 <= z < |t.ps| && t.ps[z].state.ZOMBIE?
      ensures t.ps[z].parent.Some? && 0 <= t.ps[z].parent.value < |t.ps| && Live(t.ps[t.ps[z].parent.value])
    {
      assert Placed(t.ps, z);
    }
  }

  // ---- kill and unused slots ------------------------------------------------------------

  /** No unused slot is marked killed, so that no process is born killed. */
  ghost predicate Unmarked(ps: seq<Proc>) {
    forall i :: 0 <= i < |ps| && ps[i].state.UNUSED? ==> !ps[i].killed
  }

  /** kill finds an unused slot first (pid 0, or the pid of a fork that failed), or a fork whose
      child was already killed fails. */
  ghost predicate MarksUnused(t: Table, s: Step) {
    match s
    case Kill(pid) =>
      var k := FirstFrom(t.ps, 0, (c: Proc) => c.pid == pid);
      k < |t.ps| && t.ps[k].state.UNUSED?
    case Abort(p) => p in t.forking && 0 <= t.forking[p] < |t.ps| && t.ps[t.forking[p]].killed
    case _ => false
  }

  lemma {:induction false} StepMarks(t: Table, s: Step)
    requires Inv(t) && Enabled(t, s) && Unmarked(t.ps)
    ensures Unmarked(Next(t, s).ps) <==> !MarksUnused(t, s)
  {
    match s
    case Abort(p) => assert Embryo(t, p); assert MarksUnused(t, s) ==> Next(t, s).ps[t.forking[p]].state.UNUSED?;
    case Publish(p) => assert Embryo(t, p);
    case Kill(pid) =>
      var k := FirstFrom(t.ps, 0, (c: Proc) => c.pid == pid);
      assert k < |t.ps| ==> Killed(t.ps, pid)[k].killed;
    case Exit(p) => ExitMarks(t.ps, p);
    case _ =>
  }

  lemma {:induction false} ExitMarks(ps: seq<Proc>, p: int)
    requires 0 <= p < |ps| && Unmarked(ps) && !ps[p].state.UNUSED?
    ensures Unmarked(Exited(ps, p))
  {
  }

  ghost predicate NeverMarks(t: Table, steps: seq<Step>) {
    steps != [] ==>
      NeverMarks(t, steps[..|steps| - 1]) && !MarksUnused(After(t, steps[..|steps| - 1]), steps[|steps| - 1])
  }

  ghost predicate AlwaysUnmarked(t: Table, steps: seq<Step>) {
    && Unmarked(After(t, steps).ps)
    && (steps != [] ==> AlwaysUnmarked(t, steps[..|steps| - 1]))
  }

  /** Free slots stay unmarked throughout a run exactly when no kill or failed fork marks one. */
  lemma {:induction false} UnmarkedIff(n: nat, steps: seq<Step>)
    requires CanRun(Boot(n), steps)
    ensures AlwaysUnmarked(Boot(n), steps) <==> NeverMarks(Boot(n), steps)
  {
    if steps != [] {
      var most := steps[..|steps| - 1];
      UnmarkedIff(n, most);
      BootInv(n);
      RunsKeepInv(Boot(n), most);
      if AlwaysUnmarked(Boot(n), most) {
        StepMarks(After(Boot(n), most), steps[|steps| - 1]);
      }
    }
  }

  lemma {:induction false} Extend(t: Table, steps: seq<Step>, s: Step)
    requires CanRun(t, steps) && Enabled(After(t, steps), s)
    ensures CanRun(t, steps + [s]) && After(t, steps + [s]) == Next(After(t, steps), s)
  {
    assert (steps + [s])[..|steps + [s]| - 1] == steps;
  }

  lemma {:induction false} KillZero(n: nat)
    requires n >= 1
    ensures CanRun(Boot(n), [Kill(0)])
    ensures After(Boot(n), [Kill(0)]) == Boot(n).(ps := Boot(n).ps[1 := FREE_SLOT.(killed := true)])
  {
    var t := Boot(n);
    Extend(t, [], Kill(0));
    assert [] + [Kill(0)] == [Kill(0)];
    assert FirstFrom(t.ps, 0, (c: Proc) => c.pid == 0) == 1;
  }

  lemma {:induction false} KillZeroThenFork(n: nat)
    requires n >= 1
    ensures var steps := [Kill(0), Schedule(INIT), Fork(INIT)];
            && CanRun(Boot(n), steps)
            && var t := After(Boot(n), steps);
            && t.forking == map[INIT := 1] && |t.ps| == n + 1
            && t.ps[0].state.RUNNING? && t.ps[1] == Proc(EMBRYO, 2, None, NoChan, true)
  {
    var t := Boot(n);
    KillZero(n);
    Extend(t, [Kill(0)], Schedule(INIT));
    assert [Kill(0)] + [Schedule(INIT)] == [Kill(0), Schedule(INIT)];
    Extend(t, [Kill(0), Schedule(INIT)], Fork(INIT));
    assert [Kill(0), Schedule(INIT)] + [Fork(INIT)] == [Kill(0), Schedule(INIT), Fork(INIT)];
    assert FirstFrom(After(t, [Kill(0), Schedule(INIT)]).ps, 0, IsUnused) == 1;
  }

  /** kill(0) marks the first free slot, and the next process forked is born killed. */
  lemma {:induction false} BornKilled(n: nat)
    requires n >= 1
    ensures var steps := [Kill(0), Schedule(INIT), Fork(INIT), Publish(INIT)];
            && CanRun(Boot(n), steps)
            && var ps := After(Boot(n), steps).ps;
            |ps| == n + 1 && ps[1] == Proc(RUNNABLE, 2, Some(INIT), NoChan, true)
  {
    KillZeroThenFork(n);
    Extend(Boot(n), [Kill(0), Schedule(INIT), Fork(INIT)], Publish(INIT));
    assert [Kill(0), Schedule(INIT), Fork(INIT)] + [Publish(INIT)] == [Kill(0), Schedule(INIT), Fork(INIT), Publish(INIT)];
  }
}
