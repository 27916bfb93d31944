/** Which operations the log admits (begin_op, log_write, end_op of log.c), as a state machine. */
module LogAdmission {
  // The steps are the critical sections of any number of processes.  log_write tests its size
  // guard before it takes the lock, so it is two steps here: `Check` and `Store`.  An operation
  // that keeps to its budget logs at most MAXOPBLOCKS distinct blocks.

  import opened Params
  import opened RedoLog
  import opened LogLayer

  datatype Op =
    | Idle
    | Asleep                                  // in begin_op, sleeping on &log
    | Active(used: set<int>)                  // between begin_op and end_op
    | Checked(used: set<int>, blockno: int)   // in log_write, guard passed, lock not yet taken

  datatype State = State(lh: LogHeader, procs: seq<Op>, committing: bool)

  datatype Step = Begin(p: nat) | Check(p: nat, b: int) | Store(p: nat) | End(p: nat) | FinishCommit

  predicate Outstanding(op: Op) { op.Active? || op.Checked? }

  /** log.outstanding. */
  function Count(procs: seq<Op>): (n: nat)
    ensures n == 0 <==> forall i :: 0 <= i < |procs| ==> !Outstanding(procs[i])
  {
    if procs == [] then 0
    else Count(procs[..|procs| - 1]) + if Outstanding(procs[|procs| - 1]) then 1 else 0
  }

  function Left(op: Op): int { if Outstanding(op) then MAXOPBLOCKS - |op.used| else 0 }

  /** The part of their budgets that outstanding operations have not used. */
  function Unused(procs: seq<Op>): int {
    if procs == [] then 0 else Unused(procs[..|procs| - 1]) + Left(procs[|procs| - 1])
  }

  lemma {:induction false} Replaced(procs: seq<Op>, p: nat, op: Op)
    requires p < |procs|
    ensures Unused(procs[p := op]) == Unused(procs) - Left(procs[p]) + Left(op)
    ensures Count(procs[p := op])
            == Count(procs) - (if Outstanding(procs[p]) then 1 else 0) + (if Outstanding(op) then 1 else 0)
  {
    var n := |procs| - 1;
    if p < n {
      Replaced(procs[..n], p, op);
      assert procs[p := op][..n] == procs[..n][p := op];
    } else {
      assert procs[p := op][..n] == procs[..n];
    }
  }

  function Wake(op: Op): Op { if op.Asleep? then Idle else op }

  function WakeAll(procs: seq<Op>): (r: seq<Op>)
    ensures |r| == |procs|
    ensures forall i :: 0 <= i < |r| ==> r[i] == Wake(procs[i])
  {
    seq(|procs|, i requires 0 <= i < |procs| => Wake(procs[i]))
  }

  lemma {:induction false} WokenCounts(procs: seq<Op>)
    ensures Unused(WakeAll(procs)) == Unused(procs)
    ensures Count(WakeAll(procs)) == Count(procs)
  {
    if procs != [] {
      var n := |procs| - 1;
      WokenCounts(procs[..n]);
      assert WakeAll(procs)[..n] == WakeAll(procs[..n]);
    }
  }

  /** log_write's panic test, for a log of `size` blocks. */
  predicate GuardFires(size: nat, lh: LogHeader) {
    |lh| >= LOGSIZE || |lh| >= size - 1
  }

  /** begin_op's test. */
  predicate Admits(s: State) {
    !s.committing && |s.lh| + (Count(s.procs) + 1) * MAXOPBLOCKS <= LOGSIZE
  }

  ghost predicate Enabled(size: nat, s: State, a: Step) {
    match a
    case Begin(p) => p < |s.procs| && s.procs[p].Idle?
    case Check(p, b) =>
      && p < |s.procs| && s.procs[p].Active? && !GuardFires(size, s.lh)
      && |s.procs[p].used + {b}| <= MAXOPBLOCKS
    case Store(p) => p < |s.procs| && s.procs[p].Checked?
    case End(p) => p < |s.procs| && s.procs[p].Active? && !s.committing
    case FinishCommit => s.committing
  }

  ghost function Next(size: nat, s: State, a: Step): State
    requires Enabled(size, s, a)
  {
    match a
    case Begin(p) => s.(procs := s.procs[p := if Admits(s) then Active({}) else Asleep])
    case Check(p, b) => s.(procs := s.procs[p := Checked(s.procs[p].used, b)])
    case Store(p) =>
      var Checked(used, b) := s.procs[p];
      s.(lh := Absorb(s.lh, b), procs := s.procs[p := Active(used + {b})])
    case End(p) =>
      var procs := s.procs[p := Idle];
      if Count(procs) == 0 then s.(procs := procs, committing := true) else s.(procs := WakeAll(procs))
    case FinishCommit => State([], WakeAll(s.procs), false)
  }

  ghost function Start(n: nat): State { State([], seq(n, _ => Idle), false) }

  /** The steps, taken in order, lead from s to s'. */
  ghost predicate Leads(size: nat, s: State, steps: seq<Step>, s': State)
    decreases |steps|
  {
    if steps == [] then s' == s
    else Enabled(size, s, steps[0]) && Leads(size, Next(size, s, steps[0]), steps[1..], s')
  }

  /** `s` is reached from the empty log of n processes. */
  ghost predicate Reaches(size: nat, n: nat, steps: seq<Step>, s: State) {
    Leads(size, Start(n), steps, s)
  }

  // ---- the invariant --------------------------------------------------------------------

  /** An operation's own blocks are in the log, and it stays within its budget. */
  ghost predicate OpOk(lh: LogHeader, op: Op) {
    Outstanding(op) ==>
      && (forall b :: b in op.used ==> b in lh)
      && |op.used| <= MAXOPBLOCKS
      && (op.Checked? ==> |op.used + {op.blockno}| <= MAXOPBLOCKS)
  }

  ghost predicate Inv(s: State) {
    && Distinct(s.lh)
    && (forall p :: 0 <= p < |s.procs| ==> OpOk(s.lh, s.procs[p]))
    && |s.lh| + Unused(s.procs) <= LOGSIZE
    && (s.committing ==> Count(s.procs) == 0)
    && (!s.committing && Count(s.procs) == 0 ==> s.lh == [])
    && ((exists p :: 0 <= p < |s.procs| && s.procs[p].Asleep?) ==> s.committing || Count(s.procs) > 0)
  }

  lemma {:induction false} UnusedBounds(lh: LogHeader, procs: seq<Op>)
    requires forall p :: 0 <= p < |procs| ==> OpOk(lh, procs[p])
    ensures 0 <= Unused(procs) <= Count(procs) * MAXOPBLOCKS
    ensures forall p :: 0 <= p < |procs| ==> Left(procs[p]) <= Unused(procs)
  {
    if procs != [] {
      var n := |procs| - 1;
      UnusedBounds(lh, procs[..n]);
      assert forall p :: 0 <= p < n ==> procs[..n][p] == procs[p];
    }
  }

  lemma {:induction false} BeginKeeps(size: nat, s: State, p: nat)
    requires Inv(s) && Enabled(size, s, Begin(p))
    ensures Inv(Next(size, s, Begin(p)))
  {
    Replaced(s.procs, p, Active({}));
    Replaced(s.procs, p, Asleep);
    UnusedBounds(s.lh, s.procs);
  }

  lemma {:induction false} StoreKeeps(size: nat, s: State, p: nat)
    requires Inv(s) && Enabled(size, s, Store(p))
    ensures Inv(Next(size, s, Store(p)))
  {
    var Checked(used, b) := s.procs[p];
    Replaced(s.procs, p, Active(used + {b}));
    AbsorbKeeps(s.lh, b);
    if b in used {
      assert used + {b} == used;
    }
  }

  lemma {:induction false} EndKeeps(size: nat, s: State, p: nat)
    requires Inv(s) && Enabled(size, s, End(p))
    ensures Inv(Next(size, s, End(p)))
  {
    Replaced(s.procs, p, Idle);
    WokenCounts(s.procs[p := Idle]);
  }

  lemma {:induction false} StepKeeps(size: nat, s: State, a: Step)
    requires Inv(s) && Enabled(size, s, a)
    ensures Inv(Next(size, s, a))
  {
    match a
    case Begin(p) => BeginKeeps(size, s, p);
    case Check(p, b) => Replaced(s.procs, p, Checked(s.procs[p].used, b));
    case Store(p) => StoreKeeps(size, s, p);
    case End(p) => EndKeeps(size, s, p);
    case FinishCommit =>
      WokenCounts(s.procs);
      UnusedBounds(s.lh, s.procs);
      UnusedBounds([], WakeAll(s.procs));
  }

  lemma {:induction false} LeadsKeeps(size: nat, s: State, steps: seq<Step>, s': State)
    requires Inv(s) && Leads(size, s, steps, s')
    ensures Inv(s') && |s'.procs| == |s.procs|
    decreases |steps|
  {
    if steps != [] {
      StepKeeps(size, s, steps[0]);
      LeadsKeeps(size, Next(size, s, steps[0]), steps[1..], s');
    }
  }

  /** Every interleaving keeps the invariant: the log and the unused budgets fit LOGSIZE. */
  lemma {:induction false} RunsKeepInv(size: nat, n: nat, steps: seq<Step>, s: State)
    requires Reaches(size, n, steps, s)
    ensures Inv(s) && |s.procs| == n
  {
    UnusedBounds([], Start(n).procs);
    LeadsKeeps(size, Start(n), steps, s);
  }

  // ---- what follows for the log ---------------------------------------------------------

  /** Every slot index is below LOGSIZE; committing excludes outstanding operations; and a
  process asleep in begin_op is never alone. */
  lemma {:induction false} AdmissionSafety(size: nat, n: nat, steps: seq<Step>, s: State)
    requires Reaches(size, n, steps, s)
    ensures |s.lh| + Unused(s.procs) <= LOGSIZE && 0 <= Unused(s.procs)
    ensures s.committing ==> Count(s.procs) == 0
    ensures forall p :: 0 <= p < |s.procs| && s.procs[p].Asleep? ==> s.committing || Count(s.procs) > 0
  {
    RunsKeepInv(size, n, steps, s);
    UnusedBounds(s.lh, s.procs);
  }

  /** A process asleep in begin_op is one that begin_op would still refuse. */
  ghost predicate SleepersWait(s: State) {
    forall p :: 0 <= p < |s.procs| && s.procs[p].Asleep? ==> !Admits(s)
  }

  lemma {:induction false} StepKeepsSleepers(size: nat, s: State, a: Step)
    requires Inv(s) && SleepersWait(s) && Enabled(size, s, a)
    ensures SleepersWait(Next(size, s, a))
  {
    match a
    case Begin(p) =>
      Replaced(s.procs, p, Active({}));
      Replaced(s.procs, p, Asleep);
    case Check(p, b) => Replaced(s.procs, p, Checked(s.procs[p].used, b));
    case Store(p) =>
      Replaced(s.procs, p, Active(s.procs[p].used + {s.procs[p].blockno}));
      AbsorbKeeps(s.lh, s.procs[p].blockno);
    case End(p) =>
    case FinishCommit =>
  }

  lemma {:induction false} LeadsKeepsSleepers(size: nat, s: State, steps: seq<Step>, s': State)
    requires Inv(s) && SleepersWait(s) && Leads(size, s, steps, s')
    ensures SleepersWait(s')
    decreases |steps|
  {
    if steps != [] {
      StepKeeps(size, s, steps[0]);
      StepKeepsSleepers(size, s, steps[0]);
      LeadsKeepsSleepers(size, Next(size, s, steps[0]), steps[1..], s');
    }
  }

  /** No wakeup is lost: in every run, begin_op's test fails for as long as a process sleeps in it.
  After an end_op a process still sleeps only if the commit has begun, and after a commit none does. */
  lemma {:induction false} NoLostWakeup(size: nat, n: nat, steps: seq<Step>, s: State, p: nat)
    requires Reaches(size, n, steps, s) && p < |s.procs| && s.procs[p].Asleep?
    ensures s.committing || |s.lh| + (Count(s.procs) + 1) * MAXOPBLOCKS > LOGSIZE
    ensures steps != [] && steps[|steps| - 1].End? ==> s.committing
    ensures steps != [] && !steps[|steps| - 1].FinishCommit?
  {
    UnusedBounds([], Start(n).procs);
    LeadsKeepsSleepers(size, Start(n), steps, s);
    if steps != [] {
      var before := LeadsLast(size, Start(n), steps, s);
    }
  }

  lemma {:induction false} LeadsLast(size: nat, s: State, steps: seq<Step>, s': State) returns (before: State)
    requires Leads(size, s, steps, s') && steps != []
    ensures Enabled(size, before, steps[|steps| - 1]) && s' == Next(size, before, steps[|steps| - 1])
    decreases |steps|
  {
    if |steps| == 1 {
      before := s;
    } else {
      before := LeadsLast(size, Next(size, s, steps[0]), steps[1..], s');
    }
  }

  /** A block new to its operation, within budget, is refused only by a log region of at most
  LOGSIZE blocks. */
  lemma {:induction false} FreshWriteAccepted(size: nat, n: nat, steps: seq<Step>, s: State, p: nat, b: int)
    requires Reaches(size, n, steps, s) && size > LOGSIZE
    requires p < n && p < |s.procs| && s.procs[p].Active?
    requires b !in s.procs[p].used && |s.procs[p].used| < MAXOPBLOCKS
    ensures Enabled(size, s, Check(p, b))
  {
    RunsKeepInv(size, n, steps, s);
    UnusedBounds(s.lh, s.procs);
    assert Left(s.procs[p]) >= 1;
  }

  lemma {:induction false} LeadsOn(size: nat, s: State, steps: seq<Step>, s': State, a: Step)
    requires Leads(size, s, steps, s') && Enabled(size, s', a)
    ensures Leads(size, s, steps + [a], Next(size, s', a))
    decreases |steps|
  {
    if steps == [] {
      assert [a][1..] == [];
    } else {
      LeadsOn(size, Next(size, s, steps[0]), steps[1..], s', a);
      assert (steps + [a])[1..] == steps[1..] + [a];
    }
  }

  lemma {:induction false} Extend(size: nat, n: nat, steps: seq<Step>, s: State, a: Step)
    requires Reaches(size, n, steps, s) && Enabled(size, s, a)
    ensures Reaches(size, n, steps + [a], Next(size, s, a))
  {
    LeadsOn(size, Start(n), steps, s, a);
  }

  /** Which of three operations logs block k when they fill the log together. */
  function Filler(k: int): nat {
    if k < 10 then 2 else if k < 19 then 1 else if k < 28 then 0 else if k == 28 then 1 else 0
  }

  /** How many of the first k blocks operation p logged. */
  function FilledBy(p: nat, k: int): nat {
    if p == 2 then (if k < 10 then (if k < 0 then 0 else k) else 10)
    else if p == 1 then (if k < 10 then 0 else if k < 19 then k - 10 else if k < 29 then 9 else 10)
    else (if k < 19 then 0 else if k < 28 then k - 19 else if k < 30 then 9 else 10)
  }

  /** Three operations outstanding, their first k blocks logged. */
  ghost predicate Filled(s: State, k: int) {
    && |s.procs| == 3 && !s.committing
    && |s.lh| == k && (forall b :: b in s.lh ==> 0 <= b < k)
    && (forall p :: 0 <= p < 3 ==> s.procs[p].Active? && |s.procs[p].used| == FilledBy(p, k))
    && (forall p, b :: 0 <= p < 3 && b in s.procs[p].used ==> b in s.lh)
  }

  lemma {:induction false} BeginThree(size: nat) returns (steps: seq<Step>, s: State)
    ensures Reaches(size, 3, steps, s) && Filled(s, 0)
  {
    steps, s := [], Start(3);
    for p := 0 to 3
      invariant Reaches(size, 3, steps, s)
      invariant s.lh == [] && !s.committing && |s.procs| == 3
      invariant forall i :: 0 <= i < 3 ==> s.procs[i] == if i < p then Active({}) else Idle
      invariant Count(s.procs) == p
    {
      if p == 0 { UnusedBounds([], s.procs); }
      Extend(size, 3, steps, s, Begin(p));
      Replaced(s.procs, p, Active({}));
      steps, s := steps + [Begin(p)], Next(size, s, Begin(p));
    }
  }

  lemma {:induction false} FillOne(size: nat, steps: seq<Step>, s: State, k: nat) returns (steps': seq<Step>, s': State)
    requires Reaches(size, 3, steps, s) && Filled(s, k) && k < LOGSIZE && k + 1 < size
    ensures Reaches(size, 3, steps', s') && Filled(s', k + 1)
  {
    var p := Filler(k);
    var used := s.procs[p].used;
    assert k !in s.lh && k !in used;
    Extend(size, 3, steps, s, Check(p, k));
    var s1 := Next(size, s, Check(p, k));
    Extend(size, 3, steps + [Check(p, k)], s1, Store(p));
    steps', s' := steps + [Check(p, k)] + [Store(p)], Next(size, s1, Store(p));
    assert s'.lh == s.lh + [k];
    assert s'.procs[p] == Active(used + {k});
  }

  lemma {:induction false} Fill(size: nat, k: nat) returns (steps: seq<Step>, s: State)
    requires k <= LOGSIZE && k < size
    ensures Reaches(size, 3, steps, s) && Filled(s, k)
  {
    if k == 0 {
      steps, s := BeginThree(size);
    } else {
      steps, s := Fill(size, k - 1);
      steps, s := FillOne(size, steps, s, k - 1);
    }
  }

  /** With a log region of at most LOGSIZE blocks (mkfs makes one of exactly LOGSIZE), two
  operations that both pass the guard before either stores push the log past its region, so
  that the place of the last logged block is start + size. */
  lemma {:induction false} UncheckedOverrun(size: nat) returns (steps: seq<Step>, s: State)
    requires 2 <= size <= LOGSIZE
    ensures Reaches(size, 3, steps, s) && |s.lh| == size
    ensures |s.procs| == 3 && !s.committing && forall p :: 0 <= p < 3 ==> s.procs[p].Active?
  {
    var k := size - 2;
    steps, s := Fill(size, k);
    steps, s := CheckBoth(size, steps, s, k);
    Extend(size, 3, steps, s, Store(0));
    steps, s := steps + [Store(0)], Next(size, s, Store(0));
    Extend(size, 3, steps, s, Store(1));
    steps, s := steps + [Store(1)], Next(size, s, Store(1));
  }

  /** Operations 0 and 1 both pass the guard for the blocks k and k+1, neither logged yet. */
  lemma {:induction false} CheckBoth(size: nat, steps: seq<Step>, s: State, k: nat)
    returns (steps': seq<Step>, s': State)
    requires Reaches(size, 3, steps, s) && Filled(s, k) && k + 2 == size <= LOGSIZE
    ensures Reaches(size, 3, steps', s') && |s'.procs| == 3
    ensures |s'.lh| == k && k !in s'.lh && k + 1 !in s'.lh
    ensures s'.procs[0].Checked? && s'.procs[0].blockno == k
    ensures s'.procs[1].Checked? && s'.procs[1].blockno == k + 1
    ensures s'.procs[2].Active? && !s'.committing
  {
    Extend(size, 3, steps, s, Check(0, k));
    var s1 := Next(size, s, Check(0, k));
    Extend(size, 3, steps + [Check(0, k)], s1, Check(1, k + 1));
    steps', s' := steps + [Check(0, k)] + [Check(1, k + 1)], Next(size, s1, Check(1, k + 1));
  }

  /** The log stays inside its region in every run exactly when the region has more than
  LOGSIZE blocks (or only the header, when no write is ever accepted). */
  lemma {:induction false} RegionSafeIff(size: nat)
    requires size >= 1
    ensures (forall n, steps, s :: Reaches(size, n, steps, s) ==> |s.lh| < size) <==> (size > LOGSIZE || size == 1)
  {
    if size > LOGSIZE {
      forall n, steps, s | Reaches(size, n, steps, s) ensures |s.lh| < size {
        AdmissionSafety(size, n, steps, s);
      }
    } else if size == 1 {
      forall n, steps, s | Reaches(size, n, steps, s) ensures |s.lh| < size {
        HeaderOnlyStaysEmpty(Start(n), steps, s);
      }
    } else {
      var steps, s := UncheckedOverrun(size);
      assert Reaches(size, 3, steps, s) && |s.lh| == size;
    }
  }

  lemma {:induction false} HeaderOnlyStaysEmpty(s: State, steps: seq<Step>, s': State)
    requires s.lh == [] && (forall p :: 0 <= p < |s.procs| ==> !s.procs[p].Checked?)
    requires Leads(1, s, steps, s')
    ensures s'.lh == []
    decreases |steps|
  {
    if steps != [] {
      HeaderOnlyStaysEmpty(Next(1, s, steps[0]), steps[1..], s');
    }
  }

  lemma {:induction false} EndThree(size: nat, steps: seq<Step>, s: State) returns (steps': seq<Step>, s': State)
    requires Reaches(size, 3, steps, s) && |s.procs| == 3 && !s.committing
    requires forall p :: 0 <= p < 3 ==> s.procs[p].Active?
    ensures Reaches(size, 3, steps', s') && s'.committing && s'.lh == s.lh
  {
    steps', s' := steps, s;
    for p := 0 to 3
      invariant Reaches(size, 3, steps', s') && |s'.procs| == 3 && s'.lh == s.lh && s'.committing == (p == 3)
      invariant forall i :: 0 <= i < 3 ==> if i < p then s'.procs[i].Idle? else s'.procs[i].Active?
    {
      Extend(size, 3, steps', s', End(p));
      steps', s' := steps' + [End(p)], Next(size, s', End(p));
    }
  }

  /** A commit may find as many blocks in the log, each pinning its buffer, as the cache has buffers;
  mkfs's region of LOGSIZE blocks allows it, and so does any larger one. */
  lemma {:induction false} AllBuffersPinned(size: nat) returns (steps: seq<Step>, s: State)
    requires size >= LOGSIZE
    ensures Reaches(size, 3, steps, s) && s.committing && |s.lh| == NBUF
  {
    if size > LOGSIZE {
      steps, s := Fill(size, LOGSIZE);
    } else {
      steps, s := UncheckedOverrun(size);
    }
    steps, s := EndThree(size, steps, s);
  }

  /** The guard also refuses a rewrite that would only be absorbed: a full log panics on an
  operation touching a block it has already logged, however large the region. */
  lemma {:induction false} FullLogRefusesAbsorption(size: nat) returns (steps: seq<Step>, s: State)
    requires size > LOGSIZE
    ensures Reaches(size, 3, steps, s)
    ensures s.procs != [] && s.procs[0].Active? && s.procs[0].used != {} && GuardFires(size, s.lh)
  {
    steps, s := Fill(size, LOGSIZE);
  }
}
