/** Pipes (pipe.c): a ring of PIPESIZE bytes with 32-bit counters that wrap around. */
module Pipes {
  // A call of pipewrite or piperead is a series of critical sections: each runs from taking the
  // pipe's lock (or waking with it) to sleeping or returning.  The class proves each section
  // against an unbounded queue of bytes; the state machine below interleaves sections.

  import opened Params

  const PIPESIZE: nat := 512

  /** Everything ever accepted by writers and handed to readers, and the two open flags. */
  datatype Queue = Queue(accepted: seq<Byte>, delivered: seq<Byte>, readopen: bool, writeopen: bool)

  /** How a critical section ends: the call returns, fails with -1, or sleeps. */
  datatype SectionEnd = Done | Failed | Asleep

  /** Readers get a prefix of what writers put in; at most PIPESIZE bytes are in flight. */
  ghost predicate Sound(q: Queue) {
    q.delivered <= q.accepted && |q.accepted| - |q.delivered| <= PIPESIZE
  }

  function InFlight(q: Queue): int { |q.accepted| - |q.delivered| }

  function Min(a: int, b: int): int { if a < b then a else b }

  /** Bytes one section of a write of `bytes` puts into the pipe. */
  function Fitting(q: Queue, bytes: seq<Byte>): (k: nat)
    requires InFlight(q) <= PIPESIZE
    ensures k <= |bytes|
  {
    Min(|bytes|, PIPESIZE - InFlight(q))
  }

  function Written(q: Queue, bytes: seq<Byte>): Queue
    requires InFlight(q) <= PIPESIZE
  {
    q.(accepted := q.accepted + bytes[..Fitting(q, bytes)])
  }

  function WriteEnd(q: Queue, bytes: seq<Byte>, killed: bool): SectionEnd
    requires InFlight(q) <= PIPESIZE
  {
    if Fitting(q, bytes) == |bytes| then Done else if !q.readopen || killed then Failed else Asleep
  }

  function ReadEnd(q: Queue, killed: bool): SectionEnd {
    if InFlight(q) == 0 && q.writeopen then (if killed then Failed else Asleep) else Done
  }

  /** Bytes one section of a read of at most n bytes gets. */
  function Got(q: Queue, n: nat): seq<Byte>
    requires 0 <= InFlight(q)
  {
    q.accepted[|q.delivered|..|q.delivered| + Min(n, InFlight(q))]
  }

  // ---- the ring -------------------------------------------------------------------------

  class Pipe {
    const data: array<Byte>
    var nread: nat
    var nwrite: nat
    var readopen: bool
    var writeopen: bool
    ghost var accepted: seq<Byte>
    ghost var delivered: seq<Byte>

    ghost function Abs(): Queue
      reads this
    {
      Queue(accepted, delivered, readopen, writeopen)
    }

    ghost predicate Valid()
      reads this, data
    {
      && data.Length == PIPESIZE && Sound(Abs())
      && nread == |delivered| % UINT_LIMIT && nwrite == |accepted| % UINT_LIMIT
      && Holds(data[..], accepted, |delivered|)
    }

    /** pipealloc's initial state. */
    constructor ()
      ensures Valid() && Abs() == Queue([], [], true, true) && fresh(data)
    {
      data := new Byte[PIPESIZE](_ => 0);
      nread, nwrite, readopen, writeopen := 0, 0, true, true;
      accepted, delivered := [], [];
    }

    /** Puts one byte into a ring that is not full. */
    method Put(b: Byte)
      requires Valid() && InFlight(Abs()) < PIPESIZE
      modifies data, `nwrite, `accepted
      ensures Valid() && accepted == old(accepted) + [b]
    {
      SlotOf(|accepted|);
      HoldsPut(data[..], accepted, |delivered|, b);
      ghost var before := data[..];
      data[nwrite % PIPESIZE] := b;
      assert data[..] == before[|accepted| % PIPESIZE := b];
      WordStep(|accepted|);
      nwrite := (nwrite + 1) % UINT_LIMIT;
      accepted := accepted + [b];
    }

    /** Takes the oldest byte out of a ring that is not empty. */
    method TakeOut() returns (b: Byte)
      requires Valid() && InFlight(Abs()) > 0
      modifies `nread, `delivered
      ensures Valid() && delivered == old(delivered) + [b] && b == accepted[|old(delivered)|]
    {
      SlotOf(|delivered|);
      assert HoldsAt(data[..], accepted, |delivered|);
      b := data[nread % PIPESIZE];
      WordStep(|delivered|);
      nread := (nread + 1) % UINT_LIMIT;
      delivered := delivered + [b];
    }

    /** One critical section of pipewrite, with bytes start.. still to put. */
    method WriteSection(addr: seq<Byte>, start: nat, killed: bool) returns (i: nat, end: SectionEnd, woke: bool)
      requires Valid() && start <= |addr|
      modifies data, `nwrite, `accepted
      ensures Valid() && i == start + Fitting(old(Abs()), addr[start..])
      ensures Abs() == Written(old(Abs()), addr[start..])
      ensures end == WriteEnd(old(Abs()), addr[start..], killed) && woke == !end.Failed?
      ensures start <= i <= |addr| && accepted == old(accepted) + addr[start..i]
      ensures i == |addr| || |accepted| - |delivered| == PIPESIZE
      ensures end.Done? <==> i == |addr|
      ensures end.Failed? <==> i < |addr| && (!readopen || killed)
    {
      ghost var q := Abs();
      i := start;
      while i < |addr|
        invariant Valid() && start <= i <= |addr| && i - start <= PIPESIZE - InFlight(q)
        invariant Abs() == q.(accepted := q.accepted + addr[start..i])
      {
        FullTest(|accepted|, |delivered|);
        if nwrite == (nread + PIPESIZE) % UINT_LIMIT {
          assert addr[start..][..i - start] == addr[start..i];
          if !readopen || killed {
            return i, Failed, false;
          }
          return i, Asleep, true;
        }
        Put(addr[i]);
        assert addr[start..i + 1] == addr[start..i] + [addr[i]];
        i := i + 1;
      }
      assert addr[start..][..i - start] == addr[start..i];
      end, woke := Done, true;
    }

    /** One critical section of piperead for at most n bytes. */
    method ReadSection(n: nat, killed: bool) returns (got: seq<Byte>, end: SectionEnd, woke: bool)
      requires Valid()
      modifies `nread, `delivered
      ensures Valid() && end == ReadEnd(old(Abs()), killed) && woke == end.Done?
      ensures got == if end.Done? then Got(old(Abs()), n) else []
      ensures Abs() == old(Abs()).(delivered := old(delivered) + got)
      ensures end.Done? <==> |accepted| > |old(delivered)| || !writeopen
      ensures end.Failed? <==> !end.Done? && killed
      ensures end.Done? ==> |got| <= n && (|got| == n || delivered == accepted)
    {
      got := [];
      SameWord(|delivered|, |accepted|);
      if nread == nwrite && writeopen {
        return [], if killed then Failed else Asleep, false;
      }
      ghost var from := delivered;
      var i := 0;
      while i < n
        invariant Valid() && 0 <= i <= n && |from| + i <= |accepted|
        invariant got == accepted[|from|..|from| + i] && delivered == from + got
      {
        SameWord(|delivered|, |accepted|);
        if nread == nwrite {
          break;
        }
        var b := TakeOut();
        got := got + [b];
        i := i + 1;
      }
      end, woke := Done, true;
    }

    /** pipeclose on one end. */
    method Close(writable: bool)
      requires Valid()
      modifies `readopen, `writeopen
      ensures Valid()
      ensures Abs() == if writable then old(Abs()).(writeopen := false) else old(Abs()).(readopen := false)
    {
      if writable {
        writeopen := false;
      } else {
        readopen := false;
      }
    }
  }

  // ---- ring arithmetic ------------------------------------------------------------------

  ghost predicate HoldsAt(data: seq<Byte>, accepted: seq<Byte>, k: int)
    requires |data| == PIPESIZE && 0 <= k < |accepted|
  {
    data[k % PIPESIZE] == accepted[k]
  }

  /** Every byte in flight stands in its slot. */
  ghost predicate Holds(data: seq<Byte>, accepted: seq<Byte>, from: int)
    requires |data| == PIPESIZE && 0 <= from <= |accepted|
  {
    forall k {:trigger HoldsAt(data, accepted, k)} :: from <= k < |accepted| ==> HoldsAt(data, accepted, k)
  }

  lemma {:induction false} HoldsPut(data: seq<Byte>, accepted: seq<Byte>, from: int, b: Byte)
    requires |data| == PIPESIZE && 0 <= from <= |accepted| < from + PIPESIZE && Holds(data, accepted, from)
    ensures Holds(data[|accepted| % PIPESIZE := b], accepted + [b], from)
  {
    var data', accepted' := data[|accepted| % PIPESIZE := b], accepted + [b];
    forall k | from <= k < |accepted'| ensures HoldsAt(data', accepted', k) {
      if k < |accepted| {
        assert HoldsAt(data, accepted, k);
        SlotsDiffer(k, |accepted|);
      }
    }
  }

  lemma {:induction false} SlotsDiffer(a: nat, b: nat)
    requires a < b < a + PIPESIZE
    ensures a % PIPESIZE != b % PIPESIZE
  {
  }

  /** The counters wrap at a multiple of the ring's length, so slots are not disturbed. */
  lemma {:induction false} SlotOf(n: nat)
    ensures n % UINT_LIMIT % PIPESIZE == n % PIPESIZE
  {
    assert n == n / UINT_LIMIT * 8388608 * PIPESIZE + n % UINT_LIMIT;
  }

  lemma {:induction false} WordStep(n: nat)
    ensures (n % UINT_LIMIT + 1) % UINT_LIMIT == (n + 1) % UINT_LIMIT
  {
  }

  lemma {:induction false} SameWord(a: nat, b: nat)
    requires a <= b < a + UINT_LIMIT
    ensures a % UINT_LIMIT == b % UINT_LIMIT <==> a == b
  {
  }

  /** The wrapped counters tell full and empty apart from every state in between. */
  lemma {:induction false} FullTest(a: nat, d: nat)
    requires d <= a <= d + PIPESIZE
    ensures a % UINT_LIMIT == (d % UINT_LIMIT + PIPESIZE) % UINT_LIMIT <==> a - d == PIPESIZE
  {
    assert (d % UINT_LIMIT + PIPESIZE) % UINT_LIMIT == (d + PIPESIZE) % UINT_LIMIT;
    SameWord(a, d + PIPESIZE);
  }

  // ---- interleavings --------------------------------------------------------------------

  /** The pipe between critical sections.  `readers` and `writers` are asleep on its two channels;
      `rest` holds what is left to put for each write call in progress; `from` names the writer of
      each accepted byte; `asked` holds all a process has asked to write, less what failed calls gave up. */
  datatype State = State(q: Queue, readers: set<int>, writers: set<int>,
                         rest: map<int, seq<Byte>>, from: seq<int>, asked: map<int, seq<Byte>>)

  const INIT := State(Queue([], [], true, true), {}, {}, map[], [], map[])

  /** A new write call, the next section of one in progress, a section of a read call, a close,
      or a kill that makes a sleeping process runnable. */
  datatype Step =
    | Write(pid: int, bytes: seq<Byte>, killed: bool)
    | Resume(pid: int, killed: bool)
    | Read(pid: int, n: nat, killed: bool)
    | Close(writable: bool)
    | Kill(pid: int)

  /** Once both ends are closed the pipe is freed. */
  predicate Enabled(s: State, step: Step) {
    && (s.q.readopen || s.q.writeopen)
    && match step
       case Write(pid, _, _) => pid !in s.readers + s.writers && pid !in s.rest
       case Resume(pid, _) => pid !in s.readers + s.writers && pid in s.rest
       case Read(pid, _, _) => pid !in s.readers + s.writers && pid !in s.rest
       case _ => true
  }

  function Lookup(m: map<int, seq<Byte>>, pid: int): seq<Byte> { if pid in m then m[pid] else [] }

  /** A write section wakes the readers unless it fails, and sleeps if bytes are left. */
  function AfterSection(s: State, pid: int, bytes: seq<Byte>, killed: bool): State
    requires InFlight(s.q) <= PIPESIZE
  {
    var end, k := WriteEnd(s.q, bytes, killed), Fitting(s.q, bytes);
    State(Written(s.q, bytes),
          if end.Failed? then s.readers else {},
          if end.Asleep? then s.writers + {pid} else s.writers,
          if end.Asleep? then s.rest[pid := bytes[k..]] else s.rest - {pid},
          s.from + seq(k, _ => pid),
          if end.Failed? then s.asked[pid := Without(Lookup(s.asked, pid), |bytes| - k)] else s.asked)
  }

  function Without(s: seq<Byte>, n: int): seq<Byte> { if 0 <= n <= |s| then s[..|s| - n] else s }

  function Next(s: State, step: Step): State
    requires 0 <= InFlight(s.q) <= PIPESIZE
  {
    match step
    case Write(pid, bytes, killed) =>
      AfterSection(s.(asked := s.asked[pid := Lookup(s.asked, pid) + bytes]), pid, bytes, killed)
    case Resume(pid, killed) => AfterSection(s, pid, Lookup(s.rest, pid), killed)
    case Read(pid, n, killed) =>
      var end := ReadEnd(s.q, killed);
      if end.Done? then s.(q := s.q.(delivered := s.q.delivered + Got(s.q, n)), writers := {})
      else if end.Asleep? then s.(readers := s.readers + {pid})
      else s
    case Close(writable) =>
      if writable then s.(q := s.q.(writeopen := false), readers := {})
      else s.(q := s.q.(readopen := false), writers := {})
    case Kill(pid) => s.(readers := s.readers - {pid}, writers := s.writers - {pid})
  }

  /** The bytes process pid put into the pipe, in order. */
  function By(from: seq<int>, bytes: seq<Byte>, pid: int): seq<Byte>
    requires |from| == |bytes|
  {
    if from == [] then []
    else
      var n := |from| - 1;
      By(from[..n], bytes[..n], pid) + if from[n] == pid then [bytes[n]] else []
  }

  lemma {:induction false} ByAppend(from: seq<int>, bytes: seq<Byte>, p: int, more: seq<Byte>, pid: int)
    requires |from| == |bytes|
    ensures By(from + seq(|more|, _ => p), bytes + more, pid) == By(from, bytes, pid) + if p == pid then more else []
  {
    if more == [] {
      assert from + seq(|more|, _ => p) == from && bytes + more == bytes;
    } else {
      var n := |more| - 1;
      var from', bytes' := from + seq(|more|, _ => p), bytes + more;
      ByAppend(from, bytes, p, more[..n], pid);
      assert from'[..|from'| - 1] == from + seq(n, _ => p) && bytes'[..|bytes'| - 1] == bytes + more[..n];
      assert more[..n] + [more[n]] == more;
    }
  }

  /** A writer sleeps only in the middle of a call, on a full pipe whose read end is open. */
  ghost predicate WritersWaitRightly(s: State) {
    && s.writers <= s.rest.Keys
    && (s.writers != {} ==> InFlight(s.q) == PIPESIZE && s.q.readopen)
  }

  /** A reader sleeps only on an empty pipe whose write end is open. */
  ghost predicate ReadersWaitRightly(s: State) {
    s.readers != {} ==> InFlight(s.q) == 0 && s.q.writeopen
  }

  /** A process's bytes are in the pipe in order, each once, up to those it has yet to put. */
  ghost predicate Accounted(s: State, pid: int)
    requires |s.from| == |s.q.accepted|
  {
    By(s.from, s.q.accepted, pid) + Lookup(s.rest, pid) == Lookup(s.asked, pid)
  }

  ghost predicate Inv(s: State) {
    && Sound(s.q) && WritersWaitRightly(s) && |s.from| == |s.q.accepted|
    && forall pid {:trigger Accounted(s, pid)} :: Accounted(s, pid)
  }

  lemma {:induction false} SectionAccounts(s: State, pid: int, bytes: seq<Byte>, killed: bool, other: int)
    requires Sound(s.q) && |s.from| == |s.q.accepted|
    requires By(s.from, s.q.accepted, other) + (if other == pid then bytes else Lookup(s.rest, other)) == Lookup(s.asked, other)
    ensures Accounted(AfterSection(s, pid, bytes, killed), other)
  {
    var k, s' := Fitting(s.q, bytes), AfterSection(s, pid, bytes, killed);
    ByAppend(s.from, s.q.accepted, pid, bytes[..k], other);
    assert s'.from == s.from + seq(|bytes[..k]|, _ => pid);
    if other == pid {
      SplitPut(By(s.from, s.q.accepted, pid), bytes, k);
    }
  }

  lemma {:induction false} SplitPut(put: seq<Byte>, bytes: seq<Byte>, k: nat)
    requires k <= |bytes|
    ensures Without(put + bytes, |bytes| - k) == put + bytes[..k]
    ensures put + bytes[..k] + bytes[k..] == put + bytes
    ensures k == |bytes| ==> put + bytes[..k] == put + bytes
  {
  }

  lemma {:induction false} StepAccounts(s: State, step: Step, other: int)
    requires Inv(s) && Enabled(s, step)
    ensures |Next(s, step).from| == |Next(s, step).q.accepted| && Accounted(Next(s, step), other)
  {
    assert Accounted(s, other);
    match step
    case Write(pid, bytes, killed) =>
      var s1 := s.(asked := s.asked[pid := Lookup(s.asked, pid) + bytes]);
      assert Accounted(s, pid);
      SectionAccounts(s1, pid, bytes, killed, other);
    case Resume(pid, killed) =>
      SectionAccounts(s, pid, Lookup(s.rest, pid), killed, other);
    case _ =>
  }

  lemma {:induction false} StepKeeps(s: State, step: Step)
    requires Inv(s) && Enabled(s, step)
    ensures Inv(Next(s, step))
    ensures s.q.accepted <= Next(s, step).q.accepted && s.q.delivered <= Next(s, step).q.delivered
  {
    forall pid ensures |Next(s, step).from| == |Next(s, step).q.accepted| && Accounted(Next(s, step), pid) {
      StepAccounts(s, step, pid);
    }
  }

  /** The write section that leaves a reader asleep beside a full pipe: it fills the pipe and then fails. */
  ghost predicate LosesWakeup(s: State, step: Step) {
    && s.readers != {}
    && match step
       case Write(_, bytes, killed) => (killed || !s.q.readopen) && |bytes| > PIPESIZE
       case Resume(pid, killed) => (killed || !s.q.readopen) && |Lookup(s.rest, pid)| > PIPESIZE
       case _ => false
  }

  lemma {:induction false} StepWakesReaders(s: State, step: Step)
    requires Inv(s) && Enabled(s, step) && ReadersWaitRightly(s)
    ensures ReadersWaitRightly(Next(s, step)) <==> !LosesWakeup(s, step)
  {
  }

  /** The state after a series of steps. */
  ghost function After(steps: seq<Step>): State {
    if steps == [] then INIT
    else
      var s := After(steps[..|steps| - 1]);
      if 0 <= InFlight(s.q) <= PIPESIZE then Next(s, steps[|steps| - 1]) else s
  }

  ghost predicate CanRun(steps: seq<Step>) {
    steps != [] ==> CanRun(steps[..|steps| - 1]) && Enabled(After(steps[..|steps| - 1]), steps[|steps| - 1])
  }

  /** Over every interleaving delivered bytes are a prefix of accepted bytes, at most PIPESIZE are in
      flight, every writer's bytes went in in order, and a sleeping writer faces a full pipe. */
  lemma {:induction false} RunsKeepInv(steps: seq<Step>)
    requires CanRun(steps)
    ensures Inv(After(steps))
  {
    if steps != [] {
      var most := steps[..|steps| - 1];
      RunsKeepInv(most);
      StepKeeps(After(most), steps[|steps| - 1]);
    } else {
      forall pid ensures Accounted(INIT, pid) {
      }
    }
  }

  /** No step of the run loses a wakeup. */
  ghost predicate KeepsWakeups(steps: seq<Step>) {
    steps != [] ==>
      KeepsWakeups(steps[..|steps| - 1]) && !LosesWakeup(After(steps[..|steps| - 1]), steps[|steps| - 1])
  }

  /** Throughout the run, sleeping readers face an empty pipe whose write end is open. */
  ghost predicate ReadersAlwaysWaitRightly(steps: seq<Step>) {
    && ReadersWaitRightly(After(steps))
    && (steps != [] ==> ReadersAlwaysWaitRightly(steps[..|steps| - 1]))
  }

  /** Readers sleep only where they should, in every state of a run, exactly when no write
      section fills the pipe and then fails beside a sleeping reader. */
  lemma {:induction false} ReadersWokenIff(steps: seq<Step>)
    requires CanRun(steps)
    ensures ReadersAlwaysWaitRightly(steps) <==> KeepsWakeups(steps)
  {
    if steps != [] {
      var most := steps[..|steps| - 1];
      ReadersWokenIff(most);
      RunsKeepInv(most);
      if ReadersAlwaysWaitRightly(most) {
        StepWakesReaders(After(most), steps[|steps| - 1]);
      }
    }
  }

  /** In such runs a reader and a writer are never asleep at the same time. */
  lemma {:induction false} NeverBothAsleep(steps: seq<Step>)
    requires CanRun(steps) && KeepsWakeups(steps)
    ensures After(steps).readers == {} || After(steps).writers == {}
  {
    RunsKeepInv(steps);
    ReadersWokenIff(steps);
  }

  /** A killed writer of more than PIPESIZE bytes leaves a reader asleep beside a full pipe. */
  lemma {:induction false} LostWakeup(bytes: seq<Byte>)
    requires |bytes| > PIPESIZE
    ensures var steps := [Read(1, 1, false), Write(2, bytes, true)];
            CanRun(steps) && 1 in After(steps).readers && InFlight(After(steps).q) == PIPESIZE
  {
    var steps := [Read(1, 1, false), Write(2, bytes, true)];
    assert steps[..1] == [Read(1, 1, false)];
    assert After([]) == INIT;
    assert After(steps[..1]) == INIT.(readers := {1});
    assert CanRun(steps[..1]);
  }
}
