/** The submission walk of MR_Run (mapreduce.c) while reducers already take values. */
module Submission {
  // The walk submits the key of its node, then follows the node's link.  Meanwhile reducers run for
  // submitted keys and unlink their nodes, possibly the very node the walk stands on.

  import opened Options
  import opened KeyLists
  import opened Grouping
  import opened MapReduce
  import opened SequentialMapReduce

  /** The list, the walk's node, whether its key has been submitted, the keys submitted so far, and
      the values reducers have taken, with their keys. */
  datatype Walk = Walk(nodes: seq<Node>, ids: seq<int>, curr: Option<int>, sent: bool, submitted: seq<string>,
                       taken: seq<Emit>)

  function Start(nodes: seq<Node>, ids: seq<int>): Walk { Walk(nodes, ids, First(ids), false, [], []) }

  datatype Step =
    | Submit
    | Advance
    | Take(i: int)    // a reducer's Get on the key at position i of the list

  ghost predicate Enabled(w: Walk, s: Step) {
    match s
    case Submit => w.curr.Some? && !w.sent && 0 <= w.curr.value < |w.nodes|
    case Advance => w.curr.Some? && w.sent && 0 <= w.curr.value < |w.nodes|
    case Take(i) =>
      && 0 <= i < |w.ids| && 0 <= w.ids[i] < |w.nodes| && (i > 0 ==> 0 <= w.ids[i - 1] < |w.nodes|)
      && w.nodes[w.ids[i]].key in w.submitted && w.nodes[w.ids[i]].vals != []
  }

  ghost function Next(w: Walk, s: Step): Walk
    requires Enabled(w, s)
  {
    match s
    case Submit => w.(sent := true, submitted := w.submitted + [w.nodes[w.curr.value].key])
    case Advance => w.(sent := false, curr := w.nodes[w.curr.value].next)
    case Take(i) =>
      w.(nodes := GotNodes(w.nodes, w.ids, i), ids := GotIds(w.nodes, w.ids, i),
         taken := w.taken + [Emit(w.nodes[w.ids[i]].key, GotValue(w.nodes, w.ids, i))])
  }

  /** The keys of the first n nodes of a list. */
  function Keys(nodes: seq<Node>, ids: seq<int>, n: nat): seq<string>
    requires n <= |ids|
  {
    if n == 0 then [] else Keys(nodes, ids, n - 1) + [KeyAt(nodes, ids, n - 1)]
  }

  lemma {:induction false} KeysAt(nodes: seq<Node>, ids: seq<int>, n: nat)
    requires n <= |ids|
    ensures |Keys(nodes, ids, n)| == n
    ensures forall j :: 0 <= j < n ==> Keys(nodes, ids, n)[j] == KeyAt(nodes, ids, j)
  {
    if n > 0 {
      KeysAt(nodes, ids, n - 1);
    }
  }

  // ---- what holds throughout ------------------------------------------------------------

  ghost predicate SameKeys(a: seq<Node>, b: seq<Node>) {
    |a| == |b| && forall i {:trigger b[i]} :: 0 <= i < |a| ==> b[i].key == a[i].key
  }

  /** The list now: some nodes among the first q of the original, then all the others. */
  ghost predicate Suffix(ids0: seq<int>, ids: seq<int>, q: nat) {
    && q <= |ids0| && |ids| >= |ids0| - q
    && (forall j {:trigger ids[j]} :: |ids| - (|ids0| - q) <= j < |ids| ==> ids[j] == ids0[j - |ids| + |ids0|])
    && (forall j {:trigger ids[j]} :: 0 <= j < |ids| - (|ids0| - q) ==> Among(ids0, q, ids[j]))
  }

  ghost predicate Among(ids0: seq<int>, q: nat, id: int) {
    exists k :: 0 <= k < q && k < |ids0| && ids0[k] == id
  }

  /** The walk stands at position p of the original list nodes0, ids0. */
  ghost predicate At(w: Walk, nodes0: seq<Node>, ids0: seq<int>, p: nat) {
    && p <= |ids0| && SameKeys(nodes0, w.nodes) && Chain(w.nodes, w.ids) && Sorted(w.nodes, w.ids)
    && var q := if w.sent then p + 1 else p;
    && Suffix(ids0, w.ids, q) && w.submitted == Keys(nodes0, ids0, q)
    && w.curr == (if p < |ids0| then Some(ids0[p]) else None)
    && (w.sent ==> 0 <= ids0[p] < |w.nodes| && w.nodes[ids0[p]].next == After(ids0, p))
  }

  lemma {:induction false} SubmitStep(w: Walk, nodes0: seq<Node>, ids0: seq<int>, p: nat)
    requires At(w, nodes0, ids0, p) && Enabled(w, Submit)
    ensures At(Next(w, Submit), nodes0, ids0, p)
  {
    var j := |w.ids| - (|ids0| - p);
    assert w.ids[j] == ids0[p];
    assert Link(w.nodes, w.ids, j);
    assert j + 1 < |w.ids| ==> w.ids[j + 1] == ids0[p + 1];
    var w' := Next(w, Submit);
    forall k | 0 <= k <= j ensures Among(ids0, p + 1, w'.ids[k]) {
      if k < j {
        assert Among(ids0, p, w.ids[k]);
      } else {
        assert ids0[p] == w'.ids[k];
      }
    }
  }

  lemma {:induction false} AdvanceStep(w: Walk, nodes0: seq<Node>, ids0: seq<int>, p: nat)
    requires At(w, nodes0, ids0, p) && Enabled(w, Advance)
    ensures p + 1 <= |ids0| && At(Next(w, Advance), nodes0, ids0, p + 1)
  {
  }

  /** A submitted key's node is among those the walk has passed. */
  lemma {:induction false} TakenBefore(w: Walk, nodes0: seq<Node>, ids0: seq<int>, q: nat, i: int)
    requires SameKeys(nodes0, w.nodes) && Sorted(nodes0, ids0) && Chain(nodes0, ids0) && Suffix(ids0, w.ids, q)
    requires w.submitted == Keys(nodes0, ids0, q) && Enabled(w, Take(i))
    ensures i < |w.ids| - (|ids0| - q)
  {
    KeysAt(nodes0, ids0, q);
    var key := w.nodes[w.ids[i]].key;
    var k :| 0 <= k < q && w.submitted[k] == key;
    if i >= |w.ids| - (|ids0| - q) {
      var j := i - |w.ids| + |ids0|;
      assert w.ids[i] == ids0[j];
      LessTotal(KeyAt(nodes0, ids0, k), KeyAt(nodes0, ids0, j));
    }
  }

  /** Unlinking a node the walk has passed leaves the walk's own link alone. */
  lemma {:induction false} LinkKept(w: Walk, nodes0: seq<Node>, ids0: seq<int>, p: nat, i: int)
    requires At(w, nodes0, ids0, p) && w.sent && Chain(nodes0, ids0) && Sorted(nodes0, ids0)
    requires 0 < i < |w.ids| - (|ids0| - p - 1)
    ensures w.ids[i - 1] != ids0[p]
  {
    assert Among(ids0, p + 1, w.ids[i]);
    var k :| 0 <= k < p + 1 && k < |ids0| && ids0[k] == w.ids[i];
    assert Link(w.nodes, w.ids, i) && Link(w.nodes, w.ids, i - 1);
    var before, mine := KeyAt(w.nodes, w.ids, i - 1), KeyAt(w.nodes, w.ids, i);
    assert Less(before, mine);
    assert mine == KeyAt(nodes0, ids0, k);
    var here := KeyAt(nodes0, ids0, p);
    if k < p { LessTrans(before, mine, here); }
    LessTotal(before, here);
  }

  lemma {:induction false} DropStep(w: Walk, nodes0: seq<Node>, ids0: seq<int>, p: nat, i: int)
    requires At(w, nodes0, ids0, p) && Enabled(w, Take(i)) && |w.nodes[w.ids[i]].vals| > 1
    ensures At(Next(w, Take(i)), nodes0, ids0, p)
  {
    var w' := Next(w, Take(i));
    forall j | 0 <= j < |w.ids| ensures Link(w'.nodes, w.ids, j) && KeyAt(w'.nodes, w.ids, j) == KeyAt(w.nodes, w.ids, j) {
      assert Link(w.nodes, w.ids, j);
    }
  }

  lemma {:induction false} UnlinkSuffix(ids0: seq<int>, ids: seq<int>, q: nat, i: int)
    requires Suffix(ids0, ids, q) && 0 <= i < |ids| - (|ids0| - q)
    ensures Suffix(ids0, Removed(ids, i), q)
  {
    var ids' := Removed(ids, i);
    forall j | 0 <= j < |ids'| ensures ids'[j] == ids[if j < i then j else j + 1] {
    }
  }

  lemma {:induction false} UnlinkStep(w: Walk, nodes0: seq<Node>, ids0: seq<int>, p: nat, i: int)
    requires At(w, nodes0, ids0, p) && Chain(nodes0, ids0) && Sorted(nodes0, ids0)
    requires Enabled(w, Take(i)) && |w.nodes[w.ids[i]].vals| == 1
    ensures At(Next(w, Take(i)), nodes0, ids0, p)
  {
    var q := if w.sent then p + 1 else p;
    TakenBefore(w, nodes0, ids0, q, i);
    UnlinkChain(w.nodes, w.ids, i);
    UnlinkSorted(w.nodes, w.ids, i);
    UnlinkSuffix(ids0, w.ids, q, i);
    if w.sent && i > 0 { LinkKept(w, nodes0, ids0, p, i); }
  }

  lemma {:induction false} StepKeeps(w: Walk, s: Step, nodes0: seq<Node>, ids0: seq<int>, p: nat) returns (p': nat)
    requires At(w, nodes0, ids0, p) && Enabled(w, s) && Chain(nodes0, ids0) && Sorted(nodes0, ids0)
    ensures At(Next(w, s), nodes0, ids0, p')
  {
    p' := p;
    match s
    case Submit => SubmitStep(w, nodes0, ids0, p);
    case Advance =>
      AdvanceStep(w, nodes0, ids0, p);
      p' := p + 1;
    case Take(i) =>
      if |w.nodes[w.ids[i]].vals| > 1 {
        DropStep(w, nodes0, ids0, p, i);
      } else {
        UnlinkStep(w, nodes0, ids0, p, i);
      }
  }

  ghost predicate CanRun(w: Walk, steps: seq<Step>) {
    steps != [] ==> CanRun(w, steps[..|steps| - 1]) && Enabled(Run(w, steps[..|steps| - 1]), steps[|steps| - 1])
  }

  ghost function Run(w: Walk, steps: seq<Step>): Walk {
    if steps == [] then w
    else
      var u := Run(w, steps[..|steps| - 1]);
      if Enabled(u, steps[|steps| - 1]) then Next(u, steps[|steps| - 1]) else u
  }

  lemma {:induction false} RunsStay(nodes0: seq<Node>, ids0: seq<int>, steps: seq<Step>) returns (p: nat)
    requires Chain(nodes0, ids0) && Sorted(nodes0, ids0) && CanRun(Start(nodes0, ids0), steps)
    ensures At(Run(Start(nodes0, ids0), steps), nodes0, ids0, p)
  {
    var w := Start(nodes0, ids0);
    if steps == [] {
      p := 0;
    } else {
      p := RunsStay(nodes0, ids0, steps[..|steps| - 1]);
      p := StepKeeps(Run(w, steps[..|steps| - 1]), steps[|steps| - 1], nodes0, ids0, p);
    }
  }

  /** However reducers and the walk interleave, a walk that has ended has submitted every key of the
      list, each once, in increasing order. */
  lemma {:induction false} EachKeyOnce(nodes0: seq<Node>, ids0: seq<int>, steps: seq<Step>)
    requires Chain(nodes0, ids0) && Sorted(nodes0, ids0) && CanRun(Start(nodes0, ids0), steps)
    requires Run(Start(nodes0, ids0), steps).curr.None?
    ensures var done := Run(Start(nodes0, ids0), steps).submitted;
            && |done| == |ids0| && (forall j :: 0 <= j < |ids0| ==> done[j] == KeyAt(nodes0, ids0, j))
            && (forall j, k :: 0 <= j < k < |done| ==> done[j] != done[k])
  {
    var p := RunsStay(nodes0, ids0, steps);
    KeysAt(nodes0, ids0, |ids0|);
    var done := Run(Start(nodes0, ids0), steps).submitted;
    forall j, k | 0 <= j < k < |done| ensures done[j] != done[k] {
      LessTotal(KeyAt(nodes0, ids0, j), KeyAt(nodes0, ids0, k));
    }
  }

  // ---- what reducers take ---------------------------------------------------------------

  /** For every key and value, what is still in the list and what was taken make up g0. */
  ghost predicate Balanced(g0: map<string, multiset<string>>, g: map<string, multiset<string>>, taken: seq<Emit>) {
    forall k, v {:trigger Occurs(g0, k, v)} :: Occurs(g, k, v) + multiset(taken)[Emit(k, v)] == Occurs(g0, k, v)
  }

  lemma {:induction false} TakenOccurs(g: map<string, multiset<string>>, key: string, val: string, k: string, v: string)
    requires key in g && val in g[key]
    ensures Occurs(Taken(g, key, val), k, v) == Occurs(g, k, v) - if k == key && v == val then 1 else 0
  {
  }

  lemma {:induction false} BalancedStep(g0: map<string, multiset<string>>, g: map<string, multiset<string>>,
                                        taken: seq<Emit>, key: string, val: string)
    requires Balanced(g0, g, taken) && key in g && val in g[key]
    ensures Balanced(g0, Taken(g, key, val), taken + [Emit(key, val)])
  {
    var g' := Taken(g, key, val);
    forall k, v ensures Occurs(g', k, v) + multiset(taken + [Emit(key, val)])[Emit(k, v)] == Occurs(g0, k, v) {
      TakenOccurs(g, key, val, k, v);
      assert Occurs(g, k, v) + multiset(taken)[Emit(k, v)] == Occurs(g0, k, v);
    }
  }

  /** Throughout a run, nothing is lost and nothing is taken twice. */
  lemma {:induction false} RunsConserve(nodes0: seq<Node>, ids0: seq<int>, g0: map<string, multiset<string>>, steps: seq<Step>)
    returns (g: map<string, multiset<string>>)
    requires Holds(nodes0, ids0, g0) && Sorted(nodes0, ids0) && CanRun(Start(nodes0, ids0), steps)
    ensures var w := Run(Start(nodes0, ids0), steps);
            Holds(w.nodes, w.ids, g) && Sorted(w.nodes, w.ids) && Balanced(g0, g, w.taken)
  {
    if steps == [] {
      g := g0;
    } else {
      g := RunsConserve(nodes0, ids0, g0, steps[..|steps| - 1]);
      var w, s := Run(Start(nodes0, ids0), steps[..|steps| - 1]), steps[|steps| - 1];
      if s.Take? {
        var w' := Next(w, s);
        assert Grouped(w.nodes, w.ids, g, s.i);
        GotHolds(w.nodes, w.ids, g, s.i, w'.nodes, w'.ids);
        BalancedStep(g0, g, w.taken, w.nodes[w.ids[s.i]].key, GotValue(w.nodes, w.ids, s.i));
        g := Taken(g, w.nodes[w.ids[s.i]].key, GotValue(w.nodes, w.ids, s.i));
      }
    }
  }

  /** The walk has ended and no reducer finds another value of its key. */
  ghost predicate Finished(w: Walk) {
    w.curr.None? && forall i {:trigger Take(i)} :: !Enabled(w, Take(i))
  }

  lemma {:induction false} FinishedEmpty(w: Walk, nodes0: seq<Node>, ids0: seq<int>, p: nat, g: map<string, multiset<string>>)
    requires At(w, nodes0, ids0, p) && Chain(nodes0, ids0) && Holds(w.nodes, w.ids, g) && Finished(w)
    ensures w.ids == [] && g == map[]
  {
    if w.ids != [] {
      assert Link(w.nodes, w.ids, 0) && Grouped(w.nodes, w.ids, g, 0);
      assert Among(ids0, |ids0|, w.ids[0]);
      var k :| 0 <= k < |ids0| && ids0[k] == w.ids[0];
      KeysAt(nodes0, ids0, |ids0|);
      assert w.submitted[k] == KeyAt(nodes0, ids0, k) == w.nodes[w.ids[0]].key;
      assert Enabled(w, Take(0));
    }
    assert forall key :: key in g ==> HasKey(w.nodes, w.ids, key);
    assert g.Keys == {};
  }

  /** The values taken for a key, in order. */
  function ValuesTaken(taken: seq<Emit>, key: string): seq<string> {
    if taken == [] then []
    else
      var n := |taken| - 1;
      ValuesTaken(taken[..n], key) + if taken[n].key == key then [taken[n].val] else []
  }

  lemma {:induction false} ValuesTakenCount(taken: seq<Emit>, key: string, v: string)
    ensures multiset(ValuesTaken(taken, key))[v] == multiset(taken)[Emit(key, v)]
  {
    if taken != [] {
      var n := |taken| - 1;
      ValuesTakenCount(taken[..n], key, v);
      assert taken == taken[..n] + [taken[n]];
    }
  }

  /** In a finished run the reducer of each key has taken exactly the values of that key. */
  lemma {:induction false} ReducersTakeGroups(nodes0: seq<Node>, ids0: seq<int>, g0: map<string, multiset<string>>,
                                              steps: seq<Step>, key: string)
    requires Holds(nodes0, ids0, g0) && Sorted(nodes0, ids0) && CanRun(Start(nodes0, ids0), steps)
    requires Finished(Run(Start(nodes0, ids0), steps))
    ensures multiset(ValuesTaken(Run(Start(nodes0, ids0), steps).taken, key)) == if key in g0 then g0[key] else multiset{}
  {
    var w := Run(Start(nodes0, ids0), steps);
    var p := RunsStay(nodes0, ids0, steps);
    var g := RunsConserve(nodes0, ids0, g0, steps);
    FinishedEmpty(w, nodes0, ids0, p, g);
    var got, all := multiset(ValuesTaken(w.taken, key)), if key in g0 then g0[key] else multiset{};
    forall v ensures got[v] == all[v] {
      ValuesTakenCount(w.taken, key, v);
      assert Occurs(g, key, v) + multiset(w.taken)[Emit(key, v)] == Occurs(g0, key, v);
    }
  }

  // ---- against the sequential library ---------------------------------------------------

  /** Emitted in any order and into any partitions, the pairs give each key the values the sequential
      library's reducer draws for it, in the key's own partition. */
  lemma {:induction false} SameValues(emits: seq<Emit>, reference: seq<Emit>, part: string -> int, calls: seq<Call>, j: int)
    requires multiset(emits) == multiset(reference) && Renders(calls, GroupOf(reference)) && 0 <= j < |calls|
    ensures var g := GroupOf(InPartition(emits, part, part(calls[j].key)));
            calls[j].key in g && g[calls[j].key] == multiset(calls[j].vals)
  {
    GroupAnyOrder(emits, reference);
    PartitionGroup(emits, part, part(calls[j].key), calls[j].key);
  }

  /** And no partition holds a key the sequential library does not reduce. */
  lemma {:induction false} SameKeysReduced(emits: seq<Emit>, reference: seq<Emit>, part: string -> int,
                                           calls: seq<Call>, i: int, key: string)
    requires multiset(emits) == multiset(reference) && Renders(calls, GroupOf(reference))
    requires key in GroupOf(InPartition(emits, part, i))
    ensures part(key) == i && Called(calls, key)
  {
    GroupAnyOrder(emits, reference);
    PartitionGroup(emits, part, i, key);
  }

  ghost predicate OwnCall(call: Call, part: string -> int, i: int, taken: seq<Emit>) {
    part(call.key) == i ==> multiset(ValuesTaken(taken, call.key)) == multiset(call.vals)
  }

  /** The concurrent library computes what the sequential one does.  In any finished interleaving over
      partition i, the keys submitted are those of the sequential library's calls that belong to the
      partition, each once, and the reducer of each has taken the values of that call. */
  lemma {:induction false} SameReductions(emits: seq<Emit>, reference: seq<Emit>, part: string -> int, calls: seq<Call>,
                                          i: int, nodes0: seq<Node>, ids0: seq<int>, steps: seq<Step>)
    requires multiset(emits) == multiset(reference) && Renders(calls, GroupOf(reference))
    requires Holds(nodes0, ids0, GroupOf(InPartition(emits, part, i))) && Sorted(nodes0, ids0)
    requires CanRun(Start(nodes0, ids0), steps) && Finished(Run(Start(nodes0, ids0), steps))
    ensures var w := Run(Start(nodes0, ids0), steps);
            && (forall key {:trigger Called(calls, key)} :: key in w.submitted <==> part(key) == i && Called(calls, key))
            && (forall j, k :: 0 <= j < k < |w.submitted| ==> w.submitted[j] != w.submitted[k])
            && (forall j {:trigger calls[j]} :: 0 <= j < |calls| ==> OwnCall(calls[j], part, i, w.taken))
  {
    var w, g0 := Run(Start(nodes0, ids0), steps), GroupOf(InPartition(emits, part, i));
    EachKeyOnce(nodes0, ids0, steps);
    forall j | 0 <= j < |calls| ensures OwnCall(calls[j], part, i, w.taken) {
      SameValues(emits, reference, part, calls, j);
      ReducersTakeGroups(nodes0, ids0, g0, steps, calls[j].key);
    }
    forall key ensures key in w.submitted <==> part(key) == i && Called(calls, key) {
      SubmittedKey(nodes0, ids0, g0, steps, key);
      if key in g0 { SameKeysReduced(emits, reference, part, calls, i, key); }
      if part(key) == i && Called(calls, key) {
        var j :| 0 <= j < |calls| && calls[j].key == key;
        SameValues(emits, reference, part, calls, j);
      }
    }
  }

  lemma {:induction false} SubmittedKey(nodes0: seq<Node>, ids0: seq<int>, g0: map<string, multiset<string>>, steps: seq<Step>,
                                        key: string)
    requires Holds(nodes0, ids0, g0) && Sorted(nodes0, ids0) && CanRun(Start(nodes0, ids0), steps)
    requires Run(Start(nodes0, ids0), steps).curr.None?
    ensures key in Run(Start(nodes0, ids0), steps).submitted <==> key in g0
  {
    EachKeyOnce(nodes0, ids0, steps);
    var done := Run(Start(nodes0, ids0), steps).submitted;
    if key in done {
      var j :| 0 <= j < |done| && done[j] == key;
      assert Grouped(nodes0, ids0, g0, j);
    }
    if key in g0 {
      assert HasKey(nodes0, ids0, key);
      var j :| 0 <= j < |ids0| && KeyAt(nodes0, ids0, j) == key;
      assert done[j] == key;
    }
  }
}
