/** One partition of the map-reduce store (mapreduce.c): emits, sorting and gets. */
module MapReduce {
  import opened Options
  import opened KeyLists
  import opened Grouping

  class Partition {
    var nodes: seq<Node>
    var head: Option<int>
    ghost var ids: seq<int>                            // the nodes on the list, in order
    ghost var groups: map<string, multiset<string>>    // the values of each key

    ghost predicate Valid()
      reads this
    {
      Holds(nodes, ids, groups) && head == First(ids)
    }

    constructor ()
      ensures Valid() && groups == map[]
    {
      nodes, head, ids, groups := [], None, [], map[];
    }

    /** The node of a key. */
    method Search(key: string) returns (r: Option<int>, ghost i: int)
      requires Valid()
      ensures r.None? <==> !HasKey(nodes, ids, key)
      ensures r.Some? ==> 0 <= i < |ids| && r == Some(ids[i]) && KeyAt(nodes, ids, i) == key && Link(nodes, ids, i)
    {
      i := 0;
      r := head;
      while r.Some?
        invariant 0 <= i <= |ids| && r == (if i < |ids| then Some(ids[i]) else None)
        invariant forall j :: 0 <= j < i ==> KeyAt(nodes, ids, j) != key
        decreases |ids| - i
      {
        assert Link(nodes, ids, i);
        if nodes[r.value].key == key {
          assert KeyAt(nodes, ids, i) == key;
          return;
        }
        r := nodes[r.value].next;
        i := i + 1;
      }
    }

    /** Adds one value for a key: MR_Emit's work under the partition's lock. */
    method Add(key: string, val: string)
      requires Valid()
      modifies this
      ensures Valid() && groups == Put(old(groups), key, val)
    {
      var r, i := Search(key);
      if r.Some? {
        assert Grouped(nodes, ids, groups, i);
        AddValueKeeps(nodes, ids, groups, i, val);
        nodes := AddValue(nodes, r.value, val);
      } else {
        AddNodeKeeps(nodes, ids, groups, key, val);
        ids := [|nodes|] + ids;
        nodes := nodes + [Node(key, [val], head)];
        head := Some(|nodes| - 1);
      }
      groups := Put(groups, key, val);
    }

    /** The node before the first whose key is not below the given one. */
    method FindPrev(key: string, ghost i: int) returns (prev: Option<int>)
      requires Valid() && Sorted(nodes, ids) && 0 <= i < |ids| && KeyAt(nodes, ids, i) == key
      ensures prev == if i == 0 then None else Some(ids[i - 1])
    {
      ghost var k := 0;
      prev := None;
      var curr := head;
      while curr.Some?
        invariant 0 <= k <= i && curr == Some(ids[k]) && prev == (if k == 0 then None else Some(ids[k - 1]))
        decreases |ids| - k
      {
        assert Link(nodes, ids, k);
        LessTotal(key, key);
        if k < i {
          LessTotal(KeyAt(nodes, ids, k), KeyAt(nodes, ids, i));
        }
        if !Less(nodes[curr.value].key, key) {
          return;
        }
        prev := curr;
        curr := nodes[curr.value].next;
        k := k + 1;
      }
    }

    /** Takes one value of a key; once the last is gone the key leaves the list. */
    method Get(key: string) returns (r: Option<string>, ghost i: int)
      requires Valid() && Sorted(nodes, ids)
      modifies this
      ensures Valid() && Sorted(nodes, ids)
      ensures r.None? <==> key !in old(groups)
      ensures r.None? ==> groups == old(groups) && nodes == old(nodes) && ids == old(ids)
      ensures r.Some? ==> r.value in old(groups)[key] && groups == Taken(old(groups), key, r.value)
      ensures r.Some? ==> Got(old(nodes), old(ids), i, nodes, ids) && KeyAt(old(nodes), old(ids), i) == key
      ensures r.Some? ==> old(nodes)[old(ids)[i]].vals != [] && r.value == GotValue(old(nodes), old(ids), i)
    {
      var n;
      n, i := Search(key);
      if n.None? {
        assert key in groups ==> HasKey(nodes, ids, key);
        return None, i;
      }
      r := TakeAt(key, n.value, i);
    }

    /** Get's work on node id at position i. */
    method TakeAt(key: string, id: int, ghost i: int) returns (r: Option<string>)
      requires Valid() && Sorted(nodes, ids) && 0 <= i < |ids| && id == ids[i] && KeyAt(nodes, ids, i) == key
      modifies this
      ensures Valid() && Sorted(nodes, ids) && r.Some? && key in old(groups)
      ensures r.value in old(groups)[key] && groups == Taken(old(groups), key, r.value)
      ensures Got(old(nodes), old(ids), i, nodes, ids)
      ensures old(nodes)[old(ids)[i]].vals != [] && r.value == GotValue(old(nodes), old(ids), i)
    {
      ghost var nodes0, ids0, g0 := nodes, ids, groups;
      assert Link(nodes, ids, i) && Grouped(nodes, ids, groups, i);
      if |nodes[id].vals| > 1 {
        r := Some(nodes[id].vals[1]);
        nodes := DropValue(nodes, id);
      } else {
        r := Some(nodes[id].vals[0]);
        var prev := FindPrev(key, i);
        assert i > 0 ==> Link(nodes, ids, i - 1);
        var next := nodes[id].next;
        if prev.None? {
          head := next;
        } else {
          nodes := nodes[prev.value := nodes[prev.value].(next := next)];
        }
        ids := Removed(ids, i);
      }
      assert i > 0 ==> Link(nodes0, ids0, i - 1);
      GotHolds(nodes0, ids0, g0, i, nodes, ids);
      groups := Taken(groups, key, r.value);
    }

    /** Everything the mappers emit into this partition, in some order. */
    method EmitAll(emits: seq<Emit>)
      requires Valid() && groups == map[]
      modifies this
      ensures Valid() && groups == GroupOf(emits)
    {
      var i := 0;
      while i < |emits|
        invariant 0 <= i <= |emits| && Valid() && groups == GroupOf(emits[..i])
      {
        Add(emits[i].key, emits[i].val);
        assert emits[..i + 1][..i] == emits[..i];
        i := i + 1;
      }
      assert emits[..i] == emits;
    }

    /** A reducer that takes values of its key until there are none: it gets all of them, and no
        other key is disturbed. */
    method Drain(key: string) returns (vals: seq<string>)
      requires Valid() && Sorted(nodes, ids)
      modifies this
      ensures Valid() && Sorted(nodes, ids) && groups == old(groups) - {key}
      ensures multiset(vals) == ValuesOf(old(groups), key)
    {
      ghost var g0 := groups;
      vals := [];
      while true
        invariant Valid() && Sorted(nodes, ids) && Draining(g0, groups, key, vals)
        decreases |ValuesOf(groups, key)|
      {
        ghost var g := groups;
        var r, i := Get(key);
        if r.None? {
          break;
        }
        DrainStep(g0, g, key, vals, r.value);
        vals := vals + [r.value];
      }
    }

    /** Links curr into the sorted list s, before the first key above its own. */
    method InsertHelper(sortedHead: Option<int>, curr: int, ghost s: seq<int>) returns (newHead: Option<int>, ghost p: int)
      requires Chain(nodes, s) && Sorted(nodes, s) && sortedHead == First(s) && 0 <= curr < |nodes|
      requires forall j :: 0 <= j < |s| ==> s[j] != curr && KeyAt(nodes, s, j) != nodes[curr].key
      modifies `nodes
      ensures 0 <= p <= |s| && (p > 0 ==> 0 <= s[p - 1] < |old(nodes)|)
      ensures nodes == Insert(old(nodes), s, curr, p) && newHead == First(Inserted(s, curr, p))
      ensures Sorted(nodes, Inserted(s, curr, p))
    {
      ghost var nodes0, key := nodes, nodes[curr].key;
      if sortedHead.Some? { assert Link(nodes, s, 0); LessTotal(KeyAt(nodes, s, 0), key); }
      if sortedHead.None? || Less(nodes[curr].key, nodes[sortedHead.value].key) {
        p := 0;
        AboveAll(nodes, s, key, 0);
        InsertSorted(nodes, s, curr, 0);
        nodes := nodes[curr := nodes[curr].(next := sortedHead)];
        newHead := Some(curr);
      } else {
        var temp := sortedHead.value;
        p := 1;
        while nodes[temp].next.Some? && Less(nodes[nodes[temp].next.value].key, nodes[curr].key)
          invariant 1 <= p <= |s| && temp == s[p - 1] && Link(nodes, s, p - 1) && (p < |s| ==> Link(nodes, s, p))
          invariant forall j :: 0 <= j < p ==> Less(KeyAt(nodes, s, j), key)
          decreases |s| - p
        {
          temp := nodes[temp].next.value;
          p := p + 1;
          assert p < |s| ==> Link(nodes, s, p);
        }
        if p < |s| { LessTotal(KeyAt(nodes, s, p), key); }
        AboveAll(nodes, s, key, p);
        InsertSorted(nodes, s, curr, p);
        nodes := nodes[curr := nodes[curr].(next := nodes[temp].next)];
        nodes := nodes[temp := nodes[temp].(next := Some(curr))];
        newHead := sortedHead;
      }
    }

    /** Puts the list in strictly increasing order of keys, keeping every key and its values. */
    method InsertionSort()
      requires Valid()
      modifies this
      ensures Valid() && Sorted(nodes, ids) && groups == old(groups)
    {
      ghost var nodes0, s, rest := nodes, [], ids;
      var sortedHead, curr := None, head;
      while curr.Some?
        invariant SortState(nodes0, ids, nodes, s, rest) && sortedHead == First(s) && curr == First(rest)
        invariant Holds(nodes0, ids, groups) && groups == old(groups) && ids == old(ids)
        decreases |rest|
      {
        assert Link(nodes, rest, 0);
        var next := nodes[curr.value].next;
        ghost var nodes1, p := nodes, 0;
        KeyIsNew(nodes0, ids, groups, nodes, s, rest);
        sortedHead, p := InsertHelper(sortedHead, curr.value, s);
        SortStep(nodes0, ids, nodes1, s, rest, p, nodes);
        s, rest := Inserted(s, rest[0], p), rest[1..];
        curr := next;
      }
      ResortedHolds(nodes0, ids, groups, nodes, s);
      head, ids := sortedHead, s;
    }
  }

  ghost function ValuesOf(g: map<string, multiset<string>>, key: string): multiset<string> {
    if key in g then g[key] else multiset{}
  }

  /** vals have been taken from key's group of g0, and nothing else. */
  ghost predicate Draining(g0: map<string, multiset<string>>, g: map<string, multiset<string>>, key: string, vals: seq<string>) {
    && g - {key} == g0 - {key} && ValuesOf(g, key) + multiset(vals) == ValuesOf(g0, key)
  }

  lemma {:induction false} DrainStep(g0: map<string, multiset<string>>, g: map<string, multiset<string>>, key: string,
                                     vals: seq<string>, v: string)
    requires Draining(g0, g, key, vals) && key in g && v in g[key]
    ensures Draining(g0, Taken(g, key, v), key, vals + [v])
    ensures |ValuesOf(Taken(g, key, v), key)| < |ValuesOf(g, key)|
  {
    var g' := Taken(g, key, v);
    assert g' - {key} == g - {key};
    assert ValuesOf(g', key) == g[key] - multiset{v};
    assert g[key] - multiset{v} + multiset{v} == g[key];
  }

  /** insertionSort has linked s in order and has rest still to do. */
  ghost predicate SortState(nodes0: seq<Node>, ids: seq<int>, nodes: seq<Node>, s: seq<int>, rest: seq<int>) {
    && SameData(nodes0, nodes) && multiset(s) + multiset(rest) == multiset(ids)
    && Chain(nodes, s) && Sorted(nodes, s) && Chain(nodes, rest) && KeyLists.Apart(s, rest)
  }

  lemma {:induction false} AboveAll(nodes: seq<Node>, s: seq<int>, key: string, p: int)
    requires Sorted(nodes, s) && 0 <= p <= |s| && (p < |s| ==> Less(key, KeyAt(nodes, s, p)))
    ensures forall j :: p <= j < |s| ==> Less(key, KeyAt(nodes, s, j))
  {
    forall j | p <= j < |s| ensures Less(key, KeyAt(nodes, s, j)) {
      if p < j { LessTrans(key, KeyAt(nodes, s, p), KeyAt(nodes, s, j)); }
    }
  }

  lemma {:induction false} KeyIsNew(nodes0: seq<Node>, ids: seq<int>, g: map<string, multiset<string>>,
                                    nodes: seq<Node>, s: seq<int>, rest: seq<int>)
    requires Holds(nodes0, ids, g) && SortState(nodes0, ids, nodes, s, rest) && rest != []
    ensures 0 <= rest[0] < |nodes|
    ensures forall j :: 0 <= j < |s| ==> s[j] != rest[0] && KeyAt(nodes, s, j) != nodes[rest[0]].key
  {
    assert Link(nodes, rest, 0);
    assert rest[0] in multiset(ids);
    var a :| 0 <= a < |ids| && ids[a] == rest[0];
    forall j | 0 <= j < |s| ensures s[j] != rest[0] && KeyAt(nodes, s, j) != nodes[rest[0]].key {
      assert s[j] in multiset(ids);
      var b :| 0 <= b < |ids| && ids[b] == s[j];
      assert Link(nodes, s, j);
      assert KeyAt(nodes0, ids, a) != KeyAt(nodes0, ids, b);
    }
  }

  lemma {:induction false} SortStep(nodes0: seq<Node>, ids: seq<int>, nodes: seq<Node>, s: seq<int>, rest: seq<int>,
                                    p: int, nodes': seq<Node>)
    requires SortState(nodes0, ids, nodes, s, rest) && rest != [] && 0 <= p <= |s| && 0 <= rest[0] < |nodes|
    requires (p > 0 ==> 0 <= s[p - 1] < |nodes|) && nodes' == Insert(nodes, s, rest[0], p)
    requires Sorted(nodes', Inserted(s, rest[0], p))
    ensures SortState(nodes0, ids, nodes', Inserted(s, rest[0], p), rest[1..])
    ensures nodes[rest[0]].next == First(rest[1..])
  {
    var c, tail := rest[0], rest[1..];
    ChainTail(nodes, rest);
    ApartTail(s, rest);
    InsertChain(nodes, s, c, p);
    InsertRest(nodes, s, c, p, tail);
    InsertedMultiset(s, c, p, rest);
  }

  lemma {:induction false} ChainTail(nodes: seq<Node>, rest: seq<int>)
    requires Chain(nodes, rest) && rest != []
    ensures Chain(nodes, rest[1..]) && KeyLists.Apart([rest[0]], rest[1..])
    ensures 0 <= rest[0] < |nodes| && nodes[rest[0]].next == First(rest[1..])
  {
    assert Link(nodes, rest, 0);
    forall j | 0 <= j < |rest| - 1 ensures Link(nodes, rest[1..], j) {
      assert Link(nodes, rest, j + 1);
    }
  }

  lemma {:induction false} ApartTail(s: seq<int>, rest: seq<int>)
    requires KeyLists.Apart(s, rest) && rest != []
    ensures KeyLists.Apart(s, rest[1..]) && KeyLists.Apart(s, [rest[0]])
  {
    forall i, j | 0 <= i < |s| && 0 <= j < |rest| - 1 ensures s[i] != rest[1..][j] {
      assert s[i] != rest[j + 1];
    }
    forall i | 0 <= i < |s| ensures s[i] != [rest[0]][0] {
      assert s[i] != rest[0];
    }
  }

  lemma {:induction false} InsertedMultiset(s: seq<int>, c: int, p: int, rest: seq<int>)
    requires 0 <= p <= |s| && rest != [] && rest[0] == c
    ensures multiset(Inserted(s, c, p)) + multiset(rest[1..]) == multiset(s) + multiset(rest)
  {
    assert rest == [c] + rest[1..] && s == s[..p] + s[p..];
  }

  /** What Get does to the list: a value less at position i, or position i gone. */
  ghost predicate Got(nodes: seq<Node>, ids: seq<int>, i: int, nodes': seq<Node>, ids': seq<int>) {
    && 0 <= i < |ids| && 0 <= ids[i] < |nodes| && (i > 0 ==> 0 <= ids[i - 1] < |nodes|)
    && nodes' == GotNodes(nodes, ids, i) && ids' == GotIds(nodes, ids, i)
  }

  function GotNodes(nodes: seq<Node>, ids: seq<int>, i: int): seq<Node>
    requires 0 <= i < |ids| && 0 <= ids[i] < |nodes| && (i > 0 ==> 0 <= ids[i - 1] < |nodes|)
  {
    if |nodes[ids[i]].vals| > 1 then DropValue(nodes, ids[i]) else Unlink(nodes, ids, i)
  }

  function GotIds(nodes: seq<Node>, ids: seq<int>, i: int): seq<int>
    requires 0 <= i < |ids| && 0 <= ids[i] < |nodes|
  {
    if |nodes[ids[i]].vals| > 1 then ids else Removed(ids, i)
  }

  /** The value Get returns from the node at position i. */
  function GotValue(nodes: seq<Node>, ids: seq<int>, i: int): string
    requires 0 <= i < |ids| && 0 <= ids[i] < |nodes| && nodes[ids[i]].vals != []
  {
    var vs := nodes[ids[i]].vals;
    if |vs| > 1 then vs[1] else vs[0]
  }

  lemma {:induction false} GotHolds(nodes: seq<Node>, ids: seq<int>, g: map<string, multiset<string>>, i: int,
                                    nodes': seq<Node>, ids': seq<int>)
    requires Holds(nodes, ids, g) && Sorted(nodes, ids) && Got(nodes, ids, i, nodes', ids') && nodes[ids[i]].vals != []
    ensures nodes[ids[i]].key in g
    ensures Holds(nodes', ids', Taken(g, nodes[ids[i]].key, GotValue(nodes, ids, i)))
    ensures Sorted(nodes', ids')
  {
    if |nodes[ids[i]].vals| > 1 {
      DropValueKeeps(nodes, ids, g, i);
      forall j | 0 <= j < |ids| ensures KeyAt(nodes', ids, j) == KeyAt(nodes, ids, j) {
      }
    } else {
      UnlinkKeeps(nodes, ids, g, i);
      LastTaken(nodes, ids, g, i);
      UnlinkSorted(nodes, ids, i);
    }
  }

  lemma {:induction false} UnlinkSorted(nodes: seq<Node>, ids: seq<int>, i: int)
    requires Chain(nodes, ids) && Sorted(nodes, ids) && 0 <= i < |ids|
    ensures 0 <= ids[i] < |nodes| && (i > 0 ==> 0 <= ids[i - 1] < |nodes|)
    ensures Sorted(Unlink(nodes, ids, i), Removed(ids, i))
  {
    UnlinkChain(nodes, ids, i);
    var nodes', ids' := Unlink(nodes, ids, i), Removed(ids, i);
    forall j, k | 0 <= j < k < |ids'| ensures Less(KeyAt(nodes', ids', j), KeyAt(nodes', ids', k)) {
      assert Less(KeyAt(nodes, ids, if j < i then j else j + 1), KeyAt(nodes, ids, if k < i then k else k + 1));
    }
  }
}
