/** The key lists of the map-reduce store (mapreduce.c), as values.

A partition is a linked list of key nodes.  A node's address is its index in `nodes`; its values
are kept in the order of the value chain, the node's own value first. */
module KeyLists {
  import opened Options

  datatype Node = Node(key: string, vals: seq<string>, next: Option<int>)

  // ---- strcmp ---------------------------------------------------------------------------

  predicate Less(a: string, b: string) {
    if b == [] then false
    else if a == [] then true
    else a[0] < b[0] || (a[0] == b[0] && Less(a[1..], b[1..]))
  }

  /** The strings agree up to k, where a ends or has the smaller character. */
  ghost predicate LessAt(a: string, b: string, k: nat) {
    k <= |a| && k < |b| && a[..k] == b[..k] && (k == |a| || a[k] < b[k])
  }

  /** The order is decided at the first difference. */
  lemma {:induction false} LessIff(a: string, b: string)
    ensures Less(a, b) <==> exists k :: LessAt(a, b, k)
  {
    if a == [] || b == [] {
      if b != [] { assert LessAt(a, b, 0); }
    } else {
      LessIff(a[1..], b[1..]);
      if k: nat :| LessAt(a[1..], b[1..], k) && a[0] == b[0] {
        assert a[..k + 1] == [a[0]] + a[1..][..k] && b[..k + 1] == [b[0]] + b[1..][..k];
        assert LessAt(a, b, k + 1);
      }
      if a[0] < b[0] { assert LessAt(a, b, 0); }
      if k: nat :| LessAt(a, b, k) && k > 0 {
        assert a[..k][0] == a[0] && b[..k][0] == b[0];
        assert a[1..][..k - 1] == a[..k][1..] && b[1..][..k - 1] == b[..k][1..];
        assert LessAt(a[1..], b[1..], k - 1);
      }
    }
  }

  lemma {:induction false} LessTotal(a: string, b: string)
    ensures Less(a, b) || a == b || Less(b, a)
    ensures !(Less(a, b) && Less(b, a)) && (a == b ==> !Less(a, b))
  {
    if a != [] && b != [] {
      LessTotal(a[1..], b[1..]);
      assert a == [a[0]] + a[1..] && b == [b[0]] + b[1..];
    }
  }

  lemma {:induction false} LessTrans(a: string, b: string, c: string)
    requires Less(a, b) && Less(b, c)
    ensures Less(a, c)
  {
    if a != [] && a[0] == b[0] && b[0] == c[0] {
      LessTrans(a[1..], b[1..], c[1..]);
    }
  }

  // ---- chains ---------------------------------------------------------------------------

  function First(ids: seq<int>): Option<int> { if ids == [] then None else Some(ids[0]) }

  /** The node after position i of the chain. */
  function After(ids: seq<int>, i: int): Option<int>
    requires 0 <= i < |ids|
  {
    if i + 1 < |ids| then Some(ids[i + 1]) else None
  }

  ghost predicate Link(nodes: seq<Node>, ids: seq<int>, i: int)
    requires 0 <= i < |ids|
  {
    0 <= ids[i] < |nodes| && nodes[ids[i]].next == After(ids, i)
  }

  /** The nodes chain the ids in order; no node occurs twice. */
  ghost predicate Chain(nodes: seq<Node>, ids: seq<int>) {
    && (forall i {:trigger Link(nodes, ids, i)} :: 0 <= i < |ids| ==> Link(nodes, ids, i))
    && (forall i, j :: 0 <= i < j < |ids| ==> ids[i] != ids[j])
  }

  function KeyAt(nodes: seq<Node>, ids: seq<int>, i: int): string
    requires 0 <= i < |ids|
  {
    if 0 <= ids[i] < |nodes| then nodes[ids[i]].key else ""
  }

  ghost predicate KeysDiffer(nodes: seq<Node>, ids: seq<int>) {
    forall i, j {:trigger KeyAt(nodes, ids, i), KeyAt(nodes, ids, j)} ::
      0 <= i < j < |ids| ==> KeyAt(nodes, ids, i) != KeyAt(nodes, ids, j)
  }

  ghost predicate Sorted(nodes: seq<Node>, ids: seq<int>) {
    forall i, j {:trigger KeyAt(nodes, ids, i), KeyAt(nodes, ids, j)} ::
      0 <= i < j < |ids| ==> Less(KeyAt(nodes, ids, i), KeyAt(nodes, ids, j))
  }

  /** Node i holds all values of its key. */
  ghost predicate Grouped(nodes: seq<Node>, ids: seq<int>, g: map<string, multiset<string>>, i: int)
    requires 0 <= i < |ids|
  {
    && 0 <= ids[i] < |nodes| && nodes[ids[i]].vals != []
    && nodes[ids[i]].key in g && g[nodes[ids[i]].key] == multiset(nodes[ids[i]].vals)
  }

  ghost predicate HasKey(nodes: seq<Node>, ids: seq<int>, key: string) {
    exists i :: 0 <= i < |ids| && KeyAt(nodes, ids, i) == key
  }

  /** The chain holds exactly the groups g: one node per key, with that key's values. */
  ghost predicate Holds(nodes: seq<Node>, ids: seq<int>, g: map<string, multiset<string>>) {
    && Chain(nodes, ids) && KeysDiffer(nodes, ids)
    && (forall i {:trigger Grouped(nodes, ids, g, i)} :: 0 <= i < |ids| ==> Grouped(nodes, ids, g, i))
    && (forall key {:trigger HasKey(nodes, ids, key)} {:trigger key in g} :: key in g ==> HasKey(nodes, ids, key))
  }

  // ---- adding values --------------------------------------------------------------------

  function Put(g: map<string, multiset<string>>, key: string, val: string): map<string, multiset<string>> {
    g[key := (if key in g then g[key] else multiset{}) + multiset{val}]
  }

  /** add for a key that has node ids[i]: the value goes in after the node's own. */
  function AddValue(nodes: seq<Node>, id: int, val: string): seq<Node>
    requires 0 <= id < |nodes| && nodes[id].vals != []
  {
    var vs := nodes[id].vals;
    nodes[id := nodes[id].(vals := [vs[0], val] + vs[1..])]
  }

  /** Changing the values of one node changes its key's group and nothing else. */
  lemma {:induction false} SetValues(nodes: seq<Node>, ids: seq<int>, g: map<string, multiset<string>>, i: int,
                                     vs: seq<string>)
    requires Holds(nodes, ids, g) && 0 <= i < |ids| && 0 <= ids[i] < |nodes| && vs != []
    ensures Holds(nodes[ids[i] := nodes[ids[i]].(vals := vs)], ids, g[nodes[ids[i]].key := multiset(vs)])
  {
    var nodes', g' := nodes[ids[i] := nodes[ids[i]].(vals := vs)], g[nodes[ids[i]].key := multiset(vs)];
    forall j | 0 <= j < |ids| ensures Link(nodes', ids, j) && Grouped(nodes', ids, g', j)
                                      && KeyAt(nodes', ids, j) == KeyAt(nodes, ids, j) {
      assert Link(nodes, ids, j) && Grouped(nodes, ids, g, j);
      if j != i {
        assert KeyAt(nodes, ids, i) != KeyAt(nodes, ids, j);
      }
    }
    assert Grouped(nodes, ids, g, i);
    forall key | key in g' ensures HasKey(nodes', ids, key) {
      assert HasKey(nodes, ids, key);
      var j :| 0 <= j < |ids| && KeyAt(nodes, ids, j) == key;
      assert KeyAt(nodes', ids, j) == key;
    }
  }

  lemma {:induction false} AddValueKeeps(nodes: seq<Node>, ids: seq<int>, g: map<string, multiset<string>>, i: int,
                                         val: string)
    requires Holds(nodes, ids, g) && 0 <= i < |ids| && 0 <= ids[i] < |nodes| && nodes[ids[i]].vals != []
    ensures Holds(AddValue(nodes, ids[i], val), ids, Put(g, nodes[ids[i]].key, val))
  {
    assert Grouped(nodes, ids, g, i);
    var vs := nodes[ids[i]].vals;
    var vs' := [vs[0], val] + vs[1..];
    assert vs == [vs[0]] + vs[1..] && vs' == [vs[0]] + [val] + vs[1..];
    assert multiset(vs') == multiset(vs) + multiset{val};
    SetValues(nodes, ids, g, i, vs');
  }

  /** add for a new key: a node at the front. */
  lemma {:induction false} AddNodeKeeps(nodes: seq<Node>, ids: seq<int>, g: map<string, multiset<string>>,
                                        key: string, val: string)
    requires Holds(nodes, ids, g) && !HasKey(nodes, ids, key)
    ensures Holds(nodes + [Node(key, [val], First(ids))], [|nodes|] + ids, Put(g, key, val))
  {
    var nodes', ids', g' := nodes + [Node(key, [val], First(ids))], [|nodes|] + ids, Put(g, key, val);
    assert key in g ==> HasKey(nodes, ids, key);
    forall j | 0 <= j < |ids'| ensures Link(nodes', ids', j) && Grouped(nodes', ids', g', j)
                                       && (j > 0 ==> ids'[j] == ids[j - 1] < |nodes|)
                                       && KeyAt(nodes', ids', j) == (if j == 0 then key else KeyAt(nodes, ids, j - 1)) {
      if j > 0 {
        assert Link(nodes, ids, j - 1) && Grouped(nodes, ids, g, j - 1);
        assert KeyAt(nodes, ids, j - 1) != key;
      }
    }
    forall k | k in g' ensures HasKey(nodes', ids', k) {
      if k == key {
        assert KeyAt(nodes', ids', 0) == key;
      } else {
        assert HasKey(nodes, ids, k);
        var j :| 0 <= j < |ids| && KeyAt(nodes, ids, j) == k;
        assert KeyAt(nodes', ids', j + 1) == k;
      }
    }
  }

  // ---- taking values --------------------------------------------------------------------

  /** The groups after one value of a key is taken. */
  ghost function Taken(g: map<string, multiset<string>>, key: string, val: string): map<string, multiset<string>>
    requires key in g
  {
    if g[key] == multiset{val} then g - {key} else g[key := g[key] - multiset{val}]
  }

  /** Get on a key with more than one value: the second of its chain goes. */
  function DropValue(nodes: seq<Node>, id: int): seq<Node>
    requires 0 <= id < |nodes| && |nodes[id].vals| > 1
  {
    var vs := nodes[id].vals;
    nodes[id := nodes[id].(vals := [vs[0]] + vs[2..])]
  }

  lemma {:induction false} DropValueKeeps(nodes: seq<Node>, ids: seq<int>, g: map<string, multiset<string>>, i: int)
    requires Holds(nodes, ids, g) && 0 <= i < |ids| && 0 <= ids[i] < |nodes| && |nodes[ids[i]].vals| > 1
    ensures nodes[ids[i]].key in g
    ensures Holds(DropValue(nodes, ids[i]), ids, Taken(g, nodes[ids[i]].key, nodes[ids[i]].vals[1]))
  {
    var vs := nodes[ids[i]].vals;
    var vs' := [vs[0]] + vs[2..];
    assert Grouped(nodes, ids, g, i);
    assert vs == [vs[0]] + [vs[1]] + vs[2..];
    assert multiset(vs) == multiset(vs') + multiset{vs[1]};
    assert multiset(vs) - multiset{vs[1]} == multiset(vs');
    assert multiset(vs) != multiset{vs[1]} by {
      assert |multiset(vs)| == |vs|;
    }
    SetValues(nodes, ids, g, i, vs');
  }

  /** Get on a key's last value: its node is unlinked. */
  function Unlink(nodes: seq<Node>, ids: seq<int>, i: int): seq<Node>
    requires 0 <= i < |ids| && 0 <= ids[i] < |nodes| && (i > 0 ==> 0 <= ids[i - 1] < |nodes|)
  {
    if i == 0 then nodes else nodes[ids[i - 1] := nodes[ids[i - 1]].(next := nodes[ids[i]].next)]
  }

  function Removed(ids: seq<int>, i: int): seq<int>
    requires 0 <= i < |ids|
  {
    ids[..i] + ids[i + 1..]
  }

  lemma {:induction false} UnlinkChain(nodes: seq<Node>, ids: seq<int>, i: int)
    requires Chain(nodes, ids) && 0 <= i < |ids|
    ensures 0 <= ids[i] < |nodes| && (i > 0 ==> 0 <= ids[i - 1] < |nodes|)
    ensures Chain(Unlink(nodes, ids, i), Removed(ids, i))
    ensures forall j {:trigger Removed(ids, i)[j]} :: 0 <= j < |ids| - 1 ==>
              Removed(ids, i)[j] == if j < i then ids[j] else ids[j + 1]
    ensures forall j :: 0 <= j < |ids| - 1 ==>
              KeyAt(Unlink(nodes, ids, i), Removed(ids, i), j) == KeyAt(nodes, ids, if j < i then j else j + 1)
  {
    assert Link(nodes, ids, i) && (i > 0 ==> Link(nodes, ids, i - 1));
    var nodes', ids' := Unlink(nodes, ids, i), Removed(ids, i);
    forall j | 0 <= j < |ids'| ensures Link(nodes', ids', j)
                                       && KeyAt(nodes', ids', j) == KeyAt(nodes, ids, if j < i then j else j + 1) {
      assert Link(nodes, ids, if j < i then j else j + 1);
    }
  }

  lemma {:induction false} UnlinkGroups(nodes: seq<Node>, ids: seq<int>, g: map<string, multiset<string>>, i: int, j: int)
    requires Holds(nodes, ids, g) && 0 <= i < |ids| && 0 <= j < |ids| - 1
    requires 0 <= ids[i] < |nodes| && (i > 0 ==> 0 <= ids[i - 1] < |nodes|)
    ensures Grouped(Unlink(nodes, ids, i), Removed(ids, i), g - {nodes[ids[i]].key}, j)
  {
    var k := if j < i then j else j + 1;
    assert Removed(ids, i)[j] == ids[k];
    assert Grouped(nodes, ids, g, k);
    assert KeyAt(nodes, ids, k) != KeyAt(nodes, ids, i);
  }

  lemma {:induction false} UnlinkKeeps(nodes: seq<Node>, ids: seq<int>, g: map<string, multiset<string>>, i: int)
    requires Holds(nodes, ids, g) && 0 <= i < |ids|
    ensures 0 <= ids[i] < |nodes| && (i > 0 ==> 0 <= ids[i - 1] < |nodes|)
    ensures Holds(Unlink(nodes, ids, i), Removed(ids, i), g - {nodes[ids[i]].key})
  {
    UnlinkChain(nodes, ids, i);
    var nodes', ids', g' := Unlink(nodes, ids, i), Removed(ids, i), g - {nodes[ids[i]].key};
    forall j | 0 <= j < |ids'| ensures Grouped(nodes', ids', g', j) {
      UnlinkGroups(nodes, ids, g, i, j);
    }
    forall j, k | 0 <= j < k < |ids'| ensures KeyAt(nodes', ids', j) != KeyAt(nodes', ids', k) {
      assert KeyAt(nodes, ids, if j < i then j else j + 1) != KeyAt(nodes, ids, if k < i then k else k + 1);
    }
    forall key | key in g' ensures HasKey(nodes', ids', key) {
      assert HasKey(nodes, ids, key);
      var j :| 0 <= j < |ids| && KeyAt(nodes, ids, j) == key;
      assert KeyAt(nodes', ids', if j < i then j else j - 1) == key;
    }
  }

  lemma {:induction false} LastTaken(nodes: seq<Node>, ids: seq<int>, g: map<string, multiset<string>>, i: int)
    requires Holds(nodes, ids, g) && 0 <= i < |ids| && 0 <= ids[i] < |nodes| && |nodes[ids[i]].vals| == 1
    ensures nodes[ids[i]].key in g
    ensures Taken(g, nodes[ids[i]].key, nodes[ids[i]].vals[0]) == g - {nodes[ids[i]].key}
  {
    assert Grouped(nodes, ids, g, i);
    assert nodes[ids[i]].vals == [nodes[ids[i]].vals[0]];
  }

  // ---- sorting --------------------------------------------------------------------------

  ghost predicate SameData(a: seq<Node>, b: seq<Node>) {
    |a| == |b| && forall i {:trigger b[i]} :: 0 <= i < |a| ==> b[i].key == a[i].key && b[i].vals == a[i].vals
  }

  /** insertHelper's writes: node c goes in before position p of the sorted list. */
  function Insert(nodes: seq<Node>, ids: seq<int>, c: int, p: int): seq<Node>
    requires 0 <= p <= |ids| && 0 <= c < |nodes| && (p > 0 ==> 0 <= ids[p - 1] < |nodes|)
  {
    var linked := nodes[c := nodes[c].(next := if p < |ids| then Some(ids[p]) else None)];
    if p == 0 then linked else linked[ids[p - 1] := linked[ids[p - 1]].(next := Some(c))]
  }

  function Inserted(ids: seq<int>, c: int, p: int): (r: seq<int>)
    requires 0 <= p <= |ids|
    ensures |r| == |ids| + 1
  {
    ids[..p] + [c] + ids[p..]
  }

  lemma {:induction false} InsertedAt(ids: seq<int>, c: int, p: int, j: int)
    requires 0 <= p <= |ids| && 0 <= j <= |ids|
    ensures Inserted(ids, c, p)[j] == if j < p then ids[j] else if j == p then c else ids[j - 1]
  {
  }

  ghost predicate Apart(a: seq<int>, b: seq<int>) {
    forall i, j {:trigger a[i], b[j]} :: 0 <= i < |a| && 0 <= j < |b| ==> a[i] != b[j]
  }

  lemma {:induction false} InsertChain(nodes: seq<Node>, ids: seq<int>, c: int, p: int)
    requires Chain(nodes, ids) && 0 <= p <= |ids| && 0 <= c < |nodes| && Apart(ids, [c])
    ensures p > 0 ==> 0 <= ids[p - 1] < |nodes|
    ensures Chain(Insert(nodes, ids, c, p), Inserted(ids, c, p)) && SameData(nodes, Insert(nodes, ids, c, p))
  {
    assert p > 0 ==> Link(nodes, ids, p - 1);
    var nodes', ids' := Insert(nodes, ids, c, p), Inserted(ids, c, p);
    assert forall j :: 0 <= j < |ids| ==> ids[j] != [c][0];
    forall j | 0 <= j < |ids'| ensures Link(nodes', ids', j) {
      InsertedAt(ids, c, p, j);
      if j + 1 < |ids'| { InsertedAt(ids, c, p, j + 1); }
      if j < p { assert Link(nodes, ids, j); }
      if j > p { assert Link(nodes, ids, j - 1); }
    }
    forall j, k | 0 <= j < k < |ids'| ensures ids'[j] != ids'[k] {
      InsertedAt(ids, c, p, j);
      InsertedAt(ids, c, p, k);
    }
  }

  /** The rest of the list is not disturbed. */
  lemma {:induction false} InsertRest(nodes: seq<Node>, ids: seq<int>, c: int, p: int, rest: seq<int>)
    requires Chain(nodes, ids) && 0 <= p <= |ids| && 0 <= c < |nodes| && (p > 0 ==> 0 <= ids[p - 1] < |nodes|)
    requires Chain(nodes, rest) && Apart(ids, rest) && Apart([c], rest)
    ensures Chain(Insert(nodes, ids, c, p), rest) && Apart(Inserted(ids, c, p), rest)
  {
    var nodes', ids' := Insert(nodes, ids, c, p), Inserted(ids, c, p);
    forall j | 0 <= j < |rest| ensures Link(nodes', rest, j) {
      assert Link(nodes, rest, j);
      assert [c][0] != rest[j] && (p > 0 ==> ids[p - 1] != rest[j]);
    }
    forall i, j | 0 <= i < |ids'| && 0 <= j < |rest| ensures ids'[i] != rest[j] {
      InsertedAt(ids, c, p, i);
      assert [c][0] != rest[j];
    }
  }

  lemma {:induction false} InsertedKey(nodes: seq<Node>, ids: seq<int>, c: int, p: int, j: int)
    requires 0 <= p <= |ids| && 0 <= c < |nodes| && (p > 0 ==> 0 <= ids[p - 1] < |nodes|) && 0 <= j <= |ids|
    ensures KeyAt(Insert(nodes, ids, c, p), Inserted(ids, c, p), j) ==
            if j < p then KeyAt(nodes, ids, j) else if j == p then nodes[c].key else KeyAt(nodes, ids, j - 1)
  {
    InsertedAt(ids, c, p, j);
  }

  lemma {:induction false} InsertSorted(nodes: seq<Node>, ids: seq<int>, c: int, p: int)
    requires Sorted(nodes, ids) && 0 <= p <= |ids| && 0 <= c < |nodes|
    requires p > 0 ==> 0 <= ids[p - 1] < |nodes|
    requires forall j :: 0 <= j < p ==> Less(KeyAt(nodes, ids, j), nodes[c].key)
    requires forall j :: p <= j < |ids| ==> Less(nodes[c].key, KeyAt(nodes, ids, j))
    ensures Sorted(Insert(nodes, ids, c, p), Inserted(ids, c, p))
  {
    var nodes', ids' := Insert(nodes, ids, c, p), Inserted(ids, c, p);
    forall i, j | 0 <= i < j < |ids'| ensures Less(KeyAt(nodes', ids', i), KeyAt(nodes', ids', j)) {
      InsertedKey(nodes, ids, c, p, i);
      InsertedKey(nodes, ids, c, p, j);
    }
  }

  /** A relinked, sorted arrangement of the same nodes holds the same groups. */
  lemma {:induction false} ResortedHolds(nodes: seq<Node>, ids: seq<int>, g: map<string, multiset<string>>,
                                         nodes': seq<Node>, ids': seq<int>)
    requires Holds(nodes, ids, g) && SameData(nodes, nodes') && multiset(ids') == multiset(ids)
    requires Chain(nodes', ids') && Sorted(nodes', ids')
    ensures Holds(nodes', ids', g)
  {
    forall i, j | 0 <= i < j < |ids'| ensures KeyAt(nodes', ids', i) != KeyAt(nodes', ids', j) {
      LessTotal(KeyAt(nodes', ids', i), KeyAt(nodes', ids', j));
    }
    forall i | 0 <= i < |ids'| ensures Grouped(nodes', ids', g, i) {
      assert ids'[i] in multiset(ids);
      var j :| 0 <= j < |ids| && ids[j] == ids'[i];
      assert Grouped(nodes, ids, g, j);
    }
    forall key | key in g ensures HasKey(nodes', ids', key) {
      assert HasKey(nodes, ids, key);
      var j :| 0 <= j < |ids| && KeyAt(nodes, ids, j) == key;
      assert ids[j] in multiset(ids');
      var i :| 0 <= i < |ids'| && ids'[i] == ids[j];
      assert Link(nodes, ids, j);
      assert KeyAt(nodes', ids', i) == key;
    }
  }
}
