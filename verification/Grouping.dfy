/** Grouping by key: what both map-reduce libraries compute from the pairs the mappers emit. */
module Grouping {
  import opened KeyLists

  datatype Emit = Emit(key: string, val: string)

  /** The values emitted for each key. */
  function GroupOf(emits: seq<Emit>): map<string, multiset<string>> {
    if emits == [] then map[]
    else
      var last := emits[|emits| - 1];
      Put(GroupOf(emits[..|emits| - 1]), last.key, last.val)
  }

  /** How often v is among key k's values in g. */
  function Occurs(g: map<string, multiset<string>>, k: string, v: string): nat {
    if k in g then g[k][v] else 0
  }

  lemma {:induction false} PutOccurs(g: map<string, multiset<string>>, e: Emit, k: string, v: string)
    ensures Occurs(Put(g, e.key, e.val), k, v) == Occurs(g, k, v) + if e == Emit(k, v) then 1 else 0
  {
  }

  /** A value occurs in a key's group as often as the pair was emitted. */
  lemma {:induction false} GroupOccurs(emits: seq<Emit>, k: string, v: string)
    ensures Occurs(GroupOf(emits), k, v) == multiset(emits)[Emit(k, v)]
  {
    if emits != [] {
      var n := |emits| - 1;
      GroupOccurs(emits[..n], k, v);
      PutOccurs(GroupOf(emits[..n]), emits[n], k, v);
      assert emits == emits[..n] + [emits[n]];
    }
  }

  /** The keys that have groups are those that were emitted. */
  lemma {:induction false} GroupKeys(emits: seq<Emit>, k: string)
    ensures k in GroupOf(emits) <==> exists e :: e in emits && e.key == k
  {
    if emits != [] {
      var n := |emits| - 1;
      GroupKeys(emits[..n], k);
      assert emits == emits[..n] + [emits[n]];
      if k in GroupOf(emits) {
        if k == emits[n].key {
          assert emits[n] in emits;
        } else {
          var e :| e in emits[..n] && e.key == k;
          assert e in emits;
        }
      }
    }
  }

  lemma {:induction false} SameGroup(a: map<string, multiset<string>>, b: map<string, multiset<string>>, k: string)
    requires (k in a <==> k in b) && forall v {:trigger Occurs(a, k, v)} :: Occurs(a, k, v) == Occurs(b, k, v)
    ensures k in a ==> a[k] == b[k]
  {
    if k in a {
      forall v ensures a[k][v] == b[k][v] {
        assert Occurs(a, k, v) == Occurs(b, k, v);
      }
    }
  }

  /** The groups depend only on which pairs were emitted, not on their order. */
  lemma {:induction false} GroupAnyOrder(a: seq<Emit>, b: seq<Emit>)
    requires multiset(a) == multiset(b)
    ensures GroupOf(a) == GroupOf(b)
  {
    var g, h := GroupOf(a), GroupOf(b);
    forall k ensures (k in g <==> k in h) && (k in g ==> g[k] == h[k]) {
      GroupKeys(a, k);
      GroupKeys(b, k);
      assert forall e :: e in a <==> e in multiset(a);
      assert forall e :: e in b <==> e in multiset(b);
      forall v ensures Occurs(g, k, v) == Occurs(h, k, v) {
        GroupOccurs(a, k, v);
        GroupOccurs(b, k, v);
      }
      SameGroup(g, h, k);
    }
  }

  /** The pairs that go to partition i. */
  function InPartition(emits: seq<Emit>, part: string -> int, i: int): seq<Emit> {
    if emits == [] then []
    else
      var n := |emits| - 1;
      InPartition(emits[..n], part, i) + if part(emits[n].key) == i then [emits[n]] else []
  }

  lemma {:induction false} PartitionCount(emits: seq<Emit>, part: string -> int, i: int, e: Emit)
    ensures multiset(InPartition(emits, part, i))[e] == if part(e.key) == i then multiset(emits)[e] else 0
  {
    if emits != [] {
      var n := |emits| - 1;
      PartitionCount(emits[..n], part, i, e);
      assert emits == emits[..n] + [emits[n]];
    }
  }

  /** A key's group is whole in its own partition and absent from the others. */
  lemma {:induction false} PartitionGroup(emits: seq<Emit>, part: string -> int, i: int, key: string)
    ensures key in GroupOf(InPartition(emits, part, i)) <==> part(key) == i && key in GroupOf(emits)
    ensures key in GroupOf(InPartition(emits, part, i)) ==> GroupOf(InPartition(emits, part, i))[key] == GroupOf(emits)[key]
  {
    var mine := InPartition(emits, part, i);
    GroupKeys(emits, key);
    GroupKeys(mine, key);
    forall e ensures e in mine <==> part(e.key) == i && e in emits {
      PartitionCount(emits, part, i, e);
      assert (e in mine <==> e in multiset(mine)) && (e in emits <==> e in multiset(emits));
    }
    if part(key) == i {
      forall v ensures Occurs(GroupOf(mine), key, v) == Occurs(GroupOf(emits), key, v) {
        GroupOccurs(mine, key, v);
        GroupOccurs(emits, key, v);
        PartitionCount(emits, part, i, Emit(key, v));
      }
      SameGroup(GroupOf(mine), GroupOf(emits), key);
    }
  }
}
