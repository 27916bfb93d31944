/** The sequential map-reduce library (sequential_mapreduce.c): the reference for the concurrent one. */
module SequentialMapReduce {
  import opened Options
  import opened KeyLists
  import opened Grouping

  /** One call of the reducer and the values it drew with its getter. */
  datatype Call = Call(key: string, vals: seq<string>)

  ghost predicate InOrder(kvs: seq<Emit>) {
    forall i, j :: 0 <= i < j < |kvs| ==> !Less(kvs[j].key, kvs[i].key)
  }

  /** The calls give each group once, in increasing order of keys. */
  ghost predicate Renders(calls: seq<Call>, g: map<string, multiset<string>>) {
    && (forall i, j {:trigger calls[i], calls[j]} :: 0 <= i < j < |calls| ==> Less(calls[i].key, calls[j].key))
    && (forall i {:trigger calls[i]} :: 0 <= i < |calls| ==> calls[i].key in g && multiset(calls[i].vals) == g[calls[i].key])
    && (forall key {:trigger Called(calls, key)} {:trigger key in g} :: key in g ==> Called(calls, key))
  }

  ghost predicate Called(calls: seq<Call>, key: string) {
    exists i :: 0 <= i < |calls| && calls[i].key == key
  }

  class Library {
    var kvl: seq<Emit>
    var counter: nat

    constructor ()
      ensures kvl == [] && counter == 0
    {
      kvl, counter := [], 0;
    }

    /** The value joins its key's group; the other groups stay. */
    method MrEmit(key: string, val: string)
      modifies `kvl
      ensures kvl == old(kvl) + [Emit(key, val)]
      ensures forall k, v {:trigger Occurs(GroupOf(kvl), k, v)} ::
                Occurs(GroupOf(kvl), k, v) == Occurs(GroupOf(old(kvl)), k, v) + if k == key && v == val then 1 else 0
      ensures forall k {:trigger k in GroupOf(kvl)} :: k in GroupOf(kvl) <==> k in GroupOf(old(kvl)) || k == key
    {
      kvl := kvl + [Emit(key, val)];
      assert kvl[..|kvl| - 1] == old(kvl);
    }

    method GetFunc(key: string) returns (r: Option<string>)
      requires counter <= |kvl|
      modifies `counter
      ensures counter <= |kvl|
      ensures r.Some? <==> old(counter) < |kvl| && kvl[old(counter)].key == key
      ensures r.Some? ==> r.value == kvl[old(counter)].val && counter == old(counter) + 1
      ensures r.None? ==> counter == old(counter)
    {
      if counter == |kvl| {
        return None;
      }
      var elt := kvl[counter];
      if elt.key == key {
        counter := counter + 1;
        return Some(elt.val);
      }
      r := None;
    }

    /** Draws values of a new key until there are none left. */
    method Draw(key: string, ghost g0: map<string, multiset<string>>) returns (vals: seq<string>)
      requires counter < |kvl| && kvl[counter].key == key && key !in g0 && UpTo(kvl, counter, g0, key, [])
      modifies `counter
      ensures old(counter) < counter <= |kvl| && vals != [] && UpTo(kvl, counter, g0, key, vals)
      ensures kvl[counter - 1].key == key && (counter < |kvl| ==> kvl[counter].key != key)
    {
      vals := [];
      while true
        invariant old(counter) <= counter <= |kvl| && |vals| == counter - old(counter)
        invariant if vals == [] then counter < |kvl| && kvl[counter].key == key else kvl[counter - 1].key == key
        invariant UpTo(kvl, counter, g0, key, vals)
        decreases |kvl| - counter
      {
        var r := GetFunc(key);
        if r.None? {
          break;
        }
        DrawOne(kvl, counter - 1, g0, key, vals);
        vals := vals + [r.value];
      }
    }

    /** A reducer call that draws all values of its key. */
    method Reduce(key: string, ghost calls: seq<Call>) returns (vals: seq<string>)
      requires counter < |kvl| && kvl[counter].key == key && InOrder(kvl)
      requires Renders(calls, GroupOf(kvl[..counter])) && FreshKey(calls, key)
      modifies `counter
      ensures old(counter) < counter <= |kvl| && Renders(calls + [Call(key, vals)], GroupOf(kvl[..counter]))
      ensures counter < |kvl| ==> FreshKey(calls + [Call(key, vals)], kvl[counter].key)
    {
      ghost var g0 := GroupOf(kvl[..counter]);
      NotYet(calls, g0, key);
      vals := Draw(key, g0);
      OneMore(calls, g0, key, vals);
      if counter < |kvl| {
        NextKey(calls, key, vals, kvl, counter);
      }
    }

    /** MR_Run after the mappers: `sorted` is what qsort makes of the list. */
    method MrRun(sorted: seq<Emit>) returns (calls: seq<Call>)
      requires multiset(sorted) == multiset(kvl) && InOrder(sorted)
      modifies this
      ensures Renders(calls, GroupOf(old(kvl)))
    {
      GroupAnyOrder(sorted, kvl);
      kvl, counter, calls := sorted, 0, [];
      assert kvl[..0] == [];
      while counter < |kvl|
        invariant counter <= |kvl| && kvl == sorted && Renders(calls, GroupOf(kvl[..counter]))
        invariant counter < |kvl| ==> FreshKey(calls, kvl[counter].key)
        decreases |kvl| - counter
      {
        var key := kvl[counter].key;
        var vals := Reduce(key, calls);
        calls := calls + [Call(key, vals)];
      }
      assert kvl[..counter] == kvl;
    }
  }

  /** Every call so far was for a smaller key. */
  ghost predicate FreshKey(calls: seq<Call>, key: string) {
    forall i {:trigger calls[i]} :: 0 <= i < |calls| ==> Less(calls[i].key, key)
  }

  /** The groups once the reducer for a new key has drawn vals. */
  ghost function Drawn(g: map<string, multiset<string>>, key: string, vals: seq<string>): map<string, multiset<string>> {
    if vals == [] then g else g[key := multiset(vals)]
  }

  /** The first i pairs group to g with vals drawn for the key. */
  ghost predicate UpTo(kvl: seq<Emit>, i: nat, g: map<string, multiset<string>>, key: string, vals: seq<string>) {
    i <= |kvl| && GroupOf(kvl[..i]) == Drawn(g, key, vals)
  }

  lemma {:induction false} DrawOne(kvl: seq<Emit>, i: nat, g: map<string, multiset<string>>, key: string, vals: seq<string>)
    requires i < |kvl| && kvl[i].key == key && key !in g && UpTo(kvl, i, g, key, vals)
    ensures UpTo(kvl, i + 1, g, key, vals + [kvl[i].val])
  {
    assert kvl[..i + 1][..i] == kvl[..i];
    PutDrawn(g, key, vals, kvl[i].val);
  }

  lemma {:induction false} PutDrawn(g: map<string, multiset<string>>, key: string, vals: seq<string>, v: string)
    requires key !in g
    ensures Put(Drawn(g, key, vals), key, v) == Drawn(g, key, vals + [v])
  {
    assert multiset(vals + [v]) == multiset(vals) + multiset{v};
    assert vals == [] ==> multiset(vals) == multiset{};
  }

  lemma {:induction false} NotYet(calls: seq<Call>, g: map<string, multiset<string>>, key: string)
    requires Renders(calls, g) && FreshKey(calls, key)
    ensures key !in g
  {
    if key in g {
      assert Called(calls, key);
      var i :| 0 <= i < |calls| && calls[i].key == key;
      LessTotal(key, key);
    }
  }

  lemma {:induction false} OneMore(calls: seq<Call>, g: map<string, multiset<string>>, key: string, vals: seq<string>)
    requires Renders(calls, g) && FreshKey(calls, key)
    ensures Renders(calls + [Call(key, vals)], g[key := multiset(vals)])
  {
    NotYet(calls, g, key);
    var calls', g' := calls + [Call(key, vals)], g[key := multiset(vals)];
    forall k | k in g' ensures Called(calls', k) {
      if k == key {
        assert calls'[|calls|].key == key;
      } else {
        assert Called(calls, k);
        var i :| 0 <= i < |calls| && calls[i].key == k;
        assert calls'[i].key == k;
      }
    }
  }

  lemma {:induction false} NextKey(calls: seq<Call>, key: string, vals: seq<string>, kvl: seq<Emit>, counter: nat)
    requires FreshKey(calls, key) && InOrder(kvl) && 0 < counter < |kvl| && kvl[counter - 1].key == key && kvl[counter].key != key
    ensures FreshKey(calls + [Call(key, vals)], kvl[counter].key)
  {
    LessTotal(key, kvl[counter].key);
    var calls' := calls + [Call(key, vals)];
    forall i | 0 <= i < |calls'| ensures Less(calls'[i].key, kvl[counter].key) {
      if i < |calls| {
        LessTrans(calls[i].key, key, kvl[counter].key);
      }
    }
  }
}
