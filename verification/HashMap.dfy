/** The open-addressing hash map (hashmap.c) as a mathematical map. */
module HashMap {
  // The hash is any function; a key's probe path starts at its hash modulo the capacity and wraps
  // around the table.  Entries are never removed.

  import opened Options
  import opened Sets

  const MAP_INIT_CAPACITY: nat := 11

  datatype Pair<V> = Pair(key: string, value: V)

  type Slots<V> = seq<Option<Pair<V>>>

  /** Steps from slot a to slot b, wrapping around n slots. */
  function Dist(n: nat, a: int, b: int): int { if b >= a then b - a else b - a + n }

  /** Every slot on the way from a up to b is taken. */
  ghost predicate PathFull<V>(s: Slots<V>, a: int, b: int) {
    forall j {:trigger s[j]} :: 0 <= j < |s| && Dist(|s|, a, j) < Dist(|s|, a, b) ==> s[j].Some?
  }

  function Start(hash: string -> nat, key: string, n: nat): (h: nat)
    requires n > 0
    ensures h < n
  {
    hash(key) % n
  }

  /** Key sits where `at` says with its value in m, and its probe path reaches it. */
  ghost predicate Placed<V>(s: Slots<V>, at: map<string, int>, m: map<string, V>, hash: string -> nat, key: string)
    requires key in at && |s| > 0
  {
    && 0 <= at[key] < |s| && key in m && s[at[key]] == Some(Pair(key, m[key]))
    && PathFull(s, Start(hash, key, |s|), at[key])
  }

  /** The slots hold exactly the map m. */
  ghost predicate Table<V>(s: Slots<V>, at: map<string, int>, m: map<string, V>, hash: string -> nat) {
    && |s| > 0 && at.Keys == m.Keys
    && (forall key {:trigger Placed(s, at, m, hash, key)} :: key in at ==> Placed(s, at, m, hash, key))
    && (forall i {:trigger s[i]} :: 0 <= i < |s| && s[i].Some? ==> s[i].value.key in at && at[s[i].value.key] == i)
  }

  // ---- probing --------------------------------------------------------------------------

  /** The slots from the key's start up to h are taken by other keys. */
  ghost predicate Passed<V>(s: Slots<V>, hash: string -> nat, key: string, h: int)
    requires |s| > 0
  {
    forall j {:trigger s[j]} :: 0 <= j < |s| && Dist(|s|, Start(hash, key, |s|), j) < Dist(|s|, Start(hash, key, |s|), h) ==>
      s[j].Some? && s[j].value.key != key
  }

  /** A probe that reaches an empty slot has missed nothing. */
  lemma {:induction false} Missing<V>(s: Slots<V>, at: map<string, int>, m: map<string, V>, hash: string -> nat,
                                      key: string, h: int)
    requires Table(s, at, m, hash) && 0 <= h < |s| && s[h].None? && Passed(s, hash, key, h)
    ensures key !in at
  {
    assert key in at ==> Placed(s, at, m, hash, key);
  }

  /** A probe for the key ended at slot h: empty, or holding the key. */
  ghost predicate ProbeEnd<V>(s: Slots<V>, hash: string -> nat, key: string, h: int) {
    |s| > 0 && 0 <= h < |s| && Passed(s, hash, key, h) && (s[h].Some? ==> s[h].value.key == key)
  }

  lemma {:induction false} PutPlaced<V>(s: Slots<V>, at: map<string, int>, m: map<string, V>, hash: string -> nat,
                                        pair: Pair<V>, h: int, key: string)
    requires Table(s, at, m, hash) && ProbeEnd(s, hash, pair.key, h) && key in at[pair.key := h]
    ensures Placed(s[h := Some(pair)], at[pair.key := h], m[pair.key := pair.value], hash, key)
  {
    assert s[h].Some? ==> at[pair.key] == h;
    if key in at {
      assert Placed(s, at, m, hash, key);
    }
  }

  /** Filling the empty slot a probe ended at, or replacing the pair it found, updates the map. */
  lemma {:induction false} PutKeeps<V>(s: Slots<V>, at: map<string, int>, m: map<string, V>, hash: string -> nat,
                                       pair: Pair<V>, h: int)
    requires Table(s, at, m, hash) && ProbeEnd(s, hash, pair.key, h)
    ensures Table(s[h := Some(pair)], at[pair.key := h], m[pair.key := pair.value], hash)
  {
    var s', at', m' := s[h := Some(pair)], at[pair.key := h], m[pair.key := pair.value];
    forall key | key in at' ensures Placed(s', at', m', hash, key) {
      PutPlaced(s, at, m, hash, pair, h, key);
    }
    if s[h].None? { Missing(s, at, m, hash, pair.key, h); }
    forall i | 0 <= i < |s'| && s'[i].Some? ensures s'[i].value.key in at' && at'[s'[i].value.key] == i {
      if i != h {
        assert s[i].Some? && (s[h].Some? ==> at[pair.key] == h);
      }
    }
  }

  lemma {:induction false} PutCount<V>(s: Slots<V>, at: map<string, int>, m: map<string, V>, hash: string -> nat,
                                       key: string, h: int)
    requires Table(s, at, m, hash) && ProbeEnd(s, hash, key, h)
    ensures |at[key := h]| == |at| + if s[h].None? then 1 else 0
    ensures s[h].Some? <==> key in at
  {
    if s[h].None? { Missing(s, at, m, hash, key, h); }
    assert s[h].Some? ==> key in at;
    assert at[key := h].Keys == at.Keys + {key};
  }

  // ---- a free slot ----------------------------------------------------------------------

  ghost function KeysUpTo<V>(s: Slots<V>, n: nat): set<string>
    requires n <= |s| && forall i :: 0 <= i < n ==> s[i].Some?
  {
    if n == 0 then {} else KeysUpTo(s, n - 1) + {s[n - 1].value.key}
  }

  lemma {:induction false} KeysDiffer<V>(s: Slots<V>, at: map<string, int>, m: map<string, V>, hash: string -> nat, n: nat)
    requires Table(s, at, m, hash) && n <= |s| && forall i :: 0 <= i < n ==> s[i].Some?
    ensures |KeysUpTo(s, n)| == n && forall key :: key in KeysUpTo(s, n) ==> key in at && at[key] < n
    ensures n <= |at|
  {
    if n > 0 {
      KeysDiffer(s, at, m, hash, n - 1);
      assert s[n - 1].Some?;
    }
    SubsetSize(KeysUpTo(s, n), at.Keys);
  }

  /** A table with fewer keys than slots has an empty slot. */
  lemma {:induction false} FreeSlot<V>(s: Slots<V>, at: map<string, int>, m: map<string, V>,
                                       hash: string -> nat) returns (e: int)
    requires Table(s, at, m, hash) && |at| < |s|
    ensures 0 <= e < |s| && s[e].None?
  {
    e := 0;
    while e < |s| && s[e].Some?
      invariant 0 <= e <= |s| && forall i :: 0 <= i < e ==> s[i].Some?
    {
      e := e + 1;
    }
    if e == |s| {
      KeysDiffer(s, at, m, hash, e);
    }
  }

  lemma {:induction false} EmptyTable<V>(s: Slots<V>, hash: string -> nat)
    requires |s| > 0 && forall i :: 0 <= i < |s| ==> s[i].None?
    ensures Table(s, map[], map[], hash)
  {
  }

  /** m' holds the entries of the first i slots of a table of m. */
  ghost predicate Rehashed<V>(at: map<string, int>, m: map<string, V>, i: int, m': map<string, V>)
    requires at.Keys == m.Keys
  {
    && (forall key {:trigger key in m'} :: key in m' <==> key in at && at[key] < i)
    && (forall key {:trigger m'[key]} :: key in m' ==> m'[key] == m[key])
  }

  lemma {:induction false} RehashStart<V>(s: Slots<V>, at: map<string, int>, m: map<string, V>, hash: string -> nat)
    requires Table(s, at, m, hash)
    ensures Rehashed(at, m, 0, map[])
  {
    forall key | key in at ensures at[key] >= 0 {
      assert Placed(s, at, m, hash, key);
    }
  }

  lemma {:induction false} RehashStep<V>(s: Slots<V>, at: map<string, int>, m: map<string, V>, hash: string -> nat,
                                         i: int, m': map<string, V>)
    requires Table(s, at, m, hash) && 0 <= i < |s| && Rehashed(at, m, i, m')
    ensures s[i].None? ==> Rehashed(at, m, i + 1, m')
    ensures s[i].Some? ==> s[i].value.key !in m' && Rehashed(at, m, i + 1, m'[s[i].value.key := s[i].value.value])
  {
    assert s[i].Some? ==> Placed(s, at, m, hash, s[i].value.key);
    forall key | key in at && at[key] == i ensures s[i].Some? && s[i].value.key == key {
      assert Placed(s, at, m, hash, key);
    }
  }

  lemma {:induction false} RehashDone<V>(s: Slots<V>, at: map<string, int>, m: map<string, V>, hash: string -> nat,
                                         m': map<string, V>)
    requires Table(s, at, m, hash) && Rehashed(at, m, |s|, m')
    ensures m' == m
  {
    forall key | key in at ensures at[key] < |s| {
      assert Placed(s, at, m, hash, key);
    }
  }

  class HashMap<V> {
    var contents: array<Option<Pair<V>>>
    var size: nat
    const hash: string -> nat
    ghost var at: map<string, int>
    ghost var model: map<string, V>

    ghost predicate Valid()
      reads this, contents
    {
      && contents.Length >= MAP_INIT_CAPACITY && Table(contents[..], at, model, hash)
      && size == |model| <= contents.Length / 2 + 1
    }

    constructor (hash: string -> nat)
      ensures Valid() && model == map[] && fresh(contents) && this.hash == hash
    {
      this.hash := hash;
      contents := new Option<Pair<V>>[MAP_INIT_CAPACITY](_ => None);
      size := 0;
      at, model := map[], map[];
      new;
      EmptyTable(contents[..], hash);
    }

    /** The first slot on the key's probe path that is empty or holds the key. */
    method Probe(table: array<Option<Pair<V>>>, key: string, ghost at: map<string, int>, ghost m: map<string,
                 V>) returns (h: nat)
      requires Table(table[..], at, m, hash) && |at| < table.Length
      ensures ProbeEnd(table[..], hash, key, h)
    {
      ghost var s := table[..];
      ghost var e := FreeSlot(s, at, m, hash);
      h := Start(hash, key, table.Length);
      ghost var a := h;
      while table[h].Some? && table[h].value.key != key
        invariant 0 <= h < table.Length && Passed(s, hash, key, h)
        invariant Dist(|s|, a, h) <= Dist(|s|, a, e)
        decreases Dist(|s|, a, e) - Dist(|s|, a, h)
      {
        assert s[h].Some? && s[e].None?;
        h := h + 1;
        if h == table.Length {
          h := 0;
        }
      }
    }

    method Get(key: string) returns (r: Option<V>)
      requires Valid()
      ensures r == if key in model then Some(model[key]) else None
    {
      var h := Probe(contents, key, at, model);
      PutCount(contents[..], at, model, hash, key, h);
      if key in at { assert Placed(contents[..], at, model, hash, key); }
      if contents[h].Some? {
        return Some(contents[h].value.value);
      }
      return None;
    }

    /** The first empty slot on the probe path of a key the table does not hold. */
    method ProbeEmpty(table: array<Option<Pair<V>>>, key: string, ghost at: map<string, int>, ghost m: map<string,
                      V>) returns (h: nat)
      requires Table(table[..], at, m, hash) && |at| < table.Length && key !in at
      ensures ProbeEnd(table[..], hash, key, h) && table[h].None?
    {
      ghost var s := table[..];
      ghost var e := FreeSlot(s, at, m, hash);
      h := Start(hash, key, table.Length);
      ghost var a := h;
      while table[h].Some?
        invariant 0 <= h < table.Length && Passed(s, hash, key, h)
        invariant Dist(|s|, a, h) <= Dist(|s|, a, e)
        decreases Dist(|s|, a, e) - Dist(|s|, a, h)
      {
        assert s[h].Some? && s[e].None?;
        h := h + 1;
        if h == table.Length {
          h := 0;
        }
      }
    }

    /** Moves every entry to a table of twice the capacity. */
    method Resize()
      requires Valid()
      modifies this
      ensures Valid() && model == old(model) && size == old(size)
      ensures fresh(contents) && contents.Length == 2 * old(contents.Length)
    {
      var temp := new Option<Pair<V>>[contents.Length * 2](_ => None);
      ghost var s, at', m' := contents[..], map[], map[];
      EmptyTable(temp[..], hash);
      RehashStart(s, at, model, hash);
      for i := 0 to contents.Length
        modifies temp
        invariant contents[..] == s && Table(temp[..], at', m', hash) && Rehashed(at, model, i, m')
      {
        RehashStep(s, at, model, hash, i, m');
        if contents[i].Some? {
          var entry := contents[i].value;
          SubsetSize(at'.Keys, at.Keys);
          var h := ProbeEmpty(temp, entry.key, at', m');
          PutKeeps(temp[..], at', m', hash, entry, h);
          temp[h] := Some(entry);
          at', m' := at'[entry.key := h], m'[entry.key := entry.value];
        }
      }
      RehashDone(s, at, model, hash, m');
      contents := temp;
      at := at';
    }

    method Put(key: string, value: V)
      requires Valid()
      modifies this, contents
      ensures Valid() && model == old(model)[key := value]
      ensures contents == old(contents) || fresh(contents)
    {
      if size > contents.Length / 2 {
        Resize();
      }
      var h := Probe(contents, key, at, model);
      PutKeeps(contents[..], at, model, hash, Pair(key, value), h);
      PutCount(contents[..], at, model, hash, key, h);
      ghost var s := contents[..];
      at, model := at[key := h], model[key := value];
      if contents[h].None? {
        size := size + 1;
      }
      contents[h] := Some(Pair(key, value));
      assert contents[..] == s[h := Some(Pair(key, value))];
    }

    method Size() returns (n: nat)
      requires Valid()
      ensures n == |model|
    {
      n := size;
    }
  }
}
