/** The prev/next ring of the buffer cache (bio.c) as pointer arrays.

Buffers are numbered 0 .. NBUF-1 and the list head is HEAD; `next` and `prev` are the pointer
fields.  `order` lists the buffers from most to least recently used. */
module BufferRing {
  import opened Options
  import opened Params
  import opened BufferCache

  /** The node at position i of the ring; the head is at both ends. */
  function At(order: seq<int>, i: int): int
    requires -1 <= i <= |order|
  {
    if i == -1 || i == |order| then HEAD else order[i]
  }

  ghost predicate Nodes(order: seq<int>) {
    && (forall i :: 0 <= i < |order| ==> 0 <= order[i] < NBUF)
    && (forall i, j :: 0 <= i < j < |order| ==> order[i] != order[j])
  }

  ghost predicate Ring(next: seq<int>, prev: seq<int>, order: seq<int>) {
    && |next| == |prev| == NBUF + 1 && Nodes(order)
    && (forall i {:trigger next[At(order, i)]} :: -1 <= i < |order| ==> next[At(order, i)] == At(order, i + 1))
    && (forall i {:trigger prev[At(order, i)]} :: 0 <= i <= |order| ==> prev[At(order, i)] == At(order, i - 1))
  }

  function InsertNext(next: seq<int>, b: int): seq<int>
    requires |next| == NBUF + 1 && 0 <= b < NBUF
  {
    next[b := next[HEAD]][HEAD := b]
  }

  function InsertPrev(next: seq<int>, prev: seq<int>, b: int): seq<int>
    requires |next| == |prev| == NBUF + 1 && 0 <= b < NBUF && 0 <= next[HEAD] <= NBUF
  {
    prev[b := HEAD][next[HEAD] := b]
  }

  lemma {:induction false} AtDistinct(order: seq<int>, i: int, j: int)
    requires Nodes(order) && -1 <= i <= |order| && -1 <= j <= |order|
    ensures 0 <= At(order, i) <= NBUF
    ensures At(order, i) == At(order, j) <==> i == j || (i in {-1, |order|} && j in {-1, |order|})
  {
  }

  lemma {:induction false} InsertAt(order: seq<int>, b: int, i: int)
    requires -1 <= i <= |order| + 1
    ensures At([b] + order, i) == if i == -1 then HEAD else if i == 0 then b else At(order, i - 1)
  {
  }

  /** binit's and brelse's insertion right after the head. */
  lemma {:induction false} InsertRing(next: seq<int>, prev: seq<int>, order: seq<int>, b: int)
    requires Ring(next, prev, order) && 0 <= b < NBUF && b !in order
    ensures 0 <= next[HEAD] <= NBUF
    ensures Ring(InsertNext(next, b), InsertPrev(next, prev, b), [b] + order)
  {
    assert next[At(order, -1)] == At(order, 0);
    AtDistinct(order, 0, 0);
    var n, p, o := InsertNext(next, b), InsertPrev(next, prev, b), [b] + order;
    forall i | -1 <= i < |o| ensures n[At(o, i)] == At(o, i + 1) {
      InsertAt(order, b, i);
      InsertAt(order, b, i + 1);
      if i >= 1 {
        AtDistinct(order, i - 1, -1);
        assert next[At(order, i - 1)] == At(order, i);
      }
    }
    forall i | 0 <= i <= |o| ensures p[At(o, i)] == At(o, i - 1) {
      InsertAt(order, b, i);
      InsertAt(order, b, i - 1);
      if i >= 1 {
        AtDistinct(order, i - 1, 0);
        assert prev[At(order, i - 1)] == At(order, i - 2) || i == 1;
      }
    }
  }

  function RemoveNext(next: seq<int>, prev: seq<int>, b: int): seq<int>
    requires |next| == |prev| == NBUF + 1 && 0 <= b < NBUF && 0 <= prev[b] <= NBUF
  {
    next[prev[b] := next[b]]
  }

  function RemovePrev(next: seq<int>, prev: seq<int>, b: int): seq<int>
    requires |next| == |prev| == NBUF + 1 && 0 <= b < NBUF && 0 <= next[b] <= NBUF
  {
    prev[next[b] := prev[b]]
  }

  lemma {:induction false} RemoveAt(order: seq<int>, k: nat, i: int)
    requires k < |order| && -1 <= i <= |order| - 1
    ensures At(order[..k] + order[k + 1..], i) == if i < k then At(order, i) else At(order, i + 1)
  {
  }

  lemma {:induction false} RemoveLinks(next: seq<int>, prev: seq<int>, order: seq<int>, k: nat)
    requires Ring(next, prev, order) && k < |order|
    ensures next[order[k]] == At(order, k + 1) && prev[order[k]] == At(order, k - 1)
    ensures 0 <= next[order[k]] <= NBUF && 0 <= prev[order[k]] <= NBUF
  {
    assert order[k] == At(order, k) && next[At(order, k)] == At(order, k + 1) && prev[At(order, k)] == At(order, k - 1);
    AtDistinct(order, k - 1, k + 1);
    AtDistinct(order, k + 1, k);
  }

  lemma {:induction false} RemoveRingNext(next: seq<int>, prev: seq<int>, order: seq<int>, k: nat, i: int)
    requires Ring(next, prev, order) && k < |order| && 0 <= prev[order[k]] <= NBUF && -1 <= i < |order| - 1
    ensures var o := order[..k] + order[k + 1..];
            0 <= At(o, i) <= NBUF && RemoveNext(next, prev, order[k])[At(o, i)] == At(o, i + 1)
  {
    RemoveLinks(next, prev, order, k);
    RemoveAt(order, k, i);
    RemoveAt(order, k, i + 1);
    var j := if i < k then i else i + 1;
    AtDistinct(order, j, k - 1);
    assert next[At(order, j)] == At(order, j + 1);
  }

  lemma {:induction false} RemoveRingPrev(next: seq<int>, prev: seq<int>, order: seq<int>, k: nat, i: int)
    requires Ring(next, prev, order) && k < |order| && 0 <= next[order[k]] <= NBUF && 0 <= i <= |order| - 1
    ensures var o := order[..k] + order[k + 1..];
            0 <= At(o, i) <= NBUF && RemovePrev(next, prev, order[k])[At(o, i)] == At(o, i - 1)
  {
    RemoveLinks(next, prev, order, k);
    RemoveAt(order, k, i);
    RemoveAt(order, k, i - 1);
    var j := if i < k then i else i + 1;
    AtDistinct(order, j, k + 1);
    assert prev[At(order, j)] == At(order, j - 1);
  }

  /** brelse's unlinking of the buffer at position k. */
  lemma {:induction false} RemoveRing(next: seq<int>, prev: seq<int>, order: seq<int>, k: nat)
    requires Ring(next, prev, order) && k < |order|
    ensures 0 <= next[order[k]] <= NBUF && 0 <= prev[order[k]] <= NBUF
    ensures Ring(RemoveNext(next, prev, order[k]), RemovePrev(next, prev, order[k]), order[..k] + order[k + 1..])
    ensures order[k] !in order[..k] + order[k + 1..]
  {
    RemoveLinks(next, prev, order, k);
    var n, p, o := RemoveNext(next, prev, order[k]), RemovePrev(next, prev, order[k]), order[..k] + order[k + 1..];
    forall i | -1 <= i < |o| ensures n[At(o, i)] == At(o, i + 1) {
      RemoveRingNext(next, prev, order, k, i);
    }
    forall i | 0 <= i <= |o| ensures p[At(o, i)] == At(o, i - 1) {
      RemoveRingPrev(next, prev, order, k, i);
    }
  }

  /** Moving to the front, by unlinking and relinking, is what brelse does. */
  lemma {:induction false} MoveRing(next: seq<int>, prev: seq<int>, order: seq<int>, k: nat)
    requires Ring(next, prev, order) && k < |order|
    ensures var b := order[k];
            && 0 <= next[b] <= NBUF && 0 <= prev[b] <= NBUF
            && var n, p := RemoveNext(next, prev, b), RemovePrev(next, prev, b);
            && 0 <= n[HEAD] <= NBUF
            && Ring(InsertNext(n, b), InsertPrev(n, p, b), ToFront(order, b))
  {
    RemoveRing(next, prev, order, k);
    var b := order[k];
    InsertRing(RemoveNext(next, prev, b), RemovePrev(next, prev, b), order[..k] + order[k + 1..], b);
    assert [b] + (order[..k] + order[k + 1..]) == [b] + order[..k] + order[k + 1..];
  }

  class Bcache {
    var bufs: seq<Buf>
    var next: seq<int>
    var prev: seq<int>
    var disk: map<Key, Data>
    ghost var order: seq<int>

    ghost function Abs(): Cache
      reads this
    {
      Cache(bufs, order, disk)
    }

    ghost predicate Valid()
      reads this
    {
      Ring(next, prev, order) && Inv(Abs())
    }

    /** binit: every buffer empty, linked one after the other behind the head. */
    constructor (disk: map<Key, Data>)
      ensures Valid() && this.disk == disk
      ensures forall b :: 0 <= b < NBUF ==> bufs[b] == Buf(Key(0, 0), false, false, 0, false, [])
    {
      this.disk := disk;
      bufs := seq(NBUF, _ => Buf(Key(0, 0), false, false, 0, false, []));
      var next := seq(NBUF + 1, _ => HEAD);
      var prev := seq(NBUF + 1, _ => HEAD);
      ghost var order: seq<int> := [];
      var b := 0;
      while b < NBUF
        invariant b <= NBUF && |order| == b && Ring(next, prev, order)
        invariant forall x :: 0 <= x < b <==> x in order
      {
        InsertRing(next, prev, order, b);
        next, prev := InsertNext(next, b), InsertPrev(next, prev, b);
        order := [b] + order;
        b := b + 1;
      }
      this.next, this.prev, this.order := next, prev, order;
    }

    /** bget's first scan, from the most recently used buffer. */
    method FindCached(key: Key) returns (b: int)
      requires Valid()
      ensures b == HEAD ==> !Cached(Abs(), key)
      ensures b != HEAD ==> 0 <= b < NBUF && bufs[b].key == key
    {
      ghost var i := 0;
      assert next[At(order, -1)] == At(order, 0);
      b := next[HEAD];
      while b != HEAD && bufs[b].key != key
        invariant 0 <= i <= |order| && b == At(order, i)
        invariant forall j :: 0 <= j < i ==> bufs[order[j]].key != key
        decreases |order| - i
      {
        assert next[At(order, i)] == At(order, i + 1);
        b := next[b];
        i := i + 1;
      }
      if b == HEAD {
        forall x | 0 <= x < NBUF ensures bufs[x].key != key {
          assert x in order;
        }
      }
    }

    /** bget's second scan, from the least recently used buffer. */
    method FindVictim() returns (b: int)
      requires Valid()
      ensures b == HEAD ==> forall x :: 0 <= x < NBUF ==> !Recyclable(bufs[x])
      ensures b != HEAD ==> 0 <= b < NBUF && LeastRecent(Abs(), b)
    {
      ghost var i := |order| - 1;
      assert prev[At(order, |order|)] == At(order, |order| - 1);
      b := prev[HEAD];
      while b != HEAD && !(bufs[b].refcnt == 0 && !bufs[b].dirty)
        invariant -1 <= i < |order| && b == At(order, i)
        invariant forall j :: i < j < |order| ==> !Recyclable(bufs[order[j]])
        decreases i
      {
        assert prev[At(order, i)] == At(order, i - 1);
        b := prev[b];
        i := i - 1;
      }
      if b == HEAD {
        forall x | 0 <= x < NBUF ensures !Recyclable(bufs[x]) {
          assert x in order;
        }
      } else {
        assert order[i] == b;
      }
    }

    /** bget up to its acquiresleep; None is its panic. */
    method Bget(key: Key) returns (r: Option<int>)
      requires Valid() && key.dev != 0 && key in disk
      modifies this
      ensures Valid()
      ensures r.None? ==> Abs() == old(Abs()) && !Cached(Abs(), key) && forall x :: 0 <= x < NBUF ==> !Recyclable(bufs[x])
      ensures r.Some? ==> Enabled(old(Abs()), Get(key, r.value)) && Abs() == Next(old(Abs()), Get(key, r.value))
      ensures r.Some? ==>
                && 0 <= r.value < NBUF && disk == old(disk) && order == old(order)
                && var x := old(bufs)[r.value];
                && (x.key == key || (x.refcnt == 0 && !x.dirty && !Cached(old(Abs()), key)))
                && bufs == old(bufs)[r.value := if x.key == key then x.(refcnt := x.refcnt + 1)
                                                else Buf(key, false, false, 1, x.locked, x.data)]
    {
      ghost var c := Abs();
      var b := FindCached(key);
      if b != HEAD {
        bufs := bufs[b := bufs[b].(refcnt := bufs[b].refcnt + 1)];
      } else {
        b := FindVictim();
        if b == HEAD {
          return None;
        }
        bufs := bufs[b := bufs[b].(key := key, valid := false, dirty := false, refcnt := 1)];
      }
      StepKeepsInv(c, Get(key, b));
      r := Some(b);
    }

    /** The rest of bread, once the buffer's lock is free: read the disk if needed. */
    method Bread(b: int)
      requires Valid() && Enabled(Abs(), Fill(b))
      modifies this
      ensures Valid() && Abs() == Next(old(Abs()), Fill(b))
      ensures bufs[b].data == View(old(Abs()), old(bufs)[b].key)
      ensures disk == old(disk) && order == old(order)
      ensures var x := old(bufs)[b];
              bufs == old(bufs)[b := Buf(x.key, true, x.dirty, x.refcnt, true, if x.valid then x.data else disk[x.key])]
    {
      ghost var c := Abs();
      bufs := bufs[b := bufs[b].(locked := true)];
      if !bufs[b].valid {
        bufs := bufs[b := bufs[b].(valid := true, data := disk[bufs[b].key])];
      }
      StepKeepsInv(c, Fill(b));
      assert BufOk(c, c.bufs[b]);
      StepKeepsView(c, Fill(b), c.bufs[b].key);
      ViewOfBuf(Abs(), b);
    }

    /** bwrite of a locked buffer. */
    method Bwrite(b: int)
      requires Valid() && Enabled(Abs(), Write(b))
      modifies this
      ensures Valid() && Abs() == Next(old(Abs()), Write(b))
      ensures disk == old(disk)[old(bufs)[b].key := old(bufs)[b].data] && order == old(order)
      ensures bufs == old(bufs)[b := old(bufs)[b].(dirty := false)]
    {
      ghost var c := Abs();
      disk := disk[bufs[b].key := bufs[b].data];
      bufs := bufs[b := bufs[b].(dirty := false)];
      StepKeepsInv(c, Write(b));
    }

    /** brelse: give up the lock and, with the last reference, move to the front. */
    method Brelse(b: int)
      requires Valid() && Enabled(Abs(), Release(b))
      modifies this
      ensures Valid() && Abs() == Next(old(Abs()), Release(b))
      ensures bufs == old(bufs)[b := old(bufs)[b].(locked := false, refcnt := old(bufs)[b].refcnt - 1)]
      ensures disk == old(disk)
      ensures old(bufs)[b].refcnt > 1 ==> order == old(order)
      ensures old(bufs)[b].refcnt == 1 ==>
                exists k :: 0 <= k < |old(order)| && old(order)[k] == b && order == [b] + old(order)[..k] + old(order)[k + 1..]
    {
      ghost var c := Abs();
      bufs := bufs[b := bufs[b].(locked := false, refcnt := bufs[b].refcnt - 1)];
      assert b in order;
      if bufs[b].refcnt == 0 {
        ghost var k :| 0 <= k < |order| && order[k] == b;
        MoveRing(next, prev, order, k);
        next, prev := RemoveNext(next, prev, b), RemovePrev(next, prev, b);
        next, prev := InsertNext(next, b), InsertPrev(next, prev, b);
        order := ToFront(order, b);
      }
      StepKeepsInv(c, Release(b));
    }
  }
}
