/** malloc, free and morecore (umalloc.c) over headers in memory. */
module Heap {
  import opened Options
  import opened Params
  import opened HeapBlocks

  const UNIT: nat := 8            // sizeof(Header)
  const MIN_CORE: nat := 4096     // morecore's least request, in units

  // ---- memory updates -------------------------------------------------------------------

  /** free's writes once it has found p, the free block (or base) before bp. */
  function FreeMem(mem: map<int, Header>, p: int, bp: int): map<int, Header>
    requires p in mem && bp in mem && mem[p].ptr in mem && p != bp
  {
    var next, n := mem[p].ptr, mem[bp].size;
    var h := if bp + n == next then Header(mem[next].ptr, n + mem[next].size) else Header(next, n);
    var m := mem[bp := h];
    if p + m[p].size == bp then m[p := Header(h.ptr, m[p].size + h.size)] else m[p := Header(bp, m[p].size)]
  }

  /** Nodes of an ordered free list have different addresses. */
  lemma {:induction false} NodesDiffer(bs: seq<Blk>, i: int, j: int)
    requires Gapped(bs) && -1 <= i < |bs| && -1 <= j < |bs| && i != j
    ensures Node(bs, i) != Node(bs, j)
  {
  }

  lemma {:induction false} LinkedNode(mem: map<int, Header>, bs: seq<Blk>, i: int)
    requires Linked(mem, bs) && -1 <= i < |bs|
    ensures Node(bs, i) in mem && mem[Node(bs, i)] == Header(NodeAfter(bs, i), if i == -1 then 0 else bs[i].size)
    ensures NodeAfter(bs, i) in mem
  {
    var next := if i + 1 == |bs| then -1 else i + 1;
    assert NodeLinked(mem, bs, i) && NodeLinked(mem, bs, next);
    assert Node(bs, next) == NodeAfter(bs, i);
  }

  ghost predicate CanFree(mem: map<int, Header>, bs: seq<Blk>, k: int, b: Blk) {
    && Linked(mem, bs) && Gapped(bs) && Apart(bs, b) && Splits(bs, k, b)
    && b.addr in mem && mem[b.addr].size == b.size
  }

  /** What free's writes leave: p's header, b's header, everything else untouched. */
  lemma {:induction false} FreeMemAt(mem: map<int, Header>, bs: seq<Blk>, k: int, b: Blk, a: int)
    requires CanFree(mem, bs, k, b)
    ensures var p := Node(bs, k - 1);
            && p in mem && mem[p].ptr in mem && p != b.addr
            && var r := FreeMem(mem, p, b.addr);
            && (a in mem && a != p && a != b.addr ==> a in r && r[a] == mem[a])
            && p in r && b.addr in r
            && var after := if k == |bs| then BASE else if TouchesRight(bs, k, b) then NodeAfter(bs, k) else bs[k].addr;
            && var n := b.size + if TouchesRight(bs, k, b) then bs[k].size else 0;
            && (TouchesLeft(bs, k, b) ==> r[p] == Header(after, bs[k - 1].size + n))
            && (!TouchesLeft(bs, k, b) ==> r[p] == Header(b.addr, mem[p].size) && r[b.addr] == Header(after, n))
  {
    LinkedNode(mem, bs, k - 1);
    if k < |bs| {
      LinkedNode(mem, bs, k);
    }
  }

  /** Where each node of the new list comes from. */
  lemma {:induction false} FreedNames(bs: seq<Blk>, k: int, b: Blk, i: int)
    requires 0 <= k <= |bs| && -1 <= i < |Freed(bs, k, b)|
    ensures var lo, hi, m, bs' := Lo(bs, k, b), Hi(bs, k, b), Merged(bs, k, b), Freed(bs, k, b);
            && Node(bs', i) == (if i < lo then Node(bs, i) else if i == lo then m.addr else Node(bs, i - lo - 1 + hi))
            && NodeAfter(bs', i) == (if i < lo - 1 then NodeAfter(bs, i) else if i == lo - 1 then m.addr
                                     else if i == lo then (if hi == |bs| then BASE else bs[hi].addr)
                                     else NodeAfter(bs, i - lo - 1 + hi))
            && (i >= 0 ==> bs'[i].size == if i < lo then bs[i].size else if i == lo then m.size else bs[i - lo - 1 + hi].size)
  {
    var lo, hi, m := Lo(bs, k, b), Hi(bs, k, b), Merged(bs, k, b);
    if i >= 0 { ReplacedAt(bs, lo, hi, m, i); }
    if i + 1 < |Freed(bs, k, b)| { ReplacedAt(bs, lo, hi, m, i + 1); }
  }

  /** A node other than p and b keeps its header. */
  lemma {:induction false} FreedOtherNode(mem: map<int, Header>, bs: seq<Blk>, k: int, b: Blk, j: int, r: map<int, Header>)
    requires CanFree(mem, bs, k, b) && -1 <= j < |bs| && j != k - 1
    requires Node(bs, k - 1) in mem && mem[Node(bs, k - 1)].ptr in mem && Node(bs, k - 1) != b.addr
    requires r == FreeMem(mem, Node(bs, k - 1), b.addr)
    ensures Node(bs, j) in r && r[Node(bs, j)] == Header(NodeAfter(bs, j), if j == -1 then 0 else bs[j].size)
  {
    SplitSides(bs, k, b);
    LinkedNode(mem, bs, j);
    NodesDiffer(bs, j, k - 1);
    FreeMemAt(mem, bs, k, b, Node(bs, j));
  }

  /** The nodes free rewrites: p, and b where it is not merged into p. */
  lemma {:induction false} FreedNewNode(mem: map<int, Header>, bs: seq<Blk>, k: int, b: Blk, i: int, r: map<int, Header>)
    requires CanFree(mem, bs, k, b) && -1 <= i < |Freed(bs, k, b)|
    requires Node(bs, k - 1) in mem && mem[Node(bs, k - 1)].ptr in mem && Node(bs, k - 1) != b.addr
    requires r == FreeMem(mem, Node(bs, k - 1), b.addr)
    requires i == k - 1 || i == Lo(bs, k, b)
    ensures NodeLinked(r, Freed(bs, k, b), i)
  {
    FreedNames(bs, k, b, i);
    FreeMemAt(mem, bs, k, b, 0);
    LinkedNode(mem, bs, k - 1);
  }

  lemma {:induction false} FreedNode(mem: map<int, Header>, bs: seq<Blk>, k: int, b: Blk, i: int, r: map<int, Header>)
    requires CanFree(mem, bs, k, b) && -1 <= i < |Freed(bs, k, b)|
    requires Node(bs, k - 1) in mem && mem[Node(bs, k - 1)].ptr in mem && Node(bs, k - 1) != b.addr
    requires r == FreeMem(mem, Node(bs, k - 1), b.addr)
    ensures NodeLinked(r, Freed(bs, k, b), i)
  {
    var lo, hi := Lo(bs, k, b), Hi(bs, k, b);
    if i == k - 1 || i == lo {
      FreedNewNode(mem, bs, k, b, i, r);
    } else {
      FreedNames(bs, k, b, i);
      FreedOtherNode(mem, bs, k, b, if i < lo then i else i - lo - 1 + hi, r);
    }
  }

  lemma {:induction false} FreedLinked(mem: map<int, Header>, bs: seq<Blk>, k: int, b: Blk)
    requires CanFree(mem, bs, k, b)
    ensures Node(bs, k - 1) in mem && mem[Node(bs, k - 1)].ptr in mem && Node(bs, k - 1) != b.addr
    ensures Linked(FreeMem(mem, Node(bs, k - 1), b.addr), Freed(bs, k, b))
  {
    FreeMemAt(mem, bs, k, b, 0);
    var r, bs' := FreeMem(mem, Node(bs, k - 1), b.addr), Freed(bs, k, b);
    forall i | -1 <= i < |bs'| ensures NodeLinked(r, bs', i) {
      FreedNode(mem, bs, k, b, i, r);
    }
  }

  /** malloc's writes: unlink an exact fit, or cut the tail off a larger block. */
  function TakeMem(mem: map<int, Header>, prevp: int, p: int, n: int): map<int, Header>
    requires prevp in mem && p in mem
  {
    if mem[p].size == n then mem[prevp := Header(mem[p].ptr, mem[prevp].size)]
    else
      var m := mem[p := Header(mem[p].ptr, mem[p].size - n)];
      m[p + mem[p].size - n := Header(BASE, n)]
  }

  lemma {:induction false} TakenWhole(mem: map<int, Header>, bs: seq<Blk>, j: int, i: int, r: map<int, Header>)
    requires Linked(mem, bs) && Gapped(bs) && 0 <= j < |bs| && -1 <= i < |bs| - 1
    requires Node(bs, j - 1) in mem && Node(bs, j) in mem
    requires r == mem[Node(bs, j - 1) := Header(mem[Node(bs, j)].ptr, mem[Node(bs, j - 1)].size)]
    ensures NodeLinked(r, bs[..j] + bs[j + 1..], i)
  {
    LinkedNode(mem, bs, j - 1);
    LinkedNode(mem, bs, j);
    var i' := if i < j then i else i + 1;
    LinkedNode(mem, bs, i');
    if i' != j - 1 { NodesDiffer(bs, i', j - 1); }
  }

  lemma {:induction false} TakenTail(mem: map<int, Header>, bs: seq<Blk>, j: int, n: int, i: int, r: map<int, Header>)
    requires Linked(mem, bs) && Gapped(bs) && 0 <= j < |bs| && 1 <= n < bs[j].size && -1 <= i < |bs|
    requires Node(bs, j) in mem && mem[Node(bs, j)].size == bs[j].size
    requires r == mem[Node(bs, j) := Header(mem[Node(bs, j)].ptr, bs[j].size - n)][End(bs[j]) - n := Header(BASE, n)]
    ensures NodeLinked(r, bs[j := Blk(bs[j].addr, bs[j].size - n)], i)
  {
    LinkedNode(mem, bs, i);
    LinkedNode(mem, bs, j);
    if i != j { NodesDiffer(bs, i, j); }
  }

  lemma {:induction false} TakenLinked(mem: map<int, Header>, bs: seq<Blk>, j: int, n: int)
    requires Linked(mem, bs) && Gapped(bs) && 0 <= j < |bs| && 1 <= n <= bs[j].size
    ensures Node(bs, j - 1) in mem && Node(bs, j) in mem
    ensures Linked(TakeMem(mem, Node(bs, j - 1), Node(bs, j), n), Taken(bs, j, n))
  {
    LinkedNode(mem, bs, j - 1);
    LinkedNode(mem, bs, j);
    var r, bs' := TakeMem(mem, Node(bs, j - 1), Node(bs, j), n), Taken(bs, j, n);
    forall i | -1 <= i < |bs'| ensures NodeLinked(r, bs', i) {
      if bs[j].size == n {
        TakenWhole(mem, bs, j, i, r);
      } else {
        TakenTail(mem, bs, j, n, i, r);
      }
    }
  }

  // ---- allocated blocks -----------------------------------------------------------------

  /** Allocated block a: its header is intact and no free block overlaps it. */
  ghost predicate Intact(mem: map<int, Header>, bs: seq<Blk>, alloc: map<int, int>, a: int)
    requires a in alloc
  {
    a in mem && mem[a].size == alloc[a] && Apart(bs, Blk(a, alloc[a]))
  }

  ghost predicate Allocated(mem: map<int, Header>, bs: seq<Blk>, alloc: map<int, int>) {
    && (forall a {:trigger Intact(mem, bs, alloc, a)} :: a in alloc ==> Intact(mem, bs, alloc, a))
    && Exclusive(alloc)
  }

  ghost predicate Exclusive(alloc: map<int, int>) {
    forall a, c {:trigger alloc[a], alloc[c]} ::
      a in alloc && c in alloc && a != c ==> Disjoint(Blk(a, alloc[a]), Blk(c, alloc[c]))
  }

  ghost predicate Held(alloc: map<int, int>, u: int) {
    exists a :: a in alloc && Covers(Blk(a, alloc[a]), u)
  }

  /** Free and allocated blocks together make up exactly the memory obtained from sbrk. */
  ghost predicate Tiles(bs: seq<Blk>, alloc: map<int, int>, arena: set<int>) {
    forall u {:trigger u in arena} :: u in arena <==> Covered(bs, u) || Held(alloc, u)
  }

  /** An allocated block other than the freed one survives free. */
  lemma {:induction false} FreedIntact(mem: map<int, Header>, bs: seq<Blk>, k: int, b: Blk,
                                       alloc: map<int, int>, a: int, r: map<int, Header>)
    requires CanFree(mem, bs, k, b) && a in alloc && Intact(mem, bs, alloc, a)
    requires Disjoint(b, Blk(a, alloc[a]))
    requires Node(bs, k - 1) in mem && mem[Node(bs, k - 1)].ptr in mem && Node(bs, k - 1) != b.addr
    requires r == FreeMem(mem, Node(bs, k - 1), b.addr)
    ensures Intact(r, Freed(bs, k, b), alloc, a)
  {
    FreeMemAt(mem, bs, k, b, a);
    FreedApart(bs, k, b, Blk(a, alloc[a]));
  }

  lemma {:induction false} FreedApart(bs: seq<Blk>, k: int, b: Blk, c: Blk)
    requires Gapped(bs) && Apart(bs, b) && Splits(bs, k, b) && Apart(bs, c) && Disjoint(b, c)
    ensures Apart(Freed(bs, k, b), c)
  {
    var lo, hi, m, r := Lo(bs, k, b), Hi(bs, k, b), Merged(bs, k, b), Freed(bs, k, b);
    forall i | 0 <= i < |r| ensures Disjoint(r[i], c) {
      ReplacedAt(bs, lo, hi, m, i);
    }
  }

  lemma {:induction false} FreedTiles(bs: seq<Blk>, k: int, b: Blk, alloc: map<int, int>, arena: set<int>)
    requires Gapped(bs) && Apart(bs, b) && Splits(bs, k, b) && Tiles(bs, alloc, arena)
    requires b.addr in alloc && alloc[b.addr] == b.size
    ensures Tiles(Freed(bs, k, b), alloc - {b.addr}, arena)
  {
    var bs', rest := Freed(bs, k, b), alloc - {b.addr};
    forall u ensures u in arena <==> Covered(bs', u) || Held(rest, u) {
      FreedCovers(bs, k, b, u);
      if a :| a in alloc && Covers(Blk(a, alloc[a]), u) {
        assert a == b.addr || (a in rest && Covers(Blk(a, rest[a]), u));
      }
      if a :| a in rest && Covers(Blk(a, rest[a]), u) {
        assert Covers(Blk(a, alloc[a]), u);
      }
    }
  }

  /** An allocated block survives malloc taking n units from free block j. */
  lemma {:induction false} TakenIntact(mem: map<int, Header>, bs: seq<Blk>, j: int, n: int,
                                       alloc: map<int, int>, a: int, r: map<int, Header>)
    requires Linked(mem, bs) && Gapped(bs) && 0 <= j < |bs| && 1 <= n <= bs[j].size
    requires a in alloc && Intact(mem, bs, alloc, a)
    requires Node(bs, j - 1) in mem && Node(bs, j) in mem
    requires r == TakeMem(mem, Node(bs, j - 1), Node(bs, j), n)
    ensures Intact(r, Taken(bs, j, n), alloc, a)
    ensures Disjoint(Blk(End(bs[j]) - n, n), Blk(a, alloc[a]))
  {
    LinkedNode(mem, bs, j);
    var bs', c := Taken(bs, j, n), Blk(a, alloc[a]);
    assert Disjoint(bs[j], c);
    if j > 0 { assert Disjoint(bs[j - 1], c); }
    forall i | 0 <= i < |bs'| ensures Disjoint(bs'[i], c) {
      if bs[j].size == n {
        assert bs'[i] == if i < j then bs[i] else bs[i + 1];
      }
    }
  }

  lemma {:induction false} TakenTiles(bs: seq<Blk>, j: int, n: int, alloc: map<int, int>, arena: set<int>)
    requires Gapped(bs) && 0 <= j < |bs| && 1 <= n <= bs[j].size && Tiles(bs, alloc, arena)
    requires End(bs[j]) - n !in alloc
    ensures Tiles(Taken(bs, j, n), alloc[End(bs[j]) - n := n], arena)
  {
    var bs', at := Taken(bs, j, n), End(bs[j]) - n;
    var more := alloc[at := n];
    forall u ensures u in arena <==> Covered(bs', u) || Held(more, u) {
      TakenCovers(bs, j, n, u);
      if a :| a in alloc && Covers(Blk(a, alloc[a]), u) {
        assert Covers(Blk(a, more[a]), u);
      }
      if a :| a in more && Covers(Blk(a, more[a]), u) {
        assert a == at || (a in alloc && Covers(Blk(a, alloc[a]), u));
      }
      if Covers(Blk(at, n), u) {
        assert at in more && Covers(Blk(at, more[at]), u);
      }
    }
  }

  // ---- what every call keeps ------------------------------------------------------------

  ghost predicate Ready(mem: map<int, Header>, bs: seq<Blk>, alloc: map<int, int>, arena: set<int>) {
    Linked(mem, bs) && Gapped(bs) && Allocated(mem, bs, alloc) && Tiles(bs, alloc, arena)
  }

  lemma {:induction false} FreedReady(mem: map<int, Header>, bs: seq<Blk>, k: int, b: Blk, alloc: map<int, int>,
                                      arena: set<int>)
    requires Ready(mem, bs, alloc, arena) && b.addr in alloc && alloc[b.addr] == b.size && Splits(bs, k, b)
    ensures CanFree(mem, bs, k, b)
    ensures Node(bs, k - 1) in mem && mem[Node(bs, k - 1)].ptr in mem && Node(bs, k - 1) != b.addr
    ensures Ready(FreeMem(mem, Node(bs, k - 1), b.addr), Freed(bs, k, b), alloc - {b.addr}, arena)
  {
    assert Intact(mem, bs, alloc, b.addr);
    FreedLinked(mem, bs, k, b);
    FreedGapped(bs, k, b);
    FreedTiles(bs, k, b, alloc, arena);
    var r, bs', rest := FreeMem(mem, Node(bs, k - 1), b.addr), Freed(bs, k, b), alloc - {b.addr};
    forall a | a in rest ensures Intact(r, bs', rest, a) {
      assert Intact(mem, bs, alloc, a);
      assert Disjoint(Blk(b.addr, alloc[b.addr]), Blk(a, alloc[a]));
      FreedIntact(mem, bs, k, b, alloc, a, r);
      assert Intact(r, bs', alloc, a);
    }
  }

  lemma {:induction false} TakenReady(mem: map<int, Header>, bs: seq<Blk>, j: int, n: int, alloc: map<int, int>,
                                      arena: set<int>)
    requires Ready(mem, bs, alloc, arena) && 0 <= j < |bs| && 1 <= n <= bs[j].size
    ensures Node(bs, j - 1) in mem && Node(bs, j) in mem && End(bs[j]) - n !in alloc
    ensures Ready(TakeMem(mem, Node(bs, j - 1), Node(bs, j), n), Taken(bs, j, n), alloc[End(bs[j]) - n := n], arena)
  {
    TakenLinked(mem, bs, j, n);
    TakenGapped(bs, j, n);
    LinkedNode(mem, bs, j);
    var r, bs', at := TakeMem(mem, Node(bs, j - 1), Node(bs, j), n), Taken(bs, j, n), End(bs[j]) - n;
    forall a | a in alloc ensures Intact(r, bs', alloc, a) && Disjoint(Blk(at, n), Blk(a, alloc[a])) && a != at {
      assert Intact(mem, bs, alloc, a);
      TakenIntact(mem, bs, j, n, alloc, a, r);
    }
    TakenTiles(bs, j, n, alloc, arena);
    var more := alloc[at := n];
    assert at in r && r[at].size == n by {
      LinkedNode(mem, bs, j - 1);
      if bs[j].size == n { NodesDiffer(bs, j, j - 1); }
    }
    forall a | a in more ensures Intact(r, bs', more, a) {
      assert a != at ==> Intact(r, bs', alloc, a);
    }
  }

  ghost function Region(a: int, n: nat): set<int> { set u | a <= u < a + n && Covers(Blk(a, n), u) }

  /** Memory sbrk may return: above the base and not yet part of the heap. */
  ghost predicate Fresh(arena: set<int>, a: int, n: nat) {
    a > BASE && arena !! Region(a, n)
  }

  lemma {:induction false} FreshApart(bs: seq<Blk>, alloc: map<int, int>, arena: set<int>, a: int, n: nat, b: Blk)
    requires Tiles(bs, alloc, arena) && Fresh(arena, a, n) && n >= 1 && b.size >= 1
    requires b in bs || (b.addr in alloc && alloc[b.addr] == b.size)
    ensures Disjoint(b, Blk(a, n))
  {
    var u := if a <= b.addr then b.addr else a;
    if Covers(b, u) {
      if b in bs {
        assert Covered(bs, u);
      } else {
        assert Covers(Blk(b.addr, alloc[b.addr]), u);
      }
      assert u in arena && u !in Region(a, n);
    }
  }

  /** The memory sbrk returns counts as one allocated block until it is freed into the list. */
  lemma {:induction false} GrownReady(mem: map<int, Header>, bs: seq<Blk>, alloc: map<int, int>, arena: set<int>,
                                      a: int, n: nat)
    requires Ready(mem, bs, alloc, arena) && Fresh(arena, a, n) && n >= 1
    ensures a !in alloc
    ensures Ready(mem[a := Header(BASE, n)], bs, alloc[a := n], arena + Region(a, n))
  {
    var r, more, arena' := mem[a := Header(BASE, n)], alloc[a := n], arena + Region(a, n);
    forall c | c in alloc ensures Disjoint(Blk(c, alloc[c]), Blk(a, n)) && c != a {
      assert Intact(mem, bs, alloc, c);
      FreshApart(bs, alloc, arena, a, n, Blk(c, alloc[c]));
    }
    forall i | 0 <= i < |bs| ensures Disjoint(bs[i], Blk(a, n)) {
      FreshApart(bs, alloc, arena, a, n, bs[i]);
    }
    forall i | -1 <= i < |bs| ensures NodeLinked(r, bs, i) {
      assert NodeLinked(mem, bs, i);
    }
    forall c | c in more ensures Intact(r, bs, more, c) {
      assert c != a ==> Intact(mem, bs, alloc, c);
    }
    forall u ensures u in arena' <==> Covered(bs, u) || Held(more, u) {
      GrownHeld(alloc, a, n, u);
      assert u in arena <==> Covered(bs, u) || Held(alloc, u);
    }
  }

  lemma {:induction false} GrownHeld(alloc: map<int, int>, a: int, n: nat, u: int)
    requires a !in alloc
    ensures Held(alloc[a := n], u) <==> Held(alloc, u) || u in Region(a, n)
  {
    var more := alloc[a := n];
    if c :| c in alloc && Covers(Blk(c, alloc[c]), u) {
      assert c in more && Covers(Blk(c, more[c]), u);
    }
    if u in Region(a, n) {
      assert a in more && Covers(Blk(a, more[a]), u);
    }
    if c :| c in more && Covers(Blk(c, more[c]), u) {
      assert c == a || (c in alloc && Covers(Blk(c, alloc[c]), u));
    }
  }

  lemma {:induction false} FirstReady(mem: map<int, Header>)
    requires BASE in mem && mem[BASE] == Header(BASE, 0)
    ensures Ready(mem, [], map[], {})
  {
    assert NodeLinked(mem, [], -1);
  }

  // ---- walking the cycle ----------------------------------------------------------------

  function Next(bs: seq<Blk>, i: int): int { if i + 1 == |bs| then -1 else i + 1 }

  /** Steps from node s to node i along the cycle, 1 to |bs| + 1. */
  function Dist(bs: seq<Blk>, s: int, i: int): int { if i > s then i - s else i - s + |bs| + 1 }

  function SizeAt(bs: seq<Blk>, i: int): int
    requires -1 <= i < |bs|
  {
    if i == -1 then 0 else bs[i].size
  }

  /** Block j is the first one with n units on the walk from node s. */
  ghost predicate NextFit(bs: seq<Blk>, s: int, j: int, n: int) {
    && 0 <= j < |bs| && bs[j].size >= n
    && TooSmall(bs, s, j, n)
  }

  /** Every node passed on the walk from s to j has fewer than n units. */
  ghost predicate TooSmall(bs: seq<Blk>, s: int, j: int, n: int) {
    forall i {:trigger SizeAt(bs, i)} :: -1 <= i < |bs| && Dist(bs, s, i) < Dist(bs, s, j) ==> SizeAt(bs, i) < n
  }

  ghost predicate Fits(bs: seq<Blk>, n: int) {
    exists i :: 0 <= i < |bs| && bs[i].size >= n
  }

  lemma {:induction false} FreedFits(bs: seq<Blk>, k: int, b: Blk, n: int)
    requires Gapped(bs) && 0 <= k <= |bs| && n <= b.size
    ensures Fits(Freed(bs, k, b), n)
  {
    var lo, hi, m := Lo(bs, k, b), Hi(bs, k, b), Merged(bs, k, b);
    ReplacedAt(bs, lo, hi, m, lo);
    assert Freed(bs, k, b)[lo] == m;
  }

  lemma {:induction false} TooSmallStep(bs: seq<Blk>, s: int, j: int, n: int)
    requires -1 <= s < |bs| && -1 <= j < |bs| && TooSmall(bs, s, j, n) && SizeAt(bs, j) < n
    ensures j == s ==> !Fits(bs, n)
    ensures j != s ==> TooSmall(bs, s, Next(bs, j), n) && Dist(bs, s, Next(bs, j)) == Dist(bs, s, j) + 1
  {
    if j == s {
      forall i | 0 <= i < |bs| ensures bs[i].size < n {
        assert SizeAt(bs, i) < n;
      }
    }
  }

  function Prev(bs: seq<Blk>, i: int): int { if i == -1 then |bs| - 1 else i - 1 }

  /** malloc's walk from node s has reached node j at p, one step past prevp, without finding n units. */
  ghost predicate Walking(bs: seq<Blk>, s: int, j: int, n: int, prevp: int, p: int) {
    -1 <= j < |bs| && p == Node(bs, j) && prevp == Node(bs, Prev(bs, j)) && TooSmall(bs, s, j, n)
  }

  lemma {:induction false} WalkStart(mem: map<int, Header>, bs: seq<Blk>, s: int, n: int)
    requires Linked(mem, bs) && -1 <= s < |bs|
    ensures Node(bs, s) in mem && Walking(bs, s, Next(bs, s), n, Node(bs, s), mem[Node(bs, s)].ptr)
  {
    LinkedNode(mem, bs, s);
  }

  lemma {:induction false} WalkStep(mem: map<int, Header>, bs: seq<Blk>, s: int, j: int, n: int, prevp: int, p: int)
    requires Linked(mem, bs) && Gapped(bs) && -1 <= s < |bs| && Walking(bs, s, j, n, prevp, p)
    ensures p in mem && mem[p].size == SizeAt(bs, j)
    ensures mem[p].size < n && p == Node(bs, s) ==> !Fits(bs, n)
    ensures mem[p].size < n && p != Node(bs, s) ==>
              && Walking(bs, s, Next(bs, j), n, p, mem[p].ptr)
              && Dist(bs, s, Next(bs, j)) == Dist(bs, s, j) + 1
  {
    LinkedNode(mem, bs, j);
    if j != s { NodesDiffer(bs, j, s); }
    if SizeAt(bs, j) < n { TooSmallStep(bs, s, j, n); }
  }

  /** Where a block belongs in an ordered list. */
  lemma {:induction false} SplitPoint(bs: seq<Blk>, b: Blk) returns (k: int)
    requires Gapped(bs) && Apart(bs, b)
    ensures Splits(bs, k, b)
  {
    k := 0;
    while k < |bs| && bs[k].addr < b.addr
      invariant 0 <= k <= |bs| && forall i :: 0 <= i < k ==> bs[i].addr < b.addr
    {
      k := k + 1;
    }
    if k < |bs| {
      assert Disjoint(bs[k], b);
    }
  }

  /** free's walk stops exactly at the node before b's place. */
  lemma {:induction false} StopsAt(mem: map<int, Header>, bs: seq<Blk>, k: int, b: Blk, i: int)
    requires CanFree(mem, bs, k, b) && -1 <= i < |bs|
    ensures Node(bs, i) in mem
    ensures var p, next := Node(bs, i), mem[Node(bs, i)].ptr;
            (p < b.addr < next || (p >= next && (b.addr > p || b.addr < next))) <==> i == k - 1
  {
    LinkedNode(mem, bs, i);
    SplitSides(bs, k, b);
  }

  function Units(nbytes: nat): nat { (nbytes + UNIT - 1) % UINT_LIMIT / UNIT + 1 }

  function CoreUnits(n: nat): nat { if n < MIN_CORE then MIN_CORE else n }

  /** The units malloc looks for hold the bytes asked for and less than a unit more, unless rounding up
      wrapped around. */
  lemma {:induction false} UnitsHoldRequest(nbytes: nat)
    requires nbytes < UINT_LIMIT
    ensures nbytes <= (Units(nbytes) - 1) * UNIT <==> nbytes <= UINT_LIMIT - UNIT
    ensures nbytes <= UINT_LIMIT - UNIT ==> (Units(nbytes) - 1) * UNIT < nbytes + UNIT
  {
  }

  // ---- what sbrk is asked for -----------------------------------------------------------

  /** The bytes morecore passes to sbrk: an unsigned product read as an int. */
  function Asked(n: nat): int {
    var bytes := CoreUnits(n) * UNIT % UINT_LIMIT;
    if bytes <= INT_MAX then bytes else bytes - UINT_LIMIT
  }

  /** The units the process has once sbrk(bytes) has returned a, the end of its memory until then.
      A negative request gives memory back, unless it is for more than there is. */
  ghost function Resized(backed: set<int>, a: int, bytes: int): set<int> {
    if bytes >= 0 then backed + Region(a, bytes / UNIT)
    else if a * UNIT + bytes < 0 then backed
    else set u | u in backed && u < a + bytes / UNIT
  }

  /** Which requests make morecore ask for memory, for none at all, or give memory back. */
  lemma {:induction false} AskedFor(nbytes: nat)
    requires nbytes < UINT_LIMIT
    ensures Asked(Units(nbytes)) > 0 <==> nbytes <= 0x7fff_fff0 || nbytes > UINT_LIMIT - UNIT
    ensures Asked(Units(nbytes)) == 0 <==> UINT_LIMIT - 15 <= nbytes <= UINT_LIMIT - UNIT
    ensures CoreUnits(Units(nbytes)) * UNIT <= INT_MAX <==> Asked(Units(nbytes)) > 0
    ensures Asked(Units(nbytes)) > 0 ==> Asked(Units(nbytes)) == CoreUnits(Units(nbytes)) * UNIT
  {
  }

  /** malloc(2^32 - 8) looks for 2^29 units and asks sbrk for no bytes; malloc(2^31) gives memory back. */
  lemma {:induction false} AskedForNothing()
    ensures Units(0xffff_fff8) == 0x2000_0000 && Asked(0x2000_0000) == 0
    ensures Asked(Units(0x8000_0000)) == -0x7fff_fff8
  {
  }

  /** sbrk backs all the units morecore frees into the list, or not the last of them. */
  lemma {:induction false} ResizedBacks(backed: set<int>, arena: set<int>, a: int, n: nat)
    requires arena <= backed && (forall u :: u in backed ==> u < a)
    requires CoreUnits(n) * UNIT <= INT_MAX || Asked(n) <= 0
    ensures CoreUnits(n) * UNIT <= INT_MAX ==> arena + Region(a, CoreUnits(n)) <= Resized(backed, a, Asked(n))
    ensures CoreUnits(n) * UNIT > INT_MAX ==> forall u :: u in Resized(backed, a, Asked(n)) ==> u < a
  {
  }

  /** Every block with n units reaches at least to e. */
  ghost predicate FitsEnd(bs: seq<Blk>, n: int, e: int) {
    forall i :: 0 <= i < |bs| && bs[i].size >= n ==> End(bs[i]) >= e
  }

  /** Where nothing fitted before, what fits after freeing b reaches to the end of b. */
  lemma {:induction false} FreedFitsEnd(bs: seq<Blk>, k: int, b: Blk, n: int)
    requires Gapped(bs) && 0 <= k <= |bs| && !Fits(bs, n)
    ensures FitsEnd(Freed(bs, k, b), n, End(b))
  {
    var lo, hi, m, r := Lo(bs, k, b), Hi(bs, k, b), Merged(bs, k, b), Freed(bs, k, b);
    forall i | 0 <= i < |r| && r[i].size >= n ensures End(r[i]) >= End(b) {
      ReplacedAt(bs, lo, hi, m, i);
      assert i == lo;
    }
  }

  /** A block of n units that are all memory of the process and hold nbytes after the header. */
  ghost predicate Usable(backed: set<int>, at: int, n: nat, nbytes: nat) {
    nbytes <= (n - 1) * UNIT && Region(at, n) <= backed
  }

  lemma {:induction false} HeldBacked(bs: seq<Blk>, alloc: map<int, int>, arena: set<int>, backed: set<int>, at: int)
    requires Tiles(bs, alloc, arena) && at in alloc && alloc[at] >= 0
    ensures Region(at, alloc[at]) <= arena
    ensures arena <= backed ==> Region(at, alloc[at]) <= backed
  {
    forall u | u in Region(at, alloc[at]) ensures u in arena {
      assert Covers(Blk(at, alloc[at]), u);
    }
  }

  /** A request is met from the list, or by a call of sbrk that asks for all of it. */
  predicate Obtains(fits: bool, nbytes: nat) { fits || CoreUnits(Units(nbytes)) * UNIT <= INT_MAX }

  lemma {:induction false} UsableIff(bs: seq<Blk>, alloc: map<int, int>, arena: set<int>, backed: set<int>, at: int,
                                     nbytes: nat, fits: bool, arena0: set<int>, backed0: set<int>, a: int)
    requires nbytes < UINT_LIMIT && Tiles(bs, alloc, arena) && at in alloc && alloc[at] == Units(nbytes)
    requires arena0 <= backed0
    requires fits ==> arena == arena0 && backed == backed0
    requires !fits ==> (forall u :: u in backed0 ==> u < a) && at + Units(nbytes) >= a + CoreUnits(Units(nbytes))
    requires !fits ==> arena == arena0 + Region(a, CoreUnits(Units(nbytes)))
    requires !fits ==> backed == Resized(backed0, a, Asked(Units(nbytes)))
    ensures Usable(backed, at, Units(nbytes), nbytes) <==> nbytes <= UINT_LIMIT - UNIT && Obtains(fits, nbytes)
    ensures arena <= backed <==> Obtains(fits, nbytes)
  {
    var n := Units(nbytes);
    UnitsHoldRequest(nbytes);
    AskedFor(nbytes);
    HeldBacked(bs, alloc, arena, backed, at);
    if !fits {
      ResizedBacks(backed0, arena0, a, n);
      assert at + n - 1 in Region(at, n);
    }
  }

  class Heap {
    var mem: map<int, Header>
    var freep: Option<int>
    ghost var bs: seq<Blk>            // the free list
    ghost var cur: int                // freep is node cur
    ghost var alloc: map<int, int>    // allocated blocks: header address to size
    ghost var arena: set<int>         // units the allocator takes to be its own
    ghost var backed: set<int>        // units sbrk has really added to the process

    ghost predicate Valid()
      reads this
    {
      match freep
      case None => bs == [] && alloc == map[] && arena == {}
      case Some(p) => -1 <= cur < |bs| && p == Node(bs, cur) && Ready(mem, bs, alloc, arena)
    }

    /** All the allocator's memory exists. */
    ghost predicate Sound()
      reads this
    {
      Valid() && arena <= backed
    }

    /** sbrk returns the end of the process's memory. */
    ghost predicate Break(core: Option<int>)
      reads this
    {
      core.Some? ==> core.value > BASE && forall u :: u in backed ==> u < core.value
    }

    constructor ()
      ensures Sound() && alloc == map[] && arena == {} && backed == {}
    {
      mem, freep := map[], None;
      bs, cur, alloc, arena, backed := [], -1, map[], {}, {};
    }

    /** The node after which bp belongs. */
    method FindPrev(bp: int, ghost k: int) returns (p: int)
      requires Valid() && freep.Some? && bp in alloc && Splits(bs, k, Blk(bp, alloc[bp]))
      ensures p == Node(bs, k - 1)
    {
      ghost var b := Blk(bp, alloc[bp]);
      FreedReady(mem, bs, k, b, alloc, arena);
      ghost var i := cur;
      p := freep.value;
      StopsAt(mem, bs, k, b, i);
      while !(p < bp < mem[p].ptr)
        invariant -1 <= i < |bs| && p == Node(bs, i) && p in mem
        invariant p < bp < mem[p].ptr ==> i == k - 1
        decreases if i <= k - 1 then k - 1 - i else k - i + |bs|
      {
        StopsAt(mem, bs, k, b, i);
        if p >= mem[p].ptr && (bp > p || bp < mem[p].ptr) {
          break;
        }
        LinkedNode(mem, bs, i);
        p := mem[p].ptr;
        i := Next(bs, i);
        StopsAt(mem, bs, k, b, i);
      }
    }

    /** Links bp in after p, merging it with both neighbours where they touch. */
    method Insert(p: int, bp: int)
      requires p in mem && bp in mem && mem[p].ptr in mem && p != bp
      modifies `mem
      ensures mem == FreeMem(old(mem), p, bp)
    {
      var next := mem[p].ptr;
      if bp + mem[bp].size == next {
        mem := mem[bp := Header(mem[next].ptr, mem[bp].size + mem[next].size)];
      } else {
        mem := mem[bp := Header(next, mem[bp].size)];
      }
      if p + mem[p].size == bp {
        mem := mem[p := Header(mem[bp].ptr, mem[p].size + mem[bp].size)];
      } else {
        mem := mem[p := Header(bp, mem[p].size)];
      }
    }

    /** Returns a block to the free list, merged with the free blocks it touches. */
    method Free(ap: int) returns (ghost k: int)
      requires Valid() && ap - 1 in alloc
      modifies this
      ensures Valid() && freep.Some?
      ensures alloc == old(alloc) - {ap - 1} && arena == old(arena) && backed == old(backed)
      ensures Splits(old(bs), k, Blk(ap - 1, old(alloc)[ap - 1]))
      ensures bs == Freed(old(bs), k, Blk(ap - 1, old(alloc)[ap - 1])) && cur == k - 1
    {
      var bp := ap - 1;
      ghost var b := Blk(bp, alloc[bp]);
      assert Intact(mem, bs, alloc, bp);
      k := SplitPoint(bs, b);
      FreedReady(mem, bs, k, b, alloc, arena);
      var p := FindPrev(bp, k);
      Insert(p, bp);
      freep := Some(p);
      FreedNames(bs, k, b, k - 1);
      bs, alloc, cur := Freed(bs, k, b), alloc - {bp}, k - 1;
    }

    /** Asks sbrk for at least MIN_CORE units (core is its answer) and frees them into the list. */
    method Morecore(n: nat, core: Option<int>) returns (q: Option<int>)
      requires Sound() && freep.Some? && n >= 1 && Break(core)
      modifies this
      ensures Valid() && freep.Some? && alloc == old(alloc)
      ensures core.None? ==> q.None? && bs == old(bs) && cur == old(cur) && arena == old(arena) && backed == old(backed)
      ensures core.Some? ==> q == freep && Fits(bs, n) && arena == old(arena) + Region(core.value, CoreUnits(n))
      ensures core.Some? ==> arena == old(arena) + Region(core.value, if n <= 4096 then 4096 else n)
      ensures core.Some? ==> backed == Resized(old(backed), core.value, Asked(n))
      ensures core.Some? && !Fits(old(bs), n) ==> FitsEnd(bs, n, core.value + CoreUnits(n))
    {
      if core.None? {
        return None;
      }
      var hp, nu := core.value, CoreUnits(n);
      backed := Resized(backed, hp, Asked(n));
      GrownReady(mem, bs, alloc, arena, hp, nu);
      mem := mem[hp := Header(BASE, nu)];
      ghost var bs0, alloc0, b := bs, alloc, Blk(hp, nu);
      alloc, arena := alloc[hp := nu], arena + Region(hp, nu);
      ghost var k := Free(hp + 1);
      FreedFits(bs0, k, b, n);
      if !Fits(bs0, n) { FreedFitsEnd(bs0, k, b, n); }
      assert alloc == alloc0;
      q := freep;
    }

    /** Unlinks p if it has n units, or cuts the last n units off it. */
    method Cut(prevp: int, p: int, n: nat) returns (at: int)
      requires prevp in mem && p in mem
      modifies `mem
      ensures mem == TakeMem(old(mem), prevp, p, n) && at == p + old(mem)[p].size - n
    {
      at := p + mem[p].size - n;
      if mem[p].size == n {
        mem := mem[prevp := Header(mem[p].ptr, mem[prevp].size)];
      } else {
        mem := mem[p := Header(mem[p].ptr, mem[p].size - n)];
        mem := mem[at := Header(BASE, n)];
      }
    }

    /** Takes n units from free block j at p, which follows prevp. */
    method Take(prevp: int, p: int, n: nat, ghost j: int) returns (r: int)
      requires Valid() && freep.Some? && 0 <= j < |bs| && 1 <= n <= bs[j].size
      requires prevp == Node(bs, j - 1) && p == Node(bs, j)
      modifies this
      ensures Valid() && bs == Taken(old(bs), j, n) && r == End(old(bs)[j]) - n + 1
      ensures r - 1 !in old(alloc) && alloc == old(alloc)[r - 1 := n] && arena == old(arena) && backed == old(backed)
      ensures freep == Some(prevp)
    {
      TakenReady(mem, bs, j, n, alloc, arena);
      LinkedNode(mem, bs, j);
      var at := Cut(prevp, p, n);
      freep := Some(prevp);
      r := at + 1;
      bs, cur, alloc := Taken(bs, j, n), j - 1, alloc[at := n];
    }

    /** malloc's loop: the first block of n units on the walk from freep and the node before it, the
        heap having grown once if there was none. */
    method Locate(n: nat, core: Option<int>) returns (found: bool, prevp: int, p: int, ghost j: int)
      requires Sound() && n >= 1 && Break(core)
      modifies this
      ensures Valid() && freep.Some? && alloc == old(alloc)
      ensures !found <==> !Fits(old(bs), n) && core.None?
      ensures found ==> 0 <= j < |bs| && bs[j].size >= n && prevp == Node(bs, j - 1) && p == Node(bs, j)
      ensures Fits(old(bs), n) || core.None? ==> bs == old(bs) && arena == old(arena) && backed == old(backed)
      ensures Fits(old(bs), n) ==> NextFit(old(bs), old(cur), j, n)
      ensures !Fits(old(bs), n) && core.Some? ==>
                && arena == old(arena) + Region(core.value, CoreUnits(n))
                && backed == Resized(old(backed), core.value, Asked(n))
                && End(bs[j]) >= core.value + CoreUnits(n)
    {
      if freep.None? {
        mem := mem[BASE := Header(BASE, 0)];
        freep := Some(BASE);
        cur := -1;
        FirstReady(mem);
      }
      ghost var s, grown := cur, false;
      WalkStart(mem, bs, s, n);
      j := Next(bs, s);
      prevp := freep.value;
      p := mem[prevp].ptr;
      while true
        invariant freep.Some? && Valid() && s == cur
        invariant alloc == old(alloc)
        invariant Walking(bs, s, j, n, prevp, p)
        invariant if grown then Fits(bs, n) && !Fits(old(bs), n) && core.Some? && FitsEnd(bs, n, core.value + CoreUnits(n))
                  else bs == old(bs) && arena == old(arena) && backed == old(backed) && (bs == [] || cur == old(cur))
        invariant grown ==> arena == old(arena) + Region(core.value, CoreUnits(n))
        invariant grown ==> backed == Resized(old(backed), core.value, Asked(n))
        decreases !grown, |bs| + 1 - Dist(bs, s, j)
      {
        WalkStep(mem, bs, s, j, n, prevp, p);
        if mem[p].size >= n {
          return true, prevp, p, j;
        }
        if p == freep.value {
          var q := Morecore(n, core);
          if q.None? {
            return false, prevp, p, j;
          }
          p, s, grown := q.value, cur, true;
          WalkStart(mem, bs, s, n);
          j := s;
        }
        prevp := p;
        p := mem[p].ptr;
        j := Next(bs, j);
      }
    }

    /** Allocates nbytes.  The block is memory of the process and holds the request exactly when
        rounding up did not wrap and the block came from the list or sbrk was asked for all of it. */
    method Malloc(nbytes: nat, core: Option<int>) returns (r: Option<int>, ghost j: int)
      requires Sound() && nbytes < UINT_LIMIT && Break(core)
      modifies this
      ensures Valid()
      ensures r.None? <==> !Fits(old(bs), Units(nbytes)) && core.None?
      ensures r.None? ==> alloc == old(alloc) && bs == old(bs)
      ensures r.Some? ==> r.value - 1 !in old(alloc) && alloc == old(alloc)[r.value - 1 := Units(nbytes)]
      ensures Fits(old(bs), Units(nbytes)) || core.None? ==> arena == old(arena) && backed == old(backed)
      ensures !Fits(old(bs), Units(nbytes)) && core.Some? ==>
                && arena == old(arena) + Region(core.value, CoreUnits(Units(nbytes)))
                && backed == Resized(old(backed), core.value, Asked(Units(nbytes)))
      ensures Fits(old(bs), Units(nbytes)) ==>
                NextFit(old(bs), old(cur), j, Units(nbytes)) && bs == Taken(old(bs), j, Units(nbytes))
      ensures Sound() <==> r.None? || Obtains(Fits(old(bs), Units(nbytes)), nbytes)
      ensures r.Some? ==>
                (Usable(backed, r.value - 1, Units(nbytes), nbytes) <==>
                 nbytes <= UINT_LIMIT - UNIT && Obtains(Fits(old(bs), Units(nbytes)), nbytes))
    {
      var n := Units(nbytes);
      ghost var fits := Fits(bs, n);
      var found, prevp, p;
      found, prevp, p, j := Locate(n, core);
      if !found {
        return None, j;
      }
      var at := Take(prevp, p, n, j);
      UsableIff(bs, alloc, arena, backed, at - 1, nbytes, fits, old(arena), old(backed), if fits then 0 else core.value);
      r := Some(at);
    }
  }
}
