/** Free lists of the storage allocator (umalloc.c), as values. */
module HeapBlocks {
  // Addresses count headers (units).  `BASE` is the address of the static header `base`, below
  // all heap memory.  A free list is the sequence of its blocks in address order; `Linked` says
  // that the headers in memory chain exactly those blocks into a cycle through `base`.

  const BASE: int := 0

  datatype Header = Header(ptr: int, size: int)
  datatype Blk = Blk(addr: int, size: int)

  function End(b: Blk): int { b.addr + b.size }

  predicate Covers(b: Blk, u: int) { b.addr <= u < End(b) }

  ghost predicate Covered(bs: seq<Blk>, u: int) {
    exists i :: 0 <= i < |bs| && Covers(bs[i], u)
  }

  /** In address order, above the base, with a gap between any two: no two free blocks touch. */
  ghost predicate Gapped(bs: seq<Blk>) {
    && (forall i :: 0 <= i < |bs| ==> bs[i].addr > BASE && bs[i].size >= 1)
    && (forall i, j :: 0 <= i < j < |bs| ==> End(bs[i]) < bs[j].addr)
  }

  /** The address of node i; the base stands before the first and after the last block. */
  function Node(bs: seq<Blk>, i: int): int
    requires -1 <= i <= |bs|
  {
    if i == -1 || i == |bs| then BASE else bs[i].addr
  }

  /** The headers chain the blocks in order into one cycle through the base. */
  ghost predicate Linked(mem: map<int, Header>, bs: seq<Blk>) {
    forall i {:trigger NodeLinked(mem, bs, i)} :: -1 <= i < |bs| ==> NodeLinked(mem, bs, i)
  }

  ghost predicate NodeLinked(mem: map<int, Header>, bs: seq<Blk>, i: int)
    requires -1 <= i < |bs|
  {
    Node(bs, i) in mem && mem[Node(bs, i)] == Header(NodeAfter(bs, i), if i == -1 then 0 else bs[i].size)
  }

  function NodeAfter(bs: seq<Blk>, i: int): int
    requires -1 <= i < |bs|
  {
    if i + 1 == |bs| then BASE else bs[i + 1].addr
  }

  /** Block b can be freed into bs: it overlaps no free block. */
  ghost predicate Apart(bs: seq<Blk>, b: Blk) {
    && b.addr > BASE && b.size >= 1
    && forall i :: 0 <= i < |bs| ==> Disjoint(bs[i], b)
  }

  predicate Disjoint(b: Blk, c: Blk) { End(b) <= c.addr || End(c) <= b.addr }

  /** Position k splits the blocks below b from those above it. */
  ghost predicate Splits(bs: seq<Blk>, k: int, b: Blk) {
    && 0 <= k <= |bs|
    && (forall i :: 0 <= i < k ==> bs[i].addr < b.addr)
    && (forall i :: k <= i < |bs| ==> b.addr < bs[i].addr)
  }

  predicate TouchesLeft(bs: seq<Blk>, k: int, b: Blk)
    requires 0 <= k <= |bs|
  {
    k > 0 && End(bs[k - 1]) == b.addr
  }

  predicate TouchesRight(bs: seq<Blk>, k: int, b: Blk)
    requires 0 <= k <= |bs|
  {
    k < |bs| && End(b) == bs[k].addr
  }

  /** b together with the neighbours it touches. */
  function Merged(bs: seq<Blk>, k: int, b: Blk): Blk
    requires 0 <= k <= |bs|
  {
    Blk(if TouchesLeft(bs, k, b) then bs[k - 1].addr else b.addr,
        b.size + (if TouchesLeft(bs, k, b) then bs[k - 1].size else 0)
               + (if TouchesRight(bs, k, b) then bs[k].size else 0))
  }

  lemma {:induction false} SplitSides(bs: seq<Blk>, k: int, b: Blk)
    requires Gapped(bs) && Apart(bs, b) && Splits(bs, k, b)
    ensures forall i :: 0 <= i < k ==> End(bs[i]) <= b.addr && (i < k - 1 || !TouchesLeft(bs, k, b) ==> End(bs[i]) < b.addr)
    ensures forall i :: k <= i < |bs| ==> End(b) <= bs[i].addr && (i > k || !TouchesRight(bs, k, b) ==> End(b) < bs[i].addr)
  {
    forall i | 0 <= i < k ensures End(bs[i]) <= b.addr && (i < k - 1 || !TouchesLeft(bs, k, b) ==> End(bs[i]) < b.addr) {
      assert bs[i].addr < b.addr;
      if i < k - 1 {
        assert End(bs[i]) < bs[k - 1].addr < b.addr;
      }
    }
    forall i | k <= i < |bs| ensures End(b) <= bs[i].addr && (i > k || !TouchesRight(bs, k, b) ==> End(b) < bs[i].addr) {
      assert b.addr < bs[i].addr;
      if i > k {
        assert End(bs[k]) < bs[i].addr;
      }
    }
  }

  /** bs with the blocks lo .. hi-1 replaced by m. */
  function Replaced(bs: seq<Blk>, lo: int, hi: int, m: Blk): (r: seq<Blk>)
    requires 0 <= lo <= hi <= |bs|
    ensures |r| == |bs| - (hi - lo) + 1
  {
    bs[..lo] + [m] + bs[hi..]
  }

  lemma {:induction false} ReplacedAt(bs: seq<Blk>, lo: int, hi: int, m: Blk, i: int)
    requires 0 <= lo <= hi <= |bs| && 0 <= i < |bs| - (hi - lo) + 1
    ensures Replaced(bs, lo, hi, m)[i] == if i < lo then bs[i] else if i == lo then m else bs[i - lo - 1 + hi]
  {
  }

  lemma {:induction false} ReplacedGapped(bs: seq<Blk>, lo: int, hi: int, m: Blk)
    requires Gapped(bs) && 0 <= lo <= hi <= |bs| && m.addr > BASE && m.size >= 1
    requires forall i :: 0 <= i < lo ==> End(bs[i]) < m.addr
    requires forall i :: hi <= i < |bs| ==> End(m) < bs[i].addr
    ensures Gapped(Replaced(bs, lo, hi, m))
  {
    var r := Replaced(bs, lo, hi, m);
    forall i | 0 <= i < |r| ensures r[i].addr > BASE && r[i].size >= 1 {
      ReplacedAt(bs, lo, hi, m, i);
    }
    forall i, j | 0 <= i < j < |r| ensures End(r[i]) < r[j].addr {
      ReplacedAt(bs, lo, hi, m, i);
      ReplacedAt(bs, lo, hi, m, j);
    }
  }

  lemma {:induction false} ReplacedCovers(bs: seq<Blk>, lo: int, hi: int, m: Blk, u: int)
    requires 0 <= lo <= hi <= |bs|
    requires Covered(bs[lo..hi], u) ==> Covers(m, u)
    ensures Covered(Replaced(bs, lo, hi, m), u) <==> Covered(bs, u) || Covers(m, u)
  {
    var r := Replaced(bs, lo, hi, m);
    ReplacedAt(bs, lo, hi, m, lo);
    if i :| 0 <= i < |bs| && Covers(bs[i], u) {
      if i < lo {
        ReplacedAt(bs, lo, hi, m, i);
      } else if i >= hi {
        ReplacedAt(bs, lo, hi, m, i - hi + lo + 1);
        assert Covers(r[i - hi + lo + 1], u);
      } else {
        assert bs[lo..hi][i - lo] == bs[i];
      }
    }
    if i :| 0 <= i < |r| && Covers(r[i], u) {
      ReplacedAt(bs, lo, hi, m, i);
    }
  }

  function Lo(bs: seq<Blk>, k: int, b: Blk): int
    requires 0 <= k <= |bs|
  {
    if TouchesLeft(bs, k, b) then k - 1 else k
  }

  function Hi(bs: seq<Blk>, k: int, b: Blk): int
    requires 0 <= k <= |bs|
  {
    if TouchesRight(bs, k, b) then k + 1 else k
  }

  /** The free list after freeing b. */
  function Freed(bs: seq<Blk>, k: int, b: Blk): seq<Blk>
    requires 0 <= k <= |bs|
  {
    Replaced(bs, Lo(bs, k, b), Hi(bs, k, b), Merged(bs, k, b))
  }

  /** Freeing keeps the list ordered and free of adjacent blocks. */
  lemma {:induction false} FreedGapped(bs: seq<Blk>, k: int, b: Blk)
    requires Gapped(bs) && Apart(bs, b) && Splits(bs, k, b)
    ensures Gapped(Freed(bs, k, b))
  {
    SplitSides(bs, k, b);
    var m := Merged(bs, k, b);
    assert End(m) == if TouchesRight(bs, k, b) then End(bs[k]) else End(b);
    ReplacedGapped(bs, Lo(bs, k, b), Hi(bs, k, b), m);
  }

  /** Freeing adds exactly b's units to the free memory. */
  lemma {:induction false} FreedCovers(bs: seq<Blk>, k: int, b: Blk, u: int)
    requires Gapped(bs) && Apart(bs, b) && Splits(bs, k, b)
    ensures Covered(Freed(bs, k, b), u) <==> Covered(bs, u) || Covers(b, u)
  {
    SplitSides(bs, k, b);
    var lo, hi, m := Lo(bs, k, b), Hi(bs, k, b), Merged(bs, k, b);
    assert Covers(m, u) <==> Covers(b, u) || (lo < k && Covers(bs[k - 1], u)) || (k < hi && Covers(bs[k], u));
    if i :| 0 <= i < hi - lo && Covers(bs[lo..hi][i], u) {
      assert bs[lo..hi][i] == bs[lo + i];
    }
    ReplacedCovers(bs, lo, hi, m, u);
  }

  // ---- taking a block -------------------------------------------------------------------

  /** The free list after malloc takes n units from the end of block j. */
  function Taken(bs: seq<Blk>, j: int, n: int): seq<Blk>
    requires 0 <= j < |bs|
  {
    if bs[j].size == n then bs[..j] + bs[j + 1..] else bs[j := Blk(bs[j].addr, bs[j].size - n)]
  }

  lemma {:induction false} TakenGapped(bs: seq<Blk>, j: int, n: int)
    requires Gapped(bs) && 0 <= j < |bs| && 1 <= n <= bs[j].size
    ensures Gapped(Taken(bs, j, n)) && Apart(Taken(bs, j, n), Blk(End(bs[j]) - n, n))
  {
    var r, b := Taken(bs, j, n), Blk(End(bs[j]) - n, n);
    if bs[j].size == n {
      assert forall i :: 0 <= i < |r| ==> r[i] == if i < j then bs[i] else bs[i + 1];
    }
    forall i | 0 <= i < |r| ensures Disjoint(r[i], b) {
    }
  }

  /** Taking a block splits the free memory into what is left and the block itself. */
  lemma {:induction false} TakenCovers(bs: seq<Blk>, j: int, n: int, u: int)
    requires Gapped(bs) && 0 <= j < |bs| && 1 <= n <= bs[j].size
    ensures Covered(bs, u) <==> Covered(Taken(bs, j, n), u) || Covers(Blk(End(bs[j]) - n, n), u)
  {
    var r, b := Taken(bs, j, n), Blk(End(bs[j]) - n, n);
    if i :| 0 <= i < |bs| && Covers(bs[i], u) {
      if bs[j].size == n {
        if i < j {
          assert r[i] == bs[i];
        } else if i > j {
          assert r[i - 1] == bs[i];
        }
      } else {
        assert r[i] == if i == j then Blk(bs[j].addr, bs[j].size - n) else bs[i];
      }
    }
    if i :| 0 <= i < |r| && Covers(r[i], u) {
      if bs[j].size == n {
        assert r[i] == if i < j then bs[i] else bs[i + 1];
      } else {
        assert Covers(bs[i], u);
      }
    }
    if Covers(b, u) {
      assert Covers(bs[j], u);
    }
  }

  lemma {:induction false} SplitsOnce(bs: seq<Blk>, k: int, l: int, b: Blk)
    requires Splits(bs, k, b) && Splits(bs, l, b)
    ensures k == l
  {
    assert k < |bs| ==> b.addr < bs[k].addr;
    assert l < |bs| ==> b.addr < bs[l].addr;
  }

  lemma {:induction false} UnlinkedPlace(bs: seq<Blk>, j: int, k: int, r: seq<Blk>)
    requires Gapped(bs) && 0 <= j < |bs| && |r| == |bs| - 1
    requires forall i {:trigger r[i]} :: 0 <= i < |r| ==> r[i] == if i < j then bs[i] else bs[i + 1]
    requires Splits(r, k, bs[j])
    ensures k == j && !TouchesLeft(r, j, bs[j]) && !TouchesRight(r, j, bs[j])
  {
    SplitsOnce(r, k, j, bs[j]);
  }

  lemma {:induction false} FreeUndoesUnlink(bs: seq<Blk>, j: int, k: int)
    requires Gapped(bs) && 0 <= j < |bs| && Splits(bs[..j] + bs[j + 1..], k, bs[j])
    ensures Freed(bs[..j] + bs[j + 1..], k, bs[j]) == bs
  {
    var r := bs[..j] + bs[j + 1..];
    UnlinkedPlace(bs, j, k, r);
    assert r[..j] == bs[..j] && r[j..] == bs[j + 1..];
    assert bs == bs[..j] + [bs[j]] + bs[j + 1..];
  }

  lemma {:induction false} FreeUndoesCut(bs: seq<Blk>, j: int, n: int, k: int)
    requires Gapped(bs) && 0 <= j < |bs| && 1 <= n < bs[j].size
    requires Splits(bs[j := Blk(bs[j].addr, bs[j].size - n)], k, Blk(End(bs[j]) - n, n))
    ensures Freed(bs[j := Blk(bs[j].addr, bs[j].size - n)], k, Blk(End(bs[j]) - n, n)) == bs
  {
    var r, b := bs[j := Blk(bs[j].addr, bs[j].size - n)], Blk(End(bs[j]) - n, n);
    SplitsOnce(r, k, j + 1, b);
    assert TouchesLeft(r, j + 1, b) && !TouchesRight(r, j + 1, b);
    assert r[..j] == bs[..j] && r[j + 1..] == bs[j + 1..];
    assert bs == bs[..j] + [bs[j]] + bs[j + 1..];
  }

  /** Freeing the block malloc has just taken gives back exactly the free list it was taken from. */
  lemma {:induction false} FreeUndoesTake(bs: seq<Blk>, j: int, n: int, k: int)
    requires Gapped(bs) && 0 <= j < |bs| && 1 <= n <= bs[j].size
    requires Splits(Taken(bs, j, n), k, Blk(End(bs[j]) - n, n))
    ensures Freed(Taken(bs, j, n), k, Blk(End(bs[j]) - n, n)) == bs
  {
    if bs[j].size == n {
      FreeUndoesUnlink(bs, j, k);
    } else {
      FreeUndoesCut(bs, j, n, k);
    }
  }
}
