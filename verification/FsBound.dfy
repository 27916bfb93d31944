/** The bound on what one writei logs is reached (writei of fs.c, filewrite of file.c). */
module FsBound {
  // `Wide` is a disk with five blocks of free map and one free block under each of them.  A write of
  // one byte more than filewrite's chunk, right after the direct blocks of a file, takes all five:
  // four data blocks and the indirect block.  With their bitmap blocks and the inode block it logs
  // eleven blocks, one more than begin_op reserves.

  import opened Params
  import opened Sets
  import opened FsLayout
  import opened FsOwnership
  import opened FsMapping
  import opened FsTracking
  import opened FsContents

  const SIZE: nat := 5 * BPB
  const META: nat := 1000
  const NINODES: nat := SIZE / NDIRECT + 2

  const WIDE: Super := Super(SIZE, NINODES, 100, 400, META)

  /** Blocks in use, beside the metadata and the twelve blocks of file 0. */
  predicate InUse(b: int) { META + NDIRECT <= b < SIZE && b % BPB != BPB - 1 }

  function WideAddr(j: nat, k: nat): Uint
    requires j < NINODES && k <= NDIRECT
  {
    if k == NDIRECT then 0
    else if j == 0 then META + k
    else if InUse((j - 1) * NDIRECT + k) then (j - 1) * NDIRECT + k
    else 0
  }

  function WideInode(j: nat): (r: Inode)
    requires j < NINODES
    ensures |r.addrs| == NDIRECT + 1
  {
    Inode(2, 0, 0, 1, if j == 0 then NDIRECT * BSIZE else 0,
          seq(NDIRECT + 1, k requires 0 <= k <= NDIRECT => WideAddr(j, k)))
  }

  function AllSet(): (r: BitBlock)
    ensures |r| == BSIZE && forall k :: 0 <= k < BSIZE ==> r[k] == 0xFF
  {
    seq(BSIZE, _ => 0xFF)
  }

  function Wide(): Fs {
    var inodes := seq(NINODES, j requires 0 <= j < NINODES => WideInode(j));
    Fs(WIDE, seq(SIZE, _ => ZeroBlock()),
       seq(5, _ => WithBit(AllSet(), BPB - 1, false)), inodes, inodes, {})
  }

  ghost function WideOwn(): map<int, Owner> {
    map b | META <= b < SIZE && b % BPB != BPB - 1 ::
      if b < META + NDIRECT then Owner(0, b - META) else Owner(1 + b / NDIRECT, b % NDIRECT)
  }

  // ---- the disk is in order -------------------------------------------------------------

  lemma {:induction false} WideShape()
    ensures Shape(Wide())
  {
    var fs := Wide();
    forall j | 0 <= j < |fs.inodes| ensures fs.inodes[j] == WideInode(j) {
    }
  }

  lemma {:induction false} WideSlot(j: nat, k: nat)
    requires j < NINODES && k < NSLOTS
    ensures Shape(Wide()) && SlotAddr(Wide(), j, k) == if k <= NDIRECT then WideAddr(j, k) else 0
  {
    WideShape();
    var fs := Wide();
    assert fs.inodes[j] == WideInode(j);
    assert fs.inodes[j].addrs[NDIRECT] == WideAddr(j, NDIRECT);
    if k <= NDIRECT { assert fs.inodes[j].addrs[k] == WideAddr(j, k); }
  }

  lemma {:induction false} SetBits(bi: nat)
    requires bi < BPB
    ensures TestBit(AllSet(), bi)
  {
    assert AllSet()[bi / 8] == 0xFF;
  }

  lemma {:induction false} WideBit(b: int)
    requires 0 <= b < SIZE
    ensures Shape(Wide()) && (Bit(Wide(), b) <==> b % BPB != BPB - 1)
  {
    WideShape();
    SetBits(b % BPB);
    TestWithBit(AllSet(), BPB - 1, false, b % BPB);
    assert Wide().bitmap[b / BPB] == WithBit(AllSet(), BPB - 1, false);
  }

  /** The slot that holds a block, and the block a slot holds. */
  lemma {:induction false} WideOwner(j: nat, k: nat)
    requires j < NINODES && k < NSLOTS
    ensures Shape(Wide())
    ensures var a := SlotAddr(Wide(), j, k); a != 0 ==> a in WideOwn() && WideOwn()[a] == Owner(j, k)
  {
    WideSlot(j, k);
    if k < NDIRECT && j > 0 {
      assert ((j - 1) * NDIRECT + k) / NDIRECT == j - 1 && ((j - 1) * NDIRECT + k) % NDIRECT == k;
    }
  }

  lemma {:induction false} WideHolds(b: int)
    requires b in WideOwn()
    ensures Shape(Wide()) && META <= b < SIZE
    ensures var o := WideOwn()[b]; 0 <= o.inum < NINODES && 0 <= o.slot < NDIRECT && SlotAddr(Wide(), o.inum, o.slot) == b
  {
    var o := WideOwn()[b];
    if b >= META + NDIRECT { assert b == b / NDIRECT * NDIRECT + b % NDIRECT; }
    WideSlot(o.inum, o.slot);
  }

  lemma {:induction false} WideOwned()
    ensures Owned(Wide(), WideOwn()) && NoHoles(Wide(), 0) && Wide().inodes[0].size == NDIRECT * BSIZE
  {
    WideShape();
    var fs, own := Wide(), WideOwn();
    forall j, k | 0 <= j < |fs.inodes| && 0 <= k < NSLOTS && SlotAddr(fs, j, k) != 0
      ensures SlotAddr(fs, j, k) in own && own[SlotAddr(fs, j, k)] == Owner(j, k)
    {
      WideOwner(j, k);
    }
    forall b | b in own
      ensures && fs.sb.nmeta <= b < fs.sb.size && 0 <= own[b].inum < |fs.inodes| && 0 <= own[b].slot < NSLOTS
              && SlotAddr(fs, own[b].inum, own[b].slot) == b
    {
      WideHolds(b);
    }
    forall b | 0 <= b < fs.sb.size ensures Bit(fs, b) <==> b < fs.sb.nmeta || b in own {
      WideBit(b);
    }
    forall bn | 0 <= bn < MAXFILE && bn * BSIZE < fs.inodes[0].size ensures SlotAddr(fs, 0, DataSlot(bn)) != 0 {
      WideSlot(0, bn);
    }
  }

  // ---- what the write logs --------------------------------------------------------------

  /** writei's loop has put all of data after the direct blocks of file 0. */
  ghost predicate Written(fs: Fs, own: map<int, Owner>, data: Bytes, turns: nat, allocs: nat) {
    && |data| == CHUNK + 1 && (forall k :: 0 <= k < |data| ==> data[k] == 1)
    && Writing(Wide(), WideOwn(), fs, own, 0, NDIRECT * BSIZE, data, turns, allocs)
  }

  /** A slot past the direct blocks holds one of the free blocks, whose bitmap block is logged. */
  lemma {:induction false} NewBlock(fs: Fs, own: map<int, Owner>, data: Bytes, turns: nat, allocs: nat, k: int)
    requires Written(fs, own, data, turns, allocs) && NDIRECT <= k < NSLOTS && SlotAddr(fs, 0, k) != 0
    ensures var a := SlotAddr(fs, 0, k); META <= a < SIZE && a % BPB == BPB - 1 && a / BPB + 400 in fs.logged
  {
    var a := SlotAddr(fs, 0, k);
    SlotFacts(fs, own, 0, k);
    WideOwned();
    if a in WideOwn() { WideHolds(a); }
    WideBit(a);
    assert Bit(fs, a);
    assert TrackedAt(Wide(), fs, a / BPB);
  }

  /** Each of the four data blocks is mapped and logged. */
  lemma {:induction false} NewData(fs: Fs, own: map<int, Owner>, data: Bytes, turns: nat, allocs: nat, n: nat)
    requires Written(fs, own, data, turns, allocs) && n < 4
    ensures var a := SlotAddr(fs, 0, NDIRECT + 1 + n); a != 0 && a in fs.logged
  {
    WideOwned();
    var a := SlotAddr(fs, 0, NDIRECT + 1 + n);
    assert ByteOk(Wide(), fs, 0, NDIRECT * BSIZE, data, NDIRECT + n, 0);
    assert DataSlot(NDIRECT + n) == NDIRECT + 1 + n;
    SlotFacts(fs, own, 0, NDIRECT + 1 + n);
    assert ByteOf(fs, 0, NDIRECT + n, 0) == data[n * BSIZE] == 1;
    assert fs.blocks[a][0] == 1;
    assert Wide().blocks[a] == ZeroBlock();
    assert TrackedAt(Wide(), fs, a);
  }

  /** And so is the indirect block. */
  lemma {:induction false} NewIndirect(fs: Fs, own: map<int, Owner>, data: Bytes, turns: nat, allocs: nat)
    requires Written(fs, own, data, turns, allocs)
    ensures var p := SlotAddr(fs, 0, NDIRECT); p != 0 && p in fs.logged
  {
    WideOwned();
    NewData(fs, own, data, turns, allocs, 0);
    var p := fs.inodes[0].addrs[NDIRECT];
    assert 0 < p < |fs.blocks| && Word(fs.blocks[p], 0) != 0;
    assert Wide().blocks[p] == ZeroBlock();
    assert Word(ZeroBlock(), 0) == 0;
    assert TrackedAt(Wide(), fs, p);
  }

  lemma {:induction false} FiveApart(a: int, b: int, c: int, d: int, e: int)
    requires a != b && a != c && a != d && a != e && b != c && b != d && b != e && c != d && c != e && d != e
    ensures |{a, b, c, d, e}| == 5
  {
  }

  /** Free blocks that differ lie under different bitmap blocks. */
  lemma {:induction false} BitmapsApart(a: int, b: int)
    requires a != b && a % BPB == b % BPB
    ensures a / BPB + 400 != b / BPB + 400
  {
  }

  lemma {:induction false} SlotsApart(fs: Fs, own: map<int, Owner>, k: int, l: int)
    requires Owned(fs, own) && 0 < |fs.inodes| && 0 <= k < l < NSLOTS && SlotAddr(fs, 0, k) != 0
    ensures SlotAddr(fs, 0, k) != SlotAddr(fs, 0, l)
  {
    if SlotAddr(fs, 0, k) == SlotAddr(fs, 0, l) { OneOwner(fs, own, 0, k, 0, l); }
  }

  /** Data blocks, bitmap blocks and the inode block are all different. */
  lemma {:induction false} ElevenLogged(logged: set<int>, blocks: set<int>, bitmaps: set<int>)
    requires |blocks| == 5 && |bitmaps| == 5 && blocks <= logged && bitmaps <= logged
    requires (forall x :: x in blocks ==> x >= META) && (forall x :: x in bitmaps ==> 400 <= x < META)
    ensures |logged + {100}| >= 11
  {
    assert forall x :: x in blocks ==> x !in bitmaps;
    assert 100 !in blocks + bitmaps;
    assert |blocks + bitmaps| == 10;
    assert |blocks + bitmaps + {100}| == 11;
    SubsetSize(blocks + bitmaps + {100}, logged + {100});
  }

  lemma {:induction false} FiveBitmaps(a: int, b: int, c: int, d: int, e: int)
    requires a != b && a != c && a != d && a != e && b != c && b != d && b != e && c != d && c != e && d != e
    requires a % BPB == b % BPB == c % BPB == d % BPB == e % BPB
    ensures |{a / BPB + 400, b / BPB + 400, c / BPB + 400, d / BPB + 400, e / BPB + 400}| == 5
  {
    BitmapsApart(a, b); BitmapsApart(a, c); BitmapsApart(a, d); BitmapsApart(a, e); BitmapsApart(b, c);
    BitmapsApart(b, d); BitmapsApart(b, e); BitmapsApart(c, d); BitmapsApart(c, e); BitmapsApart(d, e);
    FiveApart(a / BPB + 400, b / BPB + 400, c / BPB + 400, d / BPB + 400, e / BPB + 400);
  }

  /** Block x is one of the free blocks, logged together with its bitmap block. */
  ghost predicate Fresh(logged: set<int>, x: int) {
    META <= x < SIZE && x % BPB == BPB - 1 && x in logged && x / BPB + 400 in logged
  }

  lemma {:induction false} FreshBitmap(logged: set<int>, x: int, y: int)
    requires Fresh(logged, x) && y == x / BPB + 400
    ensures META <= x && x in logged && 400 <= y < META && y in logged
  {
  }

  lemma {:induction false} TwoFives(logged: set<int>, a: int, b: int, c: int, d: int, e: int,
                                    a': int, b': int, c': int, d': int, e': int)
    requires |{a, b, c, d, e}| == 5 && |{a', b', c', d', e'}| == 5
    requires {a, b, c, d, e} <= logged && {a', b', c', d', e'} <= logged
    requires a >= META && b >= META && c >= META && d >= META && e >= META
    requires 400 <= a' < META && 400 <= b' < META && 400 <= c' < META && 400 <= d' < META && 400 <= e' < META
    ensures |logged + {100}| >= 11
  {
    ElevenLogged(logged, {a, b, c, d, e}, {a', b', c', d', e'});
  }

  lemma {:induction false} FiveFresh(logged: set<int>, a: int, b: int, c: int, d: int, e: int)
    requires a != b && a != c && a != d && a != e && b != c && b != d && b != e && c != d && c != e && d != e
    requires Fresh(logged, a) && Fresh(logged, b) && Fresh(logged, c) && Fresh(logged, d) && Fresh(logged, e)
    ensures |logged + {100}| >= 11
  {
    FiveApart(a, b, c, d, e);
    FiveBitmaps(a, b, c, d, e);
    var a', b', c', d', e' := a / BPB + 400, b / BPB + 400, c / BPB + 400, d / BPB + 400, e / BPB + 400;
    FreshBitmap(logged, a, a');
    FreshBitmap(logged, b, b');
    FreshBitmap(logged, c, c');
    FreshBitmap(logged, d, d');
    FreshBitmap(logged, e, e');
    TwoFives(logged, a, b, c, d, e, a', b', c', d', e');
  }

  /** Slot k past the direct blocks is one of those the write fills. */
  lemma {:induction false} NewSlot(fs: Fs, own: map<int, Owner>, data: Bytes, turns: nat, allocs: nat, k: int)
    requires Written(fs, own, data, turns, allocs) && NDIRECT <= k < NDIRECT + 5
    ensures Fresh(fs.logged, SlotAddr(fs, 0, k))
  {
    if k == NDIRECT {
      NewIndirect(fs, own, data, turns, allocs);
    } else {
      NewData(fs, own, data, turns, allocs, k - NDIRECT - 1);
    }
    NewBlock(fs, own, data, turns, allocs, k);
  }

  lemma {:induction false} FiveSlots(fs: Fs, own: map<int, Owner>, data: Bytes, turns: nat, allocs: nat,
                                     a: int, b: int, c: int, d: int, e: int)
    requires Written(fs, own, data, turns, allocs)
    requires a == SlotAddr(fs, 0, NDIRECT) && b == SlotAddr(fs, 0, NDIRECT + 1) && c == SlotAddr(fs, 0, NDIRECT + 2)
    requires d == SlotAddr(fs, 0, NDIRECT + 3) && e == SlotAddr(fs, 0, NDIRECT + 4)
    ensures a != b && a != c && a != d && a != e && b != c && b != d && b != e && c != d && c != e && d != e
  {
    forall k, l | NDIRECT <= k < l < NDIRECT + 5 ensures SlotAddr(fs, 0, k) != SlotAddr(fs, 0, l) {
      NewSlot(fs, own, data, turns, allocs, k);
      SlotsApart(fs, own, k, l);
    }
  }

  lemma {:induction false} InodeLogged(fs: Fs, own: map<int, Owner>, data: Bytes, turns: nat, allocs: nat)
    requires Written(fs, own, data, turns, allocs)
    ensures Finished(fs, 0, NDIRECT * BSIZE + |data|, |data|).logged == fs.logged + {100}
  {
    assert fs.inodes[0].size == WideInode(0).size;
  }

  /** However writei's loop has gone, a write of CHUNK + 1 bytes here logs more than a transaction may. */
  lemma {:induction false} BoundReached(fs: Fs, own: map<int, Owner>, data: Bytes, turns: nat, allocs: nat)
    requires Written(fs, own, data, turns, allocs)
    ensures var end := NDIRECT * BSIZE + |data|;
            |Finished(fs, 0, end, |data|).logged| >= LogBound(NDIRECT * BSIZE, |data|) > MAXOPBLOCKS
  {
    var a, b, c := SlotAddr(fs, 0, NDIRECT), SlotAddr(fs, 0, NDIRECT + 1), SlotAddr(fs, 0, NDIRECT + 2);
    var d, e := SlotAddr(fs, 0, NDIRECT + 3), SlotAddr(fs, 0, NDIRECT + 4);
    forall k | NDIRECT <= k < NDIRECT + 5 ensures Fresh(fs.logged, SlotAddr(fs, 0, k)) {
      NewSlot(fs, own, data, turns, allocs, k);
    }
    FiveSlots(fs, own, data, turns, allocs, a, b, c, d, e);
    FiveFresh(fs.logged, a, b, c, d, e);
    InodeLogged(fs, own, data, turns, allocs);
  }

  // ---- and the write goes through -------------------------------------------------------

  function FreeBlock(k: nat): nat { k * BPB + BPB - 1 }

  function Ones(n: nat): (r: Bytes)
    ensures |r| == n && forall k :: 0 <= k < n ==> r[k] == 1
  {
    seq(n, _ => 1)
  }

  /** The bytes written after n turns. */
  function Progress(n: nat): nat { if n <= 3 then n * BSIZE else CHUNK + 1 }

  /** The owners once the indirect block and n data blocks are allocated. */
  ghost function OwnAfter(n: nat): map<int, Owner> {
    if n == 0 then WideOwn()[FreeBlock(0) := Owner(0, NDIRECT)]
    else OwnAfter(n - 1)[FreeBlock(n) := Owner(0, NDIRECT + n)]
  }

  lemma {:induction false} OwnAfterAt(n: nat)
    ensures FreeBlock(0) in OwnAfter(n) && OwnAfter(n)[FreeBlock(0)] == Owner(0, NDIRECT)
    ensures FreeBlock(n + 1) !in OwnAfter(n)
    ensures forall a {:trigger OwnAfter(n)[a]} :: a in OwnAfter(n) ==> OwnAfter(n)[a] != Owner(0, NDIRECT + n + 1)
    ensures forall m {:trigger FreeBlock(m)} :: m > n ==> FreeBlock(m) !in OwnAfter(n)
    ensures forall a {:trigger OwnAfter(n)[a]} ::
              a in OwnAfter(n) && OwnAfter(n)[a].inum == 0 ==> OwnAfter(n)[a].slot <= NDIRECT + n
  {
    if n == 0 {
      forall m {:trigger FreeBlock(m)} | m > 0 ensures FreeBlock(m) !in OwnAfter(0) {
        assert FreeBlock(m) % BPB == BPB - 1;
      }
    } else {
      OwnAfterAt(n - 1);
    }
  }

  /** The next free block can go into the next slot of file 0. */
  lemma {:induction false} NextFree(fs: Fs, n: nat)
    requires Owned(fs, OwnAfter(n)) && fs.sb == WIDE && n < 4
    ensures 0 < |fs.inodes| && CanAttach(fs, OwnAfter(n), 0, NDIRECT + 1 + n, FreeBlock(n + 1))
  {
    OwnAfterAt(n);
    var own, b := OwnAfter(n), FreeBlock(n + 1);
    assert META <= b < SIZE;
    assert !Bit(fs, b);
    assert own[FreeBlock(0)] == Owner(0, NDIRECT);
    if SlotAddr(fs, 0, NDIRECT + 1 + n) != 0 { SlotFacts(fs, own, 0, NDIRECT + 1 + n); }
  }

  /** The file system before the write: w stands for `Wide`. */
  ghost predicate Ready(w: Fs) {
    && Owned(w, WideOwn()) && w.sb == WIDE && NoHoles(w, 0) && w.inodes[0].size == NDIRECT * BSIZE
    && CanAttach(w, WideOwn(), 0, NDIRECT, FreeBlock(0))
  }

  lemma {:induction false} WideReady()
    ensures Ready(Wide())
  {
    WideOwned();
    WideSlot(0, NDIRECT);
    WideBit(FreeBlock(0));
  }

  lemma {:induction false} LaterBlock(fs: Fs, n: nat) returns (fsb: Fs)
    requires Owned(fs, OwnAfter(n)) && fs.sb == WIDE && n < 4
    ensures 0 < |fs.inodes| && Mapped(fs, OwnAfter(n), fsb, OwnAfter(n + 1), 0, NDIRECT + n, FreeBlock(n + 1))
  {
    NextFree(fs, n);
    SlotFacts(fs, OwnAfter(n), 0, NDIRECT);
    fsb := Attach(fs, 0, NDIRECT + 1 + n, FreeBlock(n + 1));
    MappedByOne(fs, OwnAfter(n), 0, NDIRECT + n, FreeBlock(n + 1), fsb, OwnAfter(n + 1));
  }

  lemma {:induction false} FirstBlocks(w: Fs) returns (fsb: Fs)
    requires Ready(w)
    ensures Mapped(w, WideOwn(), fsb, OwnAfter(1), 0, NDIRECT, FreeBlock(1))
  {
    var p := FreeBlock(0);
    AttachExtends(w, WideOwn(), 0, NDIRECT, p);
    fsb := LaterBlock(Attach(w, 0, NDIRECT, p), 0);
    MappedThroughNew(w, WideOwn(), p, fsb, OwnAfter(1), 0, NDIRECT, FreeBlock(1));
  }

  lemma {:induction false} OnesJoin(m: nat, n: nat)
    ensures Ones(m) + Ones(n) == Ones(m + n)
  {
  }

  /** One turn of the loop, once bmap has found block b for the chunk. */
  lemma {:induction false} OneTurn(w: Fs, fs: Fs, own: map<int, Owner>, fsb: Fs, ownb: map<int, Owner>, bn: nat, b: nat,
                                   data: Bytes, chunk: Bytes, data': Bytes, turns: nat, allocs: nat)
    returns (fs': Fs, allocs': nat)
    requires Owned(w, WideOwn()) && 0 < |w.inodes| && NoHoles(w, 0) && bn < MAXFILE && 0 < |chunk| <= BSIZE
    requires NDIRECT * BSIZE + |data| == bn * BSIZE && data' == data + chunk
    requires Writing(w, WideOwn(), fs, own, 0, NDIRECT * BSIZE, data, turns, allocs) && Mapped(fs, own, fsb, ownb, 0, bn, b)
    ensures Writing(w, WideOwn(), fs', ownb, 0, NDIRECT * BSIZE, data', turns + 1, allocs')
  {
    SlotFacts(fsb, ownb, 0, DataSlot(bn));
    fs' := Put(fsb, b, Overlay(fsb.blocks[b], 0, chunk));
    allocs' := allocs + if SlotAddr(fs, 0, DataSlot(bn)) == 0 then 1 else 0;
    WritingStep(w, WideOwn(), fs, own, fsb, ownb, 0, NDIRECT * BSIZE, data, chunk, bn, 0, b, fs', data', turns, allocs);
  }

  lemma {:induction false} WritesOn(w: Fs, n: nat) returns (fs: Fs, turns: nat, allocs: nat)
    requires Ready(w) && 1 <= n <= 4
    ensures Writing(w, WideOwn(), fs, OwnAfter(n), 0, NDIRECT * BSIZE, Ones(Progress(n)), turns, allocs)
  {
    var more := Progress(n) - Progress(n - 1);
    OnesJoin(Progress(n - 1), more);
    var own, fsb;
    if n == 1 {
      WritingStarts(w, WideOwn(), 0, NDIRECT * BSIZE);
      assert Ones(0) == [];
      fsb := FirstBlocks(w);
      fs, own, turns, allocs := w, WideOwn(), 0, 0;
    } else {
      fs, turns, allocs := WritesOn(w, n - 1);
      own := OwnAfter(n - 1);
      fsb := LaterBlock(fs, n - 1);
    }
    fs, allocs := OneTurn(w, fs, own, fsb, OwnAfter(n), NDIRECT + n - 1, FreeBlock(n), Ones(Progress(n - 1)), Ones(more),
                          Ones(Progress(n)), turns, allocs);
    turns := turns + 1;
  }

  /** There is a write of CHUNK + 1 bytes that logs more blocks than one operation may. */
  lemma {:induction false} ChunkTooLarge() returns (fs: Fs, own: map<int, Owner>, turns: nat, allocs: nat)
    ensures Owned(Wide(), WideOwn())
    ensures Writing(Wide(), WideOwn(), fs, own, 0, NDIRECT * BSIZE, Ones(CHUNK + 1), turns, allocs)
    ensures |Finished(fs, 0, NDIRECT * BSIZE + CHUNK + 1, CHUNK + 1).logged| > MAXOPBLOCKS
  {
    WideReady();
    fs, turns, allocs := WritesOn(Wide(), 4);
    own := OwnAfter(4);
    BoundReached(fs, own, Ones(CHUNK + 1), turns, allocs);
  }
}
