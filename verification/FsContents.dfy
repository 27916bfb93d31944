/** The bytes of a file, and what writing a range of them does (readi and writei of fs.c).

`Contents` is the file as a byte sequence and `Splice` the effect a write should have on it.
`Spliced` and `Writing` are the invariants of writei's loop: the bytes written so far are in
place, all others and all other files are as before, and the log has grown by no more than the
turns taken account for.  `Wrote` is what a finished writei promises.

`LogBound` is the most blocks one writei can log, and `ChunkFitsTransaction` compares it with
what begin_op reserves for one operation.  `Appended` and `Undecided` are the invariants of
filewrite's loop over chunks: the bytes accepted so far, and whether the rest will be. */
module FsContents {
  import opened Params
  import opened Sets
  import opened FsLayout
  import opened FsOwnership
  import opened FsMapping
  import opened FsTracking

  /** Byte o of block bn of inode i. */
  function ByteOf(fs: Fs, i: int, bn: int, o: int): int
    requires Shape(fs) && 0 <= i < |fs.inodes| && 0 <= bn < MAXFILE && 0 <= o < BSIZE
  {
    var a := SlotAddr(fs, i, DataSlot(bn));
    if 0 < a < |fs.blocks| then fs.blocks[a][o] else 0
  }

  /** Every block below the size is allocated. */
  ghost predicate NoHoles(fs: Fs, i: int)
    requires Shape(fs) && 0 <= i < |fs.inodes|
  {
    && fs.inodes[i].size <= MAXFILE * BSIZE
    && forall bn {:trigger DataSlot(bn)} :: 0 <= bn < MAXFILE && bn * BSIZE < fs.inodes[i].size ==>
         SlotAddr(fs, i, DataSlot(bn)) != 0
  }

  /** The first n bytes of the file. */
  ghost function FirstBytes(fs: Fs, i: int, n: nat): (s: Bytes)
    requires Shape(fs) && 0 <= i < |fs.inodes| && n <= MAXFILE * BSIZE
    ensures |s| == n
  {
    if n == 0 then [] else FirstBytes(fs, i, n - 1) + [ByteOf(fs, i, (n - 1) / BSIZE, (n - 1) % BSIZE)]
  }

  /** The file as a byte sequence. */
  ghost function Contents(fs: Fs, i: int): (s: Bytes)
    requires Shape(fs) && 0 <= i < |fs.inodes| && fs.inodes[i].size <= MAXFILE * BSIZE
    ensures |s| == fs.inodes[i].size
  {
    FirstBytes(fs, i, fs.inodes[i].size)
  }

  lemma {:induction false} FirstBytesAt(fs: Fs, i: int, n: nat, p: nat)
    requires Shape(fs) && 0 <= i < |fs.inodes| && p < n <= MAXFILE * BSIZE
    ensures FirstBytes(fs, i, n)[p] == ByteOf(fs, i, p / BSIZE, p % BSIZE)
  {
    if p < n - 1 {
      FirstBytesAt(fs, i, n - 1, p);
    }
  }

  lemma {:induction false} ContentsAt(fs: Fs, i: int, p: nat)
    requires Shape(fs) && 0 <= i < |fs.inodes| && p < fs.inodes[i].size <= MAXFILE * BSIZE
    ensures Contents(fs, i)[p] == ByteOf(fs, i, p / BSIZE, p % BSIZE)
  {
    FirstBytesAt(fs, i, fs.inodes[i].size, p);
  }

  /** Where byte p of a file stands on the disk: in one of the 12 direct blocks, or in the block whose
      address is a little-endian word of the indirect block. */
  lemma {:induction false} ContentsOnDisk(fs: Fs, own: map<int, Owner>, i: int, p: nat)
    requires Owned(fs, own) && 0 <= i < |fs.inodes| && NoHoles(fs, i) && p < fs.inodes[i].size
    ensures p / 512 < 12 ==>
              var a := fs.inodes[i].addrs[p / 512];
              0 < a < |fs.blocks| && Contents(fs, i)[p] == fs.blocks[a][p % 512]
    ensures p / 512 >= 12 ==>
              && 0 < fs.inodes[i].addrs[12] < |fs.blocks|
              && var k := 4 * (p / 512 - 12);
                 var a := LittleEndian(fs.blocks[fs.inodes[i].addrs[12]][k..k + 4]);
                 0 < a < |fs.blocks| && Contents(fs, i)[p] == fs.blocks[a][p % 512]
  {
    var bn := p / BSIZE;
    ContentsAt(fs, i, p);
    SlotFacts(fs, own, i, DataSlot(bn));
    if bn >= NDIRECT {
      SlotFacts(fs, own, i, NDIRECT);
      WordLittleEndian(fs.blocks[fs.inodes[i].addrs[NDIRECT]], bn - NDIRECT);
    }
  }

  ghost predicate SameBytes(fs: Fs, r: Fs, i: int)
    requires Shape(fs) && Shape(r) && 0 <= i < |fs.inodes| && i < |r.inodes|
  {
    forall bn, o {:trigger ByteOf(r, i, bn, o)} :: 0 <= bn < MAXFILE && 0 <= o < BSIZE ==>
      ByteOf(r, i, bn, o) == ByteOf(fs, i, bn, o)
  }

  /** Files of one size with the same bytes have the same contents. */
  lemma {:induction false} SameContents(fs: Fs, r: Fs, i: int)
    requires Shape(fs) && Shape(r) && 0 <= i < |fs.inodes| && i < |r.inodes|
    requires r.inodes[i].size == fs.inodes[i].size <= MAXFILE * BSIZE && SameBytes(fs, r, i)
    ensures Contents(r, i) == Contents(fs, i)
  {
    forall p | 0 <= p < fs.inodes[i].size ensures Contents(r, i)[p] == Contents(fs, i)[p] {
      ContentsAt(fs, i, p);
      ContentsAt(r, i, p);
    }
  }

  function Max(a: int, b: int): int { if a < b then b else a }

  /** `s` with `data` in place of its bytes from `off` on, grown if `data` reaches past the end. */
  function Splice(s: Bytes, off: nat, data: Bytes): (r: Bytes)
    requires off <= |s|
    ensures |r| == Max(|s|, off + |data|)
  {
    if off + |data| <= |s| then s[..off] + data + s[off + |data|..] else s[..off] + data
  }

  /** `blk` with `chunk` copied over it at `o`: memmove(bp->data + o, src, m). */
  function Overlay(blk: Bytes, o: nat, chunk: Bytes): (r: Bytes)
    requires o + |chunk| <= |blk|
    ensures |r| == |blk|
  {
    blk[..o] + chunk + blk[o + |chunk|..]
  }

  /** What the file should hold at block bn, offset o, after writing `data` at `off`. */
  ghost function Expected(fs0: Fs, i: int, off: nat, data: Bytes, bn: int, o: int): int
    requires Shape(fs0) && 0 <= i < |fs0.inodes| && 0 <= bn < MAXFILE && 0 <= o < BSIZE
  {
    var p := bn * BSIZE + o;
    if off <= p < off + |data| then data[p - off] else ByteOf(fs0, i, bn, o)
  }

  /** Below the end of the written file, block bn is allocated and byte o is as expected. */
  ghost predicate ByteOk(fs0: Fs, fs: Fs, i: int, off: nat, data: Bytes, bn: int, o: int)
    requires Shape(fs0) && Shape(fs) && 0 <= i < |fs0.inodes| && i < |fs.inodes| && 0 <= bn < MAXFILE && 0 <= o < BSIZE
  {
    bn * BSIZE + o < Max(fs0.inodes[i].size, off + |data|) ==>
      && SlotAddr(fs, i, DataSlot(bn)) != 0
      && ByteOf(fs, i, bn, o) == Expected(fs0, i, off, data, bn, o)
  }

  /** In fs, inode i holds what it held in fs0 with `data` written at `off`, block by block. */
  ghost predicate Spliced(fs0: Fs, fs: Fs, i: int, off: nat, data: Bytes)
    requires Shape(fs0) && Shape(fs) && 0 <= i < |fs0.inodes| && i < |fs.inodes|
  {
    forall bn, o {:trigger ByteOk(fs0, fs, i, off, data, bn, o)} :: 0 <= bn < MAXFILE && 0 <= o < BSIZE ==>
      ByteOk(fs0, fs, i, off, data, bn, o)
  }

  lemma {:induction false} SplicedNothing(fs: Fs, i: int, off: nat)
    requires Shape(fs) && 0 <= i < |fs.inodes| && NoHoles(fs, i) && off <= fs.inodes[i].size
    ensures Spliced(fs, fs, i, off, [])
  {
    forall bn, o | 0 <= bn < MAXFILE && 0 <= o < BSIZE ensures ByteOk(fs, fs, i, off, [], bn, o) {
      assert bn * BSIZE + o < fs.inodes[i].size ==> bn * BSIZE < fs.inodes[i].size;
    }
  }

  /** Writing a data block of inode i keeps what Extends promises. */
  lemma {:induction false} PutExtends(
    fs0: Fs, own0: map<int, Owner>, fs: Fs, own: map<int, Owner>, i: int, bn: nat, data: Bytes)
    requires Shape(fs0) && Extends(fs0, own0, fs, own, i) && bn < MAXFILE && |data| == BSIZE
    requires SlotAddr(fs, i, DataSlot(bn)) != 0
    ensures Extends(fs0, own0, Put(fs, SlotAddr(fs, i, DataSlot(bn)), data), own, i)
  {
    SlotFacts(fs, own, i, DataSlot(bn));
    var a := SlotAddr(fs, i, DataSlot(bn));
    PutOwned(fs, own, a, data);
    var r := Put(fs, a, data);
    PutLogs(fs, a, data);
    LogsTrans(fs0, fs, r);
    forall b | b in own0 && 0 <= b < |fs0.blocks| && own0[b].inum != i ensures r.blocks[b] == fs0.blocks[b] {
      assert own[b] == own0[b];
    }
  }

  /** A slot in use keeps its address. */
  lemma {:induction false} SlotKept(
    fs0: Fs, own0: map<int, Owner>, fs1: Fs, own1: map<int, Owner>, i: int, j: int, k: int)
    requires Owned(fs0, own0) && Extends(fs0, own0, fs1, own1, i) && 0 <= j < |fs0.inodes| && 0 <= k < NSLOTS
    ensures SlotAddr(fs0, j, k) != 0 ==> SlotAddr(fs1, j, k) == SlotAddr(fs0, j, k)
    ensures j != i ==> SlotAddr(fs1, j, k) == SlotAddr(fs0, j, k)
  {
    var a0, a1 := SlotAddr(fs0, j, k), SlotAddr(fs1, j, k);
    if a0 != 0 {
      SlotFacts(fs0, own0, j, k);
      assert own1[a0] == Owner(j, k);
    } else if a1 != 0 {
      SlotFacts(fs1, own1, j, k);
    }
  }

  /** Everything known in one turn of writei's loop: `data` is written, `chunk` goes into
  block bn next, and bmap has returned its address. */
  ghost predicate Turn(fs0: Fs, fs: Fs, own: map<int, Owner>, fsb: Fs, ownb: map<int, Owner>, i: int, off: nat,
                       data: Bytes, chunk: Bytes, bn: nat, addr: int)
  {
    && Shape(fs0) && Owned(fs, own) && 0 <= i < |fs0.inodes| && i < |fs.inodes|
    && Spliced(fs0, fs, i, off, data)
    && bn * BSIZE <= off + |data| && 0 < |chunk| && off + |data| + |chunk| <= bn * BSIZE + BSIZE
    && bn < MAXFILE && Mapped(fs, own, fsb, ownb, i, bn, addr) && addr < |fsb.blocks|
  }

  ghost function AfterTurn(fsb: Fs, off: nat, data: Bytes, chunk: Bytes, bn: nat, addr: int): (r: Fs)
    requires bn * BSIZE <= off + |data| && off + |data| + |chunk| <= bn * BSIZE + BSIZE
    requires 0 < addr < |fsb.blocks| && |fsb.blocks[addr]| == BSIZE
  {
    Put(fsb, addr, Overlay(fsb.blocks[addr], off + |data| - bn * BSIZE, chunk))
  }

  lemma {:induction false} TurnByte(
    fs0: Fs, fs: Fs, own: map<int, Owner>, fsb: Fs, ownb: map<int, Owner>, i: int, off: nat, data: Bytes, chunk: Bytes,
    bn: nat, addr: int, c: int, o: int)
    requires Turn(fs0, fs, own, fsb, ownb, i, off, data, chunk, bn, addr)
    requires 0 <= c < MAXFILE && 0 <= o < BSIZE
    ensures var r := AfterTurn(fsb, off, data, chunk, bn, addr);
            Shape(r) && ByteOk(fs0, r, i, off, data + chunk, c, o)
  {
    SlotFacts(fsb, ownb, i, DataSlot(bn));
    var o1 := off + |data| - bn * BSIZE;
    PutOwned(fsb, ownb, addr, Overlay(fsb.blocks[addr], o1, chunk));
    var r := AfterTurn(fsb, off, data, chunk, bn, addr);
    assert SlotAddr(r, i, DataSlot(c)) == SlotAddr(fsb, i, DataSlot(c));
    if c * BSIZE + o < Max(fs0.inodes[i].size, off + |data + chunk|) && !(c == bn && o1 <= o < o1 + |chunk|) {
      assert ByteOk(fs0, fs, i, off, data, c, o);
      SlotFacts(fs, own, i, DataSlot(c));
      SlotKept(fs, own, fsb, ownb, i, i, DataSlot(c));
      if c != bn && SlotAddr(fsb, i, DataSlot(c)) == addr {
        OneOwner(fsb, ownb, i, DataSlot(c), i, DataSlot(bn));
      }
    }
  }

  /** One turn of writei's loop: map the block, copy the chunk over it. */
  lemma {:induction false} SpliceStep(
    fs0: Fs, own0: map<int, Owner>, fs: Fs, own: map<int, Owner>, fsb: Fs, ownb: map<int, Owner>, i: int, off: nat,
    data: Bytes, chunk: Bytes, bn: nat, addr: int)
    requires Turn(fs0, fs, own, fsb, ownb, i, off, data, chunk, bn, addr) && Extends(fs0, own0, fs, own, i)
    ensures var r := AfterTurn(fsb, off, data, chunk, bn, addr);
            Extends(fs0, own0, r, ownb, i) && Spliced(fs0, r, i, off, data + chunk)
  {
    ExtendsTrans(fs0, own0, fs, own, fsb, ownb, i);
    SlotFacts(fsb, ownb, i, DataSlot(bn));
    var o1 := off + |data| - bn * BSIZE;
    PutExtends(fs0, own0, fsb, ownb, i, bn, Overlay(fsb.blocks[addr], o1, chunk));
    var r := AfterTurn(fsb, off, data, chunk, bn, addr);
    forall c, o | 0 <= c < MAXFILE && 0 <= o < BSIZE ensures ByteOk(fs0, r, i, off, data + chunk, c, o) {
      TurnByte(fs0, fs, own, fsb, ownb, i, off, data, chunk, bn, addr, c, o);
    }
  }

  // ---- the whole write ------------------------------------------------------------------

  function WithSize(fs: Fs, i: int, size: Uint): Fs
    requires 0 <= i < |fs.inodes|
  {
    fs.(inodes := fs.inodes[i := fs.inodes[i].(size := size)])
  }

  lemma {:induction false} SpliceAt(s: Bytes, off: nat, data: Bytes, p: nat)
    requires off <= |s| && p < Max(|s|, off + |data|)
    ensures Splice(s, off, data)[p] == if off <= p < off + |data| then data[p - off] else s[p]
  {
  }

  lemma {:induction false} SplicedByte(fs0: Fs, fs: Fs, i: int, off: nat, data: Bytes, p: nat)
    requires Shape(fs0) && Shape(fs) && 0 <= i < |fs0.inodes| && i < |fs.inodes|
    requires off + |data| <= MAXFILE * BSIZE && Spliced(fs0, fs, i, off, data)
    requires p < Max(fs0.inodes[i].size, off + |data|) <= MAXFILE * BSIZE
    ensures ByteOf(fs, i, p / BSIZE, p % BSIZE)
            == if off <= p < off + |data| then data[p - off] else ByteOf(fs0, i, p / BSIZE, p % BSIZE)
  {
    assert p / BSIZE * BSIZE + p % BSIZE == p;
    assert ByteOk(fs0, fs, i, off, data, p / BSIZE, p % BSIZE);
  }

  /** Once the size is set, the file is the old byte sequence with `data` spliced in. */
  lemma {:induction false} SplicedContents(fs0: Fs, fs: Fs, i: int, off: nat, data: Bytes)
    requires Shape(fs0) && Shape(fs) && 0 <= i < |fs0.inodes| && i < |fs.inodes|
    requires off <= fs0.inodes[i].size <= MAXFILE * BSIZE && off + |data| <= MAXFILE * BSIZE
    requires Spliced(fs0, fs, i, off, data)
    ensures var r := WithSize(fs, i, Max(fs0.inodes[i].size, off + |data|));
            && Shape(r) && NoHoles(r, i)
            && Contents(r, i) == Splice(Contents(fs0, i), off, data)
  {
    var r := WithSize(fs, i, Max(fs0.inodes[i].size, off + |data|));
    forall bn | 0 <= bn < MAXFILE && bn * BSIZE < r.inodes[i].size ensures SlotAddr(r, i, DataSlot(bn)) != 0 {
      assert ByteOk(fs0, fs, i, off, data, bn, 0);
    }
    var before, after := Contents(fs0, i), Contents(r, i);
    forall p | 0 <= p < |after| ensures after[p] == Splice(before, off, data)[p] {
      SplicedByte(fs0, fs, i, off, data, p);
      ContentsAt(r, i, p);
      if p < |before| { ContentsAt(fs0, i, p); }
      assert ByteOf(r, i, p / BSIZE, p % BSIZE) == ByteOf(fs, i, p / BSIZE, p % BSIZE);
      SpliceAt(before, off, data, p);
    }
  }

  /** Other files keep every byte. */
  lemma {:induction false} OthersKept(fs0: Fs, own0: map<int, Owner>, fs1: Fs, own1: map<int, Owner>, i: int, j: int)
    requires Owned(fs0, own0) && Extends(fs0, own0, fs1, own1, i) && 0 <= j < |fs0.inodes| && j != i
    requires fs0.inodes[j].size <= MAXFILE * BSIZE
    ensures fs1.inodes[j] == fs0.inodes[j] && Contents(fs1, j) == Contents(fs0, j)
  {
    forall p | 0 <= p < fs0.inodes[j].size ensures Contents(fs1, j)[p] == Contents(fs0, j)[p] {
      ContentsAt(fs0, j, p);
      ContentsAt(fs1, j, p);
      var k := DataSlot(p / BSIZE);
      SlotKept(fs0, own0, fs1, own1, i, j, k);
      if SlotAddr(fs0, j, k) != 0 {
        SlotFacts(fs0, own0, j, k);
      }
    }
  }

  // ---- how many blocks a write logs -----------------------------------------------------

  function IndirectSet(fs: Fs, i: int): set<int>
    requires Shape(fs) && 0 <= i < |fs.inodes|
  {
    if fs.inodes[i].addrs[NDIRECT] == 0 then {} else {fs.inodes[i].addrs[NDIRECT]}
  }

  lemma {:induction false} CardSum(x: set<int>, a: set<int>, extra: set<int>)
    requires x <= a + extra
    ensures |x| <= |a| + |extra|
  {
    SubsetSize(x, a + extra);
  }

  /** One turn logs the data block, a bitmap block if the data block was missing, and another
  bitmap block if the indirect block was; the indirect block itself is counted once. */
  lemma {:induction false} TurnLogs(fs: Fs, own: map<int, Owner>, fsb: Fs, ownb: map<int, Owner>, i: int, bn: nat,
                                    addr: int)
    requires Owned(fs, own) && 0 <= i < |fs.inodes| && bn < MAXFILE && Mapped(fs, own, fsb, ownb, i, bn, addr)
    ensures |fsb.logged + {addr} - IndirectSet(fsb, i)|
            <= |fs.logged - IndirectSet(fs, i)| + 1
               + (if SlotAddr(fs, i, DataSlot(bn)) == 0 then 1 else 0)
               + |IndirectSet(fsb, i)| - |IndirectSet(fs, i)|
    ensures |IndirectSet(fs, i)| <= |IndirectSet(fsb, i)|
  {
    SlotKept(fs, own, fsb, ownb, i, i, NDIRECT);
    var p := fsb.inodes[i].addrs[NDIRECT];
    var x, a := fsb.logged + {addr} - IndirectSet(fsb, i), fs.logged - IndirectSet(fs, i);
    if SlotAddr(fs, i, DataSlot(bn)) != 0 {
      CardSum(x, a, {addr});
    } else if bn < NDIRECT || fs.inodes[i].addrs[NDIRECT] != 0 {
      CardSum(x, a, {addr, BBlock(fsb.sb, addr)});
    } else {
      SlotFacts(fsb, ownb, i, DataSlot(bn));
      assert p != 0;
      CardSum(x, a, {addr, BBlock(fsb.sb, addr), BBlock(fsb.sb, p)});
    }
  }

  /** The number of blocks that the byte range [off, off+n) touches. */
  function Touched(off: nat, n: nat): nat {
    if n == 0 then 0 else (off + n - 1) / BSIZE - off / BSIZE + 1
  }

  /** The most blocks one writei can log: each touched block and, if it had to be allocated,
  its bitmap block; the indirect block and its bitmap block; the inode block.  An unaligned
  first block is already allocated. */
  function LogBound(off: nat, n: nat): nat {
    2 * Touched(off, n) + 3 - (if off % BSIZE != 0 && n > 0 then 1 else 0)
  }

  /** filewrite's chunks fit one transaction at every offset. */
  lemma {:induction false} ChunkFitsTransaction(off: nat, n: nat)
    requires n <= (MAXOPBLOCKS - 1 - 1 - 2) / 2 * BSIZE
    ensures LogBound(off, n) <= MAXOPBLOCKS
  {
    if n > 0 {
      var q, r := off / BSIZE, off % BSIZE;
      assert off == q * BSIZE + r;
      if r == 0 {
        assert (off + n - 1) / BSIZE <= q + 2;
      } else {
        assert (off + n - 1) / BSIZE <= q + 3;
      }
    }
  }

  /** And no larger chunk would: filewrite's limit is exactly the bound's. */
  lemma {:induction false} ChunkIsLargest(n: nat)
    ensures (forall off: nat :: LogBound(off, n) <= MAXOPBLOCKS) <==> n <= CHUNK
  {
    if n <= CHUNK {
      forall off: nat ensures LogBound(off, n) <= MAXOPBLOCKS {
        ChunkFitsTransaction(off, n);
      }
    } else {
      assert LogBound(0, n) > MAXOPBLOCKS;
    }
  }

  // ---- writei's loop invariant ----------------------------------------------------------

  /** After `turns` turns that wrote tot of n bytes: turns are one block each, the last byte
  written so far is in block off/BSIZE + turns - 1, and at most `allocs` blocks were missing. */
  ghost predicate Turns(off: nat, n: nat, tot: nat, turns: nat, allocs: nat) {
    && tot <= n
    && (turns == 0 <==> tot == 0)
    && (tot > 0 ==> (off / BSIZE + turns - 1) * BSIZE < off + tot <= (off / BSIZE + turns) * BSIZE)
    && (0 < tot < n ==> off + tot == (off / BSIZE + turns) * BSIZE)
    && allocs <= turns
    && (off % BSIZE != 0 && turns > 0 ==> allocs < turns)
  }

  lemma {:induction false} NextTurn(off: nat, n: nat, tot: nat, turns: nat, allocs: nat, m: nat, missing: bool)
    requires Turns(off, n, tot, turns, allocs) && tot < n
    requires m == if n - tot < BSIZE - (off + tot) % BSIZE then n - tot else BSIZE - (off + tot) % BSIZE
    requires missing ==> (off + tot) / BSIZE * BSIZE >= off
    ensures m > 0 && Turns(off, n, tot + m, turns + 1, allocs + if missing then 1 else 0)
    ensures var bn := (off + tot) / BSIZE; bn * BSIZE <= off + tot && off + tot + m <= bn * BSIZE + BSIZE
  {
    var bn := (off + tot) / BSIZE;
    assert off + tot == bn * BSIZE + (off + tot) % BSIZE;
    assert off == off / BSIZE * BSIZE + off % BSIZE;
    assert bn == off / BSIZE + turns;
  }

  lemma {:induction false} TurnsTouched(off: nat, n: nat, turns: nat, allocs: nat)
    requires Turns(off, n, n, turns, allocs)
    ensures turns + allocs + 3 <= LogBound(off, n)
  {
    if n > 0 {
      var q := off / BSIZE + turns - 1;
      assert (off + n - 1) / BSIZE == q;
    }
  }

  lemma {:induction false} SliceJoin(s: Bytes, a: nat, m: nat)
    requires a + m <= |s|
    ensures s[..a + m] == s[..a] + s[a..a + m]
  {
  }

  lemma {:induction false} WholeSlice(s: Bytes, n: nat)
    requires n == |s|
    ensures s[..n] == s
  {
  }

  lemma {:induction false} SliceGrow(s: Bytes, lo: nat, mid: nat, hi: nat)
    requires lo <= mid <= hi <= |s|
    ensures s[lo..hi] == s[lo..mid] + s[mid..hi]
  {
  }

  ghost predicate Writing(fs0: Fs, own0: map<int, Owner>, fs: Fs, own: map<int, Owner>, i: int, off: nat, data: Bytes,
                          turns: nat, allocs: nat)
  {
    && Owned(fs0, own0) && 0 <= i < |fs0.inodes|
    && Extends(fs0, own0, fs, own, i) && Spliced(fs0, fs, i, off, data)
    && (off + |data| <= fs0.inodes[i].size ==> fs.inodes == fs0.inodes)
    && LogsWithin(fs0, fs, i, turns + allocs)
  }

  /** Apart from the indirect block, at most n blocks and its bitmap block were logged. */
  ghost predicate LogsWithin(fs0: Fs, fs: Fs, i: int, n: nat)
    requires Shape(fs0) && Shape(fs) && 0 <= i < |fs0.inodes| && i < |fs.inodes|
  {
    |fs.logged - IndirectSet(fs, i)| + |IndirectSet(fs0, i)|
    <= |fs0.logged - IndirectSet(fs0, i)| + n + |IndirectSet(fs, i)|
  }

  lemma {:induction false} LogsStep(
    fs0: Fs, fs: Fs, own: map<int, Owner>, fsb: Fs, ownb: map<int, Owner>, i: int, bn: nat, addr: int, n: nat, fs': Fs)
    requires Shape(fs0) && 0 <= i < |fs0.inodes|
    requires Owned(fs, own) && i < |fs.inodes| && bn < MAXFILE && Mapped(fs, own, fsb, ownb, i, bn, addr)
    requires LogsWithin(fs0, fs, i, n) && Shape(fs') && fs'.inodes == fsb.inodes && fs'.logged == fsb.logged + {addr}
    ensures LogsWithin(fs0, fs', i, n + 1 + if SlotAddr(fs, i, DataSlot(bn)) == 0 then 1 else 0)
  {
    TurnLogs(fs, own, fsb, ownb, i, bn, addr);
  }

  lemma {:induction false} WritingStarts(fs: Fs, own: map<int, Owner>, i: int, off: nat)
    requires Owned(fs, own) && 0 <= i < |fs.inodes| && NoHoles(fs, i) && off <= fs.inodes[i].size
    ensures Writing(fs, own, fs, own, i, off, [], 0, 0)
  {
    SplicedNothing(fs, i, off);
  }

  /** A block that had to be allocated starts at or past the old end of the file. */
  lemma {:induction false} MissingIsPastEnd(fs0: Fs, own0: map<int, Owner>, fs: Fs, own: map<int, Owner>, i: int, bn: nat)
    requires Owned(fs0, own0) && 0 <= i < |fs0.inodes| && NoHoles(fs0, i)
    requires Extends(fs0, own0, fs, own, i) && bn < MAXFILE && SlotAddr(fs, i, DataSlot(bn)) == 0
    ensures bn * BSIZE >= fs0.inodes[i].size
  {
    SlotKept(fs0, own0, fs, own, i, i, DataSlot(bn));
  }

  /** The next chunk: where it goes, that it fits its block, and how the counts move. */
  lemma {:induction false} PlanTurn(
    fs0: Fs, own0: map<int, Owner>, fs: Fs, own: map<int, Owner>, i: int, off: nat, n: nat, tot: nat,
    turns: nat, allocs: nat, m: nat, bn: nat)
    requires Owned(fs0, own0) && 0 <= i < |fs0.inodes| && NoHoles(fs0, i) && Extends(fs0, own0, fs, own, i)
    requires off <= fs0.inodes[i].size && off + n <= MAXFILE * BSIZE && tot < n && Turns(off, n, tot, turns, allocs)
    requires m == if n - tot < BSIZE - (off + tot) % BSIZE then n - tot else BSIZE - (off + tot) % BSIZE
    requires bn == (off + tot) / BSIZE
    ensures 0 < m && tot + m <= n && bn < MAXFILE
    ensures bn * BSIZE <= off + tot && off + tot + m <= bn * BSIZE + BSIZE
    ensures (off + tot) % BSIZE == off + tot - bn * BSIZE
    ensures Turns(off, n, tot + m, turns + 1, allocs + if SlotAddr(fs, i, DataSlot(bn)) == 0 then 1 else 0)
  {
    var missing := SlotAddr(fs, i, DataSlot(bn)) == 0;
    if missing {
      MissingIsPastEnd(fs0, own0, fs, own, i, bn);
    }
    NextTurn(off, n, tot, turns, allocs, m, missing);
  }

  lemma {:induction false} WritingStep(
    fs0: Fs, own0: map<int, Owner>, fs: Fs, own: map<int, Owner>, fsb: Fs, ownb: map<int, Owner>, i: int, off: nat,
    data: Bytes, chunk: Bytes, bn: nat, o: nat, addr: int, fs': Fs, data': Bytes, turns: nat, allocs: nat)
    requires Writing(fs0, own0, fs, own, i, off, data, turns, allocs) && NoHoles(fs0, i)
    requires Turn(fs0, fs, own, fsb, ownb, i, off, data, chunk, bn, addr)
    requires o == off + |data| - bn * BSIZE && data' == data + chunk
    requires |fsb.blocks[addr]| == BSIZE && fs' == Put(fsb, addr, Overlay(fsb.blocks[addr], o, chunk))
    ensures Writing(fs0, own0, fs', ownb, i, off, data',
                    turns + 1, allocs + if SlotAddr(fs, i, DataSlot(bn)) == 0 then 1 else 0)
  {
    SpliceStep(fs0, own0, fs, own, fsb, ownb, i, off, data, chunk, bn, addr);
    LogsStep(fs0, fs, own, fsb, ownb, i, bn, addr, turns + allocs, fs');
    if off + |data + chunk| <= fs0.inodes[i].size && SlotAddr(fs, i, DataSlot(bn)) == 0 {
      MissingIsPastEnd(fs0, own0, fs, own, i, bn);
    }
  }

  /** A turn of writei's loop: the next chunk of src is in the block that bmap returned. */
  lemma {:induction false} TurnWritten(
    fs0: Fs, own0: map<int, Owner>, fs: Fs, own: map<int, Owner>, fsb: Fs, ownb: map<int, Owner>, i: int, off: nat,
    src: Bytes, tot: nat, m: nat, bn: nat, o: nat, chunk: Bytes, addr: int, fs': Fs, turns: nat, allocs: nat)
    returns (allocs': nat)
    requires tot < |src| && off + |src| <= MAXFILE * BSIZE && Turns(off, |src|, tot, turns, allocs)
    requires m == if |src| - tot < BSIZE - (off + tot) % BSIZE then |src| - tot else BSIZE - (off + tot) % BSIZE
    requires bn == (off + tot) / BSIZE && o == (off + tot) % BSIZE && tot + m <= |src| && chunk == src[tot..tot + m]
    requires Writing(fs0, own0, fs, own, i, off, src[..tot], turns, allocs) && NoHoles(fs0, i) && off <= fs0.inodes[i].size
    requires bn < MAXFILE && Mapped(fs, own, fsb, ownb, i, bn, addr) && addr < |fsb.blocks| && |fsb.blocks[addr]| == BSIZE
    requires o + |chunk| <= BSIZE && fs' == Put(fsb, addr, Overlay(fsb.blocks[addr], o, chunk))
    ensures m > 0 && Turns(off, |src|, tot + m, turns + 1, allocs')
    ensures Writing(fs0, own0, fs', ownb, i, off, src[..tot + m], turns + 1, allocs')
  {
    PlanTurn(fs0, own0, fs, own, i, off, |src|, tot, turns, allocs, m, bn);
    allocs' := allocs + if SlotAddr(fs, i, DataSlot(bn)) == 0 then 1 else 0;
    SliceJoin(src, tot, m);
    WritingStep(fs0, own0, fs, own, fsb, ownb, i, off, src[..tot], chunk, bn, o, addr, fs', src[..tot + m], turns, allocs);
  }

  // ---- the end of writei ----------------------------------------------------------------

  /** iupdate: copy the in-memory inode to its inode block. */
  function Iupdated(fs: Fs, i: int): Fs
    requires 0 <= i < |fs.inodes| == |fs.itab|
  {
    fs.(itab := fs.itab[i := fs.inodes[i]], logged := fs.logged + {IBlock(fs.sb, i)})
  }

  /** writei's last lines: only a write past the end touches the inode. */
  function Finished(fs: Fs, i: int, end: Uint, n: nat): Fs
    requires 0 <= i < |fs.inodes| == |fs.itab|
  {
    if n > 0 && end > fs.inodes[i].size then Iupdated(WithSize(fs, i, end), i) else fs
  }

  /** File j is the same in memory, on disk and in content. */
  ghost predicate SameFile(fs0: Fs, fs1: Fs, j: int)
    requires Shape(fs0) && Shape(fs1) && 0 <= j < |fs0.inodes| == |fs1.inodes|
  {
    && fs1.inodes[j] == fs0.inodes[j] && fs1.itab[j] == fs0.itab[j]
    && (fs0.inodes[j].size <= MAXFILE * BSIZE ==> Contents(fs1, j) == Contents(fs0, j))
  }

  ghost predicate OthersSame(fs0: Fs, fs1: Fs, i: int)
    requires Shape(fs0) && Shape(fs1) && |fs0.inodes| == |fs1.inodes|
  {
    forall j {:trigger SameFile(fs0, fs1, j)} :: 0 <= j < |fs0.inodes| && j != i ==> SameFile(fs0, fs1, j)
  }

  /** What a successful writei establishes. */
  ghost predicate Wrote(fs0: Fs, own0: map<int, Owner>, fs1: Fs, own1: map<int, Owner>, i: int, off: nat, data: Bytes)
    requires Owned(fs0, own0) && 0 <= i < |fs0.inodes| && off <= fs0.inodes[i].size <= MAXFILE * BSIZE
  {
    // the allocation state is consistent and the file still has no holes
    && Owned(fs1, own1) && |fs1.inodes| == |fs0.inodes| && NoHoles(fs1, i)
    // the file is the old byte sequence with data spliced in, its other attributes unchanged
    && Contents(fs1, i) == Splice(Contents(fs0, i), off, data)
    && fs1.inodes[i] == fs0.inodes[i].(addrs := fs1.inodes[i].addrs, size := Max(fs0.inodes[i].size, off + |data|))
    // no other file changed
    && OthersSame(fs0, fs1, i)
    // the on-disk inode is up to date if it was before
    && (fs0.itab[i] == fs0.inodes[i] ==> fs1.itab[i] == fs1.inodes[i])
  }

  lemma {:induction false} FinishedLogs(
    fs0: Fs, own0: map<int, Owner>, fs: Fs, own: map<int, Owner>, i: int, end: Uint, n: nat, r: Fs)
    requires Shape(fs0) && Extends(fs0, own0, fs, own, i) && r == Finished(fs, i, end, n)
    ensures Logs(fs0, r)
  {
    assert (IBlock(fs.sb, i) - fs.sb.inodestart) * IPB <= i;
    assert Logs(fs, r);
    LogsTrans(fs0, fs, r);
  }

  /** Sizes and on-disk inodes play no part in ownership or file bytes. */
  lemma {:induction false} FinishedSame(fs: Fs, own: map<int, Owner>, i: int, end: Uint, n: nat, r: Fs)
    requires Owned(fs, own) && 0 <= i < |fs.inodes| && r == Finished(fs, i, end, n)
    ensures Owned(r, own) && r.blocks == fs.blocks
    ensures forall j, k {:trigger SlotAddr(r, j, k)} :: 0 <= j < |fs.inodes| && 0 <= k < NSLOTS ==>
              SlotAddr(r, j, k) == SlotAddr(fs, j, k)
  {
    assert Shape(r);
    assert forall j, k {:trigger SlotAddr(r, j, k)} :: 0 <= j < |fs.inodes| && 0 <= k < NSLOTS ==>
        SlotAddr(r, j, k) == SlotAddr(fs, j, k);
    assert forall b {:trigger Bit(r, b)} :: 0 <= b < fs.sb.size ==> Bit(r, b) == Bit(fs, b);
  }

  lemma {:induction false} FinishedBytes(fs0: Fs, fs: Fs, i: int, off: nat, data: Bytes, r: Fs)
    requires Shape(fs0) && Shape(fs) && 0 <= i < |fs0.inodes| && i < |fs.inodes|
    requires off <= fs0.inodes[i].size <= MAXFILE * BSIZE && off + |data| <= MAXFILE * BSIZE && Spliced(fs0, fs, i, off, data)
    requires Shape(r) && r.blocks == fs.blocks && r.inodes == WithSize(fs, i, Max(fs0.inodes[i].size, off + |data|)).inodes
    ensures NoHoles(r, i) && Contents(r, i) == Splice(Contents(fs0, i), off, data)
  {
    SplicedContents(fs0, fs, i, off, data);
    var w := WithSize(fs, i, Max(fs0.inodes[i].size, off + |data|));
    assert forall bn {:trigger DataSlot(bn)} :: 0 <= bn < MAXFILE ==>
        SlotAddr(r, i, DataSlot(bn)) == SlotAddr(w, i, DataSlot(bn));
    SameContents(w, r, i);
  }

  lemma {:induction false} FinishedFile(fs0: Fs, own0: map<int, Owner>, fs: Fs, own: map<int, Owner>, i: int,
                                        off: nat, data: Bytes,
                                        turns: nat, allocs: nat, r: Fs)
    requires Writing(fs0, own0, fs, own, i, off, data, turns, allocs) && NoHoles(fs0, i)
    requires off <= fs0.inodes[i].size && off + |data| <= MAXFILE * BSIZE
    requires r == Finished(fs, i, off + |data|, |data|)
    ensures Shape(r) && NoHoles(r, i) && Contents(r, i) == Splice(Contents(fs0, i), off, data)
    ensures fs0.itab[i] == fs0.inodes[i] ==> r.itab[i] == r.inodes[i]
    ensures r.inodes[i] == fs0.inodes[i].(addrs := r.inodes[i].addrs, size := Max(fs0.inodes[i].size, off + |data|))
  {
    FinishedSame(fs, own, i, off + |data|, |data|, r);
    assert r.inodes == WithSize(fs, i, Max(fs0.inodes[i].size, off + |data|)).inodes;
    FinishedBytes(fs0, fs, i, off, data, r);
  }

  lemma {:induction false} FinishedOther(
    fs0: Fs, own0: map<int, Owner>, fs: Fs, own: map<int, Owner>, i: int, end: Uint, n: nat, r: Fs, j: int)
    requires Owned(fs0, own0) && Extends(fs0, own0, fs, own, i) && 0 <= j < |fs0.inodes| && j != i
    requires r == Finished(fs, i, end, n)
    ensures Shape(r) && SameFile(fs0, r, j)
  {
    FinishedSame(fs, own, i, end, n, r);
    if fs0.inodes[j].size <= MAXFILE * BSIZE {
      OthersKept(fs0, own0, fs, own, i, j);
      SameContents(fs, r, j);
    }
  }

  lemma {:induction false} FinishedOthers(
    fs0: Fs, own0: map<int, Owner>, fs: Fs, own: map<int, Owner>, i: int, end: Uint, n: nat, r: Fs)
    requires Owned(fs0, own0) && Extends(fs0, own0, fs, own, i) && r == Finished(fs, i, end, n)
    ensures Shape(r) && OthersSame(fs0, r, i)
  {
    FinishedSame(fs, own, i, end, n, r);
    forall j | 0 <= j < |fs0.inodes| && j != i ensures SameFile(fs0, r, j) {
      FinishedOther(fs0, own0, fs, own, i, end, n, r, j);
    }
  }

  lemma {:induction false} FinishWrite(fs0: Fs, own0: map<int, Owner>, fs: Fs, own: map<int, Owner>, i: int,
                                       off: nat, data: Bytes,
                                       turns: nat, allocs: nat, r: Fs)
    requires Writing(fs0, own0, fs, own, i, off, data, turns, allocs) && NoHoles(fs0, i)
    requires off <= fs0.inodes[i].size && off + |data| <= MAXFILE * BSIZE
    requires r == Finished(fs, i, off + |data|, |data|)
    ensures Wrote(fs0, own0, r, own, i, off, data)
  {
    FinishedSame(fs, own, i, off + |data|, |data|, r);
    FinishedOthers(fs0, own0, fs, own, i, off + |data|, |data|, r);
    FinishedFile(fs0, own0, fs, own, i, off, data, turns, allocs, r);
  }

  /** The transaction bound of one writei. */
  lemma {:induction false} FinishLogs(fs0: Fs, own0: map<int, Owner>, fs: Fs, own: map<int, Owner>, i: int, off: nat,
                                      data: Bytes,
                                      turns: nat, allocs: nat)
    requires Writing(fs0, own0, fs, own, i, off, data, turns, allocs)
    requires Turns(off, |data|, |data|, turns, allocs) && off + |data| <= MAXFILE * BSIZE
    ensures |Finished(fs, i, off + |data|, |data|).logged| <= |fs0.logged| + LogBound(off, |data|)
  {
    var r := Finished(fs, i, off + |data|, |data|);
    TurnsTouched(off, |data|, turns, allocs);
    SubsetSize(fs0.logged - IndirectSet(fs0, i), fs0.logged);
    CardSum(r.logged, fs.logged - IndirectSet(fs, i), IndirectSet(fs, i) + {IBlock(fs.sb, i)});
  }

  /** The end of writei: what is written, how much is logged, and that all of it is. */
  lemma {:induction false} FinishAll(fs0: Fs, own0: map<int, Owner>, fs: Fs, own: map<int, Owner>, i: int, off: nat,
                                     data: Bytes, turns: nat, allocs: nat, r: Fs)
    requires Writing(fs0, own0, fs, own, i, off, data, turns, allocs) && NoHoles(fs0, i)
    requires Turns(off, |data|, |data|, turns, allocs)
    requires off <= fs0.inodes[i].size && off + |data| <= MAXFILE * BSIZE
    requires r == Finished(fs, i, off + |data|, |data|)
    ensures Logs(fs0, r) && |r.logged| <= |fs0.logged| + LogBound(off, |data|)
    ensures Wrote(fs0, own0, r, own, i, off, data)
  {
    FinishLogs(fs0, own0, fs, own, i, off, data, turns, allocs);
    FinishedLogs(fs0, own0, fs, own, i, off + |data|, |data|, r);
    FinishWrite(fs0, own0, fs, own, i, off, data, turns, allocs, r);
  }

  lemma {:induction false} SameBlock(p: nat, k: nat)
    requires p % BSIZE + k < BSIZE
    ensures (p + k) / BSIZE == p / BSIZE && (p + k) % BSIZE == p % BSIZE + k
  {
  }

  /** A chunk read out of one block is a slice of the file. */
  lemma {:induction false} ReadSlice(fs: Fs, own: map<int, Owner>, i: int, p: nat, m: nat)
    requires Owned(fs, own) && 0 <= i < |fs.inodes| && NoHoles(fs, i)
    requires 0 < m && p + m <= fs.inodes[i].size && p % BSIZE + m <= BSIZE
    ensures p / BSIZE < MAXFILE && SlotAddr(fs, i, DataSlot(p / BSIZE)) != 0
    ensures var a := SlotAddr(fs, i, DataSlot(p / BSIZE));
            && 0 < a < |fs.blocks| && |fs.blocks[a]| == BSIZE
            && Contents(fs, i)[p..p + m] == fs.blocks[a][p % BSIZE..p % BSIZE + m]
  {
    var bn := p / BSIZE;
    assert bn * BSIZE <= p && DataSlot(bn) >= 0;
    SlotFacts(fs, own, i, DataSlot(bn));
    var a := SlotAddr(fs, i, DataSlot(bn));
    var x, y := Contents(fs, i)[p..p + m], fs.blocks[a][p % BSIZE..p % BSIZE + m];
    forall k | 0 <= k < m ensures x[k] == y[k] {
      SameBlock(p, k);
      ContentsAt(fs, i, p + k);
    }
  }

  // ---- filewrite ------------------------------------------------------------------------

  const CHUNK: nat := (MAXOPBLOCKS - 1 - 1 - 2) / 2 * BSIZE

  /** How many of n bytes filewrite gets into a file of `size` bytes at `off`: it stops at the
  first chunk that writei rejects. */
  function Accepted(size: nat, off: nat, n: nat): nat
    decreases n
  {
    var n1 := if n > CHUNK then CHUNK else n;
    if n == 0 || off > size || off + n1 > MAXFILE * BSIZE then 0
    else n1 + Accepted(Max(size, off + n1), off + n1, n - n1)
  }

  lemma {:induction false} AcceptedAtMost(size: nat, off: nat, n: nat)
    ensures Accepted(size, off, n) <= n
    ensures off <= size && off + n <= MAXFILE * BSIZE ==> Accepted(size, off, n) == n
    decreases n
  {
    var n1 := if n > CHUNK then CHUNK else n;
    if !(n == 0 || off > size || off + n1 > MAXFILE * BSIZE) {
      AcceptedAtMost(Max(size, off + n1), off + n1, n - n1);
    }
  }

  /** All of it when it fits, or else the whole chunks that do. */
  lemma {:induction false} AcceptedExact(size: nat, off: nat, n: nat)
    requires off <= size
    ensures Accepted(size, off, n) ==
              if off + n <= MAXFILE * BSIZE then n
              else if off > MAXFILE * BSIZE then 0
              else CHUNK * ((MAXFILE * BSIZE - off) / CHUNK)
    decreases n
  {
    var n1 := if n > CHUNK then CHUNK else n;
    if !(n == 0 || off + n1 > MAXFILE * BSIZE) {
      AcceptedExact(Max(size, off + n1), off + n1, n - n1);
    }
  }

  /** Two adjacent splices are one. */
  lemma {:induction false} SpliceTwice(s: Bytes, off: nat, a: Bytes, b: Bytes)
    requires off <= |s|
    ensures Splice(Splice(s, off, a), off + |a|, b) == Splice(s, off, a + b)
  {
    var x, y := Splice(Splice(s, off, a), off + |a|, b), Splice(s, off, a + b);
    forall p | 0 <= p < |x| ensures x[p] == y[p] {
      SpliceAt(s, off, a + b, p);
      SpliceAt(Splice(s, off, a), off + |a|, b, p);
      if p < |Splice(s, off, a)| {
        SpliceAt(s, off, a, p);
      }
    }
  }

  /** An empty write changes nothing, at whatever offset. */
  ghost predicate AppendedTo(before: Bytes, after: Bytes, off: nat, data: Bytes) {
    if |data| == 0 then after == before else off <= |before| && after == Splice(before, off, data)
  }

  lemma {:induction false} AppendedMore(before: Bytes, mid: Bytes, after: Bytes, off: nat, data: Bytes, chunk: Bytes,
                                        data': Bytes, pos: nat)
    requires AppendedTo(before, mid, off, data) && chunk != [] && data' == data + chunk
    requires pos == off + |data| && pos <= |mid| && after == Splice(mid, pos, chunk)
    ensures AppendedTo(before, after, off, data')
  {
    if data == [] {
      assert data' == chunk;
    } else {
      SpliceTwice(before, off, data, chunk);
    }
  }

  /** The state of filewrite after it has written `data` in whole chunks. */
  ghost predicate Appended(fs0: Fs, own0: map<int, Owner>, fs: Fs, own: map<int, Owner>, i: int, off: nat, data: Bytes)
    requires Owned(fs0, own0) && 0 <= i < |fs0.inodes| && NoHoles(fs0, i)
  {
    && Owned(fs, own) && |fs.inodes| == |fs0.inodes| && NoHoles(fs, i)
    && fs.inodes[i].kind == fs0.inodes[i].kind
    && AppendedTo(Contents(fs0, i), Contents(fs, i), off, data)
    && OthersSame(fs0, fs, i)
    && (fs0.itab[i] == fs0.inodes[i] ==> fs.itab[i] == fs.inodes[i])
  }

  lemma {:induction false} OthersTrans(fs0: Fs, fs1: Fs, fs2: Fs, i: int)
    requires Shape(fs0) && Shape(fs1) && Shape(fs2) && |fs0.inodes| == |fs1.inodes| == |fs2.inodes|
    requires OthersSame(fs0, fs1, i) && OthersSame(fs1, fs2, i)
    ensures OthersSame(fs0, fs2, i)
  {
    forall j | 0 <= j < |fs0.inodes| && j != i ensures SameFile(fs0, fs2, j) {
      assert SameFile(fs0, fs1, j) && SameFile(fs1, fs2, j);
    }
  }

  lemma {:induction false} AppendedStep(
    fs0: Fs, own0: map<int, Owner>, fs: Fs, own: map<int, Owner>, fs1: Fs, own1: map<int, Owner>, i: int, off: nat,
    data: Bytes, chunk: Bytes, data': Bytes, pos: nat, end: nat)
    requires Owned(fs0, own0) && 0 <= i < |fs0.inodes| && NoHoles(fs0, i)
    requires Appended(fs0, own0, fs, own, i, off, data) && chunk != [] && data' == data + chunk
    requires pos == off + |data| && end == pos + |chunk|
    requires pos <= fs.inodes[i].size && Wrote(fs, own, fs1, own1, i, pos, chunk)
    ensures Appended(fs0, own0, fs1, own1, i, off, data')
    ensures fs1.inodes[i].size == Max(fs.inodes[i].size, end)
  {
    OthersTrans(fs0, fs, fs1, i);
    AppendedMore(Contents(fs0, i), Contents(fs, i), Contents(fs1, i), off, data, chunk, data', pos);
  }

  /** begin_op empties the set of logged blocks, which nothing else depends on. */
  lemma {:induction false} Unlogged(fs: Fs, own: map<int, Owner>, i: int, r: Fs)
    requires Owned(fs, own) && 0 <= i < |fs.inodes| && NoHoles(fs, i) && r == fs.(logged := {})
    ensures Owned(r, own) && NoHoles(r, i)
    ensures forall j, k {:trigger SlotAddr(r, j, k)} :: 0 <= j < |fs.inodes| && 0 <= k < NSLOTS ==>
              SlotAddr(r, j, k) == SlotAddr(fs, j, k)
    ensures OthersSame(r, fs, i) && OthersSame(fs, r, i) && Contents(r, i) == Contents(fs, i)
  {
    assert forall j, k {:trigger SlotAddr(r, j, k)} :: 0 <= j < |fs.inodes| && 0 <= k < NSLOTS ==>
        SlotAddr(r, j, k) == SlotAddr(fs, j, k);
    assert forall b {:trigger Bit(r, b)} :: 0 <= b < fs.sb.size ==> Bit(r, b) == Bit(fs, b);
    forall j | 0 <= j < |fs.inodes| && fs.inodes[j].size <= MAXFILE * BSIZE ensures Contents(r, j) == Contents(fs, j) {
      SameContents(fs, r, j);
    }
  }

  lemma {:induction false} WroteUnlogged(fs: Fs, own: map<int, Owner>, i: int, m: Fs, r: Fs, own1: map<int, Owner>,
                                         off: nat, data: Bytes)
    requires Owned(fs, own) && 0 <= i < |fs.inodes| && NoHoles(fs, i) && m == fs.(logged := {})
    requires Owned(m, own) && off <= m.inodes[i].size <= MAXFILE * BSIZE && Wrote(m, own, r, own1, i, off, data)
    ensures Wrote(fs, own, r, own1, i, off, data)
  {
    Unlogged(fs, own, i, m);
    OthersTrans(fs, m, r, i);
  }

  lemma {:induction false} TrackedUnlogged(fs: Fs, m: Fs, r: Fs)
    requires m == fs.(logged := {}) && Logs(m, r)
    ensures Tracked(fs, r) && AllLoggable(r)
  {
    forall x ensures TrackedAt(fs, r, x) {
      assert TrackedAt(m, r, x);
    }
  }

  /** filewrite's progress: `done` bytes of n are in, the rest is still to be decided. */
  ghost predicate Undecided(size0: nat, off: nat, n: nat, size: nat, done: nat) {
    done <= n && Accepted(size0, off, n) == done + Accepted(size, off + done, n - done)
  }

  /** How far filewrite is after its next chunk. */
  function NextStop(n: nat, done: nat): nat { if n - done > CHUNK then done + CHUNK else n }

  lemma {:induction false} UndecidedStep(size0: nat, off: nat, n: nat, size: nat, done: nat, next: nat, size': nat)
    requires Undecided(size0, off, n, size, done) && done < n
    requires next == NextStop(n, done)
    requires off + done <= size && off + next <= MAXFILE * BSIZE && size' == Max(size, off + next)
    ensures Undecided(size0, off, n, size', next)
  {
    assert Accepted(size, off + done, n - done) == next - done + Accepted(size', off + next, n - next) by {
      assert off + done + (next - done) == off + next;
      assert n - done - (next - done) == n - next;
    }
  }

  /** The invariant of filewrite's loop, from the state (fs0, own0), with `done` bytes of addr in. */
  ghost predicate Filewriting(fs0: Fs, own0: map<int, Owner>, fs: Fs, own: map<int, Owner>, i: int, off: nat, addr: Bytes,
                              done: nat)
    requires Owned(fs0, own0) && 0 <= i < |fs0.inodes| && NoHoles(fs0, i) && done <= |addr|
  {
    && Appended(fs0, own0, fs, own, i, off, addr[..done])
    && Undecided(fs0.inodes[i].size, off, |addr|, fs.inodes[i].size, done)
  }

  /** Where filewrite stops: everything is in, or the next chunk is rejected. */
  lemma {:induction false} UndecidedEnds(size0: nat, off: nat, n: nat, size: nat, done: nat)
    requires Undecided(size0, off, n, size, done)
    requires done == n || off + done > size || off + NextStop(n, done) > MAXFILE * BSIZE
    ensures done == Accepted(size0, off, n)
  {
  }

  lemma {:induction false} AppendedStarts(fs: Fs, own: map<int, Owner>, i: int, off: nat, data: Bytes)
    requires Owned(fs, own) && 0 <= i < |fs.inodes| && NoHoles(fs, i) && data == []
    ensures Appended(fs, own, fs, own, i, off, data)
  {
    forall j | 0 <= j < |fs.inodes| && j != i ensures SameFile(fs, fs, j) {}
  }

  /** Emptied of log entries, the state still satisfies filewrite's invariant. */
  lemma {:induction false} AppendedUnlogged(
    fs0: Fs, own0: map<int, Owner>, fs: Fs, own: map<int, Owner>, i: int, off: nat, data: Bytes, r: Fs)
    requires Owned(fs0, own0) && 0 <= i < |fs0.inodes| && NoHoles(fs0, i)
    requires Appended(fs0, own0, fs, own, i, off, data) && r == fs.(logged := {})
    ensures Appended(fs0, own0, r, own, i, off, data)
  {
    Unlogged(fs, own, i, r);
    OthersTrans(fs0, fs, r, i);
  }

  /** A turn of filewrite's loop that wrote its chunk. */
  lemma {:induction false} TurnDone(
    fs0: Fs, own0: map<int, Owner>, fs: Fs, own: map<int, Owner>, fs1: Fs, own1: map<int, Owner>, i: int, off: nat,
    addr: Bytes, done: nat, next: nat, chunk: Bytes, pos: nat)
    requires Owned(fs0, own0) && 0 <= i < |fs0.inodes| && NoHoles(fs0, i) && done < next <= |addr|
    requires next == NextStop(|addr|, done) && chunk == addr[done..next] && pos == off + done
    requires Filewriting(fs0, own0, fs, own, i, off, addr, done)
    requires pos <= fs.inodes[i].size && off + next <= MAXFILE * BSIZE && Wrote(fs, own, fs1, own1, i, pos, chunk)
    ensures Filewriting(fs0, own0, fs1, own1, i, off, addr, next)
  {
    SliceGrow(addr, 0, done, next);
    AppendedStep(fs0, own0, fs, own, fs1, own1, i, off, addr[..done], chunk, addr[..next], pos, off + next);
    UndecidedStep(fs0.inodes[i].size, off, |addr|, fs.inodes[i].size, done, next, fs1.inodes[i].size);
  }

  /** A turn whose chunk was rejected: filewrite stops here. */
  lemma {:induction false} TurnRejected(
    fs0: Fs, own0: map<int, Owner>, fs: Fs, own: map<int, Owner>, i: int, off: nat, addr: Bytes, done: nat, fs1: Fs)
    requires Owned(fs0, own0) && 0 <= i < |fs0.inodes| && NoHoles(fs0, i) && done < |addr|
    requires Filewriting(fs0, own0, fs, own, i, off, addr, done) && fs1 == fs.(logged := {})
    requires off + done > fs.inodes[i].size || off + NextStop(|addr|, done) > MAXFILE * BSIZE
    ensures Filewriting(fs0, own0, fs1, own, i, off, addr, done)
    ensures done == Accepted(fs0.inodes[i].size, off, |addr|)
  {
    AppendedUnlogged(fs0, own0, fs, own, i, off, addr[..done], fs1);
    UndecidedEnds(fs0.inodes[i].size, off, |addr|, fs.inodes[i].size, done);
  }

  // ---- an example -----------------------------------------------------------------------

  function NoBits(): (r: BitBlock)
    ensures |r| == BSIZE && forall k :: 0 <= k < BSIZE ==> r[k] == 0
  {
    seq(BSIZE, _ => 0)
  }

  /** Two blocks, the second of them a file of n bytes. */
  function Small(n: Uint): Fs {
    var inode := Inode(2, 0, 0, 1, n, [1] + seq(NDIRECT, _ => 0));
    Fs(Super(2, 1, 0, 0, 1), [ZeroBlock(), ZeroBlock()], [WithBit(WithBit(NoBits(), 0, true), 1, true)],
       [inode], [inode], {})
  }

  lemma {:induction false} SmallSlots(n: Uint, k: int)
    requires 0 <= k < NSLOTS
    ensures Shape(Small(n)) && SlotAddr(Small(n), 0, k) == if k == 0 then 1 else 0
  {
    if 0 < k <= NDIRECT {
      assert Small(n).inodes[0].addrs[k] == seq(NDIRECT, _ => 0)[k - 1];
    }
  }

  /** The invariants of the file system are met by an actual one. */
  lemma {:induction false} SmallOwned(n: Uint)
    requires n <= BSIZE
    ensures Owned(Small(n), map[1 := Owner(0, 0)]) && NoHoles(Small(n), 0)
  {
    var fs := Small(n);
    forall k | 0 <= k < NSLOTS ensures SlotAddr(fs, 0, k) == if k == 0 then 1 else 0 {
      SmallSlots(n, k);
    }
    TestWithBit(NoBits(), 0, true, 0);
    TestWithBit(WithBit(NoBits(), 0, true), 1, true, 0);
    TestWithBit(WithBit(NoBits(), 0, true), 1, true, 1);
    SmallSlots(n, 0);
  }
}
