/** The disk layout of the file system (fs.h), as values.

The regions of the disk never overlap, so the model keeps them apart: bitmap blocks,
on-disk inodes, and all other blocks by block number.  `logged` collects the block numbers
passed to log_write by the operation in progress.

An indirect block is 128 little-endian words in its 512 bytes; a block of the free map is
4096 bits in its 512 bytes.  The lemmas say that writing one word or one bit leaves the
others alone. */
module FsLayout {
  import opened Params

  const BSIZE: nat := 512
  const NDIRECT: nat := 12
  const NINDIRECT: nat := 128
  const MAXFILE: nat := NDIRECT + NINDIRECT
  const BPB: nat := BSIZE * 8
  const IPB: nat := 8
  const T_DEV: Short := 3

  /** The superblock; nmeta is the number of blocks before the data area. */
  datatype Super = Super(size: nat, ninodes: nat, inodestart: nat, bmapstart: nat, nmeta: nat)

  type Bytes = seq<Byte>

  datatype Inode = Inode(kind: Short, major: Short, minor: Short, nlink: Short, size: Uint, addrs: seq<Uint>)

  // ---- words of an indirect block -------------------------------------------------------

  function Word(b: Bytes, i: nat): int
    requires |b| == BSIZE && i < NINDIRECT
  {
    b[4 * i] as int + 0x100 * b[4 * i + 1] as int + 0x1_0000 * b[4 * i + 2] as int + 0x100_0000 * b[4 * i + 3] as int
  }

  function SetWord(b: Bytes, i: nat, v: Uint): (r: Bytes)
    requires |b| == BSIZE && i < NINDIRECT
    ensures |r| == BSIZE
  {
    b[4 * i := v % 0x100]
     [4 * i + 1 := v / 0x100 % 0x100]
     [4 * i + 2 := v / 0x1_0000 % 0x100]
     [4 * i + 3 := v / 0x100_0000]
  }

  lemma {:induction false} WordBytes(v: nat)
    ensures v % 0x100 + 0x100 * (v / 0x100 % 0x100) + 0x1_0000 * (v / 0x1_0000 % 0x100)
            + 0x100_0000 * (v / 0x100_0000) == v
  {
    var a := v / 0x100;
    var b := a / 0x100;
    assert v / 0x1_0000 == b;
    assert v / 0x100_0000 == b / 0x100;
  }

  lemma {:induction false} WordSet(b: Bytes, i: nat, v: Uint, j: nat)
    requires |b| == BSIZE && i < NINDIRECT && j < NINDIRECT
    ensures Word(SetWord(b, i, v), j) == if j == i then v else Word(b, j)
  {
    WordBytes(v);
  }

  function LittleEndian(bytes: Bytes): int {
    if bytes == [] then 0 else bytes[0] as int + 0x100 * LittleEndian(bytes[1..])
  }

  lemma {:induction false} WordLittleEndian(b: Bytes, i: nat)
    requires |b| == BSIZE && i < NINDIRECT
    ensures Word(b, i) == LittleEndian(b[4 * i..4 * i + 4])
  {
    var w := b[4 * i..4 * i + 4];
    assert w[0] == b[4 * i] && w[1] == b[4 * i + 1] && w[2] == b[4 * i + 2] && w[3] == b[4 * i + 3];
    assert w[3..][1..] == [] && w[2..][1..] == w[3..] && w[1..][1..] == w[2..];
    assert LittleEndian(w[3..]) == w[3] as int;
    assert LittleEndian(w[2..]) == w[2] as int + 0x100 * LittleEndian(w[3..]);
    assert LittleEndian(w[1..]) == w[1] as int + 0x100 * LittleEndian(w[2..]);
  }

  function ZeroBlock(): (r: Bytes)
    ensures |r| == BSIZE && forall i :: 0 <= i < BSIZE ==> r[i] == 0
  {
    seq(BSIZE, _ => 0)
  }

  // ---- bits of the free map -------------------------------------------------------------

  type BitBlock = seq<bv8>

  function Mask(bi: nat): bv8 {
    var k := bi % 8;
    if k == 0 then 1 else if k == 1 then 2 else if k == 2 then 4 else if k == 3 then 8
    else if k == 4 then 16 else if k == 5 then 32 else if k == 6 then 64 else 128
  }

  function WithMask(x: bv8, bi: nat, on: bool): bv8 {
    if on then x | Mask(bi) else x & !Mask(bi)
  }

  lemma {:induction false} MaskSet(x: bv8, i: nat, j: nat, on: bool)
    ensures (WithMask(x, i, on) & Mask(j) != 0) == if i % 8 == j % 8 then on else x & Mask(j) != 0
  {
  }

  lemma {:induction false} MaskIsShift(bi: nat)
    ensures Mask(bi) == (1 as bv8) << (bi % 8)
  {
  }

  predicate TestBit(block: BitBlock, bi: nat)
    requires |block| == BSIZE && bi < BPB
  {
    block[bi / 8] & Mask(bi) != 0
  }

  function WithBit(block: BitBlock, bi: nat, on: bool): (r: BitBlock)
    requires |block| == BSIZE && bi < BPB
    ensures |r| == BSIZE
  {
    block[bi / 8 := WithMask(block[bi / 8], bi, on)]
  }

  lemma {:induction false} SameBit(bi: nat, bj: nat)
    ensures bi == bj <==> bi / 8 == bj / 8 && bi % 8 == bj % 8
  {
    assert bi == 8 * (bi / 8) + bi % 8;
  }

  /** Bit bi of the block of the free map that starts at block b. */
  lemma {:induction false} BitIndex(b: nat, bi: nat)
    requires b % BPB == 0 && bi < BPB
    ensures (b + bi) / BPB == b / BPB && (b + bi) % BPB == bi
  {
  }

  lemma {:induction false} TestWithBit(block: BitBlock, bi: nat, on: bool, bj: nat)
    requires |block| == BSIZE && bi < BPB && bj < BPB
    ensures TestBit(WithBit(block, bi, on), bj) == if bj == bi then on else TestBit(block, bj)
  {
    SameBit(bi, bj);
    var r := WithBit(block, bi, on);
    if bi / 8 == bj / 8 {
      MaskSet(block[bi / 8], bi, bj, on);
      assert r[bj / 8] == WithMask(block[bi / 8], bi, on);
    } else {
      assert r[bj / 8] == block[bj / 8];
    }
  }
}
