/** How data blocks, blocks of the free map and inodes (struct dinode of fs.h) look on the disk. */
module FsImage {
  import opened Params
  import opened RedoLog
  import opened FsLayout

  datatype Content = Data(bytes: Bytes) | Bits(bits: BitBlock) | Inodes(inodes: seq<Inode>)

  ghost predicate FitsBlock(c: Content) {
    match c
    case Data(bytes) => |bytes| == BSIZE
    case Bits(bits) => |bits| == BSIZE
    case Inodes(inodes) => |inodes| <= IPB && forall i :: 0 <= i < |inodes| ==> |inodes[i].addrs| == NDIRECT + 1
  }

  /** Contents of one kind, which is decided by where the block is. */
  predicate SameKind(x: Content, y: Content) {
    (x.Data? && y.Data?) || (x.Bits? && y.Bits?) || (x.Inodes? && y.Inodes? && |x.inodes| == |y.inodes|)
  }

  /** 512 bytes as the words of a block. */
  function RawBytes(bytes: Bytes): (b: Block)
    requires |bytes| == BSIZE
    ensures |b.words| == BWORDS
  {
    Block(seq(BWORDS, k requires 0 <= k < BWORDS => Word(bytes, k)))
  }

  function Octets(bits: BitBlock): (bytes: Bytes)
    ensures |bytes| == |bits|
  {
    seq(|bits|, j requires 0 <= j < |bits| => bits[j] as int)
  }

  const INODE_WORDS: nat := 16  // BWORDS / IPB

  /** The 16 bits of a short. */
  function Half(x: Short): int { x % 0x1_0000 }

  /** Word f of a struct dinode: two words of shorts, the size, the addresses. */
  function InodeWord(x: Inode, f: nat): int
    requires |x.addrs| == NDIRECT + 1 && f < INODE_WORDS
  {
    if f == 0 then Half(x.kind) + 0x1_0000 * Half(x.major)
    else if f == 1 then Half(x.minor) + 0x1_0000 * Half(x.nlink)
    else if f == 2 then x.size
    else x.addrs[f - 3]
  }

  function RawInodes(inodes: seq<Inode>): (b: Block)
    requires |inodes| <= IPB && forall i :: 0 <= i < |inodes| ==> |inodes[i].addrs| == NDIRECT + 1
    ensures |b.words| == BWORDS
  {
    Block(seq(BWORDS, k requires 0 <= k < BWORDS =>
      if k / INODE_WORDS < |inodes| then InodeWord(inodes[k / INODE_WORDS], k % INODE_WORDS) else 0))
  }

  ghost function Raw(c: Content): (b: Block)
    requires FitsBlock(c)
    ensures |b.words| == BWORDS
  {
    match c
    case Data(bytes) => RawBytes(bytes)
    case Bits(bits) => RawBytes(Octets(bits))
    case Inodes(inodes) => RawInodes(inodes)
  }

  // ---- reading back ---------------------------------------------------------------------

  lemma {:induction false} FourBytes(a: Byte, b: Byte, c: Byte, d: Byte, a': Byte, b': Byte, c': Byte, d': Byte)
    requires a as int + 0x100 * b as int + 0x1_0000 * c as int + 0x100_0000 * d as int
             == a' as int + 0x100 * b' as int + 0x1_0000 * c' as int + 0x100_0000 * d' as int
    ensures a == a' && b == b' && c == c' && d == d'
  {
  }

  lemma {:induction false} BytesBack(x: Bytes, y: Bytes)
    requires |x| == |y| == BSIZE && RawBytes(x) == RawBytes(y)
    ensures x == y
  {
    forall j | 0 <= j < BSIZE ensures x[j] == y[j] {
      var k := j / 4;
      assert RawBytes(x).words[k] == Word(x, k) && RawBytes(y).words[k] == Word(y, k);
      FourBytes(x[4 * k], x[4 * k + 1], x[4 * k + 2], x[4 * k + 3], y[4 * k], y[4 * k + 1], y[4 * k + 2], y[4 * k + 3]);
    }
  }

  lemma {:induction false} OctetBack(x: bv8, y: bv8)
    requires x as int == y as int
    ensures x == y
  {
    assert (x as int) as bv8 == (y as int) as bv8;
  }

  lemma {:induction false} OctetsBack(x: BitBlock, y: BitBlock)
    requires |x| == |y| && Octets(x) == Octets(y)
    ensures x == y
  {
    forall j | 0 <= j < |x| ensures x[j] == y[j] {
      assert Octets(x)[j] == Octets(y)[j];
      OctetBack(x[j], y[j]);
    }
  }

  lemma {:induction false} HalvesBack(a: Short, b: Short, a': Short, b': Short)
    requires Half(a) + 0x1_0000 * Half(b) == Half(a') + 0x1_0000 * Half(b')
    ensures a == a' && b == b'
  {
  }

  lemma {:induction false} InodeBack(x: Inode, y: Inode)
    requires |x.addrs| == |y.addrs| == NDIRECT + 1
    requires forall f :: 0 <= f < INODE_WORDS ==> InodeWord(x, f) == InodeWord(y, f)
    ensures x == y
  {
    assert InodeWord(x, 0) == InodeWord(y, 0) && InodeWord(x, 1) == InodeWord(y, 1) && InodeWord(x, 2) == InodeWord(y, 2);
    HalvesBack(x.kind, x.major, y.kind, y.major);
    HalvesBack(x.minor, x.nlink, y.minor, y.nlink);
    forall k | 0 <= k <= NDIRECT ensures x.addrs[k] == y.addrs[k] {
      assert InodeWord(x, k + 3) == InodeWord(y, k + 3);
    }
  }

  lemma {:induction false} WordIndex(i: nat, f: nat)
    requires f < INODE_WORDS
    ensures (i * INODE_WORDS + f) / INODE_WORDS == i && (i * INODE_WORDS + f) % INODE_WORDS == f
  {
  }

  lemma {:induction false} InodeWordAt(inodes: seq<Inode>, i: nat, f: nat)
    requires FitsBlock(Inodes(inodes)) && i < |inodes| && f < INODE_WORDS
    ensures i * INODE_WORDS + f < BWORDS && RawInodes(inodes).words[i * INODE_WORDS + f] == InodeWord(inodes[i], f)
  {
    WordIndex(i, f);
  }

  lemma {:induction false} InodesBack(x: seq<Inode>, y: seq<Inode>)
    requires FitsBlock(Inodes(x)) && FitsBlock(Inodes(y)) && |x| == |y| && RawInodes(x) == RawInodes(y)
    ensures x == y
  {
    forall i | 0 <= i < |x| ensures x[i] == y[i] {
      forall f | 0 <= f < INODE_WORDS ensures InodeWord(x[i], f) == InodeWord(y[i], f) {
        InodeWordAt(x, i, f);
        InodeWordAt(y, i, f);
      }
      InodeBack(x[i], y[i]);
    }
  }

  /** The layout loses nothing: contents of one kind can be read back from their block. */
  lemma {:induction false} RawLossless(x: Content, y: Content)
    requires FitsBlock(x) && FitsBlock(y) && SameKind(x, y) && Raw(x) == Raw(y)
    ensures x == y
  {
    match x
    case Data(bytes) => BytesBack(bytes, y.bytes);
    case Bits(bits) =>
      BytesBack(Octets(bits), Octets(y.bits));
      OctetsBack(bits, y.bits);
    case Inodes(inodes) => InodesBack(inodes, y.inodes);
  }

  /** But it does not tell kinds apart: a data block can look like a block of the free map. */
  lemma {:induction false} KindsLookAlike(bits: BitBlock)
    requires |bits| == BSIZE
    ensures Raw(Bits(bits)) == Raw(Data(Octets(bits)))
  {
  }
}
