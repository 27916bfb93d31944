/** Who owns which block (fs.c): the free map, the inodes and the indirect blocks agree.

An inode has NSLOTS slots: its twelve direct addresses, its indirect pointer, and the
entries of its indirect block.  `own` names, for every block in use outside the metadata,
the one slot that refers to it.

`Owned` is the invariant: the bit of a block is set exactly if it is metadata or some slot
holds it, and no two slots hold the same block.  `Alloc`, `Link`, `Attach` and `Put` are the
elementary changes, each with a lemma that says what it does to slots, bits and owners. */
module FsOwnership {
  import opened Params
  import opened FsLayout

  const NSLOTS: nat := MAXFILE + 1

  /** `inodes` are the inodes as the kernel sees them now (the in-memory copy of a locked
  inode, the on-disk one otherwise); `itab` is what is in the inode blocks. */
  datatype Fs = Fs(sb: Super, blocks: seq<Bytes>, bitmap: seq<BitBlock>,
                   inodes: seq<Inode>, itab: seq<Inode>, logged: set<int>)

  datatype Owner = Owner(inum: int, slot: int)

  ghost predicate Shape(fs: Fs) {
    && |fs.blocks| == fs.sb.size < UINT_LIMIT
    && 1 <= fs.sb.nmeta <= fs.sb.size
    && fs.sb.size <= |fs.bitmap| * BPB
    && |fs.inodes| == |fs.itab| == fs.sb.ninodes
    && (forall b :: 0 <= b < |fs.blocks| ==> |fs.blocks[b]| == BSIZE)
    && (forall k :: 0 <= k < |fs.bitmap| ==> |fs.bitmap[k]| == BSIZE)
    && (forall i :: 0 <= i < |fs.inodes| ==> |fs.inodes[i].addrs| == NDIRECT + 1)
    && (forall i :: 0 <= i < |fs.itab| ==> |fs.itab[i].addrs| == NDIRECT + 1)
  }

  predicate Bit(fs: Fs, b: int)
    requires 0 <= b < |fs.bitmap| * BPB && |fs.bitmap[b / BPB]| == BSIZE
  {
    TestBit(fs.bitmap[b / BPB], b % BPB)
  }

  /** The address in slot k of inode i; 0 when the slot is empty. */
  function SlotAddr(fs: Fs, i: int, k: int): int
    requires Shape(fs) && 0 <= i < |fs.inodes| && 0 <= k < NSLOTS
  {
    var addrs := fs.inodes[i].addrs;
    if k <= NDIRECT then addrs[k]
    else if 0 < addrs[NDIRECT] < |fs.blocks| then Word(fs.blocks[addrs[NDIRECT]], k - NDIRECT - 1)
    else 0
  }

  /** The slot of the n-th block of a file. */
  function DataSlot(bn: int): int { if bn < NDIRECT then bn else bn + 1 }

  ghost predicate SlotsOwned(fs: Fs, own: map<int, Owner>)
    requires Shape(fs)
  {
    forall i, k {:trigger SlotAddr(fs, i, k)} :: 0 <= i < |fs.inodes| && 0 <= k < NSLOTS && SlotAddr(fs, i, k) != 0 ==>
      SlotAddr(fs, i, k) in own && own[SlotAddr(fs, i, k)] == Owner(i, k)
  }

  ghost predicate OwnersHold(fs: Fs, own: map<int, Owner>)
    requires Shape(fs)
  {
    forall b {:trigger own[b]} :: b in own ==>
      && fs.sb.nmeta <= b < fs.sb.size
      && 0 <= own[b].inum < |fs.inodes| && 0 <= own[b].slot < NSLOTS
      && SlotAddr(fs, own[b].inum, own[b].slot) == b
  }

  ghost predicate BitsMatch(fs: Fs, own: map<int, Owner>)
    requires Shape(fs)
  {
    forall b {:trigger Bit(fs, b)} :: 0 <= b < fs.sb.size ==> (Bit(fs, b) <==> b < fs.sb.nmeta || b in own)
  }

  /** The ownership invariant: a bit is set exactly for metadata and for blocks that exactly
  one slot of exactly one inode refers to. */
  ghost predicate Owned(fs: Fs, own: map<int, Owner>) {
    Shape(fs) && SlotsOwned(fs, own) && OwnersHold(fs, own) && BitsMatch(fs, own)
  }

  // ---- elementary changes ---------------------------------------------------------------

  function BBlock(sb: Super, b: int): int { b / BPB + sb.bmapstart }

  function IBlock(sb: Super, i: int): int { i / IPB + sb.inodestart }

  function SetBit(fs: Fs, b: int, on: bool): (r: Fs)
    requires 0 <= b < |fs.bitmap| * BPB && |fs.bitmap[b / BPB]| == BSIZE
  {
    fs.(bitmap := fs.bitmap[b / BPB := WithBit(fs.bitmap[b / BPB], b % BPB, on)],
        logged := fs.logged + {BBlock(fs.sb, b)})
  }

  /** balloc's effect: mark b in use, zero it. */
  function Alloc(fs: Fs, b: int): (r: Fs)
    requires Shape(fs) && 0 <= b < fs.sb.size
  {
    var m := SetBit(fs, b, true);
    m.(blocks := m.blocks[b := ZeroBlock()], logged := m.logged + {b})
  }

  /** Store address b in slot k of inode i. */
  function Link(fs: Fs, i: int, k: int, b: Uint): (r: Fs)
    requires Shape(fs) && 0 <= i < |fs.inodes| && 0 <= k < NSLOTS
    requires k > NDIRECT ==> 0 < fs.inodes[i].addrs[NDIRECT] < |fs.blocks|
  {
    var addrs := fs.inodes[i].addrs;
    if k <= NDIRECT then fs.(inodes := fs.inodes[i := fs.inodes[i].(addrs := addrs[k := b])])
    else
      var p := addrs[NDIRECT];
      fs.(blocks := fs.blocks[p := SetWord(fs.blocks[p], k - NDIRECT - 1, b)], logged := fs.logged + {p})
  }

  /** Overwrite a block through log_write. */
  function Put(fs: Fs, b: int, data: Bytes): (r: Fs)
    requires 0 <= b < |fs.blocks|
  {
    fs.(blocks := fs.blocks[b := data], logged := fs.logged + {b})
  }

  lemma {:induction false} SetBitBits(fs: Fs, b: int, on: bool)
    requires Shape(fs) && 0 <= b < fs.sb.size
    ensures Shape(SetBit(fs, b, on))
    ensures forall x {:trigger Bit(SetBit(fs, b, on), x)} :: 0 <= x < fs.sb.size ==>
              Bit(SetBit(fs, b, on), x) == if x == b then on else Bit(fs, x)
  {
    var r := SetBit(fs, b, on);
    forall x | 0 <= x < fs.sb.size ensures Bit(r, x) == if x == b then on else Bit(fs, x) {
      if x / BPB == b / BPB {
        TestWithBit(fs.bitmap[b / BPB], b % BPB, on, x % BPB);
      }
    }
  }

  /** A block in use is in the data area; its slot decides its owner. */
  lemma {:induction false} SlotFacts(fs: Fs, own: map<int, Owner>, i: int, k: int)
    requires Owned(fs, own) && 0 <= i < |fs.inodes| && 0 <= k < NSLOTS && SlotAddr(fs, i, k) != 0
    ensures SlotAddr(fs, i, k) in own && own[SlotAddr(fs, i, k)] == Owner(i, k)
    ensures 0 < fs.sb.nmeta <= SlotAddr(fs, i, k) < fs.sb.size
  {
  }

  /** Two slots never share a block. */
  lemma {:induction false} OneOwner(fs: Fs, own: map<int, Owner>, i: int, k: int, j: int, l: int)
    requires Owned(fs, own)
    requires 0 <= i < |fs.inodes| && 0 <= k < NSLOTS && 0 <= j < |fs.inodes| && 0 <= l < NSLOTS
    requires SlotAddr(fs, i, k) == SlotAddr(fs, j, l) != 0
    ensures i == j && k == l
  {
    SlotFacts(fs, own, i, k);
    SlotFacts(fs, own, j, l);
  }

  /** Allocating a free block changes no slot. */
  lemma {:induction false} AllocSlots(fs: Fs, own: map<int, Owner>, b: int)
    requires Owned(fs, own) && 0 <= b < fs.sb.size && !Bit(fs, b)
    ensures Shape(Alloc(fs, b)) && b !in own && fs.sb.nmeta <= b
    ensures forall i, k {:trigger SlotAddr(Alloc(fs, b), i, k)} :: 0 <= i < |fs.inodes| && 0 <= k < NSLOTS ==>
              SlotAddr(Alloc(fs, b), i, k) == SlotAddr(fs, i, k) != b
  {
    SetBitBits(fs, b, true);
    var r := Alloc(fs, b);
    forall i, k | 0 <= i < |fs.inodes| && 0 <= k < NSLOTS ensures SlotAddr(r, i, k) == SlotAddr(fs, i, k) != b {
      if SlotAddr(fs, i, NDIRECT) != 0 {
        SlotFacts(fs, own, i, NDIRECT);
      }
      if SlotAddr(fs, i, k) != 0 {
        SlotFacts(fs, own, i, k);
      }
    }
  }

  /** balloc followed by storing the address: the step bmap is made of. */
  function Attach(fs: Fs, i: int, k: int, b: nat): (r: Fs)
    requires Shape(fs) && 0 <= i < |fs.inodes| && 0 <= k < NSLOTS && b < fs.sb.size
    requires k > NDIRECT ==> 0 < fs.inodes[i].addrs[NDIRECT] < |fs.blocks|
  {
    var m := Alloc(fs, b);
    assert Shape(m);
    Link(m, i, k, b)
  }

  ghost predicate CanAttach(fs: Fs, own: map<int, Owner>, i: int, k: int, b: nat) {
    && Owned(fs, own) && 0 <= i < |fs.inodes| && 0 <= k < NSLOTS && b < fs.sb.size && !Bit(fs, b)
    && SlotAddr(fs, i, k) == 0
    && (k > NDIRECT ==> SlotAddr(fs, i, NDIRECT) != 0)
  }

  lemma {:induction false} AttachSlot(fs: Fs, own: map<int, Owner>, i: int, k: int, b: nat, j: int, l: int)
    requires CanAttach(fs, own, i, k, b) && 0 <= j < |fs.inodes| && 0 <= l < NSLOTS
    ensures k > NDIRECT ==> 0 < fs.inodes[i].addrs[NDIRECT] < |fs.blocks|
    ensures Shape(Attach(fs, i, k, b))
    ensures SlotAddr(Attach(fs, i, k, b), j, l) == if j == i && l == k then b else SlotAddr(fs, j, l)
  {
    AllocSlots(fs, own, b);
    var m := Alloc(fs, b);
    if k > NDIRECT {
      SlotFacts(fs, own, i, NDIRECT);
      var p := SlotAddr(fs, i, NDIRECT);
      if l > NDIRECT {
        WordSet(m.blocks[p], k - NDIRECT - 1, b, l - NDIRECT - 1);
        if SlotAddr(fs, j, NDIRECT) == p {
          OneOwner(fs, own, i, NDIRECT, j, NDIRECT);
        }
        assert SlotAddr(m, j, l) == SlotAddr(fs, j, l);
      }
    } else {
      assert SlotAddr(m, j, l) == SlotAddr(fs, j, l);
    }
  }

  lemma {:induction false} AttachOwned(fs: Fs, own: map<int, Owner>, i: int, k: int, b: nat)
    requires CanAttach(fs, own, i, k, b)
    ensures k > NDIRECT ==> 0 < fs.inodes[i].addrs[NDIRECT] < |fs.blocks|
    ensures Owned(Attach(fs, i, k, b), own[b := Owner(i, k)])
    ensures forall j, l {:trigger SlotAddr(Attach(fs, i, k, b), j, l)} :: 0 <= j < |fs.inodes| && 0 <= l < NSLOTS ==>
              SlotAddr(Attach(fs, i, k, b), j, l) == if j == i && l == k then b else SlotAddr(fs, j, l)
  {
    AttachSlot(fs, own, i, k, b, i, k);
    var r := Attach(fs, i, k, b);
    var own' := own[b := Owner(i, k)];
    forall j, l | 0 <= j < |fs.inodes| && 0 <= l < NSLOTS
      ensures SlotAddr(r, j, l) == if j == i && l == k then b else SlotAddr(fs, j, l)
    {
      AttachSlot(fs, own, i, k, b, j, l);
    }
    AllocSlots(fs, own, b);
    SetBitBits(fs, b, true);
    AttachBits(fs, own, i, k, b);
    assert SlotsOwned(r, own');
    assert OwnersHold(r, own');
  }

  lemma {:induction false} AttachBits(fs: Fs, own: map<int, Owner>, i: int, k: int, b: nat)
    requires CanAttach(fs, own, i, k, b)
    requires k > NDIRECT ==> 0 < fs.inodes[i].addrs[NDIRECT] < |fs.blocks|
    requires Shape(Attach(fs, i, k, b))
    ensures BitsMatch(Attach(fs, i, k, b), own[b := Owner(i, k)])
  {
    SetBitBits(fs, b, true);
    var r := Attach(fs, i, k, b);
    forall x | 0 <= x < fs.sb.size ensures Bit(r, x) <==> x < fs.sb.nmeta || x in own[b := Owner(i, k)] {
      assert Bit(r, x) == Bit(SetBit(fs, b, true), x);
    }
  }

  /** Overwriting a data block changes no slot and no bit. */
  lemma {:induction false} PutOwned(fs: Fs, own: map<int, Owner>, b: int, data: Bytes)
    requires Owned(fs, own) && b in own && own[b].slot != NDIRECT && |data| == BSIZE
    ensures Owned(Put(fs, b, data), own)
    ensures forall i, k {:trigger SlotAddr(Put(fs, b, data), i, k)} :: 0 <= i < |fs.inodes| && 0 <= k < NSLOTS ==>
              SlotAddr(Put(fs, b, data), i, k) == SlotAddr(fs, i, k)
  {
    var r := Put(fs, b, data);
    forall i, k | 0 <= i < |fs.inodes| && 0 <= k < NSLOTS ensures SlotAddr(r, i, k) == SlotAddr(fs, i, k) {
      if SlotAddr(fs, i, NDIRECT) != 0 {
        SlotFacts(fs, own, i, NDIRECT);
      }
    }
    forall x | 0 <= x < fs.sb.size ensures Bit(r, x) == Bit(fs, x) {}
  }
}
