/** Freeing every block of an inode (itrunc and bfree of fs.c), on file system values. */
module FsTruncate {
  import opened FsLayout
  import opened FsOwnership
  import opened FsTracking
  import opened FsContents

  /** Progress of itrunc: the first `direct` direct slots, the first `entries` entries of the
  indirect block and, last, the indirect block itself have been given to bfree. */
  datatype Progress = Progress(direct: nat, entries: nat, pointer: bool)

  predicate Freed(p: Progress, k: int) {
    if k < NDIRECT then k < p.direct else if k == NDIRECT then p.pointer else k - NDIRECT - 1 < p.entries
  }

  /** The bits in the middle of itrunc: set for metadata and for owned blocks not yet freed. */
  ghost predicate BitsLeft(fs0: Fs, own: map<int, Owner>, fs: Fs, i: int, p: Progress)
    requires Shape(fs0) && Shape(fs) && fs.sb == fs0.sb
  {
    forall b {:trigger Bit(fs, b)} :: 0 <= b < fs.sb.size ==>
      (Bit(fs, b) <==> b < fs.sb.nmeta || (b in own && !(own[b].inum == i && Freed(p, own[b].slot))))
  }

  ghost predicate Freeing(fs0: Fs, own: map<int, Owner>, fs: Fs, i: int, p: Progress) {
    && Owned(fs0, own) && Shape(fs) && 0 <= i < |fs0.inodes| == |fs.inodes|
    && fs.sb == fs0.sb && fs.blocks == fs0.blocks && fs.itab == fs0.itab
    && fs.inodes == fs0.inodes[i := fs0.inodes[i].(addrs := fs.inodes[i].addrs)]
    && (forall k :: 0 <= k <= NDIRECT ==> fs.inodes[i].addrs[k] == if Freed(p, k) then 0 else fs0.inodes[i].addrs[k])
    && BitsLeft(fs0, own, fs, i, p) && Logs(fs0, fs)
  }

  /** Slot k is the next to go: p' frees exactly it in addition. */
  ghost predicate Advances(p: Progress, k: int, p': Progress) {
    && 0 <= k < NSLOTS && !Freed(p, k)
    && forall l {:trigger Freed(p', l)} :: 0 <= l < NSLOTS ==> (Freed(p', l) <==> Freed(p, l) || l == k)
  }

  /** bfree of an owned block not yet freed finds its bit set, and clears just that one. */
  lemma {:induction false} FreeSlotBits(fs0: Fs, own: map<int, Owner>, fs: Fs, i: int, p: Progress, k: int, p': Progress)
    requires Freeing(fs0, own, fs, i, p) && Advances(p, k, p')
    ensures SlotAddr(fs0, i, k) == 0 ==> BitsLeft(fs0, own, fs, i, p')
    ensures SlotAddr(fs0, i, k) != 0 ==>
              var a := SlotAddr(fs0, i, k);
              && 0 <= a < fs.sb.size && Bit(fs, a)
              && Shape(SetBit(fs, a, false)) && BitsLeft(fs0, own, SetBit(fs, a, false), i, p')
  {
    var a := SlotAddr(fs0, i, k);
    if a != 0 {
      SlotFacts(fs0, own, i, k);
      assert own[a] == Owner(i, k);
      SetBitBits(fs, a, false);
      var r := SetBit(fs, a, false);
      forall b | 0 <= b < fs.sb.size
        ensures Bit(r, b) <==> b < fs.sb.nmeta || (b in own && !(own[b].inum == i && Freed(p', own[b].slot)))
      {
        assert Bit(r, b) == if b == a then false else Bit(fs, b);
        if b in own {
          assert Freed(p', own[b].slot) <==> Freed(p, own[b].slot) || own[b].slot == k;
        }
      }
    } else {
      forall b | 0 <= b < fs.sb.size
        ensures Bit(fs, b) <==> b < fs.sb.nmeta || (b in own && !(own[b].inum == i && Freed(p', own[b].slot)))
      {
        if b in own {
          assert Freed(p', own[b].slot) <==> Freed(p, own[b].slot) || own[b].slot == k;
        }
      }
    }
  }

  /** bfree of address a, and clearing the slot if it is in the inode itself. */
  function FreeOne(fs: Fs, i: int, k: int, a: int): Fs
    requires Shape(fs) && 0 <= i < |fs.inodes| && 0 <= k < NSLOTS && 0 <= a < fs.sb.size
  {
    if a == 0 then fs else
      var m := SetBit(fs, a, false);
      if k <= NDIRECT then m.(inodes := m.inodes[i := m.inodes[i].(addrs := m.inodes[i].addrs[k := 0])]) else m
  }

  lemma {:induction false} FreeOneLogs(fs: Fs, i: int, k: int, a: int)
    requires Shape(fs) && 0 <= i < |fs.inodes| && 0 <= k < NSLOTS && 0 <= a < fs.sb.size
    ensures Logs(fs, FreeOne(fs, i, k, a))
  {
    assert (BBlock(fs.sb, a) - fs.sb.bmapstart) * BPB <= a;
  }

  /** The block in a slot not yet freed is still marked in use: bfree does not panic on it. */
  lemma {:induction false} StillMarked(fs0: Fs, own: map<int, Owner>, fs: Fs, i: int, p: Progress, k: int)
    requires Freeing(fs0, own, fs, i, p) && 0 <= k < NSLOTS && !Freed(p, k)
    ensures 0 <= SlotAddr(fs0, i, k) < fs.sb.size
    ensures SlotAddr(fs0, i, k) != 0 ==> Bit(fs, SlotAddr(fs0, i, k))
    ensures k <= NDIRECT ==> SlotAddr(fs0, i, k) == fs.inodes[i].addrs[k]
  {
    if SlotAddr(fs0, i, k) != 0 {
      SlotFacts(fs0, own, i, k);
    }
  }

  lemma {:induction false} FreeStep(fs0: Fs, own: map<int, Owner>, fs: Fs, i: int, p: Progress, k: int, p': Progress, r: Fs)
    requires Freeing(fs0, own, fs, i, p) && Advances(p, k, p')
    requires 0 <= SlotAddr(fs0, i, k) < fs.sb.size && r == FreeOne(fs, i, k, SlotAddr(fs0, i, k))
    ensures Freeing(fs0, own, r, i, p')
  {
    FreeSlotBits(fs0, own, fs, i, p, k, p');
    var a := SlotAddr(fs0, i, k);
    FreeOneLogs(fs, i, k, a);
    LogsTrans(fs0, fs, r);
    if a != 0 {
      var m := SetBit(fs, a, false);
      assert forall b {:trigger Bit(r, b)} :: 0 <= b < fs.sb.size ==> Bit(r, b) == Bit(m, b);
    }
    assert r.inodes == fs0.inodes[i := fs0.inodes[i].(addrs := r.inodes[i].addrs)];
    assert forall l :: 0 <= l <= NDIRECT ==> (Freed(p', l) <==> Freed(p, l) || l == k);
  }

  const ALL: Progress := Progress(NDIRECT, NINDIRECT, true)

  /** Without an indirect block nothing is left to free after the direct blocks. */
  lemma {:induction false} NoIndirect(fs0: Fs, own: map<int, Owner>, fs: Fs, i: int)
    requires Freeing(fs0, own, fs, i, Progress(NDIRECT, 0, false)) && fs0.inodes[i].addrs[NDIRECT] == 0
    ensures Freeing(fs0, own, fs, i, ALL)
  {
    forall b | 0 <= b < fs.sb.size
      ensures Bit(fs, b) <==> b < fs.sb.nmeta || (b in own && !(own[b].inum == i && Freed(ALL, own[b].slot)))
    {
      if b in own && own[b].inum == i {
        assert SlotAddr(fs0, i, own[b].slot) == b;
      }
    }
  }

  function Without(own: map<int, Owner>, i: int): map<int, Owner> {
    map b | b in own && own[b].inum != i :: own[b]
  }

  /** What itrunc establishes: the file is empty in memory and on disk, its other attributes unchanged,
  every block it owned is free, all other ownership and contents are as before, and every changed
  block is logged. */
  ghost predicate Truncated(fs0: Fs, own: map<int, Owner>, fs1: Fs, i: int)
    requires Owned(fs0, own) && 0 <= i < |fs0.inodes|
  {
    && Owned(fs1, Without(own, i))
    && |fs1.inodes| == |fs0.inodes| && fs1.itab[i] == fs1.inodes[i]
    && fs1.inodes[i] == fs0.inodes[i].(size := 0, addrs := seq(NDIRECT + 1, _ => 0))
    && fs1.sb == fs0.sb && fs1.blocks == fs0.blocks
    && (forall k :: 0 <= k < NSLOTS ==> SlotAddr(fs1, i, k) == 0)
    && OthersSame(fs0, fs1, i) && Logs(fs0, fs1)
  }

  lemma {:induction false} FreedSlots(fs0: Fs, own: map<int, Owner>, fs: Fs, i: int, r: Fs)
    requires Freeing(fs0, own, fs, i, ALL) && r == Iupdated(WithSize(fs, i, 0), i)
    ensures Shape(r)
    ensures forall k :: 0 <= k < NSLOTS ==> SlotAddr(r, i, k) == 0
    ensures forall j, k {:trigger SlotAddr(r, j, k)} :: 0 <= j < |r.inodes| && 0 <= k < NSLOTS && j != i ==>
              SlotAddr(r, j, k) == SlotAddr(fs0, j, k)
  {
    assert r.inodes[i].addrs == fs.inodes[i].addrs;
    assert r.inodes[i].addrs[NDIRECT] == 0;
  }

  lemma {:induction false} FreedOwned(fs0: Fs, own: map<int, Owner>, fs: Fs, i: int, r: Fs)
    requires Freeing(fs0, own, fs, i, ALL) && r == Iupdated(WithSize(fs, i, 0), i)
    ensures Owned(r, Without(own, i))
  {
    FreedSlots(fs0, own, fs, i, r);
    forall b | 0 <= b < r.sb.size ensures Bit(r, b) <==> b < r.sb.nmeta || b in Without(own, i) {
      assert Bit(r, b) == Bit(fs, b);
    }
  }

  lemma {:induction false} FreedOther(fs0: Fs, own: map<int, Owner>, fs: Fs, i: int, r: Fs, j: int)
    requires Freeing(fs0, own, fs, i, ALL) && r == Iupdated(WithSize(fs, i, 0), i)
    requires 0 <= j < |fs0.inodes| && j != i
    ensures Shape(r) && SameFile(fs0, r, j)
  {
    FreedSlots(fs0, own, fs, i, r);
    if fs0.inodes[j].size <= MAXFILE * BSIZE {
      SameContents(fs0, r, j);
    }
  }

  lemma {:induction false} FreedLogs(fs0: Fs, own: map<int, Owner>, fs: Fs, i: int, r: Fs)
    requires Freeing(fs0, own, fs, i, ALL) && r == Iupdated(WithSize(fs, i, 0), i)
    ensures Logs(fs0, r)
  {
    assert (IBlock(fs.sb, i) - fs.sb.inodestart) * IPB <= i;
    assert Logs(fs, r);
    LogsTrans(fs0, fs, r);
  }

  lemma {:induction false} FreedAll(fs0: Fs, own: map<int, Owner>, fs: Fs, i: int, r: Fs)
    requires Freeing(fs0, own, fs, i, ALL) && r == Iupdated(WithSize(fs, i, 0), i)
    ensures Truncated(fs0, own, r, i)
  {
    FreedSlots(fs0, own, fs, i, r);
    FreedOwned(fs0, own, fs, i, r);
    FreedLogs(fs0, own, fs, i, r);
    assert r.inodes[i].addrs == seq(NDIRECT + 1, _ => 0);
    forall j | 0 <= j < |fs0.inodes| && j != i ensures SameFile(fs0, r, j) {
      FreedOther(fs0, own, fs, i, r, j);
    }
  }
}
