/** What allocating through bmap (fs.c) may change, stated on file system values.

bmap fills one slot, or two when the indirect block is missing as well.  `Extends` says what
any such series of changes keeps: every block in use keeps its owner, only the one inode gains
blocks, and other inodes and their blocks are untouched.  `DataKept` adds that no data block
in use has changed.

`Mapped` is what a finished bmap promises: the slot of the block holds the address returned,
both of the above hold, and what was logged is exactly `BmapLogs`. */
module FsMapping {
  import opened FsLayout
  import opened FsOwnership
  import opened FsTracking

  /** fs1 keeps every block that fs0 had in use, with its owner; only inode i gained blocks,
  nothing any other inode owns has changed, and every change is logged. */
  ghost predicate Extends(fs0: Fs, own0: map<int, Owner>, fs1: Fs, own1: map<int, Owner>, i: int)
    requires Shape(fs0)
  {
    && Owned(fs1, own1)
    && fs1.sb == fs0.sb && fs1.itab == fs0.itab && 0 <= i < |fs1.inodes| == |fs0.inodes|
    && (forall b {:trigger own0[b]} {:trigger own1[b]} :: b in own0 ==> b in own1 && own1[b] == own0[b])
    && (forall b {:trigger own1[b]} :: b in own1 && b !in own0 ==> own1[b].inum == i)
    && (forall j :: 0 <= j < |fs0.inodes| && j != i ==> fs1.inodes[j] == fs0.inodes[j])
    && fs1.inodes[i] == fs0.inodes[i].(addrs := fs1.inodes[i].addrs)
    && (forall b {:trigger fs1.blocks[b]} :: b in own0 && 0 <= b < |fs0.blocks| && own0[b].inum != i ==>
          fs1.blocks[b] == fs0.blocks[b])
    && Logs(fs0, fs1)
  }

  /** Additionally, no data block in use has changed. */
  ghost predicate DataKept(fs0: Fs, own0: map<int, Owner>, fs1: Fs) {
    && |fs1.blocks| == |fs0.blocks|
    && forall b {:trigger fs1.blocks[b]} :: b in own0 && 0 <= b < |fs0.blocks| && own0[b].slot != NDIRECT ==>
         fs1.blocks[b] == fs0.blocks[b]
  }

  lemma {:induction false} AttachExtends(fs: Fs, own: map<int, Owner>, i: int, k: int, b: nat)
    requires CanAttach(fs, own, i, k, b)
    ensures k > NDIRECT ==> 0 < fs.inodes[i].addrs[NDIRECT] < |fs.blocks|
    ensures var r := Attach(fs, i, k, b);
            && Extends(fs, own, r, own[b := Owner(i, k)], i) && DataKept(fs, own, r)
            && SlotAddr(r, i, k) == b
            && (k == NDIRECT ==> forall l :: NDIRECT < l < NSLOTS ==> SlotAddr(r, i, l) == 0)
  {
    AttachOwned(fs, own, i, k, b);
    AllocSlots(fs, own, b);
    if SlotAddr(fs, i, NDIRECT) != 0 {
      SlotFacts(fs, own, i, NDIRECT);
    }
    AttachLogs(fs, own, i, k, b);
    var r := Attach(fs, i, k, b);
    assert SlotAddr(r, i, k) == b;
  }

  lemma {:induction false} ExtendsTrans(
    fs0: Fs, own0: map<int, Owner>, fs1: Fs, own1: map<int, Owner>, fs2: Fs, own2: map<int, Owner>, i: int)
    requires Shape(fs0) && Extends(fs0, own0, fs1, own1, i) && Extends(fs1, own1, fs2, own2, i)
    ensures Extends(fs0, own0, fs2, own2, i)
    ensures DataKept(fs0, own0, fs1) && DataKept(fs1, own1, fs2) ==> DataKept(fs0, own0, fs2)
  {
    LogsTrans(fs0, fs1, fs2);
    forall b | b in own0 ensures b in own1 && own1[b] == own0[b] && b in own2 && own2[b] == own0[b] {}
    forall b | b in own2 && b !in own0 ensures own2[b].inum == i {
      if b in own1 {
        assert own1[b].inum == i;
      }
    }
  }

  /** What bmap hands to log_write. */
  ghost function BmapLogs(fs0: Fs, fs1: Fs, i: int, bn: nat): set<int>
    requires Shape(fs0) && Shape(fs1) && 0 <= i < |fs0.inodes| == |fs1.inodes| && bn < MAXFILE
  {
    var a := SlotAddr(fs1, i, DataSlot(bn));
    var p := fs1.inodes[i].addrs[NDIRECT];
    if SlotAddr(fs0, i, DataSlot(bn)) != 0 then {}
    else if bn < NDIRECT then {BBlock(fs1.sb, a), a}
    else {BBlock(fs1.sb, a), a, p} + if fs0.inodes[i].addrs[NDIRECT] == 0 then {BBlock(fs1.sb, p), p} else {}
  }

  /** What a successful bmap establishes. */
  ghost predicate Mapped(fs0: Fs, own0: map<int, Owner>, fs1: Fs, own1: map<int, Owner>, i: int, bn: nat, addr: int)
    requires Shape(fs0) && 0 <= i < |fs0.inodes| && bn < MAXFILE
  {
    && Extends(fs0, own0, fs1, own1, i) && DataKept(fs0, own0, fs1)
    && 0 < addr == SlotAddr(fs1, i, DataSlot(bn))
    && fs1.logged == fs0.logged + BmapLogs(fs0, fs1, i, bn)
    && (bn < NDIRECT ==> fs1.inodes[i].addrs[NDIRECT] == fs0.inodes[i].addrs[NDIRECT])
    && (SlotAddr(fs0, i, DataSlot(bn)) != 0 ==> fs1 == fs0 && own1 == own0)
  }

  lemma {:induction false} MappedAlready(fs: Fs, own: map<int, Owner>, i: int, bn: nat)
    requires Owned(fs, own) && 0 <= i < |fs.inodes| && bn < MAXFILE && SlotAddr(fs, i, DataSlot(bn)) != 0
    ensures Mapped(fs, own, fs, own, i, bn, SlotAddr(fs, i, DataSlot(bn)))
  {
    SlotFacts(fs, own, i, DataSlot(bn));
  }

  lemma {:induction false} MappedByOne(fs: Fs, own: map<int, Owner>, i: int, bn: nat, b: nat, fs1: Fs,
                                       own1: map<int, Owner>)
    requires bn < MAXFILE && CanAttach(fs, own, i, DataSlot(bn), b)
    requires DataSlot(bn) > NDIRECT ==> 0 < fs.inodes[i].addrs[NDIRECT] < |fs.blocks|
    requires fs1 == Attach(fs, i, DataSlot(bn), b) && own1 == own[b := Owner(i, DataSlot(bn))]
    ensures Mapped(fs, own, fs1, own1, i, bn, b)
  {
    AttachExtends(fs, own, i, DataSlot(bn), b);
    AllocSlots(fs, own, b);
  }

  /** Allocating the indirect block first, then mapping through it, maps. */
  lemma {:induction false} MappedThroughNew(
    fs: Fs, own: map<int, Owner>, p: nat, fs2: Fs, own2: map<int, Owner>, i: int, bn: nat, addr: int)
    requires NDIRECT <= bn < MAXFILE && CanAttach(fs, own, i, NDIRECT, p)
    requires Shape(Attach(fs, i, NDIRECT, p))
    requires Mapped(Attach(fs, i, NDIRECT, p), own[p := Owner(i, NDIRECT)], fs2, own2, i, bn, addr)
    ensures Mapped(fs, own, fs2, own2, i, bn, addr)
  {
    var fs1, own1 := Attach(fs, i, NDIRECT, p), own[p := Owner(i, NDIRECT)];
    AttachExtends(fs, own, i, NDIRECT, p);
    assert SlotAddr(fs1, i, NDIRECT) == p && SlotAddr(fs1, i, bn + 1) == 0;
    ExtendsTrans(fs, own, fs1, own1, fs2, own2, i);
    assert own1[p] == Owner(i, NDIRECT);
    assert own2[p] == Owner(i, NDIRECT) && SlotAddr(fs2, i, NDIRECT) == p;
    assert SlotAddr(fs, i, bn + 1) == 0;
  }

  /** No free block is left: balloc would panic. */
  ghost predicate Full(fs: Fs) {
    Shape(fs) && forall c :: 0 <= c < fs.sb.size ==> Bit(fs, c)
  }
}
