/** Which blocks of the disk a change to the file system passes to log_write (fs.c). */
module FsTracking {
  // A commit writes only logged blocks, so a change to a block that was not logged would be lost.
  // `Tracked` says that there is none; `Loggable` says which block numbers are ever logged.

  import opened FsLayout
  import opened FsOwnership

  ghost predicate SameSizes(fs0: Fs, fs1: Fs) {
    fs1.sb == fs0.sb && |fs1.blocks| == |fs0.blocks| && |fs1.bitmap| == |fs0.bitmap| && |fs1.itab| == |fs0.itab|
  }

  /** Block x, block x of the free map and inode x are as in fs0 or logged. */
  ghost predicate TrackedAt(fs0: Fs, fs1: Fs, x: int)
    requires SameSizes(fs0, fs1)
  {
    && (0 <= x < |fs0.blocks| && fs1.blocks[x] != fs0.blocks[x] ==> x in fs1.logged)
    && (0 <= x < |fs0.bitmap| && fs1.bitmap[x] != fs0.bitmap[x] ==> x + fs1.sb.bmapstart in fs1.logged)
    && (0 <= x < |fs0.itab| && fs1.itab[x] != fs0.itab[x] ==> IBlock(fs1.sb, x) in fs1.logged)
  }

  /** Whatever differs from fs0 on the disk of fs1 is logged. */
  ghost predicate Tracked(fs0: Fs, fs1: Fs) {
    SameSizes(fs0, fs1) && forall x {:trigger TrackedAt(fs0, fs1, x)} :: TrackedAt(fs0, fs1, x)
  }

  /** A data block, a block of the free map or a block of inodes. */
  predicate Loggable(sb: Super, x: int) {
    || sb.nmeta <= x < sb.size
    || (sb.bmapstart <= x && (x - sb.bmapstart) * BPB < sb.size)
    || (sb.inodestart <= x && (x - sb.inodestart) * IPB < sb.ninodes)
  }

  ghost predicate AllLoggable(fs: Fs) {
    forall x {:trigger Loggable(fs.sb, x)} :: x in fs.logged ==> Loggable(fs.sb, x)
  }

  /** A step from fs0 to fs1 within one transaction. */
  ghost predicate Logs(fs0: Fs, fs1: Fs) {
    fs0.logged <= fs1.logged && Tracked(fs0, fs1) && (AllLoggable(fs0) ==> AllLoggable(fs1))
  }

  lemma {:induction false} LogsTrans(fs0: Fs, fs1: Fs, fs2: Fs)
    requires Logs(fs0, fs1) && Logs(fs1, fs2)
    ensures Logs(fs0, fs2)
  {
    forall x ensures TrackedAt(fs0, fs2, x) {
      assert TrackedAt(fs0, fs1, x) && TrackedAt(fs1, fs2, x);
    }
  }

  lemma {:induction false} PutLogs(fs: Fs, b: int, data: Bytes)
    requires fs.sb.nmeta <= b < fs.sb.size == |fs.blocks|
    ensures Logs(fs, Put(fs, b, data))
  {
  }

  lemma {:induction false} AllocLogs(fs: Fs, b: int)
    requires Shape(fs) && fs.sb.nmeta <= b < fs.sb.size
    ensures Logs(fs, Alloc(fs, b))
  {
    assert (BBlock(fs.sb, b) - fs.sb.bmapstart) * BPB <= b;
  }

  lemma {:induction false} AttachLogs(fs: Fs, own: map<int, Owner>, i: int, k: int, b: nat)
    requires CanAttach(fs, own, i, k, b)
    requires k > NDIRECT ==> 0 < fs.inodes[i].addrs[NDIRECT] < |fs.blocks|
    ensures Logs(fs, Attach(fs, i, k, b))
  {
    AllocSlots(fs, own, b);
    AllocLogs(fs, b);
    var m := Alloc(fs, b);
    if k > NDIRECT {
      SlotFacts(fs, own, i, NDIRECT);
      var p := fs.inodes[i].addrs[NDIRECT];
      PutLogs(m, p, SetWord(m.blocks[p], k - NDIRECT - 1, b));
      LogsTrans(fs, m, Attach(fs, i, k, b));
    }
  }
}
