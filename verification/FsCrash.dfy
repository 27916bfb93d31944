/** A crash in the middle of a file write (fs.c and file.c over log.c). */
module FsCrash {
  // `FsContents` gives the file system before and after one transaction of filewrite and `RedoLog`
  // the disk after every single write of its commit.  Here the two meet: `Shows` says that a disk
  // holds a file system, and a commit cut anywhere leaves the one before or the one after.

  import opened Params
  import opened RedoLog
  import opened FsLayout
  import opened FsImage
  import opened FsOwnership
  import opened FsTracking
  import opened FsContents

  function InodeBlocks(sb: Super): nat { (sb.ninodes + IPB - 1) / IPB }

  predicate Apart(lo: int, n: int, lo': int, n': int) { lo + n <= lo' || lo' + n' <= lo }

  /** The log, the inodes and the free map lie before the data and apart from each other. */
  ghost predicate LaidOut(g: Geometry, fs: Fs) {
    && g.start + g.size <= fs.sb.nmeta
    && fs.sb.inodestart + InodeBlocks(fs.sb) <= fs.sb.nmeta
    && fs.sb.bmapstart + |fs.bitmap| <= fs.sb.nmeta
    && Apart(g.start, g.size, fs.sb.inodestart, InodeBlocks(fs.sb))
    && Apart(g.start, g.size, fs.sb.bmapstart, |fs.bitmap|)
    && Apart(fs.sb.inodestart, InodeBlocks(fs.sb), fs.sb.bmapstart, |fs.bitmap|)
  }

  /** The inodes in the n-th inode block. */
  function InodesIn(itab: seq<Inode>, n: nat): seq<Inode>
    requires n * IPB < |itab|
  {
    itab[n * IPB..if (n + 1) * IPB <= |itab| then (n + 1) * IPB else |itab|]
  }

  function ContentAt(fs: Fs, b: int): (c: Content)
    requires Shape(fs) && 0 <= b < fs.sb.size
    ensures FitsBlock(c)
  {
    if fs.sb.inodestart <= b < fs.sb.inodestart + InodeBlocks(fs.sb) then Inodes(InodesIn(fs.itab, b - fs.sb.inodestart))
    else if fs.sb.bmapstart <= b < fs.sb.bmapstart + |fs.bitmap| then Bits(fs.bitmap[b - fs.sb.bmapstart])
    else Data(fs.blocks[b])
  }

  /** The home blocks of d hold the file system fs. */
  ghost predicate Shows(g: Geometry, d: Disk, fs: Fs) {
    && Shape(fs) && |d| == fs.sb.size
    && forall b {:trigger Home(g, |d|, b)} :: Home(g, |d|, b) ==> d[b] == Raw(ContentAt(fs, b))
  }

  ghost function Formatted(g: Geometry, fs: Fs): Disk
    requires Shape(fs)
  {
    seq(fs.sb.size, b requires 0 <= b < fs.sb.size =>
      if b == g.start then Block(seq(BWORDS, _ => 0)) else Raw(ContentAt(fs, b)))
  }

  /** Every file system that is laid out properly has a disk that shows it, with an empty log. */
  lemma {:induction false} FormattedShows(g: Geometry, fs: Fs)
    requires Shape(fs) && LaidOut(g, fs) && g.size >= 1
    ensures var d := Formatted(g, fs); SettledAt(g, d, d) && Shows(g, d, fs)
  {
    var d := Formatted(g, fs);
    assert d[g.start] == Block(seq(BWORDS, _ => 0));
    assert DecodeHeader(d[g.start]) == [];
  }

  // ---- what a transaction commits -------------------------------------------------------

  lemma {:induction false} ContentKept(fs0: Fs, fs1: Fs, b: int)
    requires Shape(fs0) && Shape(fs1) && Tracked(fs0, fs1) && 0 <= b < fs0.sb.size && b !in fs1.logged
    ensures ContentAt(fs1, b) == ContentAt(fs0, b)
  {
    assert TrackedAt(fs0, fs1, b);
    var n := b - fs0.sb.inodestart;
    if 0 <= n < InodeBlocks(fs0.sb) {
      var x, y := InodesIn(fs0.itab, n), InodesIn(fs1.itab, n);
      forall m | 0 <= m < |x| ensures x[m] == y[m] {
        assert TrackedAt(fs0, fs1, n * IPB + m) && (n * IPB + m) / IPB == n;
      }
      assert x == y;
    } else {
      assert TrackedAt(fs0, fs1, b - fs0.sb.bmapstart);
    }
  }

  lemma {:induction false} LoggableHome(g: Geometry, fs: Fs, x: int)
    requires Shape(fs) && LaidOut(g, fs) && Loggable(fs.sb, x)
    ensures Home(g, fs.sb.size, x)
  {
  }

  /** The logged blocks as commit writes them. */
  ghost function Cached(fs: Fs, lh: LogHeader): (r: seq<Block>)
    requires Shape(fs) && forall n :: 0 <= n < |lh| ==> 0 <= lh[n] < fs.sb.size
    ensures |r| == |lh|
  {
    seq(|lh|, n requires 0 <= n < |lh| => Raw(ContentAt(fs, lh[n])))
  }

  /** lh lists the blocks of one transaction, each once. */
  ghost predicate Lists(lh: LogHeader, logged: set<int>) {
    Distinct(lh) && forall x :: x in logged <==> x in lh
  }

  lemma {:induction false} ListLength(lh: LogHeader, n: nat, some: set<int>)
    requires n <= |lh| && (forall a, b :: 0 <= a < b < |lh| ==> lh[a] != lh[b])
    requires forall x :: x in some <==> x in lh[..n]
    ensures |some| == n
  {
    if n == 0 {
      assert lh[..n] == [];
      assert forall x :: x !in some;
    } else {
      ListLength(lh, n - 1, some - {lh[n - 1]});
    }
  }

  lemma {:induction false} ListedHeader(g: Geometry, fs: Fs, lh: LogHeader)
    requires Shape(fs) && LaidOut(g, fs) && AllLoggable(fs) && Lists(lh, fs.logged)
    requires |fs.logged| <= LOGSIZE && |fs.logged| < g.size
    ensures ValidHeader(g, fs.sb.size, lh)
  {
    forall a, b | 0 <= a < b < |lh| ensures lh[a] != lh[b] {
      assert IndexOf(lh, lh[a]) == a && IndexOf(lh, lh[b]) == b;
    }
    assert lh[..|lh|] == lh;
    ListLength(lh, |lh|, fs.logged);
    forall n | 0 <= n < |lh| ensures Home(g, fs.sb.size, lh[n]) {
      assert lh[n] in fs.logged && Loggable(fs.sb, lh[n]);
      LoggableHome(g, fs, lh[n]);
    }
  }

  /** Replacing the logged blocks of a disk that shows fs0 gives one that shows fs1. */
  lemma {:induction false} UpdatedShows(g: Geometry, d: Disk, fs0: Fs, fs1: Fs, lh: LogHeader)
    requires Shows(g, d, fs0) && Shape(fs1) && Tracked(fs0, fs1) && Lists(lh, fs1.logged)
    requires ValidHeader(g, |d|, lh)
    ensures Shows(g, Updated(d, lh, Cached(fs1, lh)), fs1)
  {
    var cached := Cached(fs1, lh);
    var r := Updated(d, lh, cached);
    forall b | Home(g, |r|, b) ensures r[b] == Raw(ContentAt(fs1, b)) {
      if b in lh {
        assert r[lh[IndexOf(lh, b)]] == cached[IndexOf(lh, b)];
      } else {
        ContentKept(fs0, fs1, b);
      }
    }
  }

  lemma {:induction false} SettledShows(g: Geometry, r: Disk, target: Disk, fs: Fs)
    requires SettledAt(g, r, target) && Shows(g, target, fs)
    ensures Shows(g, r, fs)
  {
  }

  /** Crash atomicity of one transaction: its commit is cut after any k writes, the recoveries after
      it are cut anywhere too, and the one that completes leaves a disk with the file system from
      before the transaction or from after it. */
  lemma {:induction false} TransactionAtomic(
    g: Geometry, d: Disk, fs0: Fs, fs1: Fs, lh: LogHeader, k: nat, cuts: seq<nat>)
    requires SettledAt(g, d, d) && Shows(g, d, fs0) && LaidOut(g, fs0)
    requires Shape(fs1) && Tracked(fs0, fs1) && AllLoggable(fs1) && |fs1.logged| <= LOGSIZE && |fs1.logged| < g.size
    requires Lists(lh, fs1.logged) && k <= CommitLength(lh)
    ensures ValidHeader(g, |d|, lh)
    ensures var c := CommitStage(g, d, lh, Cached(fs1, lh), k);
            && Consistent(g, c)
            && HeaderOnDisk(g, Recover(g, Reboots(g, c, cuts)), [])
            && Shows(g, Recover(g, Reboots(g, c, cuts)), if k <= |lh| then fs0 else fs1)
  {
    ListedHeader(g, fs1, lh);
    var cached := Cached(fs1, lh);
    CrashAtomicity(g, d, lh, cached, k, cuts);
    UpdatedShows(g, d, fs0, fs1, lh);
    var r := Recover(g, Reboots(g, CommitStage(g, d, lh, cached, k), cuts));
    SettledShows(g, r, Outcome(d, lh, cached, k), if k <= |lh| then fs0 else fs1);
  }

  // ---- mounting -------------------------------------------------------------------------

  /** m is what a kernel finds when it mounts d with fs's superblock. */
  ghost predicate Mounts(g: Geometry, d: Disk, sb: Super, nbitmap: nat, m: Fs) {
    Shows(g, d, m) && m.sb == sb && |m.bitmap| == nbitmap && m.inodes == m.itab
  }

  /** The contents of a home block can be read back. */
  lemma {:induction false} ShownAt(g: Geometry, d: Disk, fs: Fs, m: Fs, b: int)
    requires Shows(g, d, fs) && Mounts(g, d, fs.sb, |fs.bitmap|, m) && Home(g, |d|, b)
    ensures ContentAt(m, b) == ContentAt(fs, b)
  {
    RawLossless(ContentAt(m, b), ContentAt(fs, b));
  }

  lemma {:induction false} ShownOnce(g: Geometry, d: Disk, fs: Fs, m: Fs)
    requires Shows(g, d, fs) && LaidOut(g, fs) && Mounts(g, d, fs.sb, |fs.bitmap|, m)
    ensures m.itab == fs.itab && m.bitmap == fs.bitmap
    ensures forall b {:trigger m.blocks[b]} :: fs.sb.nmeta <= b < fs.sb.size ==> m.blocks[b] == fs.blocks[b]
  {
    forall j | 0 <= j < |fs.itab| ensures m.itab[j] == fs.itab[j] {
      var n := j / IPB;
      assert j == n * IPB + j % IPB;
      ShownAt(g, d, fs, m, fs.sb.inodestart + n);
      assert InodesIn(fs.itab, n)[j % IPB] == InodesIn(m.itab, n)[j % IPB];
    }
    forall k | 0 <= k < |fs.bitmap| ensures m.bitmap[k] == fs.bitmap[k] {
      ShownAt(g, d, fs, m, fs.sb.bmapstart + k);
    }
    forall b | fs.sb.nmeta <= b < fs.sb.size ensures m.blocks[b] == fs.blocks[b] {
      ShownAt(g, d, fs, m, b);
    }
  }

  /** Every disk that shows a file system can be mounted. */
  lemma {:induction false} Mountable(g: Geometry, d: Disk, fs: Fs) returns (m: Fs)
    requires Shows(g, d, fs)
    ensures Mounts(g, d, fs.sb, |fs.bitmap|, m)
  {
    m := fs.(inodes := fs.itab);
    forall b | Home(g, |d|, b) ensures d[b] == Raw(ContentAt(m, b)) {
      assert ContentAt(m, b) == ContentAt(fs, b);
    }
  }

  lemma {:induction false} MountedSlot(g: Geometry, d: Disk, fs: Fs, own: map<int, Owner>, m: Fs, j: int, k: int)
    requires Shows(g, d, fs) && LaidOut(g, fs) && Mounts(g, d, fs.sb, |fs.bitmap|, m)
    requires Owned(fs, own) && 0 <= j < |fs.inodes| && fs.itab[j] == fs.inodes[j] && 0 <= k < NSLOTS
    ensures m.inodes[j] == fs.inodes[j] && SlotAddr(m, j, k) == SlotAddr(fs, j, k)
  {
    ShownOnce(g, d, fs, m);
    if SlotAddr(fs, j, NDIRECT) != 0 { SlotFacts(fs, own, j, NDIRECT); }
  }

  /** A mounted disk has the owners of the file system it shows: every block in use is marked, and
      belongs to one slot of one inode. */
  lemma {:induction false} MountedOwned(g: Geometry, d: Disk, fs: Fs, own: map<int, Owner>, m: Fs)
    requires Shows(g, d, fs) && LaidOut(g, fs) && Mounts(g, d, fs.sb, |fs.bitmap|, m)
    requires Owned(fs, own) && fs.itab == fs.inodes
    ensures Owned(m, own)
  {
    ShownOnce(g, d, fs, m);
    forall j, k | 0 <= j < |m.inodes| && 0 <= k < NSLOTS ensures SlotAddr(m, j, k) == SlotAddr(fs, j, k) {
      MountedSlot(g, d, fs, own, m, j, k);
    }
    forall b | 0 <= b < m.sb.size ensures Bit(m, b) == Bit(fs, b) {
    }
  }

  /** A mounted disk has the files of the file system it shows. */
  lemma {:induction false} MountedFile(g: Geometry, d: Disk, fs: Fs, own: map<int, Owner>, m: Fs, j: int)
    requires Shows(g, d, fs) && LaidOut(g, fs) && Mounts(g, d, fs.sb, |fs.bitmap|, m)
    requires Owned(fs, own) && 0 <= j < |fs.inodes| && fs.itab[j] == fs.inodes[j] && fs.inodes[j].size <= MAXFILE * BSIZE
    ensures m.inodes[j] == fs.inodes[j] && Contents(m, j) == Contents(fs, j)
  {
    ShownOnce(g, d, fs, m);
    forall p | 0 <= p < fs.inodes[j].size ensures Contents(m, j)[p] == Contents(fs, j)[p] {
      ContentsAt(fs, j, p);
      ContentsAt(m, j, p);
      var k := DataSlot(p / BSIZE);
      MountedSlot(g, d, fs, own, m, j, k);
      if SlotAddr(fs, j, k) != 0 { SlotFacts(fs, own, j, k); }
    }
  }

  /** The files of m are as filewrite has left them: i with `data` written, any other as it was;
      and own gives the owner of every block in use. */
  ghost predicate FilesAfter(fs0: Fs, i: int, off: nat, data: Bytes, m: Fs, own: map<int, Owner>)
    requires Shape(fs0) && 0 <= i < |fs0.inodes| && fs0.inodes[i].size <= MAXFILE * BSIZE
  {
    && Owned(m, own) && |m.inodes| == |fs0.inodes| && m.inodes[i].size <= MAXFILE * BSIZE
    && AppendedTo(Contents(fs0, i), Contents(m, i), off, data)
    && forall j {:trigger SameFile(fs0, m, j)} :: 0 <= j < |fs0.inodes| && j != i ==> SameFile(fs0, m, j)
  }

  lemma {:induction false} MountedAfter(
    g: Geometry, d: Disk, fs0: Fs, own0: map<int, Owner>, fs: Fs, own: map<int, Owner>, i: int, off: nat, data: Bytes, m: Fs)
    requires Owned(fs0, own0) && 0 <= i < |fs0.inodes| && NoHoles(fs0, i) && fs0.itab == fs0.inodes
    requires Appended(fs0, own0, fs, own, i, off, data)
    requires Shows(g, d, fs) && LaidOut(g, fs) && Mounts(g, d, fs.sb, |fs.bitmap|, m)
    ensures FilesAfter(fs0, i, off, data, m, own)
  {
    forall j | 0 <= j < |fs.inodes| ensures fs.itab[j] == fs.inodes[j] {
      if j != i { assert SameFile(fs0, fs, j); }
    }
    MountedOwned(g, d, fs, own, m);
    ShownOnce(g, d, fs, m);
    MountedFile(g, d, fs, own, m, i);
    forall j | 0 <= j < |fs0.inodes| && j != i ensures SameFile(fs0, m, j) {
      assert SameFile(fs0, fs, j);
      if fs0.inodes[j].size <= MAXFILE * BSIZE { MountedFile(g, d, fs, own, m, j); }
    }
  }

  /** Crash atomicity of filewrite.  With `data` written, the transaction of the next chunk is cut
      anywhere.  The disk that recovery leaves can be mounted, and what is mounted has the file with
      the bytes before the chunk or with the chunk as well, every other file as it was, and a
      consistent free map. */
  lemma {:induction false} FilewriteAtomic(
    g: Geometry, d: Disk, fs0: Fs, own0: map<int, Owner>, fs: Fs, own: map<int, Owner>, fs1: Fs, own1: map<int, Owner>,
    i: int, off: nat, data: Bytes, data1: Bytes, lh: LogHeader, k: nat, cuts: seq<nat>)
    returns (m: Fs)
    requires Owned(fs0, own0) && 0 <= i < |fs0.inodes| && NoHoles(fs0, i) && fs0.itab == fs0.inodes
    requires Appended(fs0, own0, fs, own, i, off, data) && Appended(fs0, own0, fs1, own1, i, off, data1)
    requires Tracked(fs, fs1) && AllLoggable(fs1) && |fs1.logged| <= LOGSIZE && |fs1.logged| < g.size
    requires SettledAt(g, d, d) && Shows(g, d, fs) && LaidOut(g, fs)
    requires Lists(lh, fs1.logged) && k <= CommitLength(lh)
    ensures ValidHeader(g, |d|, lh)
    ensures Consistent(g, CommitStage(g, d, lh, Cached(fs1, lh), k))
    ensures var r := Recover(g, Reboots(g, CommitStage(g, d, lh, Cached(fs1, lh), k), cuts));
            && Mounts(g, r, fs.sb, |fs.bitmap|, m)
            && forall m' :: Mounts(g, r, fs.sb, |fs.bitmap|, m') ==>
                 if k > |lh| then FilesAfter(fs0, i, off, data1, m', own1) else FilesAfter(fs0, i, off, data, m', own)
  {
    TransactionAtomic(g, d, fs, fs1, lh, k, cuts);
    var r := Recover(g, Reboots(g, CommitStage(g, d, lh, Cached(fs1, lh), k), cuts));
    m := Mountable(g, r, if k > |lh| then fs1 else fs);
    forall m' | Mounts(g, r, fs.sb, |fs.bitmap|, m')
      ensures if k > |lh| then FilesAfter(fs0, i, off, data1, m', own1) else FilesAfter(fs0, i, off, data, m', own)
    {
      if k > |lh| {
        MountedAfter(g, r, fs0, own0, fs1, own1, i, off, data1, m');
      } else {
        MountedAfter(g, r, fs0, own0, fs, own, i, off, data, m');
      }
    }
  }
}
