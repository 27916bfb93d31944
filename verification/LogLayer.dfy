/** The in-memory log and its driver loops (log.c), proved against the disk states of
`RedoLog`.  The buffer cache appears through the blocks it must not lose: `pinned` holds the
contents of the B_DIRTY buffers, and every other block reads as it is on the disk. */
module LogLayer {
  import opened Params
  import opened RedoLog

  /** What bread returns for block b. */
  function View(disk: Disk, pinned: map<int, Block>, b: int): Block
    requires 0 <= b < |disk|
  {
    if b in pinned then pinned[b] else disk[b]
  }

  /** The contents write_log copies, in header order. */
  ghost function Cached(disk: Disk, pinned: map<int, Block>, lh: LogHeader): (ds: seq<Block>)
    requires forall i :: 0 <= i < |lh| ==> 0 <= lh[i] < |disk|
    ensures |ds| == |lh|
    ensures forall i :: 0 <= i < |lh| ==> ds[i] == View(disk, pinned, lh[i])
  {
    seq(|lh|, i requires 0 <= i < |lh| => View(disk, pinned, lh[i]))
  }

  /** A log block is never pinned. */
  lemma {:induction false} LogBlockUnpinned(g: Geometry, len: nat, lh: LogHeader, pinned: map<int, Block>, b: int)
    requires ValidHeader(g, len, lh) && g.start <= b < g.start + g.size
    requires forall x :: x in pinned ==> x in lh
    ensures b !in pinned && pinned - {b} == pinned
  {
  }

  /** What the next turn of write_log copies, and where. */
  lemma {:induction false} PutLogNext(g: Geometry, d: Disk, lh: LogHeader, pinned: map<int, Block>, k: nat)
    requires FitsDisk(g, d) && ValidHeader(g, |d|, lh) && k < |lh|
    requires forall x :: x in pinned ==> x in lh
    ensures var cached := Cached(d, pinned, lh);
            var logged := PutLog(g, d, cached, k);
            && Home(g, |d|, lh[k])
            && PutLog(g, d, cached, k + 1) == logged[g.start + k + 1 := View(logged, pinned, lh[k])]
            && pinned - {g.start + k + 1} == pinned
  {
    LogBlockUnpinned(g, |d|, lh, pinned, g.start + k + 1);
    PutLogContents(g, d, Cached(d, pinned, lh), k);
    assert Home(g, |d|, lh[k]);
  }

  lemma {:induction false} UnpinNext(lh: LogHeader, pinned: map<int, Block>, k: nat)
    requires k < |lh|
    requires forall i :: 0 <= i < k ==> lh[i] !in pinned
    ensures forall i :: 0 <= i < k + 1 ==> lh[i] !in pinned - {lh[k]}
  {
  }

  lemma {:induction false} Regroup<T>(a: seq<T>, b: seq<T>, c: seq<T>)
    ensures (a + b) + c == a + (b + c)
  {
  }

  // ---- crash points: the disk after each single write ------------------------------------

  ghost function LogPoints(g: Geometry, d: Disk, cached: seq<Block>, k: nat): (ds: seq<Disk>)
    requires FitsDisk(g, d) && k <= |cached| < g.size
    ensures |ds| == k
    ensures forall i :: 0 <= i < k ==> ds[i] == PutLog(g, d, cached, i + 1)
  {
    if k == 0 then [] else LogPoints(g, d, cached, k - 1) + [PutLog(g, d, cached, k)]
  }

  ghost function InstallPoints(g: Geometry, d: Disk, lh: LogHeader, k: nat): (ds: seq<Disk>)
    requires FitsDisk(g, d) && ValidHeader(g, |d|, lh) && k <= |lh|
    ensures |ds| == k
    ensures forall i :: 0 <= i < k ==> ds[i] == Install(g, d, lh, i + 1)
  {
    if k == 0 then [] else InstallPoints(g, d, lh, k - 1) + [Install(g, d, lh, k)]
  }

  /** The crash points of recover_from_log. */
  ghost function RecoverPoints(g: Geometry, d: Disk, lh: LogHeader): (ds: seq<Disk>)
    requires FitsDisk(g, d) && ValidHeader(g, |d|, lh)
    ensures |ds| == |lh| + 1
    ensures forall i :: 0 <= i < |ds| ==> ds[i] == RecoverStage(g, d, lh, i + 1)
  {
    InstallPoints(g, d, lh, |lh|) + [PutHead(g, Install(g, d, lh, |lh|), [])]
  }

  /** The crash points of commit. */
  ghost function CommitPoints(g: Geometry, d: Disk, lh: LogHeader, cached: seq<Block>): (ds: seq<Disk>)
    requires FitsDisk(g, d) && ValidHeader(g, |d|, lh) && |cached| == |lh|
    ensures |ds| == CommitLength(lh)
    ensures forall i :: 0 <= i < |ds| ==> ds[i] == CommitStage(g, d, lh, cached, i + 1)
  {
    if lh == [] then [] else
      var h := PutHead(g, PutLog(g, d, cached, |lh|), lh);
      LogPoints(g, d, cached, |lh|) + [h] + RecoverPoints(g, h, lh)
  }

  /** log absorption: a block already logged keeps its slot. */
  function Absorb(lh: LogHeader, b: int): LogHeader {
    if b in lh then lh else lh + [b]
  }

  lemma {:induction false} AbsorbKeeps(lh: LogHeader, b: int)
    requires Distinct(lh)
    ensures Distinct(Absorb(lh, b))
    ensures forall x :: x in Absorb(lh, b) <==> x in lh || x == b
  {
    var r := Absorb(lh, b);
    forall i | 0 <= i < |r| ensures IndexOf(r, r[i]) == i {
      var j := IndexOf(r, r[i]);
      if i < |lh| && j < |lh| {
        assert lh[i] == lh[j];
        assert IndexOf(lh, lh[i]) == i && IndexOf(lh, lh[j]) == j;
      }
    }
  }

  lemma {:induction false} AbsorbValid(g: Geometry, len: nat, lh: LogHeader, b: int)
    requires ValidHeader(g, len, lh) && Home(g, len, b) && |lh| < LOGSIZE && |lh| < g.size - 1
    ensures ValidHeader(g, len, Absorb(lh, b))
  {
    AbsorbKeeps(lh, b);
  }

  datatype WriteResult = Logged | TooBig | OutsideTransaction

  class Log {
    const g: Geometry
    var disk: Disk
    var pinned: map<int, Block>
    const block: array<int>  // lh.block
    var n: nat               // lh.n
    var outstanding: nat
    var committing: bool
    ghost var history: seq<Disk>  // the disk after each bwrite so far: the possible crash points

    ghost function Header(): (lh: LogHeader)
      requires n <= block.Length
      reads this, block
    {
      block[..n]
    }

    /** The header in memory is sound, and only logged blocks are pinned. */
    ghost predicate Sound()
      reads this, block
    {
      && block.Length == LOGSIZE
      && n <= LOGSIZE
      && FitsDisk(g, disk)
      && ValidHeader(g, |disk|, Header())
      && (forall b :: b in pinned ==> b in Header())
    }

    /** Between operations: nothing is pending on the disk, and exactly the logged blocks
    are pinned in the cache. */
    ghost predicate Valid()
      reads this, block
    {
      && Sound()
      && HeaderOnDisk(g, disk, [])
      && (forall b :: b in Header() ==> b in pinned)
    }

    /** initlog: a boot from any disk a crash may have left behind. */
    constructor (g: Geometry, disk: Disk)
      requires Consistent(g, disk)
      ensures Valid() && n == 0 && outstanding == 0 && !committing && fresh(block)
      ensures this.g == g && this.disk == Recover(g, disk) && history == RecoverPoints(g, disk, Pending(g, disk))
    {
      this.g, this.disk, pinned := g, disk, map[];
      block := new int[LOGSIZE];
      n, outstanding, committing, history := 0, 0, false, [];
      new;
      RecoverFromLog();
    }

    /** bwrite writes through and clears B_DIRTY. */
    method Bwrite(b: int, data: Block)
      requires 0 <= b < |disk|
      modifies this`disk, this`pinned, this`history
      ensures disk == old(disk)[b := data]
      ensures pinned == old(pinned) - {b}
      ensures history == old(history) + [disk]
    {
      disk := disk[b := data];
      pinned := pinned - {b};
      history := history + [disk];
    }

    /** The body of both copy loops: bread the source, write it over the destination. */
    method CopyBlock(from: int, to: int)
      requires 0 <= from < |disk| && 0 <= to < |disk|
      modifies this`disk, this`pinned, this`history
      ensures disk == old(disk)[to := View(old(disk), old(pinned), from)]
      ensures pinned == old(pinned) - {to}
      ensures history == old(history) + [disk]
    {
      Bwrite(to, View(disk, pinned, from));
    }

    /** One turn of write_log. */
    method LogOne(tail: nat, ghost d: Disk, ghost lh: LogHeader, ghost cached: seq<Block>)
      requires tail < n <= block.Length && lh == Header() && FitsDisk(g, d) && ValidHeader(g, |d|, lh)
      requires forall b :: b in pinned ==> b in lh
      requires cached == Cached(d, pinned, lh) && disk == PutLog(g, d, cached, tail)
      modifies this`disk, this`pinned, this`history
      ensures pinned == old(pinned)
      ensures disk == PutLog(g, d, cached, tail + 1)
      ensures history == old(history) + [disk]
    {
      PutLogNext(g, d, lh, pinned, tail);
      assert block[tail] == lh[tail];
      CopyBlock(block[tail], g.start + tail + 1);
    }

    method WriteLog(ghost d: Disk, ghost lh: LogHeader, ghost cached: seq<Block>)
      requires Sound() && d == disk && lh == Header() && cached == Cached(d, pinned, lh)
      modifies this`disk, this`pinned, this`history
      ensures pinned == old(pinned)
      ensures disk == PutLog(g, d, cached, n)
      ensures history == old(history) + LogPoints(g, d, cached, n)
    {
      var tail := 0;
      while tail < n
        invariant tail <= n
        invariant disk == PutLog(g, d, cached, tail)
        invariant history == old(history) + LogPoints(g, d, cached, tail)
        invariant pinned == old(pinned)
      {
        Regroup(old(history), LogPoints(g, d, cached, tail), [PutLog(g, d, cached, tail + 1)]);
        LogOne(tail, d, lh, cached);
        tail := tail + 1;
      }
    }

    method WriteHead()
      requires block.Length == LOGSIZE && n <= LOGSIZE && FitsDisk(g, disk) && g.start !in pinned
      modifies this`disk, this`pinned, this`history
      ensures pinned == old(pinned)
      ensures disk == PutHead(g, old(disk), Header())
      ensures history == old(history) + [disk]
    {
      var buf := View(disk, pinned, g.start);
      var words := buf.words[0 := n];
      var i := 0;
      while i < n
        invariant i <= n
        invariant |words| == BWORDS && words[0] == n
        invariant forall j :: 0 <= j < i ==> words[1 + j] == block[j]
        invariant forall j :: i < j < BWORDS ==> words[j] == buf.words[j]
      {
        words := words[1 + i := block[i]];
        i := i + 1;
      }
      assert words == [n] + Header() + buf.words[1 + n..];
      Bwrite(g.start, Block(words));
      assert pinned == old(pinned);
    }

    method InstallTrans(ghost d: Disk, ghost lh: LogHeader)
      requires Sound() && d == disk && lh == Header()
      modifies this`disk, this`pinned, this`history
      ensures pinned == map[]
      ensures disk == Install(g, d, lh, n)
      ensures history == old(history) + InstallPoints(g, d, lh, n)
    {
      var tail := 0;
      while tail < n
        invariant tail <= n
        invariant disk == Install(g, d, lh, tail)
        invariant history == old(history) + InstallPoints(g, d, lh, tail)
        invariant forall b :: b in pinned ==> b in lh
        invariant forall i :: 0 <= i < tail ==> lh[i] !in pinned
      {
        LogBlockUnpinned(g, |d|, lh, pinned, g.start + tail + 1);
        assert block[tail] == lh[tail] && Home(g, |d|, lh[tail]);
        UnpinNext(lh, pinned, tail);
        CopyBlock(g.start + tail + 1, block[tail]);
        Regroup(old(history), InstallPoints(g, d, lh, tail), [disk]);
        tail := tail + 1;
      }
      assert pinned == map[] by {
        assert forall b :: b !in pinned;
      }
    }

    /** The common tail of commit and recover_from_log. */
    method InstallAndErase(ghost d: Disk, ghost lh: LogHeader)
      requires Sound() && d == disk && lh == Header()
      modifies this`disk, this`pinned, this`n, this`history
      ensures n == 0 && pinned == map[]
      ensures disk == RecoverStage(g, d, lh, |lh| + 1)
      ensures history == old(history) + RecoverPoints(g, d, lh)
    {
      InstallTrans(d, lh);
      n := 0;
      WriteHead();
      Regroup(old(history), InstallPoints(g, d, lh, |lh|), [disk]);
    }

    /** commit, with names for the disk, header and cache contents it starts from. */
    method Commit(ghost d: Disk, ghost lh: LogHeader, ghost cached: seq<Block>)
      requires Sound() && d == disk && lh == Header() && cached == Cached(disk, pinned, lh)
      modifies this`disk, this`pinned, this`n, this`history
      ensures n == 0 && pinned == map[]
      ensures disk == CommitStage(g, d, lh, cached, CommitLength(lh))
      ensures history == old(history) + CommitPoints(g, d, lh, cached)
    {
      if n > 0 {
        WriteLog(d, lh, cached);
        WriteHead();
        ghost var h := disk;
        InstallAndErase(h, lh);
        Regroup(old(history), LogPoints(g, d, cached, |lh|), [h]);
        Regroup(old(history), LogPoints(g, d, cached, |lh|) + [h], RecoverPoints(g, h, lh));
      } else {
        assert forall b :: b !in pinned;
      }
    }

    /** One turn of begin_op's loop: admit the operation, or sleep. */
    method BeginOp() returns (admitted: bool)
      modifies this`outstanding
      ensures admitted <==> !committing && n + (old(outstanding) + 1) * MAXOPBLOCKS <= LOGSIZE
      ensures outstanding == old(outstanding) + (if admitted then 1 else 0)
    {
      if committing {
        admitted := false;
      } else if n + (outstanding + 1) * MAXOPBLOCKS > LOGSIZE {
        admitted := false;
      } else {
        outstanding := outstanding + 1;
        admitted := true;
      }
    }

    /** end_op.  The last operation commits: afterwards the disk holds what the cache held, and every crash
        point on the way is one of a commit. */
    method EndOp()
      requires Valid() && outstanding >= 1 && !committing
      modifies this`disk, this`pinned, this`n, this`history, this`outstanding, this`committing
      ensures Valid() && !committing
      ensures outstanding == old(outstanding) - 1 && |disk| == old(|disk|)
      ensures outstanding > 0 ==> disk == old(disk) && pinned == old(pinned) && n == old(n)
      ensures outstanding == 0 ==>
                n == 0 && pinned == map[] && Installed(g, old(disk), old(pinned), disk)
      ensures outstanding > 0 ==> history == old(history)
      ensures outstanding == 0 ==>
                var lh := old(Header());
                history == old(history) + CommitPoints(g, old(disk), lh, Cached(old(disk), old(pinned), lh))
    {
      outstanding := outstanding - 1;
      if outstanding == 0 {
        committing := true;
        ghost var d, lh := disk, Header();
        Commit(d, lh, Cached(d, pinned, lh));
        assert Installed(g, d, old(pinned), disk) by {
          CommitInstallsCache(g, d, old(pinned), lh);
        }
        assert Header() == [];
        committing := false;
      }
    }

    method LogWrite(blockno: int, data: Block) returns (r: WriteResult)
      requires Valid() && Home(g, |disk|, blockno)
      modifies this`pinned, this`n, block
      ensures Valid()
      ensures r == if old(n) >= LOGSIZE || old(n) >= g.size - 1 then TooBig
                   else if outstanding < 1 then OutsideTransaction else Logged
      ensures r == Logged ==> Header() == Absorb(old(Header()), blockno) && pinned == old(pinned)[blockno := data]
      ensures r != Logged ==> Header() == old(Header()) && pinned == old(pinned)
    {
      if n >= LOGSIZE || n >= g.size - 1 {
        return TooBig;
      }
      if outstanding < 1 {
        return OutsideTransaction;
      }
      ghost var lh := Header();
      var i := 0;
      while i < n && block[i] != blockno
        invariant i <= n
        invariant blockno !in lh[..i]
      {
        i := i + 1;
      }
      block[i] := blockno;
      if i == n {
        n := n + 1;
      }
      pinned := pinned[blockno := data];
      AbsorbValid(g, |disk|, lh, blockno);
      assert Header() == Absorb(lh, blockno);
      r := Logged;
    }

    method ReadHead()
      requires block.Length == LOGSIZE && pinned == map[] && Consistent(g, disk)
      modifies this`n, block
      ensures n <= block.Length && Header() == Pending(g, disk)
    {
      var buf := View(disk, pinned, g.start);
      n := buf.words[0];
      var i := 0;
      while i < n
        invariant i <= n
        invariant block[..i] == Pending(g, disk)[..i]
        modifies block
      {
        block[i] := buf.words[1 + i];
        i := i + 1;
      }
    }

    method RecoverFromLog()
      requires block.Length == LOGSIZE && pinned == map[] && Consistent(g, disk)
      modifies this`disk, this`pinned, this`n, this`history, block
      ensures Valid() && n == 0
      ensures disk == Recover(g, old(disk))
      ensures history == old(history) + RecoverPoints(g, old(disk), Pending(g, old(disk)))
    {
      ReadHead();
      InstallAndErase(disk, Header());
    }
  }

  /** The home blocks of r hold the pinned contents, or else what the disk held, and nothing is pending on r. */
  ghost predicate Installed(g: Geometry, d: Disk, pinned: map<int, Block>, r: Disk) {
    && |r| == |d|
    && HeaderOnDisk(g, r, [])
    && forall b {:trigger Home(g, |d|, b)} :: Home(g, |d|, b) ==> r[b] == if b in pinned then pinned[b] else d[b]
  }

  /** A complete commit moves exactly the cached view onto the disk. */
  lemma {:induction false} CommitInstallsCache(g: Geometry, d: Disk, pinned: map<int, Block>, lh: LogHeader)
    requires SettledAt(g, d, d) && ValidHeader(g, |d|, lh)
    requires forall b :: b in pinned ==> b in lh
    ensures Installed(g, d, pinned, CommitStage(g, d, lh, Cached(d, pinned, lh), CommitLength(lh)))
  {
    var cached := Cached(d, pinned, lh);
    CommitWhole(g, d, lh, cached);
    var r := CommitStage(g, d, lh, cached, CommitLength(lh));
    forall b | Home(g, |d|, b) ensures r[b] == View(d, pinned, b) {
      if b in lh {
        assert Updated(d, lh, cached)[lh[IndexOf(lh, b)]] == cached[IndexOf(lh, b)];
      }
    }
  }
}
