/** The on-disk redo log (log.c) as a sequence of disk states. */
module RedoLog {
  // A block is given by its 128 little-endian words.  A disk is the sequence of its blocks.
  // Every `bwrite` is one atomic step, and the machine may stop between any two of them.
  // `CommitStage` and `RecoverStage` give the disk after each single write of `commit` and
  // `recover_from_log`; the lemmas say what is left when those runs are cut short anywhere.

  import opened Params

  const BWORDS: nat := 128

  datatype Block = Block(words: seq<int>)
  type Disk = seq<Block>

  /** Where the log lives: header at `start`, log blocks at `start+1 .. start+size-1`. */
  datatype Geometry = Geometry(start: nat, size: nat)

  /** The blocks a transaction has logged (`lh.block[0..n]`), in order. */
  type LogHeader = seq<int>

  ghost predicate FitsDisk(g: Geometry, d: Disk) {
    1 <= g.size && g.start + g.size <= |d| && |d[g.start].words| == BWORDS
  }

  /** A home block is any block outside the log region. */
  predicate Home(g: Geometry, len: nat, b: int) {
    0 <= b < len && !(g.start <= b < g.start + g.size)
  }

  ghost function IndexOf(lh: LogHeader, b: int): (i: nat)
    requires b in lh
    ensures i < |lh| && lh[i] == b
  {
    var i :| 0 <= i < |lh| && lh[i] == b;
    i
  }

  /** No block number occurs twice: every index is the one `IndexOf` finds. */
  ghost predicate Distinct(s: seq<int>) {
    forall i :: 0 <= i < |s| ==> IndexOf(s, s[i]) == i
  }

  /** What begin_op and log_write guarantee of a header about to be committed. */
  ghost predicate ValidHeader(g: Geometry, len: nat, lh: LogHeader) {
    && |lh| <= LOGSIZE
    && |lh| < g.size
    && Distinct(lh)
    && forall i :: 0 <= i < |lh| ==> Home(g, len, lh[i])
  }

  // ---- the header block -----------------------------------------------------------------

  function HeaderCount(b: Block): int
    requires |b.words| == BWORDS
  {
    b.words[0]
  }

  /** The logged block numbers as read_head sees them. */
  function DecodeHeader(b: Block): (lh: LogHeader)
    requires |b.words| == BWORDS && 0 <= HeaderCount(b) <= LOGSIZE
  {
    b.words[1..1 + HeaderCount(b)]
  }

  /** write_head overwrites the count and the first n entries, and keeps the stale rest. */
  function EncodeHeader(stale: Block, lh: LogHeader): (b: Block)
    requires |stale.words| == BWORDS && |lh| <= LOGSIZE
    ensures |b.words| == BWORDS && HeaderCount(b) == |lh| && DecodeHeader(b) == lh
  {
    Block([|lh|] + lh + stale.words[1 + |lh|..])
  }

  ghost predicate HeaderOnDisk(g: Geometry, d: Disk, lh: LogHeader) {
    && FitsDisk(g, d)
    && HeaderCount(d[g.start]) == |lh| <= LOGSIZE
    && DecodeHeader(d[g.start]) == lh
  }

  // ---- single phases --------------------------------------------------------------------

  /** write_head. */
  ghost function PutHead(g: Geometry, d: Disk, lh: LogHeader): (r: Disk)
    requires FitsDisk(g, d) && |lh| <= LOGSIZE
    ensures |r| == |d| && HeaderOnDisk(g, r, lh)
  {
    d[g.start := EncodeHeader(d[g.start], lh)]
  }

  /** write_log after k blocks: cached block i is in log block start+1+i. */
  ghost function PutLog(g: Geometry, d: Disk, cached: seq<Block>, k: nat): (r: Disk)
    requires FitsDisk(g, d) && k <= |cached| < g.size
    ensures FitsDisk(g, r) && |r| == |d| && r[g.start] == d[g.start]
  {
    if k == 0 then d else PutLog(g, d, cached, k - 1)[g.start + k := cached[k - 1]]
  }

  lemma {:induction false} PutLogContents(g: Geometry, d: Disk, cached: seq<Block>, k: nat)
    requires FitsDisk(g, d) && k <= |cached| < g.size
    ensures forall i :: 0 <= i < k ==> PutLog(g, d, cached, k)[g.start + 1 + i] == cached[i]
    ensures forall b :: 0 <= b <= g.start || g.start + k < b < |d| ==> PutLog(g, d, cached, k)[b] == d[b]
  {
    if k > 0 {
      PutLogContents(g, d, cached, k - 1);
    }
  }

  /** install_trans after k blocks: log block start+1+i is in home block lh[i]. */
  ghost function Install(g: Geometry, d: Disk, lh: LogHeader, k: nat): (r: Disk)
    requires FitsDisk(g, d) && ValidHeader(g, |d|, lh) && k <= |lh|
    ensures FitsDisk(g, r) && |r| == |d|
    ensures forall i :: 0 <= i < k ==> r[lh[i]] == d[g.start + 1 + i]
    ensures forall b {:trigger r[b]} :: 0 <= b < |d| && b !in lh ==> r[b] == d[b]
    ensures forall b {:trigger r[b]} :: g.start <= b < g.start + g.size ==> r[b] == d[b]
  {
    if k == 0 then d else
      Install(g, d, lh, k - 1)[lh[k - 1] := d[g.start + k]]
  }

  // ---- whole runs, write by write -------------------------------------------------------

  /** The number of disk writes of a commit.  Nothing is written for an empty transaction. */
  function CommitLength(lh: LogHeader): nat {
    if lh == [] then 0 else 2 * |lh| + 2
  }

  /** The disk after the first j writes of recover_from_log with `lh` in its header. */
  ghost function RecoverStage(g: Geometry, d: Disk, lh: LogHeader, j: nat): (r: Disk)
    requires FitsDisk(g, d) && ValidHeader(g, |d|, lh) && j <= |lh| + 1
    ensures |r| == |d|
  {
    if j <= |lh| then Install(g, d, lh, j) else PutHead(g, Install(g, d, lh, |lh|), [])
  }

  /** The disk after the first k writes of commit. */
  ghost function CommitStage(g: Geometry, d: Disk, lh: LogHeader, cached: seq<Block>, k: nat): (r: Disk)
    requires FitsDisk(g, d) && ValidHeader(g, |d|, lh) && |cached| == |lh| && k <= CommitLength(lh)
    ensures |r| == |d|
  {
    if k <= |lh| then PutLog(g, d, cached, k)
    else RecoverStage(g, PutHead(g, PutLog(g, d, cached, |lh|), lh), lh, k - |lh| - 1)
  }

  // ---- crash safety ---------------------------------------------------------------------

  /** `d` recovers to `target`: its header names a transaction whose log blocks hold the
  target contents, and every other home block already holds them. */
  ghost predicate RecoversTo(g: Geometry, d: Disk, lh: LogHeader, target: Disk) {
    && |d| == |target|
    && HeaderOnDisk(g, d, lh)
    && ValidHeader(g, |d|, lh)
    && (forall i :: 0 <= i < |lh| ==> d[g.start + 1 + i] == target[lh[i]])
    && (forall b {:trigger Home(g, |d|, b)} :: Home(g, |d|, b) && b !in lh ==> d[b] == target[b])
  }

  /** Nothing is pending and the home blocks are exactly those of `target`. */
  ghost predicate SettledAt(g: Geometry, d: Disk, target: Disk) {
    && |d| == |target|
    && HeaderOnDisk(g, d, [])
    && forall b {:trigger Home(g, |d|, b)} :: Home(g, |d|, b) ==> d[b] == target[b]
  }

  /** The disk with the transaction's blocks replaced. */
  ghost function Updated(d: Disk, lh: LogHeader, cached: seq<Block>): (r: Disk)
    requires |cached| == |lh| && Distinct(lh)
    requires forall i :: 0 <= i < |lh| ==> 0 <= lh[i] < |d|
    ensures |r| == |d|
    ensures forall i :: 0 <= i < |lh| ==> r[lh[i]] == cached[i]
    ensures forall b {:trigger r[b]} :: 0 <= b < |d| && b !in lh ==> r[b] == d[b]
  {
    seq(|d|, b requires 0 <= b < |d| => if b in lh then cached[IndexOf(lh, b)] else d[b])
  }

  /** Any prefix of a recovery leaves a disk that recovers to the same target, and a whole
  recovery settles it. */
  lemma {:induction false} RecoverPrefix(g: Geometry, d: Disk, lh: LogHeader, target: Disk, j: nat)
    requires RecoversTo(g, d, lh, target) && j <= |lh| + 1
    ensures var r := RecoverStage(g, d, lh, j);
            if j <= |lh| then RecoversTo(g, r, lh, target) else SettledAt(g, r, target)
  {
    if j <= |lh| {
      var r := Install(g, d, lh, j);
      forall b | Home(g, |d|, b) && b !in lh ensures r[b] == target[b] {}
    } else {
      var r := Install(g, d, lh, |lh|);
      forall b | Home(g, |d|, b) ensures r[b] == target[b] {
        if b in lh {
          var i :| 0 <= i < |lh| && lh[i] == b;
          assert r[lh[i]] == d[g.start + 1 + i];
        }
      }
    }
  }

  /** What a commit cut after k writes recovers to: the first write_head is the switch. */
  ghost function Outcome(d: Disk, lh: LogHeader, cached: seq<Block>, k: nat): (target: Disk)
    requires |cached| == |lh| && Distinct(lh)
    requires forall i :: 0 <= i < |lh| ==> 0 <= lh[i] < |d|
  {
    if k <= |lh| then d else Updated(d, lh, cached)
  }

  /** The disk once write_log and the first write_head are done. */
  lemma {:induction false} CommitPoint(g: Geometry, d: Disk, lh: LogHeader, cached: seq<Block>)
    requires SettledAt(g, d, d) && ValidHeader(g, |d|, lh) && |cached| == |lh|
    ensures RecoversTo(g, PutHead(g, PutLog(g, d, cached, |lh|), lh), lh, Updated(d, lh, cached))
  {
    var logged := PutLog(g, d, cached, |lh|);
    PutLogContents(g, d, cached, |lh|);
    forall b | Home(g, |d|, b) ensures logged[b] == d[b] {}
    HeadCommits(g, logged, d, lh, cached);
  }

  lemma {:induction false} HeadCommits(g: Geometry, logged: Disk, d: Disk, lh: LogHeader, cached: seq<Block>)
    requires FitsDisk(g, logged) && |logged| == |d| && ValidHeader(g, |d|, lh) && |cached| == |lh|
    requires forall i :: 0 <= i < |lh| ==> logged[g.start + 1 + i] == cached[i]
    requires forall b {:trigger Home(g, |d|, b)} :: Home(g, |d|, b) ==> logged[b] == d[b]
    ensures RecoversTo(g, PutHead(g, logged, lh), lh, Updated(d, lh, cached))
  {
    var target := Updated(d, lh, cached);
    forall i | 0 <= i < |lh| ensures PutHead(g, logged, lh)[g.start + 1 + i] == target[lh[i]] {
      assert target[lh[i]] == cached[i];
    }
  }

  /** Before the first write_head the disk still recovers to its old contents. */
  lemma {:induction false} LogPrefix(g: Geometry, d: Disk, lh: LogHeader, cached: seq<Block>, k: nat)
    requires SettledAt(g, d, d) && ValidHeader(g, |d|, lh) && |cached| == |lh| && k <= |lh|
    ensures RecoversTo(g, CommitStage(g, d, lh, cached, k), [], d)
  {
    var logged := PutLog(g, d, cached, k);
    PutLogContents(g, d, cached, k);
    forall b | Home(g, |d|, b) ensures logged[b] == d[b] {}
  }

  /** From the first write_head on it recovers to the new ones. */
  lemma {:induction false} InstallPrefix(g: Geometry, d: Disk, lh: LogHeader, cached: seq<Block>, k: nat)
    requires SettledAt(g, d, d) && ValidHeader(g, |d|, lh) && |cached| == |lh| < k <= CommitLength(lh)
    ensures RecoversTo(g, CommitStage(g, d, lh, cached, k), if k <= 2 * |lh| + 1 then lh else [], Updated(d, lh, cached))
  {
    CommitPoint(g, d, lh, cached);
    RecoverPrefix(g, PutHead(g, PutLog(g, d, cached, |lh|), lh), lh, Updated(d, lh, cached), k - |lh| - 1);
  }

  lemma {:induction false} CommitPrefix(g: Geometry, d: Disk, lh: LogHeader, cached: seq<Block>,
                                        k: nat) returns (pending: LogHeader)
    requires SettledAt(g, d, d) && ValidHeader(g, |d|, lh) && |cached| == |lh| && k <= CommitLength(lh)
    ensures RecoversTo(g, CommitStage(g, d, lh, cached, k), pending, Outcome(d, lh, cached, k))
    ensures k == CommitLength(lh) ==> pending == []
  {
    if k <= |lh| {
      LogPrefix(g, d, lh, cached, k);
      pending := [];
    } else {
      InstallPrefix(g, d, lh, cached, k);
      pending := if k <= 2 * |lh| + 1 then lh else [];
    }
  }

  // ---- repeated crashes -----------------------------------------------------------------

  /** The header on the disk names a transaction recovery can install. */
  ghost predicate Consistent(g: Geometry, d: Disk) {
    && FitsDisk(g, d)
    && 0 <= HeaderCount(d[g.start]) <= LOGSIZE
    && ValidHeader(g, |d|, DecodeHeader(d[g.start]))
  }

  ghost function Pending(g: Geometry, d: Disk): (lh: LogHeader)
    requires Consistent(g, d)
    ensures HeaderOnDisk(g, d, lh) && ValidHeader(g, |d|, lh)
  {
    DecodeHeader(d[g.start])
  }

  /** recover_from_log stopped after j of its writes (j past the end: not stopped). */
  ghost function RecoverCut(g: Geometry, d: Disk, j: nat): (r: Disk)
    requires Consistent(g, d)
    ensures Consistent(g, r)
  {
    var lh := Pending(g, d);
    var j' := if j <= |lh| then j else |lh| + 1;
    SomeTarget(g, d, lh);
    RecoverPrefix(g, d, lh, Updated(d, lh, d[g.start + 1..g.start + 1 + |lh|]), j');
    RecoverStage(g, d, lh, j')
  }

  lemma {:induction false} SomeTarget(g: Geometry, d: Disk, lh: LogHeader)
    requires HeaderOnDisk(g, d, lh) && ValidHeader(g, |d|, lh)
    ensures RecoversTo(g, d, lh, Updated(d, lh, d[g.start + 1..g.start + 1 + |lh|]))
  {
  }

  ghost function Recover(g: Geometry, d: Disk): (r: Disk)
    requires Consistent(g, d)
    ensures Consistent(g, r)
  {
    RecoverCut(g, d, |Pending(g, d)| + 1)
  }

  /** Reboots whose recoveries stop after cuts[0], cuts[1], ... writes. */
  ghost function Reboots(g: Geometry, d: Disk, cuts: seq<nat>): (r: Disk)
    requires Consistent(g, d)
    ensures Consistent(g, r)
    decreases |cuts|
  {
    if cuts == [] then d else Reboots(g, RecoverCut(g, d, cuts[0]), cuts[1..])
  }

  lemma {:induction false} RecoverCutTo(g: Geometry, d: Disk, lh: LogHeader, target: Disk, j: nat)
    requires RecoversTo(g, d, lh, target)
    ensures Consistent(g, d)
    ensures exists lh' :: RecoversTo(g, RecoverCut(g, d, j), lh', target)
    ensures j > |lh| ==> SettledAt(g, RecoverCut(g, d, j), target)
  {
    assert Pending(g, d) == lh;
    RecoverPrefix(g, d, lh, target, if j <= |lh| then j else |lh| + 1);
    assert RecoversTo(g, RecoverCut(g, d, j), if j <= |lh| then lh else [], target);
  }

  /** However often recovery is interrupted, the recovery that completes reaches the target. */
  lemma {:induction false} RebootsReach(g: Geometry, d: Disk, lh: LogHeader, target: Disk, cuts: seq<nat>)
    requires RecoversTo(g, d, lh, target)
    ensures Consistent(g, d)
    ensures SettledAt(g, Recover(g, Reboots(g, d, cuts)), target)
    decreases |cuts|
  {
    if cuts == [] {
      RecoverCutTo(g, d, lh, target, |lh| + 1);
    } else {
      RecoverCutTo(g, d, lh, target, cuts[0]);
      var lh' :| RecoversTo(g, RecoverCut(g, d, cuts[0]), lh', target);
      RebootsReach(g, RecoverCut(g, d, cuts[0]), lh', target, cuts[1..]);
    }
  }

  /** Crash atomicity.  Stop a commit after any k of its writes, then reboot any number of
  times with each recovery itself stopped anywhere: the recovery that completes leaves the
  home blocks all old when the first write_head was not reached and all new otherwise, and
  no transaction is left pending. */
  lemma {:induction false} CrashAtomicity(g: Geometry, d: Disk, lh: LogHeader, cached: seq<Block>, k: nat, cuts: seq<nat>)
    requires SettledAt(g, d, d) && ValidHeader(g, |d|, lh) && |cached| == |lh| && k <= CommitLength(lh)
    ensures var c := CommitStage(g, d, lh, cached, k);
            && Consistent(g, c)
            && SettledAt(g, Recover(g, Reboots(g, c, cuts)), Outcome(d, lh, cached, k))
  {
    var pending := CommitPrefix(g, d, lh, cached, k);
    RebootsReach(g, CommitStage(g, d, lh, cached, k), pending, Outcome(d, lh, cached, k), cuts);
  }

  // ---- whole histories ------------------------------------------------------------------

  /** One transaction of a history.  `Crashed` stops the commit after k writes and reboots
  through `cuts`, ending with a recovery that completes. */
  datatype Transaction =
    | Completed(lh: LogHeader, cached: seq<Block>)
    | Crashed(lh: LogHeader, cached: seq<Block>, k: nat, cuts: seq<nat>)

  ghost predicate ValidTransaction(g: Geometry, len: nat, t: Transaction) {
    && ValidHeader(g, len, t.lh)
    && |t.cached| == |t.lh|
    && (t.Crashed? ==> t.k <= CommitLength(t.lh))
  }

  /** Did the transaction reach its first write_head? */
  predicate Survives(t: Transaction) {
    t.Completed? || t.k > |t.lh|
  }

  /** The disk after one transaction of a history. */
  ghost function Step(g: Geometry, d: Disk, t: Transaction): (r: Disk)
    requires SettledAt(g, d, d) && ValidTransaction(g, |d|, t)
    ensures SettledAt(g, r, if Survives(t) then Updated(d, t.lh, t.cached) else d)
  {
    match t
    case Completed(lh, cached) =>
      CommitWhole(g, d, lh, cached);
      CommitStage(g, d, lh, cached, CommitLength(lh))
    case Crashed(lh, cached, k, cuts) =>
      CrashAtomicity(g, d, lh, cached, k, cuts);
      Recover(g, Reboots(g, CommitStage(g, d, lh, cached, k), cuts))
  }

  /** A commit that is not interrupted settles the disk at the new contents. */
  lemma {:induction false} CommitWhole(g: Geometry, d: Disk, lh: LogHeader, cached: seq<Block>)
    requires SettledAt(g, d, d) && ValidHeader(g, |d|, lh) && |cached| == |lh|
    ensures SettledAt(g, CommitStage(g, d, lh, cached, CommitLength(lh)), Updated(d, lh, cached))
  {
    var pending := CommitPrefix(g, d, lh, cached, CommitLength(lh));
  }

  ghost predicate ValidHistory(g: Geometry, len: nat, ts: seq<Transaction>) {
    forall i :: 0 <= i < |ts| ==> ValidTransaction(g, len, ts[i])
  }

  /** The disk after a history of transactions, crashes and reboots. */
  ghost function Run(g: Geometry, d: Disk, ts: seq<Transaction>): (r: Disk)
    requires SettledAt(g, d, d) && ValidHistory(g, |d|, ts)
    ensures |r| == |d| && SettledAt(g, r, r)
  {
    if ts == [] then d else Step(g, Run(g, d, ts[..|ts| - 1]), ts[|ts| - 1])
  }

  /** The contents of block b after replaying, in order and in full, exactly the surviving
  transactions: the last surviving one that names b decides. */
  ghost function Replay(d: Disk, ts: seq<Transaction>, b: int): (data: Block)
    requires 0 <= b < |d|
    requires forall i :: 0 <= i < |ts| ==> |ts[i].cached| == |ts[i].lh|
  {
    if ts == [] then d[b]
    else
      var t := ts[|ts| - 1];
      if Survives(t) && b in t.lh then
        t.cached[IndexOf(t.lh, b)]
      else
        Replay(d, ts[..|ts| - 1], b)
  }

  /** Over every history the home blocks are those of the surviving transactions, applied
  whole and in order: nothing torn, nothing lost after its commit point. */
  lemma {:induction false} HistoryIsAtomic(g: Geometry, d: Disk, ts: seq<Transaction>, b: int)
    requires SettledAt(g, d, d) && ValidHistory(g, |d|, ts)
    requires Home(g, |d|, b)
    ensures Run(g, d, ts)[b] == Replay(d, ts, b)
  {
    if ts != [] {
      HistoryIsAtomic(g, d, ts[..|ts| - 1], b);
    }
  }
}
