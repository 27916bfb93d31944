/** The buffer cache (bio.c), as a state machine. */
module BufferCache {
  // `Cache` is the cache as a value: the buffers, the MRU order of the ring, and the disk.  Its
  // steps are the critical sections of bget and brelse, the disk transfers of bread and bwrite,
  // the change of a locked buffer by its holder, and log_write's pin.  The class `Bcache` of module
  // `BufferRing` runs the pointer code over prev/next and is proved to take those steps.

  import opened Params
  import opened Sets

  const HEAD: nat := NBUF  // the list head, after the NBUF buffers

  type Data = seq<int>

  datatype Key = Key(dev: int, blockno: int)

  datatype Buf = Buf(key: Key, valid: bool, dirty: bool, refcnt: nat, locked: bool, data: Data)

  datatype Cache = Cache(bufs: seq<Buf>, order: seq<int>, disk: map<Key, Data>)

  predicate Recyclable(b: Buf) { b.refcnt == 0 && !b.dirty }

  // ---- steps ----------------------------------------------------------------------------

  datatype Step =
    | Get(key: Key, b: int)          // bget returned buffer b for key
    | Fill(b: int)                   // the lock is acquired; bread reads the disk if needed
    | Modify(b: int, data: Data)     // the holder of the lock changes the data
    | Pin(b: int)                    // log_write sets B_DIRTY
    | Write(b: int)                  // bwrite
    | Release(b: int)                // brelse

  ghost predicate Cached(c: Cache, key: Key) {
    exists b :: 0 <= b < |c.bufs| && c.bufs[b].key == key
  }

  /** b is the least recently used buffer that may be recycled. */
  ghost predicate LeastRecent(c: Cache, b: int) {
    exists i {:trigger c.order[i]} ::
      && 0 <= i < |c.order| && c.order[i] == b && 0 <= b < |c.bufs| && Recyclable(c.bufs[b])
      && forall j :: i < j < |c.order| && 0 <= c.order[j] < |c.bufs| ==> !Recyclable(c.bufs[c.order[j]])
  }

  ghost predicate Enabled(c: Cache, s: Step) {
    && 0 <= s.b < |c.bufs|
    && match s
       case Get(key, b) => key.dev != 0 && key in c.disk &&
                           (c.bufs[b].key == key || (!Cached(c, key) && LeastRecent(c, b)))
       case Fill(b) => !c.bufs[b].locked && c.bufs[b].refcnt > 0 && c.bufs[b].key in c.disk
       case Modify(b, _) => c.bufs[b].locked && c.bufs[b].valid
       case Pin(b) => c.bufs[b].locked && c.bufs[b].valid
       case Write(b) => c.bufs[b].locked && c.bufs[b].valid && c.bufs[b].key in c.disk
       // the holder has written or pinned whatever it changed
       case Release(b) => c.bufs[b].locked && c.bufs[b].refcnt > 0 && c.bufs[b].key in c.disk &&
                          (c.bufs[b].dirty || !c.bufs[b].valid || c.bufs[b].data == c.disk[c.bufs[b].key])
  }

  function WithBuf(c: Cache, b: int, x: Buf): Cache
    requires 0 <= b < |c.bufs|
  {
    c.(bufs := c.bufs[b := x])
  }

  /** b moved to the front of the order. */
  ghost function ToFront(order: seq<int>, b: int): seq<int>
    requires b in order
  {
    var i :| 0 <= i < |order| && order[i] == b;
    [b] + order[..i] + order[i + 1..]
  }

  ghost function Next(c: Cache, s: Step): Cache
    requires Enabled(c, s)
  {
    var x := c.bufs[s.b];
    match s
    case Get(key, b) =>
      if x.key == key then WithBuf(c, b, x.(refcnt := x.refcnt + 1))
      else WithBuf(c, b, x.(key := key, valid := false, dirty := false, refcnt := 1))
    case Fill(b) => WithBuf(c, b, x.(locked := true, valid := true, data := if x.valid then x.data else c.disk[x.key]))
    case Modify(b, data) => WithBuf(c, b, x.(data := data))
    case Pin(b) => WithBuf(c, b, x.(dirty := true))
    case Write(b) => WithBuf(c, b, x.(dirty := false)).(disk := c.disk[x.key := x.data])
    case Release(b) =>
      var r := WithBuf(c, b, x.(locked := false, refcnt := x.refcnt - 1));
      if x.refcnt == 1 && b in c.order then r.(order := ToFront(c.order, b)) else r
  }

  // ---- the invariant --------------------------------------------------------------------

  ghost predicate BufOk(c: Cache, x: Buf) {
    && (x.key.dev != 0 ==> x.key in c.disk)
    && (x.locked ==> x.refcnt > 0 && x.valid)
    && (x.dirty ==> x.valid)
    && (x.valid || x.refcnt > 0 ==> x.key.dev != 0)
    && (x.valid && !x.dirty && !x.locked ==> x.key in c.disk && x.data == c.disk[x.key])
  }

  /** No block has two buffers.  (The zero-initialised identity is shared after binit.) */
  ghost predicate Unique(c: Cache) {
    forall a, b :: 0 <= a < |c.bufs| && 0 <= b < |c.bufs| && c.bufs[a].key == c.bufs[b].key && c.bufs[a].key.dev != 0 ==> a == b
  }

  ghost predicate Permutation(order: seq<int>) {
    && |order| == NBUF
    && (forall i :: 0 <= i < |order| ==> 0 <= order[i] < NBUF)
    && (forall i, j :: 0 <= i < j < |order| ==> order[i] != order[j])
    && (forall b :: 0 <= b < NBUF ==> b in order)
  }

  ghost predicate Inv(c: Cache) {
    && |c.bufs| == NBUF && Permutation(c.order) && Unique(c)
    && forall b :: 0 <= b < |c.bufs| ==> BufOk(c, c.bufs[b])
  }

  /** The contents of a block as the rest of the kernel sees them: the cached copy if there is
  one, the disk otherwise. */
  ghost function View(c: Cache, key: Key): Data
    requires key in c.disk
  {
    if b :| 0 <= b < |c.bufs| && c.bufs[b].key == key && c.bufs[b].valid then c.bufs[b].data else c.disk[key]
  }

  lemma {:induction false} ViewOfBuf(c: Cache, b: int)
    requires Inv(c) && 0 <= b < |c.bufs| && c.bufs[b].valid
    ensures c.bufs[b].key in c.disk && View(c, c.bufs[b].key) == c.bufs[b].data
  {
    assert BufOk(c, c.bufs[b]);
    var key := c.bufs[b].key;
    var a :| 0 <= a < |c.bufs| && c.bufs[a].key == key && c.bufs[a].valid && View(c, key) == c.bufs[a].data;
  }

  lemma {:induction false} ViewOfDisk(c: Cache, key: Key)
    requires key in c.disk
    requires forall b :: 0 <= b < |c.bufs| ==> !(c.bufs[b].key == key && c.bufs[b].valid)
    ensures View(c, key) == c.disk[key]
  {
  }

  // ---- one step -------------------------------------------------------------------------

  lemma {:induction false} MovedAt(order: seq<int>, b: int, i: nat, r: seq<int>, j: nat)
    requires i < |order| == |r| && j < |r| && r == [b] + order[..i] + order[i + 1..]
    ensures r[j] == if j == 0 then b else if j <= i then order[j - 1] else order[j]
  {
  }

  lemma {:induction false} MovedPermutes(order: seq<int>, b: int, i: nat, r: seq<int>)
    requires Permutation(order) && i < |order| && order[i] == b && |r| == |order|
    requires forall j {:trigger r[j]} :: 0 <= j < |r| ==> r[j] == if j == 0 then b else if j <= i then order[j - 1] else order[j]
    ensures Permutation(r)
  {
    forall x | 0 <= x < NBUF ensures x in r {
      assert x in order;
      var j :| 0 <= j < |order| && order[j] == x;
      assert r[if j < i then j + 1 else if j == i then 0 else j] == x;
    }
  }

  lemma {:induction false} ToFrontPermutes(order: seq<int>, b: int)
    requires Permutation(order) && b in order
    ensures Permutation(ToFront(order, b))
  {
    var i :| 0 <= i < |order| && order[i] == b && ToFront(order, b) == [b] + order[..i] + order[i + 1..];
    var r := ToFront(order, b);
    forall j | 0 <= j < |r| ensures r[j] == if j == 0 then b else if j <= i then order[j - 1] else order[j] {
      MovedAt(order, b, i, r, j);
    }
    MovedPermutes(order, b, i, r);
  }

  /** Replacing one buffer keeps the others' identities apart. */
  lemma {:induction false} UniqueAfter(c: Cache, b: int, x: Buf)
    requires Unique(c) && 0 <= b < |c.bufs|
    requires x.key == c.bufs[b].key || !Cached(c, x.key)
    ensures Unique(WithBuf(c, b, x))
  {
  }

  lemma {:induction false} StepKeepsInv(c: Cache, s: Step)
    requires Inv(c) && Enabled(c, s)
    ensures Inv(Next(c, s))
  {
    var r := Next(c, s);
    assert BufOk(c, c.bufs[s.b]);
    UniqueAfter(c, s.b, r.bufs[s.b]);
    if s.Release? && s.b in c.order {
      ToFrontPermutes(c.order, s.b);
    }
    forall b | 0 <= b < |r.bufs| ensures BufOk(r, r.bufs[b]) {
      assert BufOk(c, c.bufs[b]);
    }
  }

  /** Only the holder of a buffer's lock changes what a block reads as: recycling, filling,
  writing back, pinning and releasing are invisible. */
  lemma {:induction false} StepKeepsView(c: Cache, s: Step, key: Key)
    requires Inv(c) && Enabled(c, s) && key in c.disk && key.dev != 0
    ensures key in Next(c, s).disk
    ensures View(Next(c, s), key) == if s.Modify? && c.bufs[s.b].key == key then s.data else View(c, key)
  {
    StepKeepsInv(c, s);
    var r := Next(c, s);
    assert BufOk(c, c.bufs[s.b]);
    if b :| 0 <= b < |c.bufs| && c.bufs[b].key == key && c.bufs[b].valid {
      ViewOfBuf(c, b);
      if s.Get? && b == s.b && c.bufs[b].key != s.key {
        ViewOfDisk(r, key);
      } else {
        ViewOfBuf(r, b);
      }
    } else {
      ViewOfDisk(c, key);
      if s.Fill? && c.bufs[s.b].key == key {
        ViewOfBuf(r, s.b);
      } else {
        ViewOfDisk(r, key);
      }
    }
  }

  /** A pinned buffer keeps its block until bwrite, and its data unless its holder changes it. */
  lemma {:induction false} StepKeepsPin(c: Cache, s: Step, b: int)
    requires Inv(c) && Enabled(c, s) && 0 <= b < |c.bufs| && c.bufs[b].dirty && s != Write(b)
    ensures var x := Next(c, s).bufs[b];
            x.dirty && x.key == c.bufs[b].key && (!(s.Modify? && s.b == b) ==> x.data == c.bufs[b].data)
  {
    assert BufOk(c, c.bufs[b]);
  }

  // ---- whole runs -----------------------------------------------------------------------

  ghost predicate Leads(c: Cache, steps: seq<Step>, c': Cache)
    decreases |steps|
  {
    if steps == [] then c' == c else Enabled(c, steps[0]) && Leads(Next(c, steps[0]), steps[1..], c')
  }

  /** The value a block was last given by a holder of its buffer, starting from v. */
  ghost function Latest(c: Cache, steps: seq<Step>, c': Cache, key: Key, v: Data): Data
    requires Leads(c, steps, c')
    decreases |steps|
  {
    if steps == [] then v
    else
      var s := steps[0];
      Latest(Next(c, s), steps[1..], c', key, if s.Modify? && c.bufs[s.b].key == key then s.data else v)
  }

  /** Over every interleaving the cache behaves as one memory cell per block: a block reads as
  what was last stored through its buffer, whatever was recycled, written back or re-read in
  between; and the invariant (unique buffers, clean unlocked copies equal to disk, a ring that
  is a permutation of all buffers) holds throughout. */
  lemma {:induction false} CacheIsTransparent(c: Cache, steps: seq<Step>, c': Cache, key: Key)
    requires Inv(c) && Leads(c, steps, c') && key in c.disk && key.dev != 0
    ensures Inv(c') && key in c'.disk
    ensures View(c', key) == Latest(c, steps, c', key, View(c, key))
    decreases |steps|
  {
    if steps != [] {
      StepKeepsInv(c, steps[0]);
      StepKeepsView(c, steps[0], key);
      CacheIsTransparent(Next(c, steps[0]), steps[1..], c', key);
    }
  }

  lemma {:induction false} DirtyUntilWritten(c: Cache, steps: seq<Step>, c': Cache, b: int)
    requires Inv(c) && Leads(c, steps, c') && 0 <= b < |c.bufs| && c.bufs[b].dirty && Write(b) !in steps
    ensures b < |c'.bufs| && c'.bufs[b].dirty && c'.bufs[b].key == c.bufs[b].key
    decreases |steps|
  {
    if steps != [] {
      StepKeepsInv(c, steps[0]);
      StepKeepsPin(c, steps[0], b);
      DirtyUntilWritten(Next(c, steps[0]), steps[1..], c', b);
    }
  }

  /** A block pinned by log_write is never recycled before it is written to disk. */
  lemma {:induction false} PinnedUntilWritten(c: Cache, b: int, steps: seq<Step>, c': Cache)
    requires Inv(c) && Enabled(c, Pin(b)) && Leads(Next(c, Pin(b)), steps, c') && Write(b) !in steps
    ensures b < |c'.bufs| && c'.bufs[b].dirty && c'.bufs[b].key == c.bufs[b].key
    ensures forall key :: !Enabled(c', Get(key, b)) || key == c.bufs[b].key
  {
    StepKeepsInv(c, Pin(b));
    DirtyUntilWritten(Next(c, Pin(b)), steps, c', b);
    assert !LeastRecent(c', b);
  }

  // ---- what bwrite puts on the disk -----------------------------------------------------

  /** No holder of the block's buffer changes it in the course of the steps. */
  ghost predicate Untouched(c: Cache, steps: seq<Step>, key: Key)
    decreases |steps|
  {
    steps != [] && Enabled(c, steps[0]) ==>
      !(steps[0].Modify? && c.bufs[steps[0].b].key == key) && Untouched(Next(c, steps[0]), steps[1..], key)
  }

  /** The disk only ever takes on what a block reads as, and only by bwrite of its buffer. */
  lemma {:induction false} StepWrites(c: Cache, s: Step, key: Key)
    requires Inv(c) && Enabled(c, s) && key in c.disk && key.dev != 0
    ensures key in Next(c, s).disk
    ensures Next(c, s).disk[key] == if s.Write? && c.bufs[s.b].key == key then View(c, key) else c.disk[key]
  {
    if s.Write? { ViewOfBuf(c, s.b); }
  }

  lemma {:induction false} StaysWritten(c: Cache, steps: seq<Step>, c': Cache, key: Key)
    requires Inv(c) && Leads(c, steps, c') && key in c.disk && key.dev != 0 && Untouched(c, steps, key)
    requires c.disk[key] == View(c, key)
    ensures key in c'.disk && c'.disk[key] == View(c, key)
    decreases |steps|
  {
    if steps != [] {
      StepKeepsInv(c, steps[0]);
      StepKeepsView(c, steps[0], key);
      StepWrites(c, steps[0], key);
      StaysWritten(Next(c, steps[0]), steps[1..], c', key);
    }
  }

  /** Once bwrite has returned, the disk holds what was last stored in the block before it, and keeps
  it until a holder of its buffer stores something else. */
  lemma {:induction false} WriteIsDurable(c: Cache, steps: seq<Step>, c1: Cache, b: int, later: seq<Step>, c': Cache)
    requires Inv(c) && Leads(c, steps, c1) && Enabled(c1, Write(b)) && Leads(Next(c1, Write(b)), later, c')
    requires c1.bufs[b].key in c.disk && Untouched(Next(c1, Write(b)), later, c1.bufs[b].key)
    ensures var key := c1.bufs[b].key;
            key in c'.disk && c'.disk[key] == Latest(c, steps, c1, key, View(c, key))
  {
    var key := c1.bufs[b].key;
    assert Inv(c1) by { RunsKeepInv(c, steps, c1); }
    assert BufOk(c1, c1.bufs[b]);
    CacheIsTransparent(c, steps, c1, key);
    StepKeepsInv(c1, Write(b));
    StepKeepsView(c1, Write(b), key);
    StepWrites(c1, Write(b), key);
    StaysWritten(Next(c1, Write(b)), later, c', key);
  }

  lemma {:induction false} RunsKeepInv(c: Cache, steps: seq<Step>, c': Cache)
    requires Inv(c) && Leads(c, steps, c')
    ensures Inv(c')
    decreases |steps|
  {
    if steps != [] {
      StepKeepsInv(c, steps[0]);
      RunsKeepInv(Next(c, steps[0]), steps[1..], c');
    }
  }

  // ---- most recently used first ---------------------------------------------------------

  /** Step s gives up the last reference to b. */
  predicate LastRelease(c: Cache, s: Step, b: int)
    requires 0 <= b < |c.bufs|
  {
    s == Release(b) && c.bufs[b].refcnt == 1
  }

  /** When each buffer was last given up, updated by step number now. */
  ghost function Stamped(c: Cache, s: Step, at: seq<int>, now: int): (r: seq<int>)
    requires |at| == |c.bufs|
    ensures |r| == |at|
  {
    seq(|at|, b requires 0 <= b < |at| => if LastRelease(c, s, b) then now else at[b])
  }

  ghost function Stamps(c: Cache, steps: seq<Step>, c': Cache, at: seq<int>, now: int): seq<int>
    requires Inv(c) && Leads(c, steps, c') && |at| == |c.bufs|
    decreases |steps|
  {
    if steps == [] then at
    else
      StepKeepsInv(c, steps[0]);
      Stamps(Next(c, steps[0]), steps[1..], c', Stamped(c, steps[0], at, now), now + 1)
  }

  /** The list runs from the buffer given up last to the one given up longest ago. */
  ghost predicate ByRecency(c: Cache, at: seq<int>, now: int) {
    && |at| == |c.bufs| == NBUF && Permutation(c.order)
    && (forall b :: 0 <= b < |at| ==> at[b] < now) && Descends(c.order, at)
  }

  ghost predicate Descends(order: seq<int>, at: seq<int>)
    requires |at| == NBUF && Permutation(order)
  {
    forall i, j :: 0 <= i < j < |order| ==> at[order[i]] >= at[order[j]]
  }

  lemma {:induction false} MovedDescends(order: seq<int>, at: seq<int>, i: nat, r: seq<int>, at': seq<int>, now: int)
    requires Permutation(order) && |at| == |at'| == NBUF && Descends(order, at) && i < |order|
    requires (forall b :: 0 <= b < NBUF ==> at[b] < now) && at' == at[order[i] := now]
    requires Permutation(r) && r == [order[i]] + order[..i] + order[i + 1..]
    ensures Descends(r, at')
  {
    forall j, k | 0 <= j < k < |r| ensures at'[r[j]] >= at'[r[k]] {
      MovedAt(order, order[i], i, r, j);
      MovedAt(order, order[i], i, r, k);
    }
  }

  lemma {:induction false} StepKeepsRecency(c: Cache, s: Step, at: seq<int>, now: int)
    requires Inv(c) && Enabled(c, s) && ByRecency(c, at, now)
    ensures ByRecency(Next(c, s), Stamped(c, s, at, now), now + 1)
  {
    StepKeepsInv(c, s);
    var r, at' := Next(c, s), Stamped(c, s, at, now);
    if s.Release? && c.bufs[s.b].refcnt == 1 {
      assert s.b in c.order;
      var i :| 0 <= i < |c.order| && c.order[i] == s.b && ToFront(c.order, s.b) == [s.b] + c.order[..i] + c.order[i + 1..];
      assert at' == at[s.b := now];
      MovedDescends(c.order, at, i, r.order, at', now);
    } else {
      assert at' == at;
    }
  }

  lemma {:induction false} RunsKeepRecency(c: Cache, steps: seq<Step>, c': Cache, at: seq<int>, now: int)
    requires Inv(c) && Leads(c, steps, c') && ByRecency(c, at, now)
    ensures ByRecency(c', Stamps(c, steps, c', at, now), now + |steps|)
    decreases |steps|
  {
    if steps != [] {
      StepKeepsInv(c, steps[0]);
      StepKeepsRecency(c, steps[0], at, now);
      RunsKeepRecency(Next(c, steps[0]), steps[1..], c', Stamped(c, steps[0], at, now), now + 1);
    }
  }

  /** Over every run, the buffer that bget recycles is one given up longest ago: no other free clean
  buffer was given up before it. */
  lemma {:induction false} OldestRecycled(c: Cache, steps: seq<Step>, c': Cache, at: seq<int>, now: int, key: Key, b: int, x: int)
    requires Inv(c) && Leads(c, steps, c') && ByRecency(c, at, now)
    requires Enabled(c', Get(key, b)) && c'.bufs[b].key != key && 0 <= x < |c'.bufs| && Recyclable(c'.bufs[x])
    ensures var last := Stamps(c, steps, c', at, now);
            |last| == |c'.bufs| && last[b] <= last[x]
  {
    RunsKeepInv(c, steps, c');
    RunsKeepRecency(c, steps, c', at, now);
    assert LeastRecent(c', b) && x in c'.order;
    var k :| 0 <= k < |c'.order| && c'.order[k] == x;
  }

  // ---- when bget finds a buffer ---------------------------------------------------------

  function Pinned(c: Cache): set<int> { set b | 0 <= b < |c.bufs| && c.bufs[b].dirty }

  function Numbers(n: nat): (r: set<int>)
    ensures |r| == n && forall b :: b in r <==> 0 <= b < n
  {
    if n == 0 then {} else Numbers(n - 1) + {n - 1}
  }

  /** If any buffer may be recycled, one of them is the least recently used. */
  lemma {:induction false} SomeLeastRecent(c: Cache, b: int) returns (r: int)
    requires Inv(c) && 0 <= b < |c.bufs| && Recyclable(c.bufs[b])
    ensures LeastRecent(c, r) && 0 <= r < |c.bufs|
  {
    var i := |c.order| - 1;
    assert b in c.order;
    var k :| 0 <= k < |c.order| && c.order[k] == b;
    while !Recyclable(c.bufs[c.order[i]])
      decreases i
      invariant k <= i < |c.order|
      invariant forall j :: i < j < |c.order| ==> !Recyclable(c.bufs[c.order[j]])
    {
      i := i - 1;
    }
    r := c.order[i];
  }

  /** While no process uses a buffer, bget finds one for a block that is not cached exactly when
  fewer than NBUF blocks are pinned. */
  lemma {:induction false} BufferFoundIff(c: Cache, key: Key)
    requires Inv(c) && key.dev != 0 && key in c.disk && !Cached(c, key)
    requires forall b :: 0 <= b < |c.bufs| ==> c.bufs[b].refcnt == 0
    ensures (exists b :: Enabled(c, Get(key, b))) <==> |Pinned(c)| < NBUF
  {
    SubsetSize(Pinned(c), Numbers(NBUF));
    if b :| Enabled(c, Get(key, b)) {
      assert Recyclable(c.bufs[b]);
      SubsetSize(Pinned(c), Numbers(NBUF) - {b});
    }
    if |Pinned(c)| < NBUF {
      assert Pinned(c) != Numbers(NBUF);
      assert Pinned(c) <= Numbers(NBUF);
      var b :| b in Numbers(NBUF) && b !in Pinned(c);
      var r := SomeLeastRecent(c, b);
      assert Enabled(c, Get(key, r));
    }
  }
}
