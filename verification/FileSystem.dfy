/** Block allocation, block maps, reading, writing and truncating of inodes (fs.c), and the
chunked filewrite loop (file.c). */
module FileSystem {
  import opened Options
  import opened Params
  import opened FsLayout
  import opened FsOwnership
  import opened FsMapping
  import opened FsContents
  import opened FsTracking
  import opened FsTruncate

  /** Done is the byte count; the other outcomes are the -1 return, the device switch, and
  balloc's panic. */
  datatype IoResult = Done(n: nat) | Rejected | ToDevice | OutOfBlocks

  /** Every finished transaction fitted the space begin_op reserves for one operation. */
  ghost predicate Bounded(transactions: seq<nat>) {
    forall t :: 0 <= t < |transactions| ==> transactions[t] <= MAXOPBLOCKS
  }

  lemma {:induction false} BoundedMore(transactions: seq<nat>, n: nat)
    requires Bounded(transactions) && n <= MAXOPBLOCKS
    ensures Bounded(transactions + [n])
  {
  }

  class FileSystem {
    const sb: Super
    var blocks: seq<Bytes>
    var bitmap: seq<BitBlock>
    var inodes: seq<Inode>
    var itab: seq<Inode>
    var logged: set<int>
    ghost var own: map<int, Owner>
    ghost var transactions: seq<nat>  // how many blocks each finished transaction logged

    ghost function State(): Fs
      reads this
    {
      Fs(sb, blocks, bitmap, inodes, itab, logged)
    }

    /** A mounted file system whose blocks are owned as own0 says. */
    constructor (fs: Fs, ghost own0: map<int, Owner>)
      ensures State() == fs && own == own0 && transactions == []
    {
      sb, blocks, bitmap, inodes, itab, logged := fs.sb, fs.blocks, fs.bitmap, fs.inodes, fs.itab, fs.logged;
      own, transactions := own0, [];
    }

    /** balloc's scan: the first clear bit of the free map. */
    method FindFree() returns (r: Option<nat>)
      requires Shape(State())
      ensures r.None? ==> Full(State())
      ensures r.Some? ==> r.value < sb.size && !Bit(State(), r.value)
      ensures r.Some? ==> forall c :: 0 <= c < r.value ==> Bit(State(), c)
    {
      ghost var fs := State();
      var b := 0;
      while b < sb.size
        invariant b % BPB == 0
        invariant forall c :: 0 <= c < b && c < sb.size ==> Bit(fs, c)
      {
        var bi := 0;
        while bi < BPB && b + bi < sb.size
          invariant bi <= BPB
          invariant forall c :: 0 <= c < b + bi && c < sb.size ==> Bit(fs, c)
        {
          BitIndex(b, bi);
          if !TestBit(bitmap[b / BPB], bi) {
            return Some(b + bi);
          }
          assert Bit(fs, b + bi);
          bi := bi + 1;
        }
        b := b + BPB;
      }
      return None;
    }

    /** balloc: take the first free block, mark it and zero it; None is its panic. */
    method Balloc() returns (r: Option<nat>)
      requires Shape(State())
      modifies this`bitmap, this`blocks, this`logged
      ensures r.None? ==> State() == old(State()) && Full(State())
      ensures r.Some? ==>
                && r.value < sb.size && !Bit(old(State()), r.value)
                && (forall c :: 0 <= c < r.value ==> Bit(old(State()), c))
                && State() == Alloc(old(State()), r.value)
      ensures r.Some? ==> Shape(State()) && Bit(State(), r.value) && blocks == old(blocks)[r.value := ZeroBlock()]
    {
      r := FindFree();
      if r.Some? {
        var b := r.value;
        SetBitBits(State(), b, true);
        bitmap := bitmap[b / BPB := WithBit(bitmap[b / BPB], b % BPB, true)];
        logged := logged + {b / BPB + sb.bmapstart};
        blocks := blocks[b := ZeroBlock()];
        logged := logged + {b};
      }
    }

    /** Fill the empty slot k of inode i with a newly allocated block. */
    method FillSlot(i: nat, k: nat) returns (r: Option<nat>)
      requires Owned(State(), own) && i < |inodes| && k < NSLOTS && SlotAddr(State(), i, k) == 0
      requires k > NDIRECT ==> SlotAddr(State(), i, NDIRECT) != 0
      modifies this`bitmap, this`blocks, this`logged, this`inodes, this`own
      ensures r.None? ==> State() == old(State()) && own == old(own) && Full(State())
      ensures r.Some? ==>
                && CanAttach(old(State()), old(own), i, k, r.value)
                && own == old(own)[r.value := Owner(i, k)]
                && (k > NDIRECT ==> 0 < old(inodes)[i].addrs[NDIRECT] < |old(blocks)|)
                && State() == Attach(old(State()), i, k, r.value)
    {
      if k > NDIRECT {
        SlotFacts(State(), own, i, NDIRECT);
      }
      r := Balloc();
      if r.Some? {
        var b := r.value;
        if k <= NDIRECT {
          inodes := inodes[i := inodes[i].(addrs := inodes[i].addrs[k := b])];
        } else {
          var p := inodes[i].addrs[NDIRECT];
          blocks := blocks[p := SetWord(blocks[p], k - NDIRECT - 1, b)];
          logged := logged + {p};
        }
        own := own[b := Owner(i, k)];
      }
    }

    /** bmap: the address of block bn of inode i, allocating it (and the indirect block) if
    missing; None is balloc's panic. */
    method Bmap(i: nat, bn: nat) returns (r: Option<nat>)
      requires Owned(State(), own) && i < |inodes| && bn < MAXFILE
      modifies this`bitmap, this`blocks, this`logged, this`inodes, this`own
      ensures r.None? ==> Full(State()) && SlotAddr(old(State()), i, DataSlot(bn)) == 0
      ensures r.Some? ==> Mapped(old(State()), old(own), State(), own, i, bn, r.value)
    {
      ghost var fs, own0 := State(), own;
      if bn < NDIRECT {
        var addr := inodes[i].addrs[bn];
        if addr == 0 {
          r := FillSlot(i, bn);
          if r.Some? { MappedByOne(fs, own0, i, bn, r.value, State(), own); }
        } else {
          MappedAlready(fs, own0, i, bn);
          r := Some(addr);
        }
      } else if inodes[i].addrs[NDIRECT] == 0 {
        r := FillSlot(i, NDIRECT);
        if r.Some? {
          ghost var p := r.value;
          AttachExtends(fs, own0, i, NDIRECT, p);
          assert SlotAddr(State(), i, NDIRECT) == p;
          r := BmapIndirect(i, bn);
          if r.Some? { MappedThroughNew(fs, own0, p, State(), own, i, bn, r.value); }
        }
      } else {
        r := BmapIndirect(i, bn);
      }
    }

    /** bmap through an indirect block that is already there. */
    method BmapIndirect(i: nat, bn: nat) returns (r: Option<nat>)
      requires Owned(State(), own) && i < |inodes| && NDIRECT <= bn < MAXFILE && inodes[i].addrs[NDIRECT] != 0
      modifies this`bitmap, this`blocks, this`logged, this`inodes, this`own
      ensures r.None? ==> Full(State()) && SlotAddr(old(State()), i, DataSlot(bn)) == 0
      ensures r.Some? ==> Mapped(old(State()), old(own), State(), own, i, bn, r.value)
    {
      ghost var fs, own0 := State(), own;
      SlotFacts(fs, own0, i, NDIRECT);
      var addr := Word(blocks[inodes[i].addrs[NDIRECT]], bn - NDIRECT);
      assert addr == SlotAddr(fs, i, bn + 1);
      if addr == 0 {
        r := FillSlot(i, bn + 1);
        if r.Some? { MappedByOne(fs, own0, i, bn, r.value, State(), own); }
      } else {
        MappedAlready(fs, own0, i, bn);
        r := Some(addr);
      }
    }

    /** One turn of writei's loop: bread(bmap(bn)), memmove, log_write. */
    method WriteChunk(i: nat, bn: nat, o: nat, chunk: Bytes) returns (r: Option<nat>, ghost fsb: Fs)
      requires Owned(State(), own) && i < |inodes| && bn < MAXFILE && o + |chunk| <= BSIZE
      modifies this`bitmap, this`blocks, this`logged, this`inodes, this`own
      ensures r.None? ==> Full(State())
      ensures r.Some? ==>
                && Mapped(old(State()), old(own), fsb, own, i, bn, r.value)
                && r.value < |fsb.blocks| && |fsb.blocks[r.value]| == BSIZE
                && State() == Put(fsb, r.value, Overlay(fsb.blocks[r.value], o, chunk))
    {
      r := Bmap(i, bn);
      fsb := State();
      if r.Some? {
        SlotFacts(fsb, own, i, DataSlot(bn));
        blocks := blocks[r.value := Overlay(blocks[r.value], o, chunk)];
        logged := logged + {r.value};
      }
    }

    /** One turn of writei's loop: the chunk that fits the block at off0 + tot. */
    method WriteTurn(i: nat, src: Bytes, off0: nat, tot: nat, ghost fs0: Fs, ghost own0: map<int, Owner>,
                     ghost turns: nat, ghost allocs: nat)
      returns (ok: bool, m: nat, ghost allocs': nat)
      requires Owned(fs0, own0) && i < |fs0.inodes| && NoHoles(fs0, i)
      requires off0 <= fs0.inodes[i].size && off0 + |src| <= MAXFILE * BSIZE && tot < |src|
      requires Turns(off0, |src|, tot, turns, allocs)
      requires Writing(fs0, own0, State(), own, i, off0, src[..tot], turns, allocs)
      modifies this`bitmap, this`blocks, this`logged, this`inodes, this`own
      ensures !ok ==> Full(State())
      ensures ok ==> m > 0 && Turns(off0, |src|, tot + m, turns + 1, allocs')
      ensures ok ==> Writing(fs0, own0, State(), own, i, off0, src[..tot + m], turns + 1, allocs')
    {
      var off := off0 + tot;
      m := if |src| - tot < BSIZE - off % BSIZE then |src| - tot else BSIZE - off % BSIZE;
      var bn, o := off / BSIZE, off % BSIZE;
      var chunk := src[tot..tot + m];
      ghost var fs, own1 := State(), own;
      var addr, fsb := WriteChunk(i, bn, o, chunk);
      ok := addr.Some?;
      allocs' := allocs;
      if ok {
        allocs' := TurnWritten(fs0, own0, fs, own1, fsb, own, i, off0, src, tot, m, bn, o, chunk, addr.value, State(),
                               turns, allocs);
      }
    }

    /** writei's loop. */
    method WriteLoop(i: nat, src: Bytes, off0: nat, ghost fs0: Fs, ghost own0: map<int, Owner>)
      returns (ok: bool, ghost turns: nat, ghost allocs: nat)
      requires fs0 == State() && own0 == own && Owned(fs0, own0) && i < |inodes| && NoHoles(fs0, i)
      requires off0 <= inodes[i].size && off0 + |src| <= MAXFILE * BSIZE
      modifies this`bitmap, this`blocks, this`logged, this`inodes, this`own
      ensures !ok ==> Full(State())
      ensures ok ==> Turns(off0, |src|, |src|, turns, allocs)
      ensures ok ==> Writing(fs0, own0, State(), own, i, off0, src, turns, allocs)
    {
      var tot := 0;
      turns, allocs := 0, 0;
      WritingStarts(fs0, own0, i, off0);
      while tot < |src|
        invariant Turns(off0, |src|, tot, turns, allocs)
        invariant Writing(fs0, own0, State(), own, i, off0, src[..tot], turns, allocs)
      {
        var ok, m, allocs' := WriteTurn(i, src, off0, tot, fs0, own0, turns, allocs);
        if !ok {
          return false, turns, allocs;
        }
        tot, turns, allocs := tot + m, turns + 1, allocs';
      }
      WholeSlice(src, tot);
      ok := true;
    }

    /** iupdate. */
    method Iupdate(i: nat)
      requires i < |inodes| == |itab|
      modifies this`itab, this`logged
      ensures State() == Iupdated(old(State()), i)
    {
      itab := itab[i := inodes[i]];
      logged := logged + {i / IPB + sb.inodestart};
    }

    /** writei's last lines: a write past the end sets the size and updates the inode on disk. */
    method Grow(i: nat, end: Uint, n: nat)
      requires i < |inodes| == |itab|
      modifies this`inodes, this`itab, this`logged
      ensures State() == Finished(old(State()), i, end, n)
    {
      if n > 0 && end > inodes[i].size {
        inodes := inodes[i := inodes[i].(size := end)];
        Iupdate(i);
      }
    }

    method Writei(i: nat, src: Bytes, off: nat) returns (r: IoResult)
      requires Owned(State(), own) && i < |inodes| && NoHoles(State(), i)
      requires off < UINT_LIMIT && |src| < UINT_LIMIT
      modifies this`bitmap, this`blocks, this`logged, this`inodes, this`itab, this`own
      ensures r.ToDevice? <==> old(inodes)[i].kind == T_DEV
      ensures r.Rejected? <==> (&& old(inodes)[i].kind != T_DEV
                                && (off > old(inodes)[i].size || off + |src| > MAXFILE * BSIZE))
      ensures r.ToDevice? || r.Rejected? ==> State() == old(State()) && own == old(own)
      ensures r.OutOfBlocks? ==> Full(State())
      ensures r.Done? ==>
                && r.n == |src| && off <= old(inodes)[i].size
                && Wrote(old(State()), old(own), State(), own, i, off, src)
                && |logged| <= |old(logged)| + LogBound(off, |src|)
                && Logs(old(State()), State())
    {
      var n := |src|;
      if inodes[i].kind == T_DEV {
        return ToDevice;
      }
      if off > inodes[i].size || (off + n) % UINT_LIMIT < off {
        return Rejected;
      }
      if (off + n) % UINT_LIMIT > MAXFILE * BSIZE {
        return Rejected;
      }
      ghost var fs0, own0 := State(), own;
      var ok, turns, allocs := WriteLoop(i, src, off, fs0, own0);
      if !ok {
        return OutOfBlocks;
      }
      ghost var fs := State();
      Grow(i, off + n, n);
      FinishAll(fs0, own0, fs, own, i, off, src, turns, allocs, State());
      return Done(n);
    }

    /** readi.  Without holes bmap allocates nothing, so nothing changes. */
    method Readi(i: nat, off: nat, n: nat) returns (r: IoResult, dst: Bytes)
      requires Owned(State(), own) && i < |inodes| && NoHoles(State(), i)
      requires off < UINT_LIMIT && n < UINT_LIMIT
      modifies this`bitmap, this`blocks, this`logged, this`inodes, this`own
      ensures State() == old(State()) && own == old(own)
      ensures r.ToDevice? <==> inodes[i].kind == T_DEV
      ensures r.Rejected? <==> inodes[i].kind != T_DEV && (off > inodes[i].size || off + n >= UINT_LIMIT)
      ensures !r.OutOfBlocks?
      ensures r.Done? ==>
                && r.n == (if off + n > inodes[i].size then inodes[i].size - off else n)
                && dst == Contents(State(), i)[off..off + r.n]
    {
      dst := [];
      if inodes[i].kind == T_DEV {
        return ToDevice, dst;
      }
      if off > inodes[i].size || (off + n) % UINT_LIMIT < off {
        return Rejected, dst;
      }
      var n' := if off + n > inodes[i].size then inodes[i].size - off else n;
      dst := ReadLoop(i, off, n', Contents(State(), i));
      return Done(n'), dst;
    }

    /** readi's loop. */
    method ReadLoop(i: nat, off: nat, n: nat, ghost file: Bytes) returns (dst: Bytes)
      requires Owned(State(), own) && i < |inodes| && NoHoles(State(), i)
      requires file == Contents(State(), i) && off + n <= |file|
      modifies this`bitmap, this`blocks, this`logged, this`inodes, this`own
      ensures State() == old(State()) && own == old(own)
      ensures dst == file[off..off + n]
    {
      var p := off;
      dst := [];
      while p < off + n
        invariant off <= p <= off + n && State() == old(State()) && own == old(own)
        invariant dst == file[off..p]
      {
        var chunk, next := ReadChunk(i, p, off + n, file);
        SliceGrow(file, off, p, next);
        dst := dst + chunk;
        p := next;
      }
    }

    /** One turn of readi's loop: bread(bmap(p / BSIZE)), then as much as the block and the
    request allow. */
    method ReadChunk(i: nat, p: nat, end: nat, ghost file: Bytes) returns (chunk: Bytes, next: nat)
      requires Owned(State(), own) && i < |inodes| && NoHoles(State(), i)
      requires file == Contents(State(), i) && p < end <= |file|
      modifies this`bitmap, this`blocks, this`logged, this`inodes, this`own
      ensures State() == old(State()) && own == old(own)
      ensures p < next <= end && chunk == file[p..next]
    {
      var m := if end - p < BSIZE - p % BSIZE then end - p else BSIZE - p % BSIZE;
      ReadSlice(State(), own, i, p, m);
      var addr := Bmap(i, p / BSIZE);
      chunk := blocks[addr.value][p % BSIZE..p % BSIZE + m];
      next := p + m;
    }

    /** bfree; false is its panic on a block that is already free. */
    method Bfree(b: nat) returns (ok: bool)
      requires Shape(State()) && b < sb.size
      modifies this`bitmap, this`logged
      ensures ok <==> Bit(old(State()), b)
      ensures State() == if ok then SetBit(old(State()), b, false) else old(State())
      ensures Shape(State()) && forall c {:trigger Bit(State(), c)} :: 0 <= c < sb.size ==>
                (Bit(State(), c) <==> Bit(old(State()), c) && c != b)
    {
      SetBitBits(State(), b, false);
      ok := TestBit(bitmap[b / BPB], b % BPB);
      if ok {
        bitmap := bitmap[b / BPB := WithBit(bitmap[b / BPB], b % BPB, false)];
        logged := logged + {b / BPB + sb.bmapstart};
      }
    }

    /** One turn of itrunc's first loop, also used for the indirect block at the end: free the
    block in slot k of the inode.  bfree's panic is impossible. */
    method FreeInodeSlot(i: nat, k: nat, ghost fs0: Fs, ghost p: Progress, ghost p': Progress) returns (panicked: bool)
      requires i < |inodes| && k <= NDIRECT && Freeing(fs0, own, State(), i, p) && Advances(p, k, p')
      modifies this`bitmap, this`logged, this`inodes
      ensures !panicked && Freeing(fs0, own, State(), i, p')
    {
      ghost var fs := State();
      StillMarked(fs0, own, fs, i, p, k);
      if inodes[i].addrs[k] != 0 {
        var ok := Bfree(inodes[i].addrs[k]);
        if !ok {
          return true;
        }
        inodes := inodes[i := inodes[i].(addrs := inodes[i].addrs[k := 0])];
      }
      FreeStep(fs0, own, fs, i, p, k, p', State());
      panicked := false;
    }

    /** One turn of itrunc's second loop. */
    method FreeEntry(i: nat, a: Bytes, j: nat, ghost fs0: Fs) returns (panicked: bool)
      requires i < |inodes| && j < NINDIRECT && Freeing(fs0, own, State(), i, Progress(NDIRECT, j, false))
      requires |a| == BSIZE && SlotAddr(fs0, i, NDIRECT + 1 + j) == Word(a, j)
      modifies this`bitmap, this`logged
      ensures !panicked && Freeing(fs0, own, State(), i, Progress(NDIRECT, j + 1, false))
    {
      ghost var fs, p, p' := State(), Progress(NDIRECT, j, false), Progress(NDIRECT, j + 1, false);
      StillMarked(fs0, own, fs, i, p, NDIRECT + 1 + j);
      if Word(a, j) != 0 {
        var ok := Bfree(Word(a, j));
        if !ok {
          return true;
        }
      }
      FreeStep(fs0, own, fs, i, p, NDIRECT + 1 + j, p', State());
      panicked := false;
    }

    method FreeDirect(i: nat, ghost fs0: Fs) returns (panicked: bool)
      requires State() == fs0 && Owned(fs0, own) && i < |inodes|
      modifies this`bitmap, this`logged, this`inodes
      ensures !panicked && i < |inodes| && Freeing(fs0, own, State(), i, Progress(NDIRECT, 0, false))
    {
      var k := 0;
      panicked := false;
      while k < NDIRECT
        invariant k <= NDIRECT && !panicked && i < |inodes|
        invariant Freeing(fs0, own, State(), i, Progress(k, 0, false))
      {
        panicked := FreeInodeSlot(i, k, fs0, Progress(k, 0, false), Progress(k + 1, 0, false));
        k := k + 1;
      }
    }

    method FreeEntries(i: nat, ghost fs0: Fs) returns (panicked: bool)
      requires i < |inodes| && Freeing(fs0, own, State(), i, Progress(NDIRECT, 0, false)) && inodes[i].addrs[NDIRECT] != 0
      modifies this`bitmap, this`logged
      ensures !panicked && Freeing(fs0, own, State(), i, Progress(NDIRECT, NINDIRECT, false))
    {
      SlotFacts(fs0, own, i, NDIRECT);
      var a := blocks[inodes[i].addrs[NDIRECT]];
      var j := 0;
      panicked := false;
      while j < NINDIRECT
        invariant j <= NINDIRECT && !panicked
        invariant Freeing(fs0, own, State(), i, Progress(NDIRECT, j, false))
      {
        assert SlotAddr(fs0, i, NDIRECT + 1 + j) == Word(a, j);
        panicked := FreeEntry(i, a, j, fs0);
        j := j + 1;
      }
    }

    /** itrunc. */
    method Itrunc(i: nat) returns (panicked: bool)
      requires Owned(State(), own) && i < |inodes|
      modifies this`bitmap, this`logged, this`inodes, this`itab, this`own
      ensures !panicked && own == Without(old(own), i)
      ensures Truncated(old(State()), old(own), State(), i)
    {
      ghost var fs0 := State();
      panicked := FreeDirect(i, fs0);
      if inodes[i].addrs[NDIRECT] != 0 {
        panicked := FreeEntries(i, fs0);
        panicked := FreeInodeSlot(i, NDIRECT, fs0, Progress(NDIRECT, NINDIRECT, false), ALL);
      } else {
        NoIndirect(fs0, own, State(), i);
      }
      ghost var fs := State();
      inodes := inodes[i := inodes[i].(size := 0)];
      Iupdate(i);
      FreedAll(fs0, own, fs, i, State());
      own := Without(own, i);
    }

    /** begin_op, writei, end_op: one turn of filewrite's loop. */
    method WriteTransaction(i: nat, chunk: Bytes, off: nat) returns (w: IoResult)
      requires Owned(State(), own) && i < |inodes| && NoHoles(State(), i) && inodes[i].kind != T_DEV
      requires off < UINT_LIMIT && |chunk| <= CHUNK
      modifies this`bitmap, this`blocks, this`logged, this`inodes, this`itab, this`own, this`transactions
      ensures !w.ToDevice?
      ensures w.OutOfBlocks? ==> Full(State())
      ensures w.Rejected? <==> off > old(inodes)[i].size || off + |chunk| > MAXFILE * BSIZE
      ensures w.Rejected? ==> State() == old(State()).(logged := {}) && own == old(own)
      ensures w.Done? ==> off <= old(inodes)[i].size && Wrote(old(State()), old(own), State(), own, i, off, chunk)
      ensures w.Done? ==> Tracked(old(State()), State()) && AllLoggable(State())
      ensures w.OutOfBlocks? ==> transactions == old(transactions)
      ensures !w.OutOfBlocks? ==> transactions == old(transactions) + [|logged|] && |logged| <= MAXOPBLOCKS
    {
      ghost var fs := State();
      logged := {};
      Unlogged(fs, own, i, State());
      w := Writei(i, chunk, off);
      if !w.OutOfBlocks? {
        transactions := transactions + [|logged|];
        ChunkFitsTransaction(off, |chunk|);
      }
      if w.Done? {
        WroteUnlogged(fs, old(own), i, fs.(logged := {}), State(), own, off, chunk);
        TrackedUnlogged(fs, fs.(logged := {}), State());
      }
    }

    /** filewrite on an inode, from the state (fs0, own0).  Returns filewrite's result and the
    number of bytes by which f->off advances; None is balloc's panic. */
    method Filewrite(i: nat, addr: Bytes, off0: nat, ghost fs0: Fs, ghost own0: map<int, Owner>)
      returns (r: Option<int>, done: nat)
      requires fs0 == State() && own0 == own && Owned(fs0, own0) && i < |inodes| && NoHoles(fs0, i)
      requires inodes[i].kind != T_DEV && off0 + |addr| < UINT_LIMIT && Bounded(transactions)
      modifies this`bitmap, this`blocks, this`logged, this`inodes, this`itab, this`own, this`transactions
      ensures r.None? ==> Full(State())
      ensures done <= |addr|
      ensures r.Some? ==> done == Accepted(fs0.inodes[i].size, off0, |addr|)
      ensures r.Some? ==> r.value == if done == |addr| then |addr| else -1
      ensures r.Some? ==> Appended(fs0, own0, State(), own, i, off0, addr[..done])
      ensures Bounded(transactions)
    {
      done := 0;
      AppendedStarts(fs0, own0, i, off0, addr[..0]);
      while done < |addr|
        invariant done <= |addr|
        invariant Filewriting(fs0, own0, State(), own, i, off0, addr, done)
        invariant Bounded(transactions)
      {
        ghost var before := transactions;
        var w, now := FilewriteTurn(i, addr, off0, done, fs0, own0);
        if w.OutOfBlocks? {
          return None, done;
        }
        BoundedMore(before, |logged|);
        done := now;
        if w.Rejected? {
          return Some(-1), done;
        }
      }
      UndecidedEnds(fs0.inodes[i].size, off0, |addr|, inodes[i].size, done);
      r := Some(|addr|);
    }

    /** One turn of filewrite's loop: pick the chunk, write it in a transaction of its own. */
    method FilewriteTurn(i: nat, addr: Bytes, off0: nat, done: nat, ghost fs0: Fs, ghost own0: map<int, Owner>)
      returns (w: IoResult, now: nat)
      requires Owned(fs0, own0) && i < |fs0.inodes| && NoHoles(fs0, i) && fs0.inodes[i].kind != T_DEV
      requires done < |addr| && off0 + done < UINT_LIMIT
      requires Filewriting(fs0, own0, State(), own, i, off0, addr, done)
      modifies this`bitmap, this`blocks, this`logged, this`inodes, this`itab, this`own, this`transactions
      ensures !w.ToDevice? && now == if w.Done? then NextStop(|addr|, done) else done
      ensures w.OutOfBlocks? ==> Full(State())
      ensures !w.OutOfBlocks? ==> Filewriting(fs0, own0, State(), own, i, off0, addr, now)
      ensures w.Rejected? ==> now == Accepted(fs0.inodes[i].size, off0, |addr|)
      ensures w.Done? ==> Tracked(old(State()), State()) && AllLoggable(State())
      ensures w.OutOfBlocks? ==> transactions == old(transactions)
      ensures !w.OutOfBlocks? ==> transactions == old(transactions) + [|logged|] && |logged| <= MAXOPBLOCKS
    {
      var n1 := if |addr| - done > CHUNK then CHUNK else |addr| - done;
      var next, pos := done + n1, off0 + done;
      var chunk := addr[done..next];
      ghost var fs, own1 := State(), own;
      now := done;
      w := WriteTransaction(i, chunk, pos);
      if w.Rejected? {
        TurnRejected(fs0, own0, fs, own1, i, off0, addr, done, State());
      } else if w.Done? {
        TurnDone(fs0, own0, fs, own1, State(), own, i, off0, addr, done, next, chunk, pos);
        now := next;
      }
    }
  }
}
