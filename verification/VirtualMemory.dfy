/** Address spaces (vm.c) over the page allocator (kalloc.c). */
module VirtualMemory {
  import opened Options
  import opened PageFrames
  import opened Encryption

  /** Pages up to byte address sz. */
  function Pages(sz: nat): nat { (sz + PGSIZE - 1) / PGSIZE }

  /** Iterations of a loop that counts an int up to len. */
  function Count(len: int): nat { if len < 0 then 0 else len }

  /** memset over a whole page. */
  function Filled(b: bv8): (page: Page)
    ensures |page| == PGSIZE && forall i :: 0 <= i < PGSIZE ==> page[i] == b
  {
    seq(PGSIZE, _ => b)
  }

  /** The entries outside pages lo .. hi-1. */
  function Without(ptes: map<int, Pte>, lo: int, hi: int): map<int, Pte> {
    map v | v in ptes && !(lo <= v < hi) :: ptes[v]
  }

  /** User pages other than pages lo .. hi-1 of pd keep their frame and its contents. */
  ghost predicate Kept(own0: map<int, Owner>, mem0: map<int, Page>, own: map<int, Owner>, mem: map<int, Page>,
                       pd: int, lo: int, hi: int) {
    forall g {:trigger own0[g]} :: g in own0 && own0[g].UserOf? && !(own0[g].pd == pd && lo <= own0[g].vpn < hi) ==>
      g in own && own[g] == own0[g] && g in mem0 && g in mem && mem[g] == mem0[g]
  }

  ghost predicate AllKept(own0: map<int, Owner>, mem0: map<int, Page>, own: map<int, Owner>, mem: map<int, Page>) {
    Kept(own0, mem0, own, mem, 0, 0, 0)
  }

  lemma {:induction false} KeptTwice(own0: map<int, Owner>, mem0: map<int, Page>, own1: map<int, Owner>,
                                     mem1: map<int, Page>,
                                     own2: map<int, Owner>, mem2: map<int, Page>, pd: int, lo: int, hi: int)
    requires Kept(own0, mem0, own1, mem1, pd, lo, hi) && Kept(own1, mem1, own2, mem2, pd, lo, hi)
    ensures Kept(own0, mem0, own2, mem2, pd, lo, hi)
  {
    forall g | g in own0 && own0[g].UserOf? && !(own0[g].pd == pd && lo <= own0[g].vpn < hi)
      ensures g in own2 && own2[g] == own0[g] && g in mem0 && g in mem2 && mem2[g] == mem0[g]
    {
      assert own1[g] == own0[g];
    }
  }

  lemma {:induction false} KeptWiden(own0: map<int, Owner>, mem0: map<int, Page>, own: map<int, Owner>, mem: map<int, Page>,
                                     pd: int, lo: int, hi: int)
    requires AllKept(own0, mem0, own, mem)
    ensures Kept(own0, mem0, own, mem, pd, lo, hi)
  {
  }

  /** Freeing a range that held no page keeps every page. */
  lemma {:induction false} KeptAll(s0: Sys, mem0: map<int, Page>, own: map<int, Owner>, mem: map<int, Page>,
                                   pd: int, lo: int, hi: int)
    requires Inv(s0) && Kept(s0.own, mem0, own, mem, pd, lo, hi)
    requires pd in s0.spaces ==> Unmapped(s0.spaces[pd].ptes, lo, hi)
    ensures AllKept(s0.own, mem0, own, mem)
  {
    forall g | g in s0.own && s0.own[g].UserOf?
      ensures g in own && own[g] == s0.own[g] && g in mem0 && g in mem && mem[g] == mem0[g]
    {
      assert FrameOk(s0, g);
    }
  }

  ghost predicate Unmapped(ptes: map<int, Pte>, lo: int, hi: int) {
    forall v :: v in ptes ==> !(lo <= v < hi)
  }

  /** ptes is ptes0 with pages lo .. v-1 added, present, writable, for the user, and all zero. */
  ghost predicate Grown(ptes0: map<int, Pte>, ptes: map<int, Pte>, mem: map<int, Page>, lo: int, v: int) {
    && (forall u {:trigger u in ptes} :: u in ptes <==> u in ptes0 || lo <= u < v)
    && (forall u {:trigger ptes[u]} :: u in ptes ==>
          if lo <= u < v then ZeroPage(ptes[u], mem) else ptes[u] == ptes0[u])
  }

  ghost predicate ZeroPage(pte: Pte, mem: map<int, Page>) {
    pte == Pte(pte.frame, true, false, true, true) && pte.frame in mem && mem[pte.frame] == Filled(0)
  }

  /** Pages added so far stay as they are while every user page is kept. */
  lemma {:induction false} GrownStep(s: Sys, ptes0: map<int, Pte>, mem: map<int, Page>, pd: int, lo: int, v: int,
                                     own': map<int, Owner>, mem': map<int, Page>, pte: Pte)
    requires Inv(s) && pd in s.spaces && Grown(ptes0, s.spaces[pd].ptes, mem, lo, v) && v !in ptes0 && lo <= v
    requires AllKept(s.own, mem, own', mem') && ZeroPage(pte, mem')
    ensures Grown(ptes0, s.spaces[pd].ptes[v := pte], mem', lo, v + 1)
  {
    assert SpaceOk(s, pd);
    var ptes := s.spaces[pd].ptes[v := pte];
    forall u | u in ptes
      ensures if lo <= u < v + 1 then ZeroPage(ptes[u], mem') else ptes[u] == ptes0[u]
    {
      if u != v {
        assert PageOk(s, pd, u);
        assert s.own[ptes[u].frame].UserOf?;
      }
    }
  }

  lemma {:induction false} WithoutGrown(ptes0: map<int, Pte>, ptes: map<int, Pte>, mem: map<int, Page>, lo: int,
                                        v: int, hi: int)
    requires Grown(ptes0, ptes, mem, lo, v) && Unmapped(ptes0, lo, hi) && v <= hi
    ensures Without(ptes, lo, hi) == ptes0
  {
    forall u ensures u in Without(ptes, lo, hi) <==> u in ptes0 {
    }
  }

  /** Child page u: the parent's flags and contents in a frame of its own. */
  ghost predicate Copy(parent: map<int, Pte>, child: map<int, Pte>, mem: map<int, Page>, u: int) {
    && u in parent && u in child && child[u] == parent[u].(frame := child[u].frame)
    && parent[u].frame in mem && child[u].frame in mem && mem[child[u].frame] == mem[parent[u].frame]
  }

  ghost predicate Copied(parent: map<int, Pte>, child: map<int, Pte>, mem: map<int, Page>, n: int) {
    && (forall u {:trigger u in child} :: u in child ==> 0 <= u < n)
    && (forall u {:trigger Copy(parent, child, mem, u)} :: 0 <= u < n ==> Copy(parent, child, mem, u))
  }

  lemma {:induction false} CopiedStep(s: Sys, mem: map<int, Page>, pd: int, d: int, v: int,
                                      own': map<int, Owner>, mem': map<int, Page>, f: int)
    requires Inv(s) && pd in s.spaces && d in s.spaces && 0 <= v && v in s.spaces[pd].ptes
    requires Copied(s.spaces[pd].ptes, s.spaces[d].ptes, mem, v) && AllKept(s.own, mem, own', mem')
    requires f in mem' && s.spaces[pd].ptes[v].frame in mem && mem'[f] == mem[s.spaces[pd].ptes[v].frame]
    ensures Copied(s.spaces[pd].ptes, s.spaces[d].ptes[v := s.spaces[pd].ptes[v].(frame := f)], mem', v + 1)
  {
    assert SpaceOk(s, pd) && SpaceOk(s, d);
    var parent, child := s.spaces[pd].ptes, s.spaces[d].ptes[v := s.spaces[pd].ptes[v].(frame := f)];
    forall u | 0 <= u < v + 1 ensures Copy(parent, child, mem', u) {
      if u < v {
        assert Copy(parent, s.spaces[d].ptes, mem, u);
        assert PageOk(s, d, u);
        assert s.own[child[u].frame].UserOf?;
      }
      assert PageOk(s, pd, u);
      assert s.own[parent[u].frame].UserOf?;
    }
  }

  class Vm {
    var free: seq<int>
    var mem: map<int, Page>
    var spaces: map<int, Space>
    ghost var own: map<int, Owner>
    ghost var held: set<int>

    ghost function S(): Sys
      reads this
    {
      Sys(free, spaces, own, held)
    }

    ghost predicate Valid()
      reads this
    {
      Inv(S()) && Loaded(S(), mem)
    }

    // ---- kalloc.c -------------------------------------------------------------------------

    constructor ()
      ensures Valid() && spaces == map[] && held == {} && own == map[]
    {
      free, mem, spaces := [], map[], map[];
      own, held := map[], {};
    }

    /** Puts n new frames on the free list. */
    method Freerange(first: int, n: nat)
      requires Valid() && forall f :: f in own ==> !(first <= f < first + n)
      modifies `free, `mem, `own, `held
      ensures Valid() && held == old(held) && forall f :: f in own <==> f in old(own) || first <= f < first + n
      ensures AllKept(old(own), old(mem), own, mem)
    {
      for i := 0 to n
        invariant Valid() && held == old(held) && forall f :: f in own <==> f in old(own) || first <= f < first + i
        invariant AllKept(old(own), old(mem), own, mem)
      {
        var f := first + i;
        HoldKeeps(S(), f);
        ghost var s, own1, mem1 := S(), own, mem;
        mem := mem[f := Filled(1)];
        own, held := own[f := Held], held + {f};
        assert S() == Hold(s, f);
        KeptTwice(old(own), old(mem), own1, mem1, own, mem, 0, 0, 0);
        own1, mem1 := own, mem;
        Kfree(f);
        KeptTwice(old(own), old(mem), own1, mem1, own, mem, 0, 0, 0);
      }
    }

    method Kalloc() returns (r: Option<int>)
      requires Valid()
      modifies `free, `own, `held
      ensures Valid() && own.Keys == old(own.Keys) && AllKept(old(own), mem, own, mem)
      ensures r.None? ==> S() == old(S()) && free == []
      ensures r.Some? ==> held == old(held) + {r.value} && r.value !in old(held) && Owns(old(S()), r.value, FreeAt(|free|))
      ensures r.Some? ==> old(free) == free + [r.value]
    {
      if free == [] {
        return None;
      }
      TakeKeeps(S());
      var n := |free| - 1;
      var f := free[n];
      assert Owns(S(), f, FreeAt(n));
      ghost var s := S();
      free := free[..n];
      own, held := own[f := Held], held + {f};
      assert S() == Take(s);
      r := Some(f);
    }

    method Kfree(f: int)
      requires Valid() && f in held
      modifies `free, `mem, `own, `held
      ensures Valid() && own.Keys == old(own.Keys) && AllKept(old(own), old(mem), own, mem)
      ensures held == old(held) - {f} && free == old(free) + [f] && mem == old(mem)[f := Filled(1)]
    {
      GiveKeeps(S(), f);
      ghost var s := S();
      mem := mem[f := Filled(1)];
      own := own[f := FreeAt(|free|)];
      free := free + [f];
      held := held - {f};
      assert S() == Give(s, f);
    }

    // ---- page tables ----------------------------------------------------------------------

    /** walkpgdir with alloc set: makes sure directory entry pdx has a table. */
    method WalkAlloc(pd: int, pdx: int) returns (ok: bool)
      requires Valid() && pd in spaces && 0 <= pdx < NPDENTRIES
      modifies `free, `spaces, `own, `held
      ensures Valid() && own.Keys == old(own.Keys) && held == old(held) && AllKept(old(own), mem, own, mem)
      ensures !ok ==> S() == old(S())
      ensures ok ==> pd in spaces && pdx in spaces[pd].tables && spaces[pd].ptes == old(spaces)[pd].ptes
      ensures ok ==> spaces[pd].tables.Keys == old(spaces)[pd].tables.Keys + {pdx}
      ensures pd in spaces && spaces == old(spaces)[pd := spaces[pd]]
    {
      if pdx in spaces[pd].tables {
        return true;
      }
      ghost var own0 := own;
      var f := Kalloc();
      if f.None? {
        return false;
      }
      ghost var own1 := own;
      AddTableKeeps(S(), pd, pdx, f.value);
      ghost var s := S();
      spaces := spaces[pd := spaces[pd].(tables := spaces[pd].tables[pdx := f.value])];
      own, held := own[f.value := TableOf(pd, pdx)], held - {f.value};
      assert S() == AddTable(s, pd, pdx, f.value);
      KeptTwice(own0, mem, own1, mem, own, mem, 0, 0, 0);
      ok := true;
    }

    /** mappages for one page. */
    method MapPage(pd: int, vpn: int, pte: Pte) returns (ok: bool)
      requires Valid() && pd in spaces && 0 <= vpn < USER_PAGES && vpn !in spaces[pd].ptes
      requires pte.frame in held && pte.p != pte.e && (pte.e ==> pte.u)
      modifies `free, `spaces, `own, `held
      ensures Valid() && own.Keys == old(own.Keys) && AllKept(old(own), mem, own, mem)
      ensures !ok ==> S() == old(S())
      ensures pd in spaces && spaces == old(spaces)[pd := spaces[pd]]
      ensures ok ==> held == old(held) - {pte.frame} && spaces[pd].ptes == old(spaces)[pd].ptes[vpn := pte]
    {
      ok := WalkAlloc(pd, vpn / NPTENTRIES);
      if ok {
        ghost var own1 := own;
        AddPageKeeps(S(), pd, vpn, pte);
        ghost var s := S();
        spaces := spaces[pd := spaces[pd].(ptes := spaces[pd].ptes[vpn := pte])];
        own, held := own[pte.frame := UserOf(pd, vpn)], held - {pte.frame};
        assert S() == AddPage(s, pd, vpn, pte);
        KeptTwice(old(own), mem, own1, mem, own, mem, 0, 0, 0);
      }
    }

    /** Frees user page vpn and clears its entry. */
    method FreePage(pd: int, vpn: int)
      requires Valid() && pd in spaces && vpn in spaces[pd].ptes
      modifies this
      ensures Valid() && own.Keys == old(own.Keys) && held == old(held)
      ensures Kept(old(own), old(mem), own, mem, pd, vpn, vpn + 1)
      ensures spaces == old(spaces)[pd := old(spaces)[pd].(ptes := old(spaces)[pd].ptes - {vpn})]
    {
      RemovePageKeeps(S(), pd, vpn);
      ghost var s := S();
      var f := spaces[pd].ptes[vpn].frame;
      spaces := spaces[pd := spaces[pd].(ptes := spaces[pd].ptes - {vpn})];
      own, held := own[f := Held], held + {f};
      assert S() == RemovePage(s, pd, vpn);
      ghost var own1 := own;
      Kfree(f);
      KeptWiden(own1, old(mem), own, mem, pd, vpn, vpn + 1);
      KeptTwice(old(own), old(mem), own1, old(mem), own, mem, pd, vpn, vpn + 1);
    }

    /** deallocuvm at address a: frees its page, or steps over a missing table. */
    method DeallocStep(pd: int, a: nat) returns (next: nat)
      requires Valid() && pd in spaces && a % PGSIZE == 0
      modifies this
      ensures Valid() && own.Keys == old(own.Keys) && held == old(held)
      ensures a < next && next % PGSIZE == 0
      ensures Kept(old(own), old(mem), own, mem, pd, a / PGSIZE, a / PGSIZE + 1)
      ensures pd in spaces && spaces == old(spaces)[pd := old(spaces)[pd].(ptes := spaces[pd].ptes)]
      ensures spaces[pd].ptes == Without(old(spaces)[pd].ptes, a / PGSIZE, next / PGSIZE)
      ensures Unmapped(old(spaces)[pd].ptes, a / PGSIZE + 1, next / PGSIZE)
    {
      var vpn := a / PGSIZE;
      NextPages(a, vpn);
      next := a + PGSIZE;
      if vpn / NPTENTRIES !in spaces[pd].tables {
        SkipTable(S(), pd, vpn);
        next := (vpn / NPTENTRIES + 1) * NPTENTRIES * PGSIZE;
      } else if vpn in spaces[pd].ptes {
        FreePage(pd, vpn);
      }
    }

    /** Frees the user pages from newsz up to oldsz, skipping over missing tables. */
    method Deallocuvm(pd: int, oldsz: nat, newsz: nat) returns (r: nat)
      requires Valid() && pd in spaces && (newsz < oldsz ==> oldsz <= KERNBASE)
      modifies this
      ensures Valid() && own.Keys == old(own.Keys) && held == old(held)
      ensures r == if newsz >= oldsz then oldsz else newsz
      ensures Kept(old(own), old(mem), own, mem, pd, Pages(newsz), Pages(oldsz))
      ensures pd in spaces && spaces == old(spaces)[pd := old(spaces)[pd].(ptes := spaces[pd].ptes)]
      ensures spaces[pd].ptes == Without(old(spaces)[pd].ptes, Pages(newsz), Pages(oldsz))
      // a page is gone exactly if it starts at or past newsz and before oldsz
      ensures forall v {:trigger v in spaces[pd].ptes} ::
                v in spaces[pd].ptes <==> v in old(spaces)[pd].ptes && !(newsz <= v * PGSIZE < oldsz)
      ensures forall v {:trigger spaces[pd].ptes[v]} :: v in spaces[pd].ptes ==> spaces[pd].ptes[v] == old(spaces)[pd].ptes[v]
    {
      ghost var lo, hi, sp := Pages(newsz), Pages(oldsz), spaces[pd];
      WithoutMeans(sp.ptes, newsz, oldsz);
      if newsz >= oldsz {
        assert sp.ptes == Without(sp.ptes, lo, hi);
        return oldsz;
      }
      assert sp.ptes == Without(sp.ptes, lo, lo);
      var a := Pages(newsz) * PGSIZE;
      while a < oldsz
        invariant Valid() && own.Keys == old(own.Keys) && held == old(held)
        invariant a % PGSIZE == 0 && lo <= a / PGSIZE
        invariant Kept(old(own), old(mem), own, mem, pd, lo, hi)
        invariant pd in spaces && spaces == old(spaces)[pd := sp.(ptes := spaces[pd].ptes)]
        invariant spaces[pd].ptes == Without(sp.ptes, lo, a / PGSIZE) && Unmapped(sp.ptes, hi, a / PGSIZE)
        decreases oldsz - a
      {
        ghost var own1, mem1, v := own, mem, a / PGSIZE;
        a := DeallocStep(pd, a);
        KeptNarrow(own1, mem1, own, mem, pd, v, v + 1, lo, hi);
        KeptTwice(old(own), old(mem), own1, mem1, own, mem, pd, lo, hi);
        WithoutMore(sp.ptes, lo, v, a / PGSIZE, hi);
      }
      WithoutPast(sp.ptes, lo, a / PGSIZE, hi);
      r := newsz;
    }

    /** Gives page vpn a zeroed frame; without memory nothing changes. */
    method AllocPage(pd: int, vpn: int) returns (ok: bool, f: Option<int>)
      requires Valid() && pd in spaces && 0 <= vpn < USER_PAGES && vpn !in spaces[pd].ptes
      modifies `free, `mem, `spaces, `own, `held
      ensures Valid() && own.Keys == old(own.Keys) && AllKept(old(own), old(mem), own, mem)
      ensures pd in spaces && spaces == old(spaces)[pd := spaces[pd]]
      ensures ok ==> held == old(held) && f.Some?
      ensures ok ==> spaces[pd].ptes == old(spaces)[pd].ptes[vpn := Pte(f.value, true, false, true, true)]
      ensures ok ==> ZeroPage(Pte(f.value, true, false, true, true), mem)
      ensures !ok ==> spaces == old(spaces) && held == old(held) + (if f.Some? then {f.value} else {})
      ensures !ok && f.Some? ==> f.value !in old(held)
    {
      f := Kalloc();
      if f.None? {
        return false, f;
      }
      ghost var own1, mem1 := own, mem;
      mem := mem[f.value := Filled(0)];
      ok := MapPage(pd, vpn, Pte(f.value, true, false, true, true));
      KeptTwice(old(own), old(mem), own1, mem1, own1, mem, 0, 0, 0);
      KeptTwice(old(own), old(mem), own1, mem, own, mem, 0, 0, 0);
    }

    /** Grows the user part from oldsz to newsz; out of memory, the mappings are as before. */
    method Allocuvm(pd: int, oldsz: nat, newsz: nat) returns (r: nat, ghost ok: bool)
      requires Valid() && pd in spaces
      requires oldsz <= newsz < KERNBASE ==> Unmapped(spaces[pd].ptes, Pages(oldsz), Pages(newsz))
      modifies this
      ensures Valid() && own.Keys == old(own.Keys) && held == old(held) && AllKept(old(own), old(mem), own, mem)
      ensures pd in spaces && spaces == old(spaces)[pd := spaces[pd]]
      ensures newsz >= KERNBASE ==> !ok && r == 0 && S() == old(S())
      ensures newsz < KERNBASE && newsz < oldsz ==> !ok && r == oldsz && S() == old(S())
      ensures oldsz <= newsz < KERNBASE ==> r == if ok then newsz else 0
      ensures ok ==> Grown(old(spaces)[pd].ptes, spaces[pd].ptes, mem, Pages(oldsz), Pages(newsz))
      ensures !ok ==> spaces[pd].ptes == old(spaces)[pd].ptes
      // the pages added are those that start at or past oldsz and before newsz; each is present,
      // writable, the user's, and all zero
      ensures ok ==> forall v {:trigger v in spaces[pd].ptes} ::
                v in spaces[pd].ptes <==> v in old(spaces)[pd].ptes || oldsz <= v * PGSIZE < newsz
      ensures ok ==> forall v {:trigger spaces[pd].ptes[v]} :: v in spaces[pd].ptes && oldsz <= v * PGSIZE < newsz ==>
                var pte := spaces[pd].ptes[v];
                && pte.p && !pte.e && pte.u && pte.w && pte.frame in mem && |mem[pte.frame]| == PGSIZE
                && forall k :: 0 <= k < PGSIZE ==> mem[pte.frame][k] == 0
      // so a process that has every address below oldsz then has every address below newsz
      ensures ok && Backed(old(spaces)[pd].ptes, oldsz) ==> Backed(spaces[pd].ptes, newsz)
    {
      if newsz >= KERNBASE {
        return 0, false;
      }
      if newsz < oldsz {
        return oldsz, false;
      }
      ghost var lo, hi, s0, mem0 := Pages(oldsz), Pages(newsz), S(), mem;
      ghost var ptes0 := spaces[pd].ptes;
      var a := Pages(oldsz) * PGSIZE;
      while a < newsz
        invariant Valid() && own.Keys == old(own.Keys) && held == old(held) && a % PGSIZE == 0 && lo <= a / PGSIZE <= hi
        invariant pd in spaces && spaces == old(spaces)[pd := spaces[pd]]
        invariant AllKept(s0.own, mem0, own, mem) && Grown(ptes0, spaces[pd].ptes, mem, lo, a / PGSIZE)
      {
        var vpn := a / PGSIZE;
        ghost var s1, mem1 := S(), mem;
        var done, f := AllocPage(pd, vpn);
        KeptTwice(s0.own, mem0, s1.own, mem1, own, mem, 0, 0, 0);
        if !done {
          GiveUp(pd, oldsz, newsz, f, s0, mem0, mem1);
          return 0, false;
        }
        GrownStep(s1, ptes0, mem1, pd, lo, vpn, own, mem, Pte(f.value, true, false, true, true));
        a := a + PGSIZE;
      }
      GrownMeans(ptes0, spaces[pd].ptes, mem, oldsz, newsz);
      return newsz, true;
    }

    /** allocuvm's way out: free the pages it has added, and the frame it could not map. */
    method GiveUp(pd: int, oldsz: nat, newsz: nat, f: Option<int>,
                  ghost s0: Sys, ghost mem0: map<int, Page>, ghost mem1: map<int, Page>)
      requires Valid() && pd in spaces && oldsz <= newsz < KERNBASE
      requires Inv(s0) && pd in s0.spaces && Unmapped(s0.spaces[pd].ptes, Pages(oldsz), Pages(newsz))
      requires AllKept(s0.own, mem0, own, mem)
      requires exists v :: v <= Pages(newsz) && Grown(s0.spaces[pd].ptes, spaces[pd].ptes, mem1, Pages(oldsz), v)
      requires held == s0.held + (if f.Some? then {f.value} else {}) && (f.Some? ==> f.value !in s0.held)
      modifies this
      ensures Valid() && own.Keys == old(own.Keys) && held == s0.held && AllKept(s0.own, mem0, own, mem)
      ensures pd in spaces && spaces == old(spaces)[pd := spaces[pd]] && spaces[pd].ptes == s0.spaces[pd].ptes
    {
      ghost var v :| v <= Pages(newsz) && Grown(s0.spaces[pd].ptes, spaces[pd].ptes, mem1, Pages(oldsz), v);
      WithoutGrown(s0.spaces[pd].ptes, spaces[pd].ptes, mem1, Pages(oldsz), v, Pages(newsz));
      ghost var own2, mem2 := own, mem;
      var _ := Deallocuvm(pd, newsz, oldsz);
      KeptWiden(s0.own, mem0, own2, mem2, pd, Pages(oldsz), Pages(newsz));
      KeptTwice(s0.own, mem0, own2, mem2, own, mem, pd, Pages(oldsz), Pages(newsz));
      KeptAll(s0, mem0, own, mem, pd, Pages(oldsz), Pages(newsz));
      if f.Some? {
        ghost var own3, mem3 := own, mem;
        Kfree(f.value);
        KeptTwice(s0.own, mem0, own3, mem3, own, mem, 0, 0, 0);
      }
    }

    // ---- whole address spaces -------------------------------------------------------------

    /** Frees table pdx of a directory that maps no user page. */
    method FreeTable(pd: int, pdx: int)
      requires Valid() && pd in spaces && pdx in spaces[pd].tables && spaces[pd].ptes == map[]
      modifies this
      ensures Valid() && own.Keys == old(own.Keys) && held == old(held) && AllKept(old(own), old(mem), own, mem)
      ensures spaces == old(spaces)[pd := Space(old(spaces)[pd].tables - {pdx}, map[])]
    {
      RemoveTableKeeps(S(), pd, pdx);
      ghost var s := S();
      var f := spaces[pd].tables[pdx];
      spaces := spaces[pd := spaces[pd].(tables := spaces[pd].tables - {pdx})];
      own, held := own[f := Held], held + {f};
      assert S() == RemoveTable(s, pd, pdx);
      ghost var own1 := own;
      Kfree(f);
      KeptTwice(old(own), old(mem), own1, old(mem), own, mem, 0, 0, 0);
    }

    /** Frees a directory that has no tables left. */
    method FreeDirectory(pd: int)
      requires Valid() && pd in spaces && spaces[pd] == Space(map[], map[])
      modifies this
      ensures Valid() && own.Keys == old(own.Keys) && held == old(held) && AllKept(old(own), old(mem), own, mem)
      ensures spaces == old(spaces) - {pd}
    {
      RemoveSpaceKeeps(S(), pd);
      ghost var s := S();
      spaces := spaces - {pd};
      own, held := own[pd := Held], held + {pd};
      assert S() == RemoveSpace(s, pd);
      ghost var own1 := own;
      Kfree(pd);
      KeptTwice(old(own), old(mem), own1, old(mem), own, mem, 0, 0, 0);
    }

    /** Frees an address space: every user page, every table and the directory go back to the free list. */
    method Freevm(pd: int)
      requires Valid() && pd in spaces
      modifies this
      ensures Valid() && own.Keys == old(own.Keys) && held == old(held)
      ensures spaces == old(spaces) - {pd} && Kept(old(own), old(mem), own, mem, pd, 0, USER_PAGES)
    {
      NoneOutside(S(), pd);
      var _ := Deallocuvm(pd, KERNBASE, 0);
      ghost var own1, mem1 := own, mem;
      TablesInRange(S(), pd);
      for i := 0 to NPDENTRIES
        invariant Valid() && own.Keys == old(own.Keys) && held == old(held) && AllKept(own1, mem1, own, mem)
        invariant pd in spaces && spaces == old(spaces)[pd := Space(spaces[pd].tables, map[])]
        invariant forall x :: x in spaces[pd].tables ==> i <= x < NPDENTRIES
      {
        if i in spaces[pd].tables {
          ghost var own2, mem2 := own, mem;
          FreeTable(pd, i);
          KeptTwice(own1, mem1, own2, mem2, own, mem, 0, 0, 0);
        }
      }
      NoKeys(spaces[pd].tables);
      ghost var own3, mem3 := own, mem;
      FreeDirectory(pd);
      KeptTwice(own1, mem1, own3, mem3, own, mem, 0, 0, 0);
      KeptWiden(own1, mem1, own, mem, pd, 0, USER_PAGES);
      KeptTwice(old(own), old(mem), own1, mem1, own, mem, pd, 0, USER_PAGES);
    }

    /** An empty directory in a fresh frame. */
    method NewDirectory() returns (r: Option<int>)
      requires Valid()
      modifies `free, `spaces, `own, `held
      ensures Valid() && own.Keys == old(own.Keys) && held == old(held) && AllKept(old(own), mem, own, mem)
      ensures r.None? ==> spaces == old(spaces)
      ensures r.Some? ==> r.value !in old(spaces) && spaces == old(spaces)[r.value := Space(map[], map[])]
    {
      r := Kalloc();
      if r.Some? {
        var pd := r.value;
        AddSpaceKeeps(S(), pd);
        ghost var s, own1 := S(), own;
        spaces := spaces[pd := Space(map[], map[])];
        own, held := own[pd := Dir], held - {pd};
        assert S() == AddSpace(s, pd);
        KeptTwice(old(own), mem, own1, mem, own, mem, 0, 0, 0);
      }
    }

    /** Frees a directory made since state s0, none of whose pages existed then. */
    method Abandon(pd: int, ghost s0: Sys, ghost mem0: map<int, Page>)
      requires Valid() && pd in spaces && pd !in s0.spaces && Inv(s0) && AllKept(s0.own, mem0, own, mem)
      modifies this
      ensures Valid() && own.Keys == old(own.Keys) && held == old(held)
      ensures spaces == old(spaces) - {pd} && AllKept(s0.own, mem0, own, mem)
    {
      ghost var own1, mem1 := own, mem;
      Freevm(pd);
      KeptWiden(s0.own, mem0, own1, mem1, pd, 0, USER_PAGES);
      KeptTwice(s0.own, mem0, own1, mem1, own, mem, pd, 0, USER_PAGES);
      KeptAll(s0, mem0, own, mem, pd, 0, USER_PAGES);
    }

    /** Gives an empty directory the kernel's tables. */
    method MapKernel(pd: int) returns (ok: bool)
      requires Valid() && pd in spaces && spaces[pd] == Space(map[], map[])
      modifies `free, `spaces, `own, `held
      ensures Valid() && own.Keys == old(own.Keys) && held == old(held) && AllKept(old(own), mem, own, mem)
      ensures pd in spaces && spaces == old(spaces)[pd := spaces[pd]] && spaces[pd].ptes == map[]
      ensures ok ==> spaces[pd].tables.Keys == KernelTables(NPDENTRIES)
    {
      for i := 0 to NPDENTRIES
        invariant Valid() && own.Keys == old(own.Keys) && held == old(held) && AllKept(old(own), mem, own, mem)
        invariant pd in spaces && spaces == old(spaces)[pd := spaces[pd]] && spaces[pd].ptes == map[]
        invariant spaces[pd].tables.Keys == KernelTables(i)
      {
        if KernelTable(i) {
          ghost var own1 := own;
          ok := WalkAlloc(pd, i);
          KeptTwice(old(own), mem, own1, mem, own, mem, 0, 0, 0);
          if !ok {
            return;
          }
        }
        assert KernelTables(i + 1) == KernelTables(i) + if KernelTable(i) then {i} else {};
      }
      ok := true;
    }

    /** A new directory with the kernel's tables and no user page; out of memory, nothing changes. */
    method Setupkvm() returns (r: Option<int>)
      requires Valid()
      modifies this
      ensures Valid() && own.Keys == old(own.Keys) && held == old(held) && AllKept(old(own), old(mem), own, mem)
      ensures r.None? ==> spaces == old(spaces)
      ensures r.Some? ==> r.value !in old(spaces) && r.value in spaces && spaces == old(spaces)[r.value := spaces[r.value]]
      ensures r.Some? ==> spaces[r.value].ptes == map[] && spaces[r.value].tables.Keys == KernelTables(NPDENTRIES)
    {
      ghost var s0, mem0 := S(), mem;
      r := NewDirectory();
      if r.Some? {
        ghost var own1 := own;
        var ok := MapKernel(r.value);
        KeptTwice(s0.own, mem0, own1, mem, own, mem, 0, 0, 0);
        if !ok {
          Abandon(r.value, s0, mem0);
          r := None;
        }
      }
    }

    /** Copies page v of directory pd to directory d; without memory, d is as before. */
    method CopyPage(pd: int, d: int, v: int) returns (ok: bool)
      requires Valid() && pd in spaces && d in spaces && pd != d && v in spaces[pd].ptes && v !in spaces[d].ptes
      requires Copied(spaces[pd].ptes, spaces[d].ptes, mem, v)
      modifies this
      ensures Valid() && own.Keys == old(own.Keys) && held == old(held) && AllKept(old(own), old(mem), own, mem)
      ensures d in spaces && spaces == old(spaces)[d := spaces[d]]
      ensures ok ==> Copied(old(spaces)[pd].ptes, spaces[d].ptes, mem, v + 1)
    {
      ghost var s0, mem0 := S(), mem;
      var pte := spaces[pd].ptes[v];
      PagePlace(s0, pd, v);
      var f := Kalloc();
      if f.None? {
        return false;
      }
      ghost var own1 := own;
      mem := mem[f.value := mem[pte.frame]];
      KeptTwice(s0.own, mem0, own1, mem0, own1, mem, 0, 0, 0);
      ghost var mem1 := mem;
      ok := MapPage(d, v, pte.(frame := f.value));
      KeptTwice(s0.own, mem0, own1, mem1, own, mem, 0, 0, 0);
      if ok {
        CopiedStep(s0, mem0, pd, d, v, own, mem, f.value);
      } else {
        ghost var own2 := own;
        Kfree(f.value);
        KeptTwice(s0.own, mem0, own2, mem1, own, mem, 0, 0, 0);
      }
    }

    /** A copy of the first sz bytes of directory pd, page by page; out of memory, nothing is left of it. */
    method Copyuvm(pd: int, sz: nat) returns (r: Option<int>)
      requires Valid() && pd in spaces && sz <= KERNBASE && forall v :: 0 <= v < Pages(sz) ==> v in spaces[pd].ptes
      modifies this
      ensures Valid() && own.Keys == old(own.Keys) && held == old(held) && AllKept(old(own), old(mem), own, mem)
      ensures r.None? ==> spaces == old(spaces)
      ensures r.Some? ==> r.value !in old(spaces) && r.value in spaces && spaces == old(spaces)[r.value := spaces[r.value]]
      ensures r.Some? ==> Copied(old(spaces)[pd].ptes, spaces[r.value].ptes, mem, Pages(sz))
      // every address below sz is mapped in the child, with the parent's flags and byte, in another frame
      ensures r.Some? ==> forall a {:trigger SameByte(old(spaces)[pd].ptes, spaces[r.value].ptes, mem, a)} :: 0 <= a < sz ==>
                SameByte(old(spaces)[pd].ptes, spaces[r.value].ptes, mem, a)
    {
      ghost var s0, mem0 := S(), mem;
      r := Setupkvm();
      if r.None? {
        return;
      }
      var d, i := r.value, 0;
      while i < sz
        invariant Valid() && own.Keys == s0.own.Keys && held == s0.held && AllKept(s0.own, mem0, own, mem)
        invariant i % PGSIZE == 0 && i / PGSIZE <= Pages(sz) && d in spaces && spaces == s0.spaces[d := spaces[d]]
        invariant Copied(s0.spaces[pd].ptes, spaces[d].ptes, mem, i / PGSIZE)
      {
        ghost var own1, mem1 := own, mem;
        var ok := CopyPage(pd, d, i / PGSIZE);
        KeptTwice(s0.own, mem0, own1, mem1, own, mem, 0, 0, 0);
        if !ok {
          Abandon(d, s0, mem0);
          return None;
        }
        i := i + PGSIZE;
      }
      CopiedMeans(S(), mem, pd, d, sz);
    }

    // ---- encrypted pages ------------------------------------------------------------------

    /** Flips every byte of a frame in place. */
    method FlipPage(f: int)
      requires f in mem && |mem[f]| == PGSIZE
      modifies `mem
      ensures mem == old(mem)[f := Xor(old(mem)[f])]
      ensures |mem[f]| == PGSIZE && forall i :: 0 <= i < PGSIZE ==> mem[f][i] == old(mem)[f][i] ^ 0xFF
    {
      ghost var page := mem[f];
      for offset := 0 to PGSIZE
        invariant f in mem && |mem[f]| == PGSIZE && mem == old(mem)[f := mem[f]]
        invariant forall i :: 0 <= i < PGSIZE ==> mem[f][i] == if i < offset then page[i] ^ 0xFF else page[i]
      {
        mem := mem[f := mem[f][offset := mem[f][offset] ^ 0xFF]];
      }
      assert mem[f] == Xor(page);
    }

    method SetPte(pd: int, v: int, p: bool, e: bool)
      requires Valid() && pd in spaces && v in spaces[pd].ptes && p != e && (e ==> spaces[pd].ptes[v].u)
      modifies `spaces
      ensures Valid() && S() == SetFlags(old(S()), pd, v, p, e)
    {
      SetFlagsKeeps(S(), pd, v, p, e);
      ghost var s := S();
      spaces := spaces[pd := spaces[pd].(ptes := spaces[pd].ptes[v := spaces[pd].ptes[v].(p := p, e := e)])];
      assert S() == SetFlags(s, pd, v, p, e);
    }

    /** mencrypt's work on one user page. */
    method EncryptPage(pd: int, v: int)
      requires Valid() && pd in spaces && v in spaces[pd].ptes && spaces[pd].ptes[v].u
      modifies `spaces, `mem
      ensures Valid() && S() == SetFlags(old(S()), pd, v, false, true)
      ensures SameViews(old(S()), old(mem), S(), mem)
    {
      ghost var s, mem0 := S(), mem;
      PagePlace(s, pd, v);
      var pte := spaces[pd].ptes[v];
      RecodedViews(s, mem, pd, v, false, true, !pte.e, if pte.e then mem else mem[pte.frame := Xor(mem[pte.frame])]);
      if pte.e {
        assert spaces[pd].ptes[v := pte] == spaces[pd].ptes;
        assert SetFlags(s, pd, v, false, true) == s;
      } else {
        FlipPage(pte.frame);
        SetPte(pd, v, false, true);
      }
    }

    /** Encrypts len pages from va on: all of them, or none if one is not a user page.  Where the
        range runs past a page table it can do neither. */
    method Mencrypt(pd: int, va: nat, len: int) returns (r: Outcome)
      requires Valid() && pd in spaces
      modifies `spaces, `mem
      ensures Valid() && pd in spaces && spaces == old(spaces)[pd := old(spaces)[pd].(ptes := spaces[pd].ptes)]
      ensures r.Failure? <==> Check(old(spaces)[pd], old(Word0(spaces[pd], mem)), va / PGSIZE, Count(len)).Failure?
      ensures r.Failure? ==> S() == old(S()) && mem == old(mem)
      ensures r.Success? ==> Sealed(old(spaces)[pd].ptes, spaces[pd].ptes, va / PGSIZE, va / PGSIZE + Count(len))
      ensures AllOrFailure(old(spaces)[pd], spaces[pd].ptes, r, va / PGSIZE, Count(len)) <==>
                || Check(old(spaces)[pd], old(Word0(spaces[pd], mem)), va / PGSIZE, Count(len)).Failure?
                || (&& Check(old(spaces)[pd], old(Word0(spaces[pd], mem)), va / PGSIZE, Count(len)).Success?
                    && Tabled(old(spaces)[pd], va / PGSIZE, Count(len)))
      ensures !r.Fault? ==> SameViews(old(S()), old(mem), S(), mem)
      // after success each page of the range is marked, and each of its bytes inverted if it was not marked before
      ensures r.Success? ==> forall u {:trigger Scrambled(old(spaces)[pd].ptes, old(mem), spaces[pd].ptes, mem, u)} ::
                va / PGSIZE <= u < va / PGSIZE + len && u in old(spaces)[pd].ptes ==>
                Scrambled(old(spaces)[pd].ptes, old(mem), spaces[pd].ptes, mem, u)
    {
      ghost var s0, mem0, sp := S(), mem, spaces[pd];
      SameAsBefore(s0, mem0);
      var v0, i := va / PGSIZE, 0;
      var word := Word0(spaces[pd], mem);
      while i < len
        invariant 0 <= i <= Count(len) && Check(sp, word, v0, Count(len)) == Check(sp, word, v0 + i, Count(len) - i)
      {
        match Uva2ka(spaces[pd], word, v0 + i) {
          case Traps => return Fault;
          case NotUser => return Failure;
          case _ => i := i + 1;
        }
      }
      i := 0;
      while i < len
        invariant Valid() && 0 <= i <= Count(len)
        invariant pd in spaces && spaces == s0.spaces[pd := sp.(ptes := spaces[pd].ptes)]
        invariant Sealed(sp.ptes, spaces[pd].ptes, v0, v0 + i)
        invariant S() == s0.(spaces := spaces) && SameViews(s0, mem0, S(), mem)
      {
        CheckedPages(sp, word, v0, len, v0 + i);
        if !HasTable(spaces[pd], v0 + i) {
          NoPage(s0, pd, v0 + i);
          // A range from page 0 on has by now encrypted the word it would read.
          if v0 == 0 || !word.value.e {
            return Fault;
          }
        } else {
          ghost var s1, mem1 := S(), mem;
          EncryptPage(pd, v0 + i);
          ViewsTwice(s0, mem0, s1, mem1, S(), mem);
        }
        i := i + 1;
      }
      SealedAll(s0, pd, word, v0, Count(len));
      forall u | v0 <= u < v0 + len && u in sp.ptes ensures Scrambled(sp.ptes, mem0, spaces[pd].ptes, mem, u) {
        SealedBytes(s0, mem0, S(), mem, pd, v0, v0 + i, u);
      }
      r := Success;
    }

    /** The page-fault handler's decryption of the page at va. */
    method Mdecrypt(pd: int, va: nat) returns (r: int)
      requires Valid() && pd in spaces
      modifies `spaces, `mem
      ensures Valid()
      ensures va / PGSIZE !in old(spaces)[pd].ptes ==> r == -1 && S() == old(S()) && mem == old(mem)
      ensures va / PGSIZE in old(spaces)[pd].ptes ==>
                var pte := old(spaces)[pd].ptes[va / PGSIZE];
                && pte.frame in old(mem) && |old(mem)[pte.frame]| == PGSIZE
                && S() == SetFlags(old(S()), pd, va / PGSIZE, true, false)
                && r == (if pte.u && old(mem)[pte.frame][0] != 0 then 0 else -1)
                && mem == (if r == 0 then old(mem)[pte.frame := Xor(old(mem)[pte.frame])] else old(mem))
                && (pte.e ==> (SameViews(old(S()), old(mem), S(), mem) <==> View(old(mem), pte)[0] != 0xFF))
                && (!pte.e ==> (SameViews(old(S()), old(mem), S(), mem) <==> !(pte.u && old(mem)[pte.frame][0] != 0)))
    {
      var v := va / PGSIZE;
      if v / NPTENTRIES !in spaces[pd].tables || v !in spaces[pd].ptes {
        assert v in spaces[pd].ptes ==> PageOk(S(), pd, v) by { assert SpaceOk(S(), pd); }
        return -1;
      }
      PagePlace(S(), pd, v);
      var pte := spaces[pd].ptes[v];
      ghost var s, mem0 := S(), mem;
      SetPte(pd, v, true, false);
      r := -1;
      if pte.u && mem[pte.frame][0] != 0 {
        FlipPage(pte.frame);
        r := 0;
      }
      if pte.e {
        DecryptKeepsViewsIff(s, mem0, pd, v, r, mem);
      } else {
        DecryptPlainPage(s, mem0, pd, v, mem);
      }
    }
  }

  // ---- pages and addresses --------------------------------------------------------------

  /** A page lies past the pages up to sz exactly when it starts at or past sz. */
  lemma {:induction false} PageStart(sz: nat, v: int)
    ensures v >= Pages(sz) <==> v * PGSIZE >= sz
  {
  }

  lemma {:induction false} WithoutMeans(ptes: map<int, Pte>, newsz: nat, oldsz: nat)
    ensures var r := Without(ptes, Pages(newsz), Pages(oldsz));
            forall v {:trigger v in r} :: v in r <==> v in ptes && !(newsz <= v * PGSIZE < oldsz)
  {
    forall v ensures Pages(newsz) <= v < Pages(oldsz) <==> newsz <= v * PGSIZE < oldsz {
      PageStart(newsz, v);
      PageStart(oldsz, v);
    }
  }

  lemma {:induction false} GrownMeans(ptes0: map<int, Pte>, ptes: map<int, Pte>, mem: map<int, Page>, oldsz: nat, newsz: nat)
    requires Grown(ptes0, ptes, mem, Pages(oldsz), Pages(newsz))
    ensures forall v {:trigger v in ptes} :: v in ptes <==> v in ptes0 || oldsz <= v * PGSIZE < newsz
    ensures forall v {:trigger ptes[v]} :: v in ptes && oldsz <= v * PGSIZE < newsz ==> ZeroPage(ptes[v], mem)
    ensures Backed(ptes0, oldsz) ==> Backed(ptes, newsz)
  {
    forall v ensures Pages(oldsz) <= v < Pages(newsz) <==> oldsz <= v * PGSIZE < newsz {
      PageStart(oldsz, v);
      PageStart(newsz, v);
    }
    if Backed(ptes0, oldsz) {
      forall a | 0 <= a < newsz ensures a / PGSIZE in ptes {
        if a / PGSIZE * PGSIZE < oldsz { assert a / PGSIZE * PGSIZE / PGSIZE in ptes0; }
      }
    }
  }

  /** Every address below sz has a page. */
  ghost predicate Backed(ptes: map<int, Pte>, sz: nat) {
    forall a {:trigger a / PGSIZE} :: 0 <= a < sz ==> a / PGSIZE in ptes
  }

  /** Address a has a page in both spaces, with equal flags and an equal byte in different frames. */
  ghost predicate SameByte(parent: map<int, Pte>, child: map<int, Pte>, mem: map<int, Page>, a: nat) {
    var v := a / PGSIZE;
    && v in parent && v in child && parent[v].frame in mem && child[v].frame in mem
    && |mem[parent[v].frame]| == |mem[child[v].frame]| == PGSIZE
    && mem[child[v].frame][a % PGSIZE] == mem[parent[v].frame][a % PGSIZE] && child[v].frame != parent[v].frame
    && child[v].p == parent[v].p && child[v].e == parent[v].e && child[v].u == parent[v].u && child[v].w == parent[v].w
  }

  lemma {:induction false} CopiedMeans(s: Sys, mem: map<int, Page>, pd: int, d: int, sz: nat)
    requires Inv(s) && Loaded(s, mem) && pd in s.spaces && d in s.spaces && pd != d
    requires Copied(s.spaces[pd].ptes, s.spaces[d].ptes, mem, Pages(sz))
    ensures forall a {:trigger SameByte(s.spaces[pd].ptes, s.spaces[d].ptes, mem, a)} :: 0 <= a < sz ==>
              SameByte(s.spaces[pd].ptes, s.spaces[d].ptes, mem, a)
  {
    forall a: nat | a < sz ensures SameByte(s.spaces[pd].ptes, s.spaces[d].ptes, mem, a) {
      PageStart(sz, a / PGSIZE);
      assert Copy(s.spaces[pd].ptes, s.spaces[d].ptes, mem, a / PGSIZE);
      OwnFrame(s, pd, a / PGSIZE, d, a / PGSIZE);
      assert s.own[s.spaces[pd].ptes[a / PGSIZE].frame] == s.own[s.spaces[pd].ptes[a / PGSIZE].frame];
    }
  }

  /** Page u is marked as encrypted, and its bytes are inverted if it was not marked before. */
  ghost predicate Scrambled(before: map<int, Pte>, mem0: map<int, Page>, after: map<int, Pte>, mem: map<int, Page>, u: int) {
    && u in before && u in after && after[u].e && !after[u].p && after[u].frame == before[u].frame
    && var f := before[u].frame;
    && f in mem0 && f in mem && |mem0[f]| == |mem[f]|
    && forall k :: 0 <= k < |mem[f]| ==> mem[f][k] == if before[u].e then mem0[f][k] else mem0[f][k] ^ 0xFF
  }

  lemma {:induction false} SealedBytes(s0: Sys, mem0: map<int, Page>, s: Sys, mem: map<int, Page>, pd: int, lo: int, hi: int,
                                       u: int)
    requires Inv(s0) && pd in s0.spaces && pd in s.spaces && lo <= u < hi && u in s0.spaces[pd].ptes
    requires Sealed(s0.spaces[pd].ptes, s.spaces[pd].ptes, lo, hi) && SameViews(s0, mem0, s, mem)
    ensures Scrambled(s0.spaces[pd].ptes, mem0, s.spaces[pd].ptes, mem, u)
  {
    assert SameView(s0, mem0, s, mem, pd, u);
    var f := s0.spaces[pd].ptes[u].frame;
    XorTwice(mem[f]);
    XorTwice(mem0[f]);
  }

  lemma {:induction false} SameAsBefore(s: Sys, mem: map<int, Page>)
    requires Inv(s) && Loaded(s, mem)
    ensures SameViews(s, mem, s, mem)
  {
    forall pd, v | pd in s.spaces && v in s.spaces[pd].ptes ensures SameView(s, mem, s, mem, pd, v) {
      OwnFrame(s, pd, v, pd, v);
      assert s.own[s.spaces[pd].ptes[v].frame] == s.own[s.spaces[pd].ptes[v].frame];
    }
  }

  lemma {:induction false} NoPage(s: Sys, pd: int, v: nat)
    requires Inv(s) && pd in s.spaces && !HasTable(s.spaces[pd], v)
    ensures v !in s.spaces[pd].ptes
  {
    if v in s.spaces[pd].ptes { PagePlace(s, pd, v); }
  }

  /** A range that passed the check is mapped throughout exactly when it has tables throughout. */
  lemma {:induction false} SealedAll(s: Sys, pd: int, word: Option<NullWord>, v0: nat, n: nat)
    requires Inv(s) && pd in s.spaces && Check(s.spaces[pd], word, v0, n).Success?
    ensures (forall u :: v0 <= u < v0 + n ==> u in s.spaces[pd].ptes) <==> Tabled(s.spaces[pd], v0, n)
  {
    forall u | v0 <= u < v0 + n ensures u in s.spaces[pd].ptes <==> HasTable(s.spaces[pd], u) {
      CheckedPages(s.spaces[pd], word, v0, n, u);
      if !HasTable(s.spaces[pd], u) { NoPage(s, pd, u); }
    }
  }

  lemma {:induction false} PagePlace(s: Sys, pd: int, v: int)
    requires Inv(s) && pd in s.spaces && v in s.spaces[pd].ptes
    ensures PageOk(s, pd, v)
  {
    assert SpaceOk(s, pd);
  }

  /** The directory entries kmap fills: physical memory up to PHYSTOP, and the device space. */
  predicate KernelTable(pdx: int) { 512 <= pdx < 568 || 1016 <= pdx < 1024 }

  const PHYSTOP: nat := 0xE00_0000
  const DEVSPACE: nat := 0xFE00_0000

  /** kmap's addresses: physical memory from KERNBASE up, and the devices. */
  predicate KernelAddress(a: int) { KERNBASE <= a < KERNBASE + PHYSTOP || DEVSPACE <= a < 0x1_0000_0000 }

  /** A directory entry has a table exactly if it translates an address that kmap maps. */
  lemma {:induction false} KernelTableIff(pdx: int)
    requires 0 <= pdx < NPDENTRIES
    ensures KernelTable(pdx) <==> exists a :: KernelAddress(a) && a / (NPTENTRIES * PGSIZE) == pdx
  {
    var a := pdx * (NPTENTRIES * PGSIZE);
    if KernelTable(pdx) { assert KernelAddress(a) && a / (NPTENTRIES * PGSIZE) == pdx; }
  }

  ghost function KernelTables(n: nat): set<int> { set x | 0 <= x < n && KernelTable(x) }

  lemma {:induction false} NoneOutside(s: Sys, pd: int)
    requires Inv(s) && pd in s.spaces
    ensures Without(s.spaces[pd].ptes, 0, USER_PAGES) == map[]
  {
    assert SpaceOk(s, pd);
    forall v | v in s.spaces[pd].ptes ensures 0 <= v < USER_PAGES {
      assert PageOk(s, pd, v);
    }
  }

  lemma {:induction false} NoKeys(tables: map<int, int>)
    requires forall x :: x !in tables
    ensures tables == map[]
  {
    forall x | x in tables.Keys ensures false {
    }
  }

  lemma {:induction false} TablesInRange(s: Sys, pd: int)
    requires Inv(s) && pd in s.spaces
    ensures forall x :: x in s.spaces[pd].tables ==> 0 <= x < NPDENTRIES
  {
    assert SpaceOk(s, pd);
    forall x | x in s.spaces[pd].tables ensures 0 <= x < NPDENTRIES {
      assert TableOk(s, pd, x);
    }
  }

  lemma {:induction false} KeptNarrow(own0: map<int, Owner>, mem0: map<int, Page>, own: map<int, Owner>,
                                      mem: map<int, Page>,
                                      pd: int, lo: int, hi: int, lo': int, hi': int)
    requires Kept(own0, mem0, own, mem, pd, lo, hi) && lo' <= lo && hi <= hi'
    ensures Kept(own0, mem0, own, mem, pd, lo', hi')
  {
  }

  lemma {:induction false} WithoutMore(ptes: map<int, Pte>, lo: int, v: int, w: int, hi: int)
    requires lo <= v < w && v < hi && Unmapped(ptes, hi, v)
    ensures Without(Without(ptes, lo, v), v, w) == Without(ptes, lo, w)
    ensures Unmapped(Without(ptes, lo, v), v + 1, w) ==> Unmapped(ptes, hi, w)
  {
    if Unmapped(Without(ptes, lo, v), v + 1, w) {
      forall u | u in ptes ensures !(hi <= u < w) {
        assert u > v ==> u in Without(ptes, lo, v);
      }
    }
  }

  /** The next page, and the first page of the next table. */
  lemma {:induction false} NextPages(a: nat, vpn: nat)
    requires a % PGSIZE == 0 && vpn == a / PGSIZE
    ensures (a + PGSIZE) % PGSIZE == 0 && (a + PGSIZE) / PGSIZE == vpn + 1
    ensures var next := (vpn / NPTENTRIES + 1) * NPTENTRIES * PGSIZE;
            a < next && next % PGSIZE == 0 && next / PGSIZE == (vpn / NPTENTRIES + 1) * NPTENTRIES > vpn
  {
  }

  /** A missing table holds no page, so skipping it frees what going page by page would. */
  lemma {:induction false} SkipTable(s: Sys, pd: int, vpn: nat)
    requires Inv(s) && pd in s.spaces && vpn / NPTENTRIES !in s.spaces[pd].tables
    ensures Unmapped(s.spaces[pd].ptes, vpn, (vpn / NPTENTRIES + 1) * NPTENTRIES)
  {
    assert SpaceOk(s, pd);
    forall v | v in s.spaces[pd].ptes ensures !(vpn <= v < (vpn / NPTENTRIES + 1) * NPTENTRIES) {
      assert PageOk(s, pd, v);
    }
  }

  lemma {:induction false} WithoutPast(ptes: map<int, Pte>, lo: int, end: int, hi: int)
    requires lo <= hi <= end && Unmapped(ptes, hi, end)
    ensures Without(ptes, lo, end) == Without(ptes, lo, hi)
  {
  }

  // ---- what mdecrypt does to the plaintext ----------------------------------------------

  /** mdecrypt gives an encrypted page back unharmed exactly when the page's first byte is not 0xFF;
      otherwise it fails after the flags have changed, and every byte reads inverted. */
  lemma {:induction false} DecryptKeepsViewsIff(s: Sys, mem: map<int, Page>, pd: int, v: int, r: int, mem': map<int, Page>)
    requires Inv(s) && Loaded(s, mem) && pd in s.spaces && v in s.spaces[pd].ptes && s.spaces[pd].ptes[v].e
    requires s.spaces[pd].ptes[v].frame in mem && |mem[s.spaces[pd].ptes[v].frame]| == PGSIZE
    requires r == if mem[s.spaces[pd].ptes[v].frame][0] != 0 then 0 else -1
    requires mem' == if r == 0 then mem[s.spaces[pd].ptes[v].frame := Xor(mem[s.spaces[pd].ptes[v].frame])] else mem
    ensures SameViews(s, mem, SetFlags(s, pd, v, true, false), mem') <==> View(mem, s.spaces[pd].ptes[v])[0] != 0xFF
    ensures r == 0 <==> View(mem, s.spaces[pd].ptes[v])[0] != 0xFF
  {
    var page := mem[s.spaces[pd].ptes[v].frame];
    RecodedViews(s, mem, pd, v, true, false, r == 0, mem');
    XorTwice(page);
    XorDiffers(Xor(page));
  }

  /** On a page that is not encrypted mdecrypt does harm exactly when it is a user page whose first
      byte is not 0. */
  lemma {:induction false} DecryptPlainPage(s: Sys, mem: map<int, Page>, pd: int, v: int, mem': map<int, Page>)
    requires Inv(s) && Loaded(s, mem) && pd in s.spaces && v in s.spaces[pd].ptes && !s.spaces[pd].ptes[v].e
    requires s.spaces[pd].ptes[v].frame in mem && |mem[s.spaces[pd].ptes[v].frame]| == PGSIZE
    requires mem' == if s.spaces[pd].ptes[v].u && mem[s.spaces[pd].ptes[v].frame][0] != 0
                     then mem[s.spaces[pd].ptes[v].frame := Xor(mem[s.spaces[pd].ptes[v].frame])] else mem
    ensures SameViews(s, mem, SetFlags(s, pd, v, true, false), mem') <==>
              !(s.spaces[pd].ptes[v].u && mem[s.spaces[pd].ptes[v].frame][0] != 0)
  {
    var flip := s.spaces[pd].ptes[v].u && mem[s.spaces[pd].ptes[v].frame][0] != 0;
    RecodedViews(s, mem, pd, v, true, false, flip, mem');
  }

  /** A copied page looks the same to the child as to the parent. */
  lemma {:induction false} CopiedViews(parent: map<int, Pte>, child: map<int, Pte>, mem: map<int, Page>, n: int, v: int)
    requires Copied(parent, child, mem, n) && 0 <= v < n
    ensures v in parent && v in child && parent[v].frame in mem && child[v].frame in mem
    ensures View(mem, child[v]) == View(mem, parent[v])
  {
    assert Copy(parent, child, mem, v);
  }
}
