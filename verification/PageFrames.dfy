/** Physical page frames and who holds them (kalloc.c, vm.c), as values.

Every frame the kernel manages has exactly one owner: the free list, a page directory, a page
table, a user page, or the kernel code that is just handling it.  The free list is given with
its head at the end of the sequence. */
module PageFrames {
  const PGSIZE: nat := 4096
  const NPTENTRIES: nat := 1024
  const NPDENTRIES: nat := 1024
  const KERNBASE: nat := 0x8000_0000
  const USER_PAGES: nat := KERNBASE / PGSIZE

  type Page = seq<bv8>

  /** A page-table entry that is not zero: frame number, PTE_P, PTE_E, PTE_U and PTE_W. */
  datatype Pte = Pte(frame: int, p: bool, e: bool, u: bool, w: bool)

  /** A page directory: its tables by directory index, its user entries by page number. */
  datatype Space = Space(tables: map<int, int>, ptes: map<int, Pte>)

  datatype Owner = FreeAt(i: int) | Dir | TableOf(pd: int, pdx: int) | UserOf(pd: int, vpn: int) | Held

  /** The free list, the page directories by frame, the owners, and the frames in hand. */
  datatype Sys = Sys(free: seq<int>, spaces: map<int, Space>, own: map<int, Owner>, held: set<int>)

  // ---- one owner per frame --------------------------------------------------------------

  ghost predicate Owns(s: Sys, f: int, o: Owner) { f in s.own && s.own[f] == o }

  ghost predicate TableOk(s: Sys, pd: int, pdx: int)
    requires pd in s.spaces && pdx in s.spaces[pd].tables
  {
    0 <= pdx < NPDENTRIES && Owns(s, s.spaces[pd].tables[pdx], TableOf(pd, pdx))
  }

  /** A user page has a table, exactly one of PTE_P and PTE_E, and is encrypted only if the user may use it. */
  ghost predicate PageOk(s: Sys, pd: int, vpn: int)
    requires pd in s.spaces && vpn in s.spaces[pd].ptes
  {
    var pte := s.spaces[pd].ptes[vpn];
    && 0 <= vpn < USER_PAGES && vpn / NPTENTRIES in s.spaces[pd].tables
    && Owns(s, pte.frame, UserOf(pd, vpn))
    && pte.p != pte.e && (pte.e ==> pte.u)
  }

  ghost predicate SpaceOk(s: Sys, pd: int)
    requires pd in s.spaces
  {
    && Owns(s, pd, Dir)
    && (forall pdx {:trigger TableOk(s, pd, pdx)} :: pdx in s.spaces[pd].tables ==> TableOk(s, pd, pdx))
    && (forall vpn {:trigger PageOk(s, pd, vpn)} :: vpn in s.spaces[pd].ptes ==> PageOk(s, pd, vpn))
  }

  /** What frame f's owner says about it is true. */
  ghost predicate FrameOk(s: Sys, f: int)
    requires f in s.own
  {
    match s.own[f]
    case FreeAt(i) => 0 <= i < |s.free| && s.free[i] == f
    case Dir => f in s.spaces
    case TableOf(pd, pdx) => pd in s.spaces && pdx in s.spaces[pd].tables && s.spaces[pd].tables[pdx] == f
    case UserOf(pd, vpn) => pd in s.spaces && vpn in s.spaces[pd].ptes && s.spaces[pd].ptes[vpn].frame == f
    case Held => f in s.held
  }

  ghost predicate Inv(s: Sys) {
    && (forall i {:trigger s.free[i]} :: 0 <= i < |s.free| ==> Owns(s, s.free[i], FreeAt(i)))
    && (forall f {:trigger f in s.held} :: f in s.held ==> Owns(s, f, Held))
    && (forall pd {:trigger SpaceOk(s, pd)} :: pd in s.spaces ==> SpaceOk(s, pd))
    && (forall f {:trigger FrameOk(s, f)} :: f in s.own ==> FrameOk(s, f))
  }

  // ---- moving a frame from one owner to another -----------------------------------------

  /** kalloc takes the frame at the head of the free list. */
  function Take(s: Sys): Sys
    requires s.free != []
  {
    var n := |s.free| - 1;
    s.(free := s.free[..n], own := s.own[s.free[n] := Held], held := s.held + {s.free[n]})
  }

  /** A frame new to the kernel comes into hand. */
  function Hold(s: Sys, f: int): Sys { s.(own := s.own[f := Held], held := s.held + {f}) }

  function Give(s: Sys, f: int): Sys {
    s.(free := s.free + [f], own := s.own[f := FreeAt(|s.free|)], held := s.held - {f})
  }

  function AddSpace(s: Sys, f: int): Sys {
    s.(spaces := s.spaces[f := Space(map[], map[])], own := s.own[f := Dir], held := s.held - {f})
  }

  function AddTable(s: Sys, pd: int, pdx: int, f: int): Sys
    requires pd in s.spaces
  {
    var sp := s.spaces[pd];
    s.(spaces := s.spaces[pd := sp.(tables := sp.tables[pdx := f])], own := s.own[f := TableOf(pd, pdx)], held := s.held - {f})
  }

  function AddPage(s: Sys, pd: int, vpn: int, pte: Pte): Sys
    requires pd in s.spaces
  {
    var sp := s.spaces[pd];
    s.(spaces := s.spaces[pd := sp.(ptes := sp.ptes[vpn := pte])],
       own := s.own[pte.frame := UserOf(pd, vpn)], held := s.held - {pte.frame})
  }

  function RemovePage(s: Sys, pd: int, vpn: int): Sys
    requires pd in s.spaces && vpn in s.spaces[pd].ptes
  {
    var sp, f := s.spaces[pd], s.spaces[pd].ptes[vpn].frame;
    s.(spaces := s.spaces[pd := sp.(ptes := sp.ptes - {vpn})], own := s.own[f := Held], held := s.held + {f})
  }

  function RemoveTable(s: Sys, pd: int, pdx: int): Sys
    requires pd in s.spaces && pdx in s.spaces[pd].tables
  {
    var sp, f := s.spaces[pd], s.spaces[pd].tables[pdx];
    s.(spaces := s.spaces[pd := sp.(tables := sp.tables - {pdx})], own := s.own[f := Held], held := s.held + {f})
  }

  function RemoveSpace(s: Sys, pd: int): Sys {
    s.(spaces := s.spaces - {pd}, own := s.own[pd := Held], held := s.held + {pd})
  }

  function SetFlags(s: Sys, pd: int, vpn: int, p: bool, e: bool): Sys
    requires pd in s.spaces && vpn in s.spaces[pd].ptes
  {
    var sp := s.spaces[pd];
    s.(spaces := s.spaces[pd := sp.(ptes := sp.ptes[vpn := sp.ptes[vpn].(p := p, e := e)])])
  }

  /** Spaces whose frames keep their owners stay in order. */
  lemma {:induction false} SpaceStays(s: Sys, r: Sys, pd: int, f: int)
    requires Inv(s) && pd in s.spaces && pd in r.spaces && r.spaces[pd] == s.spaces[pd]
    requires forall g {:trigger g in r.own} :: g in s.own && g != f ==> g in r.own && r.own[g] == s.own[g]
    requires f in s.own && (s.own[f].FreeAt? || s.own[f].Held? || (s.own[f].TableOf? && s.own[f].pd != pd) ||
                            (s.own[f].UserOf? && s.own[f].pd != pd) || (s.own[f].Dir? && f != pd))
    ensures SpaceOk(r, pd)
  {
    assert SpaceOk(s, pd);
    forall pdx | pdx in r.spaces[pd].tables ensures TableOk(r, pd, pdx) {
      assert TableOk(s, pd, pdx);
    }
    forall vpn | vpn in r.spaces[pd].ptes ensures PageOk(r, pd, vpn) {
      assert PageOk(s, pd, vpn);
    }
  }

  lemma {:induction false} HoldKeeps(s: Sys, f: int)
    requires Inv(s) && f !in s.own
    ensures Inv(Hold(s, f)) && f !in s.held
  {
    var r := Hold(s, f);
    assert f in s.held ==> Owns(s, f, Held);
    forall i | 0 <= i < |r.free| ensures Owns(r, r.free[i], FreeAt(i)) {
      assert Owns(s, s.free[i], FreeAt(i));
    }
    forall pd | pd in r.spaces ensures SpaceOk(r, pd) {
      assert SpaceOk(s, pd);
      forall pdx | pdx in r.spaces[pd].tables ensures TableOk(r, pd, pdx) {
        assert TableOk(s, pd, pdx);
      }
      forall vpn | vpn in r.spaces[pd].ptes ensures PageOk(r, pd, vpn) {
        assert PageOk(s, pd, vpn);
      }
    }
    forall g | g in r.own ensures FrameOk(r, g) {
      assert g != f ==> FrameOk(s, g);
    }
  }

  lemma {:induction false} TakeKeeps(s: Sys)
    requires Inv(s) && s.free != []
    ensures Inv(Take(s))
  {
    var r, f := Take(s), s.free[|s.free| - 1];
    assert Owns(s, f, FreeAt(|s.free| - 1));
    forall i | 0 <= i < |r.free| ensures Owns(r, r.free[i], FreeAt(i)) {
      assert Owns(s, s.free[i], FreeAt(i));
    }
    forall pd | pd in r.spaces ensures SpaceOk(r, pd) {
      SpaceStays(s, r, pd, f);
    }
    forall g | g in r.own ensures FrameOk(r, g) {
      assert g != f ==> FrameOk(s, g);
    }
  }

  lemma {:induction false} GiveKeeps(s: Sys, f: int)
    requires Inv(s) && f in s.held
    ensures Inv(Give(s, f))
  {
    var r := Give(s, f);
    forall i | 0 <= i < |r.free| ensures Owns(r, r.free[i], FreeAt(i)) {
      assert i < |s.free| ==> Owns(s, s.free[i], FreeAt(i));
    }
    forall pd | pd in r.spaces ensures SpaceOk(r, pd) {
      SpaceStays(s, r, pd, f);
    }
    forall g | g in r.own ensures FrameOk(r, g) {
      assert g != f ==> FrameOk(s, g);
    }
  }

  lemma {:induction false} AddSpaceKeeps(s: Sys, f: int)
    requires Inv(s) && f in s.held
    ensures Inv(AddSpace(s, f)) && f !in s.spaces
  {
    var r := AddSpace(s, f);
    assert f in s.spaces ==> SpaceOk(s, f);
    forall i | 0 <= i < |r.free| ensures Owns(r, r.free[i], FreeAt(i)) {
      assert Owns(s, s.free[i], FreeAt(i));
    }
    forall pd | pd in r.spaces ensures SpaceOk(r, pd) {
      if pd != f { SpaceStays(s, r, pd, f); }
    }
    forall g | g in r.own ensures FrameOk(r, g) {
      assert g != f ==> FrameOk(s, g);
    }
  }

  /** The space a frame is added to or taken from; nothing else in it changes. */
  lemma {:induction false} OtherFrames(s: Sys, r: Sys, pd: int, f: int)
    requires Inv(s) && pd in s.spaces && r.free == s.free && f in s.own && f in r.own && f != pd
    requires pd in r.spaces && r.spaces == s.spaces[pd := r.spaces[pd]]
    requires r.own == s.own[f := r.own[f]] && !s.own[f].FreeAt? && !r.own[f].FreeAt? && !s.own[f].Dir?
    requires s.own[f].TableOf? || s.own[f].UserOf? ==> s.own[f].pd == pd
    requires r.held == (if r.own[f].Held? then s.held + {f} else s.held - {f})
    requires SpaceOk(r, pd) && FrameOk(r, f)
    requires forall g {:trigger FrameOk(r, g)} ::
               g in r.own && g != f && (r.own[g].TableOf? || r.own[g].UserOf?) && r.own[g].pd == pd ==> FrameOk(r, g)
    ensures Inv(r)
  {
    forall i | 0 <= i < |r.free| ensures Owns(r, r.free[i], FreeAt(i)) {
      assert Owns(s, s.free[i], FreeAt(i));
    }
    forall q | q in r.spaces ensures SpaceOk(r, q) {
      if q != pd { SpaceStays(s, r, q, f); }
    }
    forall g | g in r.own ensures FrameOk(r, g) {
      assert g != f ==> FrameOk(s, g);
    }
  }

  lemma {:induction false} AddTableKeeps(s: Sys, pd: int, pdx: int, f: int)
    requires Inv(s) && pd in s.spaces && 0 <= pdx < NPDENTRIES && pdx !in s.spaces[pd].tables && f in s.held
    ensures Inv(AddTable(s, pd, pdx, f))
  {
    var r := AddTable(s, pd, pdx, f);
    assert SpaceOk(s, pd);
    forall x | x in r.spaces[pd].tables ensures TableOk(r, pd, x) {
      assert x != pdx ==> TableOk(s, pd, x);
    }
    forall vpn | vpn in r.spaces[pd].ptes ensures PageOk(r, pd, vpn) {
      assert PageOk(s, pd, vpn);
    }
    forall g | g in r.own && g != f ensures FrameOk(r, g) {
      assert FrameOk(s, g);
    }
    OtherFrames(s, r, pd, f);
  }

  lemma {:induction false} AddPageKeeps(s: Sys, pd: int, vpn: int, pte: Pte)
    requires Inv(s) && pd in s.spaces && 0 <= vpn < USER_PAGES && vpn / NPTENTRIES in s.spaces[pd].tables
    requires vpn !in s.spaces[pd].ptes && pte.frame in s.held && pte.p != pte.e && (pte.e ==> pte.u)
    ensures Inv(AddPage(s, pd, vpn, pte))
  {
    var r := AddPage(s, pd, vpn, pte);
    assert SpaceOk(s, pd);
    forall x | x in r.spaces[pd].tables ensures TableOk(r, pd, x) {
      assert TableOk(s, pd, x);
    }
    forall v | v in r.spaces[pd].ptes ensures PageOk(r, pd, v) {
      assert v != vpn ==> PageOk(s, pd, v);
    }
    forall g | g in r.own && g != pte.frame ensures FrameOk(r, g) {
      assert FrameOk(s, g);
    }
    OtherFrames(s, r, pd, pte.frame);
  }

  lemma {:induction false} RemovePageKeeps(s: Sys, pd: int, vpn: int)
    requires Inv(s) && pd in s.spaces && vpn in s.spaces[pd].ptes
    ensures Inv(RemovePage(s, pd, vpn)) && Owns(s, s.spaces[pd].ptes[vpn].frame, UserOf(pd, vpn))
  {
    var r, f := RemovePage(s, pd, vpn), s.spaces[pd].ptes[vpn].frame;
    assert SpaceOk(s, pd) && PageOk(s, pd, vpn);
    forall x | x in r.spaces[pd].tables ensures TableOk(r, pd, x) {
      assert TableOk(s, pd, x);
    }
    forall v | v in r.spaces[pd].ptes ensures PageOk(r, pd, v) {
      assert PageOk(s, pd, v);
    }
    forall g | g in r.own && g != f ensures FrameOk(r, g) {
      assert FrameOk(s, g);
    }
    OtherFrames(s, r, pd, f);
  }

  lemma {:induction false} RemoveTableKeeps(s: Sys, pd: int, pdx: int)
    requires Inv(s) && pd in s.spaces && pdx in s.spaces[pd].tables
    requires forall vpn :: vpn in s.spaces[pd].ptes ==> vpn / NPTENTRIES != pdx
    ensures Inv(RemoveTable(s, pd, pdx)) && Owns(s, s.spaces[pd].tables[pdx], TableOf(pd, pdx))
  {
    var r, f := RemoveTable(s, pd, pdx), s.spaces[pd].tables[pdx];
    assert SpaceOk(s, pd) && TableOk(s, pd, pdx);
    forall x | x in r.spaces[pd].tables ensures TableOk(r, pd, x) {
      assert TableOk(s, pd, x);
    }
    forall v | v in r.spaces[pd].ptes ensures PageOk(r, pd, v) {
      assert PageOk(s, pd, v);
    }
    forall g | g in r.own && g != f ensures FrameOk(r, g) {
      assert FrameOk(s, g);
    }
    OtherFrames(s, r, pd, f);
  }

  lemma {:induction false} RemoveSpaceKeeps(s: Sys, pd: int)
    requires Inv(s) && pd in s.spaces && s.spaces[pd] == Space(map[], map[])
    ensures Inv(RemoveSpace(s, pd)) && Owns(s, pd, Dir)
  {
    var r := RemoveSpace(s, pd);
    assert SpaceOk(s, pd);
    forall i | 0 <= i < |r.free| ensures Owns(r, r.free[i], FreeAt(i)) {
      assert Owns(s, s.free[i], FreeAt(i));
    }
    forall q | q in r.spaces ensures SpaceOk(r, q) {
      SpaceStays(s, r, q, pd);
    }
    forall g | g in r.own ensures FrameOk(r, g) {
      assert FrameOk(s, g);
    }
  }

  lemma {:induction false} SetFlagsKeeps(s: Sys, pd: int, vpn: int, p: bool, e: bool)
    requires Inv(s) && pd in s.spaces && vpn in s.spaces[pd].ptes && p != e && (e ==> s.spaces[pd].ptes[vpn].u)
    ensures Inv(SetFlags(s, pd, vpn, p, e))
  {
    var r, f := SetFlags(s, pd, vpn, p, e), s.spaces[pd].ptes[vpn].frame;
    assert SpaceOk(s, pd) && PageOk(s, pd, vpn);
    forall x | x in r.spaces[pd].tables ensures TableOk(r, pd, x) {
      assert TableOk(s, pd, x);
    }
    forall v | v in r.spaces[pd].ptes ensures PageOk(r, pd, v) {
      assert PageOk(s, pd, v);
    }
    forall g | g in r.own ensures FrameOk(r, g) {
      assert FrameOk(s, g);
    }
    assert r.own == s.own[f := r.own[f]];
    assert r.held == s.held - {f};
    OtherFrames(s, r, pd, f);
  }

  /** Frame f is the directory pd, one of its tables or one of its pages. */
  ghost predicate BelongsTo(s: Sys, f: int, pd: int) {
    && f in s.own
    && ((s.own[f].Dir? && f == pd) || (s.own[f].TableOf? && s.own[f].pd == pd) || (s.own[f].UserOf? && s.own[f].pd == pd))
  }

  lemma {:induction false} StillOwned(s: Sys, r: Sys, pd: int, f: int)
    requires Inv(s) && Inv(r) && r.spaces == s.spaces - {pd} && r.held == s.held && f in r.own && !r.own[f].FreeAt?
    ensures !BelongsTo(s, f, pd)
  {
    assert FrameOk(r, f);
    match r.own[f]
    case TableOf(q, x) => assert SpaceOk(s, q) && TableOk(s, q, x);
    case UserOf(q, v) => assert SpaceOk(s, q) && PageOk(s, q, v);
    case Dir => assert SpaceOk(s, f);
    case Held => assert f in s.held;
  }

  /** When an address space is gone and nothing is in hand that was not before, each of its frames
      is on the free list, in one place. */
  lemma {:induction false} AllReturned(s: Sys, r: Sys, pd: int, f: int) returns (i: int)
    requires Inv(s) && Inv(r) && r.spaces == s.spaces - {pd} && r.held == s.held && r.own.Keys == s.own.Keys
    requires BelongsTo(s, f, pd)
    ensures 0 <= i < |r.free| && r.free[i] == f && forall j :: 0 <= j < |r.free| && r.free[j] == f ==> j == i
  {
    assert f in r.own.Keys;
    if !r.own[f].FreeAt? {
      StillOwned(s, r, pd, f);
    }
    assert FrameOk(r, f);
    i := r.own[f].i;
    forall j | 0 <= j < |r.free| && r.free[j] == f ensures j == i {
      assert Owns(r, r.free[j], FreeAt(j));
    }
  }
}
