/** Encrypted pages (vm.c), as values.  An encrypted page holds its bytes XOR 0xFF and has PTE_E set
and PTE_P clear; the view of a page is what its owner put there. */
module Encryption {
  import opened Options
  import opened PageFrames

  function Xor(page: Page): (r: Page)
    ensures |r| == |page|
  {
    seq(|page|, i requires 0 <= i < |page| => page[i] ^ 0xFF)
  }

  lemma {:induction false} XorBytes(b: bv8)
    ensures (b ^ 0xFF) ^ 0xFF == b && b ^ 0xFF != b && (b ^ 0xFF == 0 <==> b == 0xFF)
  {
  }

  lemma {:induction false} XorTwice(page: Page)
    ensures Xor(Xor(page)) == page
  {
    forall i | 0 <= i < |page| ensures Xor(Xor(page))[i] == page[i] {
      XorBytes(page[i]);
    }
  }

  lemma {:induction false} XorDiffers(page: Page)
    requires |page| > 0
    ensures Xor(page) != page && (Xor(page)[0] == 0 <==> page[0] == 0xFF)
  {
    XorBytes(page[0]);
    assert Xor(page)[0] == page[0] ^ 0xFF;
  }

  /** The plaintext of a page. */
  function View(mem: map<int, Page>, pte: Pte): Page
    requires pte.frame in mem
  {
    if pte.e then Xor(mem[pte.frame]) else mem[pte.frame]
  }

  ghost predicate Loaded(s: Sys, mem: map<int, Page>) {
    forall f {:trigger s.own[f]} :: f in s.own ==> f in mem && |mem[f]| == PGSIZE
  }

  ghost predicate SameView(s: Sys, mem: map<int, Page>, s': Sys, mem': map<int, Page>, pd: int, v: int)
    requires pd in s.spaces && v in s.spaces[pd].ptes
  {
    && pd in s'.spaces && v in s'.spaces[pd].ptes
    && s.spaces[pd].ptes[v].frame in mem && s'.spaces[pd].ptes[v].frame in mem'
    && View(mem', s'.spaces[pd].ptes[v]) == View(mem, s.spaces[pd].ptes[v])
  }

  /** No process sees a change in any page. */
  ghost predicate SameViews(s: Sys, mem: map<int, Page>, s': Sys, mem': map<int, Page>) {
    forall pd, v {:trigger SameView(s, mem, s', mem', pd, v)} ::
      pd in s.spaces && v in s.spaces[pd].ptes ==> SameView(s, mem, s', mem', pd, v)
  }

  lemma {:induction false} ViewsTwice(s: Sys, mem: map<int, Page>, s1: Sys, mem1: map<int, Page>, s2: Sys,
                                      mem2: map<int, Page>)
    requires SameViews(s, mem, s1, mem1) && SameViews(s1, mem1, s2, mem2)
    ensures SameViews(s, mem, s2, mem2)
  {
    forall pd, v | pd in s.spaces && v in s.spaces[pd].ptes ensures SameView(s, mem, s2, mem2, pd, v) {
      assert SameView(s, mem, s1, mem1, pd, v);
      assert SameView(s1, mem1, s2, mem2, pd, v);
    }
  }

  /** The page at (pd, v) keeps its frame to itself. */
  lemma {:induction false} OwnFrame(s: Sys, pd: int, v: int, q: int, u: int)
    requires Inv(s) && pd in s.spaces && v in s.spaces[pd].ptes && q in s.spaces && u in s.spaces[q].ptes
    ensures s.spaces[pd].ptes[v].frame == s.spaces[q].ptes[u].frame ==> pd == q && v == u
    ensures s.spaces[pd].ptes[v].frame in s.own
  {
    assert SpaceOk(s, pd) && SpaceOk(s, q);
    assert PageOk(s, pd, v) && PageOk(s, q, u);
  }

  /** Changing page v's flags and perhaps flipping its bytes preserves every view exactly when the
      bytes are flipped if and only if PTE_E changes. */
  lemma {:induction false} RecodedViews(s: Sys, mem: map<int, Page>, pd: int, v: int, p: bool, e: bool, flip: bool,
                                        mem': map<int, Page>)
    requires Inv(s) && Loaded(s, mem) && pd in s.spaces && v in s.spaces[pd].ptes
    requires s.spaces[pd].ptes[v].frame in mem
    requires mem' == if flip then mem[s.spaces[pd].ptes[v].frame := Xor(mem[s.spaces[pd].ptes[v].frame])] else mem
    ensures SameViews(s, mem, SetFlags(s, pd, v, p, e), mem') <==> (flip <==> e != s.spaces[pd].ptes[v].e)
  {
    var pte, s' := s.spaces[pd].ptes[v], SetFlags(s, pd, v, p, e);
    var page := mem[pte.frame];
    OwnFrame(s, pd, v, pd, v);
    assert |page| == PGSIZE by { assert s.own[pte.frame] == s.own[pte.frame]; }
    XorTwice(page);
    XorDiffers(page);
    XorDiffers(Xor(page));
    assert SameView(s, mem, s', mem', pd, v) <==> (flip <==> e != pte.e);
    forall q, u | q in s.spaces && u in s.spaces[q].ptes && (q != pd || u != v) ensures SameView(s, mem, s', mem', q, u) {
      OwnFrame(s, pd, v, q, u);
      OwnFrame(s, q, u, q, u);
      assert s.own[s.spaces[q].ptes[u].frame] == s.own[s.spaces[q].ptes[u].frame];
    }
  }

  // ---- uva2ka and the check loop of mencrypt --------------------------------------------

  /** What the code sees of the word at user address 0 when it takes it for a page-table entry:
      whether uva2ka accepts it, and whether PTE_E is set. */
  datatype NullWord = NullWord(accepted: bool, e: bool)

  function WordAsEntry(page: Page): NullWord
    requires |page| >= 4
  {
    var e, nil := page[1] & 0x04 != 0, page[1] & 0xF0 == 0 && page[2] == 0 && page[3] == 0x80;
    NullWord((page[0] & 0x01 != 0 || e) && page[0] & 0x04 != 0 && !nil, e)
  }

  /** The word at address 0, if page 0 is present. */
  function Word0(sp: Space, mem: map<int, Page>): Option<NullWord> {
    if 0 in sp.ptes && sp.ptes[0].p && sp.ptes[0].frame in mem && |mem[sp.ptes[0].frame]| >= 4
    then Some(WordAsEntry(mem[sp.ptes[0].frame]))
    else None
  }

  predicate HasTable(sp: Space, vpn: nat) { vpn / NPTENTRIES in sp.tables }

  /** uva2ka: without a page table it reads the entry through a null pointer, which traps or
      accepts the word it finds; otherwise there is no user page, or its frame. */
  datatype Lookup = Traps | NotUser | ThroughNull | Kva(frame: int)

  predicate UserPage(sp: Space, vpn: nat) { vpn < USER_PAGES && vpn in sp.ptes && sp.ptes[vpn].u }

  /** Kernel pages have tables but never PTE_U. */
  function Uva2ka(sp: Space, word: Option<NullWord>, vpn: nat): Lookup {
    if !HasTable(sp, vpn) then
      if word.None? then Traps else if word.value.accepted then ThroughNull else NotUser
    else if vpn >= USER_PAGES || vpn !in sp.ptes || !sp.ptes[vpn].u then NotUser
    else Kva(sp.ptes[vpn].frame)
  }

  /** Fault: the kernel traps in the middle of the call. */
  datatype Outcome = Success | Failure | Fault

  /** The outcome of looking up n pages from vpn on, in order. */
  function Check(sp: Space, word: Option<NullWord>, vpn: nat, n: nat): Outcome
    decreases n
  {
    if n == 0 then Success
    else match Uva2ka(sp, word, vpn)
      case Traps => Fault
      case NotUser => Failure
      case _ => Check(sp, word, vpn + 1, n - 1)
  }

  lemma {:induction false} CheckedPages(sp: Space, word: Option<NullWord>, vpn: nat, n: nat, u: nat)
    requires Check(sp, word, vpn, n).Success? && vpn <= u < vpn + n
    ensures if HasTable(sp, u) then Uva2ka(sp, word, u).Kva? && u in sp.ptes else word.Some? && word.value.accepted
    decreases n
  {
    if vpn < u {
      CheckedPages(sp, word, vpn + 1, n - 1, u);
    }
  }

  /** Every page of the range has a page table. */
  ghost predicate Tabled(sp: Space, vpn: nat, n: nat) {
    forall u {:trigger HasTable(sp, u)} :: vpn <= u < vpn + n ==> HasTable(sp, u)
  }

  /** With tables everywhere the outcome does not depend on the word at address 0. */
  lemma {:induction false} TabledCheck(sp: Space, word: Option<NullWord>, vpn: nat, n: nat)
    requires Tabled(sp, vpn, n)
    ensures !Check(sp, word, vpn, n).Fault?
    ensures Check(sp, word, vpn, n).Success? <==>
              forall u {:trigger UserPage(sp, u)} :: vpn <= u < vpn + n ==> UserPage(sp, u)
    decreases n
  {
    if n > 0 {
      assert HasTable(sp, vpn);
      assert UserPage(sp, vpn) <==> !Uva2ka(sp, word, vpn).NotUser?;
      TabledCheck(sp, word, vpn + 1, n - 1);
    }
  }

  /** The promise of mencrypt: it succeeds and every page of the range is encrypted, or it fails. */
  ghost predicate AllOrFailure(sp: Space, after: map<int, Pte>, r: Outcome, vpn: nat, n: nat) {
    || r.Failure?
    || (r.Success? && Sealed(sp.ptes, after, vpn, vpn + n) && forall u :: vpn <= u < vpn + n ==> u in sp.ptes)
  }

  /** A process of exactly 4MB whose first word is 0x405: the range of its last page and the one
      after it passes the check, though the second has no page table. */
  lemma {:induction false} PassesWithoutTable(sp: Space, mem: map<int, Page>)
    requires sp.tables.Keys == {0} && {0, 1023} <= sp.ptes.Keys && sp.ptes[0].p && sp.ptes[1023].u
    requires sp.ptes[0].frame in mem && |mem[sp.ptes[0].frame]| == PGSIZE
    requires mem[sp.ptes[0].frame][..4] == [0x05, 0x04, 0x00, 0x00]
    ensures Check(sp, Word0(sp, mem), 1023, 2) == Success && Word0(sp, mem) == Some(NullWord(true, true))
    ensures !HasTable(sp, 1024) && HasTable(sp, 1023)
  {
    var page := mem[sp.ptes[0].frame];
    assert page[0] == page[..4][0] && page[1] == page[..4][1];
    assert Check(sp, Word0(sp, mem), 1025, 0) == Success;
    assert Check(sp, Word0(sp, mem), 1024, 1) == Success;
  }

  /** Pages lo .. hi-1 are encrypted; every other entry is as before. */
  ghost predicate Sealed(before: map<int, Pte>, after: map<int, Pte>, lo: int, hi: int) {
    && (forall u {:trigger u in after} :: u in after <==> u in before)
    && (forall u {:trigger after[u]} :: u in after ==>
          after[u] == if lo <= u < hi then before[u].(p := false, e := true) else before[u])
  }
}
