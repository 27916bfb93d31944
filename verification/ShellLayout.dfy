/** How command lines spell tokens (gettoken of sh.c): white space, words and symbols. */
module ShellLayout {
  // A line is its tokens with gaps before, between and after them.  A gap may be empty except where
  // two tokens would run together.  Scanning any such line gives its tokens, and every line is one.

  import opened ShellTokens

  const WHITE := " \t\r\n\U{000B}"
  const SYMBOLS := "<|>&;()"

  function Spelling(l: Lex): string { if l.kind == 'a' then l.w else if l.kind == '+' then ">>" else [l.kind] }

  /** A word has no white space and no symbol in it. */
  ghost predicate LegalWord(w: string) { w != "" && forall i :: 0 <= i < |w| ==> w[i] !in WHITE && w[i] !in SYMBOLS }

  ghost predicate LegalLex(l: Lex) {
    if l.kind == 'a' then LegalWord(l.w) else l.w == "" && (l.kind == '+' || l.kind in SYMBOLS)
  }

  ghost predicate Legal(toks: seq<Lex>) { forall i :: 0 <= i < |toks| ==> LegalLex(toks[i]) }

  ghost predicate Blank(g: string) { forall i :: 0 <= i < |g| ==> g[i] in WHITE }

  /** Written without a gap, a and b would be read as something else. */
  predicate RunTogether(a: Lex, b: Lex) {
    (a.kind == 'a' && b.kind == 'a') || (a.kind == '>' && (b.kind == '>' || b.kind == '+'))
  }

  ghost predicate Gaps(gaps: seq<string>, toks: seq<Lex>) {
    && |gaps| == |toks| + 1 && (forall i :: 0 <= i < |gaps| ==> Blank(gaps[i]))
    && forall i {:trigger gaps[i]} :: 0 < i < |toks| && RunTogether(toks[i - 1], toks[i]) ==> gaps[i] != ""
  }

  function Layout(gaps: seq<string>, toks: seq<Lex>): string
    requires |gaps| == |toks| + 1
  {
    if toks == [] then gaps[0] else gaps[0] + Spelling(toks[0]) + Layout(gaps[1..], toks[1..])
  }

  lemma {:induction false} Classes(c: char)
    ensures IsSpace(c) <==> c in WHITE
    ensures IsSymbol(c) <==> c in SYMBOLS
    ensures IsWordChar(c) <==> c !in WHITE && c !in SYMBOLS
  {
    assert c in WHITE <==> exists i :: 0 <= i < |WHITE| && WHITE[i] == c;
    assert WHITE[0] == ' ' && WHITE[1] == '\t' && WHITE[2] == '\r' && WHITE[3] == '\n' && WHITE[4] == '\U{000B}';
    assert SYMBOLS[0] == '<' && SYMBOLS[1] == '|' && SYMBOLS[2] == '>' && SYMBOLS[3] == '&' && SYMBOLS[4] == ';'
           && SYMBOLS[5] == '(' && SYMBOLS[6] == ')';
  }

  // ---- scanning a layout ----------------------------------------------------------------

  lemma {:induction false} SkipBlank(s: string, p: nat, q: nat)
    requires p <= q <= |s| && (forall i :: p <= i < q ==> IsSpace(s[i])) && (q < |s| ==> !IsSpace(s[q]))
    ensures Skip(s, p) == q
    decreases q - p
  {
    if p < q { SkipBlank(s, p + 1, q); }
  }

  lemma {:induction false} WordStops(s: string, p: nat, e: nat)
    requires p <= e <= |s| && (e < |s| ==> !IsWordChar(s[e])) && forall i :: p <= i < e ==> IsWordChar(s[i])
    ensures WordEnd(s, p) == e
    decreases e - p
  {
    if p < e { WordStops(s, p + 1, e); }
  }

  /** The token spelled from q to e. */
  lemma {:induction false} TokenFrom(s: string, p: nat, q: nat, e: nat, l: Lex)
    requires p <= q < e <= |s| && Skip(s, p) == q && LegalLex(l) && s[q..e] == Spelling(l)
    requires l.kind == 'a' && e < |s| ==> !IsWordChar(s[e])
    requires l.kind == '>' && e < |s| ==> s[e] != '>'
    ensures TokenAt(s, p) == Token(l.kind, Span(q, e), Skip(s, e)) && LexOf(s, TokenAt(s, p)) == l
  {
    forall i | q <= i < e ensures s[i] == Spelling(l)[i - q] {
      assert s[i] == s[q..e][i - q];
    }
    Classes(s[q]);
    if l.kind == 'a' {
      forall i | q <= i < e ensures IsWordChar(s[i]) {
        Classes(s[i]);
        assert s[i] == l.w[i - q];
      }
      WordStops(s, q, e);
      assert s[q] == l.w[0];
    } else {
      assert l.kind == '+' ==> s[q + 1] == '>';
    }
  }

  lemma {:induction false} SpellingStart(l: Lex)
    requires LegalLex(l)
    ensures Spelling(l) != "" && !IsSpace(Spelling(l)[0])
    ensures l.kind != 'a' ==> !IsWordChar(Spelling(l)[0])
    ensures l.kind == 'a' ==> IsWordChar(Spelling(l)[0])
    ensures Spelling(l)[0] == '>' <==> l.kind == '>' || l.kind == '+'
  {
    Classes(Spelling(l)[0]);
    if l.kind == 'a' { assert Spelling(l)[0] == l.w[0]; Classes('>'); }
  }

  /** The first character of a layout: blank, or the start of its first token. */
  lemma {:induction false} LayoutStart(gaps: seq<string>, toks: seq<Lex>)
    requires |gaps| == |toks| + 1 && (forall i :: 0 <= i < |gaps| ==> Blank(gaps[i])) && Legal(toks)
    ensures gaps[0] != "" ==> Layout(gaps, toks) != "" && IsSpace(Layout(gaps, toks)[0])
    ensures gaps[0] == "" && toks == [] ==> Layout(gaps, toks) == ""
    ensures gaps[0] == "" && toks != [] ==> Layout(gaps, toks) != "" && Layout(gaps, toks)[0] == Spelling(toks[0])[0]
  {
    if gaps[0] != "" {
      Classes(gaps[0][0]);
      assert Layout(gaps, toks)[0] == gaps[0][0];
    } else if toks != [] {
      SpellingStart(toks[0]);
    }
  }

  /** Where the first token of a layout at p starts and ends, and the layout of the rest. */
  lemma {:induction false} SplitLayout(s: string, p: nat, gaps: seq<string>, toks: seq<Lex>) returns (q: nat, e: nat)
    requires p <= |s| && |gaps| == |toks| + 1 && toks != [] && s[p..] == Layout(gaps, toks)
    ensures q == p + |gaps[0]| <= e == q + |Spelling(toks[0])| <= |s|
    ensures s[p..q] == gaps[0] && s[q..e] == Spelling(toks[0]) && s[e..] == Layout(gaps[1..], toks[1..])
  {
    q := p + |gaps[0]|;
    e := q + |Spelling(toks[0])|;
    var g, t, r := gaps[0], Spelling(toks[0]), Layout(gaps[1..], toks[1..]);
    assert s[p..] == g + t + r;
    assert s[p..q] == s[p..][..|g|] == g;
    assert s[q..e] == s[p..][|g|..|g| + |t|] == t;
    assert s[e..] == s[p..][|g| + |t|..] == r;
  }

  lemma {:induction false} GapsTail(gaps: seq<string>, toks: seq<Lex>)
    requires Gaps(gaps, toks) && Legal(toks) && toks != []
    ensures Gaps(gaps[1..], toks[1..]) && Legal(toks[1..])
  {
    forall i | 0 < i < |toks[1..]| && RunTogether(toks[1..][i - 1], toks[1..][i]) ensures gaps[1..][i] != "" {
      assert gaps[1..][i] == gaps[i + 1];
    }
  }

  /** The token at the front of a layout ends where it should. */
  lemma {:induction false} FirstToken(s: string, p: nat, gaps: seq<string>, toks: seq<Lex>, q: nat, e: nat)
    requires p <= q < e <= |s| && Gaps(gaps, toks) && Legal(toks) && toks != []
    requires s[p..q] == gaps[0] && s[q..e] == Spelling(toks[0]) && s[e..] == Layout(gaps[1..], toks[1..])
    ensures TokenAt(s, p) == Token(toks[0].kind, Span(q, e), Skip(s, e)) && LexOf(s, TokenAt(s, p)) == toks[0]
  {
    SpellingStart(toks[0]);
    assert s[q] == s[q..e][0];
    forall i | p <= i < q ensures IsSpace(s[i]) {
      assert s[i] == s[p..q][i - p];
      Classes(s[i]);
    }
    SkipBlank(s, p, q);
    GapsTail(gaps, toks);
    LayoutStart(gaps[1..], toks[1..]);
    if e < |s| {
      assert s[e] == s[e..][0];
      if gaps[1] == "" {
        SpellingStart(toks[1]);
        assert gaps[1] == gaps[1..][0];
      }
    }
    TokenFrom(s, p, q, e, toks[0]);
  }

  /** Scanning a layout gives its tokens. */
  lemma {:induction false} ScanLayout(s: string, p: nat, gaps: seq<string>, toks: seq<Lex>)
    requires p <= |s| && Gaps(gaps, toks) && Legal(toks) && s[p..] == Layout(gaps, toks)
    ensures Scan(s, p) == toks
    decreases |toks|
  {
    if toks == [] {
      forall i | p <= i < |s| ensures IsSpace(s[i]) {
        assert s[i] == s[p..][i - p];
        Classes(s[i]);
      }
      SkipBlank(s, p, |s|);
    } else {
      var q, e := SplitLayout(s, p, gaps, toks);
      SpellingStart(toks[0]);
      FirstToken(s, p, gaps, toks, q, e);
      GapsTail(gaps, toks);
      ScanLayout(s, e, gaps[1..], toks[1..]);
      ScanSkip(s, e);
      assert Scan(s, p) == [toks[0]] + toks[1..];
    }
  }

  // ---- every line is a layout -----------------------------------------------------------

  lemma {:induction false} SkippedBlank(s: string, p: nat)
    requires p <= |s|
    ensures forall i :: p <= i < Skip(s, p) ==> IsSpace(s[i])
    decreases |s| - p
  {
    if p < |s| && IsSpace(s[p]) { SkippedBlank(s, p + 1); }
  }

  /** The token found at p, as it is spelled there. */
  lemma {:induction false} TokenSpelled(s: string, p: nat)
    requires p <= |s| && TokenAt(s, p).kind != '\0'
    ensures var t := TokenAt(s, p);
            && t.span.q == Skip(s, p) && t.next == Skip(s, t.span.eq) && t.span.q < t.span.eq
            && LegalLex(LexOf(s, t)) && s[t.span.q..t.span.eq] == Spelling(LexOf(s, t))
            && (t.kind == 'a' && t.span.eq < |s| ==> !IsWordChar(s[t.span.eq]))
            && (t.kind == '>' && t.span.eq < |s| ==> s[t.span.eq] != '>')
  {
    var t := TokenAt(s, p);
    var q := t.span.q;
    Classes(s[q]);
    if t.kind == 'a' {
      TokenIsWord(s, p);
      forall i | 0 <= i < |Sub(s, t.span)| ensures Sub(s, t.span)[i] !in WHITE && Sub(s, t.span)[i] !in SYMBOLS {
        assert Sub(s, t.span)[i] == s[q + i];
        Classes(s[q + i]);
      }
    }
  }

  /** The character at which a token starts tells words from symbols, and `>` from the others. */
  lemma {:induction false} StartsLike(s: string, p: nat)
    requires p < |s| && !IsSpace(s[p])
    ensures var k := TokenAt(s, p).kind;
            k != '\0' && (k == 'a' <==> IsWordChar(s[p])) && (k == '>' || k == '+' <==> s[p] == '>')
  {
    assert Skip(s, p) == p;
  }

  lemma {:induction false} JoinLayout(s: string, p: nat, q: nat, e: nat, l: Lex, gaps: seq<string>, toks: seq<Lex>)
    requires p <= q <= e <= |s| && |gaps| == |toks| + 1 && s[q..e] == Spelling(l) && s[e..] == Layout(gaps, toks)
    ensures s[p..] == Layout([s[p..q]] + gaps, [l] + toks)
  {
    assert ([s[p..q]] + gaps)[1..] == gaps && ([l] + toks)[1..] == toks;
    assert s[p..] == s[p..q] + s[q..e] + s[e..];
  }

  lemma {:induction false} JoinGaps(g: string, l: Lex, gaps: seq<string>, toks: seq<Lex>)
    requires Blank(g) && Gaps(gaps, toks) && LegalLex(l) && Legal(toks)
    requires toks != [] && RunTogether(l, toks[0]) ==> gaps[0] != ""
    ensures Gaps([g] + gaps, [l] + toks) && Legal([l] + toks)
  {
    var gaps', toks' := [g] + gaps, [l] + toks;
    forall i | 0 < i < |toks'| && RunTogether(toks'[i - 1], toks'[i]) ensures gaps'[i] != "" {
      assert gaps'[i] == gaps[i - 1];
      if i > 1 { assert RunTogether(toks[i - 2], toks[i - 1]); }
    }
  }

  /** Every line, from any position, is a layout of the tokens scanned. */
  lemma {:induction false} LayoutOf(s: string, p: nat) returns (gaps: seq<string>)
    requires p <= |s|
    ensures Gaps(gaps, Scan(s, p)) && Legal(Scan(s, p)) && s[p..] == Layout(gaps, Scan(s, p))
    ensures gaps[0] == "" <==> Skip(s, p) == p
    decreases |s| - p
  {
    SkippedBlank(s, p);
    var t := TokenAt(s, p);
    var g := s[p..Skip(s, p)];
    forall i | 0 <= i < |g| ensures g[i] in WHITE {
      assert g[i] == s[p + i];
      Classes(g[i]);
    }
    if t.kind == '\0' {
      gaps := [g];
      assert s[p..] == g;
    } else {
      TokenSpelled(s, p);
      var l, e := LexOf(s, t), t.span.eq;
      var more := LayoutOf(s, e);
      ScanSkip(s, e);
      var toks := Scan(s, e);
      if toks != [] && more[0] == "" {
        StartsLike(s, e);
        assert toks[0] == LexOf(s, TokenAt(s, e));
      }
      gaps := [g] + more;
      JoinLayout(s, p, t.span.q, e, l, more, toks);
      JoinGaps(g, l, more, toks);
      assert Scan(s, p) == [l] + toks;
    }
  }
}
