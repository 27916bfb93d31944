/** The shell's scanner (sh.c): gettoken and peek over the command line, a C string without its NUL. */
module ShellTokens {
  /** A stretch of the command line, from q up to eq. */
  datatype Span = Span(q: nat, eq: nat)

  /** gettoken's answer: 0 at the end, 'a' for a word, '+' for `>>`, or the symbol itself. */
  datatype Token = Token(kind: char, span: Span, next: nat)

  predicate IsSpace(c: char) { c == ' ' || c == '\t' || c == '\r' || c == '\n' || c == '\U{000B}' }
  predicate IsSymbol(c: char) { c == '<' || c == '|' || c == '>' || c == '&' || c == ';' || c == '(' || c == ')' }
  predicate IsWordChar(c: char) { !IsSpace(c) && !IsSymbol(c) }

  function Skip(s: string, p: nat): (r: nat)
    requires p <= |s|
    ensures p <= r <= |s| && (r < |s| ==> !IsSpace(s[r]))
    decreases |s| - p
  {
    if p < |s| && IsSpace(s[p]) then Skip(s, p + 1) else p
  }

  function WordEnd(s: string, p: nat): (r: nat)
    requires p <= |s|
    ensures p <= r <= |s| && (r < |s| ==> !IsWordChar(s[r]))
    decreases |s| - p
  {
    if p < |s| && IsWordChar(s[p]) then WordEnd(s, p + 1) else p
  }

  function TokenAt(s: string, p: nat): (t: Token)
    requires p <= |s|
    ensures p <= t.span.q <= t.span.eq <= t.next <= |s|
    ensures t.kind == '\0' <==> Skip(s, p) == |s|
    ensures t.kind != '\0' ==> p < t.next
  {
    var q := Skip(s, p);
    if q == |s| then Token('\0', Span(q, q), q)
    else if s[q] == '>' then
      if q + 1 < |s| && s[q + 1] == '>' then Token('+', Span(q, q + 2), Skip(s, q + 2))
      else Token('>', Span(q, q + 1), Skip(s, q + 1))
    else if IsSymbol(s[q]) then Token(s[q], Span(q, q + 1), Skip(s, q + 1))
    else
      var e := WordEnd(s, q);
      Token('a', Span(q, e), Skip(s, e))
  }

  /** A word: word characters, up to the end of the line or a character that is none. */
  ghost predicate IsWord(s: string, w: Span) {
    && w.q < w.eq <= |s|
    && (forall i :: w.q <= i < w.eq ==> IsWordChar(s[i]))
    && (w.eq < |s| ==> !IsWordChar(s[w.eq]))
  }

  lemma {:induction false} WordChars(s: string, p: nat)
    requires p <= |s|
    ensures forall i :: p <= i < WordEnd(s, p) ==> IsWordChar(s[i])
    decreases |s| - p
  {
    if p < |s| && IsWordChar(s[p]) {
      WordChars(s, p + 1);
    }
  }

  /** A word token is a word of the line. */
  lemma {:induction false} TokenIsWord(s: string, p: nat)
    requires p <= |s| && TokenAt(s, p).kind == 'a'
    ensures IsWord(s, TokenAt(s, p).span)
  {
    var q := Skip(s, p);
    WordChars(s, q);
  }

  /** peek: is the next character one of toks?  The cursor moves to it. */
  predicate Peeks(s: string, p: nat, toks: set<char>)
    requires p <= |s|
  {
    var q := Skip(s, p);
    q < |s| && s[q] in toks
  }

  /** Scanning loops over the cursor. */
  method SkipSpace(s: string, p: nat) returns (r: nat)
    requires p <= |s|
    ensures r == Skip(s, p)
  {
    r := p;
    while r < |s| && IsSpace(s[r])
      invariant p <= r <= |s| && Skip(s, p) == Skip(s, r)
    {
      r := r + 1;
    }
  }

  /** The end of the token that starts at q, and its kind. */
  method ScanToken(s: string, q: nat) returns (kind: char, e: nat)
    requires q < |s| && !IsSpace(s[q])
    ensures q < e <= |s| && TokenAt(s, q) == Token(kind, Span(q, e), Skip(s, e))
  {
    kind, e := s[q], q + 1;
    if s[q] == '>' {
      if e < |s| && s[e] == '>' {
        kind, e := '+', q + 2;
      }
    } else if !IsSymbol(s[q]) {
      kind, e := 'a', q;
      while e < |s| && IsWordChar(s[e])
        invariant q <= e <= |s| && WordEnd(s, q) == WordEnd(s, e)
      {
        e := e + 1;
      }
    }
  }

  method GetToken(s: string, p: nat) returns (t: Token)
    requires p <= |s|
    ensures t == TokenAt(s, p)
  {
    var q := SkipSpace(s, p);
    if q == |s| {
      return Token('\0', Span(q, q), q);
    }
    var kind, e := ScanToken(s, q);
    var next := SkipSpace(s, e);
    t := Token(kind, Span(q, e), next);
  }

  // ---- the line as a series of tokens ---------------------------------------------------

  /** A token and, for a word, its text. */
  datatype Lex = Lex(kind: char, w: string)

  function Sub(s: string, w: Span): string { if w.q <= w.eq <= |s| then s[w.q..w.eq] else "" }

  function LexOf(s: string, t: Token): Lex { Lex(t.kind, if t.kind == 'a' then Sub(s, t.span) else "") }

  /** The tokens from p on. */
  function Scan(s: string, p: nat): seq<Lex>
    requires p <= |s|
    decreases |s| - p
  {
    var t := TokenAt(s, p);
    if t.kind == '\0' then [] else [LexOf(s, t)] + Scan(s, t.next)
  }

  /** The next token begins with one of these symbols; `>>` begins with `>`. */
  predicate Starts(toks: seq<Lex>, symbols: set<char>) {
    toks != [] && (if toks[0].kind == '+' then '>' else toks[0].kind) in symbols
  }

  lemma {:induction false} ScanSkip(s: string, p: nat)
    requires p <= |s|
    ensures Skip(s, Skip(s, p)) == Skip(s, p) && Scan(s, Skip(s, p)) == Scan(s, p)
  {
    assert TokenAt(s, Skip(s, p)) == TokenAt(s, p);
  }

  lemma {:induction false} PeekStarts(s: string, p: nat, symbols: set<char>)
    requires p <= |s| && forall c :: c in symbols ==> IsSymbol(c)
    ensures Peeks(s, p, symbols) <==> Starts(Scan(s, p), symbols)
  {
    var q := Skip(s, p);
    assert !IsSymbol('a') && !IsSymbol('+');
  }

  /** peek, as a question about the tokens left. */
  method Peek(s: string, p: nat, symbols: set<char>) returns (r: bool, q: nat)
    requires p <= |s| && forall c :: c in symbols ==> IsSymbol(c)
    ensures r == Starts(Scan(s, p), symbols) && p <= q <= |s| && Scan(s, q) == Scan(s, p)
    ensures q == |s| <==> Scan(s, p) == []
  {
    PeekStarts(s, p, symbols);
    ScanSkip(s, p);
    q := SkipSpace(s, p);
    r := q < |s| && s[q] in symbols;
  }

  /** gettoken takes the first of the tokens left. */
  method NextToken(s: string, p: nat) returns (t: Token)
    requires p <= |s|
    ensures t.kind == '\0' <==> Scan(s, p) == []
    ensures t.kind == '\0' ==> p <= t.next <= |s| && Scan(s, t.next) == []
    ensures t.kind != '\0' ==> p < t.next <= |s| && Scan(s, p)[0] == LexOf(s, t) && Scan(s, p)[1..] == Scan(s, t.next)
    ensures t.kind == 'a' ==> IsWord(s, t.span)
  {
    t := GetToken(s, p);
    if t.kind == '\0' { ScanSkip(s, p); }
    if t.kind == 'a' { TokenIsWord(s, p); }
  }
}
