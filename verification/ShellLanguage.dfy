/** The shell's command language as text: which lines sh.c accepts, and as which commands. */
module ShellLanguage {
  import opened ShellTokens
  import opened ShellParser
  import opened ShellSyntax
  import opened ShellLayout

  /** The line s is a way to write the derivation l, with white space put in at will. */
  ghost predicate Writes(s: string, l: Line) {
    exists gaps :: Gaps(gaps, LineToks(l)) && s == Layout(gaps, LineToks(l))
  }

  /** By the language's rules, the line s stands for the command t. */
  ghost predicate Denotes(s: string, t: Cmd<string>) {
    exists l :: LineFits(l) && Legal(LineToks(l)) && LineTree(l) == t && Writes(s, l)
  }

  lemma {:induction false} LegalClean(toks: seq<Lex>)
    requires Legal(toks)
    ensures Clean(toks)
  {
    forall i | 0 <= i < |toks| ensures LegalLex(toks[i]) && (IsSymbol(toks[i].kind) <==> toks[i].kind in SYMBOLS) {
      Classes(toks[i].kind);
    }
  }

  /** Every way to write a derivation parses to its command: any spacing, and `>` or `>>` for any
      redirection of output. */
  lemma {:induction false} WrittenParses(s: string, l: Line)
    requires LineFits(l) && Legal(LineToks(l)) && Writes(s, l)
    ensures Parse(Scan(s, 0)) == Ok(LineTree(l), [])
  {
    var gaps :| Gaps(gaps, LineToks(l)) && s == Layout(gaps, LineToks(l));
    assert s[0..] == s;
    ScanLayout(s, 0, gaps, LineToks(l));
    ParseComplete(l);
  }

  /** Every line that parses is a way to write a derivation of the command returned. */
  lemma {:induction false} ParsedWritten(s: string) returns (l: Line)
    requires Parse(Scan(s, 0)).Ok?
    ensures LineFits(l) && Legal(LineToks(l)) && Writes(s, l) && Parse(Scan(s, 0)) == Ok(LineTree(l), [])
  {
    var gaps := LayoutOf(s, 0);
    assert s[0..] == s;
    LegalClean(Scan(s, 0));
    l := ParseSound(Scan(s, 0));
  }

  /** The parser accepts exactly the lines of the language, and returns the command they stand for. */
  lemma {:induction false} ParserExact(s: string, t: Cmd<string>)
    ensures Parse(Scan(s, 0)) == Ok(t, []) <==> Denotes(s, t)
  {
    if Parse(Scan(s, 0)) == Ok(t, []) {
      var l := ParsedWritten(s);
    }
    if Denotes(s, t) {
      var l :| LineFits(l) && Legal(LineToks(l)) && LineTree(l) == t && Writes(s, l);
      WrittenParses(s, l);
    }
  }

  // ---- every command can be written -----------------------------------------------------

  /** Fewer than MAXARGS words per simple command, each a word the scanner reads as one. */
  ghost predicate Printable(t: Cmd<string>) {
    match t
    case Exec(ws) => |ws| < MAXARGS && forall i :: 0 <= i < |ws| ==> LegalWord(ws[i])
    case Redir(c, file, _) => Printable(c) && LegalWord(file)
    case Pipe(l, r) => Printable(l) && Printable(r)
    case Back(c) => Printable(c)
    case List(l, r) => Printable(l) && Printable(r)
  }

  /** Binding strength: simple commands and redirections, pipes, background commands, lists. */
  function Level(t: Cmd<string>): nat {
    match t
    case Exec(_) => 0
    case Redir(_, _, _) => 0
    case Pipe(_, _) => 1
    case Back(_) => 2
    case List(_, _) => 3
  }

  ghost predicate NoRedirs(args: seq<Arg>) { forall i :: 0 <= i < |args| ==> args[i].redirs == [] }

  lemma {:induction false} PlainArgs(t: Cmd<string>, args: seq<Arg>)
    requires NoRedirs(args)
    ensures ArgsRedirected(t, args) == t
    decreases |args|
  {
    if args != [] { PlainArgs(t, args[1..]); }
  }

  lemma {:induction false} PlainToks(args: seq<Arg>)
    requires NoRedirs(args) && forall i :: 0 <= i < |args| ==> LegalWord(args[i].word)
    ensures Legal(ArgToks(args))
  {
    if args != [] { PlainToks(args[1..]); }
  }

  lemma {:induction false} OneMore(t: Cmd<string>, rs: seq<Redirect>, r: Redirect)
    ensures Redirected(t, rs + [r]) == Redir(Redirected(t, rs), r.file, !r.dir.In?)
    decreases |rs|
  {
    if rs == [] {
      assert rs + [r] == [r] && [r][1..] == [];
    } else {
      assert (rs + [r])[1..] == rs[1..] + [r];
      OneMore(Redir(t, rs[0].file, !rs[0].dir.In?), rs[1..], r);
    }
  }

  lemma {:induction false} OneMoreToks(rs: seq<Redirect>, r: Redirect)
    ensures RedirToks(rs + [r]) == RedirToks(rs) + [DirTok(r.dir), Word(r.file)]
  {
    if rs == [] {
      assert rs + [r] == [r] && [r][1..] == [];
    } else {
      assert (rs + [r])[1..] == rs[1..] + [r];
      OneMoreToks(rs[1..], r);
    }
  }

  lemma {:induction false} LegalDir(r: Redirect)
    requires LegalWord(r.file)
    ensures Legal([DirTok(r.dir), Word(r.file)])
  {
    assert SYMBOLS[0] == '<' && SYMBOLS[2] == '>';
  }

  /** Add a redirection of the kind chosen to a derivation. */
  lemma {:induction false} Redirecting(e: Exe, r: Redirect) returns (e': Exe)
    requires ExeFits(e) && Legal(ExeToks(e)) && LegalWord(r.file) && (e.Simple? ==> NoRedirs(e.args))
    ensures ExeFits(e') && Legal(ExeToks(e')) && (e'.Simple? ==> NoRedirs(e'.args))
    ensures ExeTree(e') == Redir(ExeTree(e), r.file, !r.dir.In?)
  {
    LegalDir(r);
    if e.Simple? {
      e' := Simple(e.lead + [r], e.args);
      OneMoreToks(e.lead, r);
      LegalParts(RedirToks(e.lead), ArgToks(e.args));
      OneMore(Exec(ArgWords(e.args)), e.lead, r);
      PlainArgs(Redirected(Exec(ArgWords(e.args)), e.lead), e.args);
      PlainArgs(Redirected(Exec(ArgWords(e.args)), e.lead + [r]), e.args);
    } else {
      e' := Block(e.line, e.redirs + [r]);
      OneMoreToks(e.redirs, r);
      var front := [Sym('(')] + LineToks(e.line) + [Sym(')')];
      LegalParts(front, RedirToks(e.redirs));
      assert ExeToks(e') == front + RedirToks(e.redirs) + [DirTok(r.dir), Word(r.file)];
      OneMore(LineTree(e.line), e.redirs, r);
    }
  }

  lemma {:induction false} LegalParts(a: seq<Lex>, b: seq<Lex>)
    requires Legal(a + b)
    ensures Legal(a) && Legal(b)
  {
    forall i | 0 <= i < |a| ensures LegalLex(a[i]) { assert a[i] == (a + b)[i]; }
    forall i | 0 <= i < |b| ensures LegalLex(b[i]) { assert b[i] == (a + b)[|a| + i]; }
  }

  lemma {:induction false} LegalSym(c: char)
    requires c in SYMBOLS
    ensures Legal([Sym(c)])
  {
    assert 'a' !in SYMBOLS;
  }

  lemma {:induction false} LegalAmps(k: nat)
    ensures Legal(Amps(k))
  {
    if k > 0 {
      LegalAmps(k - 1);
      assert SYMBOLS[3] == '&';
    }
  }

  lemma {:induction false} BackedOnce(t: Cmd<string>, k: nat)
    ensures Backed(t, k + 1) == Back(Backed(t, k))
    decreases k
  {
    if k > 0 { BackedOnce(Back(t), k - 1); }
  }

  lemma {:induction false} SimpleFor(ws: seq<string>) returns (e: Exe)
    requires Printable(Exec(ws))
    ensures ExeFits(e) && Legal(ExeToks(e)) && e.Simple? && NoRedirs(e.args) && ExeTree(e) == Exec(ws)
  {
    var args := seq(|ws|, i requires 0 <= i < |ws| => Arg(ws[i], []));
    e := Simple([], args);
    PlainToks(args);
    PlainArgs(Exec(ArgWords(args)), args);
    assert ArgWords(args) == ws;
    assert ExeToks(e) == ArgToks(args);
  }

  lemma {:induction false} BlockFor(l: Line) returns (e: Exe)
    requires LineFits(l) && Legal(LineToks(l))
    ensures ExeFits(e) && Legal(ExeToks(e)) && e.Block? && ExeTree(e) == LineTree(l)
  {
    e := Block(l, []);
    assert SYMBOLS[5] == '(' && SYMBOLS[6] == ')';
    LegalSym('(');
    LegalSym(')');
  }

  lemma {:induction false} ExeFor(t: Cmd<string>) returns (e: Exe)
    requires Printable(t)
    ensures ExeFits(e) && Legal(ExeToks(e)) && ExeTree(e) == t && (e.Simple? ==> NoRedirs(e.args))
    decreases t, if Level(t) > 0 then 4 else 0
  {
    if t.Exec? {
      e := SimpleFor(t.args);
    } else if t.Redir? {
      e := ExeFor(t.cmd);
      e := Redirecting(e, Redirect(if t.out then Out else In, t.file));
    } else {
      var l := LineFor(t);
      e := BlockFor(l);
    }
  }

  lemma {:induction false} PipFor(t: Cmd<string>) returns (p: Pip)
    requires Printable(t)
    ensures PipFits(p) && Legal(PipToks(p)) && PipTree(p) == t
    decreases t, if Level(t) > 1 then 5 else 1
  {
    if t.Pipe? {
      var exe := ExeFor(t.left);
      var more := PipFor(t.right);
      p := Piped(exe, more);
      assert SYMBOLS[1] == '|';
      LegalSym('|');
    } else {
      var exe := ExeFor(t);
      p := One(exe);
    }
  }

  lemma {:induction false} BackFor(t: Cmd<string>) returns (p: Pip, amps: nat)
    requires Printable(t)
    ensures PipFits(p) && Legal(PipToks(p)) && Backed(PipTree(p), amps) == t
    decreases t, if Level(t) > 2 then 6 else 2
  {
    if t.Back? {
      p, amps := BackFor(t.cmd);
      BackedOnce(PipTree(p), amps);
      amps := amps + 1;
    } else {
      p := PipFor(t);
      amps := 0;
    }
  }

  lemma {:induction false} LineFor(t: Cmd<string>) returns (l: Line)
    requires Printable(t)
    ensures LineFits(l) && Legal(LineToks(l)) && LineTree(l) == t
    decreases t, 3
  {
    if t.List? {
      var pip, amps := BackFor(t.left);
      var more := LineFor(t.right);
      l := Then(pip, amps, more);
      LegalAmps(amps);
      assert SYMBOLS[4] == ';';
      LegalSym(';');
    } else {
      var pip, amps := BackFor(t);
      l := Last(pip, amps);
      LegalAmps(amps);
    }
  }

  /** A space before every token and after the last. */
  lemma {:induction false} SpacedGaps(toks: seq<Lex>) returns (gaps: seq<string>)
    ensures Gaps(gaps, toks)
  {
    gaps := seq(|toks| + 1, _ => " ");
    assert WHITE[0] == ' ';
  }

  // ---- and nothing but such commands ----------------------------------------------------

  lemma {:induction false} RedirectedPrintable(t: Cmd<string>, rs: seq<Redirect>)
    requires Printable(t) && Legal(RedirToks(rs))
    ensures Printable(Redirected(t, rs))
    decreases |rs|
  {
    if rs != [] {
      var toks := RedirToks(rs);
      assert toks[1] == Word(rs[0].file) && LegalLex(toks[1]);
      assert toks == [toks[0], toks[1]] + RedirToks(rs[1..]);
      LegalParts([toks[0], toks[1]], RedirToks(rs[1..]));
      RedirectedPrintable(Redir(t, rs[0].file, !rs[0].dir.In?), rs[1..]);
    }
  }

  lemma {:induction false} ArgsPrintable(t: Cmd<string>, args: seq<Arg>)
    requires Printable(t) && Legal(ArgToks(args))
    ensures Printable(ArgsRedirected(t, args)) && forall i :: 0 <= i < |args| ==> LegalWord(args[i].word)
    decreases |args|
  {
    if args != [] {
      var head, redirs, more := [Word(args[0].word)], RedirToks(args[0].redirs), ArgToks(args[1..]);
      LegalParts(head + redirs, more);
      LegalParts(head, redirs);
      assert LegalLex(head[0]);
      RedirectedPrintable(t, args[0].redirs);
      ArgsPrintable(Redirected(t, args[0].redirs), args[1..]);
      forall i | 0 <= i < |args| ensures LegalWord(args[i].word) {
        if i > 0 { assert args[i] == args[1..][i - 1]; }
      }
    }
  }

  lemma {:induction false} ExePrintable(e: Exe)
    requires ExeFits(e) && Legal(ExeToks(e))
    ensures Printable(ExeTree(e))
  {
    match e
    case Simple(lead, args) =>
      LegalParts(RedirToks(lead), ArgToks(args));
      ArgsPrintable(Exec([]), args);
      RedirectedPrintable(Exec(ArgWords(args)), lead);
      ArgsPrintable(Redirected(Exec(ArgWords(args)), lead), args);
    case Block(line, redirs) =>
      LegalParts([Sym('(')] + LineToks(line) + [Sym(')')], RedirToks(redirs));
      LegalParts([Sym('(')] + LineToks(line), [Sym(')')]);
      LegalParts([Sym('(')], LineToks(line));
      LinePrintable(line);
      RedirectedPrintable(LineTree(line), redirs);
  }

  lemma {:induction false} PipPrintable(p: Pip)
    requires PipFits(p) && Legal(PipToks(p))
    ensures Printable(PipTree(p))
  {
    match p
    case One(exe) => ExePrintable(exe);
    case Piped(exe, more) =>
      LegalParts(ExeToks(exe) + [Sym('|')], PipToks(more));
      LegalParts(ExeToks(exe), [Sym('|')]);
      ExePrintable(exe);
      PipPrintable(more);
  }

  lemma {:induction false} BackedPrintable(t: Cmd<string>, k: nat)
    requires Printable(t)
    ensures Printable(Backed(t, k))
    decreases k
  {
    if k > 0 { BackedPrintable(Back(t), k - 1); }
  }

  lemma {:induction false} LinePrintable(l: Line)
    requires LineFits(l) && Legal(LineToks(l))
    ensures Printable(LineTree(l))
  {
    var front := PipToks(l.pip) + Amps(l.amps);
    if l.Then? {
      LegalParts(front + [Sym(';')], LineToks(l.rest));
      LegalParts(front, [Sym(';')]);
      LinePrintable(l.rest);
    }
    LegalParts(PipToks(l.pip), Amps(l.amps));
    PipPrintable(l.pip);
    BackedPrintable(PipTree(l.pip), l.amps);
  }

  /** Exactly the commands with legal words, fewer than MAXARGS per simple command, come from lines. */
  lemma {:induction false} CommandsExact(t: Cmd<string>)
    ensures Printable(t) <==> exists s :: Parse(Scan(s, 0)) == Ok(t, [])
  {
    if Printable(t) {
      var l := LineFor(t);
      var gaps := SpacedGaps(LineToks(l));
      var s := Layout(gaps, LineToks(l));
      WrittenParses(s, l);
    }
    if s :| Parse(Scan(s, 0)) == Ok(t, []) {
      var l := ParsedWritten(s);
      LinePrintable(l);
    }
  }
}
