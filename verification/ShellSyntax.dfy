/** The shell's command language (sh.c), written down as derivations, and the parser measured by it. */
module ShellSyntax {
  // A derivation spells out where every word, redirection, pipe, list, background mark and
  // parenthesis of a command line stands.  `LineToks` gives the tokens it stands for and `LineTree`
  // the command.  The parser accepts the tokens of derivations, and only those, with their command.

  import opened ShellTokens
  import opened ShellParser

  datatype Dir = In | Out | Append

  datatype Redirect = Redirect(dir: Dir, file: string)

  /** A word and the redirections that follow it. */
  datatype Arg = Arg(word: string, redirs: seq<Redirect>)

  datatype Exe = Simple(lead: seq<Redirect>, args: seq<Arg>) | Block(line: Line, redirs: seq<Redirect>)

  datatype Pip = One(exe: Exe) | Piped(exe: Exe, rest: Pip)

  datatype Line = Last(pip: Pip, amps: nat) | Then(pip: Pip, amps: nat, rest: Line)

  // ---- tokens ---------------------------------------------------------------------------

  function Sym(c: char): Lex { Lex(c, "") }
  function Word(w: string): Lex { Lex('a', w) }

  function DirTok(d: Dir): Lex {
    match d
    case In => Sym('<')
    case Out => Sym('>')
    case Append => Sym('+')
  }

  function RedirToks(rs: seq<Redirect>): seq<Lex> {
    if rs == [] then [] else [DirTok(rs[0].dir), Word(rs[0].file)] + RedirToks(rs[1..])
  }

  function ArgToks(args: seq<Arg>): seq<Lex> {
    if args == [] then [] else [Word(args[0].word)] + RedirToks(args[0].redirs) + ArgToks(args[1..])
  }

  function Amps(k: nat): seq<Lex> { if k == 0 then [] else [Sym('&')] + Amps(k - 1) }

  function ExeToks(e: Exe): seq<Lex> {
    match e
    case Simple(lead, args) => RedirToks(lead) + ArgToks(args)
    case Block(line, redirs) => [Sym('(')] + LineToks(line) + [Sym(')')] + RedirToks(redirs)
  }

  function PipToks(p: Pip): seq<Lex> {
    match p
    case One(exe) => ExeToks(exe)
    case Piped(exe, rest) => ExeToks(exe) + [Sym('|')] + PipToks(rest)
  }

  function LineToks(l: Line): seq<Lex> {
    match l
    case Last(pip, amps) => PipToks(pip) + Amps(amps)
    case Then(pip, amps, rest) => PipToks(pip) + Amps(amps) + [Sym(';')] + LineToks(rest)
  }

  // ---- commands -------------------------------------------------------------------------

  function ArgWords(args: seq<Arg>): seq<string> {
    seq(|args|, i requires 0 <= i < |args| => args[i].word)
  }

  function Backed(t: Cmd<string>, k: nat): Cmd<string>
    decreases k
  {
    if k == 0 then t else Backed(Back(t), k - 1)
  }

  /** Redirections apply in the order in which they stand, the first innermost. */
  function Redirected(t: Cmd<string>, rs: seq<Redirect>): Cmd<string>
    decreases |rs|
  {
    if rs == [] then t else Redirected(Redir(t, rs[0].file, !rs[0].dir.In?), rs[1..])
  }

  function ArgsRedirected(t: Cmd<string>, args: seq<Arg>): Cmd<string>
    decreases |args|
  {
    if args == [] then t else ArgsRedirected(Redirected(t, args[0].redirs), args[1..])
  }

  function ExeTree(e: Exe): Cmd<string> {
    match e
    case Simple(lead, args) => ArgsRedirected(Redirected(Exec(ArgWords(args)), lead), args)
    case Block(line, redirs) => Redirected(LineTree(line), redirs)
  }

  function PipTree(p: Pip): Cmd<string> {
    match p
    case One(exe) => ExeTree(exe)
    case Piped(exe, rest) => Pipe(ExeTree(exe), PipTree(rest))
  }

  function LineTree(l: Line): Cmd<string> {
    match l
    case Last(pip, amps) => Backed(PipTree(pip), amps)
    case Then(pip, amps, rest) => List(Backed(PipTree(pip), amps), LineTree(rest))
  }

  // ---- every simple command has fewer than MAXARGS words --------------------------------

  predicate ExeFits(e: Exe) {
    match e
    case Simple(_, args) => |args| < MAXARGS
    case Block(line, _) => LineFits(line)
  }

  predicate PipFits(p: Pip) {
    match p
    case One(exe) => ExeFits(exe)
    case Piped(exe, rest) => ExeFits(exe) && PipFits(rest)
  }

  predicate LineFits(l: Line) {
    match l
    case Last(pip, _) => PipFits(pip)
    case Then(pip, _, rest) => PipFits(pip) && LineFits(rest)
  }

  // ---- the parser accepts every derivation ----------------------------------------------

  /** The redirections as the parser collects them. */
  function Wraps(rs: seq<Redirect>): seq<Wrap<string>> {
    seq(|rs|, i requires 0 <= i < |rs| => Wrap(rs[i].file, !rs[i].dir.In?))
  }

  function ArgWraps(args: seq<Arg>): seq<Wrap<string>> {
    if args == [] then [] else Wraps(args[0].redirs) + ArgWraps(args[1..])
  }

  lemma {:induction false} WrappedRedirected(t: Cmd<string>, wraps: seq<Wrap<string>>, rs: seq<Redirect>)
    ensures Redirected(Wrapped(t, wraps), rs) == Wrapped(t, wraps + Wraps(rs))
    decreases |rs|
  {
    if rs == [] {
      assert wraps + Wraps(rs) == wraps;
    } else {
      var first := Wrap(rs[0].file, !rs[0].dir.In?);
      WrappedRedirected(t, wraps + [first], rs[1..]);
      assert (wraps + [first])[..|wraps|] == wraps;
      assert wraps + [first] + Wraps(rs[1..]) == wraps + Wraps(rs);
    }
  }

  lemma {:induction false} WrappedArgs(t: Cmd<string>, wraps: seq<Wrap<string>>, args: seq<Arg>)
    ensures ArgsRedirected(Wrapped(t, wraps), args) == Wrapped(t, wraps + ArgWraps(args))
    decreases |args|
  {
    if args == [] {
      assert wraps + ArgWraps(args) == wraps;
    } else {
      var first := Wraps(args[0].redirs);
      WrappedRedirected(t, wraps, args[0].redirs);
      WrappedArgs(t, wraps + first, args[1..]);
      assert wraps + first + ArgWraps(args[1..]) == wraps + ArgWraps(args);
    }
  }

  /** The command of an `Exe`, as parseexec wraps it. */
  lemma {:induction false} ExeWrapped(e: Exe)
    ensures e.Simple? ==> ExeTree(e) == Wrapped(Exec(ArgWords(e.args)), Wraps(e.lead) + ArgWraps(e.args))
    ensures e.Block? ==> ExeTree(e) == Wrapped(LineTree(e.line), Wraps(e.redirs))
  {
    if e.Simple? {
      var t := Exec(ArgWords(e.args));
      WrappedRedirected(t, [], e.lead);
      assert [] + Wraps(e.lead) == Wraps(e.lead);
      WrappedArgs(t, Wraps(e.lead), e.args);
    } else {
      WrappedRedirected(LineTree(e.line), [], e.redirs);
      assert [] + Wraps(e.redirs) == Wraps(e.redirs);
    }
  }

  ghost predicate Follows(rest: seq<Lex>, symbols: set<char>) { rest == [] || rest[0].kind in symbols }

  lemma {:induction false} RedirsComplete(wraps: seq<Wrap<string>>, rs: seq<Redirect>, rest: seq<Lex>)
    requires !Starts(rest, {'<', '>'})
    ensures Redirs(wraps, RedirToks(rs) + rest) == Ok(wraps + Wraps(rs), rest)
    decreases |rs|
  {
    var toks := RedirToks(rs) + rest;
    if rs == [] {
      assert toks == rest && wraps + Wraps(rs) == wraps;
    } else {
      assert toks[2..] == RedirToks(rs[1..]) + rest;
      var first := Wrap(rs[0].file, !rs[0].dir.In?);
      RedirsComplete(wraps + [first], rs[1..], rest);
      assert Wraps(rs) == [first] + Wraps(rs[1..]);
      assert wraps + [first] + Wraps(rs[1..]) == wraps + Wraps(rs);
    }
  }

  lemma {:induction false} ArgsHead(args: seq<Arg>, rest: seq<Lex>)
    requires args != []
    ensures var tail := RedirToks(args[0].redirs) + (ArgToks(args[1..]) + rest);
            ArgToks(args) + rest == [Word(args[0].word)] + tail
  {
    Regroup([Word(args[0].word)], RedirToks(args[0].redirs), ArgToks(args[1..]), rest);
  }

  lemma {:induction false} ArgsStart(args: seq<Arg>, rest: seq<Lex>)
    requires Follows(rest, {'|', ')', '&', ';'})
    ensures !Starts(ArgToks(args) + rest, {'<', '>', '('})
  {
    if args == [] {
      assert ArgToks(args) + rest == rest;
    } else {
      assert (ArgToks(args) + rest)[0] == Word(args[0].word);
    }
  }

  lemma {:induction false} ArgsStop(words: seq<string>, wraps: seq<Wrap<string>>, rest: seq<Lex>)
    requires Follows(rest, {'|', ')', '&', ';'})
    ensures Args(words, wraps, rest) == Ok(Words(words, wraps), rest)
  {
  }

  lemma {:induction false} ArgsStep(words: seq<string>, wraps: seq<Wrap<string>>, w: string, tail: seq<Lex>, toks: seq<Lex>,
                                    wraps': seq<Wrap<string>>, rest: seq<Lex>, r: Parsed<Words<string>>)
    requires |words| + 1 < MAXARGS && Redirs(wraps, tail) == Ok(wraps', rest)
    requires toks == [Word(w)] + tail && r == Args(words, wraps, toks)
    ensures r == Args(words + [w], wraps', rest)
  {
    assert toks[1..] == tail;
    ArgsGoOn(words, wraps, toks, wraps', rest);
  }

  lemma {:induction false} ArgsJoin(words: seq<string>, wraps: seq<Wrap<string>>, args: seq<Arg>)
    requires args != []
    ensures words + [args[0].word] + ArgWords(args[1..]) == words + ArgWords(args)
    ensures wraps + Wraps(args[0].redirs) + ArgWraps(args[1..]) == wraps + ArgWraps(args)
  {
    assert ArgWords(args) == [args[0].word] + ArgWords(args[1..]);
  }

  lemma {:induction false} ArgsComplete(words: seq<string>, wraps: seq<Wrap<string>>, args: seq<Arg>, rest: seq<Lex>,
                                        toks: seq<Lex>, r: Parsed<Words<string>>)
    requires |words| + |args| < MAXARGS && Follows(rest, {'|', ')', '&', ';'}) && toks == ArgToks(args) + rest
    requires r == Args(words, wraps, toks)
    ensures r == Ok(Words(words + ArgWords(args), wraps + ArgWraps(args)), rest)
    decreases |args|
  {
    if args == [] {
      assert toks == rest && words + ArgWords(args) == words && wraps + ArgWraps(args) == wraps;
      ArgsStop(words, wraps, rest);
    } else {
      var tail, first := ArgToks(args[1..]) + rest, args[0];
      ArgsHead(args, rest);
      ArgsStart(args[1..], rest);
      RedirsComplete(wraps, first.redirs, tail);
      ArgsStep(words, wraps, first.word, RedirToks(first.redirs) + tail, toks, wraps + Wraps(first.redirs), tail, r);
      ArgsComplete(words + [first.word], wraps + Wraps(first.redirs), args[1..], rest, tail, r);
      ArgsJoin(words, wraps, args);
    }
  }

  lemma {:induction false} SimpleComplete(lead: seq<Redirect>, args: seq<Arg>, rest: seq<Lex>)
    requires |args| < MAXARGS && Follows(rest, {'|', ')', '&', ';'})
    ensures ExecOf(RedirToks(lead) + ArgToks(args) + rest) == Ok(ExeTree(Simple(lead, args)), rest)
  {
    var tail := ArgToks(args) + rest;
    var toks := RedirToks(lead) + tail;
    assert RedirToks(lead) + ArgToks(args) + rest == toks;
    ArgsStart(args, rest);
    assert !Starts(toks, {'('}) by { if lead == [] { assert toks == tail; } }
    RedirsComplete([], lead, tail);
    assert [] + Wraps(lead) == Wraps(lead);
    ArgsComplete([], Wraps(lead), args, rest, tail, Args([], Wraps(lead), tail));
    assert [] + ArgWords(args) == ArgWords(args);
    ExeWrapped(Simple(lead, args));
  }

  lemma {:induction false} BacksComplete(t: Cmd<string>, k: nat, rest: seq<Lex>)
    requires Follows(rest, {')', ';'})
    ensures Backs(t, Amps(k) + rest) == Ok(Backed(t, k), rest)
    decreases k
  {
    if k == 0 {
      assert Amps(k) + rest == rest;
    } else {
      assert (Amps(k) + rest)[1..] == Amps(k - 1) + rest;
      BacksComplete(Back(t), k - 1, rest);
    }
  }

  lemma {:induction false} BlockStep(toks: seq<Lex>, inner: seq<Lex>, cmd: Cmd<string>, after: seq<Lex>, tail: seq<Lex>,
                                     wraps: seq<Wrap<string>>, rest: seq<Lex>)
    requires toks == [Sym('(')] + inner && LineOf(inner) == Ok(cmd, after) && after == [Sym(')')] + tail
    requires Redirs([], tail) == Ok(wraps, rest)
    ensures ExecOf(toks) == Ok(Wrapped(cmd, wraps), rest)
  {
    assert toks[1..] == inner && after[1..] == tail;
  }

  lemma {:induction false} RegroupBlock(a: seq<Lex>, b: seq<Lex>, c: seq<Lex>)
    ensures [Sym('(')] + a + [Sym(')')] + b + c == [Sym('(')] + (a + ([Sym(')')] + (b + c)))
  {
  }

  lemma {:induction false} ExeComplete(e: Exe, rest: seq<Lex>)
    requires ExeFits(e) && Follows(rest, {'|', ')', '&', ';'})
    ensures ExecOf(ExeToks(e) + rest) == Ok(ExeTree(e), rest)
  {
    match e
    case Simple(lead, args) => SimpleComplete(lead, args, rest);
    case Block(line, redirs) =>
      var tail := RedirToks(redirs) + rest;
      var after := [Sym(')')] + tail;
      LineComplete(line, after);
      RedirsComplete([], redirs, rest);
      assert [] + Wraps(redirs) == Wraps(redirs);
      ExeWrapped(e);
      RegroupBlock(LineToks(line), RedirToks(redirs), rest);
      BlockStep(ExeToks(e) + rest, LineToks(line) + after, LineTree(line), after, tail, Wraps(redirs), rest);
  }

  lemma {:induction false} PipeStep(toks: seq<Lex>, first: Cmd<string>, after: seq<Lex>, tail: seq<Lex>, right: Cmd<string>,
                                    rest: seq<Lex>)
    requires ExecOf(toks) == Ok(first, after) && after == [Sym('|')] + tail && PipeOf(tail) == Ok(right, rest)
    ensures PipeOf(toks) == Ok(Pipe(first, right), rest)
  {
    assert after[1..] == tail;
  }

  lemma {:induction false} PipeEnd(toks: seq<Lex>, first: Cmd<string>, rest: seq<Lex>)
    requires ExecOf(toks) == Ok(first, rest) && Follows(rest, {')', '&', ';'})
    ensures PipeOf(toks) == Ok(first, rest)
  {
  }

  lemma {:induction false} Regroup(a: seq<Lex>, b: seq<Lex>, c: seq<Lex>, d: seq<Lex>)
    ensures a + b + c + d == a + (b + (c + d)) && a + b + c == a + (b + c)
  {
  }

  lemma {:induction false} PipComplete(p: Pip, rest: seq<Lex>)
    requires PipFits(p) && Follows(rest, {')', '&', ';'})
    ensures PipeOf(PipToks(p) + rest) == Ok(PipTree(p), rest)
  {
    match p
    case One(exe) =>
      ExeComplete(exe, rest);
      PipeEnd(ExeToks(exe) + rest, ExeTree(exe), rest);
    case Piped(exe, more) =>
      var tail := PipToks(more) + rest;
      Regroup(ExeToks(exe), [Sym('|')], PipToks(more), rest);
      ExeComplete(exe, [Sym('|')] + tail);
      PipComplete(more, rest);
      PipeStep(PipToks(p) + rest, ExeTree(exe), [Sym('|')] + tail, tail, PipTree(more), rest);
  }

  lemma {:induction false} AmpsStart(k: nat, rest: seq<Lex>)
    requires Follows(rest, {')', ';'})
    ensures Follows(Amps(k) + rest, {')', '&', ';'})
  {
    if k == 0 { assert Amps(k) + rest == rest; }
  }

  lemma {:induction false} LineEnd(toks: seq<Lex>, first: Cmd<string>, mid: seq<Lex>, left: Cmd<string>, rest: seq<Lex>)
    requires PipeOf(toks) == Ok(first, mid) && Backs(first, mid) == Ok(left, rest) && !Starts(rest, {';'})
    ensures LineOf(toks) == Ok(left, rest)
  {
  }

  lemma {:induction false} LineStep(toks: seq<Lex>, first: Cmd<string>, mid: seq<Lex>, left: Cmd<string>, after: seq<Lex>,
                                    tail: seq<Lex>, right: Cmd<string>, rest: seq<Lex>)
    requires PipeOf(toks) == Ok(first, mid) && Backs(first, mid) == Ok(left, after)
    requires after == [Sym(';')] + tail && LineOf(tail) == Ok(right, rest)
    ensures LineOf(toks) == Ok(List(left, right), rest)
  {
    assert after[1..] == tail;
  }

  lemma {:induction false} LineComplete(l: Line, rest: seq<Lex>)
    requires LineFits(l) && Follows(rest, {')'})
    ensures LineOf(LineToks(l) + rest) == Ok(LineTree(l), rest)
  {
    var pip, amps := l.pip, l.amps;
    if l.Last? {
      AmpsStart(amps, rest);
      PipComplete(pip, Amps(amps) + rest);
      BacksComplete(PipTree(pip), amps, rest);
      Regroup(PipToks(pip), Amps(amps), rest, []);
      LineEnd(LineToks(l) + rest, PipTree(pip), Amps(amps) + rest, Backed(PipTree(pip), amps), rest);
    } else {
      var tail := LineToks(l.rest) + rest;
      var after := [Sym(';')] + tail;
      LineComplete(l.rest, rest);
      AmpsStart(amps, after);
      PipComplete(pip, Amps(amps) + after);
      BacksComplete(PipTree(pip), amps, after);
      RegroupLine(PipToks(pip), Amps(amps), LineToks(l.rest), rest);
      LineStep(LineToks(l) + rest, PipTree(pip), Amps(amps) + after, Backed(PipTree(pip), amps), after, tail,
               LineTree(l.rest), rest);
    }
  }

  lemma {:induction false} RegroupLine(a: seq<Lex>, b: seq<Lex>, c: seq<Lex>, d: seq<Lex>)
    ensures a + b + [Sym(';')] + c + d == a + (b + ([Sym(';')] + (c + d)))
  {
  }

  /** Every derivation is accepted, with its command. */
  lemma {:induction false} ParseComplete(l: Line)
    requires LineFits(l)
    ensures Parse(LineToks(l)) == Ok(LineTree(l), [])
  {
    LineComplete(l, []);
    assert LineToks(l) + [] == LineToks(l);
  }

  // ---- and nothing else -----------------------------------------------------------------

  /** Symbols carry no text; every token is one the scanner makes. */
  ghost predicate Clean(toks: seq<Lex>) {
    forall i :: 0 <= i < |toks| ==>
      toks[i].kind == 'a' || (toks[i].w == "" && (IsSymbol(toks[i].kind) || toks[i].kind == '+'))
  }

  lemma {:induction false} CleanTail(toks: seq<Lex>, n: nat)
    requires Clean(toks) && n <= |toks|
    ensures Clean(toks[n..])
  {
  }

  lemma {:induction false} RedirsSound(wraps: seq<Wrap<string>>, toks: seq<Lex>) returns (rs: seq<Redirect>)
    requires Clean(toks) && Redirs(wraps, toks).Ok?
    ensures var r := Redirs(wraps, toks);
            toks == RedirToks(rs) + r.rest && r.value == wraps + Wraps(rs) && Clean(r.rest)
    decreases |toks|
  {
    if !Starts(toks, {'<', '>'}) {
      rs := [];
      assert RedirToks(rs) + toks == toks && wraps + Wraps(rs) == wraps;
    } else {
      var kind := toks[0].kind;
      var first := Redirect(if kind == '<' then In else if kind == '>' then Out else Append, toks[1].w);
      CleanTail(toks, 2);
      var more := RedirsSound(wraps + [Wrap(toks[1].w, kind != '<')], toks[2..]);
      rs := [first] + more;
      RedirsFront(wraps, first, more, toks, Redirs(wraps, toks).rest);
    }
  }

  lemma {:induction false} RedirsFront(wraps: seq<Wrap<string>>, first: Redirect, more: seq<Redirect>, toks: seq<Lex>,
                                       rest: seq<Lex>)
    requires |toks| >= 2 && toks[0] == DirTok(first.dir) && toks[1] == Word(first.file) && toks[2..] == RedirToks(more) + rest
    ensures toks == RedirToks([first] + more) + rest
    ensures wraps + [Wrap(first.file, !first.dir.In?)] + Wraps(more) == wraps + Wraps([first] + more)
  {
    assert ([first] + more)[1..] == more;
    var two := [DirTok(first.dir), Word(first.file)];
    assert toks == two + toks[2..];
    assert two + (RedirToks(more) + rest) == two + RedirToks(more) + rest;
  }

  lemma {:induction false} ArgsSound(words: seq<string>, wraps: seq<Wrap<string>>, toks: seq<Lex>) returns (args: seq<Arg>)
    requires Clean(toks) && Args(words, wraps, toks).Ok? && |words| < MAXARGS
    ensures var r := Args(words, wraps, toks);
            && toks == ArgToks(args) + r.rest && r.value == Words(words + ArgWords(args), wraps + ArgWraps(args))
            && |words| + |args| < MAXARGS && Clean(r.rest)
    decreases |toks|
  {
    if toks == [] || Starts(toks, {'|', ')', '&', ';'}) {
      args := [];
      assert ArgToks(args) + toks == toks && words + ArgWords(args) == words && wraps + ArgWraps(args) == wraps;
    } else {
      CleanTail(toks, 1);
      var rs := RedirsSound(wraps, toks[1..]);
      var mid := Redirs(wraps, toks[1..]);
      var more := ArgsSound(words + [toks[0].w], mid.value, mid.rest);
      args := [Arg(toks[0].w, rs)] + more;
      ArgsGoOn(words, wraps, toks, mid.value, mid.rest);
      ArgsFront(words, wraps, toks, rs, more, mid.rest, Args(words, wraps, toks).rest);
    }
  }

  lemma {:induction false} ArgsFront(words: seq<string>, wraps: seq<Wrap<string>>, toks: seq<Lex>, rs: seq<Redirect>,
                                     more: seq<Arg>, mid: seq<Lex>, rest: seq<Lex>)
    requires toks != [] && toks[0].kind == 'a' && toks[1..] == RedirToks(rs) + mid && mid == ArgToks(more) + rest
    ensures var args := [Arg(toks[0].w, rs)] + more;
            && toks == ArgToks(args) + rest
            && words + [toks[0].w] + ArgWords(more) == words + ArgWords(args)
            && wraps + Wraps(rs) + ArgWraps(more) == wraps + ArgWraps(args)
  {
    var args := [Arg(toks[0].w, rs)] + more;
    assert args[1..] == more;
    ArgsJoin(words, wraps, args);
    ArgsHead(args, rest);
    assert toks == [Word(toks[0].w)] + toks[1..];
  }

  lemma {:induction false} SimpleSound(toks: seq<Lex>) returns (e: Exe)
    requires Clean(toks) && !Starts(toks, {'('}) && ExecOf(toks).Ok?
    ensures var r := ExecOf(toks); ExeFits(e) && toks == ExeToks(e) + r.rest && r.value == ExeTree(e) && Clean(r.rest)
  {
    var lead := RedirsSound([], toks);
    var mid := Redirs([], toks);
    assert [] + Wraps(lead) == Wraps(lead);
    var args := ArgsSound([], mid.value, mid.rest);
    assert [] + ArgWords(args) == ArgWords(args);
    e := Simple(lead, args);
    ExeWrapped(e);
    Regroup(RedirToks(lead), ArgToks(args), ExecOf(toks).rest, []);
  }

  /** How parseblock comes to its result. */
  lemma {:induction false} BlockParts(toks: seq<Lex>, line: Parsed<Cmd<string>>)
    requires Starts(toks, {'('}) && ExecOf(toks).Ok? && line == LineOf(toks[1..])
    ensures line.Ok? && Starts(line.rest, {')'})
    ensures var redirs := Redirs([], line.rest[1..]);
            redirs.Ok? && ExecOf(toks) == Ok(Wrapped(line.value, redirs.value), redirs.rest)
  {
  }

  lemma {:induction false} BlockToks(toks: seq<Lex>, line: Line, redirs: seq<Redirect>, mid: seq<Lex>, rest: seq<Lex>)
    requires toks != [] && toks[0] == Sym('(') && toks[1..] == LineToks(line) + mid
    requires mid != [] && mid[0] == Sym(')') && mid[1..] == RedirToks(redirs) + rest
    ensures toks == ExeToks(Block(line, redirs)) + rest
  {
    assert toks == [Sym('(')] + toks[1..] && mid == [Sym(')')] + mid[1..];
    RegroupBlock(LineToks(line), RedirToks(redirs), rest);
  }

  lemma {:induction false} ExeSound(toks: seq<Lex>) returns (e: Exe)
    requires Clean(toks) && ExecOf(toks).Ok?
    ensures var r := ExecOf(toks); ExeFits(e) && toks == ExeToks(e) + r.rest && r.value == ExeTree(e) && Clean(r.rest)
    decreases |toks|, 0
  {
    if Starts(toks, {'('}) {
      BlockParts(toks, LineOf(toks[1..]));
      CleanTail(toks, 1);
      var line := LineSound(toks[1..]);
      var mid := LineOf(toks[1..]).rest;
      CleanTail(mid, 1);
      var redirs := RedirsSound([], mid[1..]);
      assert [] + Wraps(redirs) == Wraps(redirs);
      e := Block(line, redirs);
      ExeWrapped(e);
      BlockToks(toks, line, redirs, mid, Redirs([], mid[1..]).rest);
    } else {
      e := SimpleSound(toks);
    }
  }

  lemma {:induction false} PipSound(toks: seq<Lex>) returns (p: Pip)
    requires Clean(toks) && PipeOf(toks).Ok?
    ensures var r := PipeOf(toks); PipFits(p) && toks == PipToks(p) + r.rest && r.value == PipTree(p) && Clean(r.rest)
    decreases |toks|, 1
  {
    var exe := ExeSound(toks);
    var mid := ExecOf(toks).rest;
    if !Starts(mid, {'|'}) {
      p := One(exe);
    } else {
      CleanTail(mid, 1);
      var more := PipSound(mid[1..]);
      p := Piped(exe, more);
      assert mid == [Sym('|')] + mid[1..];
      Regroup(ExeToks(exe), [Sym('|')], PipToks(more), PipeOf(toks).rest);
    }
  }

  lemma {:induction false} BacksSound(t: Cmd<string>, toks: seq<Lex>) returns (k: nat)
    requires Clean(toks)
    ensures var r := Backs(t, toks); toks == Amps(k) + r.rest && r.value == Backed(t, k) && Clean(r.rest)
    decreases |toks|
  {
    if !Starts(toks, {'&'}) {
      k := 0;
      assert Amps(0) + toks == toks;
    } else {
      CleanTail(toks, 1);
      k := BacksSound(Back(t), toks[1..]);
      k := k + 1;
      assert toks == [Sym('&')] + toks[1..];
      Regroup([Sym('&')], Amps(k - 1), Backs(t, toks).rest, []);
    }
  }

  /** How parseline comes to its result. */
  lemma {:induction false} LineParts(toks: seq<Lex>, first: Parsed<Cmd<string>>, backs: Parsed<Cmd<string>>)
    requires LineOf(toks).Ok? && first == PipeOf(toks) && (first.Ok? ==> backs == Backs(first.value, first.rest))
    ensures first.Ok? && backs.Ok?
    ensures !Starts(backs.rest, {';'}) ==> LineOf(toks) == backs
    ensures Starts(backs.rest, {';'}) ==>
              var more := LineOf(backs.rest[1..]);
              more.Ok? && LineOf(toks) == Ok(List(backs.value, more.value), more.rest)
  {
  }

  lemma {:induction false} LineSound(toks: seq<Lex>) returns (l: Line)
    requires Clean(toks) && LineOf(toks).Ok?
    ensures var r := LineOf(toks); LineFits(l) && toks == LineToks(l) + r.rest && r.value == LineTree(l) && Clean(r.rest)
    decreases |toks|, 2
  {
    var first := PipeOf(toks);
    LineParts(toks, first, if first.Ok? then Backs(first.value, first.rest) else Panic);
    var pip := PipSound(toks);
    var amps := BacksSound(first.value, first.rest);
    var mid := Backs(first.value, first.rest).rest;
    if !Starts(mid, {';'}) {
      l := Last(pip, amps);
      Regroup(PipToks(pip), Amps(amps), mid, []);
    } else {
      CleanTail(mid, 1);
      var more := LineSound(mid[1..]);
      l := Then(pip, amps, more);
      ThenToks(toks, pip, amps, more, mid, LineOf(mid[1..]).rest);
    }
  }

  lemma {:induction false} ThenToks(toks: seq<Lex>, pip: Pip, amps: nat, more: Line, mid: seq<Lex>, rest: seq<Lex>)
    requires toks == PipToks(pip) + (Amps(amps) + mid) && mid != [] && mid[0] == Sym(';') && mid[1..] == LineToks(more) + rest
    ensures toks == LineToks(Then(pip, amps, more)) + rest
  {
    assert mid == [Sym(';')] + mid[1..];
    RegroupLine(PipToks(pip), Amps(amps), LineToks(more), rest);
  }

  /** Whatever is accepted is a derivation of the command returned. */
  lemma {:induction false} ParseSound(toks: seq<Lex>) returns (l: Line)
    requires Clean(toks) && Parse(toks).Ok?
    ensures LineFits(l) && toks == LineToks(l) && Parse(toks) == Ok(LineTree(l), [])
  {
    l := LineSound(toks);
    assert LineToks(l) + [] == LineToks(l);
  }
}
