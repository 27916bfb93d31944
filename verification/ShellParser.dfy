/** The shell's recursive-descent parser (sh.c).  The functions say what each routine returns; the
methods are the routines with their loops. */
module ShellParser {
  import opened ShellTokens

  const MAXARGS: nat := 10

  /** Command trees; `out` tells a redirection of output (O_WRONLY|O_CREATE, 1) from one of input
      (O_RDONLY, 0): `>>` parses as `>` does. */
  datatype Cmd<W> =
    | Exec(args: seq<W>)
    | Redir(cmd: Cmd<W>, file: W, out: bool)
    | Pipe(left: Cmd<W>, right: Cmd<W>)
    | List(left: Cmd<W>, right: Cmd<W>)
    | Back(cmd: Cmd<W>)

  datatype Wrap<W> = Wrap(file: W, out: bool)

  /** A command inside redirections, the first of them innermost. */
  function Wrapped<W>(cmd: Cmd<W>, wraps: seq<Wrap<W>>): Cmd<W> {
    if wraps == [] then cmd
    else
      var n := |wraps| - 1;
      Redir(Wrapped(cmd, wraps[..n]), wraps[n].file, wraps[n].out)
  }

  /** What a routine makes of the tokens, and those it leaves; or the panic it ends in. */
  datatype Parsed<T> = Ok(value: T, rest: seq<Lex>) | Panic

  // ---- the grammar, over tokens ---------------------------------------------------------

  /** parseredirs: the redirections that follow. */
  function Redirs(wraps: seq<Wrap<string>>, toks: seq<Lex>): (r: Parsed<seq<Wrap<string>>>)
    ensures r.Ok? ==> |r.rest| <= |toks|
    decreases |toks|
  {
    if !Starts(toks, {'<', '>'}) then Ok(wraps, toks)
    else if |toks| < 2 || toks[1].kind != 'a' then Panic
    else Redirs(wraps + [Wrap(toks[1].w, toks[0].kind != '<')], toks[2..])
  }

  datatype Words<W> = Words(args: seq<W>, wraps: seq<Wrap<W>>)

  /** parseexec's loop: words and redirections up to the end of the simple command. */
  function Args(args: seq<string>, wraps: seq<Wrap<string>>, toks: seq<Lex>): (r: Parsed<Words<string>>)
    ensures r.Ok? ==> |r.rest| <= |toks|
    decreases |toks|
  {
    if toks == [] || Starts(toks, {'|', ')', '&', ';'}) then Ok(Words(args, wraps), toks)
    else if toks[0].kind != 'a' || |args| + 1 >= MAXARGS then Panic
    else match Redirs(wraps, toks[1..])
      case Panic => Panic
      case Ok(wraps', rest) => Args(args + [toks[0].w], wraps', rest)
  }

  /** parseexec, with parseblock for a parenthesis. */
  function ExecOf(toks: seq<Lex>): (r: Parsed<Cmd<string>>)
    ensures r.Ok? ==> |r.rest| <= |toks|
    decreases |toks|, 0
  {
    if Starts(toks, {'('}) then
      match LineOf(toks[1..])
      case Panic => Panic
      case Ok(cmd, rest) =>
        if !Starts(rest, {')'}) then Panic
        else match Redirs([], rest[1..])
          case Panic => Panic
          case Ok(wraps, rest') => Ok(Wrapped(cmd, wraps), rest')
    else match Redirs([], toks)
      case Panic => Panic
      case Ok(wraps, rest) =>
        match Args([], wraps, rest)
        case Panic => Panic
        case Ok(words, rest') => Ok(Wrapped(Exec(words.args), words.wraps), rest')
  }

  function PipeOf(toks: seq<Lex>): (r: Parsed<Cmd<string>>)
    ensures r.Ok? ==> |r.rest| <= |toks|
    decreases |toks|, 1
  {
    match ExecOf(toks)
    case Panic => Panic
    case Ok(cmd, rest) =>
      if !Starts(rest, {'|'}) then Ok(cmd, rest)
      else match PipeOf(rest[1..])
        case Panic => Panic
        case Ok(right, rest') => Ok(Pipe(cmd, right), rest')
  }

  /** parseline's loop over `&`. */
  function Backs(cmd: Cmd<string>, toks: seq<Lex>): (r: Parsed<Cmd<string>>)
    ensures r.Ok? && |r.rest| <= |toks|
    decreases |toks|
  {
    if !Starts(toks, {'&'}) then Ok(cmd, toks) else Backs(Back(cmd), toks[1..])
  }

  function LineOf(toks: seq<Lex>): (r: Parsed<Cmd<string>>)
    ensures r.Ok? ==> |r.rest| <= |toks|
    decreases |toks|, 2
  {
    match PipeOf(toks)
    case Panic => Panic
    case Ok(cmd, rest) =>
      var backs := Backs(cmd, rest);
      if !Starts(backs.rest, {';'}) then backs
      else match LineOf(backs.rest[1..])
        case Panic => Panic
        case Ok(right, rest') => Ok(List(backs.value, right), rest')
  }

  /** parsecmd: the whole line must be used up. */
  function Parse(toks: seq<Lex>): Parsed<Cmd<string>> {
    match LineOf(toks)
    case Panic => Panic
    case Ok(cmd, rest) => if rest != [] then Panic else Ok(cmd, rest)
  }

  // ---- trees over the line --------------------------------------------------------------

  function ReadWraps(s: string, ws: seq<Wrap<Span>>): seq<Wrap<string>> {
    seq(|ws|, i requires 0 <= i < |ws| => Wrap(Sub(s, ws[i].file), ws[i].out))
  }

  function ReadArgs(s: string, args: seq<Span>): seq<string> {
    seq(|args|, i requires 0 <= i < |args| => Sub(s, args[i]))
  }

  /** The tree with its words as strings. */
  function Read(s: string, c: Cmd<Span>): Cmd<string> {
    match c
    case Exec(args) => Exec(ReadArgs(s, args))
    case Redir(cmd, file, out) => Redir(Read(s, cmd), Sub(s, file), out)
    case Pipe(l, r) => Pipe(Read(s, l), Read(s, r))
    case List(l, r) => List(Read(s, l), Read(s, r))
    case Back(cmd) => Back(Read(s, cmd))
  }

  /** Every word of the tree is a word of the line. */
  ghost predicate OnLine(s: string, c: Cmd<Span>) {
    match c
    case Exec(args) => forall i :: 0 <= i < |args| ==> IsWord(s, args[i])
    case Redir(cmd, file, _) => OnLine(s, cmd) && IsWord(s, file)
    case Pipe(l, r) => OnLine(s, l) && OnLine(s, r)
    case List(l, r) => OnLine(s, l) && OnLine(s, r)
    case Back(cmd) => OnLine(s, cmd)
  }

  ghost predicate WrapsOnLine(s: string, ws: seq<Wrap<Span>>) {
    forall i :: 0 <= i < |ws| ==> IsWord(s, ws[i].file)
  }

  lemma {:induction false} ReadWrapped(s: string, c: Cmd<Span>, ws: seq<Wrap<Span>>)
    requires OnLine(s, c) && WrapsOnLine(s, ws)
    ensures Read(s, Wrapped(c, ws)) == Wrapped(Read(s, c), ReadWraps(s, ws)) && OnLine(s, Wrapped(c, ws))
  {
    if ws != [] {
      var n := |ws| - 1;
      ReadWrapped(s, c, ws[..n]);
      assert ReadWraps(s, ws)[..n] == ReadWraps(s, ws[..n]);
    }
  }

  lemma {:induction false} MoreWraps(s: string, ws: seq<Wrap<Span>>, w: Wrap<Span>)
    requires WrapsOnLine(s, ws) && IsWord(s, w.file)
    ensures ReadWraps(s, ws + [w]) == ReadWraps(s, ws) + [Wrap(Sub(s, w.file), w.out)] && WrapsOnLine(s, ws + [w])
  {
  }

  lemma {:induction false} MoreArgs(s: string, args: seq<Span>, w: Span)
    ensures ReadArgs(s, args + [w]) == ReadArgs(s, args) + [Sub(s, w)]
  {
  }

  lemma {:induction false} ArgsGoOn(args: seq<string>, wraps: seq<Wrap<string>>, toks: seq<Lex>,
                                    wraps': seq<Wrap<string>>, rest: seq<Lex>)
    requires toks != [] && toks[0].kind == 'a' && |args| + 1 < MAXARGS && Redirs(wraps, toks[1..]) == Ok(wraps', rest)
    ensures Args(args, wraps, toks) == Args(args + [toks[0].w], wraps', rest)
  {
  }

  lemma {:induction false} TwoTokens(a: seq<Lex>, b: seq<Lex>, c: seq<Lex>)
    requires a != [] && a[1..] == b && b != [] && b[1..] == c
    ensures |a| >= 2 && a[1] == b[0] && a[2..] == c
  {
  }

  // ---- the routines ---------------------------------------------------------------------

  /** What a routine returns and where it leaves the cursor, or its panic. */
  datatype Result<T> = Success(value: T, pos: nat) | Failure

  method ParseRedirs(s: string, wraps0: seq<Wrap<Span>>, p: nat) returns (r: Result<seq<Wrap<Span>>>)
    requires p <= |s| && WrapsOnLine(s, wraps0)
    ensures var spec := Redirs(ReadWraps(s, wraps0), Scan(s, p));
            && (r.Success? <==> spec.Ok?)
            && (r.Success? ==> p <= r.pos <= |s| && WrapsOnLine(s, r.value)
                               && spec == Ok(ReadWraps(s, r.value), Scan(s, r.pos)))
  {
    var wraps, ps := wraps0, p;
    while true
      invariant p <= ps <= |s| && WrapsOnLine(s, wraps)
      invariant Redirs(ReadWraps(s, wraps0), Scan(s, p)) == Redirs(ReadWraps(s, wraps), Scan(s, ps))
      decreases |s| - ps
    {
      var more, q := Peek(s, ps, {'<', '>'});
      if !more {
        return Success(wraps, q);
      }
      var op := NextToken(s, q);
      var file := NextToken(s, op.next);
      if file.kind != 'a' {
        return Failure;
      }
      var wraps' := wraps + [Wrap(file.span, op.kind != '<')];
      MoreWraps(s, wraps, Wrap(file.span, op.kind != '<'));
      TwoTokens(Scan(s, ps), Scan(s, op.next), Scan(s, file.next));
      wraps, ps := wraps', file.next;
    }
  }

  /** What the words read so far, at cursor p, will come to. */
  ghost function Coming(s: string, words: Words<Span>, p: nat): Parsed<Words<string>>
    requires p <= |s|
  {
    Args(ReadArgs(s, words.args), ReadWraps(s, words.wraps), Scan(s, p))
  }

  ghost predicate WordsOnLine(s: string, words: Words<Span>) {
    WrapsOnLine(s, words.wraps) && OnLine(s, Exec(words.args))
  }

  /** One turn of parseexec's loop: the end of the command, a panic, or one more word. */
  method ParseArg(s: string, words: Words<Span>, p: nat) returns (r: Result<Words<Span>>, done: bool)
    requires p <= |s| && WordsOnLine(s, words)
    ensures r.Failure? ==> done && Coming(s, words, p).Panic?
    ensures r.Success? ==> p <= r.pos <= |s| && WordsOnLine(s, r.value)
    ensures r.Success? && done ==>
              Coming(s, words, p) == Ok(Words(ReadArgs(s, r.value.args), ReadWraps(s, r.value.wraps)), Scan(s, r.pos))
    ensures r.Success? && !done ==> p < r.pos && Coming(s, words, p) == Coming(s, r.value, r.pos)
  {
    done := true;
    var stop, q := Peek(s, p, {'|', ')', '&', ';'});
    if stop {
      return Success(words, q), true;
    }
    var t := NextToken(s, q);
    if t.kind == '\0' {
      return Success(words, t.next), true;
    }
    if t.kind != 'a' || |words.args| + 1 >= MAXARGS {
      return Failure, true;
    }
    var redirs := ParseRedirs(s, words.wraps, t.next);
    if redirs.Failure? {
      return Failure, true;
    }
    MoreArgs(s, words.args, t.span);
    ArgsGoOn(ReadArgs(s, words.args), ReadWraps(s, words.wraps), Scan(s, q), ReadWraps(s, redirs.value), Scan(s, redirs.pos));
    return Success(Words(words.args + [t.span], redirs.value), redirs.pos), false;
  }

  /** The words of a simple command. */
  method ParseArgs(s: string, wraps0: seq<Wrap<Span>>, p: nat) returns (r: Result<Words<Span>>)
    requires p <= |s| && WrapsOnLine(s, wraps0)
    ensures var spec := Args([], ReadWraps(s, wraps0), Scan(s, p));
            && (r.Success? <==> spec.Ok?)
            && (r.Success? ==> p <= r.pos <= |s| && WordsOnLine(s, r.value)
                               && spec == Ok(Words(ReadArgs(s, r.value.args), ReadWraps(s, r.value.wraps)), Scan(s, r.pos)))
  {
    var words, ps := Words([], wraps0), p;
    ghost var start := words;
    assert ReadArgs(s, []) == [];
    while true
      invariant p <= ps <= |s| && WordsOnLine(s, words) && Coming(s, start, p) == Coming(s, words, ps)
      decreases |s| - ps
    {
      var done;
      r, done := ParseArg(s, words, ps);
      if done {
        return;
      }
      words, ps := r.value, r.pos;
    }
  }

  /** The tree r, read from the line, is what the grammar says. */
  ghost predicate Agrees(s: string, p: nat, r: Result<Cmd<Span>>, spec: Parsed<Cmd<string>>) {
    && (r.Success? <==> spec.Ok?)
    && (r.Success? ==> p <= r.pos <= |s| && OnLine(s, r.value) && spec == Ok(Read(s, r.value), Scan(s, r.pos)))
  }

  /** parseblock: a line in parentheses and its redirections. */
  method ParseBlock(s: string, p: nat) returns (r: Result<Cmd<Span>>)
    requires p <= |s| && Starts(Scan(s, p), {'('})
    ensures Agrees(s, p, r, ExecOf(Scan(s, p)))
    decreases |s| - p, 0
  {
    var open := NextToken(s, p);
    var line := ParseLine(s, open.next);
    if line.Failure? {
      return Failure;
    }
    var closed, q := Peek(s, line.pos, {')'});
    if !closed {
      return Failure;
    }
    var close := NextToken(s, q);
    assert ReadWraps(s, []) == [];
    var redirs := ParseRedirs(s, [], close.next);
    if redirs.Failure? {
      return Failure;
    }
    ReadWrapped(s, line.value, redirs.value);
    r := Success(Wrapped(line.value, redirs.value), redirs.pos);
  }

  method ParseExec(s: string, p: nat) returns (r: Result<Cmd<Span>>)
    requires p <= |s|
    ensures Agrees(s, p, r, ExecOf(Scan(s, p)))
    decreases |s| - p, 1
  {
    var block, q := Peek(s, p, {'('});
    if block {
      r := ParseBlock(s, q);
      return;
    }
    assert ReadWraps(s, []) == [];
    var redirs := ParseRedirs(s, [], q);
    if redirs.Failure? {
      return Failure;
    }
    var words := ParseArgs(s, redirs.value, redirs.pos);
    if words.Failure? {
      return Failure;
    }
    ReadWrapped(s, Exec(words.value.args), words.value.wraps);
    r := Success(Wrapped(Exec(words.value.args), words.value.wraps), words.pos);
  }

  method ParsePipe(s: string, p: nat) returns (r: Result<Cmd<Span>>)
    requires p <= |s|
    ensures Agrees(s, p, r, PipeOf(Scan(s, p)))
    decreases |s| - p, 2
  {
    var first := ParseExec(s, p);
    if first.Failure? {
      return Failure;
    }
    var more, q := Peek(s, first.pos, {'|'});
    if !more {
      return Success(first.value, q);
    }
    var bar := NextToken(s, q);
    var right := ParsePipe(s, bar.next);
    if right.Failure? {
      return Failure;
    }
    r := Success(Pipe(first.value, right.value), right.pos);
  }

  /** The background marks after a pipeline. */
  method ParseBacks(s: string, cmd0: Cmd<Span>, p: nat) returns (cmd: Cmd<Span>, ps: nat)
    requires p <= |s| && OnLine(s, cmd0)
    ensures Agrees(s, p, Success(cmd, ps), Backs(Read(s, cmd0), Scan(s, p)))
  {
    cmd := cmd0;
    var amp;
    amp, ps := Peek(s, p, {'&'});
    while amp
      invariant p <= ps <= |s| && OnLine(s, cmd) && amp == Starts(Scan(s, ps), {'&'})
      invariant Backs(Read(s, cmd0), Scan(s, p)) == Backs(Read(s, cmd), Scan(s, ps))
      decreases |s| - ps
    {
      var t := NextToken(s, ps);
      cmd := Back(cmd);
      amp, ps := Peek(s, t.next, {'&'});
    }
  }

  method ParseLine(s: string, p: nat) returns (r: Result<Cmd<Span>>)
    requires p <= |s|
    ensures Agrees(s, p, r, LineOf(Scan(s, p)))
    decreases |s| - p, 3
  {
    var first := ParsePipe(s, p);
    if first.Failure? {
      return Failure;
    }
    var cmd, ps := ParseBacks(s, first.value, first.pos);
    var semi, q := Peek(s, ps, {';'});
    if !semi {
      return Success(cmd, q);
    }
    var t := NextToken(s, q);
    var right := ParseLine(s, t.next);
    if right.Failure? {
      return Failure;
    }
    r := Success(List(cmd, right.value), right.pos);
  }

  /** parsecmd up to nulterminate: succeeds exactly on the lines of the grammar. */
  method ParseCmd(s: string) returns (r: Result<Cmd<Span>>)
    ensures Agrees(s, 0, r, Parse(Scan(s, 0)))
  {
    r := ParseLine(s, 0);
    if r.Failure? {
      return;
    }
    var _, q := Peek(s, r.pos, {});
    if q != |s| {
      return Failure;
    }
    r := Success(r.value, q);
  }
}
