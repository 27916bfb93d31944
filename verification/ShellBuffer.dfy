/** nulterminate (sh.c): the parsed tree read from the command buffer as C strings. */
module ShellBuffer {
  import opened ShellTokens
  import opened ShellParser

  /** The C string at q: the characters up to the first NUL. */
  function CString(buf: seq<char>, q: nat): string
    decreases |buf| - q
  {
    if q >= |buf| || buf[q] == '\0' then "" else [buf[q]] + CString(buf, q + 1)
  }

  function ReadCArgs(buf: seq<char>, args: seq<Span>): seq<string> {
    seq(|args|, i requires 0 <= i < |args| => CString(buf, args[i].q))
  }

  /** The tree as runcmd sees it: argv and file as C strings in the buffer. */
  function ReadC(buf: seq<char>, c: Cmd<Span>): Cmd<string> {
    match c
    case Exec(args) => Exec(ReadCArgs(buf, args))
    case Redir(cmd, file, out) => Redir(ReadC(buf, cmd), CString(buf, file.q), out)
    case Pipe(l, r) => Pipe(ReadC(buf, l), ReadC(buf, r))
    case List(l, r) => List(ReadC(buf, l), ReadC(buf, r))
    case Back(cmd) => Back(ReadC(buf, cmd))
  }

  /** The positions nulterminate overwrites. */
  function Ends(c: Cmd<Span>): set<nat> {
    match c
    case Exec(args) => set w | w in args :: w.eq
    case Redir(cmd, file, _) => Ends(cmd) + {file.eq}
    case Pipe(l, r) => Ends(l) + Ends(r)
    case List(l, r) => Ends(l) + Ends(r)
    case Back(cmd) => Ends(cmd)
  }

  method NulTerminate(buf: array<char>, c: Cmd<Span>)
    requires forall e :: e in Ends(c) ==> e < buf.Length
    modifies buf
    ensures forall i :: 0 <= i < buf.Length ==> buf[i] == if i in Ends(c) then '\0' else old(buf[i])
    decreases c
  {
    match c
    case Exec(args) =>
      for k := 0 to |args|
        invariant forall i :: 0 <= i < buf.Length ==>
                    buf[i] == if exists j :: 0 <= j < k && args[j].eq == i then '\0' else old(buf[i])
      {
        assert args[k] in args && args[k].eq in Ends(c);
        buf[args[k].eq] := '\0';
      }
    case Redir(cmd, file, _) =>
      assert Ends(cmd) <= Ends(c) && file.eq in Ends(c);
      NulTerminate(buf, cmd);
      buf[file.eq] := '\0';
    case Pipe(l, r) =>
      assert Ends(l) <= Ends(c) && Ends(r) <= Ends(c);
      NulTerminate(buf, l);
      NulTerminate(buf, r);
    case List(l, r) =>
      assert Ends(l) <= Ends(c) && Ends(r) <= Ends(c);
      NulTerminate(buf, l);
      NulTerminate(buf, r);
    case Back(cmd) =>
      assert Ends(cmd) == Ends(c);
      NulTerminate(buf, cmd);
  }

  /** buf is the line s with NULs at its end and at `ends`, all of them just after words. */
  ghost predicate Terminated(s: string, buf: seq<char>, ends: set<nat>) {
    && |buf| == |s| + 1 && buf[|s|] == '\0' && '\0' !in s
    && (forall i :: 0 <= i < |s| ==> buf[i] == if i in ends then '\0' else s[i])
    && (forall e :: e in ends && e < |s| ==> !IsWordChar(s[e]))
  }

  lemma {:induction false} CStringIs(buf: seq<char>, q: nat, e: nat)
    requires q <= e < |buf| && buf[e] == '\0' && forall i :: q <= i < e ==> buf[i] != '\0'
    ensures CString(buf, q) == buf[q..e]
    decreases e - q
  {
    if q < e {
      CStringIs(buf, q + 1, e);
      assert buf[q..e] == [buf[q]] + buf[q + 1..e];
    }
  }

  /** A word of the line, once terminated, reads as itself: no other NUL falls inside it. */
  lemma {:induction false} WordReads(s: string, buf: seq<char>, ends: set<nat>, w: Span)
    requires Terminated(s, buf, ends) && IsWord(s, w) && w.eq in ends
    ensures CString(buf, w.q) == Sub(s, w)
  {
    forall i | w.q <= i < w.eq ensures buf[i] == s[i] && buf[i] != '\0' {
      assert IsWordChar(s[i]) && s[i] in s;
    }
    CStringIs(buf, w.q, w.eq);
    assert buf[w.q..w.eq] == s[w.q..w.eq];
  }

  lemma {:induction false} TreeReads(s: string, buf: seq<char>, ends: set<nat>, c: Cmd<Span>)
    requires Terminated(s, buf, ends) && OnLine(s, c) && Ends(c) <= ends
    ensures ReadC(buf, c) == Read(s, c)
  {
    match c
    case Exec(args) =>
      forall i | 0 <= i < |args| ensures CString(buf, args[i].q) == Sub(s, args[i]) {
        assert args[i] in args && args[i].eq in Ends(c);
        WordReads(s, buf, ends, args[i]);
      }
    case Redir(cmd, file, _) =>
      TreeReads(s, buf, ends, cmd);
      WordReads(s, buf, ends, file);
    case Pipe(l, r) => TreeReads(s, buf, ends, l); TreeReads(s, buf, ends, r);
    case List(l, r) => TreeReads(s, buf, ends, l); TreeReads(s, buf, ends, r);
    case Back(cmd) => TreeReads(s, buf, ends, cmd);
  }

  lemma {:induction false} EndsAreWordEnds(s: string, c: Cmd<Span>, e: nat)
    requires OnLine(s, c) && e in Ends(c)
    ensures e <= |s| && (e < |s| ==> !IsWordChar(s[e]))
  {
    match c
    case Exec(args) =>
      var w :| w in args && w.eq == e;
      var i :| 0 <= i < |args| && args[i] == w;
      assert IsWord(s, args[i]);
    case Redir(cmd, file, _) => if e in Ends(cmd) { EndsAreWordEnds(s, cmd, e); }
    case Pipe(l, r) => if e in Ends(l) { EndsAreWordEnds(s, l, e); } else { EndsAreWordEnds(s, r, e); }
    case List(l, r) => if e in Ends(l) { EndsAreWordEnds(s, l, e); } else { EndsAreWordEnds(s, r, e); }
    case Back(cmd) => EndsAreWordEnds(s, cmd, e);
  }

  /** parsecmd on a NUL-terminated buffer: the tree whose strings now stand in the buffer is the one
      the grammar gives. */
  method ParseBuffer(buf: array<char>) returns (r: Result<Cmd<Span>>)
    requires buf.Length > 0 && buf[buf.Length - 1] == '\0' && '\0' !in buf[..buf.Length - 1]
    modifies buf
    ensures var spec := Parse(Scan(old(buf[..buf.Length - 1]), 0));
            && (r.Success? <==> spec.Ok?)
            && (r.Success? ==> ReadC(buf[..], r.value) == spec.value)
  {
    var s := buf[..buf.Length - 1];
    r := ParseCmd(s);
    if r.Success? {
      forall e | e in Ends(r.value) ensures e <= |s| && (e < |s| ==> !IsWordChar(s[e])) {
        EndsAreWordEnds(s, r.value, e);
      }
      NulTerminate(buf, r.value);
      TreeReads(s, buf[..], Ends(r.value), r.value);
    }
  }
}
