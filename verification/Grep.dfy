/** The regular-expression matcher of grep (grep.c), against the language of the pattern. */
module Grep {
  // A pattern is a series of items: a character or `.`, each possibly starred, with `^` at the front
  // and `$` at the end as anchors.  Strings stand for C strings without their terminating NUL.

  datatype Item = One(c: char) | Star(c: char)

  /** The items of a pattern, and whether it ends in the anchor `$`. */
  datatype Pattern = Pattern(items: seq<Item>, toEnd: bool)

  function Parse(re: string): Pattern {
    if re == [] then Pattern([], false)
    else if |re| >= 2 && re[1] == '*' then
      var p := Parse(re[2..]);
      Pattern([Star(re[0])] + p.items, p.toEnd)
    else if re == "$" then Pattern([], true)
    else
      var p := Parse(re[1..]);
      Pattern([One(re[0])] + p.items, p.toEnd)
  }

  // ---- patterns as text -----------------------------------------------------------------

  function ShowItem(item: Item): string {
    match item
    case One(c) => [c]
    case Star(c) => [c, '*']
  }

  function Show(p: Pattern): string
    decreases |p.items|
  {
    if p.items == [] then (if p.toEnd then "$" else "")
    else ShowItem(p.items[0]) + Show(Pattern(p.items[1..], p.toEnd))
  }

  /** Written out, the pattern reads as itself: no character is followed by a `*` that is not its own, and
      no last `$` is a character. */
  ghost predicate Plain(p: Pattern)
    decreases |p.items|
  {
    p.items != [] ==>
      var rest := Pattern(p.items[1..], p.toEnd);
      && Plain(rest)
      && (p.items[0].One? ==> !(Show(rest) != "" && Show(rest)[0] == '*') && !(p.items[0].c == '$' && Show(rest) == ""))
  }

  /** Every pattern string is its parsed pattern written out. */
  lemma {:induction false} ShowParse(re: string)
    ensures Show(Parse(re)) == re && Plain(Parse(re))
  {
    if re != [] && re != "$" {
      var n := if |re| >= 2 && re[1] == '*' then 2 else 1;
      ShowParse(re[n..]);
      var p, rest := Parse(re), Parse(re[n..]);
      assert p.items[1..] == rest.items && Pattern(p.items[1..], p.toEnd) == rest;
      assert re == re[..n] + re[n..];
    }
  }

  /** And parsing a plain pattern written out gives it back. */
  lemma {:induction false} ParseShow(p: Pattern)
    requires Plain(p)
    ensures Parse(Show(p)) == p
    decreases |p.items|
  {
    if p.items != [] {
      var rest := Pattern(p.items[1..], p.toEnd);
      ParseShow(rest);
      var re, first := Show(p), ShowItem(p.items[0]);
      assert re[|first|..] == Show(rest);
      assert p.items == [p.items[0]] + rest.items;
    }
  }

  // ---- the language ---------------------------------------------------------------------

  predicate Fits(c: char, x: char) { c == '.' || c == x }

  predicate InItem(item: Item, piece: string) {
    match item
    case One(c) => |piece| == 1 && Fits(c, piece[0])
    case Star(c) => forall i :: 0 <= i < |piece| ==> Fits(c, piece[i])
  }

  /** One piece per item, each in the language of its item. */
  ghost predicate InItems(items: seq<Item>, pieces: seq<string>) {
    |pieces| == |items| && forall i :: 0 <= i < |items| ==> InItem(items[i], pieces[i])
  }

  function Concat(pieces: seq<string>): string {
    if pieces == [] then "" else pieces[0] + Concat(pieces[1..])
  }

  ghost predicate Witness(p: Pattern, text: string, pieces: seq<string>) {
    InItems(p.items, pieces) && Concat(pieces) <= text && (p.toEnd ==> Concat(pieces) == text)
  }

  /** The text begins with a string of the pattern's language (and is one, if the pattern says so). */
  ghost predicate Begins(p: Pattern, text: string) {
    exists pieces :: Witness(p, text, pieces)
  }

  /** Some position of the text, or only its start for `^`, begins a match. */
  ghost predicate Matches(re: string, text: string) {
    if re != [] && re[0] == '^' then Begins(Parse(re[1..]), text)
    else exists i :: 0 <= i <= |text| && Begins(Parse(re), text[i..])
  }

  lemma {:induction false} BeginsEmpty(text: string)
    ensures Begins(Pattern([], false), text)
    ensures Begins(Pattern([], true), text) <==> text == []
  {
    assert Witness(Pattern([], false), text, []);
    if text == [] {
      assert Witness(Pattern([], true), text, []);
    }
  }

  lemma {:induction false} ConsPieces(item: Item, items: seq<Item>, piece: string, pieces: seq<string>)
    ensures InItems([item] + items, [piece] + pieces) <==> InItem(item, piece) && InItems(items, pieces)
    ensures Concat([piece] + pieces) == piece + Concat(pieces)
  {
    var all, ps := [item] + items, [piece] + pieces;
    assert ps[1..] == pieces;
    if InItem(item, piece) && InItems(items, pieces) {
      assert forall i :: 0 <= i < |all| ==> InItem(all[i], ps[i]);
    }
    if InItems(all, ps) {
      assert InItem(all[0], ps[0]);
      forall i | 0 <= i < |items| ensures InItem(items[i], pieces[i]) {
        assert InItem(all[i + 1], ps[i + 1]);
      }
    }
  }

  /** A match of an item and more items is a piece for the item followed by a match of the rest. */
  lemma {:induction false} BeginsCons(item: Item, p: Pattern, text: string, k: nat)
    requires k <= |text| && InItem(item, text[..k]) && Begins(p, text[k..])
    ensures Begins(Pattern([item] + p.items, p.toEnd), text)
  {
    var pieces :| Witness(p, text[k..], pieces);
    ConsPieces(item, p.items, text[..k], pieces);
    assert text == text[..k] + text[k..];
    assert Witness(Pattern([item] + p.items, p.toEnd), text, [text[..k]] + pieces);
  }

  lemma {:induction false} BeginsSplit(item: Item, p: Pattern, text: string) returns (k: nat)
    requires Begins(Pattern([item] + p.items, p.toEnd), text)
    ensures k <= |text| && InItem(item, text[..k]) && Begins(p, text[k..])
  {
    var ps :| Witness(Pattern([item] + p.items, p.toEnd), text, ps);
    assert ps == [ps[0]] + ps[1..];
    ConsPieces(item, p.items, ps[0], ps[1..]);
    k := |ps[0]|;
    assert text[..k] == ps[0];
    assert Witness(p, text[k..], ps[1..]);
  }

  /** If the rest matches nowhere up to the first character that does not fit c, c* followed by it fails. */
  lemma {:induction false} NoStarMatch(c: char, p: Pattern, text: string, k: nat)
    requires k <= |text| && (k < |text| ==> !Fits(c, text[k]))
    requires forall j :: 0 <= j <= k ==> !Begins(p, text[j..])
    ensures !Begins(Pattern([Star(c)] + p.items, p.toEnd), text)
  {
    forall j | k < j <= |text| ensures !InItem(Star(c), text[..j]) {
      assert text[..j][k] == text[k];
    }
    if Begins(Pattern([Star(c)] + p.items, p.toEnd), text) {
      var j := BeginsSplit(Star(c), p, text);
    }
  }

  // ---- what patterns mean ---------------------------------------------------------------

  /** Characters and dots: re stands at the beginning of the text, a dot for any character. */
  ghost predicate StandsAt(re: string, text: string) {
    |re| <= |text| && forall k :: 0 <= k < |re| ==> re[k] == '.' || re[k] == text[k]
  }

  lemma {:induction false} BeginsStands(re: string, text: string)
    requires '*' !in re && '$' !in re
    ensures Begins(Parse(re), text) <==> StandsAt(re, text)
    decreases |re|
  {
    BeginsEmpty(text);
    if re != [] {
      var p := Parse(re[1..]);
      if text != [] {
        BeginsStands(re[1..], text[1..]);
        if StandsAt(re, text) {
          forall k | 0 <= k < |re[1..]| ensures re[1..][k] == '.' || re[1..][k] == text[1..][k] {
            assert re[1..][k] == re[k + 1] && text[1..][k] == text[k + 1];
          }
          BeginsCons(One(re[0]), p, text, 1);
        }
      }
      if Begins(Parse(re), text) {
        var k := BeginsSplit(One(re[0]), p, text);
        forall k | 0 <= k < |re| ensures re[k] == '.' || re[k] == text[k] {
          if k > 0 { assert re[k] == re[1..][k - 1] && text[k] == text[1..][k - 1]; }
        }
      }
    }
  }

  /** A pattern without operators is searched for as a substring, a dot standing for any character; with `^`
      in front of it, only at the beginning. */
  lemma {:induction false} SubstringSearch(re: string, text: string)
    requires '*' !in re && '$' !in re && '^' !in re
    ensures Matches(re, text) <==> exists i :: 0 <= i <= |text| && StandsAt(re, text[i..])
    ensures Matches(['^'] + re, text) <==> StandsAt(re, text)
  {
    forall i | 0 <= i <= |text| ensures Begins(Parse(re), text[i..]) <==> StandsAt(re, text[i..]) {
      BeginsStands(re, text[i..]);
    }
    BeginsStands(re, text);
    assert (['^'] + re)[1..] == re;
  }

  /** `^c*$` matches exactly the texts of nothing but c, or every text if c is a dot. */
  lemma {:induction false} StarWhole(c: char, text: string)
    ensures Matches(['^', c, '*', '$'], text) <==> c == '.' || forall i :: 0 <= i < |text| ==> text[i] == c
  {
    var re := ['^', c, '*', '$'];
    assert re[1..] == [c, '*', '$'] && re[1..][2..] == "$";
    var p := Pattern([Star(c)], true);
    assert Parse(re[1..]) == p && p == Pattern([Star(c)] + [], true);
    if InItem(Star(c), text) {
      BeginsEmpty(text[|text|..]);
      assert text[..|text|] == text;
      BeginsCons(Star(c), Pattern([], true), text, |text|);
    }
    if Begins(p, text) {
      var k := BeginsSplit(Star(c), Pattern([], true), text);
      BeginsEmpty(text[k..]);
      assert text[..k] == text;
    }
  }

  // ---- the matcher ----------------------------------------------------------------------

  /** Searches for re at the beginning of text. */
  method MatchHere(re: string, text: string) returns (r: bool)
    ensures r <==> Begins(Parse(re), text)
    decreases |re|, 0
  {
    BeginsEmpty(text);
    if re == [] {
      return true;
    }
    if |re| >= 2 && re[1] == '*' {
      r := MatchStar(re[0], re[2..], text);
      return;
    }
    if re == "$" {
      return text == [];
    }
    var p := Parse(re[1..]);
    if text != [] && (re[0] == '.' || re[0] == text[0]) {
      r := MatchHere(re[1..], text[1..]);
      if r {
        BeginsCons(One(re[0]), p, text, 1);
      }
    } else {
      r := false;
    }
    if Begins(Parse(re), text) {
      var k := BeginsSplit(One(re[0]), p, text);
    }
  }

  /** Searches for c*re at the beginning of text. */
  method MatchStar(c: char, re: string, text: string) returns (r: bool)
    ensures r <==> Begins(Pattern([Star(c)] + Parse(re).items, Parse(re).toEnd), text)
    decreases |re|, 1
  {
    var k := 0;
    while true
      invariant 0 <= k <= |text| && InItem(Star(c), text[..k])
      invariant forall j :: 0 <= j < k ==> !Begins(Parse(re), text[j..])
      decreases |text| - k
    {
      r := MatchHere(re, text[k..]);
      if r {
        BeginsCons(Star(c), Parse(re), text, k);
        return;
      }
      if k == |text| || !(text[k] == c || c == '.') {
        break;
      }
      k := k + 1;
    }
    NoStarMatch(c, Parse(re), text, k);
  }

  /** Searches for re anywhere in text. */
  method Match(re: string, text: string) returns (r: bool)
    ensures r <==> Matches(re, text)
  {
    if re != [] && re[0] == '^' {
      r := MatchHere(re[1..], text);
      return;
    }
    var i := 0;
    while true
      invariant 0 <= i <= |text|
      invariant forall j :: 0 <= j < i ==> !Begins(Parse(re), text[j..])
      decreases |text| - i
    {
      r := MatchHere(re, text[i..]);
      if r || i == |text| {
        return;
      }
      i := i + 1;
    }
  }
}
