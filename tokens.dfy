/**
 * parse_list (topsis.py:12-18): split a command-line argument on ',', strip
 * each piece, drop the blank ones, and fail when there is no comma or
 * nothing is left.
 */
module Tokens {
  import opened Wrappers
  import opened Errors
  import opened Seqs

  /** The characters Python's str.strip() removes when given no argument. */
  predicate IsSpace(c: char) {
    || c == ' '
    || ('\t' <= c <= '\r')
    || ('\U{1C}' <= c <= '\U{1F}')
    || c == '\U{85}' || c == '\U{A0}' || c == '\U{1680}'
    || ('\U{2000}' <= c <= '\U{200A}')
    || c == '\U{2028}' || c == '\U{2029}' || c == '\U{202F}' || c == '\U{205F}' || c == '\U{3000}'
  }

  /** Every character is white space (vacuously so for the empty string). */
  predicate Blank(s: string) {
    forall k :: 0 <= k < |s| ==> IsSpace(s[k])
  }

  /** The first index at or after i whose character is not white space (|s| if none). */
  function SkipSpaces(s: string, i: nat): (j: nat)
    requires i <= |s|
    ensures i <= j <= |s|
    ensures forall k :: i <= k < j ==> IsSpace(s[k])
    ensures j == |s| || !IsSpace(s[j])
    decreases |s| - i
  {
    if i < |s| && IsSpace(s[i]) then SkipSpaces(s, i + 1) else i
  }

  /** The index just past the last character before j, and not before lo, that is not white space (lo if none). */
  function BackSpaces(s: string, lo: nat, j: nat): (e: nat)
    requires lo <= j <= |s|
    ensures lo <= e <= j
    ensures forall k :: e <= k < j ==> IsSpace(s[k])
    ensures e == lo || !IsSpace(s[e - 1])
    decreases j
  {
    if j > lo && IsSpace(s[j - 1]) then BackSpaces(s, lo, j - 1) else j
  }

  /** str.strip(): no white space left at either end, and empty exactly when s is blank. */
  function Strip(s: string): (r: string)
    ensures |r| <= |s|
    ensures r == [] || (!IsSpace(r[0]) && !IsSpace(r[|r| - 1]))
    ensures r == [] <==> Blank(s)
  {
    var a := SkipSpaces(s, 0);
    var b := BackSpaces(s, a, |s|);
    assert a == b ==> Blank(s);
    s[a..b]
  }

  /**
   * Strip(s) is the slice s[a..b] whenever everything outside it is white
   * space and it starts and ends with a character that is not.
   */
  lemma StripUnique(s: string, a: nat, b: nat)
    requires a <= b <= |s|
    requires forall k :: 0 <= k < a ==> IsSpace(s[k])
    requires forall k :: b <= k < |s| ==> IsSpace(s[k])
    requires a == b || (!IsSpace(s[a]) && !IsSpace(s[b - 1]))
    ensures Strip(s) == s[a..b]
  {
    if a < b {
      var a' := SkipSpaces(s, 0);
      assert a' == a;
      var b' := BackSpaces(s, a, |s|);
      assert b' == b;
    } else {
      assert Blank(s);
    }
  }

  lemma StripIdempotent(s: string)
    ensures Strip(Strip(s)) == Strip(s)
  {
    var r := Strip(s);
    StripUnique(r, 0, |r|);
    assert r[0..|r|] == r;
  }

  /** Stripping adds no character. */
  lemma StripKeepsOut(s: string, c: char)
    requires c !in s
    ensures c !in Strip(s)
  {
    var a := SkipSpaces(s, 0);
    var b := BackSpaces(s, a, |s|);
    assert forall k :: 0 <= k < b - a ==> Strip(s)[k] == s[a + k];
  }

  /** str.split(','): the pieces between the commas, always at least one. */
  function Split(s: string): (r: seq<string>)
    ensures |r| >= 1
    ensures forall k :: 0 <= k < |r| ==> ',' !in r[k]
  {
    if s == [] then [[]]
    else
      var rest := Split(s[1..]);
      if s[0] == ',' then [[]] + rest
      else [[s[0]] + rest[0]] + rest[1..]
  }

  /** ','.join(parts). */
  function Join(parts: seq<string>): string
    requires |parts| >= 1
  {
    if |parts| == 1 then parts[0] else parts[0] + [','] + Join(parts[1..])
  }

  /** Joining the pieces of a split gives back the original string. */
  lemma {:induction false} JoinSplit(s: string)
    ensures Join(Split(s)) == s
  {
    if s != [] {
      var rest := Split(s[1..]);
      JoinSplit(s[1..]);
      if s[0] == ',' {
        assert Split(s)[1..] == rest;
      } else if |rest| == 1 {
        assert s == [s[0]] + rest[0];
      } else {
        var r := Split(s);
        assert r[1..] == rest[1..];
        assert Join(rest) == rest[0] + [','] + Join(rest[1..]);
        assert s == [s[0]] + s[1..];
      }
    }
  }

  /** Splitting a comma-free word followed by more text. */
  lemma {:induction false} SplitPrefix(w: string, s: string)
    requires ',' !in w
    ensures Split(w + s) == [w + Split(s)[0]] + Split(s)[1..]
  {
    if w != [] {
      assert (w + s)[1..] == w[1..] + s;
      assert (w + s)[0] == w[0] != ',';
      SplitPrefix(w[1..], s);
      var rest := Split(w[1..] + s);
      assert Split(w + s) == [[w[0]] + rest[0]] + rest[1..];
      assert rest[0] == w[1..] + Split(s)[0];
      assert rest[1..] == Split(s)[1..];
      assert [w[0]] + (w[1..] + Split(s)[0]) == w + Split(s)[0];
    } else {
      assert w + s == s;
      assert w + Split(s)[0] == Split(s)[0];
      assert Split(s) == [Split(s)[0]] + Split(s)[1..];
    }
  }

  /** Splitting pieces joined by commas gives back the pieces, when none holds a comma. */
  lemma {:induction false} SplitJoin(parts: seq<string>)
    requires |parts| >= 1
    requires forall k :: 0 <= k < |parts| ==> ',' !in parts[k]
    ensures Split(Join(parts)) == parts
  {
    if |parts| == 1 {
      SplitPrefix(parts[0], []);
      assert parts[0] + [] == parts[0];
      assert Split(parts[0]) == [parts[0]];
    } else {
      SplitJoin(parts[1..]);
      var tail := [','] + Join(parts[1..]);
      assert Join(parts) == parts[0] + tail;
      SplitPrefix(parts[0], tail);
      assert tail[1..] == Join(parts[1..]);
      assert Split(tail) == [[]] + parts[1..];
      assert Split(tail)[0] == [] && Split(tail)[1..] == parts[1..];
      assert parts[0] + [] == parts[0];
      assert parts == [parts[0]] + parts[1..];
    }
  }

  /** Every piece is blank. */
  predicate AllBlank(parts: seq<string>) {
    forall k :: 0 <= k < |parts| ==> Blank(parts[k])
  }

  /** Every character is a comma or white space. */
  predicate Separators(s: string) {
    forall k :: 0 <= k < |s| ==> s[k] == ',' || IsSpace(s[k])
  }

  lemma SeparatorsCons(s: string)
    requires s != []
    ensures Separators(s) <==> (s[0] == ',' || IsSpace(s[0])) && Separators(s[1..])
  {
    assert forall k :: 1 <= k < |s| ==> s[k] == s[1..][k - 1];
  }

  lemma BlankCons(c: char, t: string)
    ensures Blank([c] + t) <==> IsSpace(c) && Blank(t)
  {
    var u := [c] + t;
    assert u[0] == c;
    assert forall k :: 0 <= k < |t| ==> t[k] == u[k + 1];
    assert forall k :: 1 <= k < |u| ==> u[k] == t[k - 1];
  }

  lemma AllBlankCons(p: string, rest: seq<string>)
    ensures AllBlank([p] + rest) <==> Blank(p) && AllBlank(rest)
  {
    var u := [p] + rest;
    assert u[0] == p;
    assert forall k :: 0 <= k < |rest| ==> rest[k] == u[k + 1];
    assert forall k :: 1 <= k < |u| ==> u[k] == rest[k - 1];
  }

  /** Every piece of a split is blank exactly when every character is a comma or white space. */
  lemma {:induction false} SplitAllBlank(s: string)
    ensures AllBlank(Split(s)) <==> Separators(s)
  {
    if s != [] {
      SplitAllBlank(s[1..]);
      SeparatorsCons(s);
      var rest := Split(s[1..]);
      if s[0] == ',' {
        assert Split(s) == [[]] + rest;
        AllBlankCons([], rest);
      } else {
        assert Split(s) == [[s[0]] + rest[0]] + rest[1..];
        AllBlankCons([s[0]] + rest[0], rest[1..]);
        assert rest == [rest[0]] + rest[1..];
        AllBlankCons(rest[0], rest[1..]);
        BlankCons(s[0], rest[0]);
      }
    }
  }

  /** The comprehension's filter: the piece is kept when its stripped form is not "". */
  predicate NonBlankPiece(piece: string) {
    Strip(piece) != []
  }

  /** The pieces of the split that parse_list keeps, by position. */
  function KeptPieces(arg: string): (kept: seq<nat>)
    ensures forall k :: 0 <= k < |kept| ==> kept[k] < |Split(arg)| && NonBlankPiece(Split(arg)[kept[k]])
    ensures forall a, b :: 0 <= a < b < |kept| ==> kept[a] < kept[b]
  {
    Select(Split(arg), NonBlankPiece)
  }

  /** The kept pieces, stripped, in their original order. */
  function KeptTokens(arg: string): (tokens: seq<string>)
    ensures |tokens| == |KeptPieces(arg)|
  {
    var pieces := Split(arg);
    var kept := KeptPieces(arg);
    seq(|kept|, k requires 0 <= k < |kept| => Strip(pieces[kept[k]]))
  }

  /**
   * parse_list(arg, name): the stripped non-blank pieces of arg split on ',',
   * in their original order; an error naming the list when arg has no comma
   * or when no piece is left.
   */
  function ParseList(arg: string, name: string): (r: Result<seq<string>, Error>)
    ensures r.Ok? ==> |r.value| >= 1
    ensures r.Err? ==> r.error == NotCommaSeparated(name) || r.error == EmptyList(name)
  {
    if ',' !in arg then Err(NotCommaSeparated(name))
    else if |KeptPieces(arg)| == 0 then Err(EmptyList(name))
    else Ok(KeptTokens(arg))
  }

  /** Every token parse_list returns is non-empty, comma-free and trimmed at both ends. */
  lemma ParseListClean(arg: string, name: string)
    requires ParseList(arg, name).Ok?
    ensures var tokens := ParseList(arg, name).value;
      forall k :: 0 <= k < |tokens| ==>
        && tokens[k] != []
        && ',' !in tokens[k]
        && !IsSpace(tokens[k][0])
        && !IsSpace(tokens[k][|tokens[k]| - 1])
  {
    var tokens := ParseList(arg, name).value;
    var pieces := Split(arg);
    var kept := KeptPieces(arg);
    forall k | 0 <= k < |tokens|
      ensures tokens[k] != [] && ',' !in tokens[k]
      ensures !IsSpace(tokens[k][0]) && !IsSpace(tokens[k][|tokens[k]| - 1])
    {
      var i := kept[k];
      assert i < |pieces| && NonBlankPiece(pieces[i]);
      var piece := pieces[i];
      assert tokens[k] == Strip(piece);
      StripKeepsOut(piece, ',');
    }
  }

  /** The two failures of parse_list, each with both directions. */
  lemma ParseListFailures(arg: string, name: string)
    ensures ParseList(arg, name) == Err(NotCommaSeparated(name)) <==> ',' !in arg
    ensures ParseList(arg, name) == Err(EmptyList(name))
        <==> ',' in arg && forall k :: 0 <= k < |arg| ==> arg[k] == ',' || IsSpace(arg[k])
  {
    var pieces := Split(arg);
    SplitAllBlank(arg);
    var kept := KeptPieces(arg);
    assert |kept| == 0 <==> forall i :: 0 <= i < |pieces| ==> Blank(pieces[i]) by {
      if |kept| > 0 {
        assert kept[0] in kept;
      }
    }
  }

  /**
   * On success the tokens are exactly the non-blank pieces of the split,
   * stripped, in their original order: kept[k] is the piece behind token k.
   */
  lemma ParseListTokens(arg: string, name: string)
    requires ParseList(arg, name).Ok?
    ensures var tokens := ParseList(arg, name).value;
      var pieces := Split(arg);
      var kept := KeptPieces(arg);
      && |tokens| == |kept|
      && (forall k :: 0 <= k < |kept| ==> kept[k] < |pieces| && tokens[k] == Strip(pieces[kept[k]]))
      && (forall a, b :: 0 <= a < b < |kept| ==> kept[a] < kept[b])
      && (forall i :: 0 <= i < |pieces| ==> (i in kept <==> !Blank(pieces[i])))
  {
  }

  /** The pieces of "1,1,". */
  lemma SplitExample()
    ensures Split("1,1,") == ["1", "1", ""]
  {
    assert Split("") == [""];
    assert Split(",") == ["", ""];
    assert Split("1,") == ["1", ""] by {
      assert "1,"[1..] == ",";
      assert ['1'] + "" == "1";
    }
    assert Split(",1,") == ["", "1", ""] by {
      assert ",1,"[1..] == "1,";
    }
    assert "1,1,"[1..] == ",1,";
  }

  /** "1" is its own stripped form. */
  lemma StripExample()
    ensures Strip("1") == "1"
  {
    assert !IsSpace('1');
    assert |"1"| == 1 && "1"[0] == '1';
    StripUnique("1", 0, 1);
    assert "1"[0..1] == "1";
  }

  /** The first two pieces of "1,1," are kept and the last is not. */
  lemma KeptExample()
    ensures KeptPieces("1,1,") == [0, 1]
  {
    SplitExample();
    StripExample();
    var one: seq<string> := ["1"];
    var two: seq<string> := ["1", "1"];
    var three: seq<string> := ["1", "1", ""];
    assert one[..0] == [];
    assert two[..1] == one;
    assert three[..2] == two;
  }

  /** The tokens kept from "1,1,". */
  lemma KeptTokensExample()
    ensures KeptTokens("1,1,") == ["1", "1"]
  {
    var t := KeptTokens("1,1,");
    assert |t| == 2 && t[0] == Strip("1") && t[1] == Strip("1") by {
      KeptExample();
      SplitExample();
    }
    StripExample();
    PairOf(t, "1", "1");
  }

  /** The trailing empty token of "1,1," is dropped. */
  lemma TrailingCommaDropped()
    ensures ParseList("1,1,", "Weights") == Ok(["1", "1"])
  {
    assert "1,1,"[1] == ',';
    KeptExample();
    KeptTokensExample();
  }

  lemma PairOf(p: seq<string>, x: string, y: string)
    requires |p| == 2 && p[0] == x && p[1] == y
    ensures p == [x, y]
  {
  }
}
