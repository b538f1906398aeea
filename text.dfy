/** String helpers with the semantics of the Python and JavaScript built-ins the source uses. */
module Text {

  /** The characters Python's `str.strip()` removes (Unicode white space). */
  predicate IsPythonSpace(c: char) {
    ('\t' <= c <= '\r') || ('\U{1C}' <= c <= '\U{1F}') || c == ' ' || c == '\U{85}' || c == '\U{A0}'
    || c == '\U{1680}' || ('\U{2000}' <= c <= '\U{200A}') || c == '\U{2028}' || c == '\U{2029}'
    || c == '\U{202F}' || c == '\U{205F}' || c == '\U{3000}'
  }

  /** The characters JavaScript's `String.prototype.trim` removes and `\s` matches
      (WhiteSpace and LineTerminator of ECMAScript). */
  predicate IsJsSpace(c: char) {
    ('\t' <= c <= '\r') || c == ' ' || c == '\U{A0}' || c == '\U{1680}'
    || ('\U{2000}' <= c <= '\U{200A}') || c == '\U{2028}' || c == '\U{2029}'
    || c == '\U{202F}' || c == '\U{205F}' || c == '\U{3000}' || c == '\U{FEFF}'
  }

  /** `s` without its leading white space: a suffix of `s` whose first character is not white. */
  function TrimStart(s: string, ws: char -> bool): (r: string)
    ensures |r| <= |s| && r == s[|s| - |r|..]
    ensures r == [] || !ws(r[0])
    ensures forall i :: 0 <= i < |s| - |r| ==> ws(s[i])
  {
    if s != [] && ws(s[0]) then TrimStart(s[1..], ws) else s
  }

  /** `s` without its trailing white space: a prefix of `s` whose last character is not white. */
  function TrimEnd(s: string, ws: char -> bool): (r: string)
    ensures |r| <= |s| && r == s[..|r|]
    ensures r == [] || !ws(r[|r| - 1])
    ensures forall i :: |r| <= i < |s| ==> ws(s[i])
  {
    if s != [] && ws(s[|s| - 1]) then TrimEnd(s[..|s| - 1], ws) else s
  }

  /** `s` without white space at either end. */
  function Trim(s: string, ws: char -> bool): (r: string)
    ensures r != [] ==> !ws(r[0]) && !ws(r[|r| - 1])
    ensures r == [] <==> forall i :: 0 <= i < |s| ==> ws(s[i])
  {
    TrimEnd(TrimStart(s, ws), ws)
  }

  /** `r` is `s[lo..lo + |r|]` and everything of `s` around it is white space. */
  ghost predicate IsTrimAt(s: string, ws: char -> bool, r: string, lo: int) {
    0 <= lo <= |s| - |r| && r == s[lo..lo + |r|]
    && (forall i :: 0 <= i < lo ==> ws(s[i]))
    && (forall i :: lo + |r| <= i < |s| ==> ws(s[i]))
  }

  /** What is left of `s` after Trim is exactly the part between the white space at its ends. */
  lemma TrimIsInfix(s: string, ws: char -> bool)
    ensures exists lo :: IsTrimAt(s, ws, Trim(s, ws), lo)
  {
    var t := TrimStart(s, ws);
    var r := TrimEnd(t, ws);
    var lo := |s| - |t|;
    assert r == s[lo..lo + |r|] by {
      assert t == s[lo..] && r == t[..|r|];
    }
    forall i | lo + |r| <= i < |s| ensures ws(s[i]) {
      assert s[i] == t[i - lo];
    }
    assert IsTrimAt(s, ws, r, lo);
    assert r == Trim(s, ws);
  }

  /** A character absent from `s` is absent from its trimmed form. */
  lemma TrimKeepsAbsent(s: string, ws: char -> bool, c: char)
    requires c !in s
    ensures c !in Trim(s, ws)
  {
    var t := Trim(s, ws);
    TrimIsInfix(s, ws);
    var lo :| IsTrimAt(s, ws, t, lo);
    forall i | 0 <= i < |t| ensures t[i] != c {
      assert t[i] == s[lo + i];
    }
  }

  /** Trimming twice is trimming once. */
  lemma TrimIdempotent(s: string, ws: char -> bool)
    ensures Trim(Trim(s, ws), ws) == Trim(s, ws)
  {
    var r := Trim(s, ws);
    if r != [] {
      assert TrimStart(r, ws) == r;
      assert TrimEnd(r, ws) == r;
    }
  }

  /** Trim leaves a string with no white space at its ends unchanged and removes white space
      added in front of it. */
  lemma TrimPadded(pad: string, t: string, ws: char -> bool)
    requires forall i :: 0 <= i < |pad| ==> ws(pad[i])
    requires t != [] && !ws(t[0]) && !ws(t[|t| - 1])
    ensures Trim(pad + t, ws) == t
    decreases |pad|
  {
    if pad == [] {
      assert pad + t == t;
    } else {
      assert (pad + t)[1..] == pad[1..] + t;
      TrimPadded(pad[1..], t, ws);
    }
  }

  /** White space in front of a text whose first character is not white is all TrimStart drops. */
  lemma {:induction false} TrimStartPadded(pad: string, t: string, ws: char -> bool)
    requires forall i :: 0 <= i < |pad| ==> ws(pad[i])
    requires t != [] && !ws(t[0])
    ensures TrimStart(pad + t, ws) == t
    decreases |pad|
  {
    if pad == [] {
      assert pad + t == t;
    } else {
      assert (pad + t)[1..] == pad[1..] + t;
      TrimStartPadded(pad[1..], t, ws);
    }
  }

  /** White space after a text whose last character is not white is all TrimEnd drops. */
  lemma {:induction false} TrimEndPadded(t: string, pad: string, ws: char -> bool)
    requires forall i :: 0 <= i < |pad| ==> ws(pad[i])
    requires t != [] && !ws(t[|t| - 1])
    ensures TrimEnd(t + pad, ws) == t
    decreases |pad|
  {
    if pad == [] {
      assert t + pad == t;
    } else {
      var q := pad[..|pad| - 1];
      assert (t + pad)[..|t + pad| - 1] == t + q;
      TrimEndPadded(t, q, ws);
    }
  }

  /** Trim removes white space on both sides of a text with no white space at its ends. */
  lemma TrimAround(pad: string, t: string, pad2: string, ws: char -> bool)
    requires forall i :: 0 <= i < |pad| ==> ws(pad[i])
    requires forall i :: 0 <= i < |pad2| ==> ws(pad2[i])
    requires t != [] && !ws(t[0]) && !ws(t[|t| - 1])
    ensures Trim(pad + t + pad2, ws) == t
  {
    assert pad + t + pad2 == pad + (t + pad2);
    assert (t + pad2)[0] == t[0];
    TrimStartPadded(pad, t + pad2, ws);
    TrimEndPadded(t, pad2, ws);
  }

  /** Python's `str.strip()` with no argument. */
  function Strip(s: string): string {
    Trim(s, IsPythonSpace)
  }

  /** JavaScript's `String.prototype.trim()`. */
  function JsTrim(s: string): string {
    Trim(s, IsJsSpace)
  }

  /** The pieces joined back with `sep` between them. */
  function Join(pieces: seq<string>, sep: string): string {
    if pieces == [] then ""
    else if |pieces| == 1 then pieces[0]
    else pieces[0] + sep + Join(pieces[1..], sep)
  }

  /** Python's `s.split(sep)` for a one-character separator: the text between separators,
      always at least one piece (so `"".split(",") == [""]`); joining the pieces gives `s` back. */
  function Split(s: string, sep: char): (r: seq<string>)
    ensures |r| >= 1
    ensures forall i :: 0 <= i < |r| ==> sep !in r[i]
    ensures Join(r, [sep]) == s
  {
    if s == [] then [[]]
    else
      var rest := Split(s[1..], sep);
      if s[0] == sep then
        assert [[]] + rest == [[]] + rest;
        [[]] + rest
      else
        var r := [[s[0]] + rest[0]] + rest[1..];
        assert Join(r, [sep]) == s by {
          if |rest| == 1 {
            assert s == [s[0]] + s[1..];
          } else {
            assert r[1..] == rest[1..];
            assert Join(rest, [sep]) == rest[0] + [sep] + Join(rest[1..], [sep]);
            assert s == [s[0]] + s[1..];
          }
        }
        r
  }

  lemma SplitNoSep(a: string, sep: char)
    requires sep !in a
    ensures Split(a, sep) == [a]
  {
    if a != [] {
      SplitNoSep(a[1..], sep);
    }
  }

  lemma {:induction false} SplitAfterPiece(a: string, t: string, sep: char)
    requires sep !in a
    ensures Split(a + [sep] + t, sep) == [a] + Split(t, sep)
    decreases |a|
  {
    if a == [] {
      assert a + [sep] + t == [sep] + t;
      assert ([sep] + t)[1..] == t;
    } else {
      var s := a + [sep] + t;
      assert s[1..] == a[1..] + [sep] + t;
      SplitAfterPiece(a[1..], t, sep);
      assert [a[0]] + a[1..] == a;
    }
  }

  /** Splitting pieces that were joined with the separator, none of which contains it,
      gives the pieces back. */
  lemma {:induction false} SplitJoin(pieces: seq<string>, sep: char)
    requires |pieces| >= 1
    requires forall i :: 0 <= i < |pieces| ==> sep !in pieces[i]
    ensures Split(Join(pieces, [sep]), sep) == pieces
  {
    if |pieces| == 1 {
      SplitNoSep(pieces[0], sep);
    } else {
      SplitJoin(pieces[1..], sep);
      SplitAfterPiece(pieces[0], Join(pieces[1..], [sep]), sep);
      assert [pieces[0]] + pieces[1..] == pieces;
    }
  }

  /** `q` occurs in `s` starting at index `i`. */
  ghost predicate OccursAt(s: string, q: string, i: int) {
    0 <= i && i + |q| <= |s| && s[i..i + |q|] == q
  }

  /** Substring test: `q in s` in Python, SQL `LIKE '%q%'` without wildcards in `q`. */
  predicate Contains(s: string, q: string)
    decreases |s|
  {
    |q| <= |s| && (s[..|q|] == q || Contains(s[1..], q))
  }

  lemma {:induction false} ContainsIffOccurs(s: string, q: string)
    ensures Contains(s, q) <==> exists i :: OccursAt(s, q, i)
    decreases |s|
  {
    if |q| <= |s| {
      if s[..|q|] == q {
        assert OccursAt(s, q, 0);
      } else {
        ContainsIffOccurs(s[1..], q);
        if Contains(s[1..], q) {
          var i :| OccursAt(s[1..], q, i);
          assert s[1..][i..i + |q|] == s[i + 1..i + 1 + |q|];
          assert OccursAt(s, q, i + 1);
        }
        if i :| OccursAt(s, q, i) {
          assert i != 0;
          assert s[1..][i - 1..i - 1 + |q|] == s[i..i + |q|];
          assert OccursAt(s[1..], q, i - 1);
        }
      }
    }
  }

  /** The empty string occurs in every string. */
  lemma ContainsEmpty(s: string)
    ensures Contains(s, [])
  {
    assert s[..0] == [];
  }

  /** ASCII lower-casing of one character. */
  function LowerChar(c: char): char {
    if 'A' <= c <= 'Z' then (c as int + 32) as char else c
  }

  /** ASCII lower-casing, position by position. */
  function Lower(s: string): (r: string)
    ensures |r| == |s|
    ensures forall i :: 0 <= i < |s| ==> r[i] == LowerChar(s[i])
  {
    if s == [] then [] else [LowerChar(s[0])] + Lower(s[1..])
  }
}
