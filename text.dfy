/** The string operations the extractor relies on: Python's `str.split()`,
    `str.strip()`, `str.split(sep)` and `sep.join(...)` for a one-character
    separator, the `[ ]+` -> `' '` substitution, and the tag test. */
module Text {

  /** The characters Python's `str.isspace()` accepts (and `str.split()` and
      `str.strip()` treat as whitespace). */
  predicate IsSpace(c: char) {
    c == ' ' || ('\t' <= c <= '\r') || ('\U{1C}' <= c <= '\U{1F}')
    || c == '\U{85}' || c == '\U{A0}' || c == '\U{1680}'
    || ('\U{2000}' <= c <= '\U{200A}') || c == '\U{2028}' || c == '\U{2029}'
    || c == '\U{202F}' || c == '\U{205F}' || c == '\U{3000}'
  }

  predicate NoSpace(s: string) {
    forall k :: 0 <= k < |s| ==> !IsSpace(s[k])
  }

  /** Every character is whitespace. */
  predicate Blank(s: string) {
    forall k :: 0 <= k < |s| ==> IsSpace(s[k])
  }

  /** No whitespace at either end: what `str.strip()` leaves. */
  predicate Stripped(s: string) {
    s == [] || (!IsSpace(s[0]) && !IsSpace(s[|s| - 1]))
  }

  /** Positions `k` and `k + 1` both hold `' '`. */
  predicate DoubleSpaceAt(s: string, k: int)
    requires 0 <= k < |s| - 1
  {
    s[k] == ' ' && s[k + 1] == ' '
  }

  /** No two consecutive `' '` characters. */
  predicate NoDoubleSpace(s: string) {
    forall k :: 0 <= k < |s| - 1 ==> !DoubleSpaceAt(s, k)
  }

  /** The non-whitespace characters of `s`, in order. */
  function DropSpace(s: string): string {
    if s == [] then [] else (if IsSpace(s[0]) then [] else [s[0]]) + DropSpace(s[1..])
  }

  /** `s` with every occurrence of `c` removed. */
  function DropChar(c: char, s: string): string {
    if s == [] then [] else (if s[0] == c then [] else [s[0]]) + DropChar(c, s[1..])
  }

  function Concat(ws: seq<string>): string {
    if ws == [] then [] else ws[0] + Concat(ws[1..])
  }

  lemma {:induction false} DropSpaceAppend(a: string, b: string)
    ensures DropSpace(a + b) == DropSpace(a) + DropSpace(b)
  {
    if a != [] {
      assert (a + b)[1..] == a[1..] + b;
      DropSpaceAppend(a[1..], b);
    } else {
      assert a + b == b;
    }
  }

  lemma {:induction false} DropSpaceOfWord(s: string)
    requires NoSpace(s)
    ensures DropSpace(s) == s
  {
    if s != [] {
      DropSpaceOfWord(s[1..]);
    }
  }

  lemma {:induction false} DropSpaceOfBlank(s: string)
    requires Blank(s)
    ensures DropSpace(s) == []
  {
    if s != [] {
      DropSpaceOfBlank(s[1..]);
    }
  }

  // ---------------------------------------------------------------------
  // str.split()

  /** Length of the leading run of non-whitespace characters. */
  function WordLength(s: string): (n: nat)
    ensures n <= |s|
    ensures forall k :: 0 <= k < n ==> !IsSpace(s[k])
    ensures n < |s| ==> IsSpace(s[n])
  {
    if s == [] || IsSpace(s[0]) then 0 else 1 + WordLength(s[1..])
  }

  /** `s.split()`: the maximal runs of non-whitespace characters. Every piece
      is non-empty and holds no whitespace. */
  function Split(s: string): (ws: seq<string>)
    ensures forall k :: 0 <= k < |ws| ==> ws[k] != [] && NoSpace(ws[k])
    decreases |s|
  {
    if s == [] then []
    else if IsSpace(s[0]) then Split(s[1..])
    else
      var n := WordLength(s);
      [s[..n]] + Split(s[n..])
  }

  /** Splitting loses exactly the whitespace: the pieces, put back together,
      are the non-whitespace characters of the input. */
  lemma {:induction false} SplitKeepsText(s: string)
    ensures Concat(Split(s)) == DropSpace(s)
    decreases |s|
  {
    if s == [] {
    } else if IsSpace(s[0]) {
      SplitKeepsText(s[1..]);
    } else {
      var n := WordLength(s);
      var ws := Split(s[n..]);
      SplitKeepsText(s[n..]);
      assert ([s[..n]] + ws)[1..] == ws;
      assert s == s[..n] + s[n..];
      DropSpaceAppend(s[..n], s[n..]);
      DropSpaceOfWord(s[..n]);
    }
  }

  /** A text without whitespace is one piece, and an all-whitespace text none. */
  lemma {:induction false} SplitOfWord(s: string)
    requires s != [] && NoSpace(s)
    ensures Split(s) == [s]
  {
    var n := WordLength(s);
    assert n == |s|;
    assert s[..n] == s;
    assert s[n..] == [];
    assert Split(s[n..]) == [];
  }

  lemma {:induction false} SplitOfBlank(s: string)
    requires Blank(s)
    ensures Split(s) == []
  {
    if s != [] {
      SplitOfBlank(s[1..]);
    }
  }

  /** Leading whitespace yields no piece. */
  lemma {:induction false} SplitAfterBlank(b: string, s: string)
    requires Blank(b)
    ensures Split(b + s) == Split(s)
    decreases |b|
  {
    if b == [] {
      assert b + s == s;
    } else {
      assert (b + s)[1..] == b[1..] + s;
      assert IsSpace((b + s)[0]);
      SplitAfterBlank(b[1..], s);
    }
  }

  /** The pieces are maximal: a word followed by whitespace, or by nothing,
      is one whole piece, and splitting goes on after it. With
      `SplitAfterBlank` this fixes every piece boundary. */
  lemma {:induction false} SplitAfterWord(w: string, s: string)
    requires w != [] && NoSpace(w)
    requires s == [] || IsSpace(s[0])
    ensures Split(w + s) == [w] + Split(s)
  {
    var x := w + s;
    var n := WordLength(x);
    assert forall k :: 0 <= k < |w| ==> !IsSpace(x[k]);
    assert |w| < |x| ==> IsSpace(x[|w|]);
    assert n == |w|;
    assert x[..n] == w && x[n..] == s;
  }

  /** Round trip: splitting words joined on a whitespace character gives
      back the words. */
  lemma {:induction false} SplitJoinWith(c: char, ws: seq<string>)
    requires IsSpace(c)
    requires forall k :: 0 <= k < |ws| ==> ws[k] != [] && NoSpace(ws[k])
    ensures Split(JoinWith(c, ws)) == ws
  {
    if |ws| == 1 {
      SplitAfterWord(ws[0], []);
      assert ws[0] + [] == ws[0];
    } else if |ws| > 1 {
      var tail := ws[1..];
      assert [ws[0]] + tail == ws;
      assert forall k :: 0 <= k < |tail| ==> tail[k] == ws[k + 1];
      SplitJoinWith(c, tail);
      var rest := JoinWith(c, tail);
      var gap := [c] + rest;
      assert JoinWith(c, ws) == ws[0] + gap;
      SplitAfterWord(ws[0], gap);
      SplitAfterBlank([c], rest);
    }
  }

  // ---------------------------------------------------------------------
  // str.strip()

  /** `s.lstrip()`: a suffix of `s`. */
  function LStrip(s: string): (r: string)
    ensures |r| <= |s| && r == s[|s| - |r|..]
  {
    if s != [] && IsSpace(s[0]) then LStrip(s[1..]) else s
  }

  /** `s.rstrip()`: a prefix of `s`. */
  function RStrip(s: string): (r: string)
    ensures |r| <= |s| && r == s[..|r|]
  {
    if s != [] && IsSpace(s[|s| - 1]) then RStrip(s[..|s| - 1]) else s
  }

  /** `lstrip()` drops exactly the leading whitespace: what it drops is
      blank and what it keeps does not start with whitespace. */
  lemma {:induction false} LStripSpec(s: string)
    ensures LStrip(s) == [] || !IsSpace(LStrip(s)[0])
    ensures Blank(s[..|s| - |LStrip(s)|])
  {
    if s != [] && IsSpace(s[0]) {
      var t := s[1..];
      LStripSpec(t);
      var b := t[..|t| - |LStrip(t)|];
      var d := s[..|s| - |LStrip(s)|];
      assert LStrip(s) == LStrip(t);
      assert d == [s[0]] + b;
      forall k | 0 <= k < |d|
        ensures IsSpace(d[k])
      {
        if k > 0 {
          assert d[k] == b[k - 1];
        }
      }
    } else {
      assert s[..0] == [];
    }
  }

  /** `rstrip()` drops exactly the trailing whitespace. */
  lemma {:induction false} RStripSpec(s: string)
    ensures RStrip(s) == [] || !IsSpace(RStrip(s)[|RStrip(s)| - 1])
    ensures Blank(s[|RStrip(s)|..])
  {
    if s != [] && IsSpace(s[|s| - 1]) {
      var p := s[..|s| - 1];
      RStripSpec(p);
      assert s[|RStrip(s)|..] == p[|RStrip(s)|..] + [s[|s| - 1]];
    } else {
      assert s[|s|..] == [];
    }
  }

  /** `s.strip()`. */
  function Strip(s: string): string {
    RStrip(LStrip(s))
  }

  lemma {:induction false} LStripDropsSpace(s: string)
    ensures DropSpace(LStrip(s)) == DropSpace(s)
  {
    var l := LStrip(s);
    LStripSpec(s);
    assert s == s[..|s| - |l|] + l;
    DropSpaceAppend(s[..|s| - |l|], l);
    DropSpaceOfBlank(s[..|s| - |l|]);
  }

  lemma {:induction false} RStripDropsSpace(s: string)
    ensures DropSpace(RStrip(s)) == DropSpace(s)
  {
    var r := RStrip(s);
    RStripSpec(s);
    assert s == r + s[|r|..];
    DropSpaceAppend(r, s[|r|..]);
    DropSpaceOfBlank(s[|r|..]);
  }

  /** `strip()` leaves no whitespace at either end, drops nothing but
      whitespace, and keeps a string that is already stripped. */
  lemma {:induction false} StripSpec(s: string)
    ensures Stripped(Strip(s))
    ensures DropSpace(Strip(s)) == DropSpace(s)
    ensures Stripped(s) ==> Strip(s) == s
  {
    var l := LStrip(s);
    var r := RStrip(l);
    LStripDropsSpace(s);
    RStripDropsSpace(l);
    LStripSpec(s);
    RStripSpec(l);
    if r != [] {
      assert r[0] == l[0];
    }
  }

  /** `strip()` returns a contiguous piece of its input. */
  lemma {:induction false} StripIsSlice(s: string)
    ensures var a := |s| - |LStrip(s)|; a + |Strip(s)| <= |s| && Strip(s) == s[a..a + |Strip(s)|]
  {
    var l := LStrip(s);
    var r := RStrip(l);
    var a := |s| - |l|;
    assert r == l[..|r|];
    assert l == s[a..];
    assert s[a..][..|r|] == s[a..a + |r|];
  }

  /** A piece of a text without double spaces has none either. */
  lemma SliceKeepsNoDoubleSpace(s: string, a: int, b: int)
    requires NoDoubleSpace(s) && 0 <= a <= b <= |s|
    ensures NoDoubleSpace(s[a..b])
  {
    var t := s[a..b];
    forall k | 0 <= k < |t| - 1
      ensures !DoubleSpaceAt(t, k)
    {
      assert !DoubleSpaceAt(s, a + k);
    }
  }

  /** The same for a piece given by its start. */
  lemma PieceKeepsNoDoubleSpace(s: string, t: string, a: int)
    requires NoDoubleSpace(s) && 0 <= a && a + |t| <= |s| && t == s[a..a + |t|]
    ensures NoDoubleSpace(t)
  {
    SliceKeepsNoDoubleSpace(s, a, a + |t|);
  }

  /** Prefixing a character keeps a text free of double spaces unless both
      the character and the text's first one are spaces. */
  lemma ConsKeepsNoDoubleSpace(c: char, t: string)
    requires NoDoubleSpace(t)
    requires t != [] && c == ' ' ==> t[0] != ' '
    ensures NoDoubleSpace([c] + t)
  {
    var r := [c] + t;
    forall k | 0 <= k < |r| - 1
      ensures !DoubleSpaceAt(r, k)
    {
      if k > 0 {
        assert !DoubleSpaceAt(t, k - 1);
      }
    }
  }

  lemma {:induction false} StripKeepsNoDoubleSpace(s: string)
    requires NoDoubleSpace(s)
    ensures NoDoubleSpace(Strip(s))
  {
    var l := LStrip(s);
    PieceKeepsNoDoubleSpace(s, l, |s| - |l|);
    PieceKeepsNoDoubleSpace(l, RStrip(l), 0);
  }

  lemma {:induction false} StripKeepsAbsent(c: char, s: string)
    requires c !in s
    ensures c !in Strip(s)
  {
    StripIsSlice(s);
    var a := |s| - |LStrip(s)|;
    assert forall k :: 0 <= k < |Strip(s)| ==> Strip(s)[k] == s[a + k];
  }

  // ---------------------------------------------------------------------
  // MULTI_SPACES_REGEX.sub(' ', s)

  /** Replaces every run of `' '` by a single `' '` (other whitespace is
      left alone). */
  function CollapseSpaces(s: string): (r: string)
    ensures NoDoubleSpace(r)
    ensures |r| <= |s|
    ensures r == [] <==> s == []
    ensures r != [] ==> r[0] == s[0]
  {
    if |s| <= 1 then
      assert |s| == 0 || |s| - 1 == 0;
      s
    else if s[0] == ' ' && s[1] == ' ' then CollapseSpaces(s[1..])
    else
      var t := CollapseSpaces(s[1..]);
      ConsKeepsNoDoubleSpace(s[0], t);
      [s[0]] + t
  }

  /** Collapsing removes only spaces, and changes nothing in a text that has
      no run of two spaces. */
  lemma {:induction false} CollapseSpacesSpec(s: string)
    ensures DropChar(' ', CollapseSpaces(s)) == DropChar(' ', s)
    ensures NoDoubleSpace(s) ==> CollapseSpaces(s) == s
  {
    if |s| > 1 {
      if NoDoubleSpace(s) {
        SliceKeepsNoDoubleSpace(s, 1, |s|);
        assert s[1..|s|] == s[1..];
      }
      CollapseSpacesSpec(s[1..]);
      if s[0] == ' ' && s[1] == ' ' {
        assert DoubleSpaceAt(s, 0);
        assert DropChar(' ', s) == DropChar(' ', s[1..]);
      } else {
        var r := CollapseSpaces(s[1..]);
        assert ([s[0]] + r)[1..] == r;
        assert s == [s[0]] + s[1..];
      }
    }
  }

  /** One space of a pair makes no difference: collapsing the text without
      it gives the same result. With the identity on texts without a double
      space, this fixes the substitution: every run of spaces becomes
      exactly one space. */
  lemma {:induction false} CollapseDropsOneOfTwo(s: string, k: int)
    requires 0 <= k < |s| - 1 && DoubleSpaceAt(s, k)
    ensures CollapseSpaces(s[..k] + s[k + 1..]) == CollapseSpaces(s)
  {
    var t := s[..k] + s[k + 1..];
    if k == 0 {
      assert t == s[1..];
    } else {
      var u := s[1..];
      assert t[1..] == u[..k - 1] + u[k..];
      CollapseDropsOneOfTwo(u, k - 1);
      assert t[0] == s[0] && t[1] == s[1];
    }
  }

  lemma {:induction false} CollapseSpacesIdempotent(s: string)
    ensures CollapseSpaces(CollapseSpaces(s)) == CollapseSpaces(s)
  {
    CollapseSpacesSpec(CollapseSpaces(s));
  }

  // ---------------------------------------------------------------------
  // sep.join(ws) and s.split(sep)

  /** `sep.join(ws)` for a one-character separator. */
  function JoinWith(c: char, ws: seq<string>): string {
    if ws == [] then []
    else if |ws| == 1 then ws[0]
    else ws[0] + [c] + JoinWith(c, ws[1..])
  }

  /** `s.split(sep)` for a one-character separator: always at least one
      piece, none containing the separator, the first a prefix of `s`. */
  function SplitOn(c: char, s: string): (ps: seq<string>)
    ensures |ps| >= 1
    ensures forall k :: 0 <= k < |ps| ==> c !in ps[k]
    ensures |ps[0]| <= |s| && ps[0] == s[..|ps[0]|]
  {
    if s == [] then [[]]
    else
      var rest := SplitOn(c, s[1..]);
      if s[0] == c then [[]] + rest else [[s[0]] + rest[0]] + rest[1..]
  }

  lemma {:induction false} SplitOnWord(c: char, a: string)
    requires c !in a
    ensures SplitOn(c, a) == [a]
  {
    if a != [] {
      SplitOnWord(c, a[1..]);
      assert [a[0]] + a[1..] == a;
    }
  }

  lemma {:induction false} SplitOnCons(c: char, a: string, b: string)
    requires c !in a
    ensures SplitOn(c, a + [c] + b) == [a] + SplitOn(c, b)
  {
    if a == [] {
      assert (a + [c] + b)[1..] == b;
    } else {
      assert (a + [c] + b)[1..] == a[1..] + [c] + b;
      SplitOnCons(c, a[1..], b);
      assert [a[0]] + a[1..] == a;
    }
  }

  /** Round trip: splitting a join gives back the pieces, when no piece
      holds the separator. */
  lemma {:induction false} SplitOnJoinWith(c: char, ws: seq<string>)
    requires |ws| >= 1
    requires forall k :: 0 <= k < |ws| ==> c !in ws[k]
    ensures SplitOn(c, JoinWith(c, ws)) == ws
  {
    if |ws| == 1 {
      SplitOnWord(c, ws[0]);
    } else {
      SplitOnJoinWith(c, ws[1..]);
      SplitOnCons(c, ws[0], JoinWith(c, ws[1..]));
    }
  }

  /** Round trip: joining the pieces of a split gives back the text. */
  lemma {:induction false} JoinWithSplitOn(c: char, s: string)
    ensures JoinWith(c, SplitOn(c, s)) == s
  {
    if s != [] {
      var rest := SplitOn(c, s[1..]);
      JoinWithSplitOn(c, s[1..]);
      if s[0] == c {
        assert ([[]] + rest)[1..] == rest;
      } else {
        var ps := [[s[0]] + rest[0]] + rest[1..];
        if |rest| == 1 {
        } else {
          assert ps[1..] == rest[1..];
          assert JoinWith(c, rest) == rest[0] + [c] + JoinWith(c, rest[1..]);
        }
      }
    }
  }

  lemma {:induction false} SplitOnKeepsNoDoubleSpace(c: char, s: string)
    requires NoDoubleSpace(s)
    ensures forall k :: 0 <= k < |SplitOn(c, s)| ==> NoDoubleSpace(SplitOn(c, s)[k])
  {
    if s != [] {
      SliceKeepsNoDoubleSpace(s, 1, |s|);
      assert s[1..|s|] == s[1..];
      SplitOnKeepsNoDoubleSpace(c, s[1..]);
      var ps := SplitOn(c, s);
      SliceKeepsNoDoubleSpace(s, 0, |ps[0]|);
      assert s[0..|ps[0]|] == ps[0];
    }
  }

  lemma {:induction false} JoinWithKeepsNoDoubleSpace(c: char, ws: seq<string>)
    requires c != ' '
    requires forall k :: 0 <= k < |ws| ==> NoDoubleSpace(ws[k])
    ensures NoDoubleSpace(JoinWith(c, ws))
  {
    if |ws| > 1 {
      JoinWithKeepsNoDoubleSpace(c, ws[1..]);
      var a := ws[0];
      var b := JoinWith(c, ws[1..]);
      var j := a + [c] + b;
      forall k | 0 <= k < |j| - 1
        ensures !DoubleSpaceAt(j, k)
      {
        if k < |a| - 1 {
          assert !DoubleSpaceAt(a, k);
          assert j[k] == a[k] && j[k + 1] == a[k + 1];
        } else if k > |a| {
          assert !DoubleSpaceAt(b, k - |a| - 1);
          assert j[k] == b[k - |a| - 1] && j[k + 1] == b[k - |a|];
        }
      }
    }
  }

  /** Words with no `' '` in them, joined by one `' '`, have no double
      space: the join puts exactly one space between neighbours. */
  lemma {:induction false} JoinWordsNoDoubleSpace(ws: seq<string>)
    requires forall k :: 0 <= k < |ws| ==> ws[k] != [] && ' ' !in ws[k]
    ensures NoDoubleSpace(JoinWith(' ', ws))
  {
    if |ws| == 1 {
      forall k | 0 <= k < |ws[0]| - 1
        ensures !DoubleSpaceAt(ws[0], k)
      {
        assert ws[0][k] in ws[0];
      }
    } else if |ws| > 1 {
      JoinWordsNoDoubleSpace(ws[1..]);
      var a := ws[0];
      var b := JoinWith(' ', ws[1..]);
      var j := a + [' '] + b;
      assert b[0] == ws[1][0];
      assert a[|a| - 1] in a && ws[1][0] in ws[1];
      forall k | 0 <= k < |j| - 1
        ensures !DoubleSpaceAt(j, k)
      {
        if k < |a| {
          assert j[k] == a[k] && a[k] in a;
        } else if k > |a| {
          assert !DoubleSpaceAt(b, k - |a| - 1);
          assert j[k] == b[k - |a| - 1] && j[k + 1] == b[k - |a|];
        }
      }
    }
  }

  // ---------------------------------------------------------------------
  // _is_tag

  /** A token is rendered as a tag exactly when it starts with `<` and ends
      with `>`; the test reads the first and the last character, so the
      token must not be empty. */
  predicate IsTag(s: string)
    requires s != []
  {
    s[0] == '<' && s[|s| - 1] == '>'
  }
}
