/** Turning tokens back into text: the body rendering (join, collapse spaces,
    strip each line) and the plain full-text join. */
module Render {
  import opened Text

  predicate NonEmptyTokens(ts: seq<string>) {
    forall k :: 0 <= k < |ts| ==> ts[k] != []
  }

  /** The tokens `_is_tag` rejects, in order. */
  function NonTags(ts: seq<string>): (ws: seq<string>)
    requires NonEmptyTokens(ts)
    ensures |ws| <= |ts|
    ensures forall k :: 0 <= k < |ws| ==> ws[k] != [] && !IsTag(ws[k])
    ensures forall k :: 0 <= k < |ws| ==> ws[k] in ts
  {
    if ts == [] then []
    else (if IsTag(ts[0]) then [] else [ts[0]]) + NonTags(ts[1..])
  }

  /** A single token is kept exactly when `_is_tag` rejects it. */
  lemma NonTagsOfOne(t: string)
    requires t != []
    ensures NonTags([t]) == if IsTag(t) then [] else [t]
  {
    assert [t][1..] == [];
  }

  /** The filter works token by token: every non-tag token is kept, in
      order, and nothing else. */
  lemma {:induction false} NonTagsAppend(a: seq<string>, b: seq<string>)
    requires NonEmptyTokens(a) && NonEmptyTokens(b)
    ensures NonTags(a + b) == NonTags(a) + NonTags(b)
  {
    if a == [] {
      assert a + b == b;
    } else {
      assert (a + b)[0] == a[0];
      assert (a + b)[1..] == a[1..] + b;
      NonTagsAppend(a[1..], b);
    }
  }

  /** Python's `s[a:b]` for indices inside the list: empty when `a >= b`. */
  function Slice(ts: seq<string>, a: int, b: int): (r: seq<string>)
    requires 0 <= a <= |ts| && 0 <= b <= |ts|
    ensures a <= b ==> r == ts[a..b]
    ensures a >= b ==> r == []
  {
    if a <= b then ts[a..b] else []
  }

  /** Strips every line. */
  function StripAll(lines: seq<string>): (r: seq<string>)
    ensures |r| == |lines|
    ensures forall k :: 0 <= k < |r| ==> r[k] == Strip(lines[k])
  {
    seq(|lines|, k requires 0 <= k < |lines| => Strip(lines[k]))
  }

  /** The text `body_text` builds from the tokens of the span: non-tag tokens
      joined by `' '`, runs of `' '` collapsed, each `'\n'`-separated line
      stripped. */
  function RenderBody(ts: seq<string>): string
    requires NonEmptyTokens(ts)
  {
    var text := CollapseSpaces(JoinWith(' ', NonTags(ts)));
    JoinWith('\n', StripAll(SplitOn('\n', text)))
  }

  /** `full_text`: the non-tag tokens joined by `' '`, nothing collapsed or
      stripped. */
  function FullText(ts: seq<string>): string
    requires NonEmptyTokens(ts)
  {
    JoinWith(' ', NonTags(ts))
  }

  lemma {:induction false} CollapseKeepsNonSpace(s: string)
    ensures DropSpace(CollapseSpaces(s)) == DropSpace(s)
  {
    if |s| > 1 {
      CollapseKeepsNonSpace(s[1..]);
      if !(s[0] == ' ' && s[1] == ' ') {
        var r := CollapseSpaces(s[1..]);
        assert ([s[0]] + r)[1..] == r;
      }
    }
  }

  /** Joining with a whitespace separator: only the pieces' non-whitespace
      characters matter. */
  lemma {:induction false} JoinWithSameText(c: char, ws: seq<string>, vs: seq<string>)
    requires IsSpace(c) && |ws| == |vs|
    requires forall k :: 0 <= k < |ws| ==> DropSpace(ws[k]) == DropSpace(vs[k])
    ensures DropSpace(JoinWith(c, ws)) == DropSpace(JoinWith(c, vs))
  {
    if |ws| > 1 {
      JoinWithSameText(c, ws[1..], vs[1..]);
      DropSpaceAppend(ws[0] + [c], JoinWith(c, ws[1..]));
      DropSpaceAppend(vs[0] + [c], JoinWith(c, vs[1..]));
      DropSpaceAppend(ws[0], [c]);
      DropSpaceAppend(vs[0], [c]);
    }
  }

  /** The body rendering differs from the plain join of the same tokens only
      in whitespace: it keeps every other character, in order. */
  lemma {:induction false} RenderBodyKeepsText(ts: seq<string>)
    requires NonEmptyTokens(ts)
    ensures DropSpace(RenderBody(ts)) == DropSpace(FullText(ts))
  {
    var text := CollapseSpaces(JoinWith(' ', NonTags(ts)));
    var lines := SplitOn('\n', text);
    forall k | 0 <= k < |lines|
      ensures DropSpace(StripAll(lines)[k]) == DropSpace(lines[k])
    {
      StripSpec(lines[k]);
    }
    JoinWithSameText('\n', StripAll(lines), lines);
    JoinWithSplitOn('\n', text);
    CollapseKeepsNonSpace(JoinWith(' ', NonTags(ts)));
  }

  /** The body rendering has no two consecutive spaces, and each of its
      lines has no whitespace at either end. */
  lemma {:induction false} RenderBodyIsClean(ts: seq<string>)
    requires NonEmptyTokens(ts)
    ensures NoDoubleSpace(RenderBody(ts))
    ensures forall k :: 0 <= k < |SplitOn('\n', RenderBody(ts))| ==> Stripped(SplitOn('\n', RenderBody(ts))[k])
  {
    var text := CollapseSpaces(JoinWith(' ', NonTags(ts)));
    var lines := SplitOn('\n', text);
    var stripped := StripAll(lines);
    SplitOnKeepsNoDoubleSpace('\n', text);
    forall k | 0 <= k < |lines|
      ensures NoDoubleSpace(stripped[k]) && '\n' !in stripped[k] && Stripped(stripped[k])
    {
      StripKeepsNoDoubleSpace(lines[k]);
      StripKeepsAbsent('\n', lines[k]);
      StripSpec(lines[k]);
    }
    JoinWithKeepsNoDoubleSpace('\n', stripped);
    SplitOnJoinWith('\n', stripped);
  }

  /** When no token holds a space, the join has no run of spaces to
      collapse: the body rendering is the full text of the same tokens with
      every line stripped. */
  lemma {:induction false} RenderBodyOfWords(ts: seq<string>)
    requires NonEmptyTokens(ts)
    requires forall k :: 0 <= k < |ts| ==> ' ' !in ts[k]
    ensures RenderBody(ts) == JoinWith('\n', StripAll(SplitOn('\n', FullText(ts))))
  {
    var ws := NonTags(ts);
    JoinWordsNoDoubleSpace(ws);
    CollapseSpacesSpec(JoinWith(' ', ws));
  }

  /** The full text splits back on `' '` into exactly the non-tag tokens,
      when there is at least one and none holds a space. */
  lemma {:induction false} FullTextSplitsBack(ts: seq<string>)
    requires NonEmptyTokens(ts)
    requires NonTags(ts) != []
    requires forall k :: 0 <= k < |ts| ==> ' ' !in ts[k]
    ensures SplitOn(' ', FullText(ts)) == NonTags(ts)
  {
    SplitOnJoinWith(' ', NonTags(ts));
  }
}
