/** The extractor object: the parser callbacks append to its token lists,
    `close()` builds the run and tag tables once, and the search and the
    renderers read them. */
module Extractor {
  import opened Text
  import opened Runs
  import opened Search
  import opened Tokenizer
  import opened Render

  /** `body_text` on a given state: render the tokens of the optimal span,
      or `None` where the span lookup raises `IndexError`. */
  function BodyTextOf(tokens: seq<string>, t: Tables, bodyStart: nat): (r: Option<string>)
    requires NonEmptyTokens(tokens)
    requires Derived(t) && AbsSum(t.encoded) <= |tokens|
    ensures r.None? <==> bodyStart > |t.encoded|
    ensures r.Some? ==> NoDoubleSpace(r.value)
  {
    OptimalSpanSpec(t, bodyStart);
    match OptimalSpan(t, bodyStart)
    case None => None
    case Some((start, end)) =>
      RenderBodyIsClean(Slice(tokens, start, end));
      Some(RenderBody(Slice(tokens, start, end)))
  }

  /** The extractor's invariant on its state as values: the tokenizer state
      keeps its shape and only grows past what `close()` saw; before
      `close()` the tables hold their initial `[0]` and nothing is cached;
      after it they are the ones derived from the tokens seen by then. */
  ghost predicate Consistent(s: State, closed: bool, closedTokens: seq<int>, t: Tables, cache: string) {
    && WellShaped(s)
    && closedTokens <= s.binary
    && (!closed ==> t == Tables([0], [0], [0], [0]) && cache == [])
    && (closed ==>
          t == TablesOf(Encode(closedTokens)) && |t.encoded| >= 1 && AbsSum(t.encoded) == |closedTokens|)
  }

  /** Every callback keeps the invariant, whether or not `close()` has run. */
  lemma ApplyKeepsConsistent(s: State, e: Event, closed: bool, closedTokens: seq<int>, t: Tables, cache: string)
    requires Consistent(s, closed, closedTokens, t, cache)
    ensures Consistent(Apply(s, e), closed, closedTokens, t, cache)
  {
    ApplySpec(s, e);
  }

  /** `close()` establishes the closed invariant from the open one. */
  lemma CloseKeepsConsistent(s: State, closedTokens: seq<int>, t: Tables, cache: string)
    requires Consistent(s, false, closedTokens, Tables([0], [0], [0], [0]), cache)
    requires t == TablesOf(Encode(s.binary))
    ensures Consistent(s, true, s.binary, t, cache)
  {
    EncodeCounts(s.binary);
    EncodeAlternates(s.binary);
  }

  /** What the closed invariant guarantees `body_text`: non-empty tokens,
      derived tables, and runs covering no more tokens than there are.
      Stated on values so that it can be used without the heap;
      `HtmlBodyTextExtractor.ClosedTables` states it again on the fields,
      because `BodyText` verifies more cheaply against that form. */
  lemma ClosedReady(s: State, closedTokens: seq<int>, t: Tables, cache: string)
    requires Consistent(s, true, closedTokens, t, cache)
    ensures NonEmptyTokens(s.tokens) && Derived(t) && AbsSum(t.encoded) <= |s.tokens|
  {
    assert |closedTokens| <= |s.binary|;
  }

  /** After `close()` the cached body text plays no part in the invariant. */
  lemma CacheKeepsConsistent(s: State, closedTokens: seq<int>, t: Tables, cache: string, cache': string)
    requires Consistent(s, true, closedTokens, t, cache)
    ensures Consistent(s, true, closedTokens, t, cache')
  {
  }

  class HtmlBodyTextExtractor {
    var tokens: seq<string>
    var binaryTokens: seq<int>
    var bodyStartIndex: nat
    var breakNext: bool
    var encoded: seq<int>
    var totalTokensBefore: seq<int>
    var numTagsUntil: seq<int>
    var numTagsAfter: seq<int>
    var bodyTxt: string

    /** Whether `close()` has run, and the classification list as it was
        when it ran. */
    ghost var closed: bool
    ghost var closedTokens: seq<int>

    function Tables(): Tables
      reads this`encoded, this`totalTokensBefore, this`numTagsUntil, this`numTagsAfter
    {
      Search.Tables(encoded, totalTokensBefore, numTagsUntil, numTagsAfter)
    }

    /** The tokenizer fields as a value. */
    function Snapshot(): State
      reads this`tokens, this`binaryTokens, this`bodyStartIndex, this`breakNext
    {
      State(tokens, binaryTokens, bodyStartIndex, breakNext)
    }

    ghost predicate Valid()
      reads this
    {
      Consistent(State(tokens, binaryTokens, bodyStartIndex, breakNext), closed, closedTokens,
                 Search.Tables(encoded, totalTokensBefore, numTagsUntil, numTagsAfter), bodyTxt)
    }

    constructor ()
      ensures Valid() && !closed
      ensures Snapshot() == Initial
    {
      tokens, binaryTokens, bodyStartIndex, breakNext := [], [], 0, false;
      encoded, totalTokensBefore, numTagsUntil, numTagsAfter := [0], [0], [0], [0];
      bodyTxt := [];
      closed, closedTokens := false, [];
    }

    /** `handle_data`: appends the chunk's whitespace-split pieces, one -1
        each, the first prefixed with a newline if a break is pending, and
        clears the pending break. */
    method HandleData(data: string)
      requires Valid()
      modifies this`tokens, this`binaryTokens, this`bodyStartIndex, this`breakNext
      ensures Valid() && closed == old(closed)
      ensures Snapshot() == Apply(old(Snapshot()), Data(data))
      ensures tokens == old(tokens) + DataTokens(data, old(breakNext))
      ensures binaryTokens == old(binaryTokens) + Repeat(DATA_TOKEN, |Split(data)|)
      ensures !breakNext && bodyStartIndex == old(bodyStartIndex)
      ensures Tables() == old(Tables()) && bodyTxt == old(bodyTxt)
    {
      ghost var s0 := Snapshot();
      var pieces := Split(data);
      if breakNext {
        if |pieces| > 0 {
          pieces := pieces[0 := "\n" + pieces[0]];
        }
        breakNext := false;
      }
      assert pieces == DataTokens(data, old(breakNext));
      AppendWords(pieces);
      ApplyKeepsConsistent(s0, Data(data), closed, closedTokens, Tables(), bodyTxt);
      assert Apply(s0, Data(data)) == Snapshot();
    }

    /** The loop of `handle_data`: each piece goes on the token list and a -1
        on the classification list. */
    method AppendWords(pieces: seq<string>)
      modifies this`tokens, this`binaryTokens
      ensures tokens == old(tokens) + pieces
      ensures binaryTokens == old(binaryTokens) + Repeat(DATA_TOKEN, |pieces|)
    {
      for k := 0 to |pieces|
        invariant tokens == old(tokens) + pieces[..k]
        invariant binaryTokens == old(binaryTokens) + Repeat(DATA_TOKEN, k)
      {
        tokens := tokens + [pieces[k]];
        binaryTokens := binaryTokens + [DATA_TOKEN];
        assert pieces[..k + 1] == pieces[..k] + [pieces[k]];
      }
      assert pieces[..|pieces|] == pieces;
    }

    /** `handle_starttag`: appends the tag token and a +1; a `body` tag sets
        the body start to the number of tokens after it. */
    method HandleStartTag(tag: string)
      requires Valid()
      modifies this`tokens, this`binaryTokens, this`bodyStartIndex, this`breakNext
      ensures Valid() && closed == old(closed)
      ensures Snapshot() == Apply(old(Snapshot()), StartTag(tag))
      ensures tokens == old(tokens) + [StartTagToken(tag)]
      ensures binaryTokens == old(binaryTokens) + [TAG_TOKEN]
      ensures bodyStartIndex == if tag == "body" then |tokens| else old(bodyStartIndex)
      ensures breakNext == old(breakNext)
      ensures Tables() == old(Tables()) && bodyTxt == old(bodyTxt)
    {
      ghost var s0 := Snapshot();
      binaryTokens := binaryTokens + [TAG_TOKEN];
      tokens := tokens + ["<" + tag + ">"];
      if tag == "body" {
        bodyStartIndex := |tokens|;
      }
      ApplyKeepsConsistent(s0, StartTag(tag), closed, closedTokens, Tables(), bodyTxt);
      assert Apply(s0, StartTag(tag)) == Snapshot();
    }

    /** `handle_endtag`: appends the tag token and a +1; the end of a
        line-break element sets the pending break. */
    method HandleEndTag(tag: string)
      requires Valid()
      modifies this`tokens, this`binaryTokens, this`bodyStartIndex, this`breakNext
      ensures Valid() && closed == old(closed)
      ensures Snapshot() == Apply(old(Snapshot()), EndTag(tag))
      ensures tokens == old(tokens) + [EndTagToken(tag)]
      ensures binaryTokens == old(binaryTokens) + [TAG_TOKEN]
      ensures breakNext == (tag in LINEBREAK_ELEMENTS || old(breakNext))
      ensures bodyStartIndex == old(bodyStartIndex)
      ensures Tables() == old(Tables()) && bodyTxt == old(bodyTxt)
    {
      ghost var s0 := Snapshot();
      tokens := tokens + ["<\\" + tag + ">"];
      if tag in LINEBREAK_ELEMENTS {
        breakNext := true;
      }
      binaryTokens := binaryTokens + [TAG_TOKEN];
      ApplyKeepsConsistent(s0, EndTag(tag), closed, closedTokens, Tables(), bodyTxt);
      assert Apply(s0, EndTag(tag)) == Snapshot();
    }

    /** `close`: builds the runs and both tag tables from every token seen.
        It runs once; the tables are never extended again. */
    method Close()
      requires Valid() && !closed
      modifies this`encoded, this`totalTokensBefore, this`numTagsUntil, this`numTagsAfter
      modifies this`closed, this`closedTokens
      ensures Valid() && closed && closedTokens == binaryTokens
      ensures Tables() == TablesOf(Encode(binaryTokens))
    {
      var runs, tokensBefore := CountCumulativeTokens(binaryTokens);
      var until, after := CountCumulativeTags(runs);
      ghost var s0 := State(tokens, binaryTokens, bodyStartIndex, breakNext);
      ghost var t := Search.Tables(runs, tokensBefore, until, after);
      CloseKeepsConsistent(s0, closedTokens, t, bodyTxt);
      encoded, totalTokensBefore, numTagsUntil, numTagsAfter := runs, tokensBefore, until, after;
      closed, closedTokens := true, binaryTokens;
      assert State(tokens, binaryTokens, bodyStartIndex, breakNext) == s0;
      assert Search.Tables(encoded, totalTokensBefore, numTagsUntil, numTagsAfter) == t;
    }

    /** `_count_cumulative_tokens`: one pass over the classification list,
        extending the current run or opening a new one, counting tokens per
        run, then shifting the counts up one index behind a leading 0. */
    static method CountCumulativeTokens(binary: seq<int>) returns (runs: seq<int>, tokensBefore: seq<int>)
      requires IsBinary(binary)
      ensures runs == Encode(binary)
      ensures tokensBefore == TokensBefore(runs)
    {
      var counts := [0];
      runs := [0];
      var i := 0;
      var n := 0;
      while n < |binary|
        invariant 0 <= n <= |binary|
        invariant runs == Encode(binary[..n])
        invariant i == |runs| - 1
        invariant RunCounts(runs, counts)
      {
        var token := binary[n];
        runs, counts, i := CountToken(runs, counts, i, token);
        EncodeStep(binary[..n], token);
        assert binary[..n + 1] == binary[..n] + [token];
        n := n + 1;
      }
      assert binary[..n] == binary;
      ShiftedCounts(runs, counts);
      tokensBefore := [0] + counts;
    }

    /** The body of the counting loop for one token: a token that brings the
        current run closer to zero opens a new run, with a new count starting
        from the previous one; then the current run and its count take the
        token. */
    static method CountToken(runs: seq<int>, counts: seq<int>, i: int, token: int)
      returns (runs': seq<int>, counts': seq<int>, i': int)
      requires token == 1 || token == -1
      requires runs != [] && i == |runs| - 1 && RunCounts(runs, counts)
      ensures runs' == Push(runs, token)
      ensures i' == |runs'| - 1
      ensures RunCounts(runs', counts')
    {
      RunCountsStep(runs, counts, token);
      runs', counts', i' := runs, counts, i;
      if Abs(token + runs'[i']) < Abs(runs'[i']) {
        runs' := runs' + [0];
        counts' := counts' + [counts'[|counts'| - 1]];
        i' := i' + 1;
      }
      runs' := runs'[i' := runs'[i'] + token];
      counts' := counts'[i' := counts'[i'] + 1];
      if StartsRun(Last(runs), token) {
        assert runs' == runs + [token];
        assert counts' == counts + [Last(counts) + 1];
      } else {
        assert runs' == runs[..|runs| - 1] + [Last(runs) + token];
        assert counts' == counts[..|counts| - 1] + [Last(counts) + 1];
      }
    }

    /** `_count_cumulative_tags`: a forward running total of tag runs, a
        backward one, then the backward list reversed; the first entry of
        the backward list and the last of the forward list are dropped. */
    static method CountCumulativeTags(runs: seq<int>) returns (until: seq<int>, after: seq<int>)
      ensures until == TagsUntil(runs)
      ensures after == TagsAfter(runs)
    {
      until := CountTagsForward(runs);
      after := CountTagsBackward(runs);
      TrimmedTagTables(runs);
      after := Reversed(after);
      after := after[1..];
      until := until[..|until| - 1];
    }

    /** The first loop of `_count_cumulative_tags`: a running total of the
        tags, appended after each run. */
    static method CountTagsForward(runs: seq<int>) returns (until: seq<int>)
      ensures until == TagsThrough(runs)
    {
      until := [0];
      var t := 0;
      var k := 0;
      while k < |runs|
        invariant 0 <= k <= |runs|
        invariant until == TagsThrough(runs[..k])
        invariant t == TagSum(runs[..k])
      {
        ForwardTagStep(runs, k, t, until);
        if runs[k] > 0 {
          t := t + runs[k];
        }
        until := until + [t];
        k := k + 1;
      }
      assert runs[..k] == runs;
    }

    /** The second loop of `_count_cumulative_tags`: the same running total
        over the runs in reverse. */
    static method CountTagsBackward(runs: seq<int>) returns (after: seq<int>)
      ensures after == TagsFromEnd(runs)
    {
      after := [0];
      var t := 0;
      var k := |runs|;
      while k > 0
        invariant 0 <= k <= |runs|
        invariant after == TagsFromEnd(runs[k..])
        invariant t == TagSum(runs[k..])
      {
        BackwardTagStep(runs, k, t, after);
        k := k - 1;
        if runs[k] > 0 {
          t := t + runs[k];
        }
        after := after + [t];
      }
      assert runs[0..] == runs;
    }

    /** `_find_optimal_span`: the nested scan over pairs of word runs from the
        body start, keeping the first strict maximum of the objective; the
        winning run indices are turned into the token range `[tb[i], tb[j])`.
        `None` stands for the `IndexError` the final lookup raises when the
        body start is past the end of `total_tokens_before`. */
    method FindOptimalSpan() returns (r: Option<(int, int)>)
      requires Valid() && closed
      ensures r == OptimalSpan(Tables(), bodyStartIndex)
    {
      r := ScanSpans(Tables(), bodyStartIndex);
    }

    /** The loops of `_find_optimal_span` over the four lists. */
    static method ScanSpans(t: Tables, bodyStart: nat) returns (r: Option<(int, int)>)
      requires WellFormed(t)
      ensures r == OptimalSpan(t, bodyStart)
    {
      var encoded, totalTokensBefore := t.encoded, t.tokensBefore;
      var scoreMax := 0;
      var iMax := bodyStart;
      var jMax := |encoded| - 1;
      var i := bodyStart;
      while i < |encoded| - 1
        invariant bodyStart <= i
        invariant Scan(t, i, Best(scoreMax, iMax, jMax)) == SearchBest(t, bodyStart)
        decreases |encoded| - i
      {
        if encoded[i] <= 0 {
          var j := i;
          while j < |encoded|
            invariant i <= j <= |encoded|
            invariant Scan(t, i + 1, Row(t, i, j, Best(scoreMax, iMax, jMax))) == SearchBest(t, bodyStart)
          {
            if encoded[j] <= 0 {
              var score := Objective(t, i, j);
              if score > scoreMax {
                scoreMax, iMax, jMax := score, i, j;
              }
            }
            j := j + 1;
          }
        }
        i := i + 1;
      }
      SearchBestBounds(t, bodyStart);
      if iMax < |totalTokensBefore| {
        r := Some((totalTokensBefore[iMax], totalTokensBefore[jMax]));
      } else {
        r := None;
      }
    }

    /** `body_text`: a non-empty cached result is returned as it is;
        otherwise the optimal span is rendered and stored, so an empty result
        is computed afresh on the next call. */
    method BodyText() returns (r: Option<string>)
      requires Valid() && closed
      modifies this`bodyTxt
      ensures Valid()
      ensures old(bodyTxt) != [] ==> r == Some(old(bodyTxt)) && bodyTxt == old(bodyTxt)
      ensures old(bodyTxt) == [] ==>
        && r == BodyTextOf(old(tokens), old(Tables()), old(bodyStartIndex))
        && bodyTxt == (if r.Some? then r.value else [])
    {
      ghost var s0 := State(tokens, binaryTokens, bodyStartIndex, breakNext);
      ghost var t := Tables();
      ClosedTables();
      var cache;
      r, cache := CachedBodyText(tokens, Tables(), bodyStartIndex, bodyTxt);
      CacheKeepsConsistent(s0, closedTokens, t, bodyTxt, cache);
      bodyTxt := cache;
      assert State(tokens, binaryTokens, bodyStartIndex, breakNext) == s0;
      assert Tables() == t;
    }

    /** `body_text` on the state as values: the cache when it is non-empty,
        otherwise the rendered optimal span, which becomes the new cache. */
    static method CachedBodyText(tokens: seq<string>, t: Tables, bodyStart: nat, cache: string)
      returns (r: Option<string>, cache': string)
      requires NonEmptyTokens(tokens) && Derived(t) && AbsSum(t.encoded) <= |tokens|
      ensures cache != [] ==> r == Some(cache) && cache' == cache
      ensures cache == [] ==> r == BodyTextOf(tokens, t, bodyStart) && cache' == (if r.Some? then r.value else [])
    {
      if cache != [] {
        return Some(cache), cache;
      }
      var span := ScanSpans(t, bodyStart);
      r := RenderSpan(tokens, t, bodyStart, span);
      cache' := if r.Some? then r.value else [];
    }

    /** The rendering half of `body_text`: the non-tag tokens of the span
        joined by one space, runs of spaces collapsed, and every line
        stripped. */
    static method RenderSpan(tokens: seq<string>, t: Tables, bodyStart: nat, span: Option<(int, int)>)
      returns (r: Option<string>)
      requires NonEmptyTokens(tokens) && Derived(t) && AbsSum(t.encoded) <= |tokens|
      requires span == OptimalSpan(t, bodyStart)
      ensures r == BodyTextOf(tokens, t, bodyStart)
    {
      OptimalSpanSpec(t, bodyStart);
      match span
      case None =>
        r := None;
      case Some((start, end)) =>
        r := Some(RenderBody(Slice(tokens, start, end)));
    }

    /** What a closed extractor guarantees `body_text`: non-empty tokens,
        derived tables, and runs covering no more tokens than there are.
        This is `ClosedReady` on the fields; `BodyText` calls this form,
        which it verifies more cheaply than the value-level one. */
    lemma {:induction false} ClosedTables()
      requires Valid() && closed
      ensures NonEmptyTokens(tokens) && Derived(Tables()) && AbsSum(encoded) <= |tokens|
    {
      ClosedReady(Snapshot(), closedTokens, Tables(), bodyTxt);
    }

    /** `full_text`: every non-tag token joined by one space. When no token
        holds a space, splitting it on `' '` gives back exactly the words. */
    function FullText(): (r: string)
      reads this
      requires Valid()
      ensures r == Render.FullText(tokens)
      ensures (NonTags(tokens) != [] && forall k :: 0 <= k < |tokens| ==> ' ' !in tokens[k]) ==>
                SplitOn(' ', r) == NonTags(tokens)
    {
      if NonTags(tokens) != [] && (forall k :: 0 <= k < |tokens| ==> ' ' !in tokens[k]) then
        FullTextSplitsBack(tokens);
        Render.FullText(tokens)
      else
        Render.FullText(tokens)
    }
  }

  /** Asking for the body text twice gives the same answer: the cache never
      changes the result. */
  method BodyTextTwice(x: HtmlBodyTextExtractor) returns (first: Option<string>, second: Option<string>)
    requires x.Valid() && x.closed
    modifies x
    ensures first == second
  {
    first := x.BodyText();
    second := x.BodyText();
  }
}
