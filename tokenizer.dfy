/** What the parser callbacks build: the token list, the parallel +1/-1
    classification list, the body start index and the pending line-break
    flag, as a function of the events the parser delivers. */
module Tokenizer {
  import opened Text
  import opened Runs

  /** Block-level elements whose end tag puts a line break before the next
      word (only `h1` and `h6` among the headings). */
  const LINEBREAK_ELEMENTS: set<string> := {
    "address", "article", "aside", "blockquote", "canvas", "dd", "div", "dl", "dt", "fieldset",
    "figcaption", "figure", "footer", "form", "h1", "h6", "header", "hr", "li", "main", "nav",
    "noscript", "ol", "output", "p", "pre", "section", "table", "tfoot", "ul", "video", "br"
  }

  /** Only `h1` and `h6` among the headings end a line, and inline
      elements such as `span` and `a` never do. */
  lemma LineBreakHeadings()
    ensures "h1" in LINEBREAK_ELEMENTS && "h6" in LINEBREAK_ELEMENTS
    ensures "br" in LINEBREAK_ELEMENTS && "p" in LINEBREAK_ELEMENTS && "div" in LINEBREAK_ELEMENTS
    ensures "h2" !in LINEBREAK_ELEMENTS && "h3" !in LINEBREAK_ELEMENTS
    ensures "h4" !in LINEBREAK_ELEMENTS && "h5" !in LINEBREAK_ELEMENTS
    ensures "span" !in LINEBREAK_ELEMENTS && "a" !in LINEBREAK_ELEMENTS && "body" !in LINEBREAK_ELEMENTS
  {
  }

  /** An already-parsed event: a text chunk, a start tag or an end tag. */
  datatype Event = Data(text: string) | StartTag(name: string) | EndTag(name: string)

  datatype State = State(tokens: seq<string>, binary: seq<int>, bodyStart: nat, breakNext: bool)

  const Initial: State := State([], [], 0, false)

  /** The token a start tag appends. */
  function StartTagToken(name: string): (t: string)
    ensures t != [] && IsTag(t)
  {
    "<" + name + ">"
  }

  /** The token an end tag appends (written with a backslash). */
  function EndTagToken(name: string): (t: string)
    ensures t != [] && IsTag(t)
  {
    "<\\" + name + ">"
  }

  /** The tokens a text chunk appends: its whitespace-split pieces, the first
      one prefixed with a newline when a line break is pending. */
  function DataTokens(text: string, breakPending: bool): (ws: seq<string>)
    ensures |ws| == |Split(text)|
    ensures forall k :: 0 <= k < |ws| ==> ws[k] != []
    ensures forall k :: 0 <= k < |ws| ==> ' ' !in ws[k]
    ensures forall k :: 0 <= k < |ws| ==> !IsTag(ws[k]) || ws[k] == Split(text)[k]
    ensures 0 < |ws| ==> ws[1..] == Split(text)[1..]
    ensures 0 < |ws| && !breakPending ==> ws[0] == Split(text)[0]
  {
    var ps := Split(text);
    if breakPending && |ps| > 0 then ["\n" + ps[0]] + ps[1..] else ps
  }

  /** One callback. */
  function Apply(s: State, e: Event): State {
    match e
    case Data(text) =>
      s.(tokens := s.tokens + DataTokens(text, s.breakNext),
         binary := s.binary + Repeat(DATA_TOKEN, |Split(text)|),
         breakNext := false)
    case StartTag(name) =>
      s.(tokens := s.tokens + [StartTagToken(name)],
         binary := s.binary + [TAG_TOKEN],
         bodyStart := if name == "body" then |s.tokens| + 1 else s.bodyStart)
    case EndTag(name) =>
      s.(tokens := s.tokens + [EndTagToken(name)],
         binary := s.binary + [TAG_TOKEN],
         breakNext := if name in LINEBREAK_ELEMENTS then true else s.breakNext)
  }

  /** The state after a sequence of callbacks on a fresh parser. */
  function Tokenize(events: seq<Event>): State {
    if events == [] then Initial else Apply(Tokenize(events[..|events| - 1]), events[|events| - 1])
  }

  /** The shape every state keeps: parallel lists of equal length, only +1
      and -1 in the classification, no empty token, and a body start inside
      the token list. */
  predicate WellShaped(s: State) {
    |s.tokens| == |s.binary| && IsBinary(s.binary)
    && (forall k :: 0 <= k < |s.tokens| ==> s.tokens[k] != [])
    && s.bodyStart <= |s.tokens|
  }

  /** Each callback keeps the shape, appends (never changes what is there),
      and appends one +1 per tag or one -1 per text piece. */
  lemma {:induction false} ApplySpec(s: State, e: Event)
    requires WellShaped(s)
    ensures WellShaped(Apply(s, e))
    ensures s.tokens <= Apply(s, e).tokens && s.binary <= Apply(s, e).binary
    ensures e.Data? ==> Apply(s, e).binary == s.binary + Repeat(DATA_TOKEN, |Split(e.text)|)
    ensures !e.Data? ==> Apply(s, e).binary == s.binary + [TAG_TOKEN]
  {
    if e.Data? {
      var t := Apply(s, e);
      var ws := DataTokens(e.text, s.breakNext);
      assert forall k :: |s.tokens| <= k < |t.tokens| ==> t.tokens[k] == ws[k - |s.tokens|];
    }
  }

  lemma {:induction false} TokenizeWellShaped(events: seq<Event>)
    ensures WellShaped(Tokenize(events))
  {
    if events != [] {
      TokenizeWellShaped(events[..|events| - 1]);
      ApplySpec(Tokenize(events[..|events| - 1]), events[|events| - 1]);
    }
  }

  /** Later callbacks only append: the lists after a prefix of the events are
      prefixes of the lists after all of them. */
  lemma {:induction false} TokenizeExtends(events: seq<Event>, n: nat)
    requires n <= |events|
    ensures Tokenize(events[..n]).tokens <= Tokenize(events).tokens
    ensures Tokenize(events[..n]).binary <= Tokenize(events).binary
    decreases |events| - n
  {
    if n < |events| {
      var p := events[..|events| - 1];
      assert events[..n] == p[..n];
      TokenizeExtends(p, n);
      TokenizeWellShaped(p);
      ApplySpec(Tokenize(p), events[|events| - 1]);
    } else {
      assert events[..n] == events;
    }
  }

  predicate IsBodyStart(e: Event) {
    e.StartTag? && e.name == "body"
  }

  /** Event `k` is the most recent `body` start tag. */
  predicate LastBodyStart(events: seq<Event>, k: int) {
    0 <= k < |events| && IsBodyStart(events[k])
    && forall m :: k < m < |events| ==> !IsBodyStart(events[m])
  }

  /** One callback moves the body start only on a `body` start tag, to the
      token count just after it. */
  lemma {:induction false} BodyStartStep(events: seq<Event>)
    requires events != []
    ensures var p := events[..|events| - 1];
      Tokenize(events).bodyStart
        == if IsBodyStart(events[|events| - 1]) then |Tokenize(events).tokens| else Tokenize(p).bodyStart
  {
  }

  /** The body start stays 0 while no `body` start tag has been seen. */
  lemma {:induction false} BodyStartWithoutBody(events: seq<Event>)
    requires forall k :: 0 <= k < |events| ==> !IsBodyStart(events[k])
    ensures Tokenize(events).bodyStart == 0
  {
    if events != [] {
      var p := events[..|events| - 1];
      assert forall k :: 0 <= k < |p| ==> p[k] == events[k];
      BodyStartWithoutBody(p);
      BodyStartStep(events);
    }
  }

  /** After a `body` start tag the body start is the number of tokens just
      after the most recent one. */
  lemma {:induction false} BodyStartAfterBody(events: seq<Event>, k: int)
    requires LastBodyStart(events, k)
    ensures Tokenize(events).bodyStart == |Tokenize(events[..k + 1]).tokens|
  {
    var n := |events| - 1;
    var p := events[..n];
    BodyStartStep(events);
    if k == n {
      assert events[..k + 1] == events;
    } else {
      assert forall m :: 0 <= m < n ==> p[m] == events[m];
      assert LastBodyStart(p, k);
      assert p[..k + 1] == events[..k + 1];
      BodyStartAfterBody(p, k);
    }
  }

  predicate SetsBreak(e: Event) {
    e.EndTag? && e.name in LINEBREAK_ELEMENTS
  }

  /** Event `k` is a line-break end tag with no text chunk after it. */
  predicate PendingSince(events: seq<Event>, k: int) {
    0 <= k < |events| && SetsBreak(events[k]) && forall m :: k < m < |events| ==> !events[m].Data?
  }

  /** Dropping a last event that is not a text chunk keeps every earlier
      pending break pending, and adds none. */
  lemma {:induction false} PendingSinceDropLast(events: seq<Event>, k: int)
    requires events != [] && !events[|events| - 1].Data? && 0 <= k < |events| - 1
    ensures PendingSince(events, k) <==> PendingSince(events[..|events| - 1], k)
  {
    var p := events[..|events| - 1];
    assert forall m :: 0 <= m < |p| ==> p[m] == events[m];
  }

  /** A line break is pending exactly when some line-break end tag has been
      seen with no text chunk after it (even one that is all whitespace);
      start tags never touch the flag. */
  lemma {:induction false} BreakNextSpec(events: seq<Event>)
    ensures Tokenize(events).breakNext <==> exists k :: PendingSince(events, k)
  {
    if events != [] {
      var n := |events| - 1;
      var p := events[..n];
      BreakNextSpec(p);
      assert Tokenize(events) == Apply(Tokenize(p), events[n]);
      if SetsBreak(events[n]) {
        assert PendingSince(events, n);
      } else if events[n].Data? {
        assert forall k :: PendingSince(events, k) ==> k == n;
      } else {
        if Tokenize(p).breakNext {
          var k :| PendingSince(p, k);
          PendingSinceDropLast(events, k);
        }
        if k :| PendingSince(events, k) {
          assert k != n;
          PendingSinceDropLast(events, k);
        }
      }
    }
  }

  /** The pending break lands on the next chunk's first word when the chunk
      has one, and is cleared by that chunk either way. */
  lemma {:induction false} DataConsumesBreak(s: State, text: string)
    ensures !Apply(s, Data(text)).breakNext
    ensures s.breakNext && Split(text) != [] ==>
      Apply(s, Data(text)).tokens == s.tokens + ["\n" + Split(text)[0]] + Split(text)[1..]
    ensures !s.breakNext ==> Apply(s, Data(text)).tokens == s.tokens + Split(text)
  {
  }
}
