/** The run-length view of the classification sequence (+1 for a tag token,
    -1 for a word token) and the cumulative tag tables built over it. */
module Runs {

  const TAG_TOKEN: int := 1
  const DATA_TOKEN: int := -1

  /** The two classes are one token each, of opposite signs: a token
      always adds one to the magnitude of a run of its own class. */
  lemma TokenClasses()
    ensures Sign(TAG_TOKEN) == 1 && Sign(DATA_TOKEN) == -1
    ensures Abs(TAG_TOKEN) == 1 && Abs(DATA_TOKEN) == 1
  {
  }

  /** Every entry is a tag (+1) or a word (-1). */
  predicate IsBinary(b: seq<int>) {
    forall k :: 0 <= k < |b| ==> b[k] == TAG_TOKEN || b[k] == DATA_TOKEN
  }

  function Abs(x: int): nat {
    if x < 0 then -x else x
  }

  function Sign(x: int): int {
    if x > 0 then 1 else if x < 0 then -1 else 0
  }

  function Last(s: seq<int>): int
    requires s != []
  {
    s[|s| - 1]
  }

  /** Adjacent runs have opposite signs. */
  predicate Alternating(r: seq<int>) {
    forall k :: 0 <= k < |r| - 1 ==> (r[k] > 0 && r[k + 1] < 0) || (r[k] < 0 && r[k + 1] > 0)
  }

  predicate NonZero(r: seq<int>) {
    forall k :: 0 <= k < |r| ==> r[k] != 0
  }

  /** `n` copies of `x`. */
  function Repeat(x: int, n: nat): (r: seq<int>)
    ensures |r| == n && forall k :: 0 <= k < n ==> r[k] == x
  {
    if n == 0 then [] else Repeat(x, n - 1) + [x]
  }

  /** The classification sequence a run sequence stands for: each run `r`
      becomes `|r|` copies of its sign. */
  function Expand(runs: seq<int>): seq<int> {
    if runs == [] then [] else Expand(runs[..|runs| - 1]) + Repeat(Sign(Last(runs)), Abs(Last(runs)))
  }

  /** Total magnitude of a run sequence: the number of tokens it covers. */
  function AbsSum(runs: seq<int>): nat {
    if runs == [] then 0 else AbsSum(runs[..|runs| - 1]) + Abs(Last(runs))
  }

  /** Total of the positive runs: the number of tag tokens they cover. */
  function TagSum(runs: seq<int>): nat {
    if runs == [] then 0 else TagSum(runs[..|runs| - 1]) + Tags(Last(runs))
  }

  /** The tags a single run holds. */
  function Tags(run: int): nat {
    if run > 0 then run else 0
  }

  // ---------------------------------------------------------------------
  // _count_cumulative_tokens

  /** The encoder's boundary test: adding `v` would shrink the magnitude of
      the current run, so `v` starts a new run. */
  predicate StartsRun(current: int, v: int) {
    Abs(v + current) < Abs(current)
  }

  /** One step of the encoder: open a new run for `v`, or add `v` to the
      current (last) run. */
  function Push(e: seq<int>, v: int): (r: seq<int>)
    requires e != []
    ensures r != []
  {
    if StartsRun(Last(e), v) then e + [v] else e[..|e| - 1] + [Last(e) + v]
  }

  /** The runs the encoder produces from `b`, processing one token at a time
      from a single zero run. */
  function Encode(b: seq<int>): (r: seq<int>)
    ensures |r| >= 1
  {
    if b == [] then [0] else Push(Encode(b[..|b| - 1]), Last(b))
  }

  /** `total_tokens_before` after the final shift: entry `k` is the number of
      tokens in runs `0..k-1`, so entries `k` and `k+1` bound run `k`. */
  function TokensBefore(runs: seq<int>): (tb: seq<int>)
    ensures |tb| == |runs| + 1
  {
    seq(|runs| + 1, k requires 0 <= k <= |runs| => AbsSum(runs[..k]))
  }

  /** Consecutive entries of `total_tokens_before` differ by the size of
      the run between them. */
  lemma {:induction false} TokensBeforeStep(runs: seq<int>, k: int)
    requires 0 <= k < |runs|
    ensures TokensBefore(runs)[k + 1] == TokensBefore(runs)[k] + Abs(runs[k])
  {
    assert runs[..k + 1] == runs[..k] + [runs[k]];
    AbsSumSnoc(runs[..k], runs[k]);
  }

  /** The last entry of `total_tokens_before` is the number of tokens. */
  lemma {:induction false} TokensBeforeLast(b: seq<int>)
    requires IsBinary(b)
    ensures Last(TokensBefore(Encode(b))) == |b|
  {
    var runs := Encode(b);
    assert runs[..|runs|] == runs;
    EncodeCounts(b);
  }

  lemma {:induction false} ExpandAppend(e: seq<int>, v: int)
    ensures Expand(e + [v]) == Expand(e) + Repeat(Sign(v), Abs(v))
  {
    assert (e + [v])[..|e|] == e;
  }

  lemma {:induction false} EncodeStep(p: seq<int>, v: int)
    ensures Encode(p + [v]) == Push(Encode(p), v)
  {
    assert (p + [v])[..|p|] == p;
  }

  /** A step keeps the runs alternating and free of zeros; only the initial
      zero run is ever added to in place of being followed. */
  lemma {:induction false} PushAlternates(e: seq<int>, v: int)
    requires v == 1 || v == -1
    requires e != [] && Alternating(e)
    requires NonZero(e) || e == [0]
    ensures Alternating(Push(e, v)) && NonZero(Push(e, v))
  {
    var r := Push(e, v);
    if StartsRun(Last(e), v) {
      assert r == e + [v];
    } else {
      var f := e[..|e| - 1];
      assert r == f + [Last(e) + v];
      forall k | 0 <= k < |r| - 1
        ensures (r[k] > 0 && r[k + 1] < 0) || (r[k] < 0 && r[k + 1] > 0)
      {
        assert r[k] == e[k];
        if k + 1 < |e| - 1 {
          assert r[k + 1] == e[k + 1];
        } else {
          assert (e[k] > 0 && e[k + 1] < 0) || (e[k] < 0 && e[k + 1] > 0);
        }
      }
    }
  }

  /** On tags and words the encoder's runs alternate in sign, and none is
      zero unless the input is empty, when there is the single zero run. */
  lemma {:induction false} EncodeAlternates(b: seq<int>)
    requires IsBinary(b)
    ensures Alternating(Encode(b))
    ensures b != [] ==> NonZero(Encode(b))
    ensures b == [] ==> Encode(b) == [0]
  {
    if b != [] {
      var p := b[..|b| - 1];
      assert b == p + [Last(b)];
      EncodeAlternates(p);
      EncodeStep(p, Last(b));
      PushAlternates(Encode(p), Last(b));
    }
  }

  /** Extending the last run by a token of its own sign adds one copy of
      that token to the expansion. */
  lemma {:induction false} ExtendExpands(f: seq<int>, c: int, v: int)
    requires v == 1 || v == -1
    requires !StartsRun(c, v)
    ensures Expand(f + [c + v]) == Expand(f + [c]) + [v]
  {
    ExpandAppend(f, c);
    ExpandAppend(f, c + v);
    assert Sign(c + v) == v && Abs(c + v) == Abs(c) + 1;
    assert Repeat(Sign(c), Abs(c)) == Repeat(v, Abs(c)) by {
      if c != 0 {
        assert Sign(c) == v;
      }
    }
    assert Repeat(v, Abs(c) + 1) == Repeat(v, Abs(c)) + [v];
  }

  lemma {:induction false} PushExpands(e: seq<int>, v: int)
    requires v == 1 || v == -1
    requires e != []
    ensures Expand(Push(e, v)) == Expand(e) + [v]
  {
    if StartsRun(Last(e), v) {
      ExpandAppend(e, v);
    } else {
      var f := e[..|e| - 1];
      assert e == f + [Last(e)];
      ExtendExpands(f, Last(e), v);
    }
  }

  /** The runs cover exactly the input: expanding them gives it back. */
  lemma {:induction false} EncodeExpands(b: seq<int>)
    requires IsBinary(b)
    ensures Expand(Encode(b)) == b
  {
    if b != [] {
      var p := b[..|b| - 1];
      assert b == p + [Last(b)];
      EncodeExpands(p);
      EncodeStep(p, Last(b));
      PushExpands(Encode(p), Last(b));
    }
  }

  lemma {:induction false} PushCounts(e: seq<int>, v: int)
    requires v == 1 || v == -1
    requires e != []
    ensures AbsSum(Push(e, v)) == AbsSum(e) + 1
  {
    if StartsRun(Last(e), v) {
      assert (e + [v])[..|e|] == e;
    } else {
      var f := e[..|e| - 1];
      assert e == f + [Last(e)];
      assert (f + [Last(e) + v])[..|f|] == f;
    }
  }

  /** The run magnitudes add up to the number of tokens. */
  lemma {:induction false} EncodeCounts(b: seq<int>)
    requires IsBinary(b)
    ensures AbsSum(Encode(b)) == |b|
  {
    if b != [] {
      var p := b[..|b| - 1];
      assert b == p + [Last(b)];
      EncodeCounts(p);
      EncodeStep(p, Last(b));
      PushCounts(Encode(p), Last(b));
    }
  }

  /** The encoder is the run-length encoding: any alternating, zero-free run
      sequence that expands to `b` is the one `Encode` produces. */
  lemma {:induction false} EncodeUnique(b: seq<int>, runs: seq<int>)
    requires IsBinary(b) && b != []
    requires Alternating(runs) && NonZero(runs) && Expand(runs) == b
    ensures runs == Encode(b)
    decreases |b|
  {
    var p := b[..|b| - 1];
    assert b == p + [Last(b)];
    EncodeStep(p, Last(b));
    var q := Unpush(runs);
    UnpushSpec(runs);
    assert p == Expand(q) && Last(b) == Sign(Last(runs));
    if q == [] {
      assert Encode(p) == [0];
    } else {
      EncodeUnique(p, q);
    }
  }

  /** The run sequence with one token taken off its last run. */
  function Unpush(runs: seq<int>): seq<int>
    requires runs != []
  {
    var f := runs[..|runs| - 1];
    if Abs(Last(runs)) == 1 then f else f + [Last(runs) - Sign(Last(runs))]
  }

  lemma {:induction false} UnpushSpec(runs: seq<int>)
    requires runs != [] && Alternating(runs) && NonZero(runs)
    ensures Expand(runs) == Expand(Unpush(runs)) + [Sign(Last(runs))]
    ensures Alternating(Unpush(runs)) && NonZero(Unpush(runs))
    ensures Unpush(runs) == [] || Push(Unpush(runs), Sign(Last(runs))) == runs
  {
    UnpushExpands(runs);
    UnpushAlternates(runs);
    PushUnpush(runs);
  }

  lemma {:induction false} UnpushExpands(runs: seq<int>)
    requires runs != [] && Last(runs) != 0
    ensures Expand(runs) == Expand(Unpush(runs)) + [Sign(Last(runs))]
  {
    var f := runs[..|runs| - 1];
    var x := Last(runs);
    assert runs == f + [x];
    ExpandAppend(f, x);
    var rest := Repeat(Sign(x), Abs(x) - 1);
    assert Repeat(Sign(x), Abs(x)) == rest + [Sign(x)];
    if Abs(x) == 1 {
      assert rest == [];
      assert Unpush(runs) == f;
    } else {
      var y := x - Sign(x);
      assert Unpush(runs) == f + [y];
      ExpandAppend(f, y);
      assert Sign(y) == Sign(x) && Abs(y) == Abs(x) - 1;
      assert Expand(f + [y]) == Expand(f) + rest;
    }
  }

  lemma {:induction false} UnpushAlternates(runs: seq<int>)
    requires runs != [] && Alternating(runs) && NonZero(runs)
    ensures Alternating(Unpush(runs)) && NonZero(Unpush(runs))
  {
    var f := runs[..|runs| - 1];
    var x := Last(runs);
    var q := Unpush(runs);
    assert forall k :: 0 <= k < |q| ==> q[k] == if k < |f| then runs[k] else x - Sign(x);
  }

  lemma {:induction false} PushUnpush(runs: seq<int>)
    requires runs != [] && Alternating(runs) && NonZero(runs)
    ensures Unpush(runs) == [] || Push(Unpush(runs), Sign(Last(runs))) == runs
  {
    var f := runs[..|runs| - 1];
    var x := Last(runs);
    var q := Unpush(runs);
    assert runs == f + [x];
    if Abs(x) == 1 {
      if f != [] {
        assert Last(f) == runs[|runs| - 2];
        assert StartsRun(Last(f), Sign(x));
      }
    } else {
      assert Last(q) == x - Sign(x);
      assert !StartsRun(Last(q), Sign(x));
      assert q[..|q| - 1] == f;
    }
  }

  /** The encoder's per-run counts before the final shift: entry `k` is the
      number of tokens in runs `0..k`. */
  predicate RunCounts(runs: seq<int>, counts: seq<int>) {
    |counts| == |runs| && forall k :: 0 <= k < |runs| ==> counts[k] == AbsSum(runs[..k + 1])
  }

  lemma {:induction false} AbsSumSnoc(e: seq<int>, x: int)
    ensures AbsSum(e + [x]) == AbsSum(e) + Abs(x)
  {
    assert (e + [x])[..|e|] == e;
  }

  /** One encoder step keeps the counts in step with the runs: a new run
      starts from the previous total plus one, an extended run gains one. */
  lemma {:induction false} RunCountsStep(e: seq<int>, counts: seq<int>, v: int)
    requires v == 1 || v == -1
    requires e != [] && RunCounts(e, counts)
    ensures StartsRun(Last(e), v) ==> RunCounts(e + [v], counts + [counts[|counts| - 1] + 1])
    ensures !StartsRun(Last(e), v) ==>
      RunCounts(e[..|e| - 1] + [Last(e) + v], counts[..|counts| - 1] + [counts[|counts| - 1] + 1])
  {
    var n := |e| - 1;
    assert e[..n + 1] == e;
    if StartsRun(Last(e), v) {
      var e2 := e + [v];
      var c2 := counts + [counts[n] + 1];
      forall k | 0 <= k < |e2|
        ensures c2[k] == AbsSum(e2[..k + 1])
      {
        if k <= n {
          assert e2[..k + 1] == e[..k + 1];
        } else {
          assert e2[..k + 1] == e2;
          AbsSumSnoc(e, v);
        }
      }
    } else {
      var e2 := e[..n] + [Last(e) + v];
      var c2 := counts[..n] + [counts[n] + 1];
      forall k | 0 <= k < |e2|
        ensures c2[k] == AbsSum(e2[..k + 1])
      {
        if k < n {
          assert e2[..k + 1] == e[..k + 1];
        } else {
          assert e2[..k + 1] == e[..n] + [Last(e) + v];
          AbsSumSnoc(e[..n], Last(e) + v);
          AbsSumSnoc(e[..n], Last(e));
          assert e[..n] + [Last(e)] == e;
        }
      }
    }
  }

  /** Shifting the per-run counts up one index behind a leading 0 gives the
      number of tokens before each run, with the total at the end. */
  lemma {:induction false} ShiftedCounts(runs: seq<int>, counts: seq<int>)
    requires RunCounts(runs, counts)
    ensures [0] + counts == TokensBefore(runs)
  {
    var t := [0] + counts;
    forall k | 0 <= k <= |runs|
      ensures t[k] == AbsSum(runs[..k])
    {
      if k == 0 {
        assert runs[..0] == [];
      } else {
        assert t[k] == counts[k - 1];
      }
    }
  }

  // ---------------------------------------------------------------------
  // _count_cumulative_tags

  /** `num_tags_until`: entry `k` counts the tags in runs `0..k-1`. */
  function TagsUntil(runs: seq<int>): (t: seq<int>)
    ensures |t| == |runs|
  {
    seq(|runs|, k requires 0 <= k < |runs| => TagSum(runs[..k]))
  }

  /** `num_tags_after`: entry `k` counts the tags in runs strictly after `k`. */
  function TagsAfter(runs: seq<int>): (t: seq<int>)
    ensures |t| == |runs|
  {
    seq(|runs|, k requires 0 <= k < |runs| => TagSum(runs[k + 1..]))
  }

  /** The forward list before its last entry is dropped: entry `m` counts
      the tags in runs `0..m-1`, for `m` up to `|runs|`. */
  function TagsThrough(runs: seq<int>): (t: seq<int>)
    ensures |t| == |runs| + 1
  {
    seq(|runs| + 1, m requires 0 <= m <= |runs| => TagSum(runs[..m]))
  }

  /** The backward list before it is reversed: entry `m` counts the tags in
      the last `m` runs. */
  function TagsFromEnd(runs: seq<int>): (t: seq<int>)
    ensures |t| == |runs| + 1
  {
    seq(|runs| + 1, m requires 0 <= m <= |runs| => TagSum(runs[|runs| - m..]))
  }

  /** The source's reverse-in-place, as a value. */
  function Reversed(s: seq<int>): (r: seq<int>)
    ensures |r| == |s| && forall k :: 0 <= k < |s| ==> r[k] == s[|s| - 1 - k]
  {
    seq(|s|, k requires 0 <= k < |s| => s[|s| - 1 - k])
  }

  /** Reversing twice gives back the list. */
  lemma ReversedTwice(s: seq<int>)
    ensures Reversed(Reversed(s)) == s
  {
  }

  /** Reversing the backward list and dropping its first entry, and dropping
      the last entry of the forward list, gives the two tag tables. */
  lemma {:induction false} TrimmedTagTables(runs: seq<int>)
    ensures TagsThrough(runs)[..|runs|] == TagsUntil(runs)
    ensures Reversed(TagsFromEnd(runs))[1..] == TagsAfter(runs)
  {
    var r := Reversed(TagsFromEnd(runs))[1..];
    forall k | 0 <= k < |runs|
      ensures r[k] == TagsAfter(runs)[k]
    {
      assert |runs| - (|runs| - k - 1) == k + 1;
    }
  }

  lemma {:induction false} TagSumSnoc(e: seq<int>, x: int)
    ensures TagSum(e + [x]) == TagSum(e) + Tags(x)
  {
    assert (e + [x])[..|e|] == e;
  }

  lemma {:induction false} TagSumCons(x: int, e: seq<int>)
    ensures TagSum([x] + e) == Tags(x) + TagSum(e)
  {
    TagSumAppend([x], e);
    TagSumSnoc([], x);
    assert [] + [x] == [x];
  }

  /** One step of the forward tag loop: adding run `k`'s tags to the running
      total and appending it extends the forward list by one run. */
  lemma ForwardTagStep(runs: seq<int>, k: int, t: int, acc: seq<int>)
    requires 0 <= k < |runs|
    requires acc == TagsThrough(runs[..k]) && t == TagSum(runs[..k])
    ensures TagSum(runs[..k + 1]) == if runs[k] > 0 then t + runs[k] else t
    ensures TagsThrough(runs[..k + 1]) == acc + [TagSum(runs[..k + 1])]
  {
    assert runs[..k + 1] == runs[..k] + [runs[k]];
    TagSumSnoc(runs[..k], runs[k]);
    TagsThroughSnoc(runs[..k], runs[k]);
  }

  /** One step of the backward tag loop, from run `k - 1`. */
  lemma BackwardTagStep(runs: seq<int>, k: int, t: int, acc: seq<int>)
    requires 0 < k <= |runs|
    requires acc == TagsFromEnd(runs[k..]) && t == TagSum(runs[k..])
    ensures TagSum(runs[k - 1..]) == if runs[k - 1] > 0 then t + runs[k - 1] else t
    ensures TagsFromEnd(runs[k - 1..]) == acc + [TagSum(runs[k - 1..])]
  {
    assert runs[k - 1..] == [runs[k - 1]] + runs[k..];
    TagSumCons(runs[k - 1], runs[k..]);
    TagsFromEndCons(runs[k - 1], runs[k..]);
  }

  lemma {:induction false} TagsThroughSnoc(e: seq<int>, x: int)
    ensures TagsThrough(e + [x]) == TagsThrough(e) + [TagSum(e + [x])]
  {
    var a := TagsThrough(e + [x]);
    forall m | 0 <= m <= |e|
      ensures a[m] == TagsThrough(e)[m]
    {
      assert (e + [x])[..m] == e[..m];
    }
    assert (e + [x])[..|e| + 1] == e + [x];
  }

  lemma {:induction false} TagsFromEndCons(x: int, e: seq<int>)
    ensures TagsFromEnd([x] + e) == TagsFromEnd(e) + [TagSum([x] + e)]
  {
    var a := TagsFromEnd([x] + e);
    forall m | 0 <= m <= |e|
      ensures a[m] == TagsFromEnd(e)[m]
    {
      assert ([x] + e)[|e| + 1 - m..] == e[|e| - m..];
    }
    assert ([x] + e)[0..] == [x] + e;
  }

  lemma {:induction false} TagSumAppend(a: seq<int>, b: seq<int>)
    ensures TagSum(a + b) == TagSum(a) + TagSum(b)
    decreases |b|
  {
    if b == [] {
      assert a + b == a;
    } else {
      var c := b[..|b| - 1];
      assert (a + b)[..|a + b| - 1] == a + c;
      TagSumAppend(a, c);
    }
  }

  lemma {:induction false} AbsSumAppend(a: seq<int>, b: seq<int>)
    ensures AbsSum(a + b) == AbsSum(a) + AbsSum(b)
    decreases |b|
  {
    if b == [] {
      assert a + b == a;
    } else {
      var c := b[..|b| - 1];
      assert (a + b)[..|a + b| - 1] == a + c;
      AbsSumAppend(a, c);
    }
  }

  /** The words a single run holds. */
  function Words(run: int): nat {
    if run < 0 then -run else 0
  }

  /** Total of the negative runs' magnitudes: the word tokens they cover. */
  function WordSum(runs: seq<int>): nat {
    if runs == [] then 0 else WordSum(runs[..|runs| - 1]) + Words(Last(runs))
  }

  lemma {:induction false} AbsSumSplits(runs: seq<int>)
    ensures AbsSum(runs) == TagSum(runs) + WordSum(runs)
  {
    if runs != [] {
      AbsSumSplits(runs[..|runs| - 1]);
    }
  }

  /** Tags in runs `0..k-1`, tags in run `k` itself, and tags after it
      together count every tag once. */
  lemma {:induction false} TagTablesPartition(runs: seq<int>, k: int)
    requires 0 <= k < |runs|
    ensures TagsUntil(runs)[k] + Tags(runs[k]) + TagsAfter(runs)[k] == TagSum(runs)
  {
    var a := runs[..k + 1];
    var c := runs[k + 1..];
    assert runs == a + c;
    TagSumAppend(a, c);
    assert a[..k] == runs[..k];
    assert TagSum(a) == TagSum(runs[..k]) + Tags(runs[k]);
  }
}
