/** The span objective and the exhaustive search for the best span of word
    runs. */
module Search {
  import opened Runs

  /** The four lists the search reads: the runs, the shifted token counts,
      and the two tag tables. */
  datatype Tables = Tables(encoded: seq<int>, tokensBefore: seq<int>, tagsUntil: seq<int>, tagsAfter: seq<int>)

  /** The lengths `close()` gives the lists. */
  predicate WellFormed(t: Tables) {
    |t.encoded| >= 1 && |t.tokensBefore| == |t.encoded| + 1
    && |t.tagsUntil| == |t.encoded| && |t.tagsAfter| == |t.encoded|
  }

  /** The tables `close()` derives from the runs. */
  function TablesOf(runs: seq<int>): Tables {
    Tables(runs, TokensBefore(runs), TagsUntil(runs), TagsAfter(runs))
  }

  /** The tables are the ones derived from their own runs. */
  predicate Derived(t: Tables) {
    |t.encoded| >= 1 && t == TablesOf(t.encoded)
  }

  /** `_objective_fcn(i, j)`: computed in constant time from the tables. */
  function Objective(t: Tables, i: int, j: int): int
    requires WellFormed(t)
    requires 0 <= i < |t.encoded| && 0 <= j < |t.encoded|
  {
    var textToI := t.tokensBefore[i] - t.tagsUntil[i];
    var textToJ := t.tokensBefore[j] - t.tagsUntil[j];
    t.tagsUntil[i] + t.tagsAfter[j] + (textToJ - textToI)
  }

  /** The objective's meaning, counted run by run: the tags in runs before
      `i`, the tags in runs after `j`, and the words in runs `i..j-1`. */
  function Oracle(runs: seq<int>, i: int, j: int): nat
    requires 0 <= i <= j < |runs|
  {
    TagSum(runs[..i]) + TagSum(runs[j + 1..]) + WordSum(runs[i..j])
  }

  lemma {:induction false} WordSumAppend(a: seq<int>, b: seq<int>)
    ensures WordSum(a + b) == WordSum(a) + WordSum(b)
    decreases |b|
  {
    if b == [] {
      assert a + b == a;
    } else {
      var c := b[..|b| - 1];
      assert (a + b)[..|a + b| - 1] == a + c;
      WordSumAppend(a, c);
    }
  }

  /** Tokens before run `k` minus tags before run `k` is the words before it. */
  lemma {:induction false} TextBefore(runs: seq<int>, k: int)
    requires 0 <= k < |runs|
    ensures TokensBefore(runs)[k] - TagsUntil(runs)[k] == WordSum(runs[..k])
  {
    AbsSumSplits(runs[..k]);
  }

  /** On derived tables the constant-time objective equals the run-by-run
      count, so it is never negative. */
  lemma {:induction false} ObjectiveIsOracle(t: Tables, i: int, j: int)
    requires Derived(t)
    requires 0 <= i <= j < |t.encoded|
    ensures WellFormed(t)
    ensures Objective(t, i, j) == Oracle(t.encoded, i, j)
    ensures Objective(t, i, j) >= 0
  {
    var r := t.encoded;
    TextBefore(r, i);
    TextBefore(r, j);
    assert r[..j] == r[..i] + r[i..j];
    WordSumAppend(r[..i], r[i..j]);
  }

  // ---------------------------------------------------------------------
  // _find_optimal_span

  /** The running maximum of the search: its score and run indices. */
  datatype Best = Best(score: int, i: int, j: int)

  /** A pair the search scores: `i` ranges from the body start to the
      second-to-last run, `j` from `i` to the last run, and both runs are
      word runs (or the zero run). */
  predicate Candidate(t: Tables, bodyStart: int, i: int, j: int) {
    bodyStart <= i <= |t.encoded| - 2 && i <= j <= |t.encoded| - 1
    && 0 <= i && t.encoded[i] <= 0 && t.encoded[j] <= 0
  }

  /** `(i, j)` comes before `(pi, pj)` in the nested ascending scan. */
  predicate Earlier(i: int, j: int, pi: int, pj: int) {
    i < pi || (i == pi && j < pj)
  }

  /** The inner loop from column `j` on, for row `i`. */
  function Row(t: Tables, i: int, j: int, best: Best): Best
    requires WellFormed(t)
    requires 0 <= i < |t.encoded| && 0 <= j <= |t.encoded|
    decreases |t.encoded| - j
  {
    if j == |t.encoded| then best
    else
      var next :=
        if t.encoded[j] <= 0 && Objective(t, i, j) > best.score then Best(Objective(t, i, j), i, j) else best;
      Row(t, i, j + 1, next)
  }

  /** The outer loop from row `i` on. */
  function Scan(t: Tables, i: int, best: Best): Best
    requires WellFormed(t)
    requires 0 <= i
    decreases |t.encoded| - i
  {
    if i >= |t.encoded| - 1 then best
    else Scan(t, i + 1, if t.encoded[i] > 0 then best else Row(t, i, i, best))
  }

  /** The search from the body start, with initial maximum 0 at
      `(bodyStart, len(encoded) - 1)`. */
  function SearchBest(t: Tables, bodyStart: nat): Best
    requires WellFormed(t)
  {
    Scan(t, bodyStart, Best(0, bodyStart, |t.encoded| - 1))
  }

  /** What the search knows once it has visited every candidate before
      position `(pi, pj)`. */
  ghost predicate Inv(t: Tables, bodyStart: nat, best: Best, pi: int, pj: int)
    requires WellFormed(t)
  {
    && best.score >= 0
    && (forall i, j :: Candidate(t, bodyStart, i, j) && Earlier(i, j, pi, pj) ==> Objective(t, i, j) <= best.score)
    && (best.score == 0 ==> best.i == bodyStart && best.j == |t.encoded| - 1)
    && (best.score > 0 ==>
          && Candidate(t, bodyStart, best.i, best.j)
          && Earlier(best.i, best.j, pi, pj)
          && Objective(t, best.i, best.j) == best.score
          && (forall i, j :: Candidate(t, bodyStart, i, j) && Earlier(i, j, best.i, best.j) ==>
                Objective(t, i, j) < best.score))
  }

  lemma {:induction false} RowKeepsInv(t: Tables, bodyStart: nat, i: int, j: int, best: Best)
    requires WellFormed(t)
    requires bodyStart <= i <= |t.encoded| - 2 && t.encoded[i] <= 0
    requires i <= j <= |t.encoded|
    requires Inv(t, bodyStart, best, i, j)
    ensures Inv(t, bodyStart, Row(t, i, j, best), i + 1, 0)
    decreases |t.encoded| - j
  {
    if j == |t.encoded| {
      assert forall a, b :: Candidate(t, bodyStart, a, b) && Earlier(a, b, i + 1, 0) ==> Earlier(a, b, i, j);
    } else {
      var next :=
        if t.encoded[j] <= 0 && Objective(t, i, j) > best.score then Best(Objective(t, i, j), i, j) else best;
      assert forall a, b :: Earlier(a, b, i, j + 1) ==> Earlier(a, b, i, j) || (a == i && b == j);
      RowKeepsInv(t, bodyStart, i, j + 1, next);
    }
  }

  lemma {:induction false} ScanKeepsInv(t: Tables, bodyStart: nat, i: int, best: Best)
    requires WellFormed(t)
    requires bodyStart <= i
    requires Inv(t, bodyStart, best, i, 0)
    ensures Inv(t, bodyStart, Scan(t, i, best), |t.encoded|, 0)
    decreases |t.encoded| - i
  {
    if i >= |t.encoded| - 1 {
      assert forall a, b :: Candidate(t, bodyStart, a, b) && Earlier(a, b, |t.encoded|, 0) ==> Earlier(a, b, i, 0);
    } else if t.encoded[i] > 0 {
      assert forall a, b :: Candidate(t, bodyStart, a, b) && Earlier(a, b, i + 1, 0) ==> Earlier(a, b, i, 0);
      ScanKeepsInv(t, bodyStart, i + 1, best);
    } else {
      RowKeepsInv(t, bodyStart, i, i, best);
      ScanKeepsInv(t, bodyStart, i + 1, Row(t, i, i, best));
    }
  }

  /** The search returns the first strict maximiser: no candidate scores
      above it, every candidate scanned before it scores strictly less, and
      when no candidate scores above 0 it falls back to
      `(bodyStart, len(encoded) - 1)`. */
  lemma {:induction false} SearchBestSpec(t: Tables, bodyStart: nat)
    requires WellFormed(t)
    ensures var b := SearchBest(t, bodyStart);
      && b.score >= 0
      && (forall i, j :: Candidate(t, bodyStart, i, j) ==> Objective(t, i, j) <= b.score)
      && (b.score == 0 ==> b.i == bodyStart && b.j == |t.encoded| - 1)
      && (b.score > 0 ==>
            && Candidate(t, bodyStart, b.i, b.j)
            && Objective(t, b.i, b.j) == b.score
            && (forall i, j :: Candidate(t, bodyStart, i, j) && Earlier(i, j, b.i, b.j) ==>
                  Objective(t, i, j) < b.score))
  {
    ScanKeepsInv(t, bodyStart, bodyStart, Best(0, bodyStart, |t.encoded| - 1));
  }

  /** `j` lies inside the run list; `i` does too unless it is still the
      body start; and `j` never precedes `i` when the body start is a run
      index. */
  lemma {:induction false} SearchBestBounds(t: Tables, bodyStart: nat)
    requires WellFormed(t)
    ensures var b := SearchBest(t, bodyStart);
      0 <= b.j < |t.encoded| && 0 <= b.i
      && (bodyStart <= |t.encoded| - 1 ==> b.i <= b.j)
      && (b.i != bodyStart ==> b.i <= |t.encoded| - 2)
  {
    SearchBestSpec(t, bodyStart);
  }

  /** `_find_optimal_span`'s answer: the token range `[tb[i], tb[j])` of the
      winning runs (run `j` itself excluded), or `None` where the source
      raises `IndexError` because the body start, a token index, is past the
      end of `total_tokens_before`. */
  function OptimalSpan(t: Tables, bodyStart: nat): (r: Option<(int, int)>)
    requires WellFormed(t)
  {
    var b := SearchBest(t, bodyStart);
    SearchBestBounds(t, bodyStart);
    if b.i < |t.tokensBefore| then Some((t.tokensBefore[b.i], t.tokensBefore[b.j])) else None
  }

  datatype Option<T> = None | Some(value: T)

  /** The lookup fails exactly when the body start is past the end of
      `total_tokens_before`; on derived tables the span lies inside the
      tokens the runs cover and is ordered whenever the body start is a
      valid run index. */
  lemma {:induction false} OptimalSpanSpec(t: Tables, bodyStart: nat)
    requires Derived(t)
    ensures WellFormed(t)
    ensures OptimalSpan(t, bodyStart).None? <==> bodyStart > |t.encoded|
    ensures OptimalSpan(t, bodyStart).Some? ==>
      var (start, end) := OptimalSpan(t, bodyStart).value;
      0 <= start <= AbsSum(t.encoded) && 0 <= end <= AbsSum(t.encoded)
      && (bodyStart <= |t.encoded| - 1 ==> start <= end)
  {
    var b := SearchBest(t, bodyStart);
    SearchBestBounds(t, bodyStart);
    if b.i < |t.tokensBefore| {
      TokensBeforeMonotone(t.encoded, b.i, |t.encoded|);
      TokensBeforeMonotone(t.encoded, b.j, |t.encoded|);
      if bodyStart <= |t.encoded| - 1 {
        TokensBeforeMonotone(t.encoded, b.i, b.j);
      }
    }
    assert t.encoded[..|t.encoded|] == t.encoded;
  }

  /** `total_tokens_before` is non-decreasing. */
  lemma {:induction false} TokensBeforeMonotone(runs: seq<int>, a: int, b: int)
    requires 0 <= a <= b <= |runs|
    ensures TokensBefore(runs)[a] <= TokensBefore(runs)[b]
  {
    assert runs[..b] == runs[..a] + runs[a..b];
    AbsSumAppend(runs[..a], runs[a..b]);
  }
}
