/** Word error rate of one reference/hypothesis transcript pair:
    WER = (S + D + I) / N, after Morris, Maier and Green (2004). */
module Wer {
  import opened Alignment
  import opened Normalizer

  /** A word error rate: a finite ratio, or the infinite value the scorer
      reports for an empty reference against a non-empty hypothesis. */
  datatype Rate = Finite(value: real) | Infinite

  /** The metrics of one pair. */
  datatype PairMetrics = PairMetrics(
    wer: Rate,
    accuracy: real,
    substitutions: nat,
    deletions: nat,
    insertions: nat,
    totalErrors: nat,
    refWords: nat,
    hypWords: nat)

  /** Accuracy derived from a rate, max(0, 1 - wer); an infinite rate gives 0. */
  function AccuracyOf(w: Rate): (a: real)
    ensures 0.0 <= a
    ensures w.Finite? && w.value >= 0.0 ==> a <= 1.0
    ensures w.Finite? ==> (a == 1.0 - w.value <==> w.value <= 1.0)
    ensures a == 1.0 <==> w == Finite(0.0)
    ensures w.Infinite? ==> a == 0.0
    ensures w.Finite? && w.value >= 1.0 ==> a == 0.0
  {
    match w
    case Finite(v) => if 0.0 < 1.0 - v then 1.0 - v else 0.0
    case Infinite => 0.0
  }

  /** The metrics record built from the edit counts and the two token counts. */
  function Metrics(s: nat, d: nat, ins: nat, n: nat, m: nat): PairMetrics
  {
    var errors := s + d + ins;
    if n == 0 then
      PairMetrics(if m > 0 then Infinite else Finite(0.0), 0.0, s, d, ins, errors, n, m)
    else
      var wer := Finite(errors as real / n as real);
      PairMetrics(wer, AccuracyOf(wer), s, d, ins, errors, n, m)
  }

  /** The metrics of a pair of token sequences, split as the backtrack splits them. */
  function ScoreTokens(refWords: seq<Token>, hypWords: seq<Token>): PairMetrics
  {
    var t := Trace(refWords, hypWords);
    Metrics(Count(t, Sub), Count(t, Del), Count(t, Ins), |refWords|, |hypWords|)
  }

  /** The metrics of a pair of raw transcripts: normalise, split, align, score. */
  function PairSpec(reference: string, hypothesis: string): PairMetrics
  {
    ScoreTokens(Tokens(reference), Tokens(hypothesis))
  }

  /** Scores one reference transcript against one hypothesis transcript. */
  method ScorePair(reference: string, hypothesis: string) returns (r: PairMetrics)
    ensures r == PairSpec(reference, hypothesis)
    ensures r.totalErrors == Dist(Tokens(reference), Tokens(hypothesis))
    ensures r.refWords == |Tokens(reference)| && r.hypWords == |Tokens(hypothesis)|
  {
    var refWords := Tokens(reference);
    var hypWords := Tokens(hypothesis);
    var s, d, ins := EditCounts(refWords, hypWords);
    r := Metrics(s, d, ins, |refWords|, |hypWords|);
  }

  /** The scoring formula: WER = errors / N for a non-empty reference, which
      may exceed 1, with accuracy clamped to [0, 1]; for an empty reference an
      infinite WER exactly when the hypothesis has words, and accuracy 0. */
  lemma MetricsMeaning(s: nat, d: nat, ins: nat, n: nat, m: nat)
    ensures var r := Metrics(s, d, ins, n, m);
      && r.totalErrors == s + d + ins && r.substitutions == s && r.deletions == d && r.insertions == ins
      && r.refWords == n && r.hypWords == m
      && (n > 0 ==> r.wer.Finite? && r.wer.value * n as real == (s + d + ins) as real && r.wer.value >= 0.0)
      && (n > 0 ==> r.accuracy == AccuracyOf(r.wer) && 0.0 <= r.accuracy <= 1.0)
      && (n > 0 ==> (r.wer == Finite(0.0) <==> s + d + ins == 0))
      && (n > 0 ==> (r.wer.value > 1.0 <==> s + d + ins > n))
      && (n == 0 ==> (r.wer == Infinite <==> m > 0) && (r.wer == Finite(0.0) <==> m == 0) && r.accuracy == 0.0)
  {
    if n > 0 {
      var e := (s + d + ins) as real;
      var w := e / n as real;
      assert w * n as real == e;
      assert w > 1.0 <==> e > n as real;
    }
  }

  /** What a pair's metrics mean: the error total is the word-level edit
      distance, split into S, D and I; every reference and hypothesis token is
      accounted for. */
  lemma ScoreTokensMeaning(a: seq<Token>, b: seq<Token>)
    ensures var r := ScoreTokens(a, b);
      && r.totalErrors == r.substitutions + r.deletions + r.insertions == Dist(a, b)
      && r.refWords == |a| && r.hypWords == |b|
      && r.substitutions + r.deletions <= |a| && r.substitutions + r.insertions <= |b|
      && r.deletions - r.insertions == |a| - |b|
      && (|a| == 0 && |b| == 0 ==> r.totalErrors == 0)
  {
    var t := Trace(a, b);
    TraceOptimal(a, b);
    AlignsConsumes(t, a, b);
    MetricsMeaning(Count(t, Sub), Count(t, Del), Count(t, Ins), |a|, |b|);
  }

  /** A transcript scored against itself has no errors; with at least one
      word its WER is 0 and its accuracy 1. */
  lemma ScoreSelf(text: string)
    ensures PairSpec(text, text).totalErrors == 0
    ensures Tokens(text) != [] ==> PairSpec(text, text).wer == Finite(0.0) && PairSpec(text, text).accuracy == 1.0
  {
    var t := Trace(Tokens(text), Tokens(text));
    TraceSelf(Tokens(text));
    MetricsMeaning(Count(t, Sub), Count(t, Del), Count(t, Ins), |Tokens(text)|, |Tokens(text)|);
  }

  /** Normalisation is applied before scoring, so scoring normalised text gives
      the same metrics as scoring the raw text. */
  lemma ScoreNormalized(reference: string, hypothesis: string)
    ensures PairSpec(Normalize(reference), Normalize(hypothesis)) == PairSpec(reference, hypothesis)
  {
    NormalizeIdempotent(reference);
    NormalizeIdempotent(hypothesis);
  }

  /** "a b" scored against "c": the backtrack's choice gives S = 1, D = 1,
      I = 0, so WER 1 and accuracy 0. */
  lemma ScoreTokensExample(a: seq<Token>, b: seq<Token>)
    requires a == ["a", "b"] && b == ["c"]
    ensures ScoreTokens(a, b) == PairMetrics(Finite(1.0), 0.0, 1, 1, 0, 2, 2, 1)
  {
    TraceExample(a, b);
    assert DropLast([Del, Sub]) == [Del];
  }

  /** One deletion against a four-word reference: WER 0.25, accuracy 0.75. */
  lemma DeletionScore(a: seq<Token>, b: seq<Token>)
    requires a == ["the", "quick", "brown", "fox"] && b == ["the", "quick", "fox"]
    ensures ScoreTokens(a, b) == PairMetrics(Finite(0.25), 0.75, 0, 1, 0, 1, 4, 3)
  {
    DeletionCounts(a, b);
  }

  /** Dropping one word of a four-word reference, end to end: one deletion,
      WER 0.25, accuracy 0.75. */
  lemma PairExample(reference: string, hypothesis: string)
    requires reference == "the quick brown fox" && hypothesis == "the quick fox"
    ensures PairSpec(reference, hypothesis) == PairMetrics(Finite(0.25), 0.75, 0, 1, 0, 1, 4, 3)
  {
    PlainTokensFour(reference);
    PlainTokensThree(hypothesis);
    DeletionScore(Tokens(reference), Tokens(hypothesis));
  }
}
