/** Corpus-level scoring: a transcript file is split into records at blank
    lines, the two record lists are paired in order, every pair is scored, and
    the counts are aggregated into a macro average (mean of per-pair rates) and
    a micro average (pooled errors over pooled reference words). */
module Corpus {
  import opened Chars
  import opened Strings
  import opened Alignment
  import opened Normalizer
  import opened Wer

  datatype Option<T> = None | Some(value: T)

  // ---------------------------------------------------------------------------
  // Splitting a file into records
  // ---------------------------------------------------------------------------

  /** No blank-line separator (two consecutive newlines) inside s. */
  predicate NoSeparator(s: string)
  {
    forall i, j :: 0 <= i < |s| && 0 <= j < |s| && j == i + 1 ==> s[i] != '\n' || s[j] != '\n'
  }

  /** Splitting at every "\n\n", scanning left to right: the pieces between
      separators, including empty ones; there is always at least one piece. */
  function Chunks(s: string): (r: seq<string>)
    ensures |r| >= 1
    decreases |s|
  {
    if |s| < 2 then [s]
    else if s[0] == '\n' && s[1] == '\n' then [""] + Chunks(s[2..])
    else
      var rest := Chunks(s[1..]);
      [[s[0]] + rest[0]] + rest[1..]
  }

  /** Joining pieces with "\n\n" between consecutive ones. */
  function JoinChunks(parts: seq<string>): string
  {
    if parts == [] then [] else if |parts| == 1 then parts[0] else parts[0] + "\n\n" + JoinChunks(parts[1..])
  }

  /** Strips every piece and keeps the ones that are not empty afterwards. */
  function KeepStripped(pieces: seq<string>): seq<string>
  {
    if pieces == [] then []
    else (if Strip(pieces[0]) == [] then [] else [Strip(pieces[0])]) + KeepStripped(pieces[1..])
  }

  /** The transcripts of a file: its blank-line separated pieces, stripped,
      with the empty ones dropped. */
  function Records(content: string): seq<string>
  {
    KeepStripped(Chunks(content))
  }

  /** Every record is non-empty, has no whitespace at either end, and is the
      strip of one of the file's pieces. */
  lemma {:induction false} KeepStrippedShape(pieces: seq<string>)
    ensures forall k :: 0 <= k < |KeepStripped(pieces)| ==>
      KeepStripped(pieces)[k] != [] && Stripped(KeepStripped(pieces)[k])
      && exists j :: 0 <= j < |pieces| && KeepStripped(pieces)[k] == Strip(pieces[j])
    decreases |pieces|
  {
    if pieces != [] {
      var tail := pieces[1..];
      KeepStrippedShape(tail);
      StripMeaning(pieces[0]);
      var head := if Strip(pieces[0]) == [] then [] else [Strip(pieces[0])];
      var r := KeepStripped(pieces);
      assert r == head + KeepStripped(tail);
      forall k | 0 <= k < |r|
        ensures r[k] != [] && Stripped(r[k]) && exists j :: 0 <= j < |pieces| && r[k] == Strip(pieces[j])
      {
        if k >= |head| {
          var j :| 0 <= j < |tail| && r[k] == Strip(tail[j]);
          assert tail[j] == pieces[j + 1];
        }
      }
    }
  }

  /** The records of one piece: its strip, unless that is empty. */
  lemma KeepStrippedOne(x: string)
    ensures KeepStripped([x]) == if Strip(x) == [] then [] else [Strip(x)]
  {
    assert [x][1..] == [];
  }

  /** Records come out in file order: the records of consecutive stretches of
      pieces are the records of the first stretch followed by those of the
      second, so every piece with a non-blank strip contributes exactly its
      strip, at its own place. */
  lemma {:induction false} KeepStrippedAppend(p: seq<string>, q: seq<string>)
    ensures KeepStripped(p + q) == KeepStripped(p) + KeepStripped(q)
    decreases |p|
  {
    if p == [] {
      assert p + q == q;
    } else {
      var x := Strip(p[0]);
      assert KeepStripped(p + q) == (if x == [] then [] else [x]) + KeepStripped(p[1..] + q) by {
        assert (p + q)[0] == p[0] && (p + q)[1..] == p[1..] + q;
      }
      KeepStrippedAppend(p[1..], q);
    }
  }

  lemma JoinChunksCons(p: string, parts: seq<string>)
    requires parts != []
    ensures JoinChunks([p] + parts) == p + "\n\n" + JoinChunks(parts)
  {
    assert ([p] + parts)[1..] == parts;
  }

  /** Splitting and joining back gives the original text. */
  lemma {:induction false} JoinOfChunks(s: string)
    ensures JoinChunks(Chunks(s)) == s
    decreases |s|
  {
    if |s| >= 2 {
      if s[0] == '\n' && s[1] == '\n' {
        JoinOfChunks(s[2..]);
        JoinChunksCons("", Chunks(s[2..]));
        assert s == "\n\n" + s[2..];
      } else {
        var rest := Chunks(s[1..]);
        JoinOfChunks(s[1..]);
        if |rest| == 1 {
          assert [s[0]] + rest[0] == s;
        } else {
          JoinChunksCons([s[0]] + rest[0], rest[1..]);
          JoinChunksCons(rest[0], rest[1..]);
          assert rest == [rest[0]] + rest[1..];
          assert s == [s[0]] + s[1..];
        }
      }
    }
  }

  /** Text without a separator is one piece. */
  lemma {:induction false} ChunksWhole(p: string)
    requires NoSeparator(p)
    ensures Chunks(p) == [p]
    decreases |p|
  {
    if |p| >= 2 {
      NoSeparatorTail(p);
      ChunksWhole(p[1..]);
      assert p == [p[0]] + p[1..];
    }
  }

  lemma NoSeparatorTail(p: string)
    requires p != [] && NoSeparator(p)
    ensures NoSeparator(p[1..])
    ensures |p| >= 2 ==> p[0] != '\n' || p[1] != '\n'
  {
    var t := p[1..];
    forall i, j | 0 <= i < |t| && 0 <= j < |t| && j == i + 1 ensures t[i] != '\n' || t[j] != '\n' {
      assert t[i] == p[i + 1] && t[j] == p[j + 1];
    }
  }

  /** A piece without a separator and not ending in a newline, followed by a
      separator, is split off whole. */
  lemma {:induction false} ChunksAfterPiece(p: string, rest: string)
    requires NoSeparator(p) && (p == [] || p[|p| - 1] != '\n')
    ensures Chunks(p + "\n\n" + rest) == [p] + Chunks(rest)
    decreases |p|
  {
    var s := p + "\n\n" + rest;
    if p == [] {
      assert s[2..] == rest;
    } else {
      NoSeparatorTail(p);
      var q := p[1..];
      assert s[1..] == q + "\n\n" + rest;
      assert s[0] == p[0];
      assert s[1] == if |p| == 1 then '\n' else p[1];
      ChunksAfterPiece(q, rest);
      assert [p[0]] + q == p;
    }
  }

  /** Joining pieces that hold no separator and (except the last) do not end
      in a newline, then splitting, gives the pieces back. */
  lemma {:induction false} ChunksOfJoin(parts: seq<string>)
    requires parts != []
    requires forall k :: 0 <= k < |parts| ==> NoSeparator(parts[k])
    requires forall k :: 0 <= k < |parts| - 1 ==> parts[k] == [] || parts[k][|parts[k]| - 1] != '\n'
    ensures Chunks(JoinChunks(parts)) == parts
    decreases |parts|
  {
    if |parts| == 1 {
      ChunksWhole(parts[0]);
    } else {
      var tail := parts[1..];
      assert forall k :: 0 <= k < |tail| ==> tail[k] == parts[k + 1];
      ChunksOfJoin(tail);
      ChunksAfterPiece(parts[0], JoinChunks(tail));
      assert parts == [parts[0]] + tail;
    }
  }

  /** Stripped non-empty records are kept as they are. */
  lemma {:induction false} KeepStrippedFixed(rs: seq<string>)
    requires forall k :: 0 <= k < |rs| ==> rs[k] != [] && Stripped(rs[k])
    ensures KeepStripped(rs) == rs
    decreases |rs|
  {
    if rs != [] {
      StripStripped(rs[0]);
      var tail := rs[1..];
      assert forall k :: 0 <= k < |tail| ==> tail[k] == rs[k + 1];
      KeepStrippedFixed(tail);
      assert rs == [rs[0]] + tail;
    }
  }

  /** Writing non-empty stripped transcripts without blank lines inside them to
      a file, one blank line apart, and reading the file back gives the same
      transcripts. */
  lemma RecordsOfJoin(rs: seq<string>)
    requires forall k :: 0 <= k < |rs| ==> rs[k] != [] && Stripped(rs[k]) && NoSeparator(rs[k])
    ensures Records(JoinChunks(rs)) == rs
  {
    if rs == [] {
      assert Chunks([]) == [[]];
    } else {
      forall k | 0 <= k < |rs| - 1 ensures rs[k][|rs[k]| - 1] != '\n' {
        assert IsSpace('\n');
      }
      ChunksOfJoin(rs);
      KeepStrippedFixed(rs);
    }
  }

  // ---------------------------------------------------------------------------
  // Aggregating the per-pair metrics
  // ---------------------------------------------------------------------------

  /** The aggregate metrics of a corpus. */
  datatype CorpusSummary = CorpusSummary(
    werMean: Rate,
    werTotal: Rate,
    accuracyMean: real,
    accuracyTotal: real,
    totalSubstitutions: nat,
    totalDeletions: nat,
    totalInsertions: nat,
    totalErrors: nat,
    totalRefWords: nat,
    count: nat,
    results: seq<PairMetrics>)

  /** The integer counters a pair contributes to the corpus totals. */
  datatype Counter = Substitutions | Deletions | Insertions | Errors | RefWords

  function Get(r: PairMetrics, c: Counter): nat
  {
    match c
    case Substitutions => r.substitutions
    case Deletions => r.deletions
    case Insertions => r.insertions
    case Errors => r.totalErrors
    case RefWords => r.refWords
  }

  /** The sum of one counter over the pairs. */
  function Total(rs: seq<PairMetrics>, c: Counter): nat
  {
    if rs == [] then 0 else Total(rs[..|rs| - 1], c) + Get(rs[|rs| - 1], c)
  }

  /** The sum of the per-pair rates; one infinite rate makes the sum infinite. */
  function SumRate(rs: seq<PairMetrics>): Rate
  {
    if rs == [] then Finite(0.0)
    else match (SumRate(rs[..|rs| - 1]), rs[|rs| - 1].wer)
      case (Finite(x), Finite(y)) => Finite(x + y)
      case _ => Infinite
  }

  function SumAccuracy(rs: seq<PairMetrics>): real
  {
    if rs == [] then 0.0 else SumAccuracy(rs[..|rs| - 1]) + rs[|rs| - 1].accuracy
  }

  /** The arithmetic mean of the per-pair rates. */
  function MeanRate(rs: seq<PairMetrics>): Rate
    requires rs != []
  {
    match SumRate(rs)
    case Finite(v) => Finite(v / |rs| as real)
    case Infinite => Infinite
  }

  /** The aggregate of a non-empty list of per-pair results. */
  function Summarize(rs: seq<PairMetrics>): CorpusSummary
    requires rs != []
  {
    var e := Total(rs, Substitutions) + Total(rs, Deletions) + Total(rs, Insertions);
    var n := Total(rs, RefWords);
    var total := if n > 0 then Finite(e as real / n as real) else Infinite;
    CorpusSummary(MeanRate(rs), total, SumAccuracy(rs) / |rs| as real, AccuracyOf(total),
      Total(rs, Substitutions), Total(rs, Deletions), Total(rs, Insertions), e, n, |rs|, rs)
  }

  /** The shorter of the two lengths: how many pairs are formed. */
  function PairCount(manual: seq<string>, automatic: seq<string>): nat
  {
    if |manual| <= |automatic| then |manual| else |automatic|
  }

  /** f applied to the first n pairs of two lists, in order. */
  function Zip<T>(f: (string, string) -> T, xs: seq<string>, ys: seq<string>, n: nat): seq<T>
    requires n <= |xs| && n <= |ys|
  {
    seq(n, k requires 0 <= k < n => f(xs[k], ys[k]))
  }

  /** One more pair scored appends its result. */
  lemma ZipExtend<T>(f: (string, string) -> T, xs: seq<string>, ys: seq<string>, n: nat)
    requires n < |xs| && n < |ys|
    ensures Zip(f, xs, ys, n + 1) == Zip(f, xs, ys, n) + [f(xs[n], ys[n])]
  {
  }

  /** The metrics of the pairs formed, in order. */
  function PairResults(manual: seq<string>, automatic: seq<string>): seq<PairMetrics>
  {
    Zip(PairSpec, manual, automatic, PairCount(manual, automatic))
  }

  /** The aggregate of a list of per-pair results: nothing for no pair. */
  function Aggregate(rs: seq<PairMetrics>): Option<CorpusSummary>
  {
    if rs == [] then None else Some(Summarize(rs))
  }

  /** What scoring two record lists yields. */
  function CorpusSpec(manual: seq<string>, automatic: seq<string>): Option<CorpusSummary>
  {
    Aggregate(PairResults(manual, automatic))
  }

  /** Scores the transcripts of a manual file against those of an automatic
      one, given the two files' contents. */
  method CorpusWer(manualContent: string, automaticContent: string) returns (r: Option<CorpusSummary>)
    ensures r == CorpusSpec(Records(manualContent), Records(automaticContent))
  {
    r := ScoreTranscripts(Records(manualContent), Records(automaticContent));
  }

  /** Scores two record lists pair by pair, cutting the longer one to the
      length of the shorter; no pair gives no result. */
  method ScoreTranscripts(manual: seq<string>, automatic: seq<string>) returns (r: Option<CorpusSummary>)
    ensures r == CorpusSpec(manual, automatic)
  {
    var m, a := manual, automatic;
    if |m| != |a| {
      var n := if |m| <= |a| then |m| else |a|;
      m, a := m[..n], a[..n];
    }
    ZipPrefix(PairSpec, manual, automatic, |m|);
    if m == [] {
      return None;
    }
    var results, s, d, ins, n := ScoreAll(m, a);
    var total := if n > 0 then Finite((s + d + ins) as real / n as real) else Infinite;
    r := Some(CorpusSummary(MeanRate(results), total, SumAccuracy(results) / |results| as real,
      AccuracyOf(total), s, d, ins, s + d + ins, n, |results|, results));
  }

  /** s, d, ins and n are the substitution, deletion, insertion and reference
      word totals of rs. */
  predicate Tallied(rs: seq<PairMetrics>, s: nat, d: nat, ins: nat, n: nat)
  {
    s == Total(rs, Substitutions) && d == Total(rs, Deletions) && ins == Total(rs, Insertions) && n == Total(rs, RefWords)
  }

  lemma TalliedAppend(rs: seq<PairMetrics>, r: PairMetrics, s: nat, d: nat, ins: nat, n: nat)
    requires Tallied(rs, s, d, ins, n)
    ensures Tallied(rs + [r], s + r.substitutions, d + r.deletions, ins + r.insertions, n + r.refWords)
  {
    assert (rs + [r])[..|rs|] == rs;
  }

  /** Scores every pair of two equally long record lists in order, and adds up
      the substitutions, deletions, insertions and reference words. */
  method ScoreAll(m: seq<string>, a: seq<string>) returns (results: seq<PairMetrics>, s: nat, d: nat, ins: nat, n: nat)
    requires |m| == |a|
    ensures results == Zip(PairSpec, m, a, |m|)
    ensures Tallied(results, s, d, ins, n)
  {
    results, s, d, ins, n := [], 0, 0, 0, 0;
    for i := 0 to |m|
      invariant results == Zip(PairSpec, m, a, i)
      invariant Tallied(results, s, d, ins, n)
    {
      var res := ScorePair(m[i], a[i]);
      ZipExtend(PairSpec, m, a, i);
      TalliedAppend(results, res, s, d, ins, n);
      results, s, d, ins, n := results + [res], s + res.substitutions, d + res.deletions, ins + res.insertions, n + res.refWords;
    }
  }

  /** Only the first n pairs matter. */
  lemma ZipPrefix<T>(f: (string, string) -> T, xs: seq<string>, ys: seq<string>, n: nat)
    requires n <= |xs| && n <= |ys|
    ensures Zip(f, xs[..n], ys[..n], n) == Zip(f, xs, ys, n)
  {
    assert forall k :: 0 <= k < n ==> xs[..n][k] == xs[k] && ys[..n][k] == ys[k];
  }

  // ---------------------------------------------------------------------------
  // Properties of the aggregate
  // ---------------------------------------------------------------------------

  /** What the metrics of every pair satisfy, whatever its transcripts: the
      error total is the three counts added up, the accuracy lies in [0, 1],
      the rate is infinite exactly for an empty reference against a non-empty
      hypothesis, and otherwise it is the error total over the reference words. */
  predicate Consistent(r: PairMetrics)
  {
    && r.totalErrors == r.substitutions + r.deletions + r.insertions
    && 0.0 <= r.accuracy <= 1.0
    && (r.wer == Infinite <==> r.refWords == 0 && r.hypWords > 0)
    && (r.refWords > 0 ==> r.wer.Finite? && r.wer.value * r.refWords as real == r.totalErrors as real)
  }

  /** The metrics of a pair of transcripts are consistent, count the tokens of
      both sides, and their error total is the word-level edit distance. */
  lemma PairConsistent(reference: string, hypothesis: string)
    ensures Consistent(PairSpec(reference, hypothesis))
    ensures PairSpec(reference, hypothesis).refWords == |Tokens(reference)|
    ensures PairSpec(reference, hypothesis).hypWords == |Tokens(hypothesis)|
    ensures PairSpec(reference, hypothesis).totalErrors == Dist(Tokens(reference), Tokens(hypothesis))
  {
    var a, b := Tokens(reference), Tokens(hypothesis);
    var t := Trace(a, b);
    ScoreTokensMeaning(a, b);
    MetricsConsistent(Count(t, Sub), Count(t, Del), Count(t, Ins), |a|, |b|);
  }

  lemma MetricsConsistent(s: nat, d: nat, ins: nat, n: nat, m: nat)
    ensures Consistent(Metrics(s, d, ins, n, m))
  {
    MetricsMeaning(s, d, ins, n, m);
  }

  /** Every result of two record lists is the metrics of its pair. */
  lemma ResultsArePairs(manual: seq<string>, automatic: seq<string>)
    ensures |PairResults(manual, automatic)| == PairCount(manual, automatic)
    ensures forall k :: 0 <= k < PairCount(manual, automatic) ==>
      PairResults(manual, automatic)[k] == PairSpec(manual[k], automatic[k])
  {
  }

  /** Every result of two record lists is consistent and counts the tokens of
      its reference and of its hypothesis. */
  lemma ResultsMeaning(manual: seq<string>, automatic: seq<string>)
    ensures |PairResults(manual, automatic)| == PairCount(manual, automatic)
    ensures forall k :: 0 <= k < PairCount(manual, automatic) ==>
      && Consistent(PairResults(manual, automatic)[k])
      && PairResults(manual, automatic)[k].refWords == |Tokens(manual[k])|
      && PairResults(manual, automatic)[k].hypWords == |Tokens(automatic[k])|
  {
    forall k | 0 <= k < PairCount(manual, automatic)
      ensures Consistent(PairSpec(manual[k], automatic[k]))
      ensures PairSpec(manual[k], automatic[k]).refWords == |Tokens(manual[k])|
      ensures PairSpec(manual[k], automatic[k]).hypWords == |Tokens(automatic[k])|
    {
      PairConsistent(manual[k], automatic[k]);
    }
  }

  /** The error total of every result of two record lists is the word-level
      edit distance of its pair's tokens. */
  lemma ResultsDistance(manual: seq<string>, automatic: seq<string>)
    ensures forall k :: 0 <= k < PairCount(manual, automatic) ==>
      PairResults(manual, automatic)[k].totalErrors == Dist(Tokens(manual[k]), Tokens(automatic[k]))
  {
    forall k | 0 <= k < PairCount(manual, automatic)
      ensures PairSpec(manual[k], automatic[k]).totalErrors == Dist(Tokens(manual[k]), Tokens(automatic[k]))
    {
      PairConsistent(manual[k], automatic[k]);
    }
  }

  /** The counts of the aggregate of consistent results: one entry per pair,
      and the error total is the substitutions, deletions and insertions added
      up and equals the sum of the per-pair error totals. */
  lemma SummaryCounts(rs: seq<PairMetrics>)
    requires rs != [] && forall k :: 0 <= k < |rs| ==> Consistent(rs[k])
    ensures Summarize(rs).count == |rs| && Summarize(rs).results == rs
    ensures Summarize(rs).totalErrors == Summarize(rs).totalSubstitutions + Summarize(rs).totalDeletions + Summarize(rs).totalInsertions
    ensures Summarize(rs).totalErrors == Total(rs, Errors)
  {
    TotalErrorsSplit(rs);
  }

  /** The rates of the aggregate of a non-empty list of results: the pooled rate is
      infinite exactly when no reference has a word, the macro rate exactly
      when some pair's rate is infinite. */
  lemma SummaryRates(rs: seq<PairMetrics>)
    requires rs != []
    ensures Summarize(rs).werTotal == Infinite <==> forall k :: 0 <= k < |rs| ==> rs[k].refWords == 0
    ensures Summarize(rs).werMean == Infinite <==> exists k :: 0 <= k < |rs| && rs[k].wer == Infinite
  {
    TotalZero(rs, RefWords);
    SumRateInfinite(rs);
  }

  /** Both accuracies of the aggregate of consistent results lie in [0, 1]. */
  lemma SummaryAccuracy(rs: seq<PairMetrics>)
    requires rs != [] && forall k :: 0 <= k < |rs| ==> Consistent(rs[k])
    ensures 0.0 <= Summarize(rs).accuracyTotal <= 1.0
    ensures 0.0 <= Summarize(rs).accuracyMean <= 1.0
  {
    AccuracyBounds(rs);
    RatioBounds(SumAccuracy(rs), |rs| as real);
  }

  /** Every pair's error total is its three counts added up. */
  lemma {:induction false} TotalErrorsSplit(rs: seq<PairMetrics>)
    requires forall k :: 0 <= k < |rs| ==> rs[k].totalErrors == rs[k].substitutions + rs[k].deletions + rs[k].insertions
    ensures Total(rs, Errors) == Total(rs, Substitutions) + Total(rs, Deletions) + Total(rs, Insertions)
  {
    if rs != [] {
      TotalErrorsSplit(rs[..|rs| - 1]);
    }
  }

  /** A total is zero exactly when every pair contributes zero. */
  lemma {:induction false} TotalZero(rs: seq<PairMetrics>, c: Counter)
    ensures Total(rs, c) == 0 <==> forall k :: 0 <= k < |rs| ==> Get(rs[k], c) == 0
  {
    if rs != [] {
      var p := rs[..|rs| - 1];
      TotalZero(p, c);
      assert forall k :: 0 <= k < |p| ==> p[k] == rs[k];
    }
  }

  /** The sum of the rates is infinite exactly when some pair's rate is. */
  lemma {:induction false} SumRateInfinite(rs: seq<PairMetrics>)
    ensures SumRate(rs) == Infinite <==> exists k :: 0 <= k < |rs| && rs[k].wer == Infinite
  {
    if rs != [] {
      var p := rs[..|rs| - 1];
      SumRateInfinite(p);
      if exists k :: 0 <= k < |p| && p[k].wer == Infinite {
        var k :| 0 <= k < |p| && p[k].wer == Infinite;
        assert rs[k] == p[k];
      }
      if exists k :: 0 <= k < |rs| && rs[k].wer == Infinite {
        var k :| 0 <= k < |rs| && rs[k].wer == Infinite;
        if k < |p| { assert p[k] == rs[k]; }
      }
    }
  }

  lemma {:induction false} AccuracyBounds(rs: seq<PairMetrics>)
    requires forall k :: 0 <= k < |rs| ==> 0.0 <= rs[k].accuracy <= 1.0
    ensures 0.0 <= SumAccuracy(rs) <= |rs| as real
  {
    if rs != [] {
      AccuracyBounds(rs[..|rs| - 1]);
      assert rs[|rs| - 1].accuracy <= 1.0;
    }
  }

  /** A ratio of a value in [0, n] to a positive n lies in [0, 1]; it is 1 for n itself and 0 for 0. */
  lemma RatioBounds(x: real, n: real)
    requires 0.0 < n && 0.0 <= x <= n
    ensures 0.0 <= x / n <= 1.0
    ensures x == n ==> x / n == 1.0
    ensures x == 0.0 ==> x / n == 0.0
  {
    assert x / n * n == x;
  }

  /** The corpus totals: nothing exactly when no pair can be formed; otherwise
      one result per pair, each the pair's metrics, whose error total is the
      word-level edit distance of its tokens; the pooled error total is the
      sum of these and splits into substitutions, deletions and insertions. */
  lemma CorpusTotals(manual: seq<string>, automatic: seq<string>)
    ensures CorpusSpec(manual, automatic).None? <==> PairCount(manual, automatic) == 0
    ensures CorpusSpec(manual, automatic).Some? ==>
      && CorpusSpec(manual, automatic).value.count == |CorpusSpec(manual, automatic).value.results| == PairCount(manual, automatic)
      && (forall k :: 0 <= k < PairCount(manual, automatic) ==>
            && CorpusSpec(manual, automatic).value.results[k] == PairSpec(manual[k], automatic[k])
            && CorpusSpec(manual, automatic).value.results[k].totalErrors == Dist(Tokens(manual[k]), Tokens(automatic[k])))
      && CorpusSpec(manual, automatic).value.totalErrors == Total(CorpusSpec(manual, automatic).value.results, Errors)
      && CorpusSpec(manual, automatic).value.totalErrors ==
           CorpusSpec(manual, automatic).value.totalSubstitutions + CorpusSpec(manual, automatic).value.totalDeletions
           + CorpusSpec(manual, automatic).value.totalInsertions
  {
    ResultsArePairs(manual, automatic);
    ResultsMeaning(manual, automatic);
    ResultsDistance(manual, automatic);
    var rs := PairResults(manual, automatic);
    if rs != [] {
      SummaryCounts(rs);
    }
  }

  /** The macro rate is infinite exactly when some pair has an empty reference
      against a non-empty hypothesis. */
  lemma MeanRateInfinite(manual: seq<string>, automatic: seq<string>)
    requires CorpusSpec(manual, automatic).Some?
    ensures CorpusSpec(manual, automatic).value.werMean == Infinite <==>
      exists k :: 0 <= k < PairCount(manual, automatic) && Tokens(manual[k]) == [] && Tokens(automatic[k]) != []
  {
    var rs := PairResults(manual, automatic);
    ResultsInfinite(manual, automatic);
    SummaryRates(rs);
  }

  /** A pair's rate is infinite exactly when its reference has no word and its
      hypothesis has some. */
  lemma ResultsInfinite(manual: seq<string>, automatic: seq<string>)
    ensures forall k :: 0 <= k < PairCount(manual, automatic) ==>
      (PairResults(manual, automatic)[k].wer == Infinite <==> Tokens(manual[k]) == [] && Tokens(automatic[k]) != [])
  {
    ResultsMeaning(manual, automatic);
  }

  /** The pooled rate is infinite exactly when no reference has a word. */
  lemma TotalRateInfinite(manual: seq<string>, automatic: seq<string>)
    requires CorpusSpec(manual, automatic).Some?
    ensures CorpusSpec(manual, automatic).value.werTotal == Infinite <==>
      forall k :: 0 <= k < PairCount(manual, automatic) ==> Tokens(manual[k]) == []
  {
    ResultsMeaning(manual, automatic);
    SummaryRates(PairResults(manual, automatic));
  }

  /** Both accuracies of a corpus lie in [0, 1]. */
  lemma CorpusAccuracyBounds(manual: seq<string>, automatic: seq<string>)
    requires CorpusSpec(manual, automatic).Some?
    ensures 0.0 <= CorpusSpec(manual, automatic).value.accuracyMean <= 1.0
    ensures 0.0 <= CorpusSpec(manual, automatic).value.accuracyTotal <= 1.0
  {
    ResultsMeaning(manual, automatic);
    SummaryAccuracy(PairResults(manual, automatic));
  }

  /** The sum of the per-pair error counts, as a real. */
  function SumErrors(rs: seq<PairMetrics>): real
  {
    if rs == [] then 0.0 else SumErrors(rs[..|rs| - 1]) + rs[|rs| - 1].totalErrors as real
  }

  /** Each pair's rate weighted by its reference length, added up. */
  function WeightedRates(rs: seq<PairMetrics>): real
    requires forall k :: 0 <= k < |rs| ==> rs[k].wer.Finite?
  {
    if rs == [] then 0.0 else WeightedRates(rs[..|rs| - 1]) + rs[|rs| - 1].wer.value * rs[|rs| - 1].refWords as real
  }

  lemma {:induction false} WeightedIsErrors(rs: seq<PairMetrics>)
    requires forall k :: 0 <= k < |rs| ==> rs[k].wer.Finite? && rs[k].wer.value * rs[k].refWords as real == rs[k].totalErrors as real
    ensures WeightedRates(rs) == SumErrors(rs)
  {
    if rs != [] {
      WeightedIsErrors(rs[..|rs| - 1]);
    }
  }

  lemma {:induction false} SumErrorsIsTotal(rs: seq<PairMetrics>)
    ensures SumErrors(rs) == Total(rs, Errors) as real
  {
    if rs != [] {
      SumErrorsIsTotal(rs[..|rs| - 1]);
    }
  }

  /** When every reference has words, the pooled (micro) rate is the mean of
      the per-pair rates weighted by reference length. */
  lemma WeightedMean(rs: seq<PairMetrics>)
    requires rs != [] && forall k :: 0 <= k < |rs| ==> Consistent(rs[k]) && rs[k].refWords > 0
    ensures forall k :: 0 <= k < |rs| ==> rs[k].wer.Finite?
    ensures Total(rs, RefWords) > 0
    ensures Summarize(rs).werTotal == Finite(WeightedRates(rs) / Total(rs, RefWords) as real)
  {
    WeightedIsErrors(rs);
    SumErrorsIsTotal(rs);
    TotalErrorsSplit(rs);
    TotalZero(rs, RefWords);
  }

  /** When every reference of a corpus has words, its pooled rate is the mean
      of its per-pair rates weighted by reference length. */
  lemma MicroIsWeightedMacro(manual: seq<string>, automatic: seq<string>)
    requires CorpusSpec(manual, automatic).Some?
    requires forall k :: 0 <= k < PairCount(manual, automatic) ==> Tokens(manual[k]) != []
    ensures forall k :: 0 <= k < |CorpusSpec(manual, automatic).value.results| ==>
      CorpusSpec(manual, automatic).value.results[k].wer.Finite?
    ensures CorpusSpec(manual, automatic).value.totalRefWords > 0
    ensures CorpusSpec(manual, automatic).value.werTotal ==
      Finite(WeightedRates(CorpusSpec(manual, automatic).value.results) / CorpusSpec(manual, automatic).value.totalRefWords as real)
  {
    ResultsMeaning(manual, automatic);
    WeightedMean(PairResults(manual, automatic));
  }

  /** A corpus scored against itself, every transcript holding at least one
      word: no errors, both rates 0 and both accuracies 1. */
  lemma CorpusSelf(texts: seq<string>)
    requires texts != []
    requires forall k :: 0 <= k < |texts| ==> Tokens(texts[k]) != []
    ensures CorpusSpec(texts, texts).Some?
    ensures CorpusSpec(texts, texts).value.totalErrors == 0
    ensures CorpusSpec(texts, texts).value.werMean == Finite(0.0) && CorpusSpec(texts, texts).value.werTotal == Finite(0.0)
    ensures CorpusSpec(texts, texts).value.accuracyMean == 1.0 && CorpusSpec(texts, texts).value.accuracyTotal == 1.0
  {
    var rs := PairResults(texts, texts);
    forall k | 0 <= k < |rs| ensures Perfect(rs[k]) {
      PairSelf(texts[k]);
    }
    PerfectSummary(rs);
  }

  /** A pair without errors over a non-empty reference. */
  predicate Perfect(r: PairMetrics)
  {
    && r.wer == Finite(0.0) && r.accuracy == 1.0 && r.refWords > 0
    && r.substitutions == 0 && r.deletions == 0 && r.insertions == 0
  }

  lemma PairSelf(text: string)
    requires Tokens(text) != []
    ensures Perfect(PairSpec(text, text))
  {
    ScoreSelf(text);
    ScoreTokensMeaning(Tokens(text), Tokens(text));
  }

  /** The aggregate of pairs without errors: no errors, both rates 0 and both accuracies 1. */
  lemma PerfectSummary(rs: seq<PairMetrics>)
    requires rs != [] && forall k :: 0 <= k < |rs| ==> Perfect(rs[k])
    ensures Summarize(rs).totalErrors == 0
    ensures Summarize(rs).werMean == Finite(0.0) && Summarize(rs).werTotal == Finite(0.0)
    ensures Summarize(rs).accuracyMean == 1.0 && Summarize(rs).accuracyTotal == 1.0
  {
    PerfectSums(rs);
    TotalZero(rs, RefWords);
    assert Get(rs[0], RefWords) > 0;
    RatioBounds(0.0, |rs| as real);
    RatioBounds(SumAccuracy(rs), |rs| as real);
    RatioBounds(0.0, Total(rs, RefWords) as real);
  }

  lemma {:induction false} PerfectSums(rs: seq<PairMetrics>)
    requires forall k :: 0 <= k < |rs| ==> Perfect(rs[k])
    ensures SumRate(rs) == Finite(0.0) && SumAccuracy(rs) == |rs| as real
    ensures Total(rs, Substitutions) == 0 && Total(rs, Deletions) == 0 && Total(rs, Insertions) == 0
  {
    if rs != [] {
      PerfectSums(rs[..|rs| - 1]);
    }
  }
}
