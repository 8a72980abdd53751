/** Word-level Levenshtein alignment of a reference token sequence against a
    hypothesis token sequence, with the backtrack that splits the edit distance
    into substitutions, deletions and insertions. */
module Alignment {

  type Token = string

  /** One column of an alignment: a reference token kept as is (Match), replaced
      by a hypothesis token (Sub), dropped from the reference (Del), or a
      hypothesis token with no reference counterpart (Ins). */
  datatype Op = Match | Sub | Del | Ins

  function Last<T>(s: seq<T>): T
    requires s != []
  {
    s[|s| - 1]
  }

  function DropLast<T>(s: seq<T>): seq<T>
    requires s != []
  {
    s[..|s| - 1]
  }

  function Min3(x: nat, y: nat, z: nat): (r: nat)
    ensures r <= x && r <= y && r <= z
    ensures r == x || r == y || r == z
  {
    if x <= y && x <= z then x else if y <= z then y else z
  }

  /** The value the dynamic-programming table holds for the prefixes a and b:
      the base row and column count tokens, equal last tokens copy the diagonal
      cell, and otherwise one edit is added to the cheapest neighbour. */
  function Dist(a: seq<Token>, b: seq<Token>): nat
    decreases |a| + |b|
  {
    if a == [] then |b|
    else if b == [] then |a|
    else if Last(a) == Last(b) then Dist(DropLast(a), DropLast(b))
    else 1 + Min3(Dist(DropLast(a), b), Dist(a, DropLast(b)), Dist(DropLast(a), DropLast(b)))
  }

  /** `ops` is an alignment of a with b: read from the end, every Match and Sub
      consumes one token of each side (a Match only on equal tokens), every Del
      one reference token and every Ins one hypothesis token, until both are used up. */
  predicate Aligns(ops: seq<Op>, a: seq<Token>, b: seq<Token>)
    decreases |ops|
  {
    if ops == [] then a == [] && b == []
    else match Last(ops)
      case Match => a != [] && b != [] && Last(a) == Last(b) && Aligns(DropLast(ops), DropLast(a), DropLast(b))
      case Sub => a != [] && b != [] && Aligns(DropLast(ops), DropLast(a), DropLast(b))
      case Del => a != [] && Aligns(DropLast(ops), DropLast(a), b)
      case Ins => b != [] && Aligns(DropLast(ops), a, DropLast(b))
  }

  /** Number of occurrences of `o` in `ops`. */
  function Count(ops: seq<Op>, o: Op): nat
    decreases |ops|
  {
    if ops == [] then 0
    else Count(DropLast(ops), o) + (if Last(ops) == o then 1 else 0)
  }

  /** Unit cost of an alignment: every column that is not a Match is one edit. */
  function Cost(ops: seq<Op>): nat
  {
    Count(ops, Sub) + Count(ops, Del) + Count(ops, Ins)
  }

  lemma CountAppend(ops: seq<Op>, o: Op, x: Op)
    ensures Count(ops + [o], x) == Count(ops, x) + (if o == x then 1 else 0)
  {
    assert DropLast(ops + [o]) == ops;
  }

  /** Dropping the last token of either side moves the table value by at most one. */
  lemma {:induction false} DistNeighbours(a: seq<Token>, b: seq<Token>)
    ensures a != [] ==> Dist(a, b) <= Dist(DropLast(a), b) + 1 && Dist(DropLast(a), b) <= Dist(a, b) + 1
    ensures b != [] ==> Dist(a, b) <= Dist(a, DropLast(b)) + 1 && Dist(a, DropLast(b)) <= Dist(a, b) + 1
    decreases |a| + |b|
  {
    if a != [] && b != [] {
      DistNeighbours(DropLast(a), b);
      DistNeighbours(a, DropLast(b));
    }
  }

  /** Every alignment costs at least the table value: Dist is a lower bound on
      the number of unit-cost edits turning one sequence into the other. */
  lemma {:induction false} CostAtLeastDist(ops: seq<Op>, a: seq<Token>, b: seq<Token>)
    requires Aligns(ops, a, b)
    ensures Cost(ops) >= Dist(a, b)
    decreases |ops|
  {
    if ops != [] {
      var p := DropLast(ops);
      assert ops == p + [Last(ops)];
      CountAppend(p, Last(ops), Sub);
      CountAppend(p, Last(ops), Del);
      CountAppend(p, Last(ops), Ins);
      match Last(ops)
      case Match =>
        CostAtLeastDist(p, DropLast(a), DropLast(b));
      case Sub =>
        CostAtLeastDist(p, DropLast(a), DropLast(b));
      case Del =>
        CostAtLeastDist(p, DropLast(a), b);
        DistNeighbours(a, b);
      case Ins =>
        CostAtLeastDist(p, a, DropLast(b));
        DistNeighbours(a, b);
    }
  }

  /** An alignment consumes every token: Match, Sub and Del columns account for
      the reference, Match, Sub and Ins columns for the hypothesis. */
  lemma {:induction false} AlignsConsumes(ops: seq<Op>, a: seq<Token>, b: seq<Token>)
    requires Aligns(ops, a, b)
    ensures Count(ops, Match) + Count(ops, Sub) + Count(ops, Del) == |a|
    ensures Count(ops, Match) + Count(ops, Sub) + Count(ops, Ins) == |b|
    decreases |ops|
  {
    if ops != [] {
      var p := DropLast(ops);
      assert ops == p + [Last(ops)];
      CountAppend(p, Last(ops), Match);
      CountAppend(p, Last(ops), Sub);
      CountAppend(p, Last(ops), Del);
      CountAppend(p, Last(ops), Ins);
      match Last(ops)
      case Match => AlignsConsumes(p, DropLast(a), DropLast(b));
      case Sub => AlignsConsumes(p, DropLast(a), DropLast(b));
      case Del => AlignsConsumes(p, DropLast(a), b);
      case Ins => AlignsConsumes(p, a, DropLast(b));
    }
  }

  /** The path the backtrack walks from the corner (|a|, |b|) back to (0, 0),
      one column per step, with the fixed priority: a match whenever the last
      tokens are equal, otherwise a substitution if the diagonal cell is one
      less, otherwise a deletion if the cell above is one less, otherwise an
      insertion if the cell to the left is one less; if none applies the walk
      stops where it is. */
  function Trace(a: seq<Token>, b: seq<Token>): seq<Op>
    decreases |a| + |b|
  {
    if a != [] && b != [] && Last(a) == Last(b) then Trace(DropLast(a), DropLast(b)) + [Match]
    else if a != [] && b != [] && Dist(a, b) == Dist(DropLast(a), DropLast(b)) + 1 then Trace(DropLast(a), DropLast(b)) + [Sub]
    else if a != [] && Dist(a, b) == Dist(DropLast(a), b) + 1 then Trace(DropLast(a), b) + [Del]
    else if b != [] && Dist(a, b) == Dist(a, DropLast(b)) + 1 then Trace(a, DropLast(b)) + [Ins]
    else []
  }

  /** The backtrack never gets stuck: its path is a complete alignment of a with
      b, and its cost is exactly the corner value of the table. */
  lemma {:induction false} TraceOptimal(a: seq<Token>, b: seq<Token>)
    ensures Aligns(Trace(a, b), a, b)
    ensures Cost(Trace(a, b)) == Dist(a, b)
    decreases |a| + |b|
  {
    var t := Trace(a, b);
    if a != [] && b != [] && Last(a) == Last(b) {
      TraceOptimal(DropLast(a), DropLast(b));
      TraceStep(Trace(DropLast(a), DropLast(b)), Match);
    } else if a != [] && b != [] && Dist(a, b) == Dist(DropLast(a), DropLast(b)) + 1 {
      TraceOptimal(DropLast(a), DropLast(b));
      TraceStep(Trace(DropLast(a), DropLast(b)), Sub);
    } else if a != [] && Dist(a, b) == Dist(DropLast(a), b) + 1 {
      TraceOptimal(DropLast(a), b);
      TraceStep(Trace(DropLast(a), b), Del);
    } else if b != [] && Dist(a, b) == Dist(a, DropLast(b)) + 1 {
      TraceOptimal(a, DropLast(b));
      TraceStep(Trace(a, DropLast(b)), Ins);
    } else {
      assert a == [] && b == [];
    }
  }

  lemma TraceStep(p: seq<Op>, o: Op)
    ensures Last(p + [o]) == o && DropLast(p + [o]) == p
    ensures Cost(p + [o]) == Cost(p) + (if o == Match then 0 else 1)
  {
    assert DropLast(p + [o]) == p;
    CountAppend(p, o, Sub);
    CountAppend(p, o, Del);
    CountAppend(p, o, Ins);
  }

  /** Dist is the Levenshtein distance: no alignment is cheaper, and the
      backtrack's alignment attains it. */
  lemma DistIsMinimum(a: seq<Token>, b: seq<Token>)
    ensures forall ops :: Aligns(ops, a, b) ==> Cost(ops) >= Dist(a, b)
    ensures Aligns(Trace(a, b), a, b) && Cost(Trace(a, b)) == Dist(a, b)
  {
    forall ops | Aligns(ops, a, b) ensures Cost(ops) >= Dist(a, b) {
      CostAtLeastDist(ops, a, b);
    }
    TraceOptimal(a, b);
  }

  /** Identical sequences are aligned by matches only. */
  lemma {:induction false} TraceSelf(a: seq<Token>)
    ensures Count(Trace(a, a), Match) == |a| && Cost(Trace(a, a)) == 0
    decreases |a|
  {
    if a != [] {
      TraceSelf(DropLast(a));
      CountAppend(Trace(DropLast(a), DropLast(a)), Match, Match);
      TraceStep(Trace(DropLast(a), DropLast(a)), Match);
    }
  }

  /** The table recurrence read at indices: the cell (i, j) from its three neighbours. */
  lemma DistAt(a: seq<Token>, b: seq<Token>, i: nat, j: nat)
    requires 1 <= i <= |a| && 1 <= j <= |b|
    ensures Dist(a[..i], b[..j]) ==
      if a[i - 1] == b[j - 1] then Dist(a[..i - 1], b[..j - 1])
      else 1 + Min3(Dist(a[..i - 1], b[..j]), Dist(a[..i], b[..j - 1]), Dist(a[..i - 1], b[..j - 1]))
  {
    assert DropLast(a[..i]) == a[..i - 1] && Last(a[..i]) == a[i - 1];
    assert DropLast(b[..j]) == b[..j - 1] && Last(b[..j]) == b[j - 1];
  }

  /** The table holds the distance of every pair of prefixes: cell (i, j) is
      the distance between the first i tokens of a and the first j of b. */
  ghost predicate Filled(a: seq<Token>, b: seq<Token>, dp: array2<nat>)
    reads dp
  {
    && dp.Length0 == |a| + 1 && dp.Length1 == |b| + 1
    && forall i, j {:trigger dp[i, j]} :: 0 <= i <= |a| && 0 <= j <= |b| ==> dp[i, j] == Dist(a[..i], b[..j])
  }

  /** Fills the (|a|+1) x (|b|+1) table: first column, first row, then the
      interior row by row. */
  method FillTable(a: seq<Token>, b: seq<Token>) returns (dp: array2<nat>)
    ensures fresh(dp) && Filled(a, b, dp)
  {
    var n, m := |a|, |b|;
    dp := new nat[n + 1, m + 1];
    for i := 0 to n + 1
      invariant forall k :: 0 <= k < i ==> dp[k, 0] == k
    {
      dp[i, 0] := i;
    }
    for j := 0 to m + 1
      invariant forall k :: 0 <= k <= n ==> dp[k, 0] == k
      invariant forall l :: 0 <= l < j ==> dp[0, l] == l
    {
      dp[0, j] := j;
    }
    for i := 1 to n + 1
      invariant forall k, l {:trigger dp[k, l]} :: 0 <= k < i && 0 <= l <= m ==> dp[k, l] == Dist(a[..k], b[..l])
      invariant forall k :: i <= k <= n ==> dp[k, 0] == k
    {
      FillRow(a, b, dp, i);
    }
  }

  /** Fills row i of the table left to right from row i - 1 and the cell to the left. */
  method FillRow(a: seq<Token>, b: seq<Token>, dp: array2<nat>, i: nat)
    requires dp.Length0 == |a| + 1 && dp.Length1 == |b| + 1 && 1 <= i <= |a|
    requires forall l {:trigger dp[i - 1, l]} :: 0 <= l <= |b| ==> dp[i - 1, l] == Dist(a[..i - 1], b[..l])
    requires dp[i, 0] == i
    modifies dp
    ensures forall l {:trigger dp[i, l]} :: 0 <= l <= |b| ==> dp[i, l] == Dist(a[..i], b[..l])
    ensures forall k, l {:trigger dp[k, l]} :: 0 <= k < dp.Length0 && 0 <= l < dp.Length1 && k != i ==> dp[k, l] == old(dp[k, l])
  {
    assert Dist(a[..i], b[..0]) == i;
    for j := 1 to |b| + 1
      invariant forall l {:trigger dp[i, l]} :: 0 <= l < j ==> dp[i, l] == Dist(a[..i], b[..l])
      invariant forall k, l {:trigger dp[k, l]} :: 0 <= k < dp.Length0 && 0 <= l < dp.Length1 && k != i ==> dp[k, l] == old(dp[k, l])
    {
      DistAt(a, b, i, j);
      if a[i - 1] == b[j - 1] {
        dp[i, j] := dp[i - 1, j - 1];
      } else {
        dp[i, j] := 1 + Min3(dp[i - 1, j], dp[i, j - 1], dp[i - 1, j - 1]);
      }
    }
  }

  /** The backtrack's choice at (i, j) read at indices, in the same priority order. */
  lemma TraceAt(a: seq<Token>, b: seq<Token>, i: nat, j: nat)
    requires i <= |a| && j <= |b|
    ensures Trace(a[..i], b[..j]) ==
      if i > 0 && j > 0 && a[i - 1] == b[j - 1] then Trace(a[..i - 1], b[..j - 1]) + [Match]
      else if i > 0 && j > 0 && Dist(a[..i], b[..j]) == Dist(a[..i - 1], b[..j - 1]) + 1 then Trace(a[..i - 1], b[..j - 1]) + [Sub]
      else if i > 0 && Dist(a[..i], b[..j]) == Dist(a[..i - 1], b[..j]) + 1 then Trace(a[..i - 1], b[..j]) + [Del]
      else if j > 0 && Dist(a[..i], b[..j]) == Dist(a[..i], b[..j - 1]) + 1 then Trace(a[..i], b[..j - 1]) + [Ins]
      else []
  {
    if i > 0 {
      assert DropLast(a[..i]) == a[..i - 1] && Last(a[..i]) == a[i - 1];
    }
    if j > 0 {
      assert DropLast(b[..j]) == b[..j - 1] && Last(b[..j]) == b[j - 1];
    }
  }

  /** The counts gathered after reaching (i, j), plus those of the path still
      to walk from there, are the counts of the whole backtrack path. */
  ghost predicate Tally(a: seq<Token>, b: seq<Token>, i: nat, j: nat, s: nat, d: nat, ins: nat)
    requires i <= |a| && j <= |b|
  {
    var rest := Trace(a[..i], b[..j]);
    && s + Count(rest, Sub) == Count(Trace(a, b), Sub)
    && d + Count(rest, Del) == Count(Trace(a, b), Del)
    && ins + Count(rest, Ins) == Count(Trace(a, b), Ins)
  }

  /** Walks the filled table from (|a|, |b|) back towards (0, 0), counting the
      substitutions, deletions and insertions of the path it takes. */
  method Backtrack(a: seq<Token>, b: seq<Token>, dp: array2<nat>) returns (s: nat, d: nat, ins: nat)
    requires Filled(a, b, dp)
    ensures s == Count(Trace(a, b), Sub) && d == Count(Trace(a, b), Del) && ins == Count(Trace(a, b), Ins)
  {
    var i, j := |a|, |b|;
    s, d, ins := 0, 0, 0;
    TallyStart(a, b);
    while i > 0 || j > 0
      invariant 0 <= i <= |a| && 0 <= j <= |b|
      invariant Tally(a, b, i, j, s, d, ins)
      decreases i + j
    {
      if i > 0 && j > 0 && a[i - 1] == b[j - 1] {
        TallyMatch(a, b, i, j, s, d, ins);
        i, j := i - 1, j - 1;
      } else if i > 0 && j > 0 && dp[i, j] == dp[i - 1, j - 1] + 1 {
        TallySub(a, b, dp, i, j, s, d, ins);
        s := s + 1;
        i, j := i - 1, j - 1;
      } else if i > 0 && dp[i, j] == dp[i - 1, j] + 1 {
        TallyDel(a, b, dp, i, j, s, d, ins);
        d := d + 1;
        i := i - 1;
      } else if j > 0 && dp[i, j] == dp[i, j - 1] + 1 {
        TallyIns(a, b, dp, i, j, s, d, ins);
        ins := ins + 1;
        j := j - 1;
      } else {
        TallyStop(a, b, dp, i, j, s, d, ins);
        break;
      }
    }
    TallyDone(a, b, i, j, s, d, ins);
  }

  lemma TallyStart(a: seq<Token>, b: seq<Token>)
    ensures Tally(a, b, |a|, |b|, 0, 0, 0)
  {
    assert a[..|a|] == a && b[..|b|] == b;
  }

  lemma TallyDone(a: seq<Token>, b: seq<Token>, i: nat, j: nat, s: nat, d: nat, ins: nat)
    requires i <= |a| && j <= |b| && Tally(a, b, i, j, s, d, ins)
    requires (i == 0 && j == 0) || Trace(a[..i], b[..j]) == []
    ensures s == Count(Trace(a, b), Sub) && d == Count(Trace(a, b), Del) && ins == Count(Trace(a, b), Ins)
  {
    if i == 0 && j == 0 {
      assert a[..i] == [] && b[..j] == [];
    }
  }

  lemma TallyMatch(a: seq<Token>, b: seq<Token>, i: nat, j: nat, s: nat, d: nat, ins: nat)
    requires 0 < i <= |a| && 0 < j <= |b| && a[i - 1] == b[j - 1]
    requires Tally(a, b, i, j, s, d, ins)
    ensures Tally(a, b, i - 1, j - 1, s, d, ins)
  {
    TraceAt(a, b, i, j);
    CountsAfter(Trace(a[..i - 1], b[..j - 1]), Match);
  }

  lemma TallySub(a: seq<Token>, b: seq<Token>, dp: array2<nat>, i: nat, j: nat, s: nat, d: nat, ins: nat)
    requires Filled(a, b, dp)
    requires 0 < i <= |a| && 0 < j <= |b| && a[i - 1] != b[j - 1]
    requires dp[i, j] == dp[i - 1, j - 1] + 1
    requires Tally(a, b, i, j, s, d, ins)
    ensures Tally(a, b, i - 1, j - 1, s + 1, d, ins)
  {
    DpAt(a, b, dp, i, j);
    TraceAt(a, b, i, j);
    CountsAfter(Trace(a[..i - 1], b[..j - 1]), Sub);
  }

  lemma TallyDel(a: seq<Token>, b: seq<Token>, dp: array2<nat>, i: nat, j: nat, s: nat, d: nat, ins: nat)
    requires Filled(a, b, dp)
    requires 0 < i <= |a| && j <= |b|
    requires j > 0 ==> a[i - 1] != b[j - 1] && dp[i, j] != dp[i - 1, j - 1] + 1
    requires dp[i, j] == dp[i - 1, j] + 1
    requires Tally(a, b, i, j, s, d, ins)
    ensures Tally(a, b, i - 1, j, s, d + 1, ins)
  {
    DpAt(a, b, dp, i, j);
    TraceAt(a, b, i, j);
    CountsAfter(Trace(a[..i - 1], b[..j]), Del);
  }

  lemma TallyIns(a: seq<Token>, b: seq<Token>, dp: array2<nat>, i: nat, j: nat, s: nat, d: nat, ins: nat)
    requires Filled(a, b, dp)
    requires i <= |a| && 0 < j <= |b|
    requires i > 0 ==> a[i - 1] != b[j - 1] && dp[i, j] != dp[i - 1, j - 1] + 1 && dp[i, j] != dp[i - 1, j] + 1
    requires dp[i, j] == dp[i, j - 1] + 1
    requires Tally(a, b, i, j, s, d, ins)
    ensures Tally(a, b, i, j - 1, s, d, ins + 1)
  {
    DpAt(a, b, dp, i, j);
    TraceAt(a, b, i, j);
    CountsAfter(Trace(a[..i], b[..j - 1]), Ins);
  }

  /** When no neighbour explains the cell the walk stops; the remaining path is empty. */
  lemma TallyStop(a: seq<Token>, b: seq<Token>, dp: array2<nat>, i: nat, j: nat, s: nat, d: nat, ins: nat)
    requires Filled(a, b, dp)
    requires i <= |a| && j <= |b|
    requires i > 0 && j > 0 ==> a[i - 1] != b[j - 1] && dp[i, j] != dp[i - 1, j - 1] + 1
    requires i > 0 ==> dp[i, j] != dp[i - 1, j] + 1
    requires j > 0 ==> dp[i, j] != dp[i, j - 1] + 1
    ensures Trace(a[..i], b[..j]) == []
  {
    DpAt(a, b, dp, i, j);
    TraceAt(a, b, i, j);
  }

  lemma DpAt(a: seq<Token>, b: seq<Token>, dp: array2<nat>, i: nat, j: nat)
    requires Filled(a, b, dp)
    requires i <= |a| && j <= |b|
    ensures dp[i, j] == Dist(a[..i], b[..j])
    ensures i > 0 ==> dp[i - 1, j] == Dist(a[..i - 1], b[..j])
    ensures j > 0 ==> dp[i, j - 1] == Dist(a[..i], b[..j - 1])
    ensures i > 0 && j > 0 ==> dp[i - 1, j - 1] == Dist(a[..i - 1], b[..j - 1])
  {
  }

  lemma CountsAfter(p: seq<Op>, o: Op)
    ensures Count(p + [o], Sub) == Count(p, Sub) + (if o == Sub then 1 else 0)
    ensures Count(p + [o], Del) == Count(p, Del) + (if o == Del then 1 else 0)
    ensures Count(p + [o], Ins) == Count(p, Ins) + (if o == Ins then 1 else 0)
  {
    CountAppend(p, o, Sub);
    CountAppend(p, o, Del);
    CountAppend(p, o, Ins);
  }

  /** Splits the word-level edit distance between a reference (a) and a
      hypothesis (b) into substitutions, deletions and insertions. The three
      counts add up to the minimum number of edits, and every reference and
      hypothesis token is accounted for. */
  method EditCounts(a: seq<Token>, b: seq<Token>) returns (s: nat, d: nat, ins: nat)
    ensures s == Count(Trace(a, b), Sub) && d == Count(Trace(a, b), Del) && ins == Count(Trace(a, b), Ins)
    ensures s + d + ins == Dist(a, b)
    ensures s + d <= |a| && s + ins <= |b|
    ensures d - ins == |a| - |b|
  {
    var dp := FillTable(a, b);
    s, d, ins := Backtrack(a, b, dp);
    TraceOptimal(a, b);
    AlignsConsumes(Trace(a, b), a, b);
  }

  /** Of the two cheapest alignments of "a b" with "c", the backtrack's
      priority picks the one that substitutes the last word and deletes the
      first: one substitution, one deletion, no insertion. */
  lemma TraceExample(a: seq<Token>, b: seq<Token>)
    requires a == ["a", "b"] && b == ["c"]
    ensures Trace(a, b) == [Del, Sub]
    ensures Aligns([Sub, Del], a, b) && Cost([Sub, Del]) == Cost(Trace(a, b))
  {
    var a1 := DropLast(a);
    assert a1 == ["a"] && DropLast(a1) == [];
    assert DropLast(b) == [];
    assert Dist(a1, []) == 1;
    assert Dist(a, b) == 2;
    assert Trace(a1, []) == [Del];
    assert DropLast([Sub, Del]) == [Sub];
    assert DropLast([Del, Sub]) == [Del];
    assert Count([Sub, Del], Sub) == 1;
  }

  /** The backtrack aligns a sequence with itself by matches alone. */
  lemma {:induction false} TraceSelfMatches(a: seq<Token>)
    ensures Trace(a, a) == seq(|a|, _ => Match)
    decreases |a|
  {
    if a != [] {
      TraceSelfMatches(DropLast(a));
    }
  }

  /** A trailing matched word extends the backtrack's path by one Match. */
  lemma TraceMatchLast(a: seq<Token>, b: seq<Token>, w: Token)
    ensures Trace(a + [w], b + [w]) == Trace(a, b) + [Match]
  {
    assert DropLast(a + [w]) == a && DropLast(b + [w]) == b;
  }

  /** One extra reference word at the end, unlike the last hypothesis word, is
      read as a deletion after matching everything else. */
  lemma TraceExtraLast(p: seq<Token>, x: Token)
    requires p != [] && x != Last(p)
    ensures Dist(p + [x], p) == 1
    ensures Trace(p + [x], p) == Trace(p, p) + [Del]
  {
    var a := p + [x];
    assert DropLast(a) == p && Last(a) == x;
    TraceSelf(p);
    TraceOptimal(p, p);
    var q := DropLast(p);
    TraceOptimal(p, q);
    AlignsConsumes(Trace(p, q), p, q);
  }

  /** A reference word missing from the hypothesis is read as one deletion,
      every other word as a match. */
  lemma TraceDeletionExample(a: seq<Token>, b: seq<Token>)
    requires a == ["the", "quick", "brown", "fox"] && b == ["the", "quick", "fox"]
    ensures Trace(a, b) == [Match, Match, Del, Match]
  {
    var p := ["the", "quick"];
    assert a == p + ["brown"] + ["fox"] && b == p + ["fox"];
    TraceMatchLast(p + ["brown"], p, "fox");
    TraceExtraLast(p, "brown");
    TraceSelfMatches(p);
  }

  /** The path of TraceDeletionExample has one deletion and no other edit. */
  lemma DeletionCounts(a: seq<Token>, b: seq<Token>)
    requires a == ["the", "quick", "brown", "fox"] && b == ["the", "quick", "fox"]
    ensures Count(Trace(a, b), Sub) == 0 && Count(Trace(a, b), Del) == 1 && Count(Trace(a, b), Ins) == 0
  {
    TraceDeletionExample(a, b);
    var t := [Match, Match, Del, Match];
    assert DropLast(t) == [Match, Match, Del];
    assert DropLast(DropLast(t)) == [Match, Match];
    assert DropLast(DropLast(DropLast(t))) == [Match];
  }
}
