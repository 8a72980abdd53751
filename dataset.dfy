/** Preparation of the human-versus-AI evaluation dataset: every label cell is
    cleaned, the rows are numbered, every row is spread into eight long-form
    records (four metrics, each scored by a human and by the AI), and every
    metric gets a match flag saying whether the two evaluators agree. */
module Dataset {
  import opened Chars
  import opened Strings
  import opened Normalizer

  /** A spreadsheet cell: missing (NaN), or a text label. */
  datatype Cell = Missing | Text(text: string)

  // ---------------------------------------------------------------------------
  // Cleaning one label
  // ---------------------------------------------------------------------------

  /** The accented letters replaced by their base letter, in replacement order. */
  const Replacements: seq<(char, char)> := [('á', 'a'), ('é', 'e'), ('í', 'i'), ('ó', 'o'), ('ú', 'u'), ('ñ', 'n')]

  /** The labels that are mapped onto a standard spelling. */
  const Standardizations: map<string, string> := map[
    "desinteres" := "desinteres",
    "desinterés" := "desinteres",
    "interes" := "interes",
    "interés" := "interes",
    "indecision" := "indecision",
    "indecisión" := "indecision",
    "profesionalismo empatico" := "profesionalismo",
    "empatia" := "empatia",
    "empata" := "empatia"]

  /** Every occurrence of the character `target` replaced by `replacement`. */
  function ReplaceChar(s: string, target: char, replacement: char): string
  {
    seq(|s|, i requires 0 <= i < |s| => if s[i] == target then replacement else s[i])
  }

  /** The replacements of `pairs` applied one after the other, first to last. */
  function ReplaceEach(s: string, pairs: seq<(char, char)>): string
  {
    if pairs == [] then s
    else ReplaceChar(ReplaceEach(s, pairs[..|pairs| - 1]), pairs[|pairs| - 1].0, pairs[|pairs| - 1].1)
  }

  /** One of the six characters the replacement table removes. */
  predicate Accented(c: char)
  {
    c == 'á' || c == 'é' || c == 'í' || c == 'ó' || c == 'ú' || c == 'ñ'
  }

  /** The base letter of an accented character; every other character is kept. */
  function Unaccent(c: char): char
  {
    if c == 'á' then 'a'
    else if c == 'é' then 'e'
    else if c == 'í' then 'i'
    else if c == 'ó' then 'o'
    else if c == 'ú' then 'u'
    else if c == 'ñ' then 'n'
    else c
  }

  function UnaccentAll(s: string): string
  {
    seq(|s|, i requires 0 <= i < |s| => Unaccent(s[i]))
  }

  /** The standard spelling of a label, or the label itself when the table has
      no entry for it. */
  function Standardize(s: string): string
  {
    if s in Standardizations then Standardizations[s] else s
  }

  /** The cleaned label: empty for a missing or empty cell; otherwise
      lower-cased, stripped, with accented letters replaced, and standardised. */
  function Clean(cell: Cell): string
  {
    match cell
    case Missing => ""
    case Text(t) => if t == "" then "" else Standardize(UnaccentAll(Strip(LowerAll(t))))
  }

  /** Cleans one cell, applying the replacement table entry by entry. */
  method CleanText(cell: Cell) returns (r: string)
    ensures r == Clean(cell)
  {
    if cell.Missing? || cell.text == "" {
      return "";
    }
    var text := Strip(LowerAll(cell.text));
    ghost var start := text;
    for i := 0 to |Replacements|
      invariant text == ReplaceEach(start, Replacements[..i])
    {
      assert Replacements[..i + 1][..i] == Replacements[..i];
      text := ReplaceChar(text, Replacements[i].0, Replacements[i].1);
    }
    assert Replacements[..|Replacements|] == Replacements;
    ReplaceEachIsUnaccent(start);
    r := Standardize(text);
  }

  /** Replacing the six letters one after the other is replacing each accented
      letter by its base letter: no replacement produces a letter that a later
      one would replace. */
  lemma ReplaceEachIsUnaccent(s: string)
    ensures ReplaceEach(s, Replacements) == UnaccentAll(s)
  {
    var p := Replacements;
    assert p[..6] == p && p[..6][..5] == p[..5] && p[..5][..4] == p[..4];
    assert p[..4][..3] == p[..3] && p[..3][..2] == p[..2] && p[..2][..1] == p[..1] && p[..1][..0] == [];
    var s1 := ReplaceChar(s, 'á', 'a');
    var s2 := ReplaceChar(s1, 'é', 'e');
    var s3 := ReplaceChar(s2, 'í', 'i');
    var s4 := ReplaceChar(s3, 'ó', 'o');
    var s5 := ReplaceChar(s4, 'ú', 'u');
    var s6 := ReplaceChar(s5, 'ñ', 'n');
    assert ReplaceEach(s, p[..1]) == s1;
    assert ReplaceEach(s, p[..2]) == s2;
    assert ReplaceEach(s, p[..3]) == s3;
    assert ReplaceEach(s, p[..4]) == s4;
    assert ReplaceEach(s, p[..5]) == s5;
    assert ReplaceEach(s, p) == s6;
    forall i | 0 <= i < |s| ensures s6[i] == Unaccent(s[i]) {
      assert s1[i] == (if s[i] == 'á' then 'a' else s[i]);
      assert s2[i] == (if s1[i] == 'é' then 'e' else s1[i]);
      assert s3[i] == (if s2[i] == 'í' then 'i' else s2[i]);
      assert s4[i] == (if s3[i] == 'ó' then 'o' else s3[i]);
      assert s5[i] == (if s4[i] == 'ú' then 'u' else s4[i]);
    }
  }

  /** The standardisation runs after the accents are gone, so its accented
      keys can never match: on accent-free text only two entries change
      anything. */
  lemma StandardizeEffect(s: string)
    requires forall i :: 0 <= i < |s| ==> !Accented(s[i])
    ensures Standardize(s) == if s == "profesionalismo empatico" then "profesionalismo" else if s == "empata" then "empatia" else s
  {
    if s == "desinterés" { assert Accented(s[8]); }
    if s == "interés" { assert Accented(s[5]); }
    if s == "indecisión" { assert Accented(s[8]); }
  }

  /** What a cleaned label looks like: no upper-case letter, none of the six
      accented letters, no whitespace at either end. */
  predicate CleanLabel(s: string)
  {
    Stripped(s) && forall i :: 0 <= i < |s| ==> !IsUpper(s[i]) && !Accented(s[i])
  }

  /** Lower-casing then stripping leaves no upper-case letter and no
      whitespace at either end. */
  lemma LowerStripShape(t: string)
    ensures Stripped(Strip(LowerAll(t)))
    ensures forall i :: 0 <= i < |Strip(LowerAll(t))| ==> !IsUpper(Strip(LowerAll(t))[i])
  {
    var l := LowerAll(t);
    var x := Strip(l);
    StripMeaning(l);
    var lo := LeadingSpaces(l);
    forall i | 0 <= i < |x| ensures !IsUpper(x[i]) {
      assert x[i] == l[lo + i];
      LowerCharMeaning(t[lo + i]);
    }
  }

  /** Replacing the accented letters keeps a stripped lower-case string
      stripped and lower-case, and leaves no accented letter. */
  lemma UnaccentShape(x: string)
    requires Stripped(x) && forall i :: 0 <= i < |x| ==> !IsUpper(x[i])
    ensures CleanLabel(UnaccentAll(x))
  {
    var u := UnaccentAll(x);
    if u != [] {
      assert u[0] == Unaccent(x[0]) && u[|u| - 1] == Unaccent(x[|x| - 1]);
    }
  }

  /** Standardisation maps clean labels to clean labels. */
  lemma StandardizeShape(u: string)
    requires CleanLabel(u)
    ensures CleanLabel(Standardize(u))
  {
    StandardizeEffect(u);
  }

  /** A cleaned label has no upper-case letter, no accented letter and no
      whitespace at either end; a missing or empty cell gives "". */
  lemma CleanShape(cell: Cell)
    ensures cell.Missing? || cell.text == "" ==> Clean(cell) == ""
    ensures CleanLabel(Clean(cell))
  {
    if cell.Text? && cell.text != "" {
      var x := Strip(LowerAll(cell.text));
      LowerStripShape(cell.text);
      UnaccentShape(x);
      StandardizeShape(UnaccentAll(x));
    }
  }

  /** A clean label that standardisation keeps is its own cleaning. */
  lemma CleanFixed(s: string)
    requires CleanLabel(s) && Standardize(s) == s
    ensures Clean(Text(s)) == s
  {
    if s != [] {
      forall i | 0 <= i < |s| ensures LowerChar(s[i]) == s[i] {
        LowerCharMeaning(s[i]);
      }
      assert LowerAll(s) == s;
      StripStripped(s);
      assert UnaccentAll(s) == s;
    }
  }

  /** Cleaning a cleaned label changes nothing. */
  lemma CleanIdempotent(cell: Cell)
    ensures Clean(Text(Clean(cell))) == Clean(cell)
  {
    CleanShape(cell);
    if cell.Text? && cell.text != "" {
      var x := Strip(LowerAll(cell.text));
      LowerStripShape(cell.text);
      UnaccentShape(x);
      var u := UnaccentAll(x);
      StandardizeEffect(u);
      StandardizeEffect(Standardize(u));
    }
    CleanFixed(Clean(cell));
  }

  /** A standardisation that fires, reached from mixed-case input with
      surrounding whitespace. */
  lemma CleanEmpata()
    ensures Clean(Text(" Empata ")) == "empatia"
  {
    assert LowerAll(" Empata ") == " empata ";
    assert LeadingSpaces(" empata ") == 1;
    assert TrailingSpaces("empata ") == 1;
    assert Strip(" empata ") == "empata";
    assert UnaccentAll("empata") == "empata";
  }

  /** An accented label reaches its standard spelling through the accent
      replacement, not through its own accented key. */
  lemma CleanDesinteres()
    ensures Clean(Text("Desinterés")) == "desinteres"
  {
    assert LowerAll("Desinterés") == "desinterés";
    StripStripped("desinterés");
    assert UnaccentAll("desinterés") == "desinteres";
  }

  // ---------------------------------------------------------------------------
  // Rows, the wide form and the long form
  // ---------------------------------------------------------------------------

  /** The four metrics, each scored by both evaluators. */
  datatype Metric = Sentimiento | EmocionCandidato | EmocionAgente | InteresCandidato

  datatype Evaluator = Humano | IA

  /** The metrics in the order the long form lists them. */
  const Metrics: seq<Metric> := [Sentimiento, EmocionCandidato, EmocionAgente, InteresCandidato]

  /** One spreadsheet row: the human scores of the four metrics, then the AI
      scores, in the column order of the sheet. */
  datatype Row<T> = Row(
    sentimientoHumano: T, emocionCandidatoHumano: T, emocionAgenteHumano: T, interesCandidatoHumano: T,
    sentimientoIA: T, emocionCandidatoIA: T, emocionAgenteIA: T, interesCandidatoIA: T)

  /** The column `<metric>_<evaluator>` of a row. */
  function Column<T>(row: Row<T>, m: Metric, e: Evaluator): T
  {
    match (m, e)
    case (Sentimiento, Humano) => row.sentimientoHumano
    case (EmocionCandidato, Humano) => row.emocionCandidatoHumano
    case (EmocionAgente, Humano) => row.emocionAgenteHumano
    case (InteresCandidato, Humano) => row.interesCandidatoHumano
    case (Sentimiento, IA) => row.sentimientoIA
    case (EmocionCandidato, IA) => row.emocionCandidatoIA
    case (EmocionAgente, IA) => row.emocionAgenteIA
    case (InteresCandidato, IA) => row.interesCandidatoIA
  }

  /** The match flags of a row, one per metric. */
  datatype Flags = Flags(sentimiento: nat, emocionCandidato: nat, emocionAgente: nat, interesCandidato: nat)

  function Flag(f: Flags, m: Metric): nat
  {
    match m
    case Sentimiento => f.sentimiento
    case EmocionCandidato => f.emocionCandidato
    case EmocionAgente => f.emocionAgente
    case InteresCandidato => f.interesCandidato
  }

  /** A row of the wide form: its number, its cleaned labels and its match flags. */
  datatype WideRow = WideRow(id: nat, values: Row<string>, matches: Flags)

  /** A record of the long form: one label given by one evaluator for one metric of one call. */
  datatype LongRecord = LongRecord(id: nat, metric: Metric, evaluator: Evaluator, value: string)

  /** Every cell of a row cleaned. */
  function CleanRow(row: Row<Cell>): Row<string>
  {
    Row(Clean(row.sentimientoHumano), Clean(row.emocionCandidatoHumano), Clean(row.emocionAgenteHumano),
      Clean(row.interesCandidatoHumano), Clean(row.sentimientoIA), Clean(row.emocionCandidatoIA),
      Clean(row.emocionAgenteIA), Clean(row.interesCandidatoIA))
  }

  /** The element-wise comparison of the human and the AI label of one metric. */
  function MatchFlag(values: Row<string>, m: Metric): nat
  {
    if Column(values, m, Humano) == Column(values, m, IA) then 1 else 0
  }

  function MatchFlags(values: Row<string>): Flags
  {
    Flags(MatchFlag(values, Sentimiento), MatchFlag(values, EmocionCandidato),
      MatchFlag(values, EmocionAgente), MatchFlag(values, InteresCandidato))
  }

  /** The long-form record at position q (0 to 7) of the row with index i. */
  function Entry(rows: seq<Row<string>>, i: nat, q: nat): LongRecord
    requires i < |rows| && q < 8
  {
    var m, e := Metrics[q / 2], if q % 2 == 0 then Humano else IA;
    LongRecord(i + 1, m, e, Column(rows[i], m, e))
  }

  /** The long form of cleaned rows: eight records per row, row after row. */
  function LongForm(rows: seq<Row<string>>): seq<LongRecord>
  {
    seq(8 * |rows|, p requires 0 <= p < 8 * |rows| => Entry(rows, p / 8, p % 8))
  }

  /** Every row of the sheet cleaned. */
  function CleanRows(raw: seq<Row<Cell>>): seq<Row<string>>
  {
    seq(|raw|, i requires 0 <= i < |raw| => CleanRow(raw[i]))
  }

  /** The wide form of cleaned rows: numbered from 1, with their match flags. */
  function WideForm(rows: seq<Row<string>>): seq<WideRow>
  {
    seq(|rows|, i requires 0 <= i < |rows| => WideRow(i + 1, rows[i], MatchFlags(rows[i])))
  }

  /** Transforms the rows of the sheet: cleans every cell, spreads every row
      into the long form and flags the agreeing metrics, numbering the rows
      from 1 in both forms. */
  method Transform(raw: seq<Row<Cell>>) returns (wide: seq<WideRow>, long: seq<LongRecord>)
    ensures wide == WideForm(CleanRows(raw))
    ensures long == LongForm(CleanRows(raw))
  {
    var rows: seq<Row<string>> := [];
    for i := 0 to |raw|
      invariant rows == CleanRows(raw[..i])
    {
      var row := CleanCells(raw[i]);
      CleanRowsAppend(raw, i);
      rows := rows + [row];
    }
    assert raw[..|raw|] == raw;
    long := Reshape(rows);
    wide := seq(|rows|, i requires 0 <= i < |rows| => WideRow(i + 1, rows[i], MatchFlags(rows[i])));
  }

  lemma CleanRowsAppend(raw: seq<Row<Cell>>, i: nat)
    requires i < |raw|
    ensures CleanRows(raw[..i + 1]) == CleanRows(raw[..i]) + [CleanRow(raw[i])]
  {
  }

  /** Spreads the cleaned rows into the long form: for every row and every
      metric, the human record and then the AI record. */
  method Reshape(rows: seq<Row<string>>) returns (long: seq<LongRecord>)
    ensures long == LongForm(rows)
  {
    long := [];
    for i := 0 to |rows|
      invariant long == LongForm(rows)[..8 * i]
    {
      for k := 0 to |Metrics|
        invariant long == LongForm(rows)[..8 * i + 2 * k]
      {
        var m := Metrics[k];
        var human := LongRecord(i + 1, m, Humano, Column(rows[i], m, Humano));
        var ia := LongRecord(i + 1, m, IA, Column(rows[i], m, IA));
        LongFormStep(rows, i, k);
        long := long + [human];
        long := long + [ia];
      }
    }
  }

  /** Appending a metric's two records extends the built prefix of the long form. */
  lemma LongFormStep(rows: seq<Row<string>>, i: nat, k: nat)
    requires i < |rows| && k < 4
    ensures LongForm(rows)[..8 * i + 2 * k + 2]
      == LongForm(rows)[..8 * i + 2 * k]
      + [LongRecord(i + 1, Metrics[k], Humano, Column(rows[i], Metrics[k], Humano))]
      + [LongRecord(i + 1, Metrics[k], IA, Column(rows[i], Metrics[k], IA))]
  {
    LongFormAt(rows, i, k);
    var l, p := LongForm(rows), 8 * i + 2 * k;
    assert l[..p + 2] == l[..p] + [l[p]] + [l[p + 1]];
  }

  /** Cleans the eight cells of a row. */
  method CleanCells(row: Row<Cell>) returns (r: Row<string>)
    ensures r == CleanRow(row)
  {
    var a := CleanText(row.sentimientoHumano);
    var b := CleanText(row.emocionCandidatoHumano);
    var c := CleanText(row.emocionAgenteHumano);
    var d := CleanText(row.interesCandidatoHumano);
    var e := CleanText(row.sentimientoIA);
    var f := CleanText(row.emocionCandidatoIA);
    var g := CleanText(row.emocionAgenteIA);
    var h := CleanText(row.interesCandidatoIA);
    r := Row(a, b, c, d, e, f, g, h);
  }

  /** The long form holds eight records per row, in row order; the row with
      index i contributes, for the k-th metric, the human record at 8i + 2k
      followed by the AI record, each carrying the row's number i + 1 and the
      label from the matching column. */
  lemma LongFormAt(rows: seq<Row<string>>, i: nat, k: nat)
    requires i < |rows| && k < 4
    ensures |LongForm(rows)| == 8 * |rows|
    ensures LongForm(rows)[8 * i + 2 * k] == LongRecord(i + 1, Metrics[k], Humano, Column(rows[i], Metrics[k], Humano))
    ensures LongForm(rows)[8 * i + 2 * k + 1] == LongRecord(i + 1, Metrics[k], IA, Column(rows[i], Metrics[k], IA))
  {
    var p := 8 * i + 2 * k;
    assert p / 8 == i && p % 8 == 2 * k && (2 * k) / 2 == k && (2 * k) % 2 == 0;
    assert (p + 1) / 8 == i && (p + 1) % 8 == 2 * k + 1 && (2 * k + 1) / 2 == k && (2 * k + 1) % 2 == 1;
  }

  /** The wide form keeps the rows in order, numbers them 1 to n, and sets a
      metric's flag exactly when the two evaluators' labels agree. */
  lemma WideFormMeaning(rows: seq<Row<string>>, i: nat, m: Metric)
    requires i < |rows|
    ensures |WideForm(rows)| == |rows|
    ensures WideForm(rows)[i].id == i + 1 && WideForm(rows)[i].values == rows[i]
    ensures Flag(WideForm(rows)[i].matches, m) == 1 <==> Column(rows[i], m, Humano) == Column(rows[i], m, IA)
    ensures Flag(WideForm(rows)[i].matches, m) == 0 <==> Column(rows[i], m, Humano) != Column(rows[i], m, IA)
  {
    MatchFlagMeaning(rows[i], m);
  }

  /** A match flag is 1 exactly when the two evaluators' cleaned labels agree, and 0 otherwise. */
  lemma MatchFlagMeaning(values: Row<string>, m: Metric)
    ensures Flag(MatchFlags(values), m) == 1 <==> Column(values, m, Humano) == Column(values, m, IA)
    ensures Flag(MatchFlags(values), m) == 0 <==> Column(values, m, Humano) != Column(values, m, IA)
  {
  }

  // ---------------------------------------------------------------------------
  // Match totals
  // ---------------------------------------------------------------------------

  /** The sum of one metric's match column. */
  function MatchCount(wide: seq<WideRow>, m: Metric): nat
  {
    if wide == [] then 0 else MatchCount(wide[..|wide| - 1], m) + Flag(wide[|wide| - 1].matches, m)
  }

  /** The sum of the four match columns. */
  function TotalMatches(wide: seq<WideRow>): nat
  {
    MatchCount(wide, Sentimiento) + MatchCount(wide, EmocionCandidato) + MatchCount(wide, EmocionAgente)
    + MatchCount(wide, InteresCandidato)
  }

  /** Every flag is 0 or 1. */
  predicate Flagged(wide: seq<WideRow>)
  {
    forall i, m :: 0 <= i < |wide| ==> Flag(wide[i].matches, m) <= 1
  }

  /** A metric's match count is at most the number of rows, and equals it
      exactly when every row has the flag set. */
  lemma {:induction false} MatchCountBound(wide: seq<WideRow>, m: Metric)
    requires Flagged(wide)
    ensures MatchCount(wide, m) <= |wide|
    ensures MatchCount(wide, m) == |wide| <==> forall i :: 0 <= i < |wide| ==> Flag(wide[i].matches, m) == 1
  {
    if wide != [] {
      var p := wide[..|wide| - 1];
      assert Flagged(p) by {
        forall i, m' | 0 <= i < |p| ensures Flag(p[i].matches, m') <= 1 {
          assert p[i] == wide[i];
        }
      }
      MatchCountBound(p, m);
      assert forall i :: 0 <= i < |p| ==> p[i] == wide[i];
    }
  }

  /** The global match total never exceeds the number of evaluations, four
      per row, and reaches it exactly when the evaluators agree on every
      metric of every row. */
  lemma TotalMatchesBound(wide: seq<WideRow>)
    requires Flagged(wide)
    ensures TotalMatches(wide) <= 4 * |wide|
    ensures TotalMatches(wide) == 4 * |wide| <==> forall i, m :: 0 <= i < |wide| ==> Flag(wide[i].matches, m) == 1
  {
    MatchCountBound(wide, Sentimiento);
    MatchCountBound(wide, EmocionCandidato);
    MatchCountBound(wide, EmocionAgente);
    MatchCountBound(wide, InteresCandidato);
    if forall m, i :: 0 <= i < |wide| ==> Flag(wide[i].matches, m) == 1 {
    } else {
      var i, m :| 0 <= i < |wide| && Flag(wide[i].matches, m) != 1;
      match m
      case Sentimiento =>
      case EmocionCandidato =>
      case EmocionAgente =>
      case InteresCandidato =>
    }
  }

  /** The flags of the wide form are 0 or 1, so its match totals are bounded
      by the rows and by the evaluations, four per row. */
  lemma WideFormTotals(rows: seq<Row<string>>)
    ensures Flagged(WideForm(rows))
    ensures forall m :: MatchCount(WideForm(rows), m) <= |rows|
    ensures TotalMatches(WideForm(rows)) <= 4 * |rows|
  {
    var wide := WideForm(rows);
    forall m ensures MatchCount(wide, m) <= |rows| {
      MatchCountBound(wide, m);
    }
    TotalMatchesBound(wide);
  }
}
