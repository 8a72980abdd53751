/** Text normalisation applied to every transcript before scoring: lower-case,
    strip accents, turn punctuation into spaces, collapse whitespace, trim; and
    the whitespace tokenisation that follows it. */
module Normalizer {
  import opened Chars
  import opened Strings

  function LowerAll(s: string): (r: string)
  {
    seq(|s|, i requires 0 <= i < |s| => LowerChar(s[i]))
  }

  /** Canonical decomposition of a whole string, character by character. */
  function DecomposeAll(s: string): string
    decreases |s|
  {
    if s == [] then [] else Decompose(s[0]) + DecomposeAll(s[1..])
  }

  /** Drops every combining mark. */
  function DropMarks(s: string): string
    decreases |s|
  {
    if s == [] then [] else (if IsMark(s[0]) then [] else [s[0]]) + DropMarks(s[1..])
  }

  /** Every character of the decomposition comes from the decomposition of
      some character of the input. */
  lemma {:induction false} DecomposeAllPieces(s: string)
    ensures forall d :: d in DecomposeAll(s) ==> exists i :: 0 <= i < |s| && d in Decompose(s[i])
    decreases |s|
  {
    if s != [] {
      DecomposeAllPieces(s[1..]);
      forall d | d in DecomposeAll(s) ensures exists i :: 0 <= i < |s| && d in Decompose(s[i]) {
        assert DecomposeAll(s) == Decompose(s[0]) + DecomposeAll(s[1..]);
        if d !in Decompose(s[0]) {
          assert d in DecomposeAll(s[1..]);
          var i :| 0 <= i < |s| - 1 && d in Decompose(s[1..][i]);
          assert s[1..][i] == s[i + 1];
        }
      }
    }
  }

  /** Dropping marks keeps exactly the characters that are not marks. */
  lemma {:induction false} DropMarksMembers(s: string)
    ensures forall d :: d in DropMarks(s) <==> d in s && !IsMark(d)
    decreases |s|
  {
    if s != [] {
      DropMarksMembers(s[1..]);
      assert s == [s[0]] + s[1..];
    }
  }

  /** Replaces every character that is neither a word character nor whitespace by a space. */
  function ReplacePunctuation(s: string): (r: string)
  {
    seq(|s|, i requires 0 <= i < |s| => if IsWordChar(s[i]) || IsSpace(s[i]) then s[i] else ' ')
  }

  /** Replaces every maximal run of whitespace by one space. */
  function CollapseSpaces(s: string): string
    decreases |s|
  {
    if s == [] then []
    else if IsSpace(s[0]) then " " + CollapseSpaces(s[LeadingSpaces(s)..])
    else [s[0]] + CollapseSpaces(s[1..])
  }

  /** The normaliser: lower-case, decompose, drop marks, punctuation to spaces,
      collapse whitespace, strip. */
  function Normalize(text: string): string
  {
    Strip(CollapseSpaces(ReplacePunctuation(DropMarks(DecomposeAll(LowerAll(text))))))
  }

  /** The tokens of a transcript: its normal form split on whitespace. */
  function Tokens(text: string): seq<string>
  {
    Words(Normalize(text))
  }

  /** A word character that normalisation leaves unchanged. */
  predicate Settled(c: char)
  {
    IsWordChar(c) && Folded(c)
  }

  /** The shape of normalised text: settled word characters separated by
      single spaces, with no space at either end. */
  predicate Canonical(s: string)
  {
    SingleSpaced(s) && forall i :: 0 <= i < |s| ==> s[i] == ' ' || Settled(s[i])
  }

  lemma FoldedAfterDropMarks(text: string)
    ensures forall d :: d in DropMarks(DecomposeAll(LowerAll(text))) ==> Folded(d)
  {
    var l := LowerAll(text);
    DropMarksMembers(DecomposeAll(l));
    DecomposeAllPieces(l);
    forall d | d in DropMarks(DecomposeAll(l)) ensures Folded(d) {
      var i :| 0 <= i < |l| && d in Decompose(l[i]);
      FoldedPieces(text[i]);
    }
  }

  /** Every character is whitespace or a settled word character. */
  predicate SpaceOrSettled(s: string)
  {
    forall i :: 0 <= i < |s| ==> IsSpace(s[i]) || Settled(s[i])
  }

  /** Settled word characters and plain spaces, never two spaces in a row. */
  predicate SpacedWords(s: string)
  {
    && (forall i :: 0 <= i < |s| ==> s[i] == ' ' || Settled(s[i]))
    && (forall i, j :: 0 <= i < |s| && 0 <= j < |s| && j == i + 1 ==> s[i] != ' ' || s[j] != ' ')
  }

  /** Collapsing keeps the non-whitespace characters and leaves no two spaces in a row. */
  lemma {:induction false} CollapseShape(s: string)
    requires SpaceOrSettled(s)
    ensures SpacedWords(CollapseSpaces(s))
    ensures s != [] && !IsSpace(s[0]) ==> CollapseSpaces(s) != [] && CollapseSpaces(s)[0] == s[0]
    decreases |s|
  {
    WordCharNotSpace(' ');
    if s != [] {
      var r := CollapseSpaces(s);
      if IsSpace(s[0]) {
        var t := s[LeadingSpaces(s)..];
        LeadingSpacesMeaning(s);
        assert SpaceOrSettled(t) by {
          forall i | 0 <= i < |t| ensures IsSpace(t[i]) || Settled(t[i]) {
            assert t[i] == s[LeadingSpaces(s) + i];
          }
        }
        CollapseShape(t);
        var q := CollapseSpaces(t);
        assert r == " " + q;
        assert t != [] ==> !IsSpace(t[0]);
        forall i | 0 <= i < |r| ensures r[i] == ' ' || Settled(r[i]) {
          if i > 0 { assert r[i] == q[i - 1]; }
        }
        forall i, j | 0 <= i < |r| && 0 <= j < |r| && j == i + 1 ensures r[i] != ' ' || r[j] != ' ' {
          if i > 0 {
            assert r[i] == q[i - 1] && r[i + 1] == q[i];
          } else {
            assert q != [] && q[0] == t[0];
            WordCharNotSpace(t[0]);
          }
        }
      } else {
        assert SpaceOrSettled(s[1..]) by {
          forall i | 0 <= i < |s| - 1 ensures IsSpace(s[1..][i]) || Settled(s[1..][i]) {
            assert s[1..][i] == s[i + 1];
          }
        }
        CollapseShape(s[1..]);
        WordCharNotSpace(s[0]);
        var q := CollapseSpaces(s[1..]);
        assert r == [s[0]] + q;
        forall i | 0 <= i < |r| ensures r[i] == ' ' || Settled(r[i]) {
          if i > 0 { assert r[i] == q[i - 1]; }
        }
        forall i, j | 0 <= i < |r| && 0 <= j < |r| && j == i + 1 ensures r[i] != ' ' || r[j] != ' ' {
          if i > 0 {
            assert r[i] == q[i - 1] && r[i + 1] == q[i];
          } else {
            assert r[0] == s[0] && s[0] != ' ';
          }
        }
      }
    }
  }

  lemma PunctuationShape(text: string)
    ensures SpaceOrSettled(ReplacePunctuation(DropMarks(DecomposeAll(LowerAll(text)))))
  {
    var x1 := DropMarks(DecomposeAll(LowerAll(text)));
    FoldedAfterDropMarks(text);
    var x2 := ReplacePunctuation(x1);
    forall i | 0 <= i < |x2| ensures IsSpace(x2[i]) || Settled(x2[i]) {
      WordCharNotSpace(' ');
      assert x1[i] in x1;
    }
  }

  /** Stripping text made of settled characters and single spaces gives canonical text. */
  lemma StripShape(x: string)
    requires SpacedWords(x)
    ensures Canonical(Strip(x))
  {
    var r := Strip(x);
    StripMeaning(x);
    SliceShape(x, LeadingSpaces(x), r);
    SpacedCanonical(r);
  }

  /** A stretch of text made of settled characters and single spaces is one too. */
  lemma SliceShape(x: string, lo: nat, r: string)
    requires SpacedWords(x)
    requires lo + |r| <= |x| && r == x[lo..lo + |r|]
    ensures SpacedWords(r)
  {
    forall i | 0 <= i < |r| ensures r[i] == ' ' || Settled(r[i]) {
      assert r[i] == x[lo + i];
    }
    forall i, j | 0 <= i < |r| && 0 <= j < |r| && j == i + 1 ensures r[i] != ' ' || r[j] != ' ' {
      assert r[i] == x[lo + i] && r[j] == x[lo + j];
    }
  }

  /** Settled characters and single spaces, with no space at either end, is canonical. */
  lemma SpacedCanonical(r: string)
    requires SpacedWords(r) && Stripped(r)
    ensures Canonical(r)
  {
    forall i | 0 <= i < |r| ensures !IsSpace(r[i]) || r[i] == ' ' {
      WordCharNotSpace(r[i]);
    }
    forall i, j | 0 <= i < |r| && 0 <= j < |r| && j == i + 1 ensures !IsSpace(r[i]) || !IsSpace(r[j]) {
      WordCharNotSpace(r[i]);
      WordCharNotSpace(r[j]);
    }
  }

  /** Normalised text is canonical. */
  lemma NormalizeCanonical(text: string)
    ensures Canonical(Normalize(text))
  {
    var x2 := ReplacePunctuation(DropMarks(DecomposeAll(LowerAll(text))));
    PunctuationShape(text);
    CollapseShape(x2);
    StripShape(CollapseSpaces(x2));
  }

  lemma {:induction false} CollapseSingleSpaced(s: string)
    requires forall i :: 0 <= i < |s| && IsSpace(s[i]) ==> s[i] == ' '
    requires forall i, j :: 0 <= i < |s| && 0 <= j < |s| && j == i + 1 ==> !IsSpace(s[i]) || !IsSpace(s[j])
    ensures CollapseSpaces(s) == s
    decreases |s|
  {
    if s != [] {
      if IsSpace(s[0]) {
        assert LeadingSpaces(s) == 1;
        CollapseSingleSpaced(s[1..]);
      } else {
        CollapseSingleSpaced(s[1..]);
      }
    }
  }

  lemma FoldedUnchanged(s: string)
    requires forall i :: 0 <= i < |s| ==> Folded(s[i])
    ensures DropMarks(DecomposeAll(LowerAll(s))) == s
  {
    assert LowerAll(s) == s;
    DecomposeFixed(s);
    DropMarksFixed(s);
  }

  lemma {:induction false} DecomposeFixed(s: string)
    requires forall i :: 0 <= i < |s| ==> Decompose(s[i]) == [s[i]]
    ensures DecomposeAll(s) == s
    decreases |s|
  {
    if s != [] {
      DecomposeFixed(s[1..]);
      assert s == [s[0]] + s[1..];
    }
  }

  lemma {:induction false} DropMarksFixed(s: string)
    requires forall i :: 0 <= i < |s| ==> !IsMark(s[i])
    ensures DropMarks(s) == s
    decreases |s|
  {
    if s != [] {
      DropMarksFixed(s[1..]);
      assert s == [s[0]] + s[1..];
    }
  }

  /** Canonical text is its own normal form. */
  lemma NormalizeCanonicalFixed(s: string)
    requires Canonical(s)
    ensures Normalize(s) == s
  {
    forall i | 0 <= i < |s| ensures Folded(s[i]) {
      if s[i] == ' ' {
        assert Decompose(' ') == [' '];
      }
    }
    FoldedUnchanged(s);
    forall i | 0 <= i < |s| ensures IsWordChar(s[i]) || IsSpace(s[i]) {
      WordCharNotSpace(s[i]);
    }
    assert ReplacePunctuation(s) == s;
    CollapseSingleSpaced(s);
    StripStripped(s);
  }

  /** Normalising twice is normalising once. */
  lemma NormalizeIdempotent(text: string)
    ensures Normalize(Normalize(text)) == Normalize(text)
  {
    NormalizeCanonical(text);
    NormalizeCanonicalFixed(Normalize(text));
  }

  /** The tokens are non-empty runs of settled word characters, and joining them
      with single spaces gives back the normal form. */
  lemma TokensShape(text: string)
    ensures forall k, i :: 0 <= k < |Tokens(text)| && 0 <= i < |Tokens(text)[k]| ==> Settled(Tokens(text)[k][i])
    ensures forall k :: 0 <= k < |Tokens(text)| ==> Tokens(text)[k] != []
    ensures JoinSpace(Tokens(text)) == Normalize(text)
  {
    var s := Normalize(text);
    NormalizeCanonical(text);
    JoinOfWords(s);
    WordsAreWords(s);
    var ws := Tokens(text);
    forall k, i | 0 <= k < |ws| && 0 <= i < |ws[k]| ensures Settled(ws[k][i]) {
      assert !IsSpace(ws[k][i]);
      TokenCharsFrom(ws, k, i);
    }
  }

  lemma {:induction false} TokenCharsFrom(ws: seq<string>, k: nat, i: nat)
    requires k < |ws| && i < |ws[k]|
    ensures ws[k][i] in JoinSpace(ws)
    decreases |ws|
  {
    if |ws| > 1 {
      if k == 0 {
        assert JoinSpace(ws)[i] == ws[0][i];
      } else {
        TokenCharsFrom(ws[1..], k - 1, i);
        assert ws[1..][k - 1] == ws[k];
      }
    }
  }

  // ---------------------------------------------------------------------------
  // What normalisation does to the words
  // ---------------------------------------------------------------------------

  /** Leading whitespace does not change the words. */
  lemma {:induction false} WordsSkipSpaces(x: string, k: nat)
    requires k <= |x| && forall i :: 0 <= i < k ==> IsSpace(x[i])
    ensures Words(x) == Words(x[k..])
    decreases k
  {
    if k == 0 {
      assert x[0..] == x;
    } else {
      WordsAtHead(x);
      WordsSkipSpaces(x[1..], k - 1);
      assert x[1..][k - 1..] == x[k..];
    }
  }

  /** Collapsing keeps a leading word as it is. */
  lemma {:induction false} CollapseWord(x: string)
    requires x != [] && !IsSpace(x[0])
    ensures CollapseSpaces(x) == x[..WordLength(x)] + CollapseSpaces(x[WordLength(x)..])
    decreases |x|
  {
    var n, y := WordLength(x), x[1..];
    assert CollapseSpaces(x) == [x[0]] + CollapseSpaces(y);
    assert n == 1 + WordLength(y);
    if y == [] || IsSpace(y[0]) {
      assert x[..n] == [x[0]] && x[n..] == y;
    } else {
      var m := WordLength(y);
      assert CollapseSpaces(y) == y[..m] + CollapseSpaces(y[m..]) by {
        CollapseWord(y);
      }
      assert x[..n] == [x[0]] + y[..m] && x[n..] == y[m..];
    }
  }

  /** Collapsing whitespace runs into single spaces leaves the words unchanged. */
  lemma {:induction false} WordsCollapse(x: string)
    ensures Words(CollapseSpaces(x)) == Words(x)
    decreases |x|
  {
    if x != [] {
      if IsSpace(x[0]) {
        var l := LeadingSpaces(x);
        LeadingSpacesMeaning(x);
        var c := CollapseSpaces(x[l..]);
        assert CollapseSpaces(x) == " " + c;
        WordsAtHead(" " + c);
        assert (" " + c)[1..] == c;
        WordsCollapse(x[l..]);
        WordsSkipSpaces(x, l);
      } else {
        var n := WordLength(x);
        WordLengthMeaning(x);
        CollapseWord(x);
        var c := CollapseSpaces(x[n..]);
        var w := x[..n];
        assert IsWord(w);
        assert c == [] || c[0] == ' ' by {
          if x[n..] != [] {
            assert IsSpace(x[n..][0]);
          }
        }
        WordLengthOfWord(w, c);
        var whole := w + c;
        assert whole[0] == x[0];
        WordsAtHead(whole);
        assert whole[..n] == w && whole[n..] == c;
        WordsCollapse(x[n..]);
        WordsAtHead(x);
      }
    }
  }

  /** Trailing whitespace does not change the words. */
  lemma {:induction false} WordsTrailing(r: string, t: string)
    requires forall i :: 0 <= i < |t| ==> IsSpace(t[i])
    ensures Words(r + t) == Words(r)
    decreases |r|
  {
    if r == [] {
      assert r + t == t;
      WordsSkipSpaces(t, |t|);
      assert t[|t|..] == [];
    } else if IsSpace(r[0]) {
      assert Words(r + t) == Words(r[1..] + t) by {
        WordsAtHead(r + t);
        assert (r + t)[0] == r[0] && (r + t)[1..] == r[1..] + t;
      }
      WordsAtHead(r);
      WordsTrailing(r[1..], t);
    } else {
      var n := WordLength(r);
      var w, u := r[..n], r[n..] + t;
      assert Words(r + t) == [w] + Words(u) by {
        WordLengthMeaning(r);
        assert IsWord(w);
        assert r + t == w + u;
        assert u == [] || IsSpace(u[0]) by {
          if n < |r| {
            assert u[0] == r[n];
          } else if u != [] {
            assert r[n..] == [] && u == t;
          }
        }
        WordLengthOfWord(w, u);
        WordsAtHead(r + t);
        assert (r + t)[..n] == w && (r + t)[n..] == u;
      }
      WordsTrailing(r[n..], t);
      WordsAtHead(r);
    }
  }

  /** Stripping leaves the words unchanged. */
  lemma WordsStrip(y: string)
    ensures Words(Strip(y)) == Words(y)
  {
    var r, lo := Strip(y), LeadingSpaces(y);
    StripMeaning(y);
    WordsSkipSpaces(y, lo);
    var t := y[lo + |r|..];
    assert y[lo..] == r + t;
    WordsTrailing(r, t);
  }

  /** The tokens of a transcript are the words of its lower-cased, decomposed,
      mark-free text with every character that is neither a word character nor
      whitespace turned into a space: collapsing and stripping never change them. */
  lemma TokensOfFolded(text: string)
    ensures Tokens(text) == Words(ReplacePunctuation(DropMarks(DecomposeAll(LowerAll(text)))))
  {
    var x := ReplacePunctuation(DropMarks(DecomposeAll(LowerAll(text))));
    WordsStrip(CollapseSpaces(x));
    WordsCollapse(x);
  }

  lemma {:induction false} DecomposeAllAppend(a: string, b: string)
    ensures DecomposeAll(a + b) == DecomposeAll(a) + DecomposeAll(b)
    decreases |a|
  {
    if a == [] {
      assert a + b == b;
    } else {
      assert DecomposeAll(a + b) == Decompose(a[0]) + DecomposeAll(a[1..] + b) by {
        assert (a + b)[0] == a[0] && (a + b)[1..] == a[1..] + b;
      }
      DecomposeAllAppend(a[1..], b);
    }
  }

  lemma {:induction false} DropMarksAppend(a: string, b: string)
    ensures DropMarks(a + b) == DropMarks(a) + DropMarks(b)
    decreases |a|
  {
    if a == [] {
      assert a + b == b;
    } else {
      assert DropMarks(a + b) == (if IsMark(a[0]) then [] else [a[0]]) + DropMarks(a[1..] + b) by {
        assert (a + b)[0] == a[0] && (a + b)[1..] == a[1..] + b;
      }
      DropMarksAppend(a[1..], b);
    }
  }

  /** Characters below the Latin-1 letters are neither decomposed nor dropped. */
  lemma BelowLatinLetters(s: string)
    requires forall i :: 0 <= i < |s| ==> s[i] < 'À'
    ensures DecomposeAll(s) == s && DropMarks(s) == s
  {
    forall i | 0 <= i < |s| ensures Decompose(s[i]) == [s[i]] && !IsMark(s[i]) {
      BelowLatinChar(s[i]);
    }
    DecomposeFixed(s);
    DropMarksFixed(s);
  }

  lemma BelowLatinChar(c: char)
    requires c < 'À'
    ensures Decompose(c) == [c] && !IsMark(c)
  {
    assert BaseLetter(c) == c;
  }

  /** Folding text with two letters above the plain range: the rest is kept. */
  lemma FoldAround(a: string, x: char, b: string, y: char, c: string)
    requires forall i :: 0 <= i < |a| ==> a[i] < 'À'
    requires forall i :: 0 <= i < |b| ==> b[i] < 'À'
    requires forall i :: 0 <= i < |c| ==> c[i] < 'À'
    ensures DropMarks(DecomposeAll(a + [x] + b + [y] + c))
      == a + DropMarks(Decompose(x)) + b + DropMarks(Decompose(y)) + c
  {
    BelowLatinLetters(a);
    BelowLatinLetters(b);
    BelowLatinLetters(c);
    assert DecomposeAll([x]) == Decompose(x) && DecomposeAll([y]) == Decompose(y) by {
      assert [x][1..] == [] && [y][1..] == [];
    }
    DecomposeAllAppend(a + [x] + b + [y], c);
    DecomposeAllAppend(a + [x] + b, [y]);
    DecomposeAllAppend(a + [x], b);
    DecomposeAllAppend(a, [x]);
    var dx, dy := Decompose(x), Decompose(y);
    DropMarksAppend(a + dx + b + dy, c);
    DropMarksAppend(a + dx + b, dy);
    DropMarksAppend(a + dx, b);
    DropMarksAppend(a, dx);
  }

  /** The decomposition and mark removal of the example: each accented letter
      splits into its base letter and an acute accent, which is then dropped. */
  lemma ExampleFold(s: string)
    requires s == "café, ¿qué tal?"
    ensures DropMarks(DecomposeAll(s)) == "cafe, ¿que tal?"
  {
    var a, b, c := "caf", ", ¿qu", " tal?";
    assert a + "e" + b + "e" + c == "cafe, ¿que tal?";
    assert s == a + ['é'] + b + ['é'] + c;
    FoldAround(a, 'é', b, 'é', c);
    FoldAcuteE();
  }

  /** 'é' decomposes into 'e' and a combining acute accent, which is dropped. */
  lemma FoldAcuteE()
    ensures Decompose('é') == "e\U{301}" && DropMarks(Decompose('é')) == "e"
  {
    var d := Decompose('é');
    assert d == "e\U{301}";
    assert d[1..] == "\U{301}" && d[1..][1..] == [];
  }

  lemma ExampleLower(s: string)
    requires s == "Café, ¿Qué Tal?"
    ensures LowerAll(s) == "café, ¿qué tal?"
  {
  }

  lemma ExamplePunctuation(s: string)
    requires s == "cafe, ¿que tal?"
    ensures ReplacePunctuation(s) == "cafe   que tal "
  {
  }

  /** A word, a run of whitespace and the rest: the run becomes one space. */
  lemma CollapseGap(w: string, g: string, rest: string)
    requires IsWord(w) && g != [] && forall i :: 0 <= i < |g| ==> IsSpace(g[i])
    requires rest == [] || !IsSpace(rest[0])
    ensures CollapseSpaces(w + g + rest) == w + " " + CollapseSpaces(rest)
  {
    var t := g + rest;
    assert w + g + rest == w + t;
    CollapseAfterWord(w, t);
    SpacesThenRest(g, rest);
    var c := CollapseSpaces(rest);
    assert w + (" " + c) == w + " " + c;
  }

  /** A word followed by whitespace (or nothing) is kept by collapsing. */
  lemma CollapseAfterWord(w: string, t: string)
    requires IsWord(w) && t != [] && IsSpace(t[0])
    ensures CollapseSpaces(w + t) == w + CollapseSpaces(t)
  {
    var x := w + t;
    WordLengthOfWord(w, t);
    assert x[0] == w[0];
    CollapseWord(x);
    assert x[..|w|] == w && x[|w|..] == t;
  }

  /** The leading whitespace run g collapses to one space. */
  lemma SpacesThenRest(g: string, rest: string)
    requires g != [] && forall i :: 0 <= i < |g| ==> IsSpace(g[i])
    requires rest == [] || !IsSpace(rest[0])
    ensures CollapseSpaces(g + rest) == " " + CollapseSpaces(rest)
  {
    var t := g + rest;
    assert t[0] == g[0];
    LeadingSpacesOfRun(g, rest);
    assert t[|g|..] == rest;
  }

  /** A whitespace run followed by a non-whitespace character (or nothing) is
      exactly the leading whitespace. */
  lemma {:induction false} LeadingSpacesOfRun(g: string, rest: string)
    requires forall i :: 0 <= i < |g| ==> IsSpace(g[i])
    requires rest == [] || !IsSpace(rest[0])
    ensures LeadingSpaces(g + rest) == |g|
    decreases |g|
  {
    if g == [] {
      assert g + rest == rest;
    } else {
      LeadingSpacesOfRun(g[1..], rest);
      assert (g + rest)[1..] == g[1..] + rest;
    }
  }

  /** Three words, the first gap any whitespace run, the others single spaces. */
  lemma CollapseThree(w1: string, g: string, w2: string, w3: string)
    requires IsWord(w1) && IsWord(w2) && IsWord(w3)
    requires g != [] && forall i :: 0 <= i < |g| ==> IsSpace(g[i])
    ensures CollapseSpaces(w1 + g + w2 + " " + w3 + " ") == w1 + " " + w2 + " " + w3 + " "
  {
    var r3 := w3 + " ";
    assert CollapseSpaces(r3) == r3 by {
      CollapseGap(w3, " ", []);
      assert w3 + " " + [] == r3;
    }
    var r2 := w2 + " " + r3;
    assert CollapseSpaces(r2) == r2 by {
      CollapseGap(w2, " ", r3);
    }
    assert CollapseSpaces(w1 + g + r2) == w1 + " " + r2 by {
      CollapseGap(w1, g, r2);
    }
    assert w1 + g + r2 == w1 + g + w2 + " " + w3 + " ";
    assert w1 + " " + r2 == w1 + " " + w2 + " " + w3 + " ";
  }

  lemma ExampleCollapse(s: string)
    requires s == "cafe   que tal "
    ensures CollapseSpaces(s) == "cafe que tal "
  {
    assert s == "cafe" + "   " + "que" + " " + "tal" + " ";
    assert "cafe" + " " + "que" + " " + "tal" + " " == "cafe que tal ";
    CollapseThree("cafe", "   ", "que", "tal");
  }

  /** A lower-case ASCII letter or a plain space. */
  predicate Plain(c: char)
  {
    c == ' ' || 'a' <= c <= 'z'
  }

  /** Joining lower-case ASCII words keeps every character plain. */
  lemma {:induction false} JoinSpacePlain(ws: seq<string>)
    requires forall k, i :: 0 <= k < |ws| && 0 <= i < |ws[k]| ==> Plain(ws[k][i])
    ensures forall i :: 0 <= i < |JoinSpace(ws)| ==> Plain(JoinSpace(ws)[i])
    decreases |ws|
  {
    if |ws| > 1 {
      var tail := ws[1..];
      forall k, i | 0 <= k < |tail| && 0 <= i < |tail[k]| ensures Plain(tail[k][i]) {
        assert tail[k] == ws[k + 1];
      }
      JoinSpacePlain(tail);
      var j := JoinSpace(ws);
      forall i | 0 <= i < |j| ensures Plain(j[i]) {
        if i < |ws[0]| {
          assert j[i] == ws[0][i];
        } else if i > |ws[0]| {
          assert j[i] == JoinSpace(tail)[i - |ws[0]| - 1];
        }
      }
    } else if |ws| == 1 {
      forall i | 0 <= i < |ws[0]| ensures Plain(ws[0][i]) {
        assert Plain(ws[0][i]);
      }
    }
  }

  /** Lower-case ASCII words joined by single spaces are their own tokens. */
  lemma TokensOfPlain(text: string, ws: seq<string>)
    requires forall k, i :: 0 <= k < |ws| && 0 <= i < |ws[k]| ==> 'a' <= ws[k][i] <= 'z'
    requires forall k :: 0 <= k < |ws| ==> ws[k] != []
    requires text == JoinSpace(ws)
    ensures Tokens(text) == ws
  {
    JoinSpacePlain(ws);
    forall i | 0 <= i < |text| ensures LowerChar(text[i]) == text[i] && text[i] < 'À' {
    }
    assert LowerAll(text) == text;
    BelowLatinLetters(text);
    assert ReplacePunctuation(text) == text;
    TokensOfFolded(text);
    forall k | 0 <= k < |ws| ensures IsWord(ws[k]) {
    }
    WordsOfJoin(ws);
  }

  lemma JoinThree(w1: string, w2: string, w3: string)
    ensures JoinSpace([w1, w2, w3]) == w1 + " " + w2 + " " + w3
  {
    JoinCons(w2, [w3]);
    assert [w2] + [w3] == [w2, w3];
    JoinCons(w1, [w2, w3]);
    assert [w1] + [w2, w3] == [w1, w2, w3];
  }

  lemma JoinFour(w1: string, w2: string, w3: string, w4: string)
    ensures JoinSpace([w1, w2, w3, w4]) == w1 + " " + w2 + " " + w3 + " " + w4
  {
    JoinThree(w2, w3, w4);
    JoinCons(w1, [w2, w3, w4]);
    assert [w1] + [w2, w3, w4] == [w1, w2, w3, w4];
  }

  /** A plain three-word transcript and its tokens. */
  lemma PlainTokensThree(text: string)
    requires text == "the quick fox"
    ensures Tokens(text) == ["the", "quick", "fox"]
  {
    JoinThree("the", "quick", "fox");
    assert text == "the" + " " + "quick" + " " + "fox";
    TokensOfPlain(text, ["the", "quick", "fox"]);
  }

  /** A plain four-word transcript and its tokens. */
  lemma PlainTokensFour(text: string)
    requires text == "the quick brown fox"
    ensures Tokens(text) == ["the", "quick", "brown", "fox"]
  {
    JoinFour("the", "quick", "brown", "fox");
    assert text == "the" + " " + "quick" + " " + "brown" + " " + "fox";
    TokensOfPlain(text, ["the", "quick", "brown", "fox"]);
  }

  /** Case, accents and punctuation are removed and the words kept. */
  lemma NormalizeExample(text: string)
    requires text == "Café, ¿Qué Tal?"
    ensures Normalize(text) == "cafe que tal"
  {
    ExampleLower(text);
    var f := DecomposeAll(LowerAll(text));
    ExampleFold(LowerAll(text));
    ExamplePunctuation(DropMarks(f));
    var c := CollapseSpaces(ReplacePunctuation(DropMarks(f)));
    ExampleCollapse(ReplacePunctuation(DropMarks(f)));
    assert LeadingSpaces(c) == 0;
    assert TrailingSpaces(c) == 1;
  }
}
