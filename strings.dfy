/** Whitespace stripping, whitespace splitting and joining of strings. */
module Strings {
  import opened Chars

  /** Number of whitespace characters at the start of s. */
  function LeadingSpaces(s: string): (k: nat)
    ensures k <= |s|
    decreases |s|
  {
    if s != [] && IsSpace(s[0]) then 1 + LeadingSpaces(s[1..]) else 0
  }

  /** Number of whitespace characters at the end of s. */
  function TrailingSpaces(s: string): (k: nat)
    ensures k <= |s|
    decreases |s|
  {
    if s != [] && IsSpace(s[|s| - 1]) then 1 + TrailingSpaces(s[..|s| - 1]) else 0
  }

  /** The leading run is whitespace and is maximal. */
  lemma {:induction false} LeadingSpacesMeaning(s: string)
    ensures LeadingSpaces(s) <= |s|
    ensures forall i :: 0 <= i < LeadingSpaces(s) ==> IsSpace(s[i])
    ensures LeadingSpaces(s) < |s| ==> !IsSpace(s[LeadingSpaces(s)])
    decreases |s|
  {
    if s != [] && IsSpace(s[0]) {
      LeadingSpacesMeaning(s[1..]);
    }
  }

  /** The trailing run is whitespace and is maximal. */
  lemma {:induction false} TrailingSpacesMeaning(s: string)
    ensures TrailingSpaces(s) <= |s|
    ensures forall i :: |s| - TrailingSpaces(s) <= i < |s| ==> IsSpace(s[i])
    ensures TrailingSpaces(s) < |s| ==> !IsSpace(s[|s| - 1 - TrailingSpaces(s)])
    decreases |s|
  {
    if s != [] && IsSpace(s[|s| - 1]) {
      TrailingSpacesMeaning(s[..|s| - 1]);
    }
  }

  /** No whitespace at either end. */
  predicate Stripped(s: string)
  {
    s == [] || (!IsSpace(s[0]) && !IsSpace(s[|s| - 1]))
  }

  /** Removes leading and trailing whitespace: the result is the stretch of s
      that starts at its first and ends at its last non-whitespace character. */
  function Strip(s: string): string
  {
    var t := s[LeadingSpaces(s)..];
    t[..|t| - TrailingSpaces(t)]
  }

  /** The strip has no whitespace at either end, is a stretch of s, and
      everything of s outside that stretch is whitespace. */
  lemma StripMeaning(s: string)
    ensures var r, lo := Strip(s), LeadingSpaces(s);
      && Stripped(r)
      && lo + |r| <= |s| && r == s[lo..lo + |r|]
      && forall i :: 0 <= i < lo || lo + |r| <= i < |s| ==> IsSpace(s[i])
  {
    LeadingSpacesMeaning(s);
    var t := s[LeadingSpaces(s)..];
    TrailingSpacesMeaning(t);
  }

  /** A string with no whitespace at either end is its own strip. */
  lemma StripStripped(s: string)
    requires Stripped(s)
    ensures Strip(s) == s
  {
    assert LeadingSpaces(s) == 0;
    assert s[LeadingSpaces(s)..] == s;
    assert TrailingSpaces(s) == 0;
  }

  /** Length of the run of non-whitespace characters that s starts with. */
  function WordLength(s: string): (k: nat)
    ensures k <= |s|
    decreases |s|
  {
    if s == [] || IsSpace(s[0]) then 0 else 1 + WordLength(s[1..])
  }

  /** The first word is free of whitespace and runs up to the first whitespace character. */
  lemma {:induction false} WordLengthMeaning(s: string)
    ensures WordLength(s) <= |s|
    ensures forall i :: 0 <= i < WordLength(s) ==> !IsSpace(s[i])
    ensures WordLength(s) < |s| ==> IsSpace(s[WordLength(s)])
    decreases |s|
  {
    if s != [] && !IsSpace(s[0]) {
      WordLengthMeaning(s[1..]);
    }
  }

  /** A non-empty string without whitespace: what splitting can yield. */
  predicate IsWord(w: string)
  {
    w != [] && forall i :: 0 <= i < |w| ==> !IsSpace(w[i])
  }

  /** Splits s on runs of whitespace and drops the empty pieces. */
  function Words(s: string): seq<string>
    decreases |s|
  {
    if s == [] then []
    else if IsSpace(s[0]) then Words(s[1..])
    else [s[..WordLength(s)]] + Words(s[WordLength(s)..])
  }

  /** Splitting yields words: non-empty and free of whitespace. */
  lemma {:induction false} WordsAreWords(s: string)
    ensures forall k :: 0 <= k < |Words(s)| ==> IsWord(Words(s)[k])
    decreases |s|
  {
    if s != [] {
      if IsSpace(s[0]) {
        WordsAreWords(s[1..]);
      } else {
        var n := WordLength(s);
        WordLengthMeaning(s);
        WordsAreWords(s[n..]);
        assert IsWord(s[..n]);
        assert forall k :: 1 <= k < |Words(s)| ==> Words(s)[k] == Words(s[n..])[k - 1];
      }
    }
  }

  /** Joins words with one space between consecutive ones. */
  function JoinSpace(ws: seq<string>): string
  {
    if ws == [] then [] else if |ws| == 1 then ws[0] else ws[0] + " " + JoinSpace(ws[1..])
  }

  /** Stripped, every whitespace character a plain space, and no two whitespace
      characters in a row. */
  predicate SingleSpaced(s: string)
  {
    && Stripped(s)
    && (forall i :: 0 <= i < |s| && IsSpace(s[i]) ==> s[i] == ' ')
    && (forall i, j :: 0 <= i < |s| && 0 <= j < |s| && j == i + 1 ==> !IsSpace(s[i]) || !IsSpace(s[j]))
  }

  /** A word followed by whitespace, or by nothing, is read back whole. */
  lemma {:induction false} WordLengthOfWord(w: string, t: string)
    requires IsWord(w)
    requires t == [] || IsSpace(t[0])
    ensures WordLength(w + t) == |w|
    decreases |w|
  {
    var s := w + t;
    assert s[0] == w[0] && !IsSpace(w[0]);
    if |w| == 1 {
      assert s[1..] == t;
    } else {
      assert s[1..] == w[1..] + t;
      assert IsWord(w[1..]) by {
        forall i | 0 <= i < |w| - 1 ensures !IsSpace(w[1..][i]) {
          assert w[1..][i] == w[i + 1];
        }
      }
      WordLengthOfWord(w[1..], t);
    }
  }

  /** Splitting undoes joining, for words without whitespace. */
  lemma {:induction false} WordsOfJoin(ws: seq<string>)
    requires forall k :: 0 <= k < |ws| ==> IsWord(ws[k])
    ensures Words(JoinSpace(ws)) == ws
    decreases |ws|
  {
    if |ws| == 1 {
      WordLengthOfWord(ws[0], []);
      assert ws[0] + [] == ws[0];
      OneWord(ws[0]);
    } else if |ws| > 1 {
      var tail := ws[1..];
      assert forall k :: 0 <= k < |tail| ==> IsWord(tail[k]) by {
        forall k | 0 <= k < |tail| ensures IsWord(tail[k]) {
          assert tail[k] == ws[k + 1];
        }
      }
      WordsOfJoin(tail);
      WordsAfterWord(ws[0], JoinSpace(tail));
      assert ws == [ws[0]] + tail;
    }
  }

  /** A word, a space and anything else: the word is split off first. */
  lemma WordsAfterWord(w: string, j: string)
    requires IsWord(w)
    ensures Words(w + " " + j) == [w] + Words(j)
  {
    var s, t := w + " " + j, " " + j;
    assert s == w + t;
    WordLengthOfWord(w, t);
    assert s[..|w|] == w && s[|w|..] == t;
    WordsAtHead(s);
    assert t[1..] == j;
    WordsAtHead(t);
  }

  /** Joining undoes splitting, for single-spaced strings. */
  lemma {:induction false} JoinOfWords(s: string)
    requires SingleSpaced(s)
    ensures JoinSpace(Words(s)) == s
    decreases |s|
  {
    if s != [] {
      if WordLength(s) == |s| {
        OneWord(s);
      } else {
        var k := WordLength(s);
        SplitAtSpace(s, k);
        JoinOfWords(s[k + 1..]);
        JoinCons(s[..k], Words(s[k + 1..]));
      }
    }
  }

  lemma OneWord(s: string)
    requires s != [] && WordLength(s) == |s|
    ensures Words(s) == [s]
  {
    assert s[..|s|] == s && s[|s|..] == [];
  }

  lemma JoinCons(w: string, ws: seq<string>)
    requires ws != []
    ensures JoinSpace([w] + ws) == w + " " + JoinSpace(ws)
  {
    assert ([w] + ws)[0] == w && ([w] + ws)[1..] == ws;
  }

  /** A single-spaced string with a space in it is its first word (of length
      k), one space, and a single-spaced remainder holding the other words. */
  lemma SplitAtSpace(s: string, k: nat)
    requires SingleSpaced(s) && s != [] && k == WordLength(s) < |s|
    ensures k + 1 < |s|
    ensures SingleSpaced(s[k + 1..])
    ensures Words(s[k + 1..]) != []
    ensures Words(s) == [s[..k]] + Words(s[k + 1..])
    ensures s == s[..k] + " " + s[k + 1..]
  {
    WordLengthMeaning(s);
    assert s[k] == ' ' && k + 1 < |s| && !IsSpace(s[k + 1]);
    SingleSpacedSuffix(s, k + 1);
    WordsAtSpace(s, k);
    SplitAround(s, k);
  }

  lemma SplitAround(s: string, k: nat)
    requires k < |s| && s[k] == ' '
    ensures s == s[..k] + " " + s[k + 1..]
  {
    assert s == s[..k] + [s[k]] + s[k + 1..];
  }

  /** Dropping a prefix that ends just before a non-whitespace character keeps a string single-spaced. */
  lemma SingleSpacedSuffix(s: string, p: nat)
    requires SingleSpaced(s) && p < |s| && !IsSpace(s[p])
    ensures SingleSpaced(s[p..])
  {
    var rest := s[p..];
    forall i | 0 <= i < |rest| && IsSpace(rest[i]) ensures rest[i] == ' ' {
      assert rest[i] == s[p + i];
    }
    forall i, j | 0 <= i < |rest| && 0 <= j < |rest| && j == i + 1 ensures !IsSpace(rest[i]) || !IsSpace(rest[j]) {
      assert rest[i] == s[p + i] && rest[j] == s[p + j];
    }
  }

  /** Splitting at the end of the first word (of length k): the word, then the
      words after the whitespace character that follows it. */
  lemma WordsAtSpace(s: string, k: nat)
    requires s != [] && !IsSpace(s[0]) && k == WordLength(s) && k + 1 < |s|
    requires !IsSpace(s[k + 1])
    ensures Words(s[k + 1..]) != []
    ensures Words(s) == [s[..k]] + Words(s[k + 1..])
  {
    WordLengthMeaning(s);
    var t, rest := s[k..], s[k + 1..];
    assert t[0] == s[k] && t[1..] == rest;
    WordsAtHead(t);
    WordsAtHead(s);
    assert rest[0] == s[k + 1];
    WordsAtHead(rest);
  }

  /** One step of splitting: leading whitespace is skipped, otherwise the first
      word is split off. */
  lemma WordsAtHead(s: string)
    requires s != []
    ensures IsSpace(s[0]) ==> Words(s) == Words(s[1..])
    ensures !IsSpace(s[0]) ==> Words(s) == [s[..WordLength(s)]] + Words(s[WordLength(s)..])
  {
  }
}
