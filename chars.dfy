/** The character classes and per-character maps that text normalisation relies
    on: whitespace, word characters, combining marks, lower-casing and canonical
    decomposition. The Unicode database is not reproduced; the tables below are
    exact for ASCII and Latin-1 and approximate the rest. */
module Chars {

  /** Whitespace in the sense of `\s` and of string stripping. */
  predicate IsSpace(c: char)
  {
    c == ' ' || '\t' <= c <= '\r' || '\U{1C}' <= c <= '\U{1F}' || c == '\U{85}' || c == '\U{A0}'
    || c == '\U{1680}' || '\U{2000}' <= c <= '\U{200A}' || c == '\U{2028}' || c == '\U{2029}'
    || c == '\U{202F}' || c == '\U{205F}' || c == '\U{3000}'
  }

  /** A combining diacritical mark (general category Mn, the U+0300 block). */
  predicate IsMark(c: char)
  {
    '\U{300}' <= c <= '\U{36F}'
  }

  /** A word character in the sense of `\w`: letters, digits and the underscore.
      Above Latin-1 everything that is not whitespace, a combining mark,
      general punctuation or a symbol block counts as a letter. */
  predicate IsWordChar(c: char)
  {
    'a' <= c <= 'z' || 'A' <= c <= 'Z' || '0' <= c <= '9' || c == '_'
    || c in "ª²³µ¹º¼½¾"
    || ('À' <= c <= 'ÿ' && c != '×' && c != '÷')
    || (c > 'ÿ' && !IsSpace(c) && !IsMark(c) && !('\U{2000}' <= c <= '\U{2BFF}') && !('\U{3000}' <= c <= '\U{303F}'))
  }

  lemma WordCharNotSpace(c: char)
    ensures IsWordChar(c) ==> !IsSpace(c) && !IsMark(c)
    ensures IsSpace(' ') && !IsWordChar(' ') && !IsMark(' ')
  {
  }

  predicate IsUpper(c: char)
  {
    'A' <= c <= 'Z' || ('À' <= c <= 'Þ' && c != '×')
  }

  /** Lower-casing of one character. */
  function LowerChar(c: char): (r: char)
  {
    if IsUpper(c) then (c as int + 32) as char else c
  }

  /** Lower-casing yields no upper-case letter, keeps whitespace whitespace and
      changes only upper-case letters. */
  lemma LowerCharMeaning(c: char)
    ensures !IsUpper(LowerChar(c))
    ensures IsSpace(LowerChar(c)) <==> IsSpace(c)
    ensures !IsUpper(c) ==> LowerChar(c) == c
  {
  }

  /** The base letter of a precomposed Latin-1 letter with a diacritic; every
      other character is its own base. */
  function BaseLetter(c: char): char
  {
    if 'à' <= c <= 'å' then 'a'
    else if c == 'ç' then 'c'
    else if 'è' <= c <= 'ë' then 'e'
    else if 'ì' <= c <= 'ï' then 'i'
    else if c == 'ñ' then 'n'
    else if 'ò' <= c <= 'ö' then 'o'
    else if 'ù' <= c <= 'ü' then 'u'
    else if c == 'ý' || c == 'ÿ' then 'y'
    else if 'À' <= c <= 'Å' then 'A'
    else if c == 'Ç' then 'C'
    else if 'È' <= c <= 'Ë' then 'E'
    else if 'Ì' <= c <= 'Ï' then 'I'
    else if c == 'Ñ' then 'N'
    else if 'Ò' <= c <= 'Ö' then 'O'
    else if 'Ù' <= c <= 'Ü' then 'U'
    else if c == 'Ý' then 'Y'
    else c
  }

  /** The combining mark that canonical decomposition splits off a precomposed letter. */
  function AccentMark(c: char): (r: char)
    ensures IsMark(r)
  {
    var l := LowerChar(c);
    if l in "àèìòù" then '\U{300}'
    else if l in "áéíóúý" then '\U{301}'
    else if l in "âêîôû" then '\U{302}'
    else if l in "ãñõ" then '\U{303}'
    else if l in "äëïöüÿ" then '\U{308}'
    else if l == 'å' then '\U{30A}'
    else '\U{327}'
  }

  /** Canonical (NFD) decomposition of one character. */
  function Decompose(c: char): (r: seq<char>)
  {
    if BaseLetter(c) == c then [c] else [BaseLetter(c), AccentMark(c)]
  }

  /** A decomposition is the character itself, or a base letter followed by a combining mark. */
  lemma DecomposeShape(c: char)
    ensures Decompose(c) == [c] || (|Decompose(c)| == 2 && !IsMark(Decompose(c)[0]) && IsMark(Decompose(c)[1]))
  {
  }

  /** A character that lower-casing, decomposition and mark stripping all leave as it is. */
  predicate Folded(c: char)
  {
    LowerChar(c) == c && Decompose(c) == [c] && !IsMark(c)
  }

  /** Lower-casing, decomposing and dropping the marks of any character leaves
      only folded characters: the three steps cannot be usefully repeated. */
  lemma FoldedPieces(c: char)
    ensures forall d :: d in Decompose(LowerChar(c)) && !IsMark(d) ==> Folded(d)
  {
    var l := LowerChar(c);
    if BaseLetter(l) != l {
      assert 'a' <= BaseLetter(l) <= 'z';
    }
  }
}
