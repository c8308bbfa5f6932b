/**
  Characters and strings as the two translation scripts see them.

  Python's regular expressions are used here only through a few fixed
  character classes; this module gives each of them a name and gives the
  scanners one primitive, the maximal run of characters of a class
  (what a greedy `[...]*` consumes).  `\w` and `\d` are taken as their ASCII
  forms; `\s`, `str.split()` and `str.strip()` use Python's whitespace set.
*/
module Text {

  import opened Wrappers

  predicate IsLower(c: char) { 'a' <= c <= 'z' }

  predicate IsUpper(c: char) { 'A' <= c <= 'Z' }

  predicate IsAsciiLetter(c: char) { IsLower(c) || IsUpper(c) }

  predicate IsDigit(c: char) { '0' <= c <= '9' }

  /** `\w`, restricted to ASCII. */
  predicate IsWordChar(c: char) { IsAsciiLetter(c) || IsDigit(c) || c == '_' }

  /** Python's whitespace (`\s` on str patterns, `str.isspace`, `str.split()`). */
  predicate IsSpace(c: char)
  {
    || '\t' <= c <= '\r'
    || '\U{1C}' <= c <= ' '
    || c == '\U{85}' || c == '\U{A0}' || c == '\U{1680}'
    || '\U{2000}' <= c <= '\U{200A}'
    || c == '\U{2028}' || c == '\U{2029}' || c == '\U{202F}' || c == '\U{205F}' || c == '\U{3000}'
  }

  /** `'`, or either of `'` and `"` when `anyQuote`. */
  predicate IsQuote(c: char, anyQuote: bool)
  {
    c == '\'' || (anyQuote && c == '"')
  }

  /** The character classes the scanners run over. `NonQuote(true)` is `[^'"]`,
      `NonQuote(false)` is `[^']`. */
  datatype CharClass =
    | Lower | Word | Space | NonSpace | UpperOrUnderscore
    | NonQuote(anyQuote: bool) | NonCloseBrace | AsciiLetter

  predicate InClass(c: char, cls: CharClass)
  {
    match cls
    case Lower => IsLower(c)
    case Word => IsWordChar(c)
    case Space => IsSpace(c)
    case NonSpace => !IsSpace(c)
    case UpperOrUnderscore => IsUpper(c) || c == '_'
    case NonQuote(anyQuote) => !IsQuote(c, anyQuote)
    case NonCloseBrace => c != '}'
    case AsciiLetter => IsAsciiLetter(c)
  }

  /** Length of the longest run of `cls` characters starting at `p`: what a
      greedy `[...]*` consumes there. */
  function RunLength(s: string, p: nat, cls: CharClass): (n: nat)
    requires p <= |s|
    ensures p + n <= |s|
    ensures forall i | p <= i < p + n :: InClass(s[i], cls)
    ensures p + n < |s| ==> !InClass(s[p + n], cls)
    decreases |s| - p
  {
    if p < |s| && InClass(s[p], cls) then 1 + RunLength(s, p + 1, cls) else 0
  }

  /** A run of the class that stops at a character outside it (or at the end)
      has exactly the length RunLength reports. */
  lemma {:induction false} RunLengthExact(s: string, p: nat, n: nat, cls: CharClass)
    requires p + n <= |s|
    requires forall i | p <= i < p + n :: InClass(s[i], cls)
    requires p + n == |s| || !InClass(s[p + n], cls)
    ensures RunLength(s, p, cls) == n
    decreases n
  {
    if n > 0 {
      RunLengthExact(s, p + 1, n - 1, cls);
    }
  }

  /** A run of one character. */
  lemma RunLengthOne(s: string, p: nat, cls: CharClass)
    requires p < |s| && InClass(s[p], cls)
    requires p + 1 == |s| || !InClass(s[p + 1], cls)
    ensures RunLength(s, p, cls) == 1
  {
    RunLengthExact(s, p, 1, cls);
  }

  // ---------------------------------------------------------------- search

  predicate OccursAt(s: string, t: string, i: nat)
  {
    i + |t| <= |s| && s[i..i + |t|] == t
  }

  /** Python's `t in s`. */
  predicate Contains(s: string, t: string)
  {
    exists i: nat | i <= |s| :: OccursAt(s, t, i)
  }

  /** Python's `s.find(t, from)`: the first occurrence at or after `from`. */
  function IndexOf(s: string, t: string, from: nat): (r: Option<nat>)
    ensures r.Some? ==> from <= r.value && OccursAt(s, t, r.value)
    ensures r.Some? ==> forall j | from <= j < r.value :: !OccursAt(s, t, j)
    ensures r.None? ==> forall j: nat | from <= j :: !OccursAt(s, t, j)
    decreases |s| - from
  {
    if from + |t| > |s| then None
    else if OccursAt(s, t, from) then Some(from)
    else IndexOf(s, t, from + 1)
  }

  /** An occurrence with none before it (from `from` on) is what `find` reports. */
  lemma IndexOfAt(s: string, t: string, from: nat, j: nat)
    requires from <= j && OccursAt(s, t, j)
    requires forall k | from <= k < j :: !OccursAt(s, t, k)
    ensures IndexOf(s, t, from) == Some(j)
  {
  }

  /** A text lacking one of the characters of `t` does not contain `t`. */
  lemma NotContainsMissingChar(s: string, t: string, c: char)
    requires c in t && c !in s
    ensures !Contains(s, t)
  {
  }

  // ---------------------------------------------------------------- lower()

  function LowerChar(c: char): (d: char)
    ensures IsUpper(c) ==> IsLower(d) && d as int == c as int + 32
    ensures !IsUpper(c) ==> d == c
  {
    if IsUpper(c) then (c as int + 32) as char else c
  }

  /** `str.lower()` on ASCII letters: every character is lowered in place. */
  function ToLower(s: string): (r: string)
    ensures |r| == |s|
    ensures forall i | 0 <= i < |s| :: r[i] == LowerChar(s[i])
  {
    if s == [] then [] else [LowerChar(s[0])] + ToLower(s[1..])
  }

  lemma ToLowerAppend(a: string, b: string)
    ensures ToLower(a + b) == ToLower(a) + ToLower(b)
  {
    assert forall i | 0 <= i < |a + b| :: ToLower(a + b)[i] == (ToLower(a) + ToLower(b))[i];
  }

  /** A text without upper-case letters is its own `lower()`. */
  lemma ToLowerUnchanged(s: string)
    requires forall i | 0 <= i < |s| :: !IsUpper(s[i])
    ensures ToLower(s) == s
  {
    assert forall i | 0 <= i < |s| :: ToLower(s)[i] == s[i];
  }

  function UpperChar(c: char): (d: char)
    ensures IsLower(c) ==> IsUpper(d) && d as int == c as int - 32
    ensures !IsLower(c) ==> d == c
  {
    if IsLower(c) then (c as int - 32) as char else c
  }

  /** `str.upper()` on ASCII letters. */
  function ToUpper(s: string): (r: string)
    ensures |r| == |s|
    ensures forall i | 0 <= i < |s| :: r[i] == UpperChar(s[i])
  {
    if s == [] then [] else [UpperChar(s[0])] + ToUpper(s[1..])
  }

  // ---------------------------------------------------------------- strip(), split()

  /** `str.strip()`: drop whitespace at both ends. */
  function Strip(s: string): (r: string)
    ensures |r| <= |s|
    ensures r != [] ==> !IsSpace(r[0]) && !IsSpace(r[|r| - 1])
    ensures r == [] <==> forall i | 0 <= i < |s| :: IsSpace(s[i])
    decreases |s|
  {
    if s == [] then []
    else if IsSpace(s[0]) then Strip(s[1..])
    else if IsSpace(s[|s| - 1]) then Strip(s[..|s| - 1])
    else s
  }

  /** The truth value of `s.strip()`: some character is not whitespace. */
  predicate HasContent(s: string)
  {
    Strip(s) != []
  }

  lemma HasContentIff(s: string)
    ensures HasContent(s) <==> exists i | 0 <= i < |s| :: !IsSpace(s[i])
  {
  }

  /** `str.split()` with no separator: the maximal runs of non-whitespace. */
  function SplitWords(s: string): (words: seq<string>)
    ensures forall w | w in words :: w != [] && forall i | 0 <= i < |w| :: !IsSpace(w[i])
    decreases |s|
  {
    if s == [] then []
    else if IsSpace(s[0]) then SplitWords(s[1..])
    else
      var n := RunLength(s, 0, NonSpace);
      [s[..n]] + SplitWords(s[n..])
  }

  /** A non-empty text without whitespace is a single word. */
  lemma SplitWordsNoSpace(s: string)
    requires s != []
    requires forall i | 0 <= i < |s| :: !IsSpace(s[i])
    ensures SplitWords(s) == [s]
  {
    RunLengthExact(s, 0, |s|, NonSpace);
    assert s[..|s|] == s;
    assert SplitWords(s[|s|..]) == [];
  }

  /** Two words or more need whitespace between them. */
  lemma {:induction false} SplitWordsManyHasSpace(s: string)
    requires |SplitWords(s)| > 1
    ensures exists i | 0 <= i < |s| :: IsSpace(s[i])
  {
    if !IsSpace(s[0]) {
      var n := RunLength(s, 0, NonSpace);
      assert IsSpace(s[n]);
    }
  }

  /** A text with a non-whitespace character has at least one word. */
  lemma {:induction false} SplitWordsNonEmpty(s: string, k: nat)
    requires k < |s| && !IsSpace(s[k])
    ensures |SplitWords(s)| >= 1
    decreases |s|
  {
    if IsSpace(s[0]) {
      SplitWordsNonEmpty(s[1..], k - 1);
    }
  }

  /** Whitespace between two non-whitespace characters separates two words,
      whichever whitespace character it is. */
  lemma {:induction false} SplitWordsSeparated(s: string, i: nat, j: nat, k: nat)
    requires i < j < k < |s|
    requires !IsSpace(s[i]) && IsSpace(s[j]) && !IsSpace(s[k])
    ensures |SplitWords(s)| > 1
    decreases |s|
  {
    if IsSpace(s[0]) {
      SplitWordsSeparated(s[1..], i - 1, j - 1, k - 1);
    } else {
      var n := RunLength(s, 0, NonSpace);
      assert n <= j;
      SplitWordsNonEmpty(s[n..], k - n);
    }
  }

  // ---------------------------------------------------------------- split(c)

  /** `s.split(c)[0]`: the text before the first `c`. */
  function BeforeFirst(s: string, c: char): (r: string)
    ensures |r| <= |s| && r == s[..|r|]
    ensures c !in r
    ensures |r| < |s| ==> s[|r|] == c
  {
    if s == [] || s[0] == c then [] else [s[0]] + BeforeFirst(s[1..], c)
  }

  /** The text before the first `c` is determined by where that `c` is. */
  lemma BeforeFirstUnique(s: string, c: char, at: nat)
    requires at <= |s| && c !in s[..at]
    requires at < |s| ==> s[at] == c
    ensures BeforeFirst(s, c) == s[..at]
  {
    var r := BeforeFirst(s, c);
    assert |r| == at;
  }

  /** `s.split(c)[-1]`: the text after the last `c`. */
  function AfterLast(s: string, c: char): (r: string)
    ensures |r| <= |s| && r == s[|s| - |r|..]
    ensures c !in r
    ensures |r| < |s| ==> s[|s| - |r| - 1] == c
  {
    if s == [] || s[|s| - 1] == c then [] else AfterLast(s[..|s| - 1], c) + [s[|s| - 1]]
  }

  /** The text after the last `c` is determined by where that `c` is. */
  lemma AfterLastUnique(s: string, c: char, at: nat)
    requires at < |s| && s[at] == c && c !in s[at + 1..]
    ensures AfterLast(s, c) == s[at + 1..]
  {
    var r := AfterLast(s, c);
    assert |r| == |s| - at - 1;
  }
}
