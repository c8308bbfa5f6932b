/**
  `is_likely_translatable`: the filter that decides whether a string found in
  Dart code is kept as a translation key.  A length gate, seven rejection
  rules (each a regular expression; a match rejects), and a final rule
  asking for a letter and some whitespace.
*/
module Classifier {

  import opened Text

  const MinLength: nat := 2
  const MaxLength: nat := 200

  /** `^[a-z]+[A-Z]`: a lower-case run at the start followed by an upper-case
      letter.  The run is greedy and the next character can only be outside
      it, so the maximal run decides. */
  predicate IsCamelCaseLead(t: string)
  {
    var n := RunLength(t, 0, Lower);
    1 <= n < |t| && IsUpper(t[n])
  }

  /** `^\w+\.\w+`: a word run at the start, a `.`, and a word character. */
  predicate IsDottedPath(t: string)
  {
    var n := RunLength(t, 0, Word);
    1 <= n && n + 1 < |t| && t[n] == '.' && IsWordChar(t[n + 1])
  }

  /** `^[A-Z_]+$` */
  predicate IsConstantStyle(t: string)
  {
    t != [] && forall i | 0 <= i < |t| :: IsUpper(t[i]) || t[i] == '_'
  }

  /** `^\d+$` */
  predicate IsNumeric(t: string)
  {
    t != [] && forall i | 0 <= i < |t| :: IsDigit(t[i])
  }

  /** `^[^\w\s]+$` */
  predicate IsSymbolsOnly(t: string)
  {
    t != [] && forall i | 0 <= i < |t| :: !IsWordChar(t[i]) && !IsSpace(t[i])
  }

  /** `https?://` anywhere. */
  predicate IsUrl(t: string)
  {
    Contains(t, "http://") || Contains(t, "https://")
  }

  /** `@` anywhere. */
  predicate IsEmailLike(t: string)
  {
    '@' in t
  }

  /** Some skip pattern matches. */
  predicate IsTechnical(t: string)
  {
    || IsCamelCaseLead(t) || IsDottedPath(t) || IsConstantStyle(t) || IsNumeric(t)
    || IsSymbolsOnly(t) || IsUrl(t) || IsEmailLike(t)
  }

  /** `[a-zA-Z]` anywhere. */
  predicate HasAsciiLetter(t: string)
  {
    exists i | 0 <= i < |t| :: IsAsciiLetter(t[i])
  }

  /** `' ' in text or len(text.split()) > 1` */
  predicate LooksLikePhrase(t: string)
  {
    ' ' in t || |SplitWords(t)| > 1
  }

  /** `is_likely_translatable` */
  predicate IsLikelyTranslatable(t: string)
  {
    && MinLength <= |t| <= MaxLength
    && !IsTechnical(t)
    && HasAsciiLetter(t)
    && LooksLikePhrase(t)
  }

  // ---------------------------------------------------------------- what the patterns mean

  /** The first n characters all belong to `cls`. */
  predicate PrefixIn(t: string, n: nat, cls: CharClass)
  {
    n <= |t| && forall i | 0 <= i < n :: InClass(t[i], cls)
  }

  /** The camel-case rule matches exactly when some non-empty lower-case
      prefix is followed by an upper-case letter. */
  lemma CamelCaseLeadMeaning(t: string)
    ensures IsCamelCaseLead(t) <==>
      exists n: nat | 1 <= n < |t| :: PrefixIn(t, n, Lower) && IsUpper(t[n])
  {
    if n: nat :| 1 <= n < |t| && PrefixIn(t, n, Lower) && IsUpper(t[n]) {
      RunLengthExact(t, 0, n, Lower);
    }
  }

  /** The dotted-path rule matches exactly when some non-empty word prefix is
      followed by `.` and a word character. */
  lemma DottedPathMeaning(t: string)
    ensures IsDottedPath(t) <==>
      exists n: nat | 1 <= n && n + 1 < |t| :: PrefixIn(t, n, Word) && t[n] == '.' && IsWordChar(t[n + 1])
  {
    if n: nat :| 1 <= n && n + 1 < |t| && PrefixIn(t, n, Word) && t[n] == '.' && IsWordChar(t[n + 1]) {
      RunLengthExact(t, 0, n, Word);
    }
  }

  /** The final rule needs whitespace somewhere. */
  lemma PhraseHasSpace(t: string)
    requires LooksLikePhrase(t)
    ensures exists i | 0 <= i < |t| :: IsSpace(t[i])
  {
    if ' ' !in t {
      SplitWordsManyHasSpace(t);
    }
  }

  // ---------------------------------------------------------------- necessary and sufficient conditions

  /** What an accepted string always satisfies. */
  lemma AcceptedNecessary(t: string)
    requires IsLikelyTranslatable(t)
    ensures 2 <= |t| <= 200
    ensures '@' !in t && !Contains(t, "http://") && !Contains(t, "https://")
    ensures exists i | 0 <= i < |t| :: IsAsciiLetter(t[i])
    ensures ' ' in t || |SplitWords(t)| > 1
    ensures exists i | 0 <= i < |t| :: IsSpace(t[i])
  {
    PhraseHasSpace(t);
  }

  /** A single word (no whitespace at all) is never accepted. */
  lemma SingleWordRejected(t: string)
    requires forall i | 0 <= i < |t| :: !IsSpace(t[i])
    ensures !IsLikelyTranslatable(t)
  {
    if t != [] {
      SplitWordsNoSpace(t);
    }
  }

  /** A phrase that starts with a non-lower-case character and holds a space
      and a letter but no `.`, `@` or `:` is accepted whenever its length
      passes the gate. */
  lemma AcceptedSufficient(t: string)
    requires 2 <= |t| <= 200
    requires ' ' in t && HasAsciiLetter(t)
    requires !IsLower(t[0]) && '.' !in t && '@' !in t && ':' !in t
    ensures IsLikelyTranslatable(t)
  {
    NotContainsMissingChar(t, "http://", ':');
    NotContainsMissingChar(t, "https://", ':');
    var k :| 0 <= k < |t| && t[k] == ' ';
    assert !IsWordChar(t[k]) && IsSpace(t[k]);
  }

  /** The same with any whitespace between two words instead of a space:
      `len(text.split()) > 1` accepts a tab or a newline as separator. */
  lemma AcceptedSufficientSeparated(t: string, i: nat, j: nat, k: nat)
    requires 2 <= |t| <= 200
    requires i < j < k < |t| && !IsSpace(t[i]) && IsSpace(t[j]) && !IsSpace(t[k])
    requires HasAsciiLetter(t)
    requires !IsLower(t[0]) && '.' !in t && '@' !in t && ':' !in t
    ensures IsLikelyTranslatable(t)
  {
    SplitWordsSeparated(t, i, j, k);
    NotTechnicalWithSpace(t, j);
  }

  /** A whitespace character, a non-lower-case start and no `.`, `@` or `:`
      escape every skip pattern. */
  lemma NotTechnicalWithSpace(t: string, j: nat)
    requires j < |t| && IsSpace(t[j])
    requires !IsLower(t[0]) && '.' !in t && '@' !in t && ':' !in t
    ensures !IsTechnical(t)
  {
    NotContainsMissingChar(t, "http://", ':');
    NotContainsMissingChar(t, "https://", ':');
    assert !IsWordChar(t[j]);
  }

  // ---------------------------------------------------------------- pinned cases

  lemma AcceptsHelloThere(t: string)
    requires t == "Hello there"
    ensures IsLikelyTranslatable(t)
  {
    assert t[5] == ' ' && IsAsciiLetter(t[0]);
    AcceptedSufficient(t);
  }

  /** `Hello\tthere` has no space but splits into two words. */
  lemma AcceptsHelloTabThere(t: string)
    requires t == "Hello\tthere"
    ensures IsLikelyTranslatable(t)
  {
    assert IsSpace(t[5]) && !IsSpace(t[0]) && !IsSpace(t[6]) && IsAsciiLetter(t[0]);
    AcceptedSufficientSeparated(t, 0, 5, 6);
  }

  lemma RejectsCamelCase(t: string)
    requires t == "helloThere"
    ensures !IsLikelyTranslatable(t)
  {
    RunLengthExact(t, 0, 5, Lower);
  }

  lemma RejectsConstant(t: string)
    requires t == "CONSTANT_VALUE"
    ensures !IsLikelyTranslatable(t)
  {
    assert IsConstantStyle(t);
  }

  lemma RejectsNumber(t: string)
    requires t == "123"
    ensures !IsLikelyTranslatable(t)
  {
    assert IsNumeric(t);
  }

  lemma RejectsTooShort(t: string)
    requires t == "a"
    ensures !IsLikelyTranslatable(t)
  {
  }

  lemma RejectsEmail(t: string)
    requires t == "user@example.com"
    ensures !IsLikelyTranslatable(t)
  {
    assert t[4] == '@';
  }

  lemma RejectsUrl(t: string)
    requires t == "https://x.com"
    ensures !IsLikelyTranslatable(t)
  {
    assert OccursAt(t, "https://", 0);
  }
}
