/**
  `extract_language_from_filename` and `is_likely_translation_file`.

  The resolver tries four regular expressions in order on the lower-cased
  name, each with `re.search` (the leftmost position where the pattern
  matches), and falls back to a split of the original name.  Each pattern is
  modelled as "does it match starting exactly at p" plus a leftmost search.
*/
module LanguageCode {

  import opened Wrappers
  import opened Text

  /** Two or three lower-case ASCII letters. */
  predicate IsLanguageCode(c: string)
  {
    2 <= |c| <= 3 && forall i | 0 <= i < |c| :: IsLower(c[i])
  }

  /** The patterns of the resolver. */
  datatype Pattern =
    | UnderscoreSuffix    // _([a-z]{2,3})\.(?:arb|json)$
    | Suffix              // ([a-z]{2,3})\.(?:arb|json)$
    | Infix(lead: string) // app_([a-z]{2,3})   and   translations_([a-z]{2,3})

  const Patterns: seq<Pattern> := [UnderscoreSuffix, Suffix, Infix("app_"), Infix("translations_")]

  /** `\.(?:arb|json)$` at q: what is left of the name is exactly the extension. */
  predicate ExtensionAt(s: string, q: nat)
  {
    q <= |s| && (s[q..] == ".arb" || s[q..] == ".json")
  }

  /** `([a-z]{2,3})` at p, optionally followed by the extension: the greedy
      quantifier tries three letters first, then two. */
  function CodeAt(s: string, p: nat, needExtension: bool): (r: Option<string>)
    requires p <= |s|
    ensures r.Some? ==> IsLanguageCode(r.value)
  {
    var n := RunLength(s, p, Lower);
    if n >= 3 && (!needExtension || ExtensionAt(s, p + 3)) then Some(s[p..p + 3])
    else if n >= 2 && (!needExtension || ExtensionAt(s, p + 2)) then Some(s[p..p + 2])
    else None
  }

  /** `[a-z]{m}` at p: m lower-case letters start at p. */
  predicate LettersAt(s: string, p: nat, m: nat)
  {
    p + m <= |s| && forall i | p <= i < p + m :: IsLower(s[i])
  }

  /** A greedy run of lower-case letters reaches m exactly when m letters start at p. */
  lemma RunLengthAtLeast(s: string, p: nat, m: nat)
    requires p <= |s|
    ensures RunLength(s, p, Lower) >= m <==> LettersAt(s, p, m)
  {
  }

  /** What `([a-z]{2,3})` (followed by the extension when the pattern asks
      for it) captures at p, read as the regex engine reads it: the text at p,
      three letters whenever three fit, two when only two fit, and nothing
      when neither fits. */
  lemma CodeAtMeaning(s: string, p: nat, needExtension: bool)
    requires p <= |s|
    ensures var r := CodeAt(s, p, needExtension);
      r.Some? ==> LettersAt(s, p, |r.value|) && r.value == s[p..p + |r.value|]
                  && (needExtension ==> ExtensionAt(s, p + |r.value|))
    ensures LettersAt(s, p, 3) && (!needExtension || ExtensionAt(s, p + 3)) ==>
      CodeAt(s, p, needExtension) == Some(s[p..p + 3])
    ensures !(LettersAt(s, p, 3) && (!needExtension || ExtensionAt(s, p + 3)))
            && LettersAt(s, p, 2) && (!needExtension || ExtensionAt(s, p + 2)) ==>
      CodeAt(s, p, needExtension) == Some(s[p..p + 2])
    ensures !(LettersAt(s, p, 3) && (!needExtension || ExtensionAt(s, p + 3)))
            && !(LettersAt(s, p, 2) && (!needExtension || ExtensionAt(s, p + 2))) ==>
      CodeAt(s, p, needExtension).None?
  {
    RunLengthAtLeast(s, p, 2);
    RunLengthAtLeast(s, p, 3);
  }

  /** The captured group when the pattern matches starting exactly at p. */
  function MatchAt(s: string, p: nat, pat: Pattern): (r: Option<string>)
    requires p <= |s|
    ensures r.Some? ==> IsLanguageCode(r.value)
  {
    match pat
    case UnderscoreSuffix => if p < |s| && s[p] == '_' then CodeAt(s, p + 1, true) else None
    case Suffix => CodeAt(s, p, true)
    case Infix(lead) => if OccursAt(s, lead, p) then CodeAt(s, p + |lead|, false) else None
  }

  /** `re.search` from p: the leftmost start of a match. */
  function SearchFrom(s: string, p: nat, pat: Pattern): (r: Option<nat>)
    requires p <= |s|
    ensures r.Some? ==> p <= r.value <= |s| && MatchAt(s, r.value, pat).Some?
    ensures r.Some? ==> forall q | p <= q < r.value :: MatchAt(s, q, pat).None?
    ensures r.None? ==> forall q | p <= q <= |s| :: MatchAt(s, q, pat).None?
    decreases |s| - p
  {
    if MatchAt(s, p, pat).Some? then Some(p)
    else if p == |s| then None
    else SearchFrom(s, p + 1, pat)
  }

  /** `re.search(pattern, s).group(1)`, or None when nothing matches. */
  function Search(s: string, pat: Pattern): (r: Option<string>)
    ensures r.Some? ==> IsLanguageCode(r.value)
  {
    match SearchFrom(s, 0, pat)
    case Some(p) => MatchAt(s, p, pat)
    case None => None
  }

  /** The first pattern of the list that matches somewhere. */
  function FirstMatch(s: string, pats: seq<Pattern>): (r: Option<string>)
    ensures r.Some? ==> IsLanguageCode(r.value)
  {
    if pats == [] then None
    else match Search(s, pats[0])
      case Some(c) => Some(c)
      case None => FirstMatch(s, pats[1..])
  }

  /** `filename.split('.')[0].split('_')[-1] if '_' in filename else 'unknown'`. */
  function Fallback(fileName: string): string
  {
    if '_' in fileName then AfterLast(BeforeFirst(fileName, '.'), '_') else "unknown"
  }

  /** `extract_language_from_filename`: total, never raises. */
  function ExtractLanguageFromFileName(fileName: string): string
  {
    match FirstMatch(ToLower(fileName), Patterns)
    case Some(code) => code
    case None => Fallback(fileName)
  }

  // ---------------------------------------------------------------- extension rule

  /** Number of lower-case letters directly before the end of `s`. */
  function TrailingLowerCount(s: string): (k: nat)
    ensures k <= |s|
    ensures forall i | |s| - k <= i < |s| :: IsLower(s[i])
    ensures k < |s| ==> !IsLower(s[|s| - k - 1])
  {
    if s == [] || !IsLower(s[|s| - 1]) then 0 else 1 + TrailingLowerCount(s[..|s| - 1])
  }

  function Min(a: int, b: int): int { if a <= b then a else b }

  /** A stem ending in exactly k lower-case letters has TrailingLowerCount k. */
  lemma {:induction false} TrailingLowerExact(s: string, k: nat)
    requires k <= |s|
    requires forall i | |s| - k <= i < |s| :: IsLower(s[i])
    requires k < |s| ==> !IsLower(s[|s| - k - 1])
    ensures TrailingLowerCount(s) == k
    decreases k
  {
    if k > 0 {
      var init := s[..|s| - 1];
      assert forall i | |init| - (k - 1) <= i < |init| :: init[i] == s[i];
      TrailingLowerExact(init, k - 1);
    }
  }

  /** On `stem + ext` the extension can only start right after the stem. */
  lemma ExtensionOnlyAfterStem(s: string, stem: string, ext: string, q: nat)
    requires ext == ".arb" || ext == ".json"
    requires s == stem + ext
    ensures ExtensionAt(s, q) <==> q == |stem|
  {
    if q == |stem| {
      assert s[q..] == ext;
    }
    if ExtensionAt(s, q) {
      // the last character tells the two extensions apart, the length then fixes q
      var t := s[q..];
      assert t[|t| - 1] == s[|s| - 1] == ext[|ext| - 1];
      assert |t| == |s| - q;
    }
  }

  /** A match of `_([a-z]{3})\.ext` makes the stem end in exactly three letters. */
  lemma UnderscoreThree(s: string, stem: string, ext: string, p: nat)
    requires ext == ".arb" || ext == ".json"
    requires s == stem + ext
    requires p + 4 == |stem| && s[p] == '_'
    requires forall i | p + 1 <= i < p + 4 :: IsLower(s[i])
    ensures TrailingLowerCount(stem) == 3 && s[p + 1..p + 4] == stem[|stem| - 3..]
  {
    assert forall i | p <= i < p + 4 :: s[i] == stem[i];
    assert stem[p] == '_';
    TrailingLowerExact(stem, 3);
  }

  /** A match of `_([a-z]{2})\.ext` makes the stem end in exactly two letters. */
  lemma UnderscoreTwo(s: string, stem: string, ext: string, p: nat)
    requires ext == ".arb" || ext == ".json"
    requires s == stem + ext
    requires p + 3 == |stem| && s[p] == '_'
    requires forall i | p + 1 <= i < p + 3 :: IsLower(s[i])
    ensures TrailingLowerCount(stem) == 2 && s[p + 1..p + 3] == stem[|stem| - 2..]
  {
    assert forall i | p <= i < p + 3 :: s[i] == stem[i];
    assert stem[p] == '_';
    TrailingLowerExact(stem, 2);
  }

  /** How many trailing letters the extension rule keeps: the stem ends in at
      least two lower-case letters and m is their number capped at three
      (see CodeLengthIff). */
  predicate IsCodeLength(stem: string, m: nat)
  {
    2 <= m <= 3 && m <= TrailingLowerCount(stem) && (m < 3 ==> m == TrailingLowerCount(stem))
  }

  /** IsCodeLength pins m down: it is min(trailing count, 3), and exists
      exactly when the stem ends in two or more lower-case letters. */
  lemma CodeLengthIff(stem: string, m: nat)
    ensures IsCodeLength(stem, m) <==> TrailingLowerCount(stem) >= 2 && m == Min(TrailingLowerCount(stem), 3)
  {
  }

  /** Wherever the `_xx.ext` pattern matches, it captures the same letters as
      the extension rule. */
  lemma UnderscoreSuffixAgrees(s: string, stem: string, ext: string, m: nat, p: nat)
    requires ext == ".arb" || ext == ".json"
    requires s == stem + ext
    requires IsCodeLength(stem, m)
    requires p <= |s| && MatchAt(s, p, UnderscoreSuffix).Some?
    ensures MatchAt(s, p, UnderscoreSuffix).value == stem[|stem| - m..]
  {
    if RunLength(s, p + 1, Lower) >= 3 && ExtensionAt(s, p + 4) {
      UnderscoreThreeCode(s, stem, ext, m, p);
    } else {
      UnderscoreTwoCode(s, stem, ext, m, p);
    }
  }

  /** `_` and three letters before the extension: the code is those letters. */
  lemma UnderscoreThreeCode(s: string, stem: string, ext: string, m: nat, p: nat)
    requires ext == ".arb" || ext == ".json"
    requires s == stem + ext
    requires IsCodeLength(stem, m)
    requires p + 1 <= |s| && s[p] == '_'
    requires RunLength(s, p + 1, Lower) >= 3 && ExtensionAt(s, p + 4)
    ensures MatchAt(s, p, UnderscoreSuffix).value == stem[|stem| - m..]
  {
    ExtensionOnlyAfterStem(s, stem, ext, p + 4);
    UnderscoreThree(s, stem, ext, p);
  }

  /** Otherwise a match is `_`, two letters and the extension. */
  lemma UnderscoreTwoCode(s: string, stem: string, ext: string, m: nat, p: nat)
    requires ext == ".arb" || ext == ".json"
    requires s == stem + ext
    requires IsCodeLength(stem, m)
    requires p <= |s| && MatchAt(s, p, UnderscoreSuffix).Some?
    requires !(RunLength(s, p + 1, Lower) >= 3 && ExtensionAt(s, p + 4))
    ensures MatchAt(s, p, UnderscoreSuffix).value == stem[|stem| - m..]
  {
    ExtensionOnlyAfterStem(s, stem, ext, p + 3);
    UnderscoreTwo(s, stem, ext, p);
  }

  /** Before the trailing letters (at most three) the `xx.ext` pattern does not match. */
  lemma SuffixNoMatchBefore(s: string, stem: string, ext: string, m: nat, p: nat)
    requires ext == ".arb" || ext == ".json"
    requires s == stem + ext
    requires IsCodeLength(stem, m) && p < |stem| - m
    ensures MatchAt(s, p, Suffix).None?
  {
    var d := |stem|;
    ExtensionOnlyAfterStem(s, stem, ext, p + 3);
    ExtensionOnlyAfterStem(s, stem, ext, p + 2);
    if p + 3 == d {
      assert stem[d - 3] == s[p];
    }
  }

  /** At the start of the trailing letters the `xx.ext` pattern captures them. */
  lemma SuffixMatchAtCode(s: string, stem: string, ext: string, m: nat)
    requires ext == ".arb" || ext == ".json"
    requires s == stem + ext
    requires IsCodeLength(stem, m)
    ensures MatchAt(s, |stem| - m, Suffix) == Some(stem[|stem| - m..])
  {
    CodeBeforeExtension(s, stem, ext, m);
    CodeAtRun(s, stem, m);
  }

  /** The last m letters of the stem (two or three of its trailing letters)
      are a run of exactly m letters followed by the extension. */
  lemma CodeBeforeExtension(s: string, stem: string, ext: string, m: nat)
    requires ext == ".arb" || ext == ".json"
    requires s == stem + ext
    requires IsCodeLength(stem, m)
    ensures m <= |stem| < |s| && RunLength(s, |stem| - m, Lower) == m
    ensures ExtensionAt(s, |stem|) && s[|stem| - m..|stem|] == stem[|stem| - m..]
  {
    TrailingLetters(s, stem, ext, m);
    ExtensionOnlyAfterStem(s, stem, ext, |stem|);
  }

  /** A run of exactly two or three letters right before the extension is
      what the `xx.ext` pattern captures there. */
  lemma CodeAtRun(s: string, stem: string, m: nat)
    requires 2 <= m <= 3 && m <= |stem| < |s|
    requires RunLength(s, |stem| - m, Lower) == m && ExtensionAt(s, |stem|)
    requires s[|stem| - m..|stem|] == stem[|stem| - m..]
    ensures MatchAt(s, |stem| - m, Suffix) == Some(stem[|stem| - m..])
  {
  }

  /** The last m (at most the trailing count) letters of the stem are a run
      of exactly m lower-case letters in `stem + ext`. */
  lemma TrailingLetters(s: string, stem: string, ext: string, m: nat)
    requires ext == ".arb" || ext == ".json"
    requires s == stem + ext
    requires 0 < m <= TrailingLowerCount(stem)
    ensures RunLength(s, |stem| - m, Lower) == m && s[|stem| - m..|stem|] == stem[|stem| - m..]
  {
    var d := |stem|;
    assert forall i | d - m <= i < d :: s[i] == stem[i];
    assert s[d] == '.';
    RunLengthExact(s, d - m, m, Lower);
  }

  /** No match of `pat` starts before `at`. */
  predicate NoMatchBefore(s: string, pat: Pattern, at: nat)
  {
    forall q | 0 <= q < at && q <= |s| :: MatchAt(s, q, pat).None?
  }

  /** The search for `_xx.ext` finds nothing or the extension rule's letters. */
  lemma SearchUnderscoreSuffix(s: string, stem: string, ext: string, m: nat)
    requires ext == ".arb" || ext == ".json"
    requires s == stem + ext
    requires IsCodeLength(stem, m)
    ensures Search(s, UnderscoreSuffix).Some? ==> Search(s, UnderscoreSuffix).value == stem[|stem| - m..]
  {
    var r := SearchFrom(s, 0, UnderscoreSuffix);
    if r.Some? {
      UnderscoreSuffixAgrees(s, stem, ext, m, r.value);
    }
  }

  /** The `xx.ext` pattern matches at the code and nowhere before it. */
  lemma SuffixFacts(s: string, stem: string, ext: string, m: nat)
    requires ext == ".arb" || ext == ".json"
    requires s == stem + ext
    requires IsCodeLength(stem, m)
    ensures m <= |stem| <= |s|
    ensures MatchAt(s, |stem| - m, Suffix) == Some(stem[|stem| - m..])
    ensures NoMatchBefore(s, Suffix, |stem| - m)
  {
    SuffixMatchAtCode(s, stem, ext, m);
    forall q | 0 <= q < |stem| - m ensures MatchAt(s, q, Suffix).None? {
      SuffixNoMatchBefore(s, stem, ext, m, q);
    }
  }

  /** The search for `xx.ext` finds the extension rule's letters. */
  lemma SearchSuffix(s: string, stem: string, ext: string, m: nat)
    requires ext == ".arb" || ext == ".json"
    requires s == stem + ext
    requires IsCodeLength(stem, m)
    ensures Search(s, Suffix) == Some(stem[|stem| - m..])
  {
    SuffixFacts(s, stem, ext, m);
    SearchFindsCode(s, stem, m);
  }

  /** The first match of `xx.ext`, at the code, is what the search returns. */
  lemma SearchFindsCode(s: string, stem: string, m: nat)
    requires m <= |stem| <= |s|
    requires MatchAt(s, |stem| - m, Suffix) == Some(stem[|stem| - m..])
    requires NoMatchBefore(s, Suffix, |stem| - m)
    ensures Search(s, Suffix) == Some(stem[|stem| - m..])
  {
    SearchFirstAt(s, Suffix, |stem| - m);
  }

  /** The search stops at the first position where the pattern matches. */
  lemma SearchFirstAt(s: string, pat: Pattern, at: nat)
    requires at <= |s| && MatchAt(s, at, pat).Some?
    requires NoMatchBefore(s, pat, at)
    ensures Search(s, pat) == MatchAt(s, at, pat)
  {
    var r := SearchFrom(s, 0, pat);
    assert r.Some?;
    assert r.value == at;
  }

  /** Only the first two patterns matter once the second one matches. */
  lemma FirstTwoPatterns(s: string, code: string)
    requires Search(s, UnderscoreSuffix).Some? ==> Search(s, UnderscoreSuffix).value == code
    requires Search(s, UnderscoreSuffix).None? ==> Search(s, Suffix) == Some(code)
    ensures FirstMatch(s, Patterns) == Some(code)
  {
    assert Patterns[0] == UnderscoreSuffix && Patterns[1..][0] == Suffix;
  }

  /** Extension rule: when the lower-cased name is `stem` followed by `.arb` or
      `.json` and at least two lower-case letters end the stem, the code is
      the last m of them, m being their number capped at three (CodeLengthIff). */
  lemma ExtensionRule(fileName: string, stem: string, ext: string, m: nat)
    requires ext == ".arb" || ext == ".json"
    requires ToLower(fileName) == stem + ext
    requires IsCodeLength(stem, m)
    ensures ExtractLanguageFromFileName(fileName) == stem[|stem| - m..]
  {
    var s := ToLower(fileName);
    SearchUnderscoreSuffix(s, stem, ext, m);
    SearchSuffix(s, stem, ext, m);
    FirstTwoPatterns(s, stem[|stem| - m..]);
  }

  // ---------------------------------------------------------------- fallback

  /** Fallback rule: when no pattern matches, a name without `_` gives
      `unknown`; otherwise the code is the original-case text after the last
      `_` of the part before the first `.` (all of it when that part has no `_`). */
  lemma FallbackRule(fileName: string, dot: nat)
    requires FirstMatch(ToLower(fileName), Patterns).None?
    requires dot <= |fileName| && '.' !in fileName[..dot]
    requires dot < |fileName| ==> fileName[dot] == '.'
    ensures '_' !in fileName ==> ExtractLanguageFromFileName(fileName) == "unknown"
    ensures '_' in fileName ==>
      var r := ExtractLanguageFromFileName(fileName);
      && |r| <= dot && r == fileName[dot - |r|..dot] && '_' !in r
      && (|r| < dot ==> fileName[dot - |r| - 1] == '_')
  {
    BeforeFirstUnique(fileName, '.', dot);
  }

  // ---------------------------------------------------------------- infix rule

  /** Neither extension pattern matches when no `.arb`/`.json` ending is
      preceded by two lower-case letters. */
  lemma ExtensionPatternsFail(s: string)
    requires forall e | 2 <= e <= |s| && ExtensionAt(s, e) :: !(IsLower(s[e - 2]) && IsLower(s[e - 1]))
    ensures Search(s, UnderscoreSuffix).None? && Search(s, Suffix).None?
  {
    forall q: nat | q <= |s| ensures MatchAt(s, q, Suffix).None? {
      CodeAtMeaning(s, q, true);
    }
    forall q: nat | q < |s| ensures MatchAt(s, q, UnderscoreSuffix).None? {
      CodeAtMeaning(s, q + 1, true);
    }
  }

  /** `lead` followed by two or more lower-case letters at q: where
      `lead([a-z]{2,3})` matches. */
  predicate InfixAt(s: string, lead: string, q: nat)
  {
    OccursAt(s, lead, q) && LettersAt(s, q + |lead|, 2)
  }

  lemma InfixMatchAt(s: string, lead: string, q: nat)
    requires q <= |s|
    ensures MatchAt(s, q, Infix(lead)).Some? <==> InfixAt(s, lead, q)
  {
    if OccursAt(s, lead, q) {
      CodeAtMeaning(s, q + |lead|, false);
    }
  }

  /** The search for `lead([a-z]{2,3})` returns the first min(k, 3) of the k
      letters after the leftmost `lead` that two letters follow. */
  lemma SearchInfix(s: string, lead: string, p: nat, k: nat)
    requires InfixAt(s, lead, p) && forall q: nat | q < p :: !InfixAt(s, lead, q)
    requires LettersAt(s, p + |lead|, k)
    requires p + |lead| + k == |s| || !IsLower(s[p + |lead| + k])
    ensures k >= 2 && Search(s, Infix(lead)) == Some(s[p + |lead|..p + |lead| + Min(k, 3)])
  {
    var c := p + |lead|;
    forall q | 0 <= q < p && q <= |s| ensures MatchAt(s, q, Infix(lead)).None? {
      InfixMatchAt(s, lead, q);
    }
    InfixMatchAt(s, lead, p);
    SearchFirstAt(s, Infix(lead), p);
    CodeAtMeaning(s, c, false);
  }

  /** Without any `lead` followed by two letters the search finds nothing. */
  lemma SearchInfixNone(s: string, lead: string)
    requires forall q: nat | q <= |s| :: !InfixAt(s, lead, q)
    ensures Search(s, Infix(lead)).None?
  {
    var r := SearchFrom(s, 0, Infix(lead));
    if r.Some? {
      InfixMatchAt(s, lead, r.value);
    }
  }

  /** Infix rule: when neither extension pattern matches the lower-cased name
      `s`, the code follows the leftmost `app_` that two or more lower-case
      letters follow (the first three of them, two when only two); only when
      there is no such `app_`, it follows the leftmost such `translations_`. */
  lemma InfixRule(fileName: string, s: string, lead: string, p: nat, k: nat)
    requires s == ToLower(fileName)
    requires lead == "app_" || lead == "translations_"
    requires Search(s, UnderscoreSuffix).None? && Search(s, Suffix).None?
    requires lead == "translations_" ==> forall q: nat | q <= |s| :: !InfixAt(s, "app_", q)
    requires InfixAt(s, lead, p) && forall q: nat | q < p :: !InfixAt(s, lead, q)
    requires LettersAt(s, p + |lead|, k)
    requires p + |lead| + k == |s| || !IsLower(s[p + |lead| + k])
    ensures k >= 2 && ExtractLanguageFromFileName(fileName) == s[p + |lead|..p + |lead| + Min(k, 3)]
  {
    SearchInfix(s, lead, p, k);
    FirstMatchAfterExtensions(s);
    if lead == "translations_" {
      SearchInfixNone(s, "app_");
    }
  }

  /** Once both extension patterns fail, the two infix patterns decide. */
  lemma FirstMatchAfterExtensions(s: string)
    requires Search(s, UnderscoreSuffix).None? && Search(s, Suffix).None?
    ensures FirstMatch(s, Patterns) == FirstMatch(s, [Infix("app_"), Infix("translations_")])
  {
    assert Patterns[1..][1..] == [Infix("app_"), Infix("translations_")];
  }

  // ---------------------------------------------------------------- pinned cases

  /** The extension pattern needs a `.`. */
  lemma ExtensionNeedsDot(s: string, q: nat)
    requires ExtensionAt(s, q)
    ensures '.' in s
  {
    assert s[q] == s[q..][0] == '.';
  }

  /** When no single pattern matches, the list of patterns does not either. */
  lemma {:induction false} FirstMatchNone(s: string, pats: seq<Pattern>)
    requires forall pat | pat in pats :: Search(s, pat).None?
    ensures FirstMatch(s, pats).None?
    decreases |pats|
  {
    if pats != [] {
      assert pats[0] in pats;
      assert forall pat | pat in pats[1..] :: pat in pats;
      FirstMatchNone(s, pats[1..]);
    }
  }

  /** No pattern can match a name without a `.` that contains neither
      `app_` nor `translations_`. */
  lemma NoPatternMatches(s: string)
    requires '.' !in s && !Contains(s, "app_") && !Contains(s, "translations_")
    ensures FirstMatch(s, Patterns).None?
  {
    forall p: nat, pat | p <= |s| && pat in Patterns ensures MatchAt(s, p, pat).None? {
      if ExtensionAt(s, p + 2) { ExtensionNeedsDot(s, p + 2); }
      if ExtensionAt(s, p + 3) { ExtensionNeedsDot(s, p + 3); }
      if ExtensionAt(s, p + 4) { ExtensionNeedsDot(s, p + 4); }
      if pat.Infix? && OccursAt(s, pat.lead, p) {
        assert Contains(s, pat.lead);
      }
    }
    assert forall pat | pat in Patterns :: Search(s, pat).None?;
    FirstMatchNone(s, Patterns);
  }

  /** A stem ending in at least k lower-case letters has TrailingLowerCount >= k. */
  lemma {:induction false} TrailingLowerAtLeast(s: string, k: nat)
    requires k <= |s|
    requires forall i | |s| - k <= i < |s| :: IsLower(s[i])
    ensures TrailingLowerCount(s) >= k
    decreases k
  {
    if k > 0 {
      var init := s[..|s| - 1];
      assert forall i | |init| - (k - 1) <= i < |init| :: init[i] == s[i];
      TrailingLowerAtLeast(init, k - 1);
    }
  }

  /** `app_en.arb` gives `en` through the extension patterns, before the
      `app_` pattern is tried. */
  lemma ResolverExampleArb(f: string, stem: string)
    requires stem == "app_en"
    requires f == stem + ".arb"
    ensures ExtractLanguageFromFileName(f) == "en"
  {
    assert ToLower(f) == f;
    TrailingLowerExact(stem, 2);
    ExtensionRule(f, stem, ".arb", 2);
  }

  /** Three letters before `.json` already match the second pattern, so the
      underscore is never looked at for this name. */
  lemma ResolverExampleLongSuffix(f: string, stem: string)
    requires stem == "strings_sgsomething"
    requires f == stem + ".json"
    ensures ExtractLanguageFromFileName(f) == "ing"
  {
    assert ToLower(f) == f;
    TrailingLowerAtLeast(stem, 3);
    ExtensionRule(f, stem, ".json", 3);
  }

  /** Upper-case letters are lowered before the patterns are tried. */
  lemma ResolverExampleUpper(f: string)
    requires f == "App_DE.ARB"
    ensures ExtractLanguageFromFileName(f) == "de"
  {
    LowerAppDe(f);
    TrailingLowerExact("app_de", 2);
    ExtensionRule(f, "app_de", ".arb", 2);
  }

  lemma LowerAppDe(f: string)
    requires f == "App_DE.ARB"
    ensures ToLower(f) == "app_de" + ".arb"
  {
  }

  /** Without a `.` and without `_`: `unknown`. */
  lemma ResolverExampleUnknown(f: string)
    requires f == "README"
    ensures ExtractLanguageFromFileName(f) == "unknown"
  {
    LowerReadme(f);
    NothingMatchesWithout(ToLower(f), 'p', 'n');
  }

  lemma LowerReadme(f: string)
    requires f == "README"
    ensures ToLower(f) == "readme" && '_' !in f
  {
  }

  /** A name without a `.` that lacks a letter of `app_` and a letter of
      `translations_` matches no pattern. */
  lemma NothingMatchesWithout(l: string, a: char, t: char)
    requires '.' !in l && a in "app_" && a !in l && t in "translations_" && t !in l
    ensures FirstMatch(l, Patterns).None?
  {
    NotContainsMissingChar(l, "app_", a);
    NotContainsMissingChar(l, "translations_", t);
    NoPatternMatches(l);
  }

  /** Without a match the fallback keeps the original case. */
  lemma ResolverExampleFallback(f: string)
    requires f == "notes_FR"
    ensures ExtractLanguageFromFileName(f) == "FR"
  {
    LowerNotes(f);
    NothingMatchesWithout(ToLower(f), 'p', 'a');
    FallbackExample(f);
  }

  lemma LowerNotes(f: string)
    requires f == "notes_FR"
    ensures ToLower(f) == "notes_fr"
  {
  }

  lemma FallbackExample(f: string)
    requires f == "notes_FR"
    ensures Fallback(f) == "FR"
  {
    BeforeFirstUnique(f, '.', |f|);
    assert f[..|f|] == f;
    AfterLastUnique(f, '_', 5);
    assert f[6..] == "FR";
  }

  /** An `.arb`/`.json` ending is the last character of the name. */
  lemma ExtensionLastChar(s: string, e: nat)
    requires ExtensionAt(s, e)
    ensures s[|s| - 1] == 'b' || s[|s| - 1] == 'n'
  {
    var t := s[e..];
    assert t[|t| - 1] == s[|s| - 1];
  }

  /** A name made of `lead`, a two- or three-letter code, and a rest that
      does not start with a letter resolves to that code through the infix
      pattern of `lead`, when neither extension pattern matches it and, for
      `translations_`, no `app_` is followed by two letters. */
  lemma InfixAtStart(f: string, lead: string, code: string, rest: string)
    requires lead == "app_" || lead == "translations_"
    requires f == lead + code + rest && ToLower(f) == f
    requires 2 <= |code| <= 3 && forall i | 0 <= i < |code| :: IsLower(code[i])
    requires rest == [] || !IsLower(rest[0])
    requires Search(f, UnderscoreSuffix).None? && Search(f, Suffix).None?
    requires lead == "translations_" ==> !Contains(f, "app_")
    ensures ExtractLanguageFromFileName(f) == code
  {
    LeadCodeLayout(f, lead, code, rest);
    InfixRule(f, f, lead, 0, |code|);
  }

  /** Where `lead`, the code and the rest sit in `lead + code + rest`. */
  lemma LeadCodeLayout(f: string, lead: string, code: string, rest: string)
    requires f == lead + code + rest
    requires 2 <= |code| && forall i | 0 <= i < |code| :: IsLower(code[i])
    requires rest == [] || !IsLower(rest[0])
    ensures InfixAt(f, lead, 0) && LettersAt(f, |lead|, |code|)
    ensures |lead| + |code| == |f| || !IsLower(f[|lead| + |code|])
    ensures f[|lead|..|lead| + |code|] == code
  {
    var c := |lead|;
    assert f[..c] == lead && f[c..c + |code|] == code;
    assert forall i | c <= i < c + |code| :: f[i] == code[i - c];
    if rest != [] {
      assert f[c + |code|] == rest[0];
    }
  }

  /** A name whose last character is neither `b` nor `n` has no `.arb` or
      `.json` ending. */
  lemma NoExtensionEnding(s: string)
    requires s != [] && s[|s| - 1] != 'b' && s[|s| - 1] != 'n'
    ensures forall e: nat | e <= |s| :: !ExtensionAt(s, e)
  {
    forall e: nat | e <= |s| && ExtensionAt(s, e) ensures false {
      ExtensionLastChar(s, e);
    }
  }

  /** `app_fr_x.json`: a single letter before the extension defeats both
      extension patterns, so the `app_` pattern gives `fr`. */
  lemma ResolverExampleAppInfix(f: string, lead: string, code: string, rest: string)
    requires lead == "app_" && code == "fr" && rest == "_x.json" && f == lead + code + rest
    ensures ExtractLanguageFromFileName(f) == "fr"
  {
    AppInfixName(f, lead, code, rest);
    InfixAtStart(f, lead, code, rest);
  }

  lemma AppInfixName(f: string, lead: string, code: string, rest: string)
    requires lead == "app_" && code == "fr" && rest == "_x.json" && f == lead + code + rest
    ensures ToLower(f) == f && Search(f, UnderscoreSuffix).None? && Search(f, Suffix).None?
  {
    ToLowerUnchanged(lead);
    ToLowerUnchanged(code);
    ToLowerUnchanged(rest);
    ToLowerAppend(lead, code);
    ToLowerAppend(lead + code, rest);
    var stem := lead + code + "_x";
    assert f == stem + ".json";
    assert f[|stem| - 2] == '_';
    forall e | 2 <= e <= |f| && ExtensionAt(f, e) ensures !IsLower(f[e - 2]) {
      ExtensionOnlyAfterStem(f, stem, ".json", e);
    }
    ExtensionPatternsFail(f);
  }

  /** `translations_deu.txt`: no extension pattern applies and there is no
      `app_`, so the `translations_` pattern gives all three letters. */
  lemma ResolverExampleTranslationsInfix(f: string, lead: string, code: string, rest: string)
    requires lead == "translations_" && code == "deu" && rest == ".txt" && f == lead + code + rest
    ensures ExtractLanguageFromFileName(f) == "deu"
  {
    TranslationsInfixName(f, lead, code, rest);
    InfixAtStart(f, lead, code, rest);
  }

  lemma TranslationsInfixName(f: string, lead: string, code: string, rest: string)
    requires lead == "translations_" && code == "deu" && rest == ".txt" && f == lead + code + rest
    ensures ToLower(f) == f && Search(f, UnderscoreSuffix).None? && Search(f, Suffix).None?
    ensures !Contains(f, "app_")
  {
    ToLowerUnchanged(lead);
    ToLowerUnchanged(code);
    ToLowerUnchanged(rest);
    ToLowerAppend(lead, code);
    ToLowerAppend(lead + code, rest);
    assert f[|f| - 1] == rest[3];
    NoExtensionEnding(f);
    ExtensionPatternsFail(f);
    assert 'p' !in lead && 'p' !in code && 'p' !in rest;
    NotContainsMissingChar(f, "app_", 'p');
  }

  // ---------------------------------------------------------------- is_likely_translation_file

  const TranslationIndicators: seq<string> :=
    ["translation", "lang", "locale", "i18n", "l10n", "strings", "messages", "text", "labels"]

  /** `Path.name`: the last component of a normalised path. */
  function FileName(path: string): string
  {
    AfterLast(path, '/')
  }

  /** `is_likely_translation_file`: some indicator occurs in the lower-cased
      file name or in the lower-cased path. */
  predicate IsLikelyTranslationFile(path: string)
  {
    exists ind | ind in TranslationIndicators ::
      Contains(ToLower(FileName(path)), ind) || Contains(ToLower(path), ind)
  }

  lemma ContainsInSuffix(s: string, a: string, b: string, t: string)
    requires s == a + b && Contains(b, t)
    ensures Contains(s, t)
  {
    var i: nat :| i <= |b| && OccursAt(b, t, i);
    assert s[|a| + i..|a| + i + |t|] == b[i..i + |t|];
    assert OccursAt(s, t, |a| + i);
  }

  /** The file-name test adds nothing: the name is the end of the path, so
      the path test alone decides. */
  lemma TranslationFileByPathAlone(path: string)
    ensures IsLikelyTranslationFile(path)
        <==> exists ind | ind in TranslationIndicators :: Contains(ToLower(path), ind)
  {
    var name := FileName(path);
    var dir := path[..|path| - |name|];
    assert path == dir + name;
    ToLowerAppend(dir, name);
    forall ind | ind in TranslationIndicators && Contains(ToLower(name), ind)
      ensures Contains(ToLower(path), ind)
    {
      ContainsInSuffix(ToLower(path), ToLower(dir), ToLower(name), ind);
    }
  }
}
