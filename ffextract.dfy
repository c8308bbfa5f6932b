/**
  `extract_ff_translations.py`: reads the `languages()` list and the
  `kTranslationsMap` literal of FlutterFlow's `internationalization.dart`,
  and the integer views the script derives from the result (CSV rows, the
  Sango coverage split, per-language counts).

  The script's `translations` dictionary is a Python dict, so it has an
  order (first insertion of each key); it is modelled as the key order plus
  the table.  The `WARNING: Duplicate key found` lines are kept as the
  sequence of repeated keys.
*/
module FlutterFlowExtract {

  import opened Wrappers
  import opened Text
  import opened Dicts
  import opened Scanners
  import opened TranslationTable

  // ---------------------------------------------------------------- extract_languages

  /** `extract_languages`: the quoted codes of the first single-line
      `static List<String> languages() => [...];`, or none. */
  function ExtractLanguages(content: string): (codes: seq<string>)
    ensures FindSpan(content, LanguagesList).None? ==> codes == []
    ensures forall i | 0 <= i < |codes| :: codes[i] != [] && QuoteFree(codes[i], false)
  {
    match FindSpan(content, LanguagesList)
    case None => []
    case Some(list) => FindCodes(list)
  }

  // ---------------------------------------------------------------- the kTranslationsMap entries

  /** The language map of one entry block: its `'lang': 'text'` pairs, a
      later pair for the same language replacing an earlier one. */
  function LangMap(block: string): Entry
  {
    FromPairs(FindAll(block, FlutterFlowDialect, Quoted))
  }

  /** The `'key': {block}` entries of the sections, in order; blank sections
      are skipped. */
  function SectionEntries(sections: seq<string>): seq<(string, string)>
    decreases |sections|
  {
    if sections == [] then []
    else
      var last := sections[|sections| - 1];
      SectionEntries(sections[..|sections| - 1])
        + (if HasContent(last) then FindAll(last, FlutterFlowDialect, Braced) else [])
  }

  /** Every entry of the list body, section by section. */
  function ListEntries(listContent: string): seq<(string, string)>
  {
    SectionEntries(SplitSections(listContent))
  }

  /** The state of the script's loop: the dictionary (its key order and its
      table) and the keys reported as duplicates. */
  datatype Parsed = Parsed(keys: seq<string>, translations: Table, duplicates: seq<string>)

  const NothingParsed := Parsed([], map[], [])

  /** One entry: a key already present is reported and its map is replaced
      by the new block's map; a new key is appended to the order. */
  function Step(p: Parsed, key: string, block: string): Parsed
  {
    if key in p.translations then
      Parsed(p.keys, p.translations[key := LangMap(block)], p.duplicates + [key])
    else
      Parsed(p.keys + [key], p.translations[key := LangMap(block)], p.duplicates)
  }

  /** The entries read one after another from `p`. */
  function ParseFrom(p: Parsed, es: seq<(string, string)>): Parsed
    decreases |es|
  {
    if es == [] then p
    else
      var e := es[|es| - 1];
      Step(ParseFrom(p, es[..|es| - 1]), e.0, e.1)
  }

  function Parse(es: seq<(string, string)>): Parsed
  {
    ParseFrom(NothingParsed, es)
  }

  lemma {:induction false} ParseFromAppend(p: Parsed, a: seq<(string, string)>, b: seq<(string, string)>)
    ensures ParseFrom(p, a + b) == ParseFrom(ParseFrom(p, a), b)
    decreases |b|
  {
    if b == [] {
      assert a + b == a;
    } else {
      assert (a + b)[..|a + b| - 1] == a + b[..|b| - 1];
      ParseFromAppend(p, a, b[..|b| - 1]);
    }
  }

  lemma ParseFromStep(p: Parsed, es: seq<(string, string)>, j: nat)
    requires j < |es|
    ensures ParseFrom(p, es[..j + 1]) == Step(ParseFrom(p, es[..j]), es[j].0, es[j].1)
  {
    assert es[..j + 1][..j] == es[..j];
  }

  lemma SectionStep(sections: seq<string>, i: nat)
    requires i < |sections|
    ensures Parse(SectionEntries(sections[..i + 1])) ==
      if HasContent(sections[i])
      then ParseFrom(Parse(SectionEntries(sections[..i])), FindAll(sections[i], FlutterFlowDialect, Braced))
      else Parse(SectionEntries(sections[..i]))
  {
    var init := sections[..i + 1];
    assert init[..|init| - 1] == sections[..i];
    var before := SectionEntries(sections[..i]);
    if HasContent(sections[i]) {
      ParseFromAppend(NothingParsed, before, FindAll(sections[i], FlutterFlowDialect, Braced));
    } else {
      assert before + [] == before;
    }
  }

  // ---------------------------------------------------------------- extract_translations_map

  /** `extract_translations_map`: locate the list literal, split it into
      sections at `// Title` lines, and read each section's entries. */
  method ExtractTranslationsMap(content: string) returns (r: Parsed)
    ensures FindSpan(content, TranslationsList).None? ==> r == NothingParsed
    ensures FindSpan(content, TranslationsList).Some? ==> r == Parse(ListEntries(FindSpan(content, TranslationsList).value))
  {
    r := NothingParsed;
    var found := FindSpan(content, TranslationsList);
    if found.None? {
      return;
    }
    var sections := SplitSections(found.value);
    var i := 0;
    while i < |sections|
      invariant 0 <= i <= |sections|
      invariant r == Parse(SectionEntries(sections[..i]))
    {
      SectionStep(sections, i);
      if HasContent(sections[i]) {
        r := ReadSection(r, sections[i]);
      }
      i := i + 1;
    }
    assert sections[..i] == sections;
  }

  /** The loop over one section's `'key': {block}` matches. */
  method ReadSection(p: Parsed, section: string) returns (q: Parsed)
    ensures q == ParseFrom(p, FindAll(section, FlutterFlowDialect, Braced))
  {
    var entries := FindAll(section, FlutterFlowDialect, Braced);
    q := p;
    var j := 0;
    while j < |entries|
      invariant 0 <= j <= |entries|
      invariant q == ParseFrom(p, entries[..j])
    {
      ParseFromStep(p, entries, j);
      q := ReadEntry(q, entries[j].0, entries[j].1);
      j := j + 1;
    }
    assert entries[..j] == entries;
  }

  /** One entry: report a repeated key, reset its map to `{}`, then write
      each `'lang': 'text'` pair of the block into it. */
  method ReadEntry(p: Parsed, key: string, block: string) returns (q: Parsed)
    ensures q == Step(p, key, block)
  {
    if key in p.translations {
      q := p.(duplicates := p.duplicates + [key]);
    } else {
      q := p.(keys := p.keys + [key]);
    }
    var t := ReadLanguages(q.translations, key, block);
    q := q.(translations := t);
  }

  /** `translations[key] = {}`, then the loop over the block's
      `'lang': 'text'` matches writing into that map. */
  method ReadLanguages(t: Table, key: string, block: string) returns (r: Table)
    ensures r == t[key := LangMap(block)]
  {
    r := t[key := map[]];
    var langTranslations := FindAll(block, FlutterFlowDialect, Quoted);
    var l := 0;
    while l < |langTranslations|
      invariant 0 <= l <= |langTranslations|
      invariant r == t[key := FromPairs(langTranslations[..l])]
    {
      var (lang, text) := langTranslations[l];
      assert langTranslations[..l + 1][..l] == langTranslations[..l];
      r := r[key := r[key][lang := text]];
      l := l + 1;
    }
    assert langTranslations[..l] == langTranslations;
  }

  // ---------------------------------------------------------------- what the parse yields

  /** A Python dict seen as its iteration order and its table: the order
      lists each key of the table exactly once. */
  predicate DictView(keys: seq<string>, t: Table)
  {
    && (forall i, j | 0 <= i < j < |keys| :: keys[i] != keys[j])
    && (forall k | k in t :: k in keys)
    && (forall i | 0 <= i < |keys| :: keys[i] in t)
  }

  /** The order lists every key once, and each entry either adds a key or is
      reported as a duplicate. */
  lemma {:induction false} ParseShape(es: seq<(string, string)>)
    ensures DictView(Parse(es).keys, Parse(es).translations)
    ensures |Parse(es).keys| + |Parse(es).duplicates| == |es|
    decreases |es|
  {
    if es != [] {
      ParseShape(es[..|es| - 1]);
    }
  }

  /** The keys are exactly the keys of the entries. */
  lemma {:induction false} ParseKeys(es: seq<(string, string)>, k: string)
    ensures k in Parse(es).translations <==> exists i | 0 <= i < |es| :: es[i].0 == k
    decreases |es|
  {
    if es != [] {
      var init := es[..|es| - 1];
      ParseKeys(init, k);
      if k != es[|es| - 1].0 && k in Parse(es).translations {
        var i :| 0 <= i < |init| && init[i].0 == k;
        assert es[i].0 == k;
      }
      if k != es[|es| - 1].0 && exists i | 0 <= i < |es| :: es[i].0 == k {
        var i :| 0 <= i < |es| && es[i].0 == k;
        assert init[i].0 == k;
      }
    }
  }

  /** A repeated key is replaced, not merged: its languages are exactly those
      of its last block. */
  lemma {:induction false} ParseLastWins(es: seq<(string, string)>, k: string, i: int)
    requires IsLastWith(es, k, i)
    ensures k in Parse(es).translations && Parse(es).translations[k] == LangMap(es[i].1)
    decreases |es|
  {
    if i < |es| - 1 {
      ParseLastWins(es[..|es| - 1], k, i);
    }
  }

  /** Some entry carries the key `k`. */
  predicate SomeWith(es: seq<(string, string)>, k: string)
  {
    exists i | 0 <= i < |es| :: es[i].0 == k
  }

  /** Two entries carry the key `k`. */
  predicate TwoWith(es: seq<(string, string)>, k: string)
  {
    exists i, j | 0 <= i < j < |es| :: es[i].0 == k && es[j].0 == k
  }

  lemma TwoWithLast(es: seq<(string, string)>, k: string)
    requires es != []
    ensures TwoWith(es, k) <==> TwoWith(es[..|es| - 1], k) || (es[|es| - 1].0 == k && SomeWith(es[..|es| - 1], k))
  {
    var init, n := es[..|es| - 1], |es| - 1;
    if TwoWith(es, k) {
      var i, j :| 0 <= i < j < |es| && es[i].0 == k && es[j].0 == k;
      if j < n {
        assert init[i].0 == k && init[j].0 == k;
      } else {
        assert init[i].0 == k;
      }
    }
    if TwoWith(init, k) {
      var i, j :| 0 <= i < j < |init| && init[i].0 == k && init[j].0 == k;
      assert es[i].0 == k && es[j].0 == k;
    }
    if es[n].0 == k && SomeWith(init, k) {
      var i :| 0 <= i < |init| && init[i].0 == k;
      assert es[i].0 == k && es[n].0 == k;
    }
  }

  /** A key is reported as a duplicate exactly when two entries carry it. */
  lemma {:induction false} ParseDuplicates(es: seq<(string, string)>, k: string)
    ensures k in Parse(es).duplicates <==>
      exists i, j | 0 <= i < j < |es| :: es[i].0 == k && es[j].0 == k
    decreases |es|
  {
    if es != [] {
      var init := es[..|es| - 1];
      ParseDuplicates(init, k);
      ParseKeys(init, k);
      TwoWithLast(es, k);
      assert k in Parse(es).duplicates <==>
        k in Parse(init).duplicates || (es[|es| - 1].0 == k && k in Parse(init).translations);
    }
  }

  // ---------------------------------------------------------------- blocks and entries as the Dart file writes them

  /** A block of `'lang': 'text'` pairs reads back as those pairs, a later
      pair for a language replacing an earlier one; empty texts are kept. */
  lemma LangMapRendered(pairs: seq<(string, string)>, l: string)
    requires Renderable(Quoted, pairs)
    ensures LangMap(Render(Quoted, pairs)) == FromPairs(pairs)
    ensures l in LangMap(Render(Quoted, pairs)) <==> exists i | 0 <= i < |pairs| :: pairs[i].0 == l
    ensures forall i | IsLastWith(pairs, l, i) :: LangMap(Render(Quoted, pairs))[l] == pairs[i].1
  {
    FindAllRender(FlutterFlowDialect, Quoted, pairs);
    forall i | IsLastWith(pairs, l, i) ensures FromPairs(pairs)[l] == pairs[i].1 {
      FromPairsLastWins(pairs, l, i);
    }
  }

  /** `'k': { }` is an entry with no languages: the whitespace block holds
      no pair. */
  lemma BlankBlockKept(k: string, blank: string)
    requires k != [] && QuoteFree(k, true)
    requires blank == " "
    ensures FindAll("'" + k + "': {" + blank + "}", FlutterFlowDialect, Braced) == [(k, blank)]
    ensures LangMap(blank) == map[]
  {
    assert Render(Braced, [(k, blank)]) == "'" + k + "': {" + blank + "}";
    FindAllRender(FlutterFlowDialect, Braced, [(k, blank)]);
    FindAllBlank(blank, FlutterFlowDialect, Quoted);
  }

  /** `'k': {}` is no entry at all: the block pattern needs at least one
      character between the braces. */
  lemma EmptyBlockSkipped(k: string, braces: string)
    requires k != [] && QuoteFree(k, true)
    requires braces == "{}"
    ensures FindAll("'" + k + "': " + braces, FlutterFlowDialect, Braced) == []
  {
    var s := "'" + k + "': " + braces;
    var r := "': " + braces;
    NoHitOnEmptyBlock(k, braces);
    assert s[1..] == k + r;
    FindAllSkipsQuoteFree(k, r, FlutterFlowDialect, Braced);
    NothingAfterKey(r);
  }

  /** No match starts at the key's opening quote: the braces are empty. */
  lemma NoHitOnEmptyBlock(k: string, braces: string)
    requires k != [] && QuoteFree(k, true)
    requires braces == "{}"
    ensures HitAt("'" + k + "': " + braces, FlutterFlowDialect, Braced).None?
  {
    KeyColonRender(FlutterFlowDialect, k, braces);
    SplitAfterKey(k, braces);
    RunLengthExact(braces, 1, 0, NonCloseBrace);
  }

  /** What follows the key, `': {}`, holds no match. */
  lemma NothingAfterKey(r: string)
    requires r == "': {}"
    ensures FindAll(r, FlutterFlowDialect, Braced) == []
  {
    RunLengthExact(r, 1, 4, NonQuote(false));
    assert HitAt(r, FlutterFlowDialect, Braced).None?;
    assert r[1..] == r[1..] + "";
    FindAllSkipsQuoteFree(r[1..], "", FlutterFlowDialect, Braced);
  }

  /** Two sections of rendered entries around a `// Title` line: the title
      line is dropped and the entries of both sections are read in order. */
  lemma ListOfTwoSections(ea: seq<(string, string)>, title: string, eb: seq<(string, string)>)
    requires ea != [] && eb != [] && IsTitle(title)
    requires Renderable(Braced, ea) && Renderable(Braced, eb)
    requires forall i | 0 <= i < |ea| :: '/' !in ea[i].0 && '/' !in ea[i].1
    requires forall i | 0 <= i < |eb| :: '/' !in eb[i].0 && '/' !in eb[i].1
    ensures ListEntries(Render(Braced, ea) + SeparatorLine(title) + Render(Braced, eb)) == ea + eb
  {
    var a := Render(Braced, ea);
    var b := Render(Braced, eb);
    assert SplitSections(a + SeparatorLine(title) + b) == [a, b] by {
      RenderAvoids(Braced, ea, '/');
      RenderAvoids(Braced, eb, '/');
      RenderEnds(Braced, ea);
      RenderEnds(Braced, eb);
      SplitSectionsAtLine(a, title, b);
    }
    assert HasContent(a) && HasContent(b) by {
      RenderEnds(Braced, ea);
      RenderEnds(Braced, eb);
      HasContentIff(a);
      HasContentIff(b);
    }
    TwoSectionEntries(a, b);
    FindAllRender(FlutterFlowDialect, Braced, ea);
    FindAllRender(FlutterFlowDialect, Braced, eb);
  }

  lemma TwoSectionEntries(a: string, b: string)
    requires HasContent(a) && HasContent(b)
    ensures SectionEntries([a, b]) == FindAll(a, FlutterFlowDialect, Braced) + FindAll(b, FlutterFlowDialect, Braced)
  {
    var secs := [a, b];
    assert secs[..1] == [a] && secs[..1][..0] == [];
    var fa := FindAll(a, FlutterFlowDialect, Braced);
    var fb := FindAll(b, FlutterFlowDialect, Braced);
    assert SectionEntries([a]) == [] + fa;
    assert SectionEntries(secs) == SectionEntries([a]) + fb;
    assert [] + fa == fa;
  }

  /** A key read twice: listed once, reported once, the second block wins. */
  lemma ParseTwice(k: string, a: string, b: string)
    ensures Parse([(k, a), (k, b)]) == Parsed([k], map[k := LangMap(b)], [k])
  {
    var es := [(k, a), (k, b)];
    assert es[..1] == [(k, a)] && es[..1][..0] == [];
    var once := ParseFrom(NothingParsed, es[..1]);
    ParseFromStep(NothingParsed, es, 0);
    assert es[..0] == [];
    assert once == Step(NothingParsed, k, a);
    assert once == Parsed([k], map[k := LangMap(a)], []);
    assert Parse(es) == Step(once, k, b);
    assert map[k := LangMap(a)][k := LangMap(b)] == map[k := LangMap(b)];
  }

  /** The same key in two sections: it is listed once, reported once as a
      duplicate, and keeps only the languages of the second block. */
  lemma RepeatedKeyAcrossSections(k: string, title: string, first: seq<(string, string)>, second: seq<(string, string)>)
    requires k != [] && QuoteFree(k, true) && '/' !in k && IsTitle(title)
    requires first != [] && second != []
    requires Renderable(Quoted, first) && Renderable(Quoted, second)
    requires forall i | 0 <= i < |first| :: '/' !in first[i].0 && '/' !in first[i].1 && '}' !in first[i].0 && '}' !in first[i].1
    requires forall i | 0 <= i < |second| :: '/' !in second[i].0 && '/' !in second[i].1 && '}' !in second[i].0 && '}' !in second[i].1
    ensures var list := Render(Braced, [(k, Render(Quoted, first))]) + SeparatorLine(title)
                        + Render(Braced, [(k, Render(Quoted, second))]);
      Parse(ListEntries(list)) == Parsed([k], map[k := FromPairs(second)], [k])
  {
    var a := Render(Quoted, first);
    var b := Render(Quoted, second);
    assert Renderable(Braced, [(k, a)]) && '/' !in a by {
      RenderEnds(Quoted, first);
      RenderAvoids(Quoted, first, '/');
      RenderAvoids(Quoted, first, '}');
    }
    assert Renderable(Braced, [(k, b)]) && '/' !in b by {
      RenderEnds(Quoted, second);
      RenderAvoids(Quoted, second, '/');
      RenderAvoids(Quoted, second, '}');
    }
    ListOfTwoSections([(k, a)], title, [(k, b)]);
    assert [(k, a)] + [(k, b)] == [(k, a), (k, b)];
    ParseTwice(k, a, b);
    LangMapRendered(second, k);
  }

  /** `'greeting'` declared in two sections, the second time as
      `{'en': 'Hi', 'fr': ''}`: the empty French text is kept and nothing of
      the first declaration survives. */
  lemma GreetingDeclaredTwice(k: string, title: string, first: seq<(string, string)>, second: seq<(string, string)>)
    requires k == "greeting" && title == "About"
    requires first == [("en", "Hello"), ("fr", "Bonjour")] && second == [("en", "Hi"), ("fr", "")]
    ensures var list := Render(Braced, [(k, Render(Quoted, first))]) + SeparatorLine(title)
                        + Render(Braced, [(k, Render(Quoted, second))]);
      Parse(ListEntries(list)) == Parsed([k], map[k := map["en" := "Hi", "fr" := ""]], [k])
  {
    assert FromPairs(second) == map["en" := "Hi", "fr" := ""] by {
      assert second[..1] == [("en", "Hi")] && second[..1][..0] == [];
    }
    RepeatedKeyAcrossSections(k, title, first, second);
  }

  // ---------------------------------------------------------------- the languages() list as the Dart file writes it

  /** A `languages()` list written out with its codes (none holding a quote,
      `]` or a newline), with no earlier `languages()` marker, reads back as
      its codes in order, repeated codes included. */
  lemma ExtractLanguagesRendered(before: string, codes: seq<string>, after: string)
    requires forall i | 0 <= i < |codes| ::
      codes[i] != [] && QuoteFree(codes[i], false) && ']' !in codes[i] && '\n' !in codes[i]
    requires forall q | 0 <= q < |before| ::
      !OccursAt(before + LanguagesList.open + RenderCodes(codes) + LanguagesList.close + after, LanguagesList.open, q)
    ensures ExtractLanguages(before + LanguagesList.open + RenderCodes(codes) + LanguagesList.close + after) == codes
  {
    RenderCodesAvoids(codes, ']');
    RenderCodesAvoids(codes, '\n');
    FindSpanOf(before, LanguagesList, RenderCodes(codes), after);
    FindCodesRender(codes);
  }

  // ---------------------------------------------------------------- extract_flutterflow_translations

  /** The result dictionary: the languages and the parsed map (the source
      path it also records is left out). */
  datatype FlutterFlowData = FlutterFlowData(languages: seq<string>, parsed: Parsed)

  /** `extract_flutterflow_translations`, with the file's text passed in;
      `None` stands for a missing `internationalization.dart`. */
  method ExtractFlutterFlowTranslations(file: Option<string>) returns (r: Option<FlutterFlowData>)
    ensures file.None? <==> r.None?
    ensures file.Some? ==> r.value.languages == ExtractLanguages(file.value)
    ensures file.Some? ==> r.value.parsed == match FindSpan(file.value, TranslationsList)
      case None => NothingParsed
      case Some(list) => Parse(ListEntries(list))
  {
    if file.None? {
      return None;
    }
    var languages := ExtractLanguages(file.value);
    var parsed := ExtractTranslationsMap(file.value);
    r := Some(FlutterFlowData(languages, parsed));
  }

  // ---------------------------------------------------------------- projections of the finished table

  /** `lang_dict.get(lang, '')` */
  function Get(entry: Entry, lang: string): string
  {
    if lang in entry then entry[lang] else ""
  }

  /** An `export_to_csv` row: the key, then one cell per language in the
      order of `languages`, `''` where the key has no text. */
  function CsvRow(key: string, entry: Entry, languages: seq<string>): (row: seq<string>)
    ensures |row| == 1 + |languages| && row[0] == key
    ensures forall i | 0 <= i < |languages| ::
      (languages[i] in entry ==> row[i + 1] == entry[languages[i]])
      && (languages[i] !in entry ==> row[i + 1] == "")
    decreases |languages|
  {
    if languages == [] then [key]
    else
      var row := CsvRow(key, entry, languages[..|languages| - 1]);
      row + [Get(entry, languages[|languages| - 1])]
  }

  /** The header row: `Translation Key`, then the upper-cased codes. */
  function CsvHeader(languages: seq<string>): (header: seq<string>)
    ensures |header| == 1 + |languages| && header[0] == "Translation Key"
    ensures forall i | 0 <= i < |languages| :: header[i + 1] == ToUpper(languages[i])
    decreases |languages|
  {
    if languages == [] then ["Translation Key"]
    else CsvHeader(languages[..|languages| - 1]) + [ToUpper(languages[|languages| - 1])]
  }

  /** The rows `export_to_csv` writes, in key order; nothing at all when the
      table is empty. */
  function CsvRows(languages: seq<string>, keys: seq<string>, t: Table): (rows: Option<seq<seq<string>>>)
    ensures rows.None? <==> |t| == 0
    ensures rows.Some? ==> |rows.value| == 1 + |keys| && rows.value[0] == CsvHeader(languages)
    ensures rows.Some? ==> forall i | 0 <= i < |keys| :: rows.value[i + 1] == CsvRow(keys[i], Row(t, keys[i]), languages)
  {
    if |t| == 0 then None
    else Some([CsvHeader(languages)] + seq(|keys|, i requires 0 <= i < |keys| => CsvRow(keys[i], Row(t, keys[i]), languages)))
  }

  /** `trans.get(lang, '').strip()` is non-empty. */
  predicate Translated(t: Table, key: string, lang: string)
  {
    HasContent(Get(Row(t, key), lang))
  }

  /** `sum(1 for trans in translations.values() if trans.get(lang, '').strip())`,
      the values taken in the dict's order. */
  function NonEmptyCount(lang: string, keys: seq<string>, t: Table): (n: nat)
    ensures n <= |keys|
    decreases |keys|
  {
    if keys == [] then 0
    else NonEmptyCount(lang, keys[..|keys| - 1], t) + (if Translated(t, keys[|keys| - 1], lang) then 1 else 0)
  }

  /** The keys with a text in `lang`, with that text (`existing_sango`). */
  function Filled(lang: string, keys: seq<string>, t: Table): seq<(string, string)>
    decreases |keys|
  {
    if keys == [] then []
    else
      var k := keys[|keys| - 1];
      Filled(lang, keys[..|keys| - 1], t) + (if Translated(t, k, lang) then [(k, Get(Row(t, k), lang))] else [])
  }

  /** The keys without a text in `lang` (`missing_sango`). */
  function Unfilled(lang: string, keys: seq<string>, t: Table): seq<string>
    decreases |keys|
  {
    if keys == [] then []
    else
      var k := keys[|keys| - 1];
      Unfilled(lang, keys[..|keys| - 1], t) + (if Translated(t, k, lang) then [] else [k])
  }

  /** Every key lands on exactly one side, and the count is the filled side. */
  lemma {:induction false} FilledPartition(lang: string, keys: seq<string>, t: Table)
    ensures |Filled(lang, keys, t)| == NonEmptyCount(lang, keys, t)
    ensures |Filled(lang, keys, t)| + |Unfilled(lang, keys, t)| == |keys|
    decreases |keys|
  {
    if keys != [] {
      FilledPartition(lang, keys[..|keys| - 1], t);
    }
  }

  /** A key is missing exactly when it is listed and has no text; a pair is
      existing exactly when its key is listed and the text is the key's. */
  lemma {:induction false} FilledMembers(lang: string, keys: seq<string>, t: Table, k: string, v: string)
    ensures k in Unfilled(lang, keys, t) <==> k in keys && !Translated(t, k, lang)
    ensures (k, v) in Filled(lang, keys, t) <==> k in keys && Translated(t, k, lang) && v == Get(Row(t, k), lang)
    decreases |keys|
  {
    if keys != [] {
      var init := keys[..|keys| - 1];
      FilledMembers(lang, init, t, k, v);
      assert keys == init + [keys[|keys| - 1]];
    }
  }

  /** A dict view lists as many keys as the table has. */
  lemma {:induction false} DictViewSize(keys: seq<string>, t: Table)
    requires DictView(keys, t)
    ensures |keys| == |t|
    decreases |keys|
  {
    if keys == [] {
      assert t.Keys == {};
    } else {
      var last := keys[|keys| - 1];
      var rest := t - {last};
      DictViewSize(keys[..|keys| - 1], rest);
      assert t.Keys == rest.Keys + {last};
    }
  }

  /** Each per-language count is at most the number of keys in the table. */
  lemma NonEmptyCountBound(lang: string, keys: seq<string>, t: Table)
    requires DictView(keys, t)
    ensures NonEmptyCount(lang, keys, t) <= |t|
  {
    DictViewSize(keys, t);
  }

  /** What `analyze_sango_coverage` finds. */
  datatype Coverage = Coverage(totalKeys: nat, translated: nat, missing: seq<string>, existing: seq<(string, string)>)

  /** `analyze_sango_coverage`: nothing for an empty table or when `sg` is not
      a language; otherwise one pass over the keys in order, counting the keys
      with a Sango text and listing the others. */
  method AnalyzeSangoCoverage(languages: seq<string>, keys: seq<string>, translations: Table) returns (r: Option<Coverage>)
    requires DictView(keys, translations)
    ensures r.None? <==> |translations| == 0 || "sg" !in languages
    ensures r.Some? ==> r.value.totalKeys == |translations|
    ensures r.Some? ==> r.value.translated == NonEmptyCount("sg", keys, translations)
    ensures r.Some? ==> r.value.missing == Unfilled("sg", keys, translations)
    ensures r.Some? ==> r.value.existing == Filled("sg", keys, translations)
    ensures r.Some? ==> r.value.translated + |r.value.missing| == r.value.totalKeys
  {
    if |translations| == 0 || "sg" !in languages {
      return None;
    }
    var totalKeys := |translations|;
    var sangoTranslated, missing, existing := ScanLanguage("sg", keys, translations);
    FilledPartition("sg", keys, translations);
    DictViewSize(keys, translations);
    r := Some(Coverage(totalKeys, sangoTranslated, missing, existing));
  }

  /** The loop of `analyze_sango_coverage` over the keys in order: count the
      keys with a text in `lang`, list them with that text, list the others. */
  method ScanLanguage(lang: string, keys: seq<string>, translations: Table)
    returns (translated: nat, missing: seq<string>, existing: seq<(string, string)>)
    requires forall i | 0 <= i < |keys| :: keys[i] in translations
    ensures translated == NonEmptyCount(lang, keys, translations)
    ensures missing == Unfilled(lang, keys, translations)
    ensures existing == Filled(lang, keys, translations)
  {
    translated, missing, existing := 0, [], [];
    var i := 0;
    while i < |keys|
      invariant 0 <= i <= |keys|
      invariant translated == NonEmptyCount(lang, keys[..i], translations)
      invariant missing == Unfilled(lang, keys[..i], translations)
      invariant existing == Filled(lang, keys[..i], translations)
    {
      var key := keys[i];
      assert keys[..i + 1][..i] == keys[..i];
      var text := Get(translations[key], lang);
      if HasContent(text) {
        translated := translated + 1;
        existing := existing + [(key, text)];
      } else {
        missing := missing + [key];
      }
      i := i + 1;
    }
    assert keys[..i] == keys;
  }

  /** The statistics of `group_translations_by_page`: nothing for an empty
      table; otherwise, for every language, how many keys have a non-empty
      text in it. */
  method LanguageStats(languages: seq<string>, keys: seq<string>, translations: Table)
    returns (r: Option<map<string, nat>>)
    requires DictView(keys, translations)
    ensures r.None? <==> |translations| == 0
    ensures r.Some? ==> forall l :: l in r.value <==> l in languages
    ensures r.Some? ==> forall l | l in r.value ::
      r.value[l] == NonEmptyCount(l, keys, translations) && r.value[l] <= |translations|
  {
    if |translations| == 0 {
      return None;
    }
    var stats := map[];
    var i := 0;
    while i < |languages|
      invariant 0 <= i <= |languages|
      invariant forall l :: l in stats <==> l in languages[..i]
      invariant forall l | l in stats :: stats[l] == NonEmptyCount(l, keys, translations) && stats[l] <= |translations|
    {
      var lang := languages[i];
      NonEmptyCountBound(lang, keys, translations);
      stats := stats[lang := NonEmptyCount(lang, keys, translations)];
      assert languages[..i + 1] == languages[..i] + [lang];
      i := i + 1;
    }
    assert languages[..i] == languages;
    r := Some(stats);
  }
}
