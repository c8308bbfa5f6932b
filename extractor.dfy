/**
  `FlutterFlowTranslationExtractor` of `test.py`: three fields updated in
  place by the ingestion loops.  File discovery and reading are outside the
  model: each ingestion step receives what the script has after `json.load`
  or after its regular expressions ran (the parsed value, the candidate
  strings, the text of a Dart map literal) together with the file name.
*/
module Extractor {

  import opened Dicts
  import opened Text
  import opened JsonFlatten
  import opened LanguageCode
  import opened Classifier
  import opened Scanners
  import opened TranslationTable

  // ---------------------------------------------------------------- what one file contributes

  /** `key.startswith('@')`: ARB metadata entries. */
  predicate IsMetadataKey(key: string)
  {
    |key| > 0 && key[0] == '@'
  }

  /** The members the ARB loop writes: not metadata, and a string value. */
  predicate IsArbText(m: (string, Json))
  {
    !IsMetadataKey(m.0) && m.1.JStr?
  }

  /** The (key, text) writes of the ARB loop, in order. */
  function ArbWrites(ms: seq<(string, Json)>): (ws: seq<(string, string)>)
    ensures forall i | 0 <= i < |ws| :: !IsMetadataKey(ws[i].0) && (ws[i].0, JStr(ws[i].1)) in ms
    decreases |ms|
  {
    if ms == [] then []
    else
      var m := ms[|ms| - 1];
      ArbWrites(ms[..|ms| - 1]) + (if IsArbText(m) then [(m.0, m.1.s)] else [])
  }

  /** The column an ARB file writes; a value that is not an object writes
      nothing (the script fails on `data.items()` after recording the language). */
  function ArbColumn(data: Json): map<string, string>
  {
    if data.JObj? then FromPairs(ArbWrites(data.members)) else map[]
  }

  /** The column a JSON file writes: the flattened paths whose leaf is a
      string with some non-whitespace character. */
  function JsonColumn(data: Json): (col: map<string, string>)
    ensures forall k | k in col :: HasContent(col[k])
  {
    TextColumn(Flatten(data, "", "."))
  }

  /** `isinstance(value, str) and value.strip()` over a flattened dictionary. */
  function TextColumn(flat: map<string, Json>): (col: map<string, string>)
    ensures forall k | k in col :: HasContent(col[k])
  {
    map k | k in flat && flat[k].JStr? && HasContent(flat[k].s) :: flat[k].s
  }

  /** The Dart candidates the classifier accepts. */
  function Accepted(candidates: seq<string>): (keys: set<string>)
    ensures forall k | k in keys :: IsLikelyTranslatable(k)
  {
    set c | c in candidates && IsLikelyTranslatable(c)
  }

  /** `re.findall(entry_pattern, map_content)` of `parse_dart_translation_map`. */
  function DartEntries(mapContent: string): seq<(string, string)>
  {
    FindAll(mapContent, GeneralDialect, Braced)
  }

  /** `re.findall(lang_pattern, translations_str)` */
  function DartPairs(block: string): seq<(string, string)>
  {
    FindAll(block, GeneralDialect, Quoted)
  }

  /** The table after merging entries one after another. */
  function MergeEntries(t: Table, es: seq<(string, string)>): Table
    decreases |es|
  {
    if es == [] then t
    else
      var e := es[|es| - 1];
      MergeRow(MergeEntries(t, es[..|es| - 1]), e.0, DartPairs(e.1))
  }

  /** Merging creates an entry for every entry's key, and no other. */
  lemma {:induction false} MergeEntriesKeys(t: Table, es: seq<(string, string)>)
    ensures MergeEntries(t, es).Keys == t.Keys + FromPairs(es).Keys
    decreases |es|
  {
    if es != [] {
      MergeEntriesKeys(t, es[..|es| - 1]);
    }
  }

  /** The languages named by the entries. */
  function EntryLanguages(es: seq<(string, string)>): set<string>
    decreases |es|
  {
    if es == [] then {}
    else EntryLanguages(es[..|es| - 1]) + FromPairs(DartPairs(es[|es| - 1].1)).Keys
  }

  lemma AcceptedStep(cs: seq<string>, i: nat)
    requires i < |cs|
    ensures Accepted(cs[..i + 1]) == Accepted(cs[..i]) + (if IsLikelyTranslatable(cs[i]) then {cs[i]} else {})
  {
    assert cs[..i + 1] == cs[..i] + [cs[i]];
  }

  // ---------------------------------------------------------------- what the columns hold

  /** A key is written by an ARB file exactly when it is not metadata and
      some member with that key has a string value. */
  lemma {:induction false} ArbColumnKeys(ms: seq<(string, Json)>, k: string)
    ensures k in ArbColumn(JObj(ms)) <==>
      !IsMetadataKey(k) && exists i | 0 <= i < |ms| :: ms[i].0 == k && ms[i].1.JStr?
    decreases |ms|
  {
    if ms != [] {
      var init := ms[..|ms| - 1];
      ArbColumnKeys(init, k);
      ArbWritesStep(ms, |ms| - 1);
      assert ms[..|ms| - 1 + 1] == ms && ms[..|ms| - 1] == init;
      if exists i | 0 <= i < |ms| :: ms[i].0 == k && ms[i].1.JStr? {
        var i :| 0 <= i < |ms| && ms[i].0 == k && ms[i].1.JStr?;
        if i < |ms| - 1 {
          assert init[i] == ms[i];
        }
      }
    }
  }

  /** The text kept for a key is that of its last string member: a later
      file entry overwrites an earlier one, and non-string members are
      skipped rather than written. */
  lemma {:induction false} ArbColumnLastWins(ms: seq<(string, Json)>, i: nat)
    requires i < |ms| && IsArbText(ms[i])
    requires forall j | i < j < |ms| :: !(ms[j].0 == ms[i].0 && ms[j].1.JStr?)
    ensures ms[i].0 in ArbColumn(JObj(ms)) && ArbColumn(JObj(ms))[ms[i].0] == ms[i].1.s
    decreases |ms|
  {
    var init := ms[..|ms| - 1];
    ArbWritesStep(ms, |ms| - 1);
    assert ms[..|ms| - 1 + 1] == ms && ms[..|ms| - 1] == init;
    if i < |ms| - 1 {
      ArbColumnLastWins(init, i);
    }
  }

  /** A JSON file writes the flattened string leaves with some
      non-whitespace text, under their dotted paths, and nothing else. */
  lemma JsonColumnMeaning(data: Json, k: string)
    ensures k in JsonColumn(data) <==>
      k in Flatten(data, "", ".") && Flatten(data, "", ".")[k].JStr? && HasContent(Flatten(data, "", ".")[k].s)
    ensures k in JsonColumn(data) ==> Flatten(data, "", ".")[k] == JStr(JsonColumn(data)[k])
  {
  }

  /** All `(lang, text)` pairs that the entries with key `k` declare, in order. */
  function PairsOf(es: seq<(string, string)>, k: string): seq<(string, string)>
    decreases |es|
  {
    if es == [] then []
    else
      var e := es[|es| - 1];
      PairsOf(es[..|es| - 1], k) + (if e.0 == k then DartPairs(e.1) else [])
  }

  /** Repeated keys of a Dart map merge per language: a key's entry is what
      it held before, overwritten by every pair declared for it, in order.
      A language a later entry does not mention keeps its earlier text. */
  lemma {:induction false} MergeEntriesPerLanguage(t: Table, es: seq<(string, string)>, k: string)
    ensures Row(MergeEntries(t, es), k) == Row(t, k) + FromPairs(PairsOf(es, k))
    decreases |es|
  {
    if es == [] {
      assert Row(t, k) + map[] == Row(t, k);
    } else {
      var init, e := es[..|es| - 1], es[|es| - 1];
      MergeEntriesPerLanguage(t, init, k);
      MergeEntriesLast(t, es, k);
    }
  }

  /** The step of MergeEntriesPerLanguage for the last entry. */
  lemma MergeEntriesLast(t: Table, es: seq<(string, string)>, k: string)
    requires es != []
    requires Row(MergeEntries(t, es[..|es| - 1]), k) == Row(t, k) + FromPairs(PairsOf(es[..|es| - 1], k))
    ensures Row(MergeEntries(t, es), k) == Row(t, k) + FromPairs(PairsOf(es, k))
  {
    var init, e := es[..|es| - 1], es[|es| - 1];
    var before := MergeEntries(t, init);
    var earlier, now := PairsOf(init, k), DartPairs(e.1);
    MergeEntriesUnfold(t, es, k);
    if e.0 == k {
      calc {
        Row(MergeEntries(t, es), k);
        Row(before, k) + FromPairs(now);
        (Row(t, k) + FromPairs(earlier)) + FromPairs(now);
        { UnionAssoc(Row(t, k), FromPairs(earlier), FromPairs(now)); }
        Row(t, k) + (FromPairs(earlier) + FromPairs(now));
        { FromPairsAppend(earlier, now); }
        Row(t, k) + FromPairs(earlier + now);
      }
    }
  }

  /** One unfolding of MergeEntries and PairsOf, seen from key `k`. */
  lemma MergeEntriesUnfold(t: Table, es: seq<(string, string)>, k: string)
    requires es != []
    ensures var init, e := es[..|es| - 1], es[|es| - 1];
      && (e.0 == k ==> Row(MergeEntries(t, es), k) == Row(MergeEntries(t, init), k) + FromPairs(DartPairs(e.1)))
      && (e.0 == k ==> PairsOf(es, k) == PairsOf(init, k) + DartPairs(e.1))
      && (e.0 != k ==> Row(MergeEntries(t, es), k) == Row(MergeEntries(t, init), k))
      && (e.0 != k ==> PairsOf(es, k) == PairsOf(init, k))
  {
    var init, e := es[..|es| - 1], es[|es| - 1];
    assert e.0 != k ==> PairsOf(es, k) == PairsOf(init, k) + [];
  }

  lemma UnionAssoc(a: map<string, string>, b: map<string, string>, c: map<string, string>)
    ensures (a + b) + c == a + (b + c)
  {
  }

  // ---------------------------------------------------------------- whole batches of files

  /** Every ARB file in turn: `(file name, parsed value)`. */
  function ArbFiles(t: Table, files: seq<(string, Json)>): Table
    decreases |files|
  {
    if files == [] then t
    else
      var f := files[|files| - 1];
      WriteColumn(ArbFiles(t, files[..|files| - 1]), ExtractLanguageFromFileName(f.0), ArbColumn(f.1))
  }

  function JsonFiles(t: Table, files: seq<(string, Json)>): Table
    decreases |files|
  {
    if files == [] then t
    else
      var f := files[|files| - 1];
      WriteColumn(JsonFiles(t, files[..|files| - 1]), ExtractLanguageFromFileName(f.0), JsonColumn(f.1))
  }

  /** The language codes of the files' names. */
  function FileLanguages(files: seq<(string, Json)>): set<string>
    decreases |files|
  {
    if files == [] then {}
    else FileLanguages(files[..|files| - 1]) + {ExtractLanguageFromFileName(files[|files| - 1].0)}
  }

  function MapTexts(t: Table, maps: seq<string>): Table
    decreases |maps|
  {
    if maps == [] then t else MergeEntries(MapTexts(t, maps[..|maps| - 1]), DartEntries(maps[|maps| - 1]))
  }

  function MapLanguages(maps: seq<string>): set<string>
    decreases |maps|
  {
    if maps == [] then {}
    else MapLanguages(maps[..|maps| - 1]) + EntryLanguages(DartEntries(maps[|maps| - 1]))
  }

  // ---------------------------------------------------------------- one loop step at a time

  lemma ArbWritesStep(ms: seq<(string, Json)>, i: nat)
    requires i < |ms|
    ensures FromPairs(ArbWrites(ms[..i + 1])) ==
      if IsArbText(ms[i]) then FromPairs(ArbWrites(ms[..i]))[ms[i].0 := ms[i].1.s]
      else FromPairs(ArbWrites(ms[..i]))
  {
    assert ms[..i + 1][..i] == ms[..i];
    var ws := ArbWrites(ms[..i]);
    if IsArbText(ms[i]) {
      assert (ws + [(ms[i].0, ms[i].1.s)])[..|ws|] == ws;
    } else {
      assert ws + [] == ws;
    }
  }

  /** Visiting one more member of an ARB file. */
  lemma ArbColumnStep(t: Table, lang: string, ms: seq<(string, Json)>, i: nat)
    requires i < |ms|
    ensures var cur := WriteColumn(t, lang, FromPairs(ArbWrites(ms[..i])));
      var next := WriteColumn(t, lang, FromPairs(ArbWrites(ms[..i + 1])));
      && (IsArbText(ms[i]) ==> SetCell(cur, ms[i].0, lang, ms[i].1.s) == next)
      && (!IsArbText(ms[i]) ==> cur == next)
  {
    ArbWritesStep(ms, i);
    if IsArbText(ms[i]) {
      WriteColumnExtend(t, lang, FromPairs(ArbWrites(ms[..i])), ms[i].0, ms[i].1.s);
    }
  }

  /** Moving a visited key from `todo` to `done` keeps their union and their disjointness. */
  lemma MoveKey(todo: set<string>, done: set<string>, key: string)
    requires key in todo && todo !! done
    ensures (todo - {key}) + (done + {key}) == todo + done
    ensures (todo - {key}) !! (done + {key})
  {
  }

  /** The part of a column on the keys of `done`. */
  function Restrict(col: map<string, string>, done: set<string>): map<string, string>
  {
    map k | k in done && k in col :: col[k]
  }

  lemma RestrictStep(col: map<string, string>, done: set<string>, key: string)
    ensures Restrict(col, done + {key}) ==
      if key in col then Restrict(col, done)[key := col[key]] else Restrict(col, done)
  {
  }

  lemma RestrictAll(col: map<string, string>, done: set<string>)
    requires col.Keys <= done
    ensures Restrict(col, done) == col
  {
  }

  /** Visiting one more path of the flattened dictionary. */
  lemma TextStep(t: Table, lang: string, flat: map<string, Json>, done: set<string>, key: string)
    requires key in flat
    ensures var cur := WriteColumn(t, lang, Restrict(TextColumn(flat), done));
      var next := WriteColumn(t, lang, Restrict(TextColumn(flat), done + {key}));
      && (flat[key].JStr? && HasContent(flat[key].s) ==> SetCell(cur, key, lang, flat[key].s) == next)
      && (!(flat[key].JStr? && HasContent(flat[key].s)) ==> cur == next)
  {
    var col := TextColumn(flat);
    RestrictStep(col, done, key);
    if flat[key].JStr? && HasContent(flat[key].s) {
      WriteColumnExtend(t, lang, Restrict(col, done), key, flat[key].s);
    }
  }

  lemma MergeEntriesStep(t: Table, es: seq<(string, string)>, i: nat)
    requires i < |es|
    ensures MergeEntries(t, es[..i + 1]) == MergeRow(MergeEntries(t, es[..i]), es[i].0, DartPairs(es[i].1))
    ensures EntryLanguages(es[..i + 1]) == EntryLanguages(es[..i]) + FromPairs(DartPairs(es[i].1)).Keys
  {
    assert es[..i + 1][..i] == es[..i];
  }

  /** Creating the entry and then writing its pairs is the merge. */
  lemma MergeAfterAddKey(t: Table, key: string, ps: seq<(string, string)>)
    ensures var e := EnsureKey(t, key); e[key := e[key] + FromPairs(ps)] == MergeRow(t, key, ps)
  {
  }

  /** Writing the j-th pair into an entry extends the merge by that pair. */
  lemma PairStep(t: Table, key: string, ps: seq<(string, string)>, j: nat)
    requires j < |ps| && key in t
    ensures var cur := t[key := t[key] + FromPairs(ps[..j])];
      SetCell(cur, key, ps[j].0, ps[j].1) == t[key := t[key] + FromPairs(ps[..j + 1])]
    ensures FromPairs(ps[..j + 1]).Keys == FromPairs(ps[..j]).Keys + {ps[j].0}
  {
    assert ps[..j + 1][..j] == ps[..j];
    var m := t[key] + FromPairs(ps[..j]);
    assert m[ps[j].0 := ps[j].1] == t[key] + FromPairs(ps[..j + 1]);
  }

  lemma ArbFilesStep(t: Table, files: seq<(string, Json)>, i: nat)
    requires i < |files|
    ensures ArbFiles(t, files[..i + 1]) ==
      WriteColumn(ArbFiles(t, files[..i]), ExtractLanguageFromFileName(files[i].0), ArbColumn(files[i].1))
  {
    var init := files[..i + 1];
    assert init[..|init| - 1] == files[..i];
  }

  lemma JsonFilesStep(t: Table, files: seq<(string, Json)>, i: nat)
    requires i < |files|
    ensures JsonFiles(t, files[..i + 1]) ==
      WriteColumn(JsonFiles(t, files[..i]), ExtractLanguageFromFileName(files[i].0), JsonColumn(files[i].1))
  {
    var init := files[..i + 1];
    assert init[..|init| - 1] == files[..i];
  }

  lemma FileLanguagesStep(files: seq<(string, Json)>, i: nat)
    requires i < |files|
    ensures FileLanguages(files[..i + 1]) == FileLanguages(files[..i]) + {ExtractLanguageFromFileName(files[i].0)}
  {
    var init := files[..i + 1];
    assert init[..|init| - 1] == files[..i];
  }

  lemma MapTextsStep(t: Table, maps: seq<string>, i: nat)
    requires i < |maps|
    ensures MapTexts(t, maps[..i + 1]) == MergeEntries(MapTexts(t, maps[..i]), DartEntries(maps[i]))
    ensures MapLanguages(maps[..i + 1]) == MapLanguages(maps[..i]) + EntryLanguages(DartEntries(maps[i]))
  {
    assert maps[..i + 1][..i] == maps[..i];
  }

  // ---------------------------------------------------------------- the extractor

  class TranslationExtractor {
    var translations: Table
    var translationKeys: set<string>
    var languages: set<string>

    /** The key set mirrors the table, and every language of an entry has
        been recorded. */
    ghost predicate Valid()
      reads this
    {
      translations.Keys == translationKeys && LanguagesCovered(translations, languages)
    }

    constructor ()
      ensures Valid()
      ensures translations == map[] && translationKeys == {} && languages == {}
    {
      translations := map[];
      translationKeys := {};
      languages := {};
    }

    /** `translations[key][lang] = text` as the loops write it. */
    method Write(key: string, lang: string, text: string)
      modifies this
      ensures translations == SetCell(old(translations), key, lang, text)
      ensures translationKeys == old(translationKeys) + {key}
      ensures languages == old(languages)
    {
      translationKeys := translationKeys + {key};
      if key !in translations {
        translations := translations[key := map[]];
      }
      translations := translations[key := translations[key][lang := text]];
    }

    /** `translation_keys.add(key)` and `if key not in translations: translations[key] = {}`. */
    method AddKey(key: string)
      requires Valid()
      modifies this
      ensures Valid()
      ensures translations == EnsureKey(old(translations), key)
      ensures languages == old(languages)
    {
      translationKeys := translationKeys + {key};
      if key !in translations {
        translations := translations[key := map[]];
      }
    }

    /** The body of `extract_from_arb_files` for one file. */
    method IngestArb(fileName: string, data: Json)
      requires Valid()
      modifies this
      ensures Valid()
      ensures languages == old(languages) + {ExtractLanguageFromFileName(fileName)}
      ensures translations == WriteColumn(old(translations), ExtractLanguageFromFileName(fileName), ArbColumn(data))
    {
      var lang := ExtractLanguageFromFileName(fileName);
      languages := languages + {lang};
      if data.JObj? {
        WriteArbMembers(lang, data.members);
      }
    }

    /** The loop over `data.items()` of an ARB file: metadata and values that
        are not strings are skipped, the rest written in order. */
    method WriteArbMembers(lang: string, ms: seq<(string, Json)>)
      requires Valid() && lang in languages
      modifies this
      ensures Valid()
      ensures languages == old(languages)
      ensures translations == WriteColumn(old(translations), lang, FromPairs(ArbWrites(ms)))
    {
      var i := 0;
      while i < |ms|
        invariant 0 <= i <= |ms|
        invariant translations == WriteColumn(old(translations), lang, FromPairs(ArbWrites(ms[..i])))
        invariant translationKeys == translations.Keys
        invariant languages == old(languages)
      {
        var m := ms[i];
        ArbColumnStep(old(translations), lang, ms, i);
        if !IsMetadataKey(m.0) && m.1.JStr? {
          Write(m.0, lang, m.1.s);
        }
        i := i + 1;
      }
      assert ms[..i] == ms;
      WriteColumnCovered(old(translations), lang, FromPairs(ArbWrites(ms)), languages);
    }

    /** The body of `extract_from_json_files` for one file. */
    method IngestJson(fileName: string, data: Json)
      requires Valid()
      modifies this
      ensures Valid()
      ensures languages == old(languages) + {ExtractLanguageFromFileName(fileName)}
      ensures translations == WriteColumn(old(translations), ExtractLanguageFromFileName(fileName), JsonColumn(data))
    {
      var lang := ExtractLanguageFromFileName(fileName);
      languages := languages + {lang};
      var flattened := Flatten(data, "", ".");
      WriteTexts(lang, flattened);
    }

    /** The loop over `flattened.items()`: the paths are visited in some
        order; each writes a different key, so the order does not change the
        outcome. */
    method WriteTexts(lang: string, flattened: map<string, Json>)
      requires Valid() && lang in languages
      modifies this
      ensures Valid()
      ensures languages == old(languages)
      ensures translations == WriteColumn(old(translations), lang, TextColumn(flattened))
    {
      ghost var col := TextColumn(flattened);
      var todo := flattened.Keys;
      ghost var done: set<string> := {};
      assert Restrict(col, done) == map[];
      WriteColumnEmpty(translations, lang);
      while todo != {}
        invariant todo + done == flattened.Keys && todo !! done
        invariant translations == WriteColumn(old(translations), lang, Restrict(col, done))
        invariant translationKeys == translations.Keys
        invariant languages == old(languages)
        decreases |todo|
      {
        var key :| key in todo;
        TextStep(old(translations), lang, flattened, done, key);
        WriteText(key, lang, flattened[key]);
        MoveKey(todo, done, key);
        todo := todo - {key};
        done := done + {key};
      }
      RestrictAll(col, done);
      WriteColumnCovered(old(translations), lang, col, languages);
    }

    /** One path of the flattened dictionary: written when its value is a
        string with some non-whitespace character, skipped otherwise. */
    method WriteText(key: string, lang: string, value: Json)
      modifies this
      ensures translations ==
        if value.JStr? && HasContent(value.s) then SetCell(old(translations), key, lang, value.s)
        else old(translations)
      ensures translationKeys ==
        if value.JStr? && HasContent(value.s) then old(translationKeys) + {key} else old(translationKeys)
      ensures languages == old(languages)
    {
      if value.JStr? && HasContent(value.s) {
        Write(key, lang, value.s);
      }
    }

    /** The insert step of `extract_from_dart_files`: every candidate string
        the classifier accepts becomes a key; existing entries are left alone. */
    method IngestDartCandidates(candidates: seq<string>)
      requires Valid()
      modifies this
      ensures Valid()
      ensures languages == old(languages)
      ensures translations == EnsureKeys(old(translations), Accepted(candidates))
    {
      var i := 0;
      while i < |candidates|
        invariant 0 <= i <= |candidates|
        invariant translations == EnsureKeys(old(translations), Accepted(candidates[..i]))
        invariant translationKeys == translations.Keys
        invariant languages == old(languages)
      {
        var key := candidates[i];
        AcceptedStep(candidates, i);
        if IsLikelyTranslatable(key) {
          translationKeys := translationKeys + {key};
          EnsureKeysExtend(old(translations), Accepted(candidates[..i]), key);
          if key !in translations {
            translations := translations[key := map[]];
          }
        }
        i := i + 1;
      }
      assert candidates[..i] == candidates;
      EnsureKeysCovered(old(translations), Accepted(candidates), languages);
    }

    /** `parse_dart_translation_map`: each `'key': {...}` entry is created if
        new, and its `'lang': 'text'` pairs are written into it one by one. */
    method ParseDartTranslationMap(mapContent: string)
      requires Valid()
      modifies this
      ensures Valid()
      ensures languages == old(languages) + EntryLanguages(DartEntries(mapContent))
      ensures translations == MergeEntries(old(translations), DartEntries(mapContent))
    {
      var entries := DartEntries(mapContent);
      var i := 0;
      while i < |entries|
        invariant 0 <= i <= |entries|
        invariant Valid()
        invariant translations == MergeEntries(old(translations), entries[..i])
        invariant languages == old(languages) + EntryLanguages(entries[..i])
      {
        var (key, block) := entries[i];
        MergeEntriesStep(old(translations), entries, i);
        MergeEntry(key, block);
        i := i + 1;
      }
      assert entries[..i] == entries;
    }

    /** One `'key': {...}` entry of the map: the key is created if new, then
        the block's `'lang': 'text'` pairs are written into it. */
    method MergeEntry(key: string, block: string)
      requires Valid()
      modifies this
      ensures Valid()
      ensures languages == old(languages) + FromPairs(DartPairs(block)).Keys
      ensures translations == MergeRow(old(translations), key, DartPairs(block))
    {
      AddKey(key);
      var langMatches := DartPairs(block);
      WritePairs(key, langMatches);
      MergeAfterAddKey(old(translations), key, langMatches);
    }

    /** The inner loop of `parse_dart_translation_map` over one entry's
        `(lang, text)` matches, after the entry was created. */
    method WritePairs(key: string, pairs: seq<(string, string)>)
      requires Valid() && key in translations
      modifies this
      ensures Valid()
      ensures languages == old(languages) + FromPairs(pairs).Keys
      ensures translations == old(translations)[key := old(translations)[key] + FromPairs(pairs)]
    {
      ghost var before := translations;
      assert pairs[..0] == [] && before[key] + map[] == before[key];
      var j := 0;
      while j < |pairs|
        invariant 0 <= j <= |pairs|
        invariant Valid() && key in translations
        invariant translations == before[key := before[key] + FromPairs(pairs[..j])]
        invariant languages == old(languages) + FromPairs(pairs[..j]).Keys
      {
        var (lang, text) := pairs[j];
        PairStep(before, key, pairs, j);
        languages := languages + {lang};
        Write(key, lang, text);
        j := j + 1;
      }
      assert pairs[..j] == pairs;
    }

    // ------------------------------------------------------------ the file loops

    /** `extract_from_arb_files` over the parsed files. */
    method ExtractFromArbFiles(files: seq<(string, Json)>)
      requires Valid()
      modifies this
      ensures Valid()
      ensures languages == old(languages) + FileLanguages(files)
      ensures translations == ArbFiles(old(translations), files)
    {
      var i := 0;
      while i < |files|
        invariant 0 <= i <= |files|
        invariant Valid()
        invariant languages == old(languages) + FileLanguages(files[..i])
        invariant translations == ArbFiles(old(translations), files[..i])
      {
        ArbFilesStep(old(translations), files, i);
        FileLanguagesStep(files, i);
        IngestArb(files[i].0, files[i].1);
        i := i + 1;
      }
      assert files[..i] == files;
    }

    /** `extract_from_json_files` over the parsed files. */
    method ExtractFromJsonFiles(files: seq<(string, Json)>)
      requires Valid()
      modifies this
      ensures Valid()
      ensures languages == old(languages) + FileLanguages(files)
      ensures translations == JsonFiles(old(translations), files)
    {
      var i := 0;
      while i < |files|
        invariant 0 <= i <= |files|
        invariant Valid()
        invariant languages == old(languages) + FileLanguages(files[..i])
        invariant translations == JsonFiles(old(translations), files[..i])
      {
        JsonFilesStep(old(translations), files, i);
        FileLanguagesStep(files, i);
        IngestJson(files[i].0, files[i].1);
        i := i + 1;
      }
      assert files[..i] == files;
    }

    /** `extract_from_internationalization_files` over the map literals found. */
    method ExtractFromInternationalizationFiles(maps: seq<string>)
      requires Valid()
      modifies this
      ensures Valid()
      ensures languages == old(languages) + MapLanguages(maps)
      ensures translations == MapTexts(old(translations), maps)
    {
      var i := 0;
      while i < |maps|
        invariant 0 <= i <= |maps|
        invariant Valid()
        invariant languages == old(languages) + MapLanguages(maps[..i])
        invariant translations == MapTexts(old(translations), maps[..i])
      {
        MapTextsStep(old(translations), maps, i);
        ParseDartTranslationMap(maps[i]);
        i := i + 1;
      }
      assert maps[..i] == maps;
    }

    /** `extract_all_translations`: the four sources in the script's order. */
    method ExtractAllTranslations(arbFiles: seq<(string, Json)>, jsonFiles: seq<(string, Json)>,
                                  dartCandidates: seq<string>, maps: seq<string>)
      returns (result: Table)
      requires Valid()
      modifies this
      ensures Valid() && result == translations
      ensures languages == old(languages) + FileLanguages(arbFiles) + FileLanguages(jsonFiles) + MapLanguages(maps)
      ensures translations == MapTexts(EnsureKeys(JsonFiles(ArbFiles(old(translations), arbFiles), jsonFiles),
                                                  Accepted(dartCandidates)), maps)
    {
      ExtractFromArbFiles(arbFiles);
      ExtractFromJsonFiles(jsonFiles);
      IngestDartCandidates(dartCandidates);
      ExtractFromInternationalizationFiles(maps);
      result := translations;
    }
  }
}
