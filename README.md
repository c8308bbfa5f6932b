# FlutterFlow translation extraction, modelled in Dafny

This project models the extraction core of two Python scripts that collect
the translations of a FlutterFlow project:

- `test.py`, class `FlutterFlowTranslationExtractor`. It reads ARB files,
  JSON files, Dart sources and Dart translation maps into one table
  `translations[key][lang] = text`. Beside the table it keeps the set of
  keys and the set of language codes. A file's language code comes from its
  name (`extract_language_from_filename`). A string found in Dart code is
  kept only if `is_likely_translatable` accepts it. Nested JSON is
  flattened into dotted paths (`flatten_json`).
- `extract_ff_translations.py`. It reads the `languages()` list and the
  `kTranslationsMap` literal of `lib/flutter_flow/internationalization.dart`.
  From the resulting table it derives CSV rows, the Sango (`sg`) coverage
  split and per-language counts.

## How the model is organised

| file | module | what it holds |
|---|---|---|
| `wrappers.dfy` | `Wrappers` | `Option` |
| `text.dfy` | `Text` | character classes, greedy runs, `find`, `lower()`/`upper()`, `strip()`, `split()` |
| `dicts.dfy` | `Dicts` | `dict(pairs)` as `FromPairs`: a later pair wins |
| `json.dfy` | `JsonFlatten` | the `Json` value and `flatten_json` |
| `filenames.dfy` | `LanguageCode` | `extract_language_from_filename`, `is_likely_translation_file` |
| `classifier.dfy` | `Classifier` | `is_likely_translatable` |
| `scanners.dfy` | `Scanners` | hand-written equivalents of the fixed regular expressions |
| `table.dfy` | `TranslationTable` | the table updates, written as functions of the old table |
| `extractor.dfy` | `Extractor` | the `TranslationExtractor` class (three fields, ingestion methods) |
| `ffextract.dfy` | `FlutterFlowExtract` | `extract_languages`, `extract_translations_map` and the table projections |

Pure Python functions become Dafny functions, each with lemmas stating what
it promises. Code that updates state in loops becomes methods with loops:

- the extractor's ingestion loops;
- the nested loops of `extract_translations_map`;
- the counting loops of `analyze_sango_coverage` and
  `group_translations_by_page`.

Each such method is proved equal to a reference function of its inputs
or of its old state. The lemmas then state the source's promises about that
function.

No regex engine is modelled. Each regular expression the core uses is
written out as a scanner over its one fixed shape.

- Every pattern except the section separator is decided by maximal greedy
  runs, because the character after a maximal run can never start the next
  literal.
- The separator `\s*//\s*[A-Za-z]+\s*\n` backtracks in its last `\s*`, so
  its match ends after the last newline of the trailing whitespace.
  `Scanners.SeparatorAt` models that backtracking explicitly.

Two behaviours of the code are worth stating outright.

- `strings_sgsomething.json` resolves to `ing`. The second pattern
  (`([a-z]{2,3})\.(?:arb|json)$`, test.py:224) matches before the
  fallback is reached (`LanguageCode.ResolverExampleLongSuffix`).
- Neither script reports collisions.
  - `test.py` overwrites silently. A repeated key in a Dart map merges per
    language.
  - `extract_ff_translations.py` prints a warning for a repeated key
    (extract_ff_translations.py:92-95) and replaces its whole language map.
    The model keeps those warnings as the `duplicates` sequence of
    `FlutterFlowExtract.Parsed`.

## Model

| member | source | states |
|---|---|---|
| Text.ToLower | test.py:230 | `lower()` keeps the length and lowers each ASCII letter in place |
| Text.ToUpper | extract_ff_translations.py:154 | `upper()` keeps the length and raises each ASCII lower-case letter in place |
| Text.HasContentIff | test.py:107 | `value.strip()` is truthy exactly when some character is not whitespace |
| Text.Strip | extract_ff_translations.py:83 | the stripped text has no whitespace at either end, and is empty exactly when the text is all whitespace |
| Text.SplitWords | test.py:271 | every word of `split()` is non-empty and holds no whitespace |
| Text.SplitWordsNoSpace | test.py:271 | a non-empty text without whitespace splits into exactly itself |
| Text.SplitWordsManyHasSpace | test.py:271 | two or more words need a whitespace character in the text |
| Text.SplitWordsNonEmpty | test.py:271 | a text holding a non-whitespace character splits into at least one word |
| Text.SplitWordsSeparated | test.py:271 | any whitespace character (space, tab, newline, ...) between two non-whitespace characters gives two or more words |
| Text.BeforeFirst | test.py:235 | `split('.')[0]` is a prefix free of `.`, followed by `.` unless it is the whole text |
| Text.AfterLast | test.py:235 | `split('_')[-1]` is a suffix free of `_`, preceded by `_` unless it is the whole text |
| Text.BeforeFirstUnique | test.py:235 | `split('.')[0]` is the prefix up to the first `.` |
| Text.AfterLastUnique | test.py:235 | `split('_')[-1]` is the suffix after the last `_` |
| Text.IndexOf | extract_ff_translations.py:69 | the first occurrence at or after a position; none earlier; `None` only when there is none |
| Text.RunLength | extract_ff_translations.py:88 | a greedy run stays inside the text, holds only class characters, and is followed by none |
| Text.RunLengthExact | extract_ff_translations.py:88 | a greedy `[...]+` run stops exactly at the first character outside its class |
| Dicts.FromPairs | test.py:288 | `dict(items)` has exactly the keys of its pairs |
| Dicts.FromPairsLastWins | test.py:288 | `dict(items)` keeps, for each key, the value of its last pair |
| Dicts.FromPairsAppend | test.py:280 | extending the pairs is a right-biased union of the two dicts |
| Dicts.FromPairsDistinctSize | test.py:288 | without repeated keys the dict has one entry per pair |
| JsonFlatten.FlattenLeavesAreScalars | test.py:273-288 | every value of the flattened dict is a scalar, never a dict or a list |
| JsonFlatten.NatToString | test.py:283 | `str(i)` of a list index is a non-empty run of digits |
| JsonFlatten.NatToStringValue | test.py:283 | `str(i)` is the decimal numeral of `i`: its digits denote `i`, with no leading zero unless `i` is 0 |
| JsonFlatten.NatToStringInjective | test.py:283 | two list indices give the same path segment exactly when they are equal |
| JsonFlatten.ScalarListItems | test.py:281-284 | the leaves of a list of scalars are its elements in order, element `i` under the path `parent<sep>i` (or `i` at the top) |
| JsonFlatten.ChildKeyInjective | test.py:279-283 | under one parent and separator, equal child paths come from equal segments |
| JsonFlatten.FlattenScalarList | test.py:281-288 | a list of scalars flattens to exactly one entry per element: the index paths never collide |
| JsonFlatten.FlattenIsDictOfItems | test.py:275-288 | flattening equals `dict` of the depth-first list of (path, leaf) pairs |
| JsonFlatten.ItemsCount | test.py:275-286 | the traversal yields exactly one pair per scalar leaf |
| JsonFlatten.FlattenCountsLeaves | test.py:275-288 | with distinct paths, the flattened dict has one entry per scalar leaf |
| JsonFlatten.FlattenLaterLeafWins | test.py:288 | a path is present exactly when some leaf has it, and it holds the last such leaf in traversal order |
| JsonFlatten.FlattenTopLevelScalar | test.py:285-286 | a top-level scalar flattens to `{"": scalar}` |
| JsonFlatten.FlattenEmptyContainers | test.py:277-288 | an empty dict or list flattens to `{}` |
| JsonFlatten.FlattenNestedObject | test.py:277-280 | `{"a": {"b": x}}` flattens to `{"a<sep>b": x}` |
| JsonFlatten.FlattenNestedList | test.py:281-284 | `{"a": [x]}` flattens to `{"a<sep>0": x}` |
| LanguageCode.CodeAt | test.py:223-226 | the captured group is two or three lower-case letters |
| LanguageCode.CodeAtMeaning | test.py:223-226 | `([a-z]{2,3})` at a position captures the three letters found there when three fit (followed by `.arb`/`.json` when the extension is required), otherwise two when two fit, otherwise nothing |
| LanguageCode.RunLengthAtLeast | test.py:223-226 | the greedy run of lower-case letters is at least `m` long exactly when `m` lower-case letters start there |
| LanguageCode.MatchAt | test.py:223-226 | any pattern's capture is a language code |
| LanguageCode.SearchFrom | test.py:230 | `re.search` returns the leftmost match: it matches there and nowhere before |
| LanguageCode.Search | test.py:230-232 | `match.group(1)` of the search is a language code |
| LanguageCode.FirstMatch | test.py:229-232 | the first matching pattern's capture is a language code |
| LanguageCode.CodeLengthIff | test.py:223-224 | the code length is min(number of trailing letters, 3), defined only when there are at least two |
| LanguageCode.UnderscoreSuffixAgrees | test.py:223 | where `_xx.ext` matches, it captures the same letters as the bare `xx.ext` pattern |
| LanguageCode.ExtensionRule | test.py:222-232 | a lower-cased name `stem.arb`/`stem.json` ending in two or more letters gives the last three of them (two when only two) |
| LanguageCode.FallbackRule | test.py:234-235 | with no match: `unknown` without `_`, else the original-case text after the last `_` of the part before the first `.` |
| LanguageCode.NoPatternMatches | test.py:222-232 | a name with no `.`, no `app_` and no `translations_` matches no pattern |
| LanguageCode.ResolverExampleArb | test.py:221-232 | `app_en.arb` resolves to `en` |
| LanguageCode.ExtensionPatternsFail | test.py:223-224 | when no `.arb`/`.json` ending is preceded by two lower-case letters, neither extension pattern matches |
| LanguageCode.NoExtensionEnding | test.py:223-224 | a name whose last character is neither `b` nor `n` has no `.arb`/`.json` ending |
| LanguageCode.InfixMatchAt | test.py:225-226 | `app_([a-z]{2,3})` (or `translations_…`) matches at a position exactly when the lead occurs there followed by two lower-case letters |
| LanguageCode.SearchInfix | test.py:225-226 | `re.search` with the lead pattern finds its leftmost occurrence and captures the first min(k, 3) of the k letters after the lead |
| LanguageCode.SearchInfixNone | test.py:225-226 | with no such occurrence the lead pattern finds nothing |
| LanguageCode.InfixRule | test.py:222-232 | when neither extension pattern matches, the leftmost `app_` followed by k >= 2 letters gives the first min(k, 3); the same for `translations_` when no `app_` match exists |
| LanguageCode.InfixAtStart | test.py:222-232 | a lower-case name `lead + code + rest` with a 2-3 letter code not followed by a letter, and no extension match, resolves to `code` |
| LanguageCode.ResolverExampleAppInfix | test.py:225 | `app_fr_x.json` resolves to `fr` through the `app_` pattern |
| LanguageCode.ResolverExampleTranslationsInfix | test.py:226 | `translations_deu.txt` resolves to `deu` through the `translations_` pattern |
| LanguageCode.NothingMatchesWithout | test.py:222-232 | a name with no `.` that lacks a letter of `app_` and a letter of `translations_` matches no pattern |
| LanguageCode.ResolverExampleLongSuffix | test.py:224 | `strings_sgsomething.json` resolves to `ing` |
| LanguageCode.ResolverExampleUpper | test.py:230 | `App_DE.ARB` is lower-cased first and resolves to `de` |
| LanguageCode.ResolverExampleUnknown | test.py:235 | `README` resolves to `unknown` |
| LanguageCode.ResolverExampleFallback | test.py:235 | `notes_FR` keeps its original case and resolves to `FR` |
| LanguageCode.TranslationFileByPathAlone | test.py:237-248 | `is_likely_translation_file` holds exactly when an indicator occurs in the lower-cased path |
| Classifier.CamelCaseLeadMeaning | test.py:257 | `^[a-z]+[A-Z]` matches exactly when a non-empty lower-case prefix is followed by an upper-case letter |
| Classifier.DottedPathMeaning | test.py:258 | `^\w+\.\w+` matches exactly when a non-empty word prefix is followed by `.` and a word character |
| Classifier.PhraseHasSpace | test.py:271 | the final rule requires a whitespace character |
| Classifier.AcceptedNecessary | test.py:250-271 | an accepted text has length 2..200, no `@`, no URL scheme, an ASCII letter, and a space or several words |
| Classifier.SingleWordRejected | test.py:271 | a text without whitespace is never accepted |
| Classifier.AcceptedSufficient | test.py:250-271 | a spaced text of valid length with a letter, not starting lower-case, without `.`, `@`, `:`, is accepted |
| Classifier.AcceptsHelloThere | test.py:250-271 | `Hello there` is accepted |
| Classifier.NotTechnicalWithSpace | test.py:256-268 | a text with a whitespace character, a non-lower-case start and no `.`, `@` or `:` matches none of the seven skip patterns |
| Classifier.AcceptedSufficientSeparated | test.py:250-271 | as AcceptedSufficient, with any whitespace between two words in place of a space: the `len(text.split()) > 1` half of the final rule |
| Classifier.AcceptsHelloTabThere | test.py:250-271 | `Hello\tthere`, which holds no space, is accepted through `split()` |
| Classifier.RejectsCamelCase | test.py:257 | `helloThere` is rejected |
| Classifier.RejectsConstant | test.py:259 | `CONSTANT_VALUE` is rejected |
| Classifier.RejectsNumber | test.py:260 | `123` is rejected |
| Classifier.RejectsTooShort | test.py:252-253 | `a` is rejected |
| Classifier.RejectsEmail | test.py:263 | `user@example.com` is rejected |
| Classifier.RejectsUrl | test.py:262 | `https://x.com` is rejected |
| Scanners.KeyColon | extract_ff_translations.py:88 | the key group is non-empty and holds no quote; the scan ends inside the text |
| Scanners.ValueAt | extract_ff_translations.py:99 | a brace group is non-empty without `}`; a quoted group holds no quote |
| Scanners.HitAt | test.py:203 | a match at a position has a non-empty quote-free key and a well-formed value |
| Scanners.FindAll | test.py:212-213 | every `findall` result has a non-empty quote-free key and a well-formed value |
| Scanners.FindAllRender | extract_ff_translations.py:88-89 | scanning rendered `'k': v` entries gives back exactly those entries in order, repeats included |
| Scanners.FindAllSkipsQuoteFree | extract_ff_translations.py:99-100 | text without a quote contributes no match |
| Scanners.FindAllBlank | extract_ff_translations.py:83-84 | whitespace holds no entry |
| Scanners.FindCodes | extract_ff_translations.py:58 | every code is non-empty and holds no `'` |
| Scanners.FindCodesRender | extract_ff_translations.py:58 | reading a rendered `'a', 'b'` list gives back its codes in order, repeats included |
| Scanners.SpanAtMeaning | extract_ff_translations.py:52-53 | a span follows the marker, stops at the first closing text, and holds no newline unless DOTALL |
| Scanners.SearchSpan | extract_ff_translations.py:53 | the search returns the leftmost position where the span matches |
| Scanners.FindSpanNeedsMarker | extract_ff_translations.py:72-74 | without the marker there is no span |
| Scanners.FindSpanFirstMarker | extract_ff_translations.py:69-76 | with DOTALL the span belongs to the first marker and ends at the first `].reduce(` after it |
| Scanners.FindSpanOf | extract_ff_translations.py:69-76 | marker, body, closing text: the body is what the search returns |
| Scanners.LastNewline | extract_ff_translations.py:80 | the last newline in a range, or none in that range |
| Scanners.SeparatorAt | extract_ff_translations.py:80 | a separator match starting at a position ends strictly after it, inside the text |
| Scanners.SplitSections | extract_ff_translations.py:80 | `re.split` always returns at least one section |
| Scanners.SeparatorAtLine | extract_ff_translations.py:80 | a `// Title` line is a separator ending after its newline |
| Scanners.SplitSectionsNoSlash | extract_ff_translations.py:80 | a text without `/` is a single section |
| Scanners.SplitSectionsAtLine | extract_ff_translations.py:80 | `re.split` removes a `// Title` line and returns the text before and after it |
| TranslationTable.SetCell | test.py:61-63 | writing one cell creates the key and keeps the others |
| TranslationTable.WriteColumn | test.py:58-63 | one file's column writes its keys in its language and keeps every other entry |
| TranslationTable.WriteColumnExtend | test.py:63 | writing one more cell is the column with one more key |
| TranslationTable.WriteColumnCells | test.py:63 | last write wins on the file's language; every other cell is kept; nothing else appears |
| TranslationTable.WriteColumnCovered | test.py:55 | a column in a recorded language keeps every entry's languages recorded |
| TranslationTable.EnsureKeys | test.py:164-165 | every key becomes present; existing entries are unchanged; new ones are `{}` |
| TranslationTable.EnsureKeysExtend | test.py:164-165 | adding one key is `EnsureKeys` with one more key |
| TranslationTable.EnsureKeysCovered | test.py:164-165 | empty entries keep the languages covered |
| TranslationTable.MergeRow | test.py:208-217 | merging an entry adds its key and changes no other entry |
| TranslationTable.MergeRowNone | test.py:208-209 | merging no pairs only creates the entry |
| TranslationTable.MergeRowExtend | test.py:217 | writing one more pair is merging one more pair |
| TranslationTable.MergeRowCovered | test.py:216-217 | recorded languages of the pairs keep the table covered |
| TranslationTable.MergeRowCells | test.py:208-217 | a repeated key keeps undeclared languages and takes the last declared text of each declared one |
| Extractor.ArbWrites | test.py:58-59 | every ARB write is a non-metadata key with a string value from the file |
| Extractor.TextColumn | test.py:107 | only strings with non-whitespace content are written |
| Extractor.JsonColumn | test.py:104-107 | a JSON file writes only texts with non-whitespace content |
| Extractor.Accepted | test.py:159 | every inserted Dart key passes the classifier |
| Extractor.ArbColumnKeys | test.py:58-63 | an ARB file writes a key exactly when it is not metadata and some member with it is a string |
| Extractor.ArbColumnLastWins | test.py:58-63 | a key keeps the text of its last string member |
| Extractor.JsonColumnMeaning | test.py:104-111 | a JSON file writes exactly the flattened string leaves with content, under their paths |
| Extractor.MergeEntriesKeys | test.py:206-209 | a Dart map creates an entry for each of its keys and no other |
| Extractor.MergeEntriesPerLanguage | test.py:206-217 | a key's entry is its old entry overwritten by all pairs declared for it, in order |
| Extractor.TranslationExtractor.constructor | test.py:19-23 | the three fields start empty |
| Extractor.TranslationExtractor.Write | test.py:60-63 | `translations[key][lang] = text`, the key recorded |
| Extractor.TranslationExtractor.AddKey | test.py:207-209 | the key is recorded and its entry created if new |
| Extractor.TranslationExtractor.IngestArb | test.py:54-63 | records the file's language, even with no keys; the table becomes the old one with the file's column written |
| Extractor.TranslationExtractor.WriteArbMembers | test.py:58-63 | the loop over `data.items()` writes exactly the ARB column |
| Extractor.TranslationExtractor.IngestJson | test.py:100-111 | records the file's language; the table becomes the old one with the JSON column written |
| Extractor.TranslationExtractor.WriteTexts | test.py:106-111 | the loop over `flattened.items()` writes exactly the text column, whatever the visiting order |
| Extractor.TranslationExtractor.WriteText | test.py:107-111 | one path is written when it holds a text with content, skipped otherwise |
| Extractor.TranslationExtractor.IngestDartCandidates | test.py:159-165 | accepted candidates become keys; existing entries are untouched; languages are unchanged |
| Extractor.TranslationExtractor.ParseDartTranslationMap | test.py:199-217 | the table is the merge of the map's entries; their languages are recorded |
| Extractor.TranslationExtractor.MergeEntry | test.py:206-217 | one entry is merged per language and its languages recorded |
| Extractor.TranslationExtractor.WritePairs | test.py:215-217 | the pairs are written into the entry in order, each language recorded |
| Extractor.TranslationExtractor.ExtractFromArbFiles | test.py:48-63 | all ARB files in order: their languages are added and their columns written |
| Extractor.TranslationExtractor.ExtractFromJsonFiles | test.py:95-111 | all JSON files in order: their languages are added and their columns written |
| Extractor.TranslationExtractor.ExtractFromInternationalizationFiles | test.py:181-192 | all map literals in order are merged |
| Extractor.TranslationExtractor.ExtractAllTranslations | test.py:25-39 | ARB, then JSON, then Dart candidates, then maps; the invariant holds and the table is returned |
| FlutterFlowExtract.ExtractLanguages | extract_ff_translations.py:49-61 | no `languages()` list gives `[]`; every code is non-empty and holds no quote |
| FlutterFlowExtract.ExtractLanguagesRendered | extract_ff_translations.py:52-59 | a written-out `languages()` list reads back as its codes in order, repeats included |
| FlutterFlowExtract.ExtractTranslationsMap | extract_ff_translations.py:63-105 | no list literal gives an empty result; otherwise the parse of the sections' entries |
| FlutterFlowExtract.ReadSection | extract_ff_translations.py:88-91 | one section's entries are read in order |
| FlutterFlowExtract.ReadEntry | extract_ff_translations.py:91-103 | a repeated key is reported, a new key appended to the order, and the entry's map replaced |
| FlutterFlowExtract.ReadLanguages | extract_ff_translations.py:95-103 | the entry's map becomes exactly the block's pairs, a later language winning |
| FlutterFlowExtract.ParseShape | extract_ff_translations.py:91-95 | the key order lists each key once, and each entry either adds a key or is reported |
| FlutterFlowExtract.ParseKeys | extract_ff_translations.py:91-95 | the keys are exactly the entries' keys |
| FlutterFlowExtract.ParseLastWins | extract_ff_translations.py:91-103 | a key's map is exactly that of its last entry; earlier languages are discarded |
| FlutterFlowExtract.ParseDuplicates | extract_ff_translations.py:92-93 | a key is reported exactly when two entries carry it |
| FlutterFlowExtract.LangMapRendered | extract_ff_translations.py:99-103 | a block's pairs read back; an empty text is kept; a repeated language takes its last text |
| FlutterFlowExtract.BlankBlockKept | extract_ff_translations.py:88-103 | `'k': { }` is an entry with an empty map |
| FlutterFlowExtract.EmptyBlockSkipped | extract_ff_translations.py:88-89 | `'k': {}` is no entry |
| FlutterFlowExtract.ListOfTwoSections | extract_ff_translations.py:80-89 | the entries of two sections around a `// Title` line are read in order |
| FlutterFlowExtract.TwoSectionEntries | extract_ff_translations.py:82-89 | two non-blank sections give their entries in order |
| FlutterFlowExtract.ParseTwice | extract_ff_translations.py:91-103 | a key read twice is listed once, reported once, and keeps the second map |
| FlutterFlowExtract.RepeatedKeyAcrossSections | extract_ff_translations.py:80-103 | a key in two sections keeps only the second block's languages and is reported once |
| FlutterFlowExtract.GreetingDeclaredTwice | extract_ff_translations.py:87-103 | two `greeting` entries ending with `{'en': 'Hi', 'fr': ''}` give `{en: Hi, fr: ""}` and one report |
| FlutterFlowExtract.ExtractFlutterFlowTranslations | extract_ff_translations.py:13-47 | a missing file gives `None`; otherwise the languages and the parsed map |
| FlutterFlowExtract.CsvRow | extract_ff_translations.py:158-162 | a row holds the key, then one cell per listed language: that language's text, or `''` when the entry lacks it |
| FlutterFlowExtract.CsvHeader | extract_ff_translations.py:154 | `Translation Key`, then the upper-cased codes |
| FlutterFlowExtract.CsvRows | extract_ff_translations.py:143-162 | an empty table gives nothing; otherwise the header and one row per key, in order |
| FlutterFlowExtract.NonEmptyCount | extract_ff_translations.py:276 | a count never exceeds the number of keys listed |
| FlutterFlowExtract.FilledPartition | extract_ff_translations.py:221-227 | each key lands on exactly one side; the count equals the translated side |
| FlutterFlowExtract.FilledMembers | extract_ff_translations.py:221-227 | a key is missing exactly when it has no text; a pair exists exactly when its text is the key's |
| FlutterFlowExtract.DictViewSize | extract_ff_translations.py:216 | the dict's key order has as many keys as the table |
| FlutterFlowExtract.NonEmptyCountBound | extract_ff_translations.py:276 | each per-language count is at most the number of keys in the table |
| FlutterFlowExtract.AnalyzeSangoCoverage | extract_ff_translations.py:204-227 | nothing for an empty table or without `sg`; otherwise the total, the count of non-blank `sg` texts, the missing keys and the existing pairs in key order, with translated + missing = total |
| FlutterFlowExtract.ScanLanguage | extract_ff_translations.py:216-227 | the loop yields the count, the missing keys and the existing pairs, in key order |
| FlutterFlowExtract.LanguageStats | extract_ff_translations.py:259-277 | nothing for an empty table; otherwise exactly one count per listed language, its number of non-blank texts, at most the table size |

## Left out

- debugscanner.py is not part of this model. It holds directory listing and diagnostics only.
- File discovery and reading are left out: the `rglob`/`glob` patterns, the de-duplicated file lists, `open` and `json.load`. The model takes each file's name with its parsed value or text, in the order the script visits them.
- Printing, `display_translations`, the CSV and JSON writers, `create_sango_template`, `print_summary` and the `main` functions with `input()` are left out. Only the integer counts and the CSV row contents are modelled.
- The float coverage percentages (extract_ff_translations.py:229, 280) are left out, because they are floating point.
- The nine Dart `findall` patterns (test.py:126-157) are left out. Their matches are an input sequence of candidate strings, which goes through the classifier and the insert step.
- The map locator at test.py:187 is left out. The Dart map literals it finds are an input sequence of texts.
- The per-file `try`/`except` blocks are not modelled. The one failure with a defined effect, an ARB value that is not an object, is modelled: the language is recorded and nothing is written.
- `\w` and `\d` are ASCII. `lower()` and `upper()` change ASCII letters only. `$` is taken as the end of the text; before a trailing newline it is not modelled.
- JSON numbers are integers. Floats are not modelled, since they only pass through the flattener as leaves.
- JSON objects are taken as `json.load` returns them. A member name repeated in the JSON text, which `json.load` collapses to its last value, is not re-collapsed by the model.
- `Path.name` is the text after the last `/`. Path normalisation is left out.
- The `source_file` entry of the result of `extract_flutterflow_translations` is left out. So is the `found_keys` set of `extract_from_dart_files`, which is only printed.
- LanguageCode.ExtensionRule: requires the code length `m` to satisfy `IsCodeLength`, instead of stating the length directly. `LanguageCode.CodeLengthIff` shows that this pins `m` to min(number of trailing letters, 3).
- The single Python function `extract_translations_map` is split into `ExtractTranslationsMap`, `ReadSection`, `ReadEntry` and `ReadLanguages`, one per loop level. Likewise, `parse_dart_translation_map` is split into `ParseDartTranslationMap`, `MergeEntry` and `WritePairs`.
