/**
  The translation table both scripts build: translation key -> language code
  -> text (`translations[key][lang]` in Python), and the updates the
  ingestion loops of `test.py` apply to it, stated as functions of the old
  table.  The extractor's methods are proved to produce exactly these.
*/
module TranslationTable {

  import opened Dicts

  type Entry = map<string, string>
  type Table = map<string, Entry>

  /** `translations.get(key, {})` */
  function Row(t: Table, key: string): Entry
  {
    if key in t then t[key] else map[]
  }

  /** Every language used by some entry is among `langs`. */
  predicate LanguagesCovered(t: Table, langs: set<string>)
  {
    forall k, l | k in t && l in t[k] :: l in langs
  }

  /** `if key not in t: t[key] = {}` */
  function EnsureKey(t: Table, key: string): Table
  {
    if key in t then t else t[key := map[]]
  }

  /** `t[key][lang] = text`, after EnsureKey. */
  function SetCell(t: Table, key: string, lang: string, text: string): (r: Table)
    ensures r.Keys == t.Keys + {key}
  {
    t[key := Row(t, key)[lang := text]]
  }

  // ---------------------------------------------------------------- a column written by one file

  /** One file of language `lang` writes `col[k]` into cell (k, lang) for every
      key k of `col`; everything else stays as it was. */
  function WriteColumn(t: Table, lang: string, col: map<string, string>): (r: Table)
    ensures r.Keys == t.Keys + col.Keys
    ensures forall k | k in col :: r[k] == Row(t, k)[lang := col[k]]
    ensures forall k | k in t && k !in col :: r[k] == t[k]
  {
    map k | k in t.Keys + col.Keys :: if k in col then Row(t, k)[lang := col[k]] else t[k]
  }

  /** Writing the cells one at a time builds the column. */
  lemma WriteColumnExtend(t: Table, lang: string, col: map<string, string>, k: string, v: string)
    ensures SetCell(WriteColumn(t, lang, col), k, lang, v) == WriteColumn(t, lang, col[k := v])
  {
    var lhs := SetCell(WriteColumn(t, lang, col), k, lang, v);
    var rhs := WriteColumn(t, lang, col[k := v]);
    assert lhs.Keys == rhs.Keys;
    forall j | j in lhs.Keys ensures lhs[j] == rhs[j] {
      if j == k {
        assert Row(WriteColumn(t, lang, col), k)[lang := v] == Row(t, k)[lang := v];
      }
    }
  }

  /** An empty column still creates nothing. */
  lemma WriteColumnEmpty(t: Table, lang: string)
    ensures WriteColumn(t, lang, map[]) == t
  {
  }

  /** Cell-level reading of WriteColumn: the file's language is overwritten
      on its keys (last write wins), every other cell is kept. */
  lemma WriteColumnCells(t: Table, lang: string, col: map<string, string>, k: string, l: string)
    ensures var r := WriteColumn(t, lang, col);
      && (k in col && l == lang ==> l in r[k] && r[k][l] == col[k])
      && (k in t && l in t[k] && (k !in col || l != lang) ==> l in r[k] && r[k][l] == t[k][l])
      && (k in r && l in r[k] ==> (k in col && l == lang) || (k in t && l in t[k]))
  {
  }

  /** A column in a language already recorded keeps the table covered. */
  lemma WriteColumnCovered(t: Table, lang: string, col: map<string, string>, langs: set<string>)
    requires LanguagesCovered(t, langs) && lang in langs
    ensures LanguagesCovered(WriteColumn(t, lang, col), langs)
  {
  }

  // ---------------------------------------------------------------- keys without text

  /** Every key of `keys` is present; keys already there keep their entry,
      new ones get an empty entry. */
  function EnsureKeys(t: Table, keys: set<string>): (r: Table)
    ensures r.Keys == t.Keys + keys
    ensures forall k | k in t :: r[k] == t[k]
    ensures forall k | k in keys && k !in t :: r[k] == map[]
  {
    map k | k in t.Keys + keys :: Row(t, k)
  }

  lemma EnsureKeysExtend(t: Table, keys: set<string>, k: string)
    ensures EnsureKey(EnsureKeys(t, keys), k) == EnsureKeys(t, keys + {k})
  {
  }

  lemma EnsureKeysCovered(t: Table, keys: set<string>, langs: set<string>)
    requires LanguagesCovered(t, langs)
    ensures LanguagesCovered(EnsureKeys(t, keys), langs)
  {
  }

  // ---------------------------------------------------------------- merging an entry's languages

  /** One `'key': {...}` entry of a Dart map read by `test.py`: the entry is
      created if missing, then each `(lang, text)` pair is written in order, so
      languages the entry does not mention keep their earlier text. */
  function MergeRow(t: Table, key: string, pairs: seq<(string, string)>): (r: Table)
    ensures r.Keys == t.Keys + {key}
    ensures forall k | k in t && k != key :: r[k] == t[k]
  {
    t[key := Row(t, key) + FromPairs(pairs)]
  }

  /** Creating the entry is the merge of no pairs. */
  lemma MergeRowNone(t: Table, key: string)
    ensures MergeRow(t, key, []) == EnsureKey(t, key)
  {
    assert Row(t, key) + map[] == Row(t, key);
  }

  /** Writing one more pair is merging one more pair. */
  lemma MergeRowExtend(t: Table, key: string, pairs: seq<(string, string)>, lang: string, text: string)
    ensures SetCell(MergeRow(t, key, pairs), key, lang, text) == MergeRow(t, key, pairs + [(lang, text)])
  {
    assert (pairs + [(lang, text)])[..|pairs|] == pairs;
    var before := Row(t, key) + FromPairs(pairs);
    assert before[lang := text] == Row(t, key) + FromPairs(pairs)[lang := text];
  }

  /** The languages of a merged entry are those it had plus those of the pairs. */
  lemma MergeRowCovered(t: Table, key: string, pairs: seq<(string, string)>, langs: set<string>)
    requires LanguagesCovered(t, langs)
    requires FromPairs(pairs).Keys <= langs
    ensures LanguagesCovered(MergeRow(t, key, pairs), langs)
  {
  }

  /** A repeated key keeps the languages it does not re-declare, and takes
      the last declared text for those it does. */
  lemma MergeRowCells(t: Table, key: string, pairs: seq<(string, string)>, l: string)
    ensures var r := MergeRow(t, key, pairs)[key];
      && (l in Row(t, key) && l !in FromPairs(pairs) ==> l in r && r[l] == Row(t, key)[l])
      && (forall i | IsLastWith(pairs, l, i) :: l in r && r[l] == pairs[i].1)
      && (l in r <==> l in Row(t, key) || exists i | 0 <= i < |pairs| :: pairs[i].0 == l)
  {
    forall i | IsLastWith(pairs, l, i) ensures FromPairs(pairs)[l] == pairs[i].1 {
      FromPairsLastWins(pairs, l, i);
    }
  }
}
