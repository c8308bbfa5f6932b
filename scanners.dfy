/**
  Hand-written equivalents of the fixed regular expressions the two scripts
  use to pull keys and texts out of Dart source.

  Every pattern here is of the shape "literal, greedy run of one character
  class, literal, ..." where the character after a maximal run can never be
  the literal that follows it, unless the regex engine has to back up
  (the one case where it does, the section separator, is spelled out below).
  So a match at a position is decided by the maximal runs alone, and the
  scanners work on the suffix of the text that starts at that position.
*/
module Scanners {

  import opened Wrappers
  import opened Text

  // ---------------------------------------------------------------- key/value patterns

  /** The two spellings of the key/value patterns.  `test.py` accepts either
      quote and whitespace before the colon (`['"]([^'"]+)['"]\s*:\s*`);
      `extract_ff_translations.py` accepts only `'` and puts the colon right
      after the closing quote (`'([^']+)':\s*`). */
  datatype Dialect = Dialect(anyQuote: bool, spaceBeforeColon: bool)

  const GeneralDialect := Dialect(true, true)
  const FlutterFlowDialect := Dialect(false, false)

  /** What follows the key: a `{...}` block (`\{([^}]+)\}`) or a quoted text
      (`['"]([^'"]*)['"]`, or `'([^']*)'`). */
  datatype Shape = Braced | Quoted

  /** One match: the two groups and the length of the matched text. */
  datatype Hit = Hit(key: string, value: string, len: nat)

  predicate QuoteFree(t: string, anyQuote: bool)
  {
    forall i | 0 <= i < |t| :: !IsQuote(t[i], anyQuote)
  }

  /** What the second group of a shape can hold. */
  predicate ValueFits(v: string, shape: Shape, anyQuote: bool)
  {
    match shape
    case Braced => v != [] && '}' !in v
    case Quoted => QuoteFree(v, anyQuote)
  }

  /** The key and the colon: an opening quote, a non-empty quote-free key, a
      closing quote, the colon and the whitespace after it.  Returns the key
      and the position after the whitespace. */
  function KeyColon(s: string, d: Dialect): (r: Option<(string, nat)>)
    ensures r.Some? ==> 0 < r.value.1 <= |s|
    ensures r.Some? ==> r.value.0 != [] && QuoteFree(r.value.0, d.anyQuote)
  {
    if s == [] || !IsQuote(s[0], d.anyQuote) then None
    else
      var n := RunLength(s, 1, NonQuote(d.anyQuote));
      if n == 0 || 1 + n == |s| then None
      else
        var c := 2 + n + (if d.spaceBeforeColon then RunLength(s, 2 + n, Space) else 0);
        if c < |s| && s[c] == ':' then Some((s[1..1 + n], c + 1 + RunLength(s, c + 1, Space)))
        else None
  }

  /** The second group at the start of `t`: `\{([^}]+)\}` or a quoted text.
      Returns the group and the length of the text it spans. */
  function ValueAt(t: string, d: Dialect, shape: Shape): (r: Option<(string, nat)>)
    ensures r.Some? ==> 0 < r.value.1 <= |t| && ValueFits(r.value.0, shape, d.anyQuote)
  {
    if t == [] then None
    else match shape
      case Braced =>
        if t[0] != '{' then None
        else
          var m := RunLength(t, 1, NonCloseBrace);
          if m >= 1 && 1 + m < |t| then Some((t[1..1 + m], 2 + m)) else None
      case Quoted =>
        if !IsQuote(t[0], d.anyQuote) then None
        else
          var m := RunLength(t, 1, NonQuote(d.anyQuote));
          if 1 + m < |t| then Some((t[1..1 + m], 2 + m)) else None
  }

  /** The pattern matched at the start of `s`. */
  function HitAt(s: string, d: Dialect, shape: Shape): (r: Option<Hit>)
    ensures r.Some? ==> 0 < r.value.len <= |s|
    ensures r.Some? ==> r.value.key != [] && QuoteFree(r.value.key, d.anyQuote)
    ensures r.Some? ==> ValueFits(r.value.value, shape, d.anyQuote)
  {
    match KeyColon(s, d)
    case None => None
    case Some((key, u)) =>
      match ValueAt(s[u..], d, shape)
      case None => None
      case Some((v, m)) => Some(Hit(key, v, u + m))
  }

  /** `re.findall`: try each position in turn; after a match go on where it
      ended. */
  function FindAll(s: string, d: Dialect, shape: Shape): (r: seq<(string, string)>)
    ensures forall i | 0 <= i < |r| :: r[i].0 != [] && QuoteFree(r[i].0, d.anyQuote)
    ensures forall i | 0 <= i < |r| :: ValueFits(r[i].1, shape, d.anyQuote)
    decreases |s|
  {
    if s == [] then []
    else match HitAt(s, d, shape)
      case Some(h) => [(h.key, h.value)] + FindAll(s[h.len..], d, shape)
      case None => FindAll(s[1..], d, shape)
  }

  // ---------------------------------------------------------------- rendering and the round trip

  /** The Dart text of a second group: `{block}` or `'text'`. */
  function RenderValue(shape: Shape, v: string): string
  {
    match shape
    case Braced => "{" + v + "}"
    case Quoted => "'" + v + "'"
  }

  /** The Dart text of one entry: `'key': {block}` or `'key': 'text'`. */
  function RenderOne(shape: Shape, k: string, v: string): string
  {
    "'" + k + "': " + RenderValue(shape, v)
  }

  /** Entries separated by `, `. */
  function Render(shape: Shape, es: seq<(string, string)>): string
  {
    if es == [] then ""
    else if |es| == 1 then RenderOne(shape, es[0].0, es[0].1)
    else RenderOne(shape, es[0].0, es[0].1) + ", " + Render(shape, es[1..])
  }

  predicate Renderable(shape: Shape, es: seq<(string, string)>)
  {
    forall i | 0 <= i < |es| ::
      es[i].0 != [] && QuoteFree(es[i].0, true) && ValueFits(es[i].1, shape, true)
  }

  /** A character outside the punctuation `'`, `:`, `,`, space (and `{`, `}`
      around blocks) and absent from every key and value is absent from the rendering. */
  lemma {:induction false} RenderAvoids(shape: Shape, es: seq<(string, string)>, c: char)
    requires c != '\'' && c != ':' && c != ',' && c != ' '
    requires shape == Braced ==> c != '{' && c != '}'
    requires forall i | 0 <= i < |es| :: c !in es[i].0 && c !in es[i].1
    ensures c !in Render(shape, es)
    decreases |es|
  {
    if |es| > 1 {
      RenderAvoids(shape, es[1..], c);
    }
  }

  /** A rendering starts with the key's quote and ends with the value's
      closing `}` or quote. */
  lemma {:induction false} RenderEnds(shape: Shape, es: seq<(string, string)>)
    requires es != []
    ensures var r := Render(shape, es);
      r != [] && r[0] == '\'' && r[|r| - 1] == (if shape == Braced then '}' else '\'')
    decreases |es|
  {
    if |es| > 1 {
      RenderEnds(shape, es[1..]);
    }
  }

  /** A run of `cls` characters closed by a character outside the class. */
  lemma RunOver(s: string, u: nat, v: string, close: char, cls: CharClass)
    requires u + |v| < |s| && s[u..u + |v|] == v && s[u + |v|] == close
    requires forall i | 0 <= i < |v| :: InClass(v[i], cls)
    requires !InClass(close, cls)
    ensures RunLength(s, u, cls) == |v|
  {
    assert forall i | u <= i < u + |v| :: s[i] == v[i - u];
    RunLengthExact(s, u, |v|, cls);
  }

  /** A rendered key is read back with its colon and the space after it. */
  lemma KeyColonRender(d: Dialect, k: string, tail: string)
    requires k != [] && QuoteFree(k, true)
    requires tail != [] && !IsSpace(tail[0])
    ensures KeyColon("'" + k + "': " + tail, d) == Some((k, |k| + 4))
  {
    RenderedKeyLayout(k, tail);
    KeyColonAt("'" + k + "': " + tail, d, k);
  }

  /** Where the parts of `'k': tail` sit. */
  lemma RenderedKeyLayout(k: string, tail: string)
    requires tail != []
    ensures var s := "'" + k + "': " + tail;
      && 4 + |k| < |s| && s[0] == '\'' && s[1..1 + |k|] == k && s[1 + |k|] == '\''
      && s[2 + |k|] == ':' && s[3 + |k|] == ' ' && s[4 + |k|] == tail[0]
  {
    var s := "'" + k + "': " + tail;
    assert s == ['\''] + k + ['\'', ':', ' '] + tail;
  }

  /** A quoted key, its closing quote, the colon and one space before a
      character that is no space: KeyColon reads the key back. */
  lemma KeyColonAt(s: string, d: Dialect, k: string)
    requires k != [] && QuoteFree(k, true)
    requires 4 + |k| < |s| && s[0] == '\'' && s[1..1 + |k|] == k && s[1 + |k|] == '\''
    requires s[2 + |k|] == ':' && s[3 + |k|] == ' ' && !IsSpace(s[4 + |k|])
    ensures KeyColon(s, d) == Some((k, |k| + 4))
  {
    var n := |k|;
    RunOver(s, 1, k, '\'', NonQuote(d.anyQuote));
    RunLengthExact(s, 2 + n, 0, Space);
    assert s[3 + n..4 + n] == " ";
    RunOver(s, 3 + n, " ", s[4 + n], Space);
  }

  /** A rendered second group is read back. */
  lemma ValueRender(d: Dialect, shape: Shape, v: string, rest: string)
    requires ValueFits(v, shape, true)
    ensures ValueAt(RenderValue(shape, v) + rest, d, shape) == Some((v, |v| + 2))
  {
    var t := RenderValue(shape, v) + rest;
    var close := if shape.Braced? then '}' else '\'';
    assert t[1..1 + |v|] == v && t[1 + |v|] == close;
    match shape
    case Braced => RunOver(t, 1, v, close, NonCloseBrace);
    case Quoted => RunOver(t, 1, v, close, NonQuote(d.anyQuote));
  }

  /** A match is a key with its colon followed by a second group. */
  lemma HitFromParts(s: string, d: Dialect, shape: Shape, k: string, u: nat, v: string, m: nat)
    requires KeyColon(s, d) == Some((k, u)) && ValueAt(s[u..], d, shape) == Some((v, m))
    ensures HitAt(s, d, shape) == Some(Hit(k, v, u + m))
  {
  }

  lemma HitRenderOne(d: Dialect, shape: Shape, k: string, v: string, rest: string)
    requires k != [] && QuoteFree(k, true) && ValueFits(v, shape, true)
    ensures HitAt(RenderOne(shape, k, v) + rest, d, shape) == Some(Hit(k, v, |RenderOne(shape, k, v)|))
  {
    KeyColonOfRender(d, shape, k, v, rest);
    ValueRender(d, shape, v, rest);
    HitFromParts(RenderOne(shape, k, v) + rest, d, shape, k, |k| + 4, v, |v| + 2);
  }

  lemma KeyColonOfRender(d: Dialect, shape: Shape, k: string, v: string, rest: string)
    requires k != [] && QuoteFree(k, true) && ValueFits(v, shape, true)
    ensures KeyColon(RenderOne(shape, k, v) + rest, d) == Some((k, |k| + 4))
    ensures (RenderOne(shape, k, v) + rest)[|k| + 4..] == RenderValue(shape, v) + rest
  {
    var tail := RenderValue(shape, v) + rest;
    var s := "'" + k + "': " + tail;
    assert s == RenderOne(shape, k, v) + rest;
    KeyColonRender(d, k, tail);
    SplitAfterKey(k, tail);
  }

  lemma SplitAfterKey(k: string, tail: string)
    ensures ("'" + k + "': " + tail)[|k| + 4..] == tail
  {
  }
  /** After a match the scan resumes where it ended. */
  lemma FindAllAfterHit(s: string, d: Dialect, shape: Shape, h: Hit)
    requires HitAt(s, d, shape) == Some(h)
    ensures FindAll(s, d, shape) == [(h.key, h.value)] + FindAll(s[h.len..], d, shape)
  {
  }

  /** The separator `, ` holds no quote, so the scan steps over it. */
  lemma FindAllSkipsSeparator(s: string, d: Dialect, shape: Shape)
    ensures FindAll(", " + s, d, shape) == FindAll(s, d, shape)
  {
    FindAllSkipsQuoteFree(", ", s, d, shape);
  }

  /** A rendered entry at the front is found, and the scan goes on after it. */
  lemma FindAllRenderedHead(d: Dialect, shape: Shape, k: string, v: string, rest: string)
    requires k != [] && QuoteFree(k, true) && ValueFits(v, shape, true)
    ensures FindAll(RenderOne(shape, k, v) + rest, d, shape) == [(k, v)] + FindAll(rest, d, shape)
  {
    var one := RenderOne(shape, k, v);
    HitRenderOne(d, shape, k, v, rest);
    FindAllAfterHit(one + rest, d, shape, Hit(k, v, |one|));
    assert (one + rest)[|one|..] == rest;
  }

  lemma FindAllRenderedSeparated(d: Dialect, shape: Shape, k: string, v: string, rest: string)
    requires k != [] && QuoteFree(k, true) && ValueFits(v, shape, true)
    ensures FindAll(RenderOne(shape, k, v) + ", " + rest, d, shape) == [(k, v)] + FindAll(rest, d, shape)
  {
    var one := RenderOne(shape, k, v);
    FindAllRenderedHead(d, shape, k, v, ", " + rest);
    assert one + ", " + rest == one + (", " + rest);
    FindAllSkipsSeparator(rest, d, shape);
  }

  lemma FindAllRenderedLast(d: Dialect, shape: Shape, k: string, v: string)
    requires k != [] && QuoteFree(k, true) && ValueFits(v, shape, true)
    ensures FindAll(RenderOne(shape, k, v), d, shape) == [(k, v)]
  {
    FindAllRenderedHead(d, shape, k, v, "");
    assert RenderOne(shape, k, v) + "" == RenderOne(shape, k, v);
  }

  /** Scanning rendered entries gives back exactly those entries, in order,
      repeated keys included. */
  lemma {:induction false} FindAllRender(d: Dialect, shape: Shape, es: seq<(string, string)>)
    requires Renderable(shape, es)
    ensures FindAll(Render(shape, es), d, shape) == es
    decreases |es|
  {
    if es != [] {
      var k, v, tail := es[0].0, es[0].1, es[1..];
      RenderableSplit(shape, es);
      if tail == [] {
        FindAllRenderedLast(d, shape, k, v);
      } else {
        FindAllRenderedSeparated(d, shape, k, v, Render(shape, tail));
        FindAllRender(d, shape, tail);
      }
    }
  }

  /** The first entry of renderable entries is renderable, and so are the others. */
  lemma RenderableSplit(shape: Shape, es: seq<(string, string)>)
    requires es != [] && Renderable(shape, es)
    ensures es[0].0 != [] && QuoteFree(es[0].0, true) && ValueFits(es[0].1, shape, true)
    ensures Renderable(shape, es[1..])
    ensures es == [(es[0].0, es[0].1)] + es[1..]
  {
    forall i | 0 <= i < |es[1..]| ensures es[1..][i] == es[i + 1] { }
  }

  /** The scan steps over text holding no quote. */
  lemma {:induction false} FindAllSkipsQuoteFree(u: string, rest: string, d: Dialect, shape: Shape)
    requires QuoteFree(u, d.anyQuote)
    ensures FindAll(u + rest, d, shape) == FindAll(rest, d, shape)
    decreases |u|
  {
    if u != [] {
      var s := u + rest;
      assert s[0] == u[0];
      assert KeyColon(s, d).None?;
      assert FindAll(s, d, shape) == FindAll(s[1..], d, shape);
      assert QuoteFree(u[1..], d.anyQuote) by {
        assert forall i | 0 <= i < |u[1..]| :: u[1..][i] == u[i + 1];
      }
      assert s[1..] == u[1..] + rest;
      FindAllSkipsQuoteFree(u[1..], rest, d, shape);
    } else {
      assert u + rest == rest;
    }
  }

  /** Whitespace holds no quote, so nothing is found in it: skipping blank
      sections changes nothing. */
  lemma {:induction false} FindAllBlank(s: string, d: Dialect, shape: Shape)
    requires forall i | 0 <= i < |s| :: IsSpace(s[i])
    ensures FindAll(s, d, shape) == []
    decreases |s|
  {
    if s != [] {
      assert forall i | 0 <= i < |s[1..]| :: s[1..][i] == s[i + 1];
      FindAllBlank(s[1..], d, shape);
    }
  }

  // ---------------------------------------------------------------- quoted codes: '([^']+)'

  /** `'([^']+)'` at the start of `s`: the code and the length matched. */
  function CodeAt(s: string): (r: Option<(string, nat)>)
    ensures r.Some? ==> 0 < r.value.1 <= |s| && r.value.0 != [] && QuoteFree(r.value.0, false)
  {
    if s == [] || s[0] != '\'' then None
    else
      var n := RunLength(s, 1, NonQuote(false));
      if n >= 1 && 1 + n < |s| then Some((s[1..1 + n], 2 + n)) else None
  }

  /** `re.findall(r"'([^']+)'", s)` */
  function FindCodes(s: string): (r: seq<string>)
    ensures forall i | 0 <= i < |r| :: r[i] != [] && QuoteFree(r[i], false)
    decreases |s|
  {
    if s == [] then []
    else match CodeAt(s)
      case Some((c, n)) => [c] + FindCodes(s[n..])
      case None => FindCodes(s[1..])
  }

  /** A Dart list body: `'en', 'sg', 'fr'`. */
  function RenderCodes(cs: seq<string>): string
  {
    if cs == [] then ""
    else if |cs| == 1 then "'" + cs[0] + "'"
    else "'" + cs[0] + "', " + RenderCodes(cs[1..])
  }

  /** A character that is neither `'`, `,` nor a space and occurs in no code
      does not occur in the rendered list. */
  lemma {:induction false} RenderCodesAvoids(cs: seq<string>, c: char)
    requires c != '\'' && c != ',' && c != ' '
    requires forall i | 0 <= i < |cs| :: c !in cs[i]
    ensures c !in RenderCodes(cs)
    decreases |cs|
  {
    if |cs| > 1 {
      RenderCodesAvoids(cs[1..], c);
    }
  }

  lemma CodeAtRender(c: string, rest: string)
    requires c != [] && QuoteFree(c, false)
    ensures CodeAt("'" + c + "'" + rest) == Some((c, |c| + 2))
  {
    var s := "'" + c + "'" + rest;
    assert s[1..1 + |c|] == c && s[1 + |c|] == '\'';
    RunOver(s, 1, c, '\'', NonQuote(false));
  }

  lemma FindCodesHead(c: string, rest: string)
    requires c != [] && QuoteFree(c, false)
    ensures FindCodes("'" + c + "'" + rest) == [c] + FindCodes(rest)
  {
    var s := "'" + c + "'" + rest;
    CodeAtRender(c, rest);
    assert s[|c| + 2..] == rest;
  }

  lemma FindCodesSeparated(c: string, rest: string)
    requires c != [] && QuoteFree(c, false)
    ensures FindCodes("'" + c + "', " + rest) == [c] + FindCodes(rest)
  {
    assert "'" + c + "', " + rest == "'" + c + "'" + (", " + rest);
    FindCodesHead(c, ", " + rest);
    FindCodesSkipsSeparator(rest);
  }

  /** The separator `, ` holds no quote, so the scan steps over it. */
  lemma FindCodesSkipsSeparator(rest: string)
    ensures FindCodes(", " + rest) == FindCodes(rest)
  {
    var s := ", " + rest;
    assert s[1..] == " " + rest;
    assert (" " + rest)[1..] == rest;
  }

  lemma FindCodesLast(c: string)
    requires c != [] && QuoteFree(c, false)
    ensures FindCodes("'" + c + "'") == [c]
  {
    FindCodesHead(c, "");
    assert "'" + c + "'" + "" == "'" + c + "'";
  }

  /** Reading a rendered list gives back its codes in order, duplicates kept. */
  lemma {:induction false} FindCodesRender(cs: seq<string>)
    requires forall i | 0 <= i < |cs| :: cs[i] != [] && QuoteFree(cs[i], false)
    ensures FindCodes(RenderCodes(cs)) == cs
    decreases |cs|
  {
    if |cs| == 1 {
      FindCodesLast(cs[0]);
    } else if |cs| > 1 {
      FindCodesSeparated(cs[0], RenderCodes(cs[1..]));
      assert forall i | 0 <= i < |cs[1..]| :: cs[1..][i] == cs[i + 1];
      FindCodesRender(cs[1..]);
      assert cs == [cs[0]] + cs[1..];
    }
  }

  // ---------------------------------------------------------------- marker ... close spans

  /** `open(.*?)close`: a literal marker, the shortest text up to the first
      `close` after it.  Without DOTALL the text may not hold a newline. */
  datatype Delimiters = Delimiters(open: string, close: string, dotAll: bool)

  /** `static List<String> languages\(\) => \[(.*?)\];` */
  const LanguagesList := Delimiters("static List<String> languages() => [", "];", false)

  /** `final kTranslationsMap = <Map<String, Map<String, String>>>\[(.*?)\]\.reduce\(` with DOTALL. */
  const TranslationsList :=
    Delimiters("final kTranslationsMap = <Map<String, Map<String, String>>>[", "].reduce(", true)

  /** The span matched at position p: the group of the non-greedy `(.*?)`.
      It grows one character at a time until `close` follows, so it ends at
      the first `close` after the marker; without DOTALL a newline before that
      `close` makes the match fail. */
  function SpanAt(s: string, p: nat, dl: Delimiters): Option<string>
    requires p <= |s|
  {
    if !OccursAt(s, dl.open, p) then None
    else
      var q := p + |dl.open|;
      match IndexOf(s, dl.close, q)
      case None => None
      case Some(j) => if dl.dotAll || '\n' !in s[q..j] then Some(s[q..j]) else None
  }

  /** A span sits right after the marker, is followed by `close`, holds no
      earlier `close`, and holds no newline unless DOTALL. */
  lemma SpanAtMeaning(s: string, p: nat, dl: Delimiters)
    requires p <= |s|
    ensures var r := SpanAt(s, p, dl);
      r.Some? ==> OccursAt(s, dl.open, p)
    ensures var r := SpanAt(s, p, dl);
      r.Some? ==> var q := p + |dl.open|;
      && q + |r.value| <= |s| && s[q..q + |r.value|] == r.value
      && OccursAt(s, dl.close, q + |r.value|)
      && (forall k | q <= k < q + |r.value| :: !OccursAt(s, dl.close, k))
      && (!dl.dotAll ==> '\n' !in r.value)
  {
  }

  /** `re.search`: the leftmost position where the span matches. */
  function SearchSpan(s: string, p: nat, dl: Delimiters): (r: Option<nat>)
    requires p <= |s|
    ensures r.Some? ==> p <= r.value <= |s| && SpanAt(s, r.value, dl).Some?
    ensures r.Some? ==> forall q | p <= q < r.value :: SpanAt(s, q, dl).None?
    ensures r.None? ==> forall q | p <= q <= |s| :: SpanAt(s, q, dl).None?
    decreases |s| - p
  {
    if SpanAt(s, p, dl).Some? then Some(p)
    else if p == |s| then None
    else SearchSpan(s, p + 1, dl)
  }

  /** `match.group(1)` of the search, or None. */
  function FindSpan(s: string, dl: Delimiters): Option<string>
  {
    match SearchSpan(s, 0, dl)
    case None => None
    case Some(p) => SpanAt(s, p, dl)
  }

  /** Without the marker there is no span. */
  lemma FindSpanNeedsMarker(s: string, dl: Delimiters)
    requires !Contains(s, dl.open)
    ensures FindSpan(s, dl).None?
  {
  }

  lemma NoSpanBeforeFirstMarker(s: string, dl: Delimiters, p: nat)
    requires IndexOf(s, dl.open, 0) == Some(p)
    ensures forall q | 0 <= q < p :: q <= |s| && SpanAt(s, q, dl).None?
  {
  }

  /** With DOTALL, when the first marker has no `close` after it, no later
      marker has one either. */
  lemma NoSpanAfterFirstMarker(s: string, dl: Delimiters, p: nat)
    requires dl.dotAll && p <= |s| && IndexOf(s, dl.open, 0) == Some(p) && SpanAt(s, p, dl).None?
    ensures forall q | p <= q <= |s| :: SpanAt(s, q, dl).None?
  {
    assert IndexOf(s, dl.close, p + |dl.open|).None?;
  }

  /** With DOTALL the span belongs to the first marker: it starts right after
      the first occurrence of the marker and stops at the first `close` after
      it; later markers are never looked at. */
  lemma FindSpanFirstMarker(s: string, dl: Delimiters)
    requires dl.dotAll
    ensures FindSpan(s, dl) ==
      match IndexOf(s, dl.open, 0)
      case None => None
      case Some(p) => SpanAt(s, p, dl)
  {
    match IndexOf(s, dl.open, 0)
    case None =>
      FindSpanNeedsMarker(s, dl);
    case Some(p) =>
      NoSpanBeforeFirstMarker(s, dl, p);
      if SpanAt(s, p, dl).None? {
        NoSpanAfterFirstMarker(s, dl, p);
      }
  }

  /** The search reaches the first position where the span matches. */
  lemma {:induction false} SearchSpanAt(s: string, from: nat, p: nat, dl: Delimiters)
    requires from <= p <= |s| && SpanAt(s, p, dl).Some?
    requires forall k | from <= k < p :: SpanAt(s, k, dl).None?
    ensures SearchSpan(s, from, dl) == Some(p)
    decreases p - from
  {
    if from < p {
      SearchSpanAt(s, from + 1, p, dl);
    }
  }

  /** A marker with none before it, a body holding neither the first
      character of `close` nor (without DOTALL) a newline, then `close`: the
      body is what the search returns. */
  lemma FindSpanOf(before: string, dl: Delimiters, body: string, after: string)
    requires dl.close != [] && dl.close[0] !in body
    requires !dl.dotAll ==> '\n' !in body
    requires forall q | 0 <= q < |before| :: !OccursAt(before + dl.open + body + dl.close + after, dl.open, q)
    ensures FindSpan(before + dl.open + body + dl.close + after, dl) == Some(body)
  {
    var s := before + dl.open + body + dl.close + after;
    SpanLayout(before, dl.open, body, dl.close, after);
    SpanOfBody(s, |before|, dl, body);
    SearchSpanAt(s, 0, |before|, dl);
  }

  /** Where the parts of `before + open + body + close + after` sit. */
  lemma SpanLayout(before: string, open: string, body: string, close: string, after: string)
    ensures var s := before + open + body + close + after;
      var q := |before| + |open|;
      && q + |body| + |close| <= |s|
      && s[|before|..q] == open && s[q..q + |body|] == body
      && s[q + |body|..q + |body| + |close|] == close
  {
    var s := before + open + body + close + after;
    var q := |before| + |open|;
    assert s[|before|..q] == open;
    assert s[q..q + |body|] == body;
  }

  /** The marker at p, then a body without the closing text's first
      character (nor a line break unless `re.DOTALL`), then the closing text:
      the span at p is the body. */
  lemma SpanOfBody(s: string, p: nat, dl: Delimiters, body: string)
    requires dl.close != [] && dl.close[0] !in body
    requires !dl.dotAll ==> '\n' !in body
    requires var q := p + |dl.open|;
      && q + |body| + |dl.close| <= |s|
      && s[p..q] == dl.open && s[q..q + |body|] == body
      && s[q + |body|..q + |body| + |dl.close|] == dl.close
    ensures SpanAt(s, p, dl) == Some(body)
  {
    var q := p + |dl.open|;
    CloseNotInBody(s, q, dl.close, body);
    IndexOfAt(s, dl.close, q, q + |body|);
  }

  /** The closing text does not start inside a body lacking its first character. */
  lemma CloseNotInBody(s: string, q: nat, close: string, body: string)
    requires close != [] && close[0] !in body
    requires q + |body| <= |s| && s[q..q + |body|] == body
    ensures forall k | q <= k < q + |body| :: !OccursAt(s, close, k)
  {
    forall k | q <= k < q + |body| ensures !OccursAt(s, close, k) {
      assert s[k] == body[k - q];
    }
  }

  // ---------------------------------------------------------------- section separators

  /** The last newline in s[lo..hi], if any. */
  function LastNewline(s: string, lo: nat, hi: nat): (r: Option<nat>)
    requires lo <= hi <= |s|
    ensures r.Some? ==> lo <= r.value < hi && s[r.value] == '\n'
    ensures r.Some? ==> forall k | r.value < k < hi :: s[k] != '\n'
    ensures r.None? ==> forall k | lo <= k < hi :: s[k] != '\n'
    decreases hi
  {
    if hi == lo then None
    else if s[hi - 1] == '\n' then Some(hi - 1)
    else LastNewline(s, lo, hi - 1)
  }

  // The separator pattern `\s*//\s*[A-Za-z]+\s*\n` at position p; the end of
  // the match.  The leading whitespace, the `//`, the whitespace after it and
  // the letters are all maximal runs.  The trailing `\s*` first takes all the
  // whitespace after the title and then gives back characters until a
  // newline follows, so the match ends after the last newline of that
  // whitespace and fails when it holds none.
  function SeparatorAt(s: string, p: nat): (r: Option<nat>)
    requires p <= |s|
    ensures r.Some? ==> p < r.value <= |s|
  {
    var a := p + RunLength(s, p, Space);
    if !OccursAt(s, "//", a) then None
    else
      var b := a + 2 + RunLength(s, a + 2, Space);
      var l := RunLength(s, b, AsciiLetter);
      if l == 0 then None
      else
        var c := b + l;
        match LastNewline(s, c, c + RunLength(s, c, Space))
        case None => None
        case Some(e) => Some(e + 1)
  }

  /** `re.split` from `start`, looking for the next separator at p. */
  function SplitFrom(s: string, start: nat, p: nat): (r: seq<string>)
    requires start <= p <= |s|
    ensures |r| >= 1
    decreases |s| - p
  {
    if p == |s| then [s[start..]]
    else match SeparatorAt(s, p)
      case Some(e) => [s[start..p]] + SplitFrom(s, e, e)
      case None => SplitFrom(s, start, p + 1)
  }

  // `re.split` on the separator pattern: the texts between separators.
  function SplitSections(s: string): (r: seq<string>)
    ensures |r| >= 1
  {
    SplitFrom(s, 0, 0)
  }

  /** A separator needs a slash where it starts or after. */
  lemma SeparatorNeedsSlash(s: string, p: nat)
    requires p <= |s| && forall k | p <= k < |s| :: s[k] != '/'
    ensures SeparatorAt(s, p).None?
  {
  }

  /** Positions with no separator are stepped over. */
  lemma {:induction false} SplitFromSkip(s: string, start: nat, p: nat, q: nat)
    requires start <= p <= q <= |s|
    requires forall k | p <= k < q :: SeparatorAt(s, k).None?
    ensures SplitFrom(s, start, p) == SplitFrom(s, start, q)
    decreases q - p
  {
    if p < q {
      assert SeparatorAt(s, p).None?;
      assert SplitFrom(s, start, p) == SplitFrom(s, start, p + 1);
      SplitFromSkip(s, start, p + 1, q);
    }
  }

  /** After the last `/` nothing is split off. */
  lemma SplitFromNoSlash(s: string, start: nat, p: nat)
    requires start <= p <= |s| && forall k | p <= k < |s| :: s[k] != '/'
    ensures SplitFrom(s, start, p) == [s[start..]]
  {
    forall k | p <= k < |s| ensures SeparatorAt(s, k).None? {
      SeparatorNeedsSlash(s, k);
    }
    SplitFromSkip(s, start, p, |s|);
  }

  /** A text without `/` is one section. */
  lemma SplitSectionsNoSlash(s: string)
    requires '/' !in s
    ensures SplitSections(s) == [s]
  {
    SplitFromNoSlash(s, 0, 0);
    assert s[0..] == s;
  }

  /** A separator as the Dart file writes it: a comment line holding a title. */
  function SeparatorLine(title: string): string
  {
    "\n// " + title + "\n"
  }

  predicate IsTitle(title: string)
  {
    title != [] && forall i | 0 <= i < |title| :: IsAsciiLetter(title[i])
  }

  /** The separator pattern on a separator line at p whose title is the
      letter run of length l at p + 4. */
  lemma SeparatorAtChars(s: string, p: nat, l: nat)
    requires 0 < l && p + l + 5 <= |s| && RunLength(s, p + 4, AsciiLetter) == l
    requires s[p] == '\n' && s[p + 1] == '/' && s[p + 2] == '/' && s[p + 3] == ' '
    requires s[p + 4 + l] == '\n'
    requires p + l + 5 == |s| || !IsSpace(s[p + l + 5])
    ensures SeparatorAt(s, p) == Some(p + l + 5)
  {
    RunLengthOne(s, p, Space);
    assert OccursAt(s, "//", p + 1);
    RunLengthOne(s, p + 3, Space);
    RunLengthOne(s, p + 4 + l, Space);
    SeparatorAtRuns(s, p, l);
  }

  /** SeparatorAt read off the lengths of its runs. */
  lemma SeparatorAtRuns(s: string, p: nat, l: nat)
    requires 0 < l && p + l + 5 <= |s| && s[p + 4 + l] == '\n'
    requires RunLength(s, p, Space) == 1 && OccursAt(s, "//", p + 1) && RunLength(s, p + 3, Space) == 1
    requires RunLength(s, p + 4, AsciiLetter) == l && RunLength(s, p + 4 + l, Space) == 1
    ensures SeparatorAt(s, p) == Some(p + l + 5)
  {
    var c := p + 4 + l;
    assert LastNewline(s, c, c + 1) == Some(c);
  }

  /** The characters of `a + SeparatorLine(title) + b` around the line. */
  lemma SeparatorLineChars(a: string, title: string, b: string)
    ensures var s := a + SeparatorLine(title) + b; var p := |a|;
      && |s| == p + |title| + 5 + |b|
      && s[p] == '\n' && s[p + 1] == '/' && s[p + 2] == '/' && s[p + 3] == ' '
      && s[p + 4..p + 4 + |title|] == title && s[p + 4 + |title|] == '\n'
      && s[p + |title| + 5..] == b && s[..p] == a
  {
  }

  /** The title of a separator line is the letter run after `// `. */
  lemma SeparatorLineTitle(a: string, title: string, b: string)
    requires IsTitle(title)
    ensures RunLength(a + SeparatorLine(title) + b, |a| + 4, AsciiLetter) == |title|
  {
    var s := a + SeparatorLine(title) + b;
    SeparatorLineChars(a, title, b);
    RunOver(s, |a| + 4, title, '\n', AsciiLetter);
  }

  /** The separator line is matched where it starts and ends after its newline. */
  lemma SeparatorAtLine(a: string, title: string, b: string)
    requires IsTitle(title) && (b == [] || !IsSpace(b[0]))
    ensures SeparatorAt(a + SeparatorLine(title) + b, |a|) == Some(|a| + |title| + 5)
  {
    var s := a + SeparatorLine(title) + b;
    SeparatorLineTitle(a, title, b);
    SeparatorLineChars(a, title, b);
    if b != [] {
      assert s[|a| + |title| + 5] == b[0];
    }
    SeparatorAtChars(s, |a|, |title|);
  }

  /** Before position n, in a text whose first n characters hold no `/` and
      do not end in whitespace, there is no separator. */
  lemma NoSeparatorBefore(s: string, n: nat, p: nat)
    requires p < n <= |s| && !IsSpace(s[n - 1])
    requires forall k | 0 <= k < n :: s[k] != '/'
    ensures SeparatorAt(s, p).None?
  {
    var w := RunLength(s, p, Space);
    assert p + w < n;
  }

  /** With exactly one separator, `re.split` gives the text before it and
      the text after it. */
  lemma SplitAtOneSeparator(s: string, p: nat, e: nat)
    requires p < e <= |s| && SeparatorAt(s, p) == Some(e)
    requires forall k | 0 <= k < p :: SeparatorAt(s, k).None?
    requires forall k | e <= k < |s| :: s[k] != '/'
    ensures SplitSections(s) == [s[..p], s[e..]]
  {
    SplitFromSkip(s, 0, 0, p);
    SplitFromNoSlash(s, e, e);
  }

  /** A separator line between two sections (each without `/`, the first not
      ending and the second not starting in whitespace) is removed, and the
      two sections are what `re.split` returns. */
  lemma SplitSectionsAtLine(a: string, title: string, b: string)
    requires IsTitle(title) && '/' !in a && '/' !in b
    requires a == [] || !IsSpace(a[|a| - 1])
    requires b == [] || !IsSpace(b[0])
    ensures SplitSections(a + SeparatorLine(title) + b) == [a, b]
  {
    var s := a + SeparatorLine(title) + b;
    var e := |a| + |title| + 5;
    assert forall k | 0 <= k < |a| :: SeparatorAt(s, k).None? by {
      SeparatorLineChars(a, title, b);
      forall k | 0 <= k < |a| ensures SeparatorAt(s, k).None? {
        assert forall j | 0 <= j < |a| :: s[j] == a[j];
        NoSeparatorBefore(s, |a|, k);
      }
    }
    assert SeparatorAt(s, |a|) == Some(e) by {
      SeparatorAtLine(a, title, b);
    }
    assert forall k | e <= k < |s| :: s[k] != '/' by {
      SeparatorLineChars(a, title, b);
      forall k | e <= k < |s| ensures s[k] != '/' {
        assert s[k] == s[e..][k - e];
      }
    }
    assert s[..|a|] == a && s[e..] == b by {
      SeparatorLineChars(a, title, b);
    }
    SplitAtOneSeparator(s, |a|, e);
  }
}
