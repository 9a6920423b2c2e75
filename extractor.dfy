/**
 * `extractFromDefSource`: one block of source text becomes a record holding its
 * trimmed text and, when its first line is a `def`/`class` header with a
 * parenthesised parameter list, the definition's name, kind, docstring and
 * parameters. Every regular expression the function uses is written out as a
 * scan over the characters.
 */
module DefExtractor {
  import opened Wrappers
  import opened Text

  datatype DefKind = Func | Class

  /** The keyword that introduces a definition of kind `k`. */
  function Keyword(k: DefKind): string {
    match k
    case Func => "def"
    case Class => "class"
  }

  /** The value of the record's `__type__` field. */
  function TypeTag(k: DefKind): (r: string)
    ensures r == "func" <==> k == Func
    ensures r == "class" <==> k == Class
  {
    match k
    case Func => "func"
    case Class => "class"
  }

  /** One parameter: absent type hints and defaults are the source's `null`. */
  datatype Param = Param(name: string, typeHint: Option<string>, defaultValue: Option<string>)

  /**
   * The object `extractFromDefSource` returns: `Degenerate` is `{ __source__ }`
   * alone; `Parsed` carries `__source__`, `__name__`, `__type__`,
   * `__description__` and `__parameters__`.
   */
  datatype Record =
    | Degenerate(source: string)
    | Parsed(source: string, name: string, kind: DefKind, description: string, params: seq<Param>)

  /** Where the header regex matched: the name runs from `word` to the `(` at `open`, and `)` is at `close`. */
  datatype Spans = Spans(word: nat, open: nat, close: nat)

  /** The three capture groups of `/^(def|class)\s+(\w+)\((.*)\)/`. */
  datatype Header = Header(kind: DefKind, name: string, params: string)

  /**
   * `s` reads as the header regex with the keyword of `k`, the name in `[w, n)`,
   * the opening parenthesis at `n` and a closing one at `e` on the same line.
   */
  predicate HeaderAt(s: string, k: DefKind, w: nat, n: nat, e: nat) {
    var kw := Keyword(k);
    && |kw| < w < n < e < |s|
    && s[..|kw|] == kw
    && AllSpace(s[|kw|..w])
    && AllWord(s[w..n])
    && s[n] == '('
    && NoLineTerminator(s[n + 1..e])
    && s[e] == ')'
  }

  /** The end of the line that starts at `from`: the reach of a greedy `.*`. */
  function LineEnd(s: string, from: nat): (r: nat)
    requires from <= |s|
    ensures from <= r <= |s|
    ensures NoLineTerminator(s[from..r])
    ensures r == |s| || IsLineTerminator(s[r])
  {
    LineRun(s, from);
    from + CountWhile(s[from..], NonTerminator)
  }

  /**
   * `\((.*)\)` with the `(` at `open`: the position of the last `)` on the
   * same line, which is where the backtracking of the greedy `.*` stops.
   */
  function CloseParen(s: string, open: nat): (r: Option<nat>)
    requires open < |s|
    ensures r.Some? ==> open < r.value < LineEnd(s, open + 1) && s[r.value] == ')'
    ensures r.Some? ==> NoLineTerminator(s[open + 1..r.value])
  {
    var end := LineEnd(s, open + 1);
    match LastIndexOf(s[open + 1..end], ')')
    case None => None
    case Some(c) =>
      NoLineTerminatorWithin(s, open + 1, end, open + 1, open + 1 + c);
      Some(open + 1 + c)
  }

  /** The `)` the match closes with is the last one on its line; without one there is none. */
  lemma CloseParenIsLast(s: string, open: nat)
    requires open < |s|
    ensures CloseParen(s, open).Some? ==>
      forall j :: CloseParen(s, open).value < j < LineEnd(s, open + 1) ==> s[j] != ')'
    ensures CloseParen(s, open).None? ==> forall j :: open < j < LineEnd(s, open + 1) ==> s[j] != ')'
  {
    var end := LineEnd(s, open + 1);
    var line := s[open + 1..end];
    match LastIndexOf(line, ')')
    case None =>
      AbsentFromSlice(s, open + 1, end, ')');
    case Some(c) =>
      assert line[c + 1..] == s[open + 2 + c..end];
      AbsentFromSlice(s, open + 2 + c, end, ')');
  }

  /**
   * Where the header regex with the alternative `k` chosen for the keyword
   * group matches: the name's span `[w, n)` and the closing parenthesis `e`.
   */
  function HeaderSpans(s: string, k: DefKind): (r: Option<Spans>)
    ensures r.Some? ==> HeaderAt(s, k, r.value.word, r.value.open, r.value.close)
  {
    match KeywordWord(s, Keyword(k))
    case None => None
    case Some((w, n)) =>
      if n == |s| || s[n] != '(' then None
      else
        match CloseParen(s, n)
        case None => None
        case Some(e) => Some(Spans(w, n, e))
  }

  /** The capture groups of the header regex with the alternative `k` chosen. */
  function MatchKeyword(s: string, k: DefKind): (r: Option<Header>)
    ensures r.Some? ==> r.value.kind == k && NoLineTerminator(r.value.params)
  {
    match HeaderSpans(s, k)
    case None => None
    case Some(sp) => Some(Header(k, s[sp.word..sp.open], s[sp.open + 1..sp.close]))
  }

  /** `s.match(/^(def|class)\s+(\w+)\((.*)\)/)`; `def` is tried first. */
  function MatchHeader(s: string): (r: Option<Header>)
    ensures r.Some? ==> NoLineTerminator(r.value.params)
  {
    match MatchKeyword(s, Func)
    case Some(h) => Some(h)
    case None => MatchKeyword(s, Class)
  }

  /** Completeness and greed of the header regex for one keyword alternative. */
  lemma HeaderSpansComplete(s: string, k: DefKind, w: nat, n: nat, e: nat)
    requires HeaderAt(s, k, w, n, e)
    ensures HeaderSpans(s, k).Some?
    ensures HeaderSpans(s, k).value.word == w && HeaderSpans(s, k).value.open == n
    ensures e <= HeaderSpans(s, k).value.close < |s|
  {
    HeaderWord(s, k, w, n, e);
    HeaderOnOneLine(s, k, w, n, e);
    CloseParenReaches(s, n, e);
  }

  /** The name of a header is the word the keyword pattern captures. */
  lemma HeaderWord(s: string, k: DefKind, w: nat, n: nat, e: nat)
    requires HeaderAt(s, k, w, n, e)
    ensures KeywordWord(s, Keyword(k)) == Some((w, n))
  {
    KeywordWordComplete(s, Keyword(k), w, n);
  }

  /** The closing parenthesis of a header is on the line of its opening one. */
  lemma HeaderOnOneLine(s: string, k: DefKind, w: nat, n: nat, e: nat)
    requires HeaderAt(s, k, w, n, e)
    ensures e < LineEnd(s, n + 1)
  {
    forall i | n + 1 <= i <= e ensures !IsLineTerminator(s[i]) {
      if i < e { assert s[i] == s[n + 1..e][i - n - 1]; }
    }
  }

  /** Any `)` on the line of the `(` at `open` is at or before the one the match closes with. */
  lemma CloseParenReaches(s: string, open: nat, e: nat)
    requires open < e < |s| && e < LineEnd(s, open + 1) && s[e] == ')'
    ensures CloseParen(s, open).Some? && e <= CloseParen(s, open).value
  {
    CloseParenIsLast(s, open);
  }

  /**
   * Soundness of the header match: a captured header is the keyword,
   * whitespace, a word, `(`, text without a line break, and `)`, and no
   * later `)` on that line would also close it.
   */
  lemma MatchHeaderSound(s: string)
    requires MatchHeader(s).Some?
    ensures var h := MatchHeader(s).value;
      exists w: nat, n: nat, e: nat ::
        && HeaderAt(s, h.kind, w, n, e) && h.name == s[w..n] && h.params == s[n + 1..e]
        && (forall e': nat :: HeaderAt(s, h.kind, w, n, e') ==> e' <= e)
  {
    var h := MatchHeader(s).value;
    var k := h.kind;
    assert MatchKeyword(s, k) == Some(h);
    MatchKeywordOfSpans(s, k);
    var sp := HeaderSpans(s, k).value;
    HeaderSpansGreedy(s, k);
    assert HeaderAt(s, k, sp.word, sp.open, sp.close);
  }

  /** No later `)` on the line would close a found header. */
  lemma HeaderSpansGreedy(s: string, k: DefKind)
    requires HeaderSpans(s, k).Some?
    ensures var sp := HeaderSpans(s, k).value;
      forall e': nat :: HeaderAt(s, k, sp.word, sp.open, e') ==> e' <= sp.close
  {
    var sp := HeaderSpans(s, k).value;
    forall e': nat | HeaderAt(s, k, sp.word, sp.open, e') ensures e' <= sp.close {
      HeaderSpansComplete(s, k, sp.word, sp.open, e');
    }
  }

  /** The text's first letter decides which alternative of `(def|class)` can match. */
  lemma MatchHeaderPicksKeyword(s: string, k: DefKind)
    requires |Keyword(k)| <= |s| && s[..|Keyword(k)|] == Keyword(k)
    ensures MatchHeader(s) == MatchKeyword(s, k)
  {
    var other := if k == Func then Class else Func;
    assert s[0] == Keyword(k)[0] by { assert s[0] == s[..|Keyword(k)|][0]; }
    KeywordMismatch(s, Keyword(other));
    assert MatchKeyword(s, other).None?;
  }

  /**
   * Completeness and greed of the header match: whenever the text reads as a
   * header, the match succeeds with that keyword and name, and the captured
   * parameter text runs to the last `)` of the line, so it is at least as long.
   */
  lemma MatchHeaderComplete(s: string, k: DefKind, w: nat, n: nat, e: nat)
    requires HeaderAt(s, k, w, n, e)
    ensures MatchHeader(s).Some?
    ensures MatchHeader(s).value.kind == k && MatchHeader(s).value.name == s[w..n]
    ensures exists e': nat :: e <= e' && HeaderAt(s, k, w, n, e') && MatchHeader(s).value.params == s[n + 1..e']
  {
    MatchHeaderPicksKeyword(s, k);
    MatchKeywordComplete(s, k, w, n, e);
  }

  /** `MatchHeaderComplete` for the alternative `k` of the keyword group. */
  lemma MatchKeywordComplete(s: string, k: DefKind, w: nat, n: nat, e: nat)
    requires HeaderAt(s, k, w, n, e)
    ensures MatchKeyword(s, k).Some?
    ensures MatchKeyword(s, k).value.name == s[w..n]
    ensures exists e': nat :: e <= e' && HeaderAt(s, k, w, n, e') && MatchKeyword(s, k).value.params == s[n + 1..e']
  {
    HeaderSpansComplete(s, k, w, n, e);
    MatchKeywordOfSpans(s, k);
    var sp := HeaderSpans(s, k).value;
    assert HeaderAt(s, k, w, n, sp.close);
  }

  predicate IsQuote(c: char) {
    c == '\'' || c == '"'
  }

  /** `['"]{3}` matches at position `p`. */
  predicate TripleAt(s: string, p: nat) {
    p + 3 <= |s| && IsQuote(s[p]) && IsQuote(s[p + 1]) && IsQuote(s[p + 2])
  }

  /** The first position at or after `from` where `['"]{3}` matches. */
  function FirstTriple(s: string, from: nat): (r: Option<nat>)
    ensures r.Some? ==> from <= r.value && TripleAt(s, r.value)
    decreases |s| - from
  {
    if from + 3 > |s| then None
    else if TripleAt(s, from) then Some(from)
    else FirstTriple(s, from + 1)
  }

  /** The search skips no match: nothing before the found position, or nothing at all, is a triple quote. */
  lemma {:induction false} FirstTripleIsFirst(s: string, from: nat)
    ensures FirstTriple(s, from).Some? ==> forall q :: from <= q < FirstTriple(s, from).value ==> !TripleAt(s, q)
    ensures FirstTriple(s, from).None? ==> forall q :: from <= q ==> !TripleAt(s, q)
    decreases |s| - from
  {
    if from + 3 <= |s| && !TripleAt(s, from) {
      FirstTripleIsFirst(s, from + 1);
    }
  }

  /** Group 1 of `s.match(/['"]{3}([\s\S]*?)['"]{3}/)`. */
  function Docstring(s: string): Option<string> {
    match FirstTriple(s, 0)
    case None => None
    case Some(p) =>
      match FirstTriple(s, p + 3)
      case None => None
      case Some(q) => Some(s[p + 3..q])
  }

  /**
   * The docstring is the leftmost match of the regex with the lazy body: it
   * opens at the first triple quote and closes at the next one that does not
   * overlap it; there is none exactly when no two such triples exist.
   */
  lemma DocstringIsFirstLazyMatch(s: string)
    ensures Docstring(s).Some? ==>
      exists p: nat, q: nat ::
        && p + 3 <= q && TripleAt(s, p) && TripleAt(s, q)
        && Docstring(s).value == s[p + 3..q]
        && (forall p': nat :: p' < p ==> !TripleAt(s, p'))
        && (forall q' :: p + 3 <= q' < q ==> !TripleAt(s, q'))
    ensures Docstring(s).None? <==>
      forall p: nat, q: nat :: p + 3 <= q && TripleAt(s, p) ==> !TripleAt(s, q)
  {
    FirstTripleIsFirst(s, 0);
    match FirstTriple(s, 0)
    case None =>
    case Some(p) =>
      FirstTripleIsFirst(s, p + 3);
      match FirstTriple(s, p + 3)
      case None =>
        forall p': nat, q: nat | p' + 3 <= q && TripleAt(s, p') ensures !TripleAt(s, q) {
          assert p <= p';
        }
      case Some(q) =>
        assert Docstring(s).value == s[p + 3..q];
        assert TripleAt(s, p) && TripleAt(s, q);
  }

  /** The record's `__description__`: the docstring, or `""` when there is none. */
  function Description(s: string): string {
    match Docstring(s)
    case Some(d) => d
    case None => ""
  }

  /**
   * `/^(.*?):\s*(.*)$/` applied to the text before the first `=`: when it has
   * a `:`, the name is the trimmed text before the first one and the type hint
   * the trimmed text after it, `null` when empty. On a single line `.` matches
   * every character, so the lazy group stops at the first `:`.
   */
  function SplitTypeHint(head: string): (string, Option<string>) {
    match IndexOf(head, ':')
    case None => (head, None)
    case Some(k) => (Trim(head[..k]), NonEmpty(Trim(head[k + 1..])))
  }

  /**
   * One parameter segment: the text before the first `=` (trimmed) gives the
   * name and type hint; the text between the first and second `=` (trimmed)
   * is the default, `null` when empty or missing. The segment comes from a
   * single line of the header.
   */
  function ParseParam(segment: string): Param
    requires NoLineTerminator(segment)
  {
    var parts := Split(segment, '=');
    var defaultText := if |parts| > 1 then Trim(parts[1]) else "";
    var (name, typeHint) := SplitTypeHint(Trim(parts[0]));
    Param(name, typeHint, NonEmpty(defaultText))
  }

  /**
   * `text.split(/\s*,\s*\/)`: the pieces between commas, each losing the
   * whitespace that touches a comma (leading whitespace of the first piece and
   * trailing whitespace of the last stay).
   */
  function CommaSplit(text: string): (r: seq<string>)
    ensures |r| == |Split(text, ',')|
  {
    var raw := Split(text, ',');
    seq(|raw|, i requires 0 <= i < |raw| => CommaPieceText(raw[i], i == 0, i == |raw| - 1))
  }

  /**
   * One raw piece between commas with the whitespace next to its commas
   * removed: the first piece has no comma before it, the last none after it.
   */
  function CommaPieceText(raw: string, first: bool, last: bool): string {
    var piece := if first then raw else TrimStart(raw);
    if last then piece else TrimEnd(piece)
  }

  /** The `filter(param => param.trim() !== '').map(...)` pipeline over the segments. */
  function ParamsOf(segments: seq<string>): (r: seq<Param>)
    requires forall i :: 0 <= i < |segments| ==> NoLineTerminator(segments[i])
    ensures |r| <= |segments|
  {
    if segments == [] then []
    else
      (if Trim(segments[0]) == "" then [] else [ParseParam(segments[0])])
      + ParamsOf(segments[1..])
  }

  /** A segment with text in it contributes exactly one parameter, in front of the rest. */
  lemma ParamsOfCons(segments: seq<string>)
    requires segments != [] && Trim(segments[0]) != ""
    requires forall i :: 0 <= i < |segments| ==> NoLineTerminator(segments[i])
    ensures ParamsOf(segments) == [ParseParam(segments[0])] + ParamsOf(segments[1..])
  {
  }

  /** The segments of one line are on one line. */
  lemma CommaSplitKeepsNoLineTerminator(text: string)
    requires NoLineTerminator(text)
    ensures forall i :: 0 <= i < |CommaSplit(text)| ==> NoLineTerminator(CommaSplit(text)[i])
  {
    SplitKeepsNoLineTerminator(text, ',');
  }

  /** The record's `__parameters__` for the captured parameter text. */
  function ParseParams(text: string): (r: seq<Param>)
    requires NoLineTerminator(text)
    ensures |r| <= |Split(text, ',')|
  {
    CommaSplitKeepsNoLineTerminator(text);
    ParamsOf(CommaSplit(text))
  }

  /** `extractFromDefSource(block)`. */
  function Extract(block: string): (r: Record)
    ensures r.source == Trim(block)
  {
    var source := Trim(block);
    match MatchHeader(source)
    case None => Degenerate(source)
    case Some(h) => Parsed(source, h.name, h.kind, Description(source), ParseParams(h.params))
  }

  /**
   * A block gives the degenerate `{ __source__ }` record exactly when its
   * trimmed text does not read as a one-line `def`/`class` header.
   */
  lemma ExtractDegenerateIffNoHeader(block: string)
    ensures Extract(block).Degenerate? <==>
      forall k, w: nat, n: nat, e: nat :: !HeaderAt(Trim(block), k, w, n, e)
  {
    var source := Trim(block);
    if MatchHeader(source).Some? {
      MatchHeaderSound(source);
    } else {
      forall k, w: nat, n: nat, e: nat ensures !HeaderAt(source, k, w, n, e) {
        if HeaderAt(source, k, w, n, e) {
          MatchHeaderComplete(source, k, w, n, e);
        }
      }
    }
  }

  /** Trimming comes first, so indentation in front of a block changes nothing. */
  lemma ExtractIgnoresIndentation(ws: string, block: string)
    requires AllSpace(ws)
    ensures Extract(ws + block) == Extract(block)
  {
    TrimSkipsLeadingSpace(ws, block);
  }

  /** Parameter text as the hover shows it (without its indentation): `name[: type][ = default]`. */
  function ParamText(p: Param): string {
    HeadText(p.name, p.typeHint)
    + match p.defaultValue
      case Some(d) => " = " + d
      case None => ""
  }

  /** The part of the parameter text before ` = `. */
  function HeadText(name: string, typeHint: Option<string>): string {
    name
    + match typeHint
      case Some(t) => ": " + t
      case None => ""
  }

  /** One hover line for a parameter: two spaces, the name, `: type` and ` = default` when present. */
  function ParamLine(p: Param): string {
    "  " + ParamText(p)
  }

  /** Text with no whitespace at either end. */
  predicate Unpadded(s: string) {
    s != [] && !IsSpace(s[0]) && !IsSpace(s[|s| - 1])
  }

  /** Text that can stand as one comma-separated segment of a one-line header. */
  predicate Segment(s: string) {
    Unpadded(s) && ',' !in s && NoLineTerminator(s)
  }

  /** Text that survives the parameter parser unchanged: a segment with no `=`. */
  predicate Clean(s: string) {
    Segment(s) && '=' !in s
  }

  /** A parameter whose fields are all clean and whose name has no `:`. */
  predicate CleanParam(p: Param) {
    && Clean(p.name) && ':' !in p.name
    && (p.typeHint.Some? ==> Clean(p.typeHint.value))
    && (p.defaultValue.Some? ==> Clean(p.defaultValue.value))
  }

  /** Two texts without line terminators make one without. */
  lemma NoLineTerminatorConcat(a: string, b: string)
    requires NoLineTerminator(a) && NoLineTerminator(b)
    ensures NoLineTerminator(a + b)
  {
    forall i | 0 <= i < |a + b| ensures !IsLineTerminator((a + b)[i]) {
      if i < |a| { assert (a + b)[i] == a[i]; } else { assert (a + b)[i] == b[i - |a|]; }
    }
  }

  /** Joining two segments around a connector without `,`, line breaks or edge whitespace gives a segment. */
  lemma SegmentConcat(a: string, sep: string, b: string)
    requires Segment(a) && Segment(b)
    requires ',' !in sep && NoLineTerminator(sep)
    ensures Segment(a + sep + b)
  {
    var t := a + sep + b;
    assert t[0] == a[0];
    assert t[|t| - 1] == b[|b| - 1];
    NoLineTerminatorConcat(a, sep);
    NoLineTerminatorConcat(a + sep, b);
  }

  /** The text before ` = ` is clean. */
  lemma HeadTextClean(name: string, typeHint: Option<string>)
    requires Clean(name) && ':' !in name
    requires typeHint.Some? ==> Clean(typeHint.value)
    ensures Clean(HeadText(name, typeHint))
  {
    if typeHint.Some? {
      SegmentConcat(name, ": ", typeHint.value);
    }
  }

  /** The text before ` = ` splits back into name and type hint. */
  lemma HeadTextRoundTrip(name: string, typeHint: Option<string>)
    requires Clean(name) && ':' !in name
    requires typeHint.Some? ==> Clean(typeHint.value)
    ensures SplitTypeHint(HeadText(name, typeHint)) == (name, typeHint)
  {
    var head := HeadText(name, typeHint);
    match typeHint
    case None =>
      assert head == name;
    case Some(t) =>
      var rest := " " + t;
      assert head == name + [':'] + rest;
      IndexOfAfter(name, ':', rest);
      assert head[..|name|] == name;
      assert head[|name| + 1..] == rest;
      TrimEdgesOfClean(name);
      TrimSpaceBefore(t);
  }

  /** A clean parameter renders as one segment. */
  lemma ParamTextSegment(p: Param)
    requires CleanParam(p)
    ensures Segment(ParamText(p))
  {
    HeadTextClean(p.name, p.typeHint);
    if p.defaultValue.Some? {
      SegmentConcat(HeadText(p.name, p.typeHint), " = ", p.defaultValue.value);
    }
  }

  /** `ParseParam` read off the pieces between the `=` signs. */
  lemma ParseParamPieces(segment: string, head: string, rest: seq<string>)
    requires NoLineTerminator(segment) && Split(segment, '=') == [head] + rest
    ensures ParseParam(segment) ==
      var (name, typeHint) := SplitTypeHint(Trim(head));
      Param(name, typeHint, NonEmpty(if rest == [] then "" else Trim(rest[0])))
  {
  }

  /** A parameter text with a default: the head before ` = ` and the default after it. */
  lemma WithDefaultRoundTrip(head: string, d: string)
    requires Clean(head) && Clean(d)
    ensures NoLineTerminator(head + " = " + d)
    ensures ParseParam(head + " = " + d) == Param(SplitTypeHint(head).0, SplitTypeHint(head).1, Some(d))
  {
    var text := head + " = " + d;
    SegmentConcat(head, " = ", d);
    assert Split(text, '=') == [head + " ", " " + d] by {
      assert text == (head + " ") + ['='] + (" " + d);
      SplitAtFirst(head + " ", '=', " " + d);
      SplitNoSeparator(" " + d, '=');
    }
    TrimSpaceAfter(head);
    TrimSpaceBefore(d);
    ParseParamPieces(text, head + " ", [" " + d]);
  }

  /** A parameter text without a default is all head. */
  lemma WithoutDefaultRoundTrip(head: string)
    requires Clean(head)
    ensures ParseParam(head) == Param(SplitTypeHint(head).0, SplitTypeHint(head).1, None)
  {
    SplitNoSeparator(head, '=');
    TrimEdgesOfClean(head);
    ParseParamPieces(head, head, []);
  }

  /**
   * The hover's rendering of a clean parameter parses back to the same
   * parameter: `name: type = default` gives the name, the hint and the
   * default, and absent parts stay absent.
   */
  lemma ParamTextRoundTrip(p: Param)
    requires CleanParam(p)
    ensures NoLineTerminator(ParamText(p))
    ensures ParseParam(ParamText(p)) == p
  {
    ParamTextSegment(p);
    var head := HeadText(p.name, p.typeHint);
    HeadTextClean(p.name, p.typeHint);
    HeadTextRoundTrip(p.name, p.typeHint);
    match p.defaultValue
    case None =>
      assert ParamText(p) == head;
      BareParamRoundTrip(p, head);
    case Some(d) =>
      assert ParamText(p) == head + " = " + d;
      DefaultParamRoundTrip(p, head, d);
  }

  /** `ParamTextRoundTrip` without a default: the text is the head alone. */
  lemma BareParamRoundTrip(p: Param, head: string)
    requires p.defaultValue.None? && head == HeadText(p.name, p.typeHint)
    requires Clean(head) && SplitTypeHint(head) == (p.name, p.typeHint)
    ensures ParseParam(head) == p
  {
    WithoutDefaultRoundTrip(head);
  }

  /** `ParamTextRoundTrip` with a default: the head, ` = ` and the default. */
  lemma DefaultParamRoundTrip(p: Param, head: string, d: string)
    requires p.defaultValue == Some(d) && head == HeadText(p.name, p.typeHint)
    requires Clean(head) && Clean(d) && SplitTypeHint(head) == (p.name, p.typeHint)
    ensures NoLineTerminator(head + " = " + d) && ParseParam(head + " = " + d) == p
  {
    WithDefaultRoundTrip(head, d);
  }

  /** The indented hover line parses back to the same parameter. */
  lemma ParamLineRoundTrip(p: Param)
    requires CleanParam(p)
    ensures NoLineTerminator(ParamLine(p))
    ensures ParseParam(ParamLine(p)) == p
  {
    ParamTextRoundTrip(p);
    IndentedParse(ParamText(p));
  }

  /** The two spaces of indentation in front of a parameter text do not change how it parses. */
  lemma IndentedParse(text: string)
    requires NoLineTerminator(text)
    ensures NoLineTerminator("  " + text)
    ensures ParseParam("  " + text) == ParseParam(text)
  {
    NoLineTerminatorConcat("  ", text);
    IndentedSplit(text, '=');
    var pieces := Split(text, '=');
    var first, rest := pieces[0], pieces[1..];
    assert pieces == [first] + rest;
    ParseParamPieces(text, first, rest);
    ParseParamPieces("  " + text, "  " + first, rest);
    TrimSkipsLeadingSpace("  ", first);
  }

  /** What the parser can produce: a name without `=` or `:`, and hint and default without `=` and never empty. */
  lemma ParseParamFields(segment: string)
    requires NoLineTerminator(segment)
    ensures var p := ParseParam(segment);
      && '=' !in p.name && ':' !in p.name
      && (p.typeHint.Some? ==> p.typeHint.value != "" && '=' !in p.typeHint.value)
      && (p.defaultValue.Some? ==> p.defaultValue.value != "" && '=' !in p.defaultValue.value)
  {
    var parts := Split(segment, '=');
    TrimKeepsAbsence(parts[0], '=');
    SplitTypeHintFields(Trim(parts[0]));
    if |parts| > 1 {
      TrimKeepsAbsence(parts[1], '=');
    }
  }

  /** The name has no `:` and the type hint is never empty; neither gains an `=`. */
  lemma SplitTypeHintFields(head: string)
    requires '=' !in head
    ensures '=' !in SplitTypeHint(head).0 && ':' !in SplitTypeHint(head).0
    ensures SplitTypeHint(head).1.Some? ==>
      SplitTypeHint(head).1.value != "" && '=' !in SplitTypeHint(head).1.value
  {
    match IndexOf(head, ':')
    case None =>
    case Some(k) =>
      assert forall i :: 0 <= i < k ==> head[..k][i] == head[i];
      TrimKeepsAbsence(head[..k], '=');
      TrimKeepsAbsence(head[..k], ':');
      TrimKeepsAbsence(head[k + 1..], '=');
  }

  /** Only the text between the first and the second `=` becomes the default; the rest is dropped. */
  lemma SecondEqualsLost(a: string, b: string, c: string)
    requires '=' !in a && '=' !in b
    requires NoLineTerminator(a) && NoLineTerminator(b) && NoLineTerminator(c)
    ensures NoLineTerminator(a + "=" + b) && NoLineTerminator(a + "=" + b + "=" + c)
    ensures ParseParam(a + "=" + b + "=" + c) == ParseParam(a + "=" + b)
  {
    NoLineTerminatorConcat(a, "=");
    NoLineTerminatorConcat(a + "=", b);
    NoLineTerminatorConcat(a + "=" + b, "=");
    NoLineTerminatorConcat(a + "=" + b + "=", c);
    assert Split(a + "=" + b + "=" + c, '=')[..2] == [a, b] by {
      assert a + "=" + b + "=" + c == a + ['='] + (b + ['='] + c);
      SplitAtFirst(a, '=', b + ['='] + c);
      SplitAtFirst(b, '=', c);
    }
    assert Split(a + "=" + b, '=') == [a, b] by {
      assert a + "=" + b == a + ['='] + b;
      SplitAtFirst(a, '=', b);
      SplitNoSeparator(b, '=');
    }
  }

  /** Empty or blank parameter text gives no parameters. */
  lemma BlankParamsAreNone(text: string)
    requires AllSpace(text) && NoLineTerminator(text)
    ensures ParseParams(text) == []
  {
    assert ',' !in text by {
      assert forall i :: 0 <= i < |text| ==> IsSpace(text[i]);
    }
    SplitNoSeparator(text, ',');
    TrimEmptyIffAllSpace(text);
    assert CommaSplit(text) == [text];
    assert ParamsOf([text]) == [] + ParamsOf([text][1..]);
  }

  /** The hover texts of a parameter list, in order. */
  function ParamTexts(ps: seq<Param>): (r: seq<string>)
    ensures |r| == |ps|
    ensures forall i :: 0 <= i < |ps| ==> r[i] == ParamText(ps[i])
  {
    if ps == [] then [] else [ParamText(ps[0])] + ParamTexts(ps[1..])
  }

  /** A parameter list written out as in a header: the texts joined by `", "`. */
  function ParamsText(ps: seq<Param>): string {
    Join(ParamTexts(ps), ", ")
  }

  /** The `i`-th piece of `\s*,\s*` splitting, from the `i`-th piece of splitting on the comma alone. */
  lemma CommaSplitAt(text: string, i: nat)
    requires i < |Split(text, ',')|
    ensures CommaSplit(text)[i] == CommaPieceText(Split(text, ',')[i], i == 0, i == |Split(text, ',')| - 1)
  {
  }

  /**
   * `\s*,\s*` takes away the whitespace on both sides of every comma: a raw
   * piece made of whitespace, an item without whitespace at its ends and more
   * whitespace becomes that item. Only the whitespace at the very start of the
   * text and at its very end touches no comma and stays.
   */
  lemma CommaPiece(text: string, i: nat, ws1: string, item: string, ws2: string)
    requires i < |Split(text, ',')| && Split(text, ',')[i] == ws1 + item + ws2
    requires AllSpace(ws1) && AllSpace(ws2) && Unpadded(item)
    ensures CommaSplit(text)[i]
      == (if i == 0 then ws1 else "") + item + (if i == |Split(text, ',')| - 1 then ws2 else "")
  {
    CommaSplitAt(text, i);
    PaddedPiece(ws1, item, ws2, i == 0, i == |Split(text, ',')| - 1);
  }

  /** A raw piece loses exactly the whitespace that touches its commas. */
  lemma PaddedPiece(ws1: string, item: string, ws2: string, first: bool, last: bool)
    requires AllSpace(ws1) && AllSpace(ws2) && Unpadded(item)
    ensures CommaPieceText(ws1 + item + ws2, first, last)
      == (if first then ws1 else "") + item + (if last then ws2 else "")
  {
    if !first && !last {
      TrimOfPadded(ws1, item, ws2);
      assert "" + item + "" == item;
    } else if !first {
      assert ws1 + item + ws2 == ws1 + (item + ws2);
      TrimStartOfPadded(ws1, item + ws2);
      assert "" + item + ws2 == item + ws2;
    } else if !last {
      assert ws1 + item + ws2 == (ws1 + item) + ws2;
      TrimEndOfPadded(ws1 + item, ws2);
      assert ws1 + item + "" == ws1 + item;
    }
  }

  /**
   * A whitespace-only piece with a comma on at least one side becomes `""`:
   * the `\s*` next to that comma takes all of it.
   */
  lemma BlankPiece(raw: string, first: bool, last: bool)
    requires AllSpace(raw) && !(first && last)
    ensures CommaPieceText(raw, first, last) == ""
  {
    assert raw + "" == raw && "" + raw == raw;
    if !first {
      TrimStartOfPadded(raw, "");
      TrimEndOfPadded("", "");
    } else {
      TrimEndOfPadded("", raw);
    }
  }

  /**
   * In text with at least one comma, a piece between commas (or after a
   * trailing comma) that holds only whitespace is split out as `""`.
   */
  lemma BlankCommaPiece(text: string, i: nat)
    requires i < |Split(text, ',')| && AllSpace(Split(text, ',')[i])
    requires ',' in text
    ensures CommaSplit(text)[i] == ""
  {
    SplitHasSeveralPieces(text, ',');
    CommaSplitAt(text, i);
    BlankPiece(Split(text, ',')[i], i == 0, i == |Split(text, ',')| - 1);
  }

  /**
   * The filter `param.trim() !== ''` drops a blank segment wherever it
   * stands, and keeps the other segments in their order.
   */
  lemma {:induction false} ParamsOfDropsBlank(a: seq<string>, s: string, b: seq<string>)
    requires Trim(s) == ""
    requires forall i :: 0 <= i < |a| ==> NoLineTerminator(a[i])
    requires NoLineTerminator(s)
    requires forall i :: 0 <= i < |b| ==> NoLineTerminator(b[i])
    ensures ParamsOf(a + [s] + b) == ParamsOf(a + b)
  {
    if a == [] {
      assert a + [s] + b == [s] + b;
      assert ([s] + b)[1..] == b;
      assert a + b == b;
    } else {
      assert (a + [s] + b)[0] == a[0] == (a + b)[0];
      assert (a + [s] + b)[1..] == a[1..] + [s] + b;
      assert (a + b)[1..] == a[1..] + b;
      ParamsOfDropsBlank(a[1..], s, b);
    }
  }

  /** A piece of a `", "`-joined list: the item, after one space unless it is the first. */
  lemma JoinedPiece(text: string, i: nat, item: string)
    requires i < |Split(text, ',')| && Unpadded(item)
    requires Split(text, ',')[i] == if i > 0 then " " + item else item
    ensures CommaSplit(text)[i] == item
  {
    if i > 0 {
      assert " " + item == " " + item + "";
      CommaPiece(text, i, " ", item, "");
    } else {
      assert item == "" + item + "";
      CommaPiece(text, i, "", item, "");
    }
    assert "" + item + "" == item;
  }

  /** Splitting joined segments on `\s*,\s*` gives the segments back. */
  lemma CommaSplitJoin(items: seq<string>)
    requires |items| >= 1
    requires forall i :: 0 <= i < |items| ==> Segment(items[i])
    ensures CommaSplit(Join(items, ", ")) == items
  {
    var text := Join(items, ", ");
    forall i | 0 <= i < |items| ensures ',' !in items[i] {}
    SplitJoinComma(items);
    forall i | 0 <= i < |items| ensures CommaSplit(text)[i] == items[i] {
      JoinedPiece(text, i, items[i]);
    }
  }

  /** Segments that each parse to one parameter parse, together, to exactly those parameters. */
  lemma {:induction false} ParamsOfSegments(segments: seq<string>, ps: seq<Param>)
    requires |segments| == |ps|
    requires forall i :: 0 <= i < |segments| ==> NoLineTerminator(segments[i])
    requires forall i :: 0 <= i < |segments| ==> Trim(segments[i]) != ""
    requires forall i {:trigger ParseParam(segments[i])} :: 0 <= i < |segments| ==> ParseParam(segments[i]) == ps[i]
    ensures ParamsOf(segments) == ps
  {
    if segments != [] {
      ParamsOfCons(segments);
      ParamsOfSegments(segments[1..], ps[1..]);
      assert ParseParam(segments[0]) == ps[0];
      HeadAndTail(ps);
    }
  }

  /** A non-empty list is its first element followed by the rest. */
  lemma HeadAndTail(ps: seq<Param>)
    requires ps != []
    ensures ps == [ps[0]] + ps[1..]
  {
  }

  /** One clean parameter's text is a non-blank segment of one line that parses back to it. */
  lemma ParamTextParses(p: Param)
    requires CleanParam(p)
    ensures NoLineTerminator(ParamText(p)) && Trim(ParamText(p)) != ""
    ensures ParseParam(ParamText(p)) == p
  {
    ParamTextSegment(p);
    TrimEdgesOfClean(ParamText(p));
    ParamTextRoundTrip(p);
  }

  /** Keeping and parsing every segment of rendered clean parameters gives the parameters back. */
  lemma ParamsOfTexts(ps: seq<Param>)
    requires forall i :: 0 <= i < |ps| ==> CleanParam(ps[i])
    ensures forall i :: 0 <= i < |ps| ==> NoLineTerminator(ParamTexts(ps)[i])
    ensures ParamsOf(ParamTexts(ps)) == ps
  {
    var texts := ParamTexts(ps);
    forall i | 0 <= i < |ps|
      ensures NoLineTerminator(texts[i]) && Trim(texts[i]) != "" && ParseParam(texts[i]) == ps[i]
    {
      ParamTextParses(ps[i]);
    }
    ParamsOfSegments(texts, ps);
  }

  /**
   * A list of clean parameters written out as a header's parameter text
   * parses back to the same list, in the same order.
   */
  lemma ParamsRoundTrip(ps: seq<Param>)
    requires forall i :: 0 <= i < |ps| ==> CleanParam(ps[i])
    ensures NoLineTerminator(ParamsText(ps))
    ensures ParseParams(ParamsText(ps)) == ps
  {
    var texts := ParamTexts(ps);
    forall i | 0 <= i < |ps| ensures Segment(texts[i]) {
      ParamTextSegment(ps[i]);
    }
    forall i | 0 <= i < |ps| ensures NoLineTerminator(ParamText(ps[i])) {
      ParamTextSegment(ps[i]);
    }
    JoinKeepsNoLineTerminator(texts, ", ");
    if ps == [] {
      assert ParamsText(ps) == "";
      BlankParamsAreNone("");
    } else {
      CommaSplitJoin(texts);
      ParamsOfTexts(ps);
    }
  }

  /** A one-line header `keyword name(params)` as the extension expects to find it. */
  function Signature(k: DefKind, name: string, ps: seq<Param>): string {
    HeaderText(k, name, ParamsText(ps))
  }

  /** `keyword name(text)`: a one-line header around a given parameter text. */
  function HeaderText(k: DefKind, name: string, text: string): string {
    Keyword(k) + " " + name + "(" + text + ")"
  }

  /** Where each part of a written-out header sits. */
  lemma HeaderPieces(kw: string, name: string, text: string)
    ensures var s := kw + " " + name + "(" + text + ")";
      && |s| == |kw| + |name| + |text| + 3
      && s[..|kw|] == kw && s[|kw|..|kw| + 1] == " "
      && s[|kw| + 1..|kw| + 1 + |name|] == name && s[|kw| + 1 + |name|] == '('
      && s[|kw| + 1 + |name| + 1..|s| - 1] == text && s[|s| - 1] == ')'
  {
    var s := kw + " " + name + "(" + text + ")";
    assert s == kw + (" " + (name + ("(" + (text + ")"))));
  }

  /** A written-out header reads as the header regex, with the parameter text between its parentheses. */
  lemma HeaderTextIsHeader(k: DefKind, name: string, text: string)
    requires name != "" && AllWord(name) && NoLineTerminator(text)
    ensures var s := HeaderText(k, name, text);
      && HeaderAt(s, k, |Keyword(k)| + 1, |Keyword(k)| + 1 + |name|, |s| - 1)
      && s[|Keyword(k)| + 1..|Keyword(k)| + 1 + |name|] == name
      && s[|Keyword(k)| + 1 + |name| + 1..|s| - 1] == text
  {
    var s := HeaderText(k, name, text);
    var kw := Keyword(k);
    HeaderPieces(kw, name, text);
    assert AllSpace(s[|kw|..|kw| + 1]);
  }

  /** A written-out header has no whitespace at its ends, so trimming keeps it. */
  lemma HeaderTextTrimmed(k: DefKind, name: string, text: string)
    ensures Trim(HeaderText(k, name, text)) == HeaderText(k, name, text)
  {
    var s := HeaderText(k, name, text);
    var kw := Keyword(k);
    HeaderPieces(kw, name, text);
    assert s[0] == kw[0] by { assert s[0] == s[..|kw|][0]; }
    TrimEdgesOfClean(s);
  }

  /** A header closed by the text's last character is matched to that character. */
  lemma MatchHeaderWhole(s: string, k: DefKind, w: nat, n: nat)
    requires |s| >= 1 && HeaderAt(s, k, w, n, |s| - 1)
    ensures MatchHeader(s) == Some(Header(k, s[w..n], s[n + 1..|s| - 1]))
  {
    MatchKeywordWhole(s, k, w, n);
    MatchHeaderPicksKeyword(s, k);
  }

  /** `MatchHeaderWhole` for the alternative `k` of the keyword group. */
  lemma MatchKeywordWhole(s: string, k: DefKind, w: nat, n: nat)
    requires |s| >= 1 && HeaderAt(s, k, w, n, |s| - 1)
    ensures MatchKeyword(s, k) == Some(Header(k, s[w..n], s[n + 1..|s| - 1]))
  {
    MatchKeywordComplete(s, k, w, n, |s| - 1);
    var h := MatchKeyword(s, k).value;
    assert h.params == s[n + 1..|s| - 1];
    assert h == Header(k, s[w..n], s[n + 1..|s| - 1]);
  }

  /** The captures are the text of the spans. */
  lemma MatchKeywordOfSpans(s: string, k: DefKind)
    requires HeaderSpans(s, k).Some?
    ensures var sp := HeaderSpans(s, k).value;
      MatchKeyword(s, k) == Some(Header(k, s[sp.word..sp.open], s[sp.open + 1..sp.close]))
  {
  }

  /** The header match of a written-out header captures exactly its parameter text. */
  lemma MatchHeaderText(k: DefKind, name: string, text: string)
    requires name != "" && AllWord(name) && NoLineTerminator(text)
    ensures MatchHeader(HeaderText(k, name, text)) == Some(Header(k, name, text))
  {
    HeaderTextIsHeader(k, name, text);
    MatchHeaderCaptures(HeaderText(k, name, text), k, |Keyword(k)| + 1, |Keyword(k)| + 1 + |name|, name, text);
  }

  /** `MatchHeaderWhole` with the captured texts named. */
  lemma MatchHeaderCaptures(s: string, k: DefKind, w: nat, n: nat, name: string, text: string)
    requires |s| >= 1 && HeaderAt(s, k, w, n, |s| - 1)
    requires s[w..n] == name && s[n + 1..|s| - 1] == text
    ensures MatchHeader(s) == Some(Header(k, name, text))
  {
    MatchHeaderWhole(s, k, w, n);
  }

  /**
   * A header written from a kind, a name and clean parameters is read back
   * as that kind, that name and those parameters.
   */
  lemma SignatureRoundTrip(k: DefKind, name: string, ps: seq<Param>)
    requires name != "" && AllWord(name)
    requires forall i :: 0 <= i < |ps| ==> CleanParam(ps[i])
    ensures var sig := Signature(k, name, ps);
      Extract(sig) == Parsed(sig, name, k, Description(sig), ps)
  {
    ParamsRoundTrip(ps);
    HeaderTextTrimmed(k, name, ParamsText(ps));
    MatchHeaderText(k, name, ParamsText(ps));
  }

  /** The `(` of a header is the first one in the text. */
  lemma HeaderParenIsFirst(s: string, k: DefKind, w: nat, n: nat, e: nat)
    ensures HeaderAt(s, k, w, n, e) ==> forall j :: 0 <= j < n ==> s[j] != '('
  {
    if HeaderAt(s, k, w, n, e) {
      var kw := Keyword(k);
      assert AllWord(kw);
      forall j | 0 <= j < n ensures s[j] != '(' {
        if j < |kw| {
          assert s[j] == s[..|kw|][j];
        } else if j < w {
          assert s[j] == s[|kw|..w][j - |kw|];
        } else {
          assert s[j] == s[w..n][j - w];
        }
      }
    }
  }

  /**
   * A block whose trimmed text has no `(` gives the degenerate record: a
   * class declared without a parenthesised base list (`class Name:`) is one.
   */
  lemma NoParenIsDegenerate(block: string)
    requires forall j :: 0 <= j < |Trim(block)| ==> Trim(block)[j] != '('
    ensures Extract(block).Degenerate?
  {
    forall k, w: nat, n: nat, e: nat ensures !HeaderAt(Trim(block), k, w, n, e) {}
    ExtractDegenerateIffNoHeader(block);
  }

  /**
   * A block whose first `(` is not closed on its own line gives the
   * degenerate record: a header whose parameter list continues on the next
   * line is one.
   */
  lemma UnclosedIsDegenerate(block: string, o: nat)
    requires o < |Trim(block)| && Trim(block)[o] == '('
    requires forall j :: 0 <= j < o ==> Trim(block)[j] != '('
    requires forall j :: o < j < LineEnd(Trim(block), o + 1) ==> Trim(block)[j] != ')'
    ensures Extract(block).Degenerate?
  {
    forall k, w: nat, n: nat, e: nat ensures !HeaderAt(Trim(block), k, w, n, e) {
      UnclosedIsNoHeader(Trim(block), o, k, w, n, e);
    }
    ExtractDegenerateIffNoHeader(block);
  }

  /** No header reading of `s` opens at a first `(` that its line does not close. */
  lemma UnclosedIsNoHeader(s: string, o: nat, k: DefKind, w: nat, n: nat, e: nat)
    requires o < |s| && s[o] == '('
    requires forall j :: 0 <= j < o ==> s[j] != '('
    requires forall j :: o < j < LineEnd(s, o + 1) ==> s[j] != ')'
    ensures !HeaderAt(s, k, w, n, e)
  {
    HeaderParenIsFirst(s, k, w, n, e);
    if HeaderAt(s, k, w, n, e) {
      HeaderOnOneLine(s, k, w, n, e);
    }
  }
}
