/**
 * The JavaScript string built-ins and regular-expression character classes the
 * extension relies on: `\s`, `\w`, the `.` class, `trim`-style replacement,
 * `String.prototype.split` on one character and `Array.prototype.join`.
 */
module Text {
  import opened Wrappers

  /** A JavaScript line terminator: the code points `.` does not match. */
  predicate IsLineTerminator(c: char) {
    c == '\n' || c == '\r' || c == '\U{2028}' || c == '\U{2029}'
  }

  /** JavaScript's `\s`: the WhiteSpace and LineTerminator code points. */
  predicate IsSpace(c: char) {
    || c == ' ' || c == '\t' || c == '\U{000B}' || c == '\U{000C}'
    || c == '\U{00A0}' || c == '\U{1680}' || ('\U{2000}' <= c <= '\U{200A}')
    || c == '\U{202F}' || c == '\U{205F}' || c == '\U{3000}' || c == '\U{FEFF}'
    || IsLineTerminator(c)
  }

  /** JavaScript's `\w` without the `u` flag: `[A-Za-z0-9_]`. */
  predicate IsWordChar(c: char) {
    ('A' <= c <= 'Z') || ('a' <= c <= 'z') || ('0' <= c <= '9') || c == '_'
  }

  predicate AllSpace(s: string) {
    forall i :: 0 <= i < |s| ==> IsSpace(s[i])
  }

  predicate AllWord(s: string) {
    forall i :: 0 <= i < |s| ==> IsWordChar(s[i])
  }

  predicate NoLineTerminator(s: string) {
    forall i :: 0 <= i < |s| ==> !IsLineTerminator(s[i])
  }

  /** The character classes the extension's regular expressions repeat greedily. */
  datatype CharClass = Space | Word | NonTerminator | Token | Dot

  /**
   * `c` is in the class: `\s`, `\w`, `.` (anything but a line terminator),
   * `[a-zA-Z0-9_\.]` (a dotted name), or a literal `\.`.
   */
  predicate In(p: CharClass, c: char) {
    match p
    case Space => IsSpace(c)
    case Word => IsWordChar(c)
    case NonTerminator => !IsLineTerminator(c)
    case Token => IsWordChar(c) || c == '.'
    case Dot => c == '.'
  }

  /** Length of the longest prefix of `s` whose characters are all in `p` (a greedy `p*`). */
  function CountWhile(s: string, p: CharClass): (r: nat)
    ensures r <= |s|
    ensures forall i :: 0 <= i < r ==> In(p, s[i])
    ensures r == |s| || !In(p, s[r])
  {
    if |s| > 0 && In(p, s[0]) then 1 + CountWhile(s[1..], p) else 0
  }

  /** Length of the longest suffix of `s` whose characters all satisfy `p`. */
  function CountWhileBack(s: string, p: CharClass): (r: nat)
    ensures r <= |s|
    ensures forall i :: |s| - r <= i < |s| ==> In(p, s[i])
    ensures r == |s| || !In(p, s[|s| - r - 1])
  {
    if |s| > 0 && In(p, s[|s| - 1]) then 1 + CountWhileBack(s[..|s| - 1], p) else 0
  }

  /** The two properties of a greedy prefix determine its length. */
  lemma CountWhileUnique(s: string, p: CharClass, r: nat)
    requires r <= |s|
    requires forall i :: 0 <= i < r ==> In(p, s[i])
    requires r == |s| || !In(p, s[r])
    ensures CountWhile(s, p) == r
  {
  }

  /** The two properties of a greedy suffix determine its length. */
  lemma CountWhileBackUnique(s: string, p: CharClass, r: nat)
    requires r <= |s|
    requires forall i :: |s| - r <= i < |s| ==> In(p, s[i])
    requires r == |s| || !In(p, s[|s| - r - 1])
    ensures CountWhileBack(s, p) == r
  {
  }

  /** Length of the match of `^\s*`: the indentation of a line. */
  function LeadingSpace(s: string): nat {
    CountWhile(s, Space)
  }

  /** `s.replace(/^\s+/, '')`. */
  function TrimStart(s: string): string {
    s[LeadingSpace(s)..]
  }

  /** `s.replace(/\s+$/, '')`. */
  function TrimEnd(s: string): string {
    s[..|s| - CountWhileBack(s, Space)]
  }

  /** `s.replace(/^\s+|\s+$/g, '')`, which is also `s.trim()`. */
  function Trim(s: string): (r: string)
    ensures r == [] || (!IsSpace(r[0]) && !IsSpace(r[|r| - 1]))
    ensures |r| <= |s|
  {
    TrimEnd(TrimStart(s))
  }

  /** A trimmed string is empty exactly when the original was all whitespace. */
  lemma TrimEmptyIffAllSpace(s: string)
    ensures Trim(s) == "" <==> AllSpace(s)
  {
    var a := LeadingSpace(s);
    var t := s[a..];
    if a < |s| {
      assert !IsSpace(s[a]) && t[0] == s[a];
      assert |Trim(s)| > 0;
    }
  }

  /** Whitespace put in front of a text does not survive trimming. */
  lemma TrimSkipsLeadingSpace(ws: string, s: string)
    requires AllSpace(ws)
    ensures Trim(ws + s) == Trim(s)
  {
    var a := LeadingSpace(s);
    var t := ws + s;
    assert forall i :: 0 <= i < |ws| + a ==> IsSpace(t[i]) by {
      forall i | 0 <= i < |ws| + a ensures IsSpace(t[i]) {
        if i < |ws| { assert t[i] == ws[i]; } else { assert t[i] == s[i - |ws|]; }
      }
    }
    assert |ws| + a == |t| || t[|ws| + a] == s[a];
    CountWhileUnique(t, Space, |ws| + a);
    assert t[|ws| + a..] == s[a..];
  }

  /** `TrimStart` removes exactly the whitespace in front of a text that does not start with whitespace. */
  lemma TrimStartOfPadded(ws: string, core: string)
    requires AllSpace(ws)
    requires core == [] || !IsSpace(core[0])
    ensures TrimStart(ws + core) == core
  {
    var t := ws + core;
    forall i | 0 <= i < |ws| ensures IsSpace(t[i]) {
      assert t[i] == ws[i];
    }
    if core != [] {
      assert t[|ws|] == core[0];
    }
    CountWhileUnique(t, Space, |ws|);
    assert t[|ws|..] == core;
  }

  /** `TrimEnd` removes exactly the whitespace after a text that does not end in whitespace. */
  lemma TrimEndOfPadded(core: string, ws: string)
    requires AllSpace(ws)
    requires core == [] || !IsSpace(core[|core| - 1])
    ensures TrimEnd(core + ws) == core
  {
    var t := core + ws;
    forall i | |t| - |ws| <= i < |t| ensures IsSpace(t[i]) {
      assert t[i] == ws[i - |core|];
    }
    if core != [] {
      assert t[|t| - |ws| - 1] == core[|core| - 1];
    }
    CountWhileBackUnique(t, Space, |ws|);
    assert t[..|core|] == core;
  }

  /**
   * Trimming removes the whitespace on both sides of a text and nothing else:
   * every string is some whitespace, a text without whitespace at its ends, and
   * some whitespace, and its trim is that text.
   */
  lemma TrimOfPadded(ws1: string, core: string, ws2: string)
    requires AllSpace(ws1) && AllSpace(ws2)
    requires core == [] || (!IsSpace(core[0]) && !IsSpace(core[|core| - 1]))
    ensures Trim(ws1 + core + ws2) == core
  {
    if core == [] {
      assert ws1 + core + ws2 == ws1 + ws2;
      TrimSkipsLeadingSpace(ws1, ws2);
      TrimEmptyIffAllSpace(ws2);
    } else {
      var rest := core + ws2;
      assert ws1 + core + ws2 == ws1 + rest;
      TrimStartOfPadded(ws1, rest);
      TrimEndOfPadded(core, ws2);
    }
  }

  /** The trim of a text is a slice of it with nothing but whitespace on either side. */
  lemma TrimIsInfix(s: string)
    ensures LeadingSpace(s) + |Trim(s)| <= |s|
    ensures s[LeadingSpace(s)..LeadingSpace(s) + |Trim(s)|] == Trim(s)
    ensures AllSpace(s[..LeadingSpace(s)]) && AllSpace(s[LeadingSpace(s) + |Trim(s)|..])
  {
    TrimSlice(s, LeadingSpace(s), CountWhileBack(s[LeadingSpace(s)..], Space));
    TrimCuts(s, LeadingSpace(s), CountWhileBack(s[LeadingSpace(s)..], Space));
  }

  /** `Trim` keeps the characters between the leading and the trailing whitespace run. */
  lemma TrimSlice(s: string, a: nat, b: nat)
    requires a == LeadingSpace(s) && b == CountWhileBack(s[a..], Space)
    ensures a + b <= |s| && Trim(s) == s[a..|s| - b]
  {
    var t := s[a..];
    assert Trim(s) == t[..|t| - b];
    assert t[..|t| - b] == s[a..|s| - b];
  }

  /** The leading and the trailing run that `Trim` cuts off are all whitespace. */
  lemma TrimCuts(s: string, a: nat, b: nat)
    requires a == LeadingSpace(s) && b == CountWhileBack(s[a..], Space)
    ensures a + b <= |s|
    ensures AllSpace(s[..a]) && AllSpace(s[|s| - b..])
  {
    LeadingSpaceRun(s);
    var t := s[a..];
    var run := s[|s| - b..];
    forall i | 0 <= i < |run| ensures IsSpace(run[i]) {
      assert run[i] == t[|t| - b + i];
    }
  }

  /** The run `TrimStart` removes is all whitespace. */
  lemma LeadingSpaceRun(s: string)
    ensures AllSpace(s[..LeadingSpace(s)])
  {
    var run := s[..LeadingSpace(s)];
    forall i | 0 <= i < |run| ensures IsSpace(run[i]) {
      assert run[i] == s[i];
    }
  }

  /** `s.split(d)` for a one-character separator `d`. */
  function Split(s: string, d: char): (r: seq<string>)
    ensures |r| >= 1
    ensures forall k :: 0 <= k < |r| ==> d !in r[k]
  {
    if |s| == 0 then [""]
    else
      var rest := Split(s[1..], d);
      if s[0] == d then [""] + rest else [[s[0]] + rest[0]] + rest[1..]
  }

  /** `parts.join(sep)`. */
  function Join(parts: seq<string>, sep: string): string {
    if |parts| == 0 then ""
    else if |parts| == 1 then parts[0]
    else parts[0] + sep + Join(parts[1..], sep)
  }

  /** Joining the pieces of a split with the separator gives back the text. */
  lemma {:induction false} JoinSplit(s: string, d: char)
    ensures Join(Split(s, d), [d]) == s
  {
    if |s| > 0 {
      var rest := Split(s[1..], d);
      JoinSplit(s[1..], d);
      if s[0] == d {
        assert s == [d] + s[1..];
      } else if |rest| == 1 {
        assert s == [s[0]] + s[1..];
      } else {
        assert Join(rest, [d]) == rest[0] + [d] + Join(rest[1..], [d]);
        assert s == [s[0]] + s[1..];
      }
    }
  }

  /** A text free of the separator is one piece. */
  lemma {:induction false} SplitNoSeparator(s: string, d: char)
    requires d !in s
    ensures Split(s, d) == [s]
  {
    if |s| > 0 {
      SplitNoSeparator(s[1..], d);
      assert s == [s[0]] + s[1..];
    }
  }

  /** The first separator ends the first piece. */
  lemma {:induction false} SplitAtFirst(a: string, d: char, b: string)
    requires d !in a
    ensures Split(a + [d] + b, d) == [a] + Split(b, d)
  {
    if |a| > 0 {
      SplitAtFirst(a[1..], d, b);
      assert (a + [d] + b)[1..] == a[1..] + [d] + b;
      assert a == [a[0]] + a[1..];
    } else {
      assert (a + [d] + b)[1..] == b;
    }
  }

  /** A text splits into more than one piece exactly when it holds the separator. */
  lemma SplitHasSeveralPieces(s: string, d: char)
    ensures |Split(s, d)| > 1 <==> d in s
  {
    match IndexOf(s, d)
    case None =>
      SplitNoSeparator(s, d);
    case Some(k) =>
      assert s == s[..k] + [d] + s[k + 1..];
      SplitAtFirst(s[..k], d, s[k + 1..]);
  }

  /** A character other than the separator joins the first piece. */
  lemma SplitPrepend(c: char, s: string, d: char)
    requires c != d
    ensures Split([c] + s, d) == [[c] + Split(s, d)[0]] + Split(s, d)[1..]
  {
    assert ([c] + s)[1..] == s;
  }

  /** The first position of `c` in `s`, if any (`indexOf`). */
  function IndexOf(s: string, c: char): (r: Option<nat>)
    ensures r.Some? <==> c in s
    ensures r.Some? ==> r.value < |s| && s[r.value] == c && c !in s[..r.value]
  {
    if |s| == 0 then None
    else if s[0] == c then Some(0)
    else match IndexOf(s[1..], c)
      case None => None
      case Some(k) => assert s[..k + 1] == [s[0]] + s[1..][..k]; Some(k + 1)
  }

  /** The last position of `c` in `s`, if any (`lastIndexOf`). */
  function LastIndexOf(s: string, c: char): (r: Option<nat>)
    ensures r.Some? <==> c in s
    ensures r.Some? ==> r.value < |s| && s[r.value] == c && c !in s[r.value + 1..]
  {
    if |s| == 0 then None
    else if s[|s| - 1] == c then Some(|s| - 1)
    else
      var init := s[..|s| - 1];
      match LastIndexOf(init, c)
      case None =>
        assert s == init + [s[|s| - 1]];
        None
      case Some(k) =>
        assert s[k + 1..] == init[k + 1..] + [s[|s| - 1]];
        Some(k)
  }

  /**
   * The regular expression `^<kw>\s+(\w+)`: on a match, the span `[w, n)` of
   * the captured word. Both quantifiers are greedy and the classes are
   * disjoint, so the spans are the maximal runs.
   */
  function KeywordWord(s: string, kw: string): (r: Option<(nat, nat)>)
    ensures r.Some? ==> |kw| < r.value.0 < r.value.1 <= |s| && s[..|kw|] == kw
    ensures r.Some? ==> AllSpace(s[|kw|..r.value.0]) && AllWord(s[r.value.0..r.value.1])
    ensures r.Some? ==> r.value.1 == |s| || !IsWordChar(s[r.value.1])
  {
    if |s| < |kw| || s[..|kw|] != kw then None
    else
      var w := |kw| + LeadingSpace(s[|kw|..]);
      if w == |kw| then None
      else
        var n := w + CountWhile(s[w..], Word);
        if n == w then None else Some((w, n))
  }

  /** A run of whitespace followed by a non-space is the indentation. */
  lemma SpaceRun(t: string, r: nat)
    requires r <= |t| && AllSpace(t[..r]) && (r == |t| || !IsSpace(t[r]))
    ensures LeadingSpace(t) == r
  {
    assert forall i :: 0 <= i < r ==> IsSpace(t[i]) by {
      forall i | 0 <= i < r ensures IsSpace(t[i]) { assert t[..r][i] == t[i]; }
    }
    CountWhileUnique(t, Space, r);
  }

  /** A run of word characters followed by a non-word character is the greedy `\w*`. */
  lemma WordRun(u: string, r: nat)
    requires r <= |u| && AllWord(u[..r]) && (r == |u| || !IsWordChar(u[r]))
    ensures CountWhile(u, Word) == r
  {
    assert forall i :: 0 <= i < r ==> IsWordChar(u[i]) by {
      forall i | 0 <= i < r ensures IsWordChar(u[i]) { assert u[..r][i] == u[i]; }
    }
    CountWhileUnique(u, Word, r);
  }

  /** Any way of reading `s` as `<kw>`, whitespace, then a maximal word is the one `KeywordWord` finds. */
  lemma KeywordWordComplete(s: string, kw: string, w: nat, n: nat)
    requires |kw| < w < n <= |s| && s[..|kw|] == kw
    requires AllSpace(s[|kw|..w]) && AllWord(s[w..n])
    requires n == |s| || !IsWordChar(s[n])
    ensures KeywordWord(s, kw) == Some((w, n))
  {
    SpacesBeforeWord(s, |kw|, w, n);
    WordBeforeNonWord(s, w, n);
    assert |kw| + LeadingSpace(s[|kw|..]) == w;
    assert w + CountWhile(s[w..], Word) == n;
  }

  /** The whitespace between `a` and a word starting at `w` is the indentation of `s[a..]`. */
  lemma SpacesBeforeWord(s: string, a: nat, w: nat, n: nat)
    requires a <= w < n <= |s| && AllSpace(s[a..w]) && AllWord(s[w..n])
    ensures LeadingSpace(s[a..]) == w - a
  {
    var t := s[a..];
    assert t[..w - a] == s[a..w];
    assert t[w - a] == s[w];
    assert IsWordChar(s[w]) by { assert s[w..n][0] == s[w]; }
    SpaceRun(t, w - a);
  }

  /** A maximal word at `[w, n)` is the greedy `\w*` of `s[w..]`. */
  lemma WordBeforeNonWord(s: string, w: nat, n: nat)
    requires w <= n <= |s| && AllWord(s[w..n]) && (n == |s| || !IsWordChar(s[n]))
    ensures CountWhile(s[w..], Word) == n - w
  {
    assert s[w..][..n - w] == s[w..n];
    assert n == |s| || s[w..][n - w] == s[n];
    WordRun(s[w..], n - w);
  }

  /** Splitting never brings in a line terminator. */
  lemma {:induction false} SplitKeepsNoLineTerminator(s: string, d: char)
    requires NoLineTerminator(s)
    ensures forall k :: 0 <= k < |Split(s, d)| ==> NoLineTerminator(Split(s, d)[k])
  {
    if |s| > 0 {
      SplitKeepsNoLineTerminator(s[1..], d);
    }
  }

  /** The first occurrence of `c` in `a + [c] + b`, when `a` has none, is at `|a|`. */
  lemma IndexOfAfter(a: string, c: char, b: string)
    requires c !in a
    ensures IndexOf(a + [c] + b, c) == Some(|a|)
  {
    var s := a + [c] + b;
    assert s[|a|] == c;
  }

  /** A space put before a text whose first character is not whitespace is exactly what `TrimStart` removes. */
  lemma TrimStartOneSpace(x: string)
    requires x != [] && !IsSpace(x[0])
    ensures TrimStart(" " + x) == x
  {
    var t := " " + x;
    assert t[1] == x[0];
    CountWhileUnique(t, Space, 1);
  }

  /** A text without whitespace at either end keeps its edges under `TrimEnd` and `TrimStart`. */
  lemma TrimEdgesOfClean(x: string)
    requires x != [] && !IsSpace(x[0]) && !IsSpace(x[|x| - 1])
    ensures TrimStart(x) == x && TrimEnd(x) == x && Trim(x) == x
  {
    CountWhileUnique(x, Space, 0);
    CountWhileBackUnique(x, Space, 0);
  }

  /** One space before a text without whitespace at its ends is trimmed away. */
  lemma TrimSpaceBefore(x: string)
    requires x != [] && !IsSpace(x[0]) && !IsSpace(x[|x| - 1])
    ensures Trim(" " + x) == x
  {
    TrimStartOneSpace(x);
    TrimEdgesOfClean(x);
  }

  /** One space after a text without whitespace at its ends is trimmed away. */
  lemma TrimSpaceAfter(x: string)
    requires x != [] && !IsSpace(x[0]) && !IsSpace(x[|x| - 1])
    ensures Trim(x + " ") == x
  {
    var t := x + " ";
    assert t[0] == x[0];
    CountWhileUnique(t, Space, 0);
    assert TrimStart(t) == t;
    assert t[|t| - 2] == x[|x| - 1];
    CountWhileBackUnique(t, Space, 1);
    assert t[..|t| - 1] == x;
  }

  /** Trimming only removes characters. */
  lemma TrimKeepsAbsence(s: string, c: char)
    requires c !in s
    ensures c !in Trim(s)
  {
    var a := LeadingSpace(s);
    var t := s[a..];
    var r := Trim(s);
    assert r == t[..|r|];
    assert forall i :: 0 <= i < |r| ==> r[i] == s[a + i];
  }

  /** Joining pieces without line terminators around a separator without them gives none. */
  lemma {:induction false} JoinKeepsNoLineTerminator(parts: seq<string>, sep: string)
    requires forall i :: 0 <= i < |parts| ==> NoLineTerminator(parts[i])
    requires NoLineTerminator(sep)
    ensures NoLineTerminator(Join(parts, sep))
  {
    if |parts| > 1 {
      JoinKeepsNoLineTerminator(parts[1..], sep);
      var j := Join(parts[1..], sep);
      var t := parts[0] + sep + j;
      forall i | 0 <= i < |t| ensures !IsLineTerminator(t[i]) {
        if i < |parts[0]| { assert t[i] == parts[0][i]; }
        else if i < |parts[0]| + |sep| { assert t[i] == sep[i - |parts[0]|]; }
        else { assert t[i] == j[i - |parts[0]| - |sep|]; }
      }
    }
  }

  /** Two spaces in front of a text join its first piece when splitting on a separator other than a space. */
  lemma IndentedSplit(s: string, d: char)
    requires d != ' '
    ensures Split("  " + s, d) == ["  " + Split(s, d)[0]] + Split(s, d)[1..]
  {
    assert "  " + s == [' '] + ([' '] + s);
    SplitPrepend(' ', s, d);
    SplitPrepend(' ', " " + s, d);
    assert [' '] + ([' '] + Split(s, d)[0]) == "  " + Split(s, d)[0];
  }

  /**
   * Splitting on `,` a list joined with `", "` gives the first item and then
   * each further item with the one space that followed its comma.
   */
  lemma {:induction false} SplitJoinComma(items: seq<string>)
    requires |items| >= 1
    requires forall i :: 0 <= i < |items| ==> ',' !in items[i]
    ensures |Split(Join(items, ", "), ',')| == |items|
    ensures Split(Join(items, ", "), ',')[0] == items[0]
    ensures forall i :: 1 <= i < |items| ==> Split(Join(items, ", "), ',')[i] == " " + items[i]
  {
    if |items| == 1 {
      SplitNoSeparator(items[0], ',');
    } else {
      var rest := items[1..];
      var j := Join(rest, ", ");
      SplitJoinComma(rest);
      assert Join(items, ", ") == items[0] + [','] + (" " + j);
      SplitAtFirst(items[0], ',', " " + j);
      SplitPrepend(' ', j, ',');
      var raw, tail := Split(Join(items, ", "), ','), Split(j, ',');
      assert raw == [items[0]] + ([" " + tail[0]] + tail[1..]);
      forall i | 1 <= i < |items| ensures raw[i] == " " + items[i] {
        if i > 1 {
          assert raw[i] == tail[i - 1] == " " + rest[i - 1];
        }
      }
    }
  }

  /** A character missing from a slice is missing at each of its positions. */
  lemma AbsentFromSlice(s: string, a: nat, b: nat, c: char)
    requires a <= b <= |s| && c !in s[a..b]
    ensures forall j :: a <= j < b ==> s[j] != c
  {
    forall j | a <= j < b ensures s[j] != c {
      assert s[a..b][j - a] == s[j];
    }
  }

  /** A slice of a text without line terminators has none either. */
  lemma NoLineTerminatorWithin(s: string, a: nat, b: nat, a': nat, b': nat)
    requires a <= a' <= b' <= b <= |s| && NoLineTerminator(s[a..b])
    ensures NoLineTerminator(s[a'..b'])
  {
    forall j | 0 <= j < b' - a' ensures !IsLineTerminator(s[a'..b'][j]) {
      assert s[a'..b'][j] == s[a..b][a' - a + j];
    }
  }

  /** The greedy run of non-terminators from `from` holds no line terminator. */
  lemma LineRun(s: string, from: nat)
    requires from <= |s|
    ensures from + CountWhile(s[from..], NonTerminator) <= |s|
    ensures NoLineTerminator(s[from..from + CountWhile(s[from..], NonTerminator)])
  {
    var len := CountWhile(s[from..], NonTerminator);
    assert forall i :: 0 <= i < len ==> s[from..from + len][i] == s[from..][i];
  }

  /** A keyword whose first letter differs from the text's is not at its start. */
  lemma KeywordMismatch(s: string, kw: string)
    requires |kw| > 0 && |s| > 0 && s[0] != kw[0]
    ensures KeywordWord(s, kw).None?
  {
    if |kw| <= |s| {
      assert s[..|kw|][0] != kw[0];
    }
  }
}
