/**
 * `parsePythonSource`: the text of a Python file is cut into lines, and every
 * line that opens a class, a top-level function or an indented method becomes
 * an entry of a dictionary, holding `extractFromDefSource` of the code block the
 * line starts. Methods, and top-level functions once a class has been seen, go
 * into the entry of the most recent class.
 */
module SourceIndexer {
  import opened Wrappers
  import opened Text
  import opened DefExtractor

  /** A dictionary value: the record, with the methods stored into it when it is a class's. */
  datatype Entry = Entry(record: Record, members: map<string, Record>)

  type Index = map<string, Entry>

  /** The lines of a source text: `source.split('\n')`. */
  function Lines(source: string): (r: seq<string>)
    ensures |r| >= 1
    ensures forall i :: 0 <= i < |r| ==> '\n' !in r[i]
  {
    Split(source, '\n')
  }

  /** `/^\s*\/.exec(line)[0].length`: the width of the line's indentation. */
  function Indent(line: string): (r: nat)
    ensures r <= |line| && AllSpace(line[..r])
    ensures r < |line| ==> !IsSpace(line[r])
  {
    LeadingSpace(line)
  }

  // ---------------------------------------------------------------- code blocks

  /** Line `i` closes the block opened at `start`: it is not blank and not indented deeper. */
  predicate EndsBlock(lines: seq<string>, start: nat, i: nat)
    requires start < i < |lines|
  {
    Indent(lines[i]) <= Indent(lines[start]) && Trim(lines[i]) != ""
  }

  /** The first line at or after `i` that closes the block opened at `start`, or the line count. */
  function BlockEndFrom(lines: seq<string>, start: nat, i: nat): (r: nat)
    requires start < i <= |lines|
    ensures i <= r <= |lines|
    ensures forall j :: i <= j < r ==> !EndsBlock(lines, start, j)
    ensures r < |lines| ==> EndsBlock(lines, start, r)
    decreases |lines| - i
  {
    if i == |lines| || EndsBlock(lines, start, i) then i
    else BlockEndFrom(lines, start, i + 1)
  }

  /**
   * One past the last line of the block opened at `start`: the block runs to
   * the first later line that is neither blank nor indented deeper than the
   * opening line, or to the end of the file.
   */
  function BlockEnd(lines: seq<string>, start: nat): (r: nat)
    requires start < |lines|
    ensures start < r <= |lines|
    ensures forall j :: start < j < r ==> !EndsBlock(lines, start, j)
    ensures r < |lines| ==> EndsBlock(lines, start, r)
  {
    BlockEndFrom(lines, start, start + 1)
  }

  /** The block's text: its lines joined with `\n`. */
  function Block(lines: seq<string>, start: nat): string
    requires start < |lines|
  {
    Join(lines[start..BlockEnd(lines, start)], "\n")
  }

  /** The block begins with the line that opens it, whole. */
  lemma BlockStartsWithHeader(lines: seq<string>, start: nat)
    requires start < |lines|
    ensures |lines[start]| <= |Block(lines, start)|
    ensures Block(lines, start)[..|lines[start]|] == lines[start]
  {
    var parts := lines[start..BlockEnd(lines, start)];
    assert parts[0] == lines[start];
    if |parts| > 1 {
      assert Block(lines, start) == parts[0] + ("\n" + Join(parts[1..], "\n"));
    }
  }

  /** `getCodeBlock(startIndex)`: collects the block's lines, stopping at the first line that ends it. */
  method GetCodeBlock(lines: seq<string>, start: nat) returns (block: string)
    requires start < |lines|
    ensures block == Block(lines, start)
  {
    var blockLines: seq<string> := [];
    var initialIndent := Indent(lines[start]);
    var i := start;
    while i < |lines|
      invariant start <= i <= |lines|
      invariant blockLines == lines[start..i]
      invariant forall j :: start < j < i ==> !EndsBlock(lines, start, j)
    {
      var currentIndent := Indent(lines[i]);
      if i > start && currentIndent <= initialIndent && Trim(lines[i]) != "" {
        break;
      }
      blockLines := blockLines + [lines[i]];
      i := i + 1;
    }
    assert i == |lines| || EndsBlock(lines, start, i);
    assert i == BlockEnd(lines, start);
    block := Join(blockLines, "\n");
  }

  // ---------------------------------------------------------- line patterns

  /** The word after `kw` and whitespace at the start of `line`: `/^<kw>\s+(\w+)/`. */
  function WordAfter(line: string, kw: string): (r: Option<string>)
    ensures r.Some? ==> r.value != "" && AllWord(r.value)
  {
    match KeywordWord(line, kw)
    case None => None
    case Some((w, n)) => Some(line[w..n])
  }

  /** `line.match(/^class\s+(\w+)/)`, group 1. */
  function ClassHeader(line: string): Option<string> {
    WordAfter(line, "class")
  }

  /** `line.match(/^def\s+(\w+)/)`, group 1. */
  function DefHeader(line: string): Option<string> {
    WordAfter(line, "def")
  }

  /**
   * `line.match(/^\s+def\s+(\w+)/)`, group 1: `def` must follow the whole
   * indentation, since a shorter run of whitespace would leave a space where
   * `d` is needed.
   */
  function MethodHeader(line: string): Option<string> {
    var l := Indent(line);
    if l == 0 then None else WordAfter(line[l..], "def")
  }

  /** Which of the three patterns a line matches, tried in the loop's order. */
  datatype LineKind = ClassLine(name: string) | DefLine(name: string) | MethodLine(name: string) | OtherLine

  /** The loop's `if`/`else if` chain over the three matches of one line. */
  function Classify(line: string): (r: LineKind)
    ensures r.ClassLine? || r.DefLine? || r.MethodLine? ==> r.name != "" && AllWord(r.name)
  {
    match ClassHeader(line)
    case Some(c) => ClassLine(c)
    case None =>
      match DefHeader(line)
      case Some(f) => DefLine(f)
      case None =>
        match MethodHeader(line)
        case Some(m) => MethodLine(m)
        case None => OtherLine
  }

  function Kinds(lines: seq<string>): (r: seq<LineKind>)
    ensures |r| == |lines|
    ensures forall i :: 0 <= i < |lines| ==> r[i] == Classify(lines[i])
  {
    seq(|lines|, i requires 0 <= i < |lines| => Classify(lines[i]))
  }

  /** The record `extractFromDefSource` gives for the block each line opens. */
  function Records(lines: seq<string>): (r: seq<Record>)
    ensures |r| == |lines|
  {
    seq(|lines|, i requires 0 <= i < |lines| => Extract(Block(lines, i)))
  }

  // ------------------------------------------------------ what the loop builds

  /** `currentClass` after the first `n` lines: the name from the last class header among them. */
  function LastClass(kinds: seq<LineKind>, n: nat): (r: Option<string>)
    requires n <= |kinds|
  {
    if n == 0 then None
    else if kinds[n - 1].ClassLine? then Some(kinds[n - 1].name)
    else LastClass(kinds, n - 1)
  }

  /**
   * The current class is the name of the last class header, and there is
   * none exactly when no class header has been seen.
   */
  lemma {:induction false} LastClassIsLast(kinds: seq<LineKind>, n: nat)
    requires n <= |kinds|
    ensures LastClass(kinds, n).Some? ==>
      exists i :: 0 <= i < n && kinds[i] == ClassLine(LastClass(kinds, n).value)
        && forall j :: i < j < n ==> !kinds[j].ClassLine?
    ensures LastClass(kinds, n).None? <==> forall j :: 0 <= j < n ==> !kinds[j].ClassLine?
  {
    if n > 0 && !kinds[n - 1].ClassLine? {
      LastClassIsLast(kinds, n - 1);
    }
  }

  /**
   * Line `i` stores a fresh top-level entry under `key`: a class header, or a
   * `def` at the start of the line while no class has been seen.
   */
  predicate TopWriter(kinds: seq<LineKind>, i: nat, key: string)
    requires i < |kinds|
  {
    kinds[i] == ClassLine(key) || (kinds[i] == DefLine(key) && LastClass(kinds, i).None?)
  }

  /**
   * Line `i` stores `key` into the entry of class `cls`: a `def` at the start
   * of the line or an indented `def` while `cls` is the current class.
   */
  predicate MemberWriter(kinds: seq<LineKind>, i: nat, cls: string, key: string)
    requires i < |kinds|
  {
    LastClass(kinds, i) == Some(cls) && (kinds[i] == DefLine(key) || kinds[i] == MethodLine(key))
  }

  /** The last of the first `n` lines that stores a top-level entry under `key`. */
  function LastTop(kinds: seq<LineKind>, n: nat, key: string): (r: Option<nat>)
    requires n <= |kinds|
    ensures r.Some? ==> r.value < n
  {
    if n == 0 then None
    else if TopWriter(kinds, n - 1, key) then Some(n - 1)
    else LastTop(kinds, n - 1, key)
  }

  /** `LastTop` finds a storing line, no later line stores `key`, and it finds none only when no line does. */
  lemma {:induction false} LastTopIsLast(kinds: seq<LineKind>, n: nat, key: string)
    requires n <= |kinds|
    ensures LastTop(kinds, n, key).Some? ==> TopWriter(kinds, LastTop(kinds, n, key).value, key)
    ensures LastTop(kinds, n, key).Some? ==>
      forall j :: LastTop(kinds, n, key).value < j < n ==> !TopWriter(kinds, j, key)
    ensures LastTop(kinds, n, key).None? ==> forall j :: 0 <= j < n ==> !TopWriter(kinds, j, key)
  {
    if n > 0 && !TopWriter(kinds, n - 1, key) {
      LastTopIsLast(kinds, n - 1, key);
    }
  }

  /** One more line: it is the last storing line if it stores `key`, and otherwise nothing changes. */
  lemma TopAfter(kinds: seq<LineKind>, i: nat, key: string)
    requires i < |kinds|
    ensures LastTop(kinds, i + 1, key) == if TopWriter(kinds, i, key) then Some(i) else LastTop(kinds, i, key)
  {
  }

  /** The last of the first `n` lines that stores `key` into the entry of class `cls`. */
  function LastMember(kinds: seq<LineKind>, n: nat, cls: string, key: string): (r: Option<nat>)
    requires n <= |kinds|
    ensures r.Some? ==> r.value < n
  {
    if n == 0 then None
    else if MemberWriter(kinds, n - 1, cls, key) then Some(n - 1)
    else LastMember(kinds, n - 1, cls, key)
  }

  /** `LastMember` finds a storing line, no later line stores `key` into `cls`, and it finds none only when no line does. */
  lemma {:induction false} LastMemberIsLast(kinds: seq<LineKind>, n: nat, cls: string, key: string)
    requires n <= |kinds|
    ensures LastMember(kinds, n, cls, key).Some? ==> MemberWriter(kinds, LastMember(kinds, n, cls, key).value, cls, key)
    ensures LastMember(kinds, n, cls, key).Some? ==>
      forall j :: LastMember(kinds, n, cls, key).value < j < n ==> !MemberWriter(kinds, j, cls, key)
    ensures LastMember(kinds, n, cls, key).None? ==> forall j :: 0 <= j < n ==> !MemberWriter(kinds, j, cls, key)
  {
    if n > 0 && !MemberWriter(kinds, n - 1, cls, key) {
      LastMemberIsLast(kinds, n - 1, cls, key);
    }
  }

  /** One more line: it is the last storing line if it stores `key` into `cls`, and otherwise nothing changes. */
  lemma MemberAfter(kinds: seq<LineKind>, i: nat, cls: string, key: string)
    requires i < |kinds|
    ensures LastMember(kinds, i + 1, cls, key) ==
      if MemberWriter(kinds, i, cls, key) then Some(i) else LastMember(kinds, i, cls, key)
  {
  }

  /** `key` was stored into the entry of `cls` after line `j`, within the first `n` lines. */
  predicate MemberSince(kinds: seq<LineKind>, n: nat, cls: string, key: string, j: nat)
    requires n <= |kinds|
  {
    LastMember(kinds, n, cls, key).Some? && LastMember(kinds, n, cls, key).value > j
  }

  /**
   * The entry under `key` after the first `n` lines: the record of the block
   * opened by the last line that stored it, and as members every name stored
   * into it since then, each with the record of the last line that stored it.
   */
  ghost predicate EntryMatches(records: seq<Record>, kinds: seq<LineKind>, n: nat, key: string, e: Entry)
    requires n <= |records| == |kinds| && LastTop(kinds, n, key).Some?
  {
    var j := LastTop(kinds, n, key).value;
    && e.record == records[j]
    && (forall m :: m in e.members <==> MemberSince(kinds, n, key, m, j))
    && (forall m :: m in e.members ==> e.members[m] == records[LastMember(kinds, n, key, m).value])
  }

  /**
   * The dictionary after the first `n` lines, given each line's kind and the
   * record of the block it opens: exactly the stored keys, each with its entry.
   */
  ghost predicate IndexMatches(records: seq<Record>, kinds: seq<LineKind>, n: nat, index: Index)
    requires n <= |records| == |kinds|
  {
    && (forall key :: key in index <==> LastTop(kinds, n, key).Some?)
    && (forall key :: key in index ==> EntryMatches(records, kinds, n, key, index[key]))
  }

  /** Every key of the dictionary is a name captured by `\w+`: never empty. */
  lemma IndexKeysAreNames(lines: seq<string>, index: Index)
    requires IndexMatches(Records(lines), Kinds(lines), |lines|, index)
    ensures forall key :: key in index ==> key != "" && AllWord(key)
  {
    var kinds := Kinds(lines);
    forall key | key in index ensures key != "" && AllWord(key) {
      LastTopIsLast(kinds, |lines|, key);
      var j := LastTop(kinds, |lines|, key).value;
      assert kinds[j] == Classify(lines[j]);
    }
  }

  /** The current class always has an entry: its header stored one. */
  lemma {:induction false} CurrentClassStored(kinds: seq<LineKind>, n: nat)
    requires n <= |kinds| && LastClass(kinds, n).Some?
    ensures LastTop(kinds, n, LastClass(kinds, n).value).Some?
  {
    if !kinds[n - 1].ClassLine? {
      CurrentClassStored(kinds, n - 1);
    }
  }

  /** An entry whose storing line and member lines are the same after one more line still matches. */
  lemma EntryKept(records: seq<Record>, kinds: seq<LineKind>, i: nat, key: string, e: Entry)
    requires i < |records| == |kinds|
    requires LastTop(kinds, i, key).Some? && LastTop(kinds, i + 1, key) == LastTop(kinds, i, key)
    requires forall m :: LastMember(kinds, i + 1, key, m) == LastMember(kinds, i, key, m)
    requires EntryMatches(records, kinds, i, key, e)
    ensures EntryMatches(records, kinds, i + 1, key, e)
  {
  }

  /** The line that stored `key` last is the current one: its entry is fresh and has no members yet. */
  lemma FreshEntry(records: seq<Record>, kinds: seq<LineKind>, i: nat, key: string)
    requires i < |records| == |kinds| && LastTop(kinds, i + 1, key) == Some(i)
    ensures EntryMatches(records, kinds, i + 1, key, Entry(records[i], map[]))
  {
  }

  /** A member line adds its record under its name to the current class's entry. */
  lemma MemberAdded(records: seq<Record>, kinds: seq<LineKind>, i: nat, c: string, f: string, e: Entry)
    requires i < |records| == |kinds| && MemberWriter(kinds, i, c, f)
    requires LastTop(kinds, i, c).Some? && LastTop(kinds, i + 1, c) == LastTop(kinds, i, c)
    requires EntryMatches(records, kinds, i, c, e)
    ensures EntryMatches(records, kinds, i + 1, c, e.(members := e.members[f := records[i]]))
  {
    forall m ensures LastMember(kinds, i + 1, c, m) == if m == f then Some(i) else LastMember(kinds, i, c, m) {
      MemberAfter(kinds, i, c, m);
    }
  }

  /** A line that stores no member, or comes before any class, leaves the members under `key` as they were. */
  lemma MembersKept(kinds: seq<LineKind>, i: nat, key: string)
    requires i < |kinds|
    requires (!kinds[i].DefLine? && !kinds[i].MethodLine?) || LastClass(kinds, i).None?
    ensures forall m :: LastMember(kinds, i + 1, key, m) == LastMember(kinds, i, key, m)
  {
    forall m ensures LastMember(kinds, i + 1, key, m) == LastMember(kinds, i, key, m) {
      MemberAfter(kinds, i, key, m);
    }
  }

  /**
   * Line `i` stores a fresh entry under `key0` and leaves every other key's
   * storing lines as they were: the dictionary gets a fresh entry under `key0`.
   */
  lemma StoreFresh(records: seq<Record>, kinds: seq<LineKind>, i: nat, index: Index, key0: string)
    requires i < |records| == |kinds| && IndexMatches(records, kinds, i, index)
    requires LastTop(kinds, i + 1, key0) == Some(i)
    requires forall key :: key != key0 ==> LastTop(kinds, i + 1, key) == LastTop(kinds, i, key)
    requires forall key, m :: key != key0 ==> LastMember(kinds, i + 1, key, m) == LastMember(kinds, i, key, m)
    ensures IndexMatches(records, kinds, i + 1, index[key0 := Entry(records[i], map[])])
  {
    var next := index[key0 := Entry(records[i], map[])];
    forall key | key in next ensures EntryMatches(records, kinds, i + 1, key, next[key]) {
      if key == key0 {
        FreshEntry(records, kinds, i, key0);
      } else {
        EntryKept(records, kinds, i, key, index[key]);
      }
    }
  }

  /** A class header replaces the entry under its name by a fresh one without members. */
  lemma ClassStep(records: seq<Record>, kinds: seq<LineKind>, i: nat, index: Index, c: string)
    requires i < |records| == |kinds| && IndexMatches(records, kinds, i, index)
    requires kinds[i] == ClassLine(c)
    ensures IndexMatches(records, kinds, i + 1, index[c := Entry(records[i], map[])])
  {
    forall key ensures LastTop(kinds, i + 1, key) == if key == c then Some(i) else LastTop(kinds, i, key) {
      TopAfter(kinds, i, key);
    }
    forall key, m ensures LastMember(kinds, i + 1, key, m) == LastMember(kinds, i, key, m) {
      MembersKept(kinds, i, key);
    }
    StoreFresh(records, kinds, i, index, c);
  }

  /** A `def` while no class has been seen stores a fresh top-level entry under its name. */
  lemma TopDefStep(records: seq<Record>, kinds: seq<LineKind>, i: nat, index: Index, f: string)
    requires i < |records| == |kinds| && IndexMatches(records, kinds, i, index)
    requires kinds[i] == DefLine(f) && LastClass(kinds, i).None?
    ensures IndexMatches(records, kinds, i + 1, index[f := Entry(records[i], map[])])
  {
    forall key ensures LastTop(kinds, i + 1, key) == if key == f then Some(i) else LastTop(kinds, i, key) {
      TopAfter(kinds, i, key);
    }
    forall key, m ensures LastMember(kinds, i + 1, key, m) == LastMember(kinds, i, key, m) {
      MembersKept(kinds, i, key);
    }
    StoreFresh(records, kinds, i, index, f);
  }

  /** A member line stores its record under its name into the entry of the current class. */
  lemma MemberStep(records: seq<Record>, kinds: seq<LineKind>, i: nat, index: Index, c: string, f: string)
    requires i < |records| == |kinds| && IndexMatches(records, kinds, i, index)
    requires MemberWriter(kinds, i, c, f)
    ensures c in index
    ensures IndexMatches(records, kinds, i + 1,
      index[c := index[c].(members := index[c].members[f := records[i]])])
  {
    CurrentClassStored(kinds, i);
    var next := index[c := index[c].(members := index[c].members[f := records[i]])];
    forall key ensures LastTop(kinds, i + 1, key) == LastTop(kinds, i, key) {
      TopAfter(kinds, i, key);
    }
    forall key | key in next ensures EntryMatches(records, kinds, i + 1, key, next[key]) {
      if key == c {
        MemberAdded(records, kinds, i, c, f, index[c]);
      } else {
        forall m ensures LastMember(kinds, i + 1, key, m) == LastMember(kinds, i, key, m) {
          MemberAfter(kinds, i, key, m);
        }
        EntryKept(records, kinds, i, key, index[key]);
      }
    }
  }

  /** A line that is no header, or an indented `def` before any class, changes nothing. */
  lemma QuietStep(records: seq<Record>, kinds: seq<LineKind>, i: nat, index: Index)
    requires i < |records| == |kinds| && IndexMatches(records, kinds, i, index)
    requires kinds[i] == OtherLine || (kinds[i].MethodLine? && LastClass(kinds, i).None?)
    ensures IndexMatches(records, kinds, i + 1, index)
  {
    forall key ensures LastTop(kinds, i + 1, key) == LastTop(kinds, i, key) {
      TopAfter(kinds, i, key);
    }
    forall key | key in index ensures EntryMatches(records, kinds, i + 1, key, index[key]) {
      MembersKept(kinds, i, key);
      EntryKept(records, kinds, i, key, index[key]);
    }
  }

  /**
   * `parsePythonSource(source)`: the dictionary holds exactly the names
   * stored by the lines, each with the entry the last storing line left.
   */
  method ParsePythonSource(source: string) returns (index: Index)
    ensures var lines := Lines(source);
      IndexMatches(Records(lines), Kinds(lines), |lines|, index)
  {
    var lines := Lines(source);
    index := map[];
    var currentClass: Option<string> := None;
    for i := 0 to |lines|
      invariant currentClass == LastClass(Kinds(lines), i)
      invariant IndexMatches(Records(lines), Kinds(lines), i, index)
    {
      index, currentClass := ScanLine(lines, i, index, currentClass);
    }
  }

  /**
   * One pass of the loop over the lines: a class header stores a fresh entry
   * and becomes the current class, a `def` stores into the current class or,
   * before any class, at the top level, and an indented `def` stores into the
   * current class when there is one.
   */
  method ScanLine(lines: seq<string>, i: nat, index: Index, currentClass: Option<string>)
    returns (next: Index, nextClass: Option<string>)
    requires i < |lines| && currentClass == LastClass(Kinds(lines), i)
    requires IndexMatches(Records(lines), Kinds(lines), i, index)
    ensures nextClass == LastClass(Kinds(lines), i + 1)
    ensures IndexMatches(Records(lines), Kinds(lines), i + 1, next)
  {
    ghost var kinds := Kinds(lines);
    ghost var records := Records(lines);
    var line := lines[i];
    var classMatch := ClassHeader(line);
    var funcMatch := DefHeader(line);
    var methodMatch := MethodHeader(line);
    assert kinds[i] == Classify(line);
    next, nextClass := index, currentClass;
    if classMatch.Some? {
      nextClass := classMatch;
      var block := GetCodeBlock(lines, i);
      var record := Extract(block);
      next := index[classMatch.value := Entry(record, map[])];
      ClassStep(records, kinds, i, index, classMatch.value);
    } else if funcMatch.Some? {
      var block := GetCodeBlock(lines, i);
      var record := Extract(block);
      if currentClass.Some? {
        var c := currentClass.value;
        MemberStep(records, kinds, i, index, c, funcMatch.value);
        next := index[c := index[c].(members := index[c].members[funcMatch.value := record])];
      } else {
        next := index[funcMatch.value := Entry(record, map[])];
        TopDefStep(records, kinds, i, index, funcMatch.value);
      }
    } else if methodMatch.Some? && currentClass.Some? {
      var c := currentClass.value;
      var block := GetCodeBlock(lines, i);
      var record := Extract(block);
      MemberStep(records, kinds, i, index, c, methodMatch.value);
      next := index[c := index[c].(members := index[c].members[methodMatch.value := record])];
    } else {
      QuietStep(records, kinds, i, index);
    }
  }
}
