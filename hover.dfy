/**
 * The lookup behind the hover provider: the hovered word and the dotted name
 * written just before it are translated through the alias table, and the
 * dictionary built by `parsePythonSource` is consulted, first at the top
 * level and then among the members of the entry named before the word.
 */
module HoverLookup {
  import opened Wrappers
  import opened Text
  import opened DefExtractor
  import opened SourceIndexer

  /** The `mapping` table: names user code writes for library names defined under another name. */
  const Aliases: map<string, string> := map["csSession" := "crshSession"]

  /**
   * `mapping.hasOwnProperty(name) ? mapping[name] : name`: an alias becomes
   * the name it stands for, and every other name stays as it is. The result
   * is never itself an alias, so translating twice changes nothing.
   */
  function MapName(name: string): (r: string)
    ensures r !in Aliases
    ensures name !in Aliases ==> r == name
    ensures name in Aliases ==> r == Aliases[name]
  {
    if name in Aliases then Aliases[name] else name
  }

  /**
   * The last piece of `before.split(/[^a-zA-Z0-9_\.]+/g)`: the separators are
   * maximal runs of other characters, so the last piece is the longest
   * suffix made of name characters and dots (empty when `before` ends in a
   * separator or is empty).
   */
  function LastRun(before: string): (r: string)
    ensures |r| <= |before| && before[|before| - |r|..] == r
    ensures forall i :: 0 <= i < |r| ==> In(Token, r[i])
    ensures |r| == |before| || !In(Token, before[|before| - |r| - 1])
  {
    before[|before| - CountWhileBack(before, Token)..]
  }

  /** `s.replace(/\.*$/, '')`: the text without the run of dots it ends with. */
  function StripTrailingDots(s: string): (r: string)
    ensures |r| <= |s| && s[..|r|] == r
    ensures forall i :: |r| <= i < |s| ==> s[i] == '.'
    ensures r == [] || r[|r| - 1] != '.'
  {
    s[..|s| - CountWhileBack(s, Dot)]
  }

  /** The name written before the hovered word: its last dotted run, without trailing dots. */
  function PrecedingToken(before: string): string {
    StripTrailingDots(LastRun(before))
  }

  /**
   * Any way of reading `before` as some text that does not end in a name
   * character or dot, then a dotted name that does not end in a dot, then
   * dots, has that name as the preceding token.
   */
  lemma PrecedingTokenUnique(before: string, p: string, t: string, d: string)
    requires before == p + t + d
    requires p == [] || !In(Token, p[|p| - 1])
    requires forall i :: 0 <= i < |t| ==> In(Token, t[i])
    requires t == [] || t[|t| - 1] != '.'
    requires forall i :: 0 <= i < |d| ==> d[i] == '.'
    ensures PrecedingToken(before) == t
  {
    var run := t + d;
    assert before == p + run;
    forall i | 0 <= i < |run| ensures In(Token, run[i]) {
      if i >= |t| { assert run[i] == d[i - |t|]; }
    }
    LastRunUnique(before, p, run);
    StripTrailingDotsUnique(run, t, d);
  }

  /** The last run of `p + run` is `run` when `run` is a dotted name and `p` does not end in one. */
  lemma LastRunUnique(before: string, p: string, run: string)
    requires before == p + run
    requires p == [] || !In(Token, p[|p| - 1])
    requires forall i :: 0 <= i < |run| ==> In(Token, run[i])
    ensures LastRun(before) == run
  {
    forall i | |before| - |run| <= i < |before| ensures In(Token, before[i]) {
      assert before[i] == run[i - |p|];
    }
    if p != [] {
      assert before[|before| - |run| - 1] == p[|p| - 1];
    }
    CountWhileBackUnique(before, Token, |run|);
    assert before[|p|..] == run;
  }

  /** Stripping the trailing dots of `t + d` leaves `t` when `d` is all dots and `t` does not end in one. */
  lemma StripTrailingDotsUnique(run: string, t: string, d: string)
    requires run == t + d
    requires t == [] || t[|t| - 1] != '.'
    requires forall i :: 0 <= i < |d| ==> d[i] == '.'
    ensures StripTrailingDots(run) == t
  {
    forall i | |run| - |d| <= i < |run| ensures In(Dot, run[i]) {
      assert run[i] == d[i - |t|];
    }
    if t != [] {
      assert run[|run| - |d| - 1] == t[|t| - 1];
    }
    CountWhileBackUnique(run, Dot, |d|);
    assert run[..|t|] == t;
  }

  /** The preceding token is a dotted name that does not end in a dot. */
  lemma PrecedingTokenShape(before: string)
    ensures var t := PrecedingToken(before);
      && (forall i :: 0 <= i < |t| ==> In(Token, t[i]))
      && (t == [] || t[|t| - 1] != '.')
  {
    var run := LastRun(before);
    var t := PrecedingToken(before);
    forall i | 0 <= i < |t| ensures In(Token, t[i]) {
      assert t[i] == run[..|t|][i] == run[i];
    }
  }

  /**
   * The object the hover shows for `word`, with `before` the text of the
   * line up to the word: the record stored under the translated word when
   * there is one; otherwise, when the translated preceding token names an
   * entry, that entry's member named by the word, or the entry itself when
   * the word is empty.
   */
  function Resolve(index: Index, word: string, before: string): (r: Option<Record>)
    ensures var w, b := MapName(word), MapName(PrecedingToken(before));
      r.Some? <==> (w in index || (b in index && (w == "" || w in index[b].members)))
    ensures MapName(word) in index ==> r == Some(index[MapName(word)].record)
    ensures var w, b := MapName(word), MapName(PrecedingToken(before));
      w !in index && b in index && w != "" && w in index[b].members ==> r == Some(index[b].members[w])
    ensures var w, b := MapName(word), MapName(PrecedingToken(before));
      w !in index && b in index && w == "" ==> r == Some(index[b].record)
    ensures r.Some? ==> exists key :: key in index && Holds(index[key], r.value)
  {
    var w := MapName(word);
    var b := MapName(PrecedingToken(before));
    if w in index then
      assert Holds(index[w], index[w].record);
      Some(index[w].record)
    else if b in index then
      if w != "" then
        if w in index[b].members then
          assert Holds(index[b], index[b].members[w]);
          Some(index[b].members[w])
        else None
      else
        assert Holds(index[b], index[b].record);
        Some(index[b].record)
    else None
  }

  /** The entry is that record or holds it as a member. */
  predicate Holds(e: Entry, rec: Record) {
    e.record == rec || exists m :: m in e.members && e.members[m] == rec
  }

  /** Hovering an alias looks up exactly what hovering the name it stands for does. */
  lemma AliasedWordResolves(index: Index, before: string)
    ensures Resolve(index, "csSession", before) == Resolve(index, "crshSession", before)
  {
    assert MapName("csSession") == MapName("crshSession");
  }

  /** An alias written before the hovered word selects the entry of the name it stands for. */
  lemma AliasedContextResolves(index: Index, word: string, p: string)
    requires p == [] || !In(Token, p[|p| - 1])
    ensures Resolve(index, word, p + "csSession" + ".") == Resolve(index, word, p + "crshSession" + ".")
  {
    assert AllWord("csSession") && AllWord("crshSession");
    NameBeforeDot(p, "csSession");
    NameBeforeDot(p, "crshSession");
    SameContextResolves(index, word, p + "csSession" + ".", p + "crshSession" + ".");
  }

  /** The lookup sees the text before the word only through its translated preceding token. */
  lemma SameContextResolves(index: Index, word: string, before: string, before': string)
    requires MapName(PrecedingToken(before)) == MapName(PrecedingToken(before'))
    ensures Resolve(index, word, before) == Resolve(index, word, before')
  {
  }

  /** A word followed by a dot, after text that does not end in a name character, is the preceding token. */
  lemma NameBeforeDot(p: string, name: string)
    requires p == [] || !In(Token, p[|p| - 1])
    requires name != [] && AllWord(name)
    ensures PrecedingToken(p + name + ".") == name
  {
    assert IsWordChar(name[|name| - 1]);
    PrecedingTokenUnique(p + name + ".", p, name, ".");
  }

  /**
   * Over the dictionary of a source file, a word defined at the top level
   * shows the record of the block its last top-level definition opens.
   */
  lemma ResolveTopLevel(source: string, index: Index, word: string, before: string)
    requires var lines := Lines(source);
      IndexMatches(Records(lines), Kinds(lines), |lines|, index)
    requires var lines := Lines(source);
      LastTop(Kinds(lines), |lines|, MapName(word)).Some?
    ensures var lines := Lines(source);
      Resolve(index, word, before)
        == Some(Records(lines)[LastTop(Kinds(lines), |lines|, MapName(word)).value])
  {
    var lines := Lines(source);
    var w := MapName(word);
    assert w in index;
    assert EntryMatches(Records(lines), Kinds(lines), |lines|, w, index[w]);
  }

  /**
   * Over the dictionary of a source file, a word that is not defined at the
   * top level, written after the name of a class, shows the record of the
   * last definition stored into that class under the word since the class's
   * last header, and nothing when there is none.
   */
  lemma ResolveMember(source: string, index: Index, word: string, before: string)
    requires var lines := Lines(source);
      IndexMatches(Records(lines), Kinds(lines), |lines|, index)
    requires var lines, w, b := Lines(source), MapName(word), MapName(PrecedingToken(before));
      && w != "" && LastTop(Kinds(lines), |lines|, w).None?
      && LastTop(Kinds(lines), |lines|, b).Some?
    ensures var lines, w, b := Lines(source), MapName(word), MapName(PrecedingToken(before));
      var j := LastTop(Kinds(lines), |lines|, b).value;
      Resolve(index, word, before)
        == if MemberSince(Kinds(lines), |lines|, b, w, j)
          then Some(Records(lines)[LastMember(Kinds(lines), |lines|, b, w).value])
          else None
  {
    var lines := Lines(source);
    var w, b := MapName(word), MapName(PrecedingToken(before));
    assert w !in index && b in index;
    assert EntryMatches(Records(lines), Kinds(lines), |lines|, b, index[b]);
  }

  /**
   * Over the dictionary of a source file, hovering an empty word shows the
   * entry named just before it: no key is empty, so the top-level lookup
   * of the word always misses.
   */
  lemma ResolveEmptyWord(source: string, index: Index, before: string)
    requires var lines := Lines(source);
      IndexMatches(Records(lines), Kinds(lines), |lines|, index)
    ensures var b := MapName(PrecedingToken(before));
      Resolve(index, "", before) == if b in index then Some(index[b].record) else None
  {
    IndexKeysAreNames(Lines(source), index);
    assert MapName("") == "";
  }
}
