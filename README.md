# crshmodulo-helper: the definition index behind the hover

This project is a Dafny model of the logic of the VS Code extension
`crshmodulo-helper-v1` (`crshmodulo-helper-v1/extension.js`). The extension
reads the library file `cslib/main.py`, builds a dictionary of its classes,
functions and methods, and looks names up in that dictionary when the user
hovers over a word. Three parts are modelled.

- **`extractFromDefSource`** (`extractor.dfy`, module `DefExtractor`). It
  trims a block of Python text and matches `/^(def|class)\s+(\w+)\((.*)\)/`
  against it. When the match succeeds, it builds a record with the name, the
  kind (`"func"` or `"class"`), the first triple-quoted docstring and the
  parameter list. Each parameter has a name, an optional type hint and an
  optional default. When the match fails, the record holds only the trimmed
  text.
  - The model is pure. Every regular expression becomes a scan over the
    characters, with JavaScript's `\s`, `\w` and `.` classes written out in
    `text.dfy` (module `Text`).
  - The lemmas prove soundness and completeness of the header match, its
    greed, and the lazy docstring match. They also prove that a header
    written from clean parameters parses back to those parameters.
- **`parsePythonSource` with `getCodeBlock`** (`indexer.dfy`, module
  `SourceIndexer`). It makes one pass over the lines and keeps a current
  class.
  - A `class` header stores a fresh entry.
  - A `def` at the start of a line is stored at the top level while no class
    has been seen, and into the entry of the most recent class afterwards.
  - An indented `def` is stored into the current class, if there is one.
  - Each stored record is `extractFromDefSource` of the code block the line
    opens. The block is cut by indentation.
  - Both the scan and `getCodeBlock` are methods with loops. The scan is
    proved against `IndexMatches`, which describes the dictionary after any
    number of lines from the lines alone: the last line that stored each key,
    and each member since then. `ScanLine` is the body of the loop.
- **The hover lookup** (`hover.dfy`, module `HoverLookup`). The hovered word
  and the dotted name just before it are translated through the alias table
  (`csSession` → `crshSession`). The lookup then returns the top-level entry
  of the word, or else the member of the entry named before the word. The
  cursor and the VS Code ranges become two strings: the word, and the text of
  the line before it.

`wrappers.dfy` holds the `Option` type that stands for JavaScript's `null`
and for a missing key.

## Model

| member | source | states |
|---|---|---|
| `Wrappers.NonEmpty` | crshmodulo-helper-v1/extension.js:52-53 | `x \|\| null` on a string: absent exactly when the string is empty, otherwise the string itself |
| `Text.Trim` | crshmodulo-helper-v1/extension.js:14 | the trimmed text has no whitespace (`\s`, including line terminators) at either end and is no longer than the input; `TrimIsInfix` and `TrimOfPadded` show it is the input less its leading and trailing whitespace |
| `Text.TrimEmptyIffAllSpace` | crshmodulo-helper-v1/extension.js:38 | `param.trim() !== ''` fails exactly when the segment is all whitespace |
| `Text.TrimSkipsLeadingSpace` | crshmodulo-helper-v1/extension.js:14 | whitespace put in front of a text does not survive the trim |
| `Text.TrimStartOfPadded` | crshmodulo-helper-v1/extension.js:14 | `^\s+` removes exactly the whitespace in front of a text that does not begin with whitespace |
| `Text.TrimEndOfPadded` | crshmodulo-helper-v1/extension.js:14 | `\s+$` removes exactly the whitespace after a text that does not end in whitespace |
| `Text.TrimOfPadded` | crshmodulo-helper-v1/extension.js:14 | whitespace, then a text with no whitespace at its ends, then whitespace trims to that text; so nothing but the outer whitespace is removed |
| `Text.TrimIsInfix` | crshmodulo-helper-v1/extension.js:14 | the trim of any text is a slice of it with only whitespace before and after it |
| `Text.TrimSlice` | crshmodulo-helper-v1/extension.js:14 | the trim is the text between the maximal leading and the maximal trailing whitespace run |
| `Text.TrimCuts` | crshmodulo-helper-v1/extension.js:14 | the leading and the trailing run that the trim cuts off are all whitespace |
| `Text.Split` | crshmodulo-helper-v1/extension.js:39 | `split` on one character gives at least one piece, and no piece holds the separator |
| `Text.JoinSplit` | crshmodulo-helper-v1/extension.js:61 | joining the pieces of a split with the separator gives back the text, so `source.split('\n')` loses nothing |
| `Text.SplitHasSeveralPieces` | crshmodulo-helper-v1/extension.js:21 | a split gives more than one piece exactly when the text holds the separator |
| `Text.Join` | crshmodulo-helper-v1/extension.js:82 | `blockLines.join('\n')`; it has no contract of its own: `JoinSplit` ties it to `Split`, and `GetCodeBlock` returns `Block`, the `Join` of the block's lines |
| `Text.IndexOf` | crshmodulo-helper-v1/extension.js:43 | the first occurrence of a character; there is one exactly when the character occurs, and none occurs earlier |
| `Text.LastIndexOf` | crshmodulo-helper-v1/extension.js:17 | the last occurrence of a character; there is one exactly when the character occurs, and none occurs later |
| `Text.KeywordWord` | crshmodulo-helper-v1/extension.js:87-89 | a match of `^<kw>\s+(\w+)` is the keyword, a non-empty run of whitespace, then a non-empty word that no word character follows |
| `Text.KeywordWordComplete` | crshmodulo-helper-v1/extension.js:87-89 | every reading of a line as keyword, whitespace and a maximal word is the one the match finds |
| `Text.SplitJoinComma` | crshmodulo-helper-v1/extension.js:21 | splitting a `", "`-joined list on `,` gives the first item, then each later item after one space |
| `DefExtractor.TypeTag` | crshmodulo-helper-v1/extension.js:34 | `__type__` is `"func"` exactly for `def` and `"class"` exactly for `class` |
| `DefExtractor.MatchHeader` | crshmodulo-helper-v1/extension.js:17 | `source.match(/^(def\|class)\s+(\w+)\((.*)\)/)`: the captured parameter text is on one line; `MatchHeaderSound` and `MatchHeaderComplete` show it succeeds exactly on a header reading |
| `DefExtractor.LineEnd` | crshmodulo-helper-v1/extension.js:17 | the reach of `.*`: no line terminator up to it, and a line terminator or the end of the text at it |
| `DefExtractor.CloseParen` | crshmodulo-helper-v1/extension.js:17 | the `)` that `\((.*)\)` closes with lies after the `(` on the same line, with no line terminator in between |
| `DefExtractor.CloseParenIsLast` | crshmodulo-helper-v1/extension.js:17 | the greedy `.*` backtracks to the last `)` of the line; when it finds none, the line has no `)` |
| `DefExtractor.HeaderSpans` | crshmodulo-helper-v1/extension.js:17 | a match found for one keyword alternative reads as keyword, whitespace, word, `(`, one line of text, `)` |
| `DefExtractor.MatchKeyword` | crshmodulo-helper-v1/extension.js:17 | the captured kind is the alternative tried, and the captured parameter text has no line terminator |
| `DefExtractor.HeaderSpansComplete` | crshmodulo-helper-v1/extension.js:17 | whenever the text reads as a header, the match succeeds at that name and `(`, and closes no earlier than any `)` of that reading |
| `DefExtractor.MatchHeaderSound` | crshmodulo-helper-v1/extension.js:17 | a captured header is keyword, whitespace, word, `(`, text without a line break and `)`, and no later `)` on that line would also close it |
| `DefExtractor.HeaderSpansGreedy` | crshmodulo-helper-v1/extension.js:17 | the greedy `(.*)`: no later `)` on the line could close a header found for one keyword |
| `DefExtractor.MatchHeaderPicksKeyword` | crshmodulo-helper-v1/extension.js:17 | the first letter decides which alternative of `(def\|class)` can match, so trying `def` first changes nothing |
| `DefExtractor.MatchHeaderComplete` | crshmodulo-helper-v1/extension.js:17-18 | whenever the trimmed text reads as a header, the match succeeds with that kind and name, and the parameter text runs at least as far |
| `DefExtractor.MatchKeywordComplete` | crshmodulo-helper-v1/extension.js:17 | the completeness of `MatchHeaderComplete` for one alternative of the keyword group |
| `DefExtractor.FirstTriple` | crshmodulo-helper-v1/extension.js:25 | a found position holds `['"]{3}` and lies at or after the start of the search |
| `DefExtractor.FirstTripleIsFirst` | crshmodulo-helper-v1/extension.js:25 | no triple quote lies before the found one, and none lies anywhere when none is found |
| `DefExtractor.Docstring` | crshmodulo-helper-v1/extension.js:25-28 | the capture of `['"]{3}([\s\S]*?)['"]{3}`, characterised by `DocstringIsFirstLazyMatch` |
| `DefExtractor.Description` | crshmodulo-helper-v1/extension.js:24-35 | `__description__`: the docstring, or `""` when the lazy match fails (lines 24-28 and 35) |
| `DefExtractor.DocstringIsFirstLazyMatch` | crshmodulo-helper-v1/extension.js:25-28 | the docstring is the text between the first triple quote and the next one that does not overlap it; it is absent exactly when no two such triples exist |
| `DefExtractor.Extract` | crshmodulo-helper-v1/extension.js:12-58 | `__source__` is the trimmed block, whichever record is built |
| `DefExtractor.ExtractDegenerateIffNoHeader` | crshmodulo-helper-v1/extension.js:14-18 | the record is the bare `{ __source__ }` exactly when the trimmed block does not read as a `def`/`class` header whose parenthesised parameter text lies on one line |
| `DefExtractor.ExtractIgnoresIndentation` | crshmodulo-helper-v1/extension.js:14 | indentation in front of a block changes nothing, so indented method headers match |
| `DefExtractor.NoParenIsDegenerate` | crshmodulo-helper-v1/extension.js:17-18 | a block without `(`, such as `class Name:`, gives the degenerate record |
| `DefExtractor.UnclosedIsDegenerate` | crshmodulo-helper-v1/extension.js:17-18 | a block whose first `(` has no `)` on its line, such as a signature spread over several lines, gives the degenerate record |
| `DefExtractor.UnclosedIsNoHeader` | crshmodulo-helper-v1/extension.js:17 | no header reading opens at a first `(` that its line does not close |
| `DefExtractor.HeaderParenIsFirst` | crshmodulo-helper-v1/extension.js:17 | the `(` of a header is the first `(` of the text, because keyword, whitespace and word contain none |
| `DefExtractor.ParamsOf` | crshmodulo-helper-v1/extension.js:38 | the filter and map over the segments: at most one parameter per segment; `ParamsOfCons`, `ParamsOfSegments` and `ParamsOfDropsBlank` say which |
| `DefExtractor.ParseParams` | crshmodulo-helper-v1/extension.js:21-55 | `__parameters__`: at most one parameter per piece between commas; `ParamsRoundTrip` shows written-out lists parse back |
| `DefExtractor.CommaSplit` | crshmodulo-helper-v1/extension.js:21 | `paramsStr.split(/\s*,\s*/)`: one segment per piece between commas; `CommaPiece` and `BlankCommaPiece` say what each piece becomes |
| `DefExtractor.ParamsOfCons` | crshmodulo-helper-v1/extension.js:38 | a non-blank segment becomes exactly one parameter, in front of those of the later segments |
| `DefExtractor.ParamsOfSegments` | crshmodulo-helper-v1/extension.js:38 | segments that are all non-blank give one parameter each, in order |
| `DefExtractor.BlankParamsAreNone` | crshmodulo-helper-v1/extension.js:21-38 | an empty or blank parameter text, as in `def f()`, gives the empty list and not an absent one |
| `DefExtractor.CommaSplitKeepsNoLineTerminator` | crshmodulo-helper-v1/extension.js:21 | the segments of a one-line parameter text are each on one line |
| `DefExtractor.CommaPiece` | crshmodulo-helper-v1/extension.js:21 | a piece made of any whitespace, an item without whitespace at its ends and any whitespace becomes that item, except that the whitespace before the first item and after the last, which touches no comma, is kept |
| `DefExtractor.PaddedPiece` | crshmodulo-helper-v1/extension.js:21 | a raw piece loses exactly the whitespace next to its commas: before its item unless it is the first piece, after it unless it is the last; the other whitespace stays |
| `DefExtractor.BlankPiece` | crshmodulo-helper-v1/extension.js:21 | a whitespace-only piece with a comma on at least one side becomes `""` |
| `DefExtractor.BlankCommaPiece` | crshmodulo-helper-v1/extension.js:21 | in text holding a comma, a whitespace-only piece, such as the one in `a, , b` or after the trailing comma of `a, b,`, is split out as `""` |
| `DefExtractor.ParamsOfDropsBlank` | crshmodulo-helper-v1/extension.js:38 | `filter(param => param.trim() !== '')` drops a blank segment wherever it stands and keeps the others in order |
| `DefExtractor.JoinedPiece` | crshmodulo-helper-v1/extension.js:21 | a piece of a `", "`-joined list becomes its item |
| `DefExtractor.CommaSplitJoin` | crshmodulo-helper-v1/extension.js:21 | splitting on `\s*,\s*` undoes joining segments with `", "` |
| `DefExtractor.ParseParam` | crshmodulo-helper-v1/extension.js:39-54 | one parameter object from a segment; its fields are described by `ParseParamFields`, `SecondEqualsLost` and the round trips below |
| `DefExtractor.SplitTypeHint` | crshmodulo-helper-v1/extension.js:43-47 | name and type hint of the text before the first `=`, described by `SplitTypeHintFields` and `HeadTextRoundTrip` |
| `DefExtractor.ParseParamFields` | crshmodulo-helper-v1/extension.js:39-53 | a parsed name has no `=` or `:`; a type hint or default is never empty and has no `=` |
| `DefExtractor.SplitTypeHintFields` | crshmodulo-helper-v1/extension.js:43-47 | the lazy `(.*?):` stops at the first `:`, so the name has none, and an empty hint is `null` |
| `DefExtractor.SecondEqualsLost` | crshmodulo-helper-v1/extension.js:39 | only the text between the first and second `=` becomes the default; whatever follows a second `=` is lost |
| `DefExtractor.IndentedParse` | crshmodulo-helper-v1/extension.js:39 | whitespace in front of a segment does not change its parameter |
| `DefExtractor.HeadTextRoundTrip` | crshmodulo-helper-v1/extension.js:43-47 | `name: hint` splits back into that name and that hint, and a bare name into the name and `null` |
| `DefExtractor.WithDefaultRoundTrip` | crshmodulo-helper-v1/extension.js:39-53 | `head = default` parses to the head's name and hint with that default |
| `DefExtractor.WithoutDefaultRoundTrip` | crshmodulo-helper-v1/extension.js:39-53 | a segment without `=` parses to its name and hint with a `null` default |
| `DefExtractor.ParamTextRoundTrip` | crshmodulo-helper-v1/extension.js:39-53 | `name[: hint][ = default]` of a clean parameter parses back to that parameter |
| `DefExtractor.HeadText` | crshmodulo-helper-v1/extension.js:212-215 | `name` followed by `: hint` when the hint is not `null`; `HeadTextRoundTrip` parses it back |
| `DefExtractor.ParamText` | crshmodulo-helper-v1/extension.js:212-218 | the parameter line without its two leading spaces: head, then ` = default` when the default is not `null`; `ParamTextRoundTrip` parses it back |
| `DefExtractor.ParamLine` | crshmodulo-helper-v1/extension.js:212-218 | the code block shown per parameter, two spaces then `ParamText`; `ParamLineRoundTrip` parses it back |
| `DefExtractor.ParamLineRoundTrip` | crshmodulo-helper-v1/extension.js:212-218 | the hover's parameter line, indented by two spaces, parses back to the parameter it shows |
| `DefExtractor.ParamTextParses` | crshmodulo-helper-v1/extension.js:38-55 | a clean parameter's text is a non-blank one-line segment that parses back to it |
| `DefExtractor.ParamsOfTexts` | crshmodulo-helper-v1/extension.js:38-55 | filtering and parsing the texts of clean parameters gives those parameters back, in order |
| `DefExtractor.ParamsRoundTrip` | crshmodulo-helper-v1/extension.js:21-55 | a parameter list written out with `", "` parses back to the same list, in order, the empty list included |
| `DefExtractor.HeaderTextIsHeader` | crshmodulo-helper-v1/extension.js:17 | `keyword name(text)` reads as a header with that name and that parameter text, closed by its last character |
| `DefExtractor.HeaderTextTrimmed` | crshmodulo-helper-v1/extension.js:14-17 | `keyword name(text)` is left unchanged by the trim applied before matching |
| `DefExtractor.MatchHeaderWhole` | crshmodulo-helper-v1/extension.js:17 | a header closed by the last character of the text is captured up to that character |
| `DefExtractor.MatchHeaderCaptures` | crshmodulo-helper-v1/extension.js:17 | a header closed by the last character of the text captures exactly the given name and parameter text |
| `DefExtractor.MatchKeywordWhole` | crshmodulo-helper-v1/extension.js:17 | `MatchHeaderWhole` for one alternative of the keyword group |
| `DefExtractor.MatchHeaderText` | crshmodulo-helper-v1/extension.js:17 | the match of `keyword name(text)` captures that kind, that name and exactly that parameter text |
| `DefExtractor.SignatureRoundTrip` | crshmodulo-helper-v1/extension.js:12-58 | a one-line header written from a kind, a name and clean parameters gives back that kind, name and those parameters |
| `SourceIndexer.Lines` | crshmodulo-helper-v1/extension.js:61 | there is at least one line, and no line holds `\n` |
| `SourceIndexer.Indent` | crshmodulo-helper-v1/extension.js:70-73 | `/^\s*/` matches the whole indentation: all whitespace, followed by a non-space or the end |
| `SourceIndexer.EndsBlock` | crshmodulo-helper-v1/extension.js:75 | the `break` condition: a later line indented no deeper than the header that is not blank |
| `SourceIndexer.BlockEndFrom` | crshmodulo-helper-v1/extension.js:72-80 | the first line from the given one that is neither blank nor deeper than the header, or the end |
| `SourceIndexer.BlockEnd` | crshmodulo-helper-v1/extension.js:72-80 | the block holds the header and every following line up to the first non-blank line indented no deeper than the header, or to the end |
| `SourceIndexer.Block` | crshmodulo-helper-v1/extension.js:68-82 | the text `getCodeBlock` returns: the lines up to `BlockEnd` joined with `\n`; `GetCodeBlock` is proved to compute it |
| `SourceIndexer.BlockStartsWithHeader` | crshmodulo-helper-v1/extension.js:68-82 | the block begins with the whole header line |
| `SourceIndexer.GetCodeBlock` | crshmodulo-helper-v1/extension.js:68-83 | the loop with its early `break` collects exactly the lines of `BlockEnd`, joined with `\n` |
| `SourceIndexer.ClassHeader` | crshmodulo-helper-v1/extension.js:87 | `line.match(/^class\s+(\w+)/)`, the `KeywordWord` match for `class` |
| `SourceIndexer.DefHeader` | crshmodulo-helper-v1/extension.js:88 | `line.match(/^def\s+(\w+)/)`, the `KeywordWord` match for `def` |
| `SourceIndexer.MethodHeader` | crshmodulo-helper-v1/extension.js:89 | `line.match(/^\s+def\s+(\w+)/)`: a non-empty indentation, then the `KeywordWord` match for `def` |
| `SourceIndexer.WordAfter` | crshmodulo-helper-v1/extension.js:87-89 | a captured name is a non-empty run of word characters |
| `SourceIndexer.Classify` | crshmodulo-helper-v1/extension.js:87-105 | the name of every header line is a non-empty word |
| `SourceIndexer.LastClass` | crshmodulo-helper-v1/extension.js:92 | the value of `currentClass` after the first lines, described by `LastClassIsLast` |
| `SourceIndexer.TopWriter` | crshmodulo-helper-v1/extension.js:94-102 | a line that stores a top-level key: a class header, or a `def` at the start of a line before any class |
| `SourceIndexer.MemberWriter` | crshmodulo-helper-v1/extension.js:100-107 | a line that stores a member into a class: a `def`, at any indentation, while that class is the current one |
| `SourceIndexer.LastClassIsLast` | crshmodulo-helper-v1/extension.js:92 | the current class is the name of the last class header so far, and there is none exactly when no class header has been seen; it is never cleared |
| `SourceIndexer.LastTop` | crshmodulo-helper-v1/extension.js:94-102 | the last line that stored a top-level key lies among the lines read |
| `SourceIndexer.LastTopIsLast` | crshmodulo-helper-v1/extension.js:94-102 | it stores the key, no later line does, and none does when it is absent, so later definitions overwrite earlier ones |
| `SourceIndexer.LastMember` | crshmodulo-helper-v1/extension.js:100-107 | the last line that stored a member lies among the lines read |
| `SourceIndexer.LastMemberIsLast` | crshmodulo-helper-v1/extension.js:100-107 | it stores the member into that class, no later line does, and none does when it is absent |
| `SourceIndexer.CurrentClassStored` | crshmodulo-helper-v1/extension.js:92-100 | the current class always has a top-level entry, so `result[currentClass][name] = …` has an object to write into |
| `SourceIndexer.IndexKeysAreNames` | crshmodulo-helper-v1/extension.js:92-102 | every key of the dictionary is a non-empty word |
| `SourceIndexer.ClassStep` | crshmodulo-helper-v1/extension.js:91-95 | a class header replaces the entry under its name with a fresh entry that has no members |
| `SourceIndexer.TopDefStep` | crshmodulo-helper-v1/extension.js:101-103 | a `def` at the start of a line, before any class, stores a fresh top-level entry |
| `SourceIndexer.MemberStep` | crshmodulo-helper-v1/extension.js:98-107 | a `def` after a class has been seen, whether at the start of a line or indented at any depth, stores its record into the current class and changes nothing else |
| `SourceIndexer.QuietStep` | crshmodulo-helper-v1/extension.js:105 | a line that is no header, or an indented `def` before any class, leaves the dictionary as it was |
| `SourceIndexer.EntryMatches` | crshmodulo-helper-v1/extension.js:91-107 | an entry is the record of the last line that stored its key, with exactly the members stored since, each the record of its last storing line |
| `SourceIndexer.IndexMatches` | crshmodulo-helper-v1/extension.js:60-112 | the dictionary after the first lines, from the lines alone: exactly the keys some line stored, each entry as `EntryMatches` says |
| `SourceIndexer.ParsePythonSource` | crshmodulo-helper-v1/extension.js:60-112 | the dictionary holds exactly the keys some line stored, each with the record of its last storing line's block and the members stored since |
| `SourceIndexer.ScanLine` | crshmodulo-helper-v1/extension.js:86-108 | one pass of the loop keeps the current class the last class header and the dictionary the one the lines so far describe |
| `HoverLookup.MapName` | crshmodulo-helper-v1/extension.js:8-10 | an alias becomes the name it stands for, any other name stays, and no result is itself an alias |
| `HoverLookup.LastRun` | crshmodulo-helper-v1/extension.js:187 | the last piece of `split(/[^a-zA-Z0-9_\.]+/g)` is the longest suffix of name characters and dots |
| `HoverLookup.StripTrailingDots` | crshmodulo-helper-v1/extension.js:187 | `replace(/\.*$/, '')` keeps a prefix, removes only dots, and leaves no dot at the end |
| `HoverLookup.PrecedingToken` | crshmodulo-helper-v1/extension.js:187 | `beforeWord`: the last run of name characters and dots before the word, less its trailing dots; `PrecedingTokenShape` and `PrecedingTokenUnique` characterise it |
| `HoverLookup.PrecedingTokenShape` | crshmodulo-helper-v1/extension.js:187 | the preceding token is a dotted name that does not end in a dot |
| `HoverLookup.PrecedingTokenUnique` | crshmodulo-helper-v1/extension.js:187 | any reading of the text before the word as a separator, a dotted name and trailing dots has that name as the preceding token |
| `HoverLookup.LastRunUnique` | crshmodulo-helper-v1/extension.js:187 | a run of name characters after a separator is the last piece of the split |
| `HoverLookup.StripTrailingDotsUnique` | crshmodulo-helper-v1/extension.js:187 | stripping the trailing dots of a name followed by dots gives the name |
| `HoverLookup.NameBeforeDot` | crshmodulo-helper-v1/extension.js:187 | in `obj.word`, the preceding token is `obj` |
| `HoverLookup.Resolve` | crshmodulo-helper-v1/extension.js:184-202 | something is found exactly when the word is a top-level key, or the token before it is one and the word is empty or one of its members; the top-level key wins; otherwise the member of the preceding entry under the word, or that entry's own record when the word is empty |
| `HoverLookup.SameContextResolves` | crshmodulo-helper-v1/extension.js:186-188 | the text before the word matters only through its translated preceding token |
| `HoverLookup.AliasedWordResolves` | crshmodulo-helper-v1/extension.js:184 | hovering `csSession` finds what hovering `crshSession` finds |
| `HoverLookup.AliasedContextResolves` | crshmodulo-helper-v1/extension.js:187-188 | a word after `csSession.` finds what it finds after `crshSession.` |
| `HoverLookup.ResolveTopLevel` | crshmodulo-helper-v1/extension.js:192-193 | over a file's dictionary, a top-level name shows the record of the block opened by its last top-level definition |
| `HoverLookup.ResolveMember` | crshmodulo-helper-v1/extension.js:194-198 | otherwise, after a class name, a word shows the record of the last definition stored into that class under the word since the class's last header, and nothing when there is none |
| `HoverLookup.ResolveEmptyWord` | crshmodulo-helper-v1/extension.js:199-200 | an empty word shows the entry named before it, because no key of a file's dictionary is empty |

## Left out

- Reading `cslib/main.py` (lines 119-176) is not modelled: the directory walk, `fs`, `path` and the active editor. `ParsePythonSource` takes the file's text as a parameter.
- The VS Code API is not modelled: `registerHoverProvider`, `getWordRangeAtPosition`, `Range`, `MarkdownString`, `Hover`, `console.log`, `activate` and `deactivate`. The hovered word and the text of the line before it are parameters of `HoverLookup.Resolve`.
- Of the hover's rendering, only the parameter line (lines 212-218, `DefExtractor.ParamLine`) is modelled. The heading, the "Parameters" title and the footer are not.
  - The model does not capture that rendering a degenerate record reads `__parameters__.length` of `undefined` and throws.
  - When no word is under the cursor, `getWordRangeAtPosition` returns `undefined`. The model does not capture that either.
- JavaScript objects are modelled as a record plus a separate map of members. Three consequences follow.
  - In the source, a method named like a metadata field (`__name__`, `__source__`, …) overwrites that field. The model keeps them apart.
  - So does a member lookup whose word is a metadata field name.
  - Keys such as `__proto__` or `hasOwnProperty` behave specially on a JavaScript object and are treated as ordinary names.
- Each hover result is a record. The `if (obj)` truthiness test is always true for the objects the dictionary holds, so it is not modelled separately.
- `currentFunc` and `currentIndentLevel` (lines 65-66, 93-106) are written but never read, so the model has no counterpart for them.
- DefExtractor.ParseParam requires its segment to have no line terminator. Every segment comes from the `(.*)` capture, which never crosses a line, so no call made by the source is excluded.
- DefExtractor.ParamsRoundTrip, DefExtractor.SignatureRoundTrip: the round trips hold for clean parameters only.
  - A clean parameter has no `,`, `=` or line break in any field, no `:` in its name, and no whitespace at the ends of its fields.
  - Other parameters do not survive the parser, as `DefExtractor.SecondEqualsLost` and `DefExtractor.ParseParamFields` show.
