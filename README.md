# Unity scene scanner, modelled in Dafny

The repository holds three early versions of a command-line tool. The tool
walks the lines of Unity scene files (`*.unity`) and writes one
`<scene>.scene.dump` file per scene:

- `Backup/Program_no_lib.cs` scans the text itself. It cuts names with
  `Split(":")[1].Trim()` and dumps a `GameObject` tree.
- `tool/Program.cs` has the same scanner. It cuts names with `line[10..]`
  and has its own `Transform`/`GameObject` shapes, of which only
  `GameObject.Name` is ever set.
- `Backup/Program.cs` hands the file to a YAML library and dumps an empty
  `GameObject` tree. Its `GameObject` class is identical to the NoLib one.

The model has these parts:

- **The line scanner** (`SceneScan`, `SceneReading`, `NoLibProgram.ScanScene`,
  `ToolProgram.ScanScene`).
  - `Scan` is the specification, a function over the lines the reader has
    not yet returned.
  - The imperative scanners run the two nested `ReadLine` loops over one
    shared `LineReader` cursor. Each is proved to compute `Scan`.
  - What `Main` prints about each GameObject header becomes a `Record`: the
    id and how the search for `m_Name` ended.
  - How the file scan stopped becomes a `Stop`: end of input, the
    "Transform does not belong to a GameObject" exit, or an exception
    (`Crash`).
- **The quirks of the code as written**, proved as lemmas:
  - `gameObject` is set to null at the top of every outer iteration, so the
    first `--- !u!4 ` header always ends the scan. Everything after the null
    test is dead code, proved with `assert false`: the id parse, the
    `m_Father` search, `Children.Add`, `new Transform()` and the tool
    version's only write to its dump file (tool/Program.cs:156).
  - The name search consumes the boundary line that ends a nameless record,
    so the record that line starts is never seen.
  - `--- !u!114 ` and `--- !u!43 ` lines are neither header.
- **The failure points**, modelled as `Result`/`Option` values:
  - a header with fewer than three space-separated tokens (`lineSplit[2]`);
  - an empty third token (`[1..]` throws);
  - a token that `int.Parse` rejects or that overflows an `int`, including one
    that starts with a character outside the Basic Multilingual Plane. `[1..]`
    removes only the first UTF-16 code unit, and the lone surrogate left in
    front fails to parse.
- **The `GameObject` tree:**
  - `GetGameObjectById` is proved to be the pre-order first match, and to
    return null exactly when no node carries the id.
  - `WriteToFile` is a method appending to a `TextWriter`. It is proved to
    write one `--`-prefixed line per node in pre-order, always the literal
    text `Name`.
- **Per-file `Main` loops** (`ProcessScene`, `DumpScenes`):
  - The NoLib and YAML versions dump exactly `Name` plus a line break per
    scene, because nothing ever adds a child to the root.
  - The tool version leaves every dump file empty.
  - An exception ends `Main`. The NoLib and YAML versions have not yet
    created that scene's dump file when it happens. The tool version has
    already created it, empty.

The tool is meant to do more than any of these versions does. It should
link each Transform to its parent, leave the synthetic root out of the dump
and print each node's name. In the code none of that happens: every line
of a dump is `Name` (or the file is empty), and the root is included. The
model follows the code.

## Model

| member | source | states |
|---|---|---|
| `GameObjectTree.NewGameObject` | Backup/Program_no_lib.cs:16-19 | The constructor: Name null (`None`), TransformFileID 0, no children. GetByIdOnNewGameObject and DumpOfLeaf characterise it. |
| `GameObjectTree.GetGameObjectById` | Backup/Program_no_lib.cs:21-38 | The recursive lookup. GetByIdIsPreOrderFirst and GetByIdSpec prove it is the first pre-order match, or null when there is none. |
| `GameObjectTree.SearchChildren` | Backup/Program_no_lib.cs:28-35 | The `foreach` over Children. SearchChildrenIsPreOrderFirst proves it is the first match in the children's pre-order. |
| `GameObjectTree.Dashes` | Backup/Program_no_lib.cs:42-45 | The depth marker, `deep` copies of `--`. WriteDepthMarker is proved to write it. |
| `GameObjectTree.Dump` | Backup/Program_no_lib.cs:40-51 | The lines WriteToFile writes. DumpLines proves they are one `Name` line per pre-order node at its depth. |
| `GameObjectTree.DumpForest` | Backup/Program_no_lib.cs:47-50 | The children's lines. DumpForestLines gives the same per-node characterisation. |
| `GameObjectTree.GetByIdIsPreOrderFirst` | Backup/Program_no_lib.cs:21-38 | The lookup returns the first node of the subtree, in pre-order, whose TransformFileID is the id, or null. |
| `GameObjectTree.SearchChildrenIsPreOrderFirst` | Backup/Program_no_lib.cs:28-35 | The `foreach` over Children returns the first match across the children's subtrees, taken in list order. |
| `GameObjectTree.GetByIdSpec` | Backup/Program.cs:21-38 | Null exactly when no node of the subtree has the id. Otherwise the result has the id and no node before it in pre-order does. |
| `GameObjectTree.GetByIdSelf` | Backup/Program_no_lib.cs:23-26 | A node whose own id matches is returned without looking at its children. |
| `GameObjectTree.GetByIdOnNewGameObject` | Backup/Program.cs:16-26 | A fresh object (id 0, no children) answers id 0 with itself and every other id with null. |
| `GameObjectTree.FirstIndexWithId` | Backup/Program_no_lib.cs:28-37 | The reference search: no earlier node has the id, and the node at the index has it unless the index is the length. |
| `GameObjectTree.WriteToFile` | Backup/Program_no_lib.cs:40-51 | The file gains exactly the rendered lines of `Dump(g, deep)`, each followed by a line break. |
| `GameObjectTree.WriteDepthMarker` | Backup/Program_no_lib.cs:42-45 | The `for` loop appends `deep` copies of `--`, or nothing for a depth of zero or less. |
| `GameObjectTree.DumpLines` | Backup/Program_no_lib.cs:40-51 | One line per node of the subtree in pre-order. Line i is the i-th node's depth in dashes followed by `Name`. |
| `GameObjectTree.DumpForestLines` | Backup/Program_no_lib.cs:47-50 | The children's lines: one per node of the forest in pre-order, each at its depth. |
| `GameObjectTree.DumpIgnoresNames` | Backup/Program_no_lib.cs:46 | Trees that differ only in their nodes' names have identical dumps. |
| `GameObjectTree.DumpOfLeaf` | Backup/Program.cs:40-51 | A node without children dumps as one line. A fresh root at depth 0 dumps as the single line `Name`. |
| `Streams.Render` | Backup/Program_no_lib.cs:46 | The text of a sequence of WriteLine calls. RenderAppend and RenderOne make it split over appended lines. |
| `Streams.LineReader.ReadLine` | Backup/Program_no_lib.cs:121 | Returns the next line and moves the cursor one step, or returns null at the end and leaves the cursor alone. |
| `Streams.LineReader.constructor` | Backup/Program_no_lib.cs:104 | A reader over the file's lines, positioned before the first. |
| `Streams.TextWriter.constructor` | Backup/Program_no_lib.cs:203 | A newly created file is empty. |
| `Streams.TextWriter.Write` | Backup/Program_no_lib.cs:44 | Appends the text as it is. |
| `Streams.TextWriter.WriteLine` | Backup/Program_no_lib.cs:46 | Appends the text and a line break. |
| `Text.StartsWith` | Backup/Program_no_lib.cs:126 | `string.StartsWith`, as an ordinal prefix test. Every line test of both scanners is built on it, and HeaderKinds and NameLineIsNoBoundary are proved from it. |
| `Text.IsWhiteSpace` | Backup/Program_no_lib.cs:147 | `char.IsWhiteSpace`: the Unicode white-space set (space, tab to carriage return, U+0085, U+00A0, U+1680, U+2000 to U+200A, U+2028, U+2029, U+202F, U+205F, U+3000) that Trim removes. |
| `Text.Split` | Backup/Program_no_lib.cs:130 | `Split` always yields at least one piece. |
| `Text.SplitJoin` | Backup/Program_no_lib.cs:130 | Joining the pieces with the separator gives the string back, and no piece holds the separator. |
| `Text.SplitAtSeparator` | Backup/Program_no_lib.cs:147 | A string holding the separator has at least two pieces, so `[1]` is in range on every m_Name line. |
| `Text.SplitWithoutSeparator` | Backup/Program_no_lib.cs:130 | A string without the separator is its own single piece. |
| `Text.SplitAround` | Backup/Program_no_lib.cs:130 | A separator in the middle splits the two sides independently. |
| `Text.SplitFirst` | Backup/Program_no_lib.cs:130-131 | The first piece ends at the first separator. |
| `Text.SplitLeading` | Backup/Program_no_lib.cs:131 | The first piece of `t + c` is `t` when `t` has no separator and `c` is empty or starts with one. |
| `Text.SplitSecond` | Backup/Program_no_lib.cs:147 | Piece `[1]` is the text between the first separator and the next one, or the end. |
| `Text.TrimStart` | Backup/Program_no_lib.cs:147 | The result is a suffix of the input. Everything removed is white space, and the result does not start with white space. |
| `Text.TrimEnd` | Backup/Program_no_lib.cs:147 | The result is a prefix of the input. Everything removed is white space, and the result does not end with white space. |
| `Text.Trim` | Backup/Program_no_lib.cs:147 | The result is no longer than the input and neither starts nor ends with white space. |
| `Text.TrimMargins` | Backup/Program_no_lib.cs:147 | Around a core that neither starts nor ends with white space, Trim removes exactly the white-space margins. |
| `Text.TrimLeadingBlank` | Backup/Program_no_lib.cs:147 | The blank after `m_Name:` makes no difference to the trimmed name. |
| `Text.TrimIdempotent` | Backup/Program_no_lib.cs:147 | Trimming twice gives what trimming once gives. |
| `Text.ParseInt32` | Backup/Program_no_lib.cs:132 | A successful parse lies between 0 and the largest `int`. |
| `Text.ParseDigits` | Backup/Program_no_lib.cs:132 | Parsing a number's decimal digits gives the number back exactly when it fits in an `int`, and fails above that. |
| `Text.ParseNeedsDigits` | Backup/Program_no_lib.cs:132 | The empty string, or one holding any character other than a digit, never parses. |
| `Text.Digits` | Backup/Program_no_lib.cs:132 | The decimal form of a number is a non-empty string of digits (the partner of ParseInt32). |
| `Text.DigitsValueOfDigits` | Backup/Program_no_lib.cs:132 | The digits of n denote n. |
| `SceneScan.IsGameObjectHeader` | Backup/Program_no_lib.cs:126 | The `--- !u!1 ` test. HeaderKinds proves it rejects `!u!114` and `!u!43` headers. |
| `SceneScan.IsTransformHeader` | Backup/Program_no_lib.cs:157 | The `--- !u!4 ` test. HeaderKinds proves it rejects `!u!43` headers. |
| `SceneScan.IsBoundary` | Backup/Program_no_lib.cs:139 | The `--- !u!` test that ends a field search. HeaderKinds proves every header passes it. |
| `SceneScan.IsNameLine` | Backup/Program_no_lib.cs:145 | The `  m_Name: ` test. NameLineIsNoBoundary proves no such line is a boundary. |
| `SceneScan.HeaderId` | Backup/Program_no_lib.cs:130-132 | The id parse and its three faults. HeaderHasThirdToken, HeaderIdOfToken, HeaderIdOfWellFormed, HeaderIdOverflows and HeaderIdEmptyToken characterise it. |
| `SceneScan.NameValue` | Backup/Program_no_lib.cs:147 | The name cut from an m_Name line: `Split(":")[1].Trim()` for NoLib, `line[10..]` (tool/Program.cs:117) for Tool. NoLibName, ToolName and PlainName characterise it. |
| `SceneScan.SeekName` | Backup/Program_no_lib.cs:137-155 | The inner search and how many lines it reads. SeekNameStops, SeekFindsName, SeekHitsBoundary and SeekHitsEnd characterise it, and SearchName is proved to compute it. |
| `SceneScan.Scan` | Backup/Program_no_lib.cs:121-201 | The outer loop's result. InertLinesSkipped, TransformEndsScan, NamedRecord, NamelessRecordSwallowsBoundary, RecordAtEndOfInput, RecordsComeFromHeaders and CrashComesFromHeader characterise it, and both ScanScene methods are proved to compute it. |
| `SceneScan.FatherFieldId` | Backup/Program_no_lib.cs:180-183 | The unreachable m_Father extraction. FatherFieldNeverParses proves it never yields an id. |
| `SceneScan.HeaderKinds` | Backup/Program_no_lib.cs:126-157 | `--- !u!114 ` and `--- !u!43 ` lines are neither header, though both are record boundaries. Both real headers are boundaries. |
| `SceneScan.HeaderTokens` | Backup/Program_no_lib.cs:130 | A header line splits on spaces into `---`, the kind, then the pieces of the rest of the line. |
| `SceneScan.HeaderHasThirdToken` | Backup/Program_no_lib.cs:130-131 | `lineSplit[2]` never fails on a header line. |
| `SceneScan.HeaderIdOfToken` | Backup/Program_no_lib.cs:130-132 | The id is what int.Parse makes of the third token without its first character, and a failed parse is an IdNotInteger crash. A supplementary first character, which leaves a lone surrogate, is always that crash. |
| `SceneScan.HeaderIdOfWellFormed` | Backup/Program_no_lib.cs:130-132 | `--- !u!1 &<n>` yields n when n fits in an `int`. With a supplementary character in place of `&` it throws instead. |
| `SceneScan.HeaderIdOverflows` | Backup/Program_no_lib.cs:132 | An id above the `int` range is an IdNotInteger crash (OverflowException). |
| `SceneScan.HeaderIdEmptyToken` | Backup/Program_no_lib.cs:131-132 | An empty third token (nothing, or a second space, after the kind) is an IdTokenEmpty crash (`[1..]` throws). |
| `SceneScan.NoLibName` | Backup/Program_no_lib.cs:147 | The NoLib name is the trimmed text between the first and the second colon. Anything after a second colon is lost. |
| `SceneScan.ToolName` | tool/Program.cs:117 | The tool name is everything after the 10-character prefix, untrimmed. |
| `SceneScan.PlainName` | tool/Program.cs:115-117 | For a name without colons or surrounding white space, both versions cut the same name. |
| `SceneScan.NameLineIsNoBoundary` | Backup/Program_no_lib.cs:139-145 | An m_Name line is never a record boundary, so the name test is reached on it. |
| `SceneScan.SeekNameStops` | Backup/Program_no_lib.cs:137-155 | The name search reads only filler lines before the line that ends it. HitBoundary ends on a boundary and Named on an m_Name line, whose name it carries. HitEnd reads to the end of input. |
| `SceneScan.SeekFindsName` | Backup/Program_no_lib.cs:145-153 | The first m_Name line ends the search with its name when no boundary comes before it. |
| `SceneScan.SeekHitsBoundary` | Backup/Program_no_lib.cs:139-143 | The first boundary line ends the search and is consumed with it. |
| `SceneScan.SeekHitsEnd` | Backup/Program_no_lib.cs:137 | Without a boundary or m_Name line the search reads to the end of the input. |
| `SceneScan.SeekSkipsFillers` | Backup/Program_no_lib.cs:137-155 | Filler lines only add to the count of lines the search reads. |
| `SceneScan.SeekStepStop` | Backup/Program_no_lib.cs:137-154 | The search stops on the line it is at when that line is a boundary or an m_Name line, or at the end of input. |
| `SceneScan.InertLinesSkipped` | Backup/Program_no_lib.cs:121-201 | Lines matching neither header prefix are passed over without effect. |
| `SceneScan.TransformEndsScan` | Backup/Program_no_lib.cs:157-163 | The first Transform header the outer loop sees ends the file scan, whatever follows it. |
| `SceneScan.NamedRecord` | Backup/Program_no_lib.cs:126-155 | A GameObject record with an m_Name field reports its id and name. Scanning resumes after the m_Name line. |
| `SceneScan.NamelessRecordSwallowsBoundary` | Backup/Program_no_lib.cs:137-142 | A nameless record reports HitBoundary, and the boundary line is never examined by the outer loop. |
| `SceneScan.RecordAtEndOfInput` | Backup/Program_no_lib.cs:137 | A record cut off by the end of the file reports no name and the scan ends normally. |
| `SceneScan.RecordsComeFromHeaders` | Backup/Program_no_lib.cs:121-132 | Every reported record comes from a GameObject header line of the input, with that line's id. |
| `SceneScan.CrashComesFromHeader` | Backup/Program_no_lib.cs:130-132 | A scan that throws was stopped by a GameObject header whose id fails with that fault. |
| `SceneScan.ScenesBeforeCrash` | Backup/Program_no_lib.cs:97-132 | Counts the leading scenes whose scan does not throw. The scene after them, if any, throws. |
| `SceneScan.FatherFieldNeverParses` | Backup/Program_no_lib.cs:180-183 | The m_Father extraction never parses: piece `[1]` is ` {fileID`, which is not a number. |
| `SceneScan.FatherIdToken` | Backup/Program_no_lib.cs:182-183 | `{fileID` survives Trim, and without its last character it is not a number. |
| `SceneReading.SearchName` | Backup/Program_no_lib.cs:137-155 | The inner `ReadLine` loop returns how `SeekName` ends and leaves the reader just past the lines it read. |
| `NoLibProgram.ScanScene` | Backup/Program_no_lib.cs:118-201 | The nested loops over the shared reader compute `Scan(NoLib, lines)`. |
| `NoLibProgram.ProcessScene` | Backup/Program_no_lib.cs:97-215 | Unless the scan throws, the dump is exactly `Name` and a line break. A throwing scan leaves no dump. |
| `NoLibProgram.DumpScenes` | Backup/Program_no_lib.cs:97-216 | One `Name` dump per scene, up to the first scene whose scan throws. |
| `ToolProgram.NewGameObject` | tool/Program.cs:98 | `gameObject = new()` for the tool's own `GameObject` shape (tool/Program.cs:9-19), with no name and no components. It is never read, and ScanScene proves `gameObjects` stays empty. |
| `ToolProgram.ScanScene` | tool/Program.cs:88-162 | The loops compute `Scan(Tool, lines)`, and the `gameObjects` list stays empty. |
| `ToolProgram.ProcessScene` | tool/Program.cs:65-165 | The dump file is created before the scan and stays empty, even when the scan throws. |
| `ToolProgram.DumpScenes` | tool/Program.cs:65-166 | One empty dump per scene, up to and including the first scene whose scan throws. |
| `YamlProgram.ProcessScene` | Backup/Program.cs:117-157 | The loop reports the value of every `GameObject` key before the first failing cast. The dump is exactly `Name` and a line break when the YAML pass completes, and absent otherwise. |
| `YamlProgram.ReportedComeFromGameObjectKeys` | Backup/Program.cs:128-140 | Every reported value is the value of a `GameObject` entry, and there are no more reports than entries. |
| `YamlProgram.Reported` | Backup/Program.cs:128-141 | The values printed as `GameObject: <value>`. ReportedComeFromGameObjectKeys and ReportedInOrder characterise them in both directions. |
| `YamlProgram.ReportedPrefix` | Backup/Program.cs:128-141 | A prefix without failing casts reports the start of the whole report. |
| `YamlProgram.ReportedInOrder` | Backup/Program.cs:128-140 | Every `GameObject` entry before the first failing cast is reported, after the values of the entries before it. |
| `YamlProgram.ReportedStopsAt` | Backup/Program.cs:128-132 | The first entry whose cast throws ends the report and rules out the dump. |
| `YamlProgram.LoadedBeforeFailure` | Backup/Program.cs:97-158 | Counts the leading scenes the YAML pass completes. The scene after them, if any, fails. |
| `YamlProgram.DumpScenes` | Backup/Program.cs:97-158 | One `Name` dump per scene, up to the first scene the YAML pass fails on. |

## Left out

- Command-line handling: the argument-count check, the usage text and echoing the arguments.
- File system access: `Directory.GetFiles`, `Directory.CreateDirectory`, `File.OpenText`, `File.CreateText`, `Close` and the null checks on their results.
  - Each scene is given as its sequence of lines, and each dump is returned as its text.
  - Dump file names (`<scene>.scene.dump`) and overwriting existing files are not modelled.
- Console output: the `Console.WriteLine` diagnostics are not produced. The `Record`/`Stop` values and `YamlProgram`'s `reported` list carry the same information.
- The YAML library (`YamlStream.Load`, `Documents[0]`, `Children[0]`, the node casts) is a foreign call.
  - Its result is an input: the first component's entries, or None when loading or an indexing before the loop throws.
  - It never touches the root GameObject.
- Text.ParseInt32: only ASCII digit strings parse. int.Parse with the current culture would also accept a sign, surrounding white space and trailing NUL characters.
- Strings are sequences of Unicode scalar values, not UTF-16 code units. The one place where the code splits a character is `[1..]` on the id token, and HeaderId models that case explicitly. Every other index and prefix the scanners use falls on ASCII text, and the unreachable `[..^1]` of the m_Father field only ever sees `{fileID`.
- Text.StartsWith: compares character by character. `string.StartsWith(string)` is culture-sensitive, which makes a difference only for characters such as zero-width ones that the culture ignores.
- Streams.NewLine: the line break written by WriteLine is `\n`, as on a Unix host. On Windows, `Environment.NewLine` is `\r\n`.
- Unhandled exceptions end `Main` at once. The model stops the per-scene loop there but does not produce a stack trace.
- The `GameObject` tree is a datatype, not an object graph.
  - The only in-place updates of GameObjects in the code are `gameObject.Name` on a local object that is then dropped, and the unreachable `Children.Add`.
  - Aliasing between tree nodes is therefore not modelled.
- The tool version's `Transform`/`GameObject` shapes (tool/Program.cs:9-19) are datatypes. Only `Name` is ever set, on a local object that is then dropped (tool/Program.cs:120). `Components` and `Children` are never filled.
- The m_Father search and the parent lookup in Backup/Program_no_lib.cs:164-197 are unreachable, so they are not part of the scanner.
  - Only their string extraction is modelled, as `SceneScan.FatherFieldId`, so that it can be shown never to parse.
