# Caret-preserving code box, in Dafny

This project models the code box of the teaching pages: a content-editable
DIV in which every keystroke throws away the rendered, syntax-highlighted
tree of the source and builds it again, while the caret has to stay where
the user left it. The model covers:

- `ui.go` (caret capture and restore). It finds the line DIV above the
  caret and counts the element siblings before it. It sums the text of the
  siblings before the caret's piece. It walks a line's pieces to find where
  a column falls. It puts the caret into that piece's first leaf. It also
  covers the leaf iteration and `TextContent`.
- `source.go` (the source pane). It covers the keyword table and `format`,
  and `set`, which renders one DIV per line. It covers `extractSource`,
  which reads the text back, and `onSourceChange`, which ties them together.
- `code.go` (compile and run). It covers `flatten` and `buildString` for a
  run's results, the error precedence of `compileCode` and `runCode`, and
  the error branch of `callAndWrite`.

The browser page is an immutable tree (`Dom.Node`), and a node is addressed
by its path of child indices. The caret the browser reports is a
`Caret.Range`: a container path and an offset. A `syscall/js` read of a
property of `null` panics in the Go code; in the model it is an `Err`
carrying `Caret.NullGet`. A `collapse` request the browser would refuse is
recognised by `Caret.CollapseAccepted`. The compiler, the tracer, the runtime,
`values.ToHost` and `fmt.Sprint` enter as the fields of a `Code.Backend`.

Modules, one per file, in dependency order:

- `Wrappers`: `Option` and `Result`.
- `Strings`: `ReplaceAll`, `Split`, `Join` and decimal printing.
- `Html`: `EscapeString` and its inverse.
- `Dom`: the tree, leaves and `TextContent`.
- `Caret`: capture, restore and `Selection.String`.
- `CaretRestore`: what capture and restore achieve together.
- `Highlight`: `keywordToColor` and `format`.
- `SourcePane`: `set`, `extractSource` and `onSourceChange`.
- `Code`: `code.go`.

Notable behaviours of the code:

- The line of the caret is found by counting the element siblings before
  its line DIV. Lines are not tagged with their index.
- Keywords are highlighted by replacing each table entry in turn over the
  whole escaped string. There is no left-to-right longest-match scan.
  `Highlight.VarInLanguageTag` shows why the order of the table matters.
  The nested span of `float64` inside `bfloat64` comes from this.
- Restoring a column past the end of its line does nothing (`SetAsCurrent`
  gives `None`). It does not clamp to the end of the line.
- The column is captured from the siblings of the piece just below the
  line DIV, not from the whole line. `SourcePane.CaptureInNestedSpan` shows
  what that does to a caret inside a nested span.
- `buildString` ends every line of a listing with a newline, the last line
  included.

## Model

| member | source | states |
|---|---|---|
| Strings.ReplaceAllAbsent | internal/pages/wasm/ui/code/source.go:76 | replacing a word that does not occur leaves the string as it is |
| Strings.ReplaceAllAppend | internal/pages/wasm/ui/code/source.go:76 | replacing over a concatenation is replacing in each half, when no occurrence straddles the seam |
| Strings.ReplaceAllOneRune | internal/pages/wasm/ui/code/source.go:71 | replacing one rune by another everywhere is the rune-wise map `MapChar` |
| Strings.MapChar | internal/pages/wasm/ui/code/source.go:46 | the rune-wise replacement keeps the length and changes exactly the runes equal to the old one |
| Strings.MapCharInverse | internal/pages/wasm/ui/code/source.go:46 | mapping spaces to no-break spaces and back restores a string that had no no-break space |
| Strings.MapCharJoin | internal/pages/wasm/ui/code/source.go:45-46 | mapping a rune other than the separator over a joined string is joining the mapped parts |
| Strings.Split | internal/pages/wasm/ui/code/source.go:88 | splitting gives at least one part, and no part holds the separator |
| Strings.JoinSplit | internal/pages/wasm/ui/code/source.go:88 | joining the parts of a split with the same separator gives the string back |
| Strings.SplitJoin | internal/pages/wasm/ui/code/source.go:45 | splitting a join of separator-free parts gives the parts back |
| Strings.SplitCount | internal/pages/wasm/ui/code/source.go:88 | a source has one more line than it has newlines |
| Strings.Decimal | internal/pages/wasm/ui/code/code.go:116 | `%d` writes at least one digit, only digits, and no leading zero |
| Strings.DecimalValue | internal/pages/wasm/ui/code/code.go:116 | the digits `%d` writes read back as the number |
| Strings.DigitRunAppend | internal/pages/wasm/ui/code/code.go:116 | the digit run at the head of a number followed by a non-digit is exactly the number's digits |
| Html.Escape | internal/pages/wasm/ui/code/source.go:72 | escaping never shortens a string and leaves no `<` or `>` in it |
| Html.EscapeAppend | internal/pages/wasm/ui/code/source.go:72 | escaping a concatenation is concatenating the escapes |
| Html.EscapePlain | internal/pages/wasm/ui/code/source.go:72 | a string without the five special runes escapes to itself |
| Html.UnescapeEscape | internal/pages/wasm/ui/ui.go:166 | unescaping undoes escaping, for every string |
| Html.UnescapeShrinks | internal/pages/wasm/ui/ui.go:166 | unescaping never lengthens a string |
| Html.UnescapeNoAmpersand | internal/pages/wasm/ui/ui.go:166 | a string without `&` unescapes to itself |
| Dom.Leaves | internal/pages/wasm/ui/ui.go:169-183 | a childless node is its own only leaf; every leaf yielded is childless, and there is at least one |
| Dom.LeavesOfAppend | internal/pages/wasm/ui/ui.go:175-181 | the leaves of consecutive children are the leaves of each, in order |
| Dom.LeavesInDocumentOrder | internal/pages/wasm/ui/ui.go:169-183 | the i-th leaf yielded is the node at the i-th leaf path, and the leaf paths are in document order |
| Dom.LeafPathsComplete | internal/pages/wasm/ui/ui.go:169-183 | every childless node below the root is among the leaves the iteration yields |
| Dom.FirstLeafPath | internal/pages/wasm/ui/ui.go:185-190 | the path leads to the first leaf the iteration yields, which is childless |
| Dom.LeafDataOfLeaves | internal/pages/wasm/ui/ui.go:159-165 | the data of the leaves, concatenated, is the text of the subtrees |
| Dom.TextContentIsText | internal/pages/wasm/ui/ui.go:157-167 | `TextContent` is the decoding of the text held by the node's subtree |
| Dom.InnerHtmlBytes | internal/pages/wasm/ui/ui.go:145 | the markup of an editor with an element child is longer than one byte; an empty editor has none |
| Dom.Replace | internal/pages/wasm/ui/code/source.go:84-97 | after swapping the editor's children the new node sits at the editor's path |
| Dom.ReplaceSame | internal/pages/wasm/ui/code/source.go:84-97 | putting back the node already at a path changes nothing |
| Dom.ReplaceElsewhere | internal/pages/wasm/ui/code/source.go:84-97 | re-rendering the editor leaves every node outside it where it was |
| Caret.FindParentDiv | internal/pages/wasm/ui/ui.go:93-99 | the nearest DIV at or above the node, with no DIV in between; a null read exactly when there is no DIV above |
| Caret.PrevElement | internal/pages/wasm/ui/ui.go:103-107 | `previousElementSibling` is the nearest element before the child, and is null exactly when no sibling before it is an element |
| Caret.CountBackElems | internal/pages/wasm/ui/ui.go:101-109 | the loop counts exactly the element siblings before the line DIV |
| Caret.LineNum | internal/pages/wasm/ui/ui.go:101-109 | the line is the number of elements before the line DIV, and fails exactly when no DIV is found |
| Caret.ClimbBelowDiv | internal/pages/wasm/ui/ui.go:118-120 | the climb stops at the ancestor whose parent is the first DIV above; a null read when there is none |
| Caret.SumBackLens | internal/pages/wasm/ui/ui.go:126-134 | the backward loop adds up the text of exactly the siblings before the piece |
| Caret.TextLenFromPreviousElement | internal/pages/wasm/ui/ui.go:111-136 | zero before a `<br>`; otherwise the text before the piece under the line DIV; fails exactly when the climb fails |
| Caret.CurrentSelection | internal/pages/wasm/ui/ui.go:138-155 | no range gives no selection; the line is found only for markup over one byte; the column is the text before plus the offset; errors exactly from the two helpers |
| Caret.Walk | internal/pages/wasm/ui/ui.go:201-211 | the chosen piece is the first whose text reaches the column, with the offset into it; none exactly when the column is past the line |
| Caret.SetAsCurrent | internal/pages/wasm/ui/ui.go:192-212 | no request without a selection or past the last line; a request exactly when the column falls within an existing line; the caret then goes to the first leaf of the chosen piece at the remaining offset |
| Caret.SelectionStringRead | internal/pages/wasm/ui/ui.go:214-219 | the printed form of a selection, or `nil`, determines it |
| CaretRestore.CaptureFromPiece | internal/pages/wasm/ui/ui.go:101-136 | a caret in the first leaf of a piece of a flat line is read as that line, with the text of the pieces before |
| CaretRestore.CollapseIntoPiece | internal/pages/wasm/ui/ui.go:202-208 | the browser accepts a caret put into such a leaf at an offset within the piece's text |
| CaretRestore.RestoreAccepted | internal/pages/wasm/ui/ui.go:202-208 | on a flat editor, a column within its line gives a collapse request the browser accepts |
| CaretRestore.RestoreCaptured | internal/pages/wasm/ui/ui.go:138-155 | on a flat editor, the caret restored for a column within its line is captured as that selection |
| CaretRestore.RestoreThenCapture | internal/pages/wasm/ui/ui.go:138-212 | on a flat editor, restoring a selection within its line and capturing again gives the selection back, and the browser accepts the caret |
| Highlight.LanguageWordsClean | internal/pages/wasm/ui/code/source.go:54-59 | every language keyword is a plain word, and none after `var` occurs in a tag written for either colour |
| Highlight.TypeWordsClean | internal/pages/wasm/ui/code/source.go:60-67 | no type keyword occurs in a tag written for either colour |
| Highlight.VarInLanguageTag | internal/pages/wasm/ui/code/source.go:55-57 | `var` occurs in the tag written for language keywords, so it has to be replaced first |
| Highlight.HighlightTextSerialize | internal/pages/wasm/ui/code/source.go:76 | replacing a word in the escape of a text run is serializing that run with the word split into spans |
| Highlight.HighlightFragsSerialize | internal/pages/wasm/ui/code/source.go:76 | the same for already highlighted markup, when the word occurs in none of its tags |
| Highlight.HighlightFragsShape | internal/pages/wasm/ui/code/source.go:75-77 | highlighting keeps the fragments well formed and their text unchanged, and adds only its own colour |
| Highlight.HighlightWordsAgree | internal/pages/wasm/ui/code/source.go:75-77 | the words of one colour, in table order, do in the tree what the string replacements do in the markup |
| Highlight.FormatNoKeyword | internal/pages/wasm/ui/code/source.go:70-80 | a line whose escaped text holds no keyword of the table comes out only escaped, with spaces as no-break spaces and no span added |
| Highlight.FormatBfloat64 | internal/pages/wasm/ui/code/source.go:60-78 | the line `bfloat64` is highlighted as a span of `b` holding a span of `float64`, both in the type colour: `float64`, replaced after `bfloat64`, lands inside the first span |
| Highlight.FormatBfloat64Markup | internal/pages/wasm/ui/code/source.go:70-80 | `format` writes the type-colour tag of `b` followed by the type-colour tag of `float64`, the second inside the first |
| Highlight.FormatFuncname | internal/pages/wasm/ui/code/source.go:54-78 | the line `funcname` is highlighted as a language-colour span of `func` followed by the plain text `name` |
| Highlight.FormatFuncnameMarkup | internal/pages/wasm/ui/code/source.go:70-80 | `format` writes the language-colour tag of `func` followed by `name`: keywords are replaced inside longer words |
| Highlight.FormatAgrees | internal/pages/wasm/ui/code/source.go:70-80 | the markup `format` writes is the serialization of a well-formed tree of the two colours whose text is the line with no-break spaces |
| SourcePane.FragNodesText | internal/pages/wasm/ui/code/source.go:94-96 | the nodes built from the markup hold the text of the fragments |
| SourcePane.RenderLines | internal/pages/wasm/ui/code/source.go:88-97 | one DIV per line, in order |
| SourcePane.Set | internal/pages/wasm/ui/code/source.go:82-98 | records the source and gives the editor one line DIV per part of the split |
| SourcePane.SetLines | internal/pages/wasm/ui/code/source.go:88-97 | the editor gets one more child than the source has newlines, and every child is a DIV |
| SourcePane.SetTwice | internal/pages/wasm/ui/code/source.go:82-98 | rendering the same source twice gives the same pane |
| SourcePane.SetElsewhere | internal/pages/wasm/ui/code/source.go:84-97 | rendering leaves the page outside the editor unchanged |
| SourcePane.Extract | internal/pages/wasm/ui/code/source.go:40-48 | the lines' decoded text joined with newlines, with no no-break space left |
| SourcePane.LineText | internal/pages/wasm/ui/code/source.go:88-96 | a rendered line reads back as the decoding of the line with its spaces made no-break |
| SourcePane.ExtractSet | internal/pages/wasm/ui/code/source.go:40-48 | reading back a rendered source without `&` or no-break spaces gives the source |
| SourcePane.ExtractSetDecodesTwice | internal/pages/wasm/ui/code/source.go:40-48 | the rendered source `&lt;` reads back as `<` |
| SourcePane.ExtractSetNbsp | internal/pages/wasm/ui/code/source.go:46 | a no-break space in the source reads back as a space |
| SourcePane.OnSourceChange | internal/pages/wasm/ui/code/source.go:104-113 | ignored exactly when the text equals the last source; panics exactly when the caret capture fails; otherwise re-renders and compiles the new text, and restores on the new page the selection captured on the old one |
| SourcePane.Settles | internal/pages/wasm/ui/code/source.go:104-108 | after a re-render of a source without `&`, the next input event with no edit is ignored |
| SourcePane.DecodesAgain | internal/pages/wasm/ui/code/source.go:104-113 | a pane showing `&lt;` after the source `<` is re-rendered as `<` and compiles `<` |
| SourcePane.RenderedFlat | internal/pages/wasm/ui/code/source.go:88-97 | lines whose highlighting nests no span are rendered as flat line DIVs |
| SourcePane.RenderBfloat64 | internal/pages/wasm/ui/code/source.go:82-97 | `set` of the source `bfloat64` gives the editor one line DIV holding the nested span |
| SourcePane.RestoreIntoNestedSpan | internal/pages/wasm/ui/ui.go:192-212 | after `set` of `bfloat64`, restoring column 3 of its line sends the caret to the one-rune leaf `b` at offset 3, which the browser refuses |
| SourcePane.CaptureInNestedSpan | internal/pages/wasm/ui/ui.go:111-155 | after `set` of `bfloat64`, a caret after `fl` in the nested `float64`, three runes into the line, is captured as column 2 |
| SourcePane.CaretKept | internal/pages/wasm/ui/code/source.go:109-111 | on flat lines without `&`, the caret restored after the re-render is accepted and is captured as the selection captured before it |
| Code.Flatten | internal/pages/wasm/ui/code/code.go:86-101 | the result holds no slice |
| Code.FlattenLoop | internal/pages/wasm/ui/code/code.go:86-101 | the loop with its recursive calls computes the flattening |
| Code.FlattenAppend | internal/pages/wasm/ui/code/code.go:88-99 | flattening distributes over concatenation |
| Code.FlattenHolds | internal/pages/wasm/ui/code/code.go:86-101 | a value is in the result exactly when it occurs at any depth of the input |
| Code.FlattenAtoms | internal/pages/wasm/ui/code/code.go:89-92 | values without slices pass through unchanged |
| Code.FlattenIdempotent | internal/pages/wasm/ui/code/code.go:86-101 | flattening twice is flattening once |
| Code.BuildString | internal/pages/wasm/ui/code/code.go:103-119 | a conversion error is returned as is; no values give the empty string; one value gives its print |
| Code.ListingLines | internal/pages/wasm/ui/code/code.go:114-118 | the listing splits into one `i: v` line per value plus an empty tail, with one newline per value |
| Code.EntryRead | internal/pages/wasm/ui/code/code.go:116 | a listing line starts with the index's digits, and the value's print follows `: ` |
| Code.BuildStringJoin | internal/pages/wasm/ui/code/code.go:114-118 | two or more values, whatever they print, give each numbered entry `i: v` followed by a newline, the last one included |
| Code.BuildStringListing | internal/pages/wasm/ui/code/code.go:111-118 | two or more values give a listing whose lines are the numbered prints |
| Code.RunCode | internal/pages/wasm/ui/code/code.go:121-130 | a compile error comes first, then a missing `Main` |
| Code.RunCodeWrites | internal/pages/wasm/ui/code/code.go:121-145 | a successful run passed every step, and writes the listing of the run's values |
| Code.RunNeedsCompile | internal/pages/wasm/ui/code/code.go:121-125 | a program that runs also compiles, and a compile error is what running reports |
| Code.Steps | internal/pages/wasm/ui/code/code.go:63-144 | a run is six steps in a fixed order, each pinned to its backend call: the device error with its prefix, the build, the lookup of `Main` (failing with `function Main not found`), the trace, the run and the conversion and printing of the values; each step is reached only when the one before passed, and once a step does not pass every later one is skipped |
| Code.FirstFailure | internal/pages/wasm/ui/code/code.go:74-84 | none exactly when no step failed; otherwise the error of a failed step with no failure before it |
| Code.FirstFailurePrefix | internal/pages/wasm/ui/code/code.go:54-72 | a failure among the first steps is the first failure of the whole run; a run without failure has none among its first steps |
| Code.RunErrorOrder | internal/pages/wasm/ui/code/code.go:74-144 | a run fails exactly when a step fails; the Run button then writes `ERROR: ` and the first failing step's error; with no failure every step passed |
| Code.CompileErrorOrder | internal/pages/wasm/ui/code/code.go:54-84 | compiling succeeds exactly when the run's first two steps pass; a failure writes `ERROR: ` and the first failing step's error, which is also what running reports and the run's first failure; success clears the output |
| Code.RunWithoutDevice | internal/pages/wasm/ui/code/code.go:63-66 | without a device, compiling and running both write the same backend error |

## Left out

- The browser's HTML parser is not modelled. The tree of a rendered line is
  built from the highlighting fragments, and `Highlight.FormatAgrees` proves
  that those fragments serialize to the markup `format` writes. An empty
  line becomes a `BR` element. The parser's input-stream preprocessing is
  not modelled either: a browser turns every carriage return (alone or
  before a line feed) into a line feed and drops U+0000 from body text, while
  the model's text nodes keep both runes. A source that reaches `set`
  without passing through the editor, such as lesson code, can hold them.
- `html.UnescapeString` is modelled for the five character references that
  `html.EscapeString` writes. The rest of its entity table is not.
- Raw DOM calls, the debug prints and the `FIRST`/`LAST` globals are not
  modelled: `CreateDIV`, `RemoveChild`, `InnerHTML` and `getSelection`. A
  re-render is a replacement of the editor node, and the selection's range
  is a parameter (`None` when `rangeCount` is zero).
- Panics are not modelled as control flow. A `syscall/js` read on `null` is
  an `Err` or `Panicked` outcome. A refused `collapse` is the predicate
  `Caret.CollapseAccepted`.
- `callAndWrite` is modelled without its `recover` branch and
  `debug.Stack`. The stack trace is not data the model can describe.
- Goroutines are not modelled. The compile that `onSourceChange` starts is
  the `compile` field of its result, and it is not run.
- `onRun` is not a separate member. It is `Code.CallAndWrite` applied to
  `Code.RunCode` and the pane's `lastSrc`.
- `output.go` is not part of this model. Its `set` ignores its argument, so
  the model states what the code passes to it, not what appears on screen.
- The GX compiler, tracer and runtime, `values.ToHost` and `fmt.Sprint` are
  parameters (`Code.Backend`, `toHost`, `show`). The printing of `%v` is
  taken to be `fmt.Sprint`.
- The `ui` and `el` fields of `Selection` and its JavaScript range are left
  out. A selection is its line and column.
- Go's `int` is taken as unbounded. Line and column counts cannot come near
  64 bits.
- The caret's column counts runes, as `utf8.RuneCountInString` does. The
  offset `collapse` checks is in UTF-16 code units (`Caret.Utf16Len`).
- SourcePane.ExtractSet: holds only for sources without `&` and without
  no-break spaces. `ExtractSetDecodesTwice` and `ExtractSetNbsp` show what
  the code does with each of them. In a browser it also needs a source
  without carriage returns and without U+0000, which the parser rewrites
  (`"a\rb"` reads back as `"a\nb"`, `"a\u0000b"` as `"ab"`).
- SourcePane.Settles: stated for sources without `&`. With one, the text
  can be decoded a second time and the source changes (`DecodesAgain`).
  Like `ExtractSet`, it reads the page back from the model's tree, so in a
  browser it also needs a source without carriage returns and without
  U+0000.
- SourcePane.CaretKept: stated for lines whose highlighting nests no span,
  and for sources without `&`. `SourcePane.RestoreIntoNestedSpan` shows the
  caret being lost in a nested span.
- CaretRestore.RestoreThenCapture: stated for editors whose lines are flat,
  as `SourcePane.RenderedFlat` produces them.
- Code.BuildStringListing: states the line structure only when no printed
  value holds a newline. `Code.BuildStringJoin` states the listing for
  every value.
- Code.RunCode: states the first two error steps in its own contract. The
  remaining steps are in `Code.RunCodeWrites` and `Code.RunErrorOrder`.
