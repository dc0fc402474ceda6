/** The source pane of the code editor: `source.go`.

    The pane is a content-editable DIV (the `input` of a `Source`) whose
    children are one DIV per line. `set` renders a source string into it,
    `extractSource` reads the source back from whatever the user's editing
    left there, and `onSourceChange`, run on every input event, re-renders
    when the source changed while keeping the caret where it was.

    The browser turns the markup `format` writes into a tree; here that tree
    is built directly from the highlighted fragments (`FragNodes`), and
    `Highlight.FormatAgrees` proves the fragments serialize to exactly that
    markup. A text node holds the decoded runes, as the browser's `data`
    does. */
module SourcePane {
  import opened Wrappers
  import opened Strings
  import opened Dom
  import opened Caret
  import opened CaretRestore
  import Html
  import opened Highlight

  // ---------------------------------------------------------------------
  // Rendering
  // ---------------------------------------------------------------------

  /** The nodes the browser builds for highlighted fragments: a text run
      becomes a text node, a span a `SPAN` element. */
  function FragNodes(fs: seq<Frag>): (r: seq<Node>)
    ensures |r| == |fs|
    decreases fs
  {
    if fs == [] then []
    else
      [match fs[0]
       case Chars(t) => Text(t)
       case Span(_, kids) => Elem("SPAN", FragNodes(kids))]
      + FragNodes(fs[1..])
  }

  /** The nodes carry the fragments' text. */
  lemma {:induction false} FragNodesText(fs: seq<Frag>)
    ensures TextOf(FragNodes(fs)) == FragText(fs)
    decreases fs
  {
    if fs != [] {
      FragNodesText(fs[1..]);
      var ns := FragNodes(fs);
      assert ns[1..] == FragNodes(fs[1..]);
      if fs[0].Span? {
        FragNodesText(fs[0].kids);
      }
    }
  }

  /** The children of one line DIV: `<br>` for an empty line, the
      highlighted line otherwise. */
  function LineNodes(line: string): seq<Node> {
    if line == [] then [Elem("BR", [])] else FragNodes(FormatFrags(line))
  }

  function LineDiv(line: string): Node {
    Elem("DIV", LineNodes(line))
  }

  /** One line DIV per line, in order. */
  function RenderLines(lines: seq<string>): (r: seq<Node>)
    ensures |r| == |lines|
    ensures forall i :: 0 <= i < |lines| ==> r[i] == LineDiv(lines[i])
  {
    if lines == [] then [] else [LineDiv(lines[0])] + RenderLines(lines[1..])
  }

  // ---------------------------------------------------------------------
  // The pane
  // ---------------------------------------------------------------------

  /** The page, where the input DIV is in it, and the last source set. */
  datatype Source = Source(root: Node, input: Path, lastSrc: string)

  predicate Ready(s: Source) {
    Valid(s.root, s.input) && NodeAt(s.root, s.input).Elem?
  }

  /** The lines of the input DIV. */
  function Lines(s: Source): seq<Node>
    requires Valid(s.root, s.input)
  {
    Kids(NodeAt(s.root, s.input))
  }

  /** `Source.set`: remember `src` and replace the children of the input
      by one DIV per line of `src`. */
  function Set(s: Source, src: string): (r: Source)
    requires Ready(s)
    ensures Ready(r) && r.input == s.input && r.lastSrc == src
    ensures Lines(r) == RenderLines(Split(src, '\n'))
  {
    var e := NodeAt(s.root, s.input);
    Source(Replace(s.root, s.input, Elem(e.name, RenderLines(Split(src, '\n')))), s.input, src)
  }

  /** `ui.TextContent` of each node. */
  function Contents(ns: seq<Node>): (r: seq<string>)
    ensures |r| == |ns|
    ensures forall i :: 0 <= i < |ns| ==> r[i] == TextContent(ns[i])
  {
    if ns == [] then [] else [TextContent(ns[0])] + Contents(ns[1..])
  }

  /** `Source.extractSource`: the decoded text of each line, joined by
      newlines, with no-break spaces turned back into spaces. */
  function Extract(s: Source): (r: string)
    requires Valid(s.root, s.input)
    ensures r == MapChar(Join(Contents(Lines(s)), '\n'), Nbsp, ' ')
    ensures Nbsp !in r
  {
    var joined := Join(Contents(Lines(s)), '\n');
    ReplaceAllOneRune(joined, Nbsp, ' ');
    ReplaceAll(joined, [Nbsp], " ")
  }

  // ---------------------------------------------------------------------
  // What set renders
  // ---------------------------------------------------------------------

  /** `set` writes one line DIV per line: one more than there are
      newlines. */
  lemma SetLines(s: Source, src: string)
    requires Ready(s)
    ensures |Lines(Set(s, src))| == Count(src, '\n') + 1
    ensures forall i :: 0 <= i < |Lines(Set(s, src))| ==> IsDiv(Lines(Set(s, src))[i])
  {
    SplitCount(src, '\n');
  }

  /** `set` only rewrites the input: every node apart from it stays. */
  lemma SetElsewhere(s: Source, src: string, q: Path)
    requires Ready(s) && Apart(s.input, q)
    ensures At(Set(s, src).root, q) == At(s.root, q)
  {
    var e := NodeAt(s.root, s.input);
    ReplaceElsewhere(s.root, s.input, Elem(e.name, RenderLines(Split(src, '\n'))), q);
  }

  /** Setting the same source twice is setting it once: what `set` writes
      does not depend on what was there. */
  lemma SetTwice(s: Source, src: string)
    requires Ready(s)
    ensures Set(Set(s, src), src) == Set(s, src)
  {
    var t := Set(s, src);
    ReplaceSame(t.root, t.input);
  }

  /** A line reads back as itself with spaces as no-break spaces, decoded
      once more by `TextContent`. */
  lemma LineText(line: string)
    ensures TextContent(LineDiv(line)) == Html.Unescape(MapChar(line, ' ', Nbsp))
  {
    var d := LineDiv(line);
    TextContentIsText(d);
    assert TextOf([d]) == TextOf(LineNodes(line)) by {
      assert [d][1..] == [];
    }
    if line == [] {
      var br := Elem("BR", []);
      assert TextOf([br]) == TextOf([]) + TextOf([br][1..]);
    } else {
      FragNodesText(FormatFrags(line));
      FormatAgrees(line);
      ReplaceAllOneRune(line, ' ', Nbsp);
    }
  }

  /** Without an `&`, a line reads back as itself with spaces as no-break
      spaces. */
  lemma LinePlain(line: string)
    requires '&' !in line
    ensures TextContent(LineDiv(line)) == MapChar(line, ' ', Nbsp)
  {
    var m := MapChar(line, ' ', Nbsp);
    forall i | 0 <= i < |m| ensures m[i] != '&' {
      assert line[i] in line;
    }
    LineText(line);
    Html.UnescapeNoAmpersand(m);
  }

  /** The contents of rendered lines, when no line has an `&`. */
  lemma {:induction false} RenderedContents(lines: seq<string>)
    requires forall i :: 0 <= i < |lines| ==> '&' !in lines[i]
    ensures Contents(RenderLines(lines)) == MapCharEach(lines, ' ', Nbsp)
  {
    if lines != [] {
      var ns := RenderLines(lines);
      assert ns[1..] == RenderLines(lines[1..]);
      RenderedContents(lines[1..]);
      LinePlain(lines[0]);
    }
  }

  /** Reading back what `set` wrote gives the source, as long as it has no
      `&` (which `TextContent` would decode a second time) and no no-break
      space (which `extractSource` turns into a space). */
  lemma ExtractSet(s: Source, src: string)
    requires Ready(s)
    requires '&' !in src && Nbsp !in src
    ensures Extract(Set(s, src)) == src
  {
    var lines := Split(src, '\n');
    SplitRunes(src, '\n');
    RenderedContents(lines);
    MapCharJoin(lines, '\n', ' ', Nbsp);
    JoinSplit(src, '\n');
    MapCharInverse(src, ' ', Nbsp);
  }

  /** The source `&lt;` is rendered as the text `&lt;`, which
      `TextContent` decodes to `<`. */
  lemma ExtractSetDecodesTwice(s: Source)
    requires Ready(s)
    ensures Extract(Set(s, "&lt;")) == "<"
  {
    var src := "&lt;";
    assert '\n' !in src && ' ' !in src;
    ExtractPlainLine(s, src);
    LtDecodes();
    MapCharAbsent("<", Nbsp, ' ');
  }

  /** A source of one line without spaces reads back as its decoding. */
  lemma ExtractPlainLine(s: Source, src: string)
    requires Ready(s) && '\n' !in src && ' ' !in src
    ensures Extract(Set(s, src)) == MapChar(Html.Unescape(src), Nbsp, ' ')
  {
    ExtractOneLine(s, src);
    LineText(src);
    MapCharAbsent(src, ' ', Nbsp);
  }

  lemma LtDecodes()
    ensures Html.Unescape("&lt;") == "<"
  {
    var src := "&lt;";
    assert src[..4] == "&lt;" && src[4..] == [];
  }

  /** A no-break space in the source comes back as a space. */
  lemma ExtractSetNbsp(s: Source)
    requires Ready(s)
    ensures Extract(Set(s, [Nbsp])) == " "
  {
    var src := [Nbsp];
    ExtractOneLine(s, src);
    LineText(src);
    MapCharAbsent(src, ' ', Nbsp);
    Html.UnescapeNoAmpersand(src);
  }

  /** A source of one line reads back as that line's text. */
  lemma ExtractOneLine(s: Source, src: string)
    requires Ready(s) && '\n' !in src
    ensures Extract(Set(s, src)) == MapChar(TextContent(LineDiv(src)), Nbsp, ' ')
  {
    SplitNone(src, '\n');
    var t := Set(s, src);
    assert Lines(t) == [LineDiv(src)];
    assert Contents(Lines(t)) == [TextContent(LineDiv(src))];
  }

  // ---------------------------------------------------------------------
  // onSourceChange
  // ---------------------------------------------------------------------

  /** What an input event does: nothing when the source did not change; a
      panic when reading the caret fails; otherwise the re-rendered pane,
      the caret to restore (the deferred `SetAsCurrent`) and the source
      handed to the compiler. */
  datatype Reaction =
    | Ignored
    | Panicked(reason: string)
    | Rerendered(next: Source, caret: Option<Range>, compile: string)

  /** `Source.onSourceChange`, with the browser's current range as `caret`.
      The selection is read before `set` and restored after it. */
  function OnSourceChange(s: Source, caret: Option<Range>): (r: Reaction)
    requires Ready(s)
    requires caret.Some? ==> Valid(s.root, caret.value.container)
    ensures r.Ignored? <==> Extract(s) == s.lastSrc
    ensures r.Panicked? <==> Extract(s) != s.lastSrc && CurrentSelection(s.root, s.input, caret).Err?
    ensures r.Panicked? ==> r.reason == NullGet
    ensures r.Rerendered? ==> r.next.lastSrc == r.compile && r.compile != s.lastSrc
    ensures r.Rerendered? ==> r.next == Set(s, Extract(s)) && Extract(s) == r.compile
    ensures r.Rerendered? && caret.None? ==> r.caret.None?
    ensures r.Rerendered? ==> CurrentSelection(s.root, s.input, caret).Ok?
    ensures r.Rerendered? ==>
      r.caret == SetAsCurrent(r.next.root, r.next.input, CurrentSelection(s.root, s.input, caret).value)
  {
    var current := Extract(s);
    if current == s.lastSrc then Ignored
    else
      match CurrentSelection(s.root, s.input, caret)
      case Err(e) => Panicked(e)
      case Ok(sel) =>
        var t := Set(s, current);
        Rerendered(t, SetAsCurrent(t.root, t.input, sel), current)
  }

  /** After a re-render the next event finds nothing to do, unless the
      source holds an `&` that `TextContent` decodes again. */
  lemma Settles(s: Source, caret: Option<Range>, later: Option<Range>)
    requires Ready(s)
    requires caret.Some? ==> Valid(s.root, caret.value.container)
    requires OnSourceChange(s, caret).Rerendered?
    requires '&' !in OnSourceChange(s, caret).compile
    requires later.Some? ==> Valid(OnSourceChange(s, caret).next.root, later.value.container)
    ensures OnSourceChange(OnSourceChange(s, caret).next, later).Ignored?
  {
    ExtractSet(s, Extract(s));
  }

  /** With `&lt;` in the pane, the source read is `&lt;`; after rendering it,
      the next event reads `<` and renders again. */
  lemma DecodesAgain(s: Source)
    requires Ready(s) && s.lastSrc == "<"
    ensures OnSourceChange(Set(s, "&lt;"), None) == Rerendered(Set(Set(s, "&lt;"), "<"), None, "<")
  {
    ExtractSetDecodesTwice(s);
  }

  // ---------------------------------------------------------------------
  // The caret across a re-render
  // ---------------------------------------------------------------------

  /** Fragments with no span inside a span. */
  predicate FlatFrags(fs: seq<Frag>) {
    forall i :: 0 <= i < |fs| ==> fs[i].Chars? || (|fs[i].kids| == 1 && fs[i].kids[0].Chars?)
  }

  lemma {:induction false} FlatFragsPieces(fs: seq<Frag>)
    requires FlatFrags(fs)
    ensures forall j :: 0 <= j < |FragNodes(fs)| ==> Piece(FragNodes(fs)[j])
    decreases fs
  {
    if fs != [] {
      FlatFragsPieces(fs[1..]);
      var ns := FragNodes(fs);
      assert ns[1..] == FragNodes(fs[1..]);
      if fs[0].Span? {
        var k := fs[0].kids;
        assert FragNodes(k) == [Text(k[0].text)] + FragNodes(k[1..]);
        assert k[1..] == [];
      }
    }
  }

  /** The runes of nodes whose text has no `&`. */
  lemma {:induction false} SumLensPlain(ns: seq<Node>)
    requires '&' !in TextOf(ns)
    ensures SumLens(ns) == |TextOf(ns)|
  {
    if ns != [] {
      TextOfCons(ns);
      NodeLenPlain(ns[0]);
      SumLensPlain(ns[1..]);
    }
  }

  lemma TextOfCons(ns: seq<Node>)
    requires ns != []
    ensures TextOf(ns) == TextOf([ns[0]]) + TextOf(ns[1..])
  {
    assert [ns[0]][1..] == [];
  }

  lemma NodeLenPlain(n: Node)
    requires '&' !in TextOf([n])
    ensures TextLen(n) == |TextOf([n])|
  {
    TextContentIsText(n);
    Html.UnescapeNoAmpersand(TextOf([n]));
  }

  /** A line is flat when it is empty or its highlighting is. */
  lemma LineFlat(line: string)
    requires line == [] || FlatFrags(FormatFrags(line))
    ensures FlatLine(LineDiv(line))
  {
    if line == [] {
      assert Piece(Elem("BR", []));
    } else {
      FlatFragsPieces(FormatFrags(line));
    }
  }

  /** A rendered line has as many runes as the source line and at least
      one child. */
  lemma RenderedLine(line: string)
    requires '&' !in line
    ensures LineNodes(line) != [] && SumLens(LineNodes(line)) == |line|
  {
    var ns := LineNodes(line);
    if line == [] {
      var br := Elem("BR", []);
      assert TextOf([br]) == TextOf([]) + TextOf([br][1..]);
      SumLensPlain(ns);
    } else {
      FragNodesText(FormatFrags(line));
      FormatAgrees(line);
      ReplaceAllOneRune(line, ' ', Nbsp);
      assert TextOf(ns) == MapChar(line, ' ', Nbsp);
      SumLensPlain(ns);
    }
  }

  /** Lines whose highlighting has no nested span render to a
      flat editor. */
  lemma RenderedFlat(lines: seq<string>)
    requires forall i :: 0 <= i < |lines| && lines[i] != [] ==> FlatFrags(FormatFrags(lines[i]))
    ensures forall i :: 0 <= i < |lines| ==> FlatLine(RenderLines(lines)[i])
  {
    forall i | 0 <= i < |lines| ensures FlatLine(RenderLines(lines)[i]) {
      LineFlat(lines[i]);
    }
  }

  /** The caret survives a re-render: when the new source has no `&`, each
      line highlights without nested spans, and the caret was read inside
      the text, the deferred restore puts it where the browser accepts it,
      and reading it again gives the same line and column. */
  lemma CaretKept(s: Source, caret: Option<Range>)
    requires Ready(s) && caret.Some? && Valid(s.root, caret.value.container)
    requires OnSourceChange(s, caret).Rerendered?
    requires var src := Extract(s); var lines := Split(src, '\n');
      && '&' !in src
      && (forall i :: 0 <= i < |lines| && lines[i] != [] ==> FlatFrags(FormatFrags(lines[i])))
      && var sel := CurrentSelection(s.root, s.input, caret).value.value;
      sel.line < |lines| && sel.column <= |lines[sel.line]|
    ensures var r := OnSourceChange(s, caret);
      var sel := CurrentSelection(s.root, s.input, caret).value.value;
      && r.caret.Some?
      && CollapseAccepted(r.next.root, r.caret.value)
      && CurrentSelection(r.next.root, r.next.input, r.caret) == Ok(Some(sel))
  {
    var src := Extract(s);
    var lines := Split(src, '\n');
    var sel := CurrentSelection(s.root, s.input, caret).value.value;
    var t := Set(s, src);
    SplitRunes(src, '\n');
    RenderedFlat(lines);
    RenderedLine(lines[sel.line]);
    RestoreThenCapture(t.root, t.input, sel);
  }

  // ---------------------------------------------------------------------
  // The caret in a nested span
  // ---------------------------------------------------------------------

  /** The highlighted line `bfloat64` as the browser builds it: the word
      `float64` in a span inside the span of `bfloat64`. */
  const NestedSpan: Node := Elem("SPAN", [Text("b"), Elem("SPAN", [Text("float64")])])

  /** The nodes of a span holding a text run and a span. */
  lemma FragNodesNested(c: string, a: string, b: string)
    ensures FragNodes([Span(c, [Chars(a), Span(c, [Chars(b)])])]) == [Elem("SPAN", [Text(a), Elem("SPAN", [Text(b)])])]
  {
    var inner := Span(c, [Chars(b)]);
    assert FragNodes([Chars(b)]) == [Text(b)] by {
      assert [Chars(b)][1..] == [];
    }
    assert FragNodes([inner]) == [Elem("SPAN", [Text(b)])] by {
      assert [inner][1..] == [];
    }
    assert FragNodes([Chars(a), inner]) == [Text(a), Elem("SPAN", [Text(b)])] by {
      assert [Chars(a), inner][1..] == [inner];
    }
    assert [Span(c, [Chars(a), inner])][1..] == [];
  }

  /** `set` renders the source `bfloat64` as one line DIV holding the
      nested span. */
  lemma RenderBfloat64(s: Source)
    requires Ready(s)
    ensures Lines(Set(s, "bfloat64")) == [Elem("DIV", [NestedSpan])]
  {
    SplitNone("bfloat64", '\n');
    FormatBfloat64();
    FragNodesNested(TypeKeyword, "b", "float64");
    assert LineNodes("bfloat64") == [NestedSpan];
    assert RenderLines(["bfloat64"]) == [LineDiv("bfloat64")];
  }

  lemma NestedSpanText()
    ensures TextLen(NestedSpan) == 8
  {
    TextContentIsText(NestedSpan);
    var inner := Elem("SPAN", [Text("float64")]);
    assert TextOf([Text("float64")]) == "float64" + TextOf([]);
    assert TextOf([inner]) == TextOf([Text("float64")]) + TextOf([]);
    assert TextOf([inner]) == "float64";
    assert TextOf([Text("b"), inner]) == "b" + TextOf([inner]);
    assert TextOf([NestedSpan]) == TextOf(NestedSpan.children) + TextOf([]);
    assert TextOf([NestedSpan]) == "bfloat64";
    Html.UnescapeNoAmpersand("bfloat64");
  }

  /** After `set` renders `bfloat64`, restoring column 3 of its line sends
      the caret to the leaf `b`, whose text is one rune long: the browser
      refuses the collapse. */
  lemma RestoreIntoNestedSpan(s: Source)
    requires Ready(s)
    ensures var t := Set(s, "bfloat64");
      SetAsCurrent(t.root, t.input, Some(Selection(0, 3))) == Some(Range(t.input + [0, 0, 0], 3))
      && !CollapseAccepted(t.root, Range(t.input + [0, 0, 0], 3))
  {
    var t := Set(s, "bfloat64");
    RenderBfloat64(s);
    NestedRestore(t.root, t.input);
  }

  /** Restoring column 3 into an editor whose one line is the nested span. */
  lemma NestedRestore(root: Node, e: Path)
    requires Valid(root, e) && Kids(NodeAt(root, e)) == [Elem("DIV", [NestedSpan])]
    ensures SetAsCurrent(root, e, Some(Selection(0, 3))) == Some(Range(e + [0, 0, 0], 3))
    ensures !CollapseAccepted(root, Range(e + [0, 0, 0], 3))
  {
    NestedSpanText();
    assert Walk([NestedSpan], 3) == Some(Spot(0, 3));
    assert FirstLeafPath(NestedSpan) == [0];
    assert e + [0, 0] + [0] == e + [0, 0, 0];
    ChildPath(root, e, 0);
    ChildPath(root, e + [0], 0);
    assert e + [0] + [0] == e + [0, 0];
    ChildPath(root, e + [0, 0], 0);
    assert NodeAt(root, e + [0, 0, 0]) == Text("b");
    assert Utf16Len("b") == 1;
  }

  /** The path of the leaf `float64` below the editor `e`, with the
      facts the capture reads on its way up. */
  lemma NestedClimb(root: Node, e: Path)
    requires Valid(root, e) && Kids(NodeAt(root, e)) == [Elem("DIV", [NestedSpan])]
    ensures Valid(root, e + [0, 0, 1, 0])
    ensures LineNum(root, e + [0, 0, 1, 0]) == Ok(0)
    ensures TextLenFromPreviousElement(root, e + [0, 0, 1, 0]) == Ok(0)
  {
    ChildPath(root, e, 0);
    var p1 := e + [0];
    ChildPath(root, p1, 0);
    var p2 := p1 + [0];
    assert NodeAt(root, p2) == NestedSpan;
    ChildPath(root, p2, 1);
    var p3 := p2 + [1];
    ChildPath(root, p3, 0);
    var p4 := p3 + [0];
    assert p4 == e + [0, 0, 1, 0];
    assert NodeAt(root, p4) == Text("float64");
    assert FindParentDiv(root, p1) == Ok(p1);
    assert FindParentDiv(root, p4) == Ok(p1);
    assert ClimbBelowDiv(root, p2) == Ok(p2);
    assert ClimbBelowDiv(root, p4) == Ok(p2);
  }

  /** After `set` renders `bfloat64`, a caret after `fl` in the nested
      `float64`, three runes into the line, is captured as column 2: the
      capture climbs only to the outer span, which has nothing before it. */
  lemma CaptureInNestedSpan(s: Source)
    requires Ready(s)
    ensures var t := Set(s, "bfloat64");
      Valid(t.root, t.input + [0, 0, 1, 0])
      && CurrentSelection(t.root, t.input, Some(Range(t.input + [0, 0, 1, 0], 2))) == Ok(Some(Selection(0, 2)))
  {
    var t := Set(s, "bfloat64");
    RenderBfloat64(s);
    NestedClimb(t.root, t.input);
    assert InnerHtmlBytes(NodeAt(t.root, t.input)) > 1 by {
      assert Kids(NodeAt(t.root, t.input))[0].Elem?;
    }
    CaptureAt(t.root, t.input, Range(t.input + [0, 0, 1, 0], 2), Selection(0, 2));
  }
}
