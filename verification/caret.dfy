/** Capturing the caret as a (line, column) pair before the editor is
    re-rendered, and putting it back afterwards: `CurrentSelection`,
    `SetAsCurrent` and their helpers in `ui.go`.

    The browser's selection enters as a `Range`; putting the caret back
    yields the `collapse` request the Go code makes, and `CollapseAccepted`
    says whether the browser would take it or throw. Reading a property of
    `null` through `syscall/js` panics; such a panic is an `Err`. */
module Caret {
  import opened Wrappers
  import opened Dom
  import Strings
  import Html

  /** The message of a `syscall/js` property read on `null`. */
  const NullGet := "syscall/js: call of Value.Get on null"

  /** The two values the editor reads from the selection's first range:
      `commonAncestorContainer` and `startOffset`. For a collapsed range both
      describe the caret itself. */
  datatype Range = Range(container: Path, offset: nat)

  /** `ui.Selection`: the caret as a line index and a column in runes. */
  datatype Selection = Selection(line: nat, column: nat)

  function Parent(p: Path): Path
    requires p != []
  {
    p[..|p| - 1]
  }

  function Index(p: Path): nat
    requires p != []
  {
    p[|p| - 1]
  }

  /** The parent of a node is a node that has it as child `Index(p)`. */
  lemma ParentValid(root: Node, p: Path)
    requires Valid(root, p) && p != []
    ensures Valid(root, Parent(p))
    ensures Index(p) < |Kids(NodeAt(root, Parent(p)))|
    ensures Kids(NodeAt(root, Parent(p)))[Index(p)] == NodeAt(root, p)
  {
    assert p == Parent(p) + [Index(p)];
    ValidPrefixOf(root, Parent(p), [Index(p)]);
    AtAppend(root, Parent(p), [Index(p)]);
  }

  /** There is a DIV at `q`. */
  predicate DivAt(root: Node, q: Path) {
    Valid(root, q) && IsDiv(NodeAt(root, q))
  }

  // ---------------------------------------------------------------------
  // Capture
  // ---------------------------------------------------------------------

  /** `findParentDIV`: the nearest DIV at or above `p`, climbing through
      `parentElement`; past the root the climb reads a property of `null`. */
  function FindParentDiv(root: Node, p: Path): (r: Result<Path>)
    requires Valid(root, p)
    ensures r.Ok? ==> |r.value| <= |p| && r.value == p[..|r.value|] && DivAt(root, r.value)
    ensures r.Ok? ==> forall k :: |r.value| < k <= |p| ==> !DivAt(root, p[..k])
    ensures r.Err? <==> forall k :: 0 <= k <= |p| ==> !DivAt(root, p[..k])
    ensures r.Err? ==> r.error == NullGet
    decreases |p|
  {
    assert p[..|p|] == p;
    if IsDiv(NodeAt(root, p)) then Ok(p)
    else if p == [] then Err(NullGet)
    else
      ParentValid(root, p);
      assert forall k :: 0 <= k <= |Parent(p)| ==> Parent(p)[..k] == p[..k];
      FindParentDiv(root, Parent(p))
  }

  /** The index of the nearest element before position `i` of `sibs`: where
      one step of `previousElementSibling` leads. */
  function PrevElement(sibs: seq<Node>, i: nat): (r: Option<nat>)
    requires i <= |sibs|
    ensures r.Some? ==> r.value < i && sibs[r.value].Elem?
    ensures r.Some? ==> forall m :: r.value < m < i ==> !sibs[m].Elem?
    ensures r.None? <==> forall m :: 0 <= m < i ==> !sibs[m].Elem?
  {
    if i == 0 then None
    else if sibs[i - 1].Elem? then Some(i - 1)
    else PrevElement(sibs, i - 1)
  }

  /** The number of steps `previousElementSibling` takes from position `i`
      before it reaches `null`. */
  function CountBack(sibs: seq<Node>, i: nat): nat
    requires i <= |sibs|
    decreases i
  {
    match PrevElement(sibs, i)
    case None => 0
    case Some(j) => 1 + CountBack(sibs, j)
  }

  /** The elements among `ns`. */
  function CountElems(ns: seq<Node>): nat {
    if ns == [] then 0 else (if ns[0].Elem? then 1 else 0) + CountElems(ns[1..])
  }

  lemma CountElemsAppend(a: seq<Node>, b: seq<Node>)
    ensures CountElems(a + b) == CountElems(a) + CountElems(b)
  {
    if a != [] {
      assert (a + b)[1..] == a[1..] + b;
    } else {
      assert a + b == b;
    }
  }

  /** Text nodes only: no element to count. */
  lemma CountElemsNone(ns: seq<Node>)
    requires forall m :: 0 <= m < |ns| ==> !ns[m].Elem?
    ensures CountElems(ns) == 0
  {
  }

  /** Walking back element by element counts the elements before `i`. */
  lemma {:induction false} CountBackElems(sibs: seq<Node>, i: nat)
    requires i <= |sibs|
    ensures CountBack(sibs, i) == CountElems(sibs[..i])
    decreases i
  {
    match PrevElement(sibs, i)
    case None =>
      CountElemsNone(sibs[..i]);
    case Some(j) =>
      CountBackElems(sibs, j);
      assert sibs[..i] == sibs[..j] + [sibs[j]] + sibs[j + 1..i];
      CountElemsAppend(sibs[..j] + [sibs[j]], sibs[j + 1..i]);
      CountElemsAppend(sibs[..j], [sibs[j]]);
      CountElemsNone(sibs[j + 1..i]);
  }

  /** The elements before the node at `d` among its siblings; none for the
      root. */
  function ElemsBefore(root: Node, d: Path): nat
    requires Valid(root, d)
  {
    if d == [] then 0
    else
      ParentValid(root, d);
      CountElems(Kids(NodeAt(root, Parent(d)))[..Index(d)])
  }

  /** The runes of text in the siblings before the node at `c`. */
  function TextBefore(root: Node, c: Path): nat
    requires Valid(root, c) && c != []
  {
    ParentValid(root, c);
    SumLens(Kids(NodeAt(root, Parent(c)))[..Index(c)])
  }

  /** `lineNumFromElement`: the number of elements before the DIV that holds
      the node at `p` among its siblings. */
  function LineNum(root: Node, p: Path): (r: Result<nat>)
    requires Valid(root, p)
    ensures r.Err? <==> FindParentDiv(root, p).Err?
    ensures r.Ok? ==> r.value == ElemsBefore(root, FindParentDiv(root, p).value)
  {
    var d :- FindParentDiv(root, p);
    if d == [] then Ok(0)
    else
      ParentValid(root, d);
      var sibs := Kids(NodeAt(root, Parent(d)));
      CountBackElems(sibs, Index(d));
      Ok(CountBack(sibs, Index(d)))
  }

  /** The climb of `textLenFromPreviousElement`: up through `parentNode`
      until the parent is a DIV. Above the root there is the document, whose
      parent is `null`. */
  function ClimbBelowDiv(root: Node, p: Path): (r: Result<Path>)
    requires Valid(root, p)
    ensures r.Ok? ==> 0 < |r.value| <= |p| && r.value == p[..|r.value|] && Valid(root, r.value)
    ensures r.Ok? ==> DivAt(root, Parent(r.value))
    ensures r.Ok? ==> forall k :: |r.value| <= k < |p| ==> !DivAt(root, p[..k])
    ensures r.Err? <==> forall k :: 0 <= k < |p| ==> !DivAt(root, p[..k])
    ensures r.Err? ==> r.error == NullGet
    decreases |p|
  {
    if p == [] then Err(NullGet)
    else
      ParentValid(root, p);
      assert p[..|p|] == p;
      assert forall k :: 0 <= k <= |Parent(p)| ==> Parent(p)[..k] == p[..k];
      if IsDiv(NodeAt(root, Parent(p))) then Ok(p)
      else
        var r := ClimbBelowDiv(root, Parent(p));
        if r.Ok? then ValidPrefix(root, p, |r.value|); r else r
  }

  /** Runes of text before position `i`, walking back through
      `previousSibling`. */
  function SumBack(sibs: seq<Node>, i: nat): nat
    requires i <= |sibs|
  {
    if i == 0 then 0 else TextLen(sibs[i - 1]) + SumBack(sibs, i - 1)
  }

  /** Runes of text in `ns`, in order. */
  function SumLens(ns: seq<Node>): nat {
    if ns == [] then 0 else TextLen(ns[0]) + SumLens(ns[1..])
  }

  lemma {:induction false} SumLensAppend(a: seq<Node>, b: seq<Node>)
    ensures SumLens(a + b) == SumLens(a) + SumLens(b)
  {
    if a != [] {
      assert (a + b)[1..] == a[1..] + b;
      SumLensAppend(a[1..], b);
    } else {
      assert a + b == b;
    }
  }

  /** Summing backwards counts the same runes as reading forwards. */
  lemma {:induction false} SumBackLens(sibs: seq<Node>, i: nat)
    requires i <= |sibs|
    ensures SumBack(sibs, i) == SumLens(sibs[..i])
  {
    if i > 0 {
      SumBackLens(sibs, i - 1);
      var x := sibs[i - 1];
      assert sibs[..i] == sibs[..i - 1] + [x];
      SumLensAppend(sibs[..i - 1], [x]);
      SumLensOne(x);
    }
  }

  lemma SumLensOne(x: Node)
    ensures SumLens([x]) == TextLen(x)
  {
    assert [x][1..] == [];
  }

  /** `textLenFromPreviousElement`: the runes of text, within its line, in
      front of the top-level piece of the line that holds `p`. A node whose
      first child is a `<br>` is the start of an empty line; a line of one
      piece has nothing in front. */
  function TextLenFromPreviousElement(root: Node, p: Path): (r: Result<nat>)
    requires Valid(root, p)
    ensures var n := NodeAt(root, p);
      HasChildNodes(n) && NodeName(Kids(n)[0]) == "BR" ==> r == Ok(0)
    ensures r.Err? <==> var n := NodeAt(root, p);
      !(HasChildNodes(n) && NodeName(Kids(n)[0]) == "BR") && ClimbBelowDiv(root, p).Err?
    ensures r.Ok? && ClimbBelowDiv(root, p).Ok? && !(HasChildNodes(NodeAt(root, p)) && NodeName(Kids(NodeAt(root, p))[0]) == "BR") ==>
      r.value == TextBefore(root, ClimbBelowDiv(root, p).value)
  {
    var n := NodeAt(root, p);
    if HasChildNodes(n) && NodeName(Kids(n)[0]) == "BR" then Ok(0)
    else
      var c :- ClimbBelowDiv(root, p);
      ParentValid(root, c);
      var sibs := Kids(NodeAt(root, Parent(c)));
      SumBackLens(sibs, Index(c));
      if |sibs| <= 1 then Ok(0) else Ok(SumBack(sibs, Index(c)))
  }

  /** `CurrentSelection`: no range gives no selection; the line is counted
      only when the editor's markup is longer than one byte; the column is
      the text in front of the caret's piece plus the range's offset. */
  function CurrentSelection(root: Node, editor: Path, rng: Option<Range>): (r: Result<Option<Selection>>)
    requires Valid(root, editor)
    requires rng.Some? ==> Valid(root, rng.value.container)
    ensures rng.None? ==> r == Ok(None)
    ensures rng.Some? && r.Ok? ==> r.value.Some? && r.value.value.column >= rng.value.offset
    ensures rng.Some? && InnerHtmlBytes(NodeAt(root, editor)) <= 1 && r.Ok? ==> r.value.value.line == 0
    ensures rng.Some? && InnerHtmlBytes(NodeAt(root, editor)) > 1 && r.Ok? ==>
      LineNum(root, rng.value.container) == Ok(r.value.value.line)
    ensures rng.Some? && r.Ok? ==>
      TextLenFromPreviousElement(root, rng.value.container) == Ok(r.value.value.column - rng.value.offset)
    ensures rng.Some? ==> (r.Err? <==>
      (InnerHtmlBytes(NodeAt(root, editor)) > 1 && LineNum(root, rng.value.container).Err?)
      || TextLenFromPreviousElement(root, rng.value.container).Err?)
  {
    if rng.None? then Ok(None)
    else
      var a := rng.value.container;
      var line :- if InnerHtmlBytes(NodeAt(root, editor)) > 1 then LineNum(root, a) else Ok(0);
      var before :- TextLenFromPreviousElement(root, a);
      Ok(Some(Selection(line, before + rng.value.offset)))
  }

  // ---------------------------------------------------------------------
  // Restore
  // ---------------------------------------------------------------------

  /** Where the column falls among the pieces of a line: piece `child`, at
      `offset` runes into its text. */
  datatype Spot = Spot(child: nat, offset: nat)

  /** The loop of `SetAsCurrent` over the pieces of the line: the first piece
      whose text reaches the remaining column. On a boundary between two
      pieces it picks the end of the earlier one. */
  function Walk(kids: seq<Node>, column: nat): (r: Option<Spot>)
    ensures r.Some? ==> (r.value.child < |kids|
      && SumLens(kids[..r.value.child]) + r.value.offset == column
      && r.value.offset <= TextLen(kids[r.value.child]))
    ensures r.Some? ==> forall j :: 0 < j <= r.value.child ==> SumLens(kids[..j]) < column
    ensures r.None? <==> kids == [] || SumLens(kids) < column
  {
    if kids == [] then None
    else if column <= TextLen(kids[0]) then Some(Spot(0, column))
    else
      match Walk(kids[1..], column - TextLen(kids[0]))
      case None => None
      case Some(s) =>
        WalkStepAll(kids, s.child);
        Some(Spot(s.child + 1, s.offset))
  }

  /** The first `i + 1` pieces hold the first piece's text and that of
      the next `i`. */
  lemma WalkStep(kids: seq<Node>, i: nat)
    requires kids != [] && i < |kids|
    ensures SumLens(kids[..i + 1]) == TextLen(kids[0]) + SumLens(kids[1..][..i])
  {
    assert kids[..i + 1] == [kids[0]] + kids[1..][..i];
    SumLensAppend([kids[0]], kids[1..][..i]);
  }

  lemma WalkStepAll(kids: seq<Node>, i: nat)
    requires kids != [] && i < |kids|
    ensures forall j :: 0 < j <= i + 1 ==> SumLens(kids[..j]) == TextLen(kids[0]) + SumLens(kids[1..][..j - 1])
  {
    forall j | 0 < j <= i + 1 ensures SumLens(kids[..j]) == TextLen(kids[0]) + SumLens(kids[1..][..j - 1]) {
      WalkStep(kids, j - 1);
    }
  }

  /** `SetAsCurrent`: the `collapse` request it makes, if any. There is none
      without a selection, past the last line, or when the column lies
      beyond the line's text; otherwise the caret goes to the first leaf of
      the piece the column falls in, at the column's offset in that piece. */
  function SetAsCurrent(root: Node, editor: Path, sel: Option<Selection>): (r: Option<Range>)
    requires Valid(root, editor)
    ensures sel.None? ==> r.None?
    ensures sel.Some? && sel.value.line >= |Kids(NodeAt(root, editor))| ==> r.None?
    ensures (sel.Some? && sel.value.line < |Kids(NodeAt(root, editor))|
             && Walk(Kids(Kids(NodeAt(root, editor))[sel.value.line]), sel.value.column).Some?) ==> r.Some?
    ensures r.Some? ==> Valid(root, r.value.container)
    ensures r.Some? ==> var lines := Kids(NodeAt(root, editor));
      sel.Some? && sel.value.line < |lines|
      && Walk(Kids(lines[sel.value.line]), sel.value.column).Some?
      && var s := Walk(Kids(lines[sel.value.line]), sel.value.column).value;
      r.value == Range(editor + [sel.value.line, s.child] + FirstLeafPath(Kids(lines[sel.value.line])[s.child]), s.offset)
  {
    if sel.None? then None
    else
      var lines := Kids(NodeAt(root, editor));
      if sel.value.line >= |lines| then None
      else
        var kids := Kids(lines[sel.value.line]);
        match Walk(kids, sel.value.column)
        case None => None
        case Some(s) =>
          var piece := editor + [sel.value.line, s.child];
          var leaf := FirstLeafPath(kids[s.child]);
          AtAppend(root, editor, [sel.value.line, s.child]);
          var step := [sel.value.line, s.child];
          assert step[0] == sel.value.line && step[1..] == [s.child] && [s.child][1..] == [];
          assert At(kids[s.child], []) == Some(kids[s.child]);
          assert At(lines[sel.value.line], [s.child]) == Some(kids[s.child]);
          assert At(NodeAt(root, editor), step) == Some(kids[s.child]);
          assert Valid(root, piece) && NodeAt(root, piece) == kids[s.child];
          AtAppend(root, piece, leaf);
          Some(Range(piece + leaf, s.offset))
  }

  /** Length of a string in UTF-16 code units, the unit of DOM offsets. */
  function Utf16Len(s: string): (r: nat)
    ensures r >= |s|
  {
    if s == [] then 0 else (if s[0] as int >= 0x10000 then 2 else 1) + Utf16Len(s[1..])
  }

  /** The largest offset `Selection.collapse` accepts in a node: the length
      of a text node's data, the number of an element's children. */
  function NodeLength(n: Node): nat {
    match n
    case Text(d) => Utf16Len(d)
    case Elem(_, kids) => |kids|
  }

  /** The browser accepts the collapse request instead of throwing
      `IndexSizeError`. */
  predicate CollapseAccepted(root: Node, r: Range) {
    Valid(root, r.container) && r.offset <= NodeLength(NodeAt(root, r.container))
  }

  // ---------------------------------------------------------------------
  // Printing
  // ---------------------------------------------------------------------

  /** `Selection.String`. */
  function SelectionString(sel: Option<Selection>): string {
    match sel
    case None => "nil"
    case Some(s) => "line: " + Strings.Decimal(s.line) + " col: " + Strings.Decimal(s.column)
  }

  /** Reads a selection back from the form `SelectionString` prints. */
  function ReadSelection(s: string): Option<Selection> {
    if |s| < 6 || s[..6] != "line: " then None
    else
      var d1 := Strings.DigitRun(s[6..]);
      var rest := s[6 + |d1|..];
      if d1 == [] || |rest| < 6 || rest[..6] != " col: " then None
      else
        var d2 := rest[6..];
        if d2 == [] || !Strings.AllDigits(d2) then None
        else Some(Selection(Strings.DigitsValue(d1), Strings.DigitsValue(d2)))
  }

  /** The printed form determines the selection. */
  lemma SelectionStringRead(sel: Option<Selection>)
    ensures ReadSelection(SelectionString(sel)) == sel
  {
    if sel.Some? {
      var d1 := Strings.Decimal(sel.value.line);
      var d2 := Strings.Decimal(sel.value.column);
      var s := SelectionString(sel);
      assert s == "line: " + (d1 + (" col: " + d2));
      assert s[6..] == d1 + (" col: " + d2);
      Strings.DigitRunAppend(d1, " col: " + d2);
      assert s[6 + |d1|..] == " col: " + d2;
      assert (" col: " + d2)[6..] == d2;
      Strings.DecimalValue(sel.value.line);
      Strings.DecimalValue(sel.value.column);
    }
  }
}
