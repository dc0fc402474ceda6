/** What capturing and restoring the caret achieve together. On lines built
    the way the editor renders them, with every piece a text node or an
    element around at most one text node, restoring a selection and
    capturing it again gives the same selection back. Once a highlighted
    word sits inside another, as `float64` does inside `bfloat64`, neither
    direction measures columns the way the other does. */
module CaretRestore {
  import opened Wrappers
  import opened Dom
  import opened Caret
  import Html

  /** One top-level piece of a rendered line: a text node, or a non-DIV
      element around at most one text node (a highlighted word, or the
      `<br>` of an empty line). */
  predicate Piece(n: Node) {
    n.Text? || (n.Elem? && n.name != "DIV" && (n.children == [] || (|n.children| == 1 && n.children[0].Text?)))
  }

  /** A line DIV whose pieces all have that shape. */
  predicate FlatLine(n: Node) {
    n.Elem? && n.name == "DIV" && forall i :: 0 <= i < |n.children| ==> Piece(n.children[i])
  }

  /** An editor whose children are all such lines. */
  predicate FlatEditor(e: Node) {
    forall i :: 0 <= i < |Kids(e)| ==> FlatLine(Kids(e)[i])
  }

  /** Stepping to child `k`. */
  lemma ChildPath(root: Node, p: Path, k: nat)
    requires Valid(root, p) && k < |Kids(NodeAt(root, p))|
    ensures Valid(root, p + [k]) && NodeAt(root, p + [k]) == Kids(NodeAt(root, p))[k]
    ensures Parent(p + [k]) == p && Index(p + [k]) == k
  {
    AtAppend(root, p, [k]);
    assert [k][1..] == [];
    assert (p + [k])[..|p|] == p;
  }

  lemma CountElemsAll(ns: seq<Node>)
    requires forall i :: 0 <= i < |ns| ==> ns[i].Elem?
    ensures CountElems(ns) == |ns|
  {
  }

  /** The text of a piece is the decoded data of its only leaf, if any. */
  lemma PieceText(n: Node)
    requires Piece(n)
    ensures n.Text? ==> TextLen(n) == |Html.Unescape(n.data)|
    ensures n.Elem? && n.children == [] ==> TextLen(n) == 0
    ensures n.Elem? && n.children != [] ==> TextLen(n) == |Html.Unescape(n.children[0].data)|
  {
    TextContentIsText(n);
    assert [n][1..] == [];
    assert TextOf([]) == [];
    if n.Elem? && n.children != [] {
      var t := n.children[0];
      assert n.children == [t] && [t][1..] == [];
      assert TextOf([t]) == t.data + TextOf([]) == t.data;
      assert TextOf([n]) == TextOf([t]) + TextOf([]) == t.data;
    } else if n.Elem? {
      assert TextOf([n]) == TextOf([]) + TextOf([]);
    } else {
      assert TextOf([n]) == n.data + TextOf([]) == n.data;
    }
  }

  /** The caret at offset `off` in the first leaf of piece `i` of line
      `line`, seen from the capture side: its line and the text before its
      piece. */
  lemma CaptureFromPiece(root: Node, editor: Path, line: nat, i: nat, off: nat)
    requires Valid(root, editor) && FlatEditor(NodeAt(root, editor))
    requires line < |Kids(NodeAt(root, editor))|
    requires i < |Kids(Kids(NodeAt(root, editor))[line])|
    ensures var kids := Kids(Kids(NodeAt(root, editor))[line]);
      var a := editor + [line, i] + FirstLeafPath(kids[i]);
      && Valid(root, a)
      && LineNum(root, a) == Ok(line)
      && TextLenFromPreviousElement(root, a) == Ok(SumLens(kids[..i]))
  {
    var e := NodeAt(root, editor);
    var lines := Kids(e);
    var l := lines[line];
    var kids := Kids(l);
    var piece := kids[i];
    assert FlatLine(l) && Piece(piece);
    ChildPath(root, editor, line);
    var lp := editor + [line];
    ChildPath(root, lp, i);
    var pp := lp + [i];
    assert pp == editor + [line, i];
    var leaf := FirstLeafPath(piece);
    var a := pp + leaf;
    assert DivAt(root, lp);
    assert !IsDiv(piece);
    if HasChildNodes(piece) {
      assert leaf == [0] + FirstLeafPath(piece.children[0]) == [0];
      ChildPath(root, pp, 0);
      assert !IsDiv(NodeAt(root, a)) && !HasChildNodes(NodeAt(root, a));
      assert FindParentDiv(root, a) == FindParentDiv(root, pp) == FindParentDiv(root, lp);
      assert ClimbBelowDiv(root, a) == ClimbBelowDiv(root, pp) == Ok(pp);
    } else {
      assert leaf == [] && a == pp;
      assert FindParentDiv(root, a) == FindParentDiv(root, lp);
      assert ClimbBelowDiv(root, a) == Ok(pp);
    }
    assert FindParentDiv(root, a) == Ok(lp);
    CountElemsAll(lines[..line]);
    assert ElemsBefore(root, lp) == line;
    assert TextBefore(root, pp) == SumLens(kids[..i]);
  }

  /** The browser accepts a caret put into the first leaf of a piece at an
      offset within the piece's text. */
  lemma CollapseIntoPiece(root: Node, editor: Path, line: nat, i: nat, off: nat)
    requires Valid(root, editor) && FlatEditor(NodeAt(root, editor))
    requires line < |Kids(NodeAt(root, editor))|
    requires i < |Kids(Kids(NodeAt(root, editor))[line])|
    requires off <= TextLen(Kids(Kids(NodeAt(root, editor))[line])[i])
    ensures var piece := Kids(Kids(NodeAt(root, editor))[line])[i];
      CollapseAccepted(root, Range(editor + [line, i] + FirstLeafPath(piece), off))
  {
    var l := Kids(NodeAt(root, editor))[line];
    var piece := Kids(l)[i];
    assert FlatLine(l) && Piece(piece);
    PieceText(piece);
    ChildPath(root, editor, line);
    ChildPath(root, editor + [line], i);
    var pp := editor + [line, i];
    assert editor + [line] + [i] == pp;
    var a := pp + FirstLeafPath(piece);
    AtAppend(root, pp, FirstLeafPath(piece));
    if piece.Text? {
      Html.UnescapeShrinks(piece.data);
    } else if piece.children != [] {
      Html.UnescapeShrinks(piece.children[0].data);
      assert FirstLeafPath(piece) == [0];
      assert NodeAt(root, a) == piece.children[0];
    }
  }

  /** Restoring a selection on a flat editor and capturing the caret again
      gives the selection back, and the browser accepts the restored caret:
      this is what keeps the caret in place across a re-render. */
  lemma RestoreThenCapture(root: Node, editor: Path, sel: Selection)
    requires Valid(root, editor) && FlatEditor(NodeAt(root, editor))
    requires sel.line < |Kids(NodeAt(root, editor))|
    requires var kids := Kids(Kids(NodeAt(root, editor))[sel.line]);
      kids != [] && sel.column <= SumLens(kids)
    ensures SetAsCurrent(root, editor, Some(sel)).Some?
    ensures CollapseAccepted(root, SetAsCurrent(root, editor, Some(sel)).value)
    ensures CurrentSelection(root, editor, SetAsCurrent(root, editor, Some(sel))) == Ok(Some(sel))
  {
    RestoreAccepted(root, editor, sel);
    RestoreCaptured(root, editor, sel);
  }

  /** The browser accepts the caret `SetAsCurrent` restores. */
  lemma RestoreAccepted(root: Node, editor: Path, sel: Selection)
    requires Valid(root, editor) && FlatEditor(NodeAt(root, editor))
    requires sel.line < |Kids(NodeAt(root, editor))|
    requires var kids := Kids(Kids(NodeAt(root, editor))[sel.line]);
      kids != [] && sel.column <= SumLens(kids)
    ensures SetAsCurrent(root, editor, Some(sel)) != None
    ensures CollapseAccepted(root, SetAsCurrent(root, editor, Some(sel)).value)
  {
    var child, off, a := RestoreSpot(root, editor, sel);
    CollapseIntoPiece(root, editor, sel.line, child, off);
  }

  /** Capturing the restored caret gives the selection back. */
  lemma RestoreCaptured(root: Node, editor: Path, sel: Selection)
    requires Valid(root, editor) && FlatEditor(NodeAt(root, editor))
    requires sel.line < |Kids(NodeAt(root, editor))|
    requires var kids := Kids(Kids(NodeAt(root, editor))[sel.line]);
      kids != [] && sel.column <= SumLens(kids)
    ensures SetAsCurrent(root, editor, Some(sel)) != None
    ensures CurrentSelection(root, editor, SetAsCurrent(root, editor, Some(sel))) == Ok(Some(sel))
  {
    var child, off, a := RestoreSpot(root, editor, sel);
    assert LineNum(root, a) == Ok(sel.line) && TextLenFromPreviousElement(root, a) == Ok(sel.column - off) by {
      CaptureFromPiece(root, editor, sel.line, child, off);
    }
    assert InnerHtmlBytes(NodeAt(root, editor)) > 1 by {
      FlatEditorMarkup(NodeAt(root, editor), sel.line);
    }
    CaptureAt(root, editor, Range(a, off), sel);
  }

  /** Where `SetAsCurrent` puts the caret for a column within the line. */
  lemma RestoreSpot(root: Node, editor: Path, sel: Selection) returns (child: nat, off: nat, a: Path)
    requires Valid(root, editor)
    requires sel.line < |Kids(NodeAt(root, editor))|
    requires var kids := Kids(Kids(NodeAt(root, editor))[sel.line]);
      kids != [] && sel.column <= SumLens(kids)
    ensures var kids := Kids(Kids(NodeAt(root, editor))[sel.line]);
      && child < |kids| && off <= TextLen(kids[child])
      && SumLens(kids[..child]) + off == sel.column
      && a == editor + [sel.line, child] + FirstLeafPath(kids[child])
    ensures SetAsCurrent(root, editor, Some(sel)) == Some(Range(a, off))
  {
    var kids := Kids(Kids(NodeAt(root, editor))[sel.line]);
    var s := Walk(kids, sel.column).value;
    child, off := s.child, s.offset;
    a := editor + [sel.line, child] + FirstLeafPath(kids[child]);
  }

  /** An editor with a line DIV has markup longer than one byte. */
  lemma FlatEditorMarkup(e: Node, line: nat)
    requires FlatEditor(e) && line < |Kids(e)|
    ensures InnerHtmlBytes(e) > 1
  {
    assert FlatLine(Kids(e)[line]);
    assert Kids(e)[line].Elem?;
  }

  /** Reading a caret whose line and preceding text are known. */
  lemma CaptureAt(root: Node, editor: Path, rng: Range, sel: Selection)
    requires Valid(root, editor) && Valid(root, rng.container)
    requires InnerHtmlBytes(NodeAt(root, editor)) > 1 && rng.offset <= sel.column
    requires LineNum(root, rng.container) == Ok(sel.line)
    requires TextLenFromPreviousElement(root, rng.container) == Ok(sel.column - rng.offset)
    ensures CurrentSelection(root, editor, Some(rng)) == Ok(Some(sel))
  {
  }
}
