/** The browser tree the editor works on, as an immutable value, and the tree
    helpers of `ui.go`: `iterLeaves`, `findFirstLeaf` and `TextContent`.

    A node is a text node holding its `data`, or an element holding its tag
    name (upper-case, as `nodeName` reports it for HTML elements) and its
    children. A node is addressed by its path from a root: the child indices
    taken on the way down. */
module Dom {
  import opened Wrappers
  import Html

  datatype Node = Text(data: string) | Elem(name: string, children: seq<Node>)

  type Path = seq<nat>

  /** `childNodes`: a text node has none. */
  function Kids(n: Node): seq<Node> {
    if n.Elem? then n.children else []
  }

  predicate HasChildNodes(n: Node) {
    |Kids(n)| > 0
  }

  /** `nodeName` upper-cased, as `ui.nodeName` returns it. */
  function NodeName(n: Node): string {
    match n
    case Text(_) => "#TEXT"
    case Elem(name, _) => name
  }

  predicate IsDiv(n: Node) {
    NodeName(n) == "DIV"
  }

  // ---------------------------------------------------------------------
  // Leaves
  // ---------------------------------------------------------------------

  /** The leaves `iterLeaves` yields for each node of `ns`, one node after
      the other. */
  function LeavesOf(ns: seq<Node>): (r: seq<Node>)
    ensures |r| >= |ns|
    ensures forall i :: 0 <= i < |r| ==> !HasChildNodes(r[i])
    decreases ns
  {
    if ns == [] then []
    else (if HasChildNodes(ns[0]) then LeavesOf(ns[0].children) else [ns[0]]) + LeavesOf(ns[1..])
  }

  /** `iterLeaves(n)`: a childless node yields itself, any other node the
      leaves of its children in order. */
  function Leaves(n: Node): (r: seq<Node>)
    ensures |r| >= 1
    ensures !HasChildNodes(n) ==> r == [n]
    ensures forall i :: 0 <= i < |r| ==> !HasChildNodes(r[i])
  {
    if HasChildNodes(n) then LeavesOf(n.children) else [n]
  }

  lemma {:induction false} LeavesOfAppend(a: seq<Node>, b: seq<Node>)
    ensures LeavesOf(a + b) == LeavesOf(a) + LeavesOf(b)
  {
    if a != [] {
      assert (a + b)[0] == a[0];
      assert (a + b)[1..] == a[1..] + b;
      LeavesOfAppend(a[1..], b);
    } else {
      assert a + b == b;
    }
  }

  // ---------------------------------------------------------------------
  // Paths
  // ---------------------------------------------------------------------

  /** The node reached from `n` by following `p`, if every index is in range. */
  function At(n: Node, p: Path): Option<Node>
    decreases |p|
  {
    if p == [] then Some(n)
    else if p[0] < |Kids(n)| then At(Kids(n)[p[0]], p[1..])
    else None
  }

  predicate Valid(n: Node, p: Path) {
    At(n, p).Some?
  }

  function NodeAt(n: Node, p: Path): Node
    requires Valid(n, p)
  {
    At(n, p).value
  }

  /** Following `p + q` is following `p`, then `q`. */
  lemma {:induction false} AtAppend(n: Node, p: Path, q: Path)
    requires Valid(n, p)
    ensures At(n, p + q) == At(NodeAt(n, p), q)
    decreases |p|
  {
    if p == [] {
      assert p + q == q;
    } else {
      assert (p + q)[0] == p[0] && (p + q)[1..] == p[1..] + q;
      AtAppend(Kids(n)[p[0]], p[1..], q);
    }
  }

  /** Every ancestor of a node is a node. */
  lemma ValidPrefix(n: Node, p: Path, k: nat)
    requires Valid(n, p) && k <= |p|
    ensures Valid(n, p[..k])
  {
    assert p == p[..k] + p[k..];
    ValidPrefixOf(n, p[..k], p[k..]);
  }

  lemma {:induction false} ValidPrefixOf(n: Node, p: Path, q: Path)
    requires Valid(n, p + q)
    ensures Valid(n, p)
    decreases |p|
  {
    if p != [] {
      assert (p + q)[0] == p[0] && (p + q)[1..] == p[1..] + q;
      ValidPrefixOf(Kids(n)[p[0]], p[1..], q);
    }
  }

  /** The root with the node at `p` replaced by `m`. */
  function Replace(n: Node, p: Path, m: Node): (r: Node)
    requires Valid(n, p)
    ensures Valid(r, p) && NodeAt(r, p) == m
    decreases |p|
  {
    if p == [] then m
    else
      var kids := Kids(n);
      var k := kids[p[0]];
      Elem(n.name, kids[p[0] := Replace(k, p[1..], m)])
  }

  /** Below the replaced node, the new root holds exactly `m`. */
  lemma ReplaceAt(n: Node, p: Path, m: Node, q: Path)
    requires Valid(n, p)
    ensures At(Replace(n, p, m), p + q) == At(m, q)
  {
    AtAppend(Replace(n, p, m), p, q);
  }

  /** Putting back the node that is already there changes nothing. */
  lemma {:induction false} ReplaceSame(n: Node, p: Path)
    requires Valid(n, p)
    ensures Replace(n, p, NodeAt(n, p)) == n
    decreases |p|
  {
    if p != [] {
      ReplaceSame(Kids(n)[p[0]], p[1..]);
      assert Kids(n)[p[0] := Kids(n)[p[0]]] == Kids(n);
    }
  }

  /** Neither path leads through the other. */
  predicate Apart(p: Path, q: Path) {
    !(|p| <= |q| && q[..|p|] == p) && !(|q| <= |p| && p[..|q|] == q)
  }

  /** A replacement leaves every node apart from it where it was. */
  lemma {:induction false} ReplaceElsewhere(n: Node, p: Path, m: Node, q: Path)
    requires Valid(n, p) && Apart(p, q)
    ensures At(Replace(n, p, m), q) == At(n, q)
    decreases |p|
  {
    assert p != [] && q != [];
    var r := Replace(n, p, m);
    assert Kids(r) == Kids(n)[p[0] := Replace(Kids(n)[p[0]], p[1..], m)];
    if p[0] == q[0] {
      assert |p| <= |q| ==> q[..|p|] == [q[0]] + q[1..][..|p| - 1];
      assert |q| <= |p| ==> p[..|q|] == [p[0]] + p[1..][..|q| - 1];
      assert p == [p[0]] + p[1..] && q == [q[0]] + q[1..];
      ReplaceElsewhere(Kids(n)[p[0]], p[1..], m, q[1..]);
    }
  }

  // ---------------------------------------------------------------------
  // Depth-first order of the leaves
  // ---------------------------------------------------------------------

  /** `ps` with `k` put in front of every path. */
  function Under(k: nat, ps: seq<Path>): (r: seq<Path>)
    ensures |r| == |ps|
    ensures forall i :: 0 <= i < |ps| ==> r[i] == [k] + ps[i]
  {
    if ps == [] then [] else [[k] + ps[0]] + Under(k, ps[1..])
  }

  /** The paths, relative to a parent whose children from index `k` on are
      `ns`, of the leaves below `ns`: for every node in turn, its own path if
      it has no children, the paths of its children's leaves otherwise. */
  function LeafPathsOf(ns: seq<Node>, k: nat): seq<Path>
    decreases ns
  {
    if ns == [] then []
    else
      Under(k, if HasChildNodes(ns[0]) then LeafPathsOf(ns[0].children, 0) else [[]])
      + LeafPathsOf(ns[1..], k + 1)
  }

  /** Lexicographic order on paths, i.e. document order on distinct leaves. */
  predicate Precedes(p: Path, q: Path)
    decreases |p|
  {
    p != [] && q != [] && (p[0] < q[0] || (p[0] == q[0] && Precedes(p[1..], q[1..])))
  }

  predicate InDocumentOrder(ps: seq<Path>) {
    forall i, j :: 0 <= i < j < |ps| ==> Precedes(ps[i], ps[j])
  }

  /** Paths below child `k` of `parent` that lead, in document order, to
      `leaves` when taken from that child. */
  predicate LeadTo(parent: Node, k: nat, ps: seq<Path>, leaves: seq<Node>)
    requires k < |Kids(parent)|
  {
    && |ps| == |leaves|
    && (forall i :: 0 <= i < |ps| ==> At(Kids(parent)[k], ps[i]) == Some(leaves[i]))
    && InDocumentOrder(ps)
  }

  /** `ps` are paths below children `k` and later of `parent`, in document
      order, leading one by one to `leaves`. */
  predicate PathsFrom(parent: Node, k: nat, ps: seq<Path>, leaves: seq<Node>) {
    && |ps| == |leaves|
    && (forall i :: 0 <= i < |ps| ==> |ps[i]| > 0 && k <= ps[i][0])
    && (forall i :: 0 <= i < |ps| ==> At(parent, ps[i]) == Some(leaves[i]))
    && InDocumentOrder(ps)
  }

  /** Putting the child index in front turns paths from the child into
      paths from the parent. */
  lemma UnderParent(parent: Node, k: nat, ps: seq<Path>, leaves: seq<Node>)
    requires k < |Kids(parent)| && LeadTo(parent, k, ps, leaves)
    ensures PathsFrom(parent, k, Under(k, ps), leaves)
    ensures forall i :: 0 <= i < |ps| ==> Under(k, ps)[i][0] == k
  {
    var us := Under(k, ps);
    forall i | 0 <= i < |ps| ensures At(parent, us[i]) == Some(leaves[i]) {
      assert us[i][0] == k && us[i][1..] == ps[i];
    }
    forall i, j | 0 <= i < j < |us| ensures Precedes(us[i], us[j]) {
      assert us[i][1..] == ps[i] && us[j][1..] == ps[j];
    }
  }

  /** The paths under child `k` followed by the paths under later children
      lead to the leaves of both, still in document order. */
  lemma ConcatPaths(parent: Node, k: nat, front: seq<Path>, fl: seq<Node>, rest: seq<Path>, rl: seq<Node>)
    requires PathsFrom(parent, k, front, fl) && PathsFrom(parent, k + 1, rest, rl)
    requires forall i :: 0 <= i < |front| ==> front[i][0] == k
    ensures PathsFrom(parent, k, front + rest, fl + rl)
  {
    var ps := front + rest;
    forall i, j | 0 <= i < j < |ps| ensures Precedes(ps[i], ps[j]) {
      if j < |front| {
        assert ps[i] == front[i] && ps[j] == front[j];
      } else if i < |front| {
        assert ps[i][0] == k < ps[j][0];
      } else {
        assert ps[i] == rest[i - |front|] && ps[j] == rest[j - |front|];
      }
    }
    forall i | 0 <= i < |ps| ensures At(parent, ps[i]) == Some((fl + rl)[i]) {
      if i < |front| {
        assert ps[i] == front[i];
      } else {
        assert ps[i] == rest[i - |front|];
      }
    }
  }

  /** The leaf paths of `ns`, the children of `parent` from index `k` on,
      lead in order to the leaves of `ns`, and they are in document order. */
  lemma {:induction false} LeafPathsOfSound(parent: Node, k: nat, ns: seq<Node>)
    requires k + |ns| == |Kids(parent)| && Kids(parent)[k..] == ns
    ensures PathsFrom(parent, k, LeafPathsOf(ns, k), LeavesOf(ns))
    decreases ns
  {
    if ns != [] {
      var head := ns[0];
      assert Kids(parent)[k] == head;
      assert Kids(parent)[k + 1..] == ns[1..];
      var below := if HasChildNodes(head) then LeafPathsOf(head.children, 0) else [[]];
      if HasChildNodes(head) {
        assert Kids(head)[0..] == head.children;
        LeafPathsOfSound(head, 0, head.children);
      }
      assert LeadTo(parent, k, below, Leaves(head));
      UnderParent(parent, k, below, Leaves(head));
      LeafPathsOfSound(parent, k + 1, ns[1..]);
      ConcatPaths(parent, k, Under(k, below), Leaves(head), LeafPathsOf(ns[1..], k + 1), LeavesOf(ns[1..]));
    }
  }

  /** The paths of the leaves of `n`. */
  function LeafPaths(n: Node): seq<Path> {
    if HasChildNodes(n) then LeafPathsOf(n.children, 0) else [[]]
  }

  /** `iterLeaves` yields the leaves left to right, depth first: the i-th
      leaf it yields is the node at the i-th leaf path, and the leaf paths
      are in document order. */
  lemma LeavesInDocumentOrder(n: Node)
    ensures |LeafPaths(n)| == |Leaves(n)|
    ensures forall i :: 0 <= i < |Leaves(n)| ==> At(n, LeafPaths(n)[i]) == Some(Leaves(n)[i])
    ensures InDocumentOrder(LeafPaths(n))
  {
    if HasChildNodes(n) {
      assert Kids(n)[0..] == n.children;
      LeafPathsOfSound(n, 0, n.children);
    }
  }

  /** Every leaf below `n` is yielded: its path is one of the leaf paths. */
  lemma {:induction false} LeafPathsComplete(n: Node, p: Path)
    requires Valid(n, p) && !HasChildNodes(NodeAt(n, p))
    ensures p in LeafPaths(n)
    decreases |p|
  {
    if p == [] {
      assert LeafPaths(n) == [[]];
    } else {
      AtFirstStep(n, p);
      LeafPathsComplete(Kids(n)[p[0]], p[1..]);
      LeafPathsChild(n, p[0], p[1..]);
      assert p == [p[0]] + p[1..];
    }
  }

  /** Following a non-empty path is following its tail from the child its
      head names. */
  lemma AtFirstStep(n: Node, p: Path)
    requires Valid(n, p) && p != []
    ensures p[0] < |Kids(n)| && Valid(Kids(n)[p[0]], p[1..])
    ensures NodeAt(Kids(n)[p[0]], p[1..]) == NodeAt(n, p)
  {
  }

  /** A leaf path of the `j`-th child, with `j` in front, is a leaf path of
      the parent. */
  lemma LeafPathsChild(n: Node, j: nat, q: Path)
    requires j < |Kids(n)| && q in LeafPaths(Kids(n)[j])
    ensures [j] + q in LeafPaths(n)
  {
    assert n.Elem? && LeafPaths(n) == LeafPathsOf(n.children, 0);
    LeafPathsOfHold(n.children, 0, j, q);
    assert [0 + j] == [j];
  }

  /** A leaf path below the `j`-th node of `ns` is, with the node's index in
      front, one of the leaf paths of `ns`. */
  lemma {:induction false} LeafPathsOfHold(ns: seq<Node>, k: nat, j: nat, q: Path)
    requires j < |ns| && q in LeafPaths(ns[j])
    ensures [k + j] + q in LeafPathsOf(ns, k)
    decreases ns
  {
    var front := Under(k, LeafPaths(ns[0]));
    var rest := LeafPathsOf(ns[1..], k + 1);
    assert LeafPathsOf(ns, k) == front + rest;
    if j == 0 {
      UnderHolds(k, LeafPaths(ns[0]), q);
    } else {
      assert ns[1..][j - 1] == ns[j];
      LeafPathsOfHold(ns[1..], k + 1, j - 1, q);
      assert k + 1 + (j - 1) == k + j;
    }
  }

  lemma UnderHolds(k: nat, ps: seq<Path>, q: Path)
    requires q in ps
    ensures [k] + q in Under(k, ps)
  {
    var i :| 0 <= i < |ps| && ps[i] == q;
    assert Under(k, ps)[i] == [k] + q;
  }

  /** `findFirstLeaf`: the path of the first leaf `iterLeaves` yields. It
      always exists, so the Go function never returns nil on a real node. */
  function FirstLeafPath(n: Node): (r: Path)
    ensures Valid(n, r) && NodeAt(n, r) == Leaves(n)[0]
    ensures !HasChildNodes(NodeAt(n, r))
    decreases n
  {
    if HasChildNodes(n) then
      var c := n.children[0];
      assert LeavesOf(n.children) == Leaves(c) + LeavesOf(n.children[1..]) by {
        if HasChildNodes(c) {
          assert Leaves(c) == LeavesOf(c.children);
        }
      }
      [0] + FirstLeafPath(c)
    else
      []
  }

  // ---------------------------------------------------------------------
  // Text content
  // ---------------------------------------------------------------------

  /** The concatenated `data` of the leaves that have one: text nodes do, an
      element leaf such as `<br>` does not. */
  function LeafData(leaves: seq<Node>): string {
    if leaves == [] then []
    else (if leaves[0].Text? then leaves[0].data else []) + LeafData(leaves[1..])
  }

  /** `ui.TextContent`: the leaves' data, passed through `html.UnescapeString`. */
  function TextContent(n: Node): string {
    Html.Unescape(LeafData(Leaves(n)))
  }

  /** The text below `ns`, read straight off the tree. */
  function TextOf(ns: seq<Node>): string
    decreases ns
  {
    if ns == [] then []
    else (match ns[0] case Text(d) => d case Elem(_, kids) => TextOf(kids)) + TextOf(ns[1..])
  }

  lemma {:induction false} LeafDataAppend(a: seq<Node>, b: seq<Node>)
    ensures LeafData(a + b) == LeafData(a) + LeafData(b)
  {
    if a != [] {
      assert (a + b)[0] == a[0];
      assert (a + b)[1..] == a[1..] + b;
      LeafDataAppend(a[1..], b);
    } else {
      assert a + b == b;
    }
  }

  lemma {:induction false} LeafDataOfLeaves(ns: seq<Node>)
    ensures LeafData(LeavesOf(ns)) == TextOf(ns)
    decreases ns
  {
    if ns != [] {
      var head := if HasChildNodes(ns[0]) then LeavesOf(ns[0].children) else [ns[0]];
      LeafDataAppend(head, LeavesOf(ns[1..]));
      LeafDataOfLeaves(ns[1..]);
      if HasChildNodes(ns[0]) {
        LeafDataOfLeaves(ns[0].children);
      } else if ns[0].Elem? {
        assert ns[0].children == [];
      }
    }
  }

  /** `TextContent` of a node is the decoded text below it: a text node's
      data, or the text of an element's children in order. */
  lemma TextContentIsText(n: Node)
    ensures TextContent(n) == Html.Unescape(TextOf([n]))
  {
    assert [n][1..] == [];
    if HasChildNodes(n) {
      assert TextOf([n]) == TextOf(n.children) + TextOf([]);
      assert TextOf([n]) == TextOf(n.children);
      LeafDataOfLeaves(n.children);
      assert LeafData(Leaves(n)) == TextOf(n.children);
    } else if n.Elem? {
      assert n.children == [];
      assert LeafData([n]) == [];
    } else {
      assert LeafData([n]) == n.data + LeafData([]);
      assert TextOf([n]) == n.data + TextOf([]);
    }
  }

  /** The rune length `utf8.RuneCountInString(TextContent(n))`. */
  function TextLen(n: Node): nat {
    |TextContent(n)|
  }

  // ---------------------------------------------------------------------
  // Serialized size
  // ---------------------------------------------------------------------

  /** Bytes of rune `c` in UTF-8. */
  function Utf8Len(c: char): nat {
    if c as int < 0x80 then 1 else if c as int < 0x800 then 2 else if c as int < 0x10000 then 3 else 4
  }

  /** Bytes the browser writes for text `s` when serializing markup: `&`,
      `<`, `>` and U+00A0 become `&amp;`, `&lt;`, `&gt;` and `&nbsp;`. */
  function TextMarkupBytes(s: string): nat {
    if s == [] then 0
    else
      (match s[0]
       case '&' => 5
       case '<' => 4
       case '>' => 4
       case '\U{00A0}' => 6
       case c => Utf8Len(c))
      + TextMarkupBytes(s[1..])
  }

  /** Elements serialized without an end tag. */
  predicate IsVoid(name: string) {
    name in {"AREA", "BASE", "BR", "COL", "EMBED", "HR", "IMG", "INPUT", "LINK", "META", "SOURCE", "TRACK", "WBR"}
  }

  /** Bytes of the markup serializing `ns`, attributes aside. */
  function MarkupBytes(ns: seq<Node>): nat
    decreases ns
  {
    if ns == [] then 0
    else
      (match ns[0]
       case Text(d) => TextMarkupBytes(d)
       case Elem(name, kids) => if IsVoid(name) then |name| + 2 else 2 * |name| + 5 + MarkupBytes(kids))
      + MarkupBytes(ns[1..])
  }

  /** `len(el.InnerHTML())`, attributes aside; it is only ever compared with 1,
      and any element child already takes more than one byte. */
  function InnerHtmlBytes(n: Node): (r: nat)
    ensures (exists i :: 0 <= i < |Kids(n)| && Kids(n)[i].Elem?) ==> r > 1
    ensures Kids(n) == [] ==> r == 0
  {
    ElementMarkup(Kids(n));
    MarkupBytes(Kids(n))
  }

  lemma {:induction false} ElementMarkup(ns: seq<Node>)
    ensures (exists i :: 0 <= i < |ns| && ns[i].Elem?) ==> MarkupBytes(ns) > 1
    decreases ns
  {
    if ns != [] {
      ElementMarkup(ns[1..]);
      if !ns[0].Elem? {
        forall i | 0 < i < |ns| && ns[i].Elem? ensures ns[1..][i - 1].Elem? {
        }
      }
    }
  }
}
