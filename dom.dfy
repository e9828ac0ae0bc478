/**
 * The document body as a tree, and the DOM edits of the highlighter
 * (contents/utils/dom-utils.ts and the marker unwrap of
 * contents/utils/storage.ts).
 *
 * The body is a forest of nodes. A text node holds its string; an element
 * holds its tag, its attributes, its children, and the two pieces of state
 * the highlighter hangs on a marker: the `_hasHoverHandler` flag and the
 * number of `mouseenter` listeners attached. The document's text is the
 * concatenation of its text nodes in document order.
 */
module Dom {
  import opened Strings
  import opened Wrappers
  import opened Types

  datatype Node =
    | Text(text: string)
    | Element(tag: string, attrs: map<string, string>, hasHover: bool, handlers: nat, children: seq<Node>)

  /** `textContent` of a node. */
  function Flat(n: Node): string {
    match n
    case Text(s) => s
    case Element(_, _, _, _, cs) => FlatAll(cs)
  }

  /** The text of a sequence of sibling nodes. */
  function FlatAll(ns: seq<Node>): string {
    if ns == [] then "" else Flat(ns[0]) + FlatAll(ns[1..])
  }

  lemma {:induction false} FlatAllAppend(xs: seq<Node>, ys: seq<Node>)
    ensures FlatAll(xs + ys) == FlatAll(xs) + FlatAll(ys)
  {
    if xs == [] {
      assert xs + ys == ys;
    } else {
      assert (xs + ys)[1..] == xs[1..] + ys;
      FlatAllAppend(xs[1..], ys);
    }
  }

  /** The strings of the text nodes in document order: what a `SHOW_TEXT`
      tree walk visits. */
  function TextLeaves(ns: seq<Node>): seq<string> {
    if ns == [] then []
    else
      (match ns[0]
       case Text(s) => [s]
       case Element(_, _, _, _, cs) => TextLeaves(cs))
      + TextLeaves(ns[1..])
  }

  /** The text walk spells the document text. */
  lemma {:induction false} TextLeavesSpell(ns: seq<Node>)
    ensures Concat(TextLeaves(ns)) == FlatAll(ns)
  {
    if ns != [] {
      TextLeavesSpell(ns[1..]);
      match ns[0]
      case Text(s) => {
        ConcatAppend([s], TextLeaves(ns[1..]));
        assert Concat([s]) == s;
      }
      case Element(_, _, _, _, cs) => {
        TextLeavesSpell(cs);
        ConcatAppend(TextLeaves(cs), TextLeaves(ns[1..]));
      }
    }
  }

  lemma FlatAllCons(x: Node, ys: seq<Node>)
    ensures FlatAll([x] + ys) == Flat(x) + FlatAll(ys)
  {
    assert ([x] + ys)[1..] == ys;
  }

  /**
   * Whether a range boundary at text position `k` lies past the first node
   * `n` of length `l`. The boundary sits in a text leaf, as the quote search
   * places it: a start boundary in the first leaf that extends past `k`
   * (so possibly at offset 0), an end boundary in the first leaf that reaches
   * `k` (so possibly at its full length). A start at `k` therefore lies past
   * `n` when `l <= k`, an end only when `l < k`.
   */
  predicate Past(l: nat, k: nat, atStart: bool) {
    l < k || (l == k && atStart)
  }

  /**
   * Cutting a forest at a range boundary at text position `k`, as extracting
   * the range does: nodes before the boundary stay left, nodes after it go
   * right, and every node holding the boundary is split in two. A text node
   * is split into the text before and after the offset (one half may be
   * empty); an element is split recursively into two copies. `atStart` says
   * which boundary this is: at the start the original element stays left
   * and keeps its hover flag and listeners, while the right half is a fresh
   * clone (`cloneNode`) carrying neither; at the end it is the other way
   * round. An end boundary at position 0 holds no node.
   */
  function Split(ns: seq<Node>, k: nat, atStart: bool): (seq<Node>, seq<Node>)
    requires k <= |FlatAll(ns)|
    decreases ns
  {
    if ns == [] then ([], [])
    else
      var l := |Flat(ns[0])|;
      if Past(l, k, atStart) then
        var r := Split(ns[1..], k - l, atStart);
        ([ns[0]] + r.0, r.1)
      else if k == 0 && !atStart then ([], ns)
      else
        var h := SplitNode(ns[0], k, atStart);
        ([h.0], [h.1] + ns[1..])
  }

  /** A node holding the boundary, split into its parts before and after. */
  function SplitNode(n: Node, k: nat, atStart: bool): (Node, Node)
    requires k <= |Flat(n)|
    decreases n
  {
    match n
    case Text(s) => (Text(s[..k]), Text(s[k..]))
    case Element(t, at, h, c, cs) =>
      var r := Split(cs, k, atStart);
      (Element(t, at, atStart && h, if atStart then c else 0, r.0),
       Element(t, at, !atStart && h, if atStart then 0 else c, r.1))
  }

  /** The two halves of a cut spell the text before and after `k`. */
  lemma {:induction false} SplitSpells(ns: seq<Node>, k: nat, atStart: bool)
    requires k <= |FlatAll(ns)|
    ensures var r := Split(ns, k, atStart);
            FlatAll(r.0) == FlatAll(ns)[..k] && FlatAll(r.1) == FlatAll(ns)[k..]
    decreases ns, 1
  {
    if ns != [] {
      var l := |Flat(ns[0])|;
      if Past(l, k, atStart) {
        SplitSpellsSkip(ns, k, atStart);
      } else if k > 0 || atStart {
        SplitSpellsInside(ns, k, atStart);
      }
    }
  }

  lemma {:induction false} SplitSpellsSkip(ns: seq<Node>, k: nat, atStart: bool)
    requires ns != [] && Past(|Flat(ns[0])|, k, atStart) && k <= |FlatAll(ns)|
    ensures var r := Split(ns, k, atStart);
            FlatAll(r.0) == FlatAll(ns)[..k] && FlatAll(r.1) == FlatAll(ns)[k..]
    decreases ns, 0
  {
    var n := ns[0];
    var l := |Flat(n)|;
    var rest := FlatAll(ns[1..]);
    assert FlatAll(ns) == Flat(n) + rest;
    SplitSpells(ns[1..], k - l, atStart);
    var r := Split(ns[1..], k - l, atStart);
    assert Split(ns, k, atStart) == ([n] + r.0, r.1);
    FlatAllCons(n, r.0);
    assert FlatAll(ns)[..k] == Flat(n) + rest[..k - l];
    assert FlatAll(ns)[k..] == rest[k - l..];
  }

  lemma {:induction false} SplitSpellsInside(ns: seq<Node>, k: nat, atStart: bool)
    requires ns != [] && !Past(|Flat(ns[0])|, k, atStart) && (k > 0 || atStart)
    ensures var r := Split(ns, k, atStart);
            FlatAll(r.0) == FlatAll(ns)[..k] && FlatAll(r.1) == FlatAll(ns)[k..]
    decreases ns, 0
  {
    var n := ns[0];
    var rest := FlatAll(ns[1..]);
    assert FlatAll(ns) == Flat(n) + rest;
    var h := SplitNode(n, k, atStart);
    assert Split(ns, k, atStart) == ([h.0], [h.1] + ns[1..]);
    SplitNodeSpells(n, k, atStart);
    assert FlatAll(ns)[..k] == Flat(n)[..k];
    assert FlatAll(ns)[k..] == Flat(n)[k..] + rest;
    FlatAllCons(h.1, ns[1..]);
    FlatAllCons(h.0, []);
  }

  lemma {:induction false} SplitNodeSpells(n: Node, k: nat, atStart: bool)
    requires k <= |Flat(n)|
    ensures var h := SplitNode(n, k, atStart);
            Flat(h.0) == Flat(n)[..k] && Flat(h.1) == Flat(n)[k..]
    decreases n, 2
  {
    match n
    case Text(s) =>
    case Element(t, at, h, c, cs) => {
      SplitSpells(cs, k, atStart);
    }
  }

  /** Whether the boundary at `k` lies inside an element of the forest, so
      that the range selects that element partially and cutting there clones
      it. */
  predicate Cuts(ns: seq<Node>, k: nat, atStart: bool)
    decreases ns
  {
    ns != [] &&
    var l := |Flat(ns[0])|;
    if Past(l, k, atStart) then Cuts(ns[1..], k - l, atStart)
    else (k > 0 || atStart) && ns[0].Element?
  }

  /** `extractContents` at the common ancestor: the children cut at `a` and
      at `b` into the nodes before, inside and after the range. */
  function Cut(ns: seq<Node>, a: nat, b: nat): (seq<Node>, seq<Node>, seq<Node>)
    requires a <= b <= |FlatAll(ns)|
  {
    SplitSpells(ns, a, true);
    var (pre, rest) := Split(ns, a, true);
    var (mid, post) := Split(rest, b - a, false);
    (pre, mid, post)
  }

  lemma CutSpells(ns: seq<Node>, a: nat, b: nat)
    requires a <= b <= |FlatAll(ns)|
    ensures var c := Cut(ns, a, b);
            FlatAll(c.0) == FlatAll(ns)[..a] && FlatAll(c.1) == FlatAll(ns)[a..b] && FlatAll(c.2) == FlatAll(ns)[b..]
  {
    var T := FlatAll(ns);
    SplitSpells(ns, a, true);
    var (pre, rest) := Split(ns, a, true);
    SplitSpells(rest, b - a, false);
    assert T[a..][..b - a] == T[a..b];
    assert T[a..][b - a..] == T[b..];
  }

  /** A fresh `mark` element with the given attributes and children: no
      hover flag, no listeners. */
  function Mark(attrs: map<string, string>, kids: seq<Node>): Node {
    Element("mark", attrs, false, 0, kids)
  }

  /** The range lies inside the first node, and that node is an element: the
      range's common ancestor is inside it. */
  predicate Descends(ns: seq<Node>, a: nat, b: nat)
    requires ns != []
  {
    a < |Flat(ns[0])| && b <= |Flat(ns[0])| && ns[0].Element?
  }

  /**
   * The body after wrapping the text between positions `a` and `b` in a
   * marker with attributes `attrs`. The wrap happens in the range's common
   * ancestor, the deepest element whose text contains the range; there the
   * children are cut at `a` and at `b`, and the part between becomes the
   * marker's children.
   */
  function Wrap(ns: seq<Node>, a: nat, b: nat, attrs: map<string, string>): seq<Node>
    requires a <= b <= |FlatAll(ns)|
    decreases ns
  {
    if ns == [] then [Mark(attrs, [])]
    else
      var n := ns[0];
      var l := |Flat(n)|;
      if l <= a then [n] + Wrap(ns[1..], a - l, b - l, attrs)
      else if Descends(ns, a, b) then [n.(children := Wrap(n.children, a, b, attrs))] + ns[1..]
      else
        var c := Cut(ns, a, b);
        c.0 + [Mark(attrs, c.1)] + c.2
  }

  /** Where the wrap puts the marker: the child indices from the body down. */
  function WrapPath(ns: seq<Node>, a: nat, b: nat): (p: seq<nat>)
    requires a <= b <= |FlatAll(ns)|
    ensures |p| > 0
    decreases ns
  {
    if ns == [] then [0]
    else
      var n := ns[0];
      var l := |Flat(n)|;
      if l <= a then
        var q := WrapPath(ns[1..], a - l, b - l);
        [q[0] + 1] + q[1..]
      else if Descends(ns, a, b) then [0] + WrapPath(n.children, a, b)
      else [|Cut(ns, a, b).0|]
  }

  /** `surroundContents` succeeds: at the common ancestor, neither boundary
      lies inside an element child, so no element is partially selected. */
  predicate NativeWrapOk(ns: seq<Node>, a: nat, b: nat)
    requires a <= b <= |FlatAll(ns)|
    decreases ns
  {
    if ns == [] then true
    else
      var n := ns[0];
      var l := |Flat(n)|;
      if l <= a then NativeWrapOk(ns[1..], a - l, b - l)
      else if Descends(ns, a, b) then NativeWrapOk(n.children, a, b)
      else !Cuts(ns, a, true) && !Cuts(ns, b, false)
  }

  /** A quote ending at the end of a bold word's text, `<p>foo <b>bar</b>
      baz</p>` wrapped from 0 to 7: the end boundary lies inside `<b>`, so
      `surroundContents` throws; the fallback puts a clone of `<b>` into the
      marker and leaves the emptied original after it, and the start text
      node keeps an empty original before the marker. */
  lemma WrapSplitsElementAtEdge(attrs: map<string, string>)
    ensures var bold := Element("b", map[], false, 0, [Text("bar")]);
            var body := [Element("p", map[], false, 0, [Text("foo "), bold, Text(" baz")])];
            |FlatAll(body)| == 11 && !NativeWrapOk(body, 0, 7) &&
            Wrap(body, 0, 7, attrs) ==
              [Element("p", map[], false, 0,
                 [Text(""), Mark(attrs, [Text("foo "), bold]),
                  Element("b", map[], false, 0, [Text("")]), Text(" baz")])]
  {
    var bar, baz := Text("bar"), Text(" baz");
    var bold := Element("b", map[], false, 0, [bar]);
    var tail := [bold, baz];
    var kids := [Text("foo ")] + tail;
    assert [bar][1..] == [] && [baz][1..] == [] && tail[1..] == [baz] && kids[1..] == tail;
    assert FlatAll([bar]) == "bar" && FlatAll([baz]) == " baz";
    assert |Flat(bold)| == 3 && |FlatAll(tail)| == 7 && |FlatAll(kids)| == 11;
    assert kids == [Text("foo "), bold, baz];
    var body := [Element("p", map[], false, 0, kids)];
    assert body[1..] == [];
    assert Split(kids, 0, true) == ([Text("")], kids);
    assert "bar"[..3] == "bar" && "bar"[3..] == "" && [Text("")] + [bar][1..] == [Text("")];
    assert Split([bar], 3, false) == ([bar], [Text("")]);
    var emptied := Element("b", map[], false, 0, [Text("")]);
    assert [emptied] + tail[1..] == [emptied, baz];
    assert Split(tail, 3, false) == ([bold], [emptied, baz]);
    assert [Text("foo ")] + [bold] == [Text("foo "), bold];
    assert Split(kids, 7, false) == ([Text("foo "), bold], [emptied, baz]);
    assert Cut(kids, 0, 7) == ([Text("")], [Text("foo "), bold], [emptied, baz]);
    assert |Flat(kids[0])| == 4 && !Descends(kids, 0, 7);
    assert Cuts(kids, 7, false) && !NativeWrapOk(kids, 0, 7);
    assert |Flat(body[0])| == 11 && Descends(body, 0, 7) && !NativeWrapOk(body, 0, 7);
    var wrapped := [Text(""), Mark(attrs, [Text("foo "), bold]), emptied, baz];
    assert Wrap(kids, 0, 7, attrs) == wrapped;
    assert Wrap(body, 0, 7, attrs) == [Element("p", map[], false, 0, wrapped)] + body[1..];
  }

  /** A path of child indices that leads to a node. */
  predicate ValidPath(ns: seq<Node>, path: seq<nat>)
    decreases path
  {
    |path| > 0 && path[0] < |ns|
    && (|path| > 1 ==> ns[path[0]].Element? && ValidPath(ns[path[0]].children, path[1..]))
  }

  function NodeAt(ns: seq<Node>, path: seq<nat>): Node
    requires ValidPath(ns, path)
    decreases path
  {
    if |path| == 1 then ns[path[0]] else NodeAt(ns[path[0]].children, path[1..])
  }

  /** The number of characters of document text before the node at `path`. */
  function Offset(ns: seq<Node>, path: seq<nat>): nat
    requires ValidPath(ns, path)
    decreases path
  {
    |FlatAll(ns[..path[0]])| + (if |path| == 1 then 0 else Offset(ns[path[0]].children, path[1..]))
  }

  /** Wrapping leaves the document text unchanged. */
  lemma {:induction false} WrapKeepsText(ns: seq<Node>, a: nat, b: nat, attrs: map<string, string>)
    requires a <= b <= |FlatAll(ns)|
    ensures FlatAll(Wrap(ns, a, b, attrs)) == FlatAll(ns)
    decreases ns, 1
  {
    if ns == [] {
      FlatAllCons(Mark(attrs, []), []);
    } else if |Flat(ns[0])| <= a {
      WrapKeepsTextSkip(ns, a, b, attrs);
    } else if Descends(ns, a, b) {
      WrapKeepsTextDescend(ns, a, b, attrs);
    } else {
      WrapAtCommonAncestor(ns, a, b, attrs);
    }
  }

  lemma {:induction false} WrapKeepsTextSkip(ns: seq<Node>, a: nat, b: nat, attrs: map<string, string>)
    requires a <= b <= |FlatAll(ns)| && ns != [] && |Flat(ns[0])| <= a
    ensures FlatAll(Wrap(ns, a, b, attrs)) == FlatAll(ns)
    decreases ns, 0
  {
    var l := |Flat(ns[0])|;
    var w := Wrap(ns[1..], a - l, b - l, attrs);
    assert Wrap(ns, a, b, attrs) == [ns[0]] + w;
    WrapKeepsText(ns[1..], a - l, b - l, attrs);
    FlatAllCons(ns[0], w);
  }

  lemma {:induction false} WrapKeepsTextDescend(ns: seq<Node>, a: nat, b: nat, attrs: map<string, string>)
    requires a <= b <= |FlatAll(ns)| && ns != [] && Descends(ns, a, b)
    ensures FlatAll(Wrap(ns, a, b, attrs)) == FlatAll(ns)
    decreases ns, 0
  {
    var n := ns[0];
    var n' := n.(children := Wrap(n.children, a, b, attrs));
    assert Wrap(ns, a, b, attrs) == [n'] + ns[1..];
    WrapKeepsText(n.children, a, b, attrs);
    FlatAllCons(n', ns[1..]);
  }

  /** At the common ancestor the marker replaces the part it holds. */
  lemma WrapAtCommonAncestor(ns: seq<Node>, a: nat, b: nat, attrs: map<string, string>)
    requires a <= b <= |FlatAll(ns)| && ns != [] && a < |Flat(ns[0])| && !Descends(ns, a, b)
    ensures FlatAll(Wrap(ns, a, b, attrs)) == FlatAll(ns)
  {
    var c := Cut(ns, a, b);
    assert Wrap(ns, a, b, attrs) == c.0 + [Mark(attrs, c.1)] + c.2;
    CutSpells(ns, a, b);
    FlatAllAppend(c.0 + [Mark(attrs, c.1)], c.2);
    FlatAllAppend(c.0, [Mark(attrs, c.1)]);
    FlatAllCons(Mark(attrs, c.1), []);
    assert FlatAll(ns) == FlatAll(ns)[..a] + FlatAll(ns)[a..b] + FlatAll(ns)[b..];
  }

  /** The marker a wrap inserts: where it is, what it holds, and where its
      text starts in the document. */
  predicate MarkerPlaced(r: seq<Node>, p: seq<nat>, attrs: map<string, string>, content: string, at: nat) {
    ValidPath(r, p) && NodeAt(r, p).Element? && NodeAt(r, p) == Mark(attrs, NodeAt(r, p).children)
    && Flat(NodeAt(r, p)) == content && Offset(r, p) == at
  }

  /** A node put in front of a forest moves every path one place right. */
  lemma PathShift(n: Node, w: seq<Node>, q: seq<nat>)
    requires ValidPath(w, q)
    ensures var p := [q[0] + 1] + q[1..];
            ValidPath([n] + w, p) && NodeAt([n] + w, p) == NodeAt(w, q)
            && Offset([n] + w, p) == |Flat(n)| + Offset(w, q)
  {
    var p := [q[0] + 1] + q[1..];
    var r := [n] + w;
    assert p[1..] == q[1..] && r[p[0]] == w[q[0]];
    assert r[..p[0]] == [n] + w[..q[0]];
    FlatAllCons(n, w[..q[0]]);
  }

  lemma MarkerPlacedShift(n: Node, w: seq<Node>, q: seq<nat>, r: seq<Node>, p: seq<nat>,
                          attrs: map<string, string>, content: string, at: nat, content': string, at': nat)
    requires MarkerPlaced(w, q, attrs, content, at)
    requires r == [n] + w && p == [q[0] + 1] + q[1..] && content' == content && at' == |Flat(n)| + at
    ensures MarkerPlaced(r, p, attrs, content', at')
  {
    PathShift(n, w, q);
  }

  /** A path inside the first node of a forest. */
  lemma PathDown(n: Node, rest: seq<Node>, q: seq<nat>)
    requires n.Element? && ValidPath(n.children, q)
    ensures ValidPath([n] + rest, [0] + q) && NodeAt([n] + rest, [0] + q) == NodeAt(n.children, q)
            && Offset([n] + rest, [0] + q) == Offset(n.children, q)
  {
    assert ([0] + q)[1..] == q;
    assert ([n] + rest)[..0] == [];
  }

  /** Wrapping puts one marker, holding exactly the text between `a` and `b`,
      at the range's position: its text starts at `a`. */
  lemma {:induction false} WrapPlacesMarker(ns: seq<Node>, a: nat, b: nat, attrs: map<string, string>)
    requires a <= b <= |FlatAll(ns)|
    ensures MarkerPlaced(Wrap(ns, a, b, attrs), WrapPath(ns, a, b), attrs, FlatAll(ns)[a..b], a)
    decreases ns, 1
  {
    if ns == [] {
      FlatAllCons(Mark(attrs, []), []);
      assert [Mark(attrs, [])][..0] == [];
    } else if |Flat(ns[0])| <= a {
      WrapPlacesMarkerSkip(ns, a, b, attrs);
    } else if Descends(ns, a, b) {
      WrapPlacesMarkerDescend(ns, a, b, attrs);
    } else {
      var c := Cut(ns, a, b);
      var r := c.0 + [Mark(attrs, c.1)] + c.2;
      assert Wrap(ns, a, b, attrs) == r && WrapPath(ns, a, b) == [|c.0|];
      CutSpells(ns, a, b);
      assert r[..|c.0|] == c.0;
    }
  }

  lemma {:induction false} WrapPlacesMarkerSkip(ns: seq<Node>, a: nat, b: nat, attrs: map<string, string>)
    requires a <= b <= |FlatAll(ns)| && ns != [] && |Flat(ns[0])| <= a
    ensures MarkerPlaced(Wrap(ns, a, b, attrs), WrapPath(ns, a, b), attrs, FlatAll(ns)[a..b], a)
    decreases ns, 0
  {
    var l := |Flat(ns[0])|;
    var w, q := Wrap(ns[1..], a - l, b - l, attrs), WrapPath(ns[1..], a - l, b - l);
    var r, p := Wrap(ns, a, b, attrs), WrapPath(ns, a, b);
    var content, content' := FlatAll(ns[1..])[a - l..b - l], FlatAll(ns)[a..b];
    assert r == [ns[0]] + w && p == [q[0] + 1] + q[1..] by {
      WrapSkipUnfold(ns, a, b, attrs);
    }
    assert MarkerPlaced(w, q, attrs, content, a - l) by {
      WrapPlacesMarker(ns[1..], a - l, b - l, attrs);
    }
    assert content' == content by {
      FlatAllDropSlice(ns, a, b);
    }
    MarkerPlacedShift(ns[0], w, q, r, p, attrs, content, a - l, content', a);
  }

  lemma WrapSkipUnfold(ns: seq<Node>, a: nat, b: nat, attrs: map<string, string>)
    requires a <= b <= |FlatAll(ns)| && ns != [] && |Flat(ns[0])| <= a
    ensures var l := |Flat(ns[0])|;
            b - l <= |FlatAll(ns[1..])|
            && Wrap(ns, a, b, attrs) == [ns[0]] + Wrap(ns[1..], a - l, b - l, attrs)
            && WrapPath(ns, a, b) == var q := WrapPath(ns[1..], a - l, b - l); [q[0] + 1] + q[1..]
  {
  }

  /** Text positions past the first node are positions in the rest. */
  lemma FlatAllDropSlice(ns: seq<Node>, a: nat, b: nat)
    requires a <= b <= |FlatAll(ns)| && ns != [] && |Flat(ns[0])| <= a
    ensures var l := |Flat(ns[0])|;
            FlatAll(ns)[a..b] == FlatAll(ns[1..])[a - l..b - l]
  {
    var x, y := Flat(ns[0]), FlatAll(ns[1..]);
    assert FlatAll(ns) == x + y;
    SliceOfSecond(x, y, a, b);
  }

  lemma SliceOfSecond(x: string, y: string, a: nat, b: nat)
    requires |x| <= a <= b <= |x + y|
    ensures (x + y)[a..b] == y[a - |x|..b - |x|]
  {
  }

  lemma {:induction false} WrapPlacesMarkerDescend(ns: seq<Node>, a: nat, b: nat, attrs: map<string, string>)
    requires a <= b <= |FlatAll(ns)| && ns != [] && Descends(ns, a, b)
    ensures MarkerPlaced(Wrap(ns, a, b, attrs), WrapPath(ns, a, b), attrs, FlatAll(ns)[a..b], a)
    decreases ns, 0
  {
    var n := ns[0];
    var n' := n.(children := Wrap(n.children, a, b, attrs));
    var q := WrapPath(n.children, a, b);
    assert Wrap(ns, a, b, attrs) == [n'] + ns[1..];
    assert WrapPath(ns, a, b) == [0] + q;
    WrapPlacesMarker(n.children, a, b, attrs);
    PathDown(n', ns[1..], q);
    assert FlatAll(ns)[a..b] == FlatAll(n.children)[a..b];
  }

  /** The text of the node at a path sits in the document text at its offset. */
  lemma {:induction false} NodeTextAt(ns: seq<Node>, path: seq<nat>)
    requires ValidPath(ns, path)
    ensures Offset(ns, path) + |Flat(NodeAt(ns, path))| <= |FlatAll(ns)|
    ensures FlatAll(ns)[Offset(ns, path)..Offset(ns, path) + |Flat(NodeAt(ns, path))|] == Flat(NodeAt(ns, path))
    decreases path
  {
    var i := path[0];
    FlatAllAt(ns, i);
    var P := FlatAll(ns[..i]);
    var S := FlatAll(ns[i + 1..]);
    if |path| == 1 {
      MiddleSlice(P, Flat(ns[i]), S, 0, |Flat(ns[i])|);
    } else {
      var cs := ns[i].children;
      NodeTextAt(cs, path[1..]);
      var o := Offset(cs, path[1..]);
      var m := |Flat(NodeAt(cs, path[1..]))|;
      assert Offset(ns, path) == |P| + o && NodeAt(ns, path) == NodeAt(cs, path[1..]);
      MiddleSlice(P, FlatAll(cs), S, o, o + m);
    }
  }

  /** A slice of the middle part of a three-part string. */
  lemma MiddleSlice(p: string, f: string, s: string, x: nat, y: nat)
    requires x <= y <= |f|
    ensures |p| + y <= |p + f + s| && (p + f + s)[|p| + x..|p| + y] == f[x..y]
  {
  }

  /** The text of a forest around its node `i`. */
  lemma FlatAllAt(ns: seq<Node>, i: nat)
    requires i < |ns|
    ensures FlatAll(ns) == FlatAll(ns[..i]) + Flat(ns[i]) + FlatAll(ns[i + 1..])
  {
    FlatAllReplace(ns, i, ns[i]);
    assert ns[i := ns[i]] == ns;
  }

  /** The text of a forest whose node `i` is replaced by `m`. */
  lemma FlatAllReplace(ns: seq<Node>, i: nat, m: Node)
    requires i < |ns|
    ensures FlatAll(ns[i := m]) == FlatAll(ns[..i]) + Flat(m) + FlatAll(ns[i + 1..])
  {
    assert ns[i := m] == ns[..i] + [m] + ns[i + 1..];
    FlatAllAppend(ns[..i] + [m], ns[i + 1..]);
    FlatAllAppend(ns[..i], [m]);
    FlatAllCons(m, []);
  }

  // ---------------------------------------------------------------------
  // Unwrapping a marker (contents/utils/storage.ts)
  // ---------------------------------------------------------------------

  /** `replaceWith(...childNodes)`: the element at `path` is replaced by its
      children, in order. */
  function Unwrap(ns: seq<Node>, path: seq<nat>): seq<Node>
    requires ValidPath(ns, path) && NodeAt(ns, path).Element?
    decreases path
  {
    var i := path[0];
    if |path| == 1 then ns[..i] + ns[i].children + ns[i + 1..]
    else ns[i := ns[i].(children := Unwrap(ns[i].children, path[1..]))]
  }

  /** Unwrapping leaves the document text unchanged. */
  lemma {:induction false} UnwrapKeepsText(ns: seq<Node>, path: seq<nat>)
    requires ValidPath(ns, path) && NodeAt(ns, path).Element?
    ensures FlatAll(Unwrap(ns, path)) == FlatAll(ns)
    decreases path
  {
    var i := path[0];
    FlatAllAt(ns, i);
    if |path| == 1 {
      FlatAllAppend(ns[..i] + ns[i].children, ns[i + 1..]);
      FlatAllAppend(ns[..i], ns[i].children);
    } else {
      var m := ns[i].(children := Unwrap(ns[i].children, path[1..]));
      UnwrapKeepsText(ns[i].children, path[1..]);
      FlatAllReplace(ns, i, m);
      assert Flat(m) == Flat(ns[i]);
    }
  }

  /** Wrapping a range and then unwrapping the marker it made gives back the
      document text. */
  lemma WrapThenUnwrap(ns: seq<Node>, a: nat, b: nat, attrs: map<string, string>)
    requires a <= b <= |FlatAll(ns)|
    ensures MarkerPlaced(Wrap(ns, a, b, attrs), WrapPath(ns, a, b), attrs, FlatAll(ns)[a..b], a)
    ensures FlatAll(Unwrap(Wrap(ns, a, b, attrs), WrapPath(ns, a, b))) == FlatAll(ns)
  {
    WrapPlacesMarker(ns, a, b, attrs);
    WrapKeepsText(ns, a, b, attrs);
    UnwrapKeepsText(Wrap(ns, a, b, attrs), WrapPath(ns, a, b));
  }

  // ---------------------------------------------------------------------
  // The note icon (contents/utils/dom-utils.ts)
  // ---------------------------------------------------------------------

  /** `appendChild`: `c` becomes the last child of the element at `path`. */
  function AppendChildAt(ns: seq<Node>, path: seq<nat>, c: Node): seq<Node>
    requires ValidPath(ns, path) && NodeAt(ns, path).Element?
    decreases path
  {
    var i := path[0];
    var n := ns[i];
    ns[i := n.(children := if |path| == 1 then n.children + [c] else AppendChildAt(n.children, path[1..], c))]
  }

  /** The element gets `c` as its last child, stays where it was, and
      nothing is added anywhere else. */
  lemma {:induction false} AppendChildPlaces(ns: seq<Node>, path: seq<nat>, c: Node)
    requires ValidPath(ns, path) && NodeAt(ns, path).Element?
    ensures var r := AppendChildAt(ns, path, c);
            ValidPath(r, path) && NodeAt(r, path) == NodeAt(ns, path).(children := NodeAt(ns, path).children + [c])
            && Offset(r, path) == Offset(ns, path)
    decreases path
  {
    var i := path[0];
    var r := AppendChildAt(ns, path, c);
    assert r[..i] == ns[..i];
    if |path| > 1 {
      AppendChildPlaces(ns[i].children, path[1..], c);
    }
  }

  /** The appended child's text enters the document text right after the
      element's own text. */
  lemma {:induction false} AppendChildText(ns: seq<Node>, path: seq<nat>, c: Node)
    requires ValidPath(ns, path) && NodeAt(ns, path).Element?
    ensures var e := Offset(ns, path) + |Flat(NodeAt(ns, path))|;
            e <= |FlatAll(ns)|
            && FlatAll(AppendChildAt(ns, path, c)) == FlatAll(ns)[..e] + Flat(c) + FlatAll(ns)[e..]
    decreases path, 1
  {
    if |path| == 1 {
      AppendChildTextHere(ns, path, c);
    } else {
      AppendChildTextBelow(ns, path, c);
    }
  }

  lemma AppendChildTextHere(ns: seq<Node>, path: seq<nat>, c: Node)
    requires ValidPath(ns, path) && NodeAt(ns, path).Element? && |path| == 1
    ensures var e := Offset(ns, path) + |Flat(NodeAt(ns, path))|;
            e <= |FlatAll(ns)|
            && FlatAll(AppendChildAt(ns, path, c)) == FlatAll(ns)[..e] + Flat(c) + FlatAll(ns)[e..]
  {
    var i := path[0];
    var n := ns[i];
    var n' := n.(children := n.children + [c]);
    assert AppendChildAt(ns, path, c) == ns[i := n'];
    FlatAllAppend(n.children, [c]);
    FlatAllCons(c, []);
    var F := Flat(n);
    assert Flat(n') == F[..|F|] + Flat(c) + F[|F|..];
    ReplaceInserts(ns, i, n', Flat(c), |F|);
  }

  lemma {:induction false} AppendChildTextBelow(ns: seq<Node>, path: seq<nat>, c: Node)
    requires ValidPath(ns, path) && NodeAt(ns, path).Element? && |path| > 1
    ensures var e := Offset(ns, path) + |Flat(NodeAt(ns, path))|;
            e <= |FlatAll(ns)|
            && FlatAll(AppendChildAt(ns, path, c)) == FlatAll(ns)[..e] + Flat(c) + FlatAll(ns)[e..]
    decreases path, 0
  {
    var i := path[0];
    var cs := ns[i].children;
    var n' := ns[i].(children := AppendChildAt(cs, path[1..], c));
    assert AppendChildAt(ns, path, c) == ns[i := n'];
    AppendChildText(cs, path[1..], c);
    var e' := Offset(cs, path[1..]) + |Flat(NodeAt(cs, path[1..]))|;
    assert Offset(ns, path) + |Flat(NodeAt(ns, path))| == |FlatAll(ns[..i])| + e';
    assert Flat(n') == Flat(ns[i])[..e'] + Flat(c) + Flat(ns[i])[e'..];
    ReplaceInserts(ns, i, n', Flat(c), e');
  }

  /** Replacing node `i` by one whose text has `x` inserted at `k` inserts `x`
      into the forest's text after the nodes before `i` and `k` more characters. */
  lemma ReplaceInserts(ns: seq<Node>, i: nat, m: Node, x: string, k: nat)
    requires i < |ns| && k <= |Flat(ns[i])|
    requires Flat(m) == Flat(ns[i])[..k] + x + Flat(ns[i])[k..]
    ensures var e := |FlatAll(ns[..i])| + k;
            e <= |FlatAll(ns)| && FlatAll(ns[i := m]) == FlatAll(ns)[..e] + x + FlatAll(ns)[e..]
  {
    FlatAllAt(ns, i);
    FlatAllReplace(ns, i, m);
    InsertAt(FlatAll(ns[..i]), Flat(ns[i]), FlatAll(ns[i + 1..]), x, k);
  }

  /** Inserting into the middle part of a three-part string. */
  lemma InsertAt(p: string, f: string, s: string, x: string, k: nat)
    requires k <= |f|
    ensures (p + f + s)[..|p| + k] + x + (p + f + s)[|p| + k..] == p + (f[..k] + x + f[k..]) + s
  {
    assert (p + f + s)[..|p| + k] == p + f[..k];
    assert (p + f + s)[|p| + k..] == f[k..] + s;
  }

  /** The note icon: a `sup` of class `hn-note-icon` holding " " and the memo
      emoji; no highlighter listeners. */
  function NoteIcon(): Node {
    Element("sup", map["class" := NOTE_ICON_CLASS], false, 0, [Text(" \U{1F4DD}")])
  }

  /** The note shown for a marker: notes longer than 200 characters are cut to
      their first 200 characters and an ellipsis. */
  function Truncate(note: string): (r: string)
    ensures |r| <= 203
    ensures |note| <= 200 ==> r == note
    ensures |note| > 200 ==> |r| == 203 && r[..200] == note[..200] && r[200..] == "..."
  {
    if |note| > 200 then note[..200] + "..." else note
  }

  // ---------------------------------------------------------------------
  // Finding a marker by id (contents/utils/dom-utils.ts)
  // ---------------------------------------------------------------------

  /** An element matching `.hn-highlight`. */
  predicate IsMarker(n: Node) {
    n.Element? && "class" in n.attrs && n.attrs["class"] == HIGHLIGHT_CLASS
  }

  /** An element matching `.hn-highlight[data-id="id"]`. */
  predicate MarkerWithId(n: Node, id: string) {
    IsMarker(n) && "data-id" in n.attrs && n.attrs["data-id"] == id
  }

  /** `querySelector` for a marker with the id, searching in document order. */
  function FindMarker(ns: seq<Node>, id: string): (r: Option<seq<nat>>)
    ensures r.Some? ==> |r.value| > 0
    decreases ns
  {
    if ns == [] then None
    else if MarkerWithId(ns[0], id) then Some([0])
    else
      var inside := if ns[0].Element? then FindMarker(ns[0].children, id) else None;
      if inside.Some? then Some([0] + inside.value)
      else
        match FindMarker(ns[1..], id)
        case None => None
        case Some(q) => Some([q[0] + 1] + q[1..])
  }

  /** A path found leads to a marker with the id. */
  lemma {:induction false} FindMarkerFound(ns: seq<Node>, id: string)
    requires FindMarker(ns, id).Some?
    ensures ValidPath(ns, FindMarker(ns, id).value) && MarkerWithId(NodeAt(ns, FindMarker(ns, id).value), id)
    decreases ns
  {
    if !MarkerWithId(ns[0], id) {
      var inside := if ns[0].Element? then FindMarker(ns[0].children, id) else None;
      if inside.Some? {
        FindMarkerFound(ns[0].children, id);
        PathDown(ns[0], ns[1..], inside.value);
        assert [ns[0]] + ns[1..] == ns;
      } else {
        FindMarkerFound(ns[1..], id);
        var q := FindMarker(ns[1..], id).value;
        PathShift(ns[0], ns[1..], q);
        assert [ns[0]] + ns[1..] == ns;
      }
    }
  }

  /** When the search finds nothing, no node of the document is a marker with
      the id. */
  lemma {:induction false} FindMarkerNone(ns: seq<Node>, id: string, p: seq<nat>)
    requires FindMarker(ns, id).None? && ValidPath(ns, p)
    ensures !MarkerWithId(NodeAt(ns, p), id)
    decreases p
  {
    FindMarkerNoneAt(ns, id, p[0]);
    if |p| > 1 {
      FindMarkerNone(ns[p[0]].children, id, p[1..]);
    }
  }

  /** A failed search passes over every top-level node and its children. */
  lemma {:induction false} FindMarkerNoneAt(ns: seq<Node>, id: string, i: nat)
    requires FindMarker(ns, id).None? && i < |ns|
    ensures !MarkerWithId(ns[i], id) && (ns[i].Element? ==> FindMarker(ns[i].children, id).None?)
    decreases i
  {
    if i > 0 {
      FindMarkerNoneAt(ns[1..], id, i - 1);
    }
  }

  // ---------------------------------------------------------------------
  // Hover handlers (contents/utils/highlight-operations.ts)
  // ---------------------------------------------------------------------

  /** Every marker that has no hover handler yet gets one and is flagged;
      flagged markers and other nodes are left as they are. */
  function AttachHover(ns: seq<Node>): seq<Node>
    decreases ns
  {
    if ns == [] then []
    else
      var n := match ns[0]
        case Text(_) => ns[0]
        case Element(t, at, h, c, cs) =>
          Element(t, at, h || IsMarker(ns[0]), if IsMarker(ns[0]) && !h then c + 1 else c, AttachHover(cs));
      [n] + AttachHover(ns[1..])
  }

  /** The listener bookkeeping holds for every element of a forest: an element
      carries one highlighter listener if it is flagged, none otherwise. */
  predicate HoverOk(ns: seq<Node>)
    decreases ns
  {
    ns != [] ==> NodeOk(ns[0]) && HoverOk(ns[1..])
  }

  predicate NodeOk(n: Node)
    decreases n
  {
    n.Element? ==> n.handlers == (if n.hasHover then 1 else 0) && HoverOk(n.children)
  }

  /** Every marker of a forest is flagged. */
  predicate AllHovered(ns: seq<Node>)
    decreases ns
  {
    ns != [] ==>
      (ns[0].Element? ==> (IsMarker(ns[0]) ==> ns[0].hasHover) && AllHovered(ns[0].children))
      && AllHovered(ns[1..])
  }

  /** Attaching keeps the text, flags every marker and keeps at most one
      listener per element. */
  lemma {:induction false} AttachHoverSound(ns: seq<Node>)
    ensures FlatAll(AttachHover(ns)) == FlatAll(ns)
    ensures AllHovered(AttachHover(ns))
    ensures HoverOk(ns) ==> HoverOk(AttachHover(ns))
    decreases ns
  {
    if ns != [] {
      AttachHoverSound(ns[1..]);
      FlatAllCons(AttachHover(ns)[0], AttachHover(ns[1..]));
      assert AttachHover(ns)[1..] == AttachHover(ns[1..]);
      if ns[0].Element? {
        AttachHoverSound(ns[0].children);
        var n' := AttachHover(ns)[0];
        assert n'.children == AttachHover(ns[0].children);
        assert NodeOk(ns[0]) ==> NodeOk(n');
      }
    }
  }

  /** A second pass attaches nothing. */
  lemma {:induction false} AttachHoverIdempotent(ns: seq<Node>)
    ensures AttachHover(AttachHover(ns)) == AttachHover(ns)
    decreases ns
  {
    if ns != [] {
      AttachHoverIdempotent(ns[1..]);
      var r := AttachHover(ns);
      assert r[1..] == AttachHover(ns[1..]);
      if ns[0].Element? {
        AttachHoverIdempotent(ns[0].children);
      }
    }
  }

  lemma {:induction false} HoverOkAppend(xs: seq<Node>, ys: seq<Node>)
    ensures HoverOk(xs + ys) <==> HoverOk(xs) && HoverOk(ys)
    decreases xs
  {
    if xs == [] {
      assert xs + ys == ys;
    } else {
      assert (xs + ys)[1..] == xs[1..] + ys;
      HoverOkAppend(xs[1..], ys);
    }
  }

  lemma HoverOkCons(x: Node, ys: seq<Node>)
    ensures HoverOk([x] + ys) <==> NodeOk(x) && HoverOk(ys)
  {
    assert ([x] + ys)[1..] == ys;
  }

  /** Cutting keeps the listener bookkeeping: the original element keeps its
      flag and listener, the clone has neither. */
  lemma {:induction false} SplitKeepsHoverOk(ns: seq<Node>, k: nat, atStart: bool)
    requires k <= |FlatAll(ns)| && HoverOk(ns)
    ensures var r := Split(ns, k, atStart); HoverOk(r.0) && HoverOk(r.1)
    decreases ns
  {
    if ns != [] {
      var n := ns[0];
      var l := |Flat(n)|;
      if Past(l, k, atStart) {
        SplitKeepsHoverOk(ns[1..], k - l, atStart);
        HoverOkCons(n, Split(ns[1..], k - l, atStart).0);
      } else if k > 0 || atStart {
        var h := SplitNode(n, k, atStart);
        SplitNodeKeepsHoverOk(n, k, atStart);
        HoverOkCons(h.1, ns[1..]);
        HoverOkCons(h.0, []);
      }
    }
  }

  lemma {:induction false} SplitNodeKeepsHoverOk(n: Node, k: nat, atStart: bool)
    requires k <= |Flat(n)| && NodeOk(n)
    ensures var h := SplitNode(n, k, atStart); NodeOk(h.0) && NodeOk(h.1)
    decreases n
  {
    match n
    case Text(s) =>
    case Element(t, at, h, c, cs) => {
      SplitKeepsHoverOk(cs, k, atStart);
    }
  }

  /** Wrapping keeps the listener bookkeeping: the new marker has neither
      flag nor listener. */
  lemma {:induction false} WrapKeepsHoverOk(ns: seq<Node>, a: nat, b: nat, attrs: map<string, string>)
    requires a <= b <= |FlatAll(ns)| && HoverOk(ns)
    ensures HoverOk(Wrap(ns, a, b, attrs))
    decreases ns
  {
    if ns == [] {
      HoverOkCons(Mark(attrs, []), []);
    } else if |Flat(ns[0])| <= a {
      var l := |Flat(ns[0])|;
      WrapSkipUnfold(ns, a, b, attrs);
      WrapKeepsHoverOk(ns[1..], a - l, b - l, attrs);
      HoverOkCons(ns[0], Wrap(ns[1..], a - l, b - l, attrs));
    } else if Descends(ns, a, b) {
      var n := ns[0];
      var n' := n.(children := Wrap(n.children, a, b, attrs));
      assert Wrap(ns, a, b, attrs) == [n'] + ns[1..];
      WrapKeepsHoverOk(n.children, a, b, attrs);
      HoverOkCons(n', ns[1..]);
    } else {
      CutKeepsHoverOk(ns, a, b);
      var c := Cut(ns, a, b);
      assert Wrap(ns, a, b, attrs) == c.0 + [Mark(attrs, c.1)] + c.2;
      HoverOkAppend(c.0 + [Mark(attrs, c.1)], c.2);
      HoverOkAppend(c.0, [Mark(attrs, c.1)]);
      HoverOkCons(Mark(attrs, c.1), []);
    }
  }

  lemma CutKeepsHoverOk(ns: seq<Node>, a: nat, b: nat)
    requires a <= b <= |FlatAll(ns)| && HoverOk(ns)
    ensures var c := Cut(ns, a, b); HoverOk(c.0) && HoverOk(c.1) && HoverOk(c.2)
  {
    SplitSpells(ns, a, true);
    SplitKeepsHoverOk(ns, a, true);
    var (pre, rest) := Split(ns, a, true);
    SplitKeepsHoverOk(rest, b - a, false);
  }

  /** Unwrapping keeps the listener bookkeeping of every remaining element. */
  lemma {:induction false} UnwrapKeepsHoverOk(ns: seq<Node>, path: seq<nat>)
    requires ValidPath(ns, path) && NodeAt(ns, path).Element? && HoverOk(ns)
    ensures HoverOk(Unwrap(ns, path))
    decreases path
  {
    var i := path[0];
    HoverOkAt(ns, i);
    if |path| == 1 {
      HoverOkAppend(ns[..i] + ns[i].children, ns[i + 1..]);
      HoverOkAppend(ns[..i], ns[i].children);
    } else {
      var m := ns[i].(children := Unwrap(ns[i].children, path[1..]));
      UnwrapKeepsHoverOk(ns[i].children, path[1..]);
      HoverOkReplace(ns, i, m);
    }
  }

  /** Appending a child that keeps the bookkeeping keeps it for the forest. */
  lemma {:induction false} AppendChildKeepsHoverOk(ns: seq<Node>, path: seq<nat>, c: Node)
    requires ValidPath(ns, path) && NodeAt(ns, path).Element? && HoverOk(ns) && NodeOk(c)
    ensures HoverOk(AppendChildAt(ns, path, c))
    decreases path
  {
    var i := path[0];
    var n := ns[i];
    HoverOkAt(ns, i);
    if |path| == 1 {
      HoverOkAppend(n.children, [c]);
      HoverOkCons(c, []);
      HoverOkReplace(ns, i, n.(children := n.children + [c]));
    } else {
      AppendChildKeepsHoverOk(n.children, path[1..], c);
      HoverOkReplace(ns, i, n.(children := AppendChildAt(n.children, path[1..], c)));
    }
  }

  lemma HoverOkAt(ns: seq<Node>, i: nat)
    requires i < |ns|
    ensures HoverOk(ns) <==> HoverOk(ns[..i]) && NodeOk(ns[i]) && HoverOk(ns[i + 1..])
  {
    HoverOkReplace(ns, i, ns[i]);
    assert ns[i := ns[i]] == ns;
  }

  lemma HoverOkReplace(ns: seq<Node>, i: nat, m: Node)
    requires i < |ns|
    ensures HoverOk(ns[i := m]) <==> HoverOk(ns[..i]) && NodeOk(m) && HoverOk(ns[i + 1..])
  {
    assert ns[i := m] == ns[..i] + [m] + ns[i + 1..];
    HoverOkAppend(ns[..i] + [m], ns[i + 1..]);
    HoverOkAppend(ns[..i], [m]);
    HoverOkCons(m, []);
  }

  // ---------------------------------------------------------------------
  // The page
  // ---------------------------------------------------------------------

  /**
   * The page the highlighter edits: its body, and the marker last scrolled
   * into view (as a path), if any. Every element carries at most the one
   * hover listener its flag records.
   */
  class Document {
    var body: seq<Node>
    var scrolledTo: Option<seq<nat>>

    predicate Valid()
      reads this
    {
      HoverOk(body)
    }

    constructor(body: seq<Node>)
      requires HoverOk(body)
      ensures this.body == body && scrolledTo == None && Valid()
    {
      this.body := body;
      scrolledTo := None;
    }

    /**
     * wrapRangeInElement: wraps the text between `a` and `b` in a new marker
     * with attributes `attrs`. `surroundContents` throws when the range
     * selects an element partially; the fallback then extracts the contents,
     * appends them to the marker and inserts it, which builds the same tree:
     * the partially selected elements are cloned, the clones go into the
     * marker and the emptied originals stay outside. `fallback` says which
     * branch ran.
     */
    method WrapRangeInElement(a: nat, b: nat, attrs: map<string, string>) returns (fallback: bool)
      requires Valid() && a <= b <= |FlatAll(body)|
      modifies this
      ensures Valid()
      ensures body == Wrap(old(body), a, b, attrs) && scrolledTo == old(scrolledTo)
      ensures fallback == !NativeWrapOk(old(body), a, b)
    {
      if NativeWrapOk(body, a, b) {
        fallback := false;
      } else {
        fallback := true;
      }
      WrapKeepsHoverOk(body, a, b, attrs);
      body := Wrap(body, a, b, attrs);
    }

    /** addNoteIcon: the note icon becomes the marker's last child. */
    method AddNoteIcon(path: seq<nat>)
      requires Valid() && ValidPath(body, path) && NodeAt(body, path).Element?
      modifies this
      ensures Valid()
      ensures body == AppendChildAt(old(body), path, NoteIcon()) && scrolledTo == old(scrolledTo)
    {
      HoverOkCons(Text(" \U{1F4DD}"), []);
      AppendChildKeepsHoverOk(body, path, NoteIcon());
      body := AppendChildAt(body, path, NoteIcon());
    }

    /** scrollToHighlightById: scrolls the first marker with the id into view;
        without one, nothing happens. */
    method ScrollToHighlightById(id: string)
      modifies this
      ensures body == old(body)
      ensures scrolledTo == if FindMarker(body, id).None? then old(scrolledTo) else FindMarker(body, id)
    {
      var target := FindMarker(body, id);
      if target.None? {
        return;
      }
      scrolledTo := target;
    }

    /** `replaceWith(...childNodes)` on the element at `path`. */
    method ReplaceWithChildren(path: seq<nat>)
      requires Valid() && ValidPath(body, path) && NodeAt(body, path).Element?
      modifies this
      ensures Valid()
      ensures body == Unwrap(old(body), path) && scrolledTo == old(scrolledTo)
    {
      UnwrapKeepsHoverOk(body, path);
      body := Unwrap(body, path);
    }
  }
}
