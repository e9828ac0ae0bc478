/**
 * The anchor builder of the highlighter (contents/utils/anchoring.ts):
 * boundary context (`getContext`), character offsets (`computeOffsets`) and
 * the structural path (`getCssPath`).
 *
 * The document body is seen through its text leaves: the strings of its text
 * nodes in document (pre-)order, which is what a `SHOW_TEXT` tree walk over
 * `document.body` visits. A text node is identified by its position in that
 * walk; a text container whose position is not a valid index is a text node
 * that is not under the body.
 */
module Anchoring {
  import opened Strings

  /** A range boundary container. `at` of an element container is the body
      character position the boundary denotes; only wrapping uses it. */
  datatype Container = TextContainer(leaf: int) | ElementContainer(at: nat)

  datatype Boundary = Boundary(container: Container, offset: nat)

  /** A live DOM range: its start and end boundary points. */
  datatype DomRange = DomRange(start: Boundary, end: Boundary)

  /** The position of a container in the body's text walk, or -1 (`indexOf`). */
  function WalkIndex(leaves: seq<string>, c: Container): (k: int)
    ensures -1 <= k < |leaves|
    ensures k >= 0 <==> c.TextContainer? && 0 <= c.leaf < |leaves|
  {
    if c.TextContainer? && 0 <= c.leaf < |leaves| then c.leaf else -1
  }

  // ---------------------------------------------------------------------
  // getContext
  // ---------------------------------------------------------------------

  /** All body text before a boundary inside leaf `i`. */
  function TextBefore(leaves: seq<string>, i: nat, offset: nat): string
    requires i < |leaves|
  {
    Concat(leaves[..i]) + leaves[i][..Min(offset, |leaves[i]|)]
  }

  /** All body text after a boundary inside leaf `i`. */
  function TextAfter(leaves: seq<string>, i: nat, offset: nat): string
    requires i < |leaves|
  {
    From(leaves[i], offset) + Concat(leaves[i + 1..])
  }

  lemma LastOfLonger(x: string, y: string, n: nat)
    requires |y| >= n
    ensures Last(x + y, n) == Last(y, n)
  {
    assert (x + y)[|x + y| - n..] == y[|y| - n..];
  }

  lemma FirstOfLonger(x: string, y: string, n: nat)
    requires |x| >= n
    ensures First(x + y, n) == First(x, n)
  {
    assert (x + y)[..n] == x[..n];
  }

  /**
   * What getContext returns: with negative `chars` the last |chars| characters
   * of body text before the range start (fewer at the start of the body),
   * otherwise the first `chars` characters after the range end; "" when the
   * boundary container is not a text node of the body.
   */
  function Context(leaves: seq<string>, range: DomRange, chars: int): (r: string)
    ensures |r| <= Abs(chars)
    ensures var b := if chars < 0 then range.start else range.end;
            WalkIndex(leaves, b.container) == -1 ==> r == ""
  {
    var b := if chars < 0 then range.start else range.end;
    if WalkIndex(leaves, b.container) == -1 then ""
    else if chars < 0 then Last(TextBefore(leaves, b.container.leaf, b.offset), -chars)
    else First(TextAfter(leaves, b.container.leaf, b.offset), chars)
  }

  /** getContext. */
  method GetContext(leaves: seq<string>, range: DomRange, chars: int) returns (context: string)
    ensures context == Context(leaves, range, chars)
  {
    var isPrefix := chars < 0;
    var needLength := Abs(chars);
    var refNode := if isPrefix then range.start.container else range.end.container;
    var refOffset := if isPrefix then range.start.offset else range.end.offset;
    if !refNode.TextContainer? {
      return "";
    }
    var refIndex := WalkIndex(leaves, refNode);
    if refIndex == -1 {
      return "";
    }
    if isPrefix {
      context := PrefixContext(leaves, refIndex, refOffset, needLength);
    } else {
      context := SuffixContext(leaves, refIndex, refOffset, needLength);
    }
  }

  /** Once the prefix walk stops, the last `n` characters of what it gathered
      are the last `n` characters before the boundary. */
  lemma PrefixWalkDone(leaves: seq<string>, refIndex: nat, refOffset: nat, i: int, context: string, n: nat)
    requires -1 <= i < refIndex < |leaves|
    requires context == Concat(leaves[i + 1..refIndex]) + leaves[refIndex][..Min(refOffset, |leaves[refIndex]|)]
    requires |context| >= n || i < 0
    ensures Last(context, n) == Last(TextBefore(leaves, refIndex, refOffset), n)
  {
    ConcatRange(leaves, 0, i + 1, refIndex);
    assert leaves[0..refIndex] == leaves[..refIndex];
    assert leaves[0..i + 1] == leaves[..i + 1];
    var head := Concat(leaves[..i + 1]);
    var mid := Concat(leaves[i + 1..refIndex]);
    var tail := leaves[refIndex][..Min(refOffset, |leaves[refIndex]|)];
    assert TextBefore(leaves, refIndex, refOffset) == head + mid + tail;
    assert head + mid + tail == head + context;
    if |context| >= n {
      LastOfLonger(head, context, n);
    } else {
      assert leaves[..i + 1] == [];
      assert head + context == context;
    }
  }

  /** The prefix branch of getContext: walks back from the start leaf. */
  method PrefixContext(leaves: seq<string>, refIndex: nat, refOffset: nat, needLength: nat) returns (context: string)
    requires refIndex < |leaves|
    ensures context == Last(TextBefore(leaves, refIndex, refOffset), needLength)
  {
    var textInNode := leaves[refIndex][..Min(refOffset, |leaves[refIndex]|)];
    context := textInNode;
    var i := refIndex - 1;
    while |context| < needLength && i >= 0
      invariant -1 <= i < refIndex
      invariant context == Concat(leaves[i + 1..refIndex]) + textInNode
      decreases i
    {
      ConcatStep(leaves, i, refIndex);
      context := leaves[i] + context;
      i := i - 1;
    }
    PrefixWalkDone(leaves, refIndex, refOffset, i, context, needLength);
    context := Last(context, needLength);
  }

  /** Once the suffix walk stops, the first `n` characters of what it gathered
      are the first `n` characters after the boundary. */
  lemma SuffixWalkDone(leaves: seq<string>, refIndex: nat, refOffset: nat, i: nat, context: string, n: nat)
    requires refIndex + 1 <= i <= |leaves|
    requires context == From(leaves[refIndex], refOffset) + Concat(leaves[refIndex + 1..i])
    requires |context| >= n || i == |leaves|
    ensures First(context, n) == First(TextAfter(leaves, refIndex, refOffset), n)
  {
    ConcatRange(leaves, refIndex + 1, i, |leaves|);
    assert leaves[refIndex + 1..|leaves|] == leaves[refIndex + 1..];
    assert leaves[i..|leaves|] == leaves[i..];
    var head := From(leaves[refIndex], refOffset);
    var mid := Concat(leaves[refIndex + 1..i]);
    var tail := Concat(leaves[i..]);
    assert TextAfter(leaves, refIndex, refOffset) == head + (mid + tail);
    assert head + (mid + tail) == context + tail;
    if |context| >= n {
      FirstOfLonger(context, tail, n);
    } else {
      assert leaves[i..] == [];
      assert context + tail == context;
    }
  }

  /** The suffix branch of getContext: walks forward from the end leaf. */
  method SuffixContext(leaves: seq<string>, refIndex: nat, refOffset: nat, needLength: nat) returns (context: string)
    requires refIndex < |leaves|
    ensures context == First(TextAfter(leaves, refIndex, refOffset), needLength)
  {
    var textInNode := From(leaves[refIndex], refOffset);
    context := textInNode;
    var i := refIndex + 1;
    while |context| < needLength && i < |leaves|
      invariant refIndex + 1 <= i <= |leaves|
      invariant context == textInNode + Concat(leaves[refIndex + 1..i])
    {
      ConcatRange(leaves, refIndex + 1, i, i + 1);
      ConcatStep(leaves, i, i + 1);
      assert leaves[i + 1..i + 1] == [];
      assert textInNode + (Concat(leaves[refIndex + 1..i]) + leaves[i]) == context + leaves[i];
      context := context + leaves[i];
      i := i + 1;
    }
    SuffixWalkDone(leaves, refIndex, refOffset, i, context, needLength);
    context := First(context, needLength);
  }

  /** Around a boundary inside a text leaf, the text before and after it are
      the body text cut at the boundary's absolute position. */
  lemma TextAroundBoundary(leaves: seq<string>, b: Boundary)
    requires WalkIndex(leaves, b.container) != -1 && b.offset <= |leaves[b.container.leaf]|
    ensures var a := AbsolutePosition(leaves, b);
            var i := b.container.leaf;
            a <= |Concat(leaves)|
            && TextBefore(leaves, i, b.offset) == Concat(leaves)[..a]
            && TextAfter(leaves, i, b.offset) == Concat(leaves)[a..]
  {
    var i := b.container.leaf;
    ConcatSplit(leaves, i);
    ConcatStep(leaves, i, |leaves|);
    assert leaves[i..|leaves|] == leaves[i..];
    assert leaves[i + 1..|leaves|] == leaves[i + 1..];
    var P := Concat(leaves[..i]);
    var L := leaves[i];
    var S := Concat(leaves[i + 1..]);
    assert Concat(leaves) == P + (L + S);
    CutInMiddle(P, L, S, b.offset);
  }

  lemma CutInMiddle<T>(p: seq<T>, l: seq<T>, s: seq<T>, o: nat)
    requires o <= |l|
    ensures (p + (l + s))[..|p| + o] == p + l[..o]
    ensures (p + (l + s))[|p| + o..] == l[o..] + s
  {
    assert (p + (l + s))[..|p| + o] == p + l[..o];
    assert (p + (l + s))[|p| + o..] == l[o..] + s;
  }

  /** At the very start of the body (only empty leaves before the boundary,
      and the boundary at the start of its leaf) the prefix is empty. */
  lemma PrefixEmptyAtStart(leaves: seq<string>, i: nat, offset: nat, n: nat)
    requires i < |leaves| && offset == 0
    requires forall j :: 0 <= j < i ==> leaves[j] == ""
    ensures Last(TextBefore(leaves, i, offset), n) == ""
  {
    AllEmptyConcat(leaves[..i]);
  }

  /** At the very end of the body (the boundary at the end of its leaf, and
      only empty leaves after it) the suffix is empty. */
  lemma SuffixEmptyAtEnd(leaves: seq<string>, i: nat, offset: nat, n: nat)
    requires i < |leaves| && offset >= |leaves[i]|
    requires forall j :: i < j < |leaves| ==> leaves[j] == ""
    ensures First(TextAfter(leaves, i, offset), n) == ""
  {
    AllEmptyConcat(leaves[i + 1..]);
  }

  lemma {:induction false} AllEmptyConcat(ss: seq<string>)
    requires forall j :: 0 <= j < |ss| ==> ss[j] == ""
    ensures Concat(ss) == ""
  {
    if ss != [] {
      AllEmptyConcat(ss[1..]);
    }
  }

  // ---------------------------------------------------------------------
  // computeOffsets
  // ---------------------------------------------------------------------

  /** Whether the walk's node `i` is (identical to) container `c`. */
  predicate IsNode(i: int, c: Container) {
    c.TextContainer? && c.leaf == i
  }

  /** Where the walk of computeOffsets stops: at the end container, unless that
      is also the start container or not in the walk. */
  function OffsetsStop(leaves: seq<string>, range: DomRange): (k: nat)
    ensures k <= |leaves|
    ensures k < |leaves| ==> IsNode(k, range.end.container) && !IsNode(k, range.start.container)
    ensures forall j :: 0 <= j < k ==> !IsNode(j, range.end.container) || IsNode(j, range.start.container)
  {
    var e := range.end.container;
    if e.TextContainer? && 0 <= e.leaf < |leaves| && !IsNode(e.leaf, range.start.container)
    then e.leaf else |leaves|
  }

  /**
   * What computeOffsets returns, as written: `start_pos` is the length of the
   * text walked before the walk stops, where the start container counts
   * `startOffset` instead of its length; `end_pos` is `start_pos + endOffset`
   * if the walk met the end container, and stays 0 otherwise.
   */
  function Offsets(leaves: seq<string>, range: DomRange): (int, int) {
    var k := OffsetsStop(leaves, range);
    var s := range.start.container;
    var startPos := |Concat(leaves[..k])|
                    + (if s.TextContainer? && 0 <= s.leaf < k then range.start.offset - |leaves[s.leaf]| else 0);
    (startPos, if k < |leaves| then startPos + range.end.offset else 0)
  }

  /** computeOffsets. */
  method ComputeOffsets(leaves: seq<string>, range: DomRange) returns (startPos: int, endPos: int)
    ensures (startPos, endPos) == Offsets(leaves, range)
  {
    var start, end := 0, 0;
    var i := 0;
    ghost var k := OffsetsStop(leaves, range);
    ghost var s := range.start.container;
    while i < |leaves|
      invariant 0 <= i <= k
      invariant end == 0
      invariant start == |Concat(leaves[..i])|
                         + (if s.TextContainer? && 0 <= s.leaf < i then range.start.offset - |leaves[s.leaf]| else 0)
    {
      ConcatSnoc(leaves, i);
      if IsNode(i, range.start.container) {
        start := start + range.start.offset;
      } else if IsNode(i, range.end.container) {
        end := start + range.end.offset;
        break;
      } else {
        start := start + |leaves[i]|;
      }
      i := i + 1;
    }
    startPos, endPos := start, end;
  }

  /** The absolute position in the body text of a boundary inside the walk. */
  function AbsolutePosition(leaves: seq<string>, b: Boundary): int
    requires WalkIndex(leaves, b.container) != -1
  {
    |Concat(leaves[..b.container.leaf])| + b.offset
  }

  /**
   * The outcome for an ordinary range from text leaf s to a later text leaf e:
   * `start_pos` counts the whole text of the leaves strictly between, so it
   * exceeds the absolute start of the range by their length, and `end_pos` is
   * `start_pos + endOffset`, not the absolute end.
   */
  lemma OffsetsAcrossNodes(leaves: seq<string>, range: DomRange)
    requires range.start.container.TextContainer? && range.end.container.TextContainer?
    requires 0 <= range.start.container.leaf < range.end.container.leaf < |leaves|
    ensures var s := range.start.container.leaf;
            var e := range.end.container.leaf;
            var startPos := AbsolutePosition(leaves, range.start) + |Concat(leaves[s + 1..e])|;
            Offsets(leaves, range) == (startPos, startPos + range.end.offset)
  {
    var s := range.start.container.leaf;
    var e := range.end.container.leaf;
    assert OffsetsStop(leaves, range) == e;
    assert leaves[..e][..s] == leaves[..s];
    assert leaves[..e][s..] == [leaves[s]] + leaves[s + 1..e];
    ConcatSplit(leaves[..e], s);
    ConcatAppend([leaves[s]], leaves[s + 1..e]);
    assert Concat([leaves[s]]) == leaves[s];
  }

  /**
   * The outcome for a range inside one text leaf: the walk never stops, so
   * `end_pos` stays 0 and `start_pos` is the text before the leaf plus
   * `startOffset` plus the text of every following leaf.
   */
  lemma OffsetsSameNode(leaves: seq<string>, range: DomRange)
    requires range.start.container.TextContainer? && range.start.container == range.end.container
    requires 0 <= range.start.container.leaf < |leaves|
    ensures var s := range.start.container.leaf;
            Offsets(leaves, range) == (AbsolutePosition(leaves, range.start) + |Concat(leaves[s + 1..])|, 0)
  {
    var s := range.start.container.leaf;
    assert OffsetsStop(leaves, range) == |leaves|;
    assert leaves[..|leaves|] == leaves;
    ConcatSplit(leaves, s);
    assert leaves[s..] == [leaves[s]] + leaves[s + 1..];
    ConcatAppend([leaves[s]], leaves[s + 1..]);
    assert Concat([leaves[s]]) == leaves[s];
  }

  /** A range whose end container is not a text node of the body: the walk
      runs to the end, and `end_pos` stays 0. */
  lemma OffsetsEndOutside(leaves: seq<string>, range: DomRange)
    requires WalkIndex(leaves, range.end.container) == -1
    ensures Offsets(leaves, range).1 == 0
    ensures WalkIndex(leaves, range.start.container) == -1 ==> Offsets(leaves, range).0 == |Concat(leaves)|
  {
    assert leaves[..|leaves|] == leaves;
  }

  // ---------------------------------------------------------------------
  // getCssPath
  // ---------------------------------------------------------------------

  datatype NodeKind = TextNodeKind | ElementNodeKind | OtherNodeKind

  /**
   * One element on the walk up from the node: its `nodeName`, its `id`
   * attribute ("" when absent), whether it is `document.body`, and its
   * 0-based position among its parent's element children. `chain[k + 1]` is
   * the parent element of `chain[k]`; the chain ends where there is none.
   */
  datatype Ancestor = Ancestor(nodeName: string, id: string, isBody: bool, position: nat)

  /** The first element of the walk that is the body or has an id. */
  function CssStop(chain: seq<Ancestor>): (k: nat)
    ensures k <= |chain|
    ensures forall j :: 0 <= j < k ==> !chain[j].isBody && chain[j].id == ""
    ensures k < |chain| ==> chain[k].isBody || chain[k].id != ""
  {
    if chain == [] || chain[0].isBody || chain[0].id != "" then 0
    else 1 + CssStop(chain[1..])
  }

  /** `tag:nth-child(k)` with k the 1-based sibling index, 0 without a parent. */
  function NthSegment(chain: seq<Ancestor>, j: nat): string
    requires j < |chain|
  {
    var idx := if j + 1 < |chain| then chain[j].position + 1 else 0;
    Lower(chain[j].nodeName) + ":nth-child(" + NatToString(idx) + ")"
  }

  function IdSegment(a: Ancestor): string {
    Lower(a.nodeName) + "#" + a.id
  }

  /** The selector segments, outermost first: an `tag#id` segment for the
      element that stopped the walk (unless it is the body), then one
      `nth-child` segment per element below it. */
  function PathSegments(kind: NodeKind, chain: seq<Ancestor>): (segs: seq<string>)
  {
    if kind == OtherNodeKind then []
    else
      var k := CssStop(chain);
      (if k < |chain| && !chain[k].isBody then [IdSegment(chain[k])] else [])
      + NthSegments(chain, k)
  }

  /** The `nth-child` segments of the first `k` elements of the walk, outermost first. */
  function NthSegments(chain: seq<Ancestor>, k: nat): (segs: seq<string>)
    requires k <= |chain|
    ensures |segs| == k
  {
    if k == 0 then [] else [NthSegment(chain, k - 1)] + NthSegments(chain, k - 1)
  }

  lemma {:induction false} NthSegmentsAt(chain: seq<Ancestor>, k: nat, j: nat)
    requires j < k <= |chain|
    ensures NthSegments(chain, k)[k - 1 - j] == NthSegment(chain, j)
  {
    if j < k - 1 {
      NthSegmentsAt(chain, k - 1, j);
    }
  }

  /**
   * getCssPath: climbs from the node (from its parent for a text node) and
   * joins the segments with " > ".
   */
  method GetCssPath(kind: NodeKind, chain: seq<Ancestor>) returns (path: string)
    requires kind == ElementNodeKind ==> chain != []
    ensures path == Join(PathSegments(kind, chain), " > ")
  {
    if kind == TextNodeKind && chain == [] {
      assert PathSegments(kind, chain) == [];
      return "";
    }
    var segs: seq<string> := [];
    if kind != OtherNodeKind {
      var k := 0;
      ghost var stop := CssStop(chain);
      while k < |chain| && !chain[k].isBody
        invariant 0 <= k <= stop
        invariant segs == NthSegments(chain, k)
      {
        var selector := Lower(chain[k].nodeName);
        if chain[k].id != "" {
          selector := selector + "#" + chain[k].id;
          segs := [selector] + segs;
          assert k == stop;
          assert segs == PathSegments(kind, chain);
          break;
        }
        var idx := if k + 1 < |chain| then chain[k].position + 1 else 0;
        selector := selector + ":nth-child(" + NatToString(idx) + ")";
        assert selector == NthSegment(chain, k);
        segs := [selector] + segs;
        k := k + 1;
      }
      assert segs == PathSegments(kind, chain);
    } else {
      assert PathSegments(kind, chain) == [];
    }
    path := Join(segs, " > ");
  }

  /** The walk never yields a segment for the body or anything above it, and
      every segment but an id segment names the 1-based position of an element
      among its siblings. */
  lemma PathSegmentsShape(kind: NodeKind, chain: seq<Ancestor>)
    requires kind != OtherNodeKind
    ensures var segs := PathSegments(kind, chain);
            var k := CssStop(chain);
            var hasId := k < |chain| && !chain[k].isBody;
            |segs| == k + (if hasId then 1 else 0)
            && (hasId ==> segs[0] == IdSegment(chain[k]))
            && forall i :: |segs| - k <= i < |segs| ==> segs[i] == NthSegment(chain, |segs| - 1 - i)
  {
    var k := CssStop(chain);
    var segs := PathSegments(kind, chain);
    var tail := NthSegments(chain, k);
    NthSegmentsReversed(chain, k);
    var head := if k < |chain| && !chain[k].isBody then [IdSegment(chain[k])] else [];
    assert segs == head + tail;
    AppendIndex(head, tail);
  }

  lemma AppendIndex<T>(head: seq<T>, tail: seq<T>)
    ensures forall i :: |head| <= i < |head + tail| ==> (head + tail)[i] == tail[i - |head|]
  {
  }

  /** The `nth-child` segments come outermost first: position `i` holds the
      segment of the element `k - 1 - i` steps above the node. */
  lemma NthSegmentsReversed(chain: seq<Ancestor>, k: nat)
    requires k <= |chain|
    ensures forall i :: 0 <= i < k ==> NthSegments(chain, k)[i] == NthSegment(chain, k - 1 - i)
  {
    forall i | 0 <= i < k
      ensures NthSegments(chain, k)[i] == NthSegment(chain, k - 1 - i)
    {
      NthSegmentsAt(chain, k, k - 1 - i);
    }
  }

  /** A node whose first element is the body, or that is no element and no
      text node, gets the empty path; an element with an id is named by it. */
  lemma CssPathShortCases(kind: NodeKind, chain: seq<Ancestor>)
    ensures kind == OtherNodeKind ==> Join(PathSegments(kind, chain), " > ") == ""
    ensures kind != OtherNodeKind && chain != [] && chain[0].isBody ==>
              Join(PathSegments(kind, chain), " > ") == ""
    ensures kind != OtherNodeKind && chain != [] && !chain[0].isBody && chain[0].id != "" ==>
              Join(PathSegments(kind, chain), " > ") == Lower(chain[0].nodeName) + "#" + chain[0].id
  {
    if kind != OtherNodeKind && chain != [] && !chain[0].isBody && chain[0].id != "" {
      assert CssStop(chain) == 0;
      assert PathSegments(kind, chain) == [IdSegment(chain[0])];
    }
  }
}
