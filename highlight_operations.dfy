/**
 * Creating and re-applying highlights (contents/utils/highlight-operations.ts).
 *
 * Creating a highlight reads its anchor from the page as it is (context,
 * offsets, structural path), wraps the selection in a marker, saves the
 * anchor and then gives every marker its hover listener. Re-applying a saved
 * anchor searches the page text for its quote and wraps what it finds.
 *
 * A range boundary inside a text node is a leaf index and offset of the
 * body's text walk; one whose container is an element carries the text
 * position it denotes. The generated id, the page URL and the ancestor chain
 * of the range start are parameters.
 */
module HighlightOperations {
  import opened Strings
  import opened Wrappers
  import opened Types
  import opened Anchoring
  import opened QuoteSearch
  import opened Dom
  import opened Storage

  // ---------------------------------------------------------------------
  // Ranges in the page
  // ---------------------------------------------------------------------

  /** A boundary of a selection in the body. */
  predicate BoundaryInBody(leaves: seq<string>, b: Boundary) {
    match b.container
    case TextContainer(i) => 0 <= i < |leaves| && b.offset <= |leaves[i]|
    case ElementContainer(at) => at <= |Concat(leaves)|
  }

  /** The position in the body text a boundary denotes. */
  function BodyPosition(leaves: seq<string>, b: Boundary): (a: nat)
    requires BoundaryInBody(leaves, b)
    ensures a <= |Concat(leaves)|
  {
    match b.container
    case TextContainer(i) =>
      TextAroundBoundary(leaves, b);
      AbsolutePosition(leaves, b)
    case ElementContainer(at) => at
  }

  /** A selection in the body, start before end. */
  predicate RangeInBody(leaves: seq<string>, range: DomRange) {
    BoundaryInBody(leaves, range.start) && BoundaryInBody(leaves, range.end)
    && BodyPosition(leaves, range.start) <= BodyPosition(leaves, range.end)
  }

  /** The body with the selection wrapped in a marker with `attrs`. */
  function WrapSelection(body: seq<Node>, range: DomRange, attrs: map<string, string>): seq<Node>
    requires RangeInBody(TextLeaves(body), range)
  {
    TextLeavesSpell(body);
    var leaves := TextLeaves(body);
    Wrap(body, BodyPosition(leaves, range.start), BodyPosition(leaves, range.end), attrs)
  }

  /** The node type of the range start, as getCssPath sees it. */
  function StartKind(range: DomRange): NodeKind {
    if range.start.container.TextContainer? then TextNodeKind else ElementNodeKind
  }

  // ---------------------------------------------------------------------
  // createHighlight
  // ---------------------------------------------------------------------

  /** A note that is set: present and not empty. */
  predicate HasNote(note: Option<string>) {
    note.Some? && note.value != ""
  }

  /** The attributes of the marker createHighlight builds; the background
      style is kept as the attribute "style.background". */
  function CreateMarkerAttrs(id: string, color: string, note: Option<string>): map<string, string> {
    var attrs := map["class" := HIGHLIGHT_CLASS, "data-id" := id, "style.background" := color, "data-color" := color];
    if HasNote(note) then attrs["data-note" := note.value] else attrs
  }

  /** The anchor createHighlight saves for a selection of the page with text
      leaves `leaves`. */
  function NewAnchor(leaves: seq<string>, range: DomRange, quote: string, color: string, note: Option<string>,
                     id: string, chain: seq<Ancestor>): Anchor
  {
    var (startPos, endPos) := Offsets(leaves, range);
    Anchor(id, quote, Context(leaves, range, -30), Context(leaves, range, 30), color, note,
           startPos, endPos, Join(PathSegments(StartKind(range), chain), " > "))
  }

  /**
   * createHighlight. The context, offsets and path are read before the page
   * is touched; the marker is wrapped around the selection; the anchor is
   * saved; and only if the save went through are hover listeners attached.
   */
  method CreateHighlight(doc: Document, store: LocalStore, url: string, range: DomRange, quote: string,
                         color: string, note: Option<string>, id: string, chain: seq<Ancestor>)
    returns (anchor: Anchor, saved: bool)
    requires doc.Valid() && RangeInBody(TextLeaves(doc.body), range)
    requires range.start.container.ElementContainer? ==> chain != []
    modifies doc, store
    ensures doc.Valid() && doc.scrolledTo == old(doc.scrolledTo)
    ensures anchor == NewAnchor(TextLeaves(old(doc.body)), range, quote, color, note, id, chain)
    ensures saved == CanSave(old(store.data), url) && store.data == Saved(old(store.data), url, anchor)
    ensures var wrapped := WrapSelection(old(doc.body), range, CreateMarkerAttrs(id, color, note));
            doc.body == if saved then AttachHover(wrapped) else wrapped
  {
    var leaves := TextLeaves(doc.body);
    var prefix := GetContext(leaves, range, -30);
    var suffix := GetContext(leaves, range, 30);
    var startPos, endPos := ComputeOffsets(leaves, range);
    var cssPath := GetCssPath(StartKind(range), chain);

    var attrs := map["class" := HIGHLIGHT_CLASS];
    attrs := attrs["data-id" := id];
    attrs := attrs["style.background" := color];
    attrs := attrs["data-color" := color];
    if HasNote(note) {
      attrs := attrs["data-note" := note.value];
    }
    assert attrs == CreateMarkerAttrs(id, color, note);

    TextLeavesSpell(doc.body);
    ghost var wrapped := WrapSelection(doc.body, range, attrs);
    var a := BodyPosition(leaves, range.start);
    var b := BodyPosition(leaves, range.end);
    assert wrapped == Wrap(doc.body, a, b, attrs);
    var _ := doc.WrapRangeInElement(a, b, attrs);
    assert doc.body == wrapped;
    anchor := Anchor(id, quote, prefix, suffix, color, note, startPos, endPos, cssPath);
    assert anchor == NewAnchor(leaves, range, quote, color, note, id, chain);
    saved := store.SaveHighlight(url, anchor);
    if saved {
      AttachHighlightHoverHandlers(doc);
    }
  }

  /** The created marker holds the selected text at the selection's position
      and carries the anchor's id and color, and `data-note` only for a
      non-empty note. */
  lemma CreatedMarker(body: seq<Node>, range: DomRange, quote: string, color: string,
                      note: Option<string>, id: string, chain: seq<Ancestor>)
    requires RangeInBody(TextLeaves(body), range)
    ensures var leaves := TextLeaves(body);
            var a := BodyPosition(leaves, range.start);
            var b := BodyPosition(leaves, range.end);
            var anchor := NewAnchor(leaves, range, quote, color, note, id, chain);
            var attrs := CreateMarkerAttrs(id, color, note);
            b <= |FlatAll(body)|
            && MarkerPlaced(WrapSelection(body, range, attrs), WrapPath(body, a, b), attrs, FlatAll(body)[a..b], a)
            && attrs["data-id"] == anchor.id && attrs["data-color"] == anchor.color
            && ("data-note" in attrs <==> HasNote(anchor.note))
  {
    var leaves := TextLeaves(body);
    TextLeavesSpell(body);
    WrapPlacesMarker(body, BodyPosition(leaves, range.start), BodyPosition(leaves, range.end),
                     CreateMarkerAttrs(id, color, note));
  }

  /** The stored prefix is the (at most) 30 characters of page text just
      before the selection and the suffix the 30 just after it, read from the
      page before the marker went in; a boundary in an element gives "". */
  lemma CreatedContext(body: seq<Node>, range: DomRange, quote: string, color: string,
                       note: Option<string>, id: string, chain: seq<Ancestor>)
    requires RangeInBody(TextLeaves(body), range)
    ensures var leaves := TextLeaves(body);
            var a := BodyPosition(leaves, range.start);
            var b := BodyPosition(leaves, range.end);
            var anchor := NewAnchor(leaves, range, quote, color, note, id, chain);
            b <= |FlatAll(body)|
            && (range.start.container.TextContainer? ==> anchor.prefix == Last(FlatAll(body)[..a], 30))
            && (range.end.container.TextContainer? ==> anchor.suffix == First(FlatAll(body)[b..], 30))
            && (range.start.container.ElementContainer? ==> anchor.prefix == "")
            && (range.end.container.ElementContainer? ==> anchor.suffix == "")
  {
    var leaves := TextLeaves(body);
    TextLeavesSpell(body);
    if range.start.container.TextContainer? {
      TextAroundBoundary(leaves, range.start);
    }
    if range.end.container.TextContainer? {
      TextAroundBoundary(leaves, range.end);
    }
  }

  // ---------------------------------------------------------------------
  // applyHighlight
  // ---------------------------------------------------------------------

  /** The body with the text positions from `a` to `b` wrapped in a marker
      with `attrs`. */
  function WrapSpan(body: seq<Node>, a: nat, b: nat, attrs: map<string, string>): seq<Node>
    requires a <= b <= |FlatAll(body)|
  {
    Wrap(body, a, b, attrs)
  }

  /** The attributes of the marker applyHighlight builds: `data-id` only for a
      non-empty id, `data-note` only for a non-empty note, and no `data-color`. */
  function ApplyMarkerAttrs(anchor: Anchor): map<string, string> {
    var attrs := map["class" := HIGHLIGHT_CLASS];
    var attrs := if anchor.id != "" then attrs["data-id" := anchor.id] else attrs;
    var attrs := if HasNote(anchor.note) then attrs["data-note" := anchor.note.value] else attrs;
    attrs["style.background" := anchor.color]
  }

  /** A re-applied marker is the created one without `data-color`. */
  lemma ApplyMarkerLacksColor(anchor: Anchor)
    requires anchor.id != ""
    ensures ApplyMarkerAttrs(anchor) == CreateMarkerAttrs(anchor.id, anchor.color, anchor.note) - {"data-color"}
    ensures "data-color" !in ApplyMarkerAttrs(anchor)
  {
  }

  /** Where re-applying wraps in page text `t`: the occurrence findQuote
      chooses with no `start_pos`, or None when the quote does not occur. */
  function ApplyAt(t: string, anchor: Anchor): Option<nat>
    requires |anchor.quote| > 0
  {
    if Occurrences(t, anchor.quote, 0) == [] then None
    else Some(Choose(t, anchor.quote, anchor.prefix, anchor.suffix, None))
  }

  /** The position chosen is an occurrence of the quote, and there is none
      exactly when the quote does not occur in the text. */
  lemma ApplyAtOccurs(t: string, anchor: Anchor)
    requires |anchor.quote| > 0
    ensures ApplyAt(t, anchor).Some? ==> OccursAt(t, anchor.quote, ApplyAt(t, anchor).value)
    ensures ApplyAt(t, anchor).None? <==> forall i :: !OccursAt(t, anchor.quote, i)
  {
    OccurrencesExact(t, anchor.quote, 0);
    if Occurrences(t, anchor.quote, 0) != [] {
      ChooseOccurs(t, anchor.quote, anchor.prefix, anchor.suffix, None);
    }
  }

  /** The text positions of the range findQuote returns over `leaves`, if
      any. */
  function LeafSpan(leaves: seq<string>, anchor: Anchor): Option<(int, int)>
    requires |anchor.quote| > 0
  {
    match FindQuoteSpec(leaves, anchor.quote, anchor.prefix, anchor.suffix, None)
    case None => None
    case Some(r) =>
      var p := Positions(leaves);
      Some((p[r.startLeaf] + r.startOffset, p[r.endLeaf] + r.endOffset))
  }

  /**
   * The span a re-apply should wrap, stated on the page text alone: the
   * quote's extent at the occurrence chosen from the text, if any.
   */
  function TextSpan(t: string, anchor: Anchor): Option<(int, int)>
    requires |anchor.quote| > 0
  {
    match ApplyAt(t, anchor)
    case None => None
    case Some(c) => Some((c, c + |anchor.quote|))
  }

  /** Searching the leaves and mapping the range back to text positions gives
      the span chosen from their joined text: how the text is split into
      leaves does not change what is found. */
  lemma LeafSpanIsTextSpan(leaves: seq<string>, anchor: Anchor)
    requires |anchor.quote| > 0
    ensures LeafSpan(leaves, anchor) == TextSpan(Concat(leaves), anchor)
  {
    if Occurrences(Concat(leaves), anchor.quote, 0) == [] {
      assert FindQuoteSpec(leaves, anchor.quote, anchor.prefix, anchor.suffix, None).None?;
    } else {
      LeafSpanFound(leaves, anchor);
    }
  }

  /** The quote occurs: the range found maps back to the chosen occurrence. */
  lemma LeafSpanFound(leaves: seq<string>, anchor: Anchor)
    requires |anchor.quote| > 0 && Occurrences(Concat(leaves), anchor.quote, 0) != []
    ensures LeafSpan(leaves, anchor) == TextSpan(Concat(leaves), anchor)
  {
    var c := Choose(Concat(leaves), anchor.quote, anchor.prefix, anchor.suffix, None);
    LeafSpanAtChoice(leaves, anchor, c);
    TextSpanAtChoice(Concat(leaves), anchor, c);
    SameSpan(LeafSpan(leaves, anchor), TextSpan(Concat(leaves), anchor));
  }

  /** The span chosen from the text when the quote occurs. */
  lemma TextSpanAtChoice(t: string, anchor: Anchor, c: int)
    requires |anchor.quote| > 0 && Occurrences(t, anchor.quote, 0) != []
    requires c == Choose(t, anchor.quote, anchor.prefix, anchor.suffix, None)
    ensures TextSpan(t, anchor) == Some((c, c + |anchor.quote|))
  {
  }

  /** The span findQuote's range covers when the quote occurs, one end at a
      time. */
  lemma LeafSpanAtChoice(leaves: seq<string>, anchor: Anchor, c: int)
    requires |anchor.quote| > 0 && Occurrences(Concat(leaves), anchor.quote, 0) != []
    requires c == Choose(Concat(leaves), anchor.quote, anchor.prefix, anchor.suffix, None)
    ensures LeafSpan(leaves, anchor).Some?
    ensures LeafSpan(leaves, anchor).value.0 == c
    ensures LeafSpan(leaves, anchor).value.1 == c + |anchor.quote|
  {
    var r := FoundRange(leaves, anchor, c);
    LeafSpanEnds(leaves, anchor, r);
  }

  /** The range findQuote returns when the quote occurs, with its ends read
      off the position index. */
  lemma FoundRange(leaves: seq<string>, anchor: Anchor, c: int) returns (r: TextRange)
    requires |anchor.quote| > 0 && Occurrences(Concat(leaves), anchor.quote, 0) != []
    requires c == Choose(Concat(leaves), anchor.quote, anchor.prefix, anchor.suffix, None)
    ensures FindQuoteSpec(leaves, anchor.quote, anchor.prefix, anchor.suffix, None) == Some(r)
    ensures r.startLeaf <= r.endLeaf < |leaves|
    ensures Positions(leaves)[r.startLeaf] + r.startOffset == c
    ensures Positions(leaves)[r.endLeaf] + r.endOffset == c + |anchor.quote|
  {
    FindQuoteSpan(leaves, anchor.quote, anchor.prefix, anchor.suffix, None);
    r := FindQuoteSpec(leaves, anchor.quote, anchor.prefix, anchor.suffix, None).value;
  }

  /** The span of a range findQuote returns, read off the position index,
      one end at a time. */
  lemma LeafSpanEnds(leaves: seq<string>, anchor: Anchor, r: TextRange)
    requires |anchor.quote| > 0 && r.startLeaf <= r.endLeaf < |leaves|
    requires FindQuoteSpec(leaves, anchor.quote, anchor.prefix, anchor.suffix, None) == Some(r)
    ensures var p := Positions(leaves);
            LeafSpan(leaves, anchor).Some? &&
            LeafSpan(leaves, anchor).value.0 == p[r.startLeaf] + r.startOffset &&
            LeafSpan(leaves, anchor).value.1 == p[r.endLeaf] + r.endOffset
  {
  }

  /** Two spans with the same ends are the same span. */
  lemma SameSpan(x: Option<(int, int)>, y: Option<(int, int)>)
    requires x.Some? && y.Some? && x.value.0 == y.value.0 && x.value.1 == y.value.1
    ensures x == y
  {
  }

  /** The same for the text leaves of a body and the page text. */
  lemma FoundSpanIsTextSpan(body: seq<Node>, anchor: Anchor)
    requires |anchor.quote| > 0
    ensures LeafSpan(TextLeaves(body), anchor) == TextSpan(FlatAll(body), anchor)
  {
    TextLeavesSpell(body);
    LeafSpanIsTextSpan(TextLeaves(body), anchor);
  }

  /** The position chosen is an occurrence of the quote. */
  lemma ApplyAtSome(t: string, anchor: Anchor, c: nat)
    requires |anchor.quote| > 0 && ApplyAt(t, anchor) == Some(c)
    ensures OccursAt(t, anchor.quote, c)
  {
    ChooseOccurs(t, anchor.quote, anchor.prefix, anchor.suffix, None);
  }

  /**
   * The body after applyHighlight: the span of the range findQuote returns
   * over the body's text leaves is wrapped in a marker. That span is the
   * quote's extent at the occurrence chosen from the page text
   * (LeafSpanIsTextSpan), so the bound check always passes (AppliedAt); it
   * keeps this definition free of proof.
   */
  function Applied(body: seq<Node>, anchor: Anchor, deleting: bool): seq<Node>
    requires |anchor.quote| > 0
  {
    if deleting then body
    else match LeafSpan(TextLeaves(body), anchor)
      case None => body
      case Some((a, b)) =>
        if 0 <= a <= b <= |FlatAll(body)| then WrapSpan(body, a, b, ApplyMarkerAttrs(anchor)) else body
  }

  /**
   * applyHighlight. With the deletion guard on, or when the quote cannot be
   * found, the page is left alone. The search gets only the body, the quote
   * and the context: the stored `start_pos` and `css_path` are not passed.
   */
  method ApplyHighlight(doc: Document, anchor: Anchor, deleting: bool)
    requires doc.Valid() && |anchor.quote| > 0
    modifies doc
    ensures doc.Valid() && doc.scrolledTo == old(doc.scrolledTo)
    ensures doc.body == Applied(old(doc.body), anchor, deleting)
  {
    if deleting {
      return;
    }
    var leaves := TextLeaves(doc.body);
    var found := FindQuote(leaves, anchor.quote, anchor.prefix, anchor.suffix, None, "", None);
    if found.None? {
      FoundSpanIsTextSpan(doc.body, anchor);
      return;
    }
    var r := found.value;
    var attrs := map["class" := HIGHLIGHT_CLASS];
    if anchor.id != "" {
      attrs := attrs["data-id" := anchor.id];
    }
    if HasNote(anchor.note) {
      attrs := attrs["data-note" := anchor.note.value];
    }
    attrs := attrs["style.background" := anchor.color];
    assert attrs == ApplyMarkerAttrs(anchor);
    var p := Positions(leaves);
    var a := p[r.startLeaf] + r.startOffset;
    var b := p[r.endLeaf] + r.endOffset;
    assert found == FindQuoteSpec(leaves, anchor.quote, anchor.prefix, anchor.suffix, None);
    assert LeafSpan(leaves, anchor) == Some((a, b));
    LeafSpanBounds(doc.body, anchor);
    var _ := doc.WrapRangeInElement(a, b, attrs);
  }

  /** The span of a range findQuote returns lies inside the page text. */
  lemma LeafSpanBounds(body: seq<Node>, anchor: Anchor)
    requires |anchor.quote| > 0 && LeafSpan(TextLeaves(body), anchor).Some?
    ensures var s := LeafSpan(TextLeaves(body), anchor).value;
            0 <= s.0 && s.0 + |anchor.quote| == s.1 <= |FlatAll(body)|
  {
    FoundSpanIsTextSpan(body, anchor);
    ApplyAtSome(FlatAll(body), anchor, ApplyAt(FlatAll(body), anchor).value);
  }

  /** A re-apply whose chosen span runs from `a` to `b` wraps that span,
      which is the quote's extent at `a`. */
  lemma AppliedSpan(body: seq<Node>, anchor: Anchor, a: nat, b: nat)
    requires |anchor.quote| > 0 && TextSpan(FlatAll(body), anchor) == Some((a, b))
    ensures b == a + |anchor.quote| <= |FlatAll(body)|
    ensures Applied(body, anchor, false) == WrapSpan(body, a, b, ApplyMarkerAttrs(anchor))
  {
    FoundSpanIsTextSpan(body, anchor);
    ApplyAtSome(FlatAll(body), anchor, a);
  }

  /** A re-apply that chooses the position `c` wraps exactly the occurrence
      of the quote there. */
  lemma AppliedAt(body: seq<Node>, anchor: Anchor, c: nat)
    requires |anchor.quote| > 0 && ApplyAt(FlatAll(body), anchor) == Some(c)
    ensures OccursAt(FlatAll(body), anchor.quote, c)
    ensures Applied(body, anchor, false) == WrapSpan(body, c, c + |anchor.quote|, ApplyMarkerAttrs(anchor))
  {
    var t := FlatAll(body);
    assert TextSpan(t, anchor) == Some((c, c + |anchor.quote|));
    AppliedSpan(body, anchor, c, c + |anchor.quote|);
    ApplyAtSome(t, anchor, c);
  }

  /** Wrapping an occurrence of the quote puts a marker holding the quote at
      the occurrence and keeps the page text. */
  lemma WrapQuote(body: seq<Node>, q: string, c: nat, attrs: map<string, string>)
    requires OccursAt(FlatAll(body), q, c)
    ensures MarkerPlaced(WrapSpan(body, c, c + |q|, attrs), WrapPath(body, c, c + |q|), attrs, q, c)
    ensures FlatAll(WrapSpan(body, c, c + |q|, attrs)) == FlatAll(body)
  {
    assert FlatAll(body)[c..c + |q|] == q;
    WrapPlacesMarker(body, c, c + |q|, attrs);
    WrapKeepsText(body, c, c + |q|, attrs);
  }

  /** Without `start_pos` the closest-occurrence tie-break never runs: a
      re-apply wraps the first occurrence whose context checks out, or the
      first occurrence if none does. */
  lemma ApplyAtFirst(t: string, anchor: Anchor)
    requires |anchor.quote| > 0 && ApplyAt(t, anchor).Some?
    ensures var q := anchor.quote;
            var c := ApplyAt(t, anchor).value;
            var ws := VerifiedMatches(t, q, anchor.prefix, anchor.suffix);
            (ws != [] ==> c in ws && forall i :: i in ws ==> c <= i)
            && (ws == [] ==> forall i :: OccursAt(t, q, i) ==> c <= i)
  {
    if VerifiedMatches(t, anchor.quote, anchor.prefix, anchor.suffix) != [] {
      ChooseFirstVerified(t, anchor.quote, anchor.prefix, anchor.suffix, None);
    } else {
      ChooseUnverified(t, anchor.quote, anchor.prefix, anchor.suffix, None);
    }
  }

  /** With the deletion guard on, or when the quote does not occur in the
      page text, re-applying changes nothing. */
  lemma AppliedNoOp(body: seq<Node>, anchor: Anchor, deleting: bool)
    requires |anchor.quote| > 0
    requires deleting || forall i :: !OccursAt(FlatAll(body), anchor.quote, i)
    ensures Applied(body, anchor, deleting) == body
  {
    if !deleting {
      ApplyAtOccurs(FlatAll(body), anchor);
      FoundSpanIsTextSpan(body, anchor);
    }
  }

  /** Re-applying does not look for an existing marker: after one re-apply the
      page text is the same, so a second one chooses the same occurrence and
      wraps it again, inside the first marker. */
  lemma ReapplyWrapsAgain(body: seq<Node>, anchor: Anchor, c: nat)
    requires |anchor.quote| > 0 && ApplyAt(FlatAll(body), anchor) == Some(c)
    ensures OccursAt(FlatAll(body), anchor.quote, c)
    ensures var once := WrapSpan(body, c, c + |anchor.quote|, ApplyMarkerAttrs(anchor));
            Applied(body, anchor, false) == once
            && ApplyAt(FlatAll(once), anchor) == Some(c) && c + |anchor.quote| <= |FlatAll(once)|
            && Applied(once, anchor, false) == WrapSpan(once, c, c + |anchor.quote|, ApplyMarkerAttrs(anchor))
  {
    AppliedAt(body, anchor, c);
    ReapplyWrapsAgainAt(body, anchor, c);
  }

  /** The second re-apply, on the wrapped body. */
  lemma ReapplyWrapsAgainAt(body: seq<Node>, anchor: Anchor, c: nat)
    requires |anchor.quote| > 0 && ApplyAt(FlatAll(body), anchor) == Some(c)
    requires c + |anchor.quote| <= |FlatAll(body)|
    ensures var once := WrapSpan(body, c, c + |anchor.quote|, ApplyMarkerAttrs(anchor));
            ApplyAt(FlatAll(once), anchor) == Some(c) && c + |anchor.quote| <= |FlatAll(once)|
            && Applied(once, anchor, false) == WrapSpan(once, c, c + |anchor.quote|, ApplyMarkerAttrs(anchor))
  {
    WrapKeepsText(body, c, c + |anchor.quote|, ApplyMarkerAttrs(anchor));
    AppliedAt(WrapSpan(body, c, c + |anchor.quote|, ApplyMarkerAttrs(anchor)), anchor, c);
  }

  // ---------------------------------------------------------------------
  // Hover listeners and the note preview
  // ---------------------------------------------------------------------

  /** attachHighlightHoverHandlers: every marker without the flag gets it and
      one listener. */
  method AttachHighlightHoverHandlers(doc: Document)
    requires doc.Valid()
    modifies doc
    ensures doc.Valid() && doc.scrolledTo == old(doc.scrolledTo)
    ensures doc.body == AttachHover(old(doc.body))
  {
    AttachHoverSound(doc.body);
    doc.body := AttachHover(doc.body);
  }

  /** An element a note click reaches: `mark.hn-highlight[data-note]`. */
  predicate IsNoteMarker(n: Node) {
    IsMarker(n) && n.tag == "mark" && "data-note" in n.attrs
  }

  /** The preview a click on a marker shows: nothing for a click off a note
      marker or on an empty note, else the note cut to 200 characters. */
  function NotePreview(n: Node): (r: Option<string>)
    ensures r.Some? <==> IsNoteMarker(n) && n.attrs["data-note"] != ""
    ensures r.Some? ==> var note := n.attrs["data-note"];
              |r.value| <= 203 && (|note| <= 200 ==> r.value == note)
              && (|note| > 200 ==> |r.value| == 203 && r.value[..200] == note[..200])
  {
    if !IsNoteMarker(n) then None
    else
      var note := n.attrs["data-note"];
      if note == "" then None else Some(Truncate(note))
  }

  /** An empty note is stored in the anchor, but the marker carries no
      `data-note`, so clicking it shows nothing. */
  lemma EmptyNoteNotShown(id: string, color: string, kids: seq<Node>)
    ensures var attrs := CreateMarkerAttrs(id, color, Some(""));
            "data-note" !in attrs && NotePreview(Mark(attrs, kids)).None?
  {
  }
}
