/**
 * The per-page highlight store of the highlighter (contents/utils/storage.ts):
 * `chrome.storage.local` maps a page URL to a record whose `highlights` field
 * is the page's anchors in the order they were saved. Each operation reads
 * the record, changes it and writes it back.
 */
module Storage {
  import opened Wrappers
  import opened Types
  import opened Dom

  /** The record stored under a URL: its `highlights` array when present, and
      its other fields, which the store keeps as they are. */
  datatype Record = Record(highlights: Option<seq<Anchor>>, other: map<string, string>)

  /** The anchors stored for a URL; none when there is no array. */
  function Highlights(data: map<string, Record>, url: string): seq<Anchor> {
    if url in data && data[url].highlights.Some? then data[url].highlights.value else []
  }

  // ---------------------------------------------------------------------
  // saveHighlight
  // ---------------------------------------------------------------------

  /** Whether `push` can run: a stored record without a `highlights` array
      makes it throw before anything is written. */
  predicate CanSave(data: map<string, Record>, url: string) {
    !(url in data && data[url].highlights.None?)
  }

  /** The store after saving `anchor` for `url`. */
  function Saved(data: map<string, Record>, url: string, anchor: Anchor): map<string, Record> {
    if !CanSave(data, url) then data
    else
      var existing := if url in data then data[url] else Record(Some([]), map[]);
      data[url := existing.(highlights := Some(existing.highlights.value + [anchor]))]
  }

  /** Saving appends the anchor after the URL's earlier anchors, with no
      check for a duplicate id, and changes no other URL and no other field. */
  lemma SavedAppends(data: map<string, Record>, url: string, anchor: Anchor)
    requires CanSave(data, url)
    ensures var d := Saved(data, url, anchor);
            url in d && d[url].highlights.Some?
            && Highlights(d, url) == Highlights(data, url) + [anchor]
            && (url in data ==> d[url].other == data[url].other)
            && forall u :: u != url ==> (u in d <==> u in data) && (u in d ==> d[u] == data[u])
  {
  }

  /** A record without an array is left alone. */
  lemma SavedFails(data: map<string, Record>, url: string, anchor: Anchor)
    requires !CanSave(data, url)
    ensures Saved(data, url, anchor) == data && Highlights(data, url) == []
  {
  }

  // ---------------------------------------------------------------------
  // updateHighlightInStorage
  // ---------------------------------------------------------------------

  /** A `Partial<HighlightAnchor>`: `Some` for each field present. */
  datatype AnchorUpdate = AnchorUpdate(
    id: Option<string>,
    quote: Option<string>,
    prefix: Option<string>,
    suffix: Option<string>,
    color: Option<string>,
    note: Option<Option<string>>,
    startPos: Option<int>,
    endPos: Option<int>,
    cssPath: Option<string>)

  function Pick<T>(u: Option<T>, v: T): T {
    if u.Some? then u.value else v
  }

  /** `{ ...h, ...updates }`: the present fields win. */
  function Merge(h: Anchor, u: AnchorUpdate): Anchor {
    Anchor(Pick(u.id, h.id), Pick(u.quote, h.quote), Pick(u.prefix, h.prefix), Pick(u.suffix, h.suffix),
           Pick(u.color, h.color), Pick(u.note, h.note), Pick(u.startPos, h.startPos),
           Pick(u.endPos, h.endPos), Pick(u.cssPath, h.cssPath))
  }

  /** `findIndex` by id: the first index with the id, or -1. */
  function IndexOfId(hs: seq<Anchor>, id: string): (k: int)
    ensures -1 <= k < |hs|
    decreases |hs|
  {
    if hs == [] then -1
    else if hs[0].id == id then 0
    else
      var k := IndexOfId(hs[1..], id);
      if k == -1 then -1 else k + 1
  }

  lemma {:induction false} IndexOfIdFirst(hs: seq<Anchor>, id: string)
    ensures var k := IndexOfId(hs, id);
            (k == -1 <==> forall j :: 0 <= j < |hs| ==> hs[j].id != id)
            && (k >= 0 ==> hs[k].id == id && forall j :: 0 <= j < k ==> hs[j].id != id)
    decreases |hs|
  {
    if hs != [] && hs[0].id != id {
      IndexOfIdFirst(hs[1..], id);
      assert forall j :: 1 <= j < |hs| ==> hs[j] == hs[1..][j - 1];
    }
  }

  /** The store after updating the anchor with `id` for `url`. */
  function Updated(data: map<string, Record>, url: string, id: string, u: AnchorUpdate): map<string, Record> {
    if url !in data || data[url].highlights.None? then data
    else
      var hs := data[url].highlights.value;
      var idx := IndexOfId(hs, id);
      if idx == -1 then data
      else data[url := data[url].(highlights := Some(hs[idx := Merge(hs[idx], u)]))]
  }

  /** The update touches only the first anchor with the id: the fields present
      in the update are overwritten, the others kept, and length, order and
      every other anchor, field and URL stay as they were. Without an array or
      without the id nothing changes. */
  lemma UpdatedOnlyFirst(data: map<string, Record>, url: string, id: string, u: AnchorUpdate)
    ensures var d := Updated(data, url, id, u);
            var hs := Highlights(data, url);
            var k := IndexOfId(hs, id);
            (k == -1 ==> d == data)
            && (k >= 0 ==>
                  (forall v :: v != url ==> (v in d <==> v in data) && (v in d ==> d[v] == data[v]))
                  && d[url].other == data[url].other
                  && |Highlights(d, url)| == |hs|
                  && (forall j :: 0 <= j < |hs| && j != k ==> Highlights(d, url)[j] == hs[j])
                  && Highlights(d, url)[k] == Merge(hs[k], u)
                  && hs[k].id == id && (forall j :: 0 <= j < k ==> hs[j].id != id))
  {
    IndexOfIdFirst(Highlights(data, url), id);
  }

  /** An update names a field exactly when it changes it to the given value. */
  lemma MergeFields(h: Anchor, u: AnchorUpdate)
    ensures var m := Merge(h, u);
            (u.color.Some? ==> m.color == u.color.value) && (u.color.None? ==> m.color == h.color)
            && (u.note.Some? ==> m.note == u.note.value) && (u.note.None? ==> m.note == h.note)
            && (u == AnchorUpdate(None, None, None, None, None, None, None, None, None) ==> m == h)
  {
  }

  // ---------------------------------------------------------------------
  // deleteHighlight
  // ---------------------------------------------------------------------

  /** `filter(h => h.id !== id)`. */
  function WithoutId(hs: seq<Anchor>, id: string): seq<Anchor> {
    if hs == [] then []
    else (if hs[0].id == id then [] else [hs[0]]) + WithoutId(hs[1..], id)
  }

  /** The filter keeps exactly the anchors with another id, in their order. */
  lemma {:induction false} WithoutIdExact(hs: seq<Anchor>, id: string)
    ensures forall h :: h in WithoutId(hs, id) <==> h in hs && h.id != id
    ensures |WithoutId(hs, id)| <= |hs|
    ensures (forall j :: 0 <= j < |hs| ==> hs[j].id != id) ==> WithoutId(hs, id) == hs
  {
    if hs != [] {
      WithoutIdExact(hs[1..], id);
      assert hs == [hs[0]] + hs[1..];
    }
  }

  /** Filtering a concatenation filters each part: the kept anchors keep
      their relative order. */
  lemma {:induction false} WithoutIdAppend(xs: seq<Anchor>, ys: seq<Anchor>, id: string)
    ensures WithoutId(xs + ys, id) == WithoutId(xs, id) + WithoutId(ys, id)
  {
    if xs == [] {
      assert xs + ys == ys;
    } else {
      assert (xs + ys)[1..] == xs[1..] + ys;
      WithoutIdAppend(xs[1..], ys, id);
    }
  }

  /** Filtering twice is filtering once. */
  lemma {:induction false} WithoutIdIdempotent(hs: seq<Anchor>, id: string)
    ensures WithoutId(WithoutId(hs, id), id) == WithoutId(hs, id)
  {
    WithoutIdExact(hs, id);
    WithoutIdExact(WithoutId(hs, id), id);
  }

  /** The store after deleting the anchors with `id` for `url`. */
  function Deleted(data: map<string, Record>, url: string, id: string): map<string, Record> {
    if url !in data || data[url].highlights.None? then data
    else data[url := data[url].(highlights := Some(WithoutId(data[url].highlights.value, id)))]
  }

  /** Deleting removes every anchor with the id and nothing else, keeps the
      record's other fields and the other URLs, and deleting twice is
      deleting once. */
  lemma DeletedSound(data: map<string, Record>, url: string, id: string)
    ensures var d := Deleted(data, url, id);
            Highlights(d, url) == WithoutId(Highlights(data, url), id)
            && (url in data ==> url in d && d[url].other == data[url].other)
            && (forall v :: v != url ==> (v in d <==> v in data) && (v in d ==> d[v] == data[v]))
            && Deleted(d, url, id) == d
  {
    if url in data && data[url].highlights.Some? {
      WithoutIdIdempotent(data[url].highlights.value, id);
    }
  }

  // ---------------------------------------------------------------------
  // The store
  // ---------------------------------------------------------------------

  /** `chrome.storage.local` as seen by the highlight store. */
  class LocalStore {
    var data: map<string, Record>

    constructor(data: map<string, Record>)
      ensures this.data == data
    {
      this.data := data;
    }

    /** saveHighlight: `ok` is false when the push throws. */
    method SaveHighlight(url: string, anchor: Anchor) returns (ok: bool)
      modifies this
      ensures ok == CanSave(old(data), url)
      ensures data == Saved(old(data), url, anchor)
    {
      var existing := if url in data then data[url] else Record(Some([]), map[]);
      if existing.highlights.None? {
        return false;
      }
      existing := existing.(highlights := Some(existing.highlights.value + [anchor]));
      data := data[url := existing];
      ok := true;
    }

    /** updateHighlightInStorage. */
    method UpdateHighlightInStorage(url: string, id: string, updates: AnchorUpdate)
      modifies this
      ensures data == Updated(old(data), url, id, updates)
    {
      if url !in data || data[url].highlights.None? {
        return;
      }
      var record := data[url];
      var hs := record.highlights.value;
      var idx := IndexOfId(hs, id);
      if idx == -1 {
        return;
      }
      hs := hs[idx := Merge(hs[idx], updates)];
      data := data[url := record.(highlights := Some(hs))];
    }
  }

  /**
   * deleteHighlight on the marker at `path`: without a non-empty `data-id`
   * nothing happens; otherwise the marker is unwrapped first, and then the
   * URL's anchors with that id are filtered out, if the URL has an array.
   */
  method DeleteHighlight(doc: Document, store: LocalStore, url: string, path: seq<nat>)
    requires doc.Valid() && ValidPath(doc.body, path) && NodeAt(doc.body, path).Element?
    modifies doc, store
    ensures doc.Valid()
    ensures var target := NodeAt(old(doc.body), path);
            if "data-id" !in target.attrs || target.attrs["data-id"] == "" then
              doc.body == old(doc.body) && store.data == old(store.data)
            else
              doc.body == Unwrap(old(doc.body), path)
              && store.data == Deleted(old(store.data), url, target.attrs["data-id"])
    ensures doc.scrolledTo == old(doc.scrolledTo)
  {
    var target := NodeAt(doc.body, path);
    if "data-id" !in target.attrs || target.attrs["data-id"] == "" {
      return;
    }
    var id := target.attrs["data-id"];
    doc.ReplaceWithChildren(path);
    var data := store.data;
    if url !in data || data[url].highlights.None? {
      return;
    }
    var filtered := WithoutId(data[url].highlights.value, id);
    store.data := data[url := data[url].(highlights := Some(filtered))];
  }
}
