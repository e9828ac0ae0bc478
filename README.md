# Text anchoring for a web highlighter, in Dafny

This project models the core of a browser extension that lets a reader
highlight passages of a web page and attach notes to them. Each highlight is
saved as a text anchor: the quoted text, up to 30 characters of context on
each side, character offsets and a CSS path. When the page is loaded again,
the quote is searched for and wrapped in a marker.

The model covers the following parts of the extension:

- **Anchoring** (`contents/utils/anchoring.ts`). Context extraction, offset
  computation and the CSS path are modelled in `anchoring.dfy`. The quote
  search `findQuote` is modelled in `quote_search.dfy`. Together they build
  an anchor from a selection and find it again.
- **DOM edits** (`contents/utils/dom-utils.ts`). These are in `dom.dfy`:
  wrapping a range in a marker (with the `surroundContents` fallback),
  unwrapping a marker, adding a note icon, finding a marker by id, and
  attaching hover listeners without duplicates.
- **Create and re-apply** (`contents/utils/highlight-operations.ts`). This is
  `highlight_operations.dfy`.
- **The per-page store** (`contents/utils/storage.ts`): saving, updating and
  deleting anchors. This is `storage.dfy`.
- **The scheduler** (`contents/utils/observers.ts`): the page-calm waiter,
  re-applying every anchor in order, and the debounced, throttled mutation
  observer. This is `observers.dfy`.
- **The retry queue** (`lib/highlight-sync.ts`). It holds cloud saves and
  deletes, and a processor drains it in batches of 20 behind a processing
  flag. This is `sync_queue.dfy`.

The page's text is the sequence of its text nodes in document order, as a
`SHOW_TEXT` tree walk visits them. The DOM is a forest of `Node` values; in
it, an element records its attributes, its `_hasHoverHandler` flag and its
number of highlighter listeners. Objects whose state the source updates in
place are classes whose methods are proved against pure step functions:

- the document (`Dom.Document`);
- `chrome.storage.local` as the highlight store (`Storage.LocalStore`);
- one `waitForPageCalm` call (`Observers.CalmWaiter`);
- one `observeDomChanges` call (`Observers.DomObserver`);
- the persisted retry queue (`SyncQueue.SyncStore`).

The lemmas about those step functions carry the properties.

The following inputs are parameters:

- time, as milliseconds;
- the generated id, the page URL and the ancestor chain of a range start;
- the element a CSS path selects;
- the outcomes of remote calls;
- the deletion guard `isDeletingNow`.

Some behaviour is modelled as the code is written, and these lemmas state it:

- `computeOffsets` returns `end_pos = 0` for a selection inside one text
  node (`Anchoring.OffsetsSameNode`). Across nodes, its `start_pos` counts the
  text between the two nodes (`Anchoring.OffsetsAcrossNodes`).
- `applyHighlight` passes neither `start_pos` nor `css_path` to the search
  (`HighlightOperations.ApplyAtFirst`).
- A re-applied marker has no `data-color` attribute
  (`HighlightOperations.ApplyMarkerLacksColor`).
- Re-applying an anchor whose marker is already on the page wraps the text
  again (`HighlightOperations.ReapplyWrapsAgain`).

## Model

| member | source | states |
|---|---|---|
| QuoteSearch.IndexOf | contents/utils/anchoring.ts:111-114 | `indexOf(quote, from)`: the first occurrence at or after `from`, or -1 exactly when there is none |
| QuoteSearch.Occurrences | contents/utils/anchoring.ts:110-115 | the match list holds only occurrences at or after `from`, in strictly increasing order |
| QuoteSearch.OccurrencesExact | contents/utils/anchoring.ts:110-115 | every occurrence of the quote is in the match list, so the list is exactly the occurrences |
| QuoteSearch.OccurrencesFromIndexOf | contents/utils/anchoring.ts:111-114 | the match list is what the `indexOf` loop builds: the first hit, then the matches from one past it |
| QuoteSearch.BuildIndex | contents/utils/anchoring.ts:100-109 | the walk loop yields the joined text and one position per text node, `positions[k]` being the length of the text of the nodes before node k |
| QuoteSearch.FindMatches | contents/utils/anchoring.ts:110-115 | the match loop yields every occurrence of the quote in increasing order |
| QuoteSearch.VerifiedWholeText | contents/utils/anchoring.ts:117-123 | the 10-character windows decide the same as testing the last 5 prefix characters against all text before the match and the first 5 suffix characters against all text after it; an empty prefix or suffix always passes |
| QuoteSearch.FilterVerifiedExact | contents/utils/anchoring.ts:117-123 | the filter keeps exactly the matches whose context checks pass |
| QuoteSearch.FilterVerifiedIncreasing | contents/utils/anchoring.ts:117-123 | the filter keeps the matches in order |
| QuoteSearch.VerifiedMatchesExact | contents/utils/anchoring.ts:110-123 | the context-verified matches are exactly the occurrences whose context checks pass |
| QuoteSearch.ReduceClosestIsClosest | contents/utils/anchoring.ts:126-128 | the `reduce` returns a verified match nearest to `start_pos`; on a tie it keeps the earliest |
| QuoteSearch.ChooseOccurs | contents/utils/anchoring.ts:124-129 | the chosen position is always an occurrence of the quote |
| QuoteSearch.ChooseUnverified | contents/utils/anchoring.ts:124 | when no match passes the context check, the first occurrence is chosen |
| QuoteSearch.ChooseFirstVerified | contents/utils/anchoring.ts:124-125 | with one verified match, or without `start_pos`, the first verified match is chosen |
| QuoteSearch.ChooseClosest | contents/utils/anchoring.ts:125-129 | with two or more verified matches and a `start_pos`, the verified match nearest to it is chosen, the earliest on a tie |
| QuoteSearch.StartLeafFrom | contents/utils/anchoring.ts:132-135 | `findIndex` for the start node: the first node with `p <= start` whose successor starts after `start` (or that is last), or -1 |
| QuoteSearch.EndLeafFrom | contents/utils/anchoring.ts:136-139 | `findIndex` for the end node: the first node with `p <= end` whose successor starts at or after `end` (or that is last), or -1 |
| QuoteSearch.LocateMatch | contents/utils/anchoring.ts:130-143 | the node lookup and offsets computed from the position index, as specified by `Locate` |
| QuoteSearch.LocateSucceeds | contents/utils/anchoring.ts:132-140 | for a non-empty match inside the text, both `findIndex` calls succeed, so the `null` return at line 140 is never taken |
| QuoteSearch.LocateBounds | contents/utils/anchoring.ts:141-143 | the range starts at the match and ends at match plus quote length, with the start offset inside its node and the end offset after the node's first character |
| QuoteSearch.RangeTextIsSlice | contents/utils/anchoring.ts:141-143 | the text a range covers is the slice of the joined text between its absolute boundaries |
| QuoteSearch.FindQuote | contents/utils/anchoring.ts:88-152 | findQuote equals its specification over the search root, which is the element the CSS path selects when there is one and the given root otherwise |
| QuoteSearch.FindQuoteSpan | contents/utils/anchoring.ts:116-143 | whenever the quote occurs, a range is returned, and its boundaries are the chosen occurrence and its end |
| QuoteSearch.FindQuoteRoundTrip | contents/utils/anchoring.ts:88-152 | a returned range spans the chosen occurrence, its offsets lie inside their nodes, and its text is exactly the quote |
| QuoteSearch.FindQuoteNoneIff | contents/utils/anchoring.ts:116-140 | findQuote returns null exactly when the quote does not occur in the root's text |
| Anchoring.WalkIndex | contents/utils/anchoring.ts:13-17 | the reference node's index in the walk, -1 exactly when it is not a text node of the body |
| Anchoring.Context | contents/utils/anchoring.ts:6-40 | the context is never longer than the requested number of characters, and it is empty when the reference boundary is not in a text node of the body |
| Anchoring.GetContext | contents/utils/anchoring.ts:6-40 | getContext returns the last `-chars` characters before the range start, or the first `chars` after its end |
| Anchoring.PrefixContext | contents/utils/anchoring.ts:19-28 | the backward loop returns the last n characters of all body text before the boundary |
| Anchoring.PrefixWalkDone | contents/utils/anchoring.ts:23-28 | stopping once n characters are gathered, or at the first node, gives the same last n characters as all of the text before the boundary |
| Anchoring.SuffixContext | contents/utils/anchoring.ts:29-39 | the forward loop returns the first n characters of all body text after the boundary |
| Anchoring.SuffixWalkDone | contents/utils/anchoring.ts:33-38 | stopping once n characters are gathered, or at the last node, gives the same first n characters as all of the text after the boundary |
| Anchoring.TextAroundBoundary | contents/utils/anchoring.ts:20-30 | the text before and after a boundary are the joined body text split at its absolute position |
| Anchoring.PrefixEmptyAtStart | contents/utils/anchoring.ts:19-28 | a selection that starts at the very beginning of the text has an empty prefix |
| Anchoring.SuffixEmptyAtEnd | contents/utils/anchoring.ts:29-39 | a selection that ends at the very end of the text has an empty suffix |
| Anchoring.OffsetsStop | contents/utils/anchoring.ts:50-57 | the walk stops at the end container only when it is a body text node that is not also the start container |
| Anchoring.ComputeOffsets | contents/utils/anchoring.ts:45-59 | the loop computes `Offsets`: `start_pos` adds every node before the stop, counting `startOffset` for the start node; `end_pos` is set only when the walk stops |
| Anchoring.OffsetsAcrossNodes | contents/utils/anchoring.ts:50-58 | for a range from node s to a later node e, `start_pos` is the absolute start plus the text between s and e, and `end_pos` is `start_pos` plus `endOffset` |
| Anchoring.OffsetsSameNode | contents/utils/anchoring.ts:50-58 | for a range inside one text node, `end_pos` is 0 and `start_pos` includes all of the text after that node |
| Anchoring.OffsetsEndOutside | contents/utils/anchoring.ts:50-58 | when the end container is not a body text node, `end_pos` is 0 |
| Anchoring.CssStop | contents/utils/anchoring.ts:68-73 | the upward walk stops at the first element that is the body or has an id |
| Anchoring.GetCssPath | contents/utils/anchoring.ts:64-83 | the loop builds the path segments from the start node upwards and joins them with " > " |
| Anchoring.PathSegmentsShape | contents/utils/anchoring.ts:68-82 | the path has one `:nth-child` segment (1-based) per element below the stop, outermost first, and is headed by `tag#id` when the walk stopped at an element with an id |
| Anchoring.CssPathShortCases | contents/utils/anchoring.ts:65-73 | a node that is neither a text node nor an element gives "", a start at the body gives "", and a start whose element has an id gives `tag#id` |
| Dom.TextLeavesSpell | contents/utils/anchoring.ts:9-12 | the text nodes a SHOW_TEXT walk visits, joined, are the body's text |
| Dom.SplitSpells | contents/utils/dom-utils.ts:13 | splitting the tree at a text position gives a left part holding the text before it and a right part holding the rest |
| Dom.CutSpells | contents/utils/dom-utils.ts:13-15 | cutting at two positions gives the text before, inside and after the range |
| Dom.WrapKeepsText | contents/utils/dom-utils.ts:8-17 | wrapping a range in a marker, natively or by the fallback, keeps the page text |
| Dom.WrapPlacesMarker | contents/utils/dom-utils.ts:8-17 | after wrapping there is a marker with the given attributes at the wrap path, whose text is exactly the range's text at the range's position |
| Dom.WrapThenUnwrap | contents/utils/dom-utils.ts:8-17 | unwrapping the marker a wrap placed restores the page text |
| Dom.UnwrapKeepsText | contents/utils/storage.ts:47 | replacing an element by its children keeps the page text |
| Dom.AppendChildPlaces | contents/utils/dom-utils.ts:51 | appending the icon makes it the last child of the element and changes no other node on the path |
| Dom.AppendChildText | contents/utils/dom-utils.ts:51 | appending a child inserts its text right after the element's text and nowhere else |
| Dom.Truncate | contents/utils/dom-utils.ts:39-40 | a note longer than 200 characters is cut to its first 200 plus "..." (203 characters); shorter notes are shown whole |
| Dom.FindMarkerFound | contents/utils/dom-utils.ts:71-73 | a found path leads to a `.hn-highlight` element with the `data-id` |
| Dom.FindMarkerNone | contents/utils/dom-utils.ts:71-77 | when nothing is found, no node on any path is a marker with the `data-id` |
| Dom.AttachHoverSound | contents/utils/highlight-operations.ts:96-107 | attaching keeps the text, leaves every marker flagged, and keeps each element at one listener if flagged and none otherwise |
| Dom.AttachHoverIdempotent | contents/utils/highlight-operations.ts:101-103 | attaching twice is attaching once: no duplicate listeners |
| Dom.SplitKeepsHoverOk | contents/utils/dom-utils.ts:13 | the clones that splitting creates have no flag and no listener, so the listener bookkeeping still holds |
| Dom.WrapKeepsHoverOk | contents/utils/dom-utils.ts:8-17 | wrapping keeps the listener bookkeeping; the new marker has no listener yet |
| Dom.UnwrapKeepsHoverOk | contents/utils/storage.ts:47 | unwrapping keeps the listener bookkeeping of the remaining nodes |
| Dom.AppendChildKeepsHoverOk | contents/utils/dom-utils.ts:51 | appending the icon keeps the listener bookkeeping |
| Dom.Document.WrapRangeInElement | contents/utils/dom-utils.ts:8-17 | the body becomes the wrap of the range; `fallback` is set exactly when a boundary lies inside an element child of the common ancestor, which `surroundContents` refuses |
| Dom.WrapSplitsElementAtEdge | contents/utils/dom-utils.ts:10-15 | a quote ending at the end of a bold word's text makes `surroundContents` throw; the fallback puts a clone of the bold element in the marker and leaves the emptied original after it |
| Dom.Document.AddNoteIcon | contents/utils/dom-utils.ts:22-53 | the note icon is appended as the last child of the marker |
| Dom.Document.ScrollToHighlightById | contents/utils/dom-utils.ts:70-88 | scrolls to the first marker with the id in document order; without one nothing changes |
| Dom.Document.ReplaceWithChildren | contents/utils/storage.ts:47 | the element is replaced by its children |
| Storage.SavedAppends | contents/utils/storage.ts:8-16 | saving appends the anchor after the URL's earlier ones, with no duplicate check, and keeps other fields and other URLs |
| Storage.SavedFails | contents/utils/storage.ts:10-13 | a stored record without a `highlights` array makes `push` throw, and nothing is written |
| Storage.IndexOfIdFirst | contents/utils/storage.ts:29 | `findIndex` returns the first index with the id, or -1 exactly when no anchor has it |
| Storage.UpdatedOnlyFirst | contents/utils/storage.ts:21-39 | only the first anchor with the id is merged with the update; length, order, the other anchors, the other fields and the other URLs are unchanged; without an array or without the id nothing changes |
| Storage.MergeFields | contents/utils/storage.ts:32 | fields present in the update win and absent ones are kept; an empty update changes nothing |
| Storage.WithoutIdExact | contents/utils/storage.ts:51 | the filter keeps exactly the anchors with another id |
| Storage.WithoutIdAppend | contents/utils/storage.ts:51 | the filter keeps the relative order of the kept anchors |
| Storage.WithoutIdIdempotent | contents/utils/storage.ts:51 | filtering twice is filtering once |
| Storage.DeletedSound | contents/utils/storage.ts:49-52 | deleting removes every anchor with the id and nothing else, keeps the record's other fields and the other URLs, and is idempotent |
| Storage.LocalStore.SaveHighlight | contents/utils/storage.ts:8-16 | the store becomes `Saved`; `ok` is false exactly when the push throws |
| Storage.LocalStore.UpdateHighlightInStorage | contents/utils/storage.ts:21-39 | the store becomes `Updated` |
| Storage.DeleteHighlight | contents/utils/storage.ts:44-54 | a marker without a non-empty `data-id` changes nothing; otherwise the marker is unwrapped and the store becomes `Deleted` |
| HighlightOperations.CreateHighlight | contents/utils/highlight-operations.ts:14-62 | the anchor holds the context, offsets and path read before the page changes; the selection is wrapped in the marker; the store becomes `Saved`; listeners are attached only when the save went through |
| HighlightOperations.CreatedMarker | contents/utils/highlight-operations.ts:41-48 | the created marker holds exactly the selected text, and its `data-id` and `data-color` equal the anchor's; it has `data-note` exactly when the note is non-empty |
| HighlightOperations.CreatedContext | contents/utils/highlight-operations.ts:22-23 | the prefix is the last 30 characters of the page text before the selection and the suffix the first 30 after it; both are empty when the boundary is in an element |
| HighlightOperations.ApplyMarkerLacksColor | contents/utils/highlight-operations.ts:84-88 | the re-applied marker has the created marker's attributes except `data-color` |
| HighlightOperations.ApplyAtOccurs | contents/utils/anchoring.ts:116-129 | a re-apply position is an occurrence of the quote, and there is none exactly when the quote does not occur |
| HighlightOperations.LeafSpanIsTextSpan | contents/utils/highlight-operations.ts:75 | searching the body's text nodes gives the same span as searching their joined text, however the text is split into nodes |
| HighlightOperations.ApplyAtFirst | contents/utils/highlight-operations.ts:75 | without `start_pos`, the first verified match is wrapped, or the first occurrence when none is verified |
| HighlightOperations.ApplyHighlight | contents/utils/highlight-operations.ts:67-91 | the body becomes `Applied`: unchanged under the deletion guard or when the quote is not found, otherwise the found range wrapped in the marker |
| HighlightOperations.AppliedAt | contents/utils/highlight-operations.ts:75-89 | a re-apply that chooses position `c` finds an occurrence of the quote there and wraps exactly that extent of the page text |
| HighlightOperations.WrapQuote | contents/utils/highlight-operations.ts:75-89 | wrapping an occurrence of the quote places a marker holding exactly the quote at that occurrence, and keeps the page text |
| HighlightOperations.AppliedNoOp | contents/utils/highlight-operations.ts:68-83 | under the deletion guard, or when the quote does not occur, the page is left alone |
| HighlightOperations.ReapplyWrapsAgain | contents/utils/highlight-operations.ts:75-89 | re-applying to a page where the marker is already present finds the same occurrence and wraps it again |
| HighlightOperations.AttachHighlightHoverHandlers | contents/utils/highlight-operations.ts:96-107 | the body becomes `AttachHover` of the old body |
| HighlightOperations.NotePreview | contents/utils/highlight-operations.ts:110-121 | a preview is shown exactly for a marker with a non-empty `data-note`; it is the note, cut to 200 characters plus "..." when longer |
| HighlightOperations.EmptyNoteNotShown | contents/utils/highlight-operations.ts:46 | a created highlight with an empty note gets no `data-note` attribute, so clicking it shows nothing |
| Observers.CheckCalm | contents/utils/observers.ts:26-47 | checkCalm resolves as calm when `calmDuration` has passed since the last mutation, else on reaching `maxWait` since the start, else re-polls 100 ms later; on resolution it disconnects with no check pending |
| Observers.CalmStepsKeepInv | contents/utils/observers.ts:22-56 | while waiting, exactly one check is pending and the observer is connected; once resolved, neither holds |
| Observers.CalmResolvedIsFinal | contents/utils/observers.ts:29-43 | after resolution no event changes the waiter |
| Observers.CalmPostponed | contents/utils/observers.ts:39-53 | while each mutation pushes the pending check back before it comes due, the waiter never resolves, however long past `maxWait` |
| Observers.CalmWhenQuiet | contents/utils/observers.ts:27-37 | a check that runs `calmDuration` after the last mutation resolves as calm |
| Observers.CalmWaiter.Tick | contents/utils/observers.ts:26-47 | the waiter steps by `CalmTick` and keeps its invariant |
| Observers.CalmWaiter.OnMutation | contents/utils/observers.ts:49-53 | the waiter steps by `CalmMutation` and keeps its invariant |
| Observers.ApplyAllHighlights | contents/utils/observers.ts:63-72 | the loop re-applies the anchors one by one in collection order: the body becomes `ApplyAll` |
| Observers.AppliedKeepsText | contents/utils/highlight-operations.ts:67-91 | re-applying one anchor keeps the page text |
| Observers.ApplyAllKeepsText | contents/utils/observers.ts:63-72 | a whole pass keeps the page text |
| Observers.ApplyAllAppend | contents/utils/observers.ts:64-71 | the pass is sequential: applying `xs + ys` is applying `xs` and then `ys` to the result |
| Observers.ApplyAllWhileDeleting | contents/utils/observers.ts:63-72 | under the deletion guard a pass changes nothing |
| Observers.ObserveBatch | contents/utils/observers.ts:89-94 | a batch with a childList record replaces the pending timer with one due 500 ms later; other batches change nothing |
| Observers.ObserveTick | contents/utils/observers.ts:94-98 | a due timer is consumed, also when the throttle turns its check away, and nothing reschedules it; the check records the time only when at least 1000 ms have passed since the last check; a timer not yet due changes nothing |
| Observers.ThrottleSpacing | contents/utils/observers.ts:87-98 | in any run, consecutive accepted checks are at least 1000 ms apart, and the first is at least 1000 ms after the starting check time |
| Observers.ReconciledKeepsText | contents/utils/observers.ts:100-113 | an accepted check keeps the page text, and leaves the page alone when there are at least as many markers as anchors |
| Observers.DomObserver.OnMutations | contents/utils/observers.ts:89-115 | a connected observer steps by `ObserveBatch`; a disconnected one is not called |
| Observers.DomObserver.Disconnect | contents/utils/observers.ts:121-126 | unloading disconnects the observer but leaves a pending timer in place |
| Observers.DomObserver.Fire | contents/utils/observers.ts:94-114 | the observer steps by `ObserveTick`; an accepted check re-applies all anchors and attaches listeners exactly when there are fewer markers than anchors |
| SyncQueue.Queue | lib/highlight-sync.ts:14-17 | a missing or non-array stored queue reads as empty |
| SyncQueue.BatchSize | lib/highlight-sync.ts:100 | the batch is the first `min(20, length)` ops |
| SyncQueue.StopAt | lib/highlight-sync.ts:102-117 | the run stops at the first delete whose remote call fails, or at the end of the batch |
| SyncQueue.RunStep | lib/highlight-sync.ts:79-113 | a success removes the front op; a failed save is re-appended and the front shifted off, so it moves to the back |
| SyncQueue.RunBatchFrom | lib/highlight-sync.ts:100-118 | from any step of a run that has not stopped, the run ends with the ops from the stopping point onwards, followed by the failed saves |
| SyncQueue.ProcessedClosedForm | lib/highlight-sync.ts:92-122 | after a run, the ops from the stopping point onwards are in place and in order at the front, the earlier successes are gone, and the earlier failed saves follow at the back in order |
| SyncQueue.FailedSavesAreSaves | lib/highlight-sync.ts:79-105 | only saves rotate, each an op from before the stopping point; with no failure nothing rotates |
| SyncQueue.AllSucceedDrainsBatch | lib/highlight-sync.ts:100-113 | when every call succeeds, exactly the first batch is removed from the front |
| SyncQueue.ProcessedBounds | lib/highlight-sync.ts:100-102 | at most 20 ops are attempted, never more than are queued, and a run shortens the queue by at most 20 |
| SyncQueue.FailedDeleteFirstKeepsQueue | lib/highlight-sync.ts:107-117 | a failing delete at the front stops the run after one attempt and leaves the queue as it was |
| SyncQueue.FailedSaveRotates | lib/highlight-sync.ts:79-113 | a lone failing save rotates back into the same one-op queue |
| SyncQueue.SyncStore.AddToSyncQueue | lib/highlight-sync.ts:23-27 | the op is appended after the queued ops |
| SyncQueue.SyncStore.UpsertHighlight | lib/highlight-sync.ts:51-84 | a failed upsert queues the save and returns the local copy; a success leaves the queue alone |
| SyncQueue.SyncStore.ProcessSyncQueue | lib/highlight-sync.ts:92-122 | with the flag set nothing changes; otherwise an empty queue is left as it was, a non-empty one becomes `Processed`, the number of attempts is `Attempts`, and the flag ends false |

## Left out

- The browser DOM is a value forest. Attributes other than those the
  highlighter sets, styles, layout and scrolling animation are not modelled.
- Dom.Document.WrapRangeInElement: a range is a pair of text positions.
  Each boundary is placed in a text leaf as findQuote places it: the start
  in the first leaf that extends past it (possibly at offset 0), the end in
  the first leaf that reaches it (possibly at the leaf's full length). A
  selection whose boundary sits elsewhere, such as in an element container
  or at the end of the previous leaf, is wrapped as if it sat there.
- `surroundContents` and `extractContents` are modelled by their effect on
  the text and on the tree. Every node holding a boundary is split in two.
  A partially selected element is cloned: the clone goes into the marker
  without flag or listeners, and the original stays outside, emptied of the
  selected part. Text nodes are split, which can leave an empty text node.
- `.hn-highlight` is matched by the exact `class` attribute. The markers the
  highlighter creates carry only that class.
- Strings are sequences of characters. UTF-16 code units and surrogate pairs
  are not modelled.
- The toolbars in contents/utils/toolbars.ts, `flashHighlight`, `alert`,
  console logging and the click handler's DOM lookup are not part of this
  model. The note shown on click is `HighlightOperations.NotePreview`.
- `isDeletingNow` is imported from contents/utils/observers.ts, which does
  not define it. It is a boolean parameter, read once per pass.
- QuoteSearch.SearchRoot: the `css_path` lookup is an oracle that returns
  an element or nothing. getCssPath writes `tag#id` without escaping the id,
  so an id such as "1a" makes `querySelector` throw; that exception is not
  modelled. No caller of findQuote passes a `css_path`.
- QuoteSearch.FindQuote requires a non-empty quote, because with an empty
  quote the `indexOf` loop of findQuote never ends. For the same reason so do
  HighlightOperations.ApplyHighlight, Observers.ApplyAllHighlights and
  Observers.DomObserver (its anchors).
- Timers and the clock are the `now` parameter and due times. The two
  `Date.now()` readings at the start of waitForPageCalm are taken as one.
- `observeDomChanges` keeps its observer in a global. A second call
  overwrites the reference without disconnecting the first observer; the
  model has one `Observers.DomObserver` per call and does not model that leak.
- Supabase calls are an outcome oracle. `listHighlightsForUrl` and the body
  of `deleteHighlightFromSupabase` are not modelled beyond their
  success or failure.
- SyncQueue.SyncStore.UpsertHighlight: returns the given highlight on
  success as well. The row the backend returns is not modelled.
- The check-then-set of the processing flag spans awaits. Concurrent callers
  are not modelled: one caller at a time.
- `chrome.storage` failures and the interleaving of awaits are not modelled:
  each storage operation happens as one step.
- `Highlight` is imported from contents/utils/types.ts, which does not export
  it. The payload is a record with an id, a user id, a URL, the anchor fields
  and a position.
