/**
 * The reconciliation scheduler of the highlighter
 * (contents/utils/observers.ts): the "page calm" waiter used before the first
 * re-apply, the sequential re-apply of every saved anchor, and the mutation
 * observer that debounces, throttles and decides whether to re-apply.
 *
 * Time is an integer number of milliseconds passed in by the caller. A timer
 * is modelled by the time it is due; the event loop firing it is a `Tick`
 * (or `Fire`) call at some time `now`, which runs the callback when the timer
 * is due and does nothing otherwise. A mutation observer callback is a call
 * with the records it receives.
 */
module Observers {
  import opened Wrappers
  import opened Types
  import opened Dom
  import opened HighlightOperations

  /** The polling interval of the calm check, in milliseconds. */
  const CALM_POLL: nat := 100
  /** The debounce delay of the re-apply check, in milliseconds. */
  const DEBOUNCE: nat := 500

  // ---------------------------------------------------------------------
  // waitForPageCalm
  // ---------------------------------------------------------------------

  /** Why the waiter resolved: the page went quiet, or the ceiling was hit. */
  datatype CalmOutcome = Calm | MaxWaitReached

  /**
   * The closure state of waitForPageCalm: when it started, the last mutation
   * seen, the pending check (`calmTimer`, as the time it is due), whether the
   * observer is still connected, and how the promise resolved, if it has.
   */
  datatype CalmState = CalmState(
    start: int,
    lastMutation: int,
    pending: Option<int>,
    connected: bool,
    resolved: Option<CalmOutcome>)

  /** The state right after waitForPageCalm is called at `now`. */
  function CalmStart(now: int): CalmState {
    CalmState(now, now, Some(now + CALM_POLL), true, None)
  }

  /** The bookkeeping the waiter keeps: while it waits exactly one check is
      pending and the observer listens; once resolved, neither. */
  predicate CalmInv(s: CalmState) {
    (s.resolved.None? <==> s.connected)
    && (s.resolved.None? <==> s.pending.Some?)
  }

  /**
   * checkCalm run at `now`: resolves as calm when at least `calmDuration` has
   * passed since the last mutation; otherwise resolves because of the ceiling
   * when at least `maxWait` has passed since the start; otherwise schedules
   * itself 100 ms later. The calm test comes first.
   */
  function CheckCalm(s: CalmState, now: int, maxWait: int, calmDuration: int): (r: CalmState)
    ensures r.start == s.start && r.lastMutation == s.lastMutation
    ensures s.resolved.None? ==>
              (r.resolved.Some? <==> now - s.lastMutation >= calmDuration || now - s.start >= maxWait)
              && (r.resolved == Some(Calm) <==> now - s.lastMutation >= calmDuration)
              && (r.resolved.Some? ==> !r.connected && r.pending.None?)
              && (r.resolved.None? ==> r.connected == s.connected && r.pending == Some(now + CALM_POLL))
  {
    if now - s.lastMutation >= calmDuration then
      s.(connected := false, pending := None, resolved := Some(Calm))
    else if now - s.start >= maxWait then
      s.(connected := false, pending := None, resolved := Some(MaxWaitReached))
    else
      s.(pending := Some(now + CALM_POLL))
  }

  /** The event loop at `now`: runs the pending check if it is due. */
  function CalmTick(s: CalmState, now: int, maxWait: int, calmDuration: int): CalmState {
    if s.pending.Some? && s.pending.value <= now then
      CheckCalm(s.(pending := None), now, maxWait, calmDuration)
    else s
  }

  /** The observer callback at `now`: records the mutation time and replaces
      the pending check with one 100 ms later. A disconnected observer is not
      called. */
  function CalmMutation(s: CalmState, now: int): CalmState {
    if s.connected then s.(lastMutation := now, pending := Some(now + CALM_POLL)) else s
  }

  /** Both steps keep the waiter's bookkeeping. */
  lemma CalmStepsKeepInv(s: CalmState, now: int, maxWait: int, calmDuration: int)
    requires CalmInv(s)
    ensures CalmInv(CalmTick(s, now, maxWait, calmDuration))
    ensures CalmInv(CalmMutation(s, now))
    ensures CalmInv(CalmStart(now))
  {
  }

  /** What can happen to a waiter: a mutation or the event loop at a time. */
  datatype CalmEvent = Mutation(at: int) | Tick(at: int)

  /** The waiter after a sequence of events. */
  function RunCalm(s: CalmState, evs: seq<CalmEvent>, maxWait: int, calmDuration: int): CalmState
    decreases |evs|
  {
    if evs == [] then s
    else
      var s' := match evs[0]
        case Mutation(t) => CalmMutation(s, t)
        case Tick(t) => CalmTick(s, t, maxWait, calmDuration);
      RunCalm(s', evs[1..], maxWait, calmDuration)
  }

  /** Once resolved, the observer is disconnected and nothing changes the
      state any more. */
  lemma {:induction false} CalmResolvedIsFinal(s: CalmState, evs: seq<CalmEvent>, maxWait: int, calmDuration: int)
    requires CalmInv(s) && s.resolved.Some?
    ensures RunCalm(s, evs, maxWait, calmDuration) == s
    decreases |evs|
  {
    if evs != [] {
      CalmResolvedIsFinal(s, evs[1..], maxWait, calmDuration);
    }
  }

  /** The event loop runs before the pending check is due, where the due time
      moves to 100 ms after each mutation. */
  predicate EarlyTicks(due: int, evs: seq<CalmEvent>)
    decreases |evs|
  {
    evs != [] ==>
      match evs[0]
      case Mutation(t) => EarlyTicks(t + CALM_POLL, evs[1..])
      case Tick(t) => t < due && EarlyTicks(due, evs[1..])
  }

  /**
   * The ceiling is only looked at inside the check: while every check comes
   * due only after a new mutation has pushed it back (mutations less than
   * 100 ms apart), the waiter never resolves, however long past `maxWait`.
   */
  lemma {:induction false} CalmPostponed(s: CalmState, evs: seq<CalmEvent>, maxWait: int, calmDuration: int)
    requires CalmInv(s) && s.resolved.None?
    requires EarlyTicks(s.pending.value, evs)
    ensures var r := RunCalm(s, evs, maxWait, calmDuration);
            CalmInv(r) && r.resolved.None? && r.start == s.start
    decreases |evs|
  {
    if evs != [] {
      match evs[0]
      case Mutation(t) => CalmPostponed(CalmMutation(s, t), evs[1..], maxWait, calmDuration);
      case Tick(t) => CalmPostponed(s, evs[1..], maxWait, calmDuration);
    }
  }

  /** Without mutations, a check that runs `calmDuration` after the last
      mutation always resolves, and as calm. */
  lemma CalmWhenQuiet(s: CalmState, now: int, maxWait: int, calmDuration: int)
    requires CalmInv(s) && s.resolved.None? && s.pending.value <= now
    requires now - s.lastMutation >= calmDuration
    ensures CalmTick(s, now, maxWait, calmDuration).resolved == Some(Calm)
  {
  }

  /** The waiter of one waitForPageCalm call. */
  class CalmWaiter {
    const maxWait: int
    const calmDuration: int
    var startTime: int
    var lastMutationTime: int
    var calmTimer: Option<int>
    var connected: bool
    var resolved: Option<CalmOutcome>

    function State(): CalmState
      reads this
    {
      CalmState(startTime, lastMutationTime, calmTimer, connected, resolved)
    }

    predicate Valid()
      reads this
    {
      CalmInv(State())
    }

    /** waitForPageCalm(maxWait, calmDuration) called at `now`. The two
        `Date.now()` readings of the source are taken to be the same. */
    constructor(now: int, maxWait: int, calmDuration: int)
      ensures Valid() && State() == CalmStart(now)
      ensures this.maxWait == maxWait && this.calmDuration == calmDuration
    {
      this.maxWait := maxWait;
      this.calmDuration := calmDuration;
      startTime := now;
      lastMutationTime := now;
      calmTimer := Some(now + CALM_POLL);
      connected := true;
      resolved := None;
    }

    /** The event loop at `now`: fires checkCalm if its timer is due. */
    method Tick(now: int)
      requires Valid()
      modifies this
      ensures Valid() && State() == CalmTick(old(State()), now, maxWait, calmDuration)
    {
      if calmTimer.None? || calmTimer.value > now {
        return;
      }
      calmTimer := None;
      var elapsed := now - lastMutationTime;
      if elapsed >= calmDuration {
        connected := false;
        resolved := Some(Calm);
        return;
      }
      if now - startTime >= maxWait {
        connected := false;
        resolved := Some(MaxWaitReached);
        return;
      }
      calmTimer := Some(now + CALM_POLL);
    }

    /** The mutation observer's callback at `now`. */
    method OnMutation(now: int)
      requires Valid()
      modifies this
      ensures Valid() && State() == CalmMutation(old(State()), now)
    {
      if !connected {
        return;
      }
      lastMutationTime := now;
      calmTimer := Some(now + CALM_POLL);
    }
  }

  // ---------------------------------------------------------------------
  // applyAllHighlights
  // ---------------------------------------------------------------------

  /** Anchors the resolver can search for. */
  predicate Searchable(hs: seq<Anchor>) {
    forall k :: 0 <= k < |hs| ==> |hs[k].quote| > 0
  }

  /** The body after re-applying the anchors one by one, in collection order,
      each against the body the earlier ones left. */
  function ApplyAll(body: seq<Node>, hs: seq<Anchor>, deleting: bool): seq<Node>
    requires Searchable(hs)
    decreases |hs|
  {
    if hs == [] then body else ApplyAll(Applied(body, hs[0], deleting), hs[1..], deleting)
  }

  /** applyAllHighlights. The deletion guard is read once per anchor; it is
      modelled as one value for the whole pass. */
  method ApplyAllHighlights(doc: Document, hs: seq<Anchor>, deleting: bool)
    requires doc.Valid() && Searchable(hs)
    modifies doc
    ensures doc.Valid() && doc.scrolledTo == old(doc.scrolledTo)
    ensures doc.body == ApplyAll(old(doc.body), hs, deleting)
  {
    var i := 0;
    while i < |hs|
      invariant 0 <= i <= |hs|
      invariant doc.Valid() && doc.scrolledTo == old(doc.scrolledTo)
      invariant ApplyAll(doc.body, hs[i..], deleting) == ApplyAll(old(doc.body), hs, deleting)
    {
      assert hs[i..][1..] == hs[i + 1..];
      ApplyHighlight(doc, hs[i], deleting);
      i := i + 1;
    }
  }

  /** Re-applying one anchor keeps the page text. */
  lemma AppliedKeepsText(body: seq<Node>, anchor: Anchor, deleting: bool)
    requires |anchor.quote| > 0
    ensures FlatAll(Applied(body, anchor, deleting)) == FlatAll(body)
  {
    if !deleting {
      match LeafSpan(TextLeaves(body), anchor)
      case None =>
      case Some((a, b)) =>
        if 0 <= a <= b <= |FlatAll(body)| {
          WrapKeepsText(body, a, b, ApplyMarkerAttrs(anchor));
        }
    }
  }

  /** A whole pass keeps the page text. */
  lemma {:induction false} ApplyAllKeepsText(body: seq<Node>, hs: seq<Anchor>, deleting: bool)
    requires Searchable(hs)
    ensures FlatAll(ApplyAll(body, hs, deleting)) == FlatAll(body)
    decreases |hs|
  {
    if hs != [] {
      AppliedKeepsText(body, hs[0], deleting);
      ApplyAllKeepsText(Applied(body, hs[0], deleting), hs[1..], deleting);
    }
  }

  /** The pass is sequential: applying `xs + ys` is applying `xs`, then `ys`
      to the result. */
  lemma {:induction false} ApplyAllAppend(body: seq<Node>, xs: seq<Anchor>, ys: seq<Anchor>, deleting: bool)
    requires Searchable(xs) && Searchable(ys)
    ensures Searchable(xs + ys)
    ensures ApplyAll(body, xs + ys, deleting) == ApplyAll(ApplyAll(body, xs, deleting), ys, deleting)
    decreases |xs|
  {
    if xs == [] {
      assert xs + ys == ys;
    } else {
      assert (xs + ys)[1..] == xs[1..] + ys;
      ApplyAllAppend(Applied(body, xs[0], deleting), xs[1..], ys, deleting);
    }
  }

  /** With the deletion guard on, a pass changes nothing. */
  lemma {:induction false} ApplyAllWhileDeleting(body: seq<Node>, hs: seq<Anchor>)
    requires Searchable(hs)
    ensures ApplyAll(body, hs, true) == body
    decreases |hs|
  {
    if hs != [] {
      ApplyAllWhileDeleting(body, hs[1..]);
    }
  }

  // ---------------------------------------------------------------------
  // observeDomChanges
  // ---------------------------------------------------------------------

  /** The `type` of a mutation record. */
  datatype MutationType = ChildList | Attributes | CharacterData

  /** `document.querySelectorAll(".hn-highlight").length`. */
  function CountMarkers(ns: seq<Node>): (n: nat)
    decreases ns
  {
    if ns == [] then 0
    else
      (match ns[0]
       case Text(_) => 0
       case Element(_, _, _, _, cs) => (if IsMarker(ns[0]) then 1 else 0) + CountMarkers(cs))
      + CountMarkers(ns[1..])
  }

  /** The closure state of observeDomChanges: the pending debounce timer
      (`reapplyTimeout`, as the time it is due) and the time of the last
      accepted check. */
  datatype ObserverState = ObserverState(reapplyDue: Option<int>, lastCheckTime: int)

  /** The observer callback: a batch with a childList record replaces any
      pending timer with one 500 ms later; any other batch is ignored. */
  function ObserveBatch(s: ObserverState, records: seq<MutationType>, now: int): (r: ObserverState)
    ensures r.lastCheckTime == s.lastCheckTime
    ensures (ChildList in records) ==> r.reapplyDue == Some(now + DEBOUNCE)
    ensures !(ChildList in records) ==> r == s
  {
    if ChildList in records then s.(reapplyDue := Some(now + DEBOUNCE)) else s
  }

  /** The debounce timer fires at `now` and the throttle lets the check run. */
  predicate Accepts(s: ObserverState, now: int) {
    s.reapplyDue.Some? && s.reapplyDue.value <= now && now - s.lastCheckTime >= THROTTLE_INTERVAL
  }

  /** The event loop at `now`: a due timer fires and is gone, even when the
      throttle turns its check away (nothing reschedules it); the check
      records the time only when the throttle lets it through; a timer not
      yet due leaves the state as it is. */
  function ObserveTick(s: ObserverState, now: int): (r: ObserverState)
    ensures Accepts(s, now) ==> r == ObserverState(None, now)
    ensures !Accepts(s, now) ==> r.lastCheckTime == s.lastCheckTime
    ensures s.reapplyDue.Some? && s.reapplyDue.value <= now ==> r.reapplyDue.None?
    ensures (s.reapplyDue.None? || s.reapplyDue.value > now) ==> r == s
  {
    if s.reapplyDue.None? || s.reapplyDue.value > now then s
    else if now - s.lastCheckTime < THROTTLE_INTERVAL then s.(reapplyDue := None)
    else ObserverState(None, now)
  }

  /** What can happen to the observer: a batch of records, or the event loop. */
  datatype ObserverEvent = Batch(records: seq<MutationType>, at: int) | Loop(at: int)

  /** The times of the checks that ran, in order, over a sequence of events. */
  function AcceptedTimes(s: ObserverState, evs: seq<ObserverEvent>): seq<int>
    decreases |evs|
  {
    if evs == [] then []
    else
      match evs[0]
      case Batch(rs, t) => AcceptedTimes(ObserveBatch(s, rs, t), evs[1..])
      case Loop(t) =>
        (if Accepts(s, t) then [t] else []) + AcceptedTimes(ObserveTick(s, t), evs[1..])
  }

  /** Every check that runs is at least THROTTLE_INTERVAL after the previous
      one (and after the starting `lastCheckTime`), whatever the order of the
      clock readings. */
  lemma {:induction false} ThrottleSpacing(s: ObserverState, evs: seq<ObserverEvent>)
    ensures var ts := AcceptedTimes(s, evs);
            (ts != [] ==> ts[0] - s.lastCheckTime >= THROTTLE_INTERVAL)
            && forall k :: 0 <= k < |ts| - 1 ==> ts[k + 1] - ts[k] >= THROTTLE_INTERVAL
    decreases |evs|
  {
    if evs != [] {
      match evs[0]
      case Batch(rs, t) => ThrottleSpacing(ObserveBatch(s, rs, t), evs[1..]);
      case Loop(t) =>
        var s' := ObserveTick(s, t);
        ThrottleSpacing(s', evs[1..]);
        var rest := AcceptedTimes(s', evs[1..]);
        if Accepts(s, t) {
          assert AcceptedTimes(s, evs) == [t] + rest;
        }
    }
  }

  /** The body after an accepted check: all anchors are re-applied, and hover
      listeners attached, only when fewer markers are on the page than
      anchors were captured. */
  function Reconciled(body: seq<Node>, hs: seq<Anchor>, deleting: bool): seq<Node>
    requires Searchable(hs)
  {
    if CountMarkers(body) < |hs| then AttachHover(ApplyAll(body, hs, deleting)) else body
  }

  /** An accepted check keeps the page text, and leaves a page with as many
      markers as anchors alone. */
  lemma ReconciledKeepsText(body: seq<Node>, hs: seq<Anchor>, deleting: bool)
    requires Searchable(hs)
    ensures FlatAll(Reconciled(body, hs, deleting)) == FlatAll(body)
    ensures CountMarkers(body) >= |hs| ==> Reconciled(body, hs, deleting) == body
  {
    ApplyAllKeepsText(body, hs, deleting);
    AttachHoverSound(ApplyAll(body, hs, deleting));
  }

  /**
   * The observer of one observeDomChanges call, with the anchor array it
   * was given. `connected` is false once the page unloads.
   */
  class DomObserver {
    const highlights: seq<Anchor>
    var reapplyTimeout: Option<int>
    var lastCheckTime: int
    var connected: bool

    function State(): ObserverState
      reads this
    {
      ObserverState(reapplyTimeout, lastCheckTime)
    }

    constructor(highlights: seq<Anchor>)
      requires Searchable(highlights)
      ensures this.highlights == highlights && State() == ObserverState(None, 0) && connected
    {
      this.highlights := highlights;
      reapplyTimeout := None;
      lastCheckTime := 0;
      connected := true;
    }

    /** The mutation observer's callback; a disconnected observer is not
        called. */
    method OnMutations(records: seq<MutationType>, now: int)
      modifies this
      ensures connected == old(connected)
      ensures State() == if connected then ObserveBatch(old(State()), records, now) else old(State())
    {
      if !connected {
        return;
      }
      var childList := false;
      var k := 0;
      while k < |records|
        invariant 0 <= k <= |records|
        invariant childList <==> ChildList in records[..k]
      {
        assert records[..k + 1] == records[..k] + [records[k]];
        if records[k] == ChildList {
          childList := true;
        }
        k := k + 1;
      }
      assert records[..k] == records;
      if childList {
        reapplyTimeout := Some(now + DEBOUNCE);
      }
    }

    /** The `beforeunload` handler. The pending timer is not cleared. */
    method Disconnect()
      modifies this
      ensures !connected && State() == old(State())
    {
      connected := false;
    }

    /** The event loop at `now`: fires the debounced check if it is due. */
    method Fire(doc: Document, now: int, deleting: bool)
      requires doc.Valid() && Searchable(highlights)
      modifies this, doc
      ensures doc.Valid() && doc.scrolledTo == old(doc.scrolledTo)
      ensures connected == old(connected)
      ensures State() == ObserveTick(old(State()), now)
      ensures doc.body == if Accepts(old(State()), now) then Reconciled(old(doc.body), highlights, deleting)
                          else old(doc.body)
    {
      if reapplyTimeout.None? || reapplyTimeout.value > now {
        return;
      }
      reapplyTimeout := None;
      if now - lastCheckTime < THROTTLE_INTERVAL {
        return;
      }
      lastCheckTime := now;
      var currentCount := CountMarkers(doc.body);
      var expectedCount := |highlights|;
      if currentCount < expectedCount {
        ApplyAllHighlights(doc, highlights, deleting);
        AttachHighlightHoverHandlers(doc);
      }
    }
  }
}
