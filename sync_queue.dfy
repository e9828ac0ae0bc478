/**
 * The cloud retry queue (lib/highlight-sync.ts): saves and deletes that could
 * not reach the backend wait in a persisted FIFO, which a processor drains in
 * batches of at most 20, guarded by a persisted "processing" flag.
 *
 * The backend is an outcome oracle: `succeeds(k)` says whether the remote
 * call made for the k-th op of a run (counting from 0) succeeds.
 */
module SyncQueue {
  import opened Wrappers
  import opened Strings
  import opened Types

  /** The most ops one run attempts. */
  const SYNC_BATCH_SIZE: nat := 20

  /** The payload of a save: a highlight row with its id. */
  datatype Highlight = Highlight(id: string, userId: string, url: string, anchor: Anchor, position: int)

  datatype SyncOp = SaveOp(highlight: Highlight) | DeleteOp(id: string)

  /** What is stored under the queue key: nothing, an array, or some other
      value. */
  datatype StoredQueue = Missing | ArrayOf(ops: seq<SyncOp>) | NotAnArray

  /** getQueue: the stored array, or empty when there is no array. */
  function Queue(v: StoredQueue): (q: seq<SyncOp>)
    ensures v.ArrayOf? ==> q == v.ops
    ensures !v.ArrayOf? ==> q == []
  {
    if v.ArrayOf? then v.ops else []
  }

  /** `shift()` on an array: drops the first element, if any. */
  function Shift(q: seq<SyncOp>): (r: seq<SyncOp>)
    ensures q != [] ==> q == [q[0]] + r
    ensures q == [] ==> r == []
  {
    if q == [] then [] else q[1..]
  }

  // ---------------------------------------------------------------------
  // One run of processSyncQueue, step by step
  // ---------------------------------------------------------------------

  /**
   * The queue after the attempt on `op` with outcome `ok`, or None when the
   * run stops. A success shifts the front off; a failed save is re-appended
   * by upsertHighlight and then the front is shifted off; a failed delete
   * throws and stops the run with the queue as it is.
   */
  function AfterOp(q: seq<SyncOp>, op: SyncOp, ok: bool): Option<seq<SyncOp>> {
    if ok then Some(Shift(q))
    else if op.SaveOp? then Some(Shift(q + [op]))
    else None
  }

  /** The queue at the end of a run that has reached the `k`-th op of
      `batch` with queue `q`. */
  function RunBatch(q: seq<SyncOp>, batch: seq<SyncOp>, succeeds: nat -> bool, k: nat): seq<SyncOp>
    decreases |batch| - k
  {
    if k >= |batch| then q
    else
      match AfterOp(q, batch[k], succeeds(k))
      case None => q
      case Some(q') => RunBatch(q', batch, succeeds, k + 1)
  }

  /** The size of the batch a run over `q` takes. */
  function BatchSize(q: seq<SyncOp>): (n: nat)
    ensures n <= SYNC_BATCH_SIZE && n <= |q|
    ensures n == SYNC_BATCH_SIZE || n == |q|
  {
    Min(SYNC_BATCH_SIZE, |q|)
  }

  /** The queue a run leaves when it starts with `q`; an empty queue is left
      as it is. */
  function Processed(q: seq<SyncOp>, succeeds: nat -> bool): seq<SyncOp> {
    if q == [] then q else RunBatch(q, q[..BatchSize(q)], succeeds, 0)
  }

  // ---------------------------------------------------------------------
  // The same run in closed form
  // ---------------------------------------------------------------------

  /** Whether the op at `k` is a delete whose remote call fails. */
  predicate StopsRun(q: seq<SyncOp>, succeeds: nat -> bool, k: nat)
    requires k < |q|
  {
    q[k].DeleteOp? && !succeeds(k)
  }

  /** The first index in [k, n) whose op stops the run, or `n`. */
  function StopAt(q: seq<SyncOp>, succeeds: nat -> bool, n: nat, k: nat): (j: nat)
    requires k <= n <= |q|
    ensures k <= j <= n
    ensures j < n ==> StopsRun(q, succeeds, j)
    ensures forall i :: k <= i < j ==> !StopsRun(q, succeeds, i)
    decreases n - k
  {
    if k == n then n
    else if StopsRun(q, succeeds, k) then k
    else StopAt(q, succeeds, n, k + 1)
  }

  /** The saves among the first `k` ops whose remote call failed, in order. */
  function FailedSaves(q: seq<SyncOp>, succeeds: nat -> bool, k: nat): seq<SyncOp>
    requires k <= |q|
    decreases k
  {
    if k == 0 then []
    else FailedSaves(q, succeeds, k - 1) + (if succeeds(k - 1) then [] else [q[k - 1]])
  }

  /** Where a run over `q` stops: the first failed delete in the batch, or the
      end of the batch. */
  function Stop(q: seq<SyncOp>, succeeds: nat -> bool): nat
    requires q != []
  {
    StopAt(q, succeeds, BatchSize(q), 0)
  }

  /** How many ops a run attempts: up to and including the failed delete, or
      the whole batch. */
  function Attempts(q: seq<SyncOp>, succeeds: nat -> bool): nat {
    if q == [] then 0
    else if Stop(q, succeeds) < BatchSize(q) then Stop(q, succeeds) + 1
    else BatchSize(q)
  }

  /** One step of a run that has not stopped: the op at the front is the
      `k`-th of the batch, and after it the queue has the next ops at the
      front and one more failed save at the back if this save failed. */
  lemma RunStep(q: seq<SyncOp>, succeeds: nat -> bool, k: nat)
    requires k < |q| && !StopsRun(q, succeeds, k)
    ensures AfterOp(q[k..] + FailedSaves(q, succeeds, k), q[k], succeeds(k))
              == Some(q[k + 1..] + FailedSaves(q, succeeds, k + 1))
  {
    var cur := q[k..] + FailedSaves(q, succeeds, k);
    assert cur == [q[k]] + (q[k + 1..] + FailedSaves(q, succeeds, k));
    if succeeds(k) {
      assert FailedSaves(q, succeeds, k + 1) == FailedSaves(q, succeeds, k) + [];
      assert Shift(cur) == q[k + 1..] + FailedSaves(q, succeeds, k + 1);
    } else {
      assert cur + [q[k]] == [q[k]] + (q[k + 1..] + FailedSaves(q, succeeds, k + 1));
    }
  }

  /** From step `k` on, with the first `k` ops gone from the front and the
      failed saves among them at the back, the run ends with the ops from
      the stopping point on, followed by every failed save before it. */
  lemma {:induction false} RunBatchFrom(q: seq<SyncOp>, succeeds: nat -> bool, k: nat)
    requires q != [] && k <= BatchSize(q)
    requires forall i :: 0 <= i < k ==> !StopsRun(q, succeeds, i)
    ensures var n := BatchSize(q);
            var j := StopAt(q, succeeds, n, k);
            RunBatch(q[k..] + FailedSaves(q, succeeds, k), q[..n], succeeds, k)
              == q[j..] + FailedSaves(q, succeeds, j)
    decreases BatchSize(q) - k
  {
    var n := BatchSize(q);
    if k < n {
      assert q[..n][k] == q[k];
      if !StopsRun(q, succeeds, k) {
        RunStep(q, succeeds, k);
        RunBatchFrom(q, succeeds, k + 1);
      }
    }
  }

  /**
   * A run is FIFO with a cap and a stop: the ops from the stopping point on
   * stay in place and in order at the front, the ops before it that
   * succeeded are gone, and the saves before it that failed have rotated to
   * the back in their order.
   */
  lemma ProcessedClosedForm(q: seq<SyncOp>, succeeds: nat -> bool)
    requires q != []
    ensures Processed(q, succeeds) == q[Stop(q, succeeds)..] + FailedSaves(q, succeeds, Stop(q, succeeds))
  {
    assert q[0..] + FailedSaves(q, succeeds, 0) == q;
    RunBatchFrom(q, succeeds, 0);
  }

  /** The number of failed saves among the first `k` ops is the number of
      failures there when none of them is a delete that stops the run. */
  lemma {:induction false} FailedSavesAreSaves(q: seq<SyncOp>, succeeds: nat -> bool, k: nat)
    requires k <= |q|
    requires forall i :: 0 <= i < k ==> !StopsRun(q, succeeds, i)
    ensures |FailedSaves(q, succeeds, k)| <= k
    ensures forall op :: op in FailedSaves(q, succeeds, k) ==> op.SaveOp? && op in q[..k]
    ensures (forall i :: 0 <= i < k ==> succeeds(i)) ==> FailedSaves(q, succeeds, k) == []
    decreases k
  {
    if k > 0 {
      FailedSavesAreSaves(q, succeeds, k - 1);
      assert !StopsRun(q, succeeds, k - 1);
      assert q[..k] == q[..k - 1] + [q[k - 1]];
      forall op | op in FailedSaves(q, succeeds, k)
        ensures op.SaveOp? && op in q[..k]
      {
        if op in FailedSaves(q, succeeds, k - 1) {
          assert op in q[..k - 1];
        } else {
          assert op == q[k - 1];
        }
      }
    }
  }

  /** When every call succeeds, a run removes exactly the first batch from
      the front. */
  lemma AllSucceedDrainsBatch(q: seq<SyncOp>, succeeds: nat -> bool)
    requires q != []
    requires forall i :: 0 <= i < BatchSize(q) ==> succeeds(i)
    ensures Processed(q, succeeds) == q[BatchSize(q)..]
  {
    ProcessedClosedForm(q, succeeds);
    FailedSavesAreSaves(q, succeeds, Stop(q, succeeds));
  }

  /** A run never shrinks the queue by more than the batch, and the ops it
      attempts are at most 20, taken from the front. */
  lemma ProcessedBounds(q: seq<SyncOp>, succeeds: nat -> bool)
    ensures Attempts(q, succeeds) <= SYNC_BATCH_SIZE && Attempts(q, succeeds) <= |q|
    ensures |q| - SYNC_BATCH_SIZE <= |Processed(q, succeeds)| <= |q|
  {
    if q != [] {
      ProcessedClosedForm(q, succeeds);
      FailedSavesAreSaves(q, succeeds, Stop(q, succeeds));
    }
  }

  /** A failed delete at the front leaves the queue exactly as it was. */
  lemma FailedDeleteFirstKeepsQueue(q: seq<SyncOp>, succeeds: nat -> bool)
    requires q != [] && q[0].DeleteOp? && !succeeds(0)
    ensures Processed(q, succeeds) == q && Attempts(q, succeeds) == 1
  {
    assert StopsRun(q, succeeds, 0);
    ProcessedClosedForm(q, succeeds);
  }

  /** A failed save at the front of a one-op queue rotates back into the same
      queue. */
  lemma FailedSaveRotates(h: Highlight, succeeds: nat -> bool)
    requires !succeeds(0)
    ensures Processed([SaveOp(h)], succeeds) == [SaveOp(h)]
  {
    var q := [SaveOp(h)];
    ProcessedClosedForm(q, succeeds);
    assert Stop(q, succeeds) == 1;
  }

  // ---------------------------------------------------------------------
  // The persisted queue
  // ---------------------------------------------------------------------

  /** The two keys the retry queue keeps in `chrome.storage.local`. The flag
      is kept as its truth value. */
  class SyncStore {
    var queue: StoredQueue
    var processing: bool

    constructor(queue: StoredQueue, processing: bool)
      ensures this.queue == queue && this.processing == processing
    {
      this.queue := queue;
      this.processing := processing;
    }

    /** addToSyncQueue: appends `op` after the ops already queued. */
    method AddToSyncQueue(op: SyncOp)
      modifies this
      ensures queue == ArrayOf(Queue(old(queue)) + [op])
      ensures processing == old(processing)
    {
      var q := Queue(queue);
      queue := ArrayOf(q + [op]);
    }

    /** upsertHighlight with the outcome `ok` of the remote call. A failure
        is swallowed: the save is queued and the local copy returned. */
    method UpsertHighlight(h: Highlight, ok: bool) returns (r: Highlight)
      modifies this
      ensures r == h
      ensures queue == if ok then old(queue) else ArrayOf(Queue(old(queue)) + [SaveOp(h)])
      ensures processing == old(processing)
    {
      if !ok {
        AddToSyncQueue(SaveOp(h));
      }
      r := h;
    }

    /** processSyncQueue; `attempted` is the number of ops tried. */
    method ProcessSyncQueue(succeeds: nat -> bool) returns (attempted: nat)
      modifies this
      ensures old(processing) ==> processing && queue == old(queue) && attempted == 0
      ensures !old(processing) ==>
                !processing
                && attempted == Attempts(Queue(old(queue)), succeeds)
                && queue == if Queue(old(queue)) == [] then old(queue)
                            else ArrayOf(Processed(Queue(old(queue)), succeeds))
    {
      if processing {
        return 0;
      }
      processing := true;
      var q := Queue(queue);
      if |q| == 0 {
        processing := false;
        return 0;
      }
      var n := BatchSize(q);
      var batch := q[..n];
      var i := 0;
      attempted := 0;
      while i < |batch|
        invariant 0 <= i <= n && attempted == i
        invariant StopAt(q, succeeds, n, 0) == StopAt(q, succeeds, n, i)
        invariant forall j :: 0 <= j < i ==> !StopsRun(q, succeeds, j)
        invariant queue == ArrayOf(q[i..] + FailedSaves(q, succeeds, i))
        invariant processing
      {
        var op := batch[i];
        assert op == q[i];
        attempted := attempted + 1;
        if op.DeleteOp? && !succeeds(i) {
          assert StopsRun(q, succeeds, i);
          break;
        }
        RunStep(q, succeeds, i);
        if op.SaveOp? {
          var _ := UpsertHighlight(op.highlight, succeeds(i));
        }
        var current := Queue(queue);
        queue := ArrayOf(Shift(current));
        i := i + 1;
      }
      ProcessedClosedForm(q, succeeds);
      processing := false;
    }
  }
}
