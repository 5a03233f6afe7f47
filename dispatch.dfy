/** `check_reminders`: one tick of the job queue. It reads the due rows,
    sends each one and deletes it once the send has returned. A send that
    raises ends the tick: that row and the ones after it stay stored. */
module Dispatch {
  import opened Timestamp
  import opened Store

  /** What a tick does, in order: a send of a row's message (whether it
      returned or raised), and the deletion of a row. */
  datatype Event = Attempt(row: DueRow, ok: bool) | Removed(id: int)

  /** The events of the loop from position `i` of `batch` on, when the send
      at position `k` returns exactly if `ack(k)`. */
  function Trace(batch: seq<DueRow>, ack: nat -> bool, i: nat): seq<Event>
    requires i <= |batch|
    decreases |batch| - i
  {
    if i == |batch| then []
    else if ack(i) then [Attempt(batch[i], true), Removed(batch[i].id)] + Trace(batch, ack, i + 1)
    else [Attempt(batch[i], false)]
  }

  /** Where the first failing send is, from `i` on, or `n` if none fails. */
  function Delivered(ack: nat -> bool, n: nat, i: nat): (d: nat)
    requires i <= n
    ensures i <= d <= n
    ensures forall k :: i <= k < d ==> ack(k)
    ensures d < n ==> !ack(d)
    decreases n - i
  {
    if i == n || !ack(i) then i else Delivered(ack, n, i + 1)
  }

  /** A send that returns moves the first failure no earlier. */
  lemma DeliveredStep(ack: nat -> bool, n: nat, i: nat)
    requires i < n && i <= Delivered(ack, n, 0) && ack(i)
    ensures i + 1 <= Delivered(ack, n, 0)
  {
  }

  /** A send that raises is the first failure. */
  lemma DeliveredStop(ack: nat -> bool, n: nat, i: nat)
    requires i < n && i <= Delivered(ack, n, 0) && !ack(i)
    ensures Delivered(ack, n, 0) == i
  {
  }

  /** One delivered row extends the log by its send and its deletion. */
  lemma TraceStep(log: seq<Event>, batch: seq<DueRow>, ack: nat -> bool, i: nat)
    requires i < |batch| && ack(i)
    ensures log + Trace(batch, ack, i) == (log + [Attempt(batch[i], true), Removed(batch[i].id)]) + Trace(batch, ack, i + 1)
  {
  }

  /** One run of `check_reminders` at the instant `now`. `batch` is what
      `get_due_reminders` returned, `log` what the loop did, and `raised`
      whether a send raised and so ended the tick early. */
  method CheckReminders(store: ReminderStore, now: Instant, ack: nat -> bool)
      returns (batch: seq<DueRow>, log: seq<Event>, raised: bool)
    requires store.Valid()
    modifies store
    ensures store.Valid() && store.nextId == old(store.nextId) && store.issued == old(store.issued)
    ensures batch == old(store.Due(Render(now)))
    ensures log == Trace(batch, ack, 0)
    ensures raised <==> Delivered(ack, |batch|, 0) < |batch|
    // exactly the rows whose send returned are deleted
    ensures store.rows == old(store.rows) - IdsOf(batch[..Delivered(ack, |batch|, 0)])
    // a tick that finishes leaves nothing due at its instant
    ensures !raised ==> DueIds(store.rows, Render(now)) == {}
  {
    batch := store.Due(Render(now));
    ghost var rows0 := store.rows;
    log := [];
    raised := false;
    var i := 0;
    while i < |batch|
      invariant 0 <= i <= |batch|
      invariant store.Valid() && store.nextId == old(store.nextId) && store.issued == old(store.issued)
      invariant i <= Delivered(ack, |batch|, 0)
      invariant log + Trace(batch, ack, i) == Trace(batch, ack, 0)
      invariant store.rows == rows0 - IdsOf(batch[..i])
    {
      if !ack(i) {
        log := log + [Attempt(batch[i], false)];
        raised := true;
        DeliveredStop(ack, |batch|, i);
        return;
      }
      DeliveredStep(ack, |batch|, i);
      TraceStep(log, batch, ack, i);
      store.Delete(batch[i].id);
      log := log + [Attempt(batch[i], true), Removed(batch[i].id)];
      IdsOfPrefix(batch, i);
      RemoveOneMore(rows0, IdsOf(batch[..i]), batch[i].id);
      i := i + 1;
    }
    assert batch[..i] == batch;
    NothingDueAfterRemoval(rows0, Render(now));
  }

  /** The log alternates: the send of each row of the batch, then its
      deletion if the send returned; the first send that raises is the last
      event. */
  lemma {:induction false} TraceShape(batch: seq<DueRow>, ack: nat -> bool, i: nat, j: nat)
    requires i <= |batch| && j < |Trace(batch, ack, i)|
    ensures i + j / 2 < |batch|
    ensures j % 2 == 0 ==> Trace(batch, ack, i)[j] == Attempt(batch[i + j / 2], ack(i + j / 2))
    ensures j % 2 == 1 ==> Trace(batch, ack, i)[j] == Removed(batch[i + j / 2].id) && ack(i + j / 2)
    decreases |batch| - i
  {
    if j >= 2 {
      TraceShape(batch, ack, i + 1, j - 2);
      assert Trace(batch, ack, i)[j] == Trace(batch, ack, i + 1)[j - 2];
    }
  }

  /** How long the log is: two events per delivered row, and one more for
      the send that raised, if any. */
  lemma {:induction false} TraceLength(batch: seq<DueRow>, ack: nat -> bool, i: nat)
    requires i <= |batch|
    ensures var d := Delivered(ack, |batch|, i);
      |Trace(batch, ack, i)| == 2 * (d - i) + (if d < |batch| then 1 else 0)
    decreases |batch| - i
  {
    if i < |batch| && ack(i) {
      TraceLength(batch, ack, i + 1);
    }
  }

  /** A row is deleted only right after a send of that row that returned. */
  lemma RemovalFollowsDelivery(batch: seq<DueRow>, ack: nat -> bool, j: nat)
    requires j < |Trace(batch, ack, 0)| && Trace(batch, ack, 0)[j].Removed?
    ensures j > 0
    ensures var e := Trace(batch, ack, 0)[j - 1]; e.Attempt? && e.ok && e.row.id == Trace(batch, ack, 0)[j].id
  {
    TraceShape(batch, ack, 0, j);
    TraceShape(batch, ack, 0, j - 1);
  }

  /** Within one tick no reminder is sent twice, since the ids of a batch are
      distinct. */
  lemma SentAtMostOnce(batch: seq<DueRow>, ack: nat -> bool, j1: nat, j2: nat)
    requires forall k, j :: 0 <= k < j < |batch| ==> batch[k].id < batch[j].id
    requires j1 < j2 < |Trace(batch, ack, 0)|
    requires Trace(batch, ack, 0)[j1].Attempt? && Trace(batch, ack, 0)[j2].Attempt?
    ensures Trace(batch, ack, 0)[j1].row.id != Trace(batch, ack, 0)[j2].row.id
  {
    TraceShape(batch, ack, 0, j1);
    TraceShape(batch, ack, 0, j2);
  }

  /** The row whose send raised and every row after it are still stored,
      unchanged, for the next tick to find. */
  lemma {:induction false} UndeliveredStay(rows: map<int, Row>, batch: seq<DueRow>, d: nat, k: nat)
    requires forall k, j :: 0 <= k < j < |batch| ==> batch[k].id < batch[j].id
    requires d <= k < |batch| && batch[k].id in rows
    ensures batch[k].id in rows - IdsOf(batch[..d])
    ensures (rows - IdsOf(batch[..d]))[batch[k].id] == rows[batch[k].id]
  {
    forall j | 0 <= j < d
      ensures batch[..d][j].id != batch[k].id
    {
      assert batch[..d][j] == batch[j];
    }
  }
}
