/** The `reminders` table: rows keyed by an AUTOINCREMENT id, holding the
    chat to notify, the message, and the due time as
    "%Y-%m-%d %H:%M:%S" text. */
module Store {
  import opened Text
  import opened Timestamp

  /** One row of the table, without its id. */
  datatype Row = Row(chatId: string, message: string, remindTime: string)

  /** One row of `SELECT id, chat_id, message`. */
  datatype DueRow = DueRow(id: int, chatId: string, message: string)

  /** `remind_time <= ?`: SQLite compares two TEXT values with the BINARY
      collation, character by character. */
  predicate IsDue(row: Row, nowText: string) {
    TextLe(row.remindTime, nowText)
  }

  /** The ids a result set reports. */
  function IdsOf(rs: seq<DueRow>): set<int> {
    set k | 0 <= k < |rs| :: rs[k].id
  }

  /** Appending a row to a result set adds its id. */
  lemma IdsOfSnoc(rs: seq<DueRow>, x: DueRow)
    ensures IdsOf(rs + [x]) == IdsOf(rs) + {x.id}
  {
    var r := rs + [x];
    assert r[|rs|] == x;
    forall id | id in IdsOf(rs)
      ensures id in IdsOf(r)
    {
      var k :| 0 <= k < |rs| && rs[k].id == id;
      assert r[k].id == id;
    }
  }

  /** Taking one more row of a result set adds that row's id. */
  lemma IdsOfPrefix(rs: seq<DueRow>, i: nat)
    requires i < |rs|
    ensures IdsOf(rs[..i + 1]) == IdsOf(rs[..i]) + {rs[i].id}
  {
    assert rs[..i + 1] == rs[..i] + [rs[i]];
    IdsOfSnoc(rs[..i], rs[i]);
  }

  /** Deleting ids one at a time deletes them all. */
  lemma RemoveOneMore(rows: map<int, Row>, gone: set<int>, id: int)
    ensures (rows - gone) - {id} == rows - (gone + {id})
  {
  }

  /** The ids of `rows` that are due. */
  function DueIds(rows: map<int, Row>, nowText: string): set<int> {
    set id | id in rows && IsDue(rows[id], nowText)
  }

  /** The rows among ids `lo .. hi - 1` whose id is in `pick`, scanned in
      id order. */
  function Scan(rows: map<int, Row>, pick: set<int>, lo: int, hi: int): (r: seq<DueRow>)
    ensures forall k :: 0 <= k < |r| ==> lo <= r[k].id < hi && r[k].id in rows && r[k].id in pick
    ensures forall k :: 0 <= k < |r| ==> r[k] == DueRow(r[k].id, rows[r[k].id].chatId, rows[r[k].id].message)
    ensures forall k, j :: 0 <= k < j < |r| ==> r[k].id < r[j].id
    decreases hi - lo
  {
    if lo >= hi then []
    else
      var rest := Scan(rows, pick, lo, hi - 1);
      if hi - 1 in rows && hi - 1 in pick then
        rest + [DueRow(hi - 1, rows[hi - 1].chatId, rows[hi - 1].message)]
      else rest
  }

  /** The scan misses no picked row in range. */
  lemma {:induction false} ScanComplete(rows: map<int, Row>, pick: set<int>, lo: int, hi: int, id: int)
    requires id in rows && id in pick && lo <= id < hi
    ensures id in IdsOf(Scan(rows, pick, lo, hi))
    decreases hi - lo
  {
    var rest := Scan(rows, pick, lo, hi - 1);
    var r := Scan(rows, pick, lo, hi);
    if id == hi - 1 {
      assert r[|rest|].id == id;
    } else {
      ScanComplete(rows, pick, lo, hi - 1, id);
      var k :| 0 <= k < |rest| && rest[k].id == id;
      assert r[k].id == id;
    }
  }

  class ReminderStore {
    /** The table, keyed by id. */
    var rows: map<int, Row>
    /** The id the next insert gets: one past the largest id ever issued
        (AUTOINCREMENT never reuses the id of a deleted row). */
    var nextId: int
    /** Every id ever handed out, including those of deleted rows. */
    ghost var issued: set<int>

    ghost predicate Valid()
      reads this
    {
      && nextId >= 1
      && (forall id :: id in issued ==> 1 <= id < nextId)
      && (forall id :: id in rows ==> id in issued)
    }

    /** `CREATE TABLE IF NOT EXISTS` on a fresh database. */
    constructor ()
      ensures Valid()
      ensures rows == map[] && nextId == 1 && issued == {}
    {
      rows := map[];
      nextId := 1;
      issued := {};
    }

    /** `add_reminder`: exactly one row is added, under an id larger than
        every id handed out before; the other rows are untouched. */
    method Add(chatId: string, message: string, remindTime: string) returns (id: int)
      requires Valid()
      modifies this
      ensures Valid()
      ensures id !in old(issued) && forall k :: k in old(issued) ==> k < id
      ensures issued == old(issued) + {id}
      ensures id == old(nextId) && nextId == id + 1
      ensures rows == old(rows)[id := Row(chatId, message, remindTime)]
    {
      id := nextId;
      rows := rows[id := Row(chatId, message, remindTime)];
      issued := issued + {id};
      nextId := nextId + 1;
    }

    /** `delete_reminder`: removes the row with that id if there is one, and
        nothing else; the id stays used. */
    method Delete(id: int)
      requires Valid()
      modifies this
      ensures Valid()
      ensures rows == old(rows) - {id}
      ensures nextId == old(nextId) && issued == old(issued)
    {
      rows := rows - {id};
    }

    /** The `SELECT` of `get_due_reminders`, with `nowText` bound to its
        parameter: the due rows, each once, in id order. */
    function Due(nowText: string): (r: seq<DueRow>)
      reads this
      requires Valid()
      ensures forall k :: 0 <= k < |r| ==> r[k].id in rows && IsDue(rows[r[k].id], nowText)
      ensures forall k :: 0 <= k < |r| ==> r[k] == DueRow(r[k].id, rows[r[k].id].chatId, rows[r[k].id].message)
      ensures IdsOf(r) == DueIds(rows, nowText)
      ensures forall k, j :: 0 <= k < j < |r| ==> r[k].id < r[j].id
    {
      var r := Scan(rows, DueIds(rows, nowText), 1, nextId);
      forall id | id in DueIds(rows, nowText)
        ensures id in IdsOf(r)
      {
        ScanComplete(rows, DueIds(rows, nowText), 1, nextId, id);
      }
      r
    }
  }

  /** A row stored with the rendering of instant `t` is due exactly when
      `t` is not after `now`: comparing the texts compares the instants. */
  lemma DueIffPast(row: Row, t: Instant, now: Instant)
    requires row.remindTime == Render(t)
    ensures IsDue(row, Render(now)) <==> t <= now
  {
    RenderOrder(t, now);
  }

  /** A row that is due stays due at every later instant. */
  lemma {:induction false} DueStaysDue(row: Row, now1: Instant, now2: Instant)
    requires now1 <= now2 && IsDue(row, Render(now1))
    ensures IsDue(row, Render(now2))
  {
    RenderOrder(now1, now2);
    TextLeTransitive(row.remindTime, Render(now1), Render(now2));
  }

  /** Deleting an id twice is deleting it once. */
  lemma DeleteIdempotent(rows: map<int, Row>, id: int)
    ensures (rows - {id}) - {id} == rows - {id}
  {
  }

  /** Once the due rows are deleted, nothing is due at the same instant. */
  lemma NothingDueAfterRemoval(rows: map<int, Row>, nowText: string)
    ensures DueIds(rows - DueIds(rows, nowText), nowText) == {}
  {
  }
}
