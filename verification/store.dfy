/**
 * A metric table as the compress command sees it: rows by primary key, the
 * batch of per-row UPDATE statements, and the DELETE of every tombstone.
 */
module Store {
  import opened Compaction
  import Text

  /** What a metric command gives back: the line it prints, or the message of a panic. */
  datatype Response = Reply(text: string) | Panic(message: string)

  /** The outcome of preparing and running the history query. */
  datatype HistoryRead = PrepareFailed | QueryFailed(error: string) | Fetched(rows: seq<Sample>)

  /** The reply after a successful compress. */
  function Reduced(deleted: nat): string {
    "Reduced entries by " + Text.NatToString(deleted)
  }

  /** A metric table: each row under its primary key `id`. */
  type Table = map<int, Sample>

  function Ids(rows: seq<Sample>): set<int> {
    set i | 0 <= i < |rows| :: rows[i].id
  }

  predicate DistinctIds(rows: seq<Sample>) {
    forall i, j :: 0 <= i < j < |rows| ==> rows[i].id != rows[j].id
  }

  /** `rows` is the whole content of `table`, as `SELECT … ORDER BY timestamp DESC` reads it. */
  predicate IsHistory(table: Table, rows: seq<Sample>) {
    && DistinctIds(rows)
    && table.Keys == Ids(rows)
    && (forall i :: 0 <= i < |rows| ==> rows[i].id in table && table[rows[i].id] == rows[i])
    && NonIncreasing(rows)
  }

  /** `UPDATE … SET timestamp, value, duration WHERE id = row.id`, for each row of the batch in turn. */
  function ApplyUpdates(t: Table, batch: seq<Sample>): (r: Table)
    ensures r.Keys == t.Keys
    ensures forall id :: id in r ==> r[id] == t[id] || r[id] in batch
  {
    if batch == [] then t
    else
      var before := ApplyUpdates(t, batch[..|batch| - 1]);
      var row := batch[|batch| - 1];
      if row.id in before then before[row.id := row] else before
  }

  /** Whether `execute_batch` runs the whole batch, or fails at the statement with the given index. */
  datatype BatchOutcome = Completes | FailsAt(statement: nat)

  /**
   * `execute_batch`: the statements run in order, each one on its own; when
   * one fails, those before it stay applied and the call reports failure.
   */
  function ExecuteBatch(t: Table, batch: seq<Sample>, outcome: BatchOutcome): (r: (Table, bool))
    ensures !r.1 <==> outcome.FailsAt? && outcome.statement < |batch|
    ensures r.1 ==> r.0 == ApplyUpdates(t, batch)
    ensures !r.1 ==> r.0 == ApplyUpdates(t, batch[..outcome.statement])
  {
    if outcome.FailsAt? && outcome.statement < |batch| then (ApplyUpdates(t, batch[..outcome.statement]), false)
    else (ApplyUpdates(t, batch), true)
  }

  function TombstoneIds(t: Table): set<int> {
    set id | id in t && t[id].duration == TOMBSTONE
  }

  /** `DELETE … WHERE duration = -1`: every tombstone goes, every other row stays as it is. */
  function DeleteTombstones(t: Table): (r: Table)
    ensures r.Keys == t.Keys - TombstoneIds(t)
    ensures forall id :: id in r ==> r[id] == t[id]
  {
    map id | id in t && t[id].duration != TOMBSTONE :: t[id]
  }

  /** Updating rows with distinct ids that are all present writes each of them and leaves every other row alone. */
  lemma {:induction false} ApplyUpdatesWritesEachRow(t: Table, batch: seq<Sample>)
    requires DistinctIds(batch) && Ids(batch) <= t.Keys
    ensures ApplyUpdates(t, batch).Keys == t.Keys
    ensures forall i :: 0 <= i < |batch| ==> ApplyUpdates(t, batch)[batch[i].id] == batch[i]
    ensures forall id :: id in t && id !in Ids(batch) ==> ApplyUpdates(t, batch)[id] == t[id]
  {
    if batch != [] {
      var init := batch[..|batch| - 1];
      var last := batch[|batch| - 1];
      IdsOfSnoc(batch);
      DistinctSnoc(batch);
      ApplyUpdatesWritesEachRow(t, init);
      forall i | 0 <= i < |batch| ensures ApplyUpdates(t, batch)[batch[i].id] == batch[i] {
        if i < |init| {
          assert init[i] == batch[i];
          assert batch[i].id != last.id;
        }
      }
    }
  }

  lemma IdsOfSnoc(rows: seq<Sample>)
    requires rows != []
    ensures Ids(rows) == Ids(rows[..|rows| - 1]) + {rows[|rows| - 1].id}
  {
    var init := rows[..|rows| - 1];
    assert forall i :: 0 <= i < |init| ==> init[i] == rows[i];
    assert rows == init + [rows[|rows| - 1]];
  }

  lemma DistinctSnoc(rows: seq<Sample>)
    requires rows != [] && DistinctIds(rows)
    ensures DistinctIds(rows[..|rows| - 1])
    ensures rows[|rows| - 1].id !in Ids(rows[..|rows| - 1])
  {
    var init := rows[..|rows| - 1];
    forall i | 0 <= i < |init| ensures init[i].id != rows[|rows| - 1].id {
      assert init[i] == rows[i];
    }
  }

  /** A table holding exactly rows with distinct ids has as many tombstones as the rows do. */
  lemma {:induction false} TombstoneIdsCount(t: Table, rows: seq<Sample>)
    requires DistinctIds(rows) && t.Keys == Ids(rows)
    requires forall i :: 0 <= i < |rows| ==> t[rows[i].id] == rows[i]
    ensures |TombstoneIds(t)| == TombstoneCount(rows)
  {
    if rows == [] {
      assert TombstoneIds(t) == {};
    } else {
      var init := rows[..|rows| - 1];
      var last := rows[|rows| - 1];
      IdsOfSnoc(rows);
      DistinctSnoc(rows);
      var t' := t - {last.id};
      assert t'.Keys == Ids(init);
      forall i | 0 <= i < |init| ensures t'[init[i].id] == init[i] {
        assert init[i] == rows[i];
      }
      TombstoneIdsCount(t', init);
      TombstoneIdsWithout(t, last.id);
    }
  }

  /** Taking one row out of a table takes its id out of the tombstones, and nothing else. */
  lemma TombstoneIdsWithout(t: Table, id: int)
    requires id in t
    ensures var rest := TombstoneIds(t - {id});
      && id !in rest
      && TombstoneIds(t) == rest + (if t[id].duration == TOMBSTONE then {id} else {})
  {
    var rest := TombstoneIds(t - {id});
    var extra := if t[id].duration == TOMBSTONE then {id} else {};
    forall x | x in TombstoneIds(t) ensures x in rest + extra {
      if x != id {
        assert x in t - {id};
      }
    }
  }

  /**
   * Writing the encoded history back by id and deleting the tombstones
   * removes exactly the rows the engine marked -1, keeps every other row
   * with its new duration, and deletes as many rows as there are tombstones.
   */
  lemma CompressRewritesTable(p: MergePolicy, table: Table, history: seq<Sample>)
    requires IsHistory(table, history)
    ensures var e := Encoded(p, history);
      var written := ApplyUpdates(table, e);
      var kept := DeleteTombstones(written);
      && written.Keys == table.Keys
      && |TombstoneIds(written)| == TombstoneCount(e)
      && (forall i :: 0 <= i < |e| ==> (e[i].id in kept <==> e[i].duration != TOMBSTONE))
      && (forall i :: 0 <= i < |e| && e[i].id in kept ==> kept[e[i].id] == e[i])
  {
    var e := Encoded(p, history);
    assert forall i :: 0 <= i < |e| ==> e[i].id == history[i].id;
    assert Ids(e) == Ids(history);
    ApplyUpdatesWritesEachRow(table, e);
    TombstoneIdsCount(ApplyUpdates(table, e), e);
  }
}
