/**
 * The heart-rate table's compress command. Its engine merges neighbouring
 * rows on equal readings alone (the timestamp test is disabled), and a
 * failing prepare, update batch or delete panics.
 */
module Heartrate {
  import opened Compaction
  import opened Store

  const PREPARE_PANIC: string := "Failed to prepare query last"
  const PERSIST_PANIC: string := "Failed to persist compression"
  const CLEANUP_PANIC: string := "Failed to clean up heartrate data"

  function ReadFailed(error: string): string {
    "Failed to read heartrate history\n" + error
  }

  /** `rle_encode` for heart-rate rows: equal readings merge wherever they stand in time. */
  method RleEncode(raw: array<Sample>)
    requires RunsFit(ValueOnly, raw[..])
    modifies raw
    ensures raw[..] == Encoded(ValueOnly, old(raw[..]))
  {
    Compaction.RleEncode(ValueOnly, raw);
  }

  /**
   * The `compress` branch of the command: read the history, encode it, write
   * every row back by id in one batch, delete the tombstones and report how
   * many rows went; a failing prepare, batch or delete panics.
   */
  method Compress(table: Table, read: HistoryRead, batch: BatchOutcome, deleteSucceeds: bool)
    returns (after: Table, response: Response)
    requires read.Fetched? ==> RunsFit(ValueOnly, read.rows)
    ensures read.PrepareFailed? ==> after == table && response == Panic(PREPARE_PANIC)
    ensures read.QueryFailed? ==> after == table && response == Reply(ReadFailed(read.error))
    ensures read.Fetched? ==>
      var written := ExecuteBatch(table, Encoded(ValueOnly, read.rows), batch);
      && (!written.1 ==> after == written.0 && response == Panic(PERSIST_PANIC))
      && (written.1 && !deleteSucceeds ==> after == written.0 && response == Panic(CLEANUP_PANIC))
      && (written.1 && deleteSucceeds ==>
            after == DeleteTombstones(written.0) && response == Reply(Reduced(|TombstoneIds(written.0)|)))
    ensures (read.Fetched? && IsHistory(table, read.rows) && deleteSucceeds
             && !(batch.FailsAt? && batch.statement < |read.rows|)) ==>
      response == Reply(Reduced(TombstoneCount(Encoded(ValueOnly, read.rows))))
  {
    match read {
      case PrepareFailed =>
        return table, Panic(PREPARE_PANIC);
      case QueryFailed(error) =>
        return table, Reply(ReadFailed(error));
      case Fetched(rows) =>
        var raw := new Sample[|rows|](i requires 0 <= i < |rows| => rows[i]);
        assert raw[..] == rows;
        RleEncode(raw);
        var update: seq<Sample> := [];
        for i := 0 to raw.Length
          invariant update == raw[..i]
        {
          update := update + [raw[i]];
        }
        assert update == raw[..];
        var written := ExecuteBatch(table, update, batch);
        if !written.1 {
          return written.0, Panic(PERSIST_PANIC);
        }
        if !deleteSucceeds {
          return written.0, Panic(CLEANUP_PANIC);
        }
        var deleted := |TombstoneIds(written.0)|;
        after := DeleteTombstones(written.0);
        response := Reply(Reduced(deleted));
        ghost var isHistory := IsHistory(table, rows);
        if isHistory {
          CompressRewritesTable(ValueOnly, table, rows);
        }
    }
  }

  /**
   * After the tombstones are deleted, no two neighbouring rows share a
   * reading; this needs no assumption on the order of the timestamps.
   */
  lemma NeighbouringSurvivorsDiffer(rows: seq<Sample>)
    requires 2 <= |rows|
    ensures var kept := Survivors(Encoded(ValueOnly, rows));
      forall i :: 0 <= i < |kept| - 1 ==> kept[i].value != kept[i + 1].value
  {
    SurvivorsDoNotMerge(ValueOnly, rows, 0);
  }

  /**
   * A second compress creates no tombstones when it reads the survivors back
   * in the order the first pass left them, so it then deletes nothing.
   */
  lemma SecondCompressDeletesNothing(rows: seq<Sample>)
    requires 2 <= |rows|
    ensures TombstoneCount(Encoded(ValueOnly, Survivors(Encoded(ValueOnly, rows)))) == 0
  {
    SecondPass(ValueOnly, rows);
  }

  /**
   * Heart-rate timestamps need not be unique, and the second read orders by
   * timestamp only: survivors sharing a timestamp can come back in another
   * order, and then a second compress does find a tombstone.
   */
  lemma TiedTimestampsRereadExample()
    ensures Survivors(Encoded(ValueOnly, [Sample(1, 5, 1, 0), Sample(2, 5, 2, 0), Sample(3, 4, 1, 0)]))
      == [Sample(1, 5, 1, 1), Sample(2, 5, 2, 1), Sample(3, 4, 1, 1)]
    ensures TombstoneCount(Encoded(ValueOnly, [Sample(2, 5, 2, 1), Sample(1, 5, 1, 1), Sample(3, 4, 1, 1)])) == 1
  {
    var reread := [Sample(2, 5, 2, 1), Sample(1, 5, 1, 1), Sample(3, 4, 1, 1)];
    var e := Encoded(ValueOnly, reread);
    assert RunLen(ValueOnly, reread, 2) == 2;
    assert e == [Sample(2, 5, 2, 1), Sample(1, 5, 1, -1), Sample(3, 4, 1, 2)];
    assert e[..2][..1] == e[..1];
    assert TombstoneCount(e[..1]) == 0;
  }

  /** The heart-rate engine deletes at least as many rows as the temperature engine would. */
  lemma DeletesAtLeastAsManyAsTemperature(rows: seq<Sample>)
    requires 2 <= |rows|
    ensures TombstoneCount(Encoded(TimestampAdjacent, rows)) <= TombstoneCount(Encoded(ValueOnly, rows))
  {
    TombstonesAreMerges(TimestampAdjacent, rows);
    TombstonesAreMerges(ValueOnly, rows);
    AdjacentMergesAreFewer(rows);
  }

  /** Equal readings two seconds apart merge here, but not in the temperature engine. */
  lemma MergeIgnoresTimestampsExample()
    ensures Encoded(ValueOnly, [Sample(2, 5, 70, 0), Sample(1, 3, 70, 0)])
      == [Sample(2, 5, 70, -1), Sample(1, 3, 70, 2)]
    ensures Encoded(TimestampAdjacent, [Sample(2, 5, 70, 0), Sample(1, 3, 70, 0)])
      == [Sample(2, 5, 70, 1), Sample(1, 3, 70, 1)]
  {
  }
}
