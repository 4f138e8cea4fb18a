/**
 * The temperature table's compress command. Its engine merges equal readings
 * whose timestamps are exactly one step apart; every failure of the command
 * becomes a reply, never a panic.
 */
module Temperature {
  import opened Compaction
  import opened Store

  const PREPARE_FAILED: string := "Failed to prepare query for RLE. Check log for full error."
  const PERSIST_FAILED: string := "Failed to persist compression. Check log for full error."
  const CLEANUP_FAILED: string := "Failed to clean up temperature data. Check log for full error."

  function ReadFailed(error: string): string {
    "Failed to read temperature history\n" + error
  }

  /** `rle_encode` for temperature rows: equal readings one second apart merge. */
  method RleEncode(raw: array<Sample>)
    requires RunsFit(TimestampAdjacent, raw[..])
    modifies raw
    ensures raw[..] == Encoded(TimestampAdjacent, old(raw[..]))
  {
    Compaction.RleEncode(TimestampAdjacent, raw);
  }

  /**
   * The `compress` branch of the command: read the history, encode it, write
   * every row back by id in one batch, delete the tombstones and report how
   * many rows went.
   */
  method Compress(table: Table, read: HistoryRead, batch: BatchOutcome, deleteSucceeds: bool)
    returns (after: Table, response: Response)
    requires read.Fetched? ==> RunsFit(TimestampAdjacent, read.rows)
    ensures response.Reply?
    ensures read.PrepareFailed? ==> after == table && response.text == PREPARE_FAILED
    ensures read.QueryFailed? ==> after == table && response.text == ReadFailed(read.error)
    ensures read.Fetched? ==>
      var written := ExecuteBatch(table, Encoded(TimestampAdjacent, read.rows), batch);
      && (!written.1 ==> after == written.0 && response.text == PERSIST_FAILED)
      && (written.1 && !deleteSucceeds ==> after == written.0 && response.text == CLEANUP_FAILED)
      && (written.1 && deleteSucceeds ==>
            after == DeleteTombstones(written.0) && response.text == Reduced(|TombstoneIds(written.0)|))
    ensures (read.Fetched? && IsHistory(table, read.rows) && deleteSucceeds
             && !(batch.FailsAt? && batch.statement < |read.rows|)) ==>
      response.text == Reduced(TombstoneCount(Encoded(TimestampAdjacent, read.rows)))
  {
    match read {
      case PrepareFailed =>
        return table, Reply(PREPARE_FAILED);
      case QueryFailed(error) =>
        return table, Reply(ReadFailed(error));
      case Fetched(rows) =>
        var raw := new Sample[|rows|](i requires 0 <= i < |rows| => rows[i]);
        assert raw[..] == rows;
        RleEncode(raw);
        var update: seq<Sample> := [];
        for i := 0 to raw.Length
          invariant update == raw[..i]
        {
          update := update + [raw[i]];
        }
        assert update == raw[..];
        var written := ExecuteBatch(table, update, batch);
        if !written.1 {
          return written.0, Reply(PERSIST_FAILED);
        }
        if !deleteSucceeds {
          return written.0, Reply(CLEANUP_FAILED);
        }
        var deleted := |TombstoneIds(written.0)|;
        after := DeleteTombstones(written.0);
        response := Reply(Reduced(deleted));
        ghost var isHistory := IsHistory(table, rows);
        if isHistory {
          CompressRewritesTable(TimestampAdjacent, table, rows);
        }
    }
  }

  /** Temperature timestamps are unique, so a history read newest first strictly decreases. */
  predicate UniqueTimestamps(rows: seq<Sample>) {
    forall i, j :: 0 <= i < j < |rows| ==> rows[i].timestamp != rows[j].timestamp
  }

  /**
   * Compressing the table a second time deletes nothing, but with two or
   * more rows left it sets every duration back to 1.
   */
  lemma SecondCompressResetsDurations(table: Table, rows: seq<Sample>)
    requires IsHistory(table, rows) && UniqueTimestamps(rows) && 2 <= |rows|
    ensures var kept := Survivors(Encoded(TimestampAdjacent, rows));
      |kept| >= 1
      && TombstoneCount(Encoded(TimestampAdjacent, kept)) == 0
      && (|kept| >= 2 ==> forall i :: 0 <= i < |kept| ==> Encoded(TimestampAdjacent, kept)[i].duration == 1)
  {
    assert StrictlyDecreasing(rows) by {
      forall i | 0 <= i < |rows| - 1 ensures rows[i].timestamp > rows[i + 1].timestamp {
        assert rows[i].timestamp >= rows[i + 1].timestamp;
        assert rows[i].timestamp != rows[i + 1].timestamp;
      }
    }
    SecondPass(TimestampAdjacent, rows);
  }

  /**
   * Readings 70, 70, 71 at t = 1, 2, 3, read newest first: the row at t = 2
   * merges into the older row at t = 1, which takes the run length 2.
   */
  lemma CompressExample()
    ensures Encoded(TimestampAdjacent, [Sample(3, 3, 71, 0), Sample(2, 2, 70, 0), Sample(1, 1, 70, 0)])
      == [Sample(3, 3, 71, 1), Sample(2, 2, 70, -1), Sample(1, 1, 70, 2)]
  {
  }

  /** Readings 70, 71, 70 at t = 1, 2, 3 stay three rows of duration 1. */
  lemma NonAdjacentValuesExample()
    ensures Encoded(TimestampAdjacent, [Sample(3, 3, 70, 0), Sample(2, 2, 71, 0), Sample(1, 1, 70, 0)])
      == [Sample(3, 3, 70, 1), Sample(2, 2, 71, 1), Sample(1, 1, 70, 1)]
  {
  }
}
