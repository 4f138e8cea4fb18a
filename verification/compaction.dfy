/**
 * The run-length "compress" engine shared by the temperature and heart-rate
 * tables. A history is read newest first; the engine rewrites only the
 * `duration` of each row: a row that merges with the row after it becomes a
 * tombstone (-1), and the last row of each run receives the run's length.
 * The surviving row of a run is therefore its oldest member.
 */
module Compaction {

  /** `step` in the source: readings are expected one second apart. */
  const STEP: int := 1
  const I16_MAX: int := 0x7FFF
  /** The duration that marks a row as merged into a later one. */
  const TOMBSTONE: int := -1

  /** Rust's `i16`, the type of the run counter `c` and of `step`. */
  newtype i16 = x: int | -0x8000 <= x <= 0x7FFF

  /** One stored reading: `id`, `timestamp` (unix seconds), the reading, and `duration`. */
  datatype Sample = Sample(id: int, timestamp: int, value: int, duration: int)

  /**
   * When two neighbouring rows merge. The temperature table requires equal
   * readings one step apart; the heart-rate table requires equal readings only.
   */
  datatype MergePolicy = TimestampAdjacent | ValueOnly

  predicate Merges(p: MergePolicy, current: Sample, next: Sample)
    ensures Merges(p, current, next) ==> current.value == next.value
    ensures p == TimestampAdjacent && Merges(p, current, next) ==> current.timestamp == next.timestamp + STEP
    ensures current.value == next.value && (p == ValueOnly || current.timestamp == next.timestamp + STEP)
      ==> Merges(p, current, next)
  {
    match p
    case TimestampAdjacent => current.timestamp - next.timestamp == STEP && current.value == next.value
    case ValueOnly => current.value == next.value
  }

  /**
   * The length of the run that ends at row `i`: the number of rows from the
   * first row of the run up to and including `i`.
   */
  function RunLen(p: MergePolicy, s: seq<Sample>, i: nat): (n: nat)
    requires i < |s|
    ensures 1 <= n <= i + 1
  {
    if i == 0 then 1
    else if Merges(p, s[i - 1], s[i]) then RunLen(p, s, i - 1) + 1
    else 1
  }

  /** The rows `i - RunLen + 1 .. i` merge pairwise, and the run cannot be extended further back. */
  lemma {:induction false} RunLenIsMaximalRun(p: MergePolicy, s: seq<Sample>, i: nat)
    requires i < |s|
    ensures forall k :: i - RunLen(p, s, i) < k < i ==> Merges(p, s[k], s[k + 1])
    ensures i - RunLen(p, s, i) >= 0 ==>
      !Merges(p, s[i - RunLen(p, s, i)], s[i - RunLen(p, s, i) + 1])
  {
    if i > 0 && Merges(p, s[i - 1], s[i]) {
      RunLenIsMaximalRun(p, s, i - 1);
    }
  }

  /** Every run fits the `i16` counter, so `c += 1` never overflows. */
  predicate RunsFit(p: MergePolicy, s: seq<Sample>) {
    forall i :: 0 <= i < |s| ==> RunLen(p, s, i) <= I16_MAX
  }

  /** A history of at most 32767 rows can never overflow the counter. */
  lemma ShortHistoriesFit(p: MergePolicy, s: seq<Sample>)
    requires |s| <= I16_MAX
    ensures RunsFit(p, s)
  {
  }

  /** The duration the engine writes into row `i` of a history of two or more rows. */
  function EncodedDuration(p: MergePolicy, s: seq<Sample>, i: nat): int
    requires i < |s|
  {
    if i + 1 < |s| && Merges(p, s[i], s[i + 1]) then TOMBSTONE else STEP * RunLen(p, s, i)
  }

  /**
   * The rows after encoding: the history itself when it has fewer than two
   * rows, and otherwise every row with its new duration and nothing else changed.
   */
  function Encoded(p: MergePolicy, s: seq<Sample>): (r: seq<Sample>)
    ensures |r| == |s|
    ensures forall i :: 0 <= i < |s| ==> r[i] == s[i].(duration := r[i].duration)
  {
    if |s| < 2 then s
    else seq(|s|, i requires 0 <= i < |s| => s[i].(duration := EncodedDuration(p, s, i)))
  }

  /**
   * The engine, in place: `this` is `a[i]`, `next` is `a[i + 1]`, `c` counts
   * the rows of the current run. When the iterator runs out, the last row
   * takes the trailing counter.
   */
  method RleEncode(p: MergePolicy, a: array<Sample>)
    requires RunsFit(p, a[..])
    modifies a
    ensures a[..] == Encoded(p, old(a[..]))
  {
    if a.Length < 2 {
      return;
    }
    ghost var s := a[..];
    var step: i16 := 1;
    var i := 0;
    var c: i16 := 1;
    while i + 1 < a.Length
      invariant 0 <= i < a.Length
      invariant c as int == RunLen(p, s, i)
      invariant forall k :: 0 <= k < i ==> a[k] == s[k].(duration := EncodedDuration(p, s, k))
      invariant forall k :: i <= k < a.Length ==> a[k] == s[k]
    {
      if Merges(p, a[i], a[i + 1]) {
        a[i] := a[i].(duration := TOMBSTONE);
        assert RunLen(p, s, i + 1) == c as int + 1;
        c := c + 1;
      } else {
        a[i] := a[i].(duration := (step * c) as int);
        c := 1;
      }
      i := i + 1;
    }
    a[i] := a[i].(duration := (step * c) as int);
    assert forall k :: 0 <= k < a.Length ==> a[k] == s[k].(duration := EncodedDuration(p, s, k));
  }

  /** For two or more rows, a row is a tombstone exactly when it merges with the row after it. */
  lemma TombstoneIffMerges(p: MergePolicy, s: seq<Sample>, i: nat)
    requires 2 <= |s| && i < |s|
    ensures Encoded(p, s)[i].duration == TOMBSTONE <==> i + 1 < |s| && Merges(p, s[i], s[i + 1])
  {
  }

  /**
   * For two or more rows, a row that survives holds the length of the maximal
   * run ending at it, and the last row always survives.
   */
  lemma SurvivorHoldsRunLength(p: MergePolicy, s: seq<Sample>, i: nat)
    requires 2 <= |s| && i < |s|
    requires Encoded(p, s)[i].duration != TOMBSTONE
    ensures Encoded(p, s)[i].duration == RunLen(p, s, i)
    ensures Encoded(p, s)[|s| - 1].duration == RunLen(p, s, |s| - 1) >= 1
  {
  }

  /** For two or more rows, every duration is -1 or lies between 1 and the number of rows. */
  lemma DurationsInRange(p: MergePolicy, s: seq<Sample>)
    requires 2 <= |s|
    ensures forall i :: 0 <= i < |s| ==>
      Encoded(p, s)[i].duration == TOMBSTONE || 1 <= Encoded(p, s)[i].duration <= |s|
  {
  }

  /** The sum of the durations of the rows that are not tombstones. */
  function SurvivorTotal(rows: seq<Sample>): int {
    if rows == [] then 0
    else
      var last := rows[|rows| - 1];
      SurvivorTotal(rows[..|rows| - 1]) + (if last.duration == TOMBSTONE then 0 else last.duration)
  }

  /** The rows before `k` represent all rows before `k` except those of the run still open at `k`. */
  lemma {:induction false} SurvivorTotalPrefix(p: MergePolicy, s: seq<Sample>, k: nat)
    requires 2 <= |s| && k < |s|
    ensures SurvivorTotal(Encoded(p, s)[..k]) == k + 1 - RunLen(p, s, k)
  {
    if k > 0 {
      var e := Encoded(p, s);
      SurvivorTotalPrefix(p, s, k - 1);
      assert e[..k][..k - 1] == e[..k - 1];
    }
  }

  /** For two or more rows, the surviving durations add up to the number of rows read. */
  lemma SurvivorTotalIsLength(p: MergePolicy, s: seq<Sample>)
    requires 2 <= |s|
    ensures SurvivorTotal(Encoded(p, s)) == |s|
  {
    var e := Encoded(p, s);
    SurvivorTotalPrefix(p, s, |s| - 1);
    assert e[..|s|][..|s| - 1] == e[..|s| - 1];
    assert e[..|s|] == e;
  }

  /** Two histories that differ only in durations agree on every run length. */
  lemma {:induction false} RunLenIgnoresDuration(p: MergePolicy, s: seq<Sample>, t: seq<Sample>, i: nat)
    requires |s| == |t| && i < |s|
    requires forall k :: 0 <= k < |s| ==> t[k] == s[k].(duration := t[k].duration)
    ensures RunLen(p, s, i) == RunLen(p, t, i)
  {
    if i > 0 {
      RunLenIgnoresDuration(p, s, t, i - 1);
    }
  }

  /** For two or more rows, the incoming durations are never read. */
  lemma EncodingIgnoresDuration(p: MergePolicy, s: seq<Sample>, t: seq<Sample>)
    requires 2 <= |s| == |t|
    requires forall k :: 0 <= k < |s| ==> t[k] == s[k].(duration := t[k].duration)
    ensures Encoded(p, s) == Encoded(p, t)
  {
    forall i | 0 <= i < |s| ensures Encoded(p, s)[i] == Encoded(p, t)[i] {
      RunLenIgnoresDuration(p, s, t, i);
    }
  }

  /** Whatever pair the timestamp-aware policy merges, the value-only policy merges too. */
  lemma AdjacentMergeImpliesValueMerge(a: Sample, b: Sample)
    ensures Merges(TimestampAdjacent, a, b) ==> Merges(ValueOnly, a, b)
  {
  }

  /** The converse fails: equal readings two seconds apart merge only under the value-only policy. */
  lemma ValueMergeDoesNotImplyAdjacentMerge()
    ensures Merges(ValueOnly, Sample(1, 3, 70, 0), Sample(2, 1, 70, 0))
    ensures !Merges(TimestampAdjacent, Sample(1, 3, 70, 0), Sample(2, 1, 70, 0))
  {
  }

  /** The number of neighbouring pairs that merge. */
  function MergeCount(p: MergePolicy, s: seq<Sample>): nat {
    if |s| < 2 then 0
    else MergeCount(p, s[..|s| - 1]) + (if Merges(p, s[|s| - 2], s[|s| - 1]) then 1 else 0)
  }

  /** The number of tombstones. */
  function TombstoneCount(rows: seq<Sample>): nat {
    if rows == [] then 0
    else TombstoneCount(rows[..|rows| - 1]) + (if rows[|rows| - 1].duration == TOMBSTONE then 1 else 0)
  }

  /** The value-only policy merges at least as many pairs as the timestamp-aware one. */
  lemma {:induction false} AdjacentMergesAreFewer(s: seq<Sample>)
    ensures MergeCount(TimestampAdjacent, s) <= MergeCount(ValueOnly, s)
  {
    if |s| >= 2 {
      AdjacentMergesAreFewer(s[..|s| - 1]);
    }
  }

  lemma {:induction false} TombstoneCountPrefix(p: MergePolicy, s: seq<Sample>, k: nat)
    requires 2 <= |s| && k < |s|
    ensures TombstoneCount(Encoded(p, s)[..k]) == MergeCount(p, s[..k + 1])
  {
    if k > 0 {
      var e := Encoded(p, s);
      TombstoneCountPrefix(p, s, k - 1);
      assert e[..k][..k - 1] == e[..k - 1];
      assert s[..k + 1][..k] == s[..k];
    }
  }

  /** For two or more rows, the tombstones are exactly as many as the merging pairs. */
  lemma TombstonesAreMerges(p: MergePolicy, s: seq<Sample>)
    requires 2 <= |s|
    ensures TombstoneCount(Encoded(p, s)) == MergeCount(p, s)
  {
    var e := Encoded(p, s);
    TombstoneCountPrefix(p, s, |s| - 1);
    assert s[..|s|] == s;
    assert e[|s| - 1].duration == EncodedDuration(p, s, |s| - 1) != TOMBSTONE;
    assert TombstoneCount(e) == TombstoneCount(e[..|s| - 1]);
  }

  /** The rows from position `k` on that are not tombstones, in order. */
  function SurvivorsFrom(rows: seq<Sample>, k: nat): (r: seq<Sample>)
    requires k <= |rows|
    ensures forall j :: 0 <= j < |r| ==> r[j].duration != TOMBSTONE
    decreases |rows| - k
  {
    if k == |rows| then []
    else if rows[k].duration == TOMBSTONE then SurvivorsFrom(rows, k + 1)
    else [rows[k]] + SurvivorsFrom(rows, k + 1)
  }

  /** What is left after the tombstones are deleted. */
  function Survivors(rows: seq<Sample>): seq<Sample> {
    SurvivorsFrom(rows, 0)
  }

  predicate NonIncreasing(s: seq<Sample>) {
    forall i :: 0 <= i < |s| - 1 ==> s[i].timestamp >= s[i + 1].timestamp
  }

  predicate StrictlyDecreasing(s: seq<Sample>) {
    forall i :: 0 <= i < |s| - 1 ==> s[i].timestamp > s[i + 1].timestamp
  }

  /** No two neighbouring rows merge. */
  predicate NoNeighboursMerge(p: MergePolicy, s: seq<Sample>) {
    forall i :: 0 <= i < |s| - 1 ==> !Merges(p, s[i], s[i + 1])
  }

  /**
   * The first survivor at or after `k` carries row `k`'s reading, and, when
   * the history is newest first, a timestamp no later than row `k`'s.
   */
  lemma {:induction false} FirstSurvivor(p: MergePolicy, s: seq<Sample>, k: nat)
    requires 2 <= |s| && k < |s|
    ensures var r := SurvivorsFrom(Encoded(p, s), k);
      |r| > 0 && r[0].value == s[k].value
      && (NonIncreasing(s) ==> r[0].timestamp <= s[k].timestamp)
    decreases |s| - k
  {
    var e := Encoded(p, s);
    if e[k].duration == TOMBSTONE {
      FirstSurvivor(p, s, k + 1);
    }
  }

  /** A row put in front of rows that do not merge keeps them unmerged if it does not merge with the first. */
  lemma PrependUnmerged(p: MergePolicy, x: Sample, rest: seq<Sample>)
    requires NoNeighboursMerge(p, rest)
    requires rest != [] ==> !Merges(p, x, rest[0])
    ensures NoNeighboursMerge(p, [x] + rest)
  {
    var r := [x] + rest;
    forall j | 0 <= j < |r| - 1 ensures !Merges(p, r[j], r[j + 1]) {
      if j > 0 {
        assert r[j] == rest[j - 1] && r[j + 1] == rest[j];
      }
    }
  }

  /**
   * A row that does not merge with its successor does not merge with a later
   * row that carries the successor's reading and is no newer than it.
   */
  lemma NoMergeWithLaterEqual(p: MergePolicy, x: Sample, y: Sample, z: Sample)
    requires !Merges(p, x, y) && z.value == y.value
    requires p == TimestampAdjacent ==> z.timestamp <= y.timestamp < x.timestamp
    ensures !Merges(p, x, z)
  {
  }

  /**
   * A surviving row `k` does not merge with the next survivor: it does not
   * merge with row `k + 1`, whose reading the next survivor shares and whose
   * timestamp is no earlier than the next survivor's.
   */
  lemma SurvivorDoesNotMergeNext(p: MergePolicy, s: seq<Sample>, k: nat)
    requires 2 <= |s| && k + 1 < |s|
    requires p == TimestampAdjacent ==> StrictlyDecreasing(s)
    requires !Merges(p, s[k], s[k + 1])
    ensures var rest := SurvivorsFrom(Encoded(p, s), k + 1);
      rest != [] && !Merges(p, s[k], rest[0])
  {
    FirstSurvivor(p, s, k + 1);
    var next := SurvivorsFrom(Encoded(p, s), k + 1)[0];
    if p == TimestampAdjacent {
      assert NonIncreasing(s);
    }
    NoMergeWithLaterEqual(p, s[k], s[k + 1], next);
  }

  /** A surviving row `k` keeps the survivors after it unmerged. */
  lemma SurvivorKeepsUnmerged(p: MergePolicy, s: seq<Sample>, k: nat)
    requires 2 <= |s| && k < |s|
    requires p == TimestampAdjacent ==> StrictlyDecreasing(s)
    requires Encoded(p, s)[k].duration != TOMBSTONE
    requires NoNeighboursMerge(p, SurvivorsFrom(Encoded(p, s), k + 1))
    ensures NoNeighboursMerge(p, SurvivorsFrom(Encoded(p, s), k))
  {
    var e := Encoded(p, s);
    var rest := SurvivorsFrom(e, k + 1);
    assert SurvivorsFrom(e, k) == [e[k]] + rest;
    if k + 1 < |s| {
      assert !Merges(p, e[k], rest[0]) by {
        TombstoneIffMerges(p, s, k);
        SurvivorDoesNotMergeNext(p, s, k);
        assert e[k] == s[k].(duration := e[k].duration);
      }
    }
    PrependUnmerged(p, e[k], rest);
  }

  /**
   * Survivors never merge with one another: under the value-only policy
   * always, under the timestamp-aware policy when timestamps strictly decrease.
   */
  lemma {:induction false} SurvivorsDoNotMerge(p: MergePolicy, s: seq<Sample>, k: nat)
    requires 2 <= |s| && k <= |s|
    requires p == TimestampAdjacent ==> StrictlyDecreasing(s)
    ensures NoNeighboursMerge(p, SurvivorsFrom(Encoded(p, s), k))
    decreases |s| - k
  {
    if k < |s| {
      SurvivorsDoNotMerge(p, s, k + 1);
      if Encoded(p, s)[k].duration == TOMBSTONE {
        assert SurvivorsFrom(Encoded(p, s), k) == SurvivorsFrom(Encoded(p, s), k + 1);
      } else {
        SurvivorKeepsUnmerged(p, s, k);
      }
    }
  }

  /** Without merging neighbours, every row of two or more is its own run of length 1. */
  lemma {:induction false} UnmergedRowsAreSingletons(p: MergePolicy, s: seq<Sample>)
    requires 2 <= |s| && NoNeighboursMerge(p, s)
    ensures forall i :: 0 <= i < |s| ==> Encoded(p, s)[i].duration == 1
  {
    forall i | 0 <= i < |s| ensures Encoded(p, s)[i].duration == 1 {
      if i > 0 {
        assert !Merges(p, s[i - 1], s[i]);
      }
    }
  }

  lemma {:induction false} NoTombstonesCounted(rows: seq<Sample>)
    requires forall i :: 0 <= i < |rows| ==> rows[i].duration != TOMBSTONE
    ensures TombstoneCount(rows) == 0
  {
    if rows != [] {
      NoTombstonesCounted(rows[..|rows| - 1]);
    }
  }

  /**
   * Compressing the survivors again creates no tombstones; with two or more
   * survivors it resets every duration to 1, so the run lengths already
   * written are lost.
   */
  lemma SecondPass(p: MergePolicy, s: seq<Sample>)
    requires 2 <= |s|
    requires p == TimestampAdjacent ==> StrictlyDecreasing(s)
    ensures var kept := Survivors(Encoded(p, s));
      |kept| >= 1
      && TombstoneCount(Encoded(p, kept)) == 0
      && (|kept| >= 2 ==> forall i :: 0 <= i < |kept| ==> Encoded(p, kept)[i].duration == 1)
  {
    var kept := Survivors(Encoded(p, s));
    FirstSurvivor(p, s, 0);
    SurvivorsDoNotMerge(p, s, 0);
    if |kept| >= 2 {
      UnmergedRowsAreSingletons(p, kept);
    }
    NoTombstonesCounted(Encoded(p, kept));
  }
}
