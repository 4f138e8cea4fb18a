# biomon core, modelled in Dafny

biomon is a command-line health logger. It reads commands from standard input
in a loop and keeps readings (temperature, heart rate, weight, …) in SQLite.
This project models the parts of it that carry logic:

- **Run-length compaction** (`compress` of the temperature and heart-rate
  metrics). The history is read newest first. `rle_encode` walks it in place.
  A row that merges with its older neighbour becomes a tombstone
  (duration `-1`). The oldest row of each run keeps the run's length. A
  history of fewer than two rows is returned unchanged, durations and all. The
  rewritten rows are written back in one batch, then every tombstone is
  deleted. The temperature engine merges only equal values one second apart.
  The heart-rate engine merges on equal values alone. Temperature turns every
  failure into a reply; heart rate panics on a failed prepare, batch or delete.
- **The `last` query count**: the optional argument parsed as `i64`, else the
  default of 3 with a note.
- **The BLE heart-rate session** (`ble_hrp.rs`):
  - scan;
  - identify the configured device by address;
  - connect and discover services;
  - subscribe to the Heart Rate Measurement characteristic;
  - write byte 1 of every notification;
  - disconnect.
  
  Each radio operation is an input outcome, and a session is a trace of the
  calls made.
- **The application shell** (`main.rs`):
  - the command loop. It stops on an empty line, on `q`, or when a command
    panics, and only `q` saves the configuration;
  - `upgrade_tables`, which drops `--` comment lines from a migration script
    before executing it;
  - `set_with_default` / `write_config`;
  - the line parser of `ingest_markdown_weight`. It imports `- YYYY-MM-DD: <w>kg`
    lines as weighings at 09:00 UTC of that day.

Modules:
- `Options`: Option.
- `Text`: the Rust string operations the code relies on: `split`, `lines`,
  `replace`, `trim`, `split_whitespace`, integer `parse` and `to_string`.
- `Compaction`: the RLE engine.
- `Store`: the SQLite table as a map from id to row, with batch and delete
  outcomes.
- `Temperature` and `Heartrate`: the two `compress` branches.
- `LastQuery`.
- `BleHrp`.
- `App`: `main.rs`, with its Outcome type for results that carry an error text.

## Model

| member | source | states |
|---|---|---|
| Compaction.RunLen | src/temperature.rs:211-231 | The counter `c` at row i lies between 1 and i+1. |
| Compaction.Merges | src/temperature.rs:219 | Two neighbours merge only when their values are equal; under the temperature policy the newer is also exactly one second later. Under either policy, equal values (one second apart for temperature) do merge. |
| Compaction.RunLenIsMaximalRun | src/temperature.rs:217-226 | Every row inside the RunLen window merges with its successor, and the row just before the window does not: RunLen is the length of the maximal run ending at i. |
| Compaction.ShortHistoriesFit | src/temperature.rs:203-238 | A history of at most 32767 rows never overflows the `i16` duration. |
| Compaction.Encoded | src/temperature.rs:203-238 | The encoding has the same length as the history and changes only the duration of each row; id, timestamp and value stay. |
| Compaction.RleEncode | src/temperature.rs:203-238 | The in-place pass over the array leaves exactly the encoding of the original rows. This covers both policies, and histories shorter than two rows are left unchanged. |
| Compaction.TombstoneIffMerges | src/temperature.rs:219-226 | For two or more rows, a row becomes a tombstone if and only if it merges with the next row. |
| Compaction.SurvivorHoldsRunLength | src/temperature.rs:222-231 | For two or more rows, a surviving row holds the length of the run it closes (`step * c` with step 1). The last row always survives with its run length. |
| Compaction.DurationsInRange | src/temperature.rs:217-231 | For two or more rows, every duration is -1 or between 1 and the history length. |
| Compaction.SurvivorTotalIsLength | src/temperature.rs:203-238 | For two or more rows, the surviving durations sum to the number of rows compressed: nothing is lost or double counted. |
| Compaction.EncodingIgnoresDuration | src/temperature.rs:219 | For two or more rows, the old durations in the history do not influence the encoding. |
| Compaction.AdjacentMergeImpliesValueMerge | src/heartrate.rs:193 | Every pair the temperature policy merges is also merged by the heart-rate policy. |
| Compaction.ValueMergeDoesNotImplyAdjacentMerge | src/heartrate.rs:193 | The converse fails: equal values two seconds apart merge under heart rate only. |
| Compaction.AdjacentMergesAreFewer | src/temperature.rs:219 | The temperature policy finds at most as many merging neighbours as the heart-rate one. |
| Compaction.TombstonesAreMerges | src/temperature.rs:219-220 | For two or more rows, the number of tombstones equals the number of merging neighbour pairs. |
| Compaction.FirstSurvivor | src/temperature.rs:231 | For two or more rows, from any position k on, some row survives. The first survivor carries the value of row k, and in a time-ordered history it is no newer than row k. |
| Compaction.SurvivorsDoNotMerge | src/temperature.rs:203-238 | For two or more rows, after compaction, no two neighbouring survivors merge. For the temperature policy this assumes strictly decreasing timestamps. |
| Compaction.UnmergedRowsAreSingletons | src/temperature.rs:222-231 | For two or more rows, a history with no merging neighbours encodes every row with duration 1. |
| Compaction.SecondPass | src/temperature.rs:203-238 | For a history of two or more rows, with strictly decreasing timestamps under the temperature policy, encoding the survivors again makes no tombstones. With two or more survivors it also resets every duration to 1. |
| Store.ExecuteBatch | src/temperature.rs:89-94 | The batch fails exactly when the failing statement lies within it. The table then holds the statements before it, else all updates. |
| Store.DeleteTombstones | src/temperature.rs:96-98 | The deletion removes exactly the rows whose duration is -1 and leaves the rest untouched. |
| Store.ApplyUpdates | src/temperature.rs:81-89 | Applying the batch of `UPDATE … WHERE id` statements keeps the key set, and every row afterwards is either unchanged or one of the batch's rows. |
| Store.ApplyUpdatesWritesEachRow | src/temperature.rs:81-88 | Updating rows by id, with distinct existing ids, keeps the key set. Each updated row holds its new value and the other rows are unchanged. |
| Store.TombstoneIdsCount | src/temperature.rs:96-98 | When the table holds exactly the rows, the delete removes as many rows as there are tombstones among them. |
| Store.CompressRewritesTable | src/temperature.rs:77-98 | Writing back the encoding of the full history keeps every key. The delete count equals the tombstone count, and afterwards exactly the non-tombstone rows remain with their new durations. |
| Temperature.RleEncode | src/temperature.rs:203-238 | The temperature pass is the encoding with the one-second adjacency test. |
| Temperature.Compress | src/temperature.rs:42-108 | Each failure yields its reply and its table state: a failed prepare or read leaves the table, a failed batch keeps its prefix, a failed delete keeps the tombstones. On success the tombstones are deleted and the reply reports their number, which equals the tombstone count of the history. |
| Temperature.SecondCompressResetsDurations | src/temperature.rs:203-238 | With unique timestamps and two or more rows, a second compress of the survivors deletes nothing. With two or more survivors it overwrites every stored run length with 1. |
| Temperature.CompressExample | src/temperature.rs:219-231 | 70, 70, 71 one second apart becomes duration 2, tombstone, 1 (newest first: 1, -1, 2). |
| Temperature.NonAdjacentValuesExample | src/temperature.rs:219 | 70, 71, 70 stays as three singletons of duration 1. |
| Heartrate.RleEncode | src/heartrate.rs:176-212 | The heart-rate pass is the encoding with the value-only test. |
| Heartrate.Compress | src/heartrate.rs:40-92 | A failed prepare, batch or delete panics with its message and table state. A failed read replies with the error. Success deletes the tombstones and reports the tombstone count of the history. |
| Heartrate.NeighbouringSurvivorsDiffer | src/heartrate.rs:192-199 | After compaction no two neighbouring survivors hold the same value. |
| Heartrate.SecondCompressDeletesNothing | src/heartrate.rs:84-89 | Compressing the survivors again, read back in the order the first pass left them, creates no tombstones. |
| Heartrate.TiedTimestampsRereadExample | src/heartrate.rs:23-46 | Timestamps are not unique and the read orders by timestamp alone: three survivors read back with two tied rows swapped give one tombstone. |
| Heartrate.DeletesAtLeastAsManyAsTemperature | src/heartrate.rs:193 | The heart-rate engine deletes at least as many rows as the temperature engine would on the same history. |
| Heartrate.MergeIgnoresTimestampsExample | src/heartrate.rs:193 | Two equal readings two seconds apart merge under heart rate and stay apart under temperature. |
| LastQuery.ChooseTake | src/temperature.rs:137-153 | No argument gives 3 and the default note. An unparsable one also gives 3, with "Failed to parse query parameter" before the note. A parsable one gives its value and no note. |
| LastQuery.DefaultIffNote | src/heartrate.rs:117-133 | The default note is printed if and only if the argument is missing or not an `i64`. |
| LastQuery.DecimalCountIsTaken | src/heartrate.rs:120-124 | Every `i64` written in decimal is taken as the count, with no note. |
| LastQuery.OutOfRangeCountUsesDefault | src/heartrate.rs:120-133 | A decimal count outside the `i64` range is not parsed: the default 3 is used, with the parse-failure line and the note. |
| LastQuery.DefaultNoteText | src/temperature.rs:140-150 | The default note names the value 3. |
| Text.Split | src/main.rs:365-371 | `split` yields at least one part and no part contains the separator. |
| Text.SplitJoin | src/main.rs:365 | Joining the parts with the separator gives back the input. |
| Text.Lines | src/main.rs:206 | No line of `lines` contains a newline. |
| Text.LinesKeepText | src/main.rs:206-213 | For text without '\r', joining its lines each followed by '\n' gives the text back, with a '\n' added when it did not end in one. |
| Text.LinesOfTerminated | src/main.rs:206-213 | Splitting newline-terminated plain lines gives back those lines. |
| Text.RemoveAll | src/main.rs:363 | `replace(p, "")` never lengthens the text. |
| Text.RemoveOnlyLeadingPair | src/main.rs:363 | Removing "- " from "- " + s, where s contains no "- ", gives s. |
| Text.TrimStart | src/main.rs:394 | The result is a suffix starting with a non-space, and everything dropped is whitespace. |
| Text.TrimEnd | src/main.rs:394 | The result is a prefix ending with a non-space, and everything dropped is whitespace. |
| Text.FirstToken | src/main.rs:89-91 | `split_whitespace().next()` is None exactly when the line without its leading whitespace is empty; otherwise it is the longest whitespace-free prefix of that rest. |
| Text.FirstTokenShape | src/main.rs:89-91 | The first token is None if and only if the line is all whitespace; otherwise it is non-empty and holds no whitespace. |
| Text.FirstTokenIsFirstRun | src/main.rs:89-91 | The token starts right after the leading whitespace and ends at whitespace or at the end of the line: it is the first maximal non-space run. |
| Text.ParseBounded | src/main.rs:372-386 | A parsed integer lies within the range of its Rust type, and only an optional sign followed by decimal digits parses. |
| Text.ParseBoundedInt | src/heartrate.rs:120-124 | The decimal text of an integer parses to it when it lies in the range and to nothing otherwise. |
| Text.NatToStringValue | src/temperature.rs:98 | The decimal text of n reads back as n. |
| Text.ParseIntToString | src/heartrate.rs:121 | Parsing the decimal text of any integer gives it back. |
| App.Uncommented | src/main.rs:205-213 | The kept lines are no more than the input and none starts with "--". |
| App.StripComments | src/main.rs:205-213 | The script executed is the uncommented lines, each followed by a newline. |
| App.UncommentedAppend | src/main.rs:206-211 | Filtering distributes over concatenation of line lists. |
| App.StripCommentsIdempotent | src/main.rs:205-213 | For a script none of whose lines ends in '\r', the stripped script splits back into the kept lines, has no comment lines, and stripping it again changes nothing. |
| App.UpgradeTables | src/main.rs:188-225 | A missing path replies at once and executes nothing. Otherwise the stripped script runs, and the reply depends only on whether the batch succeeds. |
| App.UnreadableScriptIsExecuted | src/main.rs:197-203 | When the script cannot be read, the read-error message itself is executed as the script. |
| App.SingleLineScript | src/main.rs:205-213 | A single non-comment line is executed as that line plus a newline. |
| App.ValueOrDefault | src/main.rs:337-341 | The stored value when the section holds the key with a value, else the default. |
| App.SetWithDefault | src/main.rs:323-345 | A poisoned lock gives the error message and no change. Otherwise the one entry becomes the stored value or the default and every other entry is unchanged. |
| App.WriteConfig | src/main.rs:309-321 | A poisoned lock saves nothing; otherwise the saved configuration holds exactly `ble_hrp.hrp_mac`: the stored address or no value. |
| App.DaysInMonth | src/main.rs:387-391 | A month has 28 to 31 days. |
| App.NineAmUtc | src/main.rs:387-391 | The timestamp falls at 09:00:00 UTC. |
| App.UnixEpoch | src/main.rs:387-391 | 1970-01-01 maps to 9 h after the epoch. |
| App.MarchYearLength | src/main.rs:387-391 | Consecutive March-based years differ by 366 days exactly in leap years, else 365. |
| App.NextDayIsOneDayLater | src/main.rs:387-391 | The next calendar day, including month and year ends and 29 February, is exactly 86400 seconds later. |
| App.ParseWeightLine | src/main.rs:361-396 | An invalid-date result carries a date the calendar rejects. An entry carries a timestamp at 09:00 UTC of a valid date. |
| App.DateOf | src/main.rs:371-386 | A date is found exactly when the piece has at least three '-'-separated parts whose first three parse as `i32`, `u32`, `u32`; the date is those three values, and further parts are ignored. |
| App.LineOfDate | src/main.rs:361-396 | A line "- " + date + ": " + weight + "kg", for a date text without ':' or "- " and a plain weight, is skipped when DateOf finds nothing, panics when the calendar rejects the date, and otherwise gives 09:00 UTC of the date with that weight. |
| App.ExtraDatePartsIgnored | src/main.rs:371-386 | A fourth '-'-separated date part changes nothing: the line reads as the one without it. |
| App.MissingDatePartsSkip | src/main.rs:371-386 | A date with only a year, or only a year and a month, skips the line. |
| App.LogLineDropsNothing | src/main.rs:363 | In a well-formed log line only the leading "- " is removed. |
| App.LogLineSplitsAtColon | src/main.rs:365-370 | The line splits at ':' into exactly the date and the weight piece. |
| App.DateSplitsAtDashes | src/main.rs:371-386 | The date splits at '-' into exactly year, month and day. |
| App.TrimWeightPiece | src/main.rs:394 | Trimming " <w>kg" gives "<w>kg". |
| App.DropUnit | src/main.rs:394 | Removing "kg" from "<w>kg" gives w when w contains no "kg". |
| App.DateOnlyLine | src/main.rs:361-396 | A line of "- " and a date alone is skipped when a component does not parse or the date is valid, and panics with the date when the calendar rejects it. |
| App.LogLineOutcome | src/main.rs:361-396 | A log line with a plain weight is skipped when a date component does not parse, panics when the calendar rejects the date, and otherwise gives 09:00 UTC of the date with that weight. |
| App.WeightLogLineRoundTrip | src/main.rs:361-396 | Parsing the line written for a valid date and a plain weight gives that date at 09:00 UTC and that weight. |
| App.WeightLogExample | src/main.rs:362-366 | "- 2023-12-03: 105.4kg" parses to 1701594000 and "105.4". |
| App.InvalidNumeralDatePanics | src/main.rs:387-391 | A decimal date within the `i32`/`u32` ranges that the calendar rejects panics, on a log line and on a line of the date alone. |
| App.InvalidDateExample | src/main.rs:387-391 | "- 2023-02-30: 80kg" panics with 2023-02-30. |
| App.NamedMonthExample | src/main.rs:377-383 | "- 2023-Dec-03: 80kg" is skipped. |
| App.FirstInvalidDate | src/main.rs:387-391 | The first line whose date panics, or the number of lines when none does. |
| App.IngestMarkdownWeight | src/main.rs:347-409 | A missing path or unreadable file hands over nothing. Otherwise it panics exactly when some line has an invalid date, and hands over the entries of all lines before it, in order. |
| App.WeighingsAtNineAm | src/main.rs:387-391 | Every imported weighing is stamped 09:00 UTC. |
| App.ImportWellFormedLog | src/main.rs:347-409 | A log of well-formed entries imports without panic, one weighing per entry, in order. |
| App.ParseCommand | src/main.rs:99-114 | Only the exact token "q" quits; an unknown token is echoed as itself. |
| App.FirstEnd | src/main.rs:80-114 | The first line that ends the loop (blank or "q") or whose command panics, or the number of lines. |
| App.Dispatch | src/main.rs:99-114 | One command per line. |
| App.CommandLoop | src/main.rs:78-120 | The loop dispatches the command of every line up to the first that is blank or "q" or whose command panics. A panic ends `main` with that command dispatched and nothing saved. The configuration is saved exactly when the loop stops at "q". |
| App.DispatchedCommands | src/main.rs:89-114 | Every dispatched line has a token, its command is that token parsed, and none is quit. |
| App.OnlyExactQuit | src/main.rs:112-113 | "quit" and "Q" are unknown commands. |
| BleHrp.Scan | src/ble_hrp.rs:70-91 | The scan returns every peripheral the adapter saw when it starts, and none when it cannot start. |
| BleHrp.SearchDevices | src/ble_hrp.rs:105-117 | Returns the first device whose advertised address is the target, having queried only the devices up to it. When there is none, every device was queried and none matches. |
| BleHrp.IdentifyDevice | src/ble_hrp.rs:93-120 | An unparsable address finds nothing. Otherwise the result is the first match in scan order, or nothing when no device matches. |
| BleHrp.FindCharacteristic | src/ble_hrp.rs:126-129 | Finds the first characteristic with the UUID, else the end. |
| BleHrp.CharacteristicSubscribe | src/ble_hrp.rs:122-140 | Not found if and only if no characteristic has the UUID. Otherwise it acts on the first match, and subscribed or failed follows the radio outcome. |
| BleHrp.DecodedWhole | src/ble_hrp.rs:55-58 | When every payload has at least two bytes, the whole stream is decoded. |
| BleHrp.ConsumeNotifications | src/ble_hrp.rs:55-62 | One sink write per payload up to the first too-short one. The stream completes exactly when there is none. |
| BleHrp.SessionTrace | src/ble_hrp.rs:13-68 | No call without a device; otherwise the session starts with Connect, goes on to DiscoverServices exactly when the connect succeeds, and goes further only when it streams. |
| BleHrp.RecordHrpDevice | src/ble_hrp.rs:13-68 | The calls made are the session trace. It panics exactly when streaming starts and a payload is shorter than two bytes. |
| BleHrp.DisconnectOnlyAfterStreaming | src/ble_hrp.rs:25-67 | A completed stream disconnects exactly once and as the last call. Every other session never disconnects. |
| BleHrp.EarlyReturns | src/ble_hrp.rs:14-39 | The session makes no call in three cases: the scan fails, there is no address, or no device matches. Failing to connect makes only Connect. Failing discovery stops after DiscoverServices. |
| BleHrp.SubscribeFailureIsOnlyLogged | src/ble_hrp.rs:42-53 | A failed subscribe gives the same trace as a successful one. |
| BleHrp.SubscribeOnlyWhenFound | src/ble_hrp.rs:41-53 | There is no subscribe call if and only if no characteristic is 0x2A37. Every subscribe names it. |
| BleHrp.EveryNotificationIsWritten | src/ble_hrp.rs:55-62 | The sink receives byte 1 of each decoded notification, in order, and nothing when streaming never starts. |

## Left out

- Compaction.RleEncode, Temperature.RleEncode, Heartrate.RleEncode, Temperature.Compress, Heartrate.Compress: require every run to fit an `i16` duration (at most 32767 rows, ShortHistoriesFit). The wrap-around of `step * c` on longer runs is not modelled.
- The `i64` subtraction of neighbouring timestamps is taken as exact. Timestamps near the `i64` limits, where it would overflow, are not modelled.
- Row-mapping `unwrap`s in `compress` are not modelled. They assume the SQLite rows decode.
- SQLite is reduced to a map from id to row with batch and delete outcomes as inputs. SQL text, transactions and the prepared-statement API are not modelled.
- Heartrate.SecondCompressDeletesNothing: holds for the survivors read back in the order the first pass left them. The second read orders by timestamp alone and heart-rate timestamps are not unique, so tied rows can come back swapped and merge (TiedTimestampsRereadExample).
- App.CommandLoop: which commands panic is an input, one flag per line; the panics themselves are modelled in the modules that raise them (Heartrate.Compress, App.IngestMarkdownWeight, BleHrp.RecordHrpDevice).
- App.IngestMarkdownWeight: each insert's success or failure is only printed by the source, so `handedOver` lists the attempted inserts.
- `write_heartrate` and `ble_hrp::start` are not part of this model. Nor are btleplug and tokio: the manager, adapter and peripheral `unwrap`s, `notifications().unwrap()` and asynchrony. Radio outcomes are inputs.
- BleHrp.RecordHrpDevice reports a panic as an output flag; how the panic unwinds through the async runtime is not modelled.
- Parsing of `BDAddr` from text is abstract: the configured address arrives as an `Option<Address>`.
- Not part of this model: `bp.rs`, `weight.rs`, `mood.rs`, `utils.rs`, `build.rs`, the help text, logger set-up, backup and restore, ini file loading and writing, and stdin reading (the loop receives its lines).
- configparser's lower-casing of section and key names is not modelled; keys are compared as given.
- App.NineAmUtc: computed with a days-from-civil formula over the proleptic Gregorian calendar, not with chrono's own code. The year range −262144..262143 follows chrono's limits.
- Text.Lines splits only at '\n' (dropping one '\r' before it, as `str::lines` does); whitespace is the Unicode White_Space set that `trim` and `split_whitespace` use.
