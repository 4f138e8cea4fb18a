/**
 * The application shell: the comment strip and outcome of `upgrade_tables`,
 * the configuration lookup with a default, the markdown weight importer,
 * and the interactive command loop.
 */
module App {
  import opened Options
  import Text

  // ---------------------------------------------------------------------
  // upgrade_tables
  // ---------------------------------------------------------------------

  const MISSING_SCRIPT_PATH: string := "Missing migration script path"
  // Written in pieces so that the verifier can see its characters.
  const READ_SCRIPT_FAILED: string := "Failed to read " + "migration script. " + "Check log for " + "full error."
  const DATABASE_MIGRATED: string := "Database migrated"
  const MIGRATION_FAILED: string := "Failed to run database migration script. Check log for full error."

  predicate IsComment(line: string) {
    Text.StartsWith(line, "--")
  }

  /** The lines kept by the filter: those that do not start with "--", in order. */
  function Uncommented(lines: seq<string>): (kept: seq<string>)
    ensures |kept| <= |lines|
    ensures forall i :: 0 <= i < |kept| ==> !IsComment(kept[i])
  {
    if lines == [] then []
    else (if IsComment(lines[0]) then [] else [lines[0]]) + Uncommented(lines[1..])
  }

  /** The fold that pushes each line and then a '\n' onto the accumulator. */
  function PushLines(acc: string, lines: seq<string>): string
    decreases |lines|
  {
    if lines == [] then acc else PushLines(acc + lines[0] + "\n", lines[1..])
  }

  /**
   * The comment strip of `upgrade_tables`: lines, filter, fold. The
   * stripped script is the in-order concatenation of the lines that do not
   * start with "--", each followed by '\n'.
   */
  function StripComments(contents: string): (stripped: string)
    ensures stripped == Text.Terminated(Uncommented(Text.Lines(contents)))
  {
    PushLinesAppends("", Uncommented(Text.Lines(contents)));
    PushLines("", Uncommented(Text.Lines(contents)))
  }

  lemma {:induction false} PushLinesAppends(acc: string, lines: seq<string>)
    ensures PushLines(acc, lines) == acc + Text.Terminated(lines)
    decreases |lines|
  {
    if lines != [] {
      PushLinesAppends(acc + lines[0] + "\n", lines[1..]);
    }
  }

  lemma {:induction false} UncommentedIdempotent(lines: seq<string>)
    ensures Uncommented(Uncommented(lines)) == Uncommented(lines)
  {
    if lines != [] {
      UncommentedIdempotent(lines[1..]);
      var head := if IsComment(lines[0]) then [] else [lines[0]];
      UncommentedAppend(head, Uncommented(lines[1..]));
      if head != [] {
        assert head[1..] == [];
      }
    }
  }

  lemma {:induction false} UncommentedAppend(a: seq<string>, b: seq<string>)
    ensures Uncommented(a + b) == Uncommented(a) + Uncommented(b)
  {
    if a == [] {
      assert a + b == b;
    } else {
      var head := if IsComment(a[0]) then [] else [a[0]];
      assert (a + b)[0] == a[0];
      assert (a + b)[1..] == a[1..] + b;
      UncommentedAppend(a[1..], b);
      calc {
        Uncommented(a + b);
        head + Uncommented(a[1..] + b);
        head + (Uncommented(a[1..]) + Uncommented(b));
        (head + Uncommented(a[1..])) + Uncommented(b);
      }
    }
  }

  /**
   * For a script none of whose lines ends in a carriage return, the
   * stripped script splits back into exactly the kept lines, none of them a
   * comment, and stripping it again changes nothing.
   */
  lemma StripCommentsIdempotent(contents: string)
    requires forall i :: 0 <= i < |Text.Lines(contents)| ==> Text.PlainLine(Text.Lines(contents)[i])
    ensures Text.Lines(StripComments(contents)) == Uncommented(Text.Lines(contents))
    ensures forall i :: 0 <= i < |Text.Lines(StripComments(contents))| ==>
      !IsComment(Text.Lines(StripComments(contents))[i])
    ensures StripComments(StripComments(contents)) == StripComments(contents)
  {
    var kept := Uncommented(Text.Lines(contents));
    UncommentedKeepsPlainLines(Text.Lines(contents));
    Text.LinesOfTerminated(kept);
    UncommentedIdempotent(Text.Lines(contents));
  }

  /** What `upgrade_tables` hands to the database, and its reply. */
  datatype Upgrade = Upgrade(executed: Option<string>, reply: string)

  /**
   * `upgrade_tables`: `path` is the next argument, `contents` what reading
   * it gave (`None` when the read fails), `batchSucceeds` whether the
   * database runs the script.
   */
  function UpgradeTables(path: Option<string>, contents: Option<string>, batchSucceeds: bool): (r: Upgrade)
    ensures path.None? ==> r == Upgrade(None, MISSING_SCRIPT_PATH)
    ensures path.Some? ==> r.executed.Some? && r.reply == (if batchSucceeds then DATABASE_MIGRATED else MIGRATION_FAILED)
    ensures path.Some? && contents.Some? ==>
      r.executed == Some(Text.Terminated(Uncommented(Text.Lines(contents.value))))
  {
    match path
    case None => Upgrade(None, MISSING_SCRIPT_PATH)
    case Some(_) =>
      var script := match contents
        case Some(text) => text
        case None => READ_SCRIPT_FAILED;
      var stripped := StripComments(script);
      Upgrade(Some(stripped), if batchSucceeds then DATABASE_MIGRATED else MIGRATION_FAILED)
  }

  /**
   * A failed read does not end the command: the error text itself, followed
   * by '\n', is what the database is asked to run.
   */
  lemma UnreadableScriptIsExecuted(path: string, batchSucceeds: bool)
    ensures UpgradeTables(Some(path), None, batchSucceeds).executed == Some(READ_SCRIPT_FAILED + "\n")
  {
    assert READ_SCRIPT_FAILED[0] == 'F';
    SingleLineScript(READ_SCRIPT_FAILED);
  }

  lemma {:induction false} UncommentedKeepsPlainLines(lines: seq<string>)
    requires forall i :: 0 <= i < |lines| ==> Text.PlainLine(lines[i])
    ensures forall i :: 0 <= i < |Uncommented(lines)| ==> Text.PlainLine(Uncommented(lines)[i])
  {
    if lines != [] {
      UncommentedKeepsPlainLines(lines[1..]);
    }
  }

  /** A text of one line, not a comment, is executed as that line and a '\n'. */
  lemma SingleLineScript(line: string)
    requires line != [] && '\n' !in line && !IsComment(line)
    ensures StripComments(line) == line + "\n"
  {
    var k := Text.IndexOf(line, '\n');
    assert k == |line|;
    assert Text.Lines(line) == [line];
    assert Uncommented([line]) == [line] by {
      assert [line][1..] == [];
    }
    assert Text.Terminated([line]) == line + "\n" by {
      assert [line][1..] == [];
    }
  }

  // ---------------------------------------------------------------------
  // set_with_default / write_config
  // ---------------------------------------------------------------------

  /** A sectioned configuration map: section, then key, then an optional value. */
  type SectionedConfig = map<string, map<string, Option<string>>>

  /** The shared configuration behind its lock, which a panicking writer can poison. */
  datatype ConfigLock = Readable(config: SectionedConfig) | Poisoned(error: string)

  datatype Outcome<T> = Ok(value: T) | Err(error: string)

  /** The value stored for `section`/`key`, passed through the option combinators. */
  function StoredValue(config: SectionedConfig, section: string, key: string): Option<string> {
    var sectionMap: Option<map<string, Option<string>>> := if section in config then Some(config[section]) else None;
    var entry: Option<Option<string>> := match sectionMap
      case Some(keys) => if key in keys then Some(keys[key]) else None
      case None => None;
    match entry
    case Some(Some(v)) => Some(v)
    case _ => None
  }

  /** The value `set_with_default` writes: the stored one, else the default. */
  function ValueOrDefault(config: SectionedConfig, section: string, key: string, default: Option<string>)
    : (v: Option<string>)
    ensures v == if section in config && key in config[section] && config[section][key].Some?
                 then config[section][key] else default
  {
    match StoredValue(config, section, key)
    case None => default
    case Some(v) => Some(v)
  }

  function Lookup(ini: SectionedConfig, section: string, key: string): Option<Option<string>> {
    if section in ini && key in ini[section] then Some(ini[section][key]) else None
  }

  /** `ini.set(section, key, value)`. */
  function SetEntry(ini: SectionedConfig, section: string, key: string, value: Option<string>): SectionedConfig {
    var keys := if section in ini then ini[section] else map[];
    ini[section := keys[key := value]]
  }

  /**
   * `set_with_default`: with the lock readable, the entry `section`/`key`
   * of `ini` becomes the stored value or the default and every other entry
   * stays as it was; with the lock poisoned, `ini` is untouched and an
   * error is returned.
   */
  function SetWithDefault(ini: SectionedConfig, lock: ConfigLock, section: string, key: string, default: Option<string>)
    : (r: Outcome<SectionedConfig>)
    ensures lock.Poisoned? <==> r.Err?
    ensures r.Err? ==> r.error == "Failed to aquire lock on config map -> " + lock.error
    ensures r.Ok? ==> Lookup(r.value, section, key) == Some(ValueOrDefault(lock.config, section, key, default))
    ensures r.Ok? ==> forall s, k :: (s != section || k != key) ==> Lookup(r.value, s, k) == Lookup(ini, s, k)
  {
    match lock
    case Poisoned(error) => Err("Failed to aquire lock on config map -> " + error)
    case Readable(config) => Ok(SetEntry(ini, section, key, ValueOrDefault(config, section, key, default)))
  }

  /**
   * `write_config`, up to the file write: a fresh ini holding exactly one
   * entry, `ble_hrp`/`hrp_mac`, set to the stored device address or to no
   * value when none was configured; a poisoned lock saves nothing.
   */
  function WriteConfig(lock: ConfigLock): (r: Outcome<SectionedConfig>)
    ensures r.Err? <==> lock.Poisoned?
    ensures r.Ok? ==>
      && r.value.Keys == {"ble_hrp"} && r.value["ble_hrp"].Keys == {"hrp_mac"}
      && r.value["ble_hrp"]["hrp_mac"]
         == (if "ble_hrp" in lock.config && "hrp_mac" in lock.config["ble_hrp"] then lock.config["ble_hrp"]["hrp_mac"] else None)
  {
    SetWithDefault(map[], lock, "ble_hrp", "hrp_mac", None)
  }

  // ---------------------------------------------------------------------
  // The calendar: 09:00:00 UTC of a proleptic Gregorian date
  // ---------------------------------------------------------------------

  /** The years a calendar date can have (the range of chrono's `NaiveDate`). */
  const MIN_YEAR: int := -262144
  const MAX_YEAR: int := 262143
  const SECONDS_PER_DAY: int := 86400
  /** Measurements are taken to be made at 09:00. */
  const NINE_AM: int := 9 * 3600

  predicate LeapYear(y: int) {
    y % 4 == 0 && (y % 100 != 0 || y % 400 == 0)
  }

  function DaysInMonth(y: int, m: int): (n: int)
    requires 1 <= m <= 12
    ensures 28 <= n <= 31
  {
    if m == 2 then (if LeapYear(y) then 29 else 28)
    else if m == 4 || m == 6 || m == 9 || m == 11 then 30
    else 31
  }

  /** The dates `with_ymd_and_hms` accepts; any other makes its `unwrap` panic. */
  predicate ValidDate(y: int, m: int, d: int) {
    MIN_YEAR <= y <= MAX_YEAR && 1 <= m <= 12 && 1 <= d <= DaysInMonth(y, m)
  }

  /**
   * The days from 1970-01-01 to the date, counted in a calendar whose years
   * start in March; Dafny's `/` and `%` by a positive number round down, as
   * the count of whole 400-year eras needs.
   */
  function DaysFromCivil(y: int, m: int, d: int): int
    requires 1 <= m <= 12
  {
    var marchYear := if m <= 2 then y - 1 else y;
    var era := marchYear / 400;
    var yearOfEra := marchYear % 400;
    var monthFromMarch := if m > 2 then m - 3 else m + 9;
    var dayOfYear := (153 * monthFromMarch + 2) / 5 + d - 1;
    var dayOfEra := yearOfEra * 365 + yearOfEra / 4 - yearOfEra / 100 + dayOfYear;
    era * 146097 + dayOfEra - 719468
  }

  /** The Unix time of 09:00:00 UTC on the date. */
  function NineAmUtc(y: int, m: int, d: int): (t: int)
    requires ValidDate(y, m, d)
    ensures t % SECONDS_PER_DAY == NINE_AM
  {
    var days := DaysFromCivil(y, m, d);
    NineAmOfDay(days);
    days * SECONDS_PER_DAY + NINE_AM
  }

  lemma NineAmOfDay(days: int)
    ensures (days * SECONDS_PER_DAY + NINE_AM) % SECONDS_PER_DAY == NINE_AM
  {
  }

  lemma UnixEpoch()
    ensures NineAmUtc(1970, 1, 1) == NINE_AM
  {
  }

  /** The day after a date. */
  function NextDay(y: int, m: int, d: int): (int, int, int)
    requires ValidDate(y, m, d)
  {
    if d < DaysInMonth(y, m) then (y, m, d + 1)
    else if m < 12 then (y, m + 1, 1)
    else (y + 1, 1, 1)
  }

  /** The days from 1 March of year 0 to 1 March of the year `marchYear`. */
  function MarchYearStart(marchYear: int): int {
    var yearOfEra := marchYear % 400;
    (marchYear / 400) * 146097 + yearOfEra * 365 + yearOfEra / 4 - yearOfEra / 100
  }

  /** Division by 4, 100 or 400 is determined by quotient and remainder. */
  lemma DivisionUnique(n: int, k: int, q: int, r: int)
    requires k == 4 || k == 100 || k == 400
    requires n == k * q + r && 0 <= r < k
    ensures n / k == q && n % k == r
  {
    if k == 4 {
      assert n == 4 * q + r;
    } else if k == 100 {
      assert n == 100 * q + r;
    } else {
      assert n == 400 * q + r;
    }
  }

  /** Adding one to a natural number adds one to its quotient exactly when the sum is a multiple. */
  lemma QuotientStep(r: nat, k: int)
    requires k == 4 || k == 100
    ensures (r + 1) / k - r / k == if (r + 1) % k == 0 then 1 else 0
  {
    var a := r / k;
    var b := r % k;
    if k == 4 {
      DivisionUnique(r, 4, a, b);
      if b == 3 {
        DivisionUnique(r + 1, 4, a + 1, 0);
      } else {
        DivisionUnique(r + 1, 4, a, b + 1);
      }
    } else {
      DivisionUnique(r, 100, a, b);
      if b == 99 {
        DivisionUnique(r + 1, 100, a + 1, 0);
      } else {
        DivisionUnique(r + 1, 100, a, b + 1);
      }
    }
  }

  /** The start of a March-based year from its era and its year within the era. */
  lemma MarchYearStartOf(y: int, q: int, r: int)
    requires y == 400 * q + r && 0 <= r < 400
    ensures MarchYearStart(y) == q * 146097 + r * 365 + r / 4 - r / 100
  {
    DivisionUnique(y, 400, q, r);
  }

  /** Inside an era, a year is a leap year when its year of the era is a multiple of 4 but not of 100. */
  lemma LeapYearOf(y: int, q: int, r: int)
    requires y == 400 * q + r && 0 < r < 400
    ensures LeapYear(y) <==> r % 4 == 0 && r % 100 != 0
  {
    DivisionUnique(y, 400, q, r);
    DivisionUnique(y, 4, 100 * q + r / 4, r % 4);
    DivisionUnique(y, 100, 4 * q + r / 100, r % 100);
  }

  lemma MarchYearLengthInEra(y: int, q: int, r: int)
    requires y - 1 == 400 * q + r && 0 <= r < 399
    ensures MarchYearStart(y) - MarchYearStart(y - 1) == if LeapYear(y) then 366 else 365
  {
    assert MarchYearStart(y) - MarchYearStart(y - 1)
      == 365 + ((r + 1) / 4 - r / 4) - ((r + 1) / 100 - r / 100) by {
      MarchYearStartOf(y - 1, q, r);
      MarchYearStartOf(y, q, r + 1);
    }
    QuotientStep(r, 4);
    QuotientStep(r, 100);
    LeapYearOf(y, q, r + 1);
    if (r + 1) % 100 == 0 {
      DivisionUnique(r + 1, 100, (r + 1) / 100, 0);
      DivisionUnique(r + 1, 4, 25 * ((r + 1) / 100), 0);
    }
  }

  lemma MarchYearLengthAtEraStart(y: int, q: int)
    requires y == 400 * q
    ensures MarchYearStart(y) - MarchYearStart(y - 1) == 366 && LeapYear(y)
  {
    MarchYearStartOf(y - 1, q - 1, 399);
    MarchYearStartOf(y, q, 0);
    DivisionUnique(y, 4, 100 * q, 0);
    DivisionUnique(y, 100, 4 * q, 0);
    DivisionUnique(y, 400, q, 0);
  }

  /** A March-based year that contains a 29 February has 366 days. */
  lemma MarchYearLength(y: int)
    ensures MarchYearStart(y) - MarchYearStart(y - 1) == if LeapYear(y) then 366 else 365
  {
    var q := (y - 1) / 400;
    var r := (y - 1) % 400;
    if r < 399 {
      MarchYearLengthInEra(y, q, r);
    } else {
      MarchYearLengthAtEraStart(y, q + 1);
    }
  }

  /** The last day of a month other than February is followed by the first of the next month. */
  lemma MonthEndIsOneDayLater(y: int, m: int)
    requires 1 <= m <= 12 && m != 2
    ensures var (y', m') := if m < 12 then (y, m + 1) else (y + 1, 1);
      DaysFromCivil(y', m', 1) == DaysFromCivil(y, m, DaysInMonth(y, m)) + 1
  {
  }

  /** The last day of February is followed by 1 March, one year length after the previous 1 March. */
  lemma FebruaryEndIsOneDayLater(y: int)
    ensures DaysFromCivil(y, 3, 1) == DaysFromCivil(y, 2, DaysInMonth(y, 2)) + 1
  {
    MarchYearLength(y);
    assert DaysFromCivil(y, 3, 1) == MarchYearStart(y) - 719468;
    assert DaysFromCivil(y, 2, DaysInMonth(y, 2)) == MarchYearStart(y - 1) + 336 + DaysInMonth(y, 2) - 719468;
  }

  /** Consecutive days are 86400 seconds apart, across month and year ends. */
  lemma NextDayIsOneDayLater(y: int, m: int, d: int)
    requires ValidDate(y, m, d)
    requires var (y', m', d') := NextDay(y, m, d); ValidDate(y', m', d')
    ensures var (y', m', d') := NextDay(y, m, d); NineAmUtc(y', m', d') == NineAmUtc(y, m, d) + SECONDS_PER_DAY
  {
    var (y', m', d') := NextDay(y, m, d);
    if d < DaysInMonth(y, m) {
      assert DaysFromCivil(y', m', d') == DaysFromCivil(y, m, d) + 1;
    } else if m == 2 {
      FebruaryEndIsOneDayLater(y);
    } else {
      MonthEndIsOneDayLater(y, m);
    }
  }

  // ---------------------------------------------------------------------
  // ingest_markdown_weight
  // ---------------------------------------------------------------------

  /** What the importer does with one line. */
  datatype WeightLine =
    | Skipped
    | InvalidDate(year: int, month: int, day: int)
    | Entry(timestamp: int, weight: string)

  /**
   * One pass of the importer's loop: drop every "- ", split on ':', split
   * the first part on '-' into year (`i32`), month and day (`u32`); a
   * missing or unparsable component skips the line and further pieces are
   * ignored. A date the calendar rejects panics. A line without a second
   * ':' piece is skipped after the date is checked; otherwise the weight is
   * that piece trimmed, with every "kg" dropped.
   */
  function ParseWeightLine(line: string): (r: WeightLine)
    ensures r.InvalidDate? ==> !ValidDate(r.year, r.month, r.day)
    ensures r.Entry? ==> r.timestamp % SECONDS_PER_DAY == NINE_AM
    ensures r.Entry? ==> exists y, m, d :: ValidDate(y, m, d) && r.timestamp == NineAmUtc(y, m, d)
  {
    var parts := Text.Split(Text.RemoveAll(line, "- "), ':');
    match DateOf(parts[0])
    case None => Skipped
    case Some((year, month, day)) =>
      if !ValidDate(year, month, day) then InvalidDate(year, month, day)
      else if |parts| < 2 then Skipped
      else Entry(NineAmUtc(year, month, day), Text.RemoveAll(Text.Trim(parts[1]), "kg"))
  }

  /**
   * The year (`i32`), month and day (`u32`) of the date piece, when the
   * piece has three '-'-separated parts and all three parse; parts after
   * the third are ignored, and a missing or unparsable part gives nothing.
   */
  function DateOf(piece: string): (date: Option<(int, int, int)>)
    ensures date.Some? <==>
      var parts := Text.Split(piece, '-');
      && |parts| >= 3
      && Text.ParseI32(parts[0]).Some? && Text.ParseU32(parts[1]).Some? && Text.ParseU32(parts[2]).Some?
    ensures date.Some? ==>
      var parts := Text.Split(piece, '-');
      date.value == (Text.ParseI32(parts[0]).value, Text.ParseU32(parts[1]).value, Text.ParseU32(parts[2]).value)
    ensures date.Some? ==>
      && -Text.I32_MAX - 1 <= date.value.0 <= Text.I32_MAX
      && 0 <= date.value.1 <= Text.U32_MAX && 0 <= date.value.2 <= Text.U32_MAX
    ensures date.Some? ==>
      var parts := Text.Split(piece, '-');
      && |parts| >= 3
      && Text.IntegerSyntax(parts[0], true)
      && Text.IntegerSyntax(parts[1], false)
      && Text.IntegerSyntax(parts[2], false)
  {
    var dateParts := Text.Split(piece, '-');
    var year := Text.ParseI32(dateParts[0]);
    var month := if |dateParts| > 1 then Text.ParseU32(dateParts[1]) else None;
    var day := if |dateParts| > 2 then Text.ParseU32(dateParts[2]) else None;
    if year.None? || month.None? || day.None? then None
    else Some((year.value, month.value, day.value))
  }

  /** A weight text as it appears before "kg" in a log line. */
  predicate PlainWeight(weight: string) {
    && ':' !in weight
    && '\n' !in weight
    && (weight == [] || !Text.IsWhitespace(weight[0]))
    && Text.NoPair(weight, '-', ' ')
    && Text.NoPair(weight, 'k', 'g')
  }

  /** The line format the importer reads: `- YYYY-MM-DD: <weight>kg`. */
  function WeightLogLine(year: string, month: string, day: string, weight: string): string {
    "- " + year + "-" + month + "-" + day + ": " + weight + "kg"
  }

  predicate Numeral(s: string) {
    |s| > 0 && Text.AllDigits(s)
  }

  /**
   * A date component as it can sit between the separators of a log line:
   * free of '-' and ':' and not starting with a space; it need not be a
   * number.
   */
  predicate DatePiece(c: string) {
    '-' !in c && ':' !in c && (c == [] || c[0] != ' ')
  }

  lemma {:induction false} DatePieceHasNoDash(c: string)
    requires DatePiece(c)
    ensures Text.NoPair(c, '-', ' ')
  {
    forall i | 0 <= i < |c| - 1 ensures !(c[i] == '-' && c[i + 1] == ' ') {
      assert c[i] in c;
    }
  }

  /** A numeral is a date component. */
  lemma NumeralIsDatePiece(n: string)
    requires Numeral(n)
    ensures DatePiece(n)
  {
    assert forall i :: 0 <= i < |n| ==> Text.IsDigit(n[i]);
  }

  /** The date of a log line holds no "- ". */
  lemma {:induction false} DateHasNoDash(year: string, month: string, day: string)
    requires DatePiece(year) && DatePiece(month) && DatePiece(day)
    ensures Text.NoPair(year + "-" + month + "-" + day, '-', ' ')
  {
    DatePieceHasNoDash(year);
    DatePieceHasNoDash(month);
    DatePieceHasNoDash(day);
    if year != [] {
      assert year[|year| - 1] in year;
    }
    var p2 := year + "-";
    Text.NoPairAppend(year, "-", '-', ' ');
    var p3 := p2 + month;
    Text.NoPairAppend(p2, month, '-', ' ');
    var p4 := p3 + "-";
    Text.NoPairAppend(p3, "-", '-', ' ');
    Text.NoPairAppend(p4, day, '-', ' ');
  }

  /** The body of a log line after its "- " holds no further "- ". */
  lemma {:induction false} LogLineBodyHasNoDash(year: string, month: string, day: string, weight: string)
    requires DatePiece(year) && DatePiece(month) && DatePiece(day) && PlainWeight(weight)
    ensures Text.NoPair((year + "-" + month + "-" + day) + [':'] + (" " + weight + "kg"), '-', ' ')
  {
    var date := year + "-" + month + "-" + day;
    DateHasNoDash(year, month, day);
    Text.NoPairAppend(date, [':'], '-', ' ');
    Text.NoPairAppend(" ", weight, '-', ' ');
    Text.NoPairAppend(" " + weight, "kg", '-', ' ');
    Text.NoPairAppend(date + [':'], " " + weight + "kg", '-', ' ');
  }

  /** The date and weight of a log line hold no "- " for the importer to drop. */
  lemma {:induction false} LogLineDropsNothing(year: string, month: string, day: string, weight: string)
    requires DatePiece(year) && DatePiece(month) && DatePiece(day) && PlainWeight(weight)
    ensures Text.RemoveAll(WeightLogLine(year, month, day, weight), "- ")
      == (year + "-" + month + "-" + day) + [':'] + (" " + weight + "kg")
  {
    var x := (year + "-" + month + "-" + day) + [':'] + (" " + weight + "kg");
    LogLineBodyHasNoDash(year, month, day, weight);
    LogLineShape(year, month, day, weight);
    Text.RemoveOnlyLeadingPair(x, '-', ' ');
  }

  /** A log line is "- ", the date, ':' and the weight piece. */
  lemma LogLineShape(year: string, month: string, day: string, weight: string)
    ensures WeightLogLine(year, month, day, weight)
      == ['-', ' '] + ((year + "-" + month + "-" + day) + [':'] + (" " + weight + "kg"))
  {
  }

  /** A line holding only the date, "- " then the date, comes to the date alone. */
  lemma {:induction false} DateLineDropsNothing(year: string, month: string, day: string)
    requires DatePiece(year) && DatePiece(month) && DatePiece(day)
    ensures Text.RemoveAll("- " + year + "-" + month + "-" + day, "- ") == year + "-" + month + "-" + day
  {
    var date := year + "-" + month + "-" + day;
    DateHasNoDash(year, month, day);
    assert "- " + year + "-" + month + "-" + day == ['-', ' '] + date;
    Text.RemoveOnlyLeadingPair(date, '-', ' ');
  }

  /** A log line without its "- " splits at ':' into its date and its weight piece. */
  lemma {:induction false} LogLineSplitsAtColon(year: string, month: string, day: string, weight: string)
    requires DatePiece(year) && DatePiece(month) && DatePiece(day) && PlainWeight(weight)
    ensures var date := year + "-" + month + "-" + day;
      Text.Split(date + [':'] + (" " + weight + "kg"), ':') == [date, " " + weight + "kg"]
  {
    var date := year + "-" + month + "-" + day;
    var tail := " " + weight + "kg";
    assert ':' !in date && ':' !in tail;
    Text.SplitFirst(date, tail, ':');
    Text.SplitNone(tail, ':');
  }

  /** The date of a log line splits at '-' into its three components. */
  lemma {:induction false} DateSplitsAtDashes(year: string, month: string, day: string)
    requires '-' !in year && '-' !in month && '-' !in day
    ensures Text.Split(year + "-" + month + "-" + day, '-') == [year, month, day]
  {
    var tail := month + ['-'] + day;
    assert Text.Split(tail, '-') == [month] + [day] by {
      Text.SplitNone(day, '-');
      Text.SplitFirst(month, day, '-');
    }
    assert Text.Split(year + ['-'] + tail, '-') == [year] + Text.Split(tail, '-') by {
      Text.SplitFirst(year, tail, '-');
    }
    DateShape(year, month, day);
  }

  /** A date is its year, a '-', and the rest. */
  lemma DateShape(year: string, month: string, day: string)
    ensures year + "-" + month + "-" + day == year + ['-'] + (month + ['-'] + day)
  {
  }

  /** Trimming the weight piece removes only the space after the ':'. */
  lemma TrimWeightPiece(weight: string)
    requires weight == [] || !Text.IsWhitespace(weight[0])
    ensures Text.Trim(" " + weight + "kg") == weight + "kg"
  {
    var kept := weight + "kg";
    assert Text.TrimStart(" " + weight + "kg") == kept by {
      assert " " + weight + "kg" == [' '] + kept;
      Text.TrimStartSkips(' ', kept);
      assert kept[0] == if weight == [] then 'k' else weight[0];
      Text.TrimStartKeeps(kept);
    }
    assert Text.TrimEnd(kept) == kept by {
      assert kept[|kept| - 1] == 'g';
      Text.TrimEndKeeps(kept);
    }
  }

  /** In a weight free of "kg" and followed by "kg", no occurrence starts inside the weight. */
  lemma UnitOnlyAtEnd(weight: string)
    requires Text.NoPair(weight, 'k', 'g')
    ensures forall i :: 0 <= i < |weight| ==> !Text.OccursAt(weight + "kg", "kg", i)
  {
    var kept := weight + "kg";
    Text.NoPairAppend(weight, "k", 'k', 'g');
    Text.NoPairNoOccurrence(weight + "k", 'k', 'g');
    forall i | 0 <= i < |weight| ensures !Text.OccursAt(kept, "kg", i) {
      assert !Text.OccursAt(weight + "k", ['k', 'g'], i);
      if i + 2 <= |kept| {
        assert kept[i..i + 2] == (weight + "k")[i..i + 2];
      }
    }
  }

  /** Dropping "kg" from a weight free of it and followed by "kg" leaves the weight. */
  lemma DropUnit(weight: string)
    requires Text.NoPair(weight, 'k', 'g')
    ensures Text.RemoveAll(weight + "kg", "kg") == weight
  {
    UnitOnlyAtEnd(weight);
    Text.RemoveAllKeeps(weight, "kg", "kg");
    assert Text.RemoveAll("kg", "kg") == "" by {
      assert "kg" == "kg" + "";
      Text.RemoveAllLeading("kg", "");
    }
    assert weight + "" == weight;
  }

  /**
   * A line holding only "- " and a date: a component that does not parse
   * skips it, a date the calendar rejects panics although no weight
   * follows, and a valid date is skipped for want of a weight.
   */
  lemma {:induction false} DateOnlyLine(year: string, month: string, day: string)
    requires DatePiece(year) && DatePiece(month) && DatePiece(day)
    ensures var y, m, d := Text.ParseI32(year), Text.ParseU32(month), Text.ParseU32(day);
      ParseWeightLine("- " + year + "-" + month + "-" + day)
        == if y.None? || m.None? || d.None? then Skipped
           else if ValidDate(y.value, m.value, d.value) then Skipped
           else InvalidDate(y.value, m.value, d.value)
  {
    var date := year + "-" + month + "-" + day;
    assert Text.Split(Text.RemoveAll("- " + year + "-" + month + "-" + day, "- "), ':') == [date] by {
      DateLineDropsNothing(year, month, day);
      assert ':' !in date;
      Text.SplitNone(date, ':');
    }
    DateSplitsAtDashes(year, month, day);
  }

  /**
   * A line in the documented format, with any date components and a weight
   * free of the characters the parser splits on or drops: a component that
   * does not parse skips it, a date the calendar rejects panics, and a
   * valid date gives 09:00 UTC on that date with that weight.
   */
  lemma {:induction false} LogLineOutcome(year: string, month: string, day: string, weight: string)
    requires DatePiece(year) && DatePiece(month) && DatePiece(day) && PlainWeight(weight)
    ensures var y, m, d := Text.ParseI32(year), Text.ParseU32(month), Text.ParseU32(day);
      ParseWeightLine(WeightLogLine(year, month, day, weight))
        == if y.None? || m.None? || d.None? then Skipped
           else if ValidDate(y.value, m.value, d.value) then Entry(NineAmUtc(y.value, m.value, d.value), weight)
           else InvalidDate(y.value, m.value, d.value)
  {
    var date := year + "-" + month + "-" + day;
    var tail := " " + weight + "kg";
    var text := Text.RemoveAll(WeightLogLine(year, month, day, weight), "- ");
    assert text == date + [':'] + tail by {
      LogLineDropsNothing(year, month, day, weight);
    }
    assert Text.Split(text, ':') == [date, tail] by {
      LogLineSplitsAtColon(year, month, day, weight);
    }
    DateSplitsAtDashes(year, month, day);
    assert Text.RemoveAll(Text.Trim(tail), "kg") == weight by {
      TrimWeightPiece(weight);
      DropUnit(weight);
    }
  }

  /**
   * A line in the documented format, with the date written in decimal
   * digits and the weight free of the characters the parser splits on or
   * drops, is read back as 09:00 UTC on that date with that weight.
   */
  lemma WeightLogLineRoundTrip(year: string, month: string, day: string, weight: string)
    requires Numeral(year) && Numeral(month) && Numeral(day)
    requires ValidDate(Text.DigitsValue(year), Text.DigitsValue(month), Text.DigitsValue(day))
    requires PlainWeight(weight)
    ensures ParseWeightLine(WeightLogLine(year, month, day, weight))
      == Entry(NineAmUtc(Text.DigitsValue(year), Text.DigitsValue(month), Text.DigitsValue(day)), weight)
  {
    NumeralIsDatePiece(year);
    NumeralIsDatePiece(month);
    NumeralIsDatePiece(day);
    LogLineOutcome(year, month, day, weight);
    Text.ParseDigits(year, true);
    Text.ParseDigits(month, false);
    Text.ParseDigits(day, false);
  }

  /**
   * A date written in decimal digits within the `i32` and `u32` ranges
   * but rejected by the calendar makes the importer panic, on a log line
   * and on a line of the date alone.
   */
  lemma InvalidNumeralDatePanics(year: string, month: string, day: string, weight: string)
    requires Numeral(year) && Numeral(month) && Numeral(day) && PlainWeight(weight)
    requires Text.DigitsValue(year) <= Text.I32_MAX
    requires Text.DigitsValue(month) <= Text.U32_MAX && Text.DigitsValue(day) <= Text.U32_MAX
    requires !ValidDate(Text.DigitsValue(year), Text.DigitsValue(month), Text.DigitsValue(day))
    ensures ParseWeightLine(WeightLogLine(year, month, day, weight))
      == InvalidDate(Text.DigitsValue(year), Text.DigitsValue(month), Text.DigitsValue(day))
    ensures ParseWeightLine("- " + year + "-" + month + "-" + day)
      == InvalidDate(Text.DigitsValue(year), Text.DigitsValue(month), Text.DigitsValue(day))
  {
    NumeralIsDatePiece(year);
    NumeralIsDatePiece(month);
    NumeralIsDatePiece(day);
    LogLineOutcome(year, month, day, weight);
    DateOnlyLine(year, month, day);
    Text.ParseDigits(year, true);
    Text.ParseDigits(month, false);
    Text.ParseDigits(day, false);
  }

  /** The date numerals of the documentation's example and their values. */
  lemma ExampleNumerals()
    ensures Numeral("2023") && Numeral("12") && Numeral("03")
    ensures Text.DigitsValue("2023") == 2023 && Text.DigitsValue("12") == 12 && Text.DigitsValue("03") == 3
  {
    assert "2023"[..3] == "202" && "202"[..2] == "20" && "20"[..1] == "2" && "2"[..0] == "";
    assert "12"[..1] == "1" && "1"[..0] == "";
    assert "03"[..1] == "0" && "0"[..0] == "";
  }

  /** 3 December 2023 is day 19694 of the Unix calendar. */
  lemma ExampleDay()
    ensures DaysFromCivil(2023, 12, 3) == 19694
  {
    assert 2023 / 400 == 5 && 2023 % 400 == 23;
    assert 23 / 4 == 5 && 23 / 100 == 0;
    assert (153 * 9 + 2) / 5 == 275;
  }

  /** The weight of the documentation's example is plain. */
  lemma ExampleWeight()
    ensures PlainWeight("105.4")
  {
    var w := "105.4";
    assert forall i :: 0 <= i < |w| ==> w[i] != '-' && w[i] != 'k';
  }

  /** The example of the importer's documentation, "- 2023-12-03: 105.4kg". */
  lemma WeightLogExample(line: string)
    requires line == WeightLogLine("2023", "12", "03", "105.4")
    ensures ParseWeightLine(line) == Entry(1701594000, "105.4")
  {
    ExampleNumerals();
    ExampleDay();
    ExampleWeight();
    WeightLogLineRoundTrip("2023", "12", "03", "105.4");
  }

  /** "- 2023-02-30: 80kg" names a day February 2023 does not have: the importer panics. */
  lemma InvalidDateExample()
    ensures ParseWeightLine(WeightLogLine("2023", "02", "30", "80")) == InvalidDate(2023, 2, 30)
  {
    ExampleNumerals();
    assert "02"[..1] == "0" && "0"[..0] == "";
    assert "30"[..1] == "3" && "3"[..0] == "";
    assert Numeral("02") && Numeral("30");
    assert Text.DigitsValue("02") == 2 && Text.DigitsValue("30") == 30;
    var w := "80";
    assert forall i :: 0 <= i < |w| ==> w[i] != '-' && w[i] != 'k';
    InvalidNumeralDatePanics("2023", "02", "30", "80");
  }

  /** "- 2023-Dec-03: 80kg" has a month that is not a number: the importer skips it. */
  lemma NamedMonthExample()
    ensures ParseWeightLine(WeightLogLine("2023", "Dec", "03", "80")) == Skipped
  {
    assert !Text.AllDigits("Dec") by {
      assert !Text.IsDigit("Dec"[0]);
    }
    assert !Text.AllDigits("Dec"[1..]) by {
      assert !Text.IsDigit("Dec"[1..][0]);
    }
    assert DatePiece("2023") && DatePiece("Dec") && DatePiece("03") && PlainWeight("80") by {
      var w := "80";
      assert forall i :: 0 <= i < |w| ==> w[i] != '-' && w[i] != 'k';
    }
    LogLineOutcome("2023", "Dec", "03", "80");
  }

  /**
   * A line "- " + date + ": " + weight + "kg", whatever its date text, as
   * long as that holds no ':' and no "- ": the outcome is decided by `DateOf`
   * of the date text alone.
   */
  lemma {:induction false} LineOfDate(date: string, weight: string)
    requires ':' !in date && Text.NoPair(date, '-', ' ') && PlainWeight(weight)
    ensures ParseWeightLine("- " + date + ": " + weight + "kg")
      == match DateOf(date)
         case None => Skipped
         case Some((y, m, d)) =>
           if ValidDate(y, m, d) then Entry(NineAmUtc(y, m, d), weight) else InvalidDate(y, m, d)
  {
    var tail := " " + weight + "kg";
    var x := date + [':'] + tail;
    assert Text.NoPair(x, '-', ' ') by {
      Text.NoPairAppend(date, [':'], '-', ' ');
      Text.NoPairAppend(" ", weight, '-', ' ');
      Text.NoPairAppend(" " + weight, "kg", '-', ' ');
      Text.NoPairAppend(date + [':'], tail, '-', ' ');
    }
    assert Text.RemoveAll("- " + date + ": " + weight + "kg", "- ") == x by {
      LineOfDateShape(date, weight);
      Text.RemoveOnlyLeadingPair(x, '-', ' ');
    }
    assert Text.Split(x, ':') == [date, tail] by {
      assert ':' !in tail;
      Text.SplitFirst(date, tail, ':');
      Text.SplitNone(tail, ':');
    }
    assert Text.RemoveAll(Text.Trim(tail), "kg") == weight by {
      TrimWeightPiece(weight);
      DropUnit(weight);
    }
  }

  lemma LineOfDateShape(date: string, weight: string)
    ensures "- " + date + ": " + weight + "kg" == ['-', ' '] + (date + [':'] + (" " + weight + "kg"))
  {
  }

  /**
   * Parts of the date after the third are ignored: a log line whose date
   * has a fourth '-'-separated part reads as the line without it.
   */
  lemma {:induction false} ExtraDatePartsIgnored(year: string, month: string, day: string, rest: string, weight: string)
    requires DatePiece(year) && DatePiece(month) && DatePiece(day) && DatePiece(rest) && PlainWeight(weight)
    ensures ParseWeightLine("- " + year + "-" + month + "-" + day + "-" + rest + ": " + weight + "kg")
      == ParseWeightLine(WeightLogLine(year, month, day, weight))
  {
    var date := year + "-" + month + "-" + day;
    var longer := date + "-" + rest;
    LongerDate(year, month, day, rest);
    LineOfDate(longer, weight);
    LineOfDate(date, weight);
    LongerLineShape(year, month, day, rest, weight);
  }

  lemma LongerLineShape(year: string, month: string, day: string, rest: string, weight: string)
    ensures "- " + year + "-" + month + "-" + day + "-" + rest + ": " + weight + "kg"
      == "- " + (year + "-" + month + "-" + day + "-" + rest) + ": " + weight + "kg"
    ensures WeightLogLine(year, month, day, weight) == "- " + (year + "-" + month + "-" + day) + ": " + weight + "kg"
  {
  }

  /** A date with a fourth part holds no ':' or "- ", and has the date of its first three parts. */
  lemma {:induction false} LongerDate(year: string, month: string, day: string, rest: string)
    requires DatePiece(year) && DatePiece(month) && DatePiece(day) && DatePiece(rest)
    ensures var date := year + "-" + month + "-" + day;
      var longer := date + "-" + rest;
      && ':' !in date && Text.NoPair(date, '-', ' ')
      && ':' !in longer && Text.NoPair(longer, '-', ' ')
      && DateOf(longer) == DateOf(date)
  {
    var date := year + "-" + month + "-" + day;
    var longer := date + "-" + rest;
    assert Text.NoPair(date, '-', ' ') && Text.NoPair(longer, '-', ' ') by {
      DateHasNoDash(year, month, day);
      DatePieceHasNoDash(rest);
      Text.NoPairAppend(date, "-", '-', ' ');
      Text.NoPairAppend(date + "-", rest, '-', ' ');
    }
    assert ':' !in date && ':' !in longer;
    assert Text.Split(longer, '-') == [year] + ([month] + ([day] + [rest])) by {
      LongerDateShape(year, month, day, rest);
      Text.SplitNone(rest, '-');
      Text.SplitFirst(day, rest, '-');
      Text.SplitFirst(month, day + ['-'] + rest, '-');
      Text.SplitFirst(year, month + ['-'] + (day + ['-'] + rest), '-');
    }
    DateSplitsAtDashes(year, month, day);
  }

  lemma LongerDateShape(year: string, month: string, day: string, rest: string)
    ensures year + "-" + month + "-" + day + "-" + rest == year + ['-'] + (month + ['-'] + (day + ['-'] + rest))
  {
  }

  /** A date with only one or two '-'-separated parts skips the line. */
  lemma {:induction false} MissingDatePartsSkip(year: string, month: string, weight: string)
    requires DatePiece(year) && DatePiece(month) && PlainWeight(weight)
    ensures ParseWeightLine("- " + year + ": " + weight + "kg") == Skipped
    ensures ParseWeightLine("- " + year + "-" + month + ": " + weight + "kg") == Skipped
  {
    ShortDates(year, month);
    LineOfDate(year, weight);
    LineOfDate(year + "-" + month, weight);
    ShortLineShape(year, month, weight);
  }

  lemma ShortLineShape(year: string, month: string, weight: string)
    ensures "- " + year + "-" + month + ": " + weight + "kg" == "- " + (year + "-" + month) + ": " + weight + "kg"
  {
  }

  /** A year alone, or a year and a month, holds no ':' or "- " and gives no date. */
  lemma {:induction false} ShortDates(year: string, month: string)
    requires DatePiece(year) && DatePiece(month)
    ensures ':' !in year && Text.NoPair(year, '-', ' ') && DateOf(year) == None
    ensures var date := year + "-" + month;
      ':' !in date && Text.NoPair(date, '-', ' ') && DateOf(date) == None
  {
    DatePieceHasNoDash(year);
    DatePieceHasNoDash(month);
    assert DateOf(year) == None by {
      Text.SplitNone(year, '-');
    }
    var date := year + "-" + month;
    assert Text.NoPair(date, '-', ' ') by {
      Text.NoPairAppend(year, "-", '-', ' ');
      Text.NoPairAppend(year + "-", month, '-', ' ');
    }
    assert DateOf(date) == None by {
      assert date == year + ['-'] + month;
      Text.SplitFirst(year, month, '-');
      Text.SplitNone(month, '-');
    }
    assert ':' !in date;
  }

  /** A row the importer hands to the database. */
  datatype Weighing = Weighing(timestamp: int, weight: string)

  /** The position of the first line whose date the calendar rejects, or the number of lines. */
  function FirstInvalidDate(lines: seq<string>): (k: nat)
    ensures k <= |lines|
    ensures k < |lines| ==> ParseWeightLine(lines[k]).InvalidDate?
    ensures forall j :: 0 <= j < k ==> !ParseWeightLine(lines[j]).InvalidDate?
  {
    if lines == [] then 0
    else if ParseWeightLine(lines[0]).InvalidDate? then 0
    else 1 + FirstInvalidDate(lines[1..])
  }

  lemma FirstInvalidDateAt(lines: seq<string>, i: nat)
    requires i < |lines| && i <= FirstInvalidDate(lines) && ParseWeightLine(lines[i]).InvalidDate?
    ensures FirstInvalidDate(lines) == i
  {
  }

  lemma FirstInvalidDateAfter(lines: seq<string>, i: nat)
    requires i < |lines| && i <= FirstInvalidDate(lines) && !ParseWeightLine(lines[i]).InvalidDate?
    ensures i + 1 <= FirstInvalidDate(lines)
  {
  }

  /** The rows the entry lines give, in line order. */
  function Weighings(lines: seq<string>): seq<Weighing> {
    if lines == [] then []
    else
      var last := ParseWeightLine(lines[|lines| - 1]);
      Weighings(lines[..|lines| - 1]) + (if last.Entry? then [Weighing(last.timestamp, last.weight)] else [])
  }

  /**
   * `ingest_markdown_weight`: `path` is the next argument and `contents`
   * what reading it gave (`None` when the read fails); either missing ends
   * the command at once. Otherwise every line is parsed in turn and each
   * entry is handed to the database (a failed insert is only reported);
   * the first date the calendar rejects panics, after the rows before it
   * have been handed over.
   */
  method IngestMarkdownWeight(path: Option<string>, contents: Option<string>)
    returns (handedOver: seq<Weighing>, panicked: bool)
    ensures path.None? || contents.None? ==> handedOver == [] && !panicked
    ensures path.Some? && contents.Some? ==>
      var lines := Text.Lines(contents.value);
      && panicked == (FirstInvalidDate(lines) < |lines|)
      && handedOver == Weighings(lines[..FirstInvalidDate(lines)])
  {
    handedOver := [];
    panicked := false;
    if path.None? || contents.None? {
      return;
    }
    var lines := Text.Lines(contents.value);
    for i := 0 to |lines|
      invariant i <= FirstInvalidDate(lines)
      invariant handedOver == Weighings(lines[..i])
    {
      var parsed := ParseWeightLine(lines[i]);
      assert lines[..i + 1][..i] == lines[..i];
      if parsed.InvalidDate? {
        FirstInvalidDateAt(lines, i);
        panicked := true;
        return;
      }
      FirstInvalidDateAfter(lines, i);
      if parsed.Entry? {
        handedOver := handedOver + [Weighing(parsed.timestamp, parsed.weight)];
      }
    }
    assert lines[..|lines|] == lines;
  }

  /** Every row the importer hands over is stamped 09:00 UTC. */
  lemma {:induction false} WeighingsAtNineAm(lines: seq<string>)
    ensures forall w :: w in Weighings(lines) ==> w.timestamp % SECONDS_PER_DAY == NINE_AM
  {
    if lines != [] {
      WeighingsAtNineAm(lines[..|lines| - 1]);
    }
  }

  /** One line of a weight log: a date in decimal numerals and a weight. */
  datatype LogEntry = LogEntry(year: string, month: string, day: string, weight: string)

  predicate WellFormed(e: LogEntry) {
    && Numeral(e.year) && Numeral(e.month) && Numeral(e.day)
    && ValidDate(Text.DigitsValue(e.year), Text.DigitsValue(e.month), Text.DigitsValue(e.day))
    && PlainWeight(e.weight)
  }

  function EntryLine(e: LogEntry): string {
    WeightLogLine(e.year, e.month, e.day, e.weight)
  }

  function EntryWeighing(e: LogEntry): Weighing
    requires WellFormed(e)
  {
    Weighing(NineAmUtc(Text.DigitsValue(e.year), Text.DigitsValue(e.month), Text.DigitsValue(e.day)), e.weight)
  }

  /** The lines of a weight log, one per entry. */
  function LogLines(entries: seq<LogEntry>): (lines: seq<string>)
    ensures |lines| == |entries|
  {
    if entries == [] then []
    else LogLines(entries[..|entries| - 1]) + [EntryLine(entries[|entries| - 1])]
  }

  /** The rows a weight log stands for, one per entry. */
  function LogWeighings(entries: seq<LogEntry>): seq<Weighing>
    requires forall i :: 0 <= i < |entries| ==> WellFormed(entries[i])
  {
    if entries == [] then []
    else LogWeighings(entries[..|entries| - 1]) + [EntryWeighing(entries[|entries| - 1])]
  }

  /** A weight log: one line per entry, each ended by '\n'. */
  function LogText(entries: seq<LogEntry>): string {
    Text.Terminated(LogLines(entries))
  }

  lemma EntryLineIsPlain(e: LogEntry)
    requires WellFormed(e)
    ensures Text.PlainLine(EntryLine(e))
  {
    assert '\n' !in e.year && '\n' !in e.month && '\n' !in e.day by {
      assert forall i :: 0 <= i < |e.year| ==> Text.IsDigit(e.year[i]);
      assert forall i :: 0 <= i < |e.month| ==> Text.IsDigit(e.month[i]);
      assert forall i :: 0 <= i < |e.day| ==> Text.IsDigit(e.day[i]);
    }
    var line := EntryLine(e);
    assert line[|line| - 1] == 'g';
  }

  lemma EntryLineParses(e: LogEntry)
    requires WellFormed(e)
    ensures ParseWeightLine(EntryLine(e)) == Entry(EntryWeighing(e).timestamp, EntryWeighing(e).weight)
  {
    WeightLogLineRoundTrip(e.year, e.month, e.day, e.weight);
  }

  lemma WeighingsSnoc(lines: seq<string>, row: Weighing)
    requires lines != [] && ParseWeightLine(lines[|lines| - 1]) == Entry(row.timestamp, row.weight)
    ensures Weighings(lines) == Weighings(lines[..|lines| - 1]) + [row]
  {
  }

  lemma {:induction false} LogLinesShape(entries: seq<LogEntry>)
    ensures forall i :: 0 <= i < |entries| ==> LogLines(entries)[i] == EntryLine(entries[i])
  {
    if entries != [] {
      LogLinesShape(entries[..|entries| - 1]);
    }
  }

  lemma {:induction false} WeighingsOfLog(entries: seq<LogEntry>)
    requires forall i :: 0 <= i < |entries| ==> WellFormed(entries[i])
    ensures Weighings(LogLines(entries)) == LogWeighings(entries)
  {
    if entries != [] {
      var n := |entries| - 1;
      var e := entries[n];
      WeighingsOfLog(entries[..n]);
      EntryLineParses(e);
      var lines := LogLines(entries);
      assert lines[..n] == LogLines(entries[..n]);
      WeighingsSnoc(lines, EntryWeighing(e));
    }
  }

  /**
   * Importing a well-formed weight log hands over one row per line, in
   * order, each at 09:00 UTC of its date and with its weight, and does not
   * panic.
   */
  lemma ImportWellFormedLog(entries: seq<LogEntry>)
    requires forall i :: 0 <= i < |entries| ==> WellFormed(entries[i])
    ensures var lines := Text.Lines(LogText(entries));
      FirstInvalidDate(lines) == |lines| && Weighings(lines) == LogWeighings(entries)
  {
    var lines := LogLines(entries);
    LogLinesShape(entries);
    forall i | 0 <= i < |lines| ensures Text.PlainLine(lines[i]) {
      EntryLineIsPlain(entries[i]);
    }
    Text.LinesOfTerminated(lines);
    forall i | 0 <= i < |lines| ensures !ParseWeightLine(lines[i]).InvalidDate? {
      EntryLineParses(entries[i]);
    }
    WeighingsOfLog(entries);
  }

  // ---------------------------------------------------------------------
  // main: the command loop
  // ---------------------------------------------------------------------

  datatype Command =
    | Help | Weight | BloodPressure | Mood | Heartrate | Temperature | RecordHrp
    | IngestCommand | Backup | Restore | UpgradeCommand | Quit
    | Unknown(name: string)

  /** The match on the first token of an input line. */
  function ParseCommand(token: string): (c: Command)
    ensures c == Quit <==> token == "q"
    ensures c.Unknown? ==> c.name == token
  {
    match token
    case "help" => Help
    case "weight" => Weight
    case "bp" => BloodPressure
    case "mood" => Mood
    case "heartrate" => Heartrate
    case "temp" => Temperature
    case "record_hrp" => RecordHrp
    case "ingest_markdown_weight" => IngestCommand
    case "backup" => Backup
    case "restore" => Restore
    case "upgrade_tables" => UpgradeCommand
    case "q" => Quit
    case _ => Unknown(token)
  }

  /** A line that ends the loop: one without any token, or one whose first token is "q". */
  predicate EndsLoop(line: string) {
    Text.FirstToken(line).None? || Text.FirstToken(line) == Some("q")
  }

  /**
   * Whether the command that line `i` dispatches panics when it runs: the
   * commands' own failures (an `expect` on a database call, the importer's
   * `unwrap` of a date the calendar rejects, a short heart-rate payload)
   * are given by the caller, one flag per line; lines past the flags do not
   * panic.
   */
  predicate Panics(panics: seq<bool>, i: nat) {
    i < |panics| && panics[i]
  }

  /**
   * The position of the first line at which the loop stops, because the
   * line ends it or because its command panics, or the number of lines.
   */
  function FirstEnd(input: seq<string>, panics: seq<bool>): (k: nat)
    ensures k <= |input|
    ensures k < |input| ==> EndsLoop(input[k]) || Panics(panics, k)
    ensures forall j :: 0 <= j < k ==> !EndsLoop(input[j]) && !Panics(panics, j)
  {
    FirstEndFrom(input, panics, 0)
  }

  /** The first stopping line at or after line `i`, or the number of lines. */
  function FirstEndFrom(input: seq<string>, panics: seq<bool>, i: nat): (k: nat)
    requires i <= |input|
    ensures i <= k <= |input|
    ensures k < |input| ==> EndsLoop(input[k]) || Panics(panics, k)
    ensures forall j :: i <= j < k ==> !EndsLoop(input[j]) && !Panics(panics, j)
    decreases |input| - i
  {
    if i == |input| then i
    else if EndsLoop(input[i]) || Panics(panics, i) then i
    else FirstEndFrom(input, panics, i + 1)
  }

  /** The first token of a line, or nothing when it has none. */
  function TokenOrEmpty(line: string): string {
    match Text.FirstToken(line)
    case Some(token) => token
    case None => ""
  }

  /** The command each line names, in order. */
  function Dispatch(lines: seq<string>): (commands: seq<Command>)
    ensures |commands| == |lines|
  {
    if lines == [] then []
    else Dispatch(lines[..|lines| - 1]) + [ParseCommand(TokenOrEmpty(lines[|lines| - 1]))]
  }

  lemma {:induction false} DispatchAt(lines: seq<string>, j: nat)
    requires j < |lines|
    ensures Dispatch(lines)[j] == ParseCommand(TokenOrEmpty(lines[j]))
  {
    if j < |lines| - 1 {
      DispatchAt(lines[..|lines| - 1], j);
    }
  }

  /**
   * The `while running` loop of `main`. `input` is what each `read_line`
   * leaves in its buffer; once it is used up (end of input) or a read fails
   * the buffer stays empty. Returns the commands dispatched, in order,
   * whether the last of them panicked, which ends `main` at once, and
   * whether the loop ended through "q", after which the configuration is
   * saved; a line without a token returns from `main` before the save.
   */
  method CommandLoop(input: seq<string>, panics: seq<bool>)
    returns (dispatched: seq<Command>, panicked: bool, saved: bool)
    ensures var k := FirstEnd(input, panics);
      && (panicked <==> k < |input| && !EndsLoop(input[k]))
      && (saved <==> k < |input| && Text.FirstToken(input[k]) == Some("q"))
      && dispatched == Dispatch(input[..if panicked then k + 1 else k])
  {
    ghost var k := FirstEnd(input, panics);
    dispatched := [];
    var running := true;
    var i := 0;
    while running
      invariant 0 <= i <= |input|
      invariant running ==> i <= k && dispatched == Dispatch(input[..i])
      invariant !running ==> 0 < i && i - 1 == k && dispatched == Dispatch(input[..i - 1])
      invariant !running ==> Text.FirstToken(input[i - 1]) == Some("q")
      decreases |input| - i, running
    {
      // Past the end of the input the buffer is empty, and an empty line has no token.
      var token := if i < |input| then Text.FirstToken(input[i]) else None;
      if token.None? {
        FirstEndAt(input, panics, i);
        panicked, saved := false, false;
        return;
      }
      if token.value == "q" {
        FirstEndAt(input, panics, i);
        running := false;
      } else {
        DispatchStep(input, i);
        dispatched := dispatched + [ParseCommand(token.value)];
        if Panics(panics, i) {
          FirstEndAt(input, panics, i);
          panicked, saved := true, false;
          return;
        }
        FirstEndAfter(input, panics, i);
      }
      i := i + 1;
    }
    panicked, saved := false, true;
  }

  /** The loop stops at a line it reaches that ends it or whose command panics. */
  lemma FirstEndAt(input: seq<string>, panics: seq<bool>, i: nat)
    requires i <= FirstEnd(input, panics) && i <= |input|
    requires i < |input| ==> EndsLoop(input[i]) || Panics(panics, i)
    ensures FirstEnd(input, panics) == i
  {
  }

  /** The loop goes past a line with a token other than "q" whose command returns. */
  lemma FirstEndAfter(input: seq<string>, panics: seq<bool>, i: nat)
    requires i <= FirstEnd(input, panics) && i < |input|
    requires !EndsLoop(input[i]) && !Panics(panics, i)
    ensures i + 1 <= FirstEnd(input, panics)
  {
  }

  /** Dispatching one more line appends its command. */
  lemma DispatchStep(input: seq<string>, i: nat)
    requires i < |input|
    ensures Dispatch(input[..i + 1]) == Dispatch(input[..i]) + [ParseCommand(TokenOrEmpty(input[i]))]
  {
    assert input[..i + 1][..i] == input[..i];
  }

  /**
   * Every dispatched command is the one its line names, none of them is
   * "q", and every dispatched line had a token: an unknown command does not
   * stop the loop.
   */
  lemma DispatchedCommands(input: seq<string>, panics: seq<bool>)
    ensures var k := FirstEnd(input, panics);
      forall j :: 0 <= j < k ==>
        && Text.FirstToken(input[j]).Some?
        && Dispatch(input[..k])[j] == ParseCommand(Text.FirstToken(input[j]).value)
        && Dispatch(input[..k])[j] != Quit
  {
    var k := FirstEnd(input, panics);
    forall j | 0 <= j < k
      ensures Text.FirstToken(input[j]).Some?
      ensures Dispatch(input[..k])[j] == ParseCommand(Text.FirstToken(input[j]).value)
      ensures Dispatch(input[..k])[j] != Quit
    {
      assert !EndsLoop(input[j]);
      DispatchAt(input[..k], j);
    }
  }

  /** Only the exact token "q" quits: "quit" is an unknown command and the loop goes on. */
  lemma OnlyExactQuit()
    ensures ParseCommand("quit") == Unknown("quit")
    ensures ParseCommand("Q") == Unknown("Q")
  {
  }
}
