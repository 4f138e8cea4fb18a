/**
 * How the `last` query of the temperature and heart-rate commands chooses
 * how many rows to show: the count argument parsed as an `i64`, or 3 with a
 * note in the output when the argument is missing or does not parse.
 */
module LastQuery {
  import opened Options
  import Text

  const TAKE_DEFAULT: int := 3

  /** The row limit and the note that opens the command's output. */
  datatype Take = Take(count: int, note: string)

  function UsingDefault(): string {
    "Using default query parameter " + Text.NatToString(TAKE_DEFAULT) + "\n"
  }

  function ChooseTake(argument: Option<string>): (t: Take)
    ensures argument.None? ==> t == Take(TAKE_DEFAULT, UsingDefault())
    ensures argument.Some? && Text.ParseI64(argument.value).None? ==>
      t == Take(TAKE_DEFAULT, "Failed to parse query parameter\n" + UsingDefault())
    ensures argument.Some? && Text.ParseI64(argument.value).Some? ==>
      t == Take(Text.ParseI64(argument.value).value, "")
  {
    match argument
    case None => Take(TAKE_DEFAULT, UsingDefault())
    case Some(text) =>
      match Text.ParseI64(text)
      case Some(count) => Take(count, "")
      case None => Take(TAKE_DEFAULT, "Failed to parse query parameter\n" + UsingDefault())
  }

  /** The default is used exactly when a note is written, and the note always names it. */
  lemma DefaultIffNote(argument: Option<string>)
    ensures var t := ChooseTake(argument);
      (t.note != "" <==> (argument.None? || Text.ParseI64(argument.value).None?))
      && (t.note != "" ==> t.count == TAKE_DEFAULT)
  {
  }

  /** Any `i64` count written in decimal is taken as it is, without a note. */
  lemma {:induction false} DecimalCountIsTaken(n: int)
    requires Text.I64_MIN <= n <= Text.I64_MAX
    ensures ChooseTake(Some(Text.IntToString(n))) == Take(n, "")
  {
    Text.ParseIntToString(n);
  }

  /** A decimal count beyond the `i64` range fails to parse, so the default is used with both notes. */
  lemma {:induction false} OutOfRangeCountUsesDefault(n: int)
    requires n < Text.I64_MIN || Text.I64_MAX < n
    ensures ChooseTake(Some(Text.IntToString(n))) == Take(TAKE_DEFAULT, "Failed to parse query parameter\n" + UsingDefault())
  {
    Text.ParseBoundedInt(n, Text.I64_MIN, Text.I64_MAX);
  }

  /** The note printed without an argument reads "Using default query parameter 3". */
  lemma DefaultNoteText()
    ensures UsingDefault() == "Using default query parameter 3\n"
  {
  }
}
