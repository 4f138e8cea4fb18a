/**
 * The pieces of Rust's string handling that the core relies on: `str::lines`,
 * `str::split` on a character, `str::replace` with an empty replacement,
 * `str::trim`, `str::split_whitespace` (its first token), and the integer
 * `FromStr` grammar and decimal formatting.
 */
module Text {
  import opened Options

  /** The Unicode White_Space property, which `trim` and `split_whitespace` use. */
  predicate IsWhitespace(c: char) {
    var n := c as int;
    (9 <= n <= 13) || n == 0x20 || n == 0x85 || n == 0xA0 || n == 0x1680
    || (0x2000 <= n <= 0x200A) || n == 0x2028 || n == 0x2029
    || n == 0x202F || n == 0x205F || n == 0x3000
  }

  predicate StartsWith(s: string, prefix: string) {
    |prefix| <= |s| && s[..|prefix|] == prefix
  }

  /** The position of the first `c` in `s`, or `|s|` when `s` has none. */
  function IndexOf(s: string, c: char): (k: nat)
    ensures k <= |s|
    ensures k < |s| ==> s[k] == c
    ensures forall j :: 0 <= j < k ==> s[j] != c
  {
    if s == [] then 0 else if s[0] == c then 0 else 1 + IndexOf(s[1..], c)
  }

  /** `s.split(sep)`: the pieces between separators; there is always at least one. */
  function Split(s: string, sep: char): (parts: seq<string>)
    ensures |parts| >= 1
    ensures forall i :: 0 <= i < |parts| ==> sep !in parts[i]
    decreases |s|
  {
    var k := IndexOf(s, sep);
    if k == |s| then [s] else [s[..k]] + Split(s[k + 1..], sep)
  }

  /** The pieces put back together with `sep` between them. */
  function JoinWith(parts: seq<string>, sep: char): string
    requires |parts| >= 1
  {
    if |parts| == 1 then parts[0] else parts[0] + [sep] + JoinWith(parts[1..], sep)
  }

  /** Splitting loses nothing: joining the pieces again gives back the input. */
  lemma {:induction false} SplitJoin(s: string, sep: char)
    ensures JoinWith(Split(s, sep), sep) == s
    decreases |s|
  {
    var k := IndexOf(s, sep);
    if k < |s| {
      var rest := Split(s[k + 1..], sep);
      var parts := Split(s, sep);
      SplitJoin(s[k + 1..], sep);
      assert parts == [s[..k]] + rest;
      assert parts[0] == s[..k] && parts[1..] == rest;
      assert JoinWith(parts, sep) == s[..k] + [sep] + JoinWith(rest, sep);
      assert s == s[..k] + [sep] + s[k + 1..];
    }
  }

  /** A text without the separator is a single piece. */
  lemma SplitNone(s: string, sep: char)
    requires sep !in s
    ensures Split(s, sep) == [s]
  {
  }

  /** The piece before the first separator comes first, then the pieces of the rest. */
  lemma SplitFirst(a: string, rest: string, sep: char)
    requires sep !in a
    ensures Split(a + [sep] + rest, sep) == [a] + Split(rest, sep)
  {
    var s := a + [sep] + rest;
    forall j | 0 <= j < |a| ensures s[j] != sep {
      assert s[j] == a[j];
    }
    IndexOfFirst(s, sep, |a|);
    assert s[..|a|] == a;
    assert s[|a| + 1..] == rest;
  }

  /** A line as `str::lines` yields it, with the one '\r' before its '\n' dropped. */
  function StripCarriageReturn(line: string): string {
    if |line| > 0 && line[|line| - 1] == '\r' then line[..|line| - 1] else line
  }

  /**
   * `s.lines()`: the pieces ended by '\n', each losing one '\r' that stands
   * right before its '\n'; a last piece without '\n' is kept as it is, and
   * a final '\n' does not start an empty line.
   */
  function Lines(s: string): (lines: seq<string>)
    ensures forall i :: 0 <= i < |lines| ==> '\n' !in lines[i]
    decreases |s|
  {
    if s == [] then []
    else
      var k := IndexOf(s, '\n');
      if k == |s| then [s] else [StripCarriageReturn(s[..k])] + Lines(s[k + 1..])
  }

  /** Every line followed by '\n', in order. */
  function Terminated(lines: seq<string>): string {
    if lines == [] then [] else lines[0] + "\n" + Terminated(lines[1..])
  }

  lemma {:induction false} TerminatedAppend(a: seq<string>, b: seq<string>)
    ensures Terminated(a + b) == Terminated(a) + Terminated(b)
  {
    if a != [] {
      TerminatedAppend(a[1..], b);
      assert (a + b)[0] == a[0];
      assert (a + b)[1..] == a[1..] + b;
      calc {
        Terminated(a + b);
        a[0] + "\n" + Terminated(a[1..] + b);
        a[0] + "\n" + (Terminated(a[1..]) + Terminated(b));
        (a[0] + "\n" + Terminated(a[1..])) + Terminated(b);
      }
    } else {
      assert a + b == b;
    }
  }

  /** A line that `str::lines` can hand back unchanged: no '\n' in it, no '\r' at its end. */
  predicate PlainLine(line: string) {
    '\n' !in line && (|line| == 0 || line[|line| - 1] != '\r')
  }

  /** Terminating plain lines and splitting the text again gives the same lines. */
  lemma {:induction false} LinesOfTerminated(lines: seq<string>)
    requires forall i :: 0 <= i < |lines| ==> PlainLine(lines[i])
    ensures Lines(Terminated(lines)) == lines
  {
    if lines != [] {
      var s := Terminated(lines);
      var first := lines[0];
      assert PlainLine(first);
      assert s == first + "\n" + Terminated(lines[1..]);
      assert IndexOf(s, '\n') == |first| by {
        assert s[|first|] == '\n';
        forall j | 0 <= j < |first| ensures s[j] != '\n' {
          assert s[j] == first[j];
        }
        IndexOfFirst(s, '\n', |first|);
      }
      assert s[..|first|] == first;
      assert s[|first| + 1..] == Terminated(lines[1..]);
      LinesOfTerminated(lines[1..]);
    }
  }

  /**
   * Splitting into lines loses no text: a text without '\r' is its lines,
   * each followed by '\n', except that a last line without its own '\n'
   * gains one.
   */
  lemma {:induction false} LinesKeepText(s: string)
    requires '\r' !in s
    ensures Terminated(Lines(s)) == if s == [] || s[|s| - 1] == '\n' then s else s + "\n"
    decreases |s|
  {
    if s != [] {
      var k := IndexOf(s, '\n');
      if k < |s| {
        var rest := s[k + 1..];
        LinesAtBreak(s, k);
        LinesKeepText(rest);
        if rest != [] {
          assert s[|s| - 1] == rest[|rest| - 1];
        }
      } else {
        assert Lines(s) == [s];
        assert Terminated([s]) == s + "\n" + Terminated([]);
      }
    }
  }

  /** At the first '\n' of a text without '\r', the text and its lines split into the first line and the rest. */
  lemma {:induction false} LinesAtBreak(s: string, k: nat)
    requires '\r' !in s && k < |s| && k == IndexOf(s, '\n')
    ensures s == s[..k] + "\n" + s[k + 1..]
    ensures '\r' !in s[k + 1..]
    ensures Terminated(Lines(s)) == s[..k] + "\n" + Terminated(Lines(s[k + 1..]))
  {
    var first := s[..k];
    var rest := s[k + 1..];
    assert StripCarriageReturn(first) == first by {
      assert first != [] ==> first[|first| - 1] == s[k - 1];
    }
    assert '\r' !in rest by {
      assert forall j :: 0 <= j < |rest| ==> rest[j] == s[k + 1 + j];
    }
    assert Lines(s) == [first] + Lines(rest);
    SplitAround(s, k);
    assert [s[k]] == "\n";
  }

  /** A text is what comes before a position, the character there, and what follows. */
  lemma {:induction false} SplitAround(s: string, k: nat)
    requires k < |s|
    ensures s == s[..k] + [s[k]] + s[k + 1..]
  {
  }

  /** A position holding `c` with no `c` before it is the one IndexOf finds. */
  lemma IndexOfFirst(s: string, c: char, k: nat)
    requires k < |s| && s[k] == c
    requires forall j :: 0 <= j < k ==> s[j] != c
    ensures IndexOf(s, c) == k
  {
  }

  /**
   * `s.replace(pattern, "")`: every occurrence found by a left-to-right scan
   * that does not overlap the previous one is dropped.
   */
  function RemoveAll(s: string, pattern: string): (r: string)
    requires |pattern| > 0
    ensures |r| <= |s|
    decreases |s|
  {
    if |s| < |pattern| then s
    else if s[..|pattern|] == pattern then RemoveAll(s[|pattern|..], pattern)
    else [s[0]] + RemoveAll(s[1..], pattern)
  }

  /** Whether `pattern` occurs in `s` at position `i`. */
  predicate OccursAt(s: string, pattern: string, i: nat) {
    i + |pattern| <= |s| && s[i..i + |pattern|] == pattern
  }

  /** No `first` in `s` is directly followed by `second`. */
  predicate NoPair(s: string, first: char, second: char) {
    forall i :: 0 <= i < |s| - 1 ==> !(s[i] == first && s[i + 1] == second)
  }

  lemma NoPairAppend(a: string, b: string, first: char, second: char)
    requires NoPair(a, first, second) && NoPair(b, first, second)
    requires a != [] && b != [] ==> !(a[|a| - 1] == first && b[0] == second)
    ensures NoPair(a + b, first, second)
  {
    var s := a + b;
    forall i | 0 <= i < |s| - 1 ensures !(s[i] == first && s[i + 1] == second) {
      if i + 1 < |a| {
        assert s[i] == a[i] && s[i + 1] == a[i + 1];
      } else if i >= |a| {
        assert s[i] == b[i - |a|] && s[i + 1] == b[i + 1 - |a|];
      } else {
        assert s[i] == a[|a| - 1] && s[i + 1] == b[0];
      }
    }
  }

  /** A text without the pair holds no occurrence of the two-character pattern. */
  lemma NoPairNoOccurrence(s: string, first: char, second: char)
    requires NoPair(s, first, second)
    ensures forall i :: 0 <= i < |s| ==> !OccursAt(s, [first, second], i)
  {
    forall i | 0 <= i < |s| ensures !OccursAt(s, [first, second], i) {
      if i + 2 <= |s| {
        assert s[i..i + 2][0] == s[i] && s[i..i + 2][1] == s[i + 1];
      }
    }
  }

  /** Removing a two-character pattern from a text that holds it only at its start drops just that one. */
  lemma RemoveOnlyLeadingPair(s: string, first: char, second: char)
    requires NoPair(s, first, second)
    ensures RemoveAll([first, second] + s, [first, second]) == s
  {
    RemoveAllLeading([first, second], s);
    NoPairNoOccurrence(s, first, second);
    RemoveAllAbsent(s, [first, second]);
  }

  /** An occurrence at the very start is the first one removed. */
  lemma RemoveAllLeading(pattern: string, s: string)
    requires |pattern| > 0
    ensures RemoveAll(pattern + s, pattern) == RemoveAll(s, pattern)
  {
    assert (pattern + s)[..|pattern|] == pattern;
    assert (pattern + s)[|pattern|..] == s;
  }

  lemma OccursAtTail(s: string, pattern: string, i: nat)
    requires |s| > 0
    ensures OccursAt(s[1..], pattern, i) <==> OccursAt(s, pattern, i + 1)
  {
    if i + |pattern| <= |s[1..]| {
      assert s[1..][i..i + |pattern|] == s[i + 1..i + 1 + |pattern|];
    }
  }

  /** A prefix in which no occurrence starts is kept as it is. */
  lemma {:induction false} RemoveAllKeeps(a: string, b: string, pattern: string)
    requires |pattern| > 0
    requires forall i :: 0 <= i < |a| ==> !OccursAt(a + b, pattern, i)
    ensures RemoveAll(a + b, pattern) == a + RemoveAll(b, pattern)
    decreases |a|
  {
    var s := a + b;
    if a == [] {
      assert s == b;
    } else if |s| < |pattern| {
      assert RemoveAll(b, pattern) == b;
    } else {
      var tail := a[1..];
      assert RemoveAll(s, pattern) == [a[0]] + RemoveAll(tail + b, pattern) by {
        assert !OccursAt(s, pattern, 0);
        assert s[1..] == tail + b;
      }
      forall i | 0 <= i < |tail| ensures !OccursAt(tail + b, pattern, i) {
        assert s[1..] == tail + b;
        OccursAtTail(s, pattern, i);
      }
      RemoveAllKeeps(tail, b, pattern);
      assert a == [a[0]] + tail;
    }
  }

  /** A text without the pattern is left unchanged. */
  lemma RemoveAllAbsent(s: string, pattern: string)
    requires |pattern| > 0
    requires forall i :: 0 <= i < |s| ==> !OccursAt(s, pattern, i)
    ensures RemoveAll(s, pattern) == s
  {
    assert s + [] == s;
    RemoveAllKeeps(s, [], pattern);
  }

  function TrimStart(s: string): (r: string)
    ensures |r| <= |s| && r == s[|s| - |r|..]
    ensures r != [] ==> !IsWhitespace(r[0])
    ensures forall i :: 0 <= i < |s| - |r| ==> IsWhitespace(s[i])
    decreases |s|
  {
    if s != [] && IsWhitespace(s[0]) then TrimStart(s[1..]) else s
  }

  function TrimEnd(s: string): (r: string)
    ensures |r| <= |s| && r == s[..|r|]
    ensures r != [] ==> !IsWhitespace(r[|r| - 1])
    ensures forall i :: |r| <= i < |s| ==> IsWhitespace(s[i])
    decreases |s|
  {
    if s != [] && IsWhitespace(s[|s| - 1]) then TrimEnd(s[..|s| - 1]) else s
  }

  lemma TrimStartSkips(c: char, s: string)
    requires IsWhitespace(c)
    ensures TrimStart([c] + s) == TrimStart(s)
  {
    assert ([c] + s)[1..] == s;
  }

  lemma TrimStartKeeps(s: string)
    requires s == [] || !IsWhitespace(s[0])
    ensures TrimStart(s) == s
  {
  }

  lemma TrimEndKeeps(s: string)
    requires s == [] || !IsWhitespace(s[|s| - 1])
    ensures TrimEnd(s) == s
  {
  }

  /** `s.trim()`: white space removed from both ends. */
  function Trim(s: string): string {
    TrimEnd(TrimStart(s))
  }

  /** The longest prefix of `s` without white space. */
  function TokenPrefix(s: string): (t: string)
    ensures |t| <= |s| && t == s[..|t|]
    ensures forall i :: 0 <= i < |t| ==> !IsWhitespace(t[i])
    ensures |t| < |s| ==> IsWhitespace(s[|t|])
    decreases |s|
  {
    if s == [] || IsWhitespace(s[0]) then [] else [s[0]] + TokenPrefix(s[1..])
  }

  /**
   * The first item `split_whitespace` yields: `None` when the line is blank,
   * else the longest white-space-free prefix of the line without its leading
   * white space.
   */
  function FirstToken(line: string): (t: Option<string>)
    ensures t.None? <==> TrimStart(line) == []
    ensures t.Some? ==> t.value == TokenPrefix(TrimStart(line))
    decreases |line|
  {
    if line == [] then None
    else if IsWhitespace(line[0]) then FirstToken(line[1..])
    else Some(TokenPrefix(line))
  }

  /** A line has no token exactly when it is all white space; a token is never empty and holds no white space. */
  lemma {:induction false} FirstTokenShape(line: string)
    ensures FirstToken(line).None? <==> forall i :: 0 <= i < |line| ==> IsWhitespace(line[i])
    ensures FirstToken(line).Some? ==>
      |FirstToken(line).value| > 0 && forall i :: 0 <= i < |FirstToken(line).value| ==> !IsWhitespace(FirstToken(line).value[i])
  {
    var rest := TrimStart(line);
    if rest != [] {
      assert line[|line| - |rest|] == rest[0];
      assert |TokenPrefix(rest)| > 0;
    }
  }

  /**
   * The token is the first maximal white-space-free run of the line: it
   * starts at the first character that is not white space, and white space
   * or the end of the line follows it.
   */
  lemma {:induction false} FirstTokenIsFirstRun(line: string)
    ensures FirstToken(line).Some? ==>
      var t := FirstToken(line).value;
      var k := |line| - |TrimStart(line)|;
      && (forall j :: 0 <= j < k ==> IsWhitespace(line[j]))
      && k + |t| <= |line|
      && t <= line[k..]
      && (k + |t| == |line| || IsWhitespace(line[k + |t|]))
  {
    var rest := TrimStart(line);
    if rest != [] {
      var t := TokenPrefix(rest);
      assert FirstToken(line) == Some(t);
      assert t <= rest;
      assert |t| < |rest| ==> IsWhitespace(rest[|t|]);
    }
  }

  predicate IsDigit(c: char) {
    '0' <= c <= '9'
  }

  predicate AllDigits(s: string) {
    forall i :: 0 <= i < |s| ==> IsDigit(s[i])
  }

  function DigitValue(c: char): nat
    requires IsDigit(c)
  {
    (c as int) - ('0' as int)
  }

  function DigitChar(d: nat): (c: char)
    requires d < 10
    ensures IsDigit(c) && DigitValue(c) == d
  {
    ('0' as int + d) as char
  }

  /** The value of a string of decimal digits, most significant first. */
  function DigitsValue(ds: string): nat
    requires AllDigits(ds)
    decreases |ds|
  {
    if ds == [] then 0 else 10 * DigitsValue(ds[..|ds| - 1]) + DigitValue(ds[|ds| - 1])
  }

  /**
   * The `FromStr` grammar for integers: an optional sign and one or more
   * ASCII digits, nothing else; a '-' is accepted only for a signed type.
   */
  function ParseInteger(s: string, signed: bool): Option<int> {
    if |s| > 0 && (s[0] == '+' || (signed && s[0] == '-')) then
      var digits := s[1..];
      if |digits| > 0 && AllDigits(digits) then
        var magnitude: int := DigitsValue(digits);
        Some(if s[0] == '-' then -magnitude else magnitude)
      else None
    else if |s| > 0 && AllDigits(s) then Some(DigitsValue(s))
    else None
  }

  /** The text `FromStr` accepts for an integer: digits, after one optional sign. */
  predicate IntegerSyntax(s: string, signed: bool) {
    || (|s| > 0 && AllDigits(s))
    || (|s| > 1 && (s[0] == '+' || (signed && s[0] == '-')) && AllDigits(s[1..]))
  }

  /**
   * `s.parse::<T>()` for an integer type `T` whose values are `lo..=hi`:
   * text outside the integer syntax gives `None`, and so does a value out
   * of range (ParseBoundedInt gives the value itself).
   */
  function ParseBounded(s: string, signed: bool, lo: int, hi: int): (r: Option<int>)
    ensures r.Some? ==> lo <= r.value <= hi
    ensures r.Some? ==> IntegerSyntax(s, signed)
  {
    match ParseInteger(s, signed)
    case Some(v) => if lo <= v <= hi then Some(v) else None
    case None => None
  }

  const I32_MAX: int := 0x7FFF_FFFF
  const U32_MAX: int := 0xFFFF_FFFF
  const I64_MIN: int := -0x8000_0000_0000_0000
  const I64_MAX: int := 0x7FFF_FFFF_FFFF_FFFF

  function ParseI32(s: string): Option<int> { ParseBounded(s, true, -I32_MAX - 1, I32_MAX) }
  function ParseU32(s: string): Option<int> { ParseBounded(s, false, 0, U32_MAX) }
  function ParseI64(s: string): Option<int> { ParseBounded(s, true, I64_MIN, I64_MAX) }

  /** Decimal formatting of a natural number (`format!("{}", n)`). */
  function NatToString(n: nat): (s: string)
    ensures |s| > 0 && AllDigits(s)
    decreases n
  {
    if n < 10 then [DigitChar(n)] else NatToString(n / 10) + [DigitChar(n % 10)]
  }

  /** Decimal formatting of an integer, with a '-' in front of a negative one. */
  function IntToString(i: int): string {
    if i < 0 then "-" + NatToString(-i) else NatToString(i)
  }

  lemma {:induction false} NatToStringValue(n: nat)
    ensures DigitsValue(NatToString(n)) == n
    decreases n
  {
    if n >= 10 {
      NatToStringValue(n / 10);
      var s := NatToString(n);
      assert s[..|s| - 1] == NatToString(n / 10);
    }
  }

  /** A nonempty string of digits parses, signed or not, to its value. */
  lemma ParseDigits(ds: string, signed: bool)
    requires |ds| > 0 && AllDigits(ds)
    ensures ParseInteger(ds, signed) == Some(DigitsValue(ds))
  {
    assert IsDigit(ds[0]);
  }

  /**
   * Parsing the decimal text of an integer into a type with range
   * `lo..=hi` gives the integer when it is in range and `None` otherwise.
   */
  lemma ParseBoundedInt(i: int, lo: int, hi: int)
    ensures ParseBounded(IntToString(i), true, lo, hi) == if lo <= i <= hi then Some(i) else None
  {
    ParseIntToString(i);
  }

  /** Formatting and then parsing an integer gives the integer back. */
  lemma ParseIntToString(i: int)
    ensures ParseInteger(IntToString(i), true) == Some(i)
  {
    if i < 0 {
      NatToStringValue(-i);
      assert ("-" + NatToString(-i))[1..] == NatToString(-i);
    } else {
      NatToStringValue(i);
    }
  }
}
