/** Calendar dates written as `Y-m-d` (four-digit year, two-digit month,
    two-digit day), in the proleptic Gregorian calendar.

    The date check of the KYC client parses a string with the format
    `Y-m-d` and accepts it only when formatting the parsed date with the
    same format gives back exactly the input. The parser itself is lenient
    (it accepts short fields and rolls day 30 of February over into March),
    so that round trip is what makes the check strict. This module states
    the outcome directly: ParseYmd accepts exactly the strings that FormatYmd
    produces for a real date, and the two lemmas at the end prove that they
    are inverse to each other. */
module Calendar {
  import opened PhpArrays

  datatype Date = Date(year: int, month: int, day: int)

  predicate IsLeapYear(y: int) {
    y % 4 == 0 && (y % 100 != 0 || y % 400 == 0)
  }

  function DaysInMonth(y: int, m: int): (n: int)
    requires 1 <= m <= 12
    ensures 28 <= n <= 31
    ensures m == 2 ==> (n == 29 <==> IsLeapYear(y))
  {
    if m == 2 then (if IsLeapYear(y) then 29 else 28)
    else if m == 4 || m == 6 || m == 9 || m == 11 then 30
    else 31
  }

  /** A date that `Y-m-d` can write: a four-digit year and a day that exists
      in its month. */
  predicate ValidDate(d: Date) {
    && 0 <= d.year <= 9999
    && 1 <= d.month <= 12
    && 1 <= d.day <= DaysInMonth(d.year, d.month)
  }

  predicate IsDigit(c: char) {
    '0' <= c <= '9'
  }

  predicate AllDigits(s: string) {
    forall i :: 0 <= i < |s| ==> IsDigit(s[i])
  }

  function Pow10(n: nat): (p: nat)
    ensures p >= 1
  {
    if n == 0 then 1 else 10 * Pow10(n - 1)
  }

  /** The number a string of decimal digits denotes. */
  function DigitsValue(s: string): (n: nat)
    requires AllDigits(s)
    ensures n < Pow10(|s|)
  {
    if s == [] then 0
    else 10 * DigitsValue(s[..|s| - 1]) + (s[|s| - 1] - '0') as int
  }

  /** n written with exactly `width` decimal digits, zero-padded on the left
      (and truncated to its last `width` digits if it is longer). */
  function PaddedDigits(n: nat, width: nat): (s: string)
    ensures |s| == width && AllDigits(s)
  {
    if width == 0 then []
    else PaddedDigits(n / 10, width - 1) + [('0' as int + n % 10) as char]
  }

  /** The text `Y-m-d` gives for a date. */
  function FormatYmd(d: Date): (s: string)
    requires ValidDate(d)
    ensures |s| == 10 && s[4] == '-' && s[7] == '-'
  {
    PaddedDigits(d.year, 4) + "-" + PaddedDigits(d.month, 2) + "-" + PaddedDigits(d.day, 2)
  }

  /** The shape DDDD-DD-DD. */
  predicate YmdShaped(s: string) {
    && |s| == 10 && s[4] == '-' && s[7] == '-'
    && AllDigits(s[..4]) && AllDigits(s[5..7]) && AllDigits(s[8..])
  }

  /** The date a string denotes when it is exactly DDDD-DD-DD and names a
      day that exists; None otherwise. */
  function ParseYmd(s: string): (r: Option<Date>)
    ensures r.Some? ==> ValidDate(r.value) && YmdShaped(s)
  {
    if !YmdShaped(s) then None
    else
      var d := Date(DigitsValue(s[..4]), DigitsValue(s[5..7]), DigitsValue(s[8..]));
      if ValidDate(d) then Some(d) else None
  }

  lemma {:induction false} DigitsOfPadded(n: nat, width: nat)
    requires n < Pow10(width)
    ensures DigitsValue(PaddedDigits(n, width)) == n
  {
    if width > 0 {
      var s := PaddedDigits(n, width);
      assert s[..|s| - 1] == PaddedDigits(n / 10, width - 1);
      DigitsOfPadded(n / 10, width - 1);
    }
  }

  lemma {:induction false} PaddedOfDigits(s: string)
    requires AllDigits(s)
    ensures PaddedDigits(DigitsValue(s), |s|) == s
  {
    if s != [] {
      var init := s[..|s| - 1];
      var c := s[|s| - 1];
      var n := DigitsValue(s);
      assert n == 10 * DigitsValue(init) + (c - '0') as int;
      assert n / 10 == DigitsValue(init);
      assert ('0' as int + n % 10) as char == c;
      PaddedOfDigits(init);
      assert s == init + [c];
    }
  }

  /** Formatting a real date and parsing the text gives the date back. */
  lemma FormatThenParse(d: Date)
    requires ValidDate(d)
    ensures ParseYmd(FormatYmd(d)) == Some(d)
  {
    var y, m, dd := PaddedDigits(d.year, 4), PaddedDigits(d.month, 2), PaddedDigits(d.day, 2);
    var s := FormatYmd(d);
    assert s[..4] == y && s[5..7] == m && s[8..] == dd;
    DigitsOfPadded(d.year, 4);
    DigitsOfPadded(d.month, 2);
    DigitsOfPadded(d.day, 2);
  }

  /** A string that parses is exactly the text of the date it denotes:
      this is the round trip `format(parse(s)) === s` the client demands. */
  lemma ParseThenFormat(s: string)
    requires ParseYmd(s).Some?
    ensures FormatYmd(ParseYmd(s).value) == s
  {
    PaddedOfDigits(s[..4]);
    PaddedOfDigits(s[5..7]);
    PaddedOfDigits(s[8..]);
    assert s == s[..4] + "-" + s[5..7] + "-" + s[8..];
  }

  /** A string is accepted exactly when it is the `Y-m-d` text of some real
      date: both directions of the round-trip check. */
  lemma AcceptedIffFormatted(s: string)
    ensures ParseYmd(s).Some? <==> exists d :: ValidDate(d) && FormatYmd(d) == s
  {
    if ParseYmd(s).Some? {
      ParseThenFormat(s);
    }
    if exists d :: ValidDate(d) && FormatYmd(d) == s {
      var d :| ValidDate(d) && FormatYmd(d) == s;
      FormatThenParse(d);
    }
  }

  /** The value of a two-digit and of a four-digit field. */
  lemma DigitsOfTwo(s: string)
    requires |s| == 2 && AllDigits(s)
    ensures DigitsValue(s) == 10 * (s[0] as int - '0' as int) + (s[1] as int - '0' as int)
  {
    assert s[..1][..0] == [];
  }

  lemma DigitsOfFour(s: string)
    requires |s| == 4 && AllDigits(s)
    ensures DigitsValue(s) == 100 * DigitsValue(s[..2]) + DigitsValue(s[2..])
  {
    assert s[..3][..2] == s[..2];
    DigitsOfTwo(s[..2]);
    DigitsOfTwo(s[2..]);
  }

  /** A well-shaped string read field by field, the year as two pairs of
      digits. */
  lemma ShapedFields(s: string)
    requires YmdShaped(s)
    ensures var d := Date(100 * DigitsValue(s[..2]) + DigitsValue(s[2..4]), DigitsValue(s[5..7]), DigitsValue(s[8..]));
            ParseYmd(s) == if ValidDate(d) then Some(d) else None
  {
    DigitsOfFour(s[..4]);
    assert s[..4][..2] == s[..2] && s[..4][2..] == s[2..4];
  }

  /** A shaped string whose digit pairs read c, y, m and d names the date
      (100c + y)-m-d, if that date exists. */
  lemma ShapedAs(s: string, c: int, y: int, m: int, d: int)
    requires YmdShaped(s)
    requires 10 * (s[0] as int - '0' as int) + (s[1] as int - '0' as int) == c
    requires 10 * (s[2] as int - '0' as int) + (s[3] as int - '0' as int) == y
    requires 10 * (s[5] as int - '0' as int) + (s[6] as int - '0' as int) == m
    requires 10 * (s[8] as int - '0' as int) + (s[9] as int - '0' as int) == d
    ensures ParseYmd(s) == if ValidDate(Date(100 * c + y, m, d)) then Some(Date(100 * c + y, m, d)) else None
  {
    ShapedFields(s);
    DigitsOfTwo(s[..2]);
    DigitsOfTwo(s[2..4]);
    DigitsOfTwo(s[5..7]);
    DigitsOfTwo(s[8..]);
  }

  /** 29 February exists in 2000, a year divisible by 400. */
  lemma LeapDayIn2000()
    ensures ParseYmd("2000-02-29") == Some(Date(2000, 2, 29))
  {
    ShapedAs("2000-02-29", 20, 0, 2, 29);
  }

  /** 29 February does not exist in 1900, divisible by 100 but not by
      400. */
  lemma NoLeapDayIn1900()
    ensures ParseYmd("1900-02-29").None?
  {
    ShapedAs("1900-02-29", 19, 0, 2, 29);
  }

  /** 30 February never exists. */
  lemma NoThirtiethOfFebruary()
    ensures ParseYmd("1990-02-30").None?
  {
    ShapedAs("1990-02-30", 19, 90, 2, 30);
  }

  /** Only the padded shape DDDD-DD-DD is accepted. */
  lemma ShapeExamples()
    ensures ParseYmd("1990-05-15") == Some(Date(1990, 5, 15))
    ensures ParseYmd("1990-5-15").None?
    ensures ParseYmd("15-05-1990").None?
    ensures ParseYmd("1990/05/15").None?
  {
    ShapedAs("1990-05-15", 19, 90, 5, 15);
  }
}
