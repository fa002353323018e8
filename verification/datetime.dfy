/** The two java.time text formats the tasks use: ISO_LOCAL_DATE (`uuuu-MM-dd`,
    read by LocalDate.parse) and the pattern `uuuu-MM-dd HH:mm`, restricted to
    years written with exactly four digits. */
module DateTimes {
  import opened Results
  import opened Text

  datatype Date = Date(year: nat, month: nat, day: nat)

  datatype DateTime = DateTime(date: Date, hour: nat, minute: nat)

  /** The proleptic Gregorian leap-year rule of IsoChronology. */
  predicate IsLeap(y: nat) {
    y % 4 == 0 && (y % 100 != 0 || y % 400 == 0)
  }

  function DaysInMonth(y: nat, m: nat): (n: nat)
    requires 1 <= m <= 12
    ensures 28 <= n <= 31
  {
    if m == 2 then (if IsLeap(y) then 29 else 28)
    else if m == 4 || m == 6 || m == 9 || m == 11 then 30
    else 31
  }

  predicate ValidDate(d: Date) {
    d.year <= 9999 && 1 <= d.month <= 12 && 1 <= d.day <= DaysInMonth(d.year, d.month)
  }

  predicate ValidDateTime(t: DateTime) {
    ValidDate(t.date) && t.hour < 24 && t.minute < 60
  }

  /** LocalDate.atTime(0, 0). */
  function AtMidnight(d: Date): (t: DateTime)
    ensures ValidDate(d) ==> ValidDateTime(t)
    ensures t.date == d && t.hour == 0 && t.minute == 0
  {
    DateTime(d, 0, 0)
  }

  // ---------------------------------------------------------------------
  // Fixed-width decimal fields

  function Pow10(w: nat): (p: nat)
    ensures p > 0
  {
    if w == 0 then 1 else 10 * Pow10(w - 1)
  }

  /** `n` written with exactly `w` digits, zero-padded on the left. */
  function Digits(n: nat, w: nat): (s: string)
    requires n < Pow10(w)
    ensures |s| == w && AllDigits(s) && DigitsValue(s) == n
  {
    if w == 0 then []
    else
      var front := Digits(n / 10, w - 1);
      var s := front + [DigitChar(n % 10)];
      assert s[..|s| - 1] == front;
      s
  }

  /** Every digit string is the padded rendering of its own value. */
  lemma {:induction false} DigitsOfValue(s: string)
    requires AllDigits(s)
    ensures DigitsValue(s) < Pow10(|s|)
    ensures Digits(DigitsValue(s), |s|) == s
    decreases |s|
  {
    if s != [] {
      var front := s[..|s| - 1];
      DigitsOfValue(front);
      assert s == front + [s[|s| - 1]];
    }
  }

  // ---------------------------------------------------------------------
  // Formatting

  /** `uuuu-MM-dd` of a date with a four-digit year. */
  function FormatDate(d: Date): (s: string)
    requires ValidDate(d)
    ensures |s| == 10
  {
    Digits(d.year, 4) + "-" + Digits(d.month, 2) + "-" + Digits(d.day, 2)
  }

  /** `uuuu-MM-dd HH:mm`. */
  function FormatDateTime(t: DateTime): (s: string)
    requires ValidDateTime(t)
    ensures |s| == 16
  {
    FormatDate(t.date) + " " + Digits(t.hour, 2) + ":" + Digits(t.minute, 2)
  }

  // ---------------------------------------------------------------------
  // Parsing

  /** LocalDate.parse: ISO_LOCAL_DATE with the STRICT resolver, so a day past
      the end of its month is an error. None is a DateTimeParseException. */
  function ParseIsoDate(s: string): (r: Option<Date>)
    ensures r.Some? ==> ValidDate(r.value) && FormatDate(r.value) == s
  {
    if |s| == 10 && s[4] == '-' && s[7] == '-' && AllDigits(s[..4]) && AllDigits(s[5..7]) && AllDigits(s[8..]) then
      var d := Date(DigitsValue(s[..4]), DigitsValue(s[5..7]), DigitsValue(s[8..]));
      if ValidDate(d) then
        DigitsOfValue(s[..4]);
        DigitsOfValue(s[5..7]);
        DigitsOfValue(s[8..]);
        Rejoin5(s, 4, 7);
        Some(d)
      else None
    else None
  }

  /** A date-time text whose date part renders `d` is the rendering of `d` at
      the hour and minute its digits spell. */
  lemma DateTimeTextOf(s: string, d: Date)
    requires |s| == 16 && s[10] == ' ' && s[13] == ':' && AllDigits(s[11..13]) && AllDigits(s[14..])
    requires ValidDateTime(DateTime(d, DigitsValue(s[11..13]), DigitsValue(s[14..])))
    requires FormatDate(d) == s[..10]
    ensures FormatDateTime(DateTime(d, DigitsValue(s[11..13]), DigitsValue(s[14..]))) == s
  {
    DigitsOfValue(s[11..13]);
    DigitsOfValue(s[14..]);
    Rejoin5(s, 10, 13);
  }

  /** LocalDateTime.parse(s, ofPattern("uuuu-MM-dd HH:mm")): the whole text
      must be the date, one space, two hour digits, a colon and two minute digits. */
  function ParseDateTime(s: string): (r: Option<DateTime>)
    ensures r.Some? ==> ValidDateTime(r.value) && FormatDateTime(r.value) == s
  {
    if |s| == 16 && s[10] == ' ' && s[13] == ':' && AllDigits(s[11..13]) && AllDigits(s[14..]) then
      match ParseIsoDate(s[..10])
      case Some(d) =>
        var t := DateTime(d, DigitsValue(s[11..13]), DigitsValue(s[14..]));
        if ValidDateTime(t) then
          DateTimeTextOf(s, d);
          Some(t)
        else None
      case None => None
    else None
  }

  // ---------------------------------------------------------------------
  // Round trips

  /** Formatting a valid date and parsing it back gives the date. */
  lemma ParseFormatDate(d: Date)
    requires ValidDate(d)
    ensures ParseIsoDate(FormatDate(d)) == Some(d)
  {
    var y := Digits(d.year, 4);
    var m := Digits(d.month, 2);
    var dd := Digits(d.day, 2);
    Concat5(y, "-", m, "-", dd, 4, 5, 7, 8);
  }

  /** Formatting a valid date-time and parsing it back gives the date-time. */
  lemma ParseFormatDateTime(t: DateTime)
    requires ValidDateTime(t)
    ensures ParseDateTime(FormatDateTime(t)) == Some(t)
  {
    var date := FormatDate(t.date);
    var h := Digits(t.hour, 2);
    var m := Digits(t.minute, 2);
    Concat5(date, " ", h, ":", m, 10, 11, 13, 14);
    ParseFormatDate(t.date);
  }

  /** So ParseIsoDate accepts exactly the renderings of valid dates. */
  lemma ParseIsoDateExactly(s: string, d: Date)
    ensures ParseIsoDate(s) == Some(d) <==> ValidDate(d) && s == FormatDate(d)
  {
    if ValidDate(d) && s == FormatDate(d) {
      ParseFormatDate(d);
    }
  }

  lemma ParseDateTimeExactly(s: string, t: DateTime)
    ensures ParseDateTime(s) == Some(t) <==> ValidDateTime(t) && s == FormatDateTime(t)
  {
    if ValidDateTime(t) && s == FormatDateTime(t) {
      ParseFormatDateTime(t);
    }
  }

  /** A rendered date-time is made of digits, `-` and `:` around the one
      space at position 10, and starts and ends with a digit. */
  lemma FormattedShape(t: DateTime)
    requires ValidDateTime(t)
    ensures var s := FormatDateTime(t);
            && |s| == 16 && s[10] == ' ' && IsDigit(s[0]) && IsDigit(s[11]) && IsDigit(s[15])
            && forall i :: 0 <= i < 16 && i != 10 ==> IsDigit(s[i]) || s[i] == '-' || s[i] == ':'
  {
    var date := FormatDate(t.date);
    var y, mo, d := Digits(t.date.year, 4), Digits(t.date.month, 2), Digits(t.date.day, 2);
    var h, mi := Digits(t.hour, 2), Digits(t.minute, 2);
    Concat5(y, "-", mo, "-", d, 4, 5, 7, 8);
    Concat5(date, " ", h, ":", mi, 10, 11, 13, 14);
  }
}
