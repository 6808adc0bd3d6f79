/** `datetime` values and the `datetime.strptime` formats the media code
    uses: `"%Y:%m:%d %H:%M:%S"` for EXIF values and `"%Y-%m-%d %H:%M:%S"`
    for the video metadata fallback. The parser follows CPython's
    `_strptime`: each directive becomes one regular-expression alternation,
    a blank in the format becomes `\s+`, the match must cover the whole
    string, and the matched fields must then make a real `datetime`. */
module DateTimes {

  import opened Results
  import opened Text

  /** A naive `datetime`; the formats modelled set no microsecond and no
      time zone. */
  datatype DateTime = DateTime(year: int, month: int, day: int, hour: int, minute: int, second: int)

  /** `datetime.MINYEAR` and `datetime.MAXYEAR`. */
  const MinYear := 1
  const MaxYear := 9999

  /** The proleptic Gregorian leap-year rule `datetime` uses. */
  predicate IsLeapYear(y: int) {
    y % 4 == 0 && (y % 100 != 0 || y % 400 == 0)
  }

  function DaysInMonth(y: int, m: int): (n: int)
    requires 1 <= m <= 12
    ensures 28 <= n <= 31
    ensures n == 29 <==> m == 2 && IsLeapYear(y)
  {
    if m == 2 then (if IsLeapYear(y) then 29 else 28)
    else if m == 4 || m == 6 || m == 9 || m == 11 then 30
    else 31
  }

  /** The arguments the `datetime` constructor accepts. */
  predicate Valid(dt: DateTime) {
    && MinYear <= dt.year <= MaxYear
    && 1 <= dt.month <= 12
    && 1 <= dt.day <= DaysInMonth(dt.year, dt.month)
    && 0 <= dt.hour <= 23
    && 0 <= dt.minute <= 59
    && 0 <= dt.second <= 59
  }

  // ---------------------------------------------------------------------
  // The text each directive matches.

  /** `%Y`: `\d\d\d\d`. */
  predicate IsYearText(t: string) {
    |t| == 4 && AllDigits(t)
  }

  /** `%m`: `1[0-2]|0[1-9]|[1-9]`. */
  predicate IsMonthText(t: string) {
    || (|t| == 2 && t[0] == '1' && '0' <= t[1] <= '2')
    || (|t| == 2 && t[0] == '0' && IsNonZeroDigit(t[1]))
    || (|t| == 1 && IsNonZeroDigit(t[0]))
  }

  /** `%d`: `3[01]|[12]\d|0[1-9]|[1-9]| [1-9]`; the last alternative lets a
      blank stand for a leading zero. */
  predicate IsDayText(t: string) {
    || (|t| == 2 && t[0] == '3' && (t[1] == '0' || t[1] == '1'))
    || (|t| == 2 && (t[0] == '1' || t[0] == '2') && IsDigit(t[1]))
    || (|t| == 2 && t[0] == '0' && IsNonZeroDigit(t[1]))
    || (|t| == 1 && IsNonZeroDigit(t[0]))
    || (|t| == 2 && t[0] == ' ' && IsNonZeroDigit(t[1]))
  }

  /** `%H`: `2[0-3]|[0-1]\d|\d`. */
  predicate IsHourText(t: string) {
    || (|t| == 2 && t[0] == '2' && '0' <= t[1] <= '3')
    || (|t| == 2 && (t[0] == '0' || t[0] == '1') && IsDigit(t[1]))
    || (|t| == 1 && IsDigit(t[0]))
  }

  /** `%M`: `[0-5]\d|\d`. */
  predicate IsMinuteText(t: string) {
    || (|t| == 2 && '0' <= t[0] <= '5' && IsDigit(t[1]))
    || (|t| == 1 && IsDigit(t[0]))
  }

  /** `%S`: `6[0-1]|[0-5]\d|\d`; 60 and 61 pass the pattern and are
      refused later by the `datetime` constructor. */
  predicate IsSecondText(t: string) {
    || (|t| == 2 && t[0] == '6' && (t[1] == '0' || t[1] == '1'))
    || (|t| == 2 && '0' <= t[0] <= '5' && IsDigit(t[1]))
    || (|t| == 1 && IsDigit(t[0]))
  }

  /** The blank of the format: `\s+`. */
  predicate IsGap(t: string) {
    |t| >= 1 && All(t, IsWhitespace)
  }

  /** `int()` of a day field, which ignores the blank of ` [1-9]`. */
  function DayValue(t: string): nat
    requires IsDayText(t)
  {
    if t[0] == ' ' then DigitValue(t[1]) else Decimal(t)
  }

  /** The date separator of the format: `:` for EXIF, `-` for ISO text.
      It is neither a digit nor a blank, so it always ends a field. */
  predicate IsDateSeparator(sep: char) {
    !IsDigit(sep) && !IsWhitespace(sep)
  }

  /** The pieces of a string that the format's regular expression matches,
      one per directive plus the run of blanks. */
  datatype Fields = Fields(year: string, month: string, day: string, gap: string,
                           hour: string, minute: string, second: string)

  predicate FieldsMatch(f: Fields) {
    && IsYearText(f.year)
    && IsMonthText(f.month)
    && IsDayText(f.day)
    && IsGap(f.gap)
    && IsHourText(f.hour)
    && IsMinuteText(f.minute)
    && IsSecondText(f.second)
  }

  /** The string the pieces spell, with the format's literal characters
      between them. */
  function Compose(sep: char, f: Fields): string {
    f.year + ([sep] + (f.month + ([sep] + (f.day + (f.gap
      + (f.hour + ([':'] + (f.minute + ([':'] + f.second)))))))))
  }

  /** The `datetime` fields `_strptime` reads from matched pieces. */
  function FieldsValue(f: Fields): DateTime
    requires FieldsMatch(f)
  {
    DateTime(Decimal(f.year), Decimal(f.month), DayValue(f.day),
             Decimal(f.hour), Decimal(f.minute), Decimal(f.second))
  }

  /** `s` is matched, as a whole, by the format, with pieces worth `dt`. */
  ghost predicate MatchesFormat(sep: char, s: string, dt: DateTime) {
    exists f :: FieldsMatch(f) && Compose(sep, f) == s && FieldsValue(f) == dt
  }

  // ---------------------------------------------------------------------
  // The parser.

  /** The day piece: a blank followed by one more character, or the
      longest run of digits. */
  function SplitDay(t: string): (r: (string, string))
    ensures r.0 + r.1 == t
  {
    if |t| >= 2 && t[0] == ' ' then (t[..2], t[2..]) else Span(t, IsDigit)
  }

  /** `hour + ":" + minute + ":" + second`, cut after the longest runs of
      digits. */
  function CutTime(t: string): (r: Option<(string, string, string)>)
    ensures r.Some? ==> r.value.0 + ([':'] + (r.value.1 + ([':'] + r.value.2))) == t
  {
    var (hour, r4) := Span(t, IsDigit);
    if r4 == [] || r4[0] != ':' then None
    else
      var (minute, r5) := Span(r4[1..], IsDigit);
      if r5 == [] || r5[0] != ':' then None
      else
        assert r5 == [':'] + r5[1..];
        assert r4 == [':'] + r4[1..];
        Some((hour, minute, r5[1..]))
  }

  /** `month + sep + rest`, cut after the longest run of digits. */
  function CutMonth(sep: char, t: string): (r: Option<(string, string)>)
    ensures r.Some? ==> r.value.0 + ([sep] + r.value.1) == t
  {
    var (month, r1) := Span(t, IsDigit);
    if r1 == [] || r1[0] != sep then None
    else
      assert r1 == [sep] + r1[1..];
      Some((month, r1[1..]))
  }

  /** Cuts `s` at the only places a match of the format can cut it, then
      checks each piece against its directive. */
  function Decompose(sep: char, s: string): (r: Option<Fields>)
    requires IsDateSeparator(sep)
    ensures r.Some? ==> FieldsMatch(r.value) && Compose(sep, r.value) == s
  {
    if |s| < 5 || s[4] != sep then None
    else
      match CutMonth(sep, s[5..])
      case None => None
      case Some((month, rest)) =>
        var (day, r2) := SplitDay(rest);
        var (gap, r3) := Span(r2, IsWhitespace);
        match CutTime(r3)
        case None => None
        case Some((hour, minute, second)) =>
          assert s == s[..4] + ([sep] + s[5..]);
          CheckFields(Fields(s[..4], month, day, gap, hour, minute, second))
  }

  /** The pieces, provided each matches its directive. */
  function CheckFields(f: Fields): (r: Option<Fields>)
    ensures r.Some? ==> r.value == f && FieldsMatch(f)
    ensures r.None? ==> !FieldsMatch(f)
  {
    if FieldsMatch(f) then Some(f) else None
  }

  /** `datetime.strptime(s, "%Y" + sep + "%m" + sep + "%d %H:%M:%S")`,
      with `None` for the `ValueError`. */
  function Strptime(sep: char, s: string): (r: Option<DateTime>)
    requires IsDateSeparator(sep)
    ensures r.Some? ==> Valid(r.value)
  {
    match Decompose(sep, s)
    case None => None
    case Some(f) => if Valid(FieldsValue(f)) then Some(FieldsValue(f)) else None
  }

  /** `Decompose` assembles the pieces its cutting steps produce. */
  lemma DecomposeSteps(sep: char, s: string, month: string, rest: string, day: string,
                       r2: string, gap: string, r3: string, hour: string, minute: string, second: string)
    requires IsDateSeparator(sep) && |s| >= 5 && s[4] == sep
    requires CutMonth(sep, s[5..]) == Some((month, rest))
    requires SplitDay(rest) == (day, r2)
    requires Span(r2, IsWhitespace) == (gap, r3)
    requires CutTime(r3) == Some((hour, minute, second))
    ensures Decompose(sep, s) == CheckFields(Fields(s[..4], month, day, gap, hour, minute, second))
  {
  }

  /** The shape of pieces that `Decompose` cuts apart exactly as they were
      put together, whether or not each piece matches its directive. */
  predicate Cuttable(f: Fields) {
    && |f.year| == 4
    && AllDigits(f.month)
    && ((|f.day| == 2 && f.day[0] == ' ') || (f.day != [] && AllDigits(f.day)))
    && f.gap != [] && All(f.gap, IsWhitespace)
    && f.hour != [] && AllDigits(f.hour)
    && AllDigits(f.minute)
  }

  lemma MatchIsCuttable(f: Fields)
    requires FieldsMatch(f)
    ensures Cuttable(f)
  {
  }

  lemma CutTimeComplete(f: Fields)
    requires Cuttable(f)
    ensures CutTime(f.hour + ([':'] + (f.minute + ([':'] + f.second)))) == Some((f.hour, f.minute, f.second))
  {
    var t4 := [':'] + (f.minute + ([':'] + f.second));
    var t5 := [':'] + f.second;
    SpanUnique(f.hour, t4, IsDigit);
    assert t4[1..] == f.minute + t5;
    SpanUnique(f.minute, t5, IsDigit);
  }

  lemma SplitDayComplete(f: Fields, t2: string)
    requires Cuttable(f)
    requires t2 != [] && IsWhitespace(t2[0])
    ensures SplitDay(f.day + t2) == (f.day, t2)
  {
    if |f.day| == 2 && f.day[0] == ' ' {
      assert (f.day + t2)[..2] == f.day;
    } else {
      assert (f.day + t2)[0] == f.day[0];
      SpanUnique(f.day, t2, IsDigit);
    }
  }

  /** `Decompose` cuts composed pieces back into the same pieces and then
      keeps them exactly when every piece matches its directive. */
  lemma DecomposeCompose(sep: char, f: Fields)
    requires IsDateSeparator(sep) && Cuttable(f)
    ensures Decompose(sep, Compose(sep, f)) == CheckFields(f)
  {
    var s := Compose(sep, f);
    var t3 := f.hour + ([':'] + (f.minute + ([':'] + f.second)));
    var t2 := f.gap + t3;
    var t1 := f.day + t2;
    assert s == f.year + ([sep] + (f.month + ([sep] + t1)));
    assert s[..4] == f.year && s[4] == sep && s[5..] == f.month + ([sep] + t1);
    SpanUnique(f.month, [sep] + t1, IsDigit);
    assert CutMonth(sep, s[5..]) == Some((f.month, t1));
    assert t2[0] == f.gap[0];
    SplitDayComplete(f, t2);
    assert t3[0] == f.hour[0];
    SpanUnique(f.gap, t3, IsWhitespace);
    CutTimeComplete(f);
    DecomposeSteps(sep, s, f.month, t1, f.day, t2, f.gap, t3, f.hour, f.minute, f.second);
  }

  /** Any decomposition of a string into matching pieces is the one
      `Decompose` finds. */
  lemma DecomposeComplete(sep: char, f: Fields)
    requires IsDateSeparator(sep) && FieldsMatch(f)
    ensures Decompose(sep, Compose(sep, f)) == Some(f)
  {
    MatchIsCuttable(f);
    DecomposeCompose(sep, f);
  }

  /** `strptime` returns `dt` exactly when the whole string matches the
      format with pieces worth `dt` and `dt` is a real date and time. */
  lemma StrptimeMatches(sep: char, s: string, dt: DateTime)
    requires IsDateSeparator(sep)
    ensures Strptime(sep, s) == Some(dt) <==> MatchesFormat(sep, s, dt) && Valid(dt)
  {
    if Strptime(sep, s) == Some(dt) {
      var f := Decompose(sep, s).value;
      assert FieldsMatch(f) && Compose(sep, f) == s && FieldsValue(f) == dt;
    }
    if MatchesFormat(sep, s, dt) && Valid(dt) {
      var f :| FieldsMatch(f) && Compose(sep, f) == s && FieldsValue(f) == dt;
      DecomposeComplete(sep, f);
    }
  }

  // ---------------------------------------------------------------------
  // Zero-padded printing and the round trip.

  function Pow10(n: nat): (p: nat)
    ensures p >= 1
  {
    if n == 0 then 1 else 10 * Pow10(n - 1)
  }

  /** `n` printed in exactly `width` decimal digits, zero-padded on the
      left (`%04d`, `%02d`); digits beyond the width are dropped. */
  function Pad(n: nat, width: nat): (t: string)
    ensures |t| == width && AllDigits(t)
  {
    if width == 0 then "" else Pad(n / 10, width - 1) + [DigitChar(n % 10)]
  }

  lemma {:induction false} PadValue(n: nat, width: nat)
    requires n < Pow10(width)
    ensures Decimal(Pad(n, width)) == n
  {
    if width > 0 {
      var t := Pad(n, width);
      assert t[..|t| - 1] == Pad(n / 10, width - 1);
      assert t[|t| - 1] == DigitChar(n % 10);
      assert n / 10 < Pow10(width - 1);
      PadValue(n / 10, width - 1);
      assert Decimal(t) == (n / 10) * 10 + n % 10;
    }
  }

  lemma Pad2(n: nat)
    requires n < 100
    ensures Pad(n, 2) == [DigitChar(n / 10), DigitChar(n % 10)]
    ensures Decimal(Pad(n, 2)) == n
  {
    var hi := n / 10;
    assert hi < 10 && hi / 10 == 0 && hi % 10 == hi;
    assert Pad(hi, 1) == [DigitChar(hi)];
    assert Pad(n, 2) == Pad(hi, 1) + [DigitChar(n % 10)];
    PadValue(n, 2);
  }

  /** `datetime.strftime(sep.join(["%Y", "%m", "%d"]) + " %H:%M:%S")` for
      years of four digits. */
  function Format(sep: char, dt: DateTime): string
    requires Valid(dt)
  {
    Compose(sep, PaddedFields(dt))
  }

  function PaddedFields(dt: DateTime): Fields
    requires Valid(dt)
  {
    Fields(Pad(dt.year, 4), Pad(dt.month, 2), Pad(dt.day, 2), " ",
           Pad(dt.hour, 2), Pad(dt.minute, 2), Pad(dt.second, 2))
  }

  lemma PadMonth(m: int)
    requires 1 <= m <= 12
    ensures IsMonthText(Pad(m, 2)) && Decimal(Pad(m, 2)) == m
  {
    Pad2(m);
  }

  lemma PadDay(d: int)
    requires 1 <= d <= 31
    ensures IsDayText(Pad(d, 2)) && DayValue(Pad(d, 2)) == d
  {
    Pad2(d);
  }

  lemma PadHour(h: int)
    requires 0 <= h <= 23
    ensures IsHourText(Pad(h, 2)) && Decimal(Pad(h, 2)) == h
  {
    Pad2(h);
  }

  lemma PadMinute(m: int)
    requires 0 <= m <= 59
    ensures IsMinuteText(Pad(m, 2)) && Decimal(Pad(m, 2)) == m
    ensures IsSecondText(Pad(m, 2))
  {
    Pad2(m);
  }

  lemma PaddedFieldsMatch(dt: DateTime)
    requires Valid(dt)
    ensures FieldsMatch(PaddedFields(dt))
    ensures FieldsValue(PaddedFields(dt)) == dt
  {
    PadValue(dt.year, 4);
    PadMonth(dt.month);
    PadDay(dt.day);
    PadHour(dt.hour);
    PadMinute(dt.minute);
    PadMinute(dt.second);
    var f := PaddedFields(dt);
    assert IsWhitespace(f.gap[0]);
  }

  /** Every valid `datetime`, printed zero-padded in the format, parses back
      to itself. */
  lemma FormatRoundTrip(sep: char, dt: DateTime)
    requires IsDateSeparator(sep) && Valid(dt)
    ensures Strptime(sep, Format(sep, dt)) == Some(dt)
  {
    PaddedFieldsMatch(dt);
    DecomposeComplete(sep, PaddedFields(dt));
  }

  // ---------------------------------------------------------------------
  // Fixed-width text: every field has its full number of digits.

  /** `\d{4}<sep>\d{2}<sep>\d{2} \d{2}:\d{2}:\d{2}`. */
  predicate IsFixedWidth(sep: char, t: string) {
    && |t| == 19
    && t[4] == sep && t[7] == sep && t[10] == ' ' && t[13] == ':' && t[16] == ':'
    && forall i | 0 <= i < 19 && i != 4 && i != 7 && i != 10 && i != 13 && i != 16 :: IsDigit(t[i])
  }

  /** The pieces of a fixed-width text. */
  function FixedFields(t: string): Fields
    requires |t| == 19
  {
    Fields(t[..4], t[5..7], t[8..10], t[10..11], t[11..13], t[14..16], t[17..])
  }

  /** Two-digit pieces and a single blank, all digits where digits go. */
  predicate IsFixedFields(f: Fields) {
    && IsYearText(f.year)
    && |f.month| == 2 && AllDigits(f.month)
    && |f.day| == 2 && AllDigits(f.day)
    && f.gap == " "
    && |f.hour| == 2 && AllDigits(f.hour)
    && |f.minute| == 2 && AllDigits(f.minute)
    && |f.second| == 2 && AllDigits(f.second)
  }

  /** A slice of digits is a digit string. */
  lemma SliceDigits(t: string, i: nat, j: nat)
    requires i <= j <= |t| && forall k | i <= k < j :: IsDigit(t[k])
    ensures AllDigits(t[i..j])
  {
    assert forall k | 0 <= k < j - i :: t[i..j][k] == t[i + k];
  }

  /** Putting the pieces of a fixed-width text back together gives it back. */
  lemma FixedFieldsCompose(sep: char, t: string)
    requires |t| == 19 && t[4] == sep && t[7] == sep && t[13] == ':' && t[16] == ':'
    ensures Compose(sep, FixedFields(t)) == t
  {
    assert t[16..] == [':'] + t[17..];
    assert t[14..] == t[14..16] + t[16..];
    assert t[13..] == [':'] + t[14..];
    assert t[11..] == t[11..13] + t[13..];
    assert t[10..] == t[10..11] + t[11..];
    assert t[8..] == t[8..10] + t[10..];
    assert t[7..] == [sep] + t[8..];
    assert t[5..] == t[5..7] + t[7..];
    assert t[4..] == [sep] + t[5..];
    assert t == t[..4] + t[4..];
  }

  lemma FixedWidthFields(sep: char, t: string)
    requires IsFixedWidth(sep, t)
    ensures IsFixedFields(FixedFields(t))
    ensures Compose(sep, FixedFields(t)) == t
  {
    SliceDigits(t, 0, 4);
    SliceDigits(t, 5, 7);
    SliceDigits(t, 8, 10);
    SliceDigits(t, 11, 13);
    SliceDigits(t, 14, 16);
    SliceDigits(t, 17, 19);
    assert t[17..] == t[17..19];
    assert t[10..11] == [t[10]] == " ";
    var f := FixedFields(t);
    assert IsYearText(f.year) && AllDigits(f.month) && AllDigits(f.day);
    assert AllDigits(f.hour) && AllDigits(f.minute) && AllDigits(f.second);
    FixedFieldsCompose(sep, t);
  }

  /** The date and time fixed-width pieces spell, checked or not. */
  function FixedValue(f: Fields): DateTime
    requires IsFixedFields(f)
  {
    DateTime(Decimal(f.year), Decimal(f.month), Decimal(f.day),
             Decimal(f.hour), Decimal(f.minute), Decimal(f.second))
  }

  lemma Decimal2(t: string)
    requires |t| == 2 && AllDigits(t)
    ensures Decimal(t) == 10 * DigitValue(t[0]) + DigitValue(t[1])
  {
    var h := t[..1];
    assert h[..0] == [] && h[0] == t[0];
    assert Decimal(h) == DigitValue(t[0]);
    assert t[..|t| - 1] == h;
  }

  /** On two digits each directive's alternation accepts exactly the
      numbers of its range. */
  lemma TwoDigitRanges(t: string)
    requires |t| == 2 && AllDigits(t)
    ensures IsMonthText(t) <==> 1 <= Decimal(t) <= 12
    ensures IsDayText(t) <==> 1 <= Decimal(t) <= 31
    ensures IsHourText(t) <==> Decimal(t) <= 23
    ensures IsMinuteText(t) <==> Decimal(t) <= 59
    ensures IsSecondText(t) <==> Decimal(t) <= 61
  {
    Decimal2(t);
  }

  /** On fixed-width text `strptime` succeeds exactly when the digits spell
      a valid date and time, and then returns what they spell. */
  lemma FixedWidthStrptime(sep: char, t: string)
    requires IsDateSeparator(sep) && IsFixedWidth(sep, t)
    ensures var v := FixedValue(FixedFields(t));
            Strptime(sep, t) == if Valid(v) then Some(v) else None
  {
    var f := FixedFields(t);
    FixedWidthFields(sep, t);
    assert Cuttable(f);
    DecomposeCompose(sep, f);
    TwoDigitRanges(f.month);
    TwoDigitRanges(f.day);
    TwoDigitRanges(f.hour);
    TwoDigitRanges(f.minute);
    TwoDigitRanges(f.second);
    if FieldsMatch(f) {
      assert FieldsValue(f) == FixedValue(f);
    }
  }


  // ---------------------------------------------------------------------
  // Worked examples.

  lemma Year2024()
    ensures Decimal("2024") == 2024
  {
    PadValue(2024, 4);
    assert Pad(2024, 4) == "2024";
  }

  lemma CanonicalPieces()
    ensures FieldsMatch(Fields("2024", "05", "01", " ", "12", "00", "00"))
    ensures FieldsValue(Fields("2024", "05", "01", " ", "12", "00", "00")) == DateTime(2024, 5, 1, 12, 0, 0)
  {
    Year2024();
    Decimal2("05");
    Decimal2("01");
    Decimal2("12");
    Decimal2("00");
    assert FieldsMatch(Fields("2024", "05", "01", " ", "12", "00", "00"));
  }

  /** The canonical EXIF text parses to the moment it spells. */
  lemma ExifTextExample(s: string)
    requires s == "2024:05:01 12:00:00"
    ensures Strptime(':', s) == Some(DateTime(2024, 5, 1, 12, 0, 0))
  {
    var f := Fields("2024", "05", "01", " ", "12", "00", "00");
    CanonicalPieces();
    assert Compose(':', f) == s;
    DecomposeComplete(':', f);
  }

  lemma LenientPieces()
    ensures FieldsMatch(Fields("2024", "5", " 1", "\t ", "9", "3", "7"))
    ensures FieldsValue(Fields("2024", "5", " 1", "\t ", "9", "3", "7")) == DateTime(2024, 5, 1, 9, 3, 7)
  {
    Year2024();
    assert FieldsMatch(Fields("2024", "5", " 1", "\t ", "9", "3", "7"));
  }

  /** Leading zeros may be left out, the blank may be any run of
      whitespace, and a day may carry a blank instead of its zero. */
  lemma LenientTextExample(s: string)
    requires s == "2024:5: 1\t 9:3:7"
    ensures Strptime(':', s) == Some(DateTime(2024, 5, 1, 9, 3, 7))
  {
    var f := Fields("2024", "5", " 1", "\t ", "9", "3", "7");
    LenientPieces();
    assert Compose(':', f) == s;
    DecomposeComplete(':', f);
  }

  lemma SeparatorPieces()
    ensures FieldsMatch(Fields("2024", "05", "01", "\U{001C}", "12", "00", "00"))
    ensures FieldsValue(Fields("2024", "05", "01", "\U{001C}", "12", "00", "00")) == DateTime(2024, 5, 1, 12, 0, 0)
  {
    CanonicalPieces();
    assert IsWhitespace('\U{001C}');
    assert FieldsMatch(Fields("2024", "05", "01", "\U{001C}", "12", "00", "00"));
  }

  /** The format's blank also matches the ASCII information separators,
      which `\s` counts as whitespace. */
  lemma InformationSeparatorExample(s: string)
    requires s == "2024:05:01\U{001C}12:00:00"
    ensures Strptime(':', s) == Some(DateTime(2024, 5, 1, 12, 0, 0))
  {
    var f := Fields("2024", "05", "01", "\U{001C}", "12", "00", "00");
    SeparatorPieces();
    assert Compose(':', f) == s;
    DecomposeComplete(':', f);
  }
}
