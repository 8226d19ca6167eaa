/**
  HAR timestamps: printing an instant as RFC 3339 text and reading it back.
 */
module Timestamp {
  import opened Text
  import opened Calendar

  const I64_MIN: int := -0x8000_0000_0000_0000
  const I64_MAX: nat := 0x7FFF_FFFF_FFFF_FFFF
  const U32_MAX: nat := 0xFFFF_FFFF

  // First millisecond of year 0 and last millisecond of year 9999.
  const YEAR_0_MS: int := -62167219200000
  const YEAR_9999_MS: int := 253402300799999

  /** `wall_ms as i64`: truncates toward zero and saturates. */
  function RealToI64(x: real): int {
    var t := if x >= 0.0 then x.Floor else -((-x).Floor);
    if t < I64_MIN then I64_MIN else if t > I64_MAX then I64_MAX else t
  }

  // Rust's `/` and `%` on integers truncate toward zero.
  function TruncDiv(a: int, b: int): int
    requires b > 0
  {
    if a >= 0 then a / b else -((-a) / b)
  }

  function TruncRem(a: int, b: int): int
    requires b > 0
  {
    a - TruncDiv(a, b) * b
  }

  function Abs(x: int): nat {
    if x < 0 then -x else x
  }

  /** `format!("{y:04}")` of a signed year. */
  function PrintYear(y: int): string {
    if y < 0 then "-" + ZeroPadded(-y, 3) else ZeroPadded(y, 4)
  }

  function PrintField(n: int, w: nat): string {
    ZeroPadded(Abs(n), w)
  }

  function PrintDateTime(t: DateTime, frac: nat): string {
    PrintYear(t.date.year)
    + ("-" + PrintField(t.date.month, 2)
       + ("-" + PrintField(t.date.day, 2)
          + ("T" + PrintField(t.hour, 2)
             + (":" + PrintField(t.minute, 2)
                + (":" + PrintField(t.second, 2)
                   + ("." + PrintField(frac, 3) + "Z"))))))
  }

  /** `wall_ms_to_rfc3339` after the cast to whole milliseconds. */
  function PrintMs(ms: int): string {
    PrintDateTime(UnixSecsToDateTime(TruncDiv(ms, 1000)), Abs(TruncRem(ms, 1000)))
  }

  function WallMsToRfc3339(wallMs: real): string {
    PrintMs(RealToI64(wallMs))
  }

  /** `rfc3339_to_wall_ms`, on ASCII text. */
  function Rfc3339ToWallMs(s: string): Option<int> {
    if |s| < 19 then None
    else
      var y := ParseSigned(s[0..4], I64_MIN, I64_MAX);
      var mo := ParseUnsigned(s[5..7], U32_MAX);
      var d := ParseUnsigned(s[8..10], U32_MAX);
      var h := ParseUnsigned(s[11..13], U32_MAX);
      var mi := ParseUnsigned(s[14..16], U32_MAX);
      var sec := ParseUnsigned(s[17..19], U32_MAX);
      if y.None? || mo.None? || d.None? || h.None? || mi.None? || sec.None? then None
      else
        var ms := if |s| > 19 && s[19] == '.' && |s| >= 23 then ParseUnsigned(s[20..23], U32_MAX) else None;
        var t := DateTime(Date(y.value, mo.value, d.value), h.value, mi.value, sec.value);
        Some(DateTimeToUnixSecs(t) * 1000 + (if ms.Some? then ms.value else 0))
  }

  /** The cast keeps the whole part and drops the fraction toward zero; outside the range it gives the nearest
      end of it. */
  lemma CastTruncates(x: real)
    ensures
      var n := RealToI64(x);
      && (I64_MIN as real <= x <= I64_MAX as real && x >= 0.0 ==> n as real <= x < n as real + 1.0)
      && (I64_MIN as real <= x <= I64_MAX as real && x < 0.0 ==> n as real - 1.0 < x <= n as real)
      && (x < I64_MIN as real ==> n == I64_MIN) && (x > I64_MAX as real ==> n == I64_MAX)
  {
  }

  /** A year prints as its digits, at least four places wide with the sign. */
  lemma YearText(y: int)
    ensures |PrintYear(y)| >= 4
    ensures y >= 0 ==> AllDigits(PrintYear(y)) && Value(PrintYear(y)) == y
    ensures y < 0 ==> PrintYear(y)[0] == '-' && AllDigits(PrintYear(y)[1..]) && Value(PrintYear(y)[1..]) == -y
  {
    PaddedText(Abs(y), if y < 0 then 3 else 4);
    assert y < 0 ==> PrintYear(y)[1..] == ZeroPadded(-y, 3);
  }

  lemma PaddedText(n: nat, w: nat)
    ensures |ZeroPadded(n, w)| >= w && AllDigits(ZeroPadded(n, w)) && Value(ZeroPadded(n, w)) == n
  {
    DecimalValue(n);
    ZerosValue(if |Decimal(n)| >= w then 0 else w - |Decimal(n)|, Decimal(n));
  }

  // ----- Fixed layout -------------------------------------------------------------

  predicate FourDigitYear(t: DateTime) {
    ValidDateTime(t) && 0 <= t.date.year <= 9999
  }

  lemma FieldText(n: nat, w: nat)
    requires 0 < w <= 4 && n < Pow10(w)
    ensures |ZeroPadded(n, w)| == w
    ensures ParseUnsigned(ZeroPadded(n, w), U32_MAX) == Some(n)
    ensures ParseSigned(ZeroPadded(n, w), I64_MIN, I64_MAX) == Some(n)
  {
    PaddedValue(n, w);
    Pow10Below5(w);
    ParseOfDigits(ZeroPadded(n, w), U32_MAX);
    ParseOfDigits(ZeroPadded(n, w), I64_MAX);
  }

  lemma Pow10Below5(w: nat)
    requires w <= 4
    ensures Pow10(w) <= 10000 && Pow10(2) == 100 && Pow10(3) == 1000 && Pow10(4) == 10000
  {
    assert Pow10(1) == 10 && Pow10(2) == 100 && Pow10(3) == 1000 && Pow10(4) == 10000;
    if w < 4 {
      assert w in {0, 1, 2, 3};
    }
  }

  /** Every field of a four-digit-year timestamp sits at its fixed offset. */
  lemma FixedLayout(t: DateTime, frac: nat)
    requires FourDigitYear(t) && frac < 1000
    ensures
      var s := PrintDateTime(t, frac);
      && |s| == 24
      && s[0..4] == ZeroPadded(t.date.year, 4)
      && s[5..7] == ZeroPadded(t.date.month, 2)
      && s[8..10] == ZeroPadded(t.date.day, 2)
      && s[11..13] == ZeroPadded(t.hour, 2)
      && s[14..16] == ZeroPadded(t.minute, 2)
      && s[17..19] == ZeroPadded(t.second, 2)
      && s[20..23] == ZeroPadded(frac, 3)
      && s[4] == s[7] == '-' && s[10] == 'T' && s[13] == s[16] == ':' && s[19] == '.' && s[23] == 'Z'
  {
    hide ZeroPadded, Decimal, Pow10, ParseUnsigned, ParseSigned;
    Pow10Below5(4);
    FieldText(t.date.year, 4);
    FieldText(t.date.month, 2);
    FieldText(t.date.day, 2);
    FieldText(t.hour, 2);
    FieldText(t.minute, 2);
    FieldText(t.second, 2);
    FieldText(frac, 3);
  }

  lemma ParsePrinted(t: DateTime, frac: nat)
    requires FourDigitYear(t) && frac < 1000
    ensures Rfc3339ToWallMs(PrintDateTime(t, frac)) == Some(DateTimeToUnixSecs(t) * 1000 + frac)
  {
    hide ZeroPadded, Decimal, Pow10, ParseUnsigned, ParseSigned, PrintDateTime, DateTimeToUnixSecs;
    Pow10Below5(4);
    FixedLayout(t, frac);
    FieldText(t.date.year, 4);
    FieldText(t.date.month, 2);
    FieldText(t.date.day, 2);
    FieldText(t.hour, 2);
    FieldText(t.minute, 2);
    FieldText(t.second, 2);
    FieldText(frac, 3);
  }

  // ----- Round trip ---------------------------------------------------------------

  /** How much of the text is needed: nothing shorter than whole seconds is read, and a fraction that is not
      all there counts as none. */
  lemma ParseOfPrefix(t: DateTime, frac: nat, n: nat)
    requires FourDigitYear(t) && frac < 1000 && n <= |PrintDateTime(t, frac)|
    ensures Rfc3339ToWallMs(PrintDateTime(t, frac)[..n])
         == if n < 19 then None else Some(DateTimeToUnixSecs(t) * 1000 + (if n < 23 then 0 else frac))
  {
    hide PrintDateTime, DateTimeToUnixSecs, ParseSigned, ParseUnsigned, ZeroPadded, FourDigitYear, Rfc3339ToWallMs;
    var s := PrintDateTime(t, frac);
    if n < 19 {
      TooShort(s[..n]);
    } else {
      FixedLayout(t, frac);
      FieldsRead(t, frac);
      PrefixFields(s, n);
      ReadOfFields(s[..n], t.date.year, t.date.month, t.date.day, t.hour, t.minute, t.second);
    }
  }

  lemma TooShort(p: string)
    requires |p| < 19
    ensures Rfc3339ToWallMs(p) == None
  {
  }

  lemma SliceOfPrefix(s: string, n: nat, a: nat, b: nat)
    requires a <= b <= n <= |s|
    ensures s[..n][a..b] == s[a..b]
  {
  }

  lemma PrefixFields(s: string, n: nat)
    requires 19 <= n <= |s|
    ensures
      var p := s[..n];
      && p[0..4] == s[0..4] && p[5..7] == s[5..7] && p[8..10] == s[8..10] && p[11..13] == s[11..13]
      && p[14..16] == s[14..16] && p[17..19] == s[17..19]
      && (n >= 23 ==> p[19] == s[19] && p[20..23] == s[20..23])
  {
    SliceOfPrefix(s, n, 0, 4);
    SliceOfPrefix(s, n, 5, 7);
    SliceOfPrefix(s, n, 8, 10);
    SliceOfPrefix(s, n, 11, 13);
    SliceOfPrefix(s, n, 14, 16);
    SliceOfPrefix(s, n, 17, 19);
    if n >= 23 {
      SliceOfPrefix(s, n, 20, 23);
    }
  }

  lemma ReadOfFields(p: string, y: int, mo: nat, d: nat, h: nat, mi: nat, sec: nat)
    requires |p| >= 19
    requires ParseSigned(p[0..4], I64_MIN, I64_MAX) == Some(y)
    requires ParseUnsigned(p[5..7], U32_MAX) == Some(mo) && ParseUnsigned(p[8..10], U32_MAX) == Some(d)
    requires ParseUnsigned(p[11..13], U32_MAX) == Some(h) && ParseUnsigned(p[14..16], U32_MAX) == Some(mi)
    requires ParseUnsigned(p[17..19], U32_MAX) == Some(sec)
    ensures
      var secs := DateTimeToUnixSecs(DateTime(Date(y, mo, d), h, mi, sec));
      && (|p| < 23 ==> Rfc3339ToWallMs(p) == Some(secs * 1000))
      && (|p| >= 23 && p[19] == '.' && ParseUnsigned(p[20..23], U32_MAX).Some? ==>
            Rfc3339ToWallMs(p) == Some(secs * 1000 + ParseUnsigned(p[20..23], U32_MAX).value))
  {
    hide DateTimeToUnixSecs, ParseSigned, ParseUnsigned;
  }

  lemma FieldsRead(t: DateTime, frac: nat)
    requires FourDigitYear(t) && frac < 1000
    ensures ParseSigned(ZeroPadded(t.date.year, 4), I64_MIN, I64_MAX) == Some(t.date.year)
    ensures ParseUnsigned(ZeroPadded(t.date.month, 2), U32_MAX) == Some(t.date.month)
    ensures ParseUnsigned(ZeroPadded(t.date.day, 2), U32_MAX) == Some(t.date.day)
    ensures ParseUnsigned(ZeroPadded(t.hour, 2), U32_MAX) == Some(t.hour)
    ensures ParseUnsigned(ZeroPadded(t.minute, 2), U32_MAX) == Some(t.minute)
    ensures ParseUnsigned(ZeroPadded(t.second, 2), U32_MAX) == Some(t.second)
    ensures ParseUnsigned(ZeroPadded(frac, 3), U32_MAX) == Some(frac)
  {
    hide ZeroPadded, Decimal, Pow10, ParseUnsigned, ParseSigned;
    Pow10Below5(4);
    FieldText(t.date.year, 4);
    FieldText(t.date.month, 2);
    FieldText(t.date.day, 2);
    FieldText(t.hour, 2);
    FieldText(t.minute, 2);
    FieldText(t.second, 2);
    FieldText(frac, 3);
  }

  lemma FirstAndLastDay()
    ensures DaysFromCivil(Date(0, 1, 1)) == -719528
    ensures DaysFromCivil(Date(9999, 12, 31)) == 2932896
  {
    assert -1 / 400 == -1 && EraDay(399) == 145731;
    assert 9999 / 400 == 24 && EraDay(399) == 145731;
    hide EraDay;
  }

  lemma FirstAndLastSecond()
    ensures UnixSecsToDateTime(-62167219200) == DateTime(Date(0, 1, 1), 0, 0, 0)
    ensures UnixSecsToDateTime(253402300799) == DateTime(Date(9999, 12, 31), 23, 59, 59)
  {
    var first := DateTime(Date(0, 1, 1), 0, 0, 0);
    var last := DateTime(Date(9999, 12, 31), 23, 59, 59);
    FirstAndLastDay();
    hide CivilFromDays, DaysFromCivil, UnixSecsToDateTime;
    DateTimeRoundTrip(first);
    DateTimeRoundTrip(last);
  }

  lemma FourDigitYears(secs: int)
    requires YEAR_0_MS <= secs * 1000 <= YEAR_9999_MS
    ensures FourDigitYear(UnixSecsToDateTime(secs))
  {
    hide UnixSecsToDateTime, DateTimeToUnixSecs, ValidDateTime;
    FirstAndLastSecond();
    UnixSecsRoundTrip(secs);
    if -62167219200 < secs { DateTimeIsMonotone(-62167219200, secs); }
    if secs < 253402300799 { DateTimeIsMonotone(secs, 253402300799); }
    assert ValidDateTime(UnixSecsToDateTime(-62167219200)) && ValidDateTime(UnixSecsToDateTime(253402300799)) by {
      UnixSecsRoundTrip(-62167219200);
      UnixSecsRoundTrip(253402300799);
    }
  }

  lemma ReparsedMs(ms: int)
    requires YEAR_0_MS <= ms <= YEAR_9999_MS
    ensures Rfc3339ToWallMs(PrintMs(ms)) == Some(TruncDiv(ms, 1000) * 1000 + Abs(TruncRem(ms, 1000)))
  {
    hide UnixSecsToDateTime, Rfc3339ToWallMs, PrintDateTime, DateTimeToUnixSecs;
    var secs := TruncDiv(ms, 1000);
    FourDigitYears(secs);
    UnixSecsRoundTrip(secs);
    ParsePrinted(UnixSecsToDateTime(secs), Abs(TruncRem(ms, 1000)));
  }

  /** The parser undoes the printer on exactly the instants from 1970 on and the
      whole seconds before: earlier fractions are printed by absolute value. */
  lemma TimestampRoundTrip(ms: int)
    requires YEAR_0_MS <= ms <= YEAR_9999_MS
    ensures Rfc3339ToWallMs(PrintMs(ms)) == Some(ms) <==> ms >= 0 || ms % 1000 == 0
  {
    hide Rfc3339ToWallMs, PrintMs;
    ReparsedMs(ms);
  }

  lemma BeforeEpochCollides()
    ensures PrintMs(-1) == PrintMs(1)
    ensures Rfc3339ToWallMs(PrintMs(-1)) == Some(1)
  {
    hide Rfc3339ToWallMs, PrintDateTime, UnixSecsToDateTime;
    ReparsedMs(-1);
  }

  // ----- Order --------------------------------------------------------------------

  lemma FieldOrder(a: nat, b: nat, w: nat)
    requires 0 < w && a < b < Pow10(w)
    ensures |ZeroPadded(a, w)| == |ZeroPadded(b, w)| == w
    ensures LexLess(ZeroPadded(a, w), ZeroPadded(b, w))
  {
    PaddedValue(a, w);
    PaddedValue(b, w);
    LexLessOfValues(ZeroPadded(a, w), ZeroPadded(b, w));
  }

  /** If two texts share a prefix and then differ in a field of fixed width, the field decides. */
  lemma FieldDecides(p: string, a: nat, b: nat, w: nat, s: string, t: string)
    requires 0 < w && a < b < Pow10(w)
    ensures LexLess(p + ZeroPadded(a, w) + s, p + ZeroPadded(b, w) + t)
  {
    FieldOrder(a, b, w);
    LexLessPrefix(p, ZeroPadded(a, w), ZeroPadded(b, w));
    LexLessSuffix(p + ZeroPadded(a, w), p + ZeroPadded(b, w), s, t);
  }

  /** A timestamp as a list of separated, zero-padded fields. */
  datatype Fields = End | Field(sep: string, value: nat, width: nat, rest: Fields)

  function PrintFields(fs: Fields): string {
    match fs
    case End => "Z"
    case Field(sep, value, width, rest) => sep + ZeroPadded(value, width) + PrintFields(rest)
  }

  /** The same layout, and the first field that differs is smaller on the left. */
  predicate FieldsBefore(a: Fields, b: Fields) {
    && a.Field? && b.Field? && a.sep == b.sep && a.width == b.width > 0
    && a.value < Pow10(a.width) && b.value < Pow10(b.width)
    && (a.value < b.value || (a.value == b.value && FieldsBefore(a.rest, b.rest)))
  }

  lemma {:induction false} FirstDifferenceDecides(a: Fields, b: Fields)
    requires FieldsBefore(a, b)
    ensures LexLess(PrintFields(a), PrintFields(b))
  {
    hide ZeroPadded, Pow10, LexLess;
    if a.value < b.value {
      FieldDecides(a.sep, a.value, b.value, a.width, PrintFields(a.rest), PrintFields(b.rest));
    } else {
      FirstDifferenceDecides(a.rest, b.rest);
      LexLessPrefix(a.sep + ZeroPadded(a.value, a.width), PrintFields(a.rest), PrintFields(b.rest));
    }
  }

  function DateFields(d: Date, rest: Fields): Fields
    requires ValidDate(d) && d.year >= 0
  {
    Field("", d.year, 4, Field("-", d.month, 2, Field("-", d.day, 2, rest)))
  }

  function ClockFields(t: DateTime, frac: nat): Fields
    requires ValidDateTime(t)
  {
    Field("T", t.hour, 2, Field(":", t.minute, 2, Field(":", t.second, 2, Field(".", frac, 3, End))))
  }

  lemma PrintedAsFields(t: DateTime, frac: nat)
    requires FourDigitYear(t)
    ensures PrintDateTime(t, frac) == PrintFields(DateFields(t.date, ClockFields(t, frac)))
  {
    hide ZeroPadded;
    var f := ClockFields(t, frac);
    assert f.rest.rest.rest == Field(".", frac, 3, End) && PrintFields(End) == "Z";
    assert PrintFields(f.rest.rest) == ":" + PrintField(t.second, 2) + ("." + PrintField(frac, 3) + "Z");
    assert PrintFields(f) == "T" + PrintField(t.hour, 2) + (":" + PrintField(t.minute, 2) + PrintFields(f.rest.rest));
    var g := DateFields(t.date, f);
    assert PrintFields(g.rest.rest) == "-" + PrintField(t.date.day, 2) + PrintFields(f);
    var y := PrintYear(t.date.year);
    assert "" + y == y;
  }

  lemma LaterPrintsGreater(t: DateTime, frac: nat, t': DateTime, frac': nat)
    requires FourDigitYear(t) && FourDigitYear(t') && frac < 1000 && frac' < 1000
    requires DateTimeBefore(t, t') || (t == t' && frac < frac')
    ensures LexLess(PrintDateTime(t, frac), PrintDateTime(t', frac'))
  {
    hide PrintDateTime, PrintFields, Pow10, LexLess;
    Pow10Below5(4);
    PrintedAsFields(t, frac);
    PrintedAsFields(t', frac');
    var clock, clock' := ClockFields(t, frac), ClockFields(t', frac');
    var fields, fields' := DateFields(t.date, clock), DateFields(t'.date, clock');
    assert t.date == t'.date && t.hour == t'.hour && t.minute == t'.minute ==>
        FieldsBefore(clock.rest.rest, clock'.rest.rest);
    assert t.date == t'.date ==> FieldsBefore(clock, clock');
    assert t.date.year == t'.date.year && t.date.month == t'.date.month ==>
        FieldsBefore(fields.rest.rest, fields'.rest.rest);
    FirstDifferenceDecides(fields, fields');
  }

  /** Printed instants sort as text exactly as they sort in time. */
  lemma TimestampOrder(ms: int, ms': int)
    requires 0 <= ms <= YEAR_9999_MS && 0 <= ms' <= YEAR_9999_MS
    ensures ms < ms' <==> LexLess(PrintMs(ms), PrintMs(ms'))
  {
    hide UnixSecsToDateTime, PrintDateTime, LexLess;
    FourDigitYears(ms / 1000);
    FourDigitYears(ms' / 1000);
    if ms < ms' {
      EarlierPrintsLess(ms, ms');
    } else {
      if ms == ms' {
        LexLessIsStrict(PrintMs(ms));
      } else {
        EarlierPrintsLess(ms', ms);
        LexLessIsAsymmetric(PrintMs(ms'), PrintMs(ms));
      }
    }
  }

  lemma EarlierPrintsLess(ms: int, ms': int)
    requires 0 <= ms < ms' <= YEAR_9999_MS
    ensures LexLess(PrintMs(ms), PrintMs(ms'))
  {
    hide UnixSecsToDateTime, PrintDateTime, LexLess;
    FourDigitYears(ms / 1000);
    FourDigitYears(ms' / 1000);
    if ms / 1000 < ms' / 1000 {
      DateTimeIsMonotone(ms / 1000, ms' / 1000);
    }
    LaterPrintsGreater(UnixSecsToDateTime(ms / 1000), ms % 1000, UnixSecsToDateTime(ms' / 1000), ms' % 1000);
  }
}
