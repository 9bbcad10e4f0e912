/** The timestamp serialiser installed for GPX output (`format_time`):
    `YYYY-MM-DDTHH:MM:SS`, then `.` and the milliseconds when the time has a
    sub-second part, then `Z` for UTC or a naive time, or the `%z` offset
    otherwise. A reader for that text is included as its inverse. */
module TimeFormat {
  import opened Wrappers
  import opened Decimal

  /** A `datetime`. `offset` is `utcoffset()` in whole seconds, `None` for
      a naive time. */
  datatype DateTime = DateTime(
    year: int, month: int, day: int,
    hour: int, minute: int, second: int, microsecond: int,
    offset: Option<int>)

  predicate IsLeapYear(y: int) {
    y % 4 == 0 && (y % 100 != 0 || y % 400 == 0)
  }

  function DaysInMonth(y: int, m: int): int
    requires 1 <= m <= 12
  {
    if m == 2 then (if IsLeapYear(y) then 29 else 28)
    else if m == 4 || m == 6 || m == 9 || m == 11 then 30
    else 31
  }

  /** The values a `datetime` can hold, with the year limited to the four
      digit range; a UTC offset is strictly less than a day either way. */
  predicate Valid(t: DateTime) {
    && 1000 <= t.year <= 9999
    && 1 <= t.month <= 12
    && 1 <= t.day <= DaysInMonth(t.year, t.month)
    && 0 <= t.hour < 24
    && 0 <= t.minute < 60
    && 0 <= t.second < 60
    && 0 <= t.microsecond < 1000000
    && (t.offset.Some? ==> -86400 < t.offset.value < 86400)
  }

  /** `not offset or offset == 0`: a missing offset and a zero offset are
      both falsy. The second test compares a `timedelta` with an `int` and
      is never true, so it adds nothing. */
  predicate IsUtc(t: DateTime) {
    t.offset.None? || t.offset.value == 0
  }

  /** `strftime('%z')`: the sign, then the digits of the offset's size. */
  function OffsetText(off: int): string
    requires -86400 < off < 86400
  {
    var sign := if off < 0 then '-' else '+';
    [sign] + OffsetDigits(if off < 0 then -off else off)
  }

  /** The digits `%z` writes for an offset of `a` seconds: hours and
      minutes, then seconds when there are any. */
  function OffsetDigits(a: nat): (d: string)
    requires a < 86400
    ensures |d| == 4 || |d| == 6
    ensures AllDigits(d)
  {
    var hh := a / 3600;
    var mm := a % 3600 / 60;
    var ss := a % 3600 % 60;
    Pad(hh, 2) + Pad(mm, 2) + (if ss != 0 then Pad(ss, 2) else "")
  }

  /** `strftime('%Y-%m-%dT%H:%M:%S')`. */
  function Stamp(t: DateTime): string
    requires Valid(t)
  {
    Joined(Pad(t.year, 4), Pad(t.month, 2), Pad(t.day, 2), '-') + "T"
      + Joined(Pad(t.hour, 2), Pad(t.minute, 2), Pad(t.second, 2), ':')
  }

  /** Three fields with a separator between them, as in `%Y-%m-%d` and
      `%H:%M:%S`. */
  function Joined(a: string, b: string, c: string, sep: char): string {
    a + [sep] + b + [sep] + c
  }

  /** `strftime('.%f')[:4]` when the microsecond is non-zero, else empty. */
  function Fraction(t: DateTime): string
    requires Valid(t)
  {
    if t.microsecond != 0 then ("." + Pad(t.microsecond, 6))[..4] else ""
  }

  function Zone(t: DateTime): string
    requires Valid(t)
  {
    if IsUtc(t) then "Z" else OffsetText(t.offset.value)
  }

  /** `format_time(time)`. What the text looks like is stated by
      `FormatTimeShape`; `ParseFormatTime` shows that it can be read back. */
  function FormatTime(t: DateTime): string
    requires Valid(t)
  {
    Stamp(t) + Fraction(t) + Zone(t)
  }

  // ---------------------------------------------------------------------
  // Facts about the pieces

  lemma StampShape(t: DateTime)
    requires Valid(t)
    ensures var s := Stamp(t);
      && |s| == 19
      && s[4] == '-' && s[7] == '-' && s[10] == 'T' && s[13] == ':' && s[16] == ':'
      && s[0..4] == Pad(t.year, 4)
      && s[5..7] == Pad(t.month, 2)
      && s[8..10] == Pad(t.day, 2)
      && s[11..13] == Pad(t.hour, 2)
      && s[14..16] == Pad(t.minute, 2)
      && s[17..19] == Pad(t.second, 2)
      && forall i :: 0 <= i < |s| ==> s[i] != '.'
  {
    var s := Stamp(t);
    var date := Joined(Pad(t.year, 4), Pad(t.month, 2), Pad(t.day, 2), '-');
    var clock := Joined(Pad(t.hour, 2), Pad(t.minute, 2), Pad(t.second, 2), ':');
    JoinedShape(Pad(t.year, 4), Pad(t.month, 2), Pad(t.day, 2), '-');
    JoinedShape(Pad(t.hour, 2), Pad(t.minute, 2), Pad(t.second, 2), ':');
    assert s == date + "T" + clock;
    assert s[..10] == date && s[11..] == clock;
    assert s[0..4] == date[0..4];
    assert s[5..7] == date[5..7];
    assert s[8..10] == date[8..10];
    assert s[11..13] == clock[0..2];
    assert s[14..16] == clock[3..5];
    assert s[17..19] == clock[6..8];
    forall i | 0 <= i < |s| ensures s[i] != '.' {
      if i < 10 {
        assert s[i] == date[i];
      } else if i > 10 {
        assert s[i] == clock[i - 11];
      }
    }
  }

  lemma JoinedShape(a: string, b: string, c: string, sep: char)
    requires AllDigits(a) && AllDigits(b) && AllDigits(c) && sep != '.'
    ensures var s := Joined(a, b, c, sep);
      && |s| == |a| + |b| + |c| + 2
      && s[|a|] == sep && s[|a| + |b| + 1] == sep
      && s[0..|a|] == a && s[|a| + 1..|a| + 1 + |b|] == b && s[|a| + |b| + 2..] == c
      && forall i :: 0 <= i < |s| ==> s[i] != '.'
  {
    var s := Joined(a, b, c, sep);
    assert s == a + [sep] + b + [sep] + c;
    forall i | 0 <= i < |s| ensures s[i] != '.' {
      if i < |a| {
        assert s[i] == a[i];
      } else if |a| < i < |a| + 1 + |b| {
        assert s[i] == b[i - |a| - 1];
      } else if i > |a| + |b| + 1 {
        assert s[i] == c[i - |a| - |b| - 2];
      }
    }
  }

  /** The millisecond field is the microsecond truncated to thousands. */
  lemma FractionTruncates(t: DateTime)
    requires Valid(t) && t.microsecond != 0
    ensures Fraction(t) == "." + Pad(t.microsecond / 1000, 3)
  {
    PadPrefix(t.microsecond, 3, 3);
    var n := t.microsecond;
    assert DropDigits(n, 3) == DropDigits(n / 10, 2);
    assert DropDigits(n / 10, 2) == DropDigits(n / 10 / 10, 1);
    assert DropDigits(n / 10 / 10, 1) == n / 10 / 10 / 10;
    assert n / 10 / 10 / 10 == n / 1000;
    var p := Pad(t.microsecond, 6);
    assert ("." + p)[..4] == "." + p[..3];
  }

  lemma ZoneShape(t: DateTime)
    requires Valid(t)
    ensures var z := Zone(t);
      && (IsUtc(t) ==> z == "Z")
      && (!IsUtc(t) ==> (|z| == 5 || |z| == 7) && z[0] == (if t.offset.value < 0 then '-' else '+')
                        && AllDigits(z[1..]))
      && forall i :: 0 <= i < |z| ==> z[i] != '.'
  {
    if !IsUtc(t) {
      var off := t.offset.value;
      var z := Zone(t);
      assert z[1..] == OffsetDigits(if off < 0 then -off else off);
    }
  }

  /** The text ends in `Z` exactly for UTC and naive times; it has a `.`
      exactly when the time has a sub-second part, and then only at position
      19, followed by the truncated milliseconds; otherwise the zone starts
      at position 19. */
  lemma FormatTimeShape(t: DateTime)
    requires Valid(t)
    ensures var s := FormatTime(t);
      && |s| >= 20
      && (s[|s| - 1] == 'Z' <==> IsUtc(t))
      && (s[19] == '.' <==> t.microsecond != 0)
      && (forall i :: 0 <= i < |s| && s[i] == '.' ==> i == 19)
      && (t.microsecond != 0 ==> |s| > 23 && s[19..23] == "." + Pad(t.microsecond / 1000, 3))
      && (t.microsecond == 0 ==> |s| > 19 && s[19] in "Z+-")
  {
    var stamp, frac, zone := Stamp(t), Fraction(t), Zone(t);
    StampShape(t);
    ZoneShape(t);
    if t.microsecond != 0 {
      FractionTruncates(t);
      assert AllDigits(frac[1..]);
    }
    if !IsUtc(t) {
      assert IsDigit(zone[1..][|zone| - 2]);
    }
    JoinedPartsShape(stamp, frac, zone);
  }

  /** Where the dot and the zone end up in `stamp + frac + zone`. */
  lemma JoinedPartsShape(stamp: string, frac: string, zone: string)
    requires |stamp| == 19 && forall i :: 0 <= i < |stamp| ==> stamp[i] != '.'
    requires frac == "" || (|frac| == 4 && frac[0] == '.' && AllDigits(frac[1..]))
    requires |zone| >= 1 && forall i :: 0 <= i < |zone| ==> zone[i] != '.'
    ensures var s := stamp + frac + zone;
      && |s| >= 20
      && s[|s| - 1] == zone[|zone| - 1]
      && (s[19] == '.' <==> frac != "")
      && (forall i :: 0 <= i < |s| && s[i] == '.' ==> i == 19)
      && (frac != "" ==> |s| > 23 && s[19..23] == frac)
      && (frac == "" ==> s[19] == zone[0])
  {
    var s := stamp + frac + zone;
    forall i | 0 <= i < |s| && i != 19 ensures s[i] != '.' {
      if i < 19 {
        assert s[i] == stamp[i];
      } else if i < 19 + |frac| {
        assert s[i] == frac[1..][i - 20];
      } else {
        assert s[i] == zone[i - 19 - |frac|];
      }
    }
    if frac != "" {
      assert s[19..23] == frac;
    } else {
      assert s == stamp + zone;
    }
  }

  // ---------------------------------------------------------------------
  // Reading the text back

  /** The digits at `s[i..i+w]`, if they are there. */
  function Field(s: string, i: nat, w: nat): Option<nat> {
    if i + w <= |s| && AllDigits(s[i..i + w]) then Some(Value(s[i..i + w])) else None
  }

  /** Reads `Z` as "no offset" and `+HHMM`, `-HHMM`, `+HHMMSS` or `-HHMMSS`
      as an offset in seconds. */
  function ParseZone(z: string): Option<Option<int>> {
    if z == "Z" then Some(None)
    else if (|z| == 5 || |z| == 7) && (z[0] == '+' || z[0] == '-') then
      var hh :- Field(z, 1, 2);
      var mm :- Field(z, 3, 2);
      var ss :- if |z| == 7 then Field(z, 5, 2) else Some(0);
      var a := hh * 3600 + mm * 60 + ss;
      Some(Some(if z[0] == '-' then -a else a))
    else None
  }

  /** Reads text of the shape `format_time` writes. */
  function ParseTime(s: string): Option<DateTime> {
    if |s| < 20 || s[4] != '-' || s[7] != '-' || s[10] != 'T' || s[13] != ':' || s[16] != ':' then None
    else
      var year :- Field(s, 0, 4);
      var month :- Field(s, 5, 2);
      var day :- Field(s, 8, 2);
      var hour :- Field(s, 11, 2);
      var minute :- Field(s, 14, 2);
      var second :- Field(s, 17, 2);
      if s[19] == '.' then
        var millis :- Field(s, 20, 3);
        var zone :- ParseZone(s[23..]);
        Some(DateTime(year, month, day, hour, minute, second, millis * 1000, zone))
      else
        var zone :- ParseZone(s[19..]);
        Some(DateTime(year, month, day, hour, minute, second, 0, zone))
  }

  /** What survives serialisation: the microseconds truncated to whole
      milliseconds, and a zero offset written as `Z`. */
  function Truncated(t: DateTime): DateTime {
    t.(microsecond := t.microsecond / 1000 * 1000,
       offset := if t.offset == Some(0) then None else t.offset)
  }

  lemma FieldOfPad(s: string, i: nat, n: nat, w: nat)
    requires n < Pow10(w)
    requires i + w <= |s| && s[i..i + w] == Pad(n, w)
    ensures Field(s, i, w) == Some(n)
  {
    ValueOfPad(n, w);
  }

  lemma ParseOffsetText(off: int)
    requires -86400 < off < 86400 && off != 0
    ensures ParseZone(OffsetText(off)) == Some(Some(off))
  {
    var z := OffsetText(off);
    var a := if off < 0 then -off else off;
    var d := OffsetDigits(a);
    var hh, mm, ss := a / 3600, a % 3600 / 60, a % 3600 % 60;
    OffsetDigitsLayout(a);
    assert z == [z[0]] + d;
    assert z[1..3] == d[0..2];
    assert z[3..5] == d[2..4];
    FieldOfPad(z, 1, hh, 2);
    FieldOfPad(z, 3, mm, 2);
    if ss != 0 {
      assert z[5..7] == d[4..6];
      FieldOfPad(z, 5, ss, 2);
    }
    ParseZoneWith(z, hh, mm, ss);
    assert hh * 3600 + mm * 60 + ss == a;
  }

  /** Where the hours, minutes and seconds of an offset sit in its digits. */
  lemma OffsetDigitsLayout(a: nat)
    requires a < 86400
    ensures var d := OffsetDigits(a);
      && d[0..2] == Pad(a / 3600, 2)
      && d[2..4] == Pad(a % 3600 / 60, 2)
      && (|d| == 6 <==> a % 3600 % 60 != 0)
      && (|d| == 6 ==> d[4..6] == Pad(a % 3600 % 60, 2))
  {
    var head, mid := Pad(a / 3600, 2), Pad(a % 3600 / 60, 2);
    var tail := if a % 3600 % 60 != 0 then Pad(a % 3600 % 60, 2) else "";
    assert OffsetDigits(a) == head + mid + tail;
  }

  lemma ParseZoneWith(z: string, hh: nat, mm: nat, ss: nat)
    requires (|z| == 5 || |z| == 7) && (z[0] == '+' || z[0] == '-')
    requires Field(z, 1, 2) == Some(hh) && Field(z, 3, 2) == Some(mm)
    requires if |z| == 7 then Field(z, 5, 2) == Some(ss) else ss == 0
    ensures ParseZone(z) == Some(Some(if z[0] == '-' then -(hh * 3600 + mm * 60 + ss) else hh * 3600 + mm * 60 + ss))
  {
  }

  lemma ParseZoneOf(t: DateTime)
    requires Valid(t)
    ensures ParseZone(Zone(t)) == Some(Truncated(t).offset)
  {
    if !IsUtc(t) {
      ParseOffsetText(t.offset.value);
    }
  }

  lemma StampFields(s: string, t: DateTime)
    requires Valid(t)
    requires |s| >= 20 && s[..19] == Stamp(t)
    ensures s[4] == '-' && s[7] == '-' && s[10] == 'T' && s[13] == ':' && s[16] == ':'
    ensures Field(s, 0, 4) == Some(t.year)
    ensures Field(s, 5, 2) == Some(t.month)
    ensures Field(s, 8, 2) == Some(t.day)
    ensures Field(s, 11, 2) == Some(t.hour)
    ensures Field(s, 14, 2) == Some(t.minute)
    ensures Field(s, 17, 2) == Some(t.second)
  {
    var p := Stamp(t);
    StampShape(t);
    assert s[4] == p[4] && s[7] == p[7] && s[10] == p[10] && s[13] == p[13] && s[16] == p[16];
    DateFields(s, p, t);
    ClockFields(s, p, t);
  }

  lemma DateFields(s: string, p: string, t: DateTime)
    requires Valid(t)
    requires |p| == 19 && |s| >= 20 && s[..19] == p
    requires p[0..4] == Pad(t.year, 4) && p[5..7] == Pad(t.month, 2) && p[8..10] == Pad(t.day, 2)
    ensures Field(s, 0, 4) == Some(t.year)
    ensures Field(s, 5, 2) == Some(t.month)
    ensures Field(s, 8, 2) == Some(t.day)
  {
    FieldInPrefix(s, p, 0, t.year, 4);
    FieldInPrefix(s, p, 5, t.month, 2);
    FieldInPrefix(s, p, 8, t.day, 2);
  }

  lemma ClockFields(s: string, p: string, t: DateTime)
    requires Valid(t)
    requires |p| == 19 && |s| >= 20 && s[..19] == p
    requires p[11..13] == Pad(t.hour, 2) && p[14..16] == Pad(t.minute, 2) && p[17..19] == Pad(t.second, 2)
    ensures Field(s, 11, 2) == Some(t.hour)
    ensures Field(s, 14, 2) == Some(t.minute)
    ensures Field(s, 17, 2) == Some(t.second)
  {
    FieldInPrefix(s, p, 11, t.hour, 2);
    FieldInPrefix(s, p, 14, t.minute, 2);
    FieldInPrefix(s, p, 17, t.second, 2);
  }

  /** A field inside a prefix of the text reads the same in the whole text. */
  lemma FieldInPrefix(s: string, p: string, i: nat, n: nat, w: nat)
    requires |p| <= |s| && s[..|p|] == p
    requires n < Pow10(w) && i + w <= |p| && p[i..i + w] == Pad(n, w)
    ensures Field(s, i, w) == Some(n)
  {
    assert s[i..i + w] == p[i..i + w];
    FieldOfPad(s, i, n, w);
  }


  /** Reading back what `format_time` wrote recovers the time, except for
      the sub-millisecond digits it drops and the distinction between a
      zero offset and none. */
  lemma ParseFormatTime(t: DateTime)
    requires Valid(t)
    ensures ParseTime(FormatTime(t)) == Some(Truncated(t))
  {
    ParseParts(t);
  }

  lemma ParseParts(t: DateTime)
    requires Valid(t)
    ensures ParseTime(Stamp(t) + Fraction(t) + Zone(t)) == Some(Truncated(t))
  {
    var s := Stamp(t) + Fraction(t) + Zone(t);
    var z := Zone(t);
    StampShape(t);
    assert s[..19] == Stamp(t);
    StampFields(s, t);
    ParseZoneOf(t);
    ZoneShape(t);
    if t.microsecond != 0 {
      ParseWithFraction(s, t);
      ParseTimeWith(s, t.year, t.month, t.day, t.hour, t.minute, t.second, Some(t.microsecond / 1000), Truncated(t).offset);
    } else {
      assert s[19..] == z;
      assert s[19] == z[0];
      ParseTimeWith(s, t.year, t.month, t.day, t.hour, t.minute, t.second, None, Truncated(t).offset);
    }
  }

  /** `ParseTime` on text whose fields have already been read. */
  lemma ParseTimeWith(s: string, year: nat, month: nat, day: nat, hour: nat, minute: nat, second: nat,
                      millis: Option<nat>, zone: Option<int>)
    requires |s| >= 20 && s[4] == '-' && s[7] == '-' && s[10] == 'T' && s[13] == ':' && s[16] == ':'
    requires Field(s, 0, 4) == Some(year) && Field(s, 5, 2) == Some(month) && Field(s, 8, 2) == Some(day)
    requires Field(s, 11, 2) == Some(hour) && Field(s, 14, 2) == Some(minute) && Field(s, 17, 2) == Some(second)
    requires millis.Some? ==> s[19] == '.' && |s| >= 23 && Field(s, 20, 3) == millis && ParseZone(s[23..]) == Some(zone)
    requires millis.None? ==> s[19] != '.' && ParseZone(s[19..]) == Some(zone)
    ensures ParseTime(s) == Some(DateTime(year, month, day, hour, minute, second,
                                          if millis.Some? then millis.value * 1000 else 0, zone))
  {
  }

  lemma ParseWithFraction(s: string, t: DateTime)
    requires Valid(t) && t.microsecond != 0
    requires s == Stamp(t) + Fraction(t) + Zone(t)
    ensures Field(s, 20, 3) == Some(t.microsecond / 1000)
    ensures s[19] == '.' && s[23..] == Zone(t)
  {
    StampShape(t);
    FractionTruncates(t);
    FractionField(s, Stamp(t), Pad(t.microsecond / 1000, 3), Zone(t), t.microsecond / 1000);
  }

  /** The milliseconds read back from `stamp + "." + digits + zone`. */
  lemma FractionField(s: string, stamp: string, digits: string, zone: string, m: nat)
    requires |stamp| == 19 && m < 1000 && digits == Pad(m, 3)
    requires s == stamp + "." + digits + zone
    ensures Field(s, 20, 3) == Some(m)
    ensures s[19] == '.' && s[23..] == zone
  {
    assert s[20..23] == digits;
    FieldOfPad(s, 20, m, 3);
  }

  /** Microseconds 1 to 999 are written `.000`: the fraction is truncated,
      never rounded up. */
  lemma SubMillisecondIsZero(t: DateTime)
    requires Valid(t) && 0 < t.microsecond < 1000
    ensures Fraction(t) == ".000"
  {
    FractionTruncates(t);
    assert t.microsecond / 1000 == 0;
    assert Pad(0, 3) == "000" by {
      assert Pad(0, 1) == "0";
      assert Pad(0, 2) == "00";
    }
  }


}
