/**
 * Timewarrior timestamps. `FormatIso` is the positional reformatting from
 * the compact ISO 8601 basic form `YYYYMMDDTHHMMSSZ` to the extended form
 * `YYYY-MM-DDTHH:MM:SSZ`; the rest stands in for the JavaScript `Date`
 * operations applied to its output: parsing to an instant (`ParseIso`,
 * `EpochSeconds`) and the date part of `toISOString` (`DateString`).
 */
module Timestamp {
  import opened Wrappers

  function Clamp(x: nat, n: nat): nat {
    if x < n then x else n
  }

  /** `s.slice(lo, hi)`: bounds past the end are clamped to the length. */
  function Slice(s: string, lo: nat, hi: nat): (r: string)
    requires lo <= hi
    ensures |r| == Clamp(hi, |s|) - Clamp(lo, |s|)
    ensures forall i :: 0 <= i < |r| ==> r[i] == s[lo + i]
  {
    if |s| <= lo then [] else if |s| <= hi then s[lo..] else s[lo..hi]
  }

  /** The separators of the extended form, in their positions. */
  predicate ExtendedShape(iso: string) {
    && |iso| == 20
    && iso[4] == '-' && iso[7] == '-' && iso[10] == 'T'
    && iso[13] == ':' && iso[16] == ':' && iso[19] == 'Z'
  }

  /** `formatISOString`: total; input positions 8 and from 15 on are never read. */
  function FormatIso(s: string): (iso: string)
    ensures |iso| == 6 + Clamp(8, |s|) + (Clamp(15, |s|) - Clamp(9, |s|))
    ensures iso[|iso| - 1] == 'Z'
    ensures |s| >= 15 ==> ExtendedShape(iso)
    ensures |s| >= 15 ==>
      && iso[..4] == s[..4] && iso[5..7] == s[4..6] && iso[8..10] == s[6..8]
      && iso[11..13] == s[9..11] && iso[14..16] == s[11..13] && iso[17..19] == s[13..15]
  {
    Slice(s, 0, 4) + "-" + Slice(s, 4, 6) + "-" + Slice(s, 6, 8) + "T"
      + Slice(s, 9, 11) + ":" + Slice(s, 11, 13) + ":" + Slice(s, 13, 15) + "Z"
  }

  /** Shorter inputs give shorter groups, so the separators move: the
      empty string becomes just the six literals. */
  lemma EmptyInput()
    ensures FormatIso("") == "--T::Z"
  {
    assert Slice("", 0, 4) == Slice("", 4, 6) == Slice("", 6, 8) == [];
    assert Slice("", 9, 11) == Slice("", 11, 13) == Slice("", 13, 15) == [];
  }

  /** The fourteen digit characters of an extended timestamp, separators removed. */
  function StripSeparators(iso: string): string
    requires |iso| == 20
  {
    iso[..4] + iso[5..7] + iso[8..10] + iso[11..13] + iso[14..16] + iso[17..19]
  }

  /** The compact form of an extended timestamp. */
  function ToCompact(iso: string): string
    requires |iso| == 20
  {
    iso[..4] + iso[5..7] + iso[8..10] + "T" + iso[11..13] + iso[14..16] + iso[17..19] + "Z"
  }

  /** Deleting the six separators from the output gives back the input's
      digit positions 0-7 and 9-14. */
  lemma CompactRoundTrip(s: string)
    requires |s| >= 15
    ensures StripSeparators(FormatIso(s)) == s[..8] + s[9..15]
  {
    var iso := FormatIso(s);
    assert s[..8] == s[..4] + s[4..6] + s[6..8];
    assert s[9..15] == s[9..11] + s[11..13] + s[13..15];
  }

  /** Every extended timestamp is the reformatting of its compact form. */
  lemma ExtendedRoundTrip(iso: string)
    requires ExtendedShape(iso)
    ensures FormatIso(ToCompact(iso)) == iso
  {
    var c := ToCompact(iso);
    assert |c| == 16;
    assert c[..4] == iso[..4] && c[4..6] == iso[5..7] && c[6..8] == iso[8..10];
    assert c[9..11] == iso[11..13] && c[11..13] == iso[14..16] && c[13..15] == iso[17..19];
    SameGroups(FormatIso(c), iso);
  }

  /** An extended timestamp is determined by its six digit groups. */
  lemma SameGroups(a: string, b: string)
    requires ExtendedShape(a) && ExtendedShape(b)
    requires a[..4] == b[..4] && a[5..7] == b[5..7] && a[8..10] == b[8..10]
    requires a[11..13] == b[11..13] && a[14..16] == b[14..16] && a[17..19] == b[17..19]
    ensures a == b
  {
    forall i | 0 <= i < 20 ensures a[i] == b[i] {
      if i < 4 { assert a[i] == a[..4][i]; }
      else if 5 <= i < 7 { assert a[i] == a[5..7][i - 5]; }
      else if 8 <= i < 10 { assert a[i] == a[8..10][i - 8]; }
      else if 11 <= i < 13 { assert a[i] == a[11..13][i - 11]; }
      else if 14 <= i < 16 { assert a[i] == a[14..16][i - 14]; }
      else if 17 <= i < 19 { assert a[i] == a[17..19][i - 17]; }
    }
  }

  /** Characters at index 8 and from index 15 on never influence the result. */
  lemma IgnoredPositions(s: string, t: string)
    requires |s| >= 15 && |t| >= 15
    requires s[..8] == t[..8] && s[9..15] == t[9..15]
    ensures FormatIso(s) == FormatIso(t)
  {
    forall i | 0 <= i < 15 && i != 8 ensures s[i] == t[i] {
      if i < 8 {
        assert s[i] == s[..8][i];
      } else {
        assert s[i] == s[9..15][i - 9];
      }
    }
    assert s[..4] == t[..4] && s[4..6] == t[4..6] && s[6..8] == t[6..8];
    assert s[9..11] == t[9..11] && s[11..13] == t[11..13] && s[13..15] == t[13..15];
  }

  // ---------------------------------------------------------------------
  // Digits

  predicate IsDigit(c: char) {
    '0' <= c <= '9'
  }

  predicate AllDigits(s: string) {
    forall i :: 0 <= i < |s| ==> IsDigit(s[i])
  }

  function DigitChar(d: nat): char
    requires d < 10
  {
    ('0' as int + d) as char
  }

  /** The decimal value of a digit string. */
  function Number(s: string): nat
    requires AllDigits(s)
  {
    if |s| == 0 then 0
    else Number(s[..|s| - 1]) * 10 + (s[|s| - 1] as int - '0' as int)
  }

  /** The last `width` decimal digits of `n`, zero-padded. */
  function Pad(n: nat, width: nat): (r: string)
    ensures |r| == width && AllDigits(r)
  {
    if width == 0 then "" else Pad(n / 10, width - 1) + [DigitChar(n % 10)]
  }

  /** Rendering a digit string's value at the string's width gives the string back. */
  lemma {:induction false} PadNumber(s: string)
    requires AllDigits(s)
    ensures Pad(Number(s), |s|) == s
  {
    if |s| > 0 {
      var init := s[..|s| - 1];
      var d := s[|s| - 1] as int - '0' as int;
      assert AllDigits(init);
      PadNumber(init);
      assert (Number(init) * 10 + d) / 10 == Number(init);
      assert (Number(init) * 10 + d) % 10 == d;
      assert s == init + [s[|s| - 1]];
    }
  }

  // ---------------------------------------------------------------------
  // Civil time

  /** A UTC date and time of day, as digit groups read off a timestamp. */
  datatype Civil = Civil(year: nat, month: nat, day: nat, hour: nat, minute: nat, second: nat)

  predicate IsLeap(y: nat) {
    y % 4 == 0 && (y % 100 != 0 || y % 400 == 0)
  }

  function DaysInYear(y: nat): nat {
    if IsLeap(y) then 366 else 365
  }

  function DaysInMonth(y: nat, m: nat): nat
    requires 1 <= m <= 12
  {
    if m == 2 then (if IsLeap(y) then 29 else 28)
    else if m == 4 || m == 6 || m == 9 || m == 11 then 30
    else 31
  }

  predicate ValidCivil(c: Civil) {
    && c.year <= 9999
    && 1 <= c.month <= 12
    && 1 <= c.day <= DaysInMonth(c.year, c.month)
    && c.hour <= 23 && c.minute <= 59 && c.second <= 59
  }

  /** The digit groups of an extended timestamp, when it has exactly the
      extended shape and every field is in range; `None` is an invalid date. */
  function ParseIso(iso: string): Option<Civil> {
    if ExtendedShape(iso)
      && AllDigits(iso[..4]) && AllDigits(iso[5..7]) && AllDigits(iso[8..10])
      && AllDigits(iso[11..13]) && AllDigits(iso[14..16]) && AllDigits(iso[17..19])
    then
      var c := Civil(Number(iso[..4]), Number(iso[5..7]), Number(iso[8..10]),
                     Number(iso[11..13]), Number(iso[14..16]), Number(iso[17..19]));
      if ValidCivil(c) then Some(c) else None
    else None
  }

  /** Reading the digit groups straight off a compact timestamp
      `YYYYMMDDTHHMMSSZ`, positions 0-3, 4-5, 6-7, 9-10, 11-12 and 13-14. */
  function ParseCompact(s: string): Option<Civil> {
    if |s| >= 15
      && AllDigits(s[..4]) && AllDigits(s[4..6]) && AllDigits(s[6..8])
      && AllDigits(s[9..11]) && AllDigits(s[11..13]) && AllDigits(s[13..15])
    then
      var c := Civil(Number(s[..4]), Number(s[4..6]), Number(s[6..8]),
                     Number(s[9..11]), Number(s[11..13]), Number(s[13..15]));
      if ValidCivil(c) then Some(c) else None
    else None
  }

  /** Reformatting and then parsing yields the same date and time as
      reading the digit groups of the compact form directly. */
  lemma ParseThroughFormat(s: string)
    ensures ParseIso(FormatIso(s)) == ParseCompact(s)
  {
    var iso := FormatIso(s);
    if |s| >= 15 {
      assert iso[..4] == s[..4] && iso[5..7] == s[4..6] && iso[8..10] == s[6..8];
      assert iso[11..13] == s[9..11] && iso[14..16] == s[11..13] && iso[17..19] == s[13..15];
    } else {
      assert |iso| < 20;
    }
  }

  /** Days from 0000-01-01 to the first day of year `y` (proleptic Gregorian). */
  function DaysBeforeYear(y: nat): int {
    365 * y + (y + 3) / 4 - (y + 99) / 100 + (y + 399) / 400
  }

  /** Days from the first of the year to the first of month `m` (13 is the next year). */
  function DaysBeforeMonth(y: nat, m: nat): nat
    requires 1 <= m <= 13
  {
    if m == 1 then 0 else DaysBeforeMonth(y, m - 1) + DaysInMonth(y, m - 1)
  }

  /** Days since 0000-01-01. */
  function DayNumber(c: Civil): int
    requires ValidCivil(c)
  {
    DaysBeforeYear(c.year) + DaysBeforeMonth(c.year, c.month) + c.day - 1
  }

  /** Seconds since 1970-01-01T00:00:00Z, as `Date.prototype.getTime() / 1000`. */
  function EpochSeconds(c: Civil): int
    requires ValidCivil(c)
  {
    (DayNumber(c) - DaysBeforeYear(1970)) * 86400 + c.hour * 3600 + c.minute * 60 + c.second
  }

  /** The `YYYY-MM-DD` part of `Date.prototype.toISOString` for a year in 0..9999. */
  function DateString(c: Civil): string {
    Pad(c.year, 4) + "-" + Pad(c.month, 2) + "-" + Pad(c.day, 2)
  }

  /** The rendered date of a parsed timestamp is its first ten characters. */
  lemma DateStringOfParse(iso: string)
    requires ParseIso(iso).Some?
    ensures DateString(ParseIso(iso).value) == iso[..10]
  {
    PadNumber(iso[..4]);
    PadNumber(iso[5..7]);
    PadNumber(iso[8..10]);
    assert iso[..10] == iso[..4] + "-" + iso[5..7] + "-" + iso[8..10];
  }

  /** Lexicographic order of the digit groups. */
  predicate Before(a: Civil, b: Civil) {
    || a.year < b.year
    || (a.year == b.year && a.month < b.month)
    || (a.year == b.year && a.month == b.month && a.day < b.day)
    || (a.year == b.year && a.month == b.month && a.day == b.day && a.hour < b.hour)
    || (a.year == b.year && a.month == b.month && a.day == b.day && a.hour == b.hour
        && a.minute < b.minute)
    || (a.year == b.year && a.month == b.month && a.day == b.day && a.hour == b.hour
        && a.minute == b.minute && a.second < b.second)
  }

  lemma FloorStep4(y: nat)
    ensures (y + 4) / 4 == (y + 3) / 4 + (if y % 4 == 0 then 1 else 0)
  {
  }

  lemma FloorStep100(y: nat)
    ensures (y + 100) / 100 == (y + 99) / 100 + (if y % 100 == 0 then 1 else 0)
  {
  }

  lemma FloorStep400(y: nat)
    ensures (y + 400) / 400 == (y + 399) / 400 + (if y % 400 == 0 then 1 else 0)
  {
  }

  lemma YearStep(y: nat)
    ensures DaysBeforeYear(y + 1) == DaysBeforeYear(y) + DaysInYear(y)
  {
    FloorStep4(y);
    FloorStep100(y);
    FloorStep400(y);
    DivisibilityChain(y);
  }

  lemma DivisibilityChain(y: nat)
    ensures y % 400 == 0 ==> y % 100 == 0
    ensures y % 100 == 0 ==> y % 4 == 0
  {
    if y % 400 == 0 {
      assert y == 400 * (y / 400);
      assert y == 100 * (4 * (y / 400));
    }
    if y % 100 == 0 {
      assert y == 100 * (y / 100);
      assert y == 4 * (25 * (y / 100));
    }
  }

  lemma {:induction false} YearMonotone(y: nat, z: nat)
    requires y <= z
    ensures DaysBeforeYear(y) <= DaysBeforeYear(z)
    decreases z - y
  {
    if y < z {
      YearStep(y);
      YearMonotone(y + 1, z);
    }
  }

  lemma {:induction false} MonthMonotone(y: nat, m: nat, n: nat)
    requires 1 <= m < n <= 13
    ensures DaysBeforeMonth(y, m) + DaysInMonth(y, m) <= DaysBeforeMonth(y, n)
    decreases n - m
  {
    if m + 1 < n {
      MonthMonotone(y, m + 1, n);
    }
  }

  lemma WholeYear(y: nat)
    ensures DaysBeforeMonth(y, 13) == DaysInYear(y)
  {
    assert DaysBeforeMonth(y, 2) == 31;
    assert DaysBeforeMonth(y, 3) == 31 + DaysInMonth(y, 2);
    assert DaysBeforeMonth(y, 4) == 62 + DaysInMonth(y, 2);
    assert DaysBeforeMonth(y, 5) == 92 + DaysInMonth(y, 2);
    assert DaysBeforeMonth(y, 6) == 123 + DaysInMonth(y, 2);
    assert DaysBeforeMonth(y, 7) == 153 + DaysInMonth(y, 2);
    assert DaysBeforeMonth(y, 8) == 184 + DaysInMonth(y, 2);
    assert DaysBeforeMonth(y, 9) == 215 + DaysInMonth(y, 2);
    assert DaysBeforeMonth(y, 10) == 245 + DaysInMonth(y, 2);
    assert DaysBeforeMonth(y, 11) == 276 + DaysInMonth(y, 2);
    assert DaysBeforeMonth(y, 12) == 306 + DaysInMonth(y, 2);
  }

  /** A day of year `y` comes before the first day of year `y + 1`. */
  lemma DayWithinYear(c: Civil)
    requires ValidCivil(c)
    ensures DayNumber(c) < DaysBeforeYear(c.year + 1)
  {
    YearStep(c.year);
    WholeYear(c.year);
    if c.month < 12 {
      MonthMonotone(c.year, c.month, 13);
    }
  }

  lemma DayOrder(a: Civil, b: Civil)
    requires ValidCivil(a) && ValidCivil(b)
    requires a.year < b.year || (a.year == b.year && a.month < b.month)
      || (a.year == b.year && a.month == b.month && a.day < b.day)
    ensures DayNumber(a) < DayNumber(b)
  {
    if a.year < b.year {
      DayWithinYear(a);
      YearMonotone(a.year + 1, b.year);
    } else if a.month < b.month {
      MonthMonotone(a.year, a.month, b.month);
    }
  }

  /** Instants are ordered exactly as the digit groups are ordered
      lexicographically, and distinct digit groups are distinct instants. */
  lemma InstantOrder(a: Civil, b: Civil)
    requires ValidCivil(a) && ValidCivil(b)
    ensures EpochSeconds(a) < EpochSeconds(b) <==> Before(a, b)
    ensures EpochSeconds(a) == EpochSeconds(b) <==> a == b
  {
    if a.year < b.year || (a.year == b.year && a.month < b.month)
      || (a.year == b.year && a.month == b.month && a.day < b.day) {
      DayOrder(a, b);
    } else if b.year < a.year || (a.year == b.year && b.month < a.month)
      || (a.year == b.year && a.month == b.month && b.day < a.day) {
      DayOrder(b, a);
    }
  }
}
