/**
 * A JavaScript `Date` that holds a valid time value, seen through its UTC
 * fields, and `Date.prototype.toISOString` on it.
 */
module Dates {
  import opened Wrappers

  predicate IsLeapYear(y: int)
  {
    y % 4 == 0 && (y % 100 != 0 || y % 400 == 0)
  }

  function DaysInMonth(y: int, m: int): int
  {
    if m == 2 then (if IsLeapYear(y) then 29 else 28)
    else if m == 4 || m == 6 || m == 9 || m == 11 then 30
    else 31
  }

  /** The UTC fields of a time value: year, month 1..12, day, hour, minute, second, millisecond. */
  datatype Instant = Instant(year: int, month: int, day: int,
                             hour: int, minute: int, second: int, millisecond: int)
  {
    /** A calendar-correct instant whose year has four digits. */
    predicate Valid()
    {
      && 0 <= year <= 9999
      && 1 <= month <= 12
      && 1 <= day <= DaysInMonth(year, month)
      && 0 <= hour < 24 && 0 <= minute < 60 && 0 <= second < 60
      && 0 <= millisecond < 1000
    }
  }

  type ValidInstant = i: Instant | i.Valid() witness Instant(1970, 1, 1, 0, 0, 0, 0)

  predicate IsDigit(c: char)
  {
    '0' <= c <= '9'
  }

  predicate AllDigits(s: string)
  {
    forall k :: 0 <= k < |s| ==> IsDigit(s[k])
  }

  function DigitChar(d: int): (c: char)
    requires 0 <= d < 10
    ensures IsDigit(c)
  {
    ('0' as int + d) as char
  }

  function DigitValue(c: char): (d: nat)
    requires IsDigit(c)
    ensures d < 10 && DigitChar(d) == c
  {
    c as int - '0' as int
  }

  function Pow10(w: nat): (p: nat)
    ensures p >= 1
  {
    if w == 0 then 1 else 10 * Pow10(w - 1)
  }

  /** The last `width` decimal digits of `n`, zero-padded: `String(n).padStart(width, '0')` for small `n`. */
  function Decimal(n: nat, width: nat): (r: string)
    ensures |r| == width && AllDigits(r)
  {
    if width == 0 then "" else Decimal(n / 10, width - 1) + [DigitChar(n % 10)]
  }

  /** The number a string of decimal digits denotes. */
  function DecimalValue(s: string): (v: nat)
    requires AllDigits(s)
    ensures v < Pow10(|s|)
  {
    if s == [] then 0 else DecimalValue(s[..|s| - 1]) * 10 + DigitValue(s[|s| - 1])
  }

  /** Reading back a zero-padded rendering gives the number, when it fits the width. */
  lemma {:induction false} DecimalRoundTrip(n: nat, width: nat)
    requires n < Pow10(width)
    ensures DecimalValue(Decimal(n, width)) == n
  {
    if width > 0 {
      var d := Decimal(n, width);
      assert d[..|d| - 1] == Decimal(n / 10, width - 1);
      DecimalRoundTrip(n / 10, width - 1);
    }
  }

  /** The calendar date of `toISOString()`: `YYYY-MM-DD`. */
  function IsoDate(i: ValidInstant): (r: string)
    ensures |r| == 10
  {
    Decimal(i.year, 4) + "-" + Decimal(i.month, 2) + "-" + Decimal(i.day, 2)
  }

  /** The time of day of `toISOString()`, to the second: `HH:mm:ss`. */
  function IsoTime(i: ValidInstant): (r: string)
    ensures |r| == 8
  {
    Decimal(i.hour, 2) + ":" + Decimal(i.minute, 2) + ":" + Decimal(i.second, 2)
  }

  /** The date and time of day of `toISOString()`: `YYYY-MM-DDTHH:mm:ss`. */
  function IsoHead(i: ValidInstant): (r: string)
    ensures |r| == 19
  {
    IsoDate(i) + "T" + IsoTime(i)
  }

  /** `toISOString()`: `YYYY-MM-DDTHH:mm:ss.sssZ`, in UTC. */
  function IsoString(i: ValidInstant): (r: string)
    ensures |r| == 24
  {
    IsoHead(i) + "." + Decimal(i.millisecond, 3) + "Z"
  }

  /** `s` holds the fields of `i` at the offsets of `toISOString()`. */
  predicate RendersAt(s: string, i: ValidInstant)
  {
    && |s| == 24
    && s[0..4] == Decimal(i.year, 4) && s[4] == '-'
    && s[5..7] == Decimal(i.month, 2) && s[7] == '-'
    && s[8..10] == Decimal(i.day, 2) && s[10] == 'T'
    && s[11..13] == Decimal(i.hour, 2) && s[13] == ':'
    && s[14..16] == Decimal(i.minute, 2) && s[16] == ':'
    && s[17..19] == Decimal(i.second, 2) && s[19] == '.'
    && s[20..23] == Decimal(i.millisecond, 3) && s[23] == 'Z'
  }

  lemma IsoDateFields(i: ValidInstant)
    ensures var d := IsoDate(i);
      d[0..4] == Decimal(i.year, 4) && d[4] == '-' && d[5..7] == Decimal(i.month, 2) && d[7] == '-'
      && d[8..10] == Decimal(i.day, 2)
  {
  }

  lemma IsoTimeFields(i: ValidInstant)
    ensures var t := IsoTime(i);
      t[0..2] == Decimal(i.hour, 2) && t[2] == ':' && t[3..5] == Decimal(i.minute, 2) && t[5] == ':'
      && t[6..8] == Decimal(i.second, 2)
  {
  }

  /** Each field of `toISOString()` sits at a fixed offset. */
  lemma IsoStringFields(i: ValidInstant)
    ensures RendersAt(IsoString(i), i)
  {
    var s, h, d, t := IsoString(i), IsoHead(i), IsoDate(i), IsoTime(i);
    IsoDateFields(i);
    IsoTimeFields(i);
    assert s[..19] == h;
    assert h[..10] == d && h[11..] == t;
    assert s[0..4] == d[0..4] && s[5..7] == d[5..7] && s[8..10] == d[8..10];
    assert s[11..13] == t[0..2] && s[14..16] == t[3..5] && s[17..19] == t[6..8];
  }

  /** `s` has the digits and separators of `YYYY-MM-DDTHH:mm:ss(.sss)?Z`. */
  predicate IsoShaped(s: string)
  {
    && (|s| == 20 || |s| == 24)
    && s[4] == '-' && s[7] == '-' && s[10] == 'T' && s[13] == ':' && s[16] == ':'
    && s[|s| - 1] == 'Z'
    && AllDigits(s[0..4]) && AllDigits(s[5..7]) && AllDigits(s[8..10])
    && AllDigits(s[11..13]) && AllDigits(s[14..16]) && AllDigits(s[17..19])
    && (|s| == 24 ==> s[19] == '.' && AllDigits(s[20..23]))
  }

  /** The instant named by the fields of an ISO-shaped string (which may be out of range). */
  function IsoFields(s: string): Instant
    requires IsoShaped(s)
  {
    Instant(DecimalValue(s[0..4]), DecimalValue(s[5..7]), DecimalValue(s[8..10]),
            DecimalValue(s[11..13]), DecimalValue(s[14..16]), DecimalValue(s[17..19]),
            if |s| == 24 then DecimalValue(s[20..23]) else 0)
  }

  /**
   * A parser for the strict subset `YYYY-MM-DDTHH:mm:ssZ` and `YYYY-MM-DDTHH:mm:ss.sssZ`
   * of the ECMAScript date-time string format. It stands for the host's `Date`
   * parser on that subset: the calendar formatter takes the parser as a parameter.
   */
  function StrictIsoParse(s: string): (r: Option<ValidInstant>)
    ensures r.Some? <==> IsoShaped(s) && IsoFields(s).Valid()
    ensures r.Some? ==> r.value == IsoFields(s)
  {
    if IsoShaped(s) && IsoFields(s).Valid() then Some(IsoFields(s)) else None
  }

  lemma DecimalFieldRoundTrip(n: nat, width: nat)
    requires n < Pow10(width)
    ensures AllDigits(Decimal(n, width)) && DecimalValue(Decimal(n, width)) == n
  {
    DecimalRoundTrip(n, width);
  }

  lemma SmallPowers()
    ensures Pow10(2) == 100 && Pow10(3) == 1000 && Pow10(4) == 10000
  {
  }

  /** A field holding a zero-padded rendering reads back as its number. */
  lemma FieldRead(s: string, lo: nat, hi: nat, n: nat)
    requires lo <= hi <= |s| && n < Pow10(hi - lo) && s[lo..hi] == Decimal(n, hi - lo)
    ensures AllDigits(s[lo..hi]) && DecimalValue(s[lo..hi]) == n
  {
    DecimalRoundTrip(n, hi - lo);
  }

  lemma RendersAtShaped(s: string, i: ValidInstant)
    requires RendersAt(s, i)
    ensures IsoShaped(s)
  {
  }

  lemma RendersAtDate(s: string, i: ValidInstant)
    requires RendersAt(s, i) && IsoShaped(s)
    ensures IsoFields(s).year == i.year && IsoFields(s).month == i.month && IsoFields(s).day == i.day
  {
    SmallPowers();
    FieldRead(s, 0, 4, i.year);
    FieldRead(s, 5, 7, i.month);
    FieldRead(s, 8, 10, i.day);
  }

  lemma RendersAtTime(s: string, i: ValidInstant)
    requires RendersAt(s, i) && IsoShaped(s)
    ensures IsoFields(s).hour == i.hour && IsoFields(s).minute == i.minute
    ensures IsoFields(s).second == i.second && IsoFields(s).millisecond == i.millisecond
  {
    SmallPowers();
    FieldRead(s, 11, 13, i.hour);
    FieldRead(s, 14, 16, i.minute);
    FieldRead(s, 17, 19, i.second);
    FieldRead(s, 20, 23, i.millisecond);
  }

  /** `StrictIsoParse` accepts any string laid out as `toISOString()` renders `i`, and yields `i`. */
  lemma RendersAtParses(s: string, i: ValidInstant)
    requires RendersAt(s, i)
    ensures StrictIsoParse(s) == Some(i)
  {
    RendersAtShaped(s, i);
    RendersAtDate(s, i);
    RendersAtTime(s, i);
  }

  /** The strict parser reads `toISOString()` back to the same instant. */
  lemma StrictParseIsoString(i: ValidInstant)
    ensures StrictIsoParse(IsoString(i)) == Some(i)
  {
    IsoStringFields(i);
    RendersAtParses(IsoString(i), i);
  }

  lemma DatePrefix(s: string)
    requires StrictIsoParse(s).Some?
    ensures s[..10] == IsoDate(StrictIsoParse(s).value)
  {
    var i := StrictIsoParse(s).value;
    DecimalOfValue(s[0..4]);
    DecimalOfValue(s[5..7]);
    DecimalOfValue(s[8..10]);
    assert s[..5] == Decimal(i.year, 4) + "-";
    assert s[..8] == s[..5] + Decimal(i.month, 2) + "-";
    assert s[..10] == s[..8] + Decimal(i.day, 2);
  }

  lemma TimeInfix(s: string)
    requires StrictIsoParse(s).Some?
    ensures s[11..19] == IsoTime(StrictIsoParse(s).value)
  {
    var i := StrictIsoParse(s).value;
    DecimalOfValue(s[11..13]);
    DecimalOfValue(s[14..16]);
    DecimalOfValue(s[17..19]);
    assert s[11..14] == Decimal(i.hour, 2) + ":";
    assert s[11..17] == s[11..14] + Decimal(i.minute, 2) + ":";
    assert s[11..19] == s[11..17] + Decimal(i.second, 2);
  }

  /** The first nineteen characters of an accepted string are the date and time `toISOString()` renders. */
  lemma StrictParsePrefix(s: string)
    requires StrictIsoParse(s).Some?
    ensures s[..19] == IsoHead(StrictIsoParse(s).value)
  {
    DatePrefix(s);
    TimeInfix(s);
    assert s[..19] == s[..10] + "T" + s[11..19];
  }

  /** Whatever the strict parser accepts renders back as itself, with `.000` when the fraction was omitted. */
  lemma StrictParseSound(s: string)
    requires StrictIsoParse(s).Some?
    ensures IsoString(StrictIsoParse(s).value) == if |s| == 24 then s else s[..19] + ".000Z"
  {
    var i := StrictIsoParse(s).value;
    StrictParsePrefix(s);
    if |s| == 24 {
      DecimalOfValue(s[20..23]);
      assert s[19..] == "." + Decimal(i.millisecond, 3) + "Z";
      assert s == s[..19] + s[19..];
    } else {
      assert Decimal(0, 3) == "000";
    }
  }

  /** A digit string is the zero-padded rendering of its own value. */
  lemma {:induction false} DecimalOfValue(s: string)
    requires AllDigits(s)
    ensures Decimal(DecimalValue(s), |s|) == s
  {
    if s != [] {
      var p := s[..|s| - 1];
      var v := DecimalValue(s);
      assert v / 10 == DecimalValue(p) && v % 10 == DigitValue(s[|s| - 1]);
      DecimalOfValue(p);
      assert s == p + [s[|s| - 1]];
    }
  }

  /** `String(n)` for a non-negative integer below 10^21: its shortest decimal numeral. */
  function NumberString(n: nat): (r: string)
    ensures |r| > 0 && AllDigits(r)
    decreases n
  {
    if n < 10 then [DigitChar(n)] else NumberString(n / 10) + [DigitChar(n % 10)]
  }

  /** The numeral denotes the number and has no leading zero, so `NumberString` is injective. */
  lemma {:induction false} NumberStringValue(n: nat)
    ensures DecimalValue(NumberString(n)) == n
    ensures NumberString(n)[0] == '0' ==> n == 0
    decreases n
  {
    var r := NumberString(n);
    if n >= 10 {
      NumberStringValue(n / 10);
      assert r[..|r| - 1] == NumberString(n / 10);
      assert r[0] == NumberString(n / 10)[0];
    }
  }
}
