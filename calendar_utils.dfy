/**
 * The calendar export formatter: the Google Calendar link and the iCalendar
 * (RFC 5545) payload built from one event record.
 *
 * The host's `new Date(string)` is a parameter (`DateParser`): it yields the
 * instant a string names, or `None` for an invalid date. The clock and the
 * UID generator are parameters too.
 */
module CalendarUtils {
  import opened Wrappers
  import opened Strings
  import opened Types
  import opened Dates
  import FormUrlEncoded

  /** `new Date(s)`, seen as the valid instant it yields, if any (a NaN time value is `None`). */
  type DateParser = string -> Option<ValidInstant>

  // ----- Date stamps -------------------------------------------------------

  const Separators: set<char> := {'-', ':', '.'}

  /** `iso.replace(/[-:.]/g, '').split('Z')[0] + 'Z'`. */
  function StampOf(iso: string): string
  {
    BeforeFirst(DeleteAll(iso, Separators), 'Z') + "Z"
  }

  /** The date digits of a stamp: `YYYYMMDD`. */
  function DateDigits(i: ValidInstant): (r: string)
    ensures |r| == 8
  {
    Decimal(i.year, 4) + Decimal(i.month, 2) + Decimal(i.day, 2)
  }

  /** The time digits of a stamp, to the second: `HHMMSS`. */
  function TimeDigits(i: ValidInstant): (r: string)
    ensures |r| == 6
  {
    Decimal(i.hour, 2) + Decimal(i.minute, 2) + Decimal(i.second, 2)
  }

  /**
   * Reference rendering of an instant as the code produces it: `YYYYMMDDTHHMMSSsssZ`,
   * that is, the ISO form with the three millisecond digits kept.
   */
  function Stamp(i: ValidInstant): string
  {
    DateDigits(i) + "T" + TimeDigits(i) + Decimal(i.millisecond, 3) + "Z"
  }

  /** `formatDateForUrl`. */
  function FormatDateForUrl(parse: DateParser, isoDateString: string): string
  {
    match parse(isoDateString)
    case None => ""
    case Some(date) => StampOf(IsoString(date))
  }

  /** The `formatDate` local to `generateICalData`, written out a second time in the source. */
  function IcsFormatDate(parse: DateParser, isoDateString: string): string
  {
    match parse(isoDateString)
    case None => ""
    case Some(date) => StampOf(IsoString(date))
  }

  lemma DeleteAppend(a: string, b: string)
    ensures DeleteAll(a + b, Separators) == DeleteAll(a, Separators) + DeleteAll(b, Separators)
  {
    FlatMapAppend(x => if x in Separators then "" else [x], a, b);
  }

  lemma {:induction false} DeleteNone(d: string)
    requires forall k :: 0 <= k < |d| ==> d[k] !in Separators
    ensures DeleteAll(d, Separators) == d
    decreases |d|
  {
    if d != [] {
      DeleteNone(d[1..]);
      assert d == [d[0]] + d[1..];
    }
  }

  lemma DeleteOne(c: char)
    ensures DeleteAll([c], Separators) == if c in Separators then "" else [c]
  {
    FlatMapSingleton(x => if x in Separators then "" else [x], c);
  }

  /** Deleting from `a + [c] + b` deletes from both sides of `c`, and drops `c` when it is a separator. */
  lemma DeleteAround(a: string, c: char, b: string)
    ensures DeleteAll(a + [c] + b, Separators)
      == DeleteAll(a, Separators) + (if c in Separators then "" else [c]) + DeleteAll(b, Separators)
  {
    DeleteAppend(a + [c], b);
    DeleteAppend(a, [c]);
    DeleteOne(c);
  }

  lemma DeleteDigits(n: nat, w: nat)
    ensures DeleteAll(Decimal(n, w), Separators) == Decimal(n, w)
  {
    DeleteNone(Decimal(n, w));
  }

  /** Deleting `-` and `-` from `YYYY-MM-DD` leaves `YYYYMMDD`. */
  lemma DeleteFromDate(i: ValidInstant)
    ensures DeleteAll(IsoDate(i), Separators) == DateDigits(i)
  {
    var y, mo, d := Decimal(i.year, 4), Decimal(i.month, 2), Decimal(i.day, 2);
    DeleteDigits(i.year, 4); DeleteDigits(i.month, 2); DeleteDigits(i.day, 2);
    DeleteAround(y, '-', mo);
    DeleteAround(y + "-" + mo, '-', d);
  }

  /** Deleting `:` and `:` from `HH:mm:ss` leaves `HHMMSS`. */
  lemma DeleteFromTime(i: ValidInstant)
    ensures DeleteAll(IsoTime(i), Separators) == TimeDigits(i)
  {
    var h, mi, s := Decimal(i.hour, 2), Decimal(i.minute, 2), Decimal(i.second, 2);
    DeleteDigits(i.hour, 2); DeleteDigits(i.minute, 2); DeleteDigits(i.second, 2);
    DeleteAround(h, ':', mi);
    DeleteAround(h + ":" + mi, ':', s);
  }

  /** Deleting the separators from `YYYY-MM-DDTHH:mm:ss` leaves `YYYYMMDDTHHMMSS`. */
  lemma DeleteFromHead(i: ValidInstant)
    ensures DeleteAll(IsoHead(i), Separators) == DateDigits(i) + "T" + TimeDigits(i)
  {
    DeleteFromDate(i);
    DeleteFromTime(i);
    DeleteAround(IsoDate(i), 'T', IsoTime(i));
  }

  /** Deleting `-`, `:` and `.` from `toISOString()` leaves the reference stamp. */
  lemma DeleteSeparatorsOfIso(i: ValidInstant)
    ensures DeleteAll(IsoString(i), Separators) == Stamp(i)
  {
    var h, ms := IsoHead(i), Decimal(i.millisecond, 3);
    DeleteFromHead(i);
    DeleteDigits(i.millisecond, 3);
    DeleteAround(h, '.', ms);
    DeleteAppend(h + "." + ms, "Z");
    DeleteOne('Z');
  }

  /** The layout of a stamp: 19 characters, digits except `T` at 8 and `Z` at 18. */
  lemma StampShape(i: ValidInstant)
    ensures var r := Stamp(i);
      && |r| == 19 && r[8] == 'T' && r[18] == 'Z'
      && (forall k :: 0 <= k < 19 && k != 8 && k != 18 ==> IsDigit(r[k]))
  {
    var r, d, t, ms := Stamp(i), DateDigits(i), TimeDigits(i), Decimal(i.millisecond, 3);
    assert forall k :: 0 <= k < 8 ==> r[k] == d[k];
    assert forall k :: 9 <= k < 15 ==> r[k] == t[k - 9];
    assert forall k :: 15 <= k < 18 ==> r[k] == ms[k - 15];
  }

  /** Where each field sits in a stamp. */
  lemma StampSlices(i: ValidInstant)
    ensures var r := Stamp(i);
      && |r| == 19
      && r[0..4] == Decimal(i.year, 4) && r[4..6] == Decimal(i.month, 2) && r[6..8] == Decimal(i.day, 2)
      && r[9..11] == Decimal(i.hour, 2) && r[11..13] == Decimal(i.minute, 2)
      && r[13..15] == Decimal(i.second, 2) && r[15..18] == Decimal(i.millisecond, 3)
  {
    var r, d, t := Stamp(i), DateDigits(i), TimeDigits(i);
    assert r[..8] == d && r[9..15] == t;
    assert d[0..4] == Decimal(i.year, 4) && d[4..6] == Decimal(i.month, 2) && d[6..8] == Decimal(i.day, 2);
    assert t[0..2] == Decimal(i.hour, 2) && t[2..4] == Decimal(i.minute, 2) && t[4..6] == Decimal(i.second, 2);
    assert r[0..4] == d[0..4] && r[4..6] == d[4..6] && r[6..8] == d[6..8];
    assert r[9..11] == t[0..2] && r[11..13] == t[2..4] && r[13..15] == t[4..6];
  }

  /** What the code computes from a valid date is the reference stamp, i.e. the ISO string with `-`, `:`, `.` deleted. */
  lemma StampOfIsoString(i: ValidInstant)
    ensures StampOf(IsoString(i)) == Stamp(i) == DeleteAll(IsoString(i), Separators)
  {
    DeleteSeparatorsOfIso(i);
    StampShape(i);
    var r := Stamp(i);
    assert r == r[..18] + "Z";
    assert 'Z' !in r[..18] by {
      assert forall k :: 0 <= k < 18 ==> r[..18][k] == r[k];
    }
    BeforeFirstLast(r[..18], 'Z');
  }

  /** `formatDateForUrl` is empty exactly for an invalid date, and is otherwise the 19-character stamp. */
  lemma FormatDateSpec(parse: DateParser, s: string)
    ensures FormatDateForUrl(parse, s) == "" <==> parse(s).None?
    ensures parse(s).Some? ==> FormatDateForUrl(parse, s) == Stamp(parse(s).value)
    ensures parse(s).Some? ==> |FormatDateForUrl(parse, s)| == 19
  {
    if parse(s).Some? {
      StampOfIsoString(parse(s).value);
      StampShape(parse(s).value);
    }
  }

  /** The two date formatters of the source are the same function. */
  lemma FormattersAgree(parse: DateParser, s: string)
    ensures IcsFormatDate(parse, s) == FormatDateForUrl(parse, s)
  {
  }

  /** Each field of an instant can be read back from its stamp. */
  lemma StampFieldsRead(i: ValidInstant)
    ensures var r := Stamp(i);
      && |r| == 19
      && AllDigits(r[0..4]) && DecimalValue(r[0..4]) == i.year
      && AllDigits(r[4..6]) && DecimalValue(r[4..6]) == i.month
      && AllDigits(r[6..8]) && DecimalValue(r[6..8]) == i.day
      && AllDigits(r[9..11]) && DecimalValue(r[9..11]) == i.hour
      && AllDigits(r[11..13]) && DecimalValue(r[11..13]) == i.minute
      && AllDigits(r[13..15]) && DecimalValue(r[13..15]) == i.second
      && AllDigits(r[15..18]) && DecimalValue(r[15..18]) == i.millisecond
  {
    StampSlices(i);
    DecimalFieldRoundTrip(i.year, 4);
    DecimalFieldRoundTrip(i.month, 2);
    DecimalFieldRoundTrip(i.day, 2);
    DecimalFieldRoundTrip(i.hour, 2);
    DecimalFieldRoundTrip(i.minute, 2);
    DecimalFieldRoundTrip(i.second, 2);
    DecimalFieldRoundTrip(i.millisecond, 3);
  }

  /** Distinct instants have distinct stamps. */
  lemma StampInjective(i: ValidInstant, j: ValidInstant)
    requires Stamp(i) == Stamp(j)
    ensures i == j
  {
    StampFieldsRead(i);
    StampFieldsRead(j);
  }

  lemma ExampleDecimals()
    ensures Decimal(2024, 4) == "2024" && Decimal(5, 2) == "05" && Decimal(21, 2) == "21"
    ensures Decimal(14, 2) == "14" && Decimal(30, 2) == "30" && Decimal(0, 2) == "00"
    ensures Decimal(0, 3) == "000"
  {
    assert Decimal(2, 1) == "2";
    assert Decimal(20, 2) == Decimal(2, 1) + "0";
    assert Decimal(202, 3) == Decimal(20, 2) + "2";
    assert Decimal(2024, 4) == Decimal(202, 3) + "4";
    assert Decimal(0, 1) == "0" && Decimal(1, 1) == "1" && Decimal(3, 1) == "3";
    assert Decimal(5, 2) == Decimal(0, 1) + "5";
    assert Decimal(21, 2) == Decimal(2, 1) + "1";
    assert Decimal(14, 2) == Decimal(1, 1) + "4";
    assert Decimal(30, 2) == Decimal(3, 1) + "0";
    assert Decimal(0, 2) == Decimal(0, 1) + "0";
    assert Decimal(0, 3) == Decimal(0, 2) + "0";
  }

  lemma ExampleIsoPieces(i: ValidInstant)
    requires i == Instant(2024, 5, 21, 14, 30, 0, 0)
    ensures IsoDate(i) == "2024" + "-" + "05" + "-" + "21"
    ensures IsoTime(i) == "14" + ":" + "30" + ":" + "00"
    ensures Decimal(i.millisecond, 3) == "000"
  {
    ExampleDecimals();
  }

  lemma ExampleStampPieces(i: ValidInstant)
    requires i == Instant(2024, 5, 21, 14, 30, 0, 0)
    ensures DateDigits(i) == "2024" + "05" + "21"
    ensures TimeDigits(i) == "14" + "30" + "00"
  {
    ExampleDecimals();
  }

  lemma ExampleLiterals()
    ensures "2024" + "-" + "05" + "-" + "21" == "2024-05-21"
    ensures "14" + ":" + "30" + ":" + "00" == "14:30:00"
    ensures "2024-05-21" + "T" + "14:30:00" + "." + "000" + "Z" == "2024-05-21T14:30:00.000Z"
    ensures "2024" + "05" + "21" == "20240521" && "14" + "30" + "00" == "143000"
    ensures "20240521" + "T" + "143000" + "000" + "Z" == "20240521T143000000Z"
  {
  }

  /**
   * 2024-05-21 14:30:00.000 UTC: `toISOString()` gives `2024-05-21T14:30:00.000Z`,
   * and the formatter keeps the millisecond digits, so the stamp is
   * `20240521T143000000Z` rather than the 16-character `YYYYMMDDTHHMMSSZ`.
   * The instant is a parameter fixed by the precondition rather than a literal, so that the
   * verifier does not unfold every function applied to it at once; the pieces are shown by
   * the lemmas above.
   */
  lemma StampExample(i: ValidInstant)
    requires i == Instant(2024, 5, 21, 14, 30, 0, 0)
    ensures IsoString(i) == "2024-05-21T14:30:00.000Z"
    ensures FormatDateForUrl(StrictIsoParse, "2024-05-21T14:30:00.000Z") == "20240521T143000000Z"
  {
    ExampleIsoPieces(i);
    ExampleStampPieces(i);
    ExampleLiterals();
    StrictParseIsoString(i);
    StampOfIsoString(i);
  }

  /** A string that is not a date formats to the empty string. */
  lemma InvalidDateExample()
    ensures FormatDateForUrl(StrictIsoParse, "not-a-date") == ""
  {
    assert !IsoShaped("not-a-date");
  }

  // ----- The Google Calendar link -----------------------------------------

  const GoogleCalendarBase := "https://calendar.google.com/calendar/render"

  /** The parameters `generateGoogleCalendarUrl` appends, in order. */
  function GoogleCalendarParams(parse: DateParser, event: CalendarEvent): seq<(string, string)>
  {
    [("action", "TEMPLATE"), ("text", event.title)] + DatesParam(parse, event)
    + OptionalParam("details", event.description) + OptionalParam("location", event.location)
  }

  /** `dates=start/end`, appended only when both dates format to a non-empty stamp. */
  function DatesParam(parse: DateParser, event: CalendarEvent): seq<(string, string)>
  {
    var start := FormatDateForUrl(parse, event.startDate);
    var end := FormatDateForUrl(parse, event.endDate);
    if start != "" && end != "" then [("dates", start + "/" + end)] else []
  }

  /** A parameter appended only when its value is a non-empty (truthy) string. */
  function OptionalParam(name: string, value: string): seq<(string, string)>
  {
    if value != "" then [(name, value)] else []
  }

  /** `generateGoogleCalendarUrl`. */
  function GenerateGoogleCalendarUrl(parse: DateParser, event: CalendarEvent): string
  {
    GoogleCalendarBase + "?" + FormUrlEncoded.Serialize(GoogleCalendarParams(parse, event))
  }

  /** `URLSearchParams.prototype.get`: the value of the first parameter called `name`. */
  function Lookup(params: seq<(string, string)>, name: string): Option<string>
    decreases |params|
  {
    if params == [] then None
    else if params[0].0 == name then Some(params[0].1)
    else Lookup(params[1..], name)
  }

  /** `Lookup` finds a value exactly when some parameter has the name. */
  lemma {:induction false} LookupFound(params: seq<(string, string)>, name: string)
    ensures Lookup(params, name).Some? <==> name in Names(params)
    decreases |params|
  {
    if params != [] {
      LookupFound(params[1..], name);
      assert Names(params) == [params[0].0] + Names(params[1..]);
    }
  }

  /** `Lookup` returns the value of the first parameter with the name. */
  lemma {:induction false} LookupFirst(params: seq<(string, string)>, name: string, k: nat)
    requires k < |params| && params[k].0 == name
    requires forall j :: 0 <= j < k ==> params[j].0 != name
    ensures Lookup(params, name) == Some(params[k].1)
    decreases k
  {
    if k > 0 {
      assert forall j :: 0 <= j < k - 1 ==> params[1..][j] == params[j + 1];
      LookupFirst(params[1..], name, k - 1);
    }
  }

  /** The parameter names, in order. */
  function Names(params: seq<(string, string)>): (r: seq<string>)
    ensures |r| == |params| && forall k :: 0 <= k < |params| ==> r[k] == params[k].0
    decreases |params|
  {
    if params == [] then [] else [params[0].0] + Names(params[1..])
  }

  /** Both dates render, which is when the host accepts both date strings. */
  predicate HasDates(parse: DateParser, event: CalendarEvent)
  {
    parse(event.startDate).Some? && parse(event.endDate).Some?
  }

  lemma LookupAppendLeft(a: seq<(string, string)>, b: seq<(string, string)>, name: string)
    requires Lookup(a, name).Some?
    ensures Lookup(a + b, name) == Lookup(a, name)
    decreases |a|
  {
    if a[0].0 != name {
      assert (a + b)[1..] == a[1..] + b;
      LookupAppendLeft(a[1..], b, name);
    }
  }

  lemma LookupAppendRight(a: seq<(string, string)>, b: seq<(string, string)>, name: string)
    requires Lookup(a, name).None?
    ensures Lookup(a + b, name) == Lookup(b, name)
    decreases |a|
  {
    if a == [] {
      assert a + b == b;
    } else {
      assert (a + b)[1..] == a[1..] + b;
      LookupAppendRight(a[1..], b, name);
    }
  }

  lemma {:induction false} NamesAppend(a: seq<(string, string)>, b: seq<(string, string)>)
    ensures Names(a + b) == Names(a) + Names(b)
    decreases |a|
  {
    if a == [] {
      assert a + b == b;
    } else {
      assert (a + b)[1..] == a[1..] + b;
      NamesAppend(a[1..], b);
    }
  }

  /** The `dates` parameter is there exactly when both dates are valid, and holds the two stamps. */
  lemma DatesParamSpec(parse: DateParser, event: CalendarEvent)
    ensures DatesParam(parse, event) == if HasDates(parse, event)
      then [("dates", Stamp(parse(event.startDate).value) + "/" + Stamp(parse(event.endDate).value))]
      else []
  {
    FormatDateSpec(parse, event.startDate);
    FormatDateSpec(parse, event.endDate);
  }

  /**
   * The link names `action` and `text` always, then `dates` exactly when both
   * dates are valid, `details` exactly when there is a description and
   * `location` exactly when there is a location, in that order.
   */
  lemma GoogleCalendarParamNames(parse: DateParser, event: CalendarEvent)
    ensures var p := GoogleCalendarParams(parse, event);
      && |p| >= 2 && p[0] == ("action", "TEMPLATE") && p[1] == ("text", event.title)
      && Names(p) == ["action", "text"]
           + (if HasDates(parse, event) then ["dates"] else [])
           + (if event.description != "" then ["details"] else [])
           + (if event.location != "" then ["location"] else [])
  {
    var p0: seq<(string, string)> := [("action", "TEMPLATE"), ("text", event.title)];
    var p1, p2, p3 := DatesParam(parse, event), OptionalParam("details", event.description),
      OptionalParam("location", event.location);
    NamesPieces(parse, event);
    NamesAppend(p0, p1);
    NamesAppend(p0 + p1, p2);
    NamesAppend(p0 + p1 + p2, p3);
  }

  lemma NamesPieces(parse: DateParser, event: CalendarEvent)
    ensures Names([("action", "TEMPLATE"), ("text", event.title)]) == ["action", "text"]
    ensures Names(DatesParam(parse, event)) == if HasDates(parse, event) then ["dates"] else []
    ensures Names(OptionalParam("details", event.description))
      == if event.description != "" then ["details"] else []
    ensures Names(OptionalParam("location", event.location))
      == if event.location != "" then ["location"] else []
  {
    var p0: seq<(string, string)> := [("action", "TEMPLATE"), ("text", event.title)];
    assert Names(p0[1..][1..]) == [];
    DatesParamSpec(parse, event);
  }

  /** What `URLSearchParams.get` returns for the two parameters every link has. */
  lemma GoogleCalendarFixedValues(parse: DateParser, event: CalendarEvent)
    ensures var p := GoogleCalendarParams(parse, event);
      Lookup(p, "action") == Some("TEMPLATE") && Lookup(p, "text") == Some(event.title)
  {
    var p0: seq<(string, string)> := [("action", "TEMPLATE"), ("text", event.title)];
    var rest := DatesParam(parse, event) + OptionalParam("details", event.description)
      + OptionalParam("location", event.location);
    assert GoogleCalendarParams(parse, event) == p0 + rest;
    LookupAppendLeft(p0, rest, "action");
    LookupAppendLeft(p0, rest, "text");
  }

  lemma FixedParamsLookup(title: string, name: string)
    requires name != "action" && name != "text"
    ensures Lookup([("action", "TEMPLATE"), ("text", title)], name) == None
  {
    var p: seq<(string, string)> := [("action", "TEMPLATE"), ("text", title)];
    assert p[1..][1..] == [];
    assert Lookup(p[1..][1..], name) == None;
    assert Lookup(p[1..], name) == None;
  }

  /** What `URLSearchParams.get` returns for the three optional parameters of the link. */
  lemma GoogleCalendarOptionalValues(parse: DateParser, event: CalendarEvent)
    ensures var p := GoogleCalendarParams(parse, event);
      && Lookup(p, "dates") == (if HasDates(parse, event)
           then Some(Stamp(parse(event.startDate).value) + "/" + Stamp(parse(event.endDate).value))
           else None)
      && Lookup(p, "details") == (if event.description != "" then Some(event.description) else None)
      && Lookup(p, "location") == (if event.location != "" then Some(event.location) else None)
  {
    var p0: seq<(string, string)> := [("action", "TEMPLATE"), ("text", event.title)];
    var p1, p2, p3 := DatesParam(parse, event), OptionalParam("details", event.description),
      OptionalParam("location", event.location);
    DatesParamSpec(parse, event);
    FixedParamsLookup(event.title, "dates");
    FixedParamsLookup(event.title, "details");
    FixedParamsLookup(event.title, "location");
    LookupSuffix(p0, p1, p2, p3, "dates");
    LookupSuffix(p0, p1, p2, p3, "details");
    LookupSuffix(p0, p1, p2, p3, "location");
  }

  lemma LookupSuffix(p0: seq<(string, string)>, p1: seq<(string, string)>, p2: seq<(string, string)>,
                     p3: seq<(string, string)>, name: string)
    requires Lookup(p0, name).None?
    ensures Lookup(p0 + p1 + p2 + p3, name)
      == if Lookup(p1, name).Some? then Lookup(p1, name)
         else if Lookup(p2, name).Some? then Lookup(p2, name)
         else Lookup(p3, name)
  {
    assert p0 + p1 + p2 + p3 == p0 + (p1 + (p2 + p3));
    LookupAppendRight(p0, p1 + (p2 + p3), name);
    if Lookup(p1, name).Some? {
      LookupAppendLeft(p1, p2 + p3, name);
    } else {
      LookupAppendRight(p1, p2 + p3, name);
      if Lookup(p2, name).Some? {
        LookupAppendLeft(p2, p3, name);
      } else {
        LookupAppendRight(p2, p3, name);
      }
    }
  }

  /** The link is the render endpoint, `?`, and a query that parses back to exactly the parameters. */
  lemma GoogleCalendarUrlRoundTrip(parse: DateParser, event: CalendarEvent)
    ensures var url := GenerateGoogleCalendarUrl(parse, event);
      && |url| > |GoogleCalendarBase| + 1
      && url[..|GoogleCalendarBase| + 1] == GoogleCalendarBase + "?"
      && FormUrlEncoded.Parse(url[|GoogleCalendarBase| + 1..]) == Some(GoogleCalendarParams(parse, event))
  {
    var q := FormUrlEncoded.Serialize(GoogleCalendarParams(parse, event));
    var url := GenerateGoogleCalendarUrl(parse, event);
    FormUrlEncoded.SerializeRoundTrip(GoogleCalendarParams(parse, event));
    assert url == (GoogleCalendarBase + "?") + q;
    assert url[|GoogleCalendarBase| + 1..] == q;
    GoogleQueryNonEmpty(parse, event);
  }

  lemma GoogleQueryNonEmpty(parse: DateParser, event: CalendarEvent)
    ensures |FormUrlEncoded.Serialize(GoogleCalendarParams(parse, event))| > 0
  {
    var p := GoogleCalendarParams(parse, event);
    assert p[0] == ("action", "TEMPLATE");
    FormUrlEncoded.SerializeNonEmpty(p);
  }

  /** Stamps hold only digits, `T` and `Z`, which the serializer leaves alone. */
  lemma StampSafe(i: ValidInstant)
    ensures forall k :: 0 <= k < |Stamp(i)| ==> FormUrlEncoded.IsSafeChar(Stamp(i)[k])
  {
    StampShape(i);
  }

  /** In the link the two stamps of `dates` are separated by `%2F`. */
  lemma DatesEncoding(a: ValidInstant, b: ValidInstant)
    ensures FormUrlEncoded.Encode(Stamp(a) + "/" + Stamp(b)) == Stamp(a) + "%2F" + Stamp(b)
  {
    StampSafe(a);
    StampSafe(b);
    FormUrlEncoded.EncodeSafe(Stamp(a));
    FormUrlEncoded.EncodeSafe(Stamp(b));
    FormUrlEncoded.EncodeAppend(Stamp(a) + "/", Stamp(b));
    FormUrlEncoded.EncodeAppend(Stamp(a), "/");
    FormUrlEncoded.EncodeSlash();
  }

  // ----- Escaping of TEXT values ------------------------------------------

  /**
   * `escapeText`: the four global replacements, backslash first, so that the
   * backslashes the later ones insert are not doubled again.
   */
  function EscapeText(text: string): string
  {
    if text == "" then ""
    else ReplaceAll(ReplaceAll(ReplaceAll(ReplaceAll(text, '\\', "\\\\"), ';', "\\;"), ',', "\\,"), '\n', "\\n")
  }

  /** The escape of one character, the TEXT escapes of section 3.3.11 of RFC 5545. */
  function EscapeChar(c: char): string
  {
    if c == '\\' then "\\\\"
    else if c == ';' then "\\;"
    else if c == ',' then "\\,"
    else if c == '\n' then "\\n"
    else [c]
  }

  // The images of one character after the first one, two and three replacements.
  function EscapedBackslash(c: char): string
  {
    if c == '\\' then "\\\\" else [c]
  }

  function EscapedSemicolon(c: char): string
  {
    if c == '\\' then "\\\\" else if c == ';' then "\\;" else [c]
  }

  function EscapedComma(c: char): string
  {
    if c == '\\' then "\\\\" else if c == ';' then "\\;" else if c == ',' then "\\," else [c]
  }

  lemma EscapeSteps(c: char)
    ensures EscapedBackslash(c) == ReplaceAll(Single(c), '\\', "\\\\")
    ensures EscapedSemicolon(c) == ReplaceAll(EscapedBackslash(c), ';', "\\;")
    ensures EscapedComma(c) == ReplaceAll(EscapedSemicolon(c), ',', "\\,")
    ensures EscapeChar(c) == ReplaceAll(EscapedComma(c), '\n', "\\n")
  {
    ReplaceAllOne(c, '\\', "\\\\");
    ReplaceAllOne(c, ';', "\\;");
    ReplaceAllOne(c, ',', "\\,");
    ReplaceAllOne(c, '\n', "\\n");
    ReplaceAllAbsent("\\\\", ';', "\\;");
    ReplaceAllAbsent("\\\\", ',', "\\,");
    ReplaceAllAbsent("\\;", ',', "\\,");
    ReplaceAllAbsent("\\\\", '\n', "\\n");
    ReplaceAllAbsent("\\;", '\n', "\\n");
    ReplaceAllAbsent("\\,", '\n', "\\n");
  }

  /** The chain of replacements is one left-to-right pass that escapes each character on its own. */
  lemma EscapeTextSinglePass(text: string)
    ensures EscapeText(text) == FlatMap(EscapeChar, text)
  {
    if text != "" {
      forall c {
        EscapeSteps(c);
      }
      FlatMapSingle(text);
      ReplaceAllFlatMap(Single, EscapedBackslash, text, '\\', "\\\\");
      ReplaceAllFlatMap(EscapedBackslash, EscapedSemicolon, text, ';', "\\;");
      ReplaceAllFlatMap(EscapedSemicolon, EscapedComma, text, ',', "\\,");
      ReplaceAllFlatMap(EscapedComma, EscapeChar, text, '\n', "\\n");
    }
  }

  /**
   * The reading of a TEXT value by section 3.3.11 of RFC 5545: `\\`, `\;`, `\,`
   * and `\n` or `\N` stand for backslash, semicolon, comma and line feed; a bare
   * `;`, `,` or line feed, or any other backslash, is malformed. Other
   * characters stand for themselves.
   */
  function UnescapeText(s: string): Option<string>
    decreases |s|
  {
    if s == [] then Some([])
    else if s[0] == '\\' then
      if |s| >= 2 && (s[1] == '\\' || s[1] == ';' || s[1] == ',' || s[1] == 'n' || s[1] == 'N') then
        match UnescapeText(s[2..])
        case None => None
        case Some(rest) => Some([if s[1] == 'n' || s[1] == 'N' then '\n' else s[1]] + rest)
      else None
    else if s[0] == ';' || s[0] == ',' || s[0] == '\n' then None
    else
      match UnescapeText(s[1..])
      case None => None
      case Some(rest) => Some([s[0]] + rest)
  }

  lemma UnescapeStep(c: char, rest: string)
    ensures UnescapeText(EscapeChar(c) + rest)
      == match UnescapeText(rest) case None => None case Some(r) => Some([c] + r)
  {
    var s := EscapeChar(c) + rest;
    if c == '\\' || c == ';' || c == ',' || c == '\n' {
      assert s[0] == '\\' && s[2..] == rest;
    } else {
      assert s[0] == c && s[1..] == rest;
    }
  }

  lemma {:induction false} UnescapeFlatMap(text: string)
    ensures UnescapeText(FlatMap(EscapeChar, text)) == Some(text)
    decreases |text|
  {
    if text != "" {
      UnescapeFlatMap(text[1..]);
      UnescapeStep(text[0], FlatMap(EscapeChar, text[1..]));
      assert text == [text[0]] + text[1..];
    }
  }

  /** Reading an escaped value back gives the original text: the escaping loses nothing. */
  lemma UnescapeEscapeText(text: string)
    ensures UnescapeText(EscapeText(text)) == Some(text)
  {
    EscapeTextSinglePass(text);
    UnescapeFlatMap(text);
  }

  /** Distinct texts have distinct escapes. */
  lemma EscapeTextInjective(a: string, b: string)
    requires EscapeText(a) == EscapeText(b)
    ensures a == b
  {
    UnescapeEscapeText(a);
    UnescapeEscapeText(b);
  }

  /** An escaped value has no line feed, so it cannot end its content line early. */
  lemma EscapeTextNoLineFeed(text: string)
    ensures '\n' !in EscapeText(text)
  {
    EscapeTextSinglePass(text);
    FlatMapMember(EscapeChar, text, '\n');
  }

  /** Text without backslash, semicolon, comma or line feed is written as it is. */
  lemma {:induction false} EscapeTextPlain(text: string)
    requires forall k :: 0 <= k < |text| ==> text[k] !in {'\\', ';', ',', '\n'}
    ensures EscapeText(text) == text
    decreases |text|
  {
    EscapeTextSinglePass(text);
    FlatMapPlain(text);
  }

  lemma {:induction false} FlatMapPlain(text: string)
    requires forall k :: 0 <= k < |text| ==> text[k] !in {'\\', ';', ',', '\n'}
    ensures FlatMap(EscapeChar, text) == text
    decreases |text|
  {
    if text != "" {
      FlatMapPlain(text[1..]);
      assert text == [text[0]] + text[1..];
    }
  }

  /** `a;b` becomes `a\;b`. */
  lemma EscapeExample()
    ensures EscapeText("a;b") == "a\\;b"
  {
    EscapeTextSinglePass("a;b");
    assert "a;b" == ['a'] + ([';'] + ['b']);
    FlatMapAppend(EscapeChar, ['a'], [';'] + ['b']);
    FlatMapAppend(EscapeChar, [';'], ['b']);
    FlatMapSingleton(EscapeChar, 'a');
    FlatMapSingleton(EscapeChar, ';');
    FlatMapSingleton(EscapeChar, 'b');
  }

  // ----- The iCalendar payload --------------------------------------------

  /**
   * Where the UID comes from: `crypto.randomUUID()` when the host has it,
   * otherwise the clock's `Date.now()` in milliseconds.
   */
  datatype UidSource = RandomUuid(uuid: string) | ClockMillis(millis: nat)

  function Uid(source: UidSource): string
  {
    match source
    case RandomUuid(uuid) => uuid
    case ClockMillis(millis) => "event-" + NumberString(millis) + "@sendtocal"
  }

  /** The UID is safe on one content line: a random UUID without line feed, or the fallback. */
  predicate UidOnOneLine(source: UidSource)
  {
    source.RandomUuid? ==> '\n' !in source.uuid
  }

  /** The lines that open the payload: the calendar's properties and the start of its one event. */
  const ICalHeader: seq<string> :=
    ["BEGIN:VCALENDAR", "VERSION:2.0", "PRODID:-//SendToCal//EN", "CALSCALE:GREGORIAN", "BEGIN:VEVENT"]

  /** The lines that close the event and the calendar. */
  const ICalFooter: seq<string> := ["END:VEVENT", "END:VCALENDAR"]

  /**
   * The seven property lines of the event. `now` is the clock's `new Date()`;
   * its `toISOString()` goes through the same formatter as the event's dates.
   */
  function EventLines(parse: DateParser, event: CalendarEvent, now: ValidInstant, uid: UidSource): seq<string>
  {
    [ "UID:" + Uid(uid),
      "DTSTAMP:" + IcsFormatDate(parse, IsoString(now)),
      "DTSTART:" + IcsFormatDate(parse, event.startDate),
      "DTEND:" + IcsFormatDate(parse, event.endDate),
      "SUMMARY:" + EscapeText(event.title),
      "DESCRIPTION:" + EscapeText(event.description),
      "LOCATION:" + EscapeText(event.location) ]
  }

  /** The fourteen lines of `generateICalData`, before they are joined. */
  function ICalLines(parse: DateParser, event: CalendarEvent, now: ValidInstant, uid: UidSource): seq<string>
  {
    ICalHeader + EventLines(parse, event, now, uid) + ICalFooter
  }

  /** `generateICalData`: the lines joined with CRLF, with no CRLF after the last one. */
  function GenerateICalData(parse: DateParser, event: CalendarEvent, now: ValidInstant, uid: UidSource): string
  {
    Join(ICalLines(parse, event, now, uid), "\r\n")
  }

  lemma UidNoLineFeed(source: UidSource)
    requires UidOnOneLine(source)
    ensures '\n' !in Uid(source)
  {
    if source.ClockMillis? {
      var n := NumberString(source.millis);
      assert forall k :: 0 <= k < |n| ==> IsDigit(n[k]);
    }
  }

  lemma FormattedNoLineFeed(parse: DateParser, s: string)
    ensures '\n' !in IcsFormatDate(parse, s)
  {
    FormattersAgree(parse, s);
    FormatDateSpec(parse, s);
    if parse(s).Some? {
      StampShape(parse(s).value);
    }
  }

  lemma PrefixedNoLineFeed(p: string, v: string)
    requires '\n' !in p && '\n' !in v
    ensures '\n' !in p + v
  {
  }

  lemma FixedLinesNoLineFeed()
    ensures forall k :: 0 <= k < |ICalHeader| ==> '\n' !in ICalHeader[k]
    ensures forall k :: 0 <= k < |ICalFooter| ==> '\n' !in ICalFooter[k]
  {
  }

  lemma EventLinesNoLineFeed(parse: DateParser, event: CalendarEvent, now: ValidInstant, uid: UidSource)
    requires UidOnOneLine(uid)
    ensures var lines := EventLines(parse, event, now, uid);
      |lines| == 7 && forall k :: 0 <= k < |lines| ==> '\n' !in lines[k]
  {
    UidNoLineFeed(uid);
    FormattedNoLineFeed(parse, event.startDate);
    FormattedNoLineFeed(parse, event.endDate);
    FormattedNoLineFeed(parse, IsoString(now));
    EscapeTextNoLineFeed(event.title);
    EscapeTextNoLineFeed(event.description);
    EscapeTextNoLineFeed(event.location);
    PrefixedNoLineFeed("UID:", Uid(uid));
    PrefixedNoLineFeed("DTSTAMP:", IcsFormatDate(parse, IsoString(now)));
    PrefixedNoLineFeed("DTSTART:", IcsFormatDate(parse, event.startDate));
    PrefixedNoLineFeed("DTEND:", IcsFormatDate(parse, event.endDate));
    PrefixedNoLineFeed("SUMMARY:", EscapeText(event.title));
    PrefixedNoLineFeed("DESCRIPTION:", EscapeText(event.description));
    PrefixedNoLineFeed("LOCATION:", EscapeText(event.location));
  }

  /** No line of the payload holds a line feed (given a UID without one). */
  lemma ICalLinesNoLineFeed(parse: DateParser, event: CalendarEvent, now: ValidInstant, uid: UidSource)
    requires UidOnOneLine(uid)
    ensures var lines := ICalLines(parse, event, now, uid);
      |lines| == 14 && forall k :: 0 <= k < |lines| ==> '\n' !in lines[k]
  {
    FixedLinesNoLineFeed();
    EventLinesNoLineFeed(parse, event, now, uid);
    var lines, e := ICalLines(parse, event, now, uid), EventLines(parse, event, now, uid);
    assert forall k :: 5 <= k < 12 ==> lines[k] == e[k - 5];
    assert forall k :: 12 <= k < 14 ==> lines[k] == ICalFooter[k - 12];
  }

  /** Splitting the payload at CRLF gives back exactly its fourteen lines. */
  lemma ICalDataLines(parse: DateParser, event: CalendarEvent, now: ValidInstant, uid: UidSource)
    requires UidOnOneLine(uid)
    ensures Split(GenerateICalData(parse, event, now, uid), "\r\n") == ICalLines(parse, event, now, uid)
  {
    ICalLinesNoLineFeed(parse, event, now, uid);
    assert "\r\n"[..1] == "\r";
    SplitJoin(ICalLines(parse, event, now, uid), "\r\n");
  }

  lemma EventLinesNotFrame(parse: DateParser, event: CalendarEvent, now: ValidInstant, uid: UidSource)
    ensures var e := EventLines(parse, event, now, uid);
      forall k :: 0 <= k < |e| ==> e[k] != "BEGIN:VEVENT" && e[k] != "END:VEVENT"
  {
    var e := EventLines(parse, event, now, uid);
    assert forall k :: 0 <= k < |e| ==> e[k][0] in {'U', 'D', 'S', 'L'};
  }

  lemma FixedLinesFrame()
    ensures forall k :: 0 <= k < |ICalHeader| && ICalHeader[k] == "BEGIN:VEVENT" ==> k == 4
    ensures forall k :: 0 <= k < |ICalHeader| ==> ICalHeader[k] != "END:VEVENT"
    ensures forall k :: 0 <= k < |ICalFooter| && ICalFooter[k] == "END:VEVENT" ==> k == 0
    ensures forall k :: 0 <= k < |ICalFooter| ==> ICalFooter[k] != "BEGIN:VEVENT"
  {
    assert forall k :: 0 <= k < 4 ==> |ICalHeader[k]| != 12 && |ICalHeader[k]| != 10;
    assert |ICalFooter[1]| == 13;
  }

  /**
   * Read back line by line, the payload is one VCALENDAR holding one VEVENT:
   * it opens with the four calendar lines and `BEGIN:VEVENT`, closes with
   * `END:VEVENT` and `END:VCALENDAR`, and neither `BEGIN:VEVENT` nor
   * `END:VEVENT` occurs on any other line.
   */
  lemma ICalDataFrame(parse: DateParser, event: CalendarEvent, now: ValidInstant, uid: UidSource)
    requires UidOnOneLine(uid)
    ensures var lines := Split(GenerateICalData(parse, event, now, uid), "\r\n");
      && |lines| == 14
      && lines[..5] == ICalHeader && lines[12..] == ICalFooter
      && ICalHeader[4] == "BEGIN:VEVENT" && ICalFooter[0] == "END:VEVENT"
      && (forall k :: 0 <= k < |lines| && lines[k] == "BEGIN:VEVENT" ==> k == 4)
      && (forall k :: 0 <= k < |lines| && lines[k] == "END:VEVENT" ==> k == 12)
  {
    ICalDataLines(parse, event, now, uid);
    FixedLinesFrame();
    EventLinesNotFrame(parse, event, now, uid);
    var lines, e := ICalLines(parse, event, now, uid), EventLines(parse, event, now, uid);
    assert lines[..5] == ICalHeader && lines[12..] == ICalFooter;
    assert forall k :: 0 <= k < 5 ==> lines[k] == ICalHeader[k];
    assert forall k :: 5 <= k < 12 ==> lines[k] == e[k - 5];
    assert forall k :: 12 <= k < 14 ==> lines[k] == ICalFooter[k - 12];
  }

  /**
   * The three TEXT lines carry the title, description and location escaped:
   * reading each value back gives the event's field.
   */
  lemma ICalDataText(parse: DateParser, event: CalendarEvent, now: ValidInstant, uid: UidSource)
    requires UidOnOneLine(uid)
    ensures var lines := Split(GenerateICalData(parse, event, now, uid), "\r\n");
      && |lines| == 14
      && |lines[9]| >= 8 && lines[9][..8] == "SUMMARY:" && UnescapeText(lines[9][8..]) == Some(event.title)
      && |lines[10]| >= 12 && lines[10][..12] == "DESCRIPTION:"
      && UnescapeText(lines[10][12..]) == Some(event.description)
      && |lines[11]| >= 9 && lines[11][..9] == "LOCATION:" && UnescapeText(lines[11][9..]) == Some(event.location)
  {
    ICalDataLines(parse, event, now, uid);
    EventLinesAt(parse, event, now, uid);
    var lines, e := ICalLines(parse, event, now, uid), EventLines(parse, event, now, uid);
    assert lines[9] == e[4] == "SUMMARY:" + EscapeText(event.title);
    assert lines[10] == e[5] == "DESCRIPTION:" + EscapeText(event.description);
    assert lines[11] == e[6] == "LOCATION:" + EscapeText(event.location);
    TextValue("SUMMARY:", event.title);
    TextValue("DESCRIPTION:", event.description);
    TextValue("LOCATION:", event.location);
  }

  lemma TextValue(name: string, text: string)
    ensures var line := name + EscapeText(text);
      |line| >= |name| && line[..|name|] == name && UnescapeText(line[|name|..]) == Some(text)
  {
    var line := name + EscapeText(text);
    assert line[|name|..] == EscapeText(text);
    UnescapeEscapeText(text);
  }

  /** The lines of the payload at the positions of the event's properties. */
  lemma EventLinesAt(parse: DateParser, event: CalendarEvent, now: ValidInstant, uid: UidSource)
    ensures var lines, e := ICalLines(parse, event, now, uid), EventLines(parse, event, now, uid);
      |lines| == 14 && forall k :: 5 <= k < 12 ==> lines[k] == e[k - 5]
  {
  }

  /**
   * DTSTART and DTEND hold the stamps of the event's dates, or nothing for an
   * invalid date; DTSTAMP holds the stamp of the clock's instant whenever the
   * host parser reads its own `toISOString()` back; and the UID line holds the UID.
   */
  lemma ICalDataDates(parse: DateParser, event: CalendarEvent, now: ValidInstant, uid: UidSource)
    requires UidOnOneLine(uid)
    ensures var lines := Split(GenerateICalData(parse, event, now, uid), "\r\n");
      && |lines| == 14
      && lines[5] == "UID:" + Uid(uid)
      && lines[7] == "DTSTART:" + DateValue(parse, event.startDate)
      && lines[8] == "DTEND:" + DateValue(parse, event.endDate)
      && (parse(IsoString(now)) == Some(now) ==> lines[6] == "DTSTAMP:" + Stamp(now))
  {
    ICalDataLines(parse, event, now, uid);
    EventLinesAt(parse, event, now, uid);
    EventLinesDates(parse, event, now, uid);
  }

  lemma EventLinesDates(parse: DateParser, event: CalendarEvent, now: ValidInstant, uid: UidSource)
    ensures var e := EventLines(parse, event, now, uid);
      && e[0] == "UID:" + Uid(uid)
      && e[1] == "DTSTAMP:" + DateValue(parse, IsoString(now))
      && e[2] == "DTSTART:" + DateValue(parse, event.startDate)
      && e[3] == "DTEND:" + DateValue(parse, event.endDate)
  {
    var e := EventLines(parse, event, now, uid);
    var stamp, start, end := IcsFormatDate(parse, IsoString(now)), IcsFormatDate(parse, event.startDate),
      IcsFormatDate(parse, event.endDate);
    assert e[1] == "DTSTAMP:" + stamp && e[2] == "DTSTART:" + start && e[3] == "DTEND:" + end;
    DateValueSpec(parse, event.startDate);
    DateValueSpec(parse, event.endDate);
    DateValueSpec(parse, IsoString(now));
  }

  /** The stamp of the instant a date string names, or nothing for an invalid date. */
  function DateValue(parse: DateParser, s: string): string
  {
    match parse(s)
    case None => ""
    case Some(d) => Stamp(d)
  }

  lemma DateValueSpec(parse: DateParser, s: string)
    ensures IcsFormatDate(parse, s) == DateValue(parse, s)
  {
    FormattersAgree(parse, s);
    FormatDateSpec(parse, s);
  }

  /** With the strict ISO parser standing in for the host's, DTSTAMP is the stamp of the clock. */
  lemma ICalStampStrict(event: CalendarEvent, now: ValidInstant, uid: UidSource)
    requires UidOnOneLine(uid)
    ensures var lines := Split(GenerateICalData(StrictIsoParse, event, now, uid), "\r\n");
      |lines| == 14 && lines[6] == "DTSTAMP:" + Stamp(now)
  {
    StrictParseIsoString(now);
    ICalDataDates(StrictIsoParse, event, now, uid);
  }
}
