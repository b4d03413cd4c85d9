/**
 * The event editor: the form state it edits in place, the values the two date inputs
 * display, and the name of the downloaded `.ics` file.
 */
module EventEditor {
  import opened Wrappers
  import opened Strings
  import opened Types
  import opened Dates
  import CalendarUtils
  import FormUrlEncoded

  // ---------------------------------------------------------------------------
  // The download filename: `(title.replace(/[^a-z0-9]/gi, '_').toLowerCase() || 'event') + '.ics'`
  // ---------------------------------------------------------------------------

  /** The class `[a-z0-9]` under the `i` flag: the ASCII letters of either case and the digits. */
  predicate IsAsciiAlnum(c: char)
  {
    'a' <= c <= 'z' || 'A' <= c <= 'Z' || '0' <= c <= '9'
  }

  /** The characters a sanitised stem may contain. */
  predicate IsStemChar(c: char)
  {
    'a' <= c <= 'z' || '0' <= c <= '9' || c == '_'
  }

  /** `toLowerCase` on the ASCII characters, the only ones left after sanitising. */
  function LowerAscii(c: char): char
  {
    if 'A' <= c <= 'Z' then (c as int + 32) as char else c
  }

  /** Without the `u` flag the pattern sees UTF-16 code units, so a character outside the BMP is two matches. */
  function Underscores(c: char): string
  {
    if c as int > 0xFFFF then "__" else "_"
  }

  function ReplaceStep(c: char): string
  {
    if IsAsciiAlnum(c) then [c] else Underscores(c)
  }

  function LowerStep(c: char): string
  {
    [LowerAscii(c)]
  }

  /** `title.replace(/[^a-z0-9]/gi, '_')`. */
  function ReplaceNonAlnum(s: string): string
  {
    FlatMap(ReplaceStep, s)
  }

  /** `toLowerCase()`, restricted to ASCII. */
  function LowerCase(s: string): string
  {
    FlatMap(LowerStep, s)
  }

  function FilenameStem(title: string): string
  {
    LowerCase(ReplaceNonAlnum(title))
  }

  /** The name offered for the downloaded calendar file. */
  function IcsFilename(title: string): string
  {
    var stem := FilenameStem(title);
    (if stem == "" then "event" else stem) + ".ics"
  }

  /** One character of the title, sanitised and lower-cased. */
  function SanitizeChar(c: char): string
  {
    if IsAsciiAlnum(c) then [LowerAscii(c)] else Underscores(c)
  }

  /** The two passes over the title are one pass of `SanitizeChar`. */
  lemma StemSinglePass(title: string)
    ensures FilenameStem(title) == FlatMap(SanitizeChar, title)
  {
    FlatMapCompose(ReplaceStep, LowerStep, title);
    forall k | 0 <= k < |title| ensures FlatMap(LowerStep, ReplaceStep(title[k])) == SanitizeChar(title[k]) {
      var c := title[k];
      if IsAsciiAlnum(c) {
        FlatMapSingleton(LowerStep, c);
      } else if c as int > 0xFFFF {
        assert ReplaceStep(c) == "__";
        assert "__"[1..] == "_";
        FlatMapSingleton(LowerStep, '_');
      } else {
        FlatMapSingleton(LowerStep, '_');
      }
    }
    FlatMapCongruence(x => FlatMap(LowerStep, ReplaceStep(x)), SanitizeChar, title);
  }

  /** Every code unit of the title becomes exactly one character of the stem. */
  lemma {:induction false} SanitizedLength(s: string)
    ensures |FlatMap(SanitizeChar, s)| == Utf16Length(s)
    decreases |s|
  {
    if s != [] {
      SanitizedLength(s[1..]);
    }
  }

  /** The stem is lower-case letters, digits and underscores. */
  lemma SanitizedChars(s: string)
    ensures forall x :: x in FlatMap(SanitizeChar, s) ==> IsStemChar(x)
  {
    forall x | x in FlatMap(SanitizeChar, s) ensures IsStemChar(x) {
      FlatMapMember(SanitizeChar, s, x);
      var i :| 0 <= i < |s| && x in SanitizeChar(s[i]);
    }
  }

  /**
   * On a title without characters outside the BMP the stem is position for position the
   * title, with letters lower-cased, digits kept and everything else `_`.
   */
  lemma {:induction false} SanitizedPositions(s: string)
    requires forall k :: 0 <= k < |s| ==> s[k] as int <= 0xFFFF
    ensures |FlatMap(SanitizeChar, s)| == |s|
    ensures forall k :: 0 <= k < |s| ==>
      FlatMap(SanitizeChar, s)[k] == if IsAsciiAlnum(s[k]) then LowerAscii(s[k]) else '_'
    decreases |s|
  {
    if s != [] {
      SanitizedPositions(s[1..]);
      var rest := FlatMap(SanitizeChar, s[1..]);
      assert FlatMap(SanitizeChar, s) == SanitizeChar(s[0]) + rest;
      assert |SanitizeChar(s[0])| == 1;
      forall k | 1 <= k < |s|
        ensures FlatMap(SanitizeChar, s)[k] == if IsAsciiAlnum(s[k]) then LowerAscii(s[k]) else '_'
      {
        assert FlatMap(SanitizeChar, s)[k] == rest[k - 1];
        assert s[1..][k - 1] == s[k];
      }
    }
  }

  /**
   * The filename: always `.ics`-suffixed; `event.ics` exactly when the title is empty;
   * otherwise one stem character per UTF-16 code unit of the title, all of them lower-case
   * letters, digits or `_`.
   */
  lemma IcsFilenameShape(title: string)
    ensures var name := IcsFilename(title);
      |name| > 4 && name[|name| - 4..] == ".ics" &&
      (forall k :: 0 <= k < |name| - 4 ==> IsStemChar(name[k])) &&
      (FilenameStem(title) == "" <==> title == "") &&
      (title == "" ==> name == "event.ics") &&
      (title != "" ==> |name| == Utf16Length(title) + 4 && name == FlatMap(SanitizeChar, title) + ".ics")
  {
    StemSinglePass(title);
    SanitizedLength(title);
    SanitizedChars(title);
    var stem := FilenameStem(title);
    var name := IcsFilename(title);
    if title != "" {
      assert Utf16Length(title) > 0;
      assert name[..|name| - 4] == stem;
      forall k | 0 <= k < |name| - 4 ensures IsStemChar(name[k]) {
        assert name[k] == stem[k];
        assert stem[k] in stem;
      }
    } else {
      assert name == "event.ics";
    }
  }

  /** A title that sanitises to `event` gives the same name as an empty one. */
  lemma TitleEventSameAsEmpty()
    ensures IcsFilename("Event") == IcsFilename("")
  {
    StemSinglePass("Event");
    var t := "Event";
    assert FlatMap(SanitizeChar, t[4..]) == "t";
    assert FlatMap(SanitizeChar, t[3..]) == "nt";
    assert FlatMap(SanitizeChar, t[2..]) == "ent";
    assert FlatMap(SanitizeChar, t[1..]) == "vent";
  }

  lemma SanitizeTeam()
    ensures FlatMap(SanitizeChar, "Team ") == "team_"
  {
    var p4 := " ";
    var p3 := ['m'] + p4;
    var p2 := ['a'] + p3;
    var p1 := ['e'] + p2;
    var p0 := ['T'] + p1;
    assert SanitizeChar('T') == "t";
    assert SanitizeChar('e') == "e";
    assert SanitizeChar('a') == "a";
    assert SanitizeChar('m') == "m";
    assert SanitizeChar(' ') == "_";
    FlatMapSingleton(SanitizeChar, ' ');
    FlatMapCons(SanitizeChar, 'm', p4);
    FlatMapCons(SanitizeChar, 'a', p3);
    FlatMapCons(SanitizeChar, 'e', p2);
    FlatMapCons(SanitizeChar, 'T', p1);
    assert p0 == "Team ";
  }

  lemma SanitizeSync()
    ensures FlatMap(SanitizeChar, "Sync") == "sync"
  {
    var p3 := "c";
    var p2 := ['n'] + p3;
    var p1 := ['y'] + p2;
    var p0 := ['S'] + p1;
    assert SanitizeChar('S') == "s";
    assert SanitizeChar('y') == "y";
    assert SanitizeChar('n') == "n";
    assert SanitizeChar('c') == "c";
    FlatMapSingleton(SanitizeChar, 'c');
    FlatMapCons(SanitizeChar, 'n', p3);
    FlatMapCons(SanitizeChar, 'y', p2);
    FlatMapCons(SanitizeChar, 'S', p1);
    assert p0 == "Sync";
  }

  lemma SanitizeColon()
    ensures FlatMap(SanitizeChar, ": ") == "__"
  {
    var p1 := " ";
    var p0 := [':'] + p1;
    assert SanitizeChar(':') == "_";
    assert SanitizeChar(' ') == "_";
    FlatMapSingleton(SanitizeChar, ' ');
    FlatMapCons(SanitizeChar, ':', p1);
    assert p0 == ": ";
  }

  lemma SanitizeQ3()
    ensures FlatMap(SanitizeChar, "Q3!") == "q3_"
  {
    var p2 := "!";
    var p1 := ['3'] + p2;
    var p0 := ['Q'] + p1;
    assert SanitizeChar('Q') == "q";
    assert SanitizeChar('3') == "3";
    assert SanitizeChar('!') == "_";
    FlatMapSingleton(SanitizeChar, '!');
    FlatMapCons(SanitizeChar, '3', p2);
    FlatMapCons(SanitizeChar, 'Q', p1);
    assert p0 == "Q3!";
  }

  /**
   * The title `Team Sync: Q3!` is saved as `team_sync__q3_.ics`.  The title is given as four
   * parameters fixed by the precondition rather than as one literal, so that the verifier
   * works through one short piece at a time (the four lemmas above) instead of unfolding
   * the whole title at once.
   */
  lemma IcsFilenameExample(a: string, b: string, c: string, d: string)
    requires a == "Team " && b == "Sync" && c == ": " && d == "Q3!"
    ensures IcsFilename(a + b + c + d) == "team_sync__q3_.ics"
  {
    SanitizeTeam();
    SanitizeSync();
    SanitizeColon();
    SanitizeQ3();
    FlatMapAppend(SanitizeChar, a, b);
    FlatMapAppend(SanitizeChar, a + b, c);
    FlatMapAppend(SanitizeChar, a + b + c, d);
    IcsFilenameShape(a + b + c + d);
  }


  // ---------------------------------------------------------------------------
  // The date inputs
  // ---------------------------------------------------------------------------

  /**
   * `value={iso.slice(0, 16)}` of a `datetime-local` input: the longest prefix of at most
   * 16 UTF-16 code units.
   */
  function DateInputValue(iso: string): (r: string)
    ensures Utf16Length(r) <= 16 && r <= iso
    ensures r == iso || Utf16Length(iso[..|r| + 1]) > 16
  {
    Utf16Prefix(iso, 16)
  }

  /**
   * A stored `toISOString()` value is displayed as `YYYY-MM-DDTHH:mm`, the UTC date, hour
   * and minute of the instant; seconds and milliseconds are not shown.
   */
  lemma DateInputOfIsoString(i: ValidInstant)
    ensures var r := DateInputValue(IsoString(i));
      |r| == 16 && r[..10] == IsoDate(i) && r[10] == 'T' &&
      r[11..13] == Decimal(i.hour, 2) && r[13] == ':' && r[14..16] == Decimal(i.minute, 2)
  {
    var r := DateInputValue(IsoString(i));
    IsoStringFields(i);
    forall k | 0 <= k < 16 ensures IsoString(i)[k] as int <= 0xFFFF {
      var s := IsoString(i);
      if k < 4 { assert s[k] == s[0..4][k]; }
      else if 4 < k < 7 { assert s[k] == s[5..7][k - 5]; }
      else if 7 < k < 10 { assert s[k] == s[8..10][k - 8]; }
      else if 10 < k < 13 { assert s[k] == s[11..13][k - 11]; }
      else if 13 < k < 16 { assert s[k] == s[14..16][k - 14]; }
    }
    Utf16PrefixBmp(IsoString(i), 16);
    assert r == IsoHead(i)[..16];
    assert IsoHead(i)[..10] == IsoDate(i);
    assert IsoHead(i)[11..19] == IsoTime(i);
    IsoTimeFields(i);
    assert r[11..13] == IsoTime(i)[0..2];
    assert r[14..16] == IsoTime(i)[3..5];
  }

  // ---------------------------------------------------------------------------
  // The component state
  // ---------------------------------------------------------------------------

  /** The `formData` state of one mounted editor. */
  class Editor {
    var formData: CalendarEvent

    /** `useState(initialData)`. */
    constructor(initialData: CalendarEvent)
      ensures formData == initialData
    {
      formData := initialData;
    }

    /** The effect that copies a new `initialData` prop into the form. */
    method SyncInitialData(initialData: CalendarEvent)
      modifies this
      ensures formData == initialData
    {
      formData := initialData;
    }

    /** `handleChange(field, value)`: the one field replaced, the other four kept. */
    method HandleChange(field: Field, value: string)
      modifies this
      ensures formData == WithField(old(formData), field, value)
      ensures Get(formData, field) == value
      ensures forall g :: g != field ==> Get(formData, g) == Get(old(formData), g)
    {
      formData := WithField(formData, field, value);
    }

    /**
     * The `onChange` of a date input: `handleChange(field, new Date(value).toISOString())`.
     * When the host cannot read `value`, `toISOString` throws and the form is left as it
     * was (`ok` is false); otherwise the field holds the instant's ISO string.
     */
    method HandleDateInput(field: Field, value: string, parse: CalendarUtils.DateParser) returns (ok: bool)
      modifies this
      ensures ok <==> parse(value).Some?
      ensures !ok ==> formData == old(formData)
      ensures ok ==> formData == WithField(old(formData), field, IsoString(parse(value).value))
    {
      var instant := parse(value);
      if instant.None? {
        return false;
      }
      HandleChange(field, IsoString(instant.value));
      return true;
    }

    /**
     * The link behind "Add to Google Calendar", recomputed from the current form: the
     * render endpoint and a query that parses back to the parameters of the form.
     */
    function CalendarUrl(parse: CalendarUtils.DateParser): (url: string)
      reads this
      ensures |url| > |CalendarUtils.GoogleCalendarBase| + 1
      ensures url[..|CalendarUtils.GoogleCalendarBase| + 1] == CalendarUtils.GoogleCalendarBase + "?"
      ensures FormUrlEncoded.Parse(url[|CalendarUtils.GoogleCalendarBase| + 1..])
              == Some(CalendarUtils.GoogleCalendarParams(parse, formData))
    {
      CalendarUtils.GoogleCalendarUrlRoundTrip(parse, formData);
      CalendarUtils.GenerateGoogleCalendarUrl(parse, formData)
    }

    /**
     * `handleDownloadIcs`: the file name and the calendar text of the download; the
     * form is not changed.
     */
    method HandleDownloadIcs(parse: CalendarUtils.DateParser, now: ValidInstant, uid: CalendarUtils.UidSource)
      returns (filename: string, content: string)
      ensures filename == IcsFilename(formData.title)
      ensures content == CalendarUtils.GenerateICalData(parse, formData, now, uid)
    {
      content := CalendarUtils.GenerateICalData(parse, formData, now, uid);
      filename := IcsFilename(formData.title);
    }
  }
}
