# send-to-cal, modelled in Dafny

SendToCal turns a pasted message or a screenshot into a calendar event. A language model pulls
a `CalendarEvent` out of the input: a title, start and end as ISO 8601 strings, a location and
a description. The user edits that record in a form. The app then offers two outputs:

- a Google Calendar "render" link, with the event passed in its query string;
- an iCalendar (`.ics`) file to download.

This project models the four files that do this work:

- `utils/calendarUtils.ts`: the date stamp, the link and the iCalendar text, as pure functions;
- `services/geminiService.ts`: the extraction call, as a method whose model call and JSON parser
  are parameters;
- `components/EventEditor.tsx`: the form, as a class whose `formData` field is updated in place,
  plus pure functions for the filename and for what the date inputs display;
- `App.tsx`: the session, as a class with its five state fields and the methods that change them.

What the model proves:

- the link's query string parses back to exactly the parameters appended;
- the iCalendar text splits back into its fourteen lines, with the event frame in place; each TEXT
  value reads back, under section 3.3.11 of RFC 5545, to the field it came from;
- the date stamp is the ISO string with `-`, `:` and `.` removed, and it is injective;
- the data-URL pattern splits at the last `;base64,` that leaves a non-empty payload; on a data URL whose payload contains no `;base64,` it gives back the media type and the payload it was built from;
- the download filename's stem characters and length;
- which session fields each handler changes.

Host facilities are parameters:

- the host's `new Date(string)`, as a `DateParser` (`string -> Option<ValidInstant>`).
  `Dates.StrictIsoParse` is one concrete parser, proved to invert `toISOString()`;
- the clock's current instant;
- the UID source (`crypto.randomUUID()`, or `Date.now()` when it is missing);
- the language-model call;
- `JSON.parse`.

Strings are sequences of Unicode scalar values. Where the source counts UTF-16 code units, the
model counts a character outside the Basic Multilingual Plane twice: `Strings.Utf16Length` is
`s.length`. This applies to the download filename and to the `slice(0, 16)` of the date inputs.

The stamp `formatDateForUrl` and `formatDate` produce is 19 characters, `YYYYMMDDTHHMMSSsssZ`.
`toISOString()` always has a fractional part. Removing `.` leaves its three millisecond digits in
front of the `Z`. The comment at utils/calendarUtils.ts:4 and the DATE-TIME form of RFC 5545
(section 3.3.5) both describe `YYYYMMDDTHHMMSSZ`, without milliseconds. The model follows the code:
`CalendarUtils.Stamp` keeps the milliseconds.

## Model

| member | source | states |
|---|---|---|
| Types.WithField | components/EventEditor.tsx:20 | `{ ...e, [f]: v }` sets field `f` to `v` and leaves the other four fields as they were |
| Types.WithFieldLaws | components/EventEditor.tsx:19-21 | writing back a field's own value changes nothing; a second write to the same field replaces the first |
| Types.WithFieldCommute | components/EventEditor.tsx:19-21 | two edits of different fields give the same record in either order |
| Types.FieldsDetermineEvent | types.ts:1-7 | a record is determined by its five fields |
| Strings.IndexOf | utils/calendarUtils.ts:12 | the result is the first position where the pattern occurs; there is none exactly when the pattern does not occur |
| Strings.BeforeFirstLast | utils/calendarUtils.ts:12 | `split(c)[0]` of a string that ends in its only `c` is everything before that `c` |
| Strings.SplitJoin | utils/calendarUtils.ts:80 | splitting a CRLF join of lines that contain no line feed gives the lines back |
| Strings.TrimEmpty | App.tsx:16 | `trim()` is empty exactly when every character is JavaScript white space or a line terminator |
| Strings.Utf16Prefix | components/EventEditor.tsx:79 | `slice(0, n)` returns the longest prefix that fits in `n` UTF-16 code units: the next character, if any, would not fit |
| Strings.Utf16PrefixBmp | components/EventEditor.tsx:79 | when the first `n` characters are in the Basic Multilingual Plane, the cut is exactly those `n` characters |
| Dates.DecimalRoundTrip | utils/calendarUtils.ts:12 | a zero-padded field of width `w` reads back to its value |
| Dates.IsoStringFields | utils/calendarUtils.ts:12 | `toISOString()` is 24 characters, with each field at its fixed offset and the separators `- - T : : . Z` between them |
| Dates.StrictParseIsoString | utils/calendarUtils.ts:8 | the strict parser reads `toISOString()` of any instant back to that instant |
| Dates.StrictParseSound | utils/calendarUtils.ts:8 | whatever the strict parser accepts is `toISOString()` of the instant it returns, with `.000` added when the input had no fraction |
| Dates.NumberStringValue | utils/calendarUtils.ts:61 | `String(Date.now())`: the digits read back to the number, with no leading zero |
| FormUrlEncoded.Utf8RoundTrip | utils/calendarUtils.ts:37 | the UTF-8 encoding of a string decodes back to it |
| FormUrlEncoded.EncodeRoundTrip | utils/calendarUtils.ts:37 | a name or value, percent-encoded as `URLSearchParams` does, decodes back to itself |
| FormUrlEncoded.EncodeChars | utils/calendarUtils.ts:37 | an encoded name or value holds only unreserved characters, `+`, `%` and hex digits; in particular no space, `&` or `=` |
| FormUrlEncoded.EncodeSafe | utils/calendarUtils.ts:26 | a string of unreserved characters is serialised as it is |
| FormUrlEncoded.SerializeRoundTrip | utils/calendarUtils.ts:17-37 | `params.toString()` parses back to exactly the appended pairs, in order |
| FormUrlEncoded.SerializeChars | utils/calendarUtils.ts:37 | the serialised query holds only encoded characters and the delimiters `&` and `=` |
| CalendarUtils.FormatDateForUrl | utils/calendarUtils.ts:7-13 | `formatDateForUrl`; what it returns is stated by `CalendarUtils.FormatDateSpec` and `CalendarUtils.StampOfIsoString` |
| CalendarUtils.IcsFormatDate | utils/calendarUtils.ts:41-47 | the `formatDate` local to `generateICalData`; `CalendarUtils.FormattersAgree` proves it equal to `formatDateForUrl` |
| CalendarUtils.GenerateGoogleCalendarUrl | utils/calendarUtils.ts:15-38 | `generateGoogleCalendarUrl`; stated by `CalendarUtils.GoogleCalendarUrlRoundTrip`, `CalendarUtils.GoogleCalendarParamNames`, `CalendarUtils.GoogleCalendarFixedValues` and `CalendarUtils.GoogleCalendarOptionalValues` |
| CalendarUtils.EscapeText | utils/calendarUtils.ts:49-55 | `escapeText`; stated by `CalendarUtils.EscapeTextSinglePass` and `CalendarUtils.UnescapeEscapeText` |
| CalendarUtils.Uid | utils/calendarUtils.ts:61 | the UID expression; stated by `CalendarUtils.UidNoLineFeed` |
| CalendarUtils.GenerateICalData | utils/calendarUtils.ts:40-81 | `generateICalData`; stated by `CalendarUtils.ICalDataLines`, `CalendarUtils.ICalDataFrame`, `CalendarUtils.ICalDataText` and `CalendarUtils.ICalDataDates` |
| CalendarUtils.StampOfIsoString | utils/calendarUtils.ts:12 | on `toISOString()`, `replace(/[-:.]/g, '').split('Z')[0] + 'Z'` is the reference stamp, which is the ISO string with `-`, `:` and `.` deleted |
| CalendarUtils.StampShape | utils/calendarUtils.ts:12 | a stamp is 19 characters: digits, with `T` at offset 8 and `Z` at offset 18 |
| CalendarUtils.StampSlices | utils/calendarUtils.ts:12 | where each field sits in the stamp, milliseconds included |
| CalendarUtils.StampFieldsRead | utils/calendarUtils.ts:12 | each of the seven fields reads back from its slice of the stamp |
| CalendarUtils.StampInjective | utils/calendarUtils.ts:12 | different instants have different stamps |
| CalendarUtils.FormatDateSpec | utils/calendarUtils.ts:7-13 | the result is empty exactly when the host cannot read the string; otherwise it is the 19-character stamp of the instant read |
| CalendarUtils.FormattersAgree | utils/calendarUtils.ts:41-47 | the formatter local to `generateICalData` equals `formatDateForUrl` on every input |
| CalendarUtils.StampExample | utils/calendarUtils.ts:12 | 2024-05-21 14:30 UTC renders as `2024-05-21T14:30:00.000Z` and is formatted as `20240521T143000000Z` |
| CalendarUtils.InvalidDateExample | utils/calendarUtils.ts:9-11 | `not-a-date` formats to the empty string |
| CalendarUtils.LookupFound | utils/calendarUtils.ts:17-35 | `URLSearchParams.get(name)` finds a value exactly when some parameter has that name |
| CalendarUtils.LookupFirst | utils/calendarUtils.ts:17-35 | `get(name)` returns the value of the first parameter with that name |
| CalendarUtils.DatesParamSpec | utils/calendarUtils.ts:22-27 | `dates` is appended exactly when both dates can be read, and its value is `start/end` of the two stamps |
| CalendarUtils.GoogleCalendarParamNames | utils/calendarUtils.ts:19-35 | the parameters start with `action=TEMPLATE` and `text=title`; after them come `dates` (when both dates are valid), `details` (when the description is non-empty) and `location` (when it is non-empty), in that order |
| CalendarUtils.GoogleCalendarFixedValues | utils/calendarUtils.ts:19-20 | `get("action")` is `TEMPLATE` and `get("text")` is the title, even when the title is empty |
| CalendarUtils.GoogleCalendarOptionalValues | utils/calendarUtils.ts:22-35 | `get` of `dates`, `details` and `location` gives the two stamps, the description and the location when present, and nothing otherwise |
| CalendarUtils.GoogleCalendarUrlRoundTrip | utils/calendarUtils.ts:16-37 | the link is the render endpoint followed by `?` and a non-empty query; that query parses back to exactly the parameters |
| CalendarUtils.DatesEncoding | utils/calendarUtils.ts:26 | in the link the two stamps are written as they are, separated by `%2F` |
| CalendarUtils.EscapeTextSinglePass | utils/calendarUtils.ts:49-55 | the four chained replacements, backslash first, escape each character once: `\` to `\\`, `;` to `\;`, `,` to `\,`, LF to `\n` |
| CalendarUtils.UnescapeEscapeText | utils/calendarUtils.ts:49-55 | reading an escaped value under section 3.3.11 of RFC 5545 gives the original text back |
| CalendarUtils.EscapeTextInjective | utils/calendarUtils.ts:49-55 | different texts have different escapes |
| CalendarUtils.EscapeTextNoLineFeed | utils/calendarUtils.ts:54 | an escaped value contains no line feed |
| CalendarUtils.EscapeTextPlain | utils/calendarUtils.ts:49-55 | text without `\`, `;`, `,` or LF is written as it is |
| CalendarUtils.EscapeExample | utils/calendarUtils.ts:52 | `a;b` is escaped as `a\;b` |
| CalendarUtils.UidNoLineFeed | utils/calendarUtils.ts:61 | the UID has no line feed when the UUID source has none; the `event-<ms>@sendtocal` fallback never has one |
| CalendarUtils.ICalLinesNoLineFeed | utils/calendarUtils.ts:63-78 | there are fourteen lines and none of them contains a line feed |
| CalendarUtils.ICalDataLines | utils/calendarUtils.ts:80 | splitting the payload at CRLF gives back exactly the fourteen lines |
| CalendarUtils.ICalDataFrame | utils/calendarUtils.ts:63-78 | the payload opens with the five calendar lines and closes with the two end lines; `BEGIN:VEVENT` occurs only as line 4 and `END:VEVENT` only as line 12 |
| CalendarUtils.ICalDataText | utils/calendarUtils.ts:73-75 | SUMMARY, DESCRIPTION and LOCATION have their property names, and their values read back to the title, the description and the location |
| CalendarUtils.ICalDataDates | utils/calendarUtils.ts:57-72 | UID, DTSTART and DTEND lines carry the UID and the two formatted dates; DTSTAMP is the stamp of the clock whenever the host reads `toISOString()` back to the same instant |
| CalendarUtils.ICalStampStrict | utils/calendarUtils.ts:59 | with a conforming parser, DTSTAMP is always the clock's stamp |
| GeminiService.LastMarker | services/geminiService.ts:29 | the last start of `;base64,` within a range, and none after it; when there is none, there is no start in the range |
| GeminiService.MatchDataUrl | services/geminiService.ts:29 | on a match the string is `data:` + media type + `;base64,` + payload; both groups are non-empty and contain no line terminator; no later `;base64,` leaves a non-empty payload (the first group is greedy) |
| GeminiService.MatchDataUrlComplete | services/geminiService.ts:29 | every `data:<m>;base64,<d>` with non-empty one-line `m` and `d` matches |
| GeminiService.MatchDataUrlRoundTrip | services/geminiService.ts:29-32 | when the payload contains no `;base64,`, the groups are exactly the media type and the payload |
| GeminiService.MatchDataUrlNeedsPrefix | services/geminiService.ts:29 | a string that does not begin with `data:` never matches |
| GeminiService.MatchDataUrlExample | services/geminiService.ts:29-32 | `data:image/png;base64,iVBORw0K` gives `image/png` and `iVBORw0K` |
| GeminiService.RequestContents | services/geminiService.ts:26-46 | the `contents` built for the request; stated by `GeminiService.RequestContentsShape` |
| GeminiService.RequestFor | services/geminiService.ts:48-66 | the request: model `gemini-2.5-flash`, the contents, the JSON response type and the schema; the schema is stated by `GeminiService.ResponseSchemaProperties` and `GeminiService.ResponseSchemaRequired` |
| GeminiService.RequestContentsShape | services/geminiService.ts:26-46 | an image part is sent exactly when a non-empty data URL matches; the inline part rebuilds that data URL; the text part is the text, or `Extract event details from this image.` exactly when the text is empty; without a matching image, the text is sent as is |
| GeminiService.ResponseSchemaProperties | services/geminiService.ts:54-62 | the schema is an object with five string properties, named after the five event fields in record order |
| GeminiService.ResponseSchemaRequired | services/geminiService.ts:63 | a field is required exactly when it is the title, the start or the end |
| GeminiService.ErrorMessagesDistinct | services/geminiService.ts:5-79 | the three errors of the service carry three different messages |
| GeminiService.ExtractEventDetails | services/geminiService.ts:4-80 | without a non-empty key: `API Key is missing`, and no request. Otherwise exactly one request, `RequestFor(text, image)`, is sent. A thrown error passes through; an undefined or empty reply gives `No response from AI`; a reply that is not JSON gives `Failed to parse event details`; success happens exactly when there is a key, a non-empty reply and a parse, and returns the parsed value |
| EventEditor.IcsFilename | components/EventEditor.tsx:30 | the download filename expression; stated by `EventEditor.IcsFilenameShape` and `EventEditor.StemSinglePass` |
| EventEditor.StemSinglePass | components/EventEditor.tsx:30 | the replacement followed by `toLowerCase` is one pass that maps each character to its sanitised lower-case form |
| EventEditor.SanitizedLength | components/EventEditor.tsx:30 | the stem has one character per UTF-16 code unit of the title |
| EventEditor.SanitizedChars | components/EventEditor.tsx:30 | the stem holds only `a-z`, `0-9` and `_` |
| EventEditor.SanitizedPositions | components/EventEditor.tsx:30 | for a title within the Basic Multilingual Plane, stem position `k` is the lower-cased letter or the digit at `k`, and `_` for anything else |
| EventEditor.IcsFilenameShape | components/EventEditor.tsx:30 | the name always ends in `.ics`; the `event` fallback fires exactly when the title is empty; otherwise the name is the sanitised title plus `.ics`, with length equal to the title's UTF-16 length plus 4 |
| EventEditor.TitleEventSameAsEmpty | components/EventEditor.tsx:30 | the title `Event` gives the same name as an empty title, so the name does not show which of the two it was |
| EventEditor.IcsFilenameExample | components/EventEditor.tsx:30 | `Team Sync: Q3!` is saved as `team_sync__q3_.ics` |
| EventEditor.DateInputValue | components/EventEditor.tsx:79-91 | `value={...slice(0, 16)}`: at most 16 UTF-16 code units of the stored string, a prefix of it, and the longest such prefix |
| EventEditor.DateInputOfIsoString | components/EventEditor.tsx:79-91 | a stored `toISOString()` value is shown as `YYYY-MM-DDTHH:mm`, that is its UTC date, hour and minute |
| EventEditor.Editor.constructor | components/EventEditor.tsx:12 | the form starts as the initial data |
| EventEditor.Editor.SyncInitialData | components/EventEditor.tsx:15-17 | a new initial record replaces the form |
| EventEditor.Editor.HandleChange | components/EventEditor.tsx:19-21 | the form becomes `WithField(old form, field, value)`: that field is `value` and the other four are unchanged |
| EventEditor.Editor.HandleDateInput | components/EventEditor.tsx:80-92 | when the host cannot read the input, `toISOString` throws and the form is unchanged; otherwise the field holds the ISO string of the instant read |
| EventEditor.Editor.HandleDownloadIcs | components/EventEditor.tsx:23-31 | the download is named `IcsFilename(title)`, holds `generateICalData` of the current form, and leaves the form unchanged |
| EventEditor.Editor.CalendarUrl | components/EventEditor.tsx:38 | the link of the current form is the render endpoint and `?` followed by a query that parses back to exactly the form's parameters |
| App.NothingToProcessIff | App.tsx:16 | the early return happens exactly when `hasContent` (components/InputSection.tsx:75) is false, that is when the text is all white space and there is no non-empty image; the Submit button is also disabled while loading, which the guard does not test |
| App.Session.constructor | App.tsx:9-13 | empty text, no image, not processing, no event, no error |
| App.Session.SetInputText | App.tsx:77 | changes only the text |
| App.Session.SetSelectedImage | App.tsx:78 | changes only the image |
| App.Session.StartProcess | App.tsx:15-20 | with nothing to process, nothing changes; otherwise `isProcessing` becomes true and the event and the error are cleared; text and image are kept; `isProcessing` itself is not tested |
| App.Session.FinishProcess | App.tsx:22-30 | the parsed reply is stored as it is, so a JSON `null` leaves no event; any failure sets the fixed message `Failed to extract event details. Please try again or check your API key.`; `isProcessing` ends false either way; text and image are kept |
| App.Session.HandleProcess | App.tsx:15-31 | text and image never change. When it runs, it stops processing; the fixed error is shown exactly when extraction fails; otherwise the parsed reply is stored, so a reply that parses to `null` shows neither an event nor an error, and this is the only way that happens; the request sent is the extraction's. An event and an error are never shown together afterwards if they were not before |
| App.Session.HandleReset | App.tsx:33-38 | event, text, image and error are cleared, which leaves nothing to process; `isProcessing` is not touched |

## Left out

- Host date parsing. `new Date(string)` depends on the host: strings without an offset, such as the prompt's example `2024-05-21T14:30:00`, are read in local time, and other formats are implementation-defined. It is a parameter. Only `Dates.StrictIsoParse` (`YYYY-MM-DDTHH:MM:SS(.sss)?Z`, years 0000–9999) is given concretely. Years outside 0000–9999 (`toISOString()`'s `±YYYYYY` form) are not modelled.
- Time zones. `datetime-local` inputs are read by the host parser in local time and shown back in UTC (`EventEditor.DateInputOfIsoString`); the offset between the two is not modelled.
- The clock and the UID. `new Date()` in `generateICalData` and `Date.now()` are parameters (`now`, `UidSource.ClockMillis`). `crypto.randomUUID()` is an arbitrary string (`UidSource.RandomUuid`); the line-feed lemmas assume it has no line feed, which a real UUID satisfies.
- GeminiService.ExtractEventDetails: the system instruction (it embeds the clock and locale-formatted dates) is not part of the modelled request. The SDK call is the parameter `generate`, and `JSON.parse` is the parameter `parseJson`. The parsed value is returned as the source returns it, without checking it against the schema. `console.error` is not modelled.
- Asynchrony. `handleProcess` awaits the model call. `App.Session.StartProcess` and `App.Session.FinishProcess` are the steps before and after the `await`. `App.Session.HandleProcess` runs them with nothing in between; other events during the `await`, and React's batching of state updates, are not modelled.
- The Blob, object-URL and anchor plumbing of the download (components/EventEditor.tsx:24-35), and all JSX, styling and icons. `EventEditor.Editor.HandleDownloadIcs` returns the filename and the content instead.
- components/InputSection.tsx beyond its `hasContent` test: file reading, drag and drop, paste and key handling.
- Fields that are `undefined`. The record's fields are strings, so a model reply that omits a field is outside the model.
- App.Session.HandleProcess: `parseJson` returns an event record or `null`. A reply that parses to some other JSON value is outside the model: a number, a string, an array, or an object that is not an event. The source would store such a value as the event.
- The `console.error(err)` of `handleProcess` (App.tsx:26) is not modelled.
- Strings.Utf16Prefix: when the cut at `n` code units falls inside a surrogate pair, `slice` keeps a lone high surrogate. The model stops before the pair, because a string of Unicode scalar values cannot hold a lone surrogate.
- Lone surrogates. Dafny strings hold Unicode scalar values, so a title or text holding an unpaired surrogate cannot be written. `toLowerCase` is modelled on ASCII only, which is all that is left once the filename pattern has replaced everything else.
- `Dates.NumberString`: `String(Date.now())` for a natural number; exponent notation for huge numbers does not arise for real clock values and is not modelled.
- CalendarUtils.EscapeText: carriage returns and other control characters are not escaped by the source. `CalendarUtils.UnescapeText` lets them through, so the round trip holds, but such values are not valid RFC 5545 TEXT.
- Line folding. The source does not fold lines longer than 75 octets (section 3.1 of RFC 5545), and the model does not either.
- `FormUrlEncoded.Parse` is a strict inverse of the serializer. It is not the whole WHATWG parser: it rejects malformed percent escapes instead of passing them through.
