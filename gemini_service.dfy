/**
 * The extraction service: it checks for an API key, builds the request contents from the
 * free text and an optional data-URL image, sends one structured-output request to the
 * language model and parses the reply as JSON.  The model call and `JSON.parse` are
 * parameters; the request is a value, so what is sent can be stated exactly.
 */
module GeminiService {
  import opened Wrappers
  import opened Strings
  import opened Types

  // ---------------------------------------------------------------------------
  // The data-URL pattern `^data:(.+);base64,(.+)$`
  // ---------------------------------------------------------------------------

  const DataPrefix: string := "data:"
  const Base64Marker: string := ";base64,"

  /** The characters a regular-expression `.` does not match (no `s` flag). */
  predicate IsLineTerminator(c: char)
  {
    c == '\n' || c == '\r' || c == '\U{2028}' || c == '\U{2029}'
  }

  /** Every character of `s` is matched by `.`. */
  predicate OnOneLine(s: string)
  {
    forall i :: 0 <= i < |s| ==> !IsLineTerminator(s[i])
  }

  lemma OnOneLineSlice(s: string, i: nat, j: nat)
    requires OnOneLine(s) && i <= j <= |s|
    ensures OnOneLine(s[i..j])
  {
    forall k | 0 <= k < j - i ensures !IsLineTerminator(s[i..j][k]) {
      assert s[i..j][k] == s[i + k];
    }
  }

  lemma OnOneLineAppend(a: string, b: string)
    requires OnOneLine(a) && OnOneLine(b)
    ensures OnOneLine(a + b)
  {
    forall k | 0 <= k < |a + b| ensures !IsLineTerminator((a + b)[k]) {
      if k < |a| {
        assert (a + b)[k] == a[k];
      } else {
        assert (a + b)[k] == b[k - |a|];
      }
    }
  }

  /**
   * The last position in `lo..hi` where `;base64,` starts: the split a greedy first
   * group settles on after backtracking.
   */
  function LastMarker(s: string, lo: nat, hi: int): (r: Option<nat>)
    ensures r.Some? ==> lo <= r.value <= hi && OccursAt(s, Base64Marker, r.value)
    ensures r.Some? ==> forall k :: r.value < k <= hi ==> !OccursAt(s, Base64Marker, k)
    ensures r.None? ==> forall k :: lo <= k <= hi ==> !OccursAt(s, Base64Marker, k)
    decreases hi - lo
  {
    if hi < lo then None
    else if OccursAt(s, Base64Marker, hi) then Some(hi)
    else LastMarker(s, lo, hi - 1)
  }

  /** Cutting a one-line `data:` string around a marker gives its two groups. */
  lemma SplitAtMarker(s: string, j: nat)
    requires |s| >= 5 && s[..5] == DataPrefix && OnOneLine(s[5..])
    requires 5 <= j && OccursAt(s, Base64Marker, j)
    ensures s == DataPrefix + s[5..j] + Base64Marker + s[j + 8..]
    ensures OnOneLine(s[5..j]) && OnOneLine(s[j + 8..])
  {
    assert s == s[..5] + s[5..j] + s[j..j + 8] + s[j + 8..];
    OnOneLineSlice(s[5..], 0, j - 5);
    OnOneLineSlice(s[5..], j + 3, |s| - 5);
    assert s[5..][0..j - 5] == s[5..j];
    assert s[5..][j + 3..|s| - 5] == s[j + 8..];
  }

  /**
   * `s.match(/^data:(.+);base64,(.+)$/)`: the two capture groups (media type, payload)
   * on a match.  Both groups are non-empty, nothing in them is a line terminator, and the
   * first group is greedy, so the split is at the last `;base64,` that leaves a payload.
   */
  function MatchDataUrl(s: string): (r: Option<(string, string)>)
    ensures r.Some? ==> s == DataPrefix + r.value.0 + Base64Marker + r.value.1
    ensures r.Some? ==> r.value.0 != "" && r.value.1 != ""
    ensures r.Some? ==> OnOneLine(r.value.0) && OnOneLine(r.value.1)
    ensures r.Some? ==>
      forall k :: |DataPrefix + r.value.0| < k < |s| - |Base64Marker| ==> !OccursAt(s, Base64Marker, k)
  {
    if |s| >= 5 && s[..5] == DataPrefix && OnOneLine(s[5..]) then
      match LastMarker(s, 6, |s| - 9)
      case None => None
      case Some(j) =>
        SplitAtMarker(s, j);
        Some((s[5..j], s[j + 8..]))
    else None
  }

  /** The marker's characters are on one line, so a well-formed data URL is too. */
  lemma DataUrlOnOneLine(m: string, d: string)
    requires OnOneLine(m) && OnOneLine(d)
    ensures OnOneLine(m + Base64Marker + d)
  {
    OnOneLineAppend(m, Base64Marker);
    OnOneLineAppend(m + Base64Marker, d);
  }

  /** The shape facts of a data URL built from its two parts. */
  lemma DataUrlParts(m: string, d: string)
    requires OnOneLine(m) && OnOneLine(d)
    ensures var s := DataPrefix + m + Base64Marker + d;
      |s| == 13 + |m| + |d| && s[..5] == DataPrefix && OnOneLine(s[5..]) &&
      OccursAt(s, Base64Marker, 5 + |m|) && s[5..5 + |m|] == m && s[13 + |m|..] == d
  {
    var s := DataPrefix + m + Base64Marker + d;
    assert s[..5] == DataPrefix;
    assert s[5..] == m + Base64Marker + d;
    DataUrlOnOneLine(m, d);
    assert s[5 + |m|..13 + |m|] == Base64Marker;
    assert s[5..5 + |m|] == m;
    assert s[13 + |m|..] == d;
  }

  /** Every data URL with a non-empty media type and payload on one line matches. */
  lemma MatchDataUrlComplete(m: string, d: string)
    requires m != "" && d != "" && OnOneLine(m) && OnOneLine(d)
    ensures MatchDataUrl(DataPrefix + m + Base64Marker + d).Some?
  {
    var s := DataPrefix + m + Base64Marker + d;
    DataUrlParts(m, d);
    assert 6 <= 5 + |m| <= |s| - 9;
    assert OccursAt(s, Base64Marker, 5 + |m|);
  }

  /** The marker does not overlap itself: it cannot start again within its own length. */
  lemma MarkerNotOverlapping(s: string, j: nat)
    requires OccursAt(s, Base64Marker, j)
    ensures forall k :: j < k < j + |Base64Marker| ==> !OccursAt(s, Base64Marker, k)
  {
    forall k | j < k < j + 8 ensures !OccursAt(s, Base64Marker, k) {
      if k + 8 <= |s| {
        assert s[k] == s[j..j + 8][k - j];
        assert s[k..k + 8][0] == s[k];
      }
    }
  }

  /**
   * A data URL whose payload does not contain `;base64,` gives back exactly its media
   * type and payload.
   */
  lemma MatchDataUrlRoundTrip(m: string, d: string)
    requires m != "" && d != "" && OnOneLine(m) && OnOneLine(d)
    requires !Contains(d, Base64Marker)
    ensures MatchDataUrl(DataPrefix + m + Base64Marker + d) == Some((m, d))
  {
    var s := DataPrefix + m + Base64Marker + d;
    var j0 := 5 + |m|;
    DataUrlParts(m, d);
    var r := LastMarker(s, 6, |s| - 9);
    assert r.Some?;
    var j := r.value;
    assert j0 <= j;
    MarkerNotOverlapping(s, j0);
    if j0 < j {
      assert s[j..j + 8] == d[j - j0 - 8..j - j0];
      assert OccursAt(d, Base64Marker, j - j0 - 8);
      assert false;
    }
  }

  /** A string that does not begin with `data:` never matches. */
  lemma MatchDataUrlNeedsPrefix(s: string)
    requires !(|s| >= 5 && s[..5] == DataPrefix)
    ensures MatchDataUrl(s) == None
  {
  }

  /** A concrete image upload: `data:image/png;base64,iVBORw0K` splits into its two parts. */
  lemma MatchDataUrlExample()
    ensures MatchDataUrl("data:image/png;base64,iVBORw0K") == Some(("image/png", "iVBORw0K"))
  {
    assert "data:image/png;base64,iVBORw0K" == DataPrefix + "image/png" + Base64Marker + "iVBORw0K";
    assert !Contains("iVBORw0K", Base64Marker) by {
      forall k | 0 <= k <= 8 ensures !OccursAt("iVBORw0K", Base64Marker, k) {
        if k == 0 {
          assert "iVBORw0K"[0] != Base64Marker[0];
        }
      }
    }
    MatchDataUrlRoundTrip("image/png", "iVBORw0K");
  }

  // ---------------------------------------------------------------------------
  // The request
  // ---------------------------------------------------------------------------

  /** One part of a multi-part request. */
  datatype Part = TextPart(text: string) | InlineData(mimeType: string, data: string)

  /** `contents`: plain text, or `{ parts: [...] }`. */
  datatype Contents = PlainText(text: string) | Parts(parts: seq<Part>)

  datatype SchemaType = StringType | ObjectType

  datatype Property = Property(name: string, kind: SchemaType, description: string)

  /** The structured-output schema sent with the request. */
  datatype Schema = Schema(kind: SchemaType, properties: seq<Property>, required: seq<string>)

  /** The request body (the system instruction, which embeds the clock, is left out). */
  datatype Request = Request(model: string, contents: Contents, responseMimeType: string, responseSchema: Schema)

  /** What the model call produced: a reply whose `text` may be undefined, or a thrown error. */
  datatype Reply = Replied(text: Option<string>) | Threw(message: string)

  const ModelName: string := "gemini-2.5-flash"
  const JsonMimeType: string := "application/json"
  const DefaultImagePrompt: string := "Extract event details from this image."

  const ResponseSchema: Schema := Schema(ObjectType, [
    Property("title", StringType, "A concise title for the event"),
    Property("startDate", StringType, "Start date and time in ISO 8601 format"),
    Property("endDate", StringType, "End date and time in ISO 8601 format"),
    Property("location", StringType, "Physical location or URL"),
    Property("description", StringType, "Any additional details, agenda, or context found in the text")
  ], ["title", "startDate", "endDate"])

  function PropertyNames(props: seq<Property>): seq<string>
  {
    if props == [] then [] else [props[0].name] + PropertyNames(props[1..])
  }

  /**
   * The schema is an object of five string properties named after the five event fields,
   * in record order.
   */
  lemma ResponseSchemaProperties()
    ensures ResponseSchema.kind == ObjectType
    ensures forall p :: p in ResponseSchema.properties ==> p.kind == StringType
    ensures PropertyNames(ResponseSchema.properties) ==
      [FieldName(Title), FieldName(StartDate), FieldName(EndDate), FieldName(Location), FieldName(Description)]
  {
    var props := ResponseSchema.properties;
    assert PropertyNames(props[4..]) == ["description"];
    assert PropertyNames(props[3..]) == ["location", "description"];
    assert PropertyNames(props[2..]) == ["endDate", "location", "description"];
    assert PropertyNames(props[1..]) == ["startDate", "endDate", "location", "description"];
  }

  /** Exactly the title and the two dates are required; location and description may be absent. */
  lemma ResponseSchemaRequired(f: Field)
    ensures FieldName(f) in ResponseSchema.required <==> f == Title || f == StartDate || f == EndDate
  {
    var req := ResponseSchema.required;
    assert req == ["title", "startDate", "endDate"];
    match f
    case Location =>
      FieldNamesDistinct(Location, Title);
      FieldNamesDistinct(Location, StartDate);
      FieldNamesDistinct(Location, EndDate);
    case Description =>
      FieldNamesDistinct(Description, Title);
      FieldNamesDistinct(Description, StartDate);
      FieldNamesDistinct(Description, EndDate);
    case _ =>
  }

  /** A JavaScript string or nullable string used in a condition: present and non-empty. */
  predicate Truthy(o: Option<string>)
  {
    o.Some? && o.value != ""
  }

  /**
   * The contents the request carries: the text alone, unless the image is a data URL the
   * pattern matches, in which case a text part (the text, or a default prompt when the
   * text is empty) followed by the image's media type and payload.
   */
  function RequestContents(text: string, imageDataUrl: Option<string>): Contents
  {
    if Truthy(imageDataUrl) then
      match MatchDataUrl(imageDataUrl.value)
      case Some((mime, data)) => Parts([TextPart(if text != "" then text else DefaultImagePrompt), InlineData(mime, data)])
      case None => PlainText(text)
    else PlainText(text)
  }

  /**
   * An image is attached exactly when a non-empty data URL matches; the inline part then
   * reassembles that data URL, and the text part is the user's text or, only when that
   * is empty, the default prompt — never empty.
   */
  lemma RequestContentsShape(text: string, imageDataUrl: Option<string>)
    ensures RequestContents(text, imageDataUrl).Parts? <==>
      imageDataUrl.Some? && MatchDataUrl(imageDataUrl.value).Some?
    ensures RequestContents(text, imageDataUrl).PlainText? ==> RequestContents(text, imageDataUrl).text == text
    ensures RequestContents(text, imageDataUrl).Parts? ==>
      var ps := RequestContents(text, imageDataUrl).parts;
      |ps| == 2 && ps[0].TextPart? && ps[1].InlineData? &&
      imageDataUrl == Some(DataPrefix + ps[1].mimeType + Base64Marker + ps[1].data) &&
      ps[0].text != "" && (text != "" ==> ps[0].text == text) &&
      (text == "" ==> ps[0].text == DefaultImagePrompt)
  {
    if imageDataUrl.Some? && MatchDataUrl(imageDataUrl.value).Some? {
      assert imageDataUrl.value != "";
    }
  }

  /** The request for one extraction. */
  function RequestFor(text: string, imageDataUrl: Option<string>): Request
  {
    Request(ModelName, RequestContents(text, imageDataUrl), JsonMimeType, ResponseSchema)
  }

  // ---------------------------------------------------------------------------
  // Extraction
  // ---------------------------------------------------------------------------

  /** The errors `extractEventDetails` raises; a failure of the model call passes through. */
  datatype ExtractError = ApiKeyMissing | NoResponse | ParseFailed | ServiceFailed(message: string)

  function ErrorMessage(e: ExtractError): string
  {
    match e
    case ApiKeyMissing => "API Key is missing"
    case NoResponse => "No response from AI"
    case ParseFailed => "Failed to parse event details"
    case ServiceFailed(m) => m
  }

  /** The three errors of the service itself carry three different messages. */
  lemma ErrorMessagesDistinct(a: ExtractError, b: ExtractError)
    requires !a.ServiceFailed? && !b.ServiceFailed? && a != b
    ensures ErrorMessage(a) != ErrorMessage(b)
  {
  }

  /** The reply carries a non-empty `text`. */
  predicate HasText(reply: Reply)
  {
    reply.Replied? && Truthy(reply.text)
  }

  /** Extraction yields a value: a key, a non-empty reply, and a reply that is JSON. */
  predicate Succeeds<J>(apiKey: Option<string>, text: string, imageDataUrl: Option<string>,
                        generate: Request -> Reply, parseJson: string -> Option<J>)
  {
    var reply := generate(RequestFor(text, imageDataUrl));
    Truthy(apiKey) && HasText(reply) && parseJson(reply.text.value).Some?
  }

  /**
   * `extractEventDetails(text, imageDataUrl)` with the API key, the model call `generate`
   * and `JSON.parse` as parameters.  `sent` is the request made, if any.  Without a key
   * nothing is sent; otherwise exactly one request, `RequestFor(text, imageDataUrl)`, is
   * sent, and the outcome is the thrown error, "no response" for an undefined or empty
   * reply, "parse failed" when the reply is not JSON, and the parsed value otherwise
   * (the value is not checked against the schema).
   */
  method ExtractEventDetails<J>(apiKey: Option<string>, text: string, imageDataUrl: Option<string>,
                                generate: Request -> Reply, parseJson: string -> Option<J>)
    returns (r: Result<J, ExtractError>, sent: Option<Request>)
    ensures !Truthy(apiKey) ==> sent == None && r == Failure(ApiKeyMissing)
    ensures Truthy(apiKey) ==> sent == Some(RequestFor(text, imageDataUrl))
    ensures Truthy(apiKey) ==>
      var reply := generate(RequestFor(text, imageDataUrl));
      && (reply.Threw? ==> r == Failure(ServiceFailed(reply.message)))
      && (reply.Replied? && !Truthy(reply.text) ==> r == Failure(NoResponse))
      && (HasText(reply) && parseJson(reply.text.value).None? ==> r == Failure(ParseFailed))
      && (HasText(reply) && parseJson(reply.text.value).Some? ==> r == Success(parseJson(reply.text.value).value))
    ensures r.Success? <==> Succeeds(apiKey, text, imageDataUrl, generate, parseJson)
  {
    if !Truthy(apiKey) {
      return Failure(ApiKeyMissing), None;
    }
    var contents := PlainText(text);
    if Truthy(imageDataUrl) {
      var matches := MatchDataUrl(imageDataUrl.value);
      if matches.Some? {
        var mimeType := matches.value.0;
        var data := matches.value.1;
        contents := Parts([TextPart(if text != "" then text else DefaultImagePrompt), InlineData(mimeType, data)]);
      }
    }
    var request := Request(ModelName, contents, JsonMimeType, ResponseSchema);
    sent := Some(request);
    var response := generate(request);
    if response.Threw? {
      return Failure(ServiceFailed(response.message)), sent;
    }
    var jsonText := response.text;
    if !Truthy(jsonText) {
      return Failure(NoResponse), sent;
    }
    var data := parseJson(jsonText.value);
    if data.None? {
      return Failure(ParseFailed), sent;
    }
    return Success(data.value), sent;
  }
}
