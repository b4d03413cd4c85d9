/**
 * The top-level session: the pasted text, the selected image, whether an extraction is
 * under way, the extracted event and the error shown.  `handleProcess` is split at its
 * `await` into a start and a completion step, and also given whole.
 */
module App {
  import opened Wrappers
  import opened Strings
  import opened Types
  import opened GeminiService

  const ExtractFailedMessage: string := "Failed to extract event details. Please try again or check your API key."

  /** `hasContent` of the input section: text that is not all white space, or an image. */
  predicate HasContent(value: string, image: Option<string>)
  {
    |Trim(value)| > 0 || Truthy(image)
  }

  /** `!inputText.trim() && !selectedImage`: the early return of `handleProcess`. */
  predicate NothingToProcess(inputText: string, selectedImage: Option<string>)
  {
    Trim(inputText) == "" && !Truthy(selectedImage)
  }

  /**
   * `handleProcess` returns early exactly when `hasContent` is false, that is when the text
   * is all white space (or empty) and there is no non-empty image.  The Submit button is
   * also disabled while a request is loading; the guard does not look at that.
   */
  lemma NothingToProcessIff(inputText: string, selectedImage: Option<string>)
    ensures NothingToProcess(inputText, selectedImage) <==> !HasContent(inputText, selectedImage)
    ensures NothingToProcess(inputText, selectedImage) <==>
      (forall k :: 0 <= k < |inputText| ==> IsJsWhitespace(inputText[k])) &&
      (selectedImage == None || selectedImage == Some(""))
  {
    TrimEmpty(inputText);
  }

  class Session {
    var inputText: string
    var selectedImage: Option<string>
    var isProcessing: bool
    var eventData: Option<CalendarEvent>
    var error: Option<string>

    /** An extracted event and an error are never shown together. */
    predicate Consistent()
      reads this
    {
      !(eventData.Some? && error.Some?)
    }

    /** The initial state of the five `useState` hooks. */
    constructor()
      ensures inputText == "" && selectedImage == None && !isProcessing
      ensures eventData == None && error == None
      ensures Consistent()
    {
      inputText := "";
      selectedImage := None;
      isProcessing := false;
      eventData := None;
      error := None;
    }

    /** The text area's `onChange`. */
    method SetInputText(value: string)
      modifies this
      ensures inputText == value
      ensures selectedImage == old(selectedImage) && isProcessing == old(isProcessing)
      ensures eventData == old(eventData) && error == old(error)
    {
      inputText := value;
    }

    /** An image chosen, pasted or dropped (a data URL), or the image cleared. */
    method SetSelectedImage(image: Option<string>)
      modifies this
      ensures selectedImage == image
      ensures inputText == old(inputText) && isProcessing == old(isProcessing)
      ensures eventData == old(eventData) && error == old(error)
    {
      selectedImage := image;
    }

    /**
     * `handleProcess` up to its `await`: nothing changes when there is nothing to process;
     * otherwise processing starts with the previous event and error cleared.  The guard
     * does not look at `isProcessing`.
     */
    method StartProcess() returns (started: bool)
      modifies this
      ensures started <==> !NothingToProcess(old(inputText), old(selectedImage))
      ensures inputText == old(inputText) && selectedImage == old(selectedImage)
      ensures !started ==> isProcessing == old(isProcessing) && eventData == old(eventData) && error == old(error)
      ensures started ==> isProcessing && eventData == None && error == None
    {
      if NothingToProcess(inputText, selectedImage) {
        return false;
      }
      isProcessing := true;
      error := None;
      eventData := None;
      return true;
    }

    /**
     * `handleProcess` after its `await`: the parsed reply is stored as it is (a JSON `null`,
     * `None`, leaves no event), any failure is shown as the one fixed message, and
     * processing ends either way.
     */
    method FinishProcess(outcome: Result<Option<CalendarEvent>, ExtractError>)
      modifies this
      ensures outcome.Success? ==> eventData == outcome.value && error == old(error)
      ensures outcome.Failure? ==> error == Some(ExtractFailedMessage) && eventData == old(eventData)
      ensures !isProcessing
      ensures inputText == old(inputText) && selectedImage == old(selectedImage)
    {
      if outcome.Success? {
        eventData := outcome.value;
      } else {
        error := Some(ExtractFailedMessage);
      }
      isProcessing := false;
    }

    /**
     * The whole of `handleProcess`, with the extraction's dependencies as parameters and
     * nothing else happening during the `await`.  `parseJson` is `JSON.parse` on the
     * replies it reads as an event record (`Some(Some(e))`) or as `null` (`Some(None)`).
     * The text and the image are never changed.  When it runs, processing ends; the fixed
     * error is shown exactly when extraction fails; otherwise the parsed reply is stored,
     * so a `null` reply shows neither an event nor an error.
     */
    method HandleProcess(apiKey: Option<string>, generate: Request -> Reply,
                         parseJson: string -> Option<Option<CalendarEvent>>)
      returns (sent: Option<Request>)
      modifies this
      ensures inputText == old(inputText) && selectedImage == old(selectedImage)
      ensures NothingToProcess(old(inputText), old(selectedImage)) ==>
        sent == None && isProcessing == old(isProcessing) &&
        eventData == old(eventData) && error == old(error)
      ensures !NothingToProcess(old(inputText), old(selectedImage)) ==>
        !isProcessing && Consistent() &&
        error == (if Succeeds(apiKey, inputText, selectedImage, generate, parseJson)
                  then None else Some(ExtractFailedMessage))
      ensures !NothingToProcess(old(inputText), old(selectedImage)) ==>
        eventData == (if Succeeds(apiKey, inputText, selectedImage, generate, parseJson)
                      then parseJson(generate(RequestFor(inputText, selectedImage)).text.value).value
                      else None)
      ensures !NothingToProcess(old(inputText), old(selectedImage)) ==>
        ((eventData == None && error == None) <==>
         Succeeds(apiKey, inputText, selectedImage, generate, parseJson) &&
         parseJson(generate(RequestFor(inputText, selectedImage)).text.value) == Some(None))
      ensures !NothingToProcess(old(inputText), old(selectedImage)) ==>
        sent == (if Truthy(apiKey) then Some(RequestFor(inputText, selectedImage)) else None)
      ensures old(Consistent()) ==> Consistent()
    {
      var started := StartProcess();
      if !started {
        return None;
      }
      var result;
      result, sent := ExtractEventDetails(apiKey, inputText, selectedImage, generate, parseJson);
      FinishProcess(result);
    }

    /** `handleReset`: back to an empty input; `isProcessing` is left as it was. */
    method HandleReset()
      modifies this
      ensures eventData == None && inputText == "" && selectedImage == None && error == None
      ensures isProcessing == old(isProcessing)
      ensures Consistent()
      ensures NothingToProcess(inputText, selectedImage)
    {
      eventData := None;
      inputText := "";
      selectedImage := None;
      error := None;
    }
  }
}
