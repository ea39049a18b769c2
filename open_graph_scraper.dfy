/**
 The entry gate of lib/openGraphScraper.ts: default the options, refuse a missing html and
 invalid custom meta tags, run the extraction and stamp the result as a success.
 The extraction engine and the custom-tag validator are not part of this model; they come in as
 parameters, so every statement here holds whatever they do.
 */
module OpenGraphScraper {
  import opened JsRuntime
  import opened Utils

  /** The message of the error raised when the html option is missing or empty. */
  const HtmlMissingMessage: string := "Must pass in `html` option."

  /** The message of the error raised when the custom-tag validator refuses the tags. */
  const InvalidCustomMetaTagsMessage: string := "Invalid Custom Meta Tags"

  /** What a successful call returns: `{ ogObject, response: { body }, html }`. */
  datatype OpenGraphResults = OpenGraphResults(ogObject: map<string, Value>, responseBody: string, html: string)

  /** A call either returns its results or raises an error carrying a fixed message. */
  datatype Outcome = Success(results: OpenGraphResults) | Failure(message: string)

  /** `!options.html`: the html option is left out, `undefined`, `null` or the empty string. */
  predicate HtmlMissing(html: Prop<string>)
  {
    !(html.Given? && html.value != "")
  }

  /** `options.customMetaTags ?? []`: a left-out, `undefined` or `null` list reads as empty. */
  function CustomMetaTagsOrEmpty<Tag>(customMetaTags: Prop<seq<Tag>>): seq<Tag>
  {
    if customMetaTags.Given? then customMetaTags.value else []
  }

  /** `ogObject.success = true`: sets the marker and leaves every other field alone. */
  function StampSuccess(ogObject: map<string, Value>): (stamped: map<string, Value>)
    ensures stamped.Keys == ogObject.Keys + {"success"}
    ensures stamped["success"] == Bool(true)
    ensures forall k <- ogObject | k != "success" :: stamped[k] == ogObject[k]
  {
    ogObject["success" := Bool(true)]
  }

  /**
   Defaults the options, then checks, in this order, that html is present and that the custom meta
   tags pass `isCustomMetaTagsValid`; on success runs `extractMetaTags` on the html and the
   defaulted options, marks its result a success and echoes the html back.
   */
  function SetOptionsAndReturnOpenGraphResults<Tag>(
    ogsOptions: Options<Tag>,
    isCustomMetaTagsValid: seq<Tag> -> bool,
    extractMetaTags: (string, Options<Tag>) -> map<string, Value>): (r: Outcome)
    ensures HtmlMissing(ogsOptions.html) ==> r == Failure(HtmlMissingMessage)
    ensures !HtmlMissing(ogsOptions.html) && !isCustomMetaTagsValid(CustomMetaTagsOrEmpty(ogsOptions.customMetaTags))
            ==> r == Failure(InvalidCustomMetaTagsMessage)
    ensures r.Success? <==>
            !HtmlMissing(ogsOptions.html) && isCustomMetaTagsValid(CustomMetaTagsOrEmpty(ogsOptions.customMetaTags))
    ensures r.Success? ==>
              && r.results.html == ogsOptions.html.value
              && r.results.responseBody == ogsOptions.html.value
              && r.results.ogObject == StampSuccess(extractMetaTags(ogsOptions.html.value, OptionSetup(ogsOptions)))
  {
    var options := OptionSetup(ogsOptions);
    if HtmlMissing(options.html) then
      Failure(HtmlMissingMessage)
    else if !isCustomMetaTagsValid(CustomMetaTagsOrEmpty(options.customMetaTags)) then
      Failure(InvalidCustomMetaTagsMessage)
    else
      var ogObject := extractMetaTags(options.html.value, options);
      Success(OpenGraphResults(StampSuccess(ogObject), options.html.value, options.html.value))
  }

  /**
   An empty html is refused with the html message even when the custom tags are invalid too:
   the html check runs first.
   */
  lemma EmptyHtmlIsRefusedFirst<Tag>(
    ogsOptions: Options<Tag>,
    isCustomMetaTagsValid: seq<Tag> -> bool,
    extractMetaTags: (string, Options<Tag>) -> map<string, Value>)
    requires ogsOptions.html == Given("")
    ensures SetOptionsAndReturnOpenGraphResults(ogsOptions, isCustomMetaTagsValid, extractMetaTags)
         == Failure(HtmlMissingMessage)
  {
  }

  /** A refused call never reaches the extraction: any other extraction gives the same error. */
  lemma FailureNeverReachesExtraction<Tag>(
    ogsOptions: Options<Tag>,
    isCustomMetaTagsValid: seq<Tag> -> bool,
    extract1: (string, Options<Tag>) -> map<string, Value>,
    extract2: (string, Options<Tag>) -> map<string, Value>)
    requires SetOptionsAndReturnOpenGraphResults(ogsOptions, isCustomMetaTagsValid, extract1).Failure?
    ensures SetOptionsAndReturnOpenGraphResults(ogsOptions, isCustomMetaTagsValid, extract1)
         == SetOptionsAndReturnOpenGraphResults(ogsOptions, isCustomMetaTagsValid, extract2)
  {
  }

  /**
   Left out, `undefined` and `null` custom tags are all validated as the empty list, so they
   succeed or fail exactly as an explicit `[]` would, and a failure is the very same error.
   */
  lemma AbsentCustomMetaTagsValidateAsEmpty<Tag>(
    ogsOptions: Options<Tag>,
    isCustomMetaTagsValid: seq<Tag> -> bool,
    extractMetaTags: (string, Options<Tag>) -> map<string, Value>)
    requires !ogsOptions.customMetaTags.Given?
    ensures SetOptionsAndReturnOpenGraphResults(ogsOptions, isCustomMetaTagsValid, extractMetaTags).Success?
        <==> SetOptionsAndReturnOpenGraphResults(ogsOptions.(customMetaTags := Given([])), isCustomMetaTagsValid, extractMetaTags).Success?
    ensures SetOptionsAndReturnOpenGraphResults(ogsOptions, isCustomMetaTagsValid, extractMetaTags).Failure? ==>
              (SetOptionsAndReturnOpenGraphResults(ogsOptions, isCustomMetaTagsValid, extractMetaTags)
               == SetOptionsAndReturnOpenGraphResults(ogsOptions.(customMetaTags := Given([])), isCustomMetaTagsValid, extractMetaTags))
  {
  }

  /**
   When the caller leaves `onlyGetOpenGraphInfo` out, the extraction runs with it set to `false`;
   when the caller gives it, with the caller's value.
   */
  lemma ExtractionSeesDefaultedFlag<Tag>(
    ogsOptions: Options<Tag>,
    isCustomMetaTagsValid: seq<Tag> -> bool,
    extractMetaTags: (string, Options<Tag>) -> map<string, Value>)
    requires SetOptionsAndReturnOpenGraphResults(ogsOptions, isCustomMetaTagsValid, extractMetaTags).Success?
    ensures var flag := if ogsOptions.onlyGetOpenGraphInfo.Omitted? then Given(false) else ogsOptions.onlyGetOpenGraphInfo;
            var ogObject := SetOptionsAndReturnOpenGraphResults(ogsOptions, isCustomMetaTagsValid, extractMetaTags).results.ogObject;
            ogObject == StampSuccess(extractMetaTags(ogsOptions.html.value, ogsOptions.(onlyGetOpenGraphInfo := flag)))
  {
    var flag := if ogsOptions.onlyGetOpenGraphInfo.Omitted? then Given(false) else ogsOptions.onlyGetOpenGraphInfo;
    assert OptionSetup(ogsOptions) == ogsOptions.(onlyGetOpenGraphInfo := flag);
  }

  /** Whatever the extraction returns, the results say `success: true` and carry the html unchanged. */
  lemma SuccessIsStampedAndEchoesHtml<Tag>(
    ogsOptions: Options<Tag>,
    isCustomMetaTagsValid: seq<Tag> -> bool,
    extractMetaTags: (string, Options<Tag>) -> map<string, Value>)
    requires SetOptionsAndReturnOpenGraphResults(ogsOptions, isCustomMetaTagsValid, extractMetaTags).Success?
    ensures var results := SetOptionsAndReturnOpenGraphResults(ogsOptions, isCustomMetaTagsValid, extractMetaTags).results;
            && "success" in results.ogObject
            && results.ogObject["success"] == Bool(true)
            && results.html == results.responseBody
            && Given(results.html) == ogsOptions.html
  {
  }
}
