/**
 * The `POST /api/transcript` handler `get_transcript` (app.py:64-89): it
 * checks the parsed JSON body, validates the URL by its prefix, asks the
 * extractor for a transcript and maps the outcome to a response.
 */
module Api {
  import opened Wrappers
  import opened Text

  /** A JSON value held under `url`: a string, or anything else. */
  datatype Json = JString(s: string) | JOther

  /** What `request.get_json()` returned: nothing (`None` or JSON `null`), or an object. */
  datatype Body = NoBody | Object(fields: map<string, Json>)

  /** The payload sent back. */
  datatype Payload =
    | ErrorJson(error: string)                  // {'error': ...}
    | FailureJson(success: bool, error: string) // {'success': False, 'error': ...}
    | PlainText(text: string)                   // the transcript itself
    | InternalError                             // Flask's page for an unhandled exception

  datatype Response = Response(status: int, mimetype: string, payload: Payload)

  const JsonType := "application/json"
  const TextType := "text/plain"
  const HtmlType := "text/html"

  const MissingUrlMessage := "Please provide a YouTube URL in the request body"
  const InvalidUrlMessage := "Invalid YouTube URL"
  const NoTranscriptMessage := "Failed to get transcript. The video might not have auto-generated captions."

  /** The basic URL check of app.py:78: one of two fixed prefixes. */
  predicate IsYouTubeUrl(url: string) {
    StartsWith(url, "https://www.youtube.com/") || StartsWith(url, "https://youtu.be/")
  }

  /** The URL the handler goes on with, or the response it returns early (app.py:72-79). */
  function Validate(body: Body): Result<string, Response> {
    if body.NoBody? || "url" !in body.fields then
      Failure(Response(400, JsonType, ErrorJson(MissingUrlMessage)))
    else
      match body.fields["url"]
      case JOther =>
        // `video_url.startswith` on a non-string raises, and Flask answers 500.
        Failure(Response(500, HtmlType, InternalError))
      case JString(url) =>
        if !IsYouTubeUrl(url) then Failure(Response(400, JsonType, ErrorJson(InvalidUrlMessage)))
        else Success(url)
  }

  /** The response for the extractor's answer: only a non-empty transcript is a success (app.py:83-89). */
  function Respond(transcript: Option<string>): (resp: Response)
    ensures resp.status == 200 <==> transcript.Some? && transcript.value != []
    ensures resp.status == 200 ==> resp == Response(200, TextType, PlainText(transcript.value))
    ensures resp.status != 200 ==> resp == Response(404, JsonType, FailureJson(false, NoTranscriptMessage))
  {
    match transcript
    case Some(text) =>
      if text != [] then Response(200, TextType, PlainText(text))
      else Response(404, JsonType, FailureJson(false, NoTranscriptMessage))
    case None => Response(404, JsonType, FailureJson(false, NoTranscriptMessage))
  }

  /**
   * The handler, given the extractor as a function of the URL. Its outcomes:
   * 400 for a missing body or `url`, 500 for a non-string `url`, 400 for a
   * URL with neither prefix, and otherwise 200 or 404 as the extractor's
   * answer for that URL is a non-empty transcript or not.
   */
  function GetTranscript(body: Body, extract: string -> Option<string>): (resp: Response)
    ensures (body.NoBody? || "url" !in body.fields) ==>
      resp == Response(400, JsonType, ErrorJson(MissingUrlMessage))
    ensures body.Object? && "url" in body.fields && body.fields["url"].JOther? ==>
      resp.status == 500
    ensures body.Object? && "url" in body.fields && body.fields["url"].JString? ==>
      var url := body.fields["url"].s;
      && (!IsYouTubeUrl(url) ==> resp == Response(400, JsonType, ErrorJson(InvalidUrlMessage)))
      && (IsYouTubeUrl(url) ==> resp == Respond(extract(url)))
    ensures resp.status == 200 <==>
      exists url :: Validate(body) == Success(url) && extract(url).Some? && extract(url).value != []
  {
    match Validate(body)
    case Failure(early) => early
    case Success(url) => Respond(extract(url))
  }

  /** A rejected request never reaches the extractor: its answer cannot change the response. */
  lemma RejectedWithoutExtracting(body: Body, extract: string -> Option<string>, other: string -> Option<string>)
    requires Validate(body).Failure?
    ensures GetTranscript(body, extract) == GetTranscript(body, other) == Validate(body).error
    ensures GetTranscript(body, extract).status in {400, 500}
  {
  }

  /** An accepted request consults the extractor for its own URL and nothing else. */
  lemma AcceptedExtractsUrl(body: Body, extract: string -> Option<string>, other: string -> Option<string>)
    requires Validate(body).Success?
    requires extract(Validate(body).value) == other(Validate(body).value)
    ensures GetTranscript(body, extract) == GetTranscript(body, other)
    ensures GetTranscript(body, extract).status in {200, 404}
  {
  }

  /** An empty object is rejected like a missing body (`not data`). */
  lemma EmptyObjectRejected(extract: string -> Option<string>)
    ensures GetTranscript(Object(map[]), extract) == Response(400, JsonType, ErrorJson(MissingUrlMessage))
  {
  }
}
