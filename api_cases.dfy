/** Requests run through the handler, end to end with the cleaner where a transcript is involved. */
module ApiCases {
  import opened Wrappers
  import opened Text
  import opened Api
  import Extractor
  import CleanerCases

  const ShortUrl := "https://youtu.be/" + "abc"
  const SubtitlePath := "abc.en.vtt"

  /** A URL on another host is refused before anything is downloaded. */
  lemma OtherHostRejected(extract: string -> Option<string>)
    ensures GetTranscript(Object(map["url" := JString("https://example.com/watch")]), extract)
            == Response(400, JsonType, ErrorJson(InvalidUrlMessage))
  {
    var url := "https://example.com/watch";
    assert url[8] != "https://www.youtube.com/"[8];
    assert url[8] != "https://youtu.be/"[8];
  }

  /** A `url` that is a number makes the handler fail with a server error. */
  lemma NonStringUrlFails(extract: string -> Option<string>)
    ensures GetTranscript(Object(map["url" := JOther]), extract).status == 500
  {
  }

  /** A short link whose subtitle file is the worked example yields its text. */
  lemma WorkedExampleServed()
    ensures
      var files := map[SubtitlePath := Join(["WEBVTT", "1", CleanerCases.Timing, CleanerCases.WordTimed], "\n")];
      GetTranscript(Object(map["url" := JString(ShortUrl)]), u => Extractor.Extracted([SubtitlePath], files))
      == Response(200, TextType, PlainText("Hello world"))
  {
    CleanerCases.WorkedExample();
    assert ShortUrl[..|"https://youtu.be/"|] == "https://youtu.be/";
  }

  /** A subtitle file whose only line is a tag cleans to `""`, which the handler reports as a 404. */
  lemma TagOnlySubtitlesNotFound()
    ensures
      var files := map[SubtitlePath := "<c>"];
      GetTranscript(Object(map["url" := JString(ShortUrl)]), u => Extractor.Extracted([SubtitlePath], files))
      == Response(404, JsonType, FailureJson(false, NoTranscriptMessage))
  {
    CleanerCases.TagOnlyFile();
    assert ShortUrl[..|"https://youtu.be/"|] == "https://youtu.be/";
  }

  /** No subtitle file at all is a 404 as well. */
  lemma NoSubtitlesNotFound()
    ensures GetTranscript(Object(map["url" := JString(ShortUrl)]), u => Extractor.Extracted([], map[]))
            == Response(404, JsonType, FailureJson(false, NoTranscriptMessage))
  {
    assert ShortUrl[..|"https://youtu.be/"|] == "https://youtu.be/";
  }
}
