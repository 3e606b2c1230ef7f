/**
 * `get_transcript_with_yt_dlp` once yt-dlp has run (app.py:35-62): the
 * subtitle file is chosen from the `.vtt` files in the temporary directory,
 * read, and cleaned. The directory listing and the readable files are
 * inputs: `vttFiles` is what `glob` returned, in its order, and `files`
 * maps each path that can be read as UTF-8 to its text.
 */
module Extractor {
  import opened Wrappers
  import Vtt

  /** The subtitle file used: the first path of the listing, if there is one (app.py:36-39). */
  function SelectVtt(vttFiles: seq<string>): (r: Option<string>)
    ensures r == None <==> vttFiles == []
    ensures r.Some? ==> r.value in vttFiles && r.value == vttFiles[0]
  {
    if vttFiles == [] then None else Some(vttFiles[0])
  }

  /**
   * The extractor's answer: `None` when no subtitle file was written, when
   * the chosen one cannot be read (the catch-all `except`), or when the
   * cleaner finds no text; otherwise the cleaned transcript.
   */
  function Extracted(vttFiles: seq<string>, files: map<string, string>): Option<string> {
    match SelectVtt(vttFiles)
    case None => None
    case Some(path) => if path in files then Vtt.Cleaned(files[path]) else None
  }

  /** The steps of app.py:35-59 in order: select, read, clean. */
  method GetTranscriptWithYtDlp(vttFiles: seq<string>, files: map<string, string>) returns (r: Option<string>)
    ensures r == Extracted(vttFiles, files)
  {
    var path := SelectVtt(vttFiles);
    if path == None {
      return None;
    }
    if path.value !in files {
      return None;
    }
    var content := files[path.value];
    r := Vtt.Clean(content);
  }

  /** Only the first subtitle file matters: the rest of the listing is never read. */
  lemma ExtractedIgnoresRest(path: string, rest: seq<string>, files: map<string, string>)
    ensures SelectVtt([path] + rest) == Some(path)
    ensures Extracted([path] + rest, files) == Extracted([path], files)
  {
  }

  /** Nor are the other files' contents. */
  lemma ExtractedReadsOnlyFirst(vttFiles: seq<string>, files: map<string, string>, other: map<string, string>)
    requires vttFiles != [] ==> (vttFiles[0] in files <==> vttFiles[0] in other)
    requires vttFiles != [] && vttFiles[0] in files ==> files[vttFiles[0]] == other[vttFiles[0]]
    ensures Extracted(vttFiles, files) == Extracted(vttFiles, other)
  {
  }

  /**
   * The extractor has no transcript exactly when there is no subtitle file,
   * the first one cannot be read, or every line of it is dropped.
   */
  lemma ExtractedNoneIff(vttFiles: seq<string>, files: map<string, string>)
    ensures Extracted(vttFiles, files) == None <==>
      || vttFiles == []
      || vttFiles[0] !in files
      || forall i :: 0 <= i < |Vtt.Lines(files[vttFiles[0]])| ==> Vtt.Dropped(Vtt.Lines(files[vttFiles[0]])[i])
  {
    if vttFiles != [] && vttFiles[0] in files {
      Vtt.CleanedNoneIff(files[vttFiles[0]]);
    }
  }
}
