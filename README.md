# yt-dlp transcript app: a verified model of its core

The app is a small Flask service. It answers `POST /api/transcript` with
the plain-text transcript of a YouTube video. It runs `yt-dlp` to fetch the
video's auto-generated WebVTT subtitles, then turns the subtitle file into
one line of text. This project models the three pieces of `app.py` that
hold logic, and proves what they do:

- **The caption cleaner** (app.py:42-59), in `vtt.dfy`. It strips the
  file's text and splits it on `\n`. It drops blank lines, cue-timing lines
  (those containing `-->`), numeric cue identifiers, and header lines that
  start with `WEBVTT`, `Kind:` or `Language:`. It removes inline tags such
  as `<00:00:01.500>` and `<c>` from each remaining line, trims it, and
  joins the survivors with single spaces. When no line survives the result
  is `None`.
  - `Vtt.Clean` is the loop, with its `continue` filters.
  - It is proved equal to the functional specification `Vtt.Cleaned`.
  - The properties of the cleaner are lemmas about `Vtt.Cleaned`.
- **Tag removal** (app.py:54), in `tags.dfy`. `re.sub(r'<[^>]+>', '', line)`
  is specified as the left-to-right scan `Tags.StripTags`.
  - At a `<` whose next `>` lies more than one character further on, the
    scan drops everything up to and including that `>`. Otherwise it keeps
    the character.
  - `Tags.RemoveTags` is the scan as a loop, proved equal to `StripTags`.
- **Subtitle selection** (app.py:35-41), in `extractor.dfy`. The directory
  listing and the readable files are inputs. Selection takes the first
  `.vtt` path, reads it and cleans it.
- **The request handler** `get_transcript` (app.py:70-89), in `api.dfy`.
  It is a pure function from the parsed JSON body and the extractor to the
  response: status, MIME type and payload.

`text.dfy` holds the Python string operations these rely on: `strip`,
`split`, `join`, `startswith`, substring `in` and `isdigit`. `seqs.dfy`
holds two general sequence facts. `cases.dfy` and `api_cases.dfy` prove
concrete inputs. Among them is a worked example, a subtitle file of four
lines:

```
WEBVTT
1
00:00:01.000 --> 00:00:02.000
Hello<00:00:01.500><c> world
```

It cleans to exactly `Hello world`.

Some facts about `app.py` that the model keeps:

- A failed extraction is answered with 404 and `success: false`
  (app.py:86-89). No other status is used when extraction fails.
- A URL is accepted when it starts with `https://www.youtube.com/` or
  `https://youtu.be/` (app.py:78). Nothing else about the URL is checked.
- The extractor runs `yt-dlp` once (app.py:31). There is no retry loop,
  backoff or cookie file.
- The cleaner is not idempotent on its own output.
  - `CleanerCases.CleaningTwiceDiffers` proves this: `-<x>->` cleans to
    `-->`, which a second pass drops.
  - `CleanerCases.CleaningTwiceDropsNumber` proves it a second way: `1<x>`
    cleans to `1`, which a second pass drops as a cue number.

## Model

| member | source | states |
|---|---|---|
| Text.IsSpace | app.py:42 | the characters `str.strip()` removes: the ASCII characters for which `isspace()` holds |
| Text.IsDigit | app.py:49 | the characters `str.isdigit()` accepts, restricted to ASCII |
| Text.TrimStart | app.py:42 | `str.lstrip()`: drops leading whitespace one character at a time |
| Text.TrimEnd | app.py:42 | `str.rstrip()`: drops trailing whitespace one character at a time |
| Text.Strip | app.py:42 | `str.strip()`: `lstrip` then `rstrip` |
| Text.StartsWith | app.py:51 | `s.startswith(prefix)`: the text begins with the prefix |
| Text.OccursAt | app.py:47 | `sub` occurs in `s` at a given index |
| Text.Contains | app.py:47 | `sub in s`: `sub` occurs at some index |
| Text.IsAllDigits | app.py:49 | `s.isdigit()`: non-empty and digits only |
| Text.Join | app.py:59 | `sep.join(parts)`: the empty string for no parts, otherwise the parts with `sep` between neighbours |
| Tags.IsTag | app.py:54 | the text is exactly one match of `<[^>]+>`: `<`, one or more characters other than `>`, then `>` |
| Tags.TagAt | app.py:54 | `<[^>]+>` matches at index `i`: `<`, a character other than `>`, and a `>` later on |
| Tags.NoTags | app.py:54 | no match of `<[^>]+>` starts anywhere in the text |
| Tags.StripTags | app.py:54 | `re.sub(r'<[^>]+>', '', line)` as a left-to-right scan: at a `<` whose next `>` lies more than one character on, the match is deleted; otherwise the character is kept |
| Vtt.Lines | app.py:42 | `vtt_content.strip().split('\n')` |
| Vtt.Dropped | app.py:44-52 | the four `continue` tests in order: blank after `strip`, contains `-->`, all digits after `strip`, or the raw line starts with `WEBVTT`, `Kind:` or `Language:` |
| Vtt.CleanLine | app.py:54-55 | what a surviving line adds: tags removed, then stripped |
| Vtt.Kept | app.py:44-55 | one iteration of the loop: nothing for a dropped line, else its cleaned form |
| Vtt.Survivors | app.py:43-55 | the list `transcript_lines` once the loop has seen the given lines |
| Vtt.Transcript | app.py:56-59 | `None` when `transcript_lines` is empty, else the lines joined by single spaces |
| Vtt.Cleaned | app.py:42-59 | the cleaner's result for the text of a subtitle file |
| Vtt.Tidy | app.py:54-55 | an emitted line: no tag left and no whitespace at either end |
| Extractor.Extracted | app.py:35-62 | `None` when the listing is empty or its first file cannot be read; otherwise the cleaner's result for that file |
| Api.IsYouTubeUrl | app.py:78 | the URL starts with `https://www.youtube.com/` or `https://youtu.be/` |
| Api.Validate | app.py:72-79 | 400 with the missing-URL message for no body, an empty object or no `url`; 500 for a non-string `url`; 400 with `Invalid YouTube URL` for a URL with neither prefix; otherwise the URL goes on |
| Text.TrimStartSpec | app.py:42 | `lstrip` keeps a suffix; everything it drops is whitespace; what it keeps does not start with whitespace |
| Text.TrimEndSpec | app.py:42 | `rstrip` keeps a prefix; everything it drops is whitespace; what it keeps does not end with whitespace |
| Text.StripShape | app.py:45 | `line.strip()` is empty exactly when the line is all whitespace; otherwise both its ends are non-whitespace |
| Text.StripTrimmed | app.py:55 | text with non-whitespace ends is left unchanged by `strip` |
| Text.StripIndented | app.py:55 | `strip` removes exactly the whitespace put in front of trimmed text |
| Text.ContainsFirst | app.py:47 | `sub in s` is false when the first character of `sub` does not occur in `s` |
| Text.Split | app.py:42 | `split('\n')` returns at least one piece, and no piece contains the separator |
| Text.JoinSplit | app.py:42 | joining the pieces of `split(sep)` with `sep` gives back the text |
| Text.SplitPrefix | app.py:42 | the first piece of a split is the text up to the first separator |
| Text.SplitFirst | app.py:42 | a separator-free first piece followed by the separator is split off as it is |
| Text.SplitNone | app.py:42 | text without the separator splits into a single piece, itself |
| Text.SplitJoin | app.py:42 | splitting a join of separator-free pieces gives back the pieces |
| Text.JoinTwo | app.py:59 | two parts are joined with the separator between them |
| Text.JoinEnds | app.py:59 | a join starts with its first part and ends with its last |
| Text.JoinAppend | app.py:59 | joining two non-empty lists puts exactly one separator between their joins |
| Tags.NextClose | app.py:54 | the first `>` at or after a position, or the end of the line when there is none |
| Tags.NextCloseUnique | app.py:54 | any index that is the first `>` from a position is the one `NextClose` finds |
| Tags.StripTagsAt | app.py:54 | one step of the substitution from index `i`: a tag is deleted whole, and any other character is kept |
| Tags.FindClose | app.py:54 | the search loop for a tag's closing `>` finds `NextClose` |
| Tags.RemoveTags | app.py:54 | the scanning loop computes exactly the substitution `StripTags` |
| Tags.StripTagsAbsent | app.py:54 | the substitution introduces no new character: a character missing from the line is missing from the result |
| Tags.StripTagsDeletes | app.py:54 | the substitution only deletes: the result is a subsequence of the line, its characters in their original order |
| Tags.StripTagsPlain | app.py:54 | text before the first `<` is copied through unchanged |
| Tags.StripTagsTag | app.py:54 | a `<`, one or more non-`>` characters and a `>` at the front are deleted as a whole |
| Tags.TwoTagsBetweenText | app.py:53-54 | two adjacent tags between text that contains no `<` vanish, as on a word-timed caption line |
| Tags.TagAtShift | app.py:54 | a match after the first character is a match of the rest, one index earlier |
| Tags.StripTagsNoTags | app.py:53-54 | no match of `<[^>]+>` is left in the result |
| Tags.TagAtStart | app.py:54 | a `<` whose next `>` lies more than one character on starts a match |
| Tags.StripTagsFixesTagFree | app.py:54 | a line with no match, including one holding `<>`, passes through unchanged |
| Tags.TagAtSlice | app.py:54 | a match in a slice of a line is a match in the line |
| Tags.NoTagsSlice | app.py:54-55 | cutting a tag-free line on both sides creates no match |
| Vtt.Clean | app.py:42-59 | the filtering loop returns exactly `Cleaned(content)` |
| Vtt.SurvivorsAppend | app.py:43-55 | lines are filtered one by one: the survivors of `a + b` are those of `a` followed by those of `b`, in order, with no merging or deduplication |
| Vtt.SurvivorsOne | app.py:44-55 | a single line contributes nothing when one of the four tests drops it, and otherwise its tag-free, trimmed form |
| Vtt.SurvivorsEmptyIff | app.py:56-58 | nothing survives exactly when every line is dropped |
| Vtt.StripKeepsNoTags | app.py:55 | trimming a tag-free line creates no tag |
| Vtt.CleanLineTidy | app.py:54-55 | every cleaned line has no tag left and no whitespace at either end |
| Vtt.SurvivorsTidy | app.py:43-55 | every entry of `transcript_lines` is tag-free and trimmed |
| Vtt.CleanedNoneIff | app.py:42-58 | the cleaner returns `None` exactly when every line of the stripped file is dropped |
| Vtt.TranscriptAppend | app.py:56-59 | two runs of lines that both leave text give their transcripts joined by exactly one space; a run that leaves nothing adds nothing |
| Vtt.SurvivorsSkipDropped | app.py:44-52 | dropped lines in front contribute nothing |
| Vtt.SurvivorsOfCue | app.py:44-55 | header, cue number and timing line are dropped, and the text line is cleaned |
| Vtt.SurvivorsCons | app.py:43-55 | a line put in front adds its contribution in front |
| Vtt.LinesOfJoin | app.py:42 | a file made of newline-free lines, with non-whitespace first and last characters, is read back as exactly those lines |
| CleanerCases.WorkedExampleLines | app.py:42 | the worked-example file splits into its four lines |
| CleanerCases.WorkedExampleDropped | app.py:47-51 | `WEBVTT`, `1` and the timing line are dropped |
| CleanerCases.WorkedExampleTextNotDropped | app.py:44-52 | the word-timed text line passes all four tests |
| CleanerCases.WorkedExampleTextCleaned | app.py:54-55 | `Hello<00:00:01.500><c> world` cleans to `Hello world` |
| CleanerCases.WorkedExampleSurvivors | app.py:43-55 | only `Hello world` survives the worked example |
| CleanerCases.WorkedExample | app.py:42-59 | the worked-example file cleans to exactly `Hello world` |
| CleanerCases.TagOnlyLineCleansToEmpty | app.py:44-55 | a line made only of a tag survives the filters and cleans to the empty string |
| CleanerCases.TagOnlyFile | app.py:56-59 | a file whose only line is `<c>` gives `Some("")`, not `None` |
| CleanerCases.HeaderOnlyFile | app.py:51-58 | a file holding only `WEBVTT` gives `None` |
| CleanerCases.IndentedHeaderKept | app.py:51 | the header test looks at the raw line: `  WEBVTT` is kept and trimmed to `WEBVTT` |
| CleanerCases.IndentedHeaderSurvivors | app.py:43-55 | the lines `Hi` and `  WEBVTT` both survive |
| CleanerCases.IndentedHeaderFile | app.py:42-59 | a file with `Hi` and `  WEBVTT` gives `Hi WEBVTT` |
| CleanerCases.HiKept | app.py:44-55 | a plain word is kept as it is |
| CleanerCases.ArrowishHasNoArrow | app.py:47 | `-<x>->` contains no `-->` |
| CleanerCases.ArrowishTagRemoved | app.py:54 | removing the tag from `-<x>->` leaves `-->` |
| CleanerCases.ArrowAfterTagRemoval | app.py:44-55 | `-<x>->` survives and cleans to `-->` |
| CleanerCases.ArrowDropped | app.py:47 | a file holding only `-->` gives `None` |
| CleanerCases.CleaningTwiceDiffers | app.py:42-59 | the cleaner is not idempotent: `-<x>->` gives `-->`, and `-->` gives `None` |
| CleanerCases.TagHalvesKept | app.py:54-55 | `a <` and `b>` each pass the filters unchanged: a lone `<` or `>` is no tag |
| CleanerCases.TagHalvesSurvivors | app.py:43-55 | both halves survive |
| CleanerCases.AcrossLinesHasTag | app.py:54 | `a < b>` holds a match of `<[^>]+>` |
| CleanerCases.TagAcrossLinesSurvives | app.py:42-59 | tags are removed per line, so a tag split across two lines survives into the transcript |
| CleanerCases.DigitTaggedKept | app.py:44-55 | `1<x>` passes the four tests, and removing its tag leaves `1` |
| CleanerCases.NumberDropped | app.py:49 | a file holding only `1` gives `None`, the line being a cue number |
| CleanerCases.CleaningTwiceDropsNumber | app.py:49-54 | `1<x>` gives `1`, and `1` gives `None` |
| CleanerCases.EmptyBracketsKept | app.py:54 | `a<>b` is left unchanged, because `<>` is no match |
| Extractor.SelectVtt | app.py:35-39 | no subtitle file when the listing is empty; otherwise the first path of the listing |
| Extractor.GetTranscriptWithYtDlp | app.py:35-62 | select, read and clean give exactly `Extracted`: `None` without a file or with an unreadable one, otherwise the cleaner's result |
| Extractor.ExtractedIgnoresRest | app.py:39 | only the first path of the listing matters |
| Extractor.ExtractedReadsOnlyFirst | app.py:39-41 | two file maps that agree on whether the first path can be read, and on its contents, give the same answer, for every listing, the empty one included: other files do not matter |
| Extractor.ExtractedNoneIff | app.py:35-59 | no transcript exactly when there is no subtitle file, the first cannot be read, or every line of it is dropped |
| Api.Respond | app.py:83-89 | 200 `text/plain` with the transcript exactly when it is non-empty; otherwise 404 JSON with `success: false` and the fixed message |
| Api.GetTranscript | app.py:70-89 | the handler's decision table: 400 for a missing body or `url`; 500 for a non-string `url`; 400 for a URL with neither prefix; otherwise the extractor's answer for that URL decides; 200 exactly when a valid URL yields a non-empty transcript |
| Api.RejectedWithoutExtracting | app.py:72-81 | a rejected request gets 400 or 500 whatever the extractor would say, so the extractor is never consulted |
| Api.AcceptedExtractsUrl | app.py:78-89 | an accepted request depends on the extractor only through its answer for the request's URL, and gets 200 or 404 |
| Api.EmptyObjectRejected | app.py:72-73 | an empty JSON object is refused like a missing body |
| ApiCases.OtherHostRejected | app.py:78-79 | `https://example.com/watch` gets 400 `Invalid YouTube URL` whatever the extractor does |
| ApiCases.NonStringUrlFails | app.py:75-78 | a non-string `url` gets 500 |
| ApiCases.WorkedExampleServed | app.py:70-89 | a short link whose subtitle file is the worked example gets 200 `text/plain` with `Hello world` |
| ApiCases.TagOnlySubtitlesNotFound | app.py:56-89 | subtitles that clean to `""` get 404 |
| ApiCases.NoSubtitlesNotFound | app.py:36-89 | no subtitle file gets 404 |

## Left out

- The `yt-dlp` subprocess, its arguments and output (app.py:21-33). It is a foreign process. Its effect enters the model only as the `.vtt` listing and the file contents given to `Extractor`.
- Failure to start `yt-dlp` (caught by the catch-all `except`). It is modelled as an empty listing, which gives the same `None`.
- The temporary directory, `glob` and file reading (app.py:20, 35, 40-41). These are filesystem I/O.
  - `glob` order is taken as given.
  - A file that cannot be read as UTF-8 is a path missing from the `files` map, and gives `None` as the catch-all does.
  - Universal-newline translation of `\r\n` on reading is not modelled.
- `print` logging (app.py:30-33, 37, 57, 61). It is a diagnostic only.
- Flask routing, `request.get_json()`, `/health` and startup (app.py:1-12, 64-70, 91-98). These are framework plumbing.
  - Bodies that are not JSON objects (lists, strings, numbers) are not modelled. Neither are the errors Flask raises itself for a missing or wrong content type or malformed JSON.
  - A JSON `null` body is `NoBody`.
  - The 500 for a non-string `url` stands for Flask's handling of the uncaught `AttributeError`. Its page content is not modelled.
- `str.strip` and `str.isdigit` use ASCII semantics. The whitespace set is the ASCII characters for which Python's `isspace()` holds. Non-ASCII whitespace and digits are not modelled.
- An idempotence property of the cleaner. It is false, as `CleanerCases.CleaningTwiceDiffers` and `CleanerCases.CleaningTwiceDropsNumber` show.
- Variation of `yt-dlp`'s answer from one call to the next. In `Api` the extractor is a fixed function from URL to optional transcript.
