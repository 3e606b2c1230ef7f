/**
 * The caption cleaner of `get_transcript_with_yt_dlp` (app.py:42-59): it turns
 * the text of a WebVTT subtitle file into one line of plain transcript text.
 */
module Vtt {
  import opened Wrappers
  import opened Text
  import opened Tags
  import opened Seqs

  /** The file's lines: `vtt_content.strip().split('\n')`. */
  function Lines(content: string): seq<string> {
    Split(Strip(content), '\n')
  }

  /**
   * The four `continue` tests of the loop, in order: a blank line, a cue
   * timing line, a numeric cue identifier, a header line. The header test
   * looks at the line as it is, so an indented `WEBVTT` is not a header.
   */
  predicate Dropped(line: string) {
    || Strip(line) == []
    || Contains(line, "-->")
    || IsAllDigits(Strip(line))
    || StartsWith(line, "WEBVTT") || StartsWith(line, "Kind:") || StartsWith(line, "Language:")
  }

  /** What a surviving line contributes: its tags removed, then trimmed. */
  function CleanLine(line: string): string {
    Strip(StripTags(line))
  }

  /** What one line adds to `transcript_lines`: nothing when dropped, else its cleaned form. */
  function Kept(line: string): seq<string> {
    if Dropped(line) then [] else [CleanLine(line)]
  }

  /** The list `transcript_lines` once the loop has seen `lines`. */
  function Survivors(lines: seq<string>): seq<string> {
    if lines == [] then [] else Survivors(lines[..|lines| - 1]) + Kept(lines[|lines| - 1])
  }

  /** The result for the lines of a file: `None` when no line survives, else the survivors joined by one space. */
  function Transcript(lines: seq<string>): Option<string> {
    var parts := Survivors(lines);
    if parts == [] then None else Some(Join(parts, " "))
  }

  /** The result of cleaning the text of a subtitle file. */
  function Cleaned(content: string): Option<string> {
    Transcript(Lines(content))
  }

  /** The cleaning loop of app.py:42-59, collecting surviving lines one at a time. */
  method Clean(content: string) returns (r: Option<string>)
    ensures r == Cleaned(content)
  {
    var lines := Lines(content);
    var transcriptLines: seq<string> := [];
    for i := 0 to |lines|
      invariant transcriptLines == Survivors(lines[..i])
    {
      var line := lines[i];
      assert lines[..i + 1][..i] == lines[..i];
      assert Survivors(lines[..i + 1]) == Survivors(lines[..i]) + Kept(line);
      if Strip(line) == [] {
        continue;
      }
      if Contains(line, "-->") {
        continue;
      }
      if IsAllDigits(Strip(line)) {
        continue;
      }
      if StartsWith(line, "WEBVTT") || StartsWith(line, "Kind:") || StartsWith(line, "Language:") {
        continue;
      }
      assert Kept(line) == [CleanLine(line)];
      var cleanLine := RemoveTags(line);
      transcriptLines := transcriptLines + [Strip(cleanLine)];
    }
    assert lines[..|lines|] == lines;
    if transcriptLines == [] {
      return None;
    }
    return Some(Join(transcriptLines, " "));
  }

  /** Lines are filtered and cleaned one by one: order is kept and nothing is merged or deduplicated. */
  lemma {:induction false} SurvivorsAppend(a: seq<string>, b: seq<string>)
    ensures Survivors(a + b) == Survivors(a) + Survivors(b)
    decreases |b|
  {
    if b == [] {
      assert a + b == a;
    } else {
      var b', x := b[..|b| - 1], b[|b| - 1];
      var ab := a + b;
      assert ab[..|ab| - 1] == a + b' && ab[|ab| - 1] == x;
      var k := Kept(x);
      assert Survivors(ab) == Survivors(a + b') + k;
      assert Survivors(b) == Survivors(b') + k;
      SurvivorsAppend(a, b');
      AppendAssoc(Survivors(a), Survivors(b'), k);
    }
  }

  /** A single line survives exactly when none of the four tests drops it. */
  lemma SurvivorsOne(line: string)
    ensures Survivors([line]) == if Dropped(line) then [] else [CleanLine(line)]
  {
    assert [line][..0] == [];
  }

  /** Nothing survives exactly when every line is dropped. */
  lemma {:induction false} SurvivorsEmptyIff(lines: seq<string>)
    ensures Survivors(lines) == [] <==> forall i :: 0 <= i < |lines| ==> Dropped(lines[i])
    decreases |lines|
  {
    if lines != [] {
      var init := lines[..|lines| - 1];
      SurvivorsEmptyIff(init);
      assert forall i :: 0 <= i < |init| ==> init[i] == lines[i];
    }
  }

  /** An emitted line: no `<...>` tag left in it and no whitespace at either end. */
  predicate Tidy(t: string) {
    NoTags(t) && (t != [] ==> !IsSpace(t[0]) && !IsSpace(t[|t| - 1]))
  }

  /** Trimming whitespace from both ends creates no tag. */
  lemma StripKeepsNoTags(t: string)
    requires NoTags(t)
    ensures NoTags(Strip(t))
  {
    var u := TrimStart(t);
    TrimStartSpec(t);
    NoTagsSlice(t, |t| - |u|, |t|);
    assert NoTags(u) by {
      assert u == t[|t| - |u|..|t|];
    }
    var v := TrimEnd(u);
    TrimEndSpec(u);
    NoTagsSlice(u, 0, |v|);
    assert v == u[0..|v|];
  }

  /** Every line the cleaner emits is tidy. */
  lemma CleanLineTidy(line: string)
    ensures Tidy(CleanLine(line))
  {
    var t := StripTags(line);
    StripTagsNoTags(line);
    StripKeepsNoTags(t);
    StripShape(t);
  }

  /** Every surviving line is tidy. */
  lemma {:induction false} SurvivorsTidy(lines: seq<string>)
    ensures forall k :: 0 <= k < |Survivors(lines)| ==> Tidy(Survivors(lines)[k])
    decreases |lines|
  {
    if lines != [] {
      var init, last := lines[..|lines| - 1], lines[|lines| - 1];
      var s0 := Survivors(init);
      var s := Survivors(lines);
      SurvivorsTidy(init);
      if Dropped(last) {
        assert s == s0 + [];
      } else {
        CleanLineTidy(last);
        var t := CleanLine(last);
        assert s == s0 + [t];
        assert forall k :: 0 <= k < |s| ==> s[k] == if k < |s0| then s0[k] else t;
      }
    }
  }

  /** The cleaner answers `None` exactly when every line of the file is dropped. */
  lemma CleanedNoneIff(content: string)
    ensures Cleaned(content) == None <==> forall i :: 0 <= i < |Lines(content)| ==> Dropped(Lines(content)[i])
  {
    SurvivorsEmptyIff(Lines(content));
  }

  /**
   * Two runs of lines that each leave something clean to the two transcripts
   * joined by exactly one space, in their original order; a run that leaves
   * nothing contributes nothing.
   */
  lemma TranscriptAppend(a: seq<string>, b: seq<string>)
    ensures Transcript(a) == None ==> Transcript(a + b) == Transcript(b)
    ensures Transcript(b) == None ==> Transcript(a + b) == Transcript(a)
    ensures Transcript(a).Some? && Transcript(b).Some? ==>
      Transcript(a + b) == Some(Transcript(a).value + " " + Transcript(b).value)
  {
    SurvivorsAppend(a, b);
    var sa, sb := Survivors(a), Survivors(b);
    if sa == [] {
      assert sa + sb == sb;
    } else if sb == [] {
      assert sa + sb == sa;
    } else {
      JoinAppend(sa, sb, " ");
    }
  }

  /** Dropped lines in front contribute nothing. */
  lemma SurvivorsSkipDropped(pre: seq<string>, rest: seq<string>)
    requires forall i :: 0 <= i < |pre| ==> Dropped(pre[i])
    ensures Survivors(pre + rest) == Survivors(rest)
  {
    SurvivorsAppend(pre, rest);
    SurvivorsEmptyIff(pre);
    assert [] + Survivors(rest) == Survivors(rest);
  }

  /** A cue: header, cue number and timing line are dropped, the text line is cleaned. */
  lemma SurvivorsOfCue(header: string, number: string, timing: string, text: string)
    requires Dropped(header) && Dropped(number) && Dropped(timing) && !Dropped(text)
    ensures Survivors([header, number, timing, text]) == [CleanLine(text)]
  {
    var pre := [header, number, timing];
    SurvivorsSkipDropped(pre, [text]);
    SurvivorsOne(text);
    assert pre + [text] == [header, number, timing, text];
  }

  /** Prepending a line puts its contribution in front. */
  lemma SurvivorsCons(line: string, rest: seq<string>)
    ensures Survivors([line] + rest) == Kept(line) + Survivors(rest)
  {
    SurvivorsAppend([line], rest);
    SurvivorsOne(line);
  }

  /** The lines of a file whose first and last characters are not whitespace. */
  lemma LinesOfJoin(ls: seq<string>)
    requires ls != [] && forall i :: 0 <= i < |ls| ==> '\n' !in ls[i]
    requires ls[0] != [] && !IsSpace(ls[0][0])
    requires ls[|ls| - 1] != [] && !IsSpace(ls[|ls| - 1][|ls[|ls| - 1]| - 1])
    ensures Lines(Join(ls, "\n")) == ls
  {
    var content := Join(ls, "\n");
    JoinEnds(ls, "\n");
    var last := ls[|ls| - 1];
    assert content[0] == content[..|ls[0]|][0] == ls[0][0];
    assert content[|content| - 1] == content[|content| - |last|..][|last| - 1] == last[|last| - 1];
    StripTrimmed(content);
    SplitJoin(ls, '\n');
  }
}
