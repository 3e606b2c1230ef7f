/**
 * Concrete subtitle files run through the cleaner: the worked example
 * and the edge cases of the line filters and of tag removal.
 */
module CleanerCases {
  import opened Wrappers
  import opened Text
  import opened Tags
  import opened Vtt

  const Timing := "00:00:01.000 --> 00:00:02.000"
  const WordTimed := "Hello" + "<00:00:01.500>" + "<c>" + " world"

  lemma WorkedExampleLines()
    ensures Lines(Join(["WEBVTT", "1", Timing, WordTimed], "\n")) == ["WEBVTT", "1", Timing, WordTimed]
  {
    assert WordTimed[|WordTimed| - 1] == 'd';
    LinesOfJoin(["WEBVTT", "1", Timing, WordTimed]);
  }

  lemma WorkedExampleDropped()
    ensures Dropped("WEBVTT") && Dropped("1") && Dropped(Timing)
  {
    StripTrimmed("1");
    assert OccursAt(Timing, "-->", 13);
  }

  lemma WorkedExampleTextNotDropped()
    ensures !Dropped(WordTimed)
  {
    assert WordTimed[0] == 'H' && WordTimed[|WordTimed| - 1] == 'd';
    StripTrimmed(WordTimed);
    ContainsFirst(WordTimed, "-->");
  }

  lemma WorkedExampleTextCleaned()
    ensures CleanLine(WordTimed) == "Hello world"
  {
    assert '<' !in "Hello" && '<' !in " world";
    assert IsTag("<00:00:01.500>") && IsTag("<c>");
    TwoTagsBetweenText("Hello", "<00:00:01.500>", "<c>", " world");
    StripTrimmed("Hello world");
  }

  lemma WorkedExampleSurvivors()
    ensures Survivors(["WEBVTT", "1", Timing, WordTimed]) == ["Hello world"]
  {
    WorkedExampleDropped();
    WorkedExampleTextNotDropped();
    WorkedExampleTextCleaned();
    SurvivorsOfCue("WEBVTT", "1", Timing, WordTimed);
  }

  /** The header, cue number and timing line go; the tags of the text line go. */
  lemma WorkedExample()
    ensures Cleaned(Join(["WEBVTT", "1", "00:00:01.000 --> 00:00:02.000", "Hello" + "<00:00:01.500>" + "<c>" + " world"], "\n"))
            == Some("Hello world")
  {
    WorkedExampleLines();
    WorkedExampleSurvivors();
  }

  /** A line made only of tags survives the filters and cleans to the empty string. */
  lemma TagOnlyLineCleansToEmpty()
    ensures !Dropped("<c>") && CleanLine("<c>") == []
  {
    StripTrimmed("<c>");
    ContainsFirst("<c>", "-->");
    assert IsTag("<c>");
    StripTagsTag("<c>", []);
    assert "<c>" + [] == "<c>";
  }

  /** So a file holding only such a line yields `Some("")`, which the endpoint then treats as a failure. */
  lemma TagOnlyFile()
    ensures Cleaned("<c>") == Some("")
  {
    StripTrimmed("<c>");
    SplitNone("<c>", '\n');
    TagOnlyLineCleansToEmpty();
    SurvivorsOne("<c>");
  }

  /** A file holding only the header has no transcript. */
  lemma HeaderOnlyFile()
    ensures Cleaned("WEBVTT") == None
  {
    StripTrimmed("WEBVTT");
    SplitNone("WEBVTT", '\n');
    assert Dropped("WEBVTT");
    SurvivorsOne("WEBVTT");
  }

  const Indented := "  " + "WEBVTT"

  /** The header test looks at the raw line: an indented `WEBVTT` is kept, trimmed. */
  lemma IndentedHeaderKept()
    ensures !Dropped(Indented) && CleanLine(Indented) == "WEBVTT"
  {
    StripIndented("  ", "WEBVTT");
    assert Indented[0] == ' ';
    ContainsFirst(Indented, "-->");
    StripTagsPlain(Indented, []);
    assert Indented + [] == Indented;
  }

  lemma IndentedHeaderSurvivors()
    ensures Survivors(["Hi", Indented]) == ["Hi", "WEBVTT"]
  {
    HiKept();
    IndentedHeaderKept();
    SurvivorsCons("Hi", [Indented]);
    SurvivorsOne(Indented);
  }

  /** The same in a file: the indented header ends up in the transcript. */
  lemma IndentedHeaderFile()
    ensures Cleaned(Join(["Hi", Indented], "\n")) == Some("Hi" + " " + "WEBVTT")
  {
    assert Indented[|Indented| - 1] == 'T';
    LinesOfJoin(["Hi", Indented]);
    IndentedHeaderSurvivors();
    JoinTwo("Hi", "WEBVTT", " ");
  }

  lemma HiKept()
    ensures !Dropped("Hi") && CleanLine("Hi") == "Hi"
  {
    StripTrimmed("Hi");
    ContainsFirst("Hi", "-->");
    StripTagsPlain("Hi", []);
    assert "Hi" + [] == "Hi";
  }

  const Arrowish := "-" + "<x>" + "->"

  lemma ArrowishHasNoArrow()
    ensures !Contains(Arrowish, "-->")
  {
    assert Arrowish == ['-', '<', 'x', '>', '-', '>'];
    forall i | 0 <= i <= |Arrowish| ensures !OccursAt(Arrowish, "-->", i) {
      if 0 <= i <= |Arrowish| - 3 {
        assert Arrowish[i..i + 3][0] == Arrowish[i] && Arrowish[i..i + 3][1] == Arrowish[i + 1];
        assert Arrowish[i] != '-' || Arrowish[i + 1] != '-';
      }
    }
  }

  lemma ArrowishTagRemoved()
    ensures StripTags(Arrowish) == "-->"
  {
    assert Arrowish == "-" + ("<x>" + "->");
    StripTagsPlain("-", "<x>" + "->");
    assert IsTag("<x>");
    StripTagsTag("<x>", "->");
    StripTagsPlain("->", []);
    assert "->" + [] == "->";
  }

  /** Removing a tag can join the pieces of a timing arrow. */
  lemma ArrowAfterTagRemoval()
    ensures !Dropped(Arrowish) && CleanLine(Arrowish) == "-->"
  {
    assert Arrowish[0] == '-' && Arrowish[|Arrowish| - 1] == '>';
    StripTrimmed(Arrowish);
    ArrowishHasNoArrow();
    ArrowishTagRemoved();
    StripTrimmed("-->");
  }

  /** A timing line is dropped. */
  lemma ArrowDropped()
    ensures Cleaned("-->") == None
  {
    StripTrimmed("-->");
    SplitNone("-->", '\n');
    assert OccursAt("-->", "-->", 0);
    SurvivorsOne("-->");
  }

  /** Cleaning is not idempotent: cleaning a transcript again can change it. */
  lemma CleaningTwiceDiffers()
    ensures Cleaned(Arrowish) == Some("-->") && Cleaned("-->") == None
  {
    StripTrimmed(Arrowish);
    assert Arrowish[0] == '-' && Arrowish[|Arrowish| - 1] == '>';
    assert '\n' !in Arrowish;
    SplitNone(Arrowish, '\n');
    ArrowAfterTagRemoval();
    SurvivorsOne(Arrowish);
    ArrowDropped();
  }

  const OpenAtEnd := "a " + "<"

  lemma TagHalvesKept()
    ensures !Dropped(OpenAtEnd) && CleanLine(OpenAtEnd) == OpenAtEnd
    ensures !Dropped("b>") && CleanLine("b>") == "b>"
  {
    StripTrimmed(OpenAtEnd);
    ContainsFirst(OpenAtEnd, "-->");
    StripTagsPlain("a ", "<");
    assert StripTags("<") == "<";
    StripTrimmed("b>");
    ContainsFirst("b>", "-->");
    StripTagsPlain("b>", []);
    assert "b>" + [] == "b>";
  }

  lemma TagHalvesSurvivors()
    ensures Survivors([OpenAtEnd, "b>"]) == [OpenAtEnd, "b>"]
  {
    TagHalvesKept();
    SurvivorsCons(OpenAtEnd, ["b>"]);
    SurvivorsOne("b>");
  }

  const AcrossLines := OpenAtEnd + " " + "b>"

  /** The joined text holds a match of `<[^>]+>` starting at the `<`. */
  lemma AcrossLinesHasTag()
    ensures !NoTags(AcrossLines)
  {
    assert AcrossLines[4..][1] == '>';
    assert TagAt(AcrossLines, 2);
  }

  /**
   * Tags are removed line by line, so a `<` at the end of one line and a `>`
   * on the next are both kept, and the joined transcript holds a match.
   */
  lemma TagAcrossLinesSurvives()
    ensures Cleaned(Join([OpenAtEnd, "b>"], "\n")) == Some(AcrossLines)
    ensures !NoTags(AcrossLines)
  {
    LinesOfJoin([OpenAtEnd, "b>"]);
    TagHalvesSurvivors();
    JoinTwo(OpenAtEnd, "b>", " ");
    AcrossLinesHasTag();
  }

  const DigitTagged := "1" + "<x>"

  /** `1<x>` survives the filters, and removing its tag leaves the bare number `1`. */
  lemma DigitTaggedKept()
    ensures !Dropped(DigitTagged) && CleanLine(DigitTagged) == "1"
  {
    assert DigitTagged[0] == '1' && DigitTagged[|DigitTagged| - 1] == '>';
    StripTrimmed(DigitTagged);
    ContainsFirst(DigitTagged, "-->");
    assert !IsDigit(DigitTagged[1]);
    StripTagsPlain("1", "<x>");
    assert IsTag("<x>");
    StripTagsTag("<x>", []);
    assert "<x>" + [] == "<x>";
    StripTrimmed("1");
  }

  /** A file holding only a cue number has no transcript. */
  lemma NumberDropped()
    ensures Cleaned("1") == None
  {
    StripTrimmed("1");
    SplitNone("1", '\n');
    SurvivorsOne("1");
  }

  /** Removing a tag can leave a bare cue number, which a second pass drops. */
  lemma CleaningTwiceDropsNumber()
    ensures Cleaned(DigitTagged) == Some("1") && Cleaned("1") == None
  {
    assert DigitTagged[0] == '1' && DigitTagged[|DigitTagged| - 1] == '>';
    assert '\n' !in DigitTagged;
    StripTrimmed(DigitTagged);
    SplitNone(DigitTagged, '\n');
    DigitTaggedKept();
    SurvivorsOne(DigitTagged);
    NumberDropped();
  }

  const EmptyBrackets := "a" + "<>" + "b"

  /** `<>` is no match of `<[^>]+>`: it is kept. */
  lemma EmptyBracketsKept()
    ensures CleanLine(EmptyBrackets) == EmptyBrackets
  {
    forall i | 0 <= i < |EmptyBrackets| ensures !TagAt(EmptyBrackets, i) {
      assert EmptyBrackets[i] != '<' || EmptyBrackets[i + 1] == '>';
    }
    StripTagsFixesTagFree(EmptyBrackets);
    StripTrimmed(EmptyBrackets);
  }
}
