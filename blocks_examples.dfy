/**
 * Worked lines for the classifier. Each example states the split points
 * the regex engine arrives at; the contracts of the matchers and the
 * characterisations of `Classify` do the rest.
 */
module BlocksExamples {
  import opened Chars
  import opened Inline
  import opened Blocks

  /** A level-3 heading; the whitespace after the hashes is not part of the text. */
  lemma LevelThreeHeading()
    ensures Classify("### Title") == Heading(3, "Title")
  {
    var s := "### Title";
    assert HashPrefix(s, 3);
    assert SpaceRunEnd(s, 4) == 4;
    assert DotRun(s, 4, |s|);
    assert s[4..] == "Title";
    ClassifyHeadingIff(s, 3, "Title");
  }

  /** Without whitespace after the hashes the line is a paragraph. */
  lemma HashesWithoutSpace()
    ensures Classify("###Title") == Paragraph("###Title")
  {
    var s := "###Title";
    assert SpaceRunEnd(s, 3) == 3;
    assert SpaceRunEnd(s, 0) == 0;
    assert !AllSpace(s) by { assert !IsSpace(s[0]); }
    forall n: nat | 1 <= n <= 3 ensures HeadingMatch(s, n).None? {
      assert !IsSpace(s[n]);
    }
    ClassifyParagraphIff(s, s);
  }

  /** A bold line is a paragraph, not a star-bulleted item. */
  lemma BoldLineIsParagraph()
    ensures Classify("**bold line**") == Paragraph("**bold line**")
  {
    var s := "**bold line**";
    assert SpaceRunEnd(s, 0) == 0;
    assert SpaceRunEnd(s, 1) == 1;
    assert !AllSpace(s) by { assert !IsSpace(s[0]); }
    forall n: nat | 1 <= n <= 3 ensures HeadingMatch(s, n).None? {
      assert s[0] != '#';
    }
    ClassifyParagraphIff(s, s);
  }

  /**
   * A dash and a space is an empty list item: the first list pattern's `\s+`
   * takes the space and `(.*)` captures the empty rest. The line is not blank
   * either, since trimming it leaves the dash.
   */
  lemma EmptyDashItem()
    ensures Classify("- ") == ListItem("")
    ensures Trim("- ") == "-"
  {
    var s := "- ";
    assert SpaceRunStart(s, 0, 2) == 1;
    assert SpaceRunEnd(s, 0) == 0;
    assert SpaceRunEnd(s, 1) == 2;
    assert BulletSplit(s) == Some((0, 2));
    assert s[2..] == "";
    ClassifyListIff(s, "");
  }

  /** An indented `•` item. */
  lemma IndentedBullet()
    ensures Classify("  • item") == ListItem("item")
  {
    var s := "  • item";
    assert SpaceRunEnd(s, 2) == 2;
    assert SpaceRunEnd(s, 0) == 2;
    assert SpaceRunEnd(s, 4) == 4;
    assert SpaceRunEnd(s, 3) == 4;
    assert DotRun(s, 4, |s|);
    assert BulletSplit(s) == Some((2, 4));
    assert s[4..] == "item";
    ClassifyListIff(s, "item");
  }

  /**
   * After a `*` bullet, `\s+` gives back a space so that the capture can
   * start with a non-`*`: the text keeps one leading space.
   */
  lemma StarBulletBacktracks()
    ensures Classify("*  **x**") == ListItem(" **x**")
  {
    var s := "*  **x**";
    assert SpaceRunEnd(s, 0) == 0;
    assert BulletSplit(s) == None;
    assert SpaceRunEnd(s, 3) == 3;
    assert SpaceRunEnd(s, 1) == 3;
    assert DotRun(s, 3, |s|);
    assert LastStarSplit(s, 0, 3) == Some(2);
    assert StarSplit(s) == Some((0, 2));
    assert s[2..] == " **x**";
    ClassifyListIff(s, " **x**");
  }

  /** `.` does not match a carriage return and `$` is the end of the line, so a heading ending in `\r` is a paragraph. */
  lemma CarriageReturnHeading()
    ensures Classify("# Title\r") == Paragraph("# Title\r")
  {
    var s := "# Title\r";
    assert SpaceRunEnd(s, 2) == 2;
    assert SpaceRunEnd(s, 1) == 2;
    assert !MatchesDot(s[7]);
    assert HeadingSplit(s, 1) == None;
    assert SpaceRunEnd(s, 0) == 0;
    assert !AllSpace(s) by { assert !IsSpace(s[0]); }
    forall n: nat | 1 <= n <= 3 ensures HeadingMatch(s, n).None? {
      if n > 1 { assert !IsSpace(s[1]) || s[1] != '#'; }
    }
    ClassifyParagraphIff(s, s);
  }

  /** The empty message is one line, and that line is blank. */
  lemma EmptyMessage()
    ensures SplitLines("") == [""] && Classify("") == Blank
  {
    ClassifyBlankIff("");
  }
}
