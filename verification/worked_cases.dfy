/**
 Example pages, stated for the model of revision 1.3.1 (and 1.2.1 where the
 two differ only by escaping): each input page, as given, and the meta
 description the hook adds for it.

 Facts about a string literal are proved in small lemmas that receive the
 literal as a parameter pinned by `requires x == "..."`: each such proof
 unfolds that one literal and nothing else, and the lemmas that use the fact
 never unfold the literal against the recursive definitions.
 */
module WorkedCases {
  import opened Options
  import opened Text
  import opened Extraction
  import opened Citations
  import opened Escaping
  import HookV131
  import HookV121

  /** A paragraph extracted from the markup that holds no citation marker
      character is the description revision 1.3.1 adds. */
  lemma ExtractedAsIs(html: string, text: string)
    requires Paragraph(html) == text && text != "" && '[' !in text && '&' !in text
    ensures HookV131.Describe(false, None, false, html) == Some(text)
  {
  }

  // ---------------------------------------------------------------------------
  // Table content is excluded

  /** A paragraph inside a table is table content, not a closing `</table>`. */
  lemma HiddenParagraphIsTableContent()
    ensures BlockContent("<p>hidden</p>", "table")
  {
    var t := "<p>hidden</p>" + ("</" + "table" + ">");
    var c := "</" + "table" + ">";
    assert t == "<p>hidden</p></table>";
    forall k | 0 <= k < 13
      ensures !LitAt(t, k, c, true)
    {
      if k == 0 {
        assert Fold(t[0 + 1], true) != c[1];
      } else if k == 9 {
        assert Fold(t[9 + 2], true) != c[2];
      } else {
        assert Fold(t[k + 0], true) != c[0];
      }
    }
  }

  /** The table pass removes the table, paragraph included. */
  lemma TablePassRemovesTable(rest: string)
    ensures RemoveBlock("<table><p>hidden</p></table>" + rest, "table") == RemoveBlock(rest, "table")
  {
    var tag, attrs, body := "table", "", "<p>hidden</p>";
    var table := "<" + tag + attrs + ">" + body + "</" + tag + ">";
    assert table == "<table><p>hidden</p></table>";
    assert BlockContent(body, tag) by {
      HiddenParagraphIsTableContent();
    }
    assert IsLowerName(tag);
    RemoveBlockDropsBlock(tag, attrs, body, rest);
  }

  /** The character facts about `First real text.` that the pipeline lemmas need. */
  lemma FirstRealTextIsPlain(text: string)
    requires text == "First real text."
    ensures '<' !in text && '\n' !in text && '\t' !in text && '[' !in text && '&' !in text
    ensures text[0] == 'F' && text[|text| - 1] == '.'
  {
  }

  /** The page literal, split at the end of its table. */
  lemma TablePage(html: string, rest: string)
    requires html == "<table><p>hidden</p></table><p>First real text.</p>"
    requires rest == "<p>" + "First real text." + "</p>"
    ensures html == "<table><p>hidden</p></table>" + rest
  {
  }

  /** With the table gone, the page is the one element around the text. */
  lemma TableDropsOut(html: string, text: string)
    requires html == "<table><p>hidden</p></table><p>First real text.</p>"
    requires text == "First real text."
    ensures Paragraph(html) == Paragraph("<p>" + text + "</p>")
  {
    var rest := "<p>" + text + "</p>";
    assert RemoveBlocks(html) == RemoveBlocks(rest) by {
      TablePage(html, rest);
      TablePassRemovesTable(rest);
    }
    SameBlocksSameParagraph(html, rest);
  }

  /** The one element's text is selected as it stands. */
  lemma FirstRealTextSelected(text: string)
    requires text == "First real text."
    ensures Paragraph("<p>" + text + "</p>") == text
  {
    FirstRealTextIsPlain(text);
    assert Qualifies(text) && Trim(text) == text by {
      TrimKeepsUntrimmable(text);
    }
    SingleParagraph(text);
  }

  /** `<table><p>hidden</p></table><p>First real text.</p>` is described as
      `First real text.`. */
  lemma TableContentExcluded(html: string, text: string)
    requires html == "<table><p>hidden</p></table><p>First real text.</p>"
    requires text == "First real text."
    ensures Paragraph(html) == text
    ensures HookV131.Describe(false, None, false, html) == Some(text)
  {
    TableDropsOut(html, text);
    FirstRealTextSelected(text);
    FirstRealTextIsPlain(text);
    ExtractedAsIs(html, text);
  }

  // ---------------------------------------------------------------------------
  // Empty paragraphs are skipped

  /** Text of spaces only trims to nothing. */
  lemma SpacesTrimAway(s: string)
    requires forall k :: 0 <= k < |s| ==> s[k] == ' '
    ensures Trim(s) == ""
  {
  }

  lemma BlanksDoNotQualify(empty: string, spaces: string)
    requires empty == "" && spaces == "   "
    ensures !Qualifies(empty) && !Qualifies(spaces)
  {
    SpacesTrimAway(empty);
    SpacesTrimAway(spaces);
  }

  /** The character facts about `Second one here.` that the pipeline lemmas need. */
  lemma SecondOneIsPlain(text: string)
    requires text == "Second one here."
    ensures '<' !in text && '\n' !in text && '\t' !in text && '[' !in text && '&' !in text
    ensures text[0] == 'S' && text[|text| - 1] == '.'
  {
  }

  /** Three elements, spelled out. */
  lemma ThreeElements(a: string, b: string, c: string)
    ensures Elements([a, b, c]) == "<p>" + a + "</p>" + "<p>" + b + "</p>" + "<p>" + c + "</p>"
  {
    assert [c][1..] == [];
    assert Elements([c]) == "<p>" + c + "</p>" + "";
    assert [b, c][1..] == [c];
    assert Elements([b, c]) == "<p>" + b + "</p>" + Elements([c]);
    assert [a, b, c][1..] == [b, c];
    assert Elements([a, b, c]) == "<p>" + a + "</p>" + Elements([b, c]);
  }

  /** The selection passes over captures that do not qualify. */
  lemma ThirdSelected(a: string, b: string, c: string)
    requires !Qualifies(a) && !Qualifies(b) && Qualifies(c)
    ensures SelectParagraph([a, b, c]) == Trim(c)
  {
    var cs := [a, b, c];
    assert !Qualifies(cs[0]) && !Qualifies(cs[1]) && Qualifies(cs[2]);
    assert FirstQualifying(cs, 0) == Some(2);
  }

  /** Of the three captures, the selection takes the third. */
  lemma SecondOneSelected(empty: string, spaces: string, text: string)
    requires empty == "" && spaces == "   " && text == "Second one here."
    ensures SelectParagraph([empty, spaces, text]) == text
  {
    BlanksDoNotQualify(empty, spaces);
    SecondOneIsPlain(text);
    assert Qualifies(text) && Trim(text) == text by {
      TrimKeepsUntrimmable(text);
    }
    ThirdSelected(empty, spaces, text);
  }

  /** The three elements, as a page, give the third text. */
  lemma SecondOnePage(empty: string, spaces: string, text: string)
    requires empty == "" && spaces == "   " && text == "Second one here."
    ensures Paragraph(Elements([empty, spaces, text])) == text
  {
    var bodies := [empty, spaces, text];
    assert PlainBodies(bodies) by {
      SecondOneIsPlain(text);
    }
    PlainParagraphsPage(bodies);
    SecondOneSelected(empty, spaces, text);
  }

  /** `<p></p><p>   </p><p>Second one here.</p>` is described as `Second one here.`. */
  lemma EmptyParagraphsSkipped(html: string, empty: string, spaces: string, text: string)
    requires empty == "" && spaces == "   " && text == "Second one here."
    requires html == "<p>" + empty + "</p>" + "<p>" + spaces + "</p>" + "<p>" + text + "</p>"
    ensures Paragraph(html) == text
    ensures HookV131.Describe(false, None, false, html) == Some(text)
  {
    ThreeElements(empty, spaces, text);
    SecondOnePage(empty, spaces, text);
    SecondOneIsPlain(text);
    ExtractedAsIs(html, text);
  }

  // ---------------------------------------------------------------------------
  // Citation markers are stripped

  /** The character facts about the two example sentences that the marker
      lemmas need. */
  lemma StatementOfFactIsPlain(x: string)
    requires x == "Statement of fact."
    ensures x != [] && !IsTrimmable(x[0]) && x != "0"
    ensures '<' !in x && '\n' !in x && '\t' !in x && '[' !in x && '&' !in x
  {
  }

  lemma StatementIsPlain(x: string)
    requires x == "Statement."
    ensures x != [] && !IsTrimmable(x[0]) && x != "0"
    ensures '<' !in x && '\n' !in x && '\t' !in x && '[' !in x && '&' !in x
  {
  }

  /** The page literal, read as a sentence followed by a `[digits]` marker. */
  lemma RawMarkerPage(html: string, x: string, d: string)
    requires html == "<p>Statement of fact.[12]</p>"
    requires x == "Statement of fact." && d == "12"
    ensures html == "<p>" + (x + Marker(0, d)) + "</p>"
  {
  }

  /** `<p>Statement of fact.[12]</p>` is described as `Statement of fact.`. */
  lemma RawMarkerStripped(html: string, x: string)
    requires html == "<p>Statement of fact.[12]</p>"
    requires x == "Statement of fact."
    ensures HookV131.Describe(false, None, false, html) == Some(x)
  {
    var d := "12";
    assert AllDigits(d);
    assert html == "<p>" + (x + Marker(0, d)) + "</p>" by {
      RawMarkerPage(html, x, d);
    }
    StatementOfFactIsPlain(x);
    HookV131.SentenceWithMarkerPage(false, None, false, x, 0, d);
  }

  /** The page literal, read as a sentence followed by a double-encoded marker. */
  lemma DoubleEncodedPage(html: string, x: string, d: string)
    requires html == "<p>Statement.&amp;#91;3&amp;#93;</p>"
    requires x == "Statement." && d == "3"
    ensures html == "<p>" + (x + Marker(1, d)) + "</p>"
  {
  }

  /** `<p>Statement.&amp;#91;3&amp;#93;</p>` is described as `Statement.`. */
  lemma DoubleEncodedMarkerStripped(html: string, x: string)
    requires html == "<p>Statement.&amp;#91;3&amp;#93;</p>"
    requires x == "Statement."
    ensures HookV131.Describe(false, None, false, html) == Some(x)
  {
    var d := "3";
    assert AllDigits(d);
    assert html == "<p>" + (x + Marker(1, d)) + "</p>" by {
      DoubleEncodedPage(html, x, d);
    }
    StatementIsPlain(x);
    HookV131.SentenceWithMarkerPage(false, None, false, x, 1, d);
  }

  // ---------------------------------------------------------------------------
  // The message

  /** On the main page, an enabled message `Custom desc` is the description,
      whatever the markup; revision 1.2.1 adds the same text, which has
      nothing to escape. */
  lemma MessageIsDescription(message: string, html: string)
    requires message == "Custom desc"
    ensures HookV131.Describe(true, Some(message), false, html) == Some(message)
    ensures HookV121.Describe(true, Some(message), false, html) == Some(message)
  {
    assert forall k :: 0 <= k < |message| ==> !IsSpecial(message[k]);
  }

  /** A disabled message is ignored: the page is described from its markup, as
      off the main page. */
  lemma DisabledMessageIgnored(message: string, html: string)
    ensures HookV131.Describe(true, Some(message), true, html) == HookV131.Describe(false, None, false, html)
    ensures HookV121.Describe(true, Some(message), true, html) == HookV121.Describe(false, None, false, html)
  {
  }
}
