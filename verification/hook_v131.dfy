/**
 `ArticleMetaDescription::onOutputPageBeforeHTML` as revision 1.3.1 writes it.
 The page's title, the message lookup and `OutputPage::addMeta` are the host's:
 the hook receives whether the page is the main page, the message text (None
 when it was never looked up, i.e. off the main page), whether the message is
 disabled, and the rendered HTML; it answers with the meta description it adds,
 or None when it adds nothing.
 */
module HookV131 {
  import opened Options
  import opened Text
  import opened Extraction
  import opened Citations

  /** The value `$description` holds when the final `empty` test runs. */
  function Description(isMainPage: bool, message: Option<string>, messageDisabled: bool, html: string): string {
    if UsesMessage(isMainPage, message, messageDisabled) then message.value
    else FinishParagraph(Paragraph(html))
  }

  /** The content of the `description` meta tag the hook adds, if any. */
  function Describe(isMainPage: bool, message: Option<string>, messageDisabled: bool, html: string): (r: Option<string>)
    ensures r.Some? ==> !PhpEmpty(r.value)
    ensures UsesMessage(isMainPage, message, messageDisabled) ==>
              r == (if message.value == "0" then None else Some(message.value))
    ensures !UsesMessage(isMainPage, message, messageDisabled) ==>
              (r.Some? <==> StripCitations(Paragraph(html)) != "" && StripCitations(Paragraph(html)) != "0")
    ensures !UsesMessage(isMainPage, message, messageDisabled) && r.Some? ==>
              r.value == StripCitations(Paragraph(html)) && IsSubsequence(r.value, Paragraph(html))
              && '\n' !in r.value && '\t' !in r.value
  {
    var d := Description(isMainPage, message, messageDisabled, html);
    var p := Paragraph(html);
    SubsequenceAvoids(StripCitations(p), p, '\n');
    SubsequenceAvoids(StripCitations(p), p, '\t');
    if PhpEmpty(d) then None else Some(d)
  }

  /** The message, when it is used, is all that counts: the markup is never read. */
  lemma MessageIgnoresMarkup(isMainPage: bool, message: Option<string>, messageDisabled: bool, html1: string, html2: string)
    requires UsesMessage(isMainPage, message, messageDisabled)
    ensures Describe(isMainPage, message, messageDisabled, html1) == Describe(isMainPage, message, messageDisabled, html2)
  {
  }

  /** Off the main page, or with the message empty or disabled, the description
      depends on the markup alone. */
  lemma ExtractionIgnoresMessage(m1: Option<string>, d1: bool, m2: Option<string>, d2: bool, isMainPage: bool, html: string)
    requires !UsesMessage(isMainPage, m1, d1) && !UsesMessage(isMainPage, m2, d2)
    ensures Describe(isMainPage, m1, d1, html) == Describe(isMainPage, m2, d2, html)
  {
  }

  /** Markup without any `<` yields no description. */
  lemma NoTagsNoDescription(isMainPage: bool, message: Option<string>, messageDisabled: bool, html: string)
    requires !UsesMessage(isMainPage, message, messageDisabled) && '<' !in html
    ensures Describe(isMainPage, message, messageDisabled, html) == None
  {
    NoTagsNoParagraph(html);
  }

  /** A selected paragraph made of nothing but a citation marker yields no
      description. */
  lemma CitationOnlyNoDescription(isMainPage: bool, message: Option<string>, messageDisabled: bool, html: string, d: string)
    requires !UsesMessage(isMainPage, message, messageDisabled)
    requires AllDigits(d) && Paragraph(html) == "[" + d + "]"
    ensures Describe(isMainPage, message, messageDisabled, html) == None
  {
    StripRemovesBracketMarker(d, "");
    assert "[" + d + "]" + "" == Paragraph(html);
    assert StripCitations("") == "";
  }

  /** Markup whose cleaned text holds no opening `<p>` tag yields no
      description, whatever other tags it carries. */
  lemma NoParagraphTagNoDescription(isMainPage: bool, message: Option<string>, messageDisabled: bool, html: string)
    requires !UsesMessage(isMainPage, message, messageDisabled)
    requires forall k :: 0 <= k < |CleanMarkup(html)| ==> !LitAt(CleanMarkup(html), k, "<p>", true)
    ensures Describe(isMainPage, message, messageDisabled, html) == None
  {
    NoParagraphTagNoParagraph(html);
  }

  /** A page made of one plain `<p>` element, described from its markup: the
      element's trimmed text, when it qualifies and holds no citation marker. */
  lemma SingleParagraphPage(isMainPage: bool, message: Option<string>, messageDisabled: bool, body: string)
    requires !UsesMessage(isMainPage, message, messageDisabled)
    requires '<' !in body && '\n' !in body && '\t' !in body && '[' !in body && '&' !in body
    ensures Describe(isMainPage, message, messageDisabled, "<p>" + body + "</p>")
            == if Qualifies(body) then Some(Trim(body)) else None
  {
    SingleParagraph(body);
    SubsequenceAvoids(Trim(body), body, '[');
    SubsequenceAvoids(Trim(body), body, '&');
  }

  /** A page whose one `<p>` element is a sentence followed by a citation marker,
      in any of the three forms: the sentence alone is the description, unless
      it is "0". */
  lemma SentenceWithMarkerPage(isMainPage: bool, message: Option<string>, messageDisabled: bool,
                               x: string, alt: nat, d: string)
    requires !UsesMessage(isMainPage, message, messageDisabled)
    requires x != [] && !IsTrimmable(x[0])
    requires '<' !in x && '\n' !in x && '\t' !in x && '[' !in x && '&' !in x
    requires alt < 3 && AllDigits(d)
    ensures Describe(isMainPage, message, messageDisabled, "<p>" + (x + Marker(alt, d)) + "</p>")
            == if x == "0" then None else Some(x)
  {
    var body := x + Marker(alt, d);
    MarkerIsPlain(alt, d);
    assert body[0] == x[0] && body[|body| - 1] == Marker(alt, d)[|Marker(alt, d)| - 1];
    assert Trim(body) == body by {
      TrimKeepsUntrimmable(body);
    }
    assert Paragraph("<p>" + body + "</p>") == body by {
      SingleParagraph(body);
    }
    StripTrailingMarker(x, alt, d);
  }
}
