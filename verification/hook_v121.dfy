/**
 `ArticleMetaDescription::onOutputPageBeforeHTML` as revision 1.2.1 writes it:
 the same choice and extraction as 1.3.1, no citation stripping, and the
 description escaped with `htmlspecialchars` when it is added. The `empty`
 test looks at the description before escaping. The inputs and the answer are
 those of revision 1.3.1's model.
 */
module HookV121 {
  import opened Options
  import opened Text
  import opened Extraction
  import opened Escaping

  /** The value `$description` holds when the final `empty` test runs. */
  function Description(isMainPage: bool, message: Option<string>, messageDisabled: bool, html: string): string {
    if UsesMessage(isMainPage, message, messageDisabled) then message.value else Paragraph(html)
  }

  /** The content of the `description` meta tag the hook adds, if any. */
  function Describe(isMainPage: bool, message: Option<string>, messageDisabled: bool, html: string): (r: Option<string>)
    ensures r.Some? ==> '<' !in r.value && '>' !in r.value && '"' !in r.value
    ensures r.Some? ==> !PhpEmpty(r.value)
    ensures UsesMessage(isMainPage, message, messageDisabled) ==>
              (r.Some? <==> message.value != "0") && (r.Some? ==> Decode(r.value) == message.value)
    ensures !UsesMessage(isMainPage, message, messageDisabled) ==>
              (r.Some? <==> Paragraph(html) != "") && (r.Some? ==> Decode(r.value) == Paragraph(html))
  {
    var d := Description(isMainPage, message, messageDisabled, html);
    DecodeEscape(d);
    EscapeKeepsEmptiness(d);
    if PhpEmpty(d) then None else Some(HtmlSpecialChars(d))
  }

  /** The message, when it is used, is all that counts: the markup is never read. */
  lemma MessageIgnoresMarkup(isMainPage: bool, message: Option<string>, messageDisabled: bool, html1: string, html2: string)
    requires UsesMessage(isMainPage, message, messageDisabled)
    ensures Describe(isMainPage, message, messageDisabled, html1) == Describe(isMainPage, message, messageDisabled, html2)
  {
  }

  /** Markup without any `<` yields no description. */
  lemma NoTagsNoDescription(isMainPage: bool, message: Option<string>, messageDisabled: bool, html: string)
    requires !UsesMessage(isMainPage, message, messageDisabled) && '<' !in html
    ensures Describe(isMainPage, message, messageDisabled, html) == None
  {
    NoTagsNoParagraph(html);
  }

  /** Markup whose cleaned text holds no opening `<p>` tag yields no
      description, whatever other tags it carries. */
  lemma NoParagraphTagNoDescription(isMainPage: bool, message: Option<string>, messageDisabled: bool, html: string)
    requires !UsesMessage(isMainPage, message, messageDisabled)
    requires forall k :: 0 <= k < |CleanMarkup(html)| ==> !LitAt(CleanMarkup(html), k, "<p>", true)
    ensures Describe(isMainPage, message, messageDisabled, html) == None
  {
    NoParagraphTagNoParagraph(html);
  }

  /** A page made of one plain `<p>` element, described from its markup: the
      element's trimmed text, escaped, when it qualifies. */
  lemma SingleParagraphPage(isMainPage: bool, message: Option<string>, messageDisabled: bool, body: string)
    requires !UsesMessage(isMainPage, message, messageDisabled)
    requires '<' !in body && '\n' !in body && '\t' !in body
    ensures Describe(isMainPage, message, messageDisabled, "<p>" + body + "</p>")
            == if Qualifies(body) then Some(HtmlSpecialChars(Trim(body))) else None
  {
    SingleParagraph(body);
  }
}
