/**
 How the two revisions of the hook relate. They make the same choice between
 message and markup and select the same paragraph; 1.3.1 then deletes
 citation markers and adds the text raw, 1.2.1 keeps the markers and escapes.
 */
module Revisions {
  import opened Options
  import opened Text
  import opened Extraction
  import opened Citations
  import opened Escaping
  import HookV131
  import HookV121

  /** The escaped form of an optional meta content. */
  function EscapeOption(d: Option<string>): (r: Option<string>)
    ensures r.Some? <==> d.Some?
    ensures d.Some? ==> Decode(r.value) == d.value
  {
    match d
    case None => None
    case Some(s) =>
      DecodeEscape(s);
      Some(HtmlSpecialChars(s))
  }

  /** With the message in use, 1.2.1 adds exactly 1.3.1's content, escaped. */
  lemma MessageAgreesUpToEscaping(isMainPage: bool, message: Option<string>, messageDisabled: bool, html: string)
    requires UsesMessage(isMainPage, message, messageDisabled)
    ensures HookV121.Describe(isMainPage, message, messageDisabled, html)
            == EscapeOption(HookV131.Describe(isMainPage, message, messageDisabled, html))
  {
    EscapeKeepsEmptiness(message.value);
  }

  /** When the selected paragraph holds neither `[` nor `&`, no marker can be in
      it, and again the two revisions differ by escaping alone. */
  lemma MarkerFreeAgreesUpToEscaping(isMainPage: bool, message: Option<string>, messageDisabled: bool, html: string)
    requires !UsesMessage(isMainPage, message, messageDisabled)
    requires '[' !in Paragraph(html) && '&' !in Paragraph(html)
    ensures HookV121.Describe(isMainPage, message, messageDisabled, html)
            == EscapeOption(HookV131.Describe(isMainPage, message, messageDisabled, html))
  {
    EscapeKeepsEmptiness(Paragraph(html));
  }

  /** Revision 1.3.1 adds a description only where 1.2.1 does, and its content
      is what 1.2.1 describes with some characters deleted. */
  lemma NewerEmitsLess(isMainPage: bool, message: Option<string>, messageDisabled: bool, html: string)
    requires HookV131.Describe(isMainPage, message, messageDisabled, html).Some?
    ensures HookV121.Describe(isMainPage, message, messageDisabled, html).Some?
    ensures IsSubsequence(HookV131.Describe(isMainPage, message, messageDisabled, html).value,
                          Decode(HookV121.Describe(isMainPage, message, messageDisabled, html).value))
  {
    if UsesMessage(isMainPage, message, messageDisabled) {
      SubsequenceReflexive(message.value);
    }
  }
}
