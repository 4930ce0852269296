# ArticleMetaDescription, modelled in Dafny

ArticleMetaDescription is a MediaWiki extension. It adds a
`<meta name="description">` tag to every article from the hook
`ArticleMetaDescription::onOutputPageBeforeHTML`:

- On the main page, a non-empty and enabled `MediaWiki:Description` message is
  used verbatim.
- Otherwise the hook takes the page's rendered HTML and cleans it:
  - it deletes every `<table>`, `<div>`, `<style>` and `<script>` block;
  - it turns newlines and tabs into spaces;
  - it strips every tag except `<p>`;
  - it collects the text of the `<p>…</p>` elements.
- The description is the first of those texts that is not empty once trimmed.
- The tag is added only when the description is not empty in PHP's sense.

The model covers two revisions of the hook:

- **1.3.1** (`ArticleMetaDescription.php`) also deletes Cite's citation markers
  from the description: `[12]`, `&amp;#91;12&amp;#93;` and `&#91;12&#93;`. It
  adds the text unescaped.
- **1.2.1** (`ArticleMetaDescription.class.php`) keeps the markers. It passes
  the description through `htmlspecialchars`.

The project is split into these modules:

- **Options, Text**: PHP's `null`, `trim`, `empty` and ASCII case folding. Also
  subsequences, which are the shape every deletion-only step leaves.
- **Patterns**: the three regular-expression shapes the hook uses, with
  `preg_replace` and `preg_match_all` semantics.
  - The block patterns have the shape `open[^>]*>.*close` and the paragraph
    pattern the shape `open.*close`. Both carry the `s`, `i` and `U`
    (ungreedy) flags.
  - The citation pattern is three alternatives of the shape `open\d*close`,
    with no flags. Its `\d*` is greedy, but no closer starts with a digit, so
    it ends where the ungreedy form would.
  - `preg_replace` deletes every leftmost, non-overlapping match.
  - `preg_match_all` collects group 1 of the same scan.
- **Extraction**: the steps shared by both revisions, from the raw HTML to the
  selected paragraph.
- **Citations**: 1.3.1's citation-marker pass.
- **Escaping**: `htmlspecialchars` with its default flags, and its inverse.
- **HookV131, HookV121**: each revision's hook, as a function from
  (is-main-page, message, message-disabled, HTML) to the meta content it adds,
  or `None`.
- **Revisions**: how the two revisions' answers relate.
- **WorkedCases**: example pages and the descriptions they get.

Some consequences of the code that the model states explicitly:

- Each block pass deletes every matching block, not only the first
  (`Extraction.RemoveBlockDropsBlock`). An opener with no closing tag after it
  stays in place (`Extraction.RemoveBlockKeepsUnclosed`).
- The message is used as written. It is not trimmed.
- Markup whose cleaned text holds no `<p>` tag gives no description
  (`Extraction.NoParagraphTagNoParagraph`). In particular, text without any tag
  gives none (`Extraction.NoTagsNoParagraph`).
- A message equal to `"0"` takes the message path, because PHP evaluates
  `"0" == null` as false. Then `empty("0")` holds, so nothing is added
  (`HookV131.Describe`).
- Escaping depends on the revision: 1.2.1 escapes, 1.3.1 does not.

## Model

| member | source | states |
|---|---|---|
| Text.Trim | ArticleMetaDescription.php:50 | `trim` returns an infix of its input that neither starts nor ends with one of PHP's six trim characters; everything cut off on either side is a trim character; the result is a subsequence of the input |
| Text.TrimKeepsUntrimmable | ArticleMetaDescription.php:50 | text that neither starts nor ends with a trim character is its own trim |
| Patterns.PatternMatch | ArticleMetaDescription.php:35-38 | for one alternative, a match record is returned only when it is a genuine match at the start of the text, and `None` only when no match of any extent exists there |
| Patterns.PatternMatchUnique | ArticleMetaDescription.php:35-38 | with `[^>]*>` ending at the first `>` and an ungreedy body ending at the nearest closer, an alternative matches at a position in at most one way |
| Patterns.MatchStart | ArticleMetaDescription.php:35-38 | the match found at the start of the text is a match of the leftmost alternative that matches there; `None` means no alternative matches there |
| Patterns.MatchStartFinds | ArticleMetaDescription.php:64-72 | any match at the start of the text, of the first alternative that matches, is exactly the one the scanner reports |
| Patterns.ReplaceAll | ArticleMetaDescription.php:35-38 | `preg_replace` with an empty replacement only deletes characters: the result is a subsequence of the input |
| Patterns.ReplaceDropsMatch | ArticleMetaDescription.php:35-38 | a match at the start is deleted whole and the scan resumes right after it |
| Patterns.ReplaceKeepsGap | ArticleMetaDescription.php:35-38 | positions at which nothing matches are copied through unchanged |
| Patterns.ReplaceUnmatched | ArticleMetaDescription.php:64-72 | when no match starts anywhere, the replacement returns the text unchanged |
| Patterns.MatchAll | ArticleMetaDescription.php:45 | every group-1 capture of `preg_match_all` is a subsequence of the scanned text |
| Patterns.CapturesTakeMatch | ArticleMetaDescription.php:45 | a match at the start contributes its body as the first capture, and the scan resumes after the match |
| Patterns.CapturesSkipGap | ArticleMetaDescription.php:45 | positions at which nothing matches contribute no capture |
| Patterns.CapturesUnmatched | ArticleMetaDescription.php:45 | with no match anywhere there are no captures |
| Patterns.CapturesAvoidClose | ArticleMetaDescription.php:45 | because the body is ungreedy, no capture contains the closing literal |
| Extraction.RemoveBlock | ArticleMetaDescription.php:35 | a block pass only deletes characters, and text without `<` is left unchanged |
| Extraction.RemoveBlocks | ArticleMetaDescription.php:35-38 | the four block passes together only delete characters, and leave text without `<` unchanged |
| Extraction.RemoveBlockKeepsText | ArticleMetaDescription.php:35 | text before the first `<` survives a block pass untouched |
| Extraction.BlockIsMatch | ArticleMetaDescription.php:35 | `<tag attrs>body</tag>`, with `attrs` free of `>` and a body that never closes the tag, is a match of the block pattern that ends just after the closing tag |
| Extraction.RemoveBlockDropsBlock | ArticleMetaDescription.php:35-38 | such a whole block at the front is deleted, tag, attributes, content and closing tag together, whatever follows it |
| Extraction.RemoveBlockKeepsOthers | ArticleMetaDescription.php:35-38 | when no `<` is followed by the tag's first letter, in either case, the pass changes nothing |
| Extraction.RemoveBlockKeepsUnclosed | ArticleMetaDescription.php:35-38 | when the tag's closing tag occurs nowhere, in either case, the pass changes nothing: an opener without a later closer stays in place |
| Extraction.RemoveBlockKeepsUnclosedAfterBlock | ArticleMetaDescription.php:35-38 | text, a closed block, then markup without the closing tag: the block is deleted and the rest, openers included, is kept after the text |
| Extraction.RemoveBlocksKeepsParagraphMarkup | ArticleMetaDescription.php:35-38 | markup whose only tags are `p` tags and closing tags passes the four block passes unchanged |
| Extraction.SpaceOut | ArticleMetaDescription.php:39 | the result has the input's length and no newline or tab; each newline or tab becomes a space in place, and every other character is kept in place |
| Extraction.StripTags | ArticleMetaDescription.php:42 | `strip_tags` only deletes characters, and leaves text without `<` unchanged |
| Extraction.StripTagsKeepsText | ArticleMetaDescription.php:42 | text before the first `<` is kept as it is |
| Extraction.StripTagsKeepsParagraphTag | ArticleMetaDescription.php:42 | a complete `p` tag (opening or closing, either case, any attributes) is kept verbatim |
| Extraction.StripTagsDropsOtherTag | ArticleMetaDescription.php:42 | every other complete tag is deleted |
| Extraction.StripTagsDropsUnterminated | ArticleMetaDescription.php:42 | a `<` never followed by `>` deletes the rest of the text |
| Extraction.StripTagsIdempotent | ArticleMetaDescription.php:42 | stripping again after `strip_tags` changes nothing |
| Extraction.StripTagsKeepsElements | ArticleMetaDescription.php:42 | a run of `<p>` elements with plain texts survives stripping unchanged |
| Extraction.Paragraphs | ArticleMetaDescription.php:44-47 | every capture of `<p>(.*)</p>` is a subsequence of the stripped text and holds no `</p>` in any case |
| Extraction.ParagraphsNeedTags | ArticleMetaDescription.php:45 | text without `<` yields no capture |
| Extraction.ParagraphsSkipText | ArticleMetaDescription.php:45 | text before the first `<` contributes no capture |
| Extraction.ParagraphsTakeElement | ArticleMetaDescription.php:45 | a plain `<p>` element at the front gives its text as the first capture, and the scan resumes after it |
| Extraction.ParagraphsOfElements | ArticleMetaDescription.php:45 | the captures of a run of plain `<p>` elements are exactly their texts, in order |
| Extraction.FirstQualifying | ArticleMetaDescription.php:49-55 | the loop stops at the first capture whose trimmed text is not empty in PHP's sense, and every earlier capture fails that test; `None` exactly when no capture passes |
| Extraction.SelectParagraph | ArticleMetaDescription.php:47-55 | the selection is `""` exactly when no capture qualifies; otherwise it is the trimmed text of a capture preceded only by non-qualifying captures; it is never `"0"` |
| Extraction.SelectionFromTextAvoids | ArticleMetaDescription.php:44-55 | a character absent from the stripped text is absent from the selection |
| Extraction.CleanMarkup | ArticleMetaDescription.php:35-42 | the cleaned text is a subsequence of the block-free, spaced-out markup and holds no newline or tab |
| Extraction.Paragraph | ArticleMetaDescription.php:35-55 | the extracted paragraph is never `"0"`, holds no newline or tab, and neither starts nor ends with a trim character |
| Extraction.NoTagsNoParagraph | ArticleMetaDescription.php:35-55 | markup without any `<` yields the empty paragraph |
| Extraction.NoParagraphTagNoParagraph | ArticleMetaDescription.php:35-55 | markup whose cleaned text holds no opening `<p>` tag, in either case, yields the empty paragraph, whatever other tags it has |
| Extraction.SingleParagraph | ArticleMetaDescription.php:35-55 | a page made of one plain `<p>` element yields the element's trimmed text if it qualifies, and nothing otherwise |
| Extraction.PlainParagraphsPage | ArticleMetaDescription.php:35-55 | a page made of plain `<p>` elements yields the first qualifying text among them, trimmed |
| Citations.StripCitations | ArticleMetaDescription.php:64-72 | the marker pass only deletes characters, never lengthens the text, and leaves text with neither `[` nor `&` unchanged |
| Citations.FinishParagraph | ArticleMetaDescription.php:56-73 | an empty selection passes through untouched; otherwise the result is a subsequence of the selection |
| Citations.StripKeepsText | ArticleMetaDescription.php:64-72 | text before the first `[` or `&` is kept as it is |
| Citations.StripRemovesBracketMarker | ArticleMetaDescription.php:69 | `[digits]` at the front is deleted, whatever follows |
| Citations.StripRemovesDoubleEncodedMarker | ArticleMetaDescription.php:69 | `&amp;#91;digits&amp;#93;` at the front is deleted, whatever follows |
| Citations.StripRemovesEncodedMarker | ArticleMetaDescription.php:69 | `&#91;digits&#93;` at the front is deleted, whatever follows |
| Citations.StripRemovesMarker | ArticleMetaDescription.php:69 | a marker in any of the three forms at the front is deleted |
| Citations.StripTrailingMarker | ArticleMetaDescription.php:64-72 | a sentence free of `[` and `&`, followed by a marker, loses the marker and keeps the sentence |
| Citations.StripIsSinglePass | ArticleMetaDescription.php:64-72 | the pass is not repeated: `[[]]` becomes `[]`, although `[]` on its own is deleted |
| Escaping.HtmlSpecialChars | ArticleMetaDescription.class.php:57 | the escaped text is no shorter, holds no `<`, `>` or `"`, and equals the input when nothing needs escaping |
| Escaping.DecodeEscape | ArticleMetaDescription.class.php:57 | decoding the four entities gives back exactly the text that was escaped |
| Escaping.EscapeInjective | ArticleMetaDescription.class.php:57 | distinct descriptions give distinct meta contents |
| Escaping.EscapeConcat | ArticleMetaDescription.class.php:57 | escaping works character by character: it distributes over concatenation |
| Escaping.EscapeKeepsEmptiness | ArticleMetaDescription.class.php:56-57 | PHP's `empty` gives the same answer before and after escaping |
| HookV131.Describe | ArticleMetaDescription.php:25-83 | content is added only when it is not empty in PHP's sense. With the message in use: the message verbatim, unless it is `"0"`. Otherwise: content is added exactly when the marker-free paragraph is neither `""` nor `"0"`, and then it is that text. It is a subsequence of the selected paragraph and holds no newline or tab |
| HookV131.MessageIgnoresMarkup | ArticleMetaDescription.php:34-78 | when the message is used, the page's markup does not affect the result |
| HookV131.ExtractionIgnoresMessage | ArticleMetaDescription.php:34-74 | when the message is not used, its text and disabled flag do not affect the result |
| HookV131.NoTagsNoDescription | ArticleMetaDescription.php:34-82 | markup without any `<` gets no description |
| HookV131.CitationOnlyNoDescription | ArticleMetaDescription.php:56-82 | a selected paragraph that is nothing but a `[digits]` marker gets no description |
| HookV131.NoParagraphTagNoDescription | ArticleMetaDescription.php:34-82 | markup whose cleaned text holds no opening `<p>` tag gets no description |
| HookV131.SingleParagraphPage | ArticleMetaDescription.php:34-82 | a page of one plain, marker-free `<p>` element is described by the element's trimmed text when it qualifies, and gets nothing otherwise |
| HookV131.SentenceWithMarkerPage | ArticleMetaDescription.php:56-82 | a page of one `<p>` element holding a sentence and a trailing marker, in any of the three forms, is described by the sentence alone |
| HookV121.Describe | ArticleMetaDescription.class.php:21-59 | the content never holds `<`, `>` or `"`, and is never empty in PHP's sense. With the message in use: content is added exactly when the message is not `"0"`, and it decodes to the message. Otherwise: content is added exactly when the paragraph is not `""`, and it decodes to the paragraph |
| HookV121.MessageIgnoresMarkup | ArticleMetaDescription.class.php:30-54 | when the message is used, the page's markup does not affect the result |
| HookV121.NoTagsNoDescription | ArticleMetaDescription.class.php:30-58 | markup without any `<` gets no description |
| HookV121.NoParagraphTagNoDescription | ArticleMetaDescription.class.php:30-58 | markup whose cleaned text holds no opening `<p>` tag gets no description |
| HookV121.SingleParagraphPage | ArticleMetaDescription.class.php:30-58 | a page of one plain `<p>` element is described by the element's trimmed text, escaped, when it qualifies |
| Revisions.EscapeOption | ArticleMetaDescription.class.php:56-57 | escaping an optional content keeps its presence, and the escaped content decodes back to the original |
| Revisions.MessageAgreesUpToEscaping | ArticleMetaDescription.class.php:51-58 | with the message in use, 1.2.1 adds exactly what 1.3.1 adds, escaped |
| Revisions.MarkerFreeAgreesUpToEscaping | ArticleMetaDescription.php:56-82 | when the selected paragraph holds neither `[` nor `&`, 1.2.1 adds exactly what 1.3.1 adds, escaped |
| Revisions.NewerEmitsLess | ArticleMetaDescription.php:56-82 | 1.3.1 adds a description only where 1.2.1 does. Its content is 1.2.1's content, decoded, with characters deleted |
| WorkedCases.TablePassRemovesTable | ArticleMetaDescription.php:35 | `<table><p>hidden</p></table>` at the front of a page is deleted by the table pass |
| WorkedCases.TableContentExcluded | ArticleMetaDescription.php:35-55 | `<table><p>hidden</p></table><p>First real text.</p>` is described as `First real text.` |
| WorkedCases.SecondOneSelected | ArticleMetaDescription.php:49-55 | among the captures `""`, `"   "` and `"Second one here."`, the third is selected |
| WorkedCases.EmptyParagraphsSkipped | ArticleMetaDescription.php:35-55 | `<p></p><p>   </p><p>Second one here.</p>` is described as `Second one here.` |
| WorkedCases.RawMarkerStripped | ArticleMetaDescription.php:64-72 | `<p>Statement of fact.[12]</p>` is described as `Statement of fact.` |
| WorkedCases.DoubleEncodedMarkerStripped | ArticleMetaDescription.php:64-72 | `<p>Statement.&amp;#91;3&amp;#93;</p>` is described as `Statement.` |
| WorkedCases.MessageIsDescription | ArticleMetaDescription.php:75-78 | on the main page, the enabled message `Custom desc` is the description in both revisions, whatever the markup |
| WorkedCases.DisabledMessageIgnored | ArticleMetaDescription.php:34 | a disabled message is ignored in both revisions, and the page is described from its markup |

## Left out

- The host's side of the hook becomes parameters or the return value:
  - `OutputPage::getTitle()->isMainPage()`;
  - the `wfMessage( 'description' )` lookup and its `isDisabled()` check;
  - `OutputPage::addMeta`.
  These are MediaWiki code outside the extension.
- Regular expressions are modelled as the three fixed shapes the hook uses, not
  as general PCRE.
  - Backtracking and `preg_*` error returns are not modelled: the model always
    completes the scan.
  - No pattern has the `u` flag, so PCRE never checks UTF-8. A pass can still
    hit PCRE's backtrack or JIT-stack limit, for instance the ungreedy `.*`
    scan from an unclosed `<table` on a large page. `preg_replace` then
    returns `null`, the later steps see an empty string, and PHP adds no
    description where the model may add one.
- `strip_tags` is modelled as "a tag runs from `<` to the next `>`".
  - Not modelled: PHP's state machine for quotes inside tags, HTML comments,
    `<?` processing instructions, and `<` followed by whitespace (which PHP keeps
    as text).
  - NUL characters: see the `Extraction.StripTags` line below.
  - These only matter for markup that MediaWiki's parser does not emit.
- `htmlspecialchars` is modelled with its default flags on the targeted PHP
  versions: `&`, `<`, `>` and `"` are escaped. Not modelled:
  - single quotes, which later PHP versions also escape;
  - the charset argument;
  - invalid-UTF-8 handling.
- Strings are sequences of characters, where PHP works on bytes. Case folding
  is ASCII-only, as is PCRE's `i` flag without `u`. Every literal the patterns
  and `trim` look for is ASCII, so only non-ASCII text passes through differently
  (as characters rather than byte sequences).
- The `count( $matches )` test is always true, because `preg_match_all` fills
  `$matches` with one array per group. The model takes that branch
  unconditionally.
- The undefined `$description` that would follow a failed `count` test cannot
  happen, and is not modelled.
- Extraction.StripTags: keeps NUL characters, which PHP's `strip_tags` deletes
  wherever they occur, inside tags as well as in text. For `<p>a\0b</p>` PHP
  describes the page as `ab` and the model as `a\0b`. The contracts of
  `HookV131.Describe` and `HookV121.Describe` inherit this difference.
- Extraction.Paragraph: its contract gives the properties every extracted
  paragraph has, not its value. The value for specific page shapes is given by
  `Extraction.SingleParagraph` and `Extraction.PlainParagraphsPage`.
