/**
 The part of `ArticleMetaDescription::onOutputPageBeforeHTML` that both
 revisions (1.2.1 and 1.3.1) share: deciding between the configured
 `MediaWiki:Description` message and the page text, and extracting the first
 non-empty paragraph from the rendered markup.

 The extraction runs, in this order: removal of table, div, style and script
 blocks; newlines and tabs to spaces; `strip_tags` keeping only `<p>`;
 collection of the `<p>...</p>` captures; selection of the first capture whose
 trimmed text is not PHP-empty.
 */
module Extraction {
  import opened Options
  import opened Text
  import opened Patterns

  // ---------------------------------------------------------------------------
  // Override choice

  /** The message text replaces extraction only on the main page, when the
      message is not `== null` (for a string: not "") and not disabled. */
  predicate UsesMessage(isMainPage: bool, message: Option<string>, messageDisabled: bool) {
    isMainPage && message.Some? && message.value != "" && !messageDisabled
  }

  // ---------------------------------------------------------------------------
  // Block removal

  /** `/<tag[^>]*>.*<\/tag>/siU` for a lower-case tag name. */
  function BlockRegex(tag: string): (re: Regex)
    ensures ValidRegex(re)
  {
    [Pattern("<" + tag, true, AnyLazy, "</" + tag + ">", true)]
  }

  /** A string without `<` holds no literal that starts with `<`. */
  lemma NoAngleNoLiteral(s: string, lit: string, caseless: bool)
    requires |lit| > 0 && lit[0] == '<' && '<' !in s
    ensures forall k :: 0 <= k < |s| ==> !LitAt(s, k, lit, caseless)
  {
    forall k | 0 <= k < |s|
      ensures !LitAt(s, k, lit, caseless)
    {
      assert Fold(s[k], caseless) != lit[0];
    }
  }

  /** Markup without `<` has no block to remove. */
  lemma NoAngleNoBlock(s: string, tag: string)
    ensures '<' !in s ==> ReplaceAll(s, BlockRegex(tag)) == s
  {
    var re := BlockRegex(tag);
    if '<' !in s {
      NoAngleNoLiteral(s, re[0].open, true);
      NoMatchWithoutOpener(s, re);
      ReplaceUnmatched(s, re);
    }
  }

  /** One block-removal pass: every leftmost non-overlapping block of `tag` deleted. */
  function RemoveBlock(s: string, tag: string): (r: string)
    ensures IsSubsequence(r, s)
    ensures '<' !in s ==> r == s
  {
    NoAngleNoBlock(s, tag);
    ReplaceAll(s, BlockRegex(tag))
  }

  /** The four passes, in the order table, div, style, script. */
  function RemoveBlocks(html: string): (r: string)
    ensures IsSubsequence(r, html)
    ensures '<' !in html ==> r == html
  {
    var t1 := RemoveBlock(html, "table");
    var t2 := RemoveBlock(t1, "div");
    var t3 := RemoveBlock(t2, "style");
    var t4 := RemoveBlock(t3, "script");
    SubsequenceTransitive(t2, t1, html);
    SubsequenceTransitive(t3, t2, html);
    SubsequenceTransitive(t4, t3, html);
    t4
  }

  /** A literal whose characters are their own folds is found, caselessly,
      where it was put. */
  lemma LitAtFolded(x: string, lit: string, y: string)
    requires forall k :: 0 <= k < |lit| ==> Lower(lit[k]) == lit[k]
    ensures LitAt(x + lit + y, |x|, lit, true)
  {
    forall j | 0 <= j < |lit|
      ensures Fold((x + lit + y)[|x| + j], true) == lit[j]
    {
      assert (x + lit + y)[|x| + j] == lit[j];
    }
  }

  /** A tag name as the block patterns spell it: lower-case ASCII letters. */
  predicate IsLowerName(tag: string) {
    |tag| > 0 && forall k :: 0 <= k < |tag| ==> 'a' <= tag[k] <= 'z'
  }

  /** Text before the first `<` passes through a block-removal pass unchanged. */
  lemma RemoveBlockKeepsText(x: string, y: string, tag: string)
    requires '<' !in x
    ensures RemoveBlock(x + y, tag) == x + RemoveBlock(y, tag)
  {
    var s := x + y;
    var re := BlockRegex(tag);
    forall q | 0 <= q < |x|
      ensures NoMatch(s[q..], re)
    {
      assert s[q..][0] == x[q];
      forall b, m: Match | 0 <= b < |re|
        ensures !IsMatch(s[q..], re[b], m)
      {
        assert Fold(s[q..][0], true) != re[b].open[0];
      }
    }
    ReplaceKeepsGap(s, re, |x|);
    assert s[..|x|] == x && s[|x|..] == y;
  }

  /** The opener of a lower-case tag's block pattern is its own fold. */
  lemma OpenerFolded(tag: string)
    requires IsLowerName(tag)
    ensures forall k :: 0 <= k < |"<" + tag| ==> Lower(("<" + tag)[k]) == ("<" + tag)[k]
  {
    assert forall k :: 1 <= k < |"<" + tag| ==> ("<" + tag)[k] == tag[k - 1];
  }

  /** So is the closer. */
  lemma CloserFolded(tag: string)
    requires IsLowerName(tag)
    ensures forall k :: 0 <= k < |"</" + tag + ">"| ==> Lower(("</" + tag + ">")[k]) == ("</" + tag + ">")[k]
  {
    assert forall k :: 2 <= k < |"</" + tag + ">"| - 1 ==> ("</" + tag + ">")[k] == tag[k - 2];
  }

  /** Looking for a literal inside a piece of a text is looking in the text. */
  lemma LitAtShift(pre: string, t: string, post: string, k: nat, lit: string, caseless: bool)
    requires k + |lit| <= |t|
    ensures LitAt(pre + t + post, |pre| + k, lit, caseless) <==> LitAt(t, k, lit, caseless)
  {
    forall i | k <= i < k + |lit|
      ensures (pre + t + post)[|pre| + i] == t[i]
    {
    }
  }

  /** The content of a block of `tag` up to the closing tag that ends it: no
      closing tag of `tag`, in any case, starts inside it. */
  predicate BlockContent(body: string, tag: string) {
    forall k :: 0 <= k < |body| ==> !LitAt(body + ("</" + tag + ">"), k, "</" + tag + ">", true)
  }

  /** Content without `<` holds no closing tag. */
  lemma PlainBlockContent(body: string, tag: string)
    requires '<' !in body
    ensures BlockContent(body, tag)
  {
    var t := body + ("</" + tag + ">");
    forall k | 0 <= k < |body|
      ensures !LitAt(t, k, "</" + tag + ">", true)
    {
      assert t[k] == body[k];
      assert Fold(t[k + 0], true) != ("</" + tag + ">")[0];
    }
  }

  /** Block content stays free of closing tags wherever it is embedded. */
  lemma ContentHasNoCloser(pre: string, body: string, tag: string, y: string)
    requires BlockContent(body, tag)
    ensures forall k :: |pre| <= k < |pre| + |body| ==> !LitAt(pre + (body + ("</" + tag + ">")) + y, k, "</" + tag + ">", true)
  {
    var close := "</" + tag + ">";
    forall k | |pre| <= k < |pre| + |body|
      ensures !LitAt(pre + (body + close) + y, k, close, true)
    {
      LitAtShift(pre, body + close, y, k - |pre|, close, true);
    }
  }

  /** The block pattern's opener and closer where a block puts them. */
  lemma BlockDelimiters(tag: string, attrs: string, body: string, y: string)
    requires IsLowerName(tag)
    ensures var s := ("<" + tag + attrs + ">") + (body + ("</" + tag + ">")) + y;
            LitAt(s, 0, "<" + tag, true)
            && LitAt(s, |tag| + |attrs| + 2 + |body|, "</" + tag + ">", true)
  {
    BlockOpener(tag, attrs, body, y);
    BlockCloser(tag, attrs, body, y);
  }

  lemma BlockOpener(tag: string, attrs: string, body: string, y: string)
    requires IsLowerName(tag)
    ensures LitAt(("<" + tag + attrs + ">") + (body + ("</" + tag + ">")) + y, 0, "<" + tag, true)
  {
    var open := "<" + tag;
    var rest := attrs + ">" + (body + ("</" + tag + ">")) + y;
    OpenerFolded(tag);
    LitAtFolded([], open, rest);
    assert [] + open + rest == ("<" + tag + attrs + ">") + (body + ("</" + tag + ">")) + y;
  }

  lemma BlockCloser(tag: string, attrs: string, body: string, y: string)
    requires IsLowerName(tag)
    ensures LitAt(("<" + tag + attrs + ">") + (body + ("</" + tag + ">")) + y,
                  |tag| + |attrs| + 2 + |body|, "</" + tag + ">", true)
  {
    var close := "</" + tag + ">";
    var before := "<" + tag + attrs + ">" + body;
    CloserFolded(tag);
    LitAtFolded(before, close, y);
    assert before + close + y == ("<" + tag + attrs + ">") + (body + close) + y;
  }

  /** The match a block pattern makes at the start of a whole block. */
  lemma BlockIsMatch(tag: string, attrs: string, body: string, y: string)
    requires IsLowerName(tag) && '>' !in attrs && BlockContent(body, tag)
    ensures var bs := |tag| + |attrs| + 2;
            var s := ("<" + tag + attrs + ">") + (body + ("</" + tag + ">")) + y;
            var m := Match(0, bs, bs + |body|, bs + |body| + |tag| + 3);
            IsRegexMatch(s, BlockRegex(tag), m) && s[m.end..] == y
  {
    var p := BlockRegex(tag)[0];
    var pre := "<" + tag + attrs + ">";
    var s := pre + (body + p.close) + y;
    var bs := |pre|;
    BlockDelimiters(tag, attrs, body, y);
    assert forall k :: |p.open| <= k < bs - 1 ==> s[k] == attrs[k - |p.open|];
    assert s[bs - 1] == '>';
    ContentHasNoCloser(pre, body, tag, y);
    assert s[bs + |body| + |p.close|..] == y;
  }

  /** A pass deletes the block it matches at the start and carries on after it. */
  lemma RemoveBlockDropsMatch(s: string, tag: string, m: Match)
    requires IsRegexMatch(s, BlockRegex(tag), m)
    ensures m.end <= |s| && RemoveBlock(s, tag) == RemoveBlock(s[m.end..], tag)
  {
    ReplaceDropsMatch(s, BlockRegex(tag), m);
  }

  /** A block is deleted together with its opening tag, whatever attributes
      that carries, and its closing tag; the pass carries on after it. */
  lemma RemoveBlockDropsBlock(tag: string, attrs: string, body: string, y: string)
    requires IsLowerName(tag) && '>' !in attrs && BlockContent(body, tag)
    ensures RemoveBlock("<" + tag + attrs + ">" + body + "</" + tag + ">" + y, tag) == RemoveBlock(y, tag)
  {
    var s := ("<" + tag + attrs + ">") + (body + ("</" + tag + ">")) + y;
    var bs := |tag| + |attrs| + 2;
    BlockIsMatch(tag, attrs, body, y);
    assert s == "<" + tag + attrs + ">" + body + "</" + tag + ">" + y;
    RemoveBlockDropsMatch(s, tag, Match(0, bs, bs + |body|, bs + |body| + |tag| + 3));
  }

  /** A pass for `tag` leaves alone markup in which no `<` is followed by the
      tag name's first letter, in either case. */
  lemma RemoveBlockKeepsOthers(s: string, tag: string)
    requires |tag| > 0
    requires forall k :: 0 <= k < |s| - 1 && s[k] == '<' ==> Lower(s[k + 1]) != tag[0]
    ensures RemoveBlock(s, tag) == s
  {
    var re := BlockRegex(tag);
    forall a, k | 0 <= a < |re| && 0 <= k < |s|
      ensures !LitAt(s, k, re[a].open, re[a].caseless)
    {
      if s[k] != '<' {
        assert Fold(s[k + 0], true) != re[a].open[0];
      } else if k < |s| - 1 {
        assert Fold(s[k + 1], true) != re[a].open[1];
      }
    }
    NoMatchWithoutOpener(s, re);
    ReplaceUnmatched(s, re);
  }

  /** A pass leaves alone markup in which the tag's closing tag never occurs, in
      either case: an opener with no closer after it stays in place. */
  lemma RemoveBlockKeepsUnclosed(s: string, tag: string)
    requires forall k :: 0 <= k < |s| ==> !LitAt(s, k, "</" + tag + ">", true)
    ensures RemoveBlock(s, tag) == s
  {
    var re := BlockRegex(tag);
    NoMatchWithoutCloser(s, re);
    ReplaceUnmatched(s, re);
  }

  /** Text, then a closed block, then markup with no closing tag for it: the
      block goes, and every opener in the rest stays with the text before it. */
  lemma RemoveBlockKeepsUnclosedAfterBlock(x: string, tag: string, attrs: string, body: string, y: string)
    requires '<' !in x
    requires IsLowerName(tag) && '>' !in attrs && BlockContent(body, tag)
    requires forall k :: 0 <= k < |y| ==> !LitAt(y, k, "</" + tag + ">", true)
    ensures RemoveBlock(x + ("<" + tag + attrs + ">" + body + "</" + tag + ">" + y), tag) == x + y
  {
    var rest := "<" + tag + attrs + ">" + body + "</" + tag + ">" + y;
    RemoveBlockKeepsText(x, rest, tag);
    RemoveBlockDropsBlock(tag, attrs, body, y);
    RemoveBlockKeepsUnclosed(y, tag);
  }

  /** Markup whose tags are all `p` tags or closing tags: no `<` is followed by
      anything but `p`, `P` or `/`. */
  predicate OnlyParagraphOrClosingTags(s: string) {
    forall k :: 0 <= k < |s| - 1 && s[k] == '<' ==> Lower(s[k + 1]) == 'p' || s[k + 1] == '/'
  }

  /** Such markup passes the four block-removal passes unchanged. */
  lemma RemoveBlocksKeepsParagraphMarkup(html: string)
    requires OnlyParagraphOrClosingTags(html)
    ensures RemoveBlocks(html) == html
  {
    RemoveBlockKeepsOthers(html, "table");
    RemoveBlockKeepsOthers(html, "div");
    RemoveBlockKeepsOthers(html, "style");
    RemoveBlockKeepsOthers(html, "script");
  }

  // ---------------------------------------------------------------------------
  // Newlines and tabs

  /** `preg_replace('/\n|\t/', ' ', $s)`. */
  function SpaceOut(s: string): (r: string)
    ensures |r| == |s|
    ensures '\n' !in r && '\t' !in r
    ensures forall k :: 0 <= k < |s| && s[k] != '\n' && s[k] != '\t' ==> r[k] == s[k]
    ensures forall k :: 0 <= k < |s| && (s[k] == '\n' || s[k] == '\t') ==> r[k] == ' '
  {
    if s == [] then []
    else [if s[0] == '\n' || s[0] == '\t' then ' ' else s[0]] + SpaceOut(s[1..])
  }

  // ---------------------------------------------------------------------------
  // strip_tags keeping <p>

  /** The whitespace that ends a tag name. */
  predicate IsSpace(c: char) {
    c == ' ' || c == '\t' || c == '\n' || c == '\r' || c as int == 11 || c as int == 12
  }

  /** The longest prefix of `t` free of whitespace and `/`. */
  function NamePrefix(t: string): (r: string)
    ensures |r| <= |t| && r == t[..|r|]
    ensures forall k :: 0 <= k < |r| ==> !IsSpace(r[k]) && r[k] != '/'
    ensures |r| == |t| || IsSpace(t[|r|]) || t[|r|] == '/'
  {
    if t == [] || IsSpace(t[0]) || t[0] == '/' then [] else [t[0]] + NamePrefix(t[1..])
  }

  /** The name of the tag whose text between `<` and `>` is `inner`: after an
      optional leading `/`, the characters up to whitespace or `/`. */
  function TagName(inner: string): string {
    NamePrefix(if |inner| > 0 && inner[0] == '/' then inner[1..] else inner)
  }

  /** The only tag `strip_tags($s, '<p>')` keeps: `p`, in either case, opening or closing. */
  predicate IsParagraphTag(inner: string) {
    var name := TagName(inner);
    |name| == 1 && Lower(name[0]) == 'p'
  }

  lemma {:induction false} SubsequenceAppend(x: string, a: string, b: string)
    requires IsSubsequence(a, b)
    ensures IsSubsequence(x + a, x + b)
    decreases |x|
  {
    if x != [] {
      SubsequenceAppend(x[1..], a, b);
      SubsequenceCons(x[0], x[1..] + a, x[1..] + b);
      assert [x[0]] + (x[1..] + a) == x + a;
      assert [x[0]] + (x[1..] + b) == x + b;
    } else {
      assert x + a == a && x + b == b;
    }
  }

  /** `strip_tags($s, '<p>')`: a tag runs from `<` to the next `>`; `p` tags are
      kept verbatim, every other tag is deleted, and a `<` with no later `>`
      deletes the rest of the text. */
  function StripTags(s: string): (r: string)
    decreases |s|
    ensures IsSubsequence(r, s)
    ensures '<' !in s ==> r == s
  {
    if s == [] then []
    else if s[0] != '<' then
      var rest := StripTags(s[1..]);
      SubsequenceCons(s[0], rest, s[1..]);
      assert [s[0]] + s[1..] == s;
      [s[0]] + rest
    else
      match AfterTagEnd(s, 1)
      case None => []
      case Some(e) =>
        var rest := StripTags(s[e..]);
        if IsParagraphTag(s[1..e - 1]) then
          SubsequenceAppend(s[..e], rest, s[e..]);
          assert s[..e] + s[e..] == s;
          s[..e] + rest
        else
          SubsequenceOfSuffix(rest, s, e);
          rest
  }

  /** One step of the scan over a character that does not open a tag. */
  lemma StripTextStep(c: char, t: string)
    requires c != '<'
    ensures StripTags([c] + t) == [c] + StripTags(t)
  {
    var s := [c] + t;
    assert s[0] == c && s[1..] == t;
  }

  /** One step of the scan over a complete tag ending just before `e`. */
  lemma StripTagStep(s: string, e: nat)
    requires s != [] && s[0] == '<' && AfterTagEnd(s, 1) == Some(e)
    ensures StripTags(s) == (if IsParagraphTag(s[1..e - 1]) then s[..e] else []) + StripTags(s[e..])
  {
    if !IsParagraphTag(s[1..e - 1]) {
      assert [] + StripTags(s[e..]) == StripTags(s[e..]);
    }
  }

  /** Text before the first `<` passes through unchanged. */
  lemma {:induction false} StripTagsKeepsText(x: string, y: string)
    requires '<' !in x
    ensures StripTags(x + y) == x + StripTags(y)
    decreases |x|
  {
    if x != [] {
      var c, tail := x[0], x[1..];
      assert '<' !in tail;
      StripTagsKeepsText(tail, y);
      assert x == [c] + tail;
      StripTextCons(c, tail, y);
    } else {
      assert x + y == y;
    }
  }

  /** One more character that does not open a tag, in front of text that passes through. */
  lemma StripTextCons(c: char, tail: string, y: string)
    requires c != '<' && StripTags(tail + y) == tail + StripTags(y)
    ensures StripTags([c] + tail + y) == [c] + tail + StripTags(y)
  {
    Associate([c], tail, y);
    StripTextStep(c, tail + y);
    Associate([c], tail, StripTags(y));
  }

  /** Where a tag opened at position 0 ends depends only on the text up to its `>`. */
  lemma TagEndStable(s: string, t: string, e: nat)
    requires AfterTagEnd(s, 1) == Some(e) && e <= |t| && t[..e] == s[..e]
    ensures AfterTagEnd(t, 1) == Some(e)
  {
    assert t[e - 1] == s[e - 1];
    assert forall k :: 1 <= k < e - 1 ==> t[k] == s[k];
  }

  /** A complete `p` tag is kept verbatim. */
  lemma StripTagsKeepsParagraphTag(inner: string, y: string)
    requires '>' !in inner && IsParagraphTag(inner)
    ensures StripTags("<" + inner + ">" + y) == "<" + inner + ">" + StripTags(y)
  {
    var s := "<" + inner + ">" + y;
    var e := |inner| + 2;
    assert s[e - 1] == '>';
    assert forall k :: 1 <= k < e - 1 ==> s[k] == inner[k - 1];
    assert s[1..e - 1] == inner;
    assert s[..e] == "<" + inner + ">";
    assert s[e..] == y;
    StripTagStep(s, e);
  }

  /** Any other complete tag is deleted. */
  lemma StripTagsDropsOtherTag(inner: string, y: string)
    requires '>' !in inner && !IsParagraphTag(inner)
    ensures StripTags("<" + inner + ">" + y) == StripTags(y)
  {
    var s := "<" + inner + ">" + y;
    var e := |inner| + 2;
    assert s[e - 1] == '>';
    assert forall k :: 1 <= k < e - 1 ==> s[k] == inner[k - 1];
    assert s[1..e - 1] == inner;
    assert s[e..] == y;
    StripTagStep(s, e);
    assert [] + StripTags(y) == StripTags(y);
  }

  /** A `<` never followed by `>` swallows the rest of the text. */
  lemma StripTagsDropsUnterminated(inner: string)
    requires '>' !in inner
    ensures StripTags("<" + inner) == ""
  {
    var s := "<" + inner;
    assert forall k :: 1 <= k < |s| ==> s[k] == inner[k - 1];
  }

  /** After stripping, only text and `p` tags remain, so stripping again changes nothing. */
  lemma {:induction false} StripTagsIdempotent(s: string)
    ensures StripTags(StripTags(s)) == StripTags(s)
    decreases |s|
  {
    if s != [] {
      if s[0] != '<' {
        var c, tail := s[0], s[1..];
        var rest := StripTags(tail);
        assert s == [c] + tail;
        StripTextStep(c, tail);
        StripTagsIdempotent(tail);
        StripTextStep(c, rest);
      } else {
        match AfterTagEnd(s, 1)
        case None =>
        case Some(e) =>
          StripTagsIdempotent(s[e..]);
          StripTagStep(s, e);
          if IsParagraphTag(s[1..e - 1]) {
            StripKeptTagAgain(s, e, StripTags(s[e..]));
          }
      }
    }
  }

  /** A kept `p` tag is kept again by a second pass. */
  lemma StripKeptTagAgain(s: string, e: nat, rest: string)
    requires s != [] && s[0] == '<' && AfterTagEnd(s, 1) == Some(e) && IsParagraphTag(s[1..e - 1])
    requires StripTags(rest) == rest
    ensures StripTags(s[..e] + rest) == s[..e] + rest
  {
    var t := s[..e] + rest;
    assert t[..e] == s[..e] && t[0] == '<';
    TagEndStable(s, t, e);
    SamePrefixSameSlice(s, t, e, 1, e - 1);
    assert t[e..] == rest;
    StripTagStep(t, e);
  }

  /** Texts that agree up to `e` agree on every slice below `e`. */
  lemma SamePrefixSameSlice(s: string, t: string, e: nat, i: nat, j: nat)
    requires i <= j <= e <= |s| && e <= |t| && s[..e] == t[..e]
    ensures s[i..j] == t[i..j]
  {
    forall k | i <= k < j
      ensures s[k] == t[k]
    {
      assert s[k] == s[..e][k] && t[k] == t[..e][k];
    }
  }

  // ---------------------------------------------------------------------------
  // Paragraph captures and selection

  /** `/<p>(.*)<\/p>/siU`. */
  function ParagraphRegex(): (re: Regex)
    ensures ValidRegex(re)
  {
    [Pattern("<p>", false, AnyLazy, "</p>", true)]
  }

  /** Group 1 of `preg_match_all('/<p>(.*)<\/p>/siU', $s)`: each capture runs
      from a literal `<p>` to the nearest following `</p>`, so none contains `</p>`. */
  function Paragraphs(s: string): (r: seq<string>)
    ensures forall j :: 0 <= j < |r| ==> IsSubsequence(r[j], s)
    ensures forall j, k :: 0 <= j < |r| ==> !LitAt(r[j], k, "</p>", true)
  {
    CapturesAvoidClose(s, ParagraphRegex());
    MatchAll(s, ParagraphRegex())
  }

  /** Text without any `<` holds no paragraph. */
  lemma ParagraphsNeedTags(s: string)
    requires '<' !in s
    ensures Paragraphs(s) == []
  {
    var re := ParagraphRegex();
    NoAngleNoLiteral(s, re[0].open, true);
    NoMatchWithoutOpener(s, re);
    CapturesUnmatched(s, re);
  }

  /** Text before the first `<` contributes no capture. */
  lemma ParagraphsSkipText(x: string, y: string)
    requires '<' !in x
    ensures Paragraphs(x + y) == Paragraphs(y)
  {
    var s := x + y;
    var re := ParagraphRegex();
    forall q | 0 <= q < |x|
      ensures NoMatch(s[q..], re)
    {
      assert s[q..][0] == x[q];
      forall b, m: Match | 0 <= b < |re|
        ensures !IsMatch(s[q..], re[b], m)
      {
        assert Fold(s[q..][0], true) != re[b].open[0];
      }
    }
    CapturesSkipGap(s, re, |x|);
    assert s[|x|..] == y;
  }

  /** The match the paragraph pattern makes at the start of `<p>body</p>`. */
  lemma ParagraphIsMatch(body: string, y: string)
    requires '<' !in body
    ensures var s := "<p>" + body + "</p>" + y;
            var m := Match(0, 3, 3 + |body|, 7 + |body|);
            IsRegexMatch(s, ParagraphRegex(), m) && s[m.bodyStart..m.bodyEnd] == body && s[m.end..] == y
  {
    var p := ParagraphRegex()[0];
    var s := "<p>" + body + "</p>" + y;
    LitAtFolded([], "<p>", body + "</p>" + y);
    assert [] + "<p>" + (body + "</p>" + y) == s;
    LitAtFolded("<p>" + body, "</p>", y);
    forall k | 3 <= k < 3 + |body|
      ensures !LitAt(s, k, p.close, true)
    {
      assert s[k] == body[k - 3];
      assert Fold(s[k + 0], true) != p.close[0];
    }
    assert s[3..3 + |body|] == body;
    assert s[7 + |body|..] == y;
  }

  /** A `<p>` element whose text holds no `<` is captured whole. */
  lemma ParagraphsTakeElement(body: string, y: string)
    requires '<' !in body
    ensures Paragraphs("<p>" + body + "</p>" + y) == [body] + Paragraphs(y)
  {
    ParagraphIsMatch(body, y);
    CapturesTakeMatch("<p>" + body + "</p>" + y, ParagraphRegex(), Match(0, 3, 3 + |body|, 7 + |body|));
  }

  /** A capture qualifies when its trimmed text is not PHP-empty. */
  predicate Qualifies(capture: string) {
    !PhpEmpty(Trim(capture))
  }

  /** The first qualifying capture at index `from` or later. */
  function FirstQualifying(captures: seq<string>, from: nat): (r: Option<nat>)
    requires from <= |captures|
    decreases |captures| - from
    ensures r.Some? ==> from <= r.value < |captures| && Qualifies(captures[r.value])
    ensures r.Some? ==> forall k :: from <= k < r.value ==> !Qualifies(captures[k])
    ensures r.None? ==> forall k :: from <= k < |captures| ==> !Qualifies(captures[k])
  {
    if from == |captures| then None
    else if Qualifies(captures[from]) then Some(from)
    else FirstQualifying(captures, from + 1)
  }

  /** The loop over the captures: the trimmed first qualifying one, or "" when
      none qualifies. */
  function SelectParagraph(captures: seq<string>): (r: string)
    ensures r != "0"
    ensures r == "" <==> forall k :: 0 <= k < |captures| ==> !Qualifies(captures[k])
    ensures r != "" ==> exists j :: 0 <= j < |captures| && r == Trim(captures[j])
                                    && forall k :: 0 <= k < j ==> !Qualifies(captures[k])
  {
    match FirstQualifying(captures, 0)
    case Some(j) => Trim(captures[j])
    case None => ""
  }

  /** A character absent from the text is absent from every capture. */
  lemma CapturesAvoid(text: string, c: char)
    requires c !in text
    ensures forall j :: 0 <= j < |Paragraphs(text)| ==> c !in Paragraphs(text)[j]
  {
    var captures := Paragraphs(text);
    forall j | 0 <= j < |captures|
      ensures c !in captures[j]
    {
      SubsequenceAvoids(captures[j], text, c);
    }
  }

  /** A character absent from every capture is absent from the selection. */
  lemma SelectionAvoids(captures: seq<string>, c: char)
    requires forall j :: 0 <= j < |captures| ==> c !in captures[j]
    ensures c !in SelectParagraph(captures)
  {
    match FirstQualifying(captures, 0)
    case Some(j) => SubsequenceAvoids(Trim(captures[j]), captures[j], c);
    case None =>
  }

  /** A character absent from the text is absent from the paragraph selected from it. */
  lemma SelectionFromTextAvoids(text: string, c: char)
    requires c !in text
    ensures c !in SelectParagraph(Paragraphs(text))
  {
    CapturesAvoid(text, c);
    SelectionAvoids(Paragraphs(text), c);
  }

  // ---------------------------------------------------------------------------
  // The shared pipeline

  /** The text the `<p>` captures are taken from: blocks removed, newlines and
      tabs spaced out, tags other than `p` stripped. */
  function CleanMarkup(html: string): (r: string)
    ensures IsSubsequence(r, SpaceOut(RemoveBlocks(html)))
    ensures '\n' !in r && '\t' !in r
  {
    var spaced := SpaceOut(RemoveBlocks(html));
    var r := StripTags(spaced);
    SubsequenceAvoids(r, spaced, '\n');
    SubsequenceAvoids(r, spaced, '\t');
    r
  }

  /** The paragraph both revisions select from the markup: "" when there is
      none, otherwise the trimmed text of the first qualifying capture. */
  function Paragraph(html: string): (r: string)
    ensures r != "0"
    ensures '\n' !in r && '\t' !in r
    ensures r == "" || (!IsTrimmable(r[0]) && !IsTrimmable(r[|r| - 1]))
  {
    var text := CleanMarkup(html);
    SelectionFromTextAvoids(text, '\n');
    SelectionFromTextAvoids(text, '\t');
    SelectParagraph(Paragraphs(text))
  }

  /** Markup without a single `<` has no paragraph to offer. */
  lemma NoTagsNoParagraph(html: string)
    requires '<' !in html
    ensures Paragraph(html) == ""
  {
    var spaced := SpaceOut(RemoveBlocks(html));
    assert '<' !in spaced;
    ParagraphsNeedTags(CleanMarkup(html));
  }

  /** Markup whose cleaned text holds no opening `<p>` tag, in either case, has
      no paragraph to offer, whatever other tags it carries. */
  lemma NoParagraphTagNoParagraph(html: string)
    requires forall k :: 0 <= k < |CleanMarkup(html)| ==> !LitAt(CleanMarkup(html), k, "<p>", true)
    ensures Paragraph(html) == ""
  {
    var text := CleanMarkup(html);
    NoMatchWithoutOpener(text, ParagraphRegex());
    CapturesUnmatched(text, ParagraphRegex());
  }

  /** A `p` element with plain text survives `strip_tags` whole. */
  lemma StripTagsKeepsParagraphElement(body: string, y: string)
    requires '<' !in body
    ensures StripTags("<p>" + body + "</p>" + y) == "<p>" + body + "</p>" + StripTags(y)
  {
    var closing := "</p>" + y;
    var inner := body + closing;
    Regroup("<p>", body, "</p>", y);
    var rest := StripTags(y);
    assert StripTags(closing) == "</p>" + rest by {
      StripTagsKeepsClosingP(y);
    }
    assert StripTags(inner) == body + ("</p>" + rest) by {
      StripTagsKeepsText(body, closing);
    }
    assert StripTags("<p>" + inner) == "<p>" + (body + ("</p>" + rest)) by {
      StripTagsKeepsOpeningP(inner);
    }
    Regroup("<p>", body, "</p>", rest);
  }

  // Regrouping steps named as lemmas, so that callers never ask the solver to
  // prove sequence equalities that involve `StripTags` terms.

  lemma Associate(a: string, b: string, c: string)
    ensures a + (b + c) == a + b + c
  {
  }

  lemma Regroup(a: string, b: string, c: string, d: string)
    ensures a + (b + (c + d)) == a + b + c + d
  {
  }

  lemma StripTagsKeepsOpeningP(y: string)
    ensures StripTags("<p>" + y) == "<p>" + StripTags(y)
  {
    var inner := "p";
    assert IsParagraphTag(inner) by {
      assert NamePrefix(inner) == inner;
    }
    assert "<" + inner + ">" == "<p>";
    StripTagsKeepsParagraphTag(inner, y);
  }

  lemma StripTagsKeepsClosingP(y: string)
    ensures StripTags("</p>" + y) == "</p>" + StripTags(y)
  {
    var inner := "/p";
    assert IsParagraphTag(inner) by {
      assert inner[1..] == "p";
      assert NamePrefix("p") == "p";
    }
    assert "<" + inner + ">" == "</p>";
    StripTagsKeepsParagraphTag(inner, y);
  }

  /** Its only tags are the `p` tag and its closing tag. */
  lemma ParagraphElementTags(body: string)
    requires '<' !in body
    ensures OnlyParagraphOrClosingTags("<p>" + body + "</p>")
  {
    var html := "<p>" + body + "</p>";
    forall k | 0 <= k < |html| - 1
      ensures html[k] == '<' ==> Lower(html[k + 1]) == 'p' || html[k + 1] == '/'
    {
      if 3 <= k < 3 + |body| {
        assert html[k] == body[k - 3];
      }
    }
  }

  /** Text without newlines and tabs is not changed by spacing out. */
  lemma SpaceOutKeepsPlain(s: string)
    requires '\n' !in s && '\t' !in s
    ensures SpaceOut(s) == s
  {
  }

  /** With a single capture, the selection is that capture trimmed, if it qualifies. */
  lemma SelectSingle(capture: string)
    ensures SelectParagraph([capture]) == if Qualifies(capture) then Trim(capture) else ""
  {
  }

  /** Markup made of `p` elements only, one per text, in order. */
  function Elements(bodies: seq<string>): string
    decreases |bodies|
  {
    if bodies == [] then "" else "<p>" + bodies[0] + "</p>" + Elements(bodies[1..])
  }

  /** Element texts free of `<`, newlines and tabs. */
  predicate PlainBodies(bodies: seq<string>) {
    forall j :: 0 <= j < |bodies| ==> '<' !in bodies[j] && '\n' !in bodies[j] && '\t' !in bodies[j]
  }

  /** Joining two such markups at a character other than `<` keeps the property. */
  lemma OnlyParagraphOrClosingTagsConcat(a: string, b: string)
    requires OnlyParagraphOrClosingTags(a) && OnlyParagraphOrClosingTags(b)
    requires a == [] || a[|a| - 1] != '<'
    ensures OnlyParagraphOrClosingTags(a + b)
  {
    var s := a + b;
    forall k | 0 <= k < |s| - 1
      ensures s[k] == '<' ==> Lower(s[k + 1]) == 'p' || s[k + 1] == '/'
    {
      if k < |a| - 1 {
        assert s[k] == a[k] && s[k + 1] == a[k + 1];
      } else if k >= |a| {
        assert s[k] == b[k - |a|] && s[k + 1] == b[k - |a| + 1];
      } else {
        assert s[k] == a[k];
      }
    }
  }

  /** Plain elements make markup with no tag but `p` tags, and no newline or tab. */
  lemma {:induction false} ElementsArePlain(bodies: seq<string>)
    requires PlainBodies(bodies)
    ensures OnlyParagraphOrClosingTags(Elements(bodies))
    ensures '\n' !in Elements(bodies) && '\t' !in Elements(bodies)
    decreases |bodies|
  {
    if bodies != [] {
      var e := "<p>" + bodies[0] + "</p>";
      assert forall j :: 0 <= j < |bodies| - 1 ==> bodies[1..][j] == bodies[j + 1];
      ElementsArePlain(bodies[1..]);
      ParagraphElementTags(bodies[0]);
      assert e[|e| - 1] == '>';
      OnlyParagraphOrClosingTagsConcat(e, Elements(bodies[1..]));
    }
  }

  /** `strip_tags` keeps plain elements whole. */
  lemma {:induction false} StripTagsKeepsElements(bodies: seq<string>)
    requires PlainBodies(bodies)
    ensures StripTags(Elements(bodies)) == Elements(bodies)
    decreases |bodies|
  {
    if bodies != [] {
      assert forall j :: 0 <= j < |bodies| - 1 ==> bodies[1..][j] == bodies[j + 1];
      StripTagsKeepsParagraphElement(bodies[0], Elements(bodies[1..]));
      StripTagsKeepsElements(bodies[1..]);
    }
  }

  /** Each plain element is captured, in order. */
  lemma {:induction false} ParagraphsOfElements(bodies: seq<string>)
    requires PlainBodies(bodies)
    ensures Paragraphs(Elements(bodies)) == bodies
    decreases |bodies|
  {
    if bodies == [] {
      ParagraphsNeedTags("");
    } else {
      var rest := bodies[1..];
      assert PlainBodies(rest) by {
        assert forall j :: 0 <= j < |rest| ==> rest[j] == bodies[j + 1];
      }
      assert Paragraphs(Elements(bodies)) == [bodies[0]] + Paragraphs(Elements(rest)) by {
        ParagraphsTakeElement(bodies[0], Elements(rest));
      }
      assert Paragraphs(Elements(rest)) == rest by {
        ParagraphsOfElements(rest);
      }
      assert [bodies[0]] + rest == bodies;
    }
  }

  /** A page made of plain `p` elements is described by the first element
      whose trimmed text is not PHP-empty, trimmed; "" when there is none. */
  lemma PlainParagraphsPage(bodies: seq<string>)
    requires PlainBodies(bodies)
    ensures Paragraph(Elements(bodies)) == SelectParagraph(bodies)
  {
    var html := Elements(bodies);
    var blocksRemoved := RemoveBlocks(html);
    assert blocksRemoved == html by {
      ElementsArePlain(bodies);
      RemoveBlocksKeepsParagraphMarkup(html);
    }
    var spaced := SpaceOut(blocksRemoved);
    assert spaced == html by {
      ElementsArePlain(bodies);
      SpaceOutKeepsPlain(html);
    }
    assert StripTags(spaced) == html by {
      StripTagsKeepsElements(bodies);
    }
    ParagraphsOfElements(bodies);
  }

  /** A page made of one `<p>` element with plain text: the description is that
      text trimmed, provided it is not PHP-empty once trimmed. */
  lemma SingleParagraph(body: string)
    requires '<' !in body && '\n' !in body && '\t' !in body
    ensures Paragraph("<p>" + body + "</p>") == if Qualifies(body) then Trim(body) else ""
  {
    assert Elements([body]) == "<p>" + body + "</p>" by {
      assert [body][1..] == [];
      assert "<p>" + body + "</p>" + "" == "<p>" + body + "</p>";
    }
    PlainParagraphsPage([body]);
    SelectSingle(body);
  }

  /** Markups that agree once their blocks are removed yield the same paragraph. */
  lemma SameBlocksSameParagraph(html1: string, html2: string)
    requires RemoveBlocks(html1) == RemoveBlocks(html2)
    ensures Paragraph(html1) == Paragraph(html2)
  {
  }
}
