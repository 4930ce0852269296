/**
 The finishing step of revision 1.3.1: Cite's citation numbers are cut out of
 the selected paragraph, in raw form (`[12]`), double-encoded form
 (`&amp;#91;12&amp;#93;`) and encoded form (`&#91;12&#93;`), any number of
 digits including none. It is one left-to-right `preg_replace`, so it only
 deletes, and it is not idempotent: `[[]]` becomes `[]`.
 */
module Citations {
  import opened Text
  import opened Patterns

  /** `/(\[\d{0,}\]|\&amp;\#91;\d{0,}\&amp;\#93\;|\&\#91;\d*\&\#93;)/`: three
      case-sensitive alternatives, tried in this order. */
  function CitationRegex(): (re: Regex)
    ensures ValidRegex(re)
  {
    [ Pattern("[", false, Digits, "]", false),
      Pattern("&amp;#91;", false, Digits, "&amp;#93;", false),
      Pattern("&#91;", false, Digits, "&#93;", false) ]
  }

  /** No citation marker starts with a character other than `[` or `&`. */
  lemma MarkersStartSpecially(t: string)
    requires t != [] && t[0] != '[' && t[0] != '&'
    ensures NoMatch(t, CitationRegex())
  {
    var re := CitationRegex();
    forall b, m: Match | 0 <= b < |re|
      ensures !IsMatch(t, re[b], m)
    {
      assert Fold(t[0], false) != re[b].open[0];
    }
  }

  /** Every citation marker is deleted, leftmost first, in a single pass. */
  function StripCitations(s: string): (r: string)
    ensures IsSubsequence(r, s)
    ensures |r| <= |s|
    ensures '[' !in s && '&' !in s ==> r == s
  {
    var re := CitationRegex();
    var r := ReplaceAll(s, re);
    SubsequenceShorter(r, s);
    if '[' !in s && '&' !in s then
      forall q | 0 <= q < |s|
        ensures NoMatch(s[q..], re)
      {
        MarkersStartSpecially(s[q..]);
      }
      ReplaceUnmatched(s, re);
      r
    else
      r
  }

  /** Revision 1.3.1 strips citations only from a non-empty selection. */
  function FinishParagraph(paragraph: string): (r: string)
    ensures PhpEmpty(paragraph) ==> r == paragraph
    ensures IsSubsequence(r, paragraph)
  {
    if PhpEmpty(paragraph) then
      SubsequenceReflexive(paragraph);
      paragraph
    else
      StripCitations(paragraph)
  }

  predicate AllDigits(d: string) {
    forall k :: 0 <= k < |d| ==> IsDigit(d[k])
  }

  /** A literal embedded in a text is found where it was put. */
  lemma LitAtConcat(x: string, lit: string, y: string)
    ensures LitAt(x + lit + y, |x|, lit, false)
  {
    forall j | 0 <= j < |lit|
      ensures Fold((x + lit + y)[|x| + j], false) == lit[j]
    {
    }
  }

  /** A marker `open` digits `close` at the start of `s` is the `alt`-th
      alternative's match, provided no earlier alternative matches there. */
  lemma MarkerMatches(alt: nat, d: string, y: string)
    requires alt < 3 && AllDigits(d)
    requires forall b, m: Match :: 0 <= b < alt ==>
               !IsMatch(CitationRegex()[alt].open + d + CitationRegex()[alt].close + y, CitationRegex()[b], m)
    ensures var p := CitationRegex()[alt];
            var s := p.open + d + p.close + y;
            var m := Match(alt, |p.open|, |p.open| + |d|, |p.open| + |d| + |p.close|);
            IsRegexMatch(s, CitationRegex(), m) && s[m.end..] == y
  {
    var p := CitationRegex()[alt];
    var s := p.open + d + p.close + y;
    assert s == p.open + d + p.close + y;
    LitAtConcat([], p.open, d + p.close + y);
    assert [] + p.open + (d + p.close + y) == s;
    LitAtConcat(p.open + d, p.close, y);
    assert p.open + d + p.close + y == s;
    forall k | |p.open| <= k < |p.open| + |d|
      ensures IsDigit(s[k])
    {
      assert s[k] == d[k - |p.open|];
    }
    assert s[|p.open| + |d| + |p.close|..] == y;
  }

  /** Text free of `[` and `&` passes through unchanged. */
  lemma StripKeepsText(x: string, y: string)
    requires '[' !in x && '&' !in x
    ensures StripCitations(x + y) == x + StripCitations(y)
  {
    var s := x + y;
    forall q | 0 <= q < |x|
      ensures NoMatch(s[q..], CitationRegex())
    {
      assert s[q..][0] == x[q];
      MarkersStartSpecially(s[q..]);
    }
    ReplaceKeepsGap(s, CitationRegex(), |x|);
    assert s[..|x|] == x && s[|x|..] == y;
  }

  /** A raw marker `[digits]` is deleted. */
  lemma StripRemovesBracketMarker(d: string, y: string)
    requires AllDigits(d)
    ensures StripCitations("[" + d + "]" + y) == StripCitations(y)
  {
    var re := CitationRegex();
    MarkerMatches(0, d, y);
    ReplaceDropsMatch("[" + d + "]" + y, re, Match(0, 1, 1 + |d|, 2 + |d|));
  }

  /** A double-encoded marker `&amp;#91;digits&amp;#93;` is deleted. */
  lemma StripRemovesDoubleEncodedMarker(d: string, y: string)
    requires AllDigits(d)
    ensures StripCitations("&amp;#91;" + d + "&amp;#93;" + y) == StripCitations(y)
  {
    var re := CitationRegex();
    var s := "&amp;#91;" + d + "&amp;#93;" + y;
    assert s[0] == '&';
    forall b, m: Match | 0 <= b < 1
      ensures !IsMatch(s, re[b], m)
    {
      assert Fold(s[0], false) != re[b].open[0];
    }
    MarkerMatches(1, d, y);
    ReplaceDropsMatch(s, re, Match(1, 9, 9 + |d|, 18 + |d|));
  }

  /** An encoded marker `&#91;digits&#93;` is deleted. */
  lemma StripRemovesEncodedMarker(d: string, y: string)
    requires AllDigits(d)
    ensures StripCitations("&#91;" + d + "&#93;" + y) == StripCitations(y)
  {
    var re := CitationRegex();
    var s := "&#91;" + d + "&#93;" + y;
    assert s[0] == '&' && s[1] == '#';
    forall b, m: Match | 0 <= b < 2
      ensures !IsMatch(s, re[b], m)
    {
      if b == 0 {
        assert Fold(s[0], false) != re[b].open[0];
      } else {
        assert Fold(s[0 + 1], false) != re[b].open[1];
      }
    }
    MarkerMatches(2, d, y);
    ReplaceDropsMatch(s, re, Match(2, 5, 5 + |d|, 10 + |d|));
  }

  /** The `alt`-th marker form around the digits `d`. */
  function Marker(alt: nat, d: string): string
    requires alt < 3
  {
    CitationRegex()[alt].open + d + CitationRegex()[alt].close
  }

  /** A marker holds no `<`, newline or tab, and ends in `]` or `;`. */
  lemma MarkerIsPlain(alt: nat, d: string)
    requires alt < 3 && AllDigits(d)
    ensures '<' !in Marker(alt, d) && '\n' !in Marker(alt, d) && '\t' !in Marker(alt, d)
    ensures |Marker(alt, d)| > 0 && !IsTrimmable(Marker(alt, d)[|Marker(alt, d)| - 1])
  {
    var p := CitationRegex()[alt];
    assert forall k :: 0 <= k < |d| ==> d[k] != '<' && d[k] != '\n' && d[k] != '\t';
    assert '<' !in p.open && '\n' !in p.open && '\t' !in p.open;
    assert '<' !in p.close && '\n' !in p.close && '\t' !in p.close;
    assert Marker(alt, d)[|Marker(alt, d)| - 1] == p.close[|p.close| - 1];
  }

  /** Any of the three marker forms is deleted. */
  lemma StripRemovesMarker(alt: nat, d: string, y: string)
    requires alt < 3 && AllDigits(d)
    ensures StripCitations(Marker(alt, d) + y) == StripCitations(y)
  {
    if alt == 0 {
      StripRemovesBracketMarker(d, y);
    } else if alt == 1 {
      StripRemovesDoubleEncodedMarker(d, y);
    } else {
      StripRemovesEncodedMarker(d, y);
    }
  }

  /** A sentence ending in a citation marker loses the marker and keeps the rest. */
  lemma StripTrailingMarker(x: string, alt: nat, d: string)
    requires '[' !in x && '&' !in x && alt < 3 && AllDigits(d)
    ensures StripCitations(x + Marker(alt, d)) == x
  {
    StripKeepsText(x, Marker(alt, d));
    StripRemovesMarker(alt, d, []);
    assert Marker(alt, d) + [] == Marker(alt, d);
    assert StripCitations([]) == [];
    assert x + [] == x;
  }

  /** Nothing matches at the start of `[[]]`: the second `[` is neither a digit nor `]`. */
  lemma NestedOpenUnmatched()
    ensures NoMatch("[[]]", CitationRegex())
  {
    var re := CitationRegex();
    var s := "[[]]";
    forall b, m: Match | 0 <= b < |re|
      ensures !IsMatch(s, re[b], m)
    {
      if b == 0 {
        if m.bodyStart == 1 && 1 < m.bodyEnd {
          assert !IsDigit(s[1]);
        } else if m.bodyEnd == 1 {
          assert Fold(s[1 + 0], false) != re[0].close[0];
        }
      } else {
        assert Fold(s[0], false) != re[b].open[0];
      }
    }
  }

  // The `[[]]` example is proved in steps that each take the literal they need
  // as a parameter pinned by `requires`, so that every step unfolds only its
  // own literal.

  /** A bare `[]` is a marker with no digits, and is deleted. */
  lemma EmptyMarkerRemoved(pair: string)
    requires pair == "[]"
    ensures StripCitations(pair) == ""
  {
    StripRemovesBracketMarker("", "");
    assert "[" + "" + "]" + "" == pair;
  }

  /** The first `[` of `[[]]` is copied through. */
  lemma NestedKeepsFirst(nested: string)
    requires nested == "[[]]"
    ensures StripCitations(nested) == [nested[0]] + StripCitations(nested[1..])
  {
    NestedOpenUnmatched();
    ReplaceStep(nested, CitationRegex());
  }

  /** What follows it, `[]]`, loses its leading `[]`. */
  lemma NestedTailStripped(nested: string, close: string)
    requires nested == "[[]]" && close == "]"
    ensures StripCitations(nested[1..]) == close
  {
    assert nested[1..] == "[" + "" + "]" + close;
    StripRemovesBracketMarker("", close);
  }

  /** One pass only: removing the inner `[]` of `[[]]` leaves a new `[]` behind. */
  lemma StripIsSinglePass(nested: string, pair: string)
    requires nested == "[[]]" && pair == "[]"
    ensures StripCitations(nested) == pair
    ensures StripCitations(pair) == ""
  {
    EmptyMarkerRemoved(pair);
    NestedKeepsFirst(nested);
    NestedTailStripped(nested, "]");
    assert [nested[0]] + "]" == pair;
  }
}
