/**
 A dedicated matcher for the few fixed regular expressions the extension uses
 with `preg_replace` and `preg_match_all`. Every one of them has the shape

     open ( [^>]*> )? body close

 where `body` is either the ungreedy `.*` (under the `s` flag, so it crosses
 newlines) or `\d*`, and the whole expression may be case-insensitive (`i`
 flag). A regex is an ordered list of such alternatives.

 Matching follows PCRE: at each position the alternatives are tried in order;
 an ungreedy body ends at the nearest following `close`; `[^>]*>` ends at the
 first `>`; a global operation resumes right after each match, so matches are
 leftmost and never overlap. A match is described relative to the suffix of
 the subject it starts at.
 */
module Patterns {
  import opened Options
  import opened Text

  /** What the regex accepts between the opening part and `close`. */
  datatype Body = AnyLazy | Digits

  /** One alternative: `open`, then (with `attributes`) `[^>]*>`, then the body, then `close`. */
  datatype Pattern = Pattern(open: string, attributes: bool, body: Body, close: string, caseless: bool)

  /** Ordered alternatives `p0|p1|...`. */
  type Regex = seq<Pattern>

  /** A match of alternative `alt` at the start of a text `t`: the whole match
      is `t[..end]` and the body (the capture of `(.*)`, or the digits) is
      `t[bodyStart..bodyEnd]`. */
  datatype Match = Match(alt: nat, bodyStart: nat, bodyEnd: nat, end: nat)

  /** Both literals are non-empty, and `close` cannot be swallowed by `\d*`. */
  predicate ValidPattern(p: Pattern) {
    |p.open| > 0 && |p.close| > 0 && !IsDigit(p.close[0])
  }

  predicate ValidRegex(re: Regex) {
    forall a :: 0 <= a < |re| ==> ValidPattern(re[a])
  }

  /** `m` is a match of `p` at the start of `t` in the sense of PCRE: `[^>]*>`
      stops at the first `>`, an ungreedy body stops at the nearest `close`, a
      digit body holds digits only. */
  predicate IsMatch(t: string, p: Pattern, m: Match) {
    && |p.open| <= m.bodyStart <= m.bodyEnd
    && m.end == m.bodyEnd + |p.close| <= |t|
    && LitAt(t, 0, p.open, p.caseless)
    && (if p.attributes then
          && |p.open| < m.bodyStart
          && t[m.bodyStart - 1] == '>'
          && (forall k :: |p.open| <= k < m.bodyStart - 1 ==> t[k] != '>')
        else
          m.bodyStart == |p.open|)
    && LitAt(t, m.bodyEnd, p.close, p.caseless)
    && (match p.body
        case AnyLazy => forall k :: m.bodyStart <= k < m.bodyEnd ==> !LitAt(t, k, p.close, p.caseless)
        case Digits => forall k :: m.bodyStart <= k < m.bodyEnd ==> IsDigit(t[k]))
  }

  /** `m` is what the alternation `re` matches at the start of `t`: its
      alternative matches there and no earlier alternative matches there at all. */
  ghost predicate IsRegexMatch(t: string, re: Regex, m: Match) {
    && m.alt < |re|
    && IsMatch(t, re[m.alt], m)
    && forall b, m': Match :: 0 <= b < m.alt ==> !IsMatch(t, re[b], m')
  }

  /** No alternative of `re` matches at the start of `t`. */
  ghost predicate NoMatch(t: string, re: Regex) {
    forall b, m: Match :: 0 <= b < |re| ==> !IsMatch(t, re[b], m)
  }

  /** The nearest occurrence of `lit` at or after `from`. */
  function Find(s: string, lit: string, caseless: bool, from: nat): (r: Option<nat>)
    decreases |s| - from
    ensures r.Some? ==> from <= r.value && LitAt(s, r.value, lit, caseless)
    ensures r.Some? ==> forall k :: from <= k < r.value ==> !LitAt(s, k, lit, caseless)
    ensures r.None? ==> forall k :: from <= k ==> !LitAt(s, k, lit, caseless)
  {
    if from + |lit| > |s| then None
    else if LitAt(s, from, lit, caseless) then Some(from)
    else Find(s, lit, caseless, from + 1)
  }

  /** The end of the run of digits starting at `from`. */
  function DigitRun(s: string, from: nat): (r: nat)
    requires from <= |s|
    decreases |s| - from
    ensures from <= r <= |s|
    ensures forall k :: from <= k < r ==> IsDigit(s[k])
    ensures r == |s| || !IsDigit(s[r])
  {
    if from == |s| || !IsDigit(s[from]) then from else DigitRun(s, from + 1)
  }

  /** A one-character literal compared exactly is just that character. */
  lemma CharLit(s: string, k: nat, c: char)
    ensures LitAt(s, k, [c], false) <==> k < |s| && s[k] == c
  {
    if LitAt(s, k, [c], false) {
      assert Fold(s[k + 0], false) == [c][0];
    }
    if k < |s| && s[k] == c {
      forall j | 0 <= j < 1
        ensures Fold(s[k + j], false) == [c][j]
      {
        assert j == 0;
      }
    }
  }

  /** The position right after the first `>` at or after `from`, if any. */
  function AfterTagEnd(s: string, from: nat): (r: Option<nat>)
    ensures r.Some? ==> from < r.value <= |s| && s[r.value - 1] == '>'
    ensures r.Some? ==> forall k :: from <= k < r.value - 1 ==> s[k] != '>'
    ensures r.None? ==> forall k :: from <= k < |s| ==> s[k] != '>'
  {
    var g := Find(s, ">", false, from);
    forall k | from <= k < |s|
      ensures LitAt(s, k, ">", false) <==> s[k] == '>'
    {
      CharLit(s, k, '>');
    }
    match g
    case Some(e) => CharLit(s, e, '>'); Some(e + 1)
    case None => None
  }

  /** What alternative `p` (numbered `alt`) matches at the start of `t`, if anything. */
  function PatternMatch(t: string, p: Pattern, alt: nat): (r: Option<Match>)
    requires ValidPattern(p)
    ensures r.Some? ==> r.value.alt == alt && IsMatch(t, p, r.value)
    ensures r.None? ==> forall m: Match :: !IsMatch(t, p, m)
  {
    if !LitAt(t, 0, p.open, p.caseless) then None
    else
      var bodyStart := if p.attributes then AfterTagEnd(t, |p.open|) else Some(|p.open|);
      match bodyStart
      case None => None
      case Some(b) =>
        match p.body
        case AnyLazy =>
          (match Find(t, p.close, p.caseless, b)
           case Some(c) => Some(Match(alt, b, c, c + |p.close|))
           case None => None)
        case Digits =>
          var d := DigitRun(t, b);
          if LitAt(t, d, p.close, p.caseless) then Some(Match(alt, b, d, d + |p.close|))
          else
            assert forall m: Match :: IsMatch(t, p, m) ==> m.bodyEnd == d by {
              forall m: Match | IsMatch(t, p, m)
                ensures m.bodyEnd == d
              {
                if m.bodyEnd < d {
                  FoldKeepsDigits(t[m.bodyEnd], p.caseless);
                }
              }
            }
            None
  }

  /** The first alternative, from the `a`-th on, that matches at the start of `t`. */
  function MatchFrom(t: string, re: Regex, a: nat): (r: Option<Match>)
    requires ValidRegex(re) && a <= |re|
    decreases |re| - a
    ensures r.Some? ==> a <= r.value.alt < |re| && IsMatch(t, re[r.value.alt], r.value)
    ensures r.Some? ==> forall b, m: Match :: a <= b < r.value.alt ==> !IsMatch(t, re[b], m)
    ensures r.None? ==> forall b, m: Match :: a <= b < |re| ==> !IsMatch(t, re[b], m)
  {
    if a == |re| then None
    else
      match PatternMatch(t, re[a], a)
      case Some(m) => Some(m)
      case None => MatchFrom(t, re, a + 1)
  }

  /** What the alternation `re` matches at the start of `t`, if anything. */
  function MatchStart(t: string, re: Regex): (r: Option<Match>)
    requires ValidRegex(re)
    ensures r.Some? ==> IsRegexMatch(t, re, r.value)
    ensures r.None? ==> NoMatch(t, re)
  {
    MatchFrom(t, re, 0)
  }

  /** A match of one alternative is unique. */
  lemma PatternMatchUnique(t: string, p: Pattern, m1: Match, m2: Match)
    requires ValidPattern(p) && IsMatch(t, p, m1) && IsMatch(t, p, m2) && m1.alt == m2.alt
    ensures m1 == m2
  {
    if m1.bodyEnd < m2.bodyEnd {
      match p.body
      case AnyLazy =>
      case Digits => FoldKeepsDigits(t[m1.bodyEnd], p.caseless);
    } else if m2.bodyEnd < m1.bodyEnd {
      match p.body
      case AnyLazy =>
      case Digits => FoldKeepsDigits(t[m2.bodyEnd], p.caseless);
    }
  }

  /** Whatever the alternation matches is what `MatchStart` finds. */
  lemma MatchStartFinds(t: string, re: Regex, m: Match)
    requires ValidRegex(re) && IsRegexMatch(t, re, m)
    ensures MatchStart(t, re) == Some(m)
  {
    var r := MatchStart(t, re);
    assert r.Some?;
    var m' := r.value;
    assert m'.alt == m.alt;
    PatternMatchUnique(t, re[m.alt], m, m');
  }

  /** Where nothing matches, `MatchStart` reports nothing. */
  lemma NoMatchNone(t: string, re: Regex)
    requires ValidRegex(re) && NoMatch(t, re)
    ensures MatchStart(t, re) == None
  {
  }

  /** `preg_replace($re, '', $s)`: every leftmost, non-overlapping match deleted. */
  function ReplaceAll(s: string, re: Regex): (r: string)
    requires ValidRegex(re)
    decreases |s|
    ensures IsSubsequence(r, s)
  {
    if s == [] then []
    else
      match MatchStart(s, re)
      case Some(m) =>
        var rest := ReplaceAll(s[m.end..], re);
        SubsequenceOfSuffix(rest, s, m.end);
        rest
      case None =>
        var rest := ReplaceAll(s[1..], re);
        SubsequenceCons(s[0], rest, s[1..]);
        assert [s[0]] + s[1..] == s;
        [s[0]] + rest
  }

  /** One step of the scan at a position where nothing matches. */
  lemma ReplaceStep(s: string, re: Regex)
    requires ValidRegex(re) && s != [] && NoMatch(s, re)
    ensures ReplaceAll(s, re) == [s[0]] + ReplaceAll(s[1..], re)
  {
    NoMatchNone(s, re);
  }

  /** Positions where nothing matches are copied to the output unchanged. */
  lemma {:induction false} ReplaceKeepsGap(s: string, re: Regex, p: nat)
    requires ValidRegex(re) && p <= |s|
    requires forall q :: 0 <= q < p ==> NoMatch(s[q..], re)
    ensures ReplaceAll(s, re) == s[..p] + ReplaceAll(s[p..], re)
    decreases p
  {
    if p > 0 {
      var tail := ReplaceAll(s[p..], re);
      assert s[1..][p - 1..] == s[p..];
      assert forall q :: 0 <= q < p - 1 ==> s[1..][q..] == s[q + 1..];
      assert ReplaceAll(s[1..], re) == s[1..][..p - 1] + tail by {
        ReplaceKeepsGap(s[1..], re, p - 1);
      }
      assert ReplaceAll(s, re) == [s[0]] + ReplaceAll(s[1..], re) by {
        assert s[0..] == s;
        ReplaceStep(s, re);
      }
      PrependPrefix(s, p, tail);
    } else {
      assert s[..0] + ReplaceAll(s[0..], re) == ReplaceAll(s, re) by {
        assert s[0..] == s;
      }
    }
  }

  /** Splitting off the first character of a prefix. */
  lemma PrependPrefix(s: string, p: nat, tail: string)
    requires 0 < p <= |s|
    ensures s[..p] + tail == [s[0]] + (s[1..][..p - 1] + tail)
  {
    assert s[..p] == [s[0]] + s[1..][..p - 1];
  }

  /** A match is dropped as a whole and scanning resumes right after it. */
  lemma ReplaceDropsMatch(s: string, re: Regex, m: Match)
    requires ValidRegex(re) && IsRegexMatch(s, re, m)
    ensures m.end <= |s| && ReplaceAll(s, re) == ReplaceAll(s[m.end..], re)
  {
    MatchStartFinds(s, re, m);
  }

  /** Where no alternative can match anywhere, the text is unchanged. */
  lemma ReplaceUnmatched(s: string, re: Regex)
    requires ValidRegex(re)
    requires forall q :: 0 <= q < |s| ==> NoMatch(s[q..], re)
    ensures ReplaceAll(s, re) == s
  {
    ReplaceKeepsGap(s, re, |s|);
    assert s[..|s|] == s;
    assert s[|s|..] == [];
  }

  /** Group 1 of `preg_match_all`: the bodies of every leftmost,
      non-overlapping match, in order. */
  function MatchAll(s: string, re: Regex): (r: seq<string>)
    requires ValidRegex(re)
    decreases |s|
    ensures forall j :: 0 <= j < |r| ==> IsSubsequence(r[j], s)
  {
    if s == [] then []
    else
      match MatchStart(s, re)
      case Some(m) =>
        var rest := MatchAll(s[m.end..], re);
        SliceIsSubsequence(s, m.bodyStart, m.bodyEnd);
        forall j | 0 <= j < |rest|
          ensures IsSubsequence(rest[j], s)
        {
          SubsequenceOfSuffix(rest[j], s, m.end);
        }
        [s[m.bodyStart..m.bodyEnd]] + rest
      case None =>
        var rest := MatchAll(s[1..], re);
        forall j | 0 <= j < |rest|
          ensures IsSubsequence(rest[j], s)
        {
          SubsequenceOfSuffix(rest[j], s, 1);
        }
        rest
  }

  /** Positions where nothing matches contribute no capture. */
  lemma {:induction false} CapturesSkipGap(s: string, re: Regex, p: nat)
    requires ValidRegex(re) && p <= |s|
    requires forall q :: 0 <= q < p ==> NoMatch(s[q..], re)
    ensures MatchAll(s, re) == MatchAll(s[p..], re)
    decreases p
  {
    if p > 0 {
      assert s[1..][p - 1..] == s[p..];
      assert forall q :: 0 <= q < p - 1 ==> s[1..][q..] == s[q + 1..];
      assert MatchAll(s, re) == MatchAll(s[1..], re) by {
        assert s[0..] == s;
        NoMatchNone(s, re);
      }
      CapturesSkipGap(s[1..], re, p - 1);
    } else {
      assert s[0..] == s;
    }
  }

  /** A match contributes its body and scanning resumes right after it. */
  lemma CapturesTakeMatch(s: string, re: Regex, m: Match)
    requires ValidRegex(re) && IsRegexMatch(s, re, m)
    ensures m.bodyStart <= m.bodyEnd <= m.end <= |s|
    ensures MatchAll(s, re) == [s[m.bodyStart..m.bodyEnd]] + MatchAll(s[m.end..], re)
  {
    MatchStartFinds(s, re, m);
  }

  /** Where no alternative can match anywhere, nothing is captured. */
  lemma CapturesUnmatched(s: string, re: Regex)
    requires ValidRegex(re)
    requires forall q :: 0 <= q < |s| ==> NoMatch(s[q..], re)
    ensures MatchAll(s, re) == []
  {
    CapturesSkipGap(s, re, |s|);
    assert s[|s|..] == [];
  }

  /** A literal found inside an infix is found at the shifted position of the whole. */
  lemma LitAtSlice(s: string, b: nat, e: nat, k: nat, lit: string, caseless: bool)
    requires b <= e <= |s| && LitAt(s[b..e], k, lit, caseless)
    ensures b + k + |lit| <= e && LitAt(s, b + k, lit, caseless)
  {
    forall j | 0 <= j < |lit|
      ensures Fold(s[b + k + j], caseless) == lit[j]
    {
      assert s[b..e][k + j] == s[b + k + j];
    }
  }

  /** Where no alternative's opening literal occurs, nothing matches. */
  lemma NoMatchWithoutOpener(s: string, re: Regex)
    requires ValidRegex(re)
    requires forall a, k :: 0 <= a < |re| && 0 <= k < |s| ==> !LitAt(s, k, re[a].open, re[a].caseless)
    ensures forall q :: 0 <= q < |s| ==> NoMatch(s[q..], re)
  {
    forall q, b, m: Match | 0 <= q < |s| && 0 <= b < |re|
      ensures !IsMatch(s[q..], re[b], m)
    {
      if LitAt(s[q..], 0, re[b].open, re[b].caseless) {
        LitAtSlice(s, q, |s|, 0, re[b].open, re[b].caseless);
      }
    }
  }

  /** Where no alternative's closing literal occurs, nothing matches: an opener
      without a later closer is left in place. */
  lemma NoMatchWithoutCloser(s: string, re: Regex)
    requires ValidRegex(re)
    requires forall a, k :: 0 <= a < |re| && 0 <= k < |s| ==> !LitAt(s, k, re[a].close, re[a].caseless)
    ensures forall q :: 0 <= q < |s| ==> NoMatch(s[q..], re)
  {
    forall q, b, m: Match | 0 <= q < |s| && 0 <= b < |re|
      ensures !IsMatch(s[q..], re[b], m)
    {
      if LitAt(s[q..], m.bodyEnd, re[b].close, re[b].caseless) {
        LitAtSlice(s, q, |s|, m.bodyEnd, re[b].close, re[b].caseless);
      }
    }
  }

  /** With a single ungreedy alternative, no capture contains the closing literal. */
  lemma {:induction false} CapturesAvoidClose(s: string, re: Regex)
    requires ValidRegex(re) && |re| == 1 && re[0].body == AnyLazy
    ensures forall j, k :: 0 <= j < |MatchAll(s, re)| ==> !LitAt(MatchAll(s, re)[j], k, re[0].close, re[0].caseless)
    decreases |s|
  {
    if s != [] {
      match MatchStart(s, re)
      case Some(m) =>
        CapturesAvoidClose(s[m.end..], re);
        var body := s[m.bodyStart..m.bodyEnd];
        forall k | 0 <= k
          ensures !LitAt(body, k, re[0].close, re[0].caseless)
        {
          if LitAt(body, k, re[0].close, re[0].caseless) {
            LitAtSlice(s, m.bodyStart, m.bodyEnd, k, re[0].close, re[0].caseless);
          }
        }
      case None =>
        CapturesAvoidClose(s[1..], re);
    }
  }
}
