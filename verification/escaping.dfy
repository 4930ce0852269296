/**
 The finishing step of revision 1.2.1: the description is passed through PHP's
 `htmlspecialchars` with its default flags before it becomes the meta tag's
 content. Only `&`, `<`, `>` and `"` are rewritten (single quotes are left
 alone under the default flags of the PHP versions this code targets), and
 `Decode` is the inverse that `htmlspecialchars_decode` performs on them.
 */
module Escaping {
  import opened Text

  /** A character `htmlspecialchars` rewrites. */
  predicate IsSpecial(c: char) {
    c == '&' || c == '<' || c == '>' || c == '"'
  }

  /** The entity a single character becomes. */
  function EscapeChar(c: char): (r: string)
    ensures |r| >= 1
    ensures IsSpecial(c) <==> r[0] == '&'
    ensures !IsSpecial(c) ==> r == [c]
  {
    match c
    case '&' => "&amp;"
    case '<' => "&lt;"
    case '>' => "&gt;"
    case '"' => "&quot;"
    case _ => [c]
  }

  /** `htmlspecialchars($s)`: every special character replaced by its entity. */
  function HtmlSpecialChars(s: string): (r: string)
    ensures |s| <= |r|
    ensures '<' !in r && '>' !in r && '"' !in r
    ensures (forall k :: 0 <= k < |s| ==> !IsSpecial(s[k])) ==> r == s
  {
    if s == [] then [] else EscapeChar(s[0]) + HtmlSpecialChars(s[1..])
  }

  predicate StartsWith(t: string, prefix: string) {
    |prefix| <= |t| && t[..|prefix|] == prefix
  }

  /** `htmlspecialchars_decode($t)`: the four entities become their characters,
      every other character (a lone `&` included) is kept. */
  function Decode(t: string): (r: string)
    ensures |r| <= |t|
    decreases |t|
  {
    if t == [] then []
    else if t[0] != '&' then [t[0]] + Decode(t[1..])
    else if StartsWith(t, "&amp;") then "&" + Decode(t[5..])
    else if StartsWith(t, "&lt;") then "<" + Decode(t[4..])
    else if StartsWith(t, "&gt;") then ">" + Decode(t[4..])
    else if StartsWith(t, "&quot;") then "\"" + Decode(t[6..])
    else "&" + Decode(t[1..])
  }

  /** Decoding one entity, or one plain character, in front of any text. */
  lemma DecodeChar(c: char, rest: string)
    ensures Decode(EscapeChar(c) + rest) == [c] + Decode(rest)
  {
    var t := EscapeChar(c) + rest;
    var e := EscapeChar(c);
    assert t[..|e|] == e && t[|e|..] == rest;
    if c == '<' {
      assert t[1] == 'l';
      assert !StartsWith(t, "&amp;");
    } else if c == '>' {
      assert t[1] == 'g';
      assert !StartsWith(t, "&amp;") && !StartsWith(t, "&lt;");
    } else if c == '"' {
      assert t[1] == 'q';
      assert !StartsWith(t, "&amp;") && !StartsWith(t, "&lt;") && !StartsWith(t, "&gt;");
    } else if !IsSpecial(c) {
      assert t[1..] == rest;
    }
  }

  /** Decoding undoes escaping: no description is lost or altered in the meta tag. */
  lemma {:induction false} DecodeEscape(s: string)
    ensures Decode(HtmlSpecialChars(s)) == s
    decreases |s|
  {
    if s != [] {
      DecodeEscape(s[1..]);
      DecodeChar(s[0], HtmlSpecialChars(s[1..]));
    }
  }

  /** Escaping is injective: distinct descriptions give distinct meta contents. */
  lemma EscapeInjective(a: string, b: string)
    requires HtmlSpecialChars(a) == HtmlSpecialChars(b)
    ensures a == b
  {
    DecodeEscape(a);
    DecodeEscape(b);
  }

  /** Escaping distributes over concatenation. */
  lemma {:induction false} EscapeConcat(a: string, b: string)
    ensures HtmlSpecialChars(a + b) == HtmlSpecialChars(a) + HtmlSpecialChars(b)
    decreases |a|
  {
    if a != [] {
      assert (a + b)[1..] == a[1..] + b;
      EscapeConcat(a[1..], b);
    } else {
      assert a + b == b;
    }
  }

  /** PHP's `empty` sees the same answer before and after escaping. */
  lemma EscapeKeepsEmptiness(s: string)
    ensures PhpEmpty(HtmlSpecialChars(s)) <==> PhpEmpty(s)
  {
    if HtmlSpecialChars(s) == "0" {
      DecodeEscape(s);
      assert Decode("0") == "0";
    }
    if s == "0" {
      assert HtmlSpecialChars(s) == "0";
    }
  }
}
