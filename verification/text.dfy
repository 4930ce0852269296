/** An optional value: PHP's `null` versus a string, and "no meta entry" versus one. */
module Options {

  datatype Option<+T> = None | Some(value: T)
}

/**
 Character and string vocabulary shared by every step of the description
 pipeline: ASCII case folding as PCRE's `i` flag does it, literal matching at a
 position, PHP's `trim` and `empty`, and subsequences (the shape every
 deletion-only step leaves behind).
 */
module Text {

  /** ASCII lower-casing; every other character is its own fold. */
  function Lower(c: char): char {
    if 'A' <= c <= 'Z' then (c as int + 32) as char else c
  }

  /** The character as a case-insensitive (`caseless`) or exact comparison sees it. */
  function Fold(c: char, caseless: bool): char {
    if caseless then Lower(c) else c
  }

  predicate IsDigit(c: char) {
    '0' <= c <= '9'
  }

  /** `lit` occurs in `s` starting at position `i`; with `caseless`, `lit` is
      expected in lower case and `s` is folded before comparing. */
  predicate LitAt(s: string, i: nat, lit: string, caseless: bool) {
    i + |lit| <= |s| && forall k :: 0 <= k < |lit| ==> Fold(s[i + k], caseless) == lit[k]
  }

  /** Folding never turns a non-digit into a digit, nor a digit into anything else. */
  lemma FoldKeepsDigits(c: char, caseless: bool)
    ensures IsDigit(Fold(c, caseless)) <==> IsDigit(c)
    ensures IsDigit(c) ==> Fold(c, caseless) == c
  {
  }

  /** The characters PHP's `trim` removes by default: " \t\n\r\0\x0B". */
  predicate IsTrimmable(c: char) {
    c == ' ' || c == '\t' || c == '\n' || c == '\r' || c == '\0' || c as int == 11
  }

  /** PHP's `empty` on a string: the empty string and "0" are empty. */
  predicate PhpEmpty(s: string) {
    s == "" || s == "0"
  }

  function TrimLeft(s: string): (r: string)
    ensures |r| <= |s| && r == s[|s| - |r|..]
    ensures forall k :: 0 <= k < |s| - |r| ==> IsTrimmable(s[k])
    ensures r == [] || !IsTrimmable(r[0])
  {
    if s == [] || !IsTrimmable(s[0]) then s else TrimLeft(s[1..])
  }

  function TrimRight(s: string): (r: string)
    ensures |r| <= |s| && r == s[..|r|]
    ensures forall k :: |r| <= k < |s| ==> IsTrimmable(s[k])
    ensures r == [] || !IsTrimmable(r[|r| - 1])
  {
    if s == [] || !IsTrimmable(s[|s| - 1]) then s else TrimRight(s[..|s| - 1])
  }

  /** Where `trim`'s result starts in its input: the number of leading trimmable characters. */
  function TrimOffset(s: string): nat {
    |s| - |TrimLeft(s)|
  }

  /** PHP's `trim`: the infix of `s` that neither starts nor ends with a
      trimmable character, everything around it being trimmable. */
  function Trim(s: string): (r: string)
    ensures r == [] || (!IsTrimmable(r[0]) && !IsTrimmable(r[|r| - 1]))
    ensures TrimOffset(s) + |r| <= |s| && r == s[TrimOffset(s)..TrimOffset(s) + |r|]
    ensures forall k :: 0 <= k < TrimOffset(s) ==> IsTrimmable(s[k])
    ensures forall k :: TrimOffset(s) + |r| <= k < |s| ==> IsTrimmable(s[k])
    ensures IsSubsequence(r, s)
  {
    TrimSlices(s, TrimOffset(s), TrimLeft(s), TrimRight(TrimLeft(s)));
    TrimRight(TrimLeft(s))
  }

  /** Where the two halves of `trim` leave their result inside `s`. */
  lemma TrimSlices(s: string, a: nat, left: string, r: string)
    requires a <= |s| && left == s[a..] && |r| <= |left| && r == left[..|r|]
    requires forall k :: |r| <= k < |left| ==> IsTrimmable(left[k])
    ensures a + |r| <= |s| && r == s[a..a + |r|]
    ensures forall k :: a + |r| <= k < |s| ==> IsTrimmable(s[k])
    ensures IsSubsequence(r, s)
  {
    InfixOfSuffix(s, a, left, r);
    TrimmableTail(s, a, left, |r|);
    InfixIsSubsequence(s, a, r);
  }

  lemma InfixIsSubsequence(s: string, a: nat, r: string)
    requires a + |r| <= |s| && r == s[a..a + |r|]
    ensures IsSubsequence(r, s)
  {
    SliceIsSubsequence(s, a, a + |r|);
  }

  /** A prefix of a suffix is an infix. */
  lemma InfixOfSuffix(s: string, a: nat, left: string, r: string)
    requires a <= |s| && left == s[a..] && |r| <= |left| && r == left[..|r|]
    ensures a + |r| <= |s| && r == s[a..a + |r|]
  {
  }

  /** What lies past `n` in a suffix lies past `a + n` in the whole. */
  lemma TrimmableTail(s: string, a: nat, left: string, n: nat)
    requires a <= |s| && left == s[a..] && n <= |left|
    requires forall k :: n <= k < |left| ==> IsTrimmable(left[k])
    ensures forall k :: a + n <= k < |s| ==> IsTrimmable(s[k])
  {
    forall k | a + n <= k < |s|
      ensures IsTrimmable(s[k])
    {
      assert s[k] == left[k - a];
    }
  }

  /** Text that neither starts nor ends with a trimmable character is its own trim. */
  lemma TrimKeepsUntrimmable(s: string)
    requires s != [] && !IsTrimmable(s[0]) && !IsTrimmable(s[|s| - 1])
    ensures Trim(s) == s
  {
  }

  /** `a` can be obtained from `b` by deleting characters. */
  predicate IsSubsequence(a: string, b: string)
    decreases |b|
  {
    a == [] || (b != [] && ((a[0] == b[0] && IsSubsequence(a[1..], b[1..])) || IsSubsequence(a, b[1..])))
  }

  lemma {:induction false} SubsequenceReflexive(a: string)
    ensures IsSubsequence(a, a)
    decreases |a|
  {
    if a != [] {
      SubsequenceReflexive(a[1..]);
    }
  }

  lemma {:induction false} SubsequenceTransitive(a: string, b: string, c: string)
    requires IsSubsequence(a, b) && IsSubsequence(b, c)
    ensures IsSubsequence(a, c)
    decreases |c|
  {
    if a != [] {
      if IsSubsequence(b, c[1..]) {
        SubsequenceTransitive(a, b, c[1..]);
      } else if a[0] == b[0] && IsSubsequence(a[1..], b[1..]) {
        SubsequenceTransitive(a[1..], b[1..], c[1..]);
      } else {
        SubsequenceTransitive(a, b[1..], c[1..]);
      }
    }
  }

  /** A subsequence of a suffix is a subsequence of the whole. */
  lemma {:induction false} SubsequenceOfSuffix(a: string, b: string, j: nat)
    requires j <= |b| && IsSubsequence(a, b[j..])
    ensures IsSubsequence(a, b)
    decreases j
  {
    if j > 0 {
      assert b[j - 1..][1..] == b[j..];
      SubsequenceOfSuffix(a, b, j - 1);
    }
  }

  /** Keeping the first character and a subsequence of the rest. */
  lemma SubsequenceCons(c: char, a: string, b: string)
    requires IsSubsequence(a, b)
    ensures IsSubsequence([c] + a, [c] + b)
  {
    assert ([c] + a)[1..] == a;
    assert ([c] + b)[1..] == b;
  }

  /** Every infix is a subsequence. */
  lemma {:induction false} SliceIsSubsequence(s: string, i: nat, j: nat)
    requires i <= j <= |s|
    ensures IsSubsequence(s[i..j], s)
    decreases |s|
  {
    if i == j {
    } else if i > 0 {
      SliceIsSubsequence(s[1..], i - 1, j - 1);
      assert s[1..][i - 1..j - 1] == s[i..j];
    } else {
      SliceIsSubsequence(s[1..], 0, j - 1);
      assert s[1..][0..j - 1] == s[i..j][1..];
    }
  }

  /** Deleting characters never introduces one. */
  lemma {:induction false} SubsequenceAvoids(a: string, b: string, c: char)
    requires IsSubsequence(a, b) && c !in b
    ensures c !in a
    decreases |b|
  {
    if a != [] {
      if a[0] == b[0] && IsSubsequence(a[1..], b[1..]) {
        SubsequenceAvoids(a[1..], b[1..], c);
      } else {
        SubsequenceAvoids(a, b[1..], c);
      }
    }
  }

  /** Deleting characters never lengthens a string. */
  lemma {:induction false} SubsequenceShorter(a: string, b: string)
    requires IsSubsequence(a, b)
    ensures |a| <= |b|
    decreases |b|
  {
    if a != [] {
      if a[0] == b[0] && IsSubsequence(a[1..], b[1..]) {
        SubsequenceShorter(a[1..], b[1..]);
      } else {
        SubsequenceShorter(a, b[1..]);
      }
    }
  }
}
