/**
 * String operations shared by the JavaScript runtime and the database:
 * stripping a set of characters from both ends, ASCII case mapping, and
 * code-point lexicographic order.
 */
module Text {

  /** Number of leading characters of `s` that `drop` removes. */
  function LeadingCount(s: string, drop: char -> bool): (n: nat)
    ensures n <= |s|
    ensures forall k :: 0 <= k < n ==> drop(s[k])
    ensures n < |s| ==> !drop(s[n])
  {
    if s == [] || !drop(s[0]) then 0 else 1 + LeadingCount(s[1..], drop)
  }

  /** Number of trailing characters of `s` that `drop` removes. */
  function TrailingCount(s: string, drop: char -> bool): (n: nat)
    ensures n <= |s|
    ensures forall k :: |s| - n <= k < |s| ==> drop(s[k])
    ensures n < |s| ==> !drop(s[|s| - 1 - n])
  {
    if s == [] || !drop(s[|s| - 1]) then 0 else 1 + TrailingCount(s[..|s| - 1], drop)
  }

  /** `s` without the characters `drop` removes at either end. */
  function Strip(s: string, drop: char -> bool): (r: string)
    ensures |r| <= |s|
    ensures r == [] || (!drop(r[0]) && !drop(r[|r| - 1]))
  {
    var t := s[LeadingCount(s, drop)..];
    t[..|t| - TrailingCount(t, drop)]
  }

  /**
   * Strip keeps one contiguous piece of its input, starting at the first kept
   * character, and everything cut off at either end is a dropped character.
   */
  lemma StripIsInfix(s: string, drop: char -> bool)
    ensures var i, r := LeadingCount(s, drop), Strip(s, drop);
      && i + |r| <= |s|
      && r == s[i..i + |r|]
      && (forall k :: 0 <= k < i ==> drop(s[k]))
      && (forall k :: i + |r| <= k < |s| ==> drop(s[k]))
  {
    var i := LeadingCount(s, drop);
    var t := s[i..];
    var n := TrailingCount(t, drop);
    var r := Strip(s, drop);
    assert r == t[..|t| - n] == s[i..i + |r|];
    forall k | i + |r| <= k < |s| ensures drop(s[k]) {
      assert s[k] == t[k - i];
    }
  }

  /** Stripping again changes nothing. */
  lemma StripIdempotent(s: string, drop: char -> bool)
    ensures Strip(Strip(s, drop), drop) == Strip(s, drop)
  {
    var r := Strip(s, drop);
    if r != [] {
      assert LeadingCount(r, drop) == 0;
      assert TrailingCount(r, drop) == 0;
    }
  }

  /**
   * A string whose ends are not removed by `keep` is left unchanged by
   * stripping with any `drop` that removes only characters `keep` removes.
   */
  lemma StripNoOp(s: string, drop: char -> bool, keep: char -> bool)
    requires forall c :: drop(c) ==> keep(c)
    requires s == [] || (!keep(s[0]) && !keep(s[|s| - 1]))
    ensures Strip(s, drop) == s
  {
    if s != [] {
      assert LeadingCount(s, drop) == 0;
      assert TrailingCount(s, drop) == 0;
    }
  }

  lemma {:induction false} LeadingCountPadded(pre: string, rest: string, drop: char -> bool)
    requires forall k :: 0 <= k < |pre| ==> drop(pre[k])
    requires rest != [] && !drop(rest[0])
    ensures LeadingCount(pre + rest, drop) == |pre|
    decreases |pre|
  {
    if pre == [] {
      assert pre + rest == rest;
    } else {
      assert (pre + rest)[1..] == pre[1..] + rest;
      LeadingCountPadded(pre[1..], rest, drop);
    }
  }

  lemma {:induction false} TrailingCountPadded(rest: string, post: string, drop: char -> bool)
    requires forall k :: 0 <= k < |post| ==> drop(post[k])
    requires rest != [] && !drop(rest[|rest| - 1])
    ensures TrailingCount(rest + post, drop) == |post|
    decreases |post|
  {
    if post == [] {
      assert rest + post == rest;
    } else {
      var s := rest + post;
      assert s[..|s| - 1] == rest + post[..|post| - 1];
      TrailingCountPadded(rest, post[..|post| - 1], drop);
    }
  }

  /** Padding made only of dropped characters is removed, and nothing more. */
  lemma StripPadded(pre: string, s: string, post: string, drop: char -> bool)
    requires forall k :: 0 <= k < |pre| ==> drop(pre[k])
    requires forall k :: 0 <= k < |post| ==> drop(post[k])
    requires s != [] && !drop(s[0]) && !drop(s[|s| - 1])
    ensures Strip(pre + s + post, drop) == s
  {
    assert pre + s + post == pre + (s + post);
    LeadingCountPadded(pre, s + post, drop);
    assert (pre + (s + post))[|pre|..] == s + post;
    TrailingCountPadded(s, post, drop);
    assert (s + post)[..|s|] == s;
  }

  /** ASCII upper-case letters to lower case; every other character is kept. */
  function LowerChar(c: char): (d: char)
    ensures 'A' <= c <= 'Z' ==> d as int == c as int + 32
    ensures !('A' <= c <= 'Z') ==> d == c
  {
    if 'A' <= c <= 'Z' then (c as int + 32) as char else c
  }

  function ToLowerAscii(s: string): (r: string)
    ensures |r| == |s|
    ensures forall k :: 0 <= k < |s| ==> r[k] == LowerChar(s[k])
  {
    seq(|s|, k requires 0 <= k < |s| => LowerChar(s[k]))
  }

  lemma ToLowerAsciiAppend(a: string, b: string)
    ensures ToLowerAscii(a + b) == ToLowerAscii(a) + ToLowerAscii(b)
  {
  }

  /** A string without upper-case ASCII letters is already lower case. */
  lemma ToLowerAsciiNoUpper(s: string)
    requires forall k :: 0 <= k < |s| ==> !('A' <= s[k] <= 'Z')
    ensures ToLowerAscii(s) == s
  {
  }

  lemma ToLowerAsciiIdempotent(s: string)
    ensures ToLowerAscii(ToLowerAscii(s)) == ToLowerAscii(s)
  {
  }

  /** Code-point lexicographic order, the byte order of a "C" collation. */
  predicate LexLess(a: string, b: string)
    decreases |a|
  {
    if a == [] then b != []
    else b != [] && (a[0] < b[0] || (a[0] == b[0] && LexLess(a[1..], b[1..])))
  }

  lemma {:induction false} LexLessIrreflexive(a: string)
    ensures !LexLess(a, a)
    decreases |a|
  {
    if a != [] {
      LexLessIrreflexive(a[1..]);
    }
  }

  lemma {:induction false} LexLessAsymmetric(a: string, b: string)
    ensures LexLess(a, b) ==> !LexLess(b, a)
    decreases |a|
  {
    if a != [] && b != [] && a[0] == b[0] {
      LexLessAsymmetric(a[1..], b[1..]);
    }
  }

  lemma {:induction false} LexLessTransitive(a: string, b: string, c: string)
    requires LexLess(a, b) && LexLess(b, c)
    ensures LexLess(a, c)
    decreases |a|
  {
    if a != [] && a[0] == b[0] && b[0] == c[0] {
      LexLessTransitive(a[1..], b[1..], c[1..]);
    }
  }

  lemma {:induction false} LexLessTotal(a: string, b: string)
    requires a != b
    ensures LexLess(a, b) || LexLess(b, a)
    decreases |a|
  {
    if a != [] && b != [] && a[0] == b[0] {
      assert a == [a[0]] + a[1..] && b == [b[0]] + b[1..];
      LexLessTotal(a[1..], b[1..]);
    }
  }
}
