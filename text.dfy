/**
 * Character-level string helpers shared by the three front ends of the
 * creature-type generator: Python's `str.strip()` (no argument) and
 * `str.lower()`, the two normalisations every loader and the command loop use.
 */
module Text {

  /** Python's `str.isspace()` for one character: the ASCII whitespace and
      separators 0x09-0x0D and 0x1C-0x20, plus the Unicode whitespace
      code points (NEL, NBSP, Ogham space, the U+2000 block, the line and
      paragraph separators, narrow NBSP, medium mathematical space and the
      ideographic space). These are the characters `strip()` removes. */
  predicate IsSpace(c: char)
  {
    var n := c as int;
    (0x09 <= n <= 0x0D) || (0x1C <= n <= 0x20) || n == 0x85 || n == 0xA0 ||
    n == 0x1680 || (0x2000 <= n <= 0x200A) || n == 0x2028 || n == 0x2029 ||
    n == 0x202F || n == 0x205F || n == 0x3000
  }

  /** Every character of `s` is whitespace (the empty string included). */
  predicate AllSpace(s: string)
  {
    forall i :: 0 <= i < |s| ==> IsSpace(s[i])
  }

  /** Neither the first nor the last character of `s` is whitespace. */
  predicate NoEdgeSpace(s: string)
  {
    s == [] || (!IsSpace(s[0]) && !IsSpace(s[|s| - 1]))
  }

  /** Number of whitespace characters at the start of `s`. */
  function LeadingSpaces(s: string): (n: nat)
    ensures n <= |s|
    ensures AllSpace(s[..n])
    ensures n < |s| ==> !IsSpace(s[n])
  {
    if s != [] && IsSpace(s[0]) then
      var k := LeadingSpaces(s[1..]);
      assert s[..k + 1] == [s[0]] + s[1..][..k];
      k + 1
    else 0
  }

  /** `s` with its trailing whitespace removed. */
  function TrimEnd(s: string): (r: string)
    ensures |r| <= |s| && r == s[..|r|]
    ensures AllSpace(s[|r|..])
    ensures r == [] || !IsSpace(r[|r| - 1])
  {
    if s != [] && IsSpace(s[|s| - 1]) then
      var t := TrimEnd(s[..|s| - 1]);
      assert s[|t|..] == s[..|s| - 1][|t|..] + [s[|s| - 1]];
      t
    else s
  }

  /** Python's `s.strip()`: `s` without its leading and trailing
      whitespace (StripSpec states it in full). */
  function Strip(s: string): (r: string)
    ensures |r| <= |s|
    ensures NoEdgeSpace(r)
  {
    TrimEnd(s[LeadingSpaces(s)..])
  }

  /** What `strip()` returns: the infix of `s` that starts after its leading
      whitespace and is followed only by whitespace, with no whitespace at
      either end; it is empty exactly when `s` is all whitespace. */
  lemma StripSpec(s: string)
    ensures LeadingSpaces(s) + |Strip(s)| <= |s|
    ensures Strip(s) == s[LeadingSpaces(s)..LeadingSpaces(s) + |Strip(s)|]
    ensures AllSpace(s[LeadingSpaces(s) + |Strip(s)|..])
    ensures NoEdgeSpace(Strip(s))
    ensures Strip(s) == [] <==> AllSpace(s)
  {
    var k := LeadingSpaces(s);
    var r := Strip(s);
    assert s[k + |r|..] == s[k..][|r|..];
    SplitSpace(s, k, k + |r|);
  }

  /** A string whose every character lies in an all-whitespace prefix
      `s[..i]` or an all-whitespace suffix `s[j..]` is all whitespace, and
      one that is all whitespace has only whitespace in any infix. */
  lemma SplitSpace(s: string, i: nat, j: nat)
    requires i <= j <= |s|
    requires AllSpace(s[..i]) && AllSpace(s[j..])
    ensures AllSpace(s) <==> AllSpace(s[i..j])
  {
    if AllSpace(s[i..j]) {
      forall n | 0 <= n < |s| ensures IsSpace(s[n]) {
        if n < i { assert s[..i][n] == s[n]; }
        else if n < j { assert s[i..j][n - i] == s[n]; }
        else { assert s[j..][n - j] == s[n]; }
      }
    }
  }

  /** A string that `strip()` leaves unchanged is one with no whitespace at
      either end. */
  lemma StripFixed(s: string)
    requires NoEdgeSpace(s)
    ensures Strip(s) == s
  {
    assert LeadingSpaces(s) == 0;
    assert s[0..] == s;
  }

  /** Leading whitespace in front of a string that starts with a non-space
      is counted exactly. */
  lemma {:induction false} LeadingSpacesOf(pre: string, rest: string)
    requires AllSpace(pre)
    requires rest == [] || !IsSpace(rest[0])
    ensures LeadingSpaces(pre + rest) == |pre|
  {
    if pre != [] {
      assert (pre + rest)[1..] == pre[1..] + rest;
      LeadingSpacesOf(pre[1..], rest);
    } else {
      assert pre + rest == rest;
    }
  }

  /** Trailing whitespace after a string that ends in a non-space is exactly
      what TrimEnd removes. */
  lemma {:induction false} TrimEndOf(s: string, post: string)
    requires AllSpace(post)
    requires s == [] || !IsSpace(s[|s| - 1])
    ensures TrimEnd(s + post) == s
  {
    if post != [] {
      var shorter := post[..|post| - 1];
      assert (s + post)[..|s + post| - 1] == s + shorter;
      TrimEndOf(s, shorter);
    } else {
      assert s + post == s;
    }
  }

  /** `strip()` removes exactly the whitespace padding around a string that
      has no whitespace at either end. */
  lemma StripPadded(pre: string, s: string, post: string)
    requires AllSpace(pre) && AllSpace(post) && NoEdgeSpace(s)
    ensures Strip(pre + s + post) == s
  {
    var x := pre + s + post;
    if s == [] {
      StripSpec(x);
      SplitSpace(x, |pre|, |pre|);
      assert x[..|pre|] == pre && x[|pre|..] == post;
    } else {
      LeadingSpacesOf(pre, s + post);
      assert x == pre + (s + post);
      assert x[|pre|..] == s + post;
      TrimEndOf(s, post);
    }
  }

  /** Python's `str.lower()` on one character, for ASCII letters. */
  function LowerChar(c: char): char
  {
    if 'A' <= c <= 'Z' then (c as int - 'A' as int + 'a' as int) as char else c
  }

  /** Python's `s.lower()`, character by character. */
  function Lower(s: string): (r: string)
    ensures |r| == |s|
    ensures forall i :: 0 <= i < |s| ==> r[i] == LowerChar(s[i])
  {
    if s == [] then [] else [LowerChar(s[0])] + Lower(s[1..])
  }

  /** Lowering changes no character's whitespace status, so it commutes
      with `strip()`'s view of a string's edges. */
  lemma LowerKeepsEdges(s: string)
    requires NoEdgeSpace(s)
    ensures NoEdgeSpace(Lower(s))
  {
  }

  /** Lowering twice is lowering once. */
  lemma LowerIdempotent(s: string)
    ensures Lower(Lower(s)) == Lower(s)
  {
  }
}
