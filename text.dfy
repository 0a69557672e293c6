/**
 * The handful of Python string operations the service relies on:
 * `s.strip()` (only its emptiness is ever tested), `s.lower()` and the
 * substring test `needle in haystack`.
 */
module Text {

  /** Python's `str.isspace()` for one character: the characters `str.strip()` removes. */
  predicate IsSpace(c: char) {
    var n := c as int;
    (9 <= n <= 13) || (28 <= n <= 32) || n == 0x85 || n == 0xA0 || n == 0x1680
    || (0x2000 <= n <= 0x200A) || n == 0x2028 || n == 0x2029 || n == 0x202F
    || n == 0x205F || n == 0x3000
  }

  /** `not s or not s.strip()`: the string is empty or holds only whitespace. */
  predicate IsBlank(s: string) {
    forall i :: 0 <= i < |s| ==> IsSpace(s[i])
  }

  /** ASCII case folding of one character. */
  function LowerChar(c: char): (d: char)
    ensures 'A' <= c <= 'Z' ==> d as int == c as int + 32
    ensures !('A' <= c <= 'Z') ==> d == c
    ensures !('A' <= d <= 'Z')
  {
    if 'A' <= c <= 'Z' then (c as int + 32) as char else c
  }

  /** `s.lower()`, restricted to ASCII letters. */
  function Lower(s: string): (r: string)
    ensures |r| == |s|
  {
    if s == [] then [] else [LowerChar(s[0])] + Lower(s[1..])
  }

  lemma {:induction false} LowerAt(s: string, i: int)
    requires 0 <= i < |s|
    ensures Lower(s)[i] == LowerChar(s[i])
  {
    if i > 0 {
      LowerAt(s[1..], i - 1);
    }
  }

  /** Lowering twice is lowering once. */
  lemma {:induction false} LowerIdempotent(s: string)
    ensures Lower(Lower(s)) == Lower(s)
  {
    if s != [] {
      LowerIdempotent(s[1..]);
    }
  }

  predicate NoUpper(s: string) {
    forall i :: 0 <= i < |s| ==> !('A' <= s[i] <= 'Z')
  }

  lemma NoUpperAppend(x: string, y: string)
    ensures NoUpper(x + y) <==> NoUpper(x) && NoUpper(y)
  {
    if NoUpper(x) && NoUpper(y) {
      forall i | 0 <= i < |x + y| ensures !('A' <= (x + y)[i] <= 'Z') {
        if i >= |x| {
          assert (x + y)[i] == y[i - |x|];
        }
      }
    }
    if NoUpper(x + y) {
      forall i | 0 <= i < |x| ensures !('A' <= x[i] <= 'Z') {
        assert x[i] == (x + y)[i];
      }
      forall i | 0 <= i < |y| ensures !('A' <= y[i] <= 'Z') {
        assert y[i] == (x + y)[i + |x|];
      }
    }
  }

  /** Lowering changes a string exactly when it holds an upper-case ASCII letter. */
  lemma {:induction false} LowerUnchanged(s: string)
    ensures Lower(s) == s <==> NoUpper(s)
  {
    if s != [] {
      LowerUnchanged(s[1..]);
      assert Lower(s) == [LowerChar(s[0])] + Lower(s[1..]);
      if Lower(s) == s {
        assert LowerChar(s[0]) == s[0] && Lower(s[1..]) == s[1..];
        forall i | 0 <= i < |s| ensures !('A' <= s[i] <= 'Z') {
          if i > 0 {
            assert s[i] == s[1..][i - 1];
          }
        }
      }
      if NoUpper(s) {
        assert NoUpper(s[1..]) by {
          forall i | 0 <= i < |s| - 1 ensures !('A' <= s[1..][i] <= 'Z') {
            assert s[1..][i] == s[i + 1];
          }
        }
      }
    }
  }

  /** Lowering leaves whitespace alone, so blankness survives it. */
  lemma {:induction false} LowerKeepsBlank(s: string)
    ensures IsBlank(Lower(s)) <==> IsBlank(s)
  {
    forall i | 0 <= i < |s| ensures IsSpace(Lower(s)[i]) <==> IsSpace(s[i]) {
      LowerAt(s, i);
    }
  }

  predicate StartsWith(s: string, prefix: string) {
    |prefix| <= |s| && s[..|prefix|] == prefix
  }

  /** Python's `needle in haystack` for strings. */
  predicate Contains(haystack: string, needle: string)
    decreases |haystack|
  {
    StartsWith(haystack, needle) || (haystack != [] && Contains(haystack[1..], needle))
  }

  /** The needle stands in the haystack at offset `i`. */
  predicate OccursAt(haystack: string, needle: string, i: int) {
    0 <= i && i + |needle| <= |haystack| && haystack[i..i + |needle|] == needle
  }

  /** The scan agrees with the textbook definition: some window of the haystack is the needle. */
  lemma {:induction false} ContainsAt(haystack: string, needle: string)
    ensures Contains(haystack, needle) <==> exists i :: OccursAt(haystack, needle, i)
    decreases |haystack|
  {
    if StartsWith(haystack, needle) {
      assert OccursAt(haystack, needle, 0);
    }
    if haystack != [] {
      ContainsAt(haystack[1..], needle);
      if Contains(haystack[1..], needle) {
        var i :| OccursAt(haystack[1..], needle, i);
        assert haystack[i + 1..i + 1 + |needle|] == haystack[1..][i..i + |needle|];
        assert OccursAt(haystack, needle, i + 1);
      }
      if i :| OccursAt(haystack, needle, i) {
        if i > 0 {
          assert haystack[1..][i - 1..i - 1 + |needle|] == haystack[i..i + |needle|];
          assert OccursAt(haystack[1..], needle, i - 1);
        } else {
          assert StartsWith(haystack, needle);
        }
      }
    } else {
      if i :| OccursAt(haystack, needle, i) {
        assert needle == [];
        assert StartsWith(haystack, needle);
      }
    }
  }

  /** A string contains whatever stands in its middle. */
  lemma {:induction false} ContainsMiddle(p: string, x: string, q: string)
    ensures Contains(p + x + q, x)
  {
    assert (p + x + q)[|p|..|p| + |x|] == x;
    assert OccursAt(p + x + q, x, |p|);
    ContainsAt(p + x + q, x);
  }

  /** A needle longer than the haystack is never found. */
  lemma {:induction false} ContainsNoLonger(haystack: string, needle: string)
    requires Contains(haystack, needle)
    ensures |needle| <= |haystack|
  {
    ContainsAt(haystack, needle);
  }

  lemma NotContainsLonger(haystack: string, needle: string)
    requires |needle| > |haystack|
    ensures !Contains(haystack, needle)
  {
    if Contains(haystack, needle) {
      ContainsNoLonger(haystack, needle);
    }
  }
}
