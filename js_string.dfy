/**
  The JavaScript string operations the index generator relies on, over
  `string` (a sequence of characters).
 */
module JsString {

  function Max(a: int, b: int): int { if a < b then b else a }

  /** `s.endsWith(suffix)` */
  predicate EndsWith(s: string, suffix: string) {
    |suffix| <= |s| && s[|s| - |suffix|..] == suffix
  }

  /** `fragment` occurs in `s` at index `at`. */
  predicate StartsWithAt(s: string, fragment: string, at: nat) {
    at + |fragment| <= |s| && s[at..at + |fragment|] == fragment
  }

  /**
    `s.slice(0, end)`: the prefix of `s` that stops at `end`; a negative `end`
    counts back from the end of the string, and an `end` beyond the string
    stops at its last character.
   */
  function SliceTo(s: string, end: int): (r: string)
    ensures |r| == if end < 0 then Max(|s| + end, 0) else if end <= |s| then end else |s|
    ensures r == s[..|r|]
  {
    if end < 0 then (if |s| + end < 0 then "" else s[..|s| + end])
    else if end <= |s| then s[..end]
    else s
  }

  /** `s.lastIndexOf(c)` for a single character: -1 when `c` does not occur. */
  function LastIndexOf(s: string, c: char): (k: int)
    ensures -1 <= k < |s|
    ensures k == -1 <==> c !in s
    ensures 0 <= k ==> k < |s| && s[k] == c && c !in s[k + 1..]
  {
    if s == [] then -1
    else if s[|s| - 1] == c then |s| - 1
    else LastIndexOf(s[..|s| - 1], c)
  }

  /** An occurrence of `c` with no `c` after it is the one `lastIndexOf` finds. */
  lemma LastIndexOfIsLastOccurrence(s: string, c: char, i: nat)
    requires i < |s| && s[i] == c && c !in s[i + 1..]
    ensures LastIndexOf(s, c) == i
  {
  }

  /** A string starts with its first part. */
  lemma StartsWithAtFront(x: string, q: string)
    ensures StartsWithAt(x + q, x, 0)
  {
  }

  /** The last part of a string starts where the first part ends. */
  lemma StartsWithAtEnd(p: string, x: string)
    ensures StartsWithAt(p + x, x, |p|)
  {
  }

  /** Appending to a string keeps every fragment where it was. */
  lemma StartsWithAtExtend(s: string, x: string, at: nat, q: string)
    requires StartsWithAt(s, x, at)
    ensures StartsWithAt(s + q, x, at)
  {
  }

  /** Where the first, second, fourth and last of six concatenated parts start. */
  lemma SixParts(a: string, b: string, c: string, d: string, e: string, f: string)
    ensures StartsWithAt(a + b + c + d + e + f, a, 0)
    ensures StartsWithAt(a + b + c + d + e + f, b, |a|)
    ensures StartsWithAt(a + b + c + d + e + f, d, |a| + |b| + |c|)
    ensures StartsWithAt(a + b + c + d + e + f, f, |a| + |b| + |c| + |d| + |e|)
  {
  }

  /** Two strings that share a first part and have middles of one length agree on the middle. */
  lemma SameMiddle(p: string, x: string, q: string, y: string, r: string)
    requires p + x + q == p + y + r && |x| == |y|
    ensures x == y
  {
    assert x == (p + x + q)[|p|..|p| + |x|];
    assert y == (p + y + r)[|p|..|p| + |y|];
  }

  /**
    `x.localeCompare(y)`, modelled as lexicographic comparison of code
    points: -1 when `x` sorts before `y`, 0 when they are equal, 1 when `x`
    sorts after `y`.
   */
  function LocaleCompare(x: string, y: string): (c: int)
    ensures -1 <= c <= 1
    ensures c == 0 <==> x == y
    decreases |x|
  {
    if x == [] then (if y == [] then 0 else -1)
    else if y == [] then 1
    else if x[0] < y[0] then -1
    else if y[0] < x[0] then 1
    else LocaleCompare(x[1..], y[1..])
  }

  /**
    The code-point order stated directly: `x` is a proper prefix of `y`, or
    the two first differ at some index where `x` has the smaller character.
   */
  ghost predicate CodePointLess(x: string, y: string) {
    || (|x| < |y| && x == y[..|x|])
    || exists k :: 0 <= k < |x| && k < |y| && x[..k] == y[..k] && x[k] < y[k]
  }

  lemma {:induction false} LocaleCompareIsCodePointOrder(x: string, y: string)
    ensures LocaleCompare(x, y) < 0 <==> CodePointLess(x, y)
    decreases |x|
  {
    if x == [] || y == [] {
    } else if x[0] < y[0] {
      assert x[..0] == y[..0];
    } else if y[0] < x[0] {
      if CodePointLess(x, y) {
        if |x| < |y| && x == y[..|x|] {
          assert x[0] == y[0];
        } else {
          var k :| 0 <= k < |x| && k < |y| && x[..k] == y[..k] && x[k] < y[k];
          if k > 0 {
            assert x[0] == x[..k][0] == y[..k][0] == y[0];
          }
        }
      }
    } else {
      var x', y' := x[1..], y[1..];
      LocaleCompareIsCodePointOrder(x', y');
      if CodePointLess(x', y') {
        if |x'| < |y'| && x' == y'[..|x'|] {
          assert x == y[..|x|];
        } else {
          var k :| 0 <= k < |x'| && k < |y'| && x'[..k] == y'[..k] && x'[k] < y'[k];
          assert x[..k + 1] == [x[0]] + x'[..k];
          assert y[..k + 1] == [y[0]] + y'[..k];
          assert x[k + 1] == x'[k];
        }
      }
      if CodePointLess(x, y) {
        if |x| < |y| && x == y[..|x|] {
          assert x' == y'[..|x'|];
        } else {
          var k :| 0 <= k < |x| && k < |y| && x[..k] == y[..k] && x[k] < y[k];
          assert k > 0;
          assert x'[..k - 1] == x[1..k] == y[1..k] == y'[..k - 1];
          assert x'[k - 1] < y'[k - 1];
        }
      }
    }
  }

  /** Swapping the operands negates the comparison. */
  lemma {:induction false} LocaleCompareAntisymmetric(x: string, y: string)
    ensures LocaleCompare(y, x) == -LocaleCompare(x, y)
    decreases |x|
  {
    if x != [] && y != [] && x[0] == y[0] {
      LocaleCompareAntisymmetric(x[1..], y[1..]);
    }
  }

  /** "Sorts no later than" is transitive. */
  lemma {:induction false} LocaleCompareTransitive(x: string, y: string, z: string)
    requires LocaleCompare(x, y) <= 0 && LocaleCompare(y, z) <= 0
    ensures LocaleCompare(x, z) <= 0
    decreases |x|
  {
    if x != [] && y != [] && z != [] && x[0] == y[0] == z[0] {
      LocaleCompareTransitive(x[1..], y[1..], z[1..]);
    }
  }
}
