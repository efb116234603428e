/**
  The pieces of Python's `str` behaviour that the post-processing relies on:
  `strip()`, `split()` (counted), `sep.join(...)`, the `in` substring test and
  decimal formatting of a natural number, all over `seq<char>`.
 */
module Text {

  /** Python's `str.isspace()`: the ASCII controls 9-13 and 28-31, the space,
      and the Unicode separators that Python counts as whitespace. The same set
      is what `\s` matches in a `str` pattern. */
  predicate IsSpace(c: char) {
    var n := c as int;
    (9 <= n <= 13) || (28 <= n <= 32) || n == 0x85 || n == 0xA0 || n == 0x1680 ||
    (0x2000 <= n <= 0x200A) || n == 0x2028 || n == 0x2029 || n == 0x202F ||
    n == 0x205F || n == 0x3000
  }

  predicate IsDigit(c: char) {
    '0' <= c <= '9'
  }

  predicate AllDigits(s: string) {
    forall k :: 0 <= k < |s| ==> IsDigit(s[k])
  }

  predicate AllSpace(s: string) {
    forall k :: 0 <= k < |s| ==> IsSpace(s[k])
  }

  /** No leading and no trailing whitespace: what `strip()` returns. */
  predicate IsStripped(s: string) {
    s == [] || (!IsSpace(s[0]) && !IsSpace(s[|s| - 1]))
  }

  // ---------------------------------------------------------------- strip

  /** Index of the first non-whitespace character at or after `i`. */
  function SkipSpace(s: string, i: nat): (j: nat)
    requires i <= |s|
    ensures i <= j <= |s|
    ensures forall k :: i <= k < j ==> IsSpace(s[k])
    ensures j < |s| ==> !IsSpace(s[j])
    decreases |s| - i
  {
    if i < |s| && IsSpace(s[i]) then SkipSpace(s, i + 1) else i
  }

  /** One past the last non-whitespace character before `j`, not going below `lo`. */
  function TrimBack(s: string, lo: nat, j: nat): (k: nat)
    requires lo <= j <= |s|
    ensures lo <= k <= j
    ensures forall m :: k <= m < j ==> IsSpace(s[m])
    ensures k > lo ==> !IsSpace(s[k - 1])
    decreases j
  {
    if j > lo && IsSpace(s[j - 1]) then TrimBack(s, lo, j - 1) else j
  }

  /** `s.strip()`: `s` with leading and trailing whitespace removed. */
  function Strip(s: string): (r: string)
    ensures IsStripped(r)
  {
    var a := SkipSpace(s, 0);
    var b := TrimBack(s, a, |s|);
    assert a < b ==> !IsSpace(s[a]);
    s[a..b]
  }

  /** What `strip()` removes is whitespace: the result stands in `s` at the
      returned offset, with only whitespace before and after it. */
  lemma StripSlice(s: string) returns (a: nat)
    ensures a + |Strip(s)| <= |s| && s[a..a + |Strip(s)|] == Strip(s)
    ensures AllSpace(s[..a]) && AllSpace(s[a + |Strip(s)|..])
  {
    a := SkipSpace(s, 0);
    var b := TrimBack(s, a, |s|);
    assert Strip(s) == s[a..b];
    assert AllSpace(s[..a]) && AllSpace(s[b..]);
  }

  /** Stripping is the identity on text that has no outer whitespace, and
      nothing survives stripping an all-whitespace text. */
  lemma {:induction false} StripKeepsStripped(s: string)
    requires IsStripped(s)
    ensures Strip(s) == s
  {
    assert SkipSpace(s, 0) == 0;
    assert TrimBack(s, 0, |s|) == |s|;
  }

  /** A text strips to nothing exactly when it is all whitespace. */
  lemma StripEmpty(s: string)
    ensures Strip(s) == [] <==> AllSpace(s)
  {
    var r := Strip(s);
    var a := StripSlice(s);
    if r == [] {
      forall k | 0 <= k < |s| ensures IsSpace(s[k]) {
        if k < a { assert s[k] == s[..a][k]; } else { assert s[k] == s[a..][k - a]; }
      }
    }
  }

  // ---------------------------------------------------------------- split

  /** `len(s.split())`: the number of maximal whitespace-free runs. */
  function WordCount(s: string): nat
  {
    if |s| == 0 then 0
    else WordCount(s[..|s| - 1]) +
         (if !IsSpace(s[|s| - 1]) && (|s| == 1 || IsSpace(s[|s| - 2])) then 1 else 0)
  }

  /** A text splits into no words exactly when it is all whitespace. */
  lemma {:induction false} WordCountZero(s: string)
    ensures WordCount(s) == 0 <==> AllSpace(s)
  {
    if |s| > 0 {
      var init := s[..|s| - 1];
      WordCountZero(init);
      if WordCount(s) == 0 {
        assert AllSpace(init);
        assert |s| > 1 ==> IsSpace(s[|s| - 2]) by {
          if |s| > 1 { assert s[|s| - 2] == init[|s| - 2]; }
        }
        assert IsSpace(s[|s| - 1]);
        forall k | 0 <= k < |s| ensures IsSpace(s[k]) {
          if k < |s| - 1 { assert s[k] == init[k]; }
        }
      }
      if AllSpace(s) {
        assert AllSpace(init) by {
          forall k | 0 <= k < |init| ensures IsSpace(init[k]) { assert init[k] == s[k]; }
        }
      }
    }
  }

  /** Counting the words of a concatenation: the counts add up, less one when
      `x` ends and `y` starts inside the same whitespace-free run. */
  lemma {:induction false} WordCountAppend(x: string, y: string)
    ensures WordCount(x + y) ==
            WordCount(x) + WordCount(y) -
            (if x != [] && y != [] && !IsSpace(x[|x| - 1]) && !IsSpace(y[0]) then 1 else 0)
    decreases |y|
  {
    if y == [] {
      assert x + y == x;
    } else {
      var init, c := y[..|y| - 1], y[|y| - 1];
      WordCountAppend(x, init);
      var xy := x + y;
      assert xy[..|xy| - 1] == x + init && xy[|xy| - 1] == c;
      // the word starting at `c`, if any, is counted the same in `x + y` and in `y`
      // unless `y` is `c` alone; then it merges with a word ending `x`
      var before := if |y| >= 2 then y[|y| - 2] else if x != [] then x[|x| - 1] else ' ';
      assert |xy| >= 2 ==> xy[|xy| - 2] == before;
      assert |y| >= 2 ==> init[0] == y[0];
    }
  }

  /** Words separated by a space are counted apart: `len((x + " " + y).split())`
      is `len(x.split()) + len(y.split())`. */
  lemma {:induction false} WordCountJoin(x: string, y: string)
    ensures WordCount(x + " " + y) == WordCount(x) + WordCount(y)
  {
    assert WordCount(" ") == 0 by { assert " "[..0] == []; }
    WordCountAppend(x, " ");
    WordCountAppend(x + " ", y);
  }

  // ---------------------------------------------------------------- join

  /** `sep.join(parts)`. */
  function Join(sep: string, parts: seq<string>): string
  {
    if |parts| == 0 then ""
    else if |parts| == 1 then parts[0]
    else parts[0] + sep + Join(sep, parts[1..])
  }

  lemma JoinTwo(sep: string, x: string, y: string)
    ensures Join(sep, [x, y]) == x + sep + y
  {
    assert [x, y][1..] == [y];
  }

  // ---------------------------------------------------------------- substring

  /** Python's `p in s` for two strings. */
  predicate IsSubstring(p: string, s: string) {
    exists i | 0 <= i <= |s| - |p| :: OccursAt(p, s, i)
  }

  /** `p` stands in `s` starting at index `i`. */
  predicate OccursAt(p: string, s: string, i: int) {
    0 <= i && i + |p| <= |s| && s[i..i + |p|] == p
  }

  lemma CharOfOccurrence(p: string, s: string, i: nat, k: nat)
    requires OccursAt(p, s, i) && i <= k < i + |p|
    ensures s[k] == p[k - i]
  {
    assert s[i..i + |p|][k - i] == s[k];
  }

  lemma SubstringAt(p: string, s: string, i: nat)
    requires OccursAt(p, s, i)
    ensures IsSubstring(p, s)
  {
  }

  /** A substring of a substring is a substring. */
  lemma SubstringTransitive(p: string, x: string, y: string)
    requires IsSubstring(p, x) && IsSubstring(x, y)
    ensures IsSubstring(p, y)
  {
    var i :| 0 <= i <= |x| - |p| && OccursAt(p, x, i);
    var j :| 0 <= j <= |y| - |x| && OccursAt(x, y, j);
    forall k | 0 <= k < |p| ensures y[j + i + k] == p[k] {
      CharOfOccurrence(x, y, j, j + i + k);
      CharOfOccurrence(p, x, i, i + k);
    }
    assert y[j + i..j + i + |p|] == p;
    SubstringAt(p, y, j + i);
  }

  lemma SliceIsSubstring(s: string, a: nat, b: nat)
    requires a <= b <= |s|
    ensures IsSubstring(s[a..b], s)
  {
    SubstringAt(s[a..b], s, a);
  }

  lemma SubstringOfPart(p: string, x: string, y: string)
    requires IsSubstring(p, x) || IsSubstring(p, y)
    ensures IsSubstring(p, x + y)
  {
    if IsSubstring(p, x) {
      var i :| 0 <= i <= |x| - |p| && OccursAt(p, x, i);
      assert (x + y)[i..i + |p|] == p;
      SubstringAt(p, x + y, i);
    } else {
      var i :| 0 <= i <= |y| - |p| && OccursAt(p, y, i);
      assert (x + y)[|x| + i..|x| + i + |p|] == p;
      SubstringAt(p, x + y, |x| + i);
    }
  }

  lemma NotInPrefix(p: string, x: string, y: string)
    requires !IsSubstring(p, x + y)
    ensures !IsSubstring(p, x)
  {
    if IsSubstring(p, x) {
      SubstringOfPart(p, x, y);
    }
  }

  /** A pattern that does not contain the character `c` cannot straddle an
      occurrence of `c`: it lies wholly on one side. */
  lemma {:induction false} SubstringAcross(p: string, x: string, c: char, y: string)
    requires forall k :: 0 <= k < |p| ==> p[k] != c
    requires IsSubstring(p, x + [c] + y)
    ensures IsSubstring(p, x) || IsSubstring(p, y)
  {
    var s := x + [c] + y;
    var i :| 0 <= i <= |s| - |p| && OccursAt(p, s, i);
    if i + |p| <= |x| {
      assert x[i..i + |p|] == p;
      SubstringAt(p, x, i);
    } else if i > |x| {
      assert y[i - |x| - 1..i - |x| - 1 + |p|] == p;
      SubstringAt(p, y, i - |x| - 1);
    } else {
      CharOfOccurrence(p, s, i, |x|);
      assert false;
    }
  }

  /** A pattern free of every character of `sep`'s first character is found
      in `sep.join(parts)` only inside one of the parts. */
  lemma {:induction false} SubstringOfJoin(p: string, c: char, parts: seq<string>)
    requires |p| > 0
    requires forall k :: 0 <= k < |p| ==> p[k] != c
    requires IsSubstring(p, Join([c], parts))
    ensures exists k :: 0 <= k < |parts| && IsSubstring(p, parts[k])
  {
    if |parts| == 0 {
      assert false;
    } else if |parts| == 1 {
      assert IsSubstring(p, parts[0]);
    } else {
      assert Join([c], parts) == parts[0] + [c] + Join([c], parts[1..]);
      SubstringAcross(p, parts[0], c, Join([c], parts[1..]));
      if !IsSubstring(p, parts[0]) {
        SubstringOfJoin(p, c, parts[1..]);
        var k :| 0 <= k < |parts[1..]| && IsSubstring(p, parts[1..][k]);
        assert IsSubstring(p, parts[k + 1]);
      }
    }
  }

  /** Every part appears in the joined text. */
  lemma {:induction false} PartOfJoin(sep: string, parts: seq<string>, k: nat)
    requires k < |parts|
    ensures IsSubstring(parts[k], Join(sep, parts))
  {
    if |parts| == 1 {
      SubstringAt(parts[0], parts[0], 0);
    } else {
      var rest := Join(sep, parts[1..]);
      if k == 0 {
        SubstringAt(parts[0], parts[0], 0);
        SubstringOfPart(parts[0], parts[0], sep + rest);
        assert parts[0] + (sep + rest) == parts[0] + sep + rest;
      } else {
        PartOfJoin(sep, parts[1..], k - 1);
        SubstringOfPart(parts[k], parts[0] + sep, rest);
      }
    }
  }

  // ---------------------------------------------------------------- decimal

  function DigitChar(d: nat): (c: char)
    requires d < 10
    ensures IsDigit(c)
  {
    (48 + d) as char
  }

  /** `str(n)` for a natural number: its decimal digits, no leading zero. */
  function NatStr(n: nat): (r: string)
    ensures 1 <= |r| && AllDigits(r)
    ensures |r| == 1 <==> n < 10
  {
    if n < 10 then [DigitChar(n)] else NatStr(n / 10) + [DigitChar(n % 10)]
  }

  /** Different numbers are written differently. */
  lemma {:induction false} NatStrInjective(a: nat, b: nat)
    requires NatStr(a) == NatStr(b)
    ensures a == b
  {
    if a >= 10 && b >= 10 {
      var sa, sb := NatStr(a), NatStr(b);
      assert sa[..|sa| - 1] == NatStr(a / 10);
      assert sb[..|sb| - 1] == NatStr(b / 10);
      NatStrInjective(a / 10, b / 10);
      assert DigitChar(a % 10) == sa[|sa| - 1] == sb[|sb| - 1] == DigitChar(b % 10);
    }
  }

  /** `str(i)` for any integer: a minus sign before the digits of a negative. */
  function IntStr(i: int): string
  {
    if i < 0 then "-" + NatStr(-i) else NatStr(i)
  }

  // ---------------------------------------------------------------- case

  /** ASCII lower-casing of one character. */
  function Lower(c: char): (r: char)
    ensures 'A' <= c <= 'Z' ==> r as int == c as int + 32
    ensures !('A' <= c <= 'Z') ==> r == c
  {
    if 'A' <= c <= 'Z' then (c as int + 32) as char else c
  }

  function LowerAll(s: string): (r: string)
    ensures |r| == |s| && forall k :: 0 <= k < |s| ==> r[k] == Lower(s[k])
  {
    if s == [] then [] else [Lower(s[0])] + LowerAll(s[1..])
  }
}
