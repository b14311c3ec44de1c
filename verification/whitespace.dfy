/** Python's `str.strip()` with no argument: removes whitespace from both
    ends of a string. Like CPython, it scans forward from the start past
    whitespace, then backward from the end, never below where the forward
    scan stopped, and returns the slice between. */
module Whitespace {

  /** The code points Python's `str.isspace` (and so `strip`) treats as
      whitespace: the ASCII controls TAB..CR and FS..US, SPACE, NEL, NBSP,
      OGHAM SPACE MARK, the spaces U+2000..U+200A, LINE and PARAGRAPH
      SEPARATOR, NARROW NBSP, MEDIUM MATHEMATICAL SPACE and IDEOGRAPHIC
      SPACE. */
  predicate IsSpace(c: char) {
    var n := c as int;
    || 0x09 <= n <= 0x0D
    || 0x1C <= n <= 0x20
    || n == 0x85 || n == 0xA0 || n == 0x1680
    || 0x2000 <= n <= 0x200A
    || n == 0x2028 || n == 0x2029 || n == 0x202F || n == 0x205F || n == 0x3000
  }

  /** Every character of `s` is whitespace (vacuously so when `s` is empty). */
  predicate Blank(s: string) {
    forall i :: 0 <= i < |s| ==> IsSpace(s[i])
  }

  /** The forward scan: the first index at or after `i` that does not hold
      whitespace, or `|s|`. */
  function SkipLeading(s: string, i: nat): (e: nat)
    requires i <= |s|
    ensures i <= e <= |s|
    ensures forall k :: i <= k < e ==> IsSpace(s[k])
    ensures e == |s| || !IsSpace(s[e])
    decreases |s| - i
  {
    if i < |s| && IsSpace(s[i]) then SkipLeading(s, i + 1) else i
  }

  /** The backward scan: the smallest `e` in `[lo, j]` such that only
      whitespace lies in `s[e..j]`. */
  function SkipTrailing(s: string, lo: nat, j: nat): (e: nat)
    requires lo <= j <= |s|
    ensures lo <= e <= j
    ensures forall k :: e <= k < j ==> IsSpace(s[k])
    ensures e == lo || !IsSpace(s[e - 1])
    decreases j
  {
    if lo < j && IsSpace(s[j - 1]) then SkipTrailing(s, lo, j - 1) else j
  }

  /** `s.strip()`: the result neither starts nor ends with whitespace, and is
      empty exactly when `s` holds nothing but whitespace. */
  function Strip(s: string): (r: string)
    ensures |r| <= |s|
    ensures r == [] || (!IsSpace(r[0]) && !IsSpace(r[|r| - 1]))
    ensures r == [] <==> Blank(s)
  {
    var i := SkipLeading(s, 0);
    var j := SkipTrailing(s, i, |s|);
    assert i < |s| ==> !IsSpace(s[i]);
    s[i..j]
  }

  /** `s.strip()` is a contiguous piece of `s` with only whitespace cut off
      either side. */
  lemma StripIsTrimmedSlice(s: string)
    ensures exists i, j :: 0 <= i <= j <= |s| && Strip(s) == s[i..j]
                           && (forall k :: 0 <= k < i ==> IsSpace(s[k]))
                           && (forall k :: j <= k < |s| ==> IsSpace(s[k]))
  {
    var i := SkipLeading(s, 0);
    var j := SkipTrailing(s, i, |s|);
    assert Strip(s) == s[i..j];
  }

  /** Stripping is idempotent: a stripped string has nothing left to strip. */
  lemma StripIdempotent(s: string)
    ensures Strip(Strip(s)) == Strip(s)
  {
    var r := Strip(s);
    if r != [] {
      var i := SkipLeading(r, 0);
      assert i == 0;
      var j := SkipTrailing(r, 0, |r|);
      assert j == |r|;
      assert r[0..|r|] == r;
    }
  }
}
