/** Python's `str.strip()` with no argument: removes leading and trailing whitespace,
    where whitespace is every character for which `str.isspace()` holds. */
module Text {

  /** The characters `str.isspace()` accepts: the ASCII controls TAB..CR and
      FS..US, SPACE, NEL, NO-BREAK SPACE, and the Unicode space separators and
      line/paragraph separators. */
  predicate IsSpace(c: char) {
    var n := c as int;
    (0x09 <= n <= 0x0D) || (0x1C <= n <= 0x20) || n == 0x85 || n == 0xA0 ||
    n == 0x1680 || (0x2000 <= n <= 0x200A) || n == 0x2028 || n == 0x2029 ||
    n == 0x202F || n == 0x205F || n == 0x3000
  }

  /** Every character of `s` at an index in `[lo, hi)` is whitespace. */
  predicate SpaceBetween(s: string, lo: int, hi: int)
    requires 0 <= lo && hi <= |s|
  {
    forall k :: lo <= k < hi ==> IsSpace(s[k])
  }

  predicate AllSpace(s: string) {
    SpaceBetween(s, 0, |s|)
  }

  /** `r` sits at offset `i` of `s` with nothing but whitespace on either side. */
  ghost predicate SurroundedBySpace(s: string, i: int, r: string) {
    0 <= i <= |s| - |r| && s[i..i + |r|] == r &&
    SpaceBetween(s, 0, i) && SpaceBetween(s, i + |r|, |s|)
  }

  /** `r` is `s` with surrounding whitespace removed: an infix of `s` flanked by
      whitespace that neither begins nor ends with whitespace. */
  ghost predicate IsStripOf(s: string, r: string) {
    (exists i :: SurroundedBySpace(s, i, r)) &&
    (r != [] ==> !IsSpace(r[0]) && !IsSpace(r[|r| - 1]))
  }

  /** The number of whitespace characters `s` begins with. */
  function LeadingSpace(s: string): (n: nat)
    ensures n <= |s| && SpaceBetween(s, 0, n)
    ensures n < |s| ==> !IsSpace(s[n])
  {
    if s == [] || !IsSpace(s[0]) then 0
    else
      var n := 1 + LeadingSpace(s[1..]);
      assert forall k :: 1 <= k < n ==> s[k] == s[1..][k - 1];
      n
  }

  /** The number of whitespace characters `s` ends with. */
  function TrailingSpace(s: string): (n: nat)
    ensures n <= |s| && SpaceBetween(s, |s| - n, |s|)
    ensures n < |s| ==> !IsSpace(s[|s| - n - 1])
  {
    if s == [] || !IsSpace(s[|s| - 1]) then 0
    else 1 + TrailingSpace(s[..|s| - 1])
  }

  /** `str.strip()`. */
  function Strip(s: string): (r: string)
    ensures |r| <= |s|
    ensures IsStripOf(s, r)
  {
    var i := LeadingSpace(s);
    var t := s[i..];
    var r := t[..|t| - TrailingSpace(t)];
    assert s[i..i + |r|] == r;
    assert forall k :: i + |r| <= k < |s| ==> s[k] == t[k - i];
    assert r != [] ==> r[0] == s[i];
    assert SurroundedBySpace(s, i, r);
    r
  }

  /** Where a stripped infix starts is forced: it is the first non-whitespace
      character of `s`, if any. */
  lemma StripStart(s: string, r: string, i: int)
    requires SurroundedBySpace(s, i, r)
    requires r != [] && !IsSpace(r[0])
    ensures i == LeadingSpace(s)
  {
    assert s[i] == r[0];
  }

  /** Where a stripped infix ends is forced: just after the last non-whitespace
      character of `s`. */
  lemma StripEnd(s: string, r: string, i: int)
    requires SurroundedBySpace(s, i, r)
    requires r != [] && !IsSpace(r[|r| - 1])
    ensures i + |r| == |s| - TrailingSpace(s)
  {
    assert s[i + |r| - 1] == r[|r| - 1];
  }

  /** `IsStripOf` determines its result: `Strip` is the only function meeting it. */
  lemma StripUnique(s: string, r: string)
    requires IsStripOf(s, r)
    ensures r == Strip(s)
  {
    var q := Strip(s);
    var i :| SurroundedBySpace(s, i, r);
    var j :| SurroundedBySpace(s, j, q);
    if r != [] {
      StripStart(s, r, i);
      StripEnd(s, r, i);
    }
    if q != [] {
      StripStart(s, q, j);
      StripEnd(s, q, j);
    }
    assert r != [] ==> r[0] == s[i];
    assert q != [] ==> q[0] == s[j];
  }

  /** Stripping twice is stripping once. */
  lemma StripIdempotent(s: string)
    ensures Strip(Strip(s)) == Strip(s)
  {
    var r := Strip(s);
    assert SurroundedBySpace(r, 0, r);
    StripUnique(r, r);
  }

  /** A line holding only whitespace strips to the empty string. */
  lemma StripBlank(s: string)
    requires AllSpace(s)
    ensures Strip(s) == ""
  {
    var r := Strip(s);
    var i :| SurroundedBySpace(s, i, r);
  }

  /** A string with some non-whitespace character never strips to the empty string. */
  lemma StripNonBlank(s: string, k: int)
    requires 0 <= k < |s| && !IsSpace(s[k])
    ensures Strip(s) != ""
  {
    var r := Strip(s);
    var i :| SurroundedBySpace(s, i, r);
  }
}
