/** Python's `str.strip()` with no argument: drop leading and trailing
    white space. */
module Strip {
  import opened Chars
  import opened Scan

  /** Where the trailing white space of `s[lo..hi]` starts. */
  function TrailingStart(s: string, lo: nat, hi: nat): (b: nat)
    requires lo <= hi <= |s|
    ensures lo <= b <= hi
    ensures Run(s, b, hi, Spaces)
    ensures b == lo || !IsSpace(s[b - 1])
    decreases hi
  {
    if hi == lo || !IsSpace(s[hi - 1]) then hi else TrailingStart(s, lo, hi - 1)
  }

  /** `s.strip()`: the infix of `s` left once the white space at both ends
      is removed; nothing but white space is removed, and the result
      neither starts nor ends with white space. */
  function Strip(s: string): (r: string)
    ensures |r| <= |s|
    ensures exists a: nat :: && a + |r| <= |s|
                             && r == s[a..a + |r|]
                             && Run(s, 0, a, Spaces)
                             && Run(s, a + |r|, |s|, Spaces)
    ensures |r| > 0 ==> !IsSpace(r[0]) && !IsSpace(r[|r| - 1])
  {
    var a := RunEnd(s, 0, Spaces);
    var b := TrailingStart(s, a, |s|);
    s[a..b]
  }

  /** The text is blank, as `not s.strip()` tests it. */
  predicate IsBlank(s: string) {
    |Strip(s)| == 0
  }

  /** `not s.strip()` holds exactly for the texts made only of white space
      (the empty text included). */
  lemma BlankIffAllSpace(s: string)
    ensures IsBlank(s) <==> forall k :: 0 <= k < |s| ==> IsSpace(s[k])
  {
  }
}
