/** `re.IGNORECASE`: the extractor cannot tell texts apart that differ only
    in the case of ASCII letters. */
module CaseFold {
  import opened Wrappers
  import opened Chars
  import opened Scan
  import opened Keyword
  import opened Matcher
  import opened Extractor

  /** The two texts agree position by position once letters are folded. */
  ghost predicate SameUpToCase(t1: string, t2: string) {
    && |t1| == |t2|
    && forall k :: 0 <= k < |t1| ==> ToLower(t1[k]) == ToLower(t2[k])
  }

  function Lower(s: string): (r: string)
    ensures |r| == |s|
  {
    seq(|s|, k requires 0 <= k < |s| => ToLower(s[k]))
  }

  function Upper(s: string): (r: string)
    ensures |r| == |s|
  {
    seq(|s|, k requires 0 <= k < |s| => ToUpper(s[k]))
  }

  lemma RunEndUpToCase(t1: string, t2: string, from: nat, cls: CharClass)
    requires SameUpToCase(t1, t2)
    requires from <= |t1|
    ensures RunEnd(t1, from, cls) == RunEnd(t2, from, cls)
  {
    var e := RunEnd(t1, from, cls);
    forall k | from <= k < e
      ensures InClass(t2[k], cls)
    {
      FoldKeepsClasses(t1[k], t2[k]);
    }
    if e < |t1| {
      FoldKeepsClasses(t1[e], t2[e]);
    }
    RunEndUnique(t2, from, e, cls);
  }

  lemma WordAtUpToCase(t1: string, t2: string, i: nat, w: string)
    requires SameUpToCase(t1, t2)
    requires i <= |t1|
    ensures WordAt(t1, i, w) == WordAt(t2, i, w)
  {
  }

  lemma {:induction false} KeywordEndUpToCase(t1: string, t2: string, i: nat, words: seq<string>)
    requires SameUpToCase(t1, t2)
    requires i <= |t1|
    requires |words| >= 1
    ensures KeywordEnd(t1, i, words) == KeywordEnd(t2, i, words)
    decreases |words|
  {
    WordAtUpToCase(t1, t2, i, words[0]);
    if |words| > 1 && WordAt(t1, i, words[0]) {
      var a := i + |words[0]|;
      RunEndUpToCase(t1, t2, a, Spaces);
      var b := RunEnd(t1, a, Spaces);
      if b != a {
        KeywordEndUpToCase(t1, t2, b, words[1..]);
        assert KeywordEnd(t1, i, words) == KeywordEnd(t1, b, words[1..]);
        assert KeywordEnd(t2, i, words) == KeywordEnd(t2, b, words[1..]);
      }
    }
  }

  /** Folding leaves digits, commas and periods alone. */
  lemma ValueUpToCase(t1: string, t2: string, k: nat, e: nat)
    requires SameUpToCase(t1, t2)
    requires k <= e <= |t1|
    requires Run(t1, k, e, ValueChars)
    ensures t1[k..e] == t2[k..e]
  {
    forall x | 0 <= x < e - k
      ensures t1[k..e][x] == t2[k..e][x]
    {
      FoldKeepsClasses(t1[k + x], t2[k + x]);
    }
  }

  lemma MatchAtUpToCase(t1: string, t2: string, i: nat, m: Metric)
    requires SameUpToCase(t1, t2)
    requires i <= |t1|
    ensures MatchAt(t1, i, m) == MatchAt(t2, i, m)
  {
    KeywordEndUpToCase(t1, t2, i, Words(m));
    var kw := KeywordEnd(t1, i, Words(m));
    if kw.Some? {
      var j := kw.value;
      RunEndUpToCase(t1, t2, j, Separators);
      var k := RunEnd(t1, j, Separators);
      RunEndUpToCase(t1, t2, k, ValueChars);
      ValueUpToCase(t1, t2, k, RunEnd(t1, k, ValueChars));
    }
  }

  lemma AllMatchesUpToCase(t1: string, t2: string, m: Metric)
    requires SameUpToCase(t1, t2)
    ensures forall i :: 0 <= i <= |t1| ==> MatchAt(t1, i, m) == MatchAt(t2, i, m)
  {
    forall i | 0 <= i <= |t1|
      ensures MatchAt(t1, i, m) == MatchAt(t2, i, m)
    {
      MatchAtUpToCase(t1, t2, i, m);
    }
  }

  lemma LeftmostUpToCase(t1: string, t2: string, m: Metric, i: nat)
    requires SameUpToCase(t1, t2)
    requires i <= |t1|
    requires Leftmost(t1, m, i)
    ensures Leftmost(t2, m, i)
  {
    AllMatchesUpToCase(t1, t2, m);
  }

  lemma SearchUpToCase(t1: string, t2: string, m: Metric)
    requires SameUpToCase(t1, t2)
    ensures Search(t1, m) == Search(t2, m)
  {
    AllMatchesUpToCase(t1, t2, m);
    if Search(t1, m).Some? {
      var i :| 0 <= i <= |t1| && Leftmost(t1, m, i) && Search(t1, m) == MatchAt(t1, i, m);
      LeftmostUpToCase(t1, t2, m, i);
      SearchAtLeftmost(t2, m, i);
    }
  }

  lemma {:induction false} ExtractFromSameSearch(s1: Metric -> Option<string>, s2: Metric -> Option<string>, ms: seq<Metric>)
    requires Increasing(ms)
    requires forall m :: s1(m) == s2(m)
    ensures ExtractFrom(s1, ms) == ExtractFrom(s2, ms)
    decreases |ms|
  {
    if |ms| > 0 {
      ExtractFromSameSearch(s1, s2, ms[1..]);
    }
  }

  /** Texts that differ only in the case of ASCII letters yield the same
      metrics, with the same values, in the same order. */
  lemma ExtractUpToCase(t1: string, t2: string)
    requires SameUpToCase(t1, t2)
    ensures ExtractMetrics(t1) == ExtractMetrics(t2)
  {
    forall m
      ensures SearchIn(t1)(m) == SearchIn(t2)(m)
    {
      SearchUpToCase(t1, t2, m);
    }
    TableIncreasing();
    ExtractFromSameSearch(SearchIn(t1), SearchIn(t2), Table);
  }

  /** ASCII lower-casing or upper-casing the whole text changes nothing. */
  lemma ExtractIgnoresCase(text: string)
    ensures ExtractMetrics(Lower(text)) == ExtractMetrics(text)
    ensures ExtractMetrics(Upper(text)) == ExtractMetrics(text)
  {
    forall k | 0 <= k < |text|
      ensures ToLower(Lower(text)[k]) == ToLower(text[k])
      ensures ToLower(Upper(text)[k]) == ToLower(text[k])
    {
      FoldUpper(text[k]);
    }
    ExtractUpToCase(Lower(text), text);
    ExtractUpToCase(Upper(text), text);
  }
}
