/** One metric pattern `KEYWORD[:\s]*([\d,\.]+)` under `re.IGNORECASE`:
    the match at a fixed start position and `re.search`'s leftmost scan. */
module Matcher {
  import opened Wrappers
  import opened Chars
  import opened Scan
  import opened Keyword

  /** The pattern's language with its group marked: the keyword occupies
      `text[i..j]`, separators `text[j..k]`, and group 1 is `text[k..e]`,
      a non-empty run of value characters. */
  ghost predicate Splits(text: string, m: Metric, i: nat, j: nat, k: nat, e: nat) {
    && i <= j <= k < e <= |text|
    && KeywordSpan(text, i, j, Words(m))
    && Run(text, j, k, Separators)
    && Run(text, k, e, ValueChars)
  }

  /** The value the backtracking engine reports for a match starting at
      `i`: group 1 of a split whose value run cannot be extended, since
      `+` is greedy and nothing follows it in the pattern. */
  ghost predicate GreedyAt(text: string, m: Metric, i: nat, v: string) {
    exists j: nat, k: nat, e: nat :: && Splits(text, m, i, j, k, e)
                      && (e == |text| || !IsValueChar(text[e]))
                      && v == text[k..e]
  }

  /** `re.match` of the metric's pattern at position `i`: group 1 or nothing. */
  function MatchAt(text: string, i: nat, m: Metric): (r: Option<string>)
    requires i <= |text|
    ensures r.Some? ==> |r.value| > 0 && forall c <- r.value :: IsValueChar(c)
  {
    match KeywordEnd(text, i, Words(m))
    case None => None
    case Some(j) =>
      var k := RunEnd(text, j, Separators);
      var e := RunEnd(text, k, ValueChars);
      if e == k then None else Some(text[k..e])
  }

  /** Whatever split of the text the pattern admits at `i`, the keyword
      ends at the same place and the separators stop at the same place:
      every `:` and white space character before the value is consumed. */
  lemma SplitsUnique(text: string, m: Metric, i: nat, j: nat, k: nat, e: nat, j': nat, k': nat, e': nat)
    requires Splits(text, m, i, j, k, e)
    requires Splits(text, m, i, j', k', e')
    ensures j == j' && k == k'
    ensures !IsSeparator(text[k])
  {
    TableIsComplete(m);
    KeywordEndSpec(text, i, j, Words(m));
    KeywordEndSpec(text, i, j', Words(m));
    SeparatorsAndValuesDisjoint(text[k]);
    SeparatorsAndValuesDisjoint(text[k']);
    RunEndUnique(text, j, k, Separators);
    RunEndUnique(text, j, k', Separators);
  }

  lemma MatchAtSound(text: string, i: nat, m: Metric)
    requires i <= |text|
    requires MatchAt(text, i, m).Some?
    ensures GreedyAt(text, m, i, MatchAt(text, i, m).value)
  {
    TableIsComplete(m);
    var j := KeywordEnd(text, i, Words(m)).value;
    KeywordEndSpec(text, i, j, Words(m));
    var k := RunEnd(text, j, Separators);
    var e := RunEnd(text, k, ValueChars);
    assert Splits(text, m, i, j, k, e);
  }

  lemma MatchAtComplete(text: string, i: nat, m: Metric, j: nat, k: nat, e: nat)
    requires Splits(text, m, i, j, k, e)
    ensures MatchAt(text, i, m).Some?
    ensures e == |text| || !IsValueChar(text[e]) ==> MatchAt(text, i, m) == Some(text[k..e])
  {
    TableIsComplete(m);
    KeywordEndSpec(text, i, j, Words(m));
    SeparatorsAndValuesDisjoint(text[k]);
    RunEndUnique(text, j, k, Separators);
    if e == |text| || !IsValueChar(text[e]) {
      RunEndUnique(text, k, e, ValueChars);
    }
  }

  /** The hand-written matcher agrees with the pattern's semantics: it
      succeeds exactly when some split exists, and then reports the greedy
      group and nothing else. */
  lemma MatchAtSpec(text: string, i: nat, m: Metric)
    requires i <= |text|
    ensures MatchAt(text, i, m).Some? <==> exists j: nat, k: nat, e: nat :: Splits(text, m, i, j, k, e)
    ensures forall v :: MatchAt(text, i, m) == Some(v) <==> GreedyAt(text, m, i, v)
  {
    if MatchAt(text, i, m).Some? {
      MatchAtSound(text, i, m);
    }
    forall j: nat, k: nat, e: nat | Splits(text, m, i, j, k, e)
      ensures MatchAt(text, i, m).Some?
    {
      MatchAtComplete(text, i, m, j, k, e);
    }
    forall v | GreedyAt(text, m, i, v)
      ensures MatchAt(text, i, m) == Some(v)
    {
      var j: nat, k: nat, e: nat :| && Splits(text, m, i, j, k, e)
                     && (e == |text| || !IsValueChar(text[e]))
                     && v == text[k..e];
      MatchAtComplete(text, i, m, j, k, e);
    }
  }

  /** `i` is the leftmost start position at which the pattern matches. */
  ghost predicate Leftmost(text: string, m: Metric, i: nat)
    requires i <= |text|
  {
    && MatchAt(text, i, m).Some?
    && forall i' :: 0 <= i' < i ==> MatchAt(text, i', m).None?
  }

  /** `re.match` of the pattern at every start position of the text. */
  function MatcherOn(text: string, m: Metric): nat -> Option<string> {
    (i: nat) => if i <= |text| then MatchAt(text, i, m) else None
  }

  /** `re.search(pattern, text, re.IGNORECASE)` reduced to group 1: the
      match at the first start position, the end of the text included,
      at which the pattern matches. */
  function Search(text: string, m: Metric): (r: Option<string>)
    ensures r.None? <==> forall i :: 0 <= i <= |text| ==> MatchAt(text, i, m).None?
    ensures r.Some? ==> exists i :: 0 <= i <= |text| && Leftmost(text, m, i) && r == MatchAt(text, i, m)
  {
    match FirstFrom(MatcherOn(text, m), |text|, 0)
    case None =>
      assert forall i :: 0 <= i <= |text| ==> MatchAt(text, i, m).None? by {
        forall i | 0 <= i <= |text| ensures MatchAt(text, i, m).None? {
          assert MatcherOn(text, m)(i).None?;
        }
      }
      None
    case Some(i) =>
      assert MatcherOn(text, m)(i).Some?;
      assert Leftmost(text, m, i) by {
        forall i' | 0 <= i' < i ensures MatchAt(text, i', m).None? {
          assert MatcherOn(text, m)(i').None?;
        }
      }
      MatchAt(text, i, m)
  }

  /** The search's result in the pattern's own terms: the leftmost start
      position at which the pattern admits a split, and the greedy group
      there. */
  ghost predicate RegexSearch(text: string, m: Metric, v: string) {
    exists i :: && 0 <= i <= |text|
                && GreedyAt(text, m, i, v)
                && forall i': nat, j: nat, k: nat, e: nat :: i' < i ==> !Splits(text, m, i', j, k, e)
  }

  ghost predicate RegexMatchesSomewhere(text: string, m: Metric) {
    exists i: nat, j: nat, k: nat, e: nat :: Splits(text, m, i, j, k, e)
  }

  /** A start position where the matcher fails admits no split at all. */
  lemma NoSplitsWithoutMatch(text: string, i: nat, m: Metric)
    requires i <= |text|
    requires MatchAt(text, i, m).None?
    ensures forall j: nat, k: nat, e: nat :: !Splits(text, m, i, j, k, e)
  {
    forall j: nat, k: nat, e: nat | Splits(text, m, i, j, k, e)
      ensures false
    {
      MatchAtComplete(text, i, m, j, k, e);
    }
  }

  lemma SearchSound(text: string, m: Metric)
    requires Search(text, m).Some?
    ensures RegexSearch(text, m, Search(text, m).value)
  {
    var i :| 0 <= i <= |text| && Leftmost(text, m, i) && Search(text, m) == MatchAt(text, i, m);
    MatchAtSound(text, i, m);
    forall i': nat, j: nat, k: nat, e: nat | i' < i
      ensures !Splits(text, m, i', j, k, e)
    {
      NoSplitsWithoutMatch(text, i', m);
    }
  }

  /** The search reports the match at the leftmost matching position. */
  lemma SearchAtLeftmost(text: string, m: Metric, i: nat)
    requires i <= |text|
    requires Leftmost(text, m, i)
    ensures Search(text, m) == MatchAt(text, i, m)
  {
    var i0 :| 0 <= i0 <= |text| && Leftmost(text, m, i0) && Search(text, m) == MatchAt(text, i0, m);
    // Both positions match and each precedes every match, so they coincide.
    assert Leftmost(text, m, i0);
    assert MatchAt(text, i0, m).Some?;
    assert MatchAt(text, i, m).Some?;
    assert i0 == i;
  }

  lemma SearchComplete(text: string, m: Metric, v: string)
    requires RegexSearch(text, m, v)
    ensures Search(text, m) == Some(v)
  {
    var i :| && 0 <= i <= |text|
             && GreedyAt(text, m, i, v)
             && forall i': nat, j: nat, k: nat, e: nat :: i' < i ==> !Splits(text, m, i', j, k, e);
    MatchAtSpec(text, i, m);
    forall i' | 0 <= i' < i
      ensures MatchAt(text, i', m).None?
    {
      MatchAtSpec(text, i', m);
    }
    SearchAtLeftmost(text, m, i);
  }

  /** The search finds a value exactly when the pattern matches somewhere,
      and the value it finds is the one the pattern's semantics prescribe:
      the greedy group at the leftmost start position that admits a split. */
  lemma SearchSpec(text: string, m: Metric)
    ensures Search(text, m).Some? <==> RegexMatchesSomewhere(text, m)
    ensures forall v :: Search(text, m) == Some(v) <==> RegexSearch(text, m, v)
  {
    if Search(text, m).Some? {
      SearchSound(text, m);
    }
    if RegexMatchesSomewhere(text, m) {
      var i: nat, j: nat, k: nat, e: nat :| Splits(text, m, i, j, k, e);
      MatchAtComplete(text, i, m, j, k, e);
    }
    forall v | RegexSearch(text, m, v)
      ensures Search(text, m) == Some(v)
    {
      SearchComplete(text, m, v);
    }
  }

  /** A start position where the first keyword word is contradicted by
      one of its letters admits no match. */
  lemma MismatchNoMatch(text: string, i: nat, m: Metric, x: nat)
    requires i <= |text|
    requires x < |Words(m)[0]|
    requires i + x >= |text| || ToLower(text[i + x]) != Words(m)[0][x]
    ensures MatchAt(text, i, m).None?
  {
  }

  /** A pattern whose first keyword word holds a letter that occurs in the
      text in neither case cannot match anywhere. */
  lemma MissingLetterNoMatch(text: string, m: Metric, c: char)
    requires c in Words(m)[0]
    requires forall k :: 0 <= k < |text| ==> ToLower(text[k]) != c
    ensures Search(text, m) == None
  {
    var w := Words(m)[0];
    var x :| 0 <= x < |w| && w[x] == c;
    forall i | 0 <= i <= |text|
      ensures MatchAt(text, i, m).None?
    {
      MismatchNoMatch(text, i, m, x);
    }
  }
}
