/** The four metrics and the keyword half of their patterns:
    `Revenue`, `Gross\s+Profit`, `Net\s+Income` and `EBITDA`, matched
    case-insensitively. */
module Keyword {
  import opened Wrappers
  import opened Chars
  import opened Scan

  datatype Metric = Revenue | GrossProfit | NetIncome | Ebitda

  /** The pattern table, in the order the extractor walks it. */
  const Table: seq<Metric> := [Revenue, GrossProfit, NetIncome, Ebitda]

  /** Position of a metric in `Table`. */
  function Index(m: Metric): nat {
    match m
    case Revenue => 0
    case GrossProfit => 1
    case NetIncome => 2
    case Ebitda => 3
  }

  /** The keyword as lower-case words; consecutive words are separated by
      `\s+` in the pattern. */
  function Words(m: Metric): seq<string> {
    match m
    case Revenue => ["revenue"]
    case GrossProfit => ["gross", "profit"]
    case NetIncome => ["net", "income"]
    case Ebitda => ["ebitda"]
  }

  /** At least one word, and every word a non-empty run of lower-case
      ASCII letters. */
  ghost predicate WellFormed(words: seq<string>) {
    && |words| >= 1
    && forall w <- words :: |w| >= 1 && forall c <- w :: IsLower(c)
  }

  lemma TableIsComplete(m: Metric)
    ensures 0 <= Index(m) < |Table| && Table[Index(m)] == m
    ensures m in Table
    ensures WellFormed(Words(m))
  {
    assert Table[Index(m)] == m;
    WordsWellFormed(m);
  }

  /** A word whose letters are lower-case, stated by index, is lower-case
      letter by letter. */
  lemma LowerWord(w: string)
    requires |w| >= 1 && forall k :: 0 <= k < |w| ==> IsLower(w[k])
    ensures |w| >= 1 && forall c <- w :: IsLower(c)
  {
  }

  /** Every keyword is non-empty lower-case ASCII words, one metric at a time. */
  lemma WordsWellFormed(m: Metric)
    ensures WellFormed(Words(m))
  {
    match m
    case Revenue => LowerWord("revenue");
    case GrossProfit => LowerWord("gross"); LowerWord("profit");
    case NetIncome => LowerWord("net"); LowerWord("income");
    case Ebitda => LowerWord("ebitda");
  }

  /** `w` occurs at `i` in `text` when ASCII case is ignored. */
  predicate WordAt(text: string, i: nat, w: string)
    requires i <= |text|
  {
    i + |w| <= |text| && forall k :: 0 <= k < |w| ==> ToLower(text[i + k]) == w[k]
  }

  /** Matches the keyword at `i` and returns where it ends: each word in
      turn, and between two words the longest run of white space, which
      must not be empty. */
  function KeywordEnd(text: string, i: nat, words: seq<string>): (r: Option<nat>)
    requires i <= |text|
    requires |words| >= 1
    ensures r.Some? ==> i <= r.value <= |text|
    decreases |words|
  {
    if !WordAt(text, i, words[0]) then None
    else if |words| == 1 then Some(i + |words[0]|)
    else
      var a := i + |words[0]|;
      var b := RunEnd(text, a, Spaces);
      if b == a then None else KeywordEnd(text, b, words[1..])
  }

  /** The keyword's language: `text[i..j]` is the first word, then for every
      further word a non-empty stretch of white space followed by that word. */
  ghost predicate KeywordSpan(text: string, i: nat, j: nat, words: seq<string>)
    decreases |words|
  {
    && |words| >= 1
    && i <= j <= |text|
    && WordAt(text, i, words[0])
    && if |words| == 1 then j == i + |words[0]|
       else exists b :: i + |words[0]| < b <= j
                     && Run(text, i + |words[0]|, b, Spaces)
                     && KeywordSpan(text, b, j, words[1..])
  }

  /** The matcher accepts exactly the keyword's language, and the end it
      returns is the only possible one. */
  lemma {:induction false} KeywordEndSpec(text: string, i: nat, j: nat, words: seq<string>)
    requires i <= |text|
    requires WellFormed(words)
    ensures KeywordEnd(text, i, words) == Some(j) <==> KeywordSpan(text, i, j, words)
    decreases |words|
  {
    if |words| > 1 && WordAt(text, i, words[0]) {
      var a := i + |words[0]|;
      var b := RunEnd(text, a, Spaces);
      assert WellFormed(words[1..]) by {
        forall w | w in words[1..] ensures w in words { }
      }
      if KeywordEnd(text, i, words) == Some(j) {
        KeywordEndSpec(text, b, j, words[1..]);
        assert KeywordSpan(text, b, j, words[1..]);
      }
      if KeywordSpan(text, i, j, words) {
        var b' :| a < b' <= j && Run(text, a, b', Spaces) && KeywordSpan(text, b', j, words[1..]);
        assert words[1] in words;
        assert ToLower(text[b' + 0]) == words[1][0];
        FoldedLetterIsNotSpace(text[b']);
        RunEndUnique(text, a, b', Spaces);
        KeywordEndSpec(text, b', j, words[1..]);
      }
    }
  }
}
