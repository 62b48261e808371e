/** `extract_financial_metrics`: one search per pattern, in table order,
    keeping group 1 of each pattern that matches. */
module Extractor {
  import opened Wrappers
  import opened Chars
  import opened Scan
  import opened Keyword
  import opened Matcher

  /** One key/value pair of the returned dictionary; the value is the raw
      captured text, never parsed. */
  datatype Entry = Entry(metric: Metric, value: string)

  ghost predicate Increasing(ms: seq<Metric>) {
    forall a, b :: 0 <= a < b < |ms| ==> Index(ms[a]) < Index(ms[b])
  }

  /** Keys in strictly increasing table position: table order, no key twice. */
  ghost predicate InTableOrder(r: seq<Entry>) {
    forall a, b :: 0 <= a < b < |r| ==> Index(r[a].metric) < Index(r[b].metric)
  }

  /** A captured value: non-empty and made only of digits, `,` and `.`. */
  ghost predicate IsRawNumber(v: string) {
    |v| > 0 && forall c <- v :: IsValueChar(c)
  }

  lemma HeadPrecedesTail(ms: seq<Metric>, m: Metric)
    requires Increasing(ms)
    requires |ms| > 0 && m in ms[1..]
    ensures Index(ms[0]) < Index(m)
  {
    var b :| 0 <= b < |ms[1..]| && ms[1..][b] == m;
    assert ms[b + 1] == m;
  }

  lemma TableIncreasing()
    ensures Increasing(Table)
  {
  }

  lemma ConsInTableOrder(ms: seq<Metric>, v: string, rest: seq<Entry>)
    requires Increasing(ms) && |ms| > 0
    requires InTableOrder(rest)
    requires forall e <- rest :: e.metric in ms[1..]
    ensures InTableOrder([Entry(ms[0], v)] + rest)
  {
    forall e <- rest
      ensures Index(ms[0]) < Index(e.metric)
    {
      HeadPrecedesTail(ms, e.metric);
    }
  }

  /** The search for every pattern over one text. */
  function SearchIn(text: string): Metric -> Option<string> {
    m => Search(text, m)
  }

  /** The loop over the patterns `ms`: `search(m)` stands for the search
      with `m`'s pattern, and each success stores group 1 under `m`. */
  function ExtractFrom(search: Metric -> Option<string>, ms: seq<Metric>): (r: seq<Entry>)
    requires Increasing(ms)
    ensures |r| <= |ms|
    ensures InTableOrder(r)
    ensures forall e <- r :: e.metric in ms && search(e.metric) == Some(e.value)
    decreases |ms|
  {
    if |ms| == 0 then []
    else
      var rest := ExtractFrom(search, ms[1..]);
      match search(ms[0])
      case Some(v) =>
        ConsInTableOrder(ms, v, rest);
        [Entry(ms[0], v)] + rest
      case None => rest
  }

  /** `extract_financial_metrics(text)`. */
  function ExtractMetrics(text: string): (r: seq<Entry>)
    ensures |r| <= |Table|
    ensures InTableOrder(r)
    ensures forall e <- r :: IsRawNumber(e.value)
    ensures forall e <- r :: Search(text, e.metric) == Some(e.value)
  {
    TableIncreasing();
    var r := ExtractFrom(SearchIn(text), Table);
    assert forall e <- r :: Search(text, e.metric) == Some(e.value) by {
      forall e <- r ensures Search(text, e.metric) == Some(e.value) {
        assert SearchIn(text)(e.metric) == Some(e.value);
      }
    }
    r
  }

  /** `extracted.get(key)`. */
  function Lookup(r: seq<Entry>, m: Metric): Option<string> {
    if |r| == 0 then None
    else if r[0].metric == m then Some(r[0].value)
    else Lookup(r[1..], m)
  }

  lemma {:induction false} LookupExtractFrom(search: Metric -> Option<string>, ms: seq<Metric>, m: Metric)
    requires Increasing(ms)
    ensures Lookup(ExtractFrom(search, ms), m) == if m in ms then search(m) else None
    decreases |ms|
  {
    if |ms| > 0 {
      LookupExtractFrom(search, ms[1..], m);
      if m != ms[0] {
        assert m in ms <==> m in ms[1..];
      }
    }
  }

  /** The dictionary holds, under every key, exactly what the search for
      that key's pattern reports, and nothing where the search fails. */
  lemma LookupExtract(text: string, m: Metric)
    ensures Lookup(ExtractMetrics(text), m) == Search(text, m)
  {
    TableIsComplete(m);
    TableIncreasing();
    LookupExtractFrom(SearchIn(text), Table, m);
  }

  /** A metric is present iff its pattern matches somewhere, and its value
      is group 1 of the leftmost match, taken greedily. */
  lemma PresentIffMatches(text: string, m: Metric)
    ensures Lookup(ExtractMetrics(text), m).Some? <==> RegexMatchesSomewhere(text, m)
    ensures forall v :: Lookup(ExtractMetrics(text), m) == Some(v) <==> RegexSearch(text, m, v)
  {
    LookupExtract(text, m);
    SearchSpec(text, m);
  }

  /** The result is empty exactly when no pattern matches anywhere. */
  lemma EmptyIffNoMatch(text: string)
    ensures ExtractMetrics(text) == [] <==> forall m :: !RegexMatchesSomewhere(text, m)
  {
    forall m
      ensures Lookup(ExtractMetrics(text), m).Some? <==> RegexMatchesSomewhere(text, m)
    {
      PresentIffMatches(text, m);
    }
    if ExtractMetrics(text) != [] {
      assert Lookup(ExtractMetrics(text), ExtractMetrics(text)[0].metric).Some?;
    }
  }

  /** A text in which no keyword's first word occurs, in any case, yields
      no metrics at all. */
  lemma NoKeywordNoMetrics(text: string)
    requires forall i: nat, m: Metric :: i <= |text| ==> !WordAt(text, i, Words(m)[0])
    ensures ExtractMetrics(text) == []
  {
  }
}
