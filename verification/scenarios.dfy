/** Worked inputs: a value made only of a comma, and a
    later keyword occurrence winning over an earlier one that has no
    number after it. */
module Scenarios {
  import opened Wrappers
  import opened Scan
  import opened Keyword
  import opened Matcher
  import opened Extractor

  /** A keyword followed by a comma captures the comma: the value class
      does not demand a digit. */
  lemma CommaIsAValue(text: string)
    requires text == "Revenue, net"
    ensures Search(text, Revenue) == Some(",")
  {
    CommaMatchesAt0(text);
    SearchAtLeftmost(text, Revenue, 0);
  }

  lemma CommaMatchesAt0(text: string)
    requires text == "Revenue, net"
    ensures MatchAt(text, 0, Revenue) == Some(",")
  {
    assert Splits(text, Revenue, 0, 7, 7, 8);
    MatchAtComplete(text, 0, Revenue, 7, 7, 8);
    assert text[7..8] == ",";
  }

  /** An earlier keyword that is not followed by a number is skipped in
      favour of a later one. */
  lemma LaterOccurrenceWins(text: string)
    requires text == "Revenue grew; Revenue: 10"
    ensures Search(text, Revenue) == Some("10")
  {
    RevenueGrewMatchesAt14(text);
    RevenueGrewNothingBefore14(text);
    SearchAtLeftmost(text, Revenue, 14);
  }

  lemma RevenueGrewMatchesAt14(text: string)
    requires text == "Revenue grew; Revenue: 10"
    ensures MatchAt(text, 14, Revenue) == Some("10")
  {
    assert Splits(text, Revenue, 14, 21, 23, 25);
    MatchAtComplete(text, 14, Revenue, 21, 23, 25);
    assert text[23..25] == "10";
  }

  lemma RevenueGrewNothingBefore14(text: string)
    requires text == "Revenue grew; Revenue: 10"
    ensures forall i :: 0 <= i < 14 ==> MatchAt(text, i, Revenue).None?
  {
    RunEndUnique(text, 7, 8, Separators);
    RunEndUnique(text, 8, 8, ValueChars);
    forall i | 1 <= i < 14
      ensures MatchAt(text, i, Revenue).None?
    {
      if i == 4 {
        MismatchNoMatch(text, i, Revenue, 1);
      } else if i == 9 {
        MismatchNoMatch(text, i, Revenue, 2);
      } else {
        MismatchNoMatch(text, i, Revenue, 0);
      }
    }
  }
}
