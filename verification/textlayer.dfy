/** The text-layer half of text acquisition: the loop of
    `extract_text_text_based` over the pages' extracted texts. */
module TextLayer {
  import opened Wrappers

  /** What a page contributes: its extracted text, nothing for `None`. */
  function PageText(page: Option<string>): string {
    match page
    case None => ""
    case Some(t) => t
  }

  /** The page texts joined in page order with no separator. */
  function Concat(pages: seq<Option<string>>): string {
    if |pages| == 0 then "" else PageText(pages[0]) + Concat(pages[1..])
  }

  /** The loop as written: skip a page whose text is `None` or empty,
      append the others. */
  method ExtractTextBased(pages: seq<Option<string>>) returns (fullText: string)
    ensures fullText == Concat(pages)
  {
    fullText := "";
    for i := 0 to |pages|
      invariant fullText == Concat(pages[..i])
    {
      var text := pages[i];
      ConcatSnoc(pages, i);
      if text.Some? && |text.value| > 0 {
        fullText := fullText + text.value;
      } else {
        assert PageText(text) == "";
      }
    }
    assert pages[..|pages|] == pages;
  }

  /** The first `i + 1` pages contribute the first `i`, then page `i`'s text. */
  lemma ConcatSnoc(pages: seq<Option<string>>, i: nat)
    requires i < |pages|
    ensures Concat(pages[..i + 1]) == Concat(pages[..i]) + PageText(pages[i])
  {
    assert pages[..i + 1] == pages[..i] + [pages[i]];
    ConcatAppend(pages[..i], [pages[i]]);
    assert [pages[i]][1..] == [];
  }

  /** Joining the pages of two consecutive page ranges. */
  lemma {:induction false} ConcatAppend(p: seq<Option<string>>, q: seq<Option<string>>)
    ensures Concat(p + q) == Concat(p) + Concat(q)
    decreases |p|
  {
    if |p| == 0 {
      assert p + q == q;
    } else {
      assert (p + q)[1..] == p[1..] + q;
      ConcatAppend(p[1..], q);
    }
  }

  /** A page whose text is `None` or empty changes nothing, wherever it is. */
  lemma BlankPageContributesNothing(p: seq<Option<string>>, page: Option<string>, q: seq<Option<string>>)
    requires page == None || page == Some("")
    ensures Concat(p + [page] + q) == Concat(p + q)
  {
    ConcatAppend(p + [page], q);
    ConcatAppend(p, [page]);
    ConcatAppend(p, q);
  }

  /** Page `i`'s text sits in the result right after the text of the pages
      before it: page order is kept and nothing is inserted between pages. */
  lemma PageAtOffset(pages: seq<Option<string>>, i: nat)
    requires i < |pages|
    ensures var off := |Concat(pages[..i])|;
            && off + |PageText(pages[i])| <= |Concat(pages)|
            && Concat(pages)[off..off + |PageText(pages[i])|] == PageText(pages[i])
  {
    assert pages == pages[..i] + pages[i..];
    ConcatAppend(pages[..i], pages[i..]);
  }
}
