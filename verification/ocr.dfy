/** The OCR half of text acquisition: the loop of `extract_text_ocr` over
    the texts the recogniser returns for the page images. Rendering and
    recognition themselves are inputs. */
module Ocr {
  import opened Wrappers
  import opened TextLayer

  /** The recognised page texts joined in page order with no separator. */
  function Join(texts: seq<string>): string {
    if |texts| == 0 then "" else texts[0] + Join(texts[1..])
  }

  /** The loop as written: every recognised text is appended, empty or not. */
  method ExtractTextOcr(texts: seq<string>) returns (fullText: string)
    ensures fullText == Join(texts)
  {
    fullText := "";
    for i := 0 to |texts|
      invariant Join(texts) == fullText + Join(texts[i..])
    {
      assert texts[i..][1..] == texts[i + 1..];
      fullText := fullText + texts[i];
    }
    assert texts[|texts|..] == [];
  }

  /** Every page as a text-layer page that has text. */
  function AsPages(texts: seq<string>): (pages: seq<Option<string>>)
    ensures |pages| == |texts|
  {
    seq(|texts|, i requires 0 <= i < |texts| => Some(texts[i]))
  }

  /** The OCR loop appends unconditionally while the text-layer loop skips
      missing and empty texts, and skipping an empty text appends nothing:
      both loops compute the same string once every page has a text. */
  lemma {:induction false} JoinIsConcat(texts: seq<string>)
    ensures Join(texts) == Concat(AsPages(texts))
    decreases |texts|
  {
    if |texts| > 0 {
      assert AsPages(texts)[1..] == AsPages(texts[1..]);
      JoinIsConcat(texts[1..]);
    }
  }
}
