/** The request flow after upload: text layer first, OCR text when the text
    layer is blank, then extraction, then the found/not-found branch. */
module Pipeline {
  import opened Wrappers
  import opened Chars
  import opened Keyword
  import opened Matcher
  import opened Extractor
  import opened Strip
  import opened TextLayer
  import opened Ocr

  /** The two terminal states: a table of metrics, or the "no financial
      metrics were extracted" error. */
  datatype Outcome = MetricsFound(metrics: seq<Entry>) | NoMetrics

  /** `if not extracted_text.strip(): extracted_text = <OCR text>`. */
  function ChooseText(textLayer: string, ocrText: string): (r: string)
    ensures (forall k :: 0 <= k < |textLayer| ==> IsSpace(textLayer[k])) ==> r == ocrText
    ensures (exists k :: 0 <= k < |textLayer| && !IsSpace(textLayer[k])) ==> r == textLayer
  {
    BlankIffAllSpace(textLayer);
    if IsBlank(textLayer) then ocrText else textLayer
  }

  /** `if metrics:` — an empty dictionary is the failure branch. */
  function Report(metrics: seq<Entry>): Outcome {
    if |metrics| == 0 then NoMetrics else MetricsFound(metrics)
  }

  /** Lines 56-68 once the text layer has been read: fall back to the OCR
      text if needed, extract, and branch on the result. */
  function AnalyzeText(textLayer: string, ocrText: string): (o: Outcome)
    ensures o.MetricsFound? ==> 0 < |o.metrics| <= |Table| && InTableOrder(o.metrics)
    ensures o.MetricsFound? ==> forall e <- o.metrics :: IsRawNumber(e.value)
  {
    Report(ExtractMetrics(ChooseText(textLayer, ocrText)))
  }

  /** One request: `pages` are the page texts of the text layer and
      `ocrTexts` what the recogniser yields for the same pages' images. */
  function Analyze(pages: seq<Option<string>>, ocrTexts: seq<string>): Outcome {
    AnalyzeText(Concat(pages), Join(ocrTexts))
  }

  /** When the text layer holds a non-white-space character, the OCR text
      plays no part and the text layer goes to extraction unchanged. */
  lemma TextLayerWins(textLayer: string, ocrText: string)
    requires exists k :: 0 <= k < |textLayer| && !IsSpace(textLayer[k])
    ensures AnalyzeText(textLayer, ocrText) == Report(ExtractMetrics(textLayer))
  {
  }

  /** When the text layer is empty or only white space, the OCR text is
      what is analysed. */
  lemma OcrFallback(textLayer: string, ocrText: string)
    requires forall k :: 0 <= k < |textLayer| ==> IsSpace(textLayer[k])
    ensures AnalyzeText(textLayer, ocrText) == Report(ExtractMetrics(ocrText))
  {
  }

  /** The request ends in the failure branch exactly when none of the four
      patterns matches anywhere in the analysed text. */
  lemma NoMetricsIffNoMatch(textLayer: string, ocrText: string)
    ensures AnalyzeText(textLayer, ocrText).NoMetrics?
        <==> forall m :: !RegexMatchesSomewhere(ChooseText(textLayer, ocrText), m)
  {
    EmptyIffNoMatch(ChooseText(textLayer, ocrText));
  }
}
