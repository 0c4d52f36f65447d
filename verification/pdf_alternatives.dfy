/**
 * The alternative and the OCR-assisted PDF extraction
 * (src/alternative_pdf_processing.py, src/improved_pdf_processing.py):
 * the page-joining loops of the extractors and the rules that choose
 * between their results.
 *
 * The PDF libraries are oracles: a document is `None` when opening it (or
 * importing the library) raises, and otherwise the list of what each page
 * yields. A page whose text extraction raises is `None`; an extraction
 * that yields no text at all is the empty string, which the source treats
 * like a blank page.
 */
module PdfAlternatives {
  import opened Text

  /** A page's text is kept when it is not blank. */
  function KeptPage(page: Option<string>): Option<string> {
    if page.Some? && Strip(page.value) != "" then page else None
  }

  /** Every page's text was read without raising. */
  predicate AllRead(pages: seq<Option<string>>) {
    forall j :: 0 <= j < |pages| ==> pages[j].Some?
  }

  /** What `extract_text_with_pymupdf` and `extract_text_with_pdfplumber`
      return: `None` when the document cannot be opened, when a page
      raises, or when every page is blank; otherwise the non-blank page
      texts joined by a blank line. */
  function JoinedPages(doc: Option<seq<Option<string>>>): Option<string> {
    if doc.None? || !AllRead(doc.value) then None
    else
      var kept := Picked(doc.value, KeptPage);
      if kept == [] then None else Some(JoinWith(kept, "\n\n"))
  }

  /** One iteration of that loop, once the page text has been read. */
  method KeepPage(pageText: string) returns (kept: Option<string>)
    ensures kept == KeptPage(Some(pageText))
  {
    if Strip(pageText) != "" {
      kept := Some(pageText);
    } else {
      kept := None;
    }
  }

  /** The page loop shared by the two extractors: the non-blank page
      texts, or `None` as soon as a page raises. */
  method CollectPages(pages: seq<Option<string>>) returns (kept: Option<seq<string>>)
    ensures kept == if AllRead(pages) then Some(Picked(pages, KeptPage)) else None
  {
    var allText: seq<string> := [];
    for i := 0 to |pages|
      invariant forall j :: 0 <= j < i ==> pages[j].Some?
      invariant allText == Picked(pages[..i], KeptPage)
    {
      if pages[i].None? {
        assert !AllRead(pages);
        return None;
      }
      var page := KeepPage(pages[i].value);
      assert Picked(pages[..i + 1], KeptPage) == allText + (if page.Some? then [page.value] else []) by {
        PickedSnoc(pages, i, KeptPage);
      }
      if page.Some? {
        allText := allText + [page.value];
      }
      assert forall j :: 0 <= j < i + 1 ==> pages[j].Some? by {
        forall j | 0 <= j < i + 1 ensures pages[j].Some? {
          if j == i { assert pages[i].Some?; }
        }
      }
    }
    TakeAll(pages);
    kept := Some(allText);
  }

  /** `extract_text_with_pymupdf` and `extract_text_with_pdfplumber`. */
  method ExtractPages(doc: Option<seq<Option<string>>>) returns (r: Option<string>)
    ensures r == JoinedPages(doc)
  {
    if doc.None? {
      return None;
    }
    var allText := CollectPages(doc.value);
    if allText.None? {
      return None;
    }
    if allText.value != [] {
      r := Some(JoinWith(allText.value, "\n\n"));
    } else {
      r := None;
    }
  }

  /** The joined text consists of the non-blank pages only, all of them,
      in page order: a result exists exactly when every page was read and
      one of them is not blank. */
  lemma JoinedPagesKeep(pages: seq<Option<string>>)
    requires AllRead(pages)
    ensures JoinedPages(Some(pages)).Some? <==> exists j :: 0 <= j < |pages| && Strip(pages[j].value) != ""
    ensures forall k :: 0 <= k < |Picked(pages, KeptPage)| ==> Strip(Picked(pages, KeptPage)[k]) != ""
    ensures forall j :: 0 <= j < |pages| && Strip(pages[j].value) != "" ==> pages[j].value in Picked(pages, KeptPage)
  {
    PickedKept(pages);
    forall j | 0 <= j < |pages| && Strip(pages[j].value) != ""
      ensures pages[j].value in Picked(pages, KeptPage)
    {
      PickedComplete(pages, KeptPage, j);
    }
    var kept := Picked(pages, KeptPage);
    assert JoinedPages(Some(pages)).Some? <==> kept != [];
    if kept != [] {
      var j :| 0 <= j < |pages| && KeptPage(pages[j]).Some?;
      assert pages[j].Some? && Strip(pages[j].value) != "";
    }
  }

  lemma {:induction false} PickedKept(pages: seq<Option<string>>)
    ensures forall k :: 0 <= k < |Picked(pages, KeptPage)| ==> Strip(Picked(pages, KeptPage)[k]) != ""
    ensures Picked(pages, KeptPage) != [] ==> exists j :: 0 <= j < |pages| && KeptPage(pages[j]).Some?
  {
    if |pages| > 0 {
      var n := |pages| - 1;
      PickedKept(pages[..n]);
      PickedSnoc(pages, n, KeptPage);
      assert pages[..n + 1] == pages;
      assert forall j :: 0 <= j < n ==> pages[..n][j] == pages[j];
      if KeptPage(pages[n]).None? && Picked(pages, KeptPage) != [] {
        var j :| 0 <= j < n && KeptPage(pages[..n][j]).Some?;
        assert KeptPage(pages[j]).Some?;
      }
    }
  }

  // ---------------------------------------------------------------------
  // alternative_pdf_processing

  /** `len(x) if x else 0`. */
  function Len(t: Option<string>): nat {
    if t.Some? then |t.value| else 0
  }

  /** `max(texts, key=...)` as an index: the first candidate of maximal length. */
  function Best(texts: seq<Option<string>>): (i: nat)
    requires |texts| > 0
    ensures i < |texts|
    ensures forall j :: 0 <= j < |texts| ==> Len(texts[j]) <= Len(texts[i])
    ensures forall j :: 0 <= j < i ==> Len(texts[j]) < Len(texts[i])
  {
    if |texts| == 1 then 0
    else
      var n := |texts| - 1;
      var b := Best(texts[..n]);
      assert forall j :: 0 <= j < n ==> texts[..n][j] == texts[j];
      if Len(texts[n]) > Len(texts[b]) then n else b
  }

  /** The choice `alternative_pdf_processing` makes among the text of
      `load_file` and the two extractors' results. */
  function ChooseBest(text1: string, text2: Option<string>, text3: Option<string>): (r: Option<string>)
    ensures r.Some? ==> |r.value| > 100
    ensures r.Some? ==> forall t :: t in [Some(text1), text2, text3] ==> Len(t) <= |r.value|
    ensures r.Some? ==> exists i :: 0 <= i < 3 && r == [Some(text1), text2, text3][i] &&
                          (forall j :: 0 <= j < i ==> Len([Some(text1), text2, text3][j]) < |r.value|)
    ensures r.None? <==> forall t :: t in [Some(text1), text2, text3] ==> Len(t) <= 100
  {
    var texts := [Some(text1), text2, text3];
    var best := texts[Best(texts)];
    if best.Some? && best.value != "" && |best.value| > 100 then best else None
  }

  /** `alternative_pdf_processing`: the three extractions, then the choice. */
  method AlternativePdfProcessing(text1: string, mupdfDoc: Option<seq<Option<string>>>,
                                  plumberDoc: Option<seq<Option<string>>>) returns (r: Option<string>)
    ensures r == ChooseBest(text1, JoinedPages(mupdfDoc), JoinedPages(plumberDoc))
  {
    var text2 := ExtractPages(mupdfDoc);
    var text3 := ExtractPages(plumberDoc);
    r := ChooseBest(text1, text2, text3);
  }

  // ---------------------------------------------------------------------
  // extract_text_with_ocr and improved_pdf_processing

  /** One page for the OCR extractor: its native text (`None` when
      `get_text` raises) and the OCR result (`None` when rendering or OCR
      raises, which is caught per page). */
  datatype OcrPage = OcrPage(native: Option<string>, ocr: Option<string>)

  const MaxOcrPages: nat := 5

  /** A page contributes its native text when that is not blank, else its
      OCR text when that is not blank, else nothing. */
  function Contribution(page: OcrPage): Option<string> {
    if page.native.Some? && Strip(page.native.value) != "" then page.native
    else if page.ocr.Some? && Strip(page.ocr.value) != "" then page.ocr
    else None
  }

  predicate NativeRead(pages: seq<OcrPage>) {
    forall j :: 0 <= j < |pages| ==> pages[j].native.Some?
  }

  function Min(a: nat, b: nat): nat {
    if a <= b then a else b
  }

  /** What `extract_text_with_ocr` returns: `None` when the libraries or
      the document are missing, when a native text extraction raises, or
      when no page contributes; otherwise the contributions of the first
      five pages joined by a blank line. */
  function OcrText(doc: Option<seq<OcrPage>>): Option<string> {
    if doc.None? then None
    else
      var pages := doc.value[..Min(MaxOcrPages, |doc.value|)];
      if !NativeRead(pages) then None
      else
        var parts := Picked(pages, Contribution);
        if parts == [] then None else Some(JoinWith(parts, "\n\n"))
  }

  /** Pages after the fifth make no difference. */
  lemma OcrFirstPages(pages: seq<OcrPage>)
    ensures OcrText(Some(pages)) == OcrText(Some(pages[..Min(MaxOcrPages, |pages|)]))
  {
    var p := pages[..Min(MaxOcrPages, |pages|)];
    assert p[..Min(MaxOcrPages, |p|)] == p;
  }

  /** One iteration of that loop, once the native text has been read. */
  method PageContribution(page: OcrPage) returns (part: Option<string>)
    requires page.native.Some?
    ensures part == Contribution(page)
  {
    var pageText := page.native.value;
    if Strip(pageText) != "" {
      part := Some(pageText);
    } else if page.ocr.Some? {
      var ocrText := page.ocr.value;
      if Strip(ocrText) != "" {
        part := Some(ocrText);
      } else {
        part := None;
      }
    } else {
      part := None;
    }
  }

  /** The page loop of `extract_text_with_ocr`: the contributions of the
      pages, or `None` as soon as a native text extraction raises. */
  method CollectContributions(pages: seq<OcrPage>) returns (parts: Option<seq<string>>)
    ensures parts == if NativeRead(pages) then Some(Picked(pages, Contribution)) else None
  {
    var allText: seq<string> := [];
    for i := 0 to |pages|
      invariant forall j :: 0 <= j < i ==> pages[j].native.Some?
      invariant allText == Picked(pages[..i], Contribution)
    {
      PickedSnoc(pages, i, Contribution);
      var page := pages[i];
      if page.native.None? {
        assert !NativeRead(pages);
        return None;
      }
      var part := PageContribution(page);
      if part.Some? {
        allText := allText + [part.value];
      }
      assert allText == Picked(pages[..i + 1], Contribution);
      assert forall j :: 0 <= j < i + 1 ==> pages[j].native.Some? by {
        forall j | 0 <= j < i + 1 ensures pages[j].native.Some? {
          if j == i { assert pages[j] == page; }
        }
      }
    }
    TakeAll(pages);
    parts := Some(allText);
  }

  /** `extract_text_with_ocr`: at most the first five pages, joined by a
      blank line. */
  method ExtractTextWithOcr(doc: Option<seq<OcrPage>>) returns (r: Option<string>)
    ensures r == OcrText(doc)
  {
    if doc.None? {
      return None;
    }
    var maxPages := Min(MaxOcrPages, |doc.value|);
    var parts := CollectContributions(doc.value[..maxPages]);
    if parts.None? {
      return None;
    }
    if parts.value != [] {
      r := Some(JoinWith(parts.value, "\n\n"));
    } else {
      r := None;
    }
  }

  /** The choice `improved_pdf_processing` makes between the text of
      `load_file` and the OCR text: base text over 1000 characters is kept
      whatever OCR gives; otherwise OCR wins only when strictly longer; the
      result is never shorter than the base text and is `None` only when
      both are empty. */
  function Fallback(text: string, ocr: Option<string>): (r: Option<string>)
    ensures |text| > 1000 ==> r == Some(text)
    ensures r.Some? && r != Some(text) ==> |text| <= 1000 && r == ocr && Len(ocr) > |text|
    ensures |text| <= 1000 && Len(ocr) > |text| ==> r == ocr
    ensures r.Some? ==> |r.value| >= |text|
    ensures r.None? <==> text == "" && Len(ocr) == 0
  {
    if text != "" && |text| > 1000 then Some(text)
    else if ocr.Some? && ocr.value != "" && |ocr.value| > |text| then ocr
    else if text != "" then Some(text)
    else None
  }

  /** `improved_pdf_processing`: OCR is only attempted when the base text
      has at most 1000 characters. */
  method ImprovedPdfProcessing(text: string, doc: Option<seq<OcrPage>>) returns (r: Option<string>)
    ensures r == Fallback(text, OcrText(doc))
  {
    if text != "" && |text| > 1000 {
      return Some(text);
    }
    var ocrText := ExtractTextWithOcr(doc);
    if ocrText.Some? && ocrText.value != "" && |ocrText.value| > |text| {
      r := ocrText;
    } else if text != "" {
      r := Some(text);
    } else {
      r := None;
    }
  }
}
