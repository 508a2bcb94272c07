/**
  The assembly of the Word document that `pdf_to_docx` builds from a PDF:
  page by page, a page with text gives a "[Página n]" header and its
  stripped text; a page without text gives, for each image the OCR step
  finds on it, a "[Página n - OCR]" header and the stripped OCR text.
 */
module Extract {
  import opened Base
  import opened Text

  /**
    One PDF page as the extraction libraries see it: the text the PDF
    reader extracts, and the text OCR reads from each image the page is
    rendered to (consulted only when the page has no text).
   */
  datatype PdfPage = PdfPage(text: string, ocr: seq<string>)

  /** One header paragraph and the paragraph that follows it. */
  type Section = (string, string)

  /** `f"[Página {n}]"`. */
  function Header(n: nat): string
  {
    "[Página " + NatToString(n) + "]"
  }

  /** `f"[Página {n} - OCR]"`. */
  function OcrHeader(n: nat): string
  {
    "[Página " + NatToString(n) + " - OCR]"
  }

  /** A page with text: its header and its stripped text. Otherwise one OCR section per image. */
  function PageSections(n: nat, page: PdfPage): seq<Section>
  {
    if Strip(page.text) != "" then [(Header(n), Strip(page.text))]
    else OcrSections(n, page.ocr)
  }

  /** The OCR sections of page `n`, one per image, in image order. */
  function OcrSections(n: nat, images: seq<string>): (r: seq<Section>)
    ensures |r| == |images|
  {
    if images == [] then []
    else OcrSections(n, images[..|images| - 1]) + [(OcrHeader(n), Strip(images[|images| - 1]))]
  }

  /** Section `j` of an OCR page is the OCR header followed by image `j`'s stripped text. */
  lemma {:induction false} OcrSectionsSpec(n: nat, images: seq<string>)
    ensures forall j :: 0 <= j < |images| ==> OcrSections(n, images)[j] == (OcrHeader(n), Strip(images[j]))
  {
    if images != [] {
      var init := images[..|images| - 1];
      OcrSectionsSpec(n, init);
      forall j | 0 <= j < |init| ensures OcrSections(n, images)[j] == (OcrHeader(n), Strip(images[j])) {
        assert images[j] == init[j];
      }
    }
  }

  /** The OCR sections of one more image. */
  lemma OcrSectionsSnoc(n: nat, images: seq<string>, j: nat)
    requires j < |images|
    ensures OcrSections(n, images[..j + 1]) == OcrSections(n, images[..j]) + [(OcrHeader(n), Strip(images[j]))]
  {
    assert images[..j + 1][..j] == images[..j];
  }

  /** All sections of the document, page after page, pages numbered from 1. */
  function Sections(pages: seq<PdfPage>): seq<Section>
  {
    if pages == [] then []
    else Sections(pages[..|pages| - 1]) + PageSections(|pages|, pages[|pages| - 1])
  }

  /** The paragraphs of the document: each section's header, then its body. */
  function Paragraphs(sections: seq<Section>): (r: seq<string>)
    ensures |r| == 2 * |sections|
  {
    if sections == [] then []
    else Paragraphs(sections[..|sections| - 1]) + [sections[|sections| - 1].0, sections[|sections| - 1].1]
  }

  /** The paragraphs of the Word document built from `pages`. */
  function DocumentParagraphs(pages: seq<PdfPage>): seq<string>
  {
    Paragraphs(Sections(pages))
  }

  // ---------------------------------------------------------------------------
  // Reading headers back
  // ---------------------------------------------------------------------------

  const Prefix: string := "[Página "
  const OcrMark: string := " - OCR"

  /** The page number of a header paragraph and whether it is an OCR header; `None` for anything else. */
  function ParseHeader(h: string): Option<(nat, bool)>
  {
    if |h| < |Prefix| + 2 || h[..|Prefix|] != Prefix || h[|h| - 1] != ']' then None
    else
      var mid := h[|Prefix|..|h| - 1];
      if EndsWith(mid, OcrMark) then
        var d := mid[..|mid| - |OcrMark|];
        if d != "" && AllDigits(d) then Some((ParseDigits(d), true)) else None
      else if AllDigits(mid) then Some((ParseDigits(mid), false))
      else None
  }

  /** A text header reads back as its page number, not marked as OCR. */
  lemma ParseHeaderOfHeader(n: nat)
    ensures ParseHeader(Header(n)) == Some((n, false))
  {
    var h := Header(n);
    var digits := NatToString(n);
    assert h == Prefix + digits + "]";
    assert h[..|Prefix|] == Prefix;
    assert h[|Prefix|..|h| - 1] == digits;
    assert !EndsWith(digits, OcrMark) by {
      assert IsDigit(digits[|digits| - 1]) && !IsDigit(OcrMark[|OcrMark| - 1]);
      assert |OcrMark| <= |digits| ==> digits[|digits| - |OcrMark|..][|OcrMark| - 1] == digits[|digits| - 1];
    }
    ParseNatToString(n);
  }

  /** An OCR header reads back as its page number, marked as OCR. */
  lemma ParseHeaderOfOcrHeader(n: nat)
    ensures ParseHeader(OcrHeader(n)) == Some((n, true))
  {
    var h := OcrHeader(n);
    var digits := NatToString(n);
    assert h == Prefix + digits + OcrMark + "]";
    assert h[..|Prefix|] == Prefix;
    var mid := h[|Prefix|..|h| - 1];
    assert mid == digits + OcrMark;
    assert mid[|mid| - |OcrMark|..] == OcrMark;
    assert mid[..|mid| - |OcrMark|] == digits;
    ParseNatToString(n);
  }

  /** Different pages have different headers, and no text header is an OCR header. */
  lemma HeadersDistinct(m: nat, n: nat)
    ensures Header(m) == Header(n) ==> m == n
    ensures OcrHeader(m) == OcrHeader(n) ==> m == n
    ensures Header(m) != OcrHeader(n)
  {
    ParseHeaderOfHeader(m);
    ParseHeaderOfHeader(n);
    ParseHeaderOfOcrHeader(m);
    ParseHeaderOfOcrHeader(n);
  }

  // ---------------------------------------------------------------------------
  // Properties of the assembled document
  // ---------------------------------------------------------------------------

  /**
    A page with text gives exactly its header and its stripped text, whatever
    OCR would read; a page without text gives one OCR header and stripped
    OCR text per image.
   */
  lemma PageSectionsSpec(n: nat, page: PdfPage)
    ensures Strip(page.text) != "" ==>
              PageSections(n, page) == [(Header(n), Strip(page.text))]
              && forall images :: PageSections(n, PdfPage(page.text, images)) == PageSections(n, page)
    ensures Strip(page.text) == "" ==>
              |PageSections(n, page)| == |page.ocr|
              && forall j :: 0 <= j < |page.ocr| ==> PageSections(n, page)[j] == (OcrHeader(n), Strip(page.ocr[j]))
  {
    OcrSectionsSpec(n, page.ocr);
  }

  /** The page number a section's header names. */
  function PageOf(s: Section): nat
  {
    match ParseHeader(s.0)
    case Some((n, _)) => n
    case None => 0
  }

  /** Every section of page `n` reads back as page `n`, as OCR exactly when the page has no text. */
  lemma PageSectionsRead(n: nat, page: PdfPage)
    ensures forall s :: s in PageSections(n, page) ==> ParseHeader(s.0) == Some((n, Strip(page.text) == ""))
  {
    ParseHeaderOfHeader(n);
    ParseHeaderOfOcrHeader(n);
    OcrSectionsSpec(n, page.ocr);
  }

  /**
    Section `x` belongs to one of the pages: it names a page between 1 and
    their count, is marked OCR exactly when that page has no text, and
    carries that page's stripped text when it has some.
   */
  predicate SectionOfPages(x: Section, pages: seq<PdfPage>) {
    && ParseHeader(x.0).Some?
    && 1 <= PageOf(x) <= |pages|
    && ParseHeader(x.0).value.1 == (Strip(pages[PageOf(x) - 1].text) == "")
    && (Strip(pages[PageOf(x) - 1].text) != "" ==> x.1 == Strip(pages[PageOf(x) - 1].text))
  }

  /** A section of all pages but the last is one of all the pages. */
  lemma SectionOfMorePages(x: Section, pages: seq<PdfPage>)
    requires pages != [] && SectionOfPages(x, pages[..|pages| - 1])
    ensures SectionOfPages(x, pages)
  {
    assert pages[..|pages| - 1][PageOf(x) - 1] == pages[PageOf(x) - 1];
  }

  /** The sections of the last page belong to the pages. */
  lemma LastPageSectionsBelong(pages: seq<PdfPage>)
    requires pages != []
    ensures forall x :: x in PageSections(|pages|, pages[|pages| - 1]) ==> SectionOfPages(x, pages)
  {
    PageSectionsRead(|pages|, pages[|pages| - 1]);
    PageSectionsSpec(|pages|, pages[|pages| - 1]);
  }

  /** Every section belongs to one of the pages. */
  lemma {:induction false} SectionsBelong(pages: seq<PdfPage>)
    ensures forall i :: 0 <= i < |Sections(pages)| ==> SectionOfPages(Sections(pages)[i], pages)
  {
    if pages != [] {
      var init := pages[..|pages| - 1];
      SectionsBelong(init);
      LastPageSectionsBelong(pages);
      var a := Sections(init);
      var b := PageSections(|pages|, pages[|pages| - 1]);
      var s := Sections(pages);
      assert s == a + b;
      forall i | 0 <= i < |s| ensures SectionOfPages(s[i], pages) {
        if i < |a| {
          assert s[i] == a[i];
          SectionOfMorePages(a[i], pages);
        } else {
          assert s[i] == b[i - |a|];
        }
      }
    }
  }

  /** Sections come in page order. */
  lemma {:induction false} SectionsOrdered(pages: seq<PdfPage>)
    ensures forall i, j :: 0 <= i <= j < |Sections(pages)| ==> PageOf(Sections(pages)[i]) <= PageOf(Sections(pages)[j])
  {
    if pages != [] {
      var init := pages[..|pages| - 1];
      var last := pages[|pages| - 1];
      SectionsOrdered(init);
      SectionsBelong(init);
      PageSectionsRead(|pages|, last);
      var a := Sections(init);
      var b := PageSections(|pages|, last);
      var s := Sections(pages);
      assert s == a + b;
      forall i | 0 <= i < |s|
        ensures i < |a| ==> PageOf(s[i]) < |pages|
        ensures i >= |a| ==> PageOf(s[i]) == |pages|
      {
        if i < |a| {
          assert SectionOfPages(a[i], init);
        } else {
          assert b[i - |a|] in b;
        }
      }
    }
  }

  /** Every page with text appears, as its header followed by its stripped text. */
  lemma {:induction false} TextPagesAppear(pages: seq<PdfPage>, n: nat)
    requires 1 <= n <= |pages| && Strip(pages[n - 1].text) != ""
    ensures (Header(n), Strip(pages[n - 1].text)) in Sections(pages)
  {
    var init := pages[..|pages| - 1];
    if n < |pages| {
      assert init[n - 1] == pages[n - 1];
      TextPagesAppear(init, n);
    }
  }

  /** The paragraphs alternate: header, then the section's body. */
  lemma {:induction false} ParagraphsSpec(sections: seq<Section>)
    ensures forall i :: 0 <= i < |sections| ==>
              Paragraphs(sections)[2 * i] == sections[i].0 && Paragraphs(sections)[2 * i + 1] == sections[i].1
  {
    if sections != [] {
      var init := sections[..|sections| - 1];
      ParagraphsSpec(init);
      forall i | 0 <= i < |sections|
        ensures Paragraphs(sections)[2 * i] == sections[i].0 && Paragraphs(sections)[2 * i + 1] == sections[i].1
      {
        if i < |init| {
          assert sections[i] == init[i];
        }
      }
    }
  }

  // ---------------------------------------------------------------------------
  // pdf_to_docx
  // ---------------------------------------------------------------------------

  /** Adding a section adds its header and its body. */
  lemma ParagraphsSnoc(sections: seq<Section>, x: Section)
    ensures Paragraphs(sections + [x]) == Paragraphs(sections) + [x.0, x.1]
  {
    assert (sections + [x])[..|sections|] == sections;
  }

  /** The page loop of `pdf_to_docx`: adds paragraphs to the new document page by page. */
  method AssemblePdf(pages: seq<PdfPage>) returns (paragraphs: seq<string>)
    ensures paragraphs == DocumentParagraphs(pages)
  {
    paragraphs := [];
    var p := 0;
    while p < |pages|
      invariant 0 <= p <= |pages|
      invariant paragraphs == Paragraphs(Sections(pages[..p]))
    {
      ghost var done := Sections(pages[..p]);
      assert pages[..p + 1][..p] == pages[..p];
      assert Sections(pages[..p + 1]) == done + PageSections(p + 1, pages[p]);
      var text := Strip(pages[p].text);
      if text != "" {
        ParagraphsSnoc(done, (Header(p + 1), text));
        paragraphs := paragraphs + [Header(p + 1), text];
      } else {
        var images := pages[p].ocr;
        paragraphs := AddOcrPage(paragraphs, done, p + 1, images);
        assert images[..|images|] == images;
      }
      p := p + 1;
    }
    assert pages[..p] == pages;
  }

  /** The image loop of a page without text: an OCR header and the stripped OCR text per image. */
  method AddOcrPage(before: seq<string>, ghost done: seq<Section>, n: nat, images: seq<string>) returns (paragraphs: seq<string>)
    requires before == Paragraphs(done)
    ensures paragraphs == Paragraphs(done + OcrSections(n, images))
  {
    paragraphs := before;
    var j := 0;
    assert done + OcrSections(n, images[..0]) == done;
    while j < |images|
      invariant 0 <= j <= |images|
      invariant paragraphs == Paragraphs(done + OcrSections(n, images[..j]))
    {
      var x := (OcrHeader(n), Strip(images[j]));
      OcrSectionsSnoc(n, images, j);
      assert done + OcrSections(n, images[..j + 1]) == (done + OcrSections(n, images[..j])) + [x];
      ParagraphsSnoc(done + OcrSections(n, images[..j]), x);
      paragraphs := paragraphs + [OcrHeader(n), Strip(images[j])];
      j := j + 1;
    }
    assert images[..j] == images;
  }
}
