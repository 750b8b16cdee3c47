/**
 * The PDF front end: the text that the PDF text extractor returns is cut into
 * paragraphs at blank lines, each piece trimmed, and only pieces longer than
 * twenty bytes are kept, after a title taken from the file's stem. The
 * extractor itself and the file-system lookups are inputs to the model.
 */
module PdfParser {
  import opened Options
  import opened Strings
  import opened Elements

  /** The paragraph separator the text is split on. */
  const ParagraphSeparator: string := "\n\n"

  /** A kept paragraph is longer than this many bytes. */
  const MinParagraphBytes: nat := 20

  /** The filter on a trimmed segment: non-empty and longer than twenty bytes of UTF-8. */
  predicate KeepsSegment(t: string) {
    t != "" && Utf8Len(t) > MinParagraphBytes
  }

  /** `.map(|p| p.trim()).filter(...)` over the segments, in segment order. */
  function Retained(segments: seq<string>): (paragraphs: seq<string>)
    ensures |paragraphs| <= |segments|
    ensures forall k :: 0 <= k < |paragraphs| ==> IsTrimmed(paragraphs[k]) && KeepsSegment(paragraphs[k])
    ensures forall t :: t in paragraphs <==> exists k :: 0 <= k < |segments| && t == Trim(segments[k]) && KeepsSegment(t)
  {
    if segments == [] then []
    else
      var rest := Retained(segments[..|segments| - 1]);
      var last := Trim(segments[|segments| - 1]);
      var paragraphs := rest + (if KeepsSegment(last) then [last] else []);
      assert forall k :: 0 <= k < |segments| - 1 ==> segments[..|segments| - 1][k] == segments[k];
      paragraphs
  }

  /** The paragraphs of the extracted text. */
  function PdfParagraphs(text: string): seq<string> {
    Retained(Split(text, ParagraphSeparator))
  }

  /** One paragraph element per kept paragraph, in order. */
  function ParagraphElements(paragraphs: seq<string>): seq<Element> {
    if paragraphs == [] then []
    else ParagraphElements(paragraphs[..|paragraphs| - 1]) + [Paragraph(paragraphs[|paragraphs| - 1])]
  }

  lemma {:induction false} ParagraphElementsAt(paragraphs: seq<string>)
    ensures |ParagraphElements(paragraphs)| == |paragraphs|
    ensures forall k :: 0 <= k < |paragraphs| ==> ParagraphElements(paragraphs)[k] == Paragraph(paragraphs[k])
  {
    if paragraphs != [] {
      var init := paragraphs[..|paragraphs| - 1];
      ParagraphElementsAt(init);
      assert forall k :: 0 <= k < |init| ==> init[k] == paragraphs[k];
    }
  }

  /** The title the metadata step derives from the file stem, when there is one. */
  function StemTitle(stem: Option<string>): (title: seq<Element>)
    ensures |title| <= 1
    ensures title != [] <==> stem.Some?
    ensures forall t :: title == [Title(t)] <==> stem == Some(t)
  {
    match stem
    case Some(t) => [Title(t)]
    case None => []
  }

  /** The elements of a PDF whose file exists and whose text was extracted. */
  function PdfElements(stem: Option<string>, text: string): seq<Element> {
    StemTitle(stem) + ParagraphElements(PdfParagraphs(text))
  }

  /**
   * `extract_pdf_metadata`, with `path.file_stem()` and its UTF-8 conversion
   * given as `stem` (`None` when either step fails).
   */
  method ExtractPdfMetadata(stem: Option<string>) returns (metadata: seq<Element>)
    ensures metadata == StemTitle(stem)
  {
    metadata := [];
    if stem.Some? {
      metadata := metadata + [Title(stem.value)];
    }
  }

  /**
   * `parse_pdf_file`: a missing file gives no elements and no error; a failure
   * of the text extractor is passed on; otherwise the title, then one paragraph
   * per kept segment, pushed one at a time.
   */
  method ParsePdfFile(fileExists: bool, stem: Option<string>, extracted: Result<string, string>)
    returns (result: Result<seq<Element>, string>)
    ensures !fileExists ==> result == Success([])
    ensures fileExists && extracted.Failure? ==> result == Failure(extracted.error)
    ensures fileExists && extracted.Success? ==> result == Success(PdfElements(stem, extracted.value))
  {
    if !fileExists {
      return Success([]);
    }
    var elements := ExtractPdfMetadata(stem);
    if extracted.Failure? {
      return Failure(extracted.error);
    }
    var paragraphs := PdfParagraphs(extracted.value);
    elements := PushParagraphs(elements, paragraphs);
    return Success(elements);
  }

  /** The push loop: one paragraph element per paragraph, appended in order. */
  method PushParagraphs(elements: seq<Element>, paragraphs: seq<string>) returns (extended: seq<Element>)
    ensures extended == elements + ParagraphElements(paragraphs)
  {
    extended := elements;
    for i := 0 to |paragraphs|
      invariant extended == elements + ParagraphElements(paragraphs[..i])
    {
      assert paragraphs[..i + 1][..i] == paragraphs[..i];
      extended := extended + [Paragraph(paragraphs[i])];
    }
    assert paragraphs[..|paragraphs|] == paragraphs;
  }

  //-------------------------------------------------------------------------
  // Properties
  //-------------------------------------------------------------------------

  /** Filtering works segment by segment: the paragraphs of a concatenation are the concatenated paragraphs. */
  lemma {:induction false} RetainedAppend(a: seq<string>, b: seq<string>)
    ensures Retained(a + b) == Retained(a) + Retained(b)
    decreases |b|
  {
    if b != [] {
      var b' := b[..|b| - 1];
      assert (a + b)[..|a + b| - 1] == a + b';
      assert (a + b)[|a + b| - 1] == b[|b| - 1];
      RetainedAppend(a, b');
    } else {
      assert a + b == a;
    }
  }

  /** A single segment contributes its trimmed text exactly when that passes the filter. */
  lemma RetainedSingle(segment: string)
    ensures Retained([segment]) == if KeepsSegment(Trim(segment)) then [Trim(segment)] else []
  {
    assert [segment][..0] == [];
  }

  /**
   * The output of a parsed PDF: the stem title first when there is one and
   * nowhere else, then paragraphs only, each trimmed and longer than twenty
   * bytes.
   */
  lemma PdfOutputShape(stem: Option<string>, text: string)
    ensures var es := PdfElements(stem, text);
      var offset := |StemTitle(stem)|;
      && (stem.Some? ==> es[0] == Title(stem.value))
      && (forall k :: offset <= k < |es| ==> es[k].Paragraph? && IsTrimmed(es[k].text) && KeepsSegment(es[k].text))
      && (forall k :: 0 <= k < |es| && es[k].Title? ==> k == 0 && stem.Some?)
  {
    var ps := PdfParagraphs(text);
    assert forall k :: 0 <= k < |ps| ==> IsTrimmed(ps[k]) && KeepsSegment(ps[k]);
    TitleThenParagraphs(stem, ps);
    assert PdfElements(stem, text) == StemTitle(stem) + ParagraphElements(ps);
  }

  lemma TitleThenParagraphs(stem: Option<string>, ps: seq<string>)
    requires forall k :: 0 <= k < |ps| ==> IsTrimmed(ps[k]) && KeepsSegment(ps[k])
    ensures var es := StemTitle(stem) + ParagraphElements(ps);
      var offset := |StemTitle(stem)|;
      && (stem.Some? ==> es[0] == Title(stem.value))
      && (forall k :: offset <= k < |es| ==> es[k].Paragraph? && IsTrimmed(es[k].text) && KeepsSegment(es[k].text))
      && (forall k :: 0 <= k < |es| && es[k].Title? ==> k == 0 && stem.Some?)
  {
    var es := StemTitle(stem) + ParagraphElements(ps);
    var offset := |StemTitle(stem)|;
    ParagraphElementsAt(ps);
    forall k | offset <= k < |es|
      ensures es[k] == Paragraph(ps[k - offset])
    {
    }
  }

  /**
   * Every paragraph is a trimmed segment of the text, and every segment that
   * passes the filter is a paragraph. The segments are the text cut at each
   * blank-line separator, leftmost first: joined back they give the text, and
   * no separator starts inside a segment.
   */
  lemma PdfParagraphsFromSegments(text: string)
    ensures var segments := Split(text, ParagraphSeparator);
      forall t :: t in PdfParagraphs(text) <==> exists k :: 0 <= k < |segments| && t == Trim(segments[k]) && KeepsSegment(t)
    ensures Join(Split(text, ParagraphSeparator), ParagraphSeparator) == text
    ensures CutAtLeftmost(Split(text, ParagraphSeparator), ParagraphSeparator)
  {
    JoinSplit(text, ParagraphSeparator);
    SplitLeftmost(text, ParagraphSeparator);
  }
}
