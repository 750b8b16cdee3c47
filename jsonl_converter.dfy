/**
 * The JSONL exporter: each element becomes one training record (its text, a
 * type tag and metadata about its origin), each record is serialised to one
 * line, and the lines are joined by newlines. The record's timestamp and the
 * JSON serialiser itself are outside the model: the serialiser is a parameter.
 */
module JsonlConverter {
  import opened Options
  import opened Strings
  import opened Elements

  /** `RecordMetadata`, without the clock-dependent timestamp. */
  datatype RecordMetadata = RecordMetadata(
    sourceFile: string,
    documentType: string,
    contentLength: nat,
    language: Option<string>)

  datatype TrainingRecord = TrainingRecord(text: string, elementType: string, metadata: RecordMetadata)

  /** Every record says it comes from an HTML document, whatever the input was. */
  const HtmlDocumentType: string := "html"

  const ListItemSeparator: string := " | "
  const CellSeparator: string := ", "
  const LinkArrow: string := " -> "
  const TablePartEnd: string := " | "

  //-------------------------------------------------------------------------
  // Record construction
  //-------------------------------------------------------------------------

  /** The table's record text after the header part: one `Row: ... | ` part per row, in order. */
  function RowsText(rows: seq<seq<string>>): string {
    if rows == [] then ""
    else RowsText(rows[..|rows| - 1]) + "Row: " + Join(rows[|rows| - 1], CellSeparator) + TablePartEnd
  }

  /** The table's record text: the header part, then the row parts. */
  function TableText(headers: seq<string>, rows: seq<seq<string>>): string {
    "Headers: " + Join(headers, CellSeparator) + TablePartEnd + RowsText(rows)
  }

  /** The `push_str` loop that builds a table's record text. */
  method BuildTableText(headers: seq<string>, rows: seq<seq<string>>) returns (text: string)
    ensures text == TableText(headers, rows)
  {
    text := "Headers: " + Join(headers, CellSeparator) + TablePartEnd;
    for i := 0 to |rows|
      invariant text == "Headers: " + Join(headers, CellSeparator) + TablePartEnd + RowsText(rows[..i])
    {
      assert rows[..i + 1][..i] == rows[..i];
      text := text + ("Row: " + Join(rows[i], CellSeparator) + TablePartEnd);
    }
    assert rows[..|rows|] == rows;
  }

  /** The record's `element_type` tag. */
  function ElementType(e: Element): string {
    match e
    case Title(_) => "title"
    case Description(_) => "description"
    case Keywords(_) => "keywords"
    case Author(_) => "author"
    case Language(_) => "language"
    case Heading(level, _) => "heading_" + NatToString(level)
    case Paragraph(_) => "paragraph"
    case Blockquote(_) => "blockquote"
    case List(_, ordered) => if ordered then "ordered_list" else "unordered_list"
    case Table(_, _) => "table"
    case Code(_, _, inline) => if inline then "inline_code" else "code_block"
    case Link(_, _) => "link"
    case ImageDescription(_) => "image_description"
  }

  /** The record's `text`. */
  function RecordText(e: Element): string {
    match e
    case List(items, _) => Join(items, ListItemSeparator)
    case Table(headers, rows) => TableText(headers, rows)
    case Code(code, _, _) => code
    case Link(text, url) => text + LinkArrow + url
    case Heading(_, text) => text
    case Title(text) => text
    case Description(text) => text
    case Keywords(text) => text
    case Author(text) => text
    case Language(text) => text
    case Paragraph(text) => text
    case Blockquote(text) => text
    case ImageDescription(text) => text
  }

  /** The record's `metadata.language`. */
  function RecordLanguage(e: Element): Option<string> {
    match e
    case Language(text) => Some(text)
    case Code(_, language, _) => language
    case _ => None
  }

  /**
   * The record for one element. In every case the content length is the byte
   * length of the record's own text, the document type is "html" and the
   * source file is the one given.
   */
  function ToRecord(e: Element, sourceFile: string): (r: TrainingRecord)
    ensures r.metadata.contentLength == Utf8Len(r.text)
    ensures r.metadata.documentType == HtmlDocumentType
    ensures r.metadata.sourceFile == sourceFile
  {
    var text := RecordText(e);
    TrainingRecord(text, ElementType(e), RecordMetadata(sourceFile, HtmlDocumentType, Utf8Len(text), RecordLanguage(e)))
  }

  //-------------------------------------------------------------------------
  // Export
  //-------------------------------------------------------------------------

  /**
   * The serialised lines of the first elements, in order, or the error of the
   * first element whose record fails to serialise.
   */
  function Lines(elements: seq<Element>, sourceFile: string, serialize: TrainingRecord -> Result<string, string>)
    : Result<seq<string>, string>
  {
    if elements == [] then Success([])
    else
      match Lines(elements[..|elements| - 1], sourceFile, serialize)
      case Failure(err) => Failure(err)
      case Success(lines) =>
        match serialize(ToRecord(elements[|elements| - 1], sourceFile))
        case Failure(err) => Failure(err)
        case Success(line) => Success(lines + [line])
  }

  /** The exporter's result: the lines joined by newlines, or the first serialisation error. */
  function JsonlOutput(elements: seq<Element>, sourceFile: string, serialize: TrainingRecord -> Result<string, string>)
    : Result<string, string>
  {
    match Lines(elements, sourceFile, serialize)
    case Failure(err) => Failure(err)
    case Success(lines) => Success(Join(lines, "\n"))
  }

  /** Once a prefix fails, every longer prefix fails with the same error. */
  lemma {:induction false} FailureSticks(elements: seq<Element>, sourceFile: string,
                                         serialize: TrainingRecord -> Result<string, string>, i: nat, err: string)
    requires i <= |elements|
    requires Lines(elements[..i], sourceFile, serialize) == Failure(err)
    ensures Lines(elements, sourceFile, serialize) == Failure(err)
    decreases |elements| - i
  {
    if i < |elements| {
      assert elements[..i + 1][..i] == elements[..i];
      FailureSticks(elements, sourceFile, serialize, i + 1, err);
    } else {
      assert elements[..i] == elements;
    }
  }

  /**
   * `export_to_jsonl`: one serialised record pushed per element, in order; the
   * first serialisation error is returned at once.
   */
  method ExportToJsonl(elements: seq<Element>, sourceFile: string, serialize: TrainingRecord -> Result<string, string>)
    returns (result: Result<string, string>)
    ensures result == JsonlOutput(elements, sourceFile, serialize)
  {
    var lines: seq<string> := [];
    for i := 0 to |elements|
      invariant Lines(elements[..i], sourceFile, serialize) == Success(lines)
    {
      assert elements[..i + 1][..i] == elements[..i];
      var record := ToRecord(elements[i], sourceFile);
      var line := serialize(record);
      if line.Failure? {
        FailureSticks(elements, sourceFile, serialize, i + 1, line.error);
        return Failure(line.error);
      }
      lines := lines + [line.value];
    }
    assert elements[..|elements|] == elements;
    return Success(Join(lines, "\n"));
  }

  //-------------------------------------------------------------------------
  // Properties
  //-------------------------------------------------------------------------

  /** The table text starts with the header part and always ends with " | ", rows or not. */
  lemma TableTextShape(headers: seq<string>, rows: seq<seq<string>>)
    ensures StartsWith(TableText(headers, rows), "Headers: ")
    ensures EndsWith(TableText(headers, rows), TablePartEnd)
  {
    var text := TableText(headers, rows);
    var head := "Headers: " + Join(headers, CellSeparator);
    if rows == [] {
      assert text == head + TablePartEnd;
    } else {
      var init := RowsText(rows[..|rows| - 1]) + "Row: " + Join(rows[|rows| - 1], CellSeparator);
      assert text == head + TablePartEnd + init + TablePartEnd;
    }
    assert text[..9] == "Headers: ";
  }

  /**
   * What each record carries: list items joined by " | ", links as
   * "text -> url", code verbatim, the language only on language and code
   * elements, and every other variant's own text.
   */
  lemma RecordContents(e: Element, sourceFile: string)
    ensures var r := ToRecord(e, sourceFile);
      && (e.List? ==> r.text == Join(e.items, ListItemSeparator))
      && (e.Link? ==> r.text == e.text + LinkArrow + e.url)
      && (e.Code? ==> r.text == e.code && r.metadata.language == e.language)
      && (e.Table? ==> r.text == TableText(e.headers, e.rows))
      && (e.Language? ==> r.metadata.language == Some(e.text))
      && (!e.Language? && !e.Code? ==> r.metadata.language == None)
      && (!e.List? && !e.Link? && !e.Code? && !e.Table? ==> r.text == e.text)
  {
  }

  /** Two elements share a type tag exactly when they are the same kind (same level, same list order, same code placement). */
  predicate SameKind(a: Element, b: Element) {
    match a
    case Title(_) => b.Title?
    case Description(_) => b.Description?
    case Keywords(_) => b.Keywords?
    case Author(_) => b.Author?
    case Language(_) => b.Language?
    case Heading(level, _) => b.Heading? && b.level == level
    case Paragraph(_) => b.Paragraph?
    case Blockquote(_) => b.Blockquote?
    case List(_, ordered) => b.List? && b.ordered == ordered
    case Table(_, _) => b.Table?
    case Code(_, _, inline) => b.Code? && b.inline == inline
    case Link(_, _) => b.Link?
    case ImageDescription(_) => b.ImageDescription?
  }

  /** The type tag of a heading starts with "heading_", which no other tag does. */
  lemma HeadingTag(e: Element)
    ensures StartsWith(ElementType(e), "heading_") <==> e.Heading?
  {
    var tag := ElementType(e);
    if e.Heading? {
      assert tag[..8] == "heading_";
    } else if |tag| >= 8 {
      assert tag[0] != 'h';
      assert tag[..8][0] != "heading_"[0];
    }
  }

  lemma {:induction false} ElementTypeUnambiguous(a: Element, b: Element)
    ensures ElementType(a) == ElementType(b) <==> SameKind(a, b)
  {
    HeadingTag(a);
    HeadingTag(b);
    if a.Heading? && b.Heading? && ElementType(a) == ElementType(b) {
      var da, db := NatToString(a.level), NatToString(b.level);
      assert ElementType(a)[8..] == da && ElementType(b)[8..] == db;
      NatToStringInjective(a.level, b.level);
    }
  }

  /** When every record serialises, there is one line per element, in element order. */
  lemma {:induction false} OneLinePerElement(elements: seq<Element>, sourceFile: string,
                                             serialize: TrainingRecord -> Result<string, string>)
    requires forall k :: 0 <= k < |elements| ==> serialize(ToRecord(elements[k], sourceFile)).Success?
    ensures Lines(elements, sourceFile, serialize).Success?
    ensures var lines := Lines(elements, sourceFile, serialize).value;
      && |lines| == |elements|
      && forall k :: 0 <= k < |elements| ==> lines[k] == serialize(ToRecord(elements[k], sourceFile)).value
    decreases |elements|
  {
    if elements != [] {
      var init := elements[..|elements| - 1];
      assert forall k :: 0 <= k < |init| ==> init[k] == elements[k];
      OneLinePerElement(init, sourceFile, serialize);
    }
  }

  /**
   * When every record serialises to a line without a newline, the output read
   * back line by line gives exactly the records' lines, in element order; no
   * elements give the empty output.
   */
  lemma JsonlLinesRecoverable(elements: seq<Element>, sourceFile: string,
                              serialize: TrainingRecord -> Result<string, string>)
    requires forall k :: 0 <= k < |elements| ==>
      var line := serialize(ToRecord(elements[k], sourceFile));
      line.Success? && '\n' !in line.value
    ensures JsonlOutput(elements, sourceFile, serialize).Success?
    ensures elements == [] ==> JsonlOutput(elements, sourceFile, serialize).value == ""
    ensures elements != [] ==>
      var output := JsonlOutput(elements, sourceFile, serialize).value;
      && |Split(output, "\n")| == |elements|
      && forall k :: 0 <= k < |elements| ==> Split(output, "\n")[k] == serialize(ToRecord(elements[k], sourceFile)).value
  {
    OneLinePerElement(elements, sourceFile, serialize);
    var lines := Lines(elements, sourceFile, serialize).value;
    if elements != [] {
      SplitJoin(lines, '\n');
    }
  }
}
