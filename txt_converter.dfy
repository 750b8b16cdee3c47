/**
 * The plain-text exporter: a Markdown-flavoured rendering with a header line,
 * then each element's rendering followed by an empty line, all lines joined
 * by newlines.
 */
module TxtConverter {
  import opened Options
  import opened Strings
  import opened Elements

  function HeaderLine(sourceFile: string): string {
    "# Document: " + sourceFile
  }

  //-------------------------------------------------------------------------
  // Rendering one element
  //-------------------------------------------------------------------------

  /** The line of list item `k` (0-based): numbered from 1 when ordered, bulleted otherwise. */
  function ListLine(item: string, k: nat, ordered: bool): string {
    if ordered then NatToString(k + 1) + ". " + item else "- " + item
  }

  /** `items.iter().enumerate().map(...)`: one line per item, in order. */
  function ListLines(items: seq<string>, ordered: bool): (lines: seq<string>)
    ensures |lines| == |items|
    ensures forall k :: 0 <= k < |items| ==> lines[k] == ListLine(items[k], k, ordered)
  {
    seq(|items|, k requires 0 <= k < |items| => ListLine(items[k], k, ordered))
  }

  /** `| c1 | c2 |`. */
  function TableRowLine(cells: seq<string>): string {
    "| " + Join(cells, " | ") + " |"
  }

  /**
   * `|`, one `---|` per header, then a closing `|`: the closing bar follows the
   * last column's own bar, so the line ends in `||`.
   */
  function TableSeparatorLine(columns: nat): string {
    "|" + Repeat("---|", columns) + "|"
  }

  /** One row line per row, in order. */
  function RowLines(rows: seq<seq<string>>): seq<string> {
    if rows == [] then []
    else RowLines(rows[..|rows| - 1]) + [TableRowLine(rows[|rows| - 1])]
  }

  /** The lines of a rendered table: the header row, the separator, then the rows. */
  function TableLines(headers: seq<string>, rows: seq<seq<string>>): seq<string> {
    [TableRowLine(headers), TableSeparatorLine(|headers|)] + RowLines(rows)
  }

  /** The loop that pushes the table's lines. */
  method BuildTableLines(headers: seq<string>, rows: seq<seq<string>>) returns (lines: seq<string>)
    ensures lines == TableLines(headers, rows)
  {
    lines := [];
    lines := lines + [TableRowLine(headers)];
    lines := lines + [TableSeparatorLine(|headers|)];
    for i := 0 to |rows|
      invariant lines == [TableRowLine(headers), TableSeparatorLine(|headers|)] + RowLines(rows[..i])
    {
      assert rows[..i + 1][..i] == rows[..i];
      lines := lines + [TableRowLine(rows[i])];
    }
    assert rows[..|rows|] == rows;
  }

  /** How `export_to_txt` renders one element. */
  function RenderElement(e: Element): string {
    match e
    case Title(text) => "TITLE: " + text
    case Description(text) => "DESCRIPTION: " + text
    case Heading(level, text) => Repeat("#", level) + " " + text
    case Paragraph(text) => text
    case Blockquote(text) => "> " + text
    case List(items, ordered) => Join(ListLines(items, ordered), "\n")
    case Code(code, language, inline) =>
      if inline then "`" + code + "`"
      else
        var lang := match language case Some(l) => l case None => "";
        "```" + lang + "\n" + code + "\n```"
    case Link(text, url) => "[" + text + "](" + url + ")"
    case ImageDescription(text) => "[IMAGE: " + text + "]"
    case Table(headers, rows) => Join(TableLines(headers, rows), "\n")
    case Keywords(text) => "KEYWORDS: " + text
    case Author(text) => "AUTHOR: " + text
    case Language(text) => "LANGUAGE: " + text
  }

  /** The `match` arm for one element, with the table arm's push loop. */
  method FormatElement(e: Element) returns (line: string)
    ensures line == RenderElement(e)
  {
    if e.Table? {
      var lines := BuildTableLines(e.headers, e.rows);
      line := Join(lines, "\n");
    } else {
      line := RenderElement(e);
    }
  }

  //-------------------------------------------------------------------------
  // The whole document
  //-------------------------------------------------------------------------

  /** Each element's rendering followed by an empty line, in element order. */
  function BodyLines(elements: seq<Element>): seq<string> {
    if elements == [] then []
    else BodyLines(elements[..|elements| - 1]) + [RenderElement(elements[|elements| - 1]), ""]
  }

  /** The lines `export_to_txt` collects: the header, an empty line, then the body. */
  function TxtLines(elements: seq<Element>, sourceFile: string): seq<string> {
    [HeaderLine(sourceFile), ""] + BodyLines(elements)
  }

  /** `export_to_txt`: it never fails, and its text is the collected lines joined by newlines. */
  method ExportToTxt(elements: seq<Element>, sourceFile: string) returns (result: Result<string, string>)
    ensures result == Success(Join(TxtLines(elements, sourceFile), "\n"))
  {
    var lines: seq<string> := [];
    lines := lines + [HeaderLine(sourceFile)];
    lines := lines + [""];
    for i := 0 to |elements|
      invariant lines == [HeaderLine(sourceFile), ""] + BodyLines(elements[..i])
    {
      assert elements[..i + 1][..i] == elements[..i];
      var line := FormatElement(elements[i]);
      lines := lines + [line];
      lines := lines + [""];
    }
    assert elements[..|elements|] == elements;
    return Success(Join(lines, "\n"));
  }

  //-------------------------------------------------------------------------
  // Properties
  //-------------------------------------------------------------------------

  /** The body has two lines per element: the rendering, then an empty line. */
  lemma {:induction false} BodyLayout(elements: seq<Element>)
    ensures |BodyLines(elements)| == 2 * |elements|
    ensures forall k :: 0 <= k < |elements| ==>
      BodyLines(elements)[2 * k] == RenderElement(elements[k]) && BodyLines(elements)[2 * k + 1] == ""
    decreases |elements|
  {
    if elements != [] {
      var init := elements[..|elements| - 1];
      BodyLayout(init);
      var lines := BodyLines(elements);
      assert lines == BodyLines(init) + [RenderElement(elements[|init|]), ""];
      forall k | 0 <= k < |elements|
        ensures lines[2 * k] == RenderElement(elements[k]) && lines[2 * k + 1] == ""
      {
        if k < |init| {
          assert init[k] == elements[k];
          assert lines[2 * k] == BodyLines(init)[2 * k] && lines[2 * k + 1] == BodyLines(init)[2 * k + 1];
        }
      }
    }
  }

  /**
   * The collected lines: the header naming the source file, an empty line, and
   * for each element, in order, its rendering followed by an empty line.
   */
  lemma TxtLayout(elements: seq<Element>, sourceFile: string)
    ensures var lines := TxtLines(elements, sourceFile);
      && |lines| == 2 + 2 * |elements|
      && lines[0] == "# Document: " + sourceFile
      && lines[1] == ""
      && forall k :: 0 <= k < |elements| ==> lines[2 + 2 * k] == RenderElement(elements[k]) && lines[3 + 2 * k] == ""
  {
    BodyLayout(elements);
  }

  /** A heading is as many `#` as its level, a space, then its text. */
  lemma HeadingRendering(level: U8, text: string)
    ensures var r := RenderElement(Heading(level, text));
      && |r| == level + 1 + |text|
      && (forall k :: 0 <= k < level ==> r[k] == '#')
      && r[level] == ' '
      && r[level + 1..] == text
  {
    RepeatChar('#', level);
  }

  /** The fixed prefixes of the metadata, blockquote, link and image renderings. */
  lemma PrefixedRendering(e: Element)
    ensures e.Title? ==> RenderElement(e) == "TITLE: " + e.text
    ensures e.Description? ==> RenderElement(e) == "DESCRIPTION: " + e.text
    ensures e.Keywords? ==> RenderElement(e) == "KEYWORDS: " + e.text
    ensures e.Author? ==> RenderElement(e) == "AUTHOR: " + e.text
    ensures e.Language? ==> RenderElement(e) == "LANGUAGE: " + e.text
    ensures e.Paragraph? ==> RenderElement(e) == e.text
    ensures e.Blockquote? ==> RenderElement(e) == "> " + e.text
    ensures e.Link? ==> RenderElement(e) == "[" + e.text + "](" + e.url + ")"
    ensures e.ImageDescription? ==> RenderElement(e) == "[IMAGE: " + e.text + "]"
  {
  }

  /** Inline code is wrapped in backticks; a block is fenced, with the language (or nothing) after the opening fence. */
  lemma CodeRendering(code: string, language: Option<string>, inline: bool)
    ensures inline ==> RenderElement(Code(code, language, inline)) == "`" + code + "`"
    ensures !inline && language.None? ==> RenderElement(Code(code, language, inline)) == "```\n" + code + "\n```"
    ensures !inline && language.Some? ==>
      RenderElement(Code(code, language, inline)) == "```" + language.value + "\n" + code + "\n```"
  {
  }

  /** A digit string contains no newline. */
  lemma NumberHasNoNewline(n: nat)
    ensures '\n' !in NatToString(n)
  {
    var s := NatToString(n);
    assert forall k :: 0 <= k < |s| ==> s[k] != '\n';
  }

  /**
   * A list whose items have no line breaks renders as one line per item, in
   * order: `1. item`, `2. item`, ... when ordered, `- item` otherwise.
   */
  lemma ListRendering(items: seq<string>, ordered: bool)
    requires items != []
    requires forall k :: 0 <= k < |items| ==> '\n' !in items[k]
    ensures var lines := Split(RenderElement(List(items, ordered)), "\n");
      && |lines| == |items|
      && forall k :: 0 <= k < |items| ==>
           lines[k] == if ordered then NatToString(k + 1) + ". " + items[k] else "- " + items[k]
  {
    var lines := ListLines(items, ordered);
    forall k | 0 <= k < |lines| ensures '\n' !in lines[k] {
      NumberHasNoNewline(k + 1);
      assert lines[k] == ListLine(items[k], k, ordered);
    }
    SplitJoin(lines, '\n');
  }

  lemma {:induction false} RowLinesAt(rows: seq<seq<string>>)
    ensures |RowLines(rows)| == |rows|
    ensures forall k :: 0 <= k < |rows| ==> RowLines(rows)[k] == TableRowLine(rows[k])
    decreases |rows|
  {
    if rows != [] {
      var init := rows[..|rows| - 1];
      RowLinesAt(init);
      assert forall k :: 0 <= k < |init| ==> init[k] == rows[k];
    }
  }

  lemma RowLineHasNoNewline(cells: seq<string>)
    requires forall c :: 0 <= c < |cells| ==> '\n' !in cells[c]
    ensures '\n' !in TableRowLine(cells)
  {
    JoinAvoids(cells, " | ", '\n');
  }

  lemma TableLinesNoNewline(headers: seq<string>, rows: seq<seq<string>>)
    requires forall c :: 0 <= c < |headers| ==> '\n' !in headers[c]
    requires forall r, c :: 0 <= r < |rows| && 0 <= c < |rows[r]| ==> '\n' !in rows[r][c]
    ensures |TableLines(headers, rows)| == 2 + |rows|
    ensures forall k :: 0 <= k < |TableLines(headers, rows)| ==> '\n' !in TableLines(headers, rows)[k]
    ensures forall r :: 0 <= r < |rows| ==> TableLines(headers, rows)[2 + r] == TableRowLine(rows[r])
  {
    var lines := TableLines(headers, rows);
    RowLinesAt(rows);
    RowLineHasNoNewline(headers);
    RepeatAvoids("---|", |headers|, '\n');
    forall k | 2 <= k < |lines| ensures '\n' !in lines[k] {
      assert lines[k] == TableRowLine(rows[k - 2]);
      RowLineHasNoNewline(rows[k - 2]);
    }
  }

  /**
   * A table whose cells have no line breaks renders as its header row, a
   * separator with one `---|` per header and a closing `|`, then one line per
   * row, in order.
   */
  lemma TableRendering(headers: seq<string>, rows: seq<seq<string>>)
    requires forall c :: 0 <= c < |headers| ==> '\n' !in headers[c]
    requires forall r, c :: 0 <= r < |rows| && 0 <= c < |rows[r]| ==> '\n' !in rows[r][c]
    ensures var lines := Split(RenderElement(Table(headers, rows)), "\n");
      && |lines| == 2 + |rows|
      && lines[0] == "| " + Join(headers, " | ") + " |"
      && lines[1] == "|" + Repeat("---|", |headers|) + "|"
      && |lines[1]| == 2 + 4 * |headers|
      && forall r :: 0 <= r < |rows| ==> lines[2 + r] == "| " + Join(rows[r], " | ") + " |"
  {
    TableLinesNoNewline(headers, rows);
    SplitJoin(TableLines(headers, rows), '\n');
  }

  lemma {:induction false} RepeatAvoids(s: string, n: nat, c: char)
    requires c !in s
    ensures c !in Repeat(s, n)
  {
    if n > 0 {
      RepeatAvoids(s, n - 1, c);
    }
  }
}
