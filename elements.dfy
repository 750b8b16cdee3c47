/**
 * The element model: one closed variant set shared by the HTML and PDF
 * extractors and consumed by both renderers. The thirteen constructors are the
 * ones the HTML parser builds and the converters match on; the PDF parser's
 * `Title` and `Paragraph` map onto `Title` and `Paragraph` here.
 */
module Elements {
  import opened Options

  /** Rust's `u8`, the type of a heading level. */
  type U8 = x: int | 0 <= x < 0x100

  datatype Element =
    // document metadata
    | Title(text: string)
    | Description(text: string)
    | Keywords(text: string)
    | Author(text: string)
    | Language(text: string)
    // content
    | Heading(level: U8, text: string)
    | Paragraph(text: string)
    | Blockquote(text: string)
    | List(items: seq<string>, ordered: bool)
    | Table(headers: seq<string>, rows: seq<seq<string>>)
    | Code(code: string, language: Option<string>, inline: bool)
    | Link(text: string, url: string)
    | ImageDescription(text: string)

  predicate IsMetadata(e: Element) {
    e.Title? || e.Description? || e.Keywords? || e.Author? || e.Language?
  }
}
