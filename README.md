# oxidoc, modelled in Dafny

oxidoc turns HTML and PDF documents into a flat list of typed document
elements (title, headings, paragraphs, lists, tables, code, links, image
descriptions and so on). It then renders that list either as JSON Lines
training records, one record per element, or as a plain-text file, and names
the output file with the right extension.

This project models that pipeline and proves what it guarantees:

- `options.dfy`: `Option` and `Result`.
- `elements.dfy`: the document element type. It has the thirteen variants
  that the HTML parser produces and both converters consume.
- `strings.dfy`: the parts of Rust's `str` the code relies on. These are
  `trim`, byte length (`len`), `split`, `join`, `repeat`, `starts_with` and
  `ends_with`, plus decimal formatting of numbers.
- `html_tree.dfy`: the parsed HTML document as the extractors see it. Nodes
  are listed in document order, each with its tag, attributes, concatenated
  text and parent. It also covers the selector queries the extractors issue
  and "first match" lookups.
- `html_parser.dfy`: the metadata phase and the nine content passes.
  - Each pass is a method with a loop over the document, proved equal to a
    specification function (`RunPass`).
  - Each pass has a lemma stating its keep/drop rule.
  - Further lemmas prove what each emitted element's fields satisfy, kind by
    kind. A title, heading, paragraph, blockquote, list item, inline code or
    link text is trimmed and non-empty, and a heading level lies between 1
    and 6. A description, keywords, author or image description is kept
    verbatim and is only known not to be blank. A language may be blank. A
    code block's text is kept verbatim and may be empty. A table has a header
    or a row; its headers may be empty strings, and each row has at least one
    cell.
  - Further lemmas prove the output is grouped: metadata first, then the
    content categories in pass order.
- `pdf_parser.dfy`: the title taken from the file stem, then the split of the
  extracted text into paragraphs. A paragraph is a `"\n\n"` segment, trimmed,
  and kept only when it is longer than 20 bytes.
- `jsonl_converter.dfy`: the training record built for each element, the
  table text, and the assembly of the JSONL output.
- `txt_converter.dfy`: the text rendering of each element, and the layout of
  the text file.
- `download.dfy`: the `.jsonl` / `.txt` file-name rule.

## Model

| member | source | states |
|---|---|---|
| HtmlParser.ParseHtmlFile | src/parsers/html_parser.rs:12-38 | a missing file yields `Ok` with no elements; a read error is passed on; otherwise the result is the metadata elements followed by the content elements |
| HtmlParser.HtmlOutputOrdered | src/parsers/html_parser.rs:28-32 | the parser's output is grouped by category in a fixed order; every metadata element precedes all content, each metadata kind appears at most once, and every element meets its kind's guarantee (`WellFormedElement`, spelled out kind by kind above) |
| HtmlParser.ExtractMetadata | src/parsers/html_parser.rs:94-123 | the loop-free push sequence yields exactly `Metadata(doc)`: one element per extractor that found a value, in the order title, description, keywords, author, language |
| HtmlParser.MetadataShape | src/parsers/html_parser.rs:94-123 | the metadata list is strictly ordered by kind and holds only metadata: a trimmed non-empty title, a verbatim non-blank description, keywords or author, and a possibly blank language; it contains `Title(t)` (likewise each other kind) exactly when that extractor returned `Some(t)` |
| HtmlParser.MetadataOrdered | src/parsers/html_parser.rs:94-123 | whatever the extractors return, the pushed metadata is strictly ordered by kind and holds only metadata |
| HtmlParser.MetadataMembers | src/parsers/html_parser.rs:94-123 | an element is in the metadata exactly when it is one of the values the five extractors found, under that extractor's own kind |
| HtmlParser.MetadataPresence | src/parsers/html_parser.rs:98-120 | for each of the five kinds, an element of that kind with text `t` is present exactly when its extractor returned `Some(t)` |
| HtmlParser.ExtractTitle | src/parsers/html_parser.rs:126-132 | only the first `title` element is consulted; the result is its trimmed text, and `None` exactly when there is no title or its trimmed text is empty |
| HtmlParser.MetaContent | src/parsers/html_parser.rs:135-162 | only the first matching `meta` is consulted; the result is its `content` attribute verbatim (untrimmed), and `None` exactly when there is no match, no `content`, or a blank one |
| HtmlParser.ExtractDocumentLanguage | src/parsers/html_parser.rs:165-181 | the first `html` element's `lang` attribute is returned whenever it exists, even when blank; otherwise the `content-language` meta value is used; a blank language can only come from `lang` |
| HtmlParser.ContentLanguageMetaAnyCase | src/parsers/html_parser.rs:174-176 | the fallback selector picks a `meta` exactly when its `http-equiv` value, lower-cased in ASCII, is `content-language`; HTML compares this attribute's value ignoring ASCII case |
| HtmlParser.ContentLanguageMetaCapitalised | src/parsers/html_parser.rs:174-176 | a `meta` written with `http-equiv="Content-Language"` is picked by the fallback selector |
| HtmlParser.HeadingLevel | src/parsers/html_parser.rs:217 | the level is the tag's final digit (1 to 6 for `h1` to `h6`), never above 9 |
| HtmlParser.ExtractElements | src/parsers/html_parser.rs:189-205 | the content phase's output is the passes' outputs concatenated in the order headings, paragraphs, blockquotes, lists, tables, code blocks, inline code, links, images |
| HtmlParser.ContentGrouped | src/parsers/html_parser.rs:189-205 | the content output is sorted by category, every element belongs to a content category, and every element meets its kind's guarantee (`WellFormedElement`) |
| HtmlParser.ScanWellFormed | src/parsers/html_parser.rs:208-439 | every element a pass emits belongs to that pass's category and meets its kind's guarantee: trimmed non-empty text for headings (level 1 to 6), paragraphs, blockquotes, list items, inline code and link text; a verbatim, possibly empty code block; a non-blank image description; a table with a header or a row, trimmed headers that may be empty, and rows with at least one cell |
| HtmlParser.PassSorted | src/parsers/html_parser.rs:208-439 | each pass's output lies entirely within that pass's category |
| HtmlParser.ExtractHeadings | src/parsers/html_parser.rs:208-228 | the loop's output equals the headings pass over the document, in document order |
| HtmlParser.HeadingsRule | src/parsers/html_parser.rs:208-228 | a heading is emitted exactly for each `h1` to `h6` node whose trimmed text is non-empty, carrying that trimmed text and the tag's level |
| HtmlParser.ExtractParagraphs | src/parsers/html_parser.rs:230-241 | the loop's output equals the paragraphs pass over the document |
| HtmlParser.ParagraphsRule | src/parsers/html_parser.rs:230-241 | a paragraph is emitted exactly for each `p` node with non-empty trimmed text, carrying that text |
| HtmlParser.ExtractBlockquotes | src/parsers/html_parser.rs:243-254 | the loop's output equals the blockquotes pass over the document |
| HtmlParser.BlockquotesRule | src/parsers/html_parser.rs:243-254 | a blockquote is emitted exactly for each `blockquote` node with non-empty trimmed text, carrying that text |
| HtmlParser.ExtractLists | src/parsers/html_parser.rs:256-290 | the output is all unordered lists followed by all ordered lists |
| HtmlParser.ExtractListsTagged | src/parsers/html_parser.rs:260-287 | the loop over `ul` (or, with `ordered`, `ol`) nodes equals that list pass over the document |
| HtmlParser.ListsRule | src/parsers/html_parser.rs:256-290 | a list is emitted exactly for each `ul`/`ol` node that has at least one non-empty item, with those items and the matching `ordered` flag |
| HtmlParser.ListItemsFacts | src/parsers/html_parser.rs:263-267 | a list's items are trimmed and non-empty; item `k` is the trimmed text of the `k`-th `li` beneath the list whose trimmed text is non-empty, in document order with repeats kept; as a set they are exactly those texts |
| HtmlParser.NonEmptyTextsInOrder | src/parsers/html_parser.rs:263-267 | dropping the empty trimmed texts leaves, position for position, the trimmed texts of the non-blank selected nodes in document order |
| HtmlParser.NonEmptyTextsAreKept | src/parsers/html_parser.rs:263-267 | filtering the empty trimmed texts out of the collected texts gives the texts of the selected nodes whose trimmed text is non-empty |
| HtmlParser.KeptTextsInOrder | src/parsers/html_parser.rs:263-267 | the texts of the kept selected nodes are, position for position, their trimmed texts in document order |
| HtmlParser.ExtractTables | src/parsers/html_parser.rs:293-325 | the loop's output equals the tables pass over the document |
| HtmlParser.CollectRows | src/parsers/html_parser.rs:305-317 | the inner row loop builds exactly `TableRows`: the non-empty cell lists of the `tr` nodes beneath the table, in document order |
| HtmlParser.TablesRule | src/parsers/html_parser.rs:293-325 | a table is emitted exactly for each `table` node with at least one header or one non-empty row, with those headers and rows |
| HtmlParser.TrimmedTextsFacts | src/parsers/html_parser.rs:299-302 | the header list has one trimmed text per `th` beneath the table, empty texts included: text `k` is the trimmed text of the `k`-th such node in document order |
| HtmlParser.TrimmedTextsInOrder | src/parsers/html_parser.rs:299-302 | the collected texts are, position for position, the trimmed texts of the selected nodes in document order |
| HtmlParser.KeptIndicesFacts | src/parsers/html_parser.rs:299-317 | the positions a collection walks are exactly the kept selected nodes, each once, in increasing document order |
| HtmlParser.KeptIndicesSound | src/parsers/html_parser.rs:299-317 | every position walked is a kept selected node, and the positions strictly increase |
| HtmlParser.KeptIndicesComplete | src/parsers/html_parser.rs:299-317 | every kept selected node is walked |
| HtmlParser.TableRowsFacts | src/parsers/html_parser.rs:305-317 | row `k` is the cell list of the `k`-th `tr` beneath the table that has at least one `td`, in document order with repeats kept; every row is non-empty and every cell trimmed |
| HtmlParser.TableRowsInOrder | src/parsers/html_parser.rs:305-317 | the rows are, position for position, the cell lists of the `tr` nodes with cells, in document order |
| HtmlParser.ExtractCodeBlocks | src/parsers/html_parser.rs:328-357 | the loop's output equals the code-block pass over the document |
| HtmlParser.CodeBlocksOnePerPre | src/parsers/html_parser.rs:328-357 | exactly one non-inline code element is emitted per `pre` node |
| HtmlParser.ExtractCodeLanguage | src/parsers/html_parser.rs:442-452 | the language is present exactly when the `class` attribute starts with `language-`, and is the rest of that attribute |
| HtmlParser.ExtractInlineCodes | src/parsers/html_parser.rs:360-384 | the loop's output equals the inline-code pass over the document |
| HtmlParser.InlineCodesRule | src/parsers/html_parser.rs:360-384 | inline code is emitted exactly for each `code` node whose direct parent is not `pre` and whose trimmed text is non-empty |
| HtmlParser.CodeInsidePre | src/parsers/html_parser.rs:336-370 | a `code` directly inside `pre` yields no inline code; when it is that `pre`'s first `code`, the `pre` yields one block with its untrimmed text and its language |
| HtmlParser.ExtractLinks | src/parsers/html_parser.rs:387-401 | the loop's output equals the links pass over the document |
| HtmlParser.LinksRule | src/parsers/html_parser.rs:387-401 | a link is emitted exactly for each `a` node with a non-empty `href` and non-empty trimmed text |
| HtmlParser.ExtractImageDescriptions | src/parsers/html_parser.rs:404-439 | the loop's output equals the images pass over the document |
| HtmlParser.DescribeImage | src/parsers/html_parser.rs:409-435 | the per-image steps, including the caption search that stops at the first caption sharing the image's parent, yield exactly `ImageAt` |
| HtmlParser.ImageRule | src/parsers/html_parser.rs:404-439 | an image yields at most two descriptions, none of them blank |
| HtmlParser.ImageAltFirst | src/parsers/html_parser.rs:410-416 | an `alt` that is not blank and not `image`/`photo` is the first description, kept verbatim |
| HtmlParser.ImageCaptionOnly | src/parsers/html_parser.rs:419-435 | without a qualifying `alt`, an image yields something exactly when its parent has a first `figcaption` child with non-empty trimmed text, and then only that text |
| HtmlParser.BlankFirstCaptionHidesLater | src/parsers/html_parser.rs:423-431 | when the first sibling caption is blank, later captions are ignored and only the `alt` can describe the image |
| HtmlParser.MetadataRanksFirst | src/parsers/documents_types.rs:5-10 | the metadata kinds are exactly the kinds placed before all content kinds |
| HtmlTree.FirstMatch | src/parsers/html_parser.rs:128-129 | `select(..).next()` returns the first selected node in document order, and `None` exactly when nothing is selected |
| HtmlTree.FirstMatchUnique | src/parsers/html_parser.rs:128-129 | a node that is selected, with no selected node before it, is the first match |
| HtmlTree.ParentOf | src/parsers/html_parser.rs:366 | a node's parent element precedes it in document order |
| PdfParser.ParsePdfFile | src/parsers/pdf_parser.rs:5-37 | a missing file yields `Ok` with no elements; an extraction error is passed on; otherwise the result is the stem title followed by one paragraph per kept segment |
| PdfParser.ExtractPdfMetadata | src/parsers/pdf_parser.rs:39-53 | the metadata is a single title holding the file stem when there is one, and empty otherwise |
| PdfParser.StemTitle | src/parsers/pdf_parser.rs:44-50 | at most one element; a title with text `t` exactly when the stem is `Some(t)` |
| PdfParser.Retained | src/parsers/pdf_parser.rs:22-25 | the kept paragraphs are at most as many as the segments; each is trimmed and longer than 20 bytes; they are exactly the trimmed segments that pass the filter |
| PdfParser.RetainedAppend | src/parsers/pdf_parser.rs:22-25 | the filter works segment by segment, so it distributes over concatenation |
| PdfParser.RetainedSingle | src/parsers/pdf_parser.rs:23-24 | a single segment is kept, trimmed, exactly when its trimmed text is non-empty and longer than 20 bytes |
| PdfParser.PdfParagraphsFromSegments | src/parsers/pdf_parser.rs:22-25 | splitting on `"\n\n"` loses no text (the segments join back to the input), cuts at each leftmost separator (no segment holds one, and none starts before a cut), and the paragraphs are exactly its kept trimmed segments |
| PdfParser.PushParagraphs | src/parsers/pdf_parser.rs:27-31 | the loop appends one paragraph element per kept paragraph, in order |
| PdfParser.ParagraphElementsAt | src/parsers/pdf_parser.rs:27-31 | element `k` is the paragraph holding paragraph text `k` |
| PdfParser.PdfOutputShape | src/parsers/pdf_parser.rs:16-31 | a title, if any, comes first and only there; every other element is a trimmed paragraph longer than 20 bytes |
| JsonlConverter.ExportToJsonl | src/converters/jsonl_converter.rs:9-199 | the loop's result equals `JsonlOutput`: the first serialization failure, or the serialized records joined by newlines |
| JsonlConverter.ToRecord | src/converters/jsonl_converter.rs:16-192 | for every element, the record's content length is the byte length of its own text, the document type is `html`, and the source file is the one given |
| JsonlConverter.RecordContents | src/converters/jsonl_converter.rs:16-192 | list text is the items joined by a vertical bar between spaces; link text is `text -> url`; code keeps its language; table text is the table text; only language and code records carry a language; every other kind copies its text |
| JsonlConverter.ElementTypeUnambiguous | src/converters/jsonl_converter.rs:16-192 | two elements get the same `element_type` exactly when they are of the same kind (same heading level, same list order, same code inlineness) |
| JsonlConverter.HeadingTag | src/converters/jsonl_converter.rs:46 | an element type starts with `heading_` exactly when the element is a heading |
| JsonlConverter.BuildTableText | src/converters/jsonl_converter.rs:137-140 | the `push_str` loop builds exactly `TableText`: the header part, then one `Row:` part per row |
| JsonlConverter.TableTextShape | src/converters/jsonl_converter.rs:137-140 | the table text starts with `Headers: ` and always ends with a vertical bar followed by a space |
| JsonlConverter.FailureSticks | src/converters/jsonl_converter.rs:194 | once a record fails to serialize, the whole export fails with that error |
| JsonlConverter.OneLinePerElement | src/converters/jsonl_converter.rs:13-196 | when every record serializes, there is exactly one line per element, in element order |
| JsonlConverter.JsonlLinesRecoverable | src/converters/jsonl_converter.rs:194-198 | when no serialized record contains a newline, splitting the output on newlines gives back exactly one record line per element |
| TxtConverter.ExportToTxt | src/converters/txt_converter.rs:5-90 | the export never fails, and its text is the collected lines joined by newlines |
| TxtConverter.TxtLayout | src/converters/txt_converter.rs:9-89 | the header line `# Document: <source>` comes first, then an empty line, then each element's rendering followed by an empty line |
| TxtConverter.BodyLayout | src/converters/txt_converter.rs:15-87 | the body has two lines per element: its rendering, then an empty line |
| TxtConverter.FormatElement | src/converters/txt_converter.rs:16-83 | the match, including the table's push loop, yields exactly `RenderElement` |
| TxtConverter.PrefixedRendering | src/converters/txt_converter.rs:17-82 | each single-text kind is rendered with its fixed prefix (`TITLE: `, `> `, `[IMAGE: `...) around its text; links as `[text](url)` |
| TxtConverter.HeadingRendering | src/converters/txt_converter.rs:23-26 | a level-`n` heading is `n` hash marks, a space, then the text |
| TxtConverter.CodeRendering | src/converters/txt_converter.rs:46-53 | inline code is wrapped in backticks; a block is fenced with its language (or nothing) after the opening fence |
| TxtConverter.ListLines | src/converters/txt_converter.rs:33-44 | one line per item, in order: `k. item` numbered from 1 when ordered, `- item` otherwise |
| TxtConverter.ListRendering | src/converters/txt_converter.rs:33-45 | when no item contains a newline, the rendered list splits back into exactly one numbered or bulleted line per item |
| TxtConverter.BuildTableLines | src/converters/txt_converter.rs:61-70 | the push loop builds exactly `TableLines`: header row, separator (a bar, one `---` column marker and bar per header, then a closing bar), then one line per row |
| TxtConverter.TableRendering | src/converters/txt_converter.rs:60-73 | when no cell contains a newline, the rendered table splits into the header row, the separator of length 2 + 4 per header that ends in a doubled bar, and one line per row listing its cells between vertical bars |
| TxtConverter.TableLinesNoNewline | src/converters/txt_converter.rs:64-70 | with newline-free cells, the table has two lines plus one per row, none containing a newline |
| Download.WithExtension | src/downloader/download.rs:10-14 | the name ends with the extension and starts with the given name; it is unchanged exactly when the name already ends with the extension, and otherwise gains it once |
| Download.WithExtensionIdempotent | src/downloader/download.rs:10-14 | applying the rule twice gives the same name as applying it once |
| Download.WithExtensionAppends | src/downloader/download.rs:13 | a name without the extension gets exactly the extension appended |
| Download.JsonlFileName | src/downloader/download.rs:10-14 | the JSONL file name ends with `.jsonl` and equals the input exactly when the input already did |
| Download.JsonlFileNameIdempotent | src/downloader/download.rs:10-14 | the JSONL naming rule is idempotent |
| Download.TxtFileName | src/downloader/download.rs:31-35 | the text file name ends with `.txt` and equals the input exactly when the input already did |
| Download.TxtFileNameIdempotent | src/downloader/download.rs:31-35 | the text naming rule is idempotent |
| Strings.Trim | src/parsers/pdf_parser.rs:23 | the trimmed text neither starts nor ends with whitespace and is no longer than the input |
| Strings.TrimSlice | src/parsers/pdf_parser.rs:23 | the trimmed text is the piece `s[i..j]` of the input, and everything before and after it is whitespace: only the ends are stripped |
| Strings.TrimKeepsMiddle | src/parsers/pdf_parser.rs:23 | some such piece exists for every input |
| Strings.TrimEmptyIffBlank | src/parsers/html_parser.rs:411 | `trim().is_empty()` holds exactly when every character is whitespace |
| Strings.TrimIdempotent | src/parsers/html_parser.rs:219 | trimming twice is trimming once |
| Strings.Utf8Len | src/parsers/pdf_parser.rs:24 | the byte length lies between the character count and four times it, and is zero only for the empty string |
| Strings.JoinSplit | src/parsers/pdf_parser.rs:22 | joining the pieces of a split with the separator gives back the input |
| Strings.SplitLeftmost | src/parsers/pdf_parser.rs:22 | the split cuts at the leftmost occurrence each time: no piece but the last is followed by a separator that starts inside it, and the last holds none |
| Strings.SplitJoin | src/converters/jsonl_converter.rs:198 | splitting a newline-free list of lines, joined with newlines, gives back the lines |
| Strings.Repeat | src/converters/txt_converter.rs:24 | repeating a string `n` times gives `n` times its length |
| Strings.RepeatAdd | src/converters/txt_converter.rs:24 | repeating `m + n` times is repeating `m` times followed by repeating `n` times |
| Strings.RepeatOnce | src/converters/txt_converter.rs:24 | repeating once gives the string itself; with `RepeatAdd`, this fixes the content of every repetition |
| Strings.RepeatChar | src/converters/txt_converter.rs:24 | every character of `n` copies of a one-character string is that character |
| Strings.AsciiLower | src/parsers/html_parser.rs:175 | the lower-cased form has the input's length and no upper-case ASCII letter |
| Strings.AsciiLowerIdempotent | src/parsers/html_parser.rs:175 | lower-casing twice is lower-casing once |
| Strings.NatToString | src/converters/jsonl_converter.rs:46 | the decimal form is a non-empty string of digits, one digit long exactly for numbers below 10 |
| Strings.NatToStringInjective | src/converters/jsonl_converter.rs:46 | different numbers have different decimal forms |

## Left out

- HTML parsing and CSS selector evaluation (`scraper`) are not modelled. The
  parsed document is an input: a list of nodes in document order, each with
  its tag, attributes, concatenated descendant text and parent element. The
  selector queries the extractors issue are modelled on that list. Tag and
  attribute names are taken as the HTML parser delivers them, lower-cased. An
  attribute value in a selector is compared exactly, except for `http-equiv`,
  whose value HTML compares ignoring ASCII case; `name` values compare exactly.
- File-system access is left out. Whether the file exists is a boolean input;
  the result of reading it is a `Result` input.
- PDF text extraction (`pdf_extract::extract_text`) is a foreign call. Its
  result is an input `Result`.
- `Path::file_stem` and its UTF-8 conversion are an `Option` input.
- JSON serialization (`serde_json::to_string`) is a function parameter. JSON
  escaping is not modelled. The line-per-record lemma assumes no serialized
  record contains a raw newline, which serde_json guarantees.
- The record timestamp (`chrono::Utc::now`) is left out, being a clock reading.
- Console output (`println!`, `eprintln!`, `display_parsing_results`) and
  `main.rs` (argument handling and menus) are left out.
- Saving the file (the `HOME` lookup, the Downloads path, `fs::write`) is left
  out. Only the file-name rule is modelled.
- `src/parsers/documents_types.rs` declares generic variants (`Title`,
  `Paragraph`, ..., `Image { alt, url }`). The HTML parser and both converters
  use HTML-specific variants instead (a metadata kind per field, and
  `HtmlImageDescription { text }` for images). The model follows the parser
  and converters: one element type with their thirteen variants. The PDF
  parser's `Title` and `Paragraph` are taken to be the same title and
  paragraph kinds.
- Code nested deeper than a direct child of `pre` is emitted twice. The
  code-block pass takes it as the `pre`'s block, and the inline pass emits it
  too, because the inline pass checks only the direct parent. The model
  follows the code.
- The HTML `lang` attribute is returned even when blank; only the meta
  fallback is filtered. The model follows the code.
- Table record text always ends with a vertical bar and a space, even for a table without rows.
  The model follows the code.
- The text rendering's table separator is a bar, one `---|` per header, and
  then one more bar, so it ends in two bars and has one cell more than the
  header row. The model follows the code.
- `U8` heading levels: the source's `as u8` cast cannot overflow, because the
  level is a single decimal digit. The model uses a `0..255` subtype.
- Byte lengths (`str::len`) are modelled as UTF-8 lengths computed per code
  point. Dafny strings are sequences of Unicode scalar values.
- The two list loops of `extract_lists` (one over `ul`, one over `ol`) are
  modelled as one loop parameterised by the list tag and run twice. Both
  loops have the same body apart from the tag and the `ordered` flag.
