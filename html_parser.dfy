/**
 * The HTML extraction engine: a metadata phase followed by nine category
 * passes, each of which scans the whole document in document order and keeps
 * or drops each matching node by its own rule. The output is grouped by
 * category, not by position in the document.
 *
 * Every pass is a method with a loop over the nodes, proved equal to
 * `RunPass(doc, pass)`: the concatenation, in document order, of what each node
 * contributes (`Emit`). The lemmas at the end state each pass's keep/drop rule,
 * the canonical form of every emitted element and the grouping order.
 */
module HtmlParser {
  import opened Options
  import opened Strings
  import opened Elements
  import opened HtmlTree

  const HeadingTags: set<string> := {"h1", "h2", "h3", "h4", "h5", "h6"}
  const LanguagePrefix := "language-"

  //-------------------------------------------------------------------------
  // Ordering and canonical form of the output
  //-------------------------------------------------------------------------

  /**
   * Position of an element's category in the output: the five metadata kinds in
   * the order the metadata phase tries them, then the content passes in the
   * order they run (unordered lists before ordered ones, code blocks before
   * inline code).
   */
  function Rank(e: Element): nat {
    match e
    case Title(_) => 0
    case Description(_) => 1
    case Keywords(_) => 2
    case Author(_) => 3
    case Language(_) => 4
    case Heading(_, _) => 5
    case Paragraph(_) => 6
    case Blockquote(_) => 7
    case List(_, ordered) => if ordered then 9 else 8
    case Table(_, _) => 10
    case Code(_, _, inline) => if inline then 12 else 11
    case Link(_, _) => 13
    case ImageDescription(_) => 14
  }

  lemma MetadataRanksFirst(e: Element)
    ensures IsMetadata(e) <==> Rank(e) < 5
  {
  }

  predicate RankSorted(es: seq<Element>) {
    forall i, j :: 0 <= i < j < |es| ==> Rank(es[i]) <= Rank(es[j])
  }

  predicate StrictlyRanked(es: seq<Element>) {
    forall i, j :: 0 <= i < j < |es| ==> Rank(es[i]) < Rank(es[j])
  }

  /** What the extractor guarantees about each element it emits. */
  predicate WellFormedElement(e: Element) {
    match e
    case Title(text) => IsTrimmedNonEmpty(text)
    case Description(text) => Trim(text) != ""
    case Keywords(text) => Trim(text) != ""
    case Author(text) => Trim(text) != ""
    case Language(_) => true
    case Heading(level, text) => 1 <= level <= 6 && IsTrimmedNonEmpty(text)
    case Paragraph(text) => IsTrimmedNonEmpty(text)
    case Blockquote(text) => IsTrimmedNonEmpty(text)
    case List(items, _) =>
      && items != []
      && forall k :: 0 <= k < |items| ==> IsTrimmedNonEmpty(items[k])
    case Table(headers, rows) =>
      && (headers != [] || rows != [])
      && (forall t :: t in headers ==> IsTrimmed(t))
      && (forall r :: r in rows ==> r != [] && forall t :: t in r ==> IsTrimmed(t))
    case Code(code, language, inline) => inline ==> IsTrimmedNonEmpty(code) && language.None?
    case Link(text, url) => IsTrimmedNonEmpty(text) && url != ""
    case ImageDescription(text) => Trim(text) != ""
  }

  //-------------------------------------------------------------------------
  // Metadata phase
  //-------------------------------------------------------------------------

  /** The trimmed text of the first `<title>`, unless it is empty. */
  function ExtractTitle(doc: Doc): (title: Option<string>)
    ensures var first := FirstMatch(doc, WholeDocument, Tag("title"));
      && (title.Some? <==> first.Some? && Trim(doc[first.value].text) != "")
      && (title.Some? ==> title.value == Trim(doc[first.value].text) && IsTrimmedNonEmpty(title.value))
  {
    match FirstMatch(doc, WholeDocument, Tag("title"))
    case None => None
    case Some(i) =>
      var title := Trim(doc[i].text);
      if title != "" then Some(title) else None
  }

  function MetaNamed(name: string): Selector {
    TagWithAttrValue("meta", "name", name)
  }

  /** `meta[http-equiv='content-language']`; `http-equiv` values compare ignoring ASCII case. */
  const ContentLanguageMeta := TagWithAttrValueAnyCase("meta", "http-equiv", "content-language")

  /** The fallback `meta` is the one whose `http-equiv`, lower-cased, is `content-language`. */
  lemma ContentLanguageMetaAnyCase(n: Node)
    ensures Matches(n, ContentLanguageMeta) <==>
      n.tag == "meta" && "http-equiv" in n.attrs && AsciiLower(n.attrs["http-equiv"]) == "content-language"
  {
    AsciiLowerOfLower("content-language");
  }

  /** `<meta http-equiv="Content-Language">`, as it is usually written, is picked. */
  lemma ContentLanguageMetaCapitalised(content: string)
    ensures Matches(Node("meta", map["http-equiv" := "Content-Language", "content" := content], "", None), ContentLanguageMeta)
  {
    var n := Node("meta", map["http-equiv" := "Content-Language", "content" := content], "", None);
    assert n.attrs["http-equiv"] == "Content-Language";
    assert AsciiLower("Content-Language") == "content-language" by {
      var r := AsciiLower("Content-Language");
      assert r[0] == AsciiLowerChar('C') == 'c';
      assert r[8] == AsciiLowerChar('L') == 'l';
    }
    ContentLanguageMetaAnyCase(n);
  }

  /**
   * The `content` attribute of the first node `sel` picks, kept verbatim
   * (untrimmed), unless that node has no `content` or it is blank. Later matches
   * are never consulted.
   */
  function MetaContent(doc: Doc, sel: Selector): (content: Option<string>)
    ensures var first := FirstMatch(doc, WholeDocument, sel);
      && (content.Some? <==> first.Some? && "content" in doc[first.value].attrs && Trim(doc[first.value].attrs["content"]) != "")
      && (content.Some? ==> content.value == doc[first.value].attrs["content"])
  {
    match FirstMatch(doc, WholeDocument, sel)
    case None => None
    case Some(i) =>
      match Attr(doc[i], "content")
      case None => None
      case Some(c) => if Trim(c) == "" then None else Some(c)
  }

  /**
   * `<html lang>` whenever the attribute is present, even blank; only when it is
   * absent, the content of `meta[http-equiv='content-language']`, dropped if blank.
   */
  function ExtractDocumentLanguage(doc: Doc): (lang: Option<string>)
    ensures var html := FirstMatch(doc, WholeDocument, Tag("html"));
      if html.Some? && "lang" in doc[html.value].attrs then lang == Some(doc[html.value].attrs["lang"])
      else lang == MetaContent(doc, ContentLanguageMeta)
    ensures lang.Some? && Trim(lang.value) == "" ==>
      var html := FirstMatch(doc, WholeDocument, Tag("html"));
      html.Some? && "lang" in doc[html.value].attrs
  {
    match FirstMatch(doc, WholeDocument, Tag("html"))
    case Some(h) =>
      (match Attr(doc[h], "lang")
       case Some(lang) => Some(lang)
       case None => MetaContent(doc, ContentLanguageMeta))
    case None => MetaContent(doc, ContentLanguageMeta)
  }

  /** The metadata elements, in the order the metadata phase pushes them. */
  function Metadata(doc: Doc): seq<Element> {
    MetadataOf(ExtractTitle(doc), MetaContent(doc, MetaNamed("description")), MetaContent(doc, MetaNamed("keywords")),
               MetaContent(doc, MetaNamed("author")), ExtractDocumentLanguage(doc))
  }

  /** One element per metadata value found, pushed in the order title, description, keywords, author, language. */
  function MetadataOf(title: Option<string>, description: Option<string>, keywords: Option<string>,
                      author: Option<string>, language: Option<string>): seq<Element>
  {
    var m0: seq<Element> := [];
    var m1 := if title.Some? then m0 + [Title(title.value)] else m0;
    var m2 := if description.Some? then m1 + [Description(description.value)] else m1;
    var m3 := if keywords.Some? then m2 + [Keywords(keywords.value)] else m2;
    var m4 := if author.Some? then m3 + [Author(author.value)] else m3;
    if language.Some? then m4 + [Language(language.value)] else m4
  }

  method ExtractMetadata(doc: Doc) returns (metadata: seq<Element>)
    ensures metadata == Metadata(doc)
  {
    metadata := [];
    var title := ExtractTitle(doc);
    if title.Some? {
      metadata := metadata + [Title(title.value)];
    }
    var description := MetaContent(doc, MetaNamed("description"));
    if description.Some? {
      metadata := metadata + [Description(description.value)];
    }
    var keywords := MetaContent(doc, MetaNamed("keywords"));
    if keywords.Some? {
      metadata := metadata + [Keywords(keywords.value)];
    }
    var author := MetaContent(doc, MetaNamed("author"));
    if author.Some? {
      metadata := metadata + [Author(author.value)];
    }
    var language := ExtractDocumentLanguage(doc);
    if language.Some? {
      metadata := metadata + [Language(language.value)];
    }
  }

  /** Metadata in strictly increasing rank, all ranked below `bound`. */
  predicate RankedBelow(es: seq<Element>, bound: nat) {
    StrictlyRanked(es) && forall x :: x in es ==> IsMetadata(x) && Rank(x) < bound
  }

  /** Pushing metadata (or not) whose rank exceeds everything so far keeps the order. */
  lemma PushRanked(es: seq<Element>, present: bool, e: Element)
    requires RankedBelow(es, Rank(e)) && IsMetadata(e)
    ensures RankedBelow(if present then es + [e] else es, Rank(e) + 1)
  {
    if present {
      var s := es + [e];
      forall i, j | 0 <= i < j < |s| ensures Rank(s[i]) < Rank(s[j]) {
        if j < |es| {
          assert s[i] == es[i] && s[j] == es[j];
        } else {
          assert s[i] in es;
        }
      }
      forall x | x in s ensures IsMetadata(x) && Rank(x) < Rank(e) + 1 {
        assert x in es || x == e;
      }
    }
  }

  /** The metadata phase emits only metadata, each kind at most once, in rank order. */
  lemma MetadataOrdered(title: Option<string>, description: Option<string>, keywords: Option<string>,
                        author: Option<string>, language: Option<string>)
    ensures var m := MetadataOf(title, description, keywords, author, language);
      StrictlyRanked(m) && forall x :: x in m ==> IsMetadata(x)
  {
    var m0: seq<Element> := [];
    var m1 := if title.Some? then m0 + [Title(title.value)] else m0;
    var m2 := if description.Some? then m1 + [Description(description.value)] else m1;
    var m3 := if keywords.Some? then m2 + [Keywords(keywords.value)] else m2;
    var m4 := if author.Some? then m3 + [Author(author.value)] else m3;
    var m5 := if language.Some? then m4 + [Language(language.value)] else m4;
    PushRanked(m0, title.Some?, Title(if title.Some? then title.value else ""));
    PushRanked(m1, description.Some?, Description(if description.Some? then description.value else ""));
    PushRanked(m2, keywords.Some?, Keywords(if keywords.Some? then keywords.value else ""));
    PushRanked(m3, author.Some?, Author(if author.Some? then author.value else ""));
    PushRanked(m4, language.Some?, Language(if language.Some? then language.value else ""));
    assert MetadataOf(title, description, keywords, author, language) == m5;
  }

  /** The metadata elements are exactly the values the five extractors found, each under its own kind. */
  lemma MetadataMembers(title: Option<string>, description: Option<string>, keywords: Option<string>,
                        author: Option<string>, language: Option<string>, x: Element)
    ensures x in MetadataOf(title, description, keywords, author, language) <==>
      || (title.Some? && x == Title(title.value))
      || (description.Some? && x == Description(description.value))
      || (keywords.Some? && x == Keywords(keywords.value))
      || (author.Some? && x == Author(author.value))
      || (language.Some? && x == Language(language.value))
  {
    var m0: seq<Element> := [];
    var m1 := if title.Some? then m0 + [Title(title.value)] else m0;
    var m2 := if description.Some? then m1 + [Description(description.value)] else m1;
    var m3 := if keywords.Some? then m2 + [Keywords(keywords.value)] else m2;
    var m4 := if author.Some? then m3 + [Author(author.value)] else m3;
    var m5 := if language.Some? then m4 + [Language(language.value)] else m4;
    assert MetadataOf(title, description, keywords, author, language) == m5;
    assert x in m1 <==> title.Some? && x == Title(title.value);
    assert x in m2 <==> x in m1 || (description.Some? && x == Description(description.value));
    assert x in m3 <==> x in m2 || (keywords.Some? && x == Keywords(keywords.value));
    assert x in m4 <==> x in m3 || (author.Some? && x == Author(author.value));
  }

  /** A kind is emitted exactly when its extractor finds a value, with that value as its text. */
  lemma MetadataPresence(title: Option<string>, description: Option<string>, keywords: Option<string>,
                         author: Option<string>, language: Option<string>)
    ensures var m := MetadataOf(title, description, keywords, author, language);
      && (forall t :: Title(t) in m <==> title == Some(t))
      && (forall t :: Description(t) in m <==> description == Some(t))
      && (forall t :: Keywords(t) in m <==> keywords == Some(t))
      && (forall t :: Author(t) in m <==> author == Some(t))
      && (forall t :: Language(t) in m <==> language == Some(t))
  {
    var m := MetadataOf(title, description, keywords, author, language);
    forall t ensures Title(t) in m <==> title == Some(t) {
      MetadataMembers(title, description, keywords, author, language, Title(t));
    }
    forall t ensures Description(t) in m <==> description == Some(t) {
      MetadataMembers(title, description, keywords, author, language, Description(t));
    }
    forall t ensures Keywords(t) in m <==> keywords == Some(t) {
      MetadataMembers(title, description, keywords, author, language, Keywords(t));
    }
    forall t ensures Author(t) in m <==> author == Some(t) {
      MetadataMembers(title, description, keywords, author, language, Author(t));
    }
    forall t ensures Language(t) in m <==> language == Some(t) {
      MetadataMembers(title, description, keywords, author, language, Language(t));
    }
  }

  /**
   * The metadata phase emits each kind at most once, in the order title,
   * description, keywords, author, language, and emits a kind exactly when its
   * extractor finds a value, with that value as its text.
   */
  lemma MetadataShape(doc: Doc)
    ensures var m := Metadata(doc);
      && StrictlyRanked(m)
      && (forall x :: x in m ==> IsMetadata(x) && WellFormedElement(x))
      && (forall t :: Title(t) in m <==> ExtractTitle(doc) == Some(t))
      && (forall t :: Description(t) in m <==> MetaContent(doc, MetaNamed("description")) == Some(t))
      && (forall t :: Keywords(t) in m <==> MetaContent(doc, MetaNamed("keywords")) == Some(t))
      && (forall t :: Author(t) in m <==> MetaContent(doc, MetaNamed("author")) == Some(t))
      && (forall t :: Language(t) in m <==> ExtractDocumentLanguage(doc) == Some(t))
  {
    var title := ExtractTitle(doc);
    var description := MetaContent(doc, MetaNamed("description"));
    var keywords := MetaContent(doc, MetaNamed("keywords"));
    var author := MetaContent(doc, MetaNamed("author"));
    var language := ExtractDocumentLanguage(doc);
    var m := MetadataOf(title, description, keywords, author, language);
    assert Metadata(doc) == m;
    MetadataOrdered(title, description, keywords, author, language);
    MetadataPresence(title, description, keywords, author, language);
    forall x | x in m ensures WellFormedElement(x) {
      match x
      case Title(t) =>
      case Description(t) =>
      case Keywords(t) =>
      case Author(t) =>
      case Language(t) =>
      case _ =>
    }
  }

  //-------------------------------------------------------------------------
  // Content phase: what each node contributes to each pass
  //-------------------------------------------------------------------------

  /** The category passes, in the order `extract_elements` runs them. */
  datatype Pass =
    | HeadingsPass | ParagraphsPass | BlockquotesPass | UnorderedListsPass | OrderedListsPass
    | TablesPass | CodeBlocksPass | InlineCodesPass | LinksPass | ImagesPass

  function PassRank(pass: Pass): nat {
    match pass
    case HeadingsPass => 5
    case ParagraphsPass => 6
    case BlockquotesPass => 7
    case UnorderedListsPass => 8
    case OrderedListsPass => 9
    case TablesPass => 10
    case CodeBlocksPass => 11
    case InlineCodesPass => 12
    case LinksPass => 13
    case ImagesPass => 14
  }

  /**
   * The digit that ends the tag name, or 1 when it does not end in a digit
   * (`name().chars().last().unwrap_or('1').to_digit(10).unwrap_or(1)`).
   */
  function HeadingLevel(tag: string): (level: U8)
    ensures level <= 9
    ensures tag in HeadingTags ==> 1 <= level <= 6 && level == tag[1] as int - '0' as int
  {
    var last := if |tag| == 0 then '1' else tag[|tag| - 1];
    if '0' <= last <= '9' then last as int - '0' as int else 1
  }

  /** `element.select(sel).map(trim)`: the trimmed texts of the selected nodes among the first `n`. */
  function TrimmedTexts(doc: Doc, scope: Scope, sel: Selector, n: nat): seq<string>
    requires n <= |doc|
  {
    if n == 0 then []
    else TrimmedTexts(doc, scope, sel, n - 1) + (if Selects(doc, scope, sel, n - 1) then [Trim(doc[n - 1].text)] else [])
  }

  function CountSelected(doc: Doc, scope: Scope, sel: Selector, n: nat): nat
    requires n <= |doc|
  {
    if n == 0 then 0
    else CountSelected(doc, scope, sel, n - 1) + (if Selects(doc, scope, sel, n - 1) then 1 else 0)
  }

  /** One trimmed text per selected node, and exactly the selected nodes' texts. */
  lemma TrimmedTextsFacts(doc: Doc, scope: Scope, sel: Selector, n: nat)
    requires n <= |doc|
    ensures var texts := TrimmedTexts(doc, scope, sel, n);
      && |texts| == CountSelected(doc, scope, sel, n)
      && (forall k :: 0 <= k < |texts| ==> IsTrimmed(texts[k]))
      && (forall t :: t in texts <==> exists j :: 0 <= j < n && Selects(doc, scope, sel, j) && t == Trim(doc[j].text))
    ensures var idx := KeptIndices(doc, scope, sel, EveryNode, n);
      var texts := TrimmedTexts(doc, scope, sel, n);
      |texts| == |idx| && forall k :: 0 <= k < |idx| ==> idx[k] < |doc| && texts[k] == Trim(doc[idx[k]].text)
  {
    TrimmedTextsCount(doc, scope, sel, n);
    TrimmedTextsTrimmed(doc, scope, sel, n);
    TrimmedTextsMembers(doc, scope, sel, n);
    TrimmedTextsInOrder(doc, scope, sel, n);
  }

  /** Which of the selected nodes a collected list keeps. */
  datatype Keep = EveryNode | NonBlankText | WithCells

  predicate Kept(doc: Doc, keep: Keep, j: nat)
    requires j < |doc|
  {
    match keep
    case EveryNode => true
    case NonBlankText => Trim(doc[j].text) != ""
    case WithCells => Cells(doc, j) != []
  }

  /** The positions of the kept selected nodes among the first `n`. */
  function KeptIndices(doc: Doc, scope: Scope, sel: Selector, keep: Keep, n: nat): seq<nat>
    requires n <= |doc|
  {
    if n == 0 then []
    else
      KeptIndices(doc, scope, sel, keep, n - 1)
      + (if Selects(doc, scope, sel, n - 1) && Kept(doc, keep, n - 1) then [n - 1] else [])
  }

  /**
   * The kept selected nodes among the first `n`, in document order: exactly
   * those nodes, each once, in increasing position.
   */
  lemma KeptIndicesFacts(doc: Doc, scope: Scope, sel: Selector, keep: Keep, n: nat)
    requires n <= |doc|
    ensures var idx := KeptIndices(doc, scope, sel, keep, n);
      && (forall k :: 0 <= k < |idx| ==> idx[k] < n && Selects(doc, scope, sel, idx[k]) && Kept(doc, keep, idx[k]))
      && (forall j :: 0 <= j < n && Selects(doc, scope, sel, j) && Kept(doc, keep, j) ==> j in idx)
      && (forall k, m :: 0 <= k < m < |idx| ==> idx[k] < idx[m])
  {
    KeptIndicesSound(doc, scope, sel, keep, n);
    KeptIndicesComplete(doc, scope, sel, keep, n);
  }

  /** Every position walked is a kept selected node below `n`, and the positions increase. */
  lemma {:induction false} KeptIndicesSound(doc: Doc, scope: Scope, sel: Selector, keep: Keep, n: nat)
    requires n <= |doc|
    ensures var idx := KeptIndices(doc, scope, sel, keep, n);
      && (forall k :: 0 <= k < |idx| ==> idx[k] < n && Selects(doc, scope, sel, idx[k]) && Kept(doc, keep, idx[k]))
      && (forall k, m :: 0 <= k < m < |idx| ==> idx[k] < idx[m])
  {
    if n > 0 {
      KeptIndicesSound(doc, scope, sel, keep, n - 1);
      var prev := KeptIndices(doc, scope, sel, keep, n - 1);
      assert var idx := KeptIndices(doc, scope, sel, keep, n - 1);
        forall k :: 0 <= k < |idx| ==> idx[k] < n - 1;
      assert forall k :: 0 <= k < |prev| ==> prev[k] < n - 1;
      var keeps := Selects(doc, scope, sel, n - 1) && Kept(doc, keep, n - 1);
      var idx := prev + (if keeps then [n - 1] else []);
      assert KeptIndices(doc, scope, sel, keep, n) == idx;
      forall k | 0 <= k < |idx|
        ensures idx[k] < n && Selects(doc, scope, sel, idx[k]) && Kept(doc, keep, idx[k])
      {
        if k < |prev| {
          assert idx[k] == prev[k];
        }
      }
      forall k, m | 0 <= k < m < |idx| ensures idx[k] < idx[m] {
        assert idx[k] == prev[k] && prev[k] < n - 1;
        if m < |prev| {
          assert idx[m] == prev[m];
        }
      }
    }
  }

  /** Every kept selected node below `n` is walked. */
  lemma {:induction false} KeptIndicesComplete(doc: Doc, scope: Scope, sel: Selector, keep: Keep, n: nat)
    requires n <= |doc|
    ensures forall j :: 0 <= j < n && Selects(doc, scope, sel, j) && Kept(doc, keep, j) ==> j in KeptIndices(doc, scope, sel, keep, n)
  {
    if n > 0 {
      KeptIndicesComplete(doc, scope, sel, keep, n - 1);
      var prev := KeptIndices(doc, scope, sel, keep, n - 1);
      var keeps := Selects(doc, scope, sel, n - 1) && Kept(doc, keep, n - 1);
      var idx := prev + (if keeps then [n - 1] else []);
      assert KeptIndices(doc, scope, sel, keep, n) == idx;
      forall j | 0 <= j < n && Selects(doc, scope, sel, j) && Kept(doc, keep, j) ensures j in idx {
        if j < n - 1 {
          assert j in prev;
        } else {
          assert idx[|idx| - 1] == j;
        }
      }
    }
  }

  /** `texts` holds the trimmed text of each node at `idx`, position for position. */
  predicate TextsAt(doc: Doc, idx: seq<nat>, texts: seq<string>) {
    |texts| == |idx| && forall k :: 0 <= k < |idx| ==> idx[k] < |doc| && texts[k] == Trim(doc[idx[k]].text)
  }

  lemma TextsAtAppend(doc: Doc, ia: seq<nat>, a: seq<string>, ib: seq<nat>, b: seq<string>)
    requires TextsAt(doc, ia, a) && TextsAt(doc, ib, b)
    ensures TextsAt(doc, ia + ib, a + b)
  {
    forall k | 0 <= k < |ia + ib|
      ensures (ia + ib)[k] < |doc| && (a + b)[k] == Trim(doc[(ia + ib)[k]].text)
    {
      if k >= |ia| {
        assert (ia + ib)[k] == ib[k - |ia|] && (a + b)[k] == b[k - |ia|];
      }
    }
  }

  /** Appending one node's position and its trimmed text, or neither, keeps the two lists in step. */
  lemma TextsAtStep(doc: Doc, idx: seq<nat>, texts: seq<string>, keeps: bool, j: nat)
    requires TextsAt(doc, idx, texts) && j < |doc|
    ensures TextsAt(doc, idx + (if keeps then [j] else []), texts + (if keeps then [Trim(doc[j].text)] else []))
  {
    TextsAtAppend(doc, idx, texts, if keeps then [j] else [], if keeps then [Trim(doc[j].text)] else []);
  }

  /** One trimmed text per selected node, in document order, repeated texts kept. */
  lemma {:induction false} TrimmedTextsInOrder(doc: Doc, scope: Scope, sel: Selector, n: nat)
    requires n <= |doc|
    ensures TextsAt(doc, KeptIndices(doc, scope, sel, EveryNode, n), TrimmedTexts(doc, scope, sel, n))
  {
    if n > 0 {
      TrimmedTextsInOrder(doc, scope, sel, n - 1);
      var last := if Selects(doc, scope, sel, n - 1) then [Trim(doc[n - 1].text)] else [];
      var at := if Selects(doc, scope, sel, n - 1) then [n - 1] else [];
      assert TextsAt(doc, at, last);
      TextsAtAppend(doc, KeptIndices(doc, scope, sel, EveryNode, n - 1), TrimmedTexts(doc, scope, sel, n - 1), at, last);
    }
  }

  /** The filter works text by text, so it distributes over concatenation. */
  lemma {:induction false} NonEmptyAppend(a: seq<string>, b: seq<string>)
    ensures NonEmpty(a + b) == NonEmpty(a) + NonEmpty(b)
  {
    if a == [] {
      assert a + b == b;
    } else {
      var head := if a[0] != "" then [a[0]] else [];
      assert (a + b)[0] == a[0];
      assert (a + b)[1..] == a[1..] + b;
      assert NonEmpty(a + b) == head + NonEmpty(a[1..] + b);
      NonEmptyAppend(a[1..], b);
    }
  }

  /** Dropping the empty trimmed texts keeps the non-blank selected nodes' texts, in document order. */
  lemma {:induction false} NonEmptyTextsInOrder(doc: Doc, scope: Scope, sel: Selector, n: nat)
    requires n <= |doc|
    ensures TextsAt(doc, KeptIndices(doc, scope, sel, NonBlankText, n), NonEmpty(TrimmedTexts(doc, scope, sel, n)))
  {
    KeptTextsInOrder(doc, scope, sel, NonBlankText, n);
    NonEmptyTextsAreKept(doc, scope, sel, n);
  }

  /** The trimmed texts of the kept selected nodes among the first `n`. */
  function KeptTexts(doc: Doc, scope: Scope, sel: Selector, keep: Keep, n: nat): seq<string>
    requires n <= |doc|
  {
    if n == 0 then []
    else
      KeptTexts(doc, scope, sel, keep, n - 1)
      + (if Selects(doc, scope, sel, n - 1) && Kept(doc, keep, n - 1) then [Trim(doc[n - 1].text)] else [])
  }

  /** The kept texts are, position for position, the trimmed texts at the kept positions. */
  lemma {:induction false} KeptTextsInOrder(doc: Doc, scope: Scope, sel: Selector, keep: Keep, n: nat)
    requires n <= |doc|
    ensures TextsAt(doc, KeptIndices(doc, scope, sel, keep, n), KeptTexts(doc, scope, sel, keep, n))
  {
    if n > 0 {
      KeptTextsInOrder(doc, scope, sel, keep, n - 1);
      TextsAtStep(doc, KeptIndices(doc, scope, sel, keep, n - 1), KeptTexts(doc, scope, sel, keep, n - 1),
                  Selects(doc, scope, sel, n - 1) && Kept(doc, keep, n - 1), n - 1);
    }
  }

  /** Filtering out the empty trimmed texts leaves the texts of the non-blank selected nodes. */
  lemma {:induction false} NonEmptyTextsAreKept(doc: Doc, scope: Scope, sel: Selector, n: nat)
    requires n <= |doc|
    ensures NonEmpty(TrimmedTexts(doc, scope, sel, n)) == KeptTexts(doc, scope, sel, NonBlankText, n)
  {
    if n > 0 {
      NonEmptyTextsAreKept(doc, scope, sel, n - 1);
      NonEmptyStep(doc, scope, sel, n);
    } else {
      assert TrimmedTexts(doc, scope, sel, n) == [];
    }
  }

  /** One more node adds its trimmed text to the filtered list exactly when it is selected and not blank. */
  lemma NonEmptyStep(doc: Doc, scope: Scope, sel: Selector, n: nat)
    requires 0 < n <= |doc|
    ensures NonEmpty(TrimmedTexts(doc, scope, sel, n)) ==
      NonEmpty(TrimmedTexts(doc, scope, sel, n - 1))
      + (if Selects(doc, scope, sel, n - 1) && Kept(doc, NonBlankText, n - 1) then [Trim(doc[n - 1].text)] else [])
  {
    var prev := TrimmedTexts(doc, scope, sel, n - 1);
    var last := if Selects(doc, scope, sel, n - 1) then [Trim(doc[n - 1].text)] else [];
    NonEmptyAppend(prev, last);
    if last != [] {
      assert last[1..] == [];
    }
  }

  lemma {:induction false} TrimmedTextsCount(doc: Doc, scope: Scope, sel: Selector, n: nat)
    requires n <= |doc|
    ensures |TrimmedTexts(doc, scope, sel, n)| == CountSelected(doc, scope, sel, n)
  {
    if n > 0 {
      TrimmedTextsCount(doc, scope, sel, n - 1);
    }
  }

  lemma {:induction false} TrimmedTextsTrimmed(doc: Doc, scope: Scope, sel: Selector, n: nat)
    requires n <= |doc|
    ensures forall t :: t in TrimmedTexts(doc, scope, sel, n) ==> IsTrimmed(t)
  {
    if n > 0 {
      TrimmedTextsTrimmed(doc, scope, sel, n - 1);
    }
  }

  lemma {:induction false} TrimmedTextsMembers(doc: Doc, scope: Scope, sel: Selector, n: nat)
    requires n <= |doc|
    ensures forall t :: t in TrimmedTexts(doc, scope, sel, n) <==>
      exists j :: 0 <= j < n && Selects(doc, scope, sel, j) && t == Trim(doc[j].text)
  {
    if n > 0 {
      TrimmedTextsMembers(doc, scope, sel, n - 1);
      var prev := TrimmedTexts(doc, scope, sel, n - 1);
      var last := if Selects(doc, scope, sel, n - 1) then [Trim(doc[n - 1].text)] else [];
      assert TrimmedTexts(doc, scope, sel, n) == prev + last;
      forall t | t in prev + last
        ensures exists j :: 0 <= j < n && Selects(doc, scope, sel, j) && t == Trim(doc[j].text)
      {
        if t !in prev {
          assert Selects(doc, scope, sel, n - 1) && t == Trim(doc[n - 1].text);
        }
      }
      forall t, j | 0 <= j < n && Selects(doc, scope, sel, j) && t == Trim(doc[j].text)
        ensures t in prev + last
      {
        if j < n - 1 {
          assert t in prev;
        } else {
          assert t in last;
        }
      }
    }
  }

  /** `.filter(|t| !t.is_empty())`. */
  function NonEmpty(texts: seq<string>): seq<string> {
    if texts == [] then []
    else (if texts[0] != "" then [texts[0]] else []) + NonEmpty(texts[1..])
  }

  /** The filter keeps exactly the non-empty texts, in order. */
  lemma {:induction false} NonEmptyFacts(texts: seq<string>)
    ensures |NonEmpty(texts)| <= |texts|
    ensures forall t :: t in NonEmpty(texts) <==> t in texts && t != ""
  {
    if texts != [] {
      NonEmptyFacts(texts[1..]);
      assert texts == [texts[0]] + texts[1..];
    }
  }

  /** The items of the list at node `list`: trimmed `li` texts beneath it, empty ones dropped. */
  function ListItems(doc: Doc, list: nat): seq<string> {
    NonEmpty(TrimmedTexts(doc, DescendantsOf(list), Tag("li"), |doc|))
  }

  /**
   * A list's items are exactly the non-empty trimmed texts of the `li`
   * elements beneath it.
   */
  lemma ListItemsFacts(doc: Doc, list: nat)
    ensures forall k :: 0 <= k < |ListItems(doc, list)| ==> IsTrimmedNonEmpty(ListItems(doc, list)[k])
    ensures forall t :: t in ListItems(doc, list) <==>
      exists j :: 0 <= j < |doc| && Selects(doc, DescendantsOf(list), Tag("li"), j) && t == Trim(doc[j].text) && t != ""
    ensures var idx := KeptIndices(doc, DescendantsOf(list), Tag("li"), NonBlankText, |doc|);
      |ListItems(doc, list)| == |idx|
      && forall k :: 0 <= k < |idx| ==> idx[k] < |doc| && ListItems(doc, list)[k] == Trim(doc[idx[k]].text)
  {
    NonEmptyTextsInOrder(doc, DescendantsOf(list), Tag("li"), |doc|);
    var texts := TrimmedTexts(doc, DescendantsOf(list), Tag("li"), |doc|);
    TrimmedTextsFacts(doc, DescendantsOf(list), Tag("li"), |doc|);
    NonEmptyFacts(texts);
    var items := NonEmpty(texts);
    forall k | 0 <= k < |items| ensures IsTrimmedNonEmpty(items[k]) {
      assert items[k] in texts;
      var m :| 0 <= m < |texts| && texts[m] == items[k];
    }
  }

  /** Trimmed `th` texts beneath the table, empty ones kept. */
  function Headers(doc: Doc, table: nat): seq<string> {
    TrimmedTexts(doc, DescendantsOf(table), Tag("th"), |doc|)
  }

  /** Trimmed `td` texts beneath the row. */
  function Cells(doc: Doc, row: nat): seq<string> {
    TrimmedTexts(doc, DescendantsOf(row), Tag("td"), |doc|)
  }

  /** The rows of the table among the first `n` nodes: every `tr` beneath it with at least one cell. */
  function TableRows(doc: Doc, table: nat, n: nat): seq<seq<string>>
    requires n <= |doc|
  {
    if n == 0 then []
    else
      var cells := Cells(doc, n - 1);
      TableRows(doc, table, n - 1) + (if Selects(doc, DescendantsOf(table), Tag("tr"), n - 1) && cells != [] then [cells] else [])
  }

  /**
   * A table's rows are exactly the non-empty cell lists of the `tr` elements
   * beneath it; every cell is trimmed.
   */
  lemma TableRowsFacts(doc: Doc, table: nat, n: nat)
    requires n <= |doc|
    ensures var rows := TableRows(doc, table, n);
      && (forall r :: r in rows ==> r != [] && forall t :: t in r ==> IsTrimmed(t))
      && (forall r :: r in rows <==>
            exists j :: 0 <= j < n && Selects(doc, DescendantsOf(table), Tag("tr"), j) && r == Cells(doc, j) && r != [])
    ensures var idx := KeptIndices(doc, DescendantsOf(table), Tag("tr"), WithCells, n);
      var rows := TableRows(doc, table, n);
      |rows| == |idx| && forall k :: 0 <= k < |idx| ==> idx[k] < |doc| && rows[k] == Cells(doc, idx[k])
  {
    TableRowsTrimmed(doc, table, n);
    TableRowsMembers(doc, table, n);
    TableRowsInOrder(doc, table, n);
  }

  /** One row per `tr` with cells, in document order, repeated rows kept. */
  lemma {:induction false} TableRowsInOrder(doc: Doc, table: nat, n: nat)
    requires n <= |doc|
    ensures RowsAt(doc, KeptIndices(doc, DescendantsOf(table), Tag("tr"), WithCells, n), TableRows(doc, table, n))
  {
    if n > 0 {
      TableRowsInOrder(doc, table, n - 1);
      var cells := Cells(doc, n - 1);
      var keeps := Selects(doc, DescendantsOf(table), Tag("tr"), n - 1) && Kept(doc, WithCells, n - 1);
      var last := if keeps then [cells] else [];
      var at := if keeps then [n - 1] else [];
      assert RowsAt(doc, at, last);
      RowsAtAppend(doc, KeptIndices(doc, DescendantsOf(table), Tag("tr"), WithCells, n - 1), TableRows(doc, table, n - 1), at, last);
    }
  }

  /** `rows` holds the cells of each node at `idx`, position for position. */
  predicate RowsAt(doc: Doc, idx: seq<nat>, rows: seq<seq<string>>) {
    |rows| == |idx| && forall k :: 0 <= k < |idx| ==> idx[k] < |doc| && rows[k] == Cells(doc, idx[k])
  }

  lemma RowsAtAppend(doc: Doc, ia: seq<nat>, a: seq<seq<string>>, ib: seq<nat>, b: seq<seq<string>>)
    requires RowsAt(doc, ia, a) && RowsAt(doc, ib, b)
    ensures RowsAt(doc, ia + ib, a + b)
  {
    forall k | 0 <= k < |ia + ib|
      ensures (ia + ib)[k] < |doc| && (a + b)[k] == Cells(doc, (ia + ib)[k])
    {
      if k >= |ia| {
        assert (ia + ib)[k] == ib[k - |ia|] && (a + b)[k] == b[k - |ia|];
      }
    }
  }

  lemma {:induction false} TableRowsTrimmed(doc: Doc, table: nat, n: nat)
    requires n <= |doc|
    ensures forall r :: r in TableRows(doc, table, n) ==> r != [] && forall t :: t in r ==> IsTrimmed(t)
  {
    if n > 0 {
      TableRowsTrimmed(doc, table, n - 1);
      TrimmedTextsTrimmed(doc, DescendantsOf(n - 1), Tag("td"), |doc|);
    }
  }

  lemma {:induction false} TableRowsMembers(doc: Doc, table: nat, n: nat)
    requires n <= |doc|
    ensures forall r :: r in TableRows(doc, table, n) <==>
      exists j :: 0 <= j < n && Selects(doc, DescendantsOf(table), Tag("tr"), j) && r == Cells(doc, j) && r != []
  {
    if n > 0 {
      TableRowsMembers(doc, table, n - 1);
      var prev := TableRows(doc, table, n - 1);
      var cells := Cells(doc, n - 1);
      var last := if Selects(doc, DescendantsOf(table), Tag("tr"), n - 1) && cells != [] then [cells] else [];
      assert TableRows(doc, table, n) == prev + last;
      forall r | r in prev + last
        ensures exists j :: 0 <= j < n && Selects(doc, DescendantsOf(table), Tag("tr"), j) && r == Cells(doc, j) && r != []
      {
        if r !in prev {
          assert Selects(doc, DescendantsOf(table), Tag("tr"), n - 1) && r == Cells(doc, n - 1) && r != [];
        }
      }
      forall r, j | 0 <= j < n && Selects(doc, DescendantsOf(table), Tag("tr"), j) && r == Cells(doc, j) && r != []
        ensures r in prev + last
      {
        if j < n - 1 {
          assert r in prev;
        } else {
          assert r in last;
        }
      }
    }
  }

  /** The language named by a `language-<X>` class: the whole class string must start with the prefix. */
  function ExtractCodeLanguage(n: Node): (language: Option<string>)
    ensures language.Some? <==> "class" in n.attrs && StartsWith(n.attrs["class"], LanguagePrefix)
    ensures language.Some? ==> n.attrs["class"] == LanguagePrefix + language.value
  {
    match Attr(n, "class")
    case None => None
    case Some(classes) =>
      if StartsWith(classes, LanguagePrefix) then Some(classes[|LanguagePrefix|..]) else None
  }

  /** The parent of node `i` is a `pre` element. */
  predicate ParentIsPre(doc: Doc, i: nat)
    requires i < |doc|
  {
    match ParentOf(doc, i)
    case Some(p) => doc[p].tag == "pre"
    case None => false
  }

  function HeadingAt(doc: Doc, i: nat): seq<Element>
    requires i < |doc|
  {
    if Selects(doc, WholeDocument, AnyTag(HeadingTags), i) then
      var text := Trim(doc[i].text);
      if text != "" then [Heading(HeadingLevel(doc[i].tag), text)] else []
    else []
  }

  function ParagraphAt(doc: Doc, i: nat): seq<Element>
    requires i < |doc|
  {
    if Selects(doc, WholeDocument, Tag("p"), i) then
      var text := Trim(doc[i].text);
      if text != "" then [Paragraph(text)] else []
    else []
  }

  function BlockquoteAt(doc: Doc, i: nat): seq<Element>
    requires i < |doc|
  {
    if Selects(doc, WholeDocument, Tag("blockquote"), i) then
      var text := Trim(doc[i].text);
      if text != "" then [Blockquote(text)] else []
    else []
  }

  function ListTag(ordered: bool): string {
    if ordered then "ol" else "ul"
  }

  function ListPass(ordered: bool): Pass {
    if ordered then OrderedListsPass else UnorderedListsPass
  }

  function ListAt(doc: Doc, i: nat, ordered: bool): seq<Element>
    requires i < |doc|
  {
    if Selects(doc, WholeDocument, Tag(ListTag(ordered)), i) then
      var items := ListItems(doc, i);
      if items != [] then [List(items, ordered)] else []
    else []
  }

  function TableAt(doc: Doc, i: nat): seq<Element>
    requires i < |doc|
  {
    if Selects(doc, WholeDocument, Tag("table"), i) then
      var headers := Headers(doc, i);
      var rows := TableRows(doc, i, |doc|);
      if headers != [] || rows != [] then [Table(headers, rows)] else []
    else []
  }

  function CodeBlockAt(doc: Doc, i: nat): seq<Element>
    requires i < |doc|
  {
    if Selects(doc, WholeDocument, Tag("pre"), i) then
      match FirstMatch(doc, DescendantsOf(i), Tag("code"))
      case Some(c) => [Code(doc[c].text, ExtractCodeLanguage(doc[c]), false)]
      case None => [Code(doc[i].text, None, false)]
    else []
  }

  function InlineCodeAt(doc: Doc, i: nat): seq<Element>
    requires i < |doc|
  {
    if Selects(doc, WholeDocument, Tag("code"), i) && !ParentIsPre(doc, i) then
      var code := Trim(doc[i].text);
      if code != "" then [Code(code, None, true)] else []
    else []
  }

  function LinkAt(doc: Doc, i: nat): seq<Element>
    requires i < |doc|
  {
    if Selects(doc, WholeDocument, TagWithAttr("a", "href"), i) then
      var url := match Attr(doc[i], "href") case Some(u) => u case None => "";
      var text := Trim(doc[i].text);
      if url != "" && text != "" then [Link(text, url)] else []
    else []
  }

  /** An alt text is kept unless it is blank or one of the placeholders "image" and "photo". */
  predicate AltQualifies(alt: string) {
    Trim(alt) != "" && alt != "image" && alt != "photo"
  }

  /** The alt text, verbatim, when it qualifies. */
  function AltDescription(n: Node): seq<Element> {
    match Attr(n, "alt")
    case None => []
    case Some(alt) => if AltQualifies(alt) then [ImageDescription(alt)] else []
  }

  /**
   * The trimmed text of the first `figcaption` that shares the image's parent
   * element, unless empty; the search ends at the first such caption.
   */
  function CaptionDescription(doc: Doc, i: nat): seq<Element>
    requires i < |doc|
  {
    match ParentOf(doc, i)
    case None => []
    case Some(p) =>
      match FirstMatch(doc, ChildrenOf(p), Tag("figcaption"))
      case None => []
      case Some(c) =>
        var caption := Trim(doc[c].text);
        if caption != "" then [ImageDescription(caption)] else []
  }

  function ImageAt(doc: Doc, i: nat): seq<Element>
    requires i < |doc|
  {
    if Selects(doc, WholeDocument, Tag("img"), i) then AltDescription(doc[i]) + CaptionDescription(doc, i) else []
  }

  /** What node `i` contributes to `pass`. */
  function Emit(doc: Doc, pass: Pass, i: nat): seq<Element>
    requires i < |doc|
  {
    match pass
    case HeadingsPass => HeadingAt(doc, i)
    case ParagraphsPass => ParagraphAt(doc, i)
    case BlockquotesPass => BlockquoteAt(doc, i)
    case UnorderedListsPass => ListAt(doc, i, false)
    case OrderedListsPass => ListAt(doc, i, true)
    case TablesPass => TableAt(doc, i)
    case CodeBlocksPass => CodeBlockAt(doc, i)
    case InlineCodesPass => InlineCodeAt(doc, i)
    case LinksPass => LinkAt(doc, i)
    case ImagesPass => ImageAt(doc, i)
  }

  /** Every node's contribution to `pass`, in document order. */
  function Contributions(doc: Doc, pass: Pass): (parts: seq<seq<Element>>)
    ensures |parts| == |doc|
  {
    seq(|doc|, i requires 0 <= i < |doc| => Emit(doc, pass, i))
  }

  /** The contributions of the first `n` parts, concatenated. */
  function Concat(parts: seq<seq<Element>>, n: nat): seq<Element>
    requires n <= |parts|
  {
    if n == 0 then [] else Concat(parts, n - 1) + parts[n - 1]
  }

  /** A pass over the first `n` nodes: every node's contribution, in document order. */
  function Scan(doc: Doc, pass: Pass, n: nat): seq<Element>
    requires n <= |doc|
  {
    Concat(Contributions(doc, pass), n)
  }

  /** One more node: the pass's output grows by that node's contribution. */
  lemma ScanStep(doc: Doc, pass: Pass, i: nat)
    requires i < |doc|
    ensures Scan(doc, pass, i + 1) == Scan(doc, pass, i) + Emit(doc, pass, i)
  {
  }

  function RunPass(doc: Doc, pass: Pass): seq<Element> {
    Scan(doc, pass, |doc|)
  }

  /** The content phase's output: the passes' outputs in pass order. */
  function ContentElements(doc: Doc): seq<Element> {
    RunPass(doc, HeadingsPass) + RunPass(doc, ParagraphsPass) + RunPass(doc, BlockquotesPass)
    + (RunPass(doc, UnorderedListsPass) + RunPass(doc, OrderedListsPass)) + RunPass(doc, TablesPass)
    + RunPass(doc, CodeBlocksPass) + RunPass(doc, InlineCodesPass) + RunPass(doc, LinksPass)
    + RunPass(doc, ImagesPass)
  }

  //-------------------------------------------------------------------------
  // Content phase: the passes as the source runs them
  //-------------------------------------------------------------------------

  method ExtractHeadings(doc: Doc) returns (headings: seq<Element>)
    ensures headings == RunPass(doc, HeadingsPass)
  {
    headings := [];
    for i := 0 to |doc|
      invariant headings == Scan(doc, HeadingsPass, i)
    {
      ScanStep(doc, HeadingsPass, i);
      if Selects(doc, WholeDocument, AnyTag(HeadingTags), i) {
        var level := HeadingLevel(doc[i].tag);
        var text := Trim(doc[i].text);
        if text != "" {
          assert HeadingAt(doc, i) == [Heading(level, text)];
          headings := headings + [Heading(level, text)];
        } else {
          assert HeadingAt(doc, i) == [];
        }
      } else {
        assert HeadingAt(doc, i) == [];
      }
    }
  }

  method ExtractParagraphs(doc: Doc) returns (paragraphs: seq<Element>)
    ensures paragraphs == RunPass(doc, ParagraphsPass)
  {
    paragraphs := [];
    for i := 0 to |doc|
      invariant paragraphs == Scan(doc, ParagraphsPass, i)
    {
      ScanStep(doc, ParagraphsPass, i);
      if Selects(doc, WholeDocument, Tag("p"), i) {
        var text := Trim(doc[i].text);
        if text != "" {
          assert ParagraphAt(doc, i) == [Paragraph(text)];
          paragraphs := paragraphs + [Paragraph(text)];
        } else {
          assert ParagraphAt(doc, i) == [];
        }
      } else {
        assert ParagraphAt(doc, i) == [];
      }
    }
  }

  method ExtractBlockquotes(doc: Doc) returns (blockquotes: seq<Element>)
    ensures blockquotes == RunPass(doc, BlockquotesPass)
  {
    blockquotes := [];
    for i := 0 to |doc|
      invariant blockquotes == Scan(doc, BlockquotesPass, i)
    {
      ScanStep(doc, BlockquotesPass, i);
      if Selects(doc, WholeDocument, Tag("blockquote"), i) {
        var text := Trim(doc[i].text);
        if text != "" {
          assert BlockquoteAt(doc, i) == [Blockquote(text)];
          blockquotes := blockquotes + [Blockquote(text)];
        } else {
          assert BlockquoteAt(doc, i) == [];
        }
      } else {
        assert BlockquoteAt(doc, i) == [];
      }
    }
  }

  /** All `ul` lists, then all `ol` lists: two loops alike but for the tag and the flag. */
  method ExtractLists(doc: Doc) returns (lists: seq<Element>)
    ensures lists == RunPass(doc, UnorderedListsPass) + RunPass(doc, OrderedListsPass)
  {
    var unordered := ExtractListsTagged(doc, false);
    var ordered := ExtractListsTagged(doc, true);
    lists := unordered + ordered;
  }

  /** One of the two list loops: every `ul` (or every `ol`) with at least one non-empty item. */
  method ExtractListsTagged(doc: Doc, ordered: bool) returns (lists: seq<Element>)
    ensures lists == RunPass(doc, ListPass(ordered))
  {
    lists := [];
    for i := 0 to |doc|
      invariant lists == Scan(doc, ListPass(ordered), i)
    {
      ScanStep(doc, ListPass(ordered), i);
      if Selects(doc, WholeDocument, Tag(ListTag(ordered)), i) {
        var items := ListItems(doc, i);
        if items != [] {
          assert ListAt(doc, i, ordered) == [List(items, ordered)];
          lists := lists + [List(items, ordered)];
        } else {
          assert ListAt(doc, i, ordered) == [];
        }
      } else {
        assert ListAt(doc, i, ordered) == [];
      }
    }
  }

  method ExtractTables(doc: Doc) returns (tables: seq<Element>)
    ensures tables == RunPass(doc, TablesPass)
  {
    tables := [];
    for i := 0 to |doc|
      invariant tables == Scan(doc, TablesPass, i)
    {
      ScanStep(doc, TablesPass, i);
      if Selects(doc, WholeDocument, Tag("table"), i) {
        var headers := Headers(doc, i);
        var rows := CollectRows(doc, i);
        if headers != [] || rows != [] {
          assert TableAt(doc, i) == [Table(headers, rows)];
          tables := tables + [Table(headers, rows)];
        } else {
          assert TableAt(doc, i) == [];
        }
      } else {
        assert TableAt(doc, i) == [];
      }
    }
  }

  /** The inner loop of the table pass: every `tr` beneath the table with at least one cell. */
  method CollectRows(doc: Doc, table: nat) returns (rows: seq<seq<string>>)
    ensures rows == TableRows(doc, table, |doc|)
  {
    rows := [];
    for j := 0 to |doc|
      invariant rows == TableRows(doc, table, j)
    {
      if Selects(doc, DescendantsOf(table), Tag("tr"), j) {
        var cells := Cells(doc, j);
        if cells != [] {
          rows := rows + [cells];
        }
      }
    }
  }

  method ExtractCodeBlocks(doc: Doc) returns (blocks: seq<Element>)
    ensures blocks == RunPass(doc, CodeBlocksPass)
  {
    blocks := [];
    for i := 0 to |doc|
      invariant blocks == Scan(doc, CodeBlocksPass, i)
    {
      ScanStep(doc, CodeBlocksPass, i);
      if Selects(doc, WholeDocument, Tag("pre"), i) {
        var codeElement := FirstMatch(doc, DescendantsOf(i), Tag("code"));
        if codeElement.Some? {
          var c := codeElement.value;
          var language := ExtractCodeLanguage(doc[c]);
          assert CodeBlockAt(doc, i) == [Code(doc[c].text, language, false)];
          blocks := blocks + [Code(doc[c].text, language, false)];
        } else {
          assert CodeBlockAt(doc, i) == [Code(doc[i].text, None, false)];
          blocks := blocks + [Code(doc[i].text, None, false)];
        }
      } else {
        assert CodeBlockAt(doc, i) == [];
      }
    }
  }

  method ExtractInlineCodes(doc: Doc) returns (codes: seq<Element>)
    ensures codes == RunPass(doc, InlineCodesPass)
  {
    codes := [];
    for i := 0 to |doc|
      invariant codes == Scan(doc, InlineCodesPass, i)
    {
      ScanStep(doc, InlineCodesPass, i);
      if Selects(doc, WholeDocument, Tag("code"), i) {
        if ParentIsPre(doc, i) {
          assert InlineCodeAt(doc, i) == [];
          continue;
        }
        var code := Trim(doc[i].text);
        if code != "" {
          assert InlineCodeAt(doc, i) == [Code(code, None, true)];
          codes := codes + [Code(code, None, true)];
        } else {
          assert InlineCodeAt(doc, i) == [];
        }
      } else {
        assert InlineCodeAt(doc, i) == [];
      }
    }
  }

  method ExtractLinks(doc: Doc) returns (links: seq<Element>)
    ensures links == RunPass(doc, LinksPass)
  {
    links := [];
    for i := 0 to |doc|
      invariant links == Scan(doc, LinksPass, i)
    {
      ScanStep(doc, LinksPass, i);
      if Selects(doc, WholeDocument, TagWithAttr("a", "href"), i) {
        var href := Attr(doc[i], "href");
        var url := if href.Some? then href.value else "";
        var text := Trim(doc[i].text);
        if url != "" && text != "" {
          assert LinkAt(doc, i) == [Link(text, url)];
          links := links + [Link(text, url)];
        } else {
          assert LinkAt(doc, i) == [];
        }
      } else {
        assert LinkAt(doc, i) == [];
      }
    }
  }

  method ExtractImageDescriptions(doc: Doc) returns (descriptions: seq<Element>)
    ensures descriptions == RunPass(doc, ImagesPass)
  {
    descriptions := [];
    for i := 0 to |doc|
      invariant descriptions == Scan(doc, ImagesPass, i)
    {
      ScanStep(doc, ImagesPass, i);
      var found: seq<Element> := [];
      if Selects(doc, WholeDocument, Tag("img"), i) {
        found := DescribeImage(doc, i);
      }
      assert found == Emit(doc, ImagesPass, i);
      descriptions := descriptions + found;
    }
  }

  /** The body of the image loop for one `img`: its alt text, then the caption search. */
  method DescribeImage(doc: Doc, i: nat) returns (descriptions: seq<Element>)
    requires i < |doc| && doc[i].tag == "img"
    ensures descriptions == ImageAt(doc, i)
  {
    descriptions := [];
    var alt := Attr(doc[i], "alt");
    if alt.Some? {
      if Trim(alt.value) != "" && alt.value != "image" && alt.value != "photo" {
        descriptions := descriptions + [ImageDescription(alt.value)];
      }
    }
    ghost var withAlt := descriptions;
    var parent := ParentOf(doc, i);
    if parent.Some? {
      var j := 0;
      while j < |doc|
        invariant 0 <= j <= |doc|
        invariant descriptions == withAlt
        invariant forall k :: 0 <= k < j ==> !Selects(doc, ChildrenOf(parent.value), Tag("figcaption"), k)
      {
        if doc[j].tag == "figcaption" && ParentOf(doc, j) == parent {
          CaptionFound(doc, i, parent.value, j);
          var caption := Trim(doc[j].text);
          if caption != "" {
            descriptions := descriptions + [ImageDescription(caption)];
          }
          break;
        }
        j := j + 1;
      }
      if j == |doc| {
        CaptionMissing(doc, i, parent.value);
      }
    }
  }

  lemma CaptionFound(doc: Doc, i: nat, p: nat, j: nat)
    requires i < |doc| && ParentOf(doc, i) == Some(p)
    requires j < |doc| && Selects(doc, ChildrenOf(p), Tag("figcaption"), j)
    requires forall k :: 0 <= k < j ==> !Selects(doc, ChildrenOf(p), Tag("figcaption"), k)
    ensures CaptionDescription(doc, i) == if Trim(doc[j].text) != "" then [ImageDescription(Trim(doc[j].text))] else []
  {
    FirstMatchUnique(doc, ChildrenOf(p), Tag("figcaption"), j);
  }

  lemma CaptionMissing(doc: Doc, i: nat, p: nat)
    requires i < |doc| && ParentOf(doc, i) == Some(p)
    requires forall k :: 0 <= k < |doc| ==> !Selects(doc, ChildrenOf(p), Tag("figcaption"), k)
    ensures CaptionDescription(doc, i) == []
  {
  }

  method ExtractElements(doc: Doc) returns (elements: seq<Element>)
    ensures elements == ContentElements(doc)
  {
    var headings := ExtractHeadings(doc);
    var paragraphs := ExtractParagraphs(doc);
    var blockquotes := ExtractBlockquotes(doc);
    var lists := ExtractLists(doc);
    var tables := ExtractTables(doc);
    var blocks := ExtractCodeBlocks(doc);
    var codes := ExtractInlineCodes(doc);
    var links := ExtractLinks(doc);
    var images := ExtractImageDescriptions(doc);
    elements := headings;
    elements := elements + paragraphs;
    elements := elements + blockquotes;
    elements := elements + lists;
    elements := elements + tables;
    elements := elements + blocks;
    elements := elements + codes;
    elements := elements + links;
    elements := elements + images;
  }

  /**
   * `parse_html_file`. `fileExists` is the existence check; `contents` is the
   * file read and parsed into its tree, or the read error.
   */
  method ParseHtmlFile(fileExists: bool, contents: Result<Doc, string>) returns (result: Result<seq<Element>, string>)
    ensures !fileExists ==> result == Success([])
    ensures fileExists && contents.Failure? ==> result == Failure(contents.error)
    ensures fileExists && contents.Success? ==>
      result == Success(Metadata(contents.value) + ContentElements(contents.value))
  {
    if !fileExists {
      return Success([]);
    }
    if contents.Failure? {
      return Failure(contents.error);
    }
    var doc := contents.value;
    var elements := ExtractMetadata(doc);
    var content := ExtractElements(doc);
    elements := elements + content;
    return Success(elements);
  }

  //-------------------------------------------------------------------------
  // Properties of the output
  //-------------------------------------------------------------------------

  lemma ListAtWellFormed(doc: Doc, i: nat, ordered: bool)
    requires i < |doc|
    ensures forall x :: x in ListAt(doc, i, ordered) ==> Rank(x) == PassRank(ListPass(ordered)) && WellFormedElement(x)
  {
    ListItemsFacts(doc, i);
  }

  lemma TableAtWellFormed(doc: Doc, i: nat)
    requires i < |doc|
    ensures forall x :: x in TableAt(doc, i) ==> Rank(x) == PassRank(TablesPass) && WellFormedElement(x)
  {
    var headers := Headers(doc, i);
    var rows := TableRows(doc, i, |doc|);
    TrimmedTextsTrimmed(doc, DescendantsOf(i), Tag("th"), |doc|);
    TableRowsTrimmed(doc, i, |doc|);
  }

  lemma CodeAtWellFormed(doc: Doc, i: nat)
    requires i < |doc|
    ensures forall x :: x in CodeBlockAt(doc, i) ==> Rank(x) == PassRank(CodeBlocksPass) && WellFormedElement(x)
    ensures forall x :: x in InlineCodeAt(doc, i) ==> Rank(x) == PassRank(InlineCodesPass) && WellFormedElement(x)
  {
  }

  lemma HeadingAtWellFormed(doc: Doc, i: nat)
    requires i < |doc|
    ensures forall x :: x in HeadingAt(doc, i) ==> Rank(x) == PassRank(HeadingsPass) && WellFormedElement(x)
  {
  }

  lemma ParagraphAtWellFormed(doc: Doc, i: nat)
    requires i < |doc|
    ensures forall x :: x in ParagraphAt(doc, i) ==> Rank(x) == PassRank(ParagraphsPass) && WellFormedElement(x)
  {
  }

  lemma BlockquoteAtWellFormed(doc: Doc, i: nat)
    requires i < |doc|
    ensures forall x :: x in BlockquoteAt(doc, i) ==> Rank(x) == PassRank(BlockquotesPass) && WellFormedElement(x)
  {
  }

  lemma LinkAtWellFormed(doc: Doc, i: nat)
    requires i < |doc|
    ensures forall x :: x in LinkAt(doc, i) ==> Rank(x) == PassRank(LinksPass) && WellFormedElement(x)
  {
  }

  lemma AltWellFormed(n: Node)
    ensures forall x :: x in AltDescription(n) ==> Rank(x) == PassRank(ImagesPass) && WellFormedElement(x)
  {
  }

  lemma CaptionWellFormed(doc: Doc, i: nat)
    requires i < |doc|
    ensures forall x :: x in CaptionDescription(doc, i) ==> Rank(x) == PassRank(ImagesPass) && WellFormedElement(x)
  {
  }

  lemma ImageAtWellFormed(doc: Doc, i: nat)
    requires i < |doc|
    ensures forall x :: x in ImageAt(doc, i) ==> Rank(x) == PassRank(ImagesPass) && WellFormedElement(x)
  {
    AltWellFormed(doc[i]);
    CaptionWellFormed(doc, i);
    AppendFitting(AltDescription(doc[i]), CaptionDescription(doc, i), PassRank(ImagesPass));
    assert RanksWithin(ImageAt(doc, i), PassRank(ImagesPass), PassRank(ImagesPass));
  }

  /** Every element has a rank in `lo..hi` and is in canonical form. */
  predicate RanksWithin(es: seq<Element>, lo: nat, hi: nat) {
    forall x :: x in es ==> lo <= Rank(x) <= hi && WellFormedElement(x)
  }

  /** Every element a node contributes belongs to the pass's category and is in canonical form. */
  lemma EmitWellFormed(doc: Doc, pass: Pass, i: nat)
    requires i < |doc|
    ensures RanksWithin(Emit(doc, pass, i), PassRank(pass), PassRank(pass))
  {
    match pass
    case HeadingsPass => HeadingAtWellFormed(doc, i);
    case ParagraphsPass => ParagraphAtWellFormed(doc, i);
    case BlockquotesPass => BlockquoteAtWellFormed(doc, i);
    case UnorderedListsPass => ListAtWellFormed(doc, i, false);
    case OrderedListsPass => ListAtWellFormed(doc, i, true);
    case TablesPass => TableAtWellFormed(doc, i);
    case CodeBlocksPass => CodeAtWellFormed(doc, i);
    case InlineCodesPass => CodeAtWellFormed(doc, i);
    case LinksPass => LinkAtWellFormed(doc, i);
    case ImagesPass => ImageAtWellFormed(doc, i);
  }

  /** An element of the first `n` parts comes from one of them. */
  lemma {:induction false} ConcatMember(parts: seq<seq<Element>>, n: nat, x: Element) returns (i: nat)
    requires n <= |parts| && x in Concat(parts, n)
    ensures i < n && x in parts[i]
  {
    if x in Concat(parts, n - 1) {
      i := ConcatMember(parts, n - 1, x);
    } else {
      i := n - 1;
    }
  }

  /** Every element of the first `n` parts is in their concatenation. */
  lemma {:induction false} ConcatHas(parts: seq<seq<Element>>, n: nat, i: nat, x: Element)
    requires i < n <= |parts| && x in parts[i]
    ensures x in Concat(parts, n)
  {
    if i < n - 1 {
      ConcatHas(parts, n - 1, i, x);
    }
  }

  /** An element a pass emits over the first `n` nodes comes from one of them. */
  lemma EmittedBySomeNode(doc: Doc, pass: Pass, n: nat, x: Element) returns (i: nat)
    requires n <= |doc| && x in Scan(doc, pass, n)
    ensures i < n && x in Emit(doc, pass, i)
  {
    i := ConcatMember(Contributions(doc, pass), n, x);
  }

  /** What one of the first `n` nodes contributes, the pass emits. */
  lemma NodeOutputEmitted(doc: Doc, pass: Pass, n: nat, i: nat, x: Element)
    requires i < n <= |doc| && x in Emit(doc, pass, i)
    ensures x in Scan(doc, pass, n)
  {
    ConcatHas(Contributions(doc, pass), n, i, x);
  }

  lemma AppendFitting(a: seq<Element>, b: seq<Element>, rank: nat)
    requires RanksWithin(a, rank, rank) && RanksWithin(b, rank, rank)
    ensures RanksWithin(a + b, rank, rank)
  {
    forall x | x in a + b ensures rank <= Rank(x) <= rank && WellFormedElement(x) {
      assert x in a || x in b;
    }
  }

  /** Parts that each keep to one rank concatenate to a sequence that does too. */
  lemma {:induction false} ConcatFitting(parts: seq<seq<Element>>, n: nat, rank: nat)
    requires n <= |parts|
    requires forall k :: 0 <= k < n ==> RanksWithin(parts[k], rank, rank)
    ensures RanksWithin(Concat(parts, n), rank, rank)
  {
    if n > 0 {
      ConcatFitting(parts, n - 1, rank);
      AppendFitting(Concat(parts, n - 1), parts[n - 1], rank);
    }
  }

  /** A pass emits only elements of its own category, all in canonical form. */
  lemma ScanWellFormed(doc: Doc, pass: Pass, n: nat)
    requires n <= |doc|
    ensures RanksWithin(Scan(doc, pass, n), PassRank(pass), PassRank(pass))
  {
    var parts := Contributions(doc, pass);
    forall k | 0 <= k < n ensures RanksWithin(parts[k], PassRank(pass), PassRank(pass)) {
      EmitWellFormed(doc, pass, k);
    }
    ConcatFitting(parts, n, PassRank(pass));
  }

  lemma ConcatSorted(a: seq<Element>, b: seq<Element>, k: nat)
    requires RankSorted(a) && RankSorted(b)
    requires forall x :: x in a ==> Rank(x) <= k
    requires forall x :: x in b ==> k <= Rank(x)
    ensures RankSorted(a + b)
  {
    var s := a + b;
    forall i, j | 0 <= i < j < |s| ensures Rank(s[i]) <= Rank(s[j]) {
      if j < |a| {
        assert s[i] == a[i] && s[j] == a[j];
      } else if i >= |a| {
        assert s[i] == b[i - |a|] && s[j] == b[j - |a|];
      } else {
        assert s[i] in a && s[j] in b;
      }
    }
  }

  /** Appending a group whose ranks follow the ranks so far keeps the sequence sorted. */
  lemma AppendGroup(a: seq<Element>, b: seq<Element>, lo: nat, k: nat, m: nat, hi: nat)
    requires RankSorted(a) && RankSorted(b) && lo <= k <= m <= hi
    requires RanksWithin(a, lo, k) && RanksWithin(b, m, hi)
    ensures RankSorted(a + b) && RanksWithin(a + b, lo, hi)
  {
    ConcatSorted(a, b, k);
    forall x | x in a + b ensures lo <= Rank(x) <= hi && WellFormedElement(x) {
      assert x in a || x in b;
    }
  }

  lemma PassSorted(doc: Doc, pass: Pass)
    ensures RankSorted(RunPass(doc, pass))
    ensures RanksWithin(RunPass(doc, pass), PassRank(pass), PassRank(pass))
  {
    ScanWellFormed(doc, pass, |doc|);
    var s := RunPass(doc, pass);
    forall i, j | 0 <= i < j < |s| ensures Rank(s[i]) <= Rank(s[j]) {
      assert s[i] in s && s[j] in s;
    }
  }

  /** Ten groups, each sorted and within its own rank, concatenated in rank order. */
  lemma GroupsInOrder(h: seq<Element>, p: seq<Element>, b: seq<Element>, ul: seq<Element>, ol: seq<Element>,
                      t: seq<Element>, cb: seq<Element>, ic: seq<Element>, l: seq<Element>, im: seq<Element>)
    requires RankSorted(h) && RanksWithin(h, PassRank(HeadingsPass), PassRank(HeadingsPass))
    requires RankSorted(p) && RanksWithin(p, PassRank(ParagraphsPass), PassRank(ParagraphsPass))
    requires RankSorted(b) && RanksWithin(b, PassRank(BlockquotesPass), PassRank(BlockquotesPass))
    requires RankSorted(ul) && RanksWithin(ul, PassRank(UnorderedListsPass), PassRank(UnorderedListsPass))
    requires RankSorted(ol) && RanksWithin(ol, PassRank(OrderedListsPass), PassRank(OrderedListsPass))
    requires RankSorted(t) && RanksWithin(t, PassRank(TablesPass), PassRank(TablesPass))
    requires RankSorted(cb) && RanksWithin(cb, PassRank(CodeBlocksPass), PassRank(CodeBlocksPass))
    requires RankSorted(ic) && RanksWithin(ic, PassRank(InlineCodesPass), PassRank(InlineCodesPass))
    requires RankSorted(l) && RanksWithin(l, PassRank(LinksPass), PassRank(LinksPass))
    requires RankSorted(im) && RanksWithin(im, PassRank(ImagesPass), PassRank(ImagesPass))
    ensures var s := h + p + b + (ul + ol) + t + cb + ic + l + im;
      RankSorted(s) && RanksWithin(s, 5, 14)
  {
    AppendGroup(ul, ol, PassRank(UnorderedListsPass), PassRank(UnorderedListsPass), PassRank(OrderedListsPass), PassRank(OrderedListsPass));
    AppendGroup(h, p, PassRank(HeadingsPass), PassRank(HeadingsPass), PassRank(ParagraphsPass), PassRank(ParagraphsPass));
    AppendGroup(h + p, b, PassRank(HeadingsPass), PassRank(ParagraphsPass), PassRank(BlockquotesPass), PassRank(BlockquotesPass));
    AppendGroup(h + p + b, ul + ol, PassRank(HeadingsPass), PassRank(BlockquotesPass), PassRank(UnorderedListsPass), PassRank(OrderedListsPass));
    AppendGroup(h + p + b + (ul + ol), t, PassRank(HeadingsPass), PassRank(OrderedListsPass), PassRank(TablesPass), PassRank(TablesPass));
    AppendGroup(h + p + b + (ul + ol) + t, cb, PassRank(HeadingsPass), PassRank(TablesPass), PassRank(CodeBlocksPass), PassRank(CodeBlocksPass));
    AppendGroup(h + p + b + (ul + ol) + t + cb, ic, PassRank(HeadingsPass), PassRank(CodeBlocksPass), PassRank(InlineCodesPass), PassRank(InlineCodesPass));
    AppendGroup(h + p + b + (ul + ol) + t + cb + ic, l, PassRank(HeadingsPass), PassRank(InlineCodesPass), PassRank(LinksPass), PassRank(LinksPass));
    AppendGroup(h + p + b + (ul + ol) + t + cb + ic + l, im, PassRank(HeadingsPass), PassRank(LinksPass), PassRank(ImagesPass), PassRank(ImagesPass));
  }

  /** The content phase groups its output by category, in pass order. */
  lemma ContentGrouped(doc: Doc)
    ensures RankSorted(ContentElements(doc)) && RanksWithin(ContentElements(doc), 5, 14)
  {
    PassSorted(doc, HeadingsPass);
    PassSorted(doc, ParagraphsPass);
    PassSorted(doc, BlockquotesPass);
    PassSorted(doc, UnorderedListsPass);
    PassSorted(doc, OrderedListsPass);
    PassSorted(doc, TablesPass);
    PassSorted(doc, CodeBlocksPass);
    PassSorted(doc, InlineCodesPass);
    PassSorted(doc, LinksPass);
    PassSorted(doc, ImagesPass);
    GroupsInOrder(RunPass(doc, HeadingsPass), RunPass(doc, ParagraphsPass), RunPass(doc, BlockquotesPass),
                  RunPass(doc, UnorderedListsPass), RunPass(doc, OrderedListsPass), RunPass(doc, TablesPass),
                  RunPass(doc, CodeBlocksPass), RunPass(doc, InlineCodesPass), RunPass(doc, LinksPass),
                  RunPass(doc, ImagesPass));
  }

  /**
   * The parser's output is grouped by category: all metadata first, each
   * metadata kind at most once and in its fixed order, then the content passes
   * in pass order; and every element is in canonical form.
   */
  lemma HtmlOutputOrdered(doc: Doc)
    ensures var es := Metadata(doc) + ContentElements(doc);
      && RankSorted(es)
      && (forall i, j :: 0 <= i < j < |es| && IsMetadata(es[j]) ==> IsMetadata(es[i]) && Rank(es[i]) < Rank(es[j]))
      && (forall x :: x in es ==> WellFormedElement(x))
  {
    MetadataShape(doc);
    ContentGrouped(doc);
    MetadataThenContent(Metadata(doc), ContentElements(doc));
  }

  /** Strictly ranked metadata followed by sorted content elements. */
  lemma MetadataThenContent(m: seq<Element>, c: seq<Element>)
    requires StrictlyRanked(m) && forall x :: x in m ==> IsMetadata(x) && WellFormedElement(x)
    requires RankSorted(c) && RanksWithin(c, 5, 14)
    ensures var es := m + c;
      && RankSorted(es)
      && (forall i, j :: 0 <= i < j < |es| && IsMetadata(es[j]) ==> IsMetadata(es[i]) && Rank(es[i]) < Rank(es[j]))
      && (forall x :: x in es ==> WellFormedElement(x))
  {
    assert forall x :: x in m ==> Rank(x) <= 4 by {
      forall x | x in m ensures Rank(x) <= 4 { MetadataRanksFirst(x); }
    }
    ConcatSorted(m, c, 4);
    var es := m + c;
    forall i, j | 0 <= i < j < |es| && IsMetadata(es[j]) ensures IsMetadata(es[i]) && Rank(es[i]) < Rank(es[j]) {
      if j >= |m| {
        assert es[j] in c;
        MetadataRanksFirst(es[j]);
      } else {
        assert es[i] == m[i] && es[j] == m[j];
        MetadataRanksFirst(es[i]);
        MetadataRanksFirst(es[j]);
      }
    }
    forall x | x in es ensures WellFormedElement(x) {
      assert x in m || x in c;
    }
  }

  /** Headings: every h1–h6 with non-empty trimmed text, its level the tag's digit. */
  lemma HeadingsRule(doc: Doc)
    ensures forall x :: x in RunPass(doc, HeadingsPass) <==>
      exists i :: 0 <= i < |doc| && doc[i].tag in HeadingTags && Trim(doc[i].text) != ""
        && x == Heading(HeadingLevel(doc[i].tag), Trim(doc[i].text))
  {
    forall x | x in RunPass(doc, HeadingsPass)
      ensures exists i :: 0 <= i < |doc| && doc[i].tag in HeadingTags && Trim(doc[i].text) != ""
                  && x == Heading(HeadingLevel(doc[i].tag), Trim(doc[i].text))
    {
      var i := EmittedBySomeNode(doc, HeadingsPass, |doc|, x);
      assert doc[i].tag in HeadingTags && Trim(doc[i].text) != "" && x == Heading(HeadingLevel(doc[i].tag), Trim(doc[i].text));
    }
    forall i | 0 <= i < |doc| && doc[i].tag in HeadingTags && Trim(doc[i].text) != ""
      ensures Heading(HeadingLevel(doc[i].tag), Trim(doc[i].text)) in RunPass(doc, HeadingsPass)
    {
      NodeOutputEmitted(doc, HeadingsPass, |doc|, i, Heading(HeadingLevel(doc[i].tag), Trim(doc[i].text)));
    }
  }

  /** Paragraphs: every `p` with non-empty trimmed text. */
  lemma ParagraphsRule(doc: Doc)
    ensures forall x :: x in RunPass(doc, ParagraphsPass) <==>
      exists i :: 0 <= i < |doc| && doc[i].tag == "p" && Trim(doc[i].text) != "" && x == Paragraph(Trim(doc[i].text))
  {
    forall x | x in RunPass(doc, ParagraphsPass)
      ensures exists i :: 0 <= i < |doc| && doc[i].tag == "p" && Trim(doc[i].text) != "" && x == Paragraph(Trim(doc[i].text))
    {
      var i := EmittedBySomeNode(doc, ParagraphsPass, |doc|, x);
      assert doc[i].tag == "p" && Trim(doc[i].text) != "" && x == Paragraph(Trim(doc[i].text));
    }
    forall i | 0 <= i < |doc| && doc[i].tag == "p" && Trim(doc[i].text) != ""
      ensures Paragraph(Trim(doc[i].text)) in RunPass(doc, ParagraphsPass)
    {
      NodeOutputEmitted(doc, ParagraphsPass, |doc|, i, Paragraph(Trim(doc[i].text)));
    }
  }

  /** Blockquotes: every `blockquote` with non-empty trimmed text. */
  lemma BlockquotesRule(doc: Doc)
    ensures forall x :: x in RunPass(doc, BlockquotesPass) <==>
      exists i :: 0 <= i < |doc| && doc[i].tag == "blockquote" && Trim(doc[i].text) != "" && x == Blockquote(Trim(doc[i].text))
  {
    forall x | x in RunPass(doc, BlockquotesPass)
      ensures exists i :: 0 <= i < |doc| && doc[i].tag == "blockquote" && Trim(doc[i].text) != "" && x == Blockquote(Trim(doc[i].text))
    {
      var i := EmittedBySomeNode(doc, BlockquotesPass, |doc|, x);
      assert doc[i].tag == "blockquote" && Trim(doc[i].text) != "" && x == Blockquote(Trim(doc[i].text));
    }
    forall i | 0 <= i < |doc| && doc[i].tag == "blockquote" && Trim(doc[i].text) != ""
      ensures Blockquote(Trim(doc[i].text)) in RunPass(doc, BlockquotesPass)
    {
      NodeOutputEmitted(doc, BlockquotesPass, |doc|, i, Blockquote(Trim(doc[i].text)));
    }
  }

  /** Lists: every `ul` (unordered pass) or `ol` (ordered pass) with at least one non-empty item. */
  lemma ListsRule(doc: Doc, ordered: bool)
    ensures forall x :: x in RunPass(doc, ListPass(ordered)) <==>
      exists i :: 0 <= i < |doc| && doc[i].tag == ListTag(ordered) && ListItems(doc, i) != [] && x == List(ListItems(doc, i), ordered)
  {
    var pass := ListPass(ordered);
    forall x | x in RunPass(doc, pass)
      ensures exists i :: 0 <= i < |doc| && doc[i].tag == ListTag(ordered) && ListItems(doc, i) != [] && x == List(ListItems(doc, i), ordered)
    {
      var i := EmittedBySomeNode(doc, pass, |doc|, x);
      assert doc[i].tag == ListTag(ordered) && ListItems(doc, i) != [] && x == List(ListItems(doc, i), ordered);
    }
    forall i | 0 <= i < |doc| && doc[i].tag == ListTag(ordered) && ListItems(doc, i) != []
      ensures List(ListItems(doc, i), ordered) in RunPass(doc, pass)
    {
      assert Emit(doc, pass, i) == ListAt(doc, i, ordered);
      NodeOutputEmitted(doc, pass, |doc|, i, List(ListItems(doc, i), ordered));
    }
  }

  /** Tables: every `table` with at least one header or one non-empty row. */
  lemma TablesRule(doc: Doc)
    ensures forall x :: x in RunPass(doc, TablesPass) <==>
      exists i :: 0 <= i < |doc| && doc[i].tag == "table" && (Headers(doc, i) != [] || TableRows(doc, i, |doc|) != [])
        && x == Table(Headers(doc, i), TableRows(doc, i, |doc|))
  {
    forall x | x in RunPass(doc, TablesPass)
      ensures exists i :: 0 <= i < |doc| && doc[i].tag == "table" && (Headers(doc, i) != [] || TableRows(doc, i, |doc|) != [])
                  && x == Table(Headers(doc, i), TableRows(doc, i, |doc|))
    {
      var i := EmittedBySomeNode(doc, TablesPass, |doc|, x);
      assert doc[i].tag == "table" && (Headers(doc, i) != [] || TableRows(doc, i, |doc|) != [])
        && x == Table(Headers(doc, i), TableRows(doc, i, |doc|));
    }
    forall i | 0 <= i < |doc| && doc[i].tag == "table" && (Headers(doc, i) != [] || TableRows(doc, i, |doc|) != [])
      ensures Table(Headers(doc, i), TableRows(doc, i, |doc|)) in RunPass(doc, TablesPass)
    {
      NodeOutputEmitted(doc, TablesPass, |doc|, i, Table(Headers(doc, i), TableRows(doc, i, |doc|)));
    }
  }

  /** Code blocks: exactly one block element per `pre`, none of them inline. */
  lemma {:induction false} CodeBlocksOnePerPre(doc: Doc, n: nat)
    requires n <= |doc|
    ensures |Scan(doc, CodeBlocksPass, n)| == CountSelected(doc, WholeDocument, Tag("pre"), n)
    ensures forall x :: x in Scan(doc, CodeBlocksPass, n) ==> x.Code? && !x.inline
  {
    if n > 0 {
      CodeBlocksOnePerPre(doc, n - 1);
    }
  }

  /** Inline code: every `code` whose direct parent is not `pre`, with non-empty trimmed text. */
  lemma InlineCodesRule(doc: Doc)
    ensures forall x :: x in RunPass(doc, InlineCodesPass) <==>
      exists i :: 0 <= i < |doc| && doc[i].tag == "code" && !ParentIsPre(doc, i) && Trim(doc[i].text) != ""
        && x == Code(Trim(doc[i].text), None, true)
  {
    forall x | x in RunPass(doc, InlineCodesPass)
      ensures exists i :: 0 <= i < |doc| && doc[i].tag == "code" && !ParentIsPre(doc, i) && Trim(doc[i].text) != ""
                  && x == Code(Trim(doc[i].text), None, true)
    {
      var i := EmittedBySomeNode(doc, InlineCodesPass, |doc|, x);
      assert doc[i].tag == "code" && !ParentIsPre(doc, i) && Trim(doc[i].text) != "" && x == Code(Trim(doc[i].text), None, true);
    }
    forall i | 0 <= i < |doc| && doc[i].tag == "code" && !ParentIsPre(doc, i) && Trim(doc[i].text) != ""
      ensures Code(Trim(doc[i].text), None, true) in RunPass(doc, InlineCodesPass)
    {
      NodeOutputEmitted(doc, InlineCodesPass, |doc|, i, Code(Trim(doc[i].text), None, true));
    }
  }

  /**
   * A `code` element whose parent is a `pre` is never emitted by the inline
   * pass; when it is the first `code` inside that `pre`, the block pass emits it,
   * untrimmed, with the language of its class.
   */
  lemma CodeInsidePre(doc: Doc, c: nat, p: nat)
    requires c < |doc| && doc[c].tag == "code"
    requires ParentOf(doc, c) == Some(p) && doc[p].tag == "pre"
    ensures InlineCodeAt(doc, c) == []
    ensures FirstMatch(doc, DescendantsOf(p), Tag("code")).Some?
    ensures FirstMatch(doc, DescendantsOf(p), Tag("code")) == Some(c) ==>
      CodeBlockAt(doc, p) == [Code(doc[c].text, ExtractCodeLanguage(doc[c]), false)]
  {
    assert Selects(doc, DescendantsOf(p), Tag("code"), c);
  }

  /** Links: every `a[href]` whose href and trimmed text are both non-empty. */
  lemma LinksRule(doc: Doc)
    ensures forall x :: x in RunPass(doc, LinksPass) <==>
      exists i :: 0 <= i < |doc| && doc[i].tag == "a" && "href" in doc[i].attrs && doc[i].attrs["href"] != ""
        && Trim(doc[i].text) != "" && x == Link(Trim(doc[i].text), doc[i].attrs["href"])
  {
    forall x | x in RunPass(doc, LinksPass)
      ensures exists i :: 0 <= i < |doc| && doc[i].tag == "a" && "href" in doc[i].attrs && doc[i].attrs["href"] != ""
                  && Trim(doc[i].text) != "" && x == Link(Trim(doc[i].text), doc[i].attrs["href"])
    {
      var i := EmittedBySomeNode(doc, LinksPass, |doc|, x);
      assert doc[i].tag == "a" && "href" in doc[i].attrs && doc[i].attrs["href"] != ""
        && Trim(doc[i].text) != "" && x == Link(Trim(doc[i].text), doc[i].attrs["href"]);
    }
    forall i | 0 <= i < |doc| && doc[i].tag == "a" && "href" in doc[i].attrs && doc[i].attrs["href"] != "" && Trim(doc[i].text) != ""
      ensures Link(Trim(doc[i].text), doc[i].attrs["href"]) in RunPass(doc, LinksPass)
    {
      NodeOutputEmitted(doc, LinksPass, |doc|, i, Link(Trim(doc[i].text), doc[i].attrs["href"]));
    }
  }

  /** The image has an alt text that qualifies. */
  predicate HasQualifyingAlt(n: Node) {
    match Attr(n, "alt")
    case Some(alt) => AltQualifies(alt)
    case None => false
  }

  /** Images: an `img` yields at most two descriptions, none of them blank. */
  lemma ImageRule(doc: Doc, i: nat)
    requires i < |doc| && doc[i].tag == "img"
    ensures |ImageAt(doc, i)| <= 2
    ensures forall x :: x in ImageAt(doc, i) ==> x.ImageDescription? && Trim(x.text) != ""
  {
    assert ImageAt(doc, i) == AltDescription(doc[i]) + CaptionDescription(doc, i);
  }

  /** A qualifying alt text is the image's first description, verbatim. */
  lemma ImageAltFirst(doc: Doc, i: nat, alt: string)
    requires i < |doc| && doc[i].tag == "img"
    requires Attr(doc[i], "alt") == Some(alt) && AltQualifies(alt)
    ensures |ImageAt(doc, i)| >= 1 && ImageAt(doc, i)[0] == ImageDescription(alt)
  {
  }

  /**
   * Without a qualifying alt text, an image is described exactly when the first
   * `figcaption` sharing its parent element has non-blank text, and then by
   * that text, trimmed.
   */
  lemma ImageCaptionOnly(doc: Doc, i: nat)
    requires i < |doc| && doc[i].tag == "img" && !HasQualifyingAlt(doc[i])
    ensures ImageAt(doc, i) != [] <==>
      exists p, c :: ParentOf(doc, i) == Some(p) && FirstMatch(doc, ChildrenOf(p), Tag("figcaption")) == Some(c) && Trim(doc[c].text) != ""
    ensures forall p, c :: ParentOf(doc, i) == Some(p) && FirstMatch(doc, ChildrenOf(p), Tag("figcaption")) == Some(c) && Trim(doc[c].text) != "" ==>
      ImageAt(doc, i) == [ImageDescription(Trim(doc[c].text))]
  {
    assert AltDescription(doc[i]) == [];
  }

  /** The caption search stops at the first caption: a blank one hides any later one. */
  lemma BlankFirstCaptionHidesLater(doc: Doc, i: nat, p: nat, c: nat)
    requires i < |doc| && doc[i].tag == "img" && ParentOf(doc, i) == Some(p)
    requires FirstMatch(doc, ChildrenOf(p), Tag("figcaption")) == Some(c) && Trim(doc[c].text) == ""
    ensures ImageAt(doc, i) == AltDescription(doc[i])
  {
  }
}
