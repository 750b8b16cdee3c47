/**
 * The parsed HTML tree as the extractor sees it. The tree parser and its CSS
 * selector engine are outside the model; what the extractor gets from them is
 * a list of the document's elements in document order, each with its tag name,
 * its attributes, the concatenation of all text beneath it, and the index of
 * its parent element (`None` when the parent is the document root).
 */
module HtmlTree {
  import opened Options
  import opened Strings

  datatype Node = Node(tag: string, attrs: map<string, string>, text: string, parent: Option<nat>)

  /** The document's elements in document (pre-)order. */
  type Doc = seq<Node>

  /** `element.value().attr(name)`. */
  function Attr(n: Node, name: string): Option<string> {
    if name in n.attrs then Some(n.attrs[name]) else None
  }

  /**
   * The parent element of node `i`. In a tree listed in document order a parent
   * precedes its children; an index that does not is read as "no parent element".
   */
  function ParentOf(doc: Doc, i: nat): (p: Option<nat>)
    requires i < |doc|
    ensures p.Some? ==> p.value < i
  {
    match doc[i].parent
    case Some(q) => if q < i then Some(q) else None
    case None => None
  }

  /** Node `d` lies strictly beneath node `a`. */
  predicate IsDescendant(doc: Doc, d: nat, a: nat)
    requires d < |doc|
    decreases d
  {
    match ParentOf(doc, d)
    case None => false
    case Some(p) => p == a || IsDescendant(doc, p, a)
  }

  /**
   * The CSS selectors the extractor uses: `tag`, `t1, t2, ...`, `tag[attr]`,
   * `tag[attr='value']`. In an HTML document the value of some attributes
   * (`http-equiv` among them) is compared ignoring ASCII case, and others
   * (`name`) exactly; the last variant is the first kind.
   */
  datatype Selector =
    | Tag(name: string)
    | AnyTag(names: set<string>)
    | TagWithAttr(name: string, attr: string)
    | TagWithAttrValue(name: string, attr: string, value: string)
    | TagWithAttrValueAnyCase(name: string, attr: string, value: string)

  predicate Matches(n: Node, sel: Selector) {
    match sel
    case Tag(name) => n.tag == name
    case AnyTag(names) => n.tag in names
    case TagWithAttr(name, attr) => n.tag == name && attr in n.attrs
    case TagWithAttrValue(name, attr, value) => n.tag == name && attr in n.attrs && n.attrs[attr] == value
    case TagWithAttrValueAnyCase(name, attr, value) =>
      n.tag == name && attr in n.attrs && AsciiLower(n.attrs[attr]) == AsciiLower(value)
  }

  /**
   * Where a query looks: the whole document (`document.select`), the elements
   * beneath one element (`element.select`), or the children of one element.
   */
  datatype Scope = WholeDocument | DescendantsOf(root: nat) | ChildrenOf(parent: nat)

  /** Node `i` is one of the results of querying `sel` within `scope`. */
  predicate Selects(doc: Doc, scope: Scope, sel: Selector, i: nat)
    requires i < |doc|
  {
    && Matches(doc[i], sel)
    && match scope
       case WholeDocument => true
       case DescendantsOf(root) => IsDescendant(doc, i, root)
       case ChildrenOf(parent) => ParentOf(doc, i) == Some(parent)
  }

  /** `select(sel).next()`: the first result in document order, if any. */
  function FirstMatch(doc: Doc, scope: Scope, sel: Selector): (r: Option<nat>)
    ensures r.Some? ==> r.value < |doc| && Selects(doc, scope, sel, r.value)
    ensures r.Some? ==> forall j :: 0 <= j < r.value ==> !Selects(doc, scope, sel, j)
    ensures r.None? <==> forall j :: 0 <= j < |doc| ==> !Selects(doc, scope, sel, j)
  {
    FirstMatchFrom(doc, scope, sel, 0)
  }

  function FirstMatchFrom(doc: Doc, scope: Scope, sel: Selector, k: nat): (r: Option<nat>)
    requires k <= |doc|
    ensures r.Some? ==> k <= r.value < |doc| && Selects(doc, scope, sel, r.value)
    ensures r.Some? ==> forall j :: k <= j < r.value ==> !Selects(doc, scope, sel, j)
    ensures r.None? <==> forall j :: k <= j < |doc| ==> !Selects(doc, scope, sel, j)
    decreases |doc| - k
  {
    if k == |doc| then None
    else if Selects(doc, scope, sel, k) then Some(k)
    else FirstMatchFrom(doc, scope, sel, k + 1)
  }

  /** The first result is the unique matching node with no matching node before it. */
  lemma FirstMatchUnique(doc: Doc, scope: Scope, sel: Selector, j: nat)
    requires j < |doc| && Selects(doc, scope, sel, j)
    requires forall k :: 0 <= k < j ==> !Selects(doc, scope, sel, k)
    ensures FirstMatch(doc, scope, sel) == Some(j)
  {
  }
}
