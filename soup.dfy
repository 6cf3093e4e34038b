/**
 * What the API sees of a parsed HTML page. CSS selection is not modelled: a fragment answers each
 * selector it matches with the first matching node, and a document lists, per selector, the
 * fragments it matches in document order.
 */
module Soup {
  import opened Wrappers
  import opened Py

  /** A CSS selector, such as `".titulo h1"`. */
  type Selector = string

  /** A matched tag: its text as `get_text(strip=True)` returns it, and its attributes. */
  datatype Node = Node(text: string, attrs: map<string, string>)

  /** A tag that selectors are applied to: for each selector it matches, the first matching node. */
  datatype Fragment = Fragment(found: map<Selector, Node>)

  /** A parsed page: the page as a whole and, for each selector, every matching tag in document order. */
  datatype Document = Document(root: Fragment, matches: map<Selector, seq<Fragment>>)

  /** Node `sel` of `f` has attribute `name`. */
  predicate HasAttr(f: Fragment, sel: Selector, name: string) {
    sel in f.found && name in f.found[sel].attrs
  }

  /** `fragment.select_one(sel)`: the first match, or `None`. */
  function SelectOne(f: Fragment, sel: Selector): Option<Node> {
    if sel in f.found then Some(f.found[sel]) else None
  }

  /** `soup.select(sel)`: every match, in document order. */
  function Select(doc: Document, sel: Selector): seq<Fragment> {
    if sel in doc.matches then doc.matches[sel] else []
  }

  /** `x.get_text(strip=True)` where `x` is the result of `select_one`; `None` has no such method. */
  function GetText(n: Option<Node>): (r: Result<string, Exception>)
    ensures r.Err? <==> n.None?
    ensures r.Err? ==> r.error == AttributeError("get_text")
    ensures r.Ok? ==> r.value == n.value.text
  {
    match n
    case None => Err(AttributeError("get_text"))
    case Some(node) => Ok(node.text)
  }

  /** `x[name]` where `x` is the result of `select_one`: `None` is not subscriptable, a missing attribute is a KeyError. */
  function Subscript(n: Option<Node>, name: string): (r: Result<string, Exception>)
    ensures r.Ok? <==> n.Some? && name in n.value.attrs
    ensures n.None? ==> r == Err(TypeError)
    ensures n.Some? && name !in n.value.attrs ==> r == Err(KeyError(name))
    ensures r.Ok? ==> r.value == n.value.attrs[name]
  {
    match n
    case None => Err(TypeError)
    case Some(node) => if name in node.attrs then Ok(node.attrs[name]) else Err(KeyError(name))
  }

  /** `tag.get(name)`: the attribute's value, or `None` when the tag has no such attribute. */
  function GetAttr(n: Node, name: string): Option<string> {
    if name in n.attrs then Some(n.attrs[name]) else None
  }
}
