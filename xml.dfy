/** The slice of lxml's element tree that the extraction engine touches:
    qualified names, attributes, text and child elements, plus the query
    facilities (`xpath`, `findall`) as an oracle supplied by the caller. */
module Xml {
  import opened Results

  /** The Workday namespace bound to the `wd` prefix in every query. */
  const WorkdayNamespace: string := "urn:com.workday/bsvc"

  datatype QName = QName(ns: string, local: string)

  /** lxml's Clark notation for a qualified name: `{ns}local`, or just
      `local` when the name has no namespace. */
  function Clark(q: QName): string {
    if q.ns == "" then q.local else "{" + q.ns + "}" + q.local
  }

  datatype Attr = Attr(name: QName, value: string)

  datatype Element = Element(name: QName, attrs: seq<Attr>, text: Option<string>, children: seq<Element>)

  /** One result of an XPath query: an element, or a string result such as
      the value selected by an `@attr` step. lxml's string results have no
      `text`, `get` or child elements; the engine tests for that with
      `hasattr(..., 'text')`. */
  datatype Node = NElem(elem: Element) | NStr(str: string)

  /** The XPath 1.0 and ElementPath engines are not modelled: a query is
      whatever the caller's oracle returns for an element and a path string.
      `xpath` is `element.xpath(path, namespaces=ns)`, `findall` is
      `element.findall(path, namespaces=ns)`. */
  datatype Oracle = Oracle(xpath: (Element, string) -> seq<Node>, findall: (Element, string) -> seq<Element>)

  /** `element.get(key)`: the value of the attribute whose Clark name is
      `key`, or `None`. */
  function GetAttr(e: Element, key: string): (r: Option<string>)
    ensures r.None? <==> forall i :: 0 <= i < |e.attrs| ==> Clark(e.attrs[i].name) != key
    ensures r.Some? ==> exists i :: 0 <= i < |e.attrs| && Clark(e.attrs[i].name) == key && e.attrs[i].value == r.value
  {
    FindAttr(e.attrs, key)
  }

  function FindAttr(attrs: seq<Attr>, key: string): (r: Option<string>)
    ensures r.None? <==> forall i :: 0 <= i < |attrs| ==> Clark(attrs[i].name) != key
    ensures r.Some? ==> exists i :: 0 <= i < |attrs| && Clark(attrs[i].name) == key && attrs[i].value == r.value
  {
    if attrs == [] then None
    else if Clark(attrs[0].name) == key then Some(attrs[0].value)
    else
      var r := FindAttr(attrs[1..], key);
      assert forall i :: 1 <= i < |attrs| ==> attrs[i] == attrs[1..][i - 1];
      r
  }
}
