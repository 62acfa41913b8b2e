/** The value of an XML tree: what a chain of `mxml_node_t` structures stands for. */
module XmlTree {
  import opened CStrings

  /** `value` is None for an attribute without a value (a NULL pointer in the source). */
  datatype Attr = Attr(name: string, value: Option<string>)

  /** Comments, CDATA sections, declarations and processing instructions are elements whose name
      holds the whole tag text. */
  datatype Node =
    | Element(name: string, attrs: seq<Attr>, kids: seq<Node>)
    | Opaque(data: string)
    | Text(whitespace: bool, data: string)

  predicate StartsWith(s: string, prefix: string) {
    |prefix| <= |s| && s[..|prefix|] == prefix
  }

  predicate HasAttr(attrs: seq<Attr>, name: string) {
    exists i :: 0 <= i < |attrs| && attrs[i].name == name
  }

  predicate DistinctNames(attrs: seq<Attr>) {
    forall i, j :: 0 <= i < j < |attrs| ==> attrs[i].name != attrs[j].name
  }

  /** The attribute list after `mxmlElementSetAttr`: the value of `name` is replaced, or the attribute is
      appended. */
  function SetAttr(attrs: seq<Attr>, name: string, value: Option<string>): (r: seq<Attr>) {
    if attrs == [] then [Attr(name, value)]
    else if attrs[0].name == name then [Attr(name, value)] + attrs[1..]
    else [attrs[0]] + SetAttr(attrs[1..], name, value)
  }

  /** `mxmlElementGetAttr`: the first attribute of that name. */
  function GetAttr(attrs: seq<Attr>, name: string): (r: Option<string>) {
    if attrs == [] then None
    else if attrs[0].name == name then attrs[0].value
    else GetAttr(attrs[1..], name)
  }
}
