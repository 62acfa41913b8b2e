/** What `mxml_write_node` emits, without a whitespace callback (mxml-file.c). */
module Writer {
  import opened CStrings
  import opened Entities
  import opened XmlTree

  function EscapeChar(c: char): (s: string) {
    match GetName(c)
    case Some(name) => "&" + name + ";"
    case None => [c]
  }

  /** `mxml_write_string`. */
  function Escape(s: string): (r: string) {
    if s == "" then "" else EscapeChar(s[0]) + Escape(s[1..])
  }

  /** The part of a quoted name before its end quote. */
  function EscapeUntil(s: string, quote: char): (r: string) {
    if s == "" || s[0] == quote then "" else EscapeChar(s[0]) + EscapeUntil(s[1..], quote)
  }

  /** `mxml_write_name`: names are emitted raw unless they begin with a quote. */
  function WriteName(s: string): (r: string) {
    if s != "" && (s[0] == '\"' || s[0] == '\'') then [s[0]] + EscapeUntil(s[1..], s[0]) + [s[0]]
    else s
  }

  /** Comments, CDATA sections and processing instructions are emitted without entities. */
  predicate IsRawTag(name: string) {
    StartsWith(name, "?") || StartsWith(name, "!--") || StartsWith(name, "![CDATA[")
  }

  /** Tags starting with `!` or `?` have no end tag. */
  predicate HasNoEndTag(name: string) {
    StartsWith(name, "!") || StartsWith(name, "?")
  }

  function AttrWidth(a: Attr): (width: int) {
    |a.name| + (if a.value.Some? then |a.value.value| + 3 else 0)
  }

  function WriteAttr(a: Attr): (r: string) {
    WriteName(a.name) + (if a.value.Some? then "=\"" + Escape(a.value.value) + "\"" else "")
  }

  /** Attributes are separated by a blank, or by a newline when the wrap margin would be passed. */
  function WriteAttrs(attrs: seq<Attr>, col: int, wrap: int): (r: (string, int))
  {
    if attrs == [] then ("", col)
    else
      var width := AttrWidth(attrs[0]);
      var brk := wrap > 0 && col + width > wrap;
      var more := WriteAttrs(attrs[1..], (if brk then 0 else col + 1) + width, wrap);
      ((if brk then "\n" else " ") + WriteAttr(attrs[0]) + more.0, more.1)
  }

  /** The text emitted for a node and the column reached, starting in column `col`. */
  function WriteNode(n: Node, col: int, wrap: int): (r: (string, int))
    decreases n, 0
  {
    match n
    case Opaque(data) => (Escape(data), col + |data|)
    case Text(whitespace, data) =>
      var brk := wrap > 0 && col > wrap;
      if whitespace && col > 0
      then ((if brk then "\n" else " ") + Escape(data), (if brk then 0 else col + 1) + |data|)
      else (Escape(data), col + |data|)
    case Element(name, attrs, kids) =>
      var open := "<" + (if IsRawTag(name) then name else WriteName(name));
      var head := WriteAttrs(attrs, col + |name| + 1, wrap);
      if kids != [] then
        var body := WriteKids(kids, head.1 + 1, wrap);
        if HasNoEndTag(name) then (open + head.0 + ">" + body.0, body.1)
        else (open + head.0 + ">" + body.0 + "</" + Escape(name) + ">", body.1 + |name| + 3)
      else if HasNoEndTag(name) then (open + head.0 + ">", head.1 + 1)
      else (open + head.0 + " />", head.1 + 3)
  }

  function WriteKids(kids: seq<Node>, col: int, wrap: int): (r: (string, int))
    decreases kids, 1
  {
    if kids == [] then ("", col)
    else
      var first := WriteNode(kids[0], col, wrap);
      var more := WriteKids(kids[1..], first.1, wrap);
      (first.0 + more.0, more.1)
  }

  /** The complete text `mxmlSaveString` produces: a newline follows unless the column is 0. */
  function SaveText(n: Node, wrap: int): (r: string) {
    var w := WriteNode(n, 0, wrap);
    w.0 + (if w.1 > 0 then "\n" else "")
  }
}
