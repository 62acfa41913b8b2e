/** `mxml_write_node` on linked nodes, `mxmlSaveString` and `mxmlSaveAllocString` (mxml-file.c), without a
    whitespace callback. */
module TreeWrite {
  import opened CStrings
  import opened Buffers
  import opened Entities
  import opened F = Forest
  import T = NodeTree
  import opened TreeSearch
  import opened TreeValue
  import opened Walk
  import opened XmlTree
  import W = Writer

  method PutAll(s: string, sink: StringSink)
    requires sink.Valid()
    modifies sink, sink.buffer
    ensures sink.Valid() && sink.text == old(sink.text) + s
  {
    for i := 0 to |s|
      invariant sink.Valid() && sink.text == old(sink.text) + s[..i]
    {
      sink.Putc(s[i]);
      assert s[..i] + [s[i]] == s[..i + 1];
    }
    assert s[..|s|] == s;
  }

  /** One character, or the entity that stands for it. */
  method WriteChar(c: char, sink: StringSink)
    requires sink.Valid()
    modifies sink, sink.buffer
    ensures sink.Valid() && sink.text == old(sink.text) + W.EscapeChar(c)
  {
    var name := GetName(c);
    if name.Some? {
      sink.Putc('&');
      PutAll(name.value, sink);
      sink.Putc(';');
    } else {
      sink.Putc(c);
    }
  }

  lemma EscapeFrom(s: string, i: nat)
    requires i < |s|
    ensures W.Escape(s[i..]) == W.EscapeChar(s[i]) + W.Escape(s[i + 1..])
    ensures s[i] != s[0] ==> W.EscapeUntil(s[i..], s[0]) == W.EscapeChar(s[i]) + W.EscapeUntil(s[i + 1..], s[0])
    ensures s[i] == s[0] ==> W.EscapeUntil(s[i..], s[0]) == ""
  {
    assert s[i..][0] == s[i] && s[i..][1..] == s[i + 1..];
  }

  /** `mxml_write_string`. */
  method WriteString(s: string, sink: StringSink)
    requires sink.Valid()
    modifies sink, sink.buffer
    ensures sink.Valid() && sink.text == old(sink.text) + W.Escape(s)
  {
    hide W.EscapeChar, W.Escape, StringSink.Valid;
    var i := 0;
    ghost var done := "";
    EmptyText();
    assert s[0..] == s && s[|s|..] == "";
    while i < |s|
      invariant 0 <= i <= |s| && sink.Valid() && sink.text == old(sink.text) + done
      invariant done + W.Escape(s[i..]) == W.Escape(s)
    {
      EscapeFrom(s, i);
      WriteChar(s[i], sink);
      done := done + W.EscapeChar(s[i]);
      i := i + 1;
    }
  }

  lemma EmptyText()
    ensures W.Escape("") == "" && forall c :: W.EscapeUntil("", c) == ""
  {
  }

  /** `mxml_write_name`. */
  method WriteName(s: string, sink: StringSink)
    requires sink.Valid()
    modifies sink, sink.buffer
    ensures sink.Valid() && sink.text == old(sink.text) + W.WriteName(s)
  {
    hide W.EscapeChar, W.EscapeUntil, StringSink.Valid;
    if s != "" && (s[0] == '\"' || s[0] == '\'') {
      var quote := s[0];
      sink.Putc(quote);
      QuotedRest(s, sink);
      sink.Putc(quote);
    } else {
      PutAll(s, sink);
    }
  }

  /** The loop of `mxml_write_name` over a quoted name. */
  method QuotedRest(s: string, sink: StringSink)
    requires sink.Valid() && s != ""
    modifies sink, sink.buffer
    ensures sink.Valid() && sink.text == old(sink.text) + W.EscapeUntil(s[1..], s[0])
  {
    hide W.EscapeChar, W.EscapeUntil, StringSink.Valid;
    ghost var done := "";
    var i := 1;
    EmptyText();
    assert s[|s|..] == "";
    while i < |s| && s[i] != s[0]
      invariant 1 <= i <= |s| && sink.Valid() && sink.text == old(sink.text) + done
      invariant done + W.EscapeUntil(s[i..], s[0]) == W.EscapeUntil(s[1..], s[0])
      decreases |s| - i
    {
      EscapeFrom(s, i);
      WriteChar(s[i], sink);
      done := done + W.EscapeChar(s[i]);
      i := i + 1;
    }
    if i < |s| {
      EscapeFrom(s, i);
    }
  }

  method WriteAttr(a: Attr, sink: StringSink)
    requires sink.Valid()
    modifies sink, sink.buffer
    ensures sink.Valid() && sink.text == old(sink.text) + W.WriteAttr(a)
  {
    hide W.WriteName, W.Escape;
    WriteName(a.name, sink);
    if a.value.Some? {
      sink.Putc('=');
      sink.Putc('\"');
      WriteString(a.value.value, sink);
      sink.Putc('\"');
    }
  }

  lemma AttrsFrom(attrs: seq<Attr>, i: nat, col: int, wrap: int)
    requires i < |attrs|
    ensures var width := W.AttrWidth(attrs[i]);
            var brk := wrap > 0 && col + width > wrap;
            var more := W.WriteAttrs(attrs[i + 1..], (if brk then 0 else col + 1) + width, wrap);
            W.WriteAttrs(attrs[i..], col, wrap) ==
            ((if brk then "\n" else " ") + W.WriteAttr(attrs[i]) + more.0, more.1)
  {
    hide W.WriteAttr, W.AttrWidth;
    var rest := attrs[i..];
    assert rest[0] == attrs[i] && rest[1..] == attrs[i + 1..];
  }

  lemma NoAttrs(col: int, wrap: int)
    ensures W.WriteAttrs([], col, wrap) == ("", col)
  {
  }

  /** A separator and an attribute. */
  method WriteOneAttr(attr: Attr, sink: StringSink, col0: int, wrap: int) returns (col: int)
    requires sink.Valid()
    modifies sink, sink.buffer
    ensures var width := W.AttrWidth(attr);
            var brk := wrap > 0 && col0 + width > wrap;
            && sink.Valid() && sink.text == old(sink.text) + ((if brk then "\n" else " ") + W.WriteAttr(attr))
            && col == (if brk then 0 else col0 + 1) + width
  {
    hide W.WriteAttr, StringSink.Valid;
    col := col0;
    var width := |attr.name|;
    if attr.value.Some? {
      width := width + |attr.value.value| + 3;
    }
    if wrap > 0 && col + width > wrap {
      sink.Putc('\n');
      col := 0;
    } else {
      sink.Putc(' ');
      col := col + 1;
    }
    WriteAttr(attr, sink);
    col := col + width;
  }

  method WriteAttrs(attrs: seq<Attr>, sink: StringSink, col0: int, wrap: int) returns (col: int)
    requires sink.Valid()
    modifies sink, sink.buffer
    ensures sink.Valid() && sink.text == old(sink.text) + W.WriteAttrs(attrs, col0, wrap).0
    ensures col == W.WriteAttrs(attrs, col0, wrap).1
  {
    hide W.WriteAttr, W.WriteAttrs, W.AttrWidth, StringSink.Valid;
    col := col0;
    var i := 0;
    ghost var done := "";
    assert attrs[0..] == attrs && attrs[|attrs|..] == [];
    while i < |attrs|
      invariant 0 <= i <= |attrs| && sink.Valid() && sink.text == old(sink.text) + done
      invariant done + W.WriteAttrs(attrs[i..], col, wrap).0 == W.WriteAttrs(attrs, col0, wrap).0
      invariant W.WriteAttrs(attrs[i..], col, wrap).1 == W.WriteAttrs(attrs, col0, wrap).1
    {
      AttrsFrom(attrs, i, col, wrap);
      ghost var brk := wrap > 0 && col + W.AttrWidth(attrs[i]) > wrap;
      done := done + ((if brk then "\n" else " ") + W.WriteAttr(attrs[i]));
      col := WriteOneAttr(attrs[i], sink, col, wrap);
      i := i + 1;
    }
    NoAttrs(col, wrap);
  }

  /** `mxml_write_node`: the text and the column of the tree below `node`. */
  method WriteNode(node: T.Node, sink: StringSink, col0: int, wrap: int, ghost f: T.Shape, ghost v: Values,
                   ghost tree: Node)
    returns (col: int)
    requires Wf(f) && T.Links(f) && node in f.kids && sink.Valid() && v == ValuesOf(f) && tree == Tree(f, v, node)
    modifies sink, sink.buffer
    ensures sink.Valid() && sink.text == old(sink.text) + W.WriteNode(tree, col0, wrap).0
    ensures col == W.WriteNode(tree, col0, wrap).1
    decreases f.height[node], 1
  {
    hide Wf, T.Links, StringSink.Valid, W.Escape;
    match node.value {
      case OpaqueValue(data) =>
        WriteString(data, sink);
        col := col0 + |data|;
      case TextValue(whitespace, data) =>
        col := WriteText(whitespace, data, sink, col0, wrap);
      case ElementValue(name, attrs) =>
        col := WriteElement(node, sink, col0, wrap, f, v, tree);
    }
  }

  method WriteText(whitespace: bool, data: string, sink: StringSink, col0: int, wrap: int) returns (col: int)
    requires sink.Valid()
    modifies sink, sink.buffer
    ensures var r := W.WriteNode(Text(whitespace, data), col0, wrap);
            sink.Valid() && sink.text == old(sink.text) + r.0 && col == r.1
  {
    hide StringSink.Valid, W.Escape;
    col := col0;
    if whitespace && col > 0 {
      if wrap > 0 && col > wrap {
        sink.Putc('\n');
        col := 0;
      } else {
        sink.Putc(' ');
        col := col + 1;
      }
    }
    WriteString(data, sink);
    col := col + |data|;
  }

  /** The tag up to its attributes. */
  method WriteOpen(name: string, attrs: seq<Attr>, sink: StringSink, col0: int, wrap: int) returns (col: int)
    requires sink.Valid()
    modifies sink, sink.buffer
    ensures var head := W.WriteAttrs(attrs, col0 + |name| + 1, wrap);
            && sink.Valid() && col == head.1
            && sink.text == old(sink.text) + ("<" + (if W.IsRawTag(name) then name else W.WriteName(name)) + head.0)
  {
    hide StringSink.Valid, W.WriteAttrs, W.WriteName, W.IsRawTag;
    sink.Putc('<');
    if W.IsRawTag(name) {
      PutAll(name, sink);
    } else {
      WriteName(name, sink);
    }
    col := col0 + |name| + 1;
    col := WriteAttrs(attrs, sink, col, wrap);
  }

  method WriteClose(name: string, sink: StringSink, col0: int) returns (col: int)
    requires sink.Valid()
    modifies sink, sink.buffer
    ensures sink.Valid() && sink.text == old(sink.text) + ("</" + W.Escape(name) + ">") && col == col0 + |name| + 3
  {
    hide StringSink.Valid, W.Escape;
    sink.Putc('<');
    sink.Putc('/');
    WriteString(name, sink);
    sink.Putc('>');
    col := col0 + |name| + 3;
  }

  lemma ValueAt(f: T.Shape, n: T.Node)
    requires n in f.kids
    ensures ValuesOf(f)[n] == n.value
  {
  }

  lemma ElementTree(f: T.Shape, v: Values, node: T.Node)
    requires Wf(f) && v.Keys == f.kids.Keys && node in f.kids && v[node].ElementValue?
    ensures Tree(f, v, node) == Element(v[node].name, v[node].attrs, KidTrees(f, v, node, 0, |f.kids[node]|))
  {
    hide Wf, KidTrees;
  }

  method WriteElement(node: T.Node, sink: StringSink, col0: int, wrap: int, ghost f: T.Shape, ghost v: Values,
                      ghost tree: Node)
    returns (col: int)
    requires Wf(f) && T.Links(f) && node in f.kids && sink.Valid() && node.value.ElementValue? && v == ValuesOf(f)
    requires tree == Tree(f, v, node)
    modifies sink, sink.buffer
    ensures sink.Valid() && sink.text == old(sink.text) + W.WriteNode(tree, col0, wrap).0
    ensures col == W.WriteNode(tree, col0, wrap).1
    decreases f.height[node], 0
  {
    hide Wf, T.Links, StringSink.Valid, Tree, KidTrees, ValuesOf, W.WriteNode, W.Escape, W.WriteName, W.WriteAttrs;
    hide W.WriteKids, W.IsRawTag, W.HasNoEndTag;
    var name := node.value.name;
    ghost var start := sink.text;
    ValueAt(f, node);
    ElementTree(f, v, node);
    WalkPointers(f, node);
    ElementText(name, node.value.attrs, tree.kids, col0, wrap);
    col := WriteOpen(name, node.value.attrs, sink, col0, wrap);
    ghost var out := sink.text[|start|..];
    if node.child != null {
      sink.Putc('>');
      col := col + 1;
      out := out + ">";
      assert sink.text == start + out;
      ghost var body := W.WriteKids(tree.kids, col, wrap);
      col := WriteChildren(node, sink, col, wrap, f, v, tree.kids);
      out := out + body.0;
      assert sink.text == start + out;
      if !W.HasNoEndTag(name) {
        col := WriteClose(name, sink, col);
        out := out + ("</" + W.Escape(name) + ">");
        assert sink.text == start + out;
      }
    } else if W.HasNoEndTag(name) {
      sink.Putc('>');
      col := col + 1;
      out := out + ">";
      assert sink.text == start + out;
    } else {
      PutAll(" />", sink);
      col := col + 3;
      out := out + " />";
      assert sink.text == start + out;
    }
  }

  /** The text of an element, piece by piece. */
  lemma ElementText(name: string, attrs: seq<Attr>, kids: seq<Node>, col: int, wrap: int)
    ensures var head := W.WriteAttrs(attrs, col + |name| + 1, wrap);
            var open := "<" + (if W.IsRawTag(name) then name else W.WriteName(name)) + head.0;
            var body := W.WriteKids(kids, head.1 + 1, wrap);
            W.WriteNode(Element(name, attrs, kids), col, wrap) ==
            if kids == [] then (if W.HasNoEndTag(name) then (open + ">", head.1 + 1) else (open + " />", head.1 + 3))
            else if W.HasNoEndTag(name) then (open + ">" + body.0, body.1)
            else (open + ">" + body.0 + ("</" + W.Escape(name) + ">"), body.1 + |name| + 3)
  {
    hide W.WriteAttrs, W.WriteName, W.WriteKids, W.Escape, W.IsRawTag, W.HasNoEndTag;
    var head := W.WriteAttrs(attrs, col + |name| + 1, wrap);
    var body := W.WriteKids(kids, head.1 + 1, wrap);
    var start := "<" + (if W.IsRawTag(name) then name else W.WriteName(name)) + head.0 + ">" + body.0;
    assert start + ("</" + W.Escape(name) + ">") == start + "</" + W.Escape(name) + ">";
  }

  lemma NthChild(f: T.Shape, v: Values, p: T.Node, j: nat)
    requires Wf(f) && T.Links(f) && v.Keys == f.kids.Keys && p in f.kids && j < |f.kids[p]|
    ensures var c, k := f.kids[p][j], |f.kids[p]|;
            && c in f.kids && c in f.height && 0 <= f.height[c] < f.height[p]
            && KidTrees(f, v, p, j, k) == [Tree(f, v, c)] + KidTrees(f, v, p, j + 1, k)
            && c.next == T.AtOrNull(f.kids[p], j + 1)
  {
    hide Wf, T.Links, NextSibling, PrevSibling, Tree;
    var c := f.kids[p][j];
    T.Domains(f);
    ChildOf(f, p, c);
    WalkPointers(f, c);
    Unduplicated(f, p);
    NextOf(f, p, j);
  }

  lemma NextOf(f: T.Shape, p: T.Node, j: nat)
    requires Wf(f) && p in f.kids && j < |f.kids[p]| && NoDuplicates(f.kids[p])
    requires f.kids[p][j] in f.kids && f.up[f.kids[p][j]] == Some(p)
    ensures T.Ptr(NextSibling(f, f.kids[p][j])) == T.AtOrNull(f.kids[p], j + 1)
  {
    hide Wf;
    IndexUnique(f.kids[p], j);
  }

  /** The text of the children from number `j` on, one child at a time. */
  lemma ChildrenStep(first: Node, rest: seq<Node>, done: string, col: int, wrap: int)
    ensures var w, more := W.WriteNode(first, col, wrap), W.WriteKids(rest, W.WriteNode(first, col, wrap).1, wrap);
            && done + W.WriteKids([first] + rest, col, wrap).0 == done + w.0 + more.0
            && W.WriteKids([first] + rest, col, wrap).1 == more.1
  {
    hide W.WriteNode;
    assert ([first] + rest)[1..] == rest;
  }

  lemma NoKidTrees(f: T.Shape, v: Values, node: T.Node, k: nat)
    requires Wf(f) && v.Keys == f.kids.Keys && node in f.kids && k <= |f.kids[node]|
    ensures KidTrees(f, v, node, k, k) == []
  {
  }

  lemma NoChildren(col: int, wrap: int)
    ensures W.WriteKids([], col, wrap) == ("", col)
  {
  }

  /** The loop of `mxml_write_node` over the children. */
  method WriteChildren(node: T.Node, sink: StringSink, col0: int, wrap: int, ghost f: T.Shape, ghost v: Values,
                       ghost trees: seq<Node>)
    returns (col: int)
    requires Wf(f) && T.Links(f) && node in f.kids && sink.Valid() && v == ValuesOf(f)
    requires trees == KidTrees(f, v, node, 0, |f.kids[node]|)
    modifies sink, sink.buffer
    ensures sink.Valid() && sink.text == old(sink.text) + W.WriteKids(trees, col0, wrap).0
    ensures col == W.WriteKids(trees, col0, wrap).1
    decreases f.height[node], 0, 0
  {
    hide Wf, T.Links, StringSink.Valid, Tree, KidTrees, W.WriteNode, W.WriteKids, ValuesOf;
    WalkPointers(f, node);
    col := col0;
    var child := node.child;
    ghost var j, k, done := 0, |f.kids[node]|, "";
    while child != null
      invariant sink.Valid() && sink.text == old(sink.text) + done
      invariant j <= k && child == T.AtOrNull(f.kids[node], j)
      invariant done + W.WriteKids(KidTrees(f, v, node, j, k), col, wrap).0 == W.WriteKids(trees, col0, wrap).0
      invariant W.WriteKids(KidTrees(f, v, node, j, k), col, wrap).1 == W.WriteKids(trees, col0, wrap).1
      decreases k - j
    {
      NthChild(f, v, node, j);
      ghost var first, rest := Tree(f, v, child), KidTrees(f, v, node, j + 1, k);
      ChildrenStep(first, rest, done, col, wrap);
      done := done + W.WriteNode(first, col, wrap).0;
      col := WriteNode(child, sink, col, wrap, f, v, first);
      child := child.next;
      j := j + 1;
    }
    assert j == k;
    NoKidTrees(f, v, node, k);
    NoChildren(col, wrap);
  }

  // -- Saving to a string ---------------------------------------------------------------------------------

  /** `mxmlSaveString`: the length of the whole text is returned for every buffer size, and the buffer holds
      as much of the text as fits before a terminating NUL. */
  method SaveString(node: T.Node, buffer: array<char>, bufsize: nat, wrap: int, ghost f: T.Shape) returns (n: nat)
    requires Wf(f) && T.Links(f) && node in f.kids && 1 <= bufsize <= buffer.Length
    modifies buffer
    ensures var text := W.SaveText(TreeOf(f, node), wrap);
            && n == |text|
            && buffer[..Min(n, bufsize - 1)] == text[..Min(n, bufsize - 1)] && buffer[Min(n, bufsize - 1)] == '\0'
            && buffer[bufsize..] == old(buffer[bufsize..])
  {
    hide Wf, T.Links, W.WriteNode, Tree, ValuesOf, StringSink.Valid;
    var ptr := new StringSink(buffer, bufsize);
    ghost var tree := TreeOf(f, node);
    var col := WriteNode(node, ptr, 0, wrap, f, ValuesOf(f), tree);
    if col > 0 {
      ptr.Putc('\n');
    }
    assert ptr.text == W.SaveText(tree, wrap);
    n := Terminate(ptr);
  }

  /** The NUL at the end. */
  method Terminate(ptr: StringSink) returns (n: nat)
    requires ptr.Valid() && ptr.end > 0
    modifies ptr.buffer
    ensures n == |ptr.text| && ptr.end <= ptr.buffer.Length
    ensures ptr.buffer[..Min(n, ptr.end - 1)] == ptr.text[..Min(n, ptr.end - 1)]
    ensures ptr.buffer[Min(n, ptr.end - 1)] == '\0'
    ensures ptr.buffer[ptr.end..] == ptr.beyond
  {
    if ptr.pos >= ptr.end {
      ptr.buffer[ptr.end - 1] := '\0';
    } else {
      ptr.buffer[ptr.pos] := '\0';
    }
    n := ptr.pos;
  }

  lemma {:induction false} CStrStops(text: string, junk: string)
    ensures CStr(text + "\0" + junk) == CStr(text)
  {
    if text == "" {
      assert text + "\0" + junk == "\0" + junk;
    } else {
      CStrStops(text[1..], junk);
      assert (text + "\0" + junk)[1..] == text[1..] + "\0" + junk;
    }
  }

  /** `mxmlSaveAllocString`: the whole text as a C string, however long it is; NULL for an empty one.
      `size` is the size of the temporary buffer, which depends on the build. */
  method SaveAllocString(node: T.Node, size: nat, wrap: int, ghost f: T.Shape) returns (r: Option<string>)
    requires 1 <= size && Wf(f) && T.Links(f) && node in f.kids
    ensures var text := W.SaveText(TreeOf(f, node), wrap);
            r == if text == "" then None else Some(CStr(text))
  {
    hide Wf, T.Links, W.SaveText, TreeOf;
    ghost var text := W.SaveText(TreeOf(f, node), wrap);
    var buffer := new char[size](_ => '\0');
    var bytes := SaveString(node, buffer, size, wrap, f);
    if bytes <= 0 {
      return None;
    }
    if bytes < size - 1 {
      Terminated(buffer[..], text);
      return Some(CStr(buffer[..]));
    }
    var s := new char[bytes + 1](_ => '\0');
    bytes := SaveString(node, s, bytes + 1, wrap, f);
    Terminated(s[..], text);
    return Some(CStr(s[..]));
  }

  lemma Terminated(buffer: string, text: string)
    requires |text| < |buffer| && buffer[..|text|] == text && buffer[|text|] == '\0'
    ensures CStr(buffer) == CStr(text)
  {
    assert buffer == text + "\0" + buffer[|text| + 1..];
    CStrStops(text, buffer[|text| + 1..]);
  }
}
