/** Where the writer breaks lines, measured on the text it emits. */
module Columns {
  import opened CStrings
  import opened Entities
  import opened Writer
  import opened XmlTree

  // -- Columns of a text ---------------------------------------------------------------------------------

  /** The column after `t` has been written from column `col` on: a newline goes back to column 0. */
  function ColumnAfter(t: string, col: int): (c: int) {
    if t == "" then col
    else if t[|t| - 1] == '\n' then 0
    else ColumnAfter(t[..|t| - 1], col) + 1
  }

  predicate OneLine(t: string) { forall i :: 0 <= i < |t| ==> t[i] != '\n' }

  lemma {:induction false} ColumnAppend(a: string, b: string, col: int)
    ensures ColumnAfter(a + b, col) == ColumnAfter(b, ColumnAfter(a, col))
    decreases |b|
  {
    if b == "" {
      assert a + b == a;
    } else {
      assert (a + b)[..|a + b| - 1] == a + b[..|b| - 1];
      ColumnAppend(a, b[..|b| - 1], col);
    }
  }

  /** Without a newline it moves by the length, otherwise it counts what follows the last one. */
  lemma {:induction false} ColumnIs(a: string, b: string, col: int)
    requires OneLine(b)
    ensures ColumnAfter(b, col) == col + |b|
    ensures ColumnAfter(a + "\n" + b, col) == |b|
    decreases |b|
  {
    var t := a + "\n" + b;
    if b == "" {
      assert t == a + "\n";
    } else {
      assert t[..|t| - 1] == a + "\n" + b[..|b| - 1];
      ColumnIs(a, b[..|b| - 1], col);
    }
  }

  // -- What is written -------------------------------------------------------------------------------------

  /** Four characters are written as entities, every other byte as it is. */
  lemma EscapeIs(c: char)
    ensures Escape("&") == "&amp;" && Escape("<") == "&lt;" && Escape(">") == "&gt;" && Escape("\"") == "&quot;"
    ensures c != '&' && c != '<' && c != '>' && c != '\"' ==> Escape([c]) == [c]
  {
    EscapeOne(c);
    EscapeOne('&');
    EscapeOne('<');
    EscapeOne('>');
    EscapeOne('\"');
  }

  lemma EscapeOne(c: char)
    ensures Escape([c]) == EscapeChar(c)
  {
    assert [c][1..] == "" && EscapeChar(c) + "" == EscapeChar(c);
  }

  lemma {:induction false} EscapeAppend(s: string, t: string)
    ensures Escape(s + t) == Escape(s) + Escape(t)
    decreases |s|
  {
    hide EscapeChar;
    if s == "" {
      assert s + t == t;
    } else {
      assert (s + t)[1..] == s[1..] + t;
      EscapeAppend(s[1..], t);
    }
  }

  /** The attribute as written: with its value in quotes and escaped, or alone. */
  lemma AttributeIs(name: string, value: string)
    ensures WriteAttr(Attr(name, None)) == WriteName(name)
    ensures WriteAttr(Attr(name, Some(value))) == WriteName(name) + "=\"" + Escape(value) + "\""
    ensures !Quoted(name) ==> WriteName(name) == name
  {
    assert WriteName(name) + ("=\"" + Escape(value) + "\"") == WriteName(name) + "=\"" + Escape(value) + "\"";
    assert WriteName(name) + "" == WriteName(name);
  }

  /** Comments, CDATA sections and processing instructions are written raw, with everything in them. */
  predicate Bare(name: string) {
    |name| >= 1 && (name[0] == '?' || (|name| >= 3 && name[..3] == "!--") || (|name| >= 8 && name[..8] == "![CDATA["))
  }

  /** Any element as written: without children it ends in ` />`, with children in an end tag, whose name is escaped; but
      names that start with `!` or `?` have neither. */
  lemma ElementIs(name: string, attrs: seq<Attr>, kids: seq<Node>, col: int, wrap: int)
    ensures var head := WriteAttrs(attrs, col + |name| + 1, wrap);
            var open := "<" + (if Bare(name) then name else WriteName(name)) + head.0;
            var alone := name != "" && (name[0] == '!' || name[0] == '?');
            WriteNode(Element(name, attrs, kids), col, wrap).0 ==
            if kids == [] then open + (if alone then ">" else " />")
            else open + ">" + WriteKids(kids, head.1 + 1, wrap).0 + if alone then "" else "</" + Escape(name) + ">"
  {
    hide WriteAttrs, WriteKids, WriteName, Escape;
    assert IsRawTag(name) <==> Bare(name) by { BareIs(name); }
    assert HasNoEndTag(name) <==> name != "" && (name[0] == '!' || name[0] == '?') by {
      if name != "" { assert name[..1] == [name[0]]; }
    }
    var head := WriteAttrs(attrs, col + |name| + 1, wrap);
    var open := "<" + (if Bare(name) then name else WriteName(name)) + head.0;
    var body := WriteKids(kids, head.1 + 1, wrap).0;
    assert open + ">" + body + "" == open + ">" + body;
    assert open + ">" + body + "</" + Escape(name) + ">" == open + ">" + body + ("</" + Escape(name) + ">");
  }

  lemma BareIs(name: string)
    ensures IsRawTag(name) <==> Bare(name)
  {
    if name != "" { assert name[..1] == [name[0]]; }
    if |name| >= 3 { assert name[..3] == "!--" ==> name[0] == '!'; }
  }

  // -- Text that is written as it is ------------------------------------------------------------------------

  predicate NoEntities(s: string) {
    forall i :: 0 <= i < |s| ==> s[i] != '&' && s[i] != '<' && s[i] != '>' && s[i] != '\"'
  }

  predicate Quoted(name: string) { name != "" && (name[0] == '\"' || name[0] == '\'') }

  lemma {:induction false} EscapeLength(s: string)
    ensures |Escape(s)| >= |s|
    ensures |Escape(s)| == |s| <==> NoEntities(s)
    ensures NoEntities(s) ==> Escape(s) == s
  {
    if s != "" {
      EscapeLength(s[1..]);
      assert |EscapeChar(s[0])| == 1 <==> s[0] != '&' && s[0] != '<' && s[0] != '>' && s[0] != '\"';
      assert NoEntities(s) <==> NoEntities(s[1..]) && s[0] != '&' && s[0] != '<' && s[0] != '>' && s[0] != '\"';
    }
  }

  /** The width that decides about a line break is the length of the attribute, exactly when its value holds no
      character that is written as an entity. */
  lemma WidthIs(a: Attr)
    requires !Quoted(a.name)
    ensures AttrWidth(a) == |WriteAttr(a)| <==> (a.value.Some? ==> NoEntities(a.value.value))
  {
    hide Escape, NoEntities;
    if a.value.Some? { EscapeLength(a.value.value); }
  }

  lemma {:induction false} UntilQuote(s: string, quote: char, rest: string)
    requires quote !in s
    ensures EscapeUntil(s, quote) == Escape(s) && EscapeUntil(s + [quote] + rest, quote) == Escape(s)
    decreases |s|
  {
    if s != "" {
      UntilQuote(s[1..], quote, rest);
      assert (s + [quote] + rest)[1..] == s[1..] + [quote] + rest;
    }
  }

  /** A name that starts with a quote is written up to the next such quote, between two of them. */
  lemma QuotedNameWritten(quote: char, s: string, rest: string)
    requires (quote == '\"' || quote == '\'') && quote !in s
    ensures WriteName([quote] + s) == [quote] + Escape(s) + [quote]
    ensures WriteName([quote] + s + [quote] + rest) == [quote] + Escape(s) + [quote]
  {
    UntilQuote(s, quote, rest);
    assert ([quote] + s)[1..] == s;
    assert ([quote] + s + [quote] + rest)[1..] == s + [quote] + rest;
  }

  // -- Nodes whose columns can be seen -----------------------------------------------------------------------

  predicate Clear(s: string) { NoEntities(s) && OneLine(s) }

  predicate ClearAttr(a: Attr) {
    !Quoted(a.name) && Clear(a.name) && (a.value.Some? ==> Clear(a.value.value))
  }

  predicate ClearAttrs(attrs: seq<Attr>) { forall i :: 0 <= i < |attrs| ==> ClearAttr(attrs[i]) }

  /** Names and data of one line without entities; comments and their like may hold anything on one line. */
  predicate ClearNode(n: Node)
    decreases n, 0
  {
    match n
    case Opaque(data) => Clear(data)
    case Text(_, data) => Clear(data)
    case Element(name, attrs, kids) =>
      && (if IsRawTag(name) then OneLine(name) else Clear(name) && !Quoted(name))
      && ClearAttrs(attrs) && ClearKids(kids)
  }

  predicate ClearKids(kids: seq<Node>)
    decreases kids, 1
  {
    kids != [] ==> ClearNode(kids[0]) && ClearKids(kids[1..])
  }

  /** Pieces one after the other, each after a blank, or on a new line if it would go past the margin. */
  function Filled(pieces: seq<string>, col: int, wrap: int): (t: string) {
    if pieces == [] then ""
    else
      var sep := if wrap > 0 && col + |pieces[0]| > wrap then "\n" else " ";
      sep + pieces[0] + Filled(pieces[1..], ColumnAfter(sep + pieces[0], col), wrap)
  }

  function Written(attrs: seq<Attr>): (pieces: seq<string>)
    ensures |pieces| == |attrs| && forall i :: 0 <= i < |attrs| ==> pieces[i] == WriteAttr(attrs[i])
  {
    if attrs == [] then [] else [WriteAttr(attrs[0])] + Written(attrs[1..])
  }

  lemma ClearWritten(a: Attr)
    requires ClearAttr(a)
    ensures AttrWidth(a) == |WriteAttr(a)| && OneLine(WriteAttr(a))
  {
    hide Escape, OneLine;
    WidthIs(a);
    if a.value.Some? {
      EscapeLength(a.value.value);
      assert OneLine("=\"" + a.value.value + "\"") by { Surrounded("=\"", a.value.value, "\""); }
      Surrounded(a.name, "=\"" + a.value.value + "\"", "");
      assert a.name + ("=\"" + a.value.value + "\"") + "" == WriteAttr(a);
    } else {
      assert WriteAttr(a) == a.name;
    }
  }

  lemma Surrounded(a: string, s: string, b: string)
    requires OneLine(s) && OneLine(a) && (b == "" || b == "\"" || b == ">")
    ensures OneLine(a + s + b)
  {
  }

  lemma SeparatedColumn(sep: string, piece: string, col: int)
    requires (sep == " " || sep == "\n" || sep == "") && OneLine(piece)
    ensures ColumnAfter(sep + piece, col) == (if sep == "\n" then 0 else col + |sep|) + |piece|
  {
    ColumnIs("", piece, if sep == "\n" then 0 else col + |sep|);
    ColumnAppend(sep, piece, col);
    assert sep != "" ==> sep[..|sep| - 1] == "";
  }

  /** The attributes fill the lines as far as they go. */
  lemma {:induction false} AttrsFilled(attrs: seq<Attr>, col: int, wrap: int)
    requires ClearAttrs(attrs)
    ensures var r := WriteAttrs(attrs, col, wrap);
            r.0 == Filled(Written(attrs), col, wrap) && r.1 == ColumnAfter(r.0, col)
    decreases |attrs|
  {
    hide AttrWidth, WriteAttr, ClearAttr, ColumnAfter, OneLine;
    if attrs == [] {
      NoText(col);
    } else {
      var piece := WriteAttr(attrs[0]);
      var sep := if wrap > 0 && col + |piece| > wrap then "\n" else " ";
      var col' := (if sep == "\n" then 0 else col + 1) + |piece|;
      ClearWritten(attrs[0]);
      SeparatedColumn(sep, piece, col);
      AttrsFilled(attrs[1..], col', wrap);
      assert Written(attrs)[1..] == Written(attrs[1..]);
      ColumnAppend(sep + piece, WriteAttrs(attrs[1..], col', wrap).0, col);
    }
  }

  lemma NoText(col: int)
    ensures ColumnAfter("", col) == col
  {
  }

  lemma LineColumn(t: string, col: int)
    requires OneLine(t)
    ensures ColumnAfter(t, col) == col + |t|
  {
    ColumnIs("", t, col);
  }

  lemma Joined(a: string, b: string, col: int, c: int)
    requires ColumnAfter(a, col) == c && OneLine(b)
    ensures ColumnAfter(a + b, col) == c + |b|
  {
    ColumnAppend(a, b, col);
    LineColumn(b, c);
  }

  lemma DataColumn(n: Node, col: int, wrap: int)
    requires !n.Element? && ClearNode(n)
    ensures var r := WriteNode(n, col, wrap); r.1 == ColumnAfter(r.0, col)
  {
    hide ColumnAfter, Escape, NoEntities, OneLine;
    EscapeLength(n.data);
    LineColumn(n.data, col);
    SeparatedColumn("\n", n.data, col);
    SeparatedColumn(" ", n.data, col);
  }

  /** The white space before a word: nothing at the start of a line, a blank up to the margin, a newline past it. */
  lemma WordSeparated(data: string, col: int, wrap: int)
    requires NoEntities(data)
    ensures WriteNode(Text(false, data), col, wrap).0 == WriteNode(Opaque(data), col, wrap).0 == data
    ensures col <= 0 ==> WriteNode(Text(true, data), col, wrap).0 == data
    ensures col > 0 && (wrap <= 0 || col <= wrap) ==> WriteNode(Text(true, data), col, wrap).0 == " " + data
    ensures 0 < wrap < col ==> WriteNode(Text(true, data), col, wrap).0 == "\n" + data
  {
    EscapeLength(data);
  }

  /** The column the writer counts is that of the text it emits. */
  lemma {:induction false} NodeColumnIs(n: Node, col: int, wrap: int)
    requires ClearNode(n)
    ensures var r := WriteNode(n, col, wrap); r.1 == ColumnAfter(r.0, col)
    decreases n, 0
  {
    hide ColumnAfter, Escape, NoEntities, OneLine, WriteAttrs, WriteKids, WriteName, IsRawTag, HasNoEndTag;
    hide ClearAttrs, ClearKids;
    if n.Element? {
      var start := col + |n.name| + 1;
      var open := "<" + (if IsRawTag(n.name) then n.name else WriteName(n.name));
      var head := WriteAttrs(n.attrs, start, wrap);
      ElementOpens(n.name, col);
      AttrsFilled(n.attrs, start, wrap);
      ColumnAppend(open, head.0, col);
      Marks();
      Joined(open + head.0, ">", col, head.1);
      Joined(open + head.0, " />", col, head.1);
      if n.kids != [] {
        var body := WriteKids(n.kids, head.1 + 1, wrap);
        KidsColumnIs(n.kids, head.1 + 1, wrap);
        ColumnAppend(open + head.0 + ">", body.0, col);
        if !HasNoEndTag(n.name) {
          NotRaw(n.name);
          EscapeLength(n.name);
          Surrounded("</", n.name, ">");
          Joined(open + head.0 + ">" + body.0, "</" + n.name + ">", col, body.1);
          assert open + head.0 + ">" + body.0 + ("</" + n.name + ">") ==
              open + head.0 + ">" + body.0 + "</" + n.name + ">";
        }
      }
    } else {
      DataColumn(n, col, wrap);
    }
  }

  lemma Marks()
    ensures OneLine(">") && OneLine(" />") && OneLine("<") && OneLine("</")
  {
  }

  lemma NotRaw(name: string)
    requires !HasNoEndTag(name)
    ensures !IsRawTag(name)
  {
  }

  lemma ElementOpens(name: string, col: int)
    requires if IsRawTag(name) then OneLine(name) else Clear(name) && !Quoted(name)
    ensures ColumnAfter("<" + (if IsRawTag(name) then name else WriteName(name)), col) == col + |name| + 1
  {
    hide ColumnAfter, IsRawTag, NoEntities;
    LineColumn("<" + name, col);
  }

  lemma {:induction false} KidsColumnIs(kids: seq<Node>, col: int, wrap: int)
    requires ClearKids(kids)
    ensures var r := WriteKids(kids, col, wrap); r.1 == ColumnAfter(r.0, col)
    decreases kids, 1
  {
    hide ColumnAfter, WriteNode, ClearNode;
    if kids == [] {
      NoText(col);
    } else {
      var first := WriteNode(kids[0], col, wrap);
      NodeColumnIs(kids[0], col, wrap);
      KidsColumnIs(kids[1..], first.1, wrap);
      ColumnAppend(first.0, WriteKids(kids[1..], first.1, wrap).0, col);
    }
  }

  // -- Any nodes ------------------------------------------------------------------------------------------------

  /** As many letters as `s` has bytes. */
  function Masked(s: string): (t: string)
    ensures |t| == |s| && forall i :: 0 <= i < |t| ==> t[i] == 'x'
  {
    seq(|s|, _ => 'x')
  }

  function MaskedName(name: string): (t: string)
    ensures |t| == |name|
  {
    if name != "" && (name[0] == '!' || name[0] == '?') then [name[0]] + Masked(name[1..]) else Masked(name)
  }

  function MaskedAttrs(attrs: seq<Attr>): (r: seq<Attr>) {
    if attrs == [] then []
    else
      var a := attrs[0];
      [Attr(Masked(a.name), if a.value.Some? then Some(Masked(a.value.value)) else None)] + MaskedAttrs(attrs[1..])
  }

  /** The node with a letter in place of every byte. */
  function MaskedNode(n: Node): (r: Node)
    decreases n, 0
  {
    match n
    case Opaque(data) => Opaque(Masked(data))
    case Text(whitespace, data) => Text(whitespace, Masked(data))
    case Element(name, attrs, kids) => Element(MaskedName(name), MaskedAttrs(attrs), MaskedKids(kids))
  }

  function MaskedKids(kids: seq<Node>): (r: seq<Node>)
    ensures |r| == |kids|
    decreases kids, 1
  {
    if kids == [] then [] else [MaskedNode(kids[0])] + MaskedKids(kids[1..])
  }

  lemma {:induction false} MaskedClear(n: Node)
    ensures ClearNode(MaskedNode(n))
    decreases n, 0
  {
    hide IsRawTag;
    if n.Element? {
      MaskedAttrsClear(n.attrs);
      MaskedKidsClear(n.kids);
    }
  }

  lemma {:induction false} MaskedAttrsClear(attrs: seq<Attr>)
    ensures ClearAttrs(MaskedAttrs(attrs))
  {
    if attrs != [] {
      MaskedAttrsClear(attrs[1..]);
    }
  }

  lemma {:induction false} MaskedKidsClear(kids: seq<Node>)
    ensures ClearKids(MaskedKids(kids))
    decreases kids, 1
  {
    hide ClearNode, MaskedNode;
    if kids != [] {
      MaskedClear(kids[0]);
      MaskedKidsClear(kids[1..]);
    }
  }

  lemma {:induction false} MaskedAttrsColumn(attrs: seq<Attr>, col: int, wrap: int)
    ensures WriteAttrs(MaskedAttrs(attrs), col, wrap).1 == WriteAttrs(attrs, col, wrap).1
    decreases |attrs|
  {
    hide WriteAttr;
    if attrs != [] {
      var width := AttrWidth(attrs[0]);
      MaskedAttrsColumn(attrs[1..], (if wrap > 0 && col + width > wrap then 0 else col + 1) + width, wrap);
    }
  }

  lemma MaskedKind(name: string)
    ensures HasNoEndTag(MaskedName(name)) == HasNoEndTag(name)
  {
    assert name != "" ==> name[..1] == [name[0]] && MaskedName(name)[..1] == [MaskedName(name)[0]];
  }

  lemma {:induction false} MaskedColumn(n: Node, col: int, wrap: int)
    ensures WriteNode(MaskedNode(n), col, wrap).1 == WriteNode(n, col, wrap).1
    decreases n, 0
  {
    hide WriteAttrs, WriteKids, MaskedAttrs, MaskedKids, HasNoEndTag, IsRawTag, WriteName, Escape, MaskedName;
    if n.Element? {
      var start := col + |n.name| + 1;
      MaskedAttrsColumn(n.attrs, start, wrap);
      MaskedKind(n.name);
      MaskedKidsColumn(n.kids, WriteAttrs(n.attrs, start, wrap).1 + 1, wrap);
    }
  }

  lemma {:induction false} MaskedKidsColumn(kids: seq<Node>, col: int, wrap: int)
    ensures WriteKids(MaskedKids(kids), col, wrap).1 == WriteKids(kids, col, wrap).1
    decreases kids, 1
  {
    hide WriteNode, MaskedNode;
    if kids != [] {
      MaskedColumn(kids[0], col, wrap);
      assert MaskedKids(kids)[1..] == MaskedKids(kids[1..]);
      MaskedKidsColumn(kids[1..], WriteNode(kids[0], col, wrap).1, wrap);
    }
  }

  /** For every node: each byte of names, values and data counts as one column, whatever it is written as, and only
      the line breaks put in between go back to column 0. */
  lemma ColumnCounts(n: Node, col: int, wrap: int)
    ensures WriteNode(n, col, wrap).1 == ColumnAfter(WriteNode(MaskedNode(n), col, wrap).0, col)
  {
    hide WriteNode, ColumnAfter, MaskedNode, ClearNode;
    MaskedColumn(n, col, wrap);
    MaskedClear(n);
    NodeColumnIs(MaskedNode(n), col, wrap);
  }

  // -- Saved documents ---------------------------------------------------------------------------------------

  lemma {:induction false} ColumnZero(t: string)
    ensures ColumnAfter(t, 0) >= 0
    ensures ColumnAfter(t, 0) == 0 <==> t == "" || t[|t| - 1] == '\n'
    decreases |t|
  {
    if t != "" && t[|t| - 1] != '\n' {
      ColumnZero(t[..|t| - 1]);
    }
  }

  /** A saved document ends with a newline, which is added only when there is none yet. */
  lemma SavedEnds(n: Node, wrap: int)
    requires ClearNode(n)
    ensures var t := WriteNode(n, 0, wrap).0;
            SaveText(n, wrap) == if t == "" || t[|t| - 1] == '\n' then t else t + "\n"
  {
    hide WriteNode, ColumnAfter;
    var t := WriteNode(n, 0, wrap).0;
    NodeColumnIs(n, 0, wrap);
    ColumnZero(t);
    assert t + "" == t;
  }
}
