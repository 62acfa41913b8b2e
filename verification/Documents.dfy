/** The documents that are saved and loaded again: what the writer emits for them is XML text. */
module Documents {
  import opened CStrings
  import opened Entities
  import opened Loader
  import opened Markup
  import opened MarkupTree
  import opened Spelling
  import opened Utf8
  import opened Writer
  import opened XmlTree

  // -- The trees that survive ----------------------------------------------------------------------

  predicate AllNoneOf(cps: Stream, marks: string) {
    forall i :: 0 <= i < |cps| ==> NoneOf(cps[i], marks)
  }

  /** An element name: no white space, no `/ < > & "`, and not the start of another kind of tag. */
  ghost predicate TagName(name: string) {
    && IsText(name) && name != "" && name[0] != '?' && name[0] != '!' && name[0] != '\''
    && AllNoneOf(Chars(name), " \t\r\n/><&\"")
  }

  /** An attribute name: an ASCII first character, then anything that does not end a name. */
  ghost predicate AttrName(name: string) {
    && IsText(name) && name != "" && name[0] as int < 0x80 && Starts(name[0] as int, " \t\r\n/?<>\"\'")
    && AllNoneOf(Chars(name)[1..], " \t\r\n=/>?&")
  }

  ghost predicate GoodAttr(a: Attr) {
    AttrName(a.name) && a.value.Some? && IsText(a.value.value)
  }

  ghost predicate GoodAttrs(attrs: seq<Attr>) {
    DistinctNames(attrs) && forall i :: 0 <= i < |attrs| ==> GoodAttr(attrs[i])
  }

  /** Without references it does not matter what `strtol` says. */
  const PLAIN := Config(NoCallback, number => 0, false)

  predicate Unreferenced(l: Lone) {
    l.Declared? ==> forall i :: 0 <= i < |l.word + l.more| ==> (l.word + l.more)[i].Char?
  }

  /** The tag `l` holds exactly the text `name`. */
  ghost predicate Holds(l: Lone, name: string) {
    Unreferenced(l) && GoodLone(l, PLAIN) && LoneName(l, PLAIN) == name
  }

  /** Comments, CDATA sections, processing instructions and declarations. */
  ghost predicate LoneTag(name: string) {
    exists l :: Holds(l, name)
  }

  /** Tags without an end tag that hold everything after them when nothing is open. */
  predicate OpensRoot(name: string) {
    StartsWith(name, "?") || DeclarationStart(name)
  }

  /** Elements with attributes and children, lone tags without either, and text. */
  ghost predicate GoodNode(n: Node)
    decreases n, 0
  {
    match n
    case Opaque(data) => IsText(data)
    case Text(_, data) => IsText(data)
    case Element(name, attrs, kids) =>
      (TagName(name) && GoodAttrs(attrs) && GoodKids(kids)) || (attrs == [] && kids == [] && LoneTag(name))
  }

  ghost predicate GoodKids(kids: seq<Node>)
    decreases kids, 1
  {
    kids != [] ==> GoodNode(kids[0]) && GoodKids(kids[1..])
  }

  /** A document: an element as above, or a processing instruction such as `?xml ... ?` or a declaration that
      holds the whole document. */
  ghost predicate GoodRoot(n: Node) {
    n.Element? && (GoodNode(n) || (LoneTag(n.name) && OpensRoot(n.name) && n.attrs == [] && GoodKids(n.kids)))
  }

  // -- The text written ------------------------------------------------------------------------------------

  function CharPieces(cps: Stream): (ps: seq<Piece>)
    ensures |ps| == |cps| && forall i :: 0 <= i < |cps| ==> ps[i] == Char(cps[i])
  {
    if cps == [] then [] else [Char(cps[0])] + CharPieces(cps[1..])
  }

  /** The writer spells four characters with their names. */
  function PieceOf(c: int): (p: Piece) {
    if c == '&' as int then Named("amp")
    else if c == '<' as int then Named("lt")
    else if c == '>' as int then Named("gt")
    else if c == '\"' as int then Named("quot")
    else Char(c)
  }

  function PiecesOf(cps: Stream): (ps: seq<Piece>)
    ensures |ps| == |cps| && forall i :: 0 <= i < |cps| ==> ps[i] == PieceOf(cps[i])
  {
    if cps == [] then [] else [PieceOf(cps[0])] + PiecesOf(cps[1..])
  }

  function AttributeOf(a: Attr, gap: string): (r: Attribute)
    requires a.name != "" && a.value.Some?
  {
    Attribute(gap, a.name[0] as int, CharPieces(if Chars(a.name) == [] then [] else Chars(a.name)[1..]), "", "",
              InQuotes('\"', PiecesOf(Chars(a.value.value))))
  }

  function AttributesOf(attrs: seq<Attr>, col: int, wrap: int): (r: seq<Attribute>)
    requires forall i :: 0 <= i < |attrs| ==> attrs[i].name != "" && attrs[i].value.Some?
  {
    if attrs == [] then []
    else
      var width := AttrWidth(attrs[0]);
      var brk := wrap > 0 && col + width > wrap;
      [AttributeOf(attrs[0], if brk then "\n" else " ")]
        + AttributesOf(attrs[1..], (if brk then 0 else col + 1) + width, wrap)
  }

  /** The white space written before a text node. */
  function Separator(whitespace: bool, col: int, wrap: int): (s: string) {
    if !whitespace || col <= 0 then "" else if wrap > 0 && col > wrap then "\n" else " "
  }

  ghost function LoneOf(name: string): (l: Lone)
    requires LoneTag(name)
    ensures Holds(l, name)
  {
    var l :| Holds(l, name);
    l
  }

  lemma AttrsNamed(attrs: seq<Attr>)
    requires GoodAttrs(attrs)
    ensures forall i :: 0 <= i < |attrs| ==> attrs[i].name != "" && attrs[i].value.Some?
  {
  }

  ghost function TextsOf(attrs: seq<Attr>, col: int, wrap: int): (r: seq<Attribute>)
    requires GoodAttrs(attrs)
  {
    AttrsNamed(attrs);
    AttributesOf(attrs, col, wrap)
  }

  /** The XML text that is written for a node from column `col` on. */
  ghost function ItemOf(n: Node, col: int, wrap: int): (item: Item)
    requires GoodNode(n)
    decreases n, 0
  {
    match n
    case Opaque(data) => Data(PiecesOf(Chars(data)))
    case Text(whitespace, data) => Data(CharPieces(Codes(Separator(whitespace, col, wrap))) + PiecesOf(Chars(data)))
    case Element(name, attrs, kids) =>
      if TagName(name) && GoodAttrs(attrs) && GoodKids(kids) then
        var ps := CharPieces(Chars(name));
        var column := WriteAttrs(attrs, col + |name| + 1, wrap).1 + 1;
        var texts := TextsOf(attrs, col + |name| + 1, wrap);
        if kids == [] then Nested(ps, texts, " ", "/>", [], ps, [])
        else Nested(ps, texts, "", ">", ItemsOf(kids, column, wrap), ps, [])
      else Single(LoneOf(name))
  }

  ghost function ItemsOf(kids: seq<Node>, col: int, wrap: int): (items: seq<Item>)
    requires GoodKids(kids)
    decreases kids, 1
  {
    if kids == [] then [] else [ItemOf(kids[0], col, wrap)] + ItemsOf(kids[1..], WriteNode(kids[0], col, wrap).1, wrap)
  }

  /** The newline after a document, unless it ends in column 0. */
  function Trailer(n: Node, wrap: int): (s: string) {
    if WriteNode(n, 0, wrap).1 > 0 then "\n" else ""
  }

  ghost function DocumentOf(n: Node, wrap: int): (d: Document)
    requires GoodRoot(n)
  {
    var end := CharPieces(Codes(Trailer(n, wrap)));
    if OpensRoot(n.name) && LoneTag(n.name) && n.attrs == [] && GoodKids(n.kids) then
      OpenEnded([], LoneOf(n.name), ItemsOf(n.kids, |n.name| + 2, wrap) + [Data(end)])
    else if GoodNode(n) then Closed([], ItemOf(n, 0, wrap), end)
    else Closed([], Data([]), [])
  }

  // -- Pieces ----------------------------------------------------------------------------------------------

  /** The string `t` is text, and these are its characters. */
  ghost predicate Says(t: string, s: Stream) {
    IsText(t) && Chars(t) == s
  }

  lemma SaysAppend(a: string, s: Stream, b: string, t: Stream)
    requires Says(a, s) && Says(b, t)
    ensures Says(a + b, s + t)
  {
    TextAppend(a, b);
  }

  lemma SaysAscii(a: string)
    requires IsAscii(a)
    ensures Says(a, Codes(a))
  {
    AsciiText(a);
  }

  lemma {:induction false} CharPiecesText(cps: Stream, cfg: Config)
    ensures PiecesText(CharPieces(cps)) == cps && Spelled(CharPieces(cps), cfg) == EncodeAll(cps)
  {
    hide Encode;
    if cps != [] {
      CharPiecesText(cps[1..], cfg);
      assert CharPieces(cps)[1..] == CharPieces(cps[1..]);
    }
  }

  lemma CharPiecesProper(cps: Stream, marks: string, cfg: Config)
    requires AllReadable(cps) && AllNoneOf(cps, marks) && AllNoneOf(cps, "&")
    ensures AllProper(CharPieces(cps), marks, cfg)
  {
    hide NoneOf;
    forall i | 0 <= i < |cps| ensures cps[i] != '&' as int {
      NotMark(cps[i], "&", 0);
    }
  }

  lemma NotMark(c: int, marks: string, i: nat)
    requires NoneOf(c, marks) && i < |marks|
    ensures c != marks[i] as int
  {
  }

  /** A piece as written has the text of the escaped character and stands for that character. */
  lemma PieceWritten(c: int, cfg: Config)
    requires Readable(c)
    ensures PieceText(PieceOf(c)) == Spell(c) && Meaning(PieceOf(c), cfg) == c
    ensures Proper(PieceOf(c), "<", cfg) && Proper(PieceOf(c), "\"", cfg)
    ensures PieceOf(c).Char? || !IsSpace(c)
  {
    hide GetValue;
    if HasEntity(c) {
      NameThenValue(c as char);
      ShortName(c);
    }
  }

  lemma {:induction false} PiecesWritten(cps: Stream, cfg: Config)
    requires AllReadable(cps)
    ensures PiecesText(PiecesOf(cps)) == SpellAll(cps) && Spelled(PiecesOf(cps), cfg) == EncodeAll(cps)
    ensures AllProper(PiecesOf(cps), "<", cfg) && AllProper(PiecesOf(cps), "\"", cfg)
  {
    hide PieceText, PieceOf, Spell, Meaning, Proper, Encode;
    if cps != [] {
      PieceWritten(cps[0], cfg);
      PiecesWritten(cps[1..], cfg);
      assert PiecesOf(cps)[1..] == PiecesOf(cps[1..]);
      forall i | 0 <= i < |cps| ensures Proper(PiecesOf(cps)[i], "<", cfg) && Proper(PiecesOf(cps)[i], "\"", cfg) {
        PieceWritten(cps[i], cfg);
      }
    }
  }

  lemma DataWritten(data: string, cfg: Config)
    requires IsText(data)
    ensures Says(Escape(data), PiecesText(PiecesOf(Chars(data)))) && AllProper(PiecesOf(Chars(data)), "<", cfg)
  {
    hide StringGetc, Escape;
    EscapeText(data);
    PiecesWritten(Chars(data), cfg);
  }

  // -- Names and attributes ----------------------------------------------------------------------------------

  lemma FirstByte(s: string)
    requires IsText(s) && s != ""
    ensures Chars(s) != [] && s[0] == Encode(Chars(s)[0])[0]
    ensures Chars(s)[0] < 0x80 <==> s[0] as int < 0x80
    ensures Chars(s)[0] < 0x80 ==> s[0] as int == Chars(s)[0]
  {
    hide StringGetc, Encode;
    assert s == Encode(Chars(s)[0]) + EncodeAll(Chars(s)[1..]);
    LeadByte(Chars(s)[0]);
  }

  lemma LeadByte(c: int)
    requires Readable(c)
    ensures c < 0x80 <==> Encode(c)[0] as int < 0x80
    ensures c < 0x80 ==> Encode(c)[0] as int == c
  {
  }

  lemma {:induction false} NothingToSpell(cps: Stream)
    requires forall i :: 0 <= i < |cps| ==> !HasEntity(cps[i])
    ensures SpellAll(cps) == cps
  {
    if cps != [] {
      NothingToSpell(cps[1..]);
    }
  }

  lemma TagNameChar(c: int)
    requires NoneOf(c, " \t\r\n/><&\"")
    ensures !HasEntity(c) && NoneOf(c, TAG_BREAKS) && NoneOf(c, "&") && c != '/' as int
  {
    var marks := " \t\r\n/><&\"";
    assert marks[0] == TAG_BREAKS[0] && marks[1] == TAG_BREAKS[1] && marks[2] == TAG_BREAKS[2]
        && marks[3] == TAG_BREAKS[3];
    assert marks[4] == '/' && marks[5] == '>' && marks[6] == '<' && marks[7] == '&' && marks[8] == '\"';
    assert TAG_BREAKS[4] == '/' && TAG_BREAKS[5] == '>' && TAG_BREAKS[6] == '<' && "&"[0] == '&';
  }

  /** Element names are written the same way in both tags. */
  lemma TagNameWritten(name: string)
    requires TagName(name)
    ensures Escape(name) == name && WriteName(name) == name && !IsRawTag(name) && !HasNoEndTag(name)
  {
    hide StringGetc, EncodeAll, SpellAll, Escape, EscapeUntil, NoneOf;
    FirstByte(name);
    forall i | 0 <= i < |Chars(name)| ensures !HasEntity(Chars(name)[i]) { TagNameChar(Chars(name)[i]); }
    NothingToSpell(Chars(name));
    EscapeEncoded(Chars(name));
  }

  /** And they are spelled by their characters. */
  lemma TagNamePieces(name: string, cfg: Config)
    requires TagName(name)
    ensures var ps := CharPieces(Chars(name));
            && Says(name, PiecesText(ps)) && AllProper(ps, TAG_BREAKS, cfg) && Spelled(ps, cfg) == name
            && Ordinary(name) && name != "" && name[0] != '/'
  {
    hide StringGetc, NoneOf, Encode, PiecesText, Spelled;
    FirstByte(name);
    forall i | 0 <= i < |Chars(name)|
      ensures NoneOf(Chars(name)[i], TAG_BREAKS) && NoneOf(Chars(name)[i], "&") && Chars(name)[i] != '/' as int
    {
      TagNameChar(Chars(name)[i]);
    }
    CharPiecesText(Chars(name), cfg);
    CharPiecesProper(Chars(name), TAG_BREAKS, cfg);
  }

  lemma AttrNameWritten(name: string)
    requires AttrName(name)
    ensures WriteName(name) == name && 0 < name[0] as int < 0x80 && Chars(name) != []
    ensures name[0] as int == Chars(name)[0]
  {
    hide StringGetc, EncodeAll, NoneOf;
    FirstByte(name);
    NameStarts(name[0] as int);
  }

  lemma AttrNameChar(c: int)
    requires NoneOf(c, " \t\r\n=/>?&")
    ensures NoneOf(c, NAME_ENDS) && NoneOf(c, "&")
  {
    var marks := " \t\r\n=/>?&";
    assert forall i :: 0 <= i < 8 ==> NAME_ENDS[i] == marks[i];
    assert marks[8] == '&';
  }

  /** The parts of an attribute as written. */
  lemma AttrParts(name: string, cps: Stream, v: string, value: Stream, gap: string)
    requires Says(name, cps) && Says(Escape(v), value) && (gap == " " || gap == "\n")
    ensures Says(gap + (name + ("=\"" + (Escape(v) + "\""))),
            Codes(gap) + (cps + (Codes("=\"") + (value + Codes("\"")))))
  {
    hide Says, Escape;
    SaysAscii("\"");
    SaysAscii("=\"");
    SaysAscii(gap);
    SaysAppend(Escape(v), value, "\"", Codes("\""));
    SaysAppend("=\"", Codes("=\""), Escape(v) + "\"", value + Codes("\""));
    SaysAppend(name, cps, "=\"" + (Escape(v) + "\""), Codes("=\"") + (value + Codes("\"")));
    SaysAppend(gap, Codes(gap), name + ("=\"" + (Escape(v) + "\"")), cps + (Codes("=\"") + (value + Codes("\""))));
  }

  /** An attribute as written, with the blank or newline before it. */
  lemma AttrWritten(a: Attr, gap: string, cfg: Config)
    requires GoodAttr(a) && (gap == " " || gap == "\n")
    ensures Says(gap + WriteAttr(a), AttributeText(AttributeOf(a, gap)))
  {
    hide Chars, EncodeAll, Escape, WriteName, PiecesText, NoneOf, OneOf, CharPieces, PiecesOf, AllReadable, NameText;
    var v := a.value.value;
    var value := PiecesText(PiecesOf(Chars(v)));
    AttrNameWritten(a.name);
    NameSpelled(a, gap, cfg);
    DataWritten(v, cfg);
    AttrParts(a.name, Chars(a.name), v, value, gap);
    assert gap + WriteAttr(a) == gap + (a.name + ("=\"" + (Escape(v) + "\"")));
    assert Codes("=\"") == ['=' as int, '\"' as int] && Codes("\"") == ['\"' as int];
    assert AttributeText(AttributeOf(a, gap)) == Codes(gap) + (Chars(a.name) + (Codes("=\"") + (value + Codes("\""))));
  }

  /** It spells the attribute. */
  lemma AttrSpelled(a: Attr, gap: string, cfg: Config)
    requires GoodAttr(a) && (gap == " " || gap == "\n")
    ensures AttrOf(AttributeOf(a, gap), cfg) == a && GoodAttribute(AttributeOf(a, gap), cfg)
  {
    hide StringGetc, PiecesText, Spelled, NoneOf, OneOf, CharPieces, PiecesOf;
    hide CStr;
    NameSpelled(a, gap, cfg);
    PiecesWritten(Chars(a.value.value), cfg);
    TextIsCString(a.name);
    TextIsCString(a.value.value);
    GapBlank(gap);
  }

  lemma GapBlank(gap: string)
    requires gap == " " || gap == "\n"
    ensures Blank(gap) && Blank("") && OneOf(gap[0] as int, TAG_ENDS)
  {
    assert BLANKS[0] == ' ' && BLANKS[3] == '\n' && TAG_ENDS[0] == ' ' && TAG_ENDS[3] == '\n';
  }

  lemma NameSpelled(a: Attr, gap: string, cfg: Config)
    requires GoodAttr(a)
    ensures var r := AttributeOf(a, gap);
            && NameText(r) == Chars(a.name) && OneByte(r.first) + Spelled(r.more, cfg) == a.name
            && AllProper(r.more, NAME_ENDS, cfg)
  {
    hide StringGetc, NoneOf, PiecesOf, Spelled, PiecesText;
    var cps := Chars(a.name);
    AttrNameWritten(a.name);
    CharPiecesText(cps[1..], cfg);
    FirstIsChar(a.name);
    forall i | 0 <= i < |cps[1..]| ensures NoneOf(cps[1..][i], NAME_ENDS) && NoneOf(cps[1..][i], "&") {
      AttrNameChar(cps[1..][i]);
    }
    CharPiecesProper(cps[1..], NAME_ENDS, cfg);
  }

  lemma FirstIsChar(s: string)
    requires IsText(s) && s != "" && s[0] as int < 0x80
    ensures Chars(s) != [] && s == [s[0]] + EncodeAll(Chars(s)[1..]) && Chars(s) == [s[0] as int] + Chars(s)[1..]
  {
    hide StringGetc;
    FirstByte(s);
    assert Encode(Chars(s)[0]) == [s[0]];
  }

  /** The attributes as written. */
  lemma {:induction false} AttrsWritten(attrs: seq<Attr>, col: int, wrap: int, tail: Stream, cfg: Config)
    requires GoodAttrs(attrs)
    ensures (var r := TextsOf(attrs, col, wrap);
             && Says(WriteAttrs(attrs, col, wrap).0, AttributesText(r)) && AttrsOf(r, cfg) == attrs
             && (forall i :: 0 <= i < |r| ==> GoodAttribute(r[i], cfg)) && Spaced(r, tail)
             && (attrs != [] ==> AttributesText(r) != [] && OneOf(AttributesText(r)[0], TAG_ENDS)))
    decreases |attrs|
  {
    hide Says, AttributeText, AttributeOf, AttrOf, GoodAttribute, WriteAttr, OneOf, GoodAttr, AttrWidth;
    SaysAscii("");
    AttrsNamed(attrs);
    if attrs != [] {
      var width := AttrWidth(attrs[0]);
      var brk := wrap > 0 && col + width > wrap;
      var gap := if brk then "\n" else " ";
      var col' := (if brk then 0 else col + 1) + width;
      var r := AttributesOf(attrs, col, wrap);
      MoreAttrs(attrs);
      AttrsWritten(attrs[1..], col', wrap, tail, cfg);
      AttrWritten(attrs[0], gap, cfg);
      AttrSpelled(attrs[0], gap, cfg);
      assert r[0] == AttributeOf(attrs[0], gap) && r[1..] == AttributesOf(attrs[1..], col', wrap);
      SaysAppend(gap + WriteAttr(attrs[0]), AttributeText(r[0]), WriteAttrs(attrs[1..], col', wrap).0,
          AttributesText(r[1..]));
      GapFirst(attrs[0], gap);
      forall i | 0 <= i < |r| ensures GoodAttribute(r[i], cfg) { if i > 0 { assert r[i] == r[1..][i - 1]; } }
    }
  }

  lemma MoreAttrs(attrs: seq<Attr>)
    requires GoodAttrs(attrs) && attrs != []
    ensures GoodAttr(attrs[0]) && GoodAttrs(attrs[1..])
  {
    hide GoodAttr;
    assert forall i :: 0 <= i < |attrs[1..]| ==> attrs[1..][i] == attrs[i + 1];
  }

  lemma GapFirst(a: Attr, gap: string)
    requires a.name != "" && a.value.Some? && (gap == " " || gap == "\n")
    ensures var s := AttributeText(AttributeOf(a, gap)); s != [] && OneOf(s[0], TAG_ENDS)
    ensures !AttributeOf(a, gap).value.Bare?
  {
    hide OneOf;
    GapBlank(gap);
  }

  // -- Tags without attributes -----------------------------------------------------------------------------

  lemma {:induction false} CharsOnly(ps: seq<Piece>) returns (cps: Stream)
    requires forall i :: 0 <= i < |ps| ==> ps[i].Char?
    ensures ps == CharPieces(cps)
  {
    if ps == [] {
      cps := [];
    } else {
      var more := CharsOnly(ps[1..]);
      cps := [ps[0].c] + more;
      assert cps[1..] == more;
    }
  }

  lemma PiecesAppend(a: seq<Piece>, b: seq<Piece>)
    ensures PiecesText(a + b) == PiecesText(a) + PiecesText(b)
    decreases |a|
  {
    hide PieceText;
    if a == [] {
      assert a + b == b;
    } else {
      assert (a + b)[1..] == a[1..] + b;
      PiecesAppend(a[1..], b);
    }
  }

  lemma CharsReadable(ps: seq<Piece>, marks: string, more: seq<Piece>, marks': string, cps: Stream, cfg: Config)
    requires AllProper(ps, marks, cfg) && AllProper(more, marks', cfg) && ps + more == CharPieces(cps)
    ensures AllReadable(cps)
  {
    hide NoneOf;
    forall i | 0 <= i < |cps| ensures Readable(cps[i]) {
      assert (ps + more)[i] == Char(cps[i]);
      assert i < |ps| ==> Proper(ps[i], marks, cfg);
      assert i >= |ps| ==> Proper(more[i - |ps|], marks', cfg);
    }
  }

  /** For characters that stand for themselves it does not matter what `strtol` says. */
  lemma CharsProper(ps: seq<Piece>, marks: string, cfg: Config)
    requires AllProper(ps, marks, PLAIN) && forall i :: 0 <= i < |ps| ==> ps[i].Char?
    ensures AllProper(ps, marks, cfg)
  {
    hide NoneOf, Readable;
    forall i | 0 <= i < |ps| ensures Proper(ps[i], marks, cfg) {
      assert Proper(ps[i], marks, PLAIN);
    }
  }

  /** A declaration without references is spelled by its characters, whatever `strtol` says. */
  lemma DeclaredWritten(l: Lone, name: string, cfg: Config)
    requires Holds(l, name) && l.Declared?
    ensures Says(name, LoneText(l)) && GoodLone(l, cfg) && LoneName(l, cfg) == name && DeclarationStart(name)
  {
    hide OneOf, NoneOf, StringGetc, Encode, Spelled, PiecesText, DeclarationStart, AllProper, AllReadable;
    var cps := CharsOnly(l.word + l.more);
    CharPiecesText(cps, PLAIN);
    CharPiecesText(cps, cfg);
    PiecesAppend(l.word, l.more);
    CharsReadable(l.word, TAG_BREAKS, l.more, ">", cps, PLAIN);
    TextOf(cps);
    assert forall i :: 0 <= i < |l.word| ==> l.word[i] == (l.word + l.more)[i];
    assert forall i :: 0 <= i < |l.more| ==> l.more[i] == (l.word + l.more)[|l.word| + i];
    CharsProper(l.word, TAG_BREAKS, cfg);
    CharsProper(l.more, ">", cfg);
  }

  lemma RawKinds(x: string)
    ensures !OpensRoot("!--" + x) && HasNoEndTag("!--" + x) && IsRawTag("!--" + x)
    ensures !OpensRoot("![CDATA[" + x) && HasNoEndTag("![CDATA[" + x) && IsRawTag("![CDATA[" + x)
    ensures OpensRoot("?" + x) && HasNoEndTag("?" + x) && IsRawTag("?" + x)
  {
    var c, d, q := "!--" + x, "![CDATA[" + x, "?" + x;
    assert c[..3] == "!--" && c[..1] == "!";
    assert d[..8] == "![CDATA[" && d[..1] == "!";
    assert q[..1] == "?";
  }

  lemma DeclarationWritten(name: string)
    requires DeclarationStart(name)
    ensures OpensRoot(name) && HasNoEndTag(name) && WriteName(name) == name
  {
    assert name[..1][0] == '!';
  }

  lemma RawWritten(l: Lone, name: string, cfg: Config)
    requires Holds(l, name) && !l.Declared?
    ensures Says(name, LoneText(l)) && GoodLone(l, cfg) && LoneName(l, cfg) == name && Opens(l) == OpensRoot(name)
    ensures HasNoEndTag(name) && IsRawTag(name)
  {
    hide IsText, Chars, CommentBody, CDataBody, InstructionBody, OpensRoot, HasNoEndTag, IsRawTag, LoneText, RawName;
    LoneRaw(l, PLAIN);
    match l
    case Comment(x) =>
      assert name == "!--" + (x + "--");
      RawKinds(x + "--");
    case CData(x) =>
      assert name == "![CDATA[" + (x + "]]");
      RawKinds(x + "]]");
    case Instruction(x) =>
      assert name == "?" + (x + "?");
      RawKinds(x + "?");
  }

  /** A lone tag is written between `<` and `>` as it is. */
  lemma LoneWritten(l: Lone, name: string, cfg: Config)
    requires Holds(l, name)
    ensures Says(name, LoneText(l)) && GoodLone(l, cfg) && LoneName(l, cfg) == name && Opens(l) == OpensRoot(name)
    ensures HasNoEndTag(name) && (if IsRawTag(name) then name else WriteName(name)) == name
  {
    hide Says, GoodLone, LoneName, LoneText, OpensRoot, HasNoEndTag, IsRawTag, WriteName, DeclarationStart;
    hide Unreferenced;
    if l.Declared? {
      DeclaredWritten(l, name, cfg);
      DeclarationWritten(name);
    } else {
      RawWritten(l, name, cfg);
    }
  }

  lemma TagNameCloses(name: string)
    requires TagName(name)
    ensures !OpensRoot(name) && !LoneTag(name)
  {
    hide StringGetc, AllNoneOf, OpensRoot, GoodLone, LoneName, IsRawTag, WriteName;
    assert name[..1] == [name[0]];
    assert !OpensRoot(name) by { NotOpening(name); }
    forall l ensures !Holds(l, name) {
      if Holds(l, name) { LoneWritten(l, name, PLAIN); }
    }
  }

  lemma NotOpening(name: string)
    requires name != "" && name[0] != '?' && name[0] != '!'
    ensures !OpensRoot(name)
  {
    assert name[..1] == [name[0]];
  }

  // -- Elements ------------------------------------------------------------------------------------------------

  /** The parts of a tag. */
  lemma TagParts(name: string, s: Stream, head: string, t: Stream, gap: string, end: string)
    requires Says(name, s) && Says(head, t) && IsAscii(gap) && IsAscii(end)
    ensures Says("<" + (name + (head + (gap + end))), ['<' as int] + (s + (t + (Codes(gap) + Codes(end)))))
  {
    hide Says, IsAscii;
    assert Codes("<") == ['<' as int];
    assert IsAscii("<") by { LessAscii(); }
    SaysAscii("<");
    SaysAscii(gap);
    SaysAscii(end);
    SaysAppend(gap, Codes(gap), end, Codes(end));
    SaysAppend(head, t, gap + end, Codes(gap) + Codes(end));
    SaysAppend(name, s, head + (gap + end), t + (Codes(gap) + Codes(end)));
    SaysAppend("<", Codes("<"), name + (head + (gap + end)), s + (t + (Codes(gap) + Codes(end))));
  }

  lemma LessAscii()
    ensures IsAscii("<") && IsAscii("</") && IsAscii(">") && IsAscii("/>") && IsAscii(" ") && IsAscii("")
  {
  }

  lemma CloseParts(name: string, s: Stream)
    requires Says(name, s)
    ensures Says("</" + (name + ">"), ['<' as int, '/' as int] + (s + ([] + ['>' as int])))
  {
    hide Says, IsAscii;
    LessAscii();
    assert Codes("</") == ['<' as int, '/' as int] && Codes(">") == ['>' as int];
    SaysAscii("</");
    SaysAscii(">");
    SaysAppend(name, s, ">", Codes(">"));
    SaysAppend("</", Codes("</"), name + ">", s + Codes(">"));
    assert [] + ['>' as int] == Codes(">");
  }

  function GapOf(kids: seq<Node>): (gap: string) { if kids == [] then " " else "" }

  function EndOf(kids: seq<Node>): (end: string) { if kids == [] then "/>" else ">" }

  /** The text of an element, taken apart. */
  lemma ElementText(name: string, attrs: seq<Attr>, kids: seq<Node>, col: int, wrap: int)
    requires Escape(name) == name && WriteName(name) == name && !IsRawTag(name) && !HasNoEndTag(name)
    ensures var head := WriteAttrs(attrs, col + |name| + 1, wrap);
            var open := "<" + (name + (head.0 + (GapOf(kids) + EndOf(kids))));
            WriteNode(Element(name, attrs, kids), col, wrap).0 ==
            if kids == [] then open else open + (WriteKids(kids, head.1 + 1, wrap).0 + ("</" + (name + ">")))
  {
    hide WriteAttrs, WriteKids, WriteName, Escape, IsRawTag, HasNoEndTag;
  }

  /** The item of an element, taken apart. */
  lemma ItemParts(n: Node, col: int, wrap: int)
    requires GoodNode(n) && n.Element? && TagName(n.name) && GoodAttrs(n.attrs) && GoodKids(n.kids)
    ensures var start := col + |n.name| + 1;
            var ps := CharPieces(Chars(n.name));
            ItemOf(n, col, wrap) ==
            Nested(ps, TextsOf(n.attrs, start, wrap), GapOf(n.kids), EndOf(n.kids),
                   ItemsOf(n.kids, WriteAttrs(n.attrs, start, wrap).1 + 1, wrap), ps, [])
  {
    hide TagName, GoodAttrs, WriteAttrs, TextsOf, Chars;
  }

  /** The tag of an element is well spelled. */
  lemma TagWritten(name: string, attrs: seq<Attr>, kids: seq<Node>, col: int, wrap: int, cfg: Config)
    requires TagName(name) && GoodAttrs(attrs)
    ensures var texts := TextsOf(attrs, col, wrap);
            GoodTag(CharPieces(Chars(name)), texts, GapOf(kids), EndOf(kids), cfg)
  {
    hide Chars, IsText, AllNoneOf, WriteAttrs, Spelled, AllProper, GoodAttribute, Spaced, OneOf, AttributeText, TextsOf;
    hide GoodAttr, Says;
    var gap, end := GapOf(kids), EndOf(kids);
    var texts := TextsOf(attrs, col, wrap);
    TagNamePieces(name, cfg);
    AttrsWritten(attrs, col, wrap, Codes(gap) + Codes(end), cfg);
    TailStarts(texts, gap, end, attrs == []);
  }

  lemma TailStarts(texts: seq<Attribute>, gap: string, end: string, none: bool)
    requires (gap == " " && end == "/>") || (gap == "" && end == ">")
    requires if texts == [] then none else AttributesText(texts) != [] && OneOf(AttributesText(texts)[0], TAG_ENDS)
    ensures OneOf(Head(TailText(texts, gap, end)), TAG_ENDS) && Blank(gap)
  {
    hide OneOf, AttributeText;
    GreaterEnds();
    GapBlank(" ");
    assert (Codes(gap) + Codes(end))[0] == if gap == "" then '>' as int else ' ' as int;
  }

  // -- Documents -----------------------------------------------------------------------------------------------

  lemma DataItem(n: Node, col: int, wrap: int, cfg: Config)
    requires !n.Element? && GoodNode(n)
    ensures Says(WriteNode(n, col, wrap).0, ItemText(ItemOf(n, col, wrap))) && GoodItem(ItemOf(n, col, wrap), cfg)
  {
    hide IsText, Chars, Escape, AllProper, PiecesText, Says;
    DataWritten(n.data, cfg);
    if n.Text? {
      var sep := Separator(n.whitespace, col, wrap);
      var a, b := CharPieces(Codes(sep)), PiecesOf(Chars(n.data));
      SeparatorWritten(n.whitespace, col, wrap, cfg);
      SaysAppend(sep, PiecesText(a), Escape(n.data), PiecesText(b));
      PiecesAppend(a, b);
      ProperAppend(a, b, "<", cfg);
      assert WriteNode(n, col, wrap).0 == sep + Escape(n.data) by { assert "" + Escape(n.data) == Escape(n.data); }
    }
  }

  lemma ProperAppend(a: seq<Piece>, b: seq<Piece>, marks: string, cfg: Config)
    requires AllProper(a, marks, cfg) && AllProper(b, marks, cfg)
    ensures AllProper(a + b, marks, cfg)
  {
    hide Proper;
  }

  lemma BlankWritten(sep: string, cfg: Config)
    requires sep == "" || sep == " " || sep == "\n"
    ensures Says(sep, PiecesText(CharPieces(Codes(sep)))) && AllProper(CharPieces(Codes(sep)), "<", cfg)
  {
    hide StringGetc;
    AsciiText(sep);
    CodesOfAscii(sep);
    CharPiecesText(Codes(sep), cfg);
    CharPiecesProper(Codes(sep), "<", cfg);
  }

  lemma SeparatorWritten(whitespace: bool, col: int, wrap: int, cfg: Config)
    ensures var sep := Separator(whitespace, col, wrap);
            Says(sep, PiecesText(CharPieces(Codes(sep)))) && AllProper(CharPieces(Codes(sep)), "<", cfg)
  {
    BlankWritten(Separator(whitespace, col, wrap), cfg);
  }

  lemma LoneItem(name: string, col: int, wrap: int, cfg: Config)
    requires LoneTag(name)
    ensures var l := LoneOf(name);
            && Says(WriteNode(Element(name, [], []), col, wrap).0, ItemText(Single(l))) && GoodItem(Single(l), cfg)
  {
    hide IsText, Chars, Says, HasNoEndTag, IsRawTag, WriteName, LoneText, GoodLone, LoneName, Opens, OpensRoot;
    LoneWritten(LoneOf(name), name, cfg);
    LoneParts(name, LoneText(LoneOf(name)));
    assert WriteNode(Element(name, [], []), col, wrap).0 == "<" + (name + ">");
  }

  lemma LoneParts(name: string, s: Stream)
    requires Says(name, s)
    ensures Says("<" + (name + ">"), ['<' as int] + (s + ['>' as int]))
  {
    hide Says, IsAscii;
    LessAscii();
    assert Codes("<") == ['<' as int] && Codes(">") == ['>' as int];
    SaysAscii("<");
    SaysAscii(">");
    SaysAppend(name, s, ">", Codes(">"));
    SaysAppend("<", Codes("<"), name + ">", s + Codes(">"));
  }

  /** What is written for a node, from any column with any wrap margin, is XML text. */
  lemma {:induction false} NodeWritten(n: Node, col: int, wrap: int, cfg: Config)
    requires GoodNode(n)
    ensures Says(WriteNode(n, col, wrap).0, ItemText(ItemOf(n, col, wrap))) && GoodItem(ItemOf(n, col, wrap), cfg)
    decreases n, 0
  {
    hide IsText, Chars, Says, WriteNode, TagName, GoodAttrs, LoneTag, ItemOf, GoodItem;
    if !n.Element? {
      DataItem(n, col, wrap, cfg);
    } else if TagName(n.name) && GoodAttrs(n.attrs) && GoodKids(n.kids) {
      ElementWritten(n, col, wrap, cfg);
    } else {
      LoneIs(n, col, wrap);
      LoneItem(n.name, col, wrap, cfg);
    }
  }

  lemma LoneIs(n: Node, col: int, wrap: int)
    requires GoodNode(n) && n.Element? && !(TagName(n.name) && GoodAttrs(n.attrs) && GoodKids(n.kids))
    ensures n == Element(n.name, [], []) && LoneTag(n.name) && ItemOf(n, col, wrap) == Single(LoneOf(n.name))
  {
    hide TagName, GoodAttrs, LoneTag, GoodKids;
  }

  /** The tag as written. */
  lemma OpenWritten(name: string, attrs: seq<Attr>, kids: seq<Node>, col: int, wrap: int, cfg: Config)
    requires TagName(name) && GoodAttrs(attrs)
    ensures var gap, end := GapOf(kids), EndOf(kids);
            Says("<" + (name + (WriteAttrs(attrs, col, wrap).0 + (gap + end))),
                 ['<' as int] + (PiecesText(CharPieces(Chars(name)))
                                 + (AttributesText(TextsOf(attrs, col, wrap)) + (Codes(gap) + Codes(end)))))
  {
    hide IsText, Chars, Says, WriteAttrs, TagName, GoodAttrs, TextsOf, AttributesText, PiecesText, AllProper;
    TagNamePieces(name, cfg);
    AttrsSaid(attrs, col, wrap, cfg);
    LessAscii();
    TagParts(name, PiecesText(CharPieces(Chars(name))), WriteAttrs(attrs, col, wrap).0,
             AttributesText(TextsOf(attrs, col, wrap)), GapOf(kids), EndOf(kids));
  }

  lemma {:induction false} ElementWritten(n: Node, col: int, wrap: int, cfg: Config)
    requires GoodNode(n) && n.Element? && TagName(n.name) && GoodAttrs(n.attrs) && GoodKids(n.kids)
    ensures Says(WriteNode(n, col, wrap).0, ItemText(ItemOf(n, col, wrap))) && GoodItem(ItemOf(n, col, wrap), cfg)
    decreases n.kids, 2
  {
    hide IsText, Chars, Says, WriteNode, WriteKids, WriteAttrs, TagName, GoodAttrs, GoodNode, GoodKids, LoneTag;
    hide ItemOf, ItemsOf, TextsOf, GoodTag, GoodItems, AllProper, AttributesText, PiecesText, ItemsText, Escape;
    hide WriteName, IsRawTag, HasNoEndTag, Ordinary;
    var start := col + |n.name| + 1;
    var head := WriteAttrs(n.attrs, start, wrap);
    var ps := CharPieces(Chars(n.name));
    var texts := TextsOf(n.attrs, start, wrap);
    ItemParts(n, col, wrap);
    TagNameWritten(n.name);
    ElementText(n.name, n.attrs, n.kids, col, wrap);
    TagWritten(n.name, n.attrs, n.kids, start, wrap, cfg);
    TagNamePieces(n.name, cfg);
    OpenWritten(n.name, n.attrs, n.kids, start, wrap, cfg);
    if n.kids != [] {
      var items := ItemsOf(n.kids, head.1 + 1, wrap);
      NoExtra();
      KidsWritten(n.kids, head.1 + 1, wrap, cfg);
      CloseParts(n.name, PiecesText(ps));
      ContentParts(n.name, head.0, "", ">", WriteKids(n.kids, head.1 + 1, wrap).0, ps, texts, items);
    }
  }

  lemma NoExtra()
    ensures GoodExtra([])
  {
  }

  lemma AttrsSaid(attrs: seq<Attr>, col: int, wrap: int, cfg: Config)
    requires GoodAttrs(attrs)
    ensures Says(WriteAttrs(attrs, col, wrap).0, AttributesText(TextsOf(attrs, col, wrap)))
    ensures AttrsOf(TextsOf(attrs, col, wrap), cfg) == attrs
  {
    hide Says, GoodAttr, WriteAttrs, TextsOf;
    AttrsWritten(attrs, col, wrap, [], cfg);
  }

  lemma ContentParts(name: string, head: string, gap: string, end: string, body: string, ps: seq<Piece>,
                     texts: seq<Attribute>, items: seq<Item>)
    requires Says("<" + (name + (head + (gap + end))),
                  ['<' as int] + (PiecesText(ps) + (AttributesText(texts) + (Codes(gap) + Codes(end)))))
    requires Says(body, ItemsText(items)) && end != "/>"
    requires Says("</" + (name + ">"), ['<' as int, '/' as int] + (PiecesText(ps) + ([] + ['>' as int])))
    ensures Says("<" + (name + (head + (gap + end))) + (body + ("</" + (name + ">"))),
                 ItemText(Nested(ps, texts, gap, end, items, ps, [])))
  {
    hide Says, PiecesText, AttributesText, ItemsText;
    var item := Nested(ps, texts, gap, end, items, ps, []);
    SaysAppend(body, ItemsText(items), "</" + (name + ">"), CloseText(item));
    SaysAppend("<" + (name + (head + (gap + end))), OpenText(item), body + ("</" + (name + ">")),
               ItemsText(items) + CloseText(item));
  }

  lemma {:induction false} KidsWritten(kids: seq<Node>, col: int, wrap: int, cfg: Config)
    requires GoodKids(kids)
    ensures Says(WriteKids(kids, col, wrap).0, ItemsText(ItemsOf(kids, col, wrap)))
    ensures GoodItems(ItemsOf(kids, col, wrap), cfg)
    decreases kids, 1
  {
    hide Says, WriteNode, ItemText, ItemOf, GoodItem, GoodNode;
    if kids == [] {
      LessAscii();
      SaysAscii("");
    } else {
      var first := WriteNode(kids[0], col, wrap);
      NodeWritten(kids[0], col, wrap, cfg);
      KidsWritten(kids[1..], first.1, wrap, cfg);
      var items := ItemsOf(kids, col, wrap);
      assert items[1..] == ItemsOf(kids[1..], first.1, wrap);
      SaysAppend(first.0, ItemText(items[0]), WriteKids(kids[1..], first.1, wrap).0, ItemsText(items[1..]));
    }
  }

  lemma {:induction false} ItemsAppend(a: seq<Item>, b: seq<Item>, cfg: Config)
    requires GoodItems(a, cfg) && GoodItems(b, cfg)
    ensures ItemsText(a + b) == ItemsText(a) + ItemsText(b) && GoodItems(a + b, cfg)
    decreases |a|
  {
    hide ItemText, GoodItem;
    if a == [] {
      assert a + b == b;
    } else {
      assert (a + b)[1..] == a[1..] + b;
      ItemsAppend(a[1..], b, cfg);
    }
  }

  lemma OneItem(item: Item, cfg: Config)
    requires GoodItem(item, cfg)
    ensures ItemsText([item]) == ItemText(item) && GoodItems([item], cfg)
  {
    hide ItemText, GoodItem;
    assert [item][1..] == [];
  }

  /** A root without an end tag, and the newline after it. */
  lemma HeadWritten(n: Node, wrap: int, cfg: Config)
    requires n.Element? && LoneTag(n.name) && OpensRoot(n.name) && n.attrs == [] && GoodKids(n.kids)
    ensures var d := OpenEnded([], LoneOf(n.name), ItemsOf(n.kids, |n.name| + 2, wrap)
                                                   + [Data(CharPieces(Codes(Trailer(n, wrap))))]);
            Says(SaveText(n, wrap), DocumentText(d)) && GoodDocument(d, cfg)
  {
    hide Says, HasNoEndTag, IsRawTag, WriteName, LoneText, GoodLone, LoneName, Opens, OpensRoot, ItemsText, WriteKids;
    hide ItemsOf;
    hide Escape, GoodItems, Trailer, PiecesText;
    var l, col, sep := LoneOf(n.name), |n.name| + 2, Trailer(n, wrap);
    var items := ItemsOf(n.kids, col, wrap);
    var end := Data(CharPieces(Codes(sep)));
    LoneWritten(l, n.name, cfg);
    LoneParts(n.name, LoneText(l));
    KidsWritten(n.kids, col, wrap, cfg);
    TrailerWritten(n, wrap, cfg);
    OneItem(end, cfg);
    ItemsAppend(items, [end], cfg);
    assert WriteNode(n, 0, wrap).0 == "<" + (n.name + ">") + WriteKids(n.kids, col, wrap).0 by { HeadText(n, wrap); }
    SaysAppend("<" + (n.name + ">"), ['<' as int] + (LoneText(l) + ['>' as int]), WriteKids(n.kids, col, wrap).0,
        ItemsText(items));
    SaysAppend("<" + (n.name + ">") + WriteKids(n.kids, col, wrap).0,
               ['<' as int] + (LoneText(l) + ['>' as int]) + ItemsText(items), sep, ItemText(end));
    NothingBefore(cfg);
    assert DocumentText(OpenEnded([], l, items + [end])) ==
           ['<' as int] + (LoneText(l) + ['>' as int]) + ItemsText(items) + ItemText(end);
    SavedParts(n, wrap);
  }

  lemma HeadText(n: Node, wrap: int)
    requires n.Element? && n.attrs == [] && HasNoEndTag(n.name)
    requires (if IsRawTag(n.name) then n.name else WriteName(n.name)) == n.name
    ensures WriteNode(n, 0, wrap).0 == "<" + (n.name + ">") + WriteKids(n.kids, |n.name| + 2, wrap).0
  {
    hide HasNoEndTag, IsRawTag, WriteName, WriteNode, Escape;
    HeadParts(n, wrap);
  }

  lemma HeadParts(n: Node, wrap: int)
    requires n.Element? && n.attrs == [] && HasNoEndTag(n.name)
    ensures var open := "<" + (if IsRawTag(n.name) then n.name else WriteName(n.name));
            WriteNode(n, 0, wrap).0 ==
            if n.kids == [] then open + "" + ">" else open + "" + ">" + WriteKids(n.kids, |n.name| + 2, wrap).0
  {
    hide HasNoEndTag, IsRawTag, WriteName, WriteKids, Escape;
  }

  lemma NothingBefore(cfg: Config)
    ensures PiecesText([]) == [] && AllProper([], "<", cfg)
  {
  }

  lemma TrailerWritten(n: Node, wrap: int, cfg: Config)
    ensures var sep := Trailer(n, wrap);
            Says(sep, PiecesText(CharPieces(Codes(sep)))) && AllProper(CharPieces(Codes(sep)), "<", cfg)
    ensures var sep := Trailer(n, wrap);
            Says(sep, ItemText(Data(CharPieces(Codes(sep))))) && GoodItem(Data(CharPieces(Codes(sep))), cfg)
  {
    hide Says, WriteNode;
    BlankWritten(Trailer(n, wrap), cfg);
  }

  lemma SavedParts(n: Node, wrap: int)
    ensures SaveText(n, wrap) == WriteNode(n, 0, wrap).0 + Trailer(n, wrap)
  {
    hide WriteNode;
  }

  /** What `mxmlSaveString` writes for a document, with any wrap margin, is the text of a well-spelled document. */
  lemma SavedDocument(n: Node, wrap: int, cfg: Config)
    requires GoodRoot(n)
    ensures Says(SaveText(n, wrap), DocumentText(DocumentOf(n, wrap))) && GoodDocument(DocumentOf(n, wrap), cfg)
  {
    hide Says, LoneTag, OpensRoot, TagName, GoodAttrs, GoodKids, SaveText, WriteNode, Trailer, ItemsOf;
    if OpensRoot(n.name) && LoneTag(n.name) && n.attrs == [] && GoodKids(n.kids) {
      HeadWritten(n, wrap, cfg);
    } else {
      RootWritten(n, wrap, cfg);
    }
  }

  lemma RootWritten(n: Node, wrap: int, cfg: Config)
    requires n.Element? && GoodNode(n) && !(OpensRoot(n.name) && LoneTag(n.name) && n.attrs == [] && GoodKids(n.kids))
    ensures var d := Closed([], ItemOf(n, 0, wrap), CharPieces(Codes(Trailer(n, wrap))));
            Says(SaveText(n, wrap), DocumentText(d)) && GoodDocument(d, cfg)
  {
    hide Says, LoneTag, OpensRoot, TagName, GoodAttrs, SaveText, WriteNode, Trailer, ItemOf, ItemText, GoodItem;
    hide AllProper;
    hide GoodLone, LoneName, Opens, GoodKids, PiecesText;
    var item, end := ItemOf(n, 0, wrap), CharPieces(Codes(Trailer(n, wrap)));
    NodeWritten(n, 0, wrap, cfg);
    TrailerWritten(n, wrap, cfg);
    SaysAppend(WriteNode(n, 0, wrap).0, ItemText(item), Trailer(n, wrap), PiecesText(end));
    SavedParts(n, wrap);
    NothingBefore(cfg);
    RootItem(n, wrap, cfg);
    assert [] + (ItemText(item) + PiecesText(end)) == ItemText(item) + PiecesText(end);
  }

  lemma RootItem(n: Node, wrap: int, cfg: Config)
    requires n.Element? && GoodNode(n) && !(OpensRoot(n.name) && LoneTag(n.name) && n.attrs == [] && GoodKids(n.kids))
    ensures var item := ItemOf(n, 0, wrap); item.Nested? || (item.Single? && !Opens(item.lone))
  {
    hide LoneTag, OpensRoot, TagName, GoodAttrs, Opens, GoodLone, LoneName, HasNoEndTag, IsRawTag, WriteName, ItemOf;
    hide IsText, Chars;
    if TagName(n.name) && GoodAttrs(n.attrs) && GoodKids(n.kids) {
      ItemParts(n, 0, wrap);
    } else {
      LoneIs(n, 0, wrap);
      LoneWritten(LoneOf(n.name), n.name, cfg);
      assert GoodKids([]);
    }
  }

  // -- Names of letters and digits -----------------------------------------------------------------------------

  lemma PlainChar(c: int)
    requires IsAlnum(c)
    ensures NoneOf(c, " \t\r\n/><&\"") && NoneOf(c, " \t\r\n=/>?&") && NoneOf(c, " \t\r\n/?<>\"\'")
  {
  }

  /** ASCII letters and digits make both element and attribute names. */
  lemma PlainNames(name: string)
    requires name != "" && forall i :: 0 <= i < |name| ==> IsAlnum(name[i] as int)
    ensures TagName(name) && AttrName(name)
  {
    hide Chars, IsText, NoneOf;
    AsciiText(name);
    forall i | 0 <= i < |name|
      ensures NoneOf(name[i] as int, " \t\r\n/><&\"") && NoneOf(name[i] as int, " \t\r\n=/>?&")
      ensures NoneOf(name[i] as int, " \t\r\n/?<>\"\'")
    {
      PlainChar(name[i] as int);
    }
  }

  // -- Tags that the writer does not write -------------------------------------------------------------------

  lemma SlashTail()
    ensures TailText([], "", "/>") == ['/' as int, '>' as int] && Codes("/>") == ['/' as int, '>' as int]
    ensures OneOf('/' as int, TAG_ENDS) && Blank("")
  {
    assert Codes("") + Codes("/>") == Codes("/>");
    assert TAG_ENDS[4] == '/';
  }

  lemma NoAttributes(cfg: Config)
    ensures GoodAttributes([], cfg) && AttrsOf([], cfg) == [] && Spaced([], Codes("") + Codes("/>"))
  {
  }

  /** An element that ends right after its name, with a slash, is complete: nothing is left open. */
  lemma EmptyTag(st: State, name: string, rest: Stream, cfg: Config)
    requires TagName(name) && !SecondRoot(Flushed(st, cfg))
    ensures Step(st, ['<' as int] + (Chars(name) + (['/' as int, '>' as int] + rest)), cfg) ==
            Next(AddLeaf(Flushed(st, cfg), Element(name, [], [])), rest)
  {
    hide StringGetc, AllNoneOf, Step, Flushed, Tag, PiecesText, Spelled, AllProper, OneOf, Blank, TailText;
    hide GoodAttributes;
    hide Says, IsText, SecondRoot;
    var ps := CharPieces(Chars(name));
    TagNamePieces(name, cfg);
    assert Chars(name) == PiecesText(ps) by { CharPiecesText(Chars(name), cfg); }
    SlashTail();
    NoAttributes(cfg);
    assert GoodTag(ps, [], "", "/>", cfg) by { assert Head(['/' as int, '>' as int]) == '/' as int; }
    StepTag(st, Chars(name) + (['/' as int, '>' as int] + rest), cfg);
    ElementRead(Flushed(st, cfg), ps, [], "", "/>", rest, cfg);
  }

  // -- C strings -----------------------------------------------------------------------------------------------

  lemma {:induction false} EncodedNulFree(cps: Stream)
    requires AllReadable(cps)
    ensures NulFree(EncodeAll(cps))
  {
    if cps != [] {
      EncodedNulFree(cps[1..]);
    }
  }

  lemma TextIsCString(s: string)
    requires IsText(s)
    ensures CStr(s) == s
  {
    EncodedNulFree(Chars(s));
    CStrOfNulFree(s);
  }
}
