/** Loading what `mxmlSaveString` writes: what comes back, and when that is the tree that was saved. */
module RoundTrip {
  import opened CStrings
  import opened Loader
  import opened Documents
  import opened Markup
  import opened MarkupTree
  import opened Spelling
  import opened Utf8
  import opened Writer
  import opened XmlTree

  // -- What a saved document loads as ----------------------------------------------------------------------

  /** What a saved document loads as.  Inside a root without an end tag the newline after the document may end a
      last word; data that no tag and no white space ends is lost. */
  ghost function Reloaded(n: Node, wrap: int, pick: Choice, cfg: Config): (r: Node)
    requires GoodRoot(n)
  {
    DocumentTree(DocumentOf(n, wrap), pick, cfg)
  }

  /** Without a load callback the mode follows from the root. */
  ghost predicate SavedIn(n: Node, pick: Choice, cfg: Config)
    requires n.Element?
  {
    ReadIn(pick, OpensRoot(n.name), cfg)
  }

  lemma DocumentKind(n: Node, wrap: int)
    requires GoodRoot(n)
    ensures DocumentOf(n, wrap).OpenEnded? <==> OpensRoot(n.name)
  {
    hide LoneTag, OpensRoot, TagName, GoodAttrs, GoodKids, Trailer, ItemsOf, ItemOf;
    RootOf(n);
  }

  lemma RootOf(n: Node)
    requires GoodRoot(n)
    ensures n.Element? && GoodKids(n.kids)
    ensures OpensRoot(n.name) ==> HasNoEndTag(n.name) && n.attrs == [] && LoneTag(n.name)
    ensures !OpensRoot(n.name) ==> GoodNode(n)
  {
    hide LoneTag, OpensRoot, TagName, GoodAttrs, HasNoEndTag;
    NoneGood();
    if TagName(n.name) {
      TagNameCloses(n.name);
    } else {
      assert LoneTag(n.name);
      LoneWritten(LoneOf(n.name), n.name, PLAIN);
    }
  }

  lemma NoneGood()
    ensures GoodKids([])
  {
  }

  /** For every document, every wrap margin, and every load callback that goes by name and attributes, or none:
      what loading the text that `mxmlSaveString` writes gives, without a top node. */
  lemma LoadSaved(n: Node, wrap: int, pick: Choice, cfg: Config)
    requires GoodRoot(n) && SavedIn(n, pick, cfg)
    ensures LoadString(SaveText(n, wrap), cfg) == Some(Reloaded(n, wrap, pick, cfg))
  {
    hide Says, GoodRoot, DocumentOf, DocumentText, DocumentTree, GoodDocument, ReadIn, SaveText, OpensRoot, IsText;
    hide Chars;
    hide LoadString;
    SavedDocument(n, wrap, cfg);
    SaidChars(SaveText(n, wrap), DocumentText(DocumentOf(n, wrap)));
    DocumentKind(n, wrap);
    LoadText(SaveText(n, wrap), DocumentOf(n, wrap), pick, cfg);
  }

  lemma SaidChars(t: string, s: Stream)
    requires Says(t, s)
    ensures Chars(t) == s
  {
    hide IsText, Chars;
  }

  lemma SomeText(n: Node, wrap: int)
    requires GoodRoot(n)
    ensures SaveText(n, wrap) != ""
  {
    hide WriteAttrs, WriteKids, WriteName, Escape, GoodKids, GoodAttrs, TagName, LoneTag;
  }

  /** Byte order marks in front of a saved document change nothing. */
  lemma LoadMarked(k: nat, n: Node, wrap: int, pick: Choice, cfg: Config)
    requires GoodRoot(n) && SavedIn(n, pick, cfg)
    ensures LoadString(Boms(k) + SaveText(n, wrap), cfg) == Some(Reloaded(n, wrap, pick, cfg))
  {
    hide GoodRoot, DocumentOf, DocumentText, GoodDocument, SavedIn, SaveText, IsText, Chars, Load, Reloaded;
    SavedDocument(n, wrap, cfg);
    SomeText(n, wrap);
    CharsMarked(k, SaveText(n, wrap));
    LoadSaved(n, wrap, pick, cfg);
  }

  // -- Elements read back ------------------------------------------------------------------------------------

  /** The element read back, when it is written from column `col` on. */
  ghost function Reread(n: Node, col: int, wrap: int, pick: Choice, cfg: Config): (r: Node)
    requires n.Element? && GoodKids(n.kids)
  {
    var m := pick(n.name, n.attrs);
    var col' := WriteAttrs(n.attrs, col + |n.name| + 1, wrap).1 + 1;
    Element(n.name, n.attrs, AtTag(FeedItems(NOTHING, ItemsOf(n.kids, col', wrap), m, pick, cfg), m).kids)
  }

  lemma KidsOf(n: Node)
    requires GoodNode(n) && n.Element?
    ensures GoodKids(n.kids)
  {
    hide TagName, GoodAttrs, LoneTag;
    NoneGood();
  }

  lemma NothingGathered(kids: seq<Node>, m: Mode)
    ensures AtTag(Gathered(kids, false, ""), m).kids == kids
  {
  }

  lemma NoItems(n: Node, col: int, wrap: int, pick: Choice, cfg: Config)
    requires n.Element? && n.kids == []
    ensures GoodKids(n.kids) && Reread(n, col, wrap, pick, cfg) == n
  {
  }

  /** Whatever surrounds it, an element counts as what is read back of it. */
  lemma ElementFed(g: Gathered, n: Node, col: int, wrap: int, m: Mode, pick: Choice, cfg: Config)
    requires GoodNode(n) && n.Element?
    ensures GoodKids(n.kids)
    ensures FeedItem(g, ItemOf(n, col, wrap), m, pick, cfg) == Child(g, Reread(n, col, wrap, pick, cfg), m)
  {
    hide TagName, GoodAttrs, LoneTag, AtTag, FeedItems, ItemsOf, ItemOf, GoodKids, Reread, LoneName, Denoted, Child;
    hide Holds;
    KidsOf(n);
    if TagName(n.name) && GoodAttrs(n.attrs) && GoodKids(n.kids) {
      ElementDenoted(n, col, wrap, pick, cfg);
    } else {
      LoneIs(n, col, wrap);
      LoneWritten(LoneOf(n.name), n.name, cfg);
      NoItems(n, col, wrap, pick, cfg);
    }
  }

  lemma ElementDenoted(n: Node, col: int, wrap: int, pick: Choice, cfg: Config)
    requires GoodNode(n) && n.Element? && TagName(n.name) && GoodAttrs(n.attrs) && GoodKids(n.kids)
    ensures var item := ItemOf(n, col, wrap);
            item.Nested? && Denoted(item, pick, cfg) == Reread(n, col, wrap, pick, cfg)
  {
    hide TagName, GoodAttrs, WriteAttrs, FeedItems, ItemsOf, ItemOf, GoodKids, AtTag, Spelled, AttrsOf, Chars, IsText;
    hide TextsOf;
    hide AllProper, Says, PiecesText;
    ItemParts(n, col, wrap);
    TagNamePieces(n.name, cfg);
    AttrsSaid(n.attrs, col + |n.name| + 1, wrap, cfg);
    if n.kids == [] { NoItems(n, col, wrap, pick, cfg); }
    DenotedFull(ItemOf(n, col, wrap), pick, cfg);
  }

  // -- When the tree comes back unchanged ------------------------------------------------------------------

  predicate NoSpace(s: string) {
    forall i :: 0 <= i < |s| ==> !IsSpace(s[i] as int)
  }

  /** What data can look like when it is read in mode `m`.  A word without letters stands for white space. */
  predicate Datum(n: Node, m: Mode)
    requires !n.Element?
  {
    match m
    case AsOpaque => n.Opaque? && n.data != ""
    case AsWords(off) => n.Text? && NoSpace(n.data) && (n.data == "" ==> n.whitespace && !off)
    case Dropped => false
  }

  /** Two pieces of data next to each other: words, with white space between them that is not a word itself. */
  predicate Apart(before: Node, n: Node, m: Mode) {
    !before.Element? && !n.Element? ==> m.AsWords? && n.Text? && n.whitespace && before.data != ""
  }

  predicate KeptKids(kids: seq<Node>, m: Mode, pick: Choice)
    decreases kids, 1
  {
    && (forall i :: 0 <= i < |kids| ==> Kept(kids[i], m, pick))
    && (forall i, j :: 0 <= i < |kids| && j == i + 1 < |kids| ==> Apart(kids[i], kids[j], m))
  }

  /** The data directly inside each element is of the kind the mode there makes; `n` itself is in mode `m`. */
  predicate Kept(n: Node, m: Mode, pick: Choice)
    decreases n, 0
  {
    if n.Element? then KeptKids(n.kids, pick(n.name, n.attrs), pick) else Datum(n, m)
  }

  /** Nothing at the end of a list of children that is lost unless a tag follows. */
  predicate EndsWell(kids: seq<Node>, m: Mode) {
    kids != [] && !kids[|kids| - 1].Element? ==> m.AsWords? && kids[|kids| - 1].data != ""
  }

  /** The trees that come back as they are. */
  predicate Faithful(n: Node, pick: Choice)
    requires n.Element?
  {
    && KeptKids(n.kids, pick(n.name, n.attrs), pick)
    && (OpensRoot(n.name) ==> EndsWell(n.kids, pick(n.name, n.attrs)))
  }

  lemma KeptMore(kids: seq<Node>, n: Node, m: Mode, pick: Choice)
    requires KeptKids(kids, m, pick) && Kept(n, m, pick) && (kids != [] ==> Apart(kids[|kids| - 1], n, m))
    ensures KeptKids(kids + [n], m, pick)
  {
    hide Kept, Apart;
  }

  lemma KeptSplit(kids: seq<Node>, m: Mode, pick: Choice)
    requires KeptKids(kids, m, pick) && kids != []
    ensures Kept(kids[0], m, pick) && KeptKids(kids[1..], m, pick) && (|kids| > 1 ==> Apart(kids[0], kids[1], m))
  {
    hide Kept, Apart;
    var more := kids[1..];
    forall i, j | 0 <= i < |more| && j == i + 1 < |more| ensures Apart(more[i], more[j], m) {
      assert Apart(kids[i + 1], kids[j + 1], m);
    }
  }

  // What has been gathered is always of that kind.

  predicate KeptGathered(g: Gathered, m: Mode, pick: Choice) {
    && KeptKids(g.kids, m, pick) && EndsWell(g.kids, m)
    && (m.AsWords? ==> NoSpace(g.word) && (!g.ws && g.kids != [] ==> g.kids[|g.kids| - 1].Element?))
  }

  lemma EndedKept(g: Gathered, m: Mode, pick: Choice)
    requires KeptGathered(g, m, pick)
    ensures KeptKids(Ended(g, m).kids, m, pick) && (!m.AsOpaque? ==> EndsWell(Ended(g, m).kids, m))
    ensures m.AsWords? && Ended(g, m).ws ==> Ended(g, m) == g
  {
    hide KeptKids;
    if g.word != "" {
      match m
      case AsOpaque => KeptMore(g.kids, Opaque(g.word), m, pick);
      case AsWords(_) => KeptMore(g.kids, Text(g.ws, g.word), m, pick);
      case Dropped => assert g.kids + [] == g.kids;
    }
  }

  lemma TagKept(g: Gathered, m: Mode, pick: Choice)
    requires KeptGathered(g, m, pick)
    ensures KeptKids(AtTag(g, m).kids, m, pick)
  {
    hide KeptKids, Ended;
    EndedKept(g, m, pick);
    if m.AsWords? && Ended(g, m).ws && !m.off {
      KeptMore(Ended(g, m).kids, Text(true, ""), m, pick);
    }
  }

  /** Pieces as written: white space stands for itself. */
  predicate Written(ps: seq<Piece>, cfg: Config) {
    forall i :: 0 <= i < |ps| ==> Readable(Meaning(ps[i], cfg)) && (ps[i].Char? || !IsSpace(Meaning(ps[i], cfg)))
  }

  lemma SpaceInside(c: int)
    requires Readable(c)
    ensures NoSpace(Encode(c)) <==> !IsSpace(c)
  {
    if IsSpace(c) { assert IsSpace(Encode(c)[0] as int); }
  }

  /** Only a blank that stands for itself is white space. */
  lemma PieceSpace(p: Piece, cfg: Config)
    requires Readable(Meaning(p, cfg)) && (p.Char? || !IsSpace(Meaning(p, cfg)))
    ensures NoSpace(Encode(Meaning(p, cfg))) <==> !(p.Char? && OneOf(p.c, BLANKS))
  {
    hide OneOf, NoSpace, Encode, BadChar;
    SpaceInside(Meaning(p, cfg));
    if p.Char? { BlankChar(p.c); }
  }

  lemma {:induction false} FeedKept(g: Gathered, ps: seq<Piece>, m: Mode, pick: Choice, cfg: Config)
    requires KeptGathered(g, m, pick) && Written(ps, cfg)
    ensures KeptGathered(FeedAll(g, ps, m, cfg), m, pick)
    decreases |ps|
  {
    hide KeptKids, Encode, Ended, EndsWell, Meaning, OneOf;
    if ps != [] {
      EndedKept(g, m, pick);
      PieceSpace(ps[0], cfg);
      FeedKept(Feed(g, ps[0], m, cfg), ps[1..], m, pick, cfg);
    }
  }

  lemma CharsWritten(cps: Stream, cfg: Config)
    requires AllReadable(cps)
    ensures Written(CharPieces(cps), cfg)
  {
  }

  lemma PiecesAsWritten(cps: Stream, cfg: Config)
    requires AllReadable(cps)
    ensures Written(PiecesOf(cps), cfg) && Spelled(PiecesOf(cps), cfg) == EncodeAll(cps)
  {
    hide Readable, IsSpace, Meaning, PieceOf, Encode, Proper;
    PiecesWritten(cps, cfg);
    forall i | 0 <= i < |cps|
      ensures var p := PiecesOf(cps)[i]; Readable(Meaning(p, cfg)) && (p.Char? || !IsSpace(Meaning(p, cfg)))
    {
      PieceWritten(cps[i], cfg);
    }
  }

  /** The pieces written for data. */
  lemma DataPieces(n: Node, col: int, wrap: int, cfg: Config)
    requires GoodNode(n) && !n.Element?
    ensures var sep := CharPieces(Codes(if n.Text? then Separator(n.whitespace, col, wrap) else ""));
            var ps := PiecesOf(Chars(n.data));
            && ItemOf(n, col, wrap) == Data(sep + ps) && Written(sep, cfg) && Written(ps, cfg)
            && Spelled(ps, cfg) == n.data
  {
    hide StringGetc, Encode, PiecesOf, CharPieces;
    var sep := if n.Text? then Separator(n.whitespace, col, wrap) else "";
    CodesOfAscii(sep);
    CharsWritten(Codes(sep), cfg);
    PiecesAsWritten(Chars(n.data), cfg);
    if n.Opaque? {
      assert Codes(sep) == [] && CharPieces([]) == [];
      assert CharPieces(Codes(sep)) + PiecesOf(Chars(n.data)) == PiecesOf(Chars(n.data));
    }
  }

  lemma {:induction false} FeedAppend(g: Gathered, a: seq<Piece>, b: seq<Piece>, m: Mode, cfg: Config)
    ensures FeedAll(g, a + b, m, cfg) == FeedAll(FeedAll(g, a, m, cfg), b, m, cfg)
    decreases |a|
  {
    hide Feed;
    if a == [] {
      assert a + b == b;
    } else {
      assert (a + b)[1..] == a[1..] + b;
      FeedAppend(Feed(g, a[0], m, cfg), a[1..], b, m, cfg);
    }
  }

  lemma {:induction false} NodeFedKept(g: Gathered, n: Node, col: int, wrap: int, m: Mode, pick: Choice, cfg: Config)
    requires KeptGathered(g, m, pick) && GoodNode(n)
    ensures KeptGathered(FeedItem(g, ItemOf(n, col, wrap), m, pick, cfg), m, pick)
    decreases n, 1
  {
    hide KeptKids, AtTag, GoodKids, StringGetc, GoodNode, ItemOf, FeedAll, Written, EndsWell, Reread;
    if n.Element? {
      KidsOf(n);
      ElementFed(g, n, col, wrap, m, pick, cfg);
      ChildKept(g, n, col, wrap, m, pick, cfg);
    } else {
      DataPieces(n, col, wrap, cfg);
      var sep := CharPieces(Codes(if n.Text? then Separator(n.whitespace, col, wrap) else ""));
      FeedAppend(g, sep, PiecesOf(Chars(n.data)), m, cfg);
      FeedKept(g, sep, m, pick, cfg);
      FeedKept(FeedAll(g, sep, m, cfg), PiecesOf(Chars(n.data)), m, pick, cfg);
    }
  }

  lemma {:induction false} ChildKept(g: Gathered, n: Node, col: int, wrap: int, m: Mode, pick: Choice, cfg: Config)
    requires KeptGathered(g, m, pick) && n.Element? && GoodKids(n.kids)
    ensures KeptGathered(Child(g, Reread(n, col, wrap, pick, cfg), m), m, pick)
    decreases n, 0
  {
    hide KeptKids, AtTag, GoodKids;
    RereadKept(n, col, wrap, pick, cfg);
    TagKept(g, m, pick);
    KeptMore(AtTag(g, m).kids, Reread(n, col, wrap, pick, cfg), m, pick);
  }

  lemma {:induction false} RereadKept(n: Node, col: int, wrap: int, pick: Choice, cfg: Config)
    requires n.Element? && GoodKids(n.kids)
    ensures KeptKids(Reread(n, col, wrap, pick, cfg).kids, pick(n.name, n.attrs), pick)
    decreases n.kids, 3
  {
    hide KeptKids, AtTag, WriteAttrs, FeedItems, GoodKids, KeptGathered;
    var m := pick(n.name, n.attrs);
    var col' := WriteAttrs(n.attrs, col + |n.name| + 1, wrap).1 + 1;
    NothingKept(m, pick);
    KidsFedKept(NOTHING, n.kids, col', wrap, m, pick, cfg);
    TagKept(FeedItems(NOTHING, ItemsOf(n.kids, col', wrap), m, pick, cfg), m, pick);
  }

  lemma NothingKept(m: Mode, pick: Choice)
    ensures KeptGathered(NOTHING, m, pick)
  {
  }

  lemma {:induction false} KidsFedKept(g: Gathered, kids: seq<Node>, col: int, wrap: int, m: Mode, pick: Choice,
                                       cfg: Config)
    requires KeptGathered(g, m, pick) && GoodKids(kids)
    ensures KeptGathered(FeedItems(g, ItemsOf(kids, col, wrap), m, pick, cfg), m, pick)
    decreases kids, 2
  {
    hide KeptGathered, FeedItem, GoodNode, WriteNode, ItemOf;
    if kids != [] {
      var items := ItemsOf(kids, col, wrap);
      assert items[0] == ItemOf(kids[0], col, wrap);
      assert items[1..] == ItemsOf(kids[1..], WriteNode(kids[0], col, wrap).1, wrap);
      NodeFedKept(g, kids[0], col, wrap, m, pick, cfg);
      KidsFedKept(FeedItem(g, items[0], m, pick, cfg), kids[1..], WriteNode(kids[0], col, wrap).1, wrap, m, pick, cfg);
    }
  }

  // Columns: white space is written between words only past column 0.

  lemma {:induction false} AttrsColumn(attrs: seq<Attr>, col: int, wrap: int)
    requires col >= 0
    ensures WriteAttrs(attrs, col, wrap).1 >= 0
    decreases |attrs|
  {
    if attrs != [] {
      var brk := wrap > 0 && col + AttrWidth(attrs[0]) > wrap;
      AttrsColumn(attrs[1..], (if brk then 0 else col + 1) + AttrWidth(attrs[0]), wrap);
    }
  }

  lemma {:induction false} NodeColumn(n: Node, col: int, wrap: int)
    requires col >= 0 && GoodNode(n)
    ensures WriteNode(n, col, wrap).1 >= 0
    ensures n.Element? || n.data != "" ==> WriteNode(n, col, wrap).1 > 0
    decreases n, 0
  {
    hide WriteAttrs, TagName, GoodAttrs, GoodKids, LoneTag, Escape, WriteName, HasNoEndTag, IsRawTag;
    if n.Element? {
      AttrsColumn(n.attrs, col + |n.name| + 1, wrap);
      if n.kids != [] {
        TagNameWritten(n.name);
        KidsColumn(n.kids, WriteAttrs(n.attrs, col + |n.name| + 1, wrap).1 + 1, wrap);
      }
    }
  }

  lemma {:induction false} KidsColumn(kids: seq<Node>, col: int, wrap: int)
    requires col >= 0 && GoodKids(kids)
    ensures WriteKids(kids, col, wrap).1 >= 0
    decreases kids, 1
  {
    hide WriteNode, GoodNode;
    if kids != [] {
      NodeColumn(kids[0], col, wrap);
      KidsColumn(kids[1..], WriteNode(kids[0], col, wrap).1, wrap);
    }
  }

  // Data of the right kind is read back piece by piece.

  lemma {:induction false} LettersKept(g: Gathered, ps: seq<Piece>, m: Mode, cfg: Config)
    requires Written(ps, cfg) && (m.AsOpaque? || NoSpace(Spelled(ps, cfg)))
    ensures FeedAll(g, ps, m, cfg) == g.(word := g.word + Spelled(ps, cfg))
    decreases |ps|
  {
    hide Encode, NoSpace, Meaning, OneOf, Readable, IsSpace;
    if ps == [] {
      assert g.word + Spelled(ps, cfg) == g.word;
    } else {
      if !m.AsOpaque? { NoSpaceSplit(Encode(Meaning(ps[0], cfg)), Spelled(ps[1..], cfg)); }
      PieceSpace(ps[0], cfg);
      LettersKept(Feed(g, ps[0], m, cfg), ps[1..], m, cfg);
      SpelledCons(g.word, ps, cfg);
    }
  }

  lemma NoSpaceSplit(a: string, b: string)
    requires NoSpace(a + b)
    ensures NoSpace(a) && NoSpace(b)
  {
    forall i | 0 <= i < |a| ensures !IsSpace(a[i] as int) { assert (a + b)[i] == a[i]; }
    forall i | 0 <= i < |b| ensures !IsSpace(b[i] as int) { assert (a + b)[|a| + i] == b[i]; }
  }

  /** `g` is ready for the child `n`: nothing that would run into it, and the white space before a word is still
      to come. */
  predicate Ready(g: Gathered, n: Node, m: Mode) {
    !n.Element? ==>
      if m.AsWords? && n.Text? && n.whitespace then g.word != "" || !g.ws
      else g.word == "" && (m.AsWords? ==> !g.ws)
  }

  /** `g` has just taken in the child `n`. */
  predicate Took(g: Gathered, n: Node, m: Mode) {
    if n.Element? then g.word == "" && (m.AsWords? ==> !g.ws)
    else g.word == n.data && (m.AsWords? ==> n.Text? && g.ws == n.whitespace)
  }

  lemma BlankFed(g: Gathered, whitespace: bool, col: int, wrap: int, m: Mode, cfg: Config)
    requires m.AsWords? && col > 0
    ensures FeedAll(g, CharPieces(Codes(Separator(whitespace, col, wrap))), m, cfg) ==
            if whitespace then Gathered(Ended(g, m).kids, true, "") else g
  {
    hide OneOf, Ended;
    var sep := Codes(Separator(whitespace, col, wrap));
    if whitespace {
      assert |sep| == 1 && IsSpace(sep[0]);
      BlankChar(sep[0]);
      var ps := CharPieces(sep);
      assert ps[0] == Char(sep[0]) && ps[1..] == [];
      assert FeedAll(Feed(g, ps[0], m, cfg), [], m, cfg) == Feed(g, ps[0], m, cfg);
    }
  }

  lemma WordKept(g: Gathered, n: Node, col: int, wrap: int, m: Mode, pick: Choice, cfg: Config)
    requires m.AsWords? && n.Text? && GoodNode(n) && Datum(n, m) && Ready(g, n, m) && col > 0
    ensures var g' := FeedItem(g, ItemOf(n, col, wrap), m, pick, cfg);
            Took(g', n, m) && AtTag(g', m).kids == AtTag(g, m).kids + [n]
  {
    hide StringGetc, FeedAll, PiecesOf, CharPieces, Written, Separator, ItemOf, NoSpace;
    DataPieces(n, col, wrap, cfg);
    var sep := CharPieces(Codes(Separator(n.whitespace, col, wrap)));
    FeedAppend(g, sep, PiecesOf(Chars(n.data)), m, cfg);
    BlankFed(g, n.whitespace, col, wrap, m, cfg);
    LettersKept(FeedAll(g, sep, m, cfg), PiecesOf(Chars(n.data)), m, cfg);
    assert "" + n.data == n.data;
  }

  lemma OpaqueKept(g: Gathered, n: Node, col: int, wrap: int, m: Mode, pick: Choice, cfg: Config)
    requires m.AsOpaque? && n.Opaque? && GoodNode(n) && Datum(n, m) && Ready(g, n, m)
    ensures var g' := FeedItem(g, ItemOf(n, col, wrap), m, pick, cfg);
            Took(g', n, m) && AtTag(g', m).kids == AtTag(g, m).kids + [n]
  {
    hide StringGetc, FeedAll, PiecesOf, Written;
    DataPieces(n, col, wrap, cfg);
    assert CharPieces(Codes("")) + PiecesOf(Chars(n.data)) == PiecesOf(Chars(n.data));
    LettersKept(g, PiecesOf(Chars(n.data)), m, cfg);
    assert "" + n.data == n.data;
  }

  lemma {:induction false} ElementKept(g: Gathered, n: Node, col: int, wrap: int, m: Mode, pick: Choice, cfg: Config)
    requires n.Element? && GoodNode(n) && Kept(n, m, pick) && col >= 0
    ensures var g' := FeedItem(g, ItemOf(n, col, wrap), m, pick, cfg);
            Took(g', n, m) && AtTag(g', m).kids == AtTag(g, m).kids + [n]
    decreases n, 1
  {
    hide AtTag, Reread, GoodKids, GoodNode, KeptKids, ItemOf, FeedItem;
    KidsOf(n);
    ElementFed(g, n, col, wrap, m, pick, cfg);
    RereadSame(n, col, wrap, pick, cfg);
    NothingGathered(AtTag(g, m).kids + [n], m);
  }

  lemma {:induction false} RereadSame(n: Node, col: int, wrap: int, pick: Choice, cfg: Config)
    requires n.Element? && GoodKids(n.kids) && KeptKids(n.kids, pick(n.name, n.attrs), pick) && col >= 0
    ensures Reread(n, col, wrap, pick, cfg) == n
    decreases n, 0
  {
    hide KeptKids, AtTag, WriteAttrs, FeedItems, GoodKids, ItemsOf;
    AttrsColumn(n.attrs, col + |n.name| + 1, wrap);
    KidsSame(NOTHING, n.kids, WriteAttrs(n.attrs, col + |n.name| + 1, wrap).1 + 1, wrap, pick(n.name, n.attrs), pick,
        cfg);
    NothingGathered([], pick(n.name, n.attrs));
  }

  lemma {:induction false} KidsSame(g: Gathered, kids: seq<Node>, col: int, wrap: int, m: Mode, pick: Choice,
                                    cfg: Config)
    requires KeptKids(kids, m, pick) && GoodKids(kids) && col >= 0
    requires kids != [] ==> Ready(g, kids[0], m) && (kids[0].Element? || col > 0)
    ensures AtTag(FeedItems(g, ItemsOf(kids, col, wrap), m, pick, cfg), m).kids == AtTag(g, m).kids + kids
    ensures kids != [] ==> Took(FeedItems(g, ItemsOf(kids, col, wrap), m, pick, cfg), kids[|kids| - 1], m)
    ensures kids != [] && EndsWell(kids, m) ==> WriteKids(kids, col, wrap).1 > 0
    decreases kids, 1
  {
    hide KeptKids, AtTag, WriteNode, GoodNode, FeedItem, Took, Ready, Kept, ItemOf;
    if kids != [] {
      var n, col' := kids[0], WriteNode(kids[0], col, wrap).1;
      var items := ItemsOf(kids, col, wrap);
      assert items[0] == ItemOf(n, col, wrap) && items[1..] == ItemsOf(kids[1..], col', wrap);
      var g' := FeedItem(g, items[0], m, pick, cfg);
      KeptSplit(kids, m, pick);
      NodeSame(g, n, col, wrap, m, pick, cfg);
      NodeColumn(n, col, wrap);
      if |kids| > 1 {
        NextReady(g', n, kids[1], m);
        assert kids[1..][0] == kids[1];
        KidsSame(g', kids[1..], col', wrap, m, pick, cfg);
        assert EndsWell(kids, m) ==> EndsWell(kids[1..], m);
      } else {
        assert kids[1..] == [];
        LastKid(kids, col, wrap);
      }
      assert AtTag(g, m).kids + [n] + kids[1..] == AtTag(g, m).kids + kids;
    }
  }

  lemma {:induction false} NodeSame(g: Gathered, n: Node, col: int, wrap: int, m: Mode, pick: Choice, cfg: Config)
    requires GoodNode(n) && Kept(n, m, pick) && Ready(g, n, m) && col >= 0 && (n.Element? || col > 0)
    ensures var g' := FeedItem(g, ItemOf(n, col, wrap), m, pick, cfg);
            Took(g', n, m) && AtTag(g', m).kids == AtTag(g, m).kids + [n]
    decreases n, 2
  {
    hide KeptKids, AtTag, WriteNode, FeedItem, ItemOf, Took, Ready, GoodKids, TagName, GoodAttrs, LoneTag, IsText;
    hide NoSpace;
    if n.Element? {
      ElementKept(g, n, col, wrap, m, pick, cfg);
    } else if m.AsWords? {
      WordKept(g, n, col, wrap, m, pick, cfg);
    } else {
      OpaqueKept(g, n, col, wrap, m, pick, cfg);
    }
  }

  lemma NextReady(g: Gathered, before: Node, n: Node, m: Mode)
    requires Took(g, before, m) && Apart(before, n, m)
    ensures Ready(g, n, m) && (!before.Element? && !n.Element? ==> before.data != "")
  {
  }

  lemma LastKid(kids: seq<Node>, col: int, wrap: int)
    requires |kids| == 1
    ensures WriteKids(kids, col, wrap).1 == WriteNode(kids[0], col, wrap).1
  {
    hide WriteNode;
    assert kids[1..] == [];
  }

  // -- Roots -------------------------------------------------------------------------------------------------

  lemma {:induction false} FeedItemsAppend(g: Gathered, a: seq<Item>, b: seq<Item>, m: Mode, pick: Choice, cfg: Config)
    ensures FeedItems(g, a + b, m, pick, cfg) == FeedItems(FeedItems(g, a, m, pick, cfg), b, m, pick, cfg)
    decreases |a|
  {
    hide FeedItem;
    if a == [] {
      assert a + b == b;
    } else {
      assert (a + b)[1..] == a[1..] + b;
      FeedItemsAppend(FeedItem(g, a[0], m, pick, cfg), a[1..], b, m, pick, cfg);
    }
  }

  lemma LastItem(g: Gathered, ps: seq<Piece>, m: Mode, pick: Choice, cfg: Config)
    ensures FeedItems(g, [Data(ps)], m, pick, cfg) == FeedAll(g, ps, m, cfg)
  {
    hide FeedAll;
    var items := [Data(ps)];
    assert items[1..] == [] && FeedItem(g, items[0], m, pick, cfg) == FeedAll(g, ps, m, cfg);
  }

  /** What has been gathered at the end of a document whose root has no end tag. */
  ghost function GatheredAtEnd(n: Node, wrap: int, pick: Choice, cfg: Config): (g: Gathered)
    requires n.Element? && GoodKids(n.kids)
  {
    var m := pick(n.name, []);
    FeedAll(FeedItems(NOTHING, ItemsOf(n.kids, |n.name| + 2, wrap), m, pick, cfg),
        CharPieces(Codes(Trailer(n, wrap))), m, cfg)
  }

  lemma ReloadedRoot(n: Node, wrap: int, pick: Choice, cfg: Config)
    requires GoodRoot(n)
    ensures n.Element? && GoodKids(n.kids)
    ensures Reloaded(n, wrap, pick, cfg) ==
            if OpensRoot(n.name) then Element(n.name, [], GatheredAtEnd(n, wrap, pick, cfg).kids)
            else Reread(n, 0, wrap, pick, cfg)
  {
    hide LoneTag, OpensRoot, TagName, GoodAttrs, GoodKids, Trailer, ItemsOf, ItemOf, FeedItems, FeedAll, Reread;
    hide LoneName, Holds;
    hide GoodNode;
    RootOf(n);
    if OpensRoot(n.name) {
      var m := pick(n.name, []);
      var items, end := ItemsOf(n.kids, |n.name| + 2, wrap), CharPieces(Codes(Trailer(n, wrap)));
      LoneWritten(LoneOf(n.name), n.name, cfg);
      FeedItemsAppend(NOTHING, items, [Data(end)], m, pick, cfg);
      LastItem(FeedItems(NOTHING, items, m, pick, cfg), end, m, pick, cfg);
    } else {
      RootReread(n, wrap, pick, cfg);
    }
  }

  lemma RootReread(n: Node, wrap: int, pick: Choice, cfg: Config)
    requires GoodRoot(n) && GoodNode(n) && !OpensRoot(n.name) && GoodKids(n.kids)
    ensures Reloaded(n, wrap, pick, cfg) == Reread(n, 0, wrap, pick, cfg)
  {
    hide LoneTag, OpensRoot, TagName, GoodAttrs, GoodKids, Trailer, ItemOf, Denoted, Reread, LoneName, Holds, GoodNode;
    if TagName(n.name) && GoodAttrs(n.attrs) && GoodKids(n.kids) {
      ElementDenoted(n, 0, wrap, pick, cfg);
    } else {
      LoneIs(n, 0, wrap);
      LoneWritten(LoneOf(n.name), n.name, cfg);
      NoItems(n, 0, wrap, pick, cfg);
    }
  }

  lemma OpenRootSame(n: Node, wrap: int, pick: Choice, cfg: Config)
    requires n.Element? && n.attrs == [] && GoodKids(n.kids) && KeptKids(n.kids, pick(n.name, []), pick)
    requires HasNoEndTag(n.name) && EndsWell(n.kids, pick(n.name, []))
    ensures GatheredAtEnd(n, wrap, pick, cfg).kids == n.kids
  {
    hide KeptKids, WriteKids, FeedItems, GoodKids, HasNoEndTag, WriteName, IsRawTag, ItemsOf, FeedAll, CharPieces;
    var m := pick(n.name, []);
    var items := ItemsOf(n.kids, |n.name| + 2, wrap);
    var g := FeedItems(NOTHING, items, m, pick, cfg);
    NothingGathered([], m);
    KidsSame(NOTHING, n.kids, |n.name| + 2, wrap, m, pick, cfg);
    NewlineFed(g, m, cfg);
    if n.kids == [] {
      assert g == NOTHING by { NoKids(|n.name| + 2, wrap, m, pick, cfg); }
    } else {
      assert WriteNode(n, 0, wrap).1 == WriteKids(n.kids, |n.name| + 2, wrap).1;
    }
  }

  lemma NoKids(col: int, wrap: int, m: Mode, pick: Choice, cfg: Config)
    ensures GoodKids([]) && FeedItems(NOTHING, ItemsOf([], col, wrap), m, pick, cfg) == NOTHING
  {
  }

  lemma NewlineFed(g: Gathered, m: Mode, cfg: Config)
    ensures FeedAll(g, CharPieces(Codes("\n")), m, cfg).kids == if m.AsOpaque? then g.kids else Ended(g, m).kids
    ensures FeedAll(g, CharPieces(Codes("")), m, cfg) == g
  {
    hide OneOf, Encode;
    var ps := CharPieces(Codes("\n"));
    assert Codes("\n") == [10] && ps == [Char(10)] && ps[1..] == [];
    assert OneOf(10, BLANKS) by { BlankChar(10); }
    assert FeedAll(g, ps, m, cfg) == FeedAll(Feed(g, Char(10), m, cfg), [], m, cfg) == Feed(g, Char(10), m, cfg);
  }

  lemma OpenRootKept(n: Node, wrap: int, pick: Choice, cfg: Config)
    requires n.Element? && GoodKids(n.kids)
    ensures var m, kids := pick(n.name, []), GatheredAtEnd(n, wrap, pick, cfg).kids;
            KeptKids(kids, m, pick) && EndsWell(kids, m)
  {
    hide KeptKids, FeedItems, GoodKids, WriteNode, EndsWell, ItemsOf, CharPieces, FeedAll, Written;
    var m := pick(n.name, []);
    NothingKept(m, pick);
    KidsFedKept(NOTHING, n.kids, |n.name| + 2, wrap, m, pick, cfg);
    CodesOfAscii(Trailer(n, wrap));
    CharsWritten(Codes(Trailer(n, wrap)), cfg);
    FeedKept(FeedItems(NOTHING, ItemsOf(n.kids, |n.name| + 2, wrap), m, pick, cfg),
        CharPieces(Codes(Trailer(n, wrap))), m, pick, cfg);
  }

  lemma ReloadedSame(n: Node, wrap: int, pick: Choice, cfg: Config)
    requires GoodRoot(n)
    ensures n.Element? && (Reloaded(n, wrap, pick, cfg) == n <==> Faithful(n, pick))
  {
    hide GoodRoot, GoodNode, OpensRoot, Reread, FeedItems, FeedAll, KeptKids, GoodKids, EndsWell, HasNoEndTag, Trailer;
    hide Reloaded, GatheredAtEnd, LoneTag;
    RootOf(n);
    ReloadedRoot(n, wrap, pick, cfg);
    if OpensRoot(n.name) {
      OpenRootKept(n, wrap, pick, cfg);
      if Faithful(n, pick) { OpenRootSame(n, wrap, pick, cfg); }
    } else {
      RereadKept(n, 0, wrap, pick, cfg);
      if Faithful(n, pick) { RereadSame(n, 0, wrap, pick, cfg); }
    }
  }

  /** The exact condition for a saved document to load as itself, for every wrap margin. */
  lemma RoundTripIff(n: Node, wrap: int, pick: Choice, cfg: Config)
    requires GoodRoot(n) && SavedIn(n, pick, cfg)
    ensures LoadString(SaveText(n, wrap), cfg) == Some(n) <==> Faithful(n, pick)
  {
    hide SavedIn, LoadString, SaveText, Faithful, Reloaded, GoodRoot;
    LoadSaved(n, wrap, pick, cfg);
    ReloadedSame(n, wrap, pick, cfg);
  }

  // -- Plain documents ----------------------------------------------------------------------------------

  predicate PlainName(name: string) {
    name != "" && forall i :: 0 <= i < |name| ==> IsAlnum(name[i] as int)
  }

  ghost predicate PlainAttrs(attrs: seq<Attr>) {
    && DistinctNames(attrs)
    && forall i :: 0 <= i < |attrs| ==>
         PlainName(attrs[i].name) && attrs[i].value.Some? && IsText(attrs[i].value.value)
  }

  /** Elements with plain names and distinct attributes that have values, and text; no text is empty or
      next to other text. */
  ghost predicate Plain(n: Node)
    decreases n
  {
    match n
    case Opaque(data) => IsText(data) && data != ""
    case Text(_, _) => false
    case Element(name, attrs, kids) =>
      && PlainName(name) && PlainAttrs(attrs)
      && (forall i :: 0 <= i < |kids| ==> Plain(kids[i]))
      && (forall i :: 0 < i < |kids| ==> !(kids[i - 1].Opaque? && kids[i].Opaque?))
  }

  /** The same mode everywhere. */
  function Everywhere(m: Mode): (pick: Choice) { (name, attrs) => m }

  lemma {:induction false} PlainNode(n: Node)
    requires Plain(n)
    ensures GoodNode(n) && Kept(n, AsOpaque, Everywhere(AsOpaque))
    decreases n, 1
  {
    hide IsText, TagName, AttrName, LoneTag;
    if n.Element? {
      PlainNames(n.name);
      forall i | 0 <= i < |n.attrs| ensures GoodAttr(n.attrs[i]) { PlainNames(n.attrs[i].name); }
      forall i | 0 <= i < |n.kids|
        ensures GoodNode(n.kids[i]) && Kept(n.kids[i], AsOpaque, Everywhere(AsOpaque))
      {
        PlainNode(n.kids[i]);
      }
      AllGood(n.kids);
      forall i, j | 0 <= i < |n.kids| && j == i + 1 < |n.kids| ensures Apart(n.kids[i], n.kids[j], AsOpaque) {
        assert !(n.kids[j - 1].Opaque? && n.kids[j].Opaque?) && Plain(n.kids[i]) && Plain(n.kids[j]);
      }
    }
  }

  lemma {:induction false} AllGood(kids: seq<Node>)
    requires forall i :: 0 <= i < |kids| ==> GoodNode(kids[i])
    ensures GoodKids(kids)
  {
    hide GoodNode;
    if kids != [] {
      AllGood(kids[1..]);
    }
  }

  /** `MXML_OPAQUE_CALLBACK`. */
  ghost predicate OpaqueCallback(cfg: Config) {
    cfg.cb.Callback? && forall stack: seq<Frame> :: stack != [] ==> cfg.cb.choose(stack) == OpaqueType
  }

  /** Whatever the wrap margin, a plain document survives being saved and loaded, with the order of its
      attributes. */
  lemma PlainRoundTrip(n: Node, wrap: int, cfg: Config)
    requires n.Element? && Plain(n) && OpaqueCallback(cfg)
    ensures LoadString(SaveText(n, wrap), cfg) == Some(n)
  {
    hide GoodNode, LoadString, SaveText, OpensRoot, GoodKids, TagName, AttrName, KeptKids, LoneTag;
    PlainNode(n);
    PlainNames(n.name);
    TagNameCloses(n.name);
    RoundTripIff(n, wrap, Everywhere(AsOpaque), cfg);
  }

  // -- Without a load callback ----------------------------------------------------------------------------

  /** The elements of a document alone. */
  function Stripped(n: Node): (r: Node)
    requires n.Element?
    decreases n, 0
  {
    n.(kids := StrippedKids(n.kids))
  }

  function StrippedKids(kids: seq<Node>): (r: seq<Node>)
    decreases kids, 1
  {
    if kids == [] then []
    else (if kids[0].Element? then [Stripped(kids[0])] else []) + StrippedKids(kids[1..])
  }

  lemma {:induction false} DataDropped(g: Gathered, ps: seq<Piece>, cfg: Config)
    ensures FeedAll(g, ps, Dropped, cfg).kids == g.kids
    decreases |ps|
  {
    hide Encode, OneOf;
    if ps != [] {
      DataDropped(Feed(g, ps[0], Dropped, cfg), ps[1..], cfg);
    }
  }

  lemma {:induction false} NodeDropped(g: Gathered, n: Node, col: int, wrap: int, cfg: Config)
    requires GoodNode(n)
    ensures FeedItem(g, ItemOf(n, col, wrap), Dropped, Everywhere(Dropped), cfg).kids ==
            g.kids + if n.Element? then [Stripped(n)] else []
    decreases n, 1
  {
    hide FeedAll, Reread, Stripped, GoodNode, GoodKids, ItemOf, PiecesOf, CharPieces, Chars, Written;
    if n.Element? {
      KidsOf(n);
      ElementFed(g, n, col, wrap, Dropped, Everywhere(Dropped), cfg);
      RereadDropped(n, col, wrap, cfg);
    } else {
      DataPieces(n, col, wrap, cfg);
      DataDropped(g, ItemOf(n, col, wrap).ps, cfg);
    }
  }

  lemma {:induction false} KidsDropped(g: Gathered, kids: seq<Node>, col: int, wrap: int, cfg: Config)
    requires GoodKids(kids)
    ensures FeedItems(g, ItemsOf(kids, col, wrap), Dropped, Everywhere(Dropped), cfg).kids ==
            g.kids + StrippedKids(kids)
    decreases kids, 1
  {
    hide WriteNode, FeedItem, Stripped, ItemOf, GoodNode;
    if kids != [] {
      var items := ItemsOf(kids, col, wrap);
      assert items[0] == ItemOf(kids[0], col, wrap);
      assert items[1..] == ItemsOf(kids[1..], WriteNode(kids[0], col, wrap).1, wrap);
      NodeDropped(g, kids[0], col, wrap, cfg);
      KidsDropped(FeedItem(g, items[0], Dropped, Everywhere(Dropped), cfg), kids[1..],
                  WriteNode(kids[0], col, wrap).1, wrap, cfg);
    }
  }

  lemma {:induction false} RereadDropped(n: Node, col: int, wrap: int, cfg: Config)
    requires n.Element? && GoodKids(n.kids)
    ensures Reread(n, col, wrap, Everywhere(Dropped), cfg) == Stripped(n)
    decreases n, 0
  {
    hide WriteAttrs, FeedItems, StrippedKids, GoodKids, ItemsOf;
    KidsDropped(NOTHING, n.kids, WriteAttrs(n.attrs, col + |n.name| + 1, wrap).1 + 1, wrap, cfg);
  }

  /** Without a load callback, as with `MXML_TEXT_CALLBACK`, a document under an ordinary root element loses all
      its character data, opaque or text, and comes back unchanged exactly when it had none. */
  lemma DataLost(n: Node, wrap: int, cfg: Config)
    requires GoodRoot(n) && !OpensRoot(n.name) && cfg.cb.NoCallback?
    ensures LoadString(SaveText(n, wrap), cfg) == Some(Stripped(n))
    ensures LoadString(SaveText(n, wrap), cfg) == Some(n) <==> Kept(n, Dropped, Everywhere(Dropped))
  {
    hide GoodRoot, GoodNode, LoadString, SaveText, KeptKids, OpensRoot, GoodKids, Reread, Stripped, Reloaded, LoneTag;
    RootOf(n);
    LoadSaved(n, wrap, Everywhere(Dropped), cfg);
    RoundTripIff(n, wrap, Everywhere(Dropped), cfg);
    ReloadedRoot(n, wrap, Everywhere(Dropped), cfg);
    RereadDropped(n, 0, wrap, cfg);
  }

  /** The element `a` with the word `x` in it, saved and loaded with `MXML_TEXT_CALLBACK`: the word is gone. */
  lemma WordLost(wrap: int, cfg: Config)
    requires cfg.cb.NoCallback?
    ensures LoadString(SaveText(Element("a", [], [Text(false, "x")]), wrap), cfg) == Some(Element("a", [], []))
  {
    hide LoadString, SaveText, TagName, OpensRoot, IsText, LoneTag;
    var kids := [Text(false, "x")];
    PlainNames("a");
    TagNameCloses("a");
    AsciiText("x");
    assert kids[1..] == [];
    assert GoodKids(kids) by { NoneGood(); }
    assert StrippedKids(kids) == [] by { assert StrippedKids([]) == []; }
    DataLost(Element("a", [], kids), wrap, cfg);
  }
}
