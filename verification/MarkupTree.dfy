/** The tree that XML text denotes, and that the loader builds it, whatever way the text is spelled. */
module MarkupTree {
  import opened CStrings
  import opened Loader
  import opened Markup
  import opened Spelling
  import opened Utf8
  import opened XmlTree

  // -- Documents -------------------------------------------------------------------------------------------

  /** What can stand inside an element.  An element that ends in a slash has no content; `extra` is what stands
      between the name in its close tag and the `>`. */
  datatype Item =
    | Data(ps: seq<Piece>)
    | Single(lone: Lone)
    | Nested(name: seq<Piece>, attrs: seq<Attribute>, gap: string, end: string, items: seq<Item>, close: seq<Piece>,
             extra: Stream)

  function OpenText(item: Item): (s: Stream)
    requires item.Nested?
  {
    ['<' as int] + (PiecesText(item.name) + TailText(item.attrs, item.gap, item.end))
  }

  function CloseText(item: Item): (s: Stream)
    requires item.Nested?
  {
    ['<' as int, '/' as int] + (PiecesText(item.close) + (item.extra + ['>' as int]))
  }

  function ItemText(item: Item): (s: Stream)
    decreases item, 0
  {
    match item
    case Data(ps) => PiecesText(ps)
    case Single(lone) => ['<' as int] + (LoneText(lone) + ['>' as int])
    case Nested(_, _, _, end, items, _, _) =>
      if end == "/>" then OpenText(item) else OpenText(item) + (ItemsText(items) + CloseText(item))
  }

  function ItemsText(items: seq<Item>): (s: Stream)
    decreases items, 1
  {
    if items == [] then [] else ItemText(items[0]) + ItemsText(items[1..])
  }

  ghost predicate GoodItem(item: Item, cfg: Config)
    decreases item, 0
  {
    match item
    case Data(ps) => AllProper(ps, "<", cfg)
    case Single(lone) => GoodLone(lone, cfg)
    case Nested(name, attrs, gap, end, items, close, extra) =>
      && GoodTag(name, attrs, gap, end, cfg)
      && (end != "/>" ==>
            && GoodItems(items, cfg) && AllProper(close, TAG_BREAKS, cfg) && GoodExtra(extra)
            && Spelled(close, cfg) == Spelled(name, cfg))
  }

  ghost predicate GoodItems(items: seq<Item>, cfg: Config)
    decreases items, 1
  {
    items != [] ==> GoodItem(items[0], cfg) && GoodItems(items[1..], cfg)
  }

  /** Text before the root; and the root, with text after it, or a processing instruction or declaration and
      everything up to the end of the input. */
  datatype Document =
    | Closed(prolog: seq<Piece>, root: Item, epilog: seq<Piece>)
    | OpenEnded(prolog: seq<Piece>, head: Lone, items: seq<Item>)

  function DocumentText(d: Document): (s: Stream) {
    match d
    case Closed(prolog, root, epilog) => PiecesText(prolog) + (ItemText(root) + PiecesText(epilog))
    case OpenEnded(prolog, head, items) =>
      PiecesText(prolog) + (['<' as int] + (LoneText(head) + (['>' as int] + ItemsText(items))))
  }

  ghost predicate GoodDocument(d: Document, cfg: Config) {
    && AllProper(d.prolog, "<", cfg)
    && match d
       case Closed(_, root, epilog) =>
         && GoodItem(root, cfg) && AllProper(epilog, "<", cfg)
         && (root.Nested? || (root.Single? && !Opens(root.lone)))
       case OpenEnded(_, head, items) => GoodLone(head, cfg) && Opens(head) && GoodItems(items, cfg)
  }

  // -- What becomes of character data ----------------------------------------------------------------------

  /** Data is kept as it is; or it is cut into words, with empty text nodes for white space before a tag unless
      `off`; or it is dropped. */
  datatype Mode = AsOpaque | AsWords(off: bool) | Dropped

  function VTypeOf(m: Mode): (vtype: VType) {
    match m
    case AsOpaque => OpaqueType
    case AsWords(_) => TextType
    case Dropped => Ignore
  }

  /** The mode inside each element, by its name and attributes. */
  type Choice = (string, seq<Attr>) -> Mode

  /** A load callback that goes by name and attributes makes the choice; without one the mode never changes. */
  ghost predicate Suits(pick: Choice, cfg: Config) {
    && (cfg.cb.Callback? ==>
          forall stack: seq<Frame> :: stack != [] ==>
            cfg.cb.choose(stack) == VTypeOf(pick(stack[|stack| - 1].name, stack[|stack| - 1].attrs)))
    && (cfg.cb.NoCallback? ==> forall n, a, n', a' :: pick(n, a) == pick(n', a'))
    && (forall n, a :: pick(n, a).AsWords? ==> pick(n, a).off == cfg.loneWsOff)
  }

  /** The choice for a document.  Without a callback, as with `MXML_TEXT_CALLBACK`, which is NULL, data is cut
      into words inside a processing instruction or declaration that holds the document; under any other root it
      is dropped. */
  ghost predicate ReadIn(pick: Choice, openEnded: bool, cfg: Config) {
    && Suits(pick, cfg)
    && (cfg.cb.NoCallback? ==> if openEnded then pick("", []).AsWords? else pick("", []).Dropped?)
  }

  /** The children so far, whether white space has been seen since the last one, and the data being read. */
  datatype Gathered = Gathered(kids: seq<Node>, ws: bool, word: string)

  const NOTHING := Gathered([], false, "")

  /** Data that has ended. */
  function Ended(g: Gathered, m: Mode): (r: Gathered) {
    if g.word == "" then g
    else
      Gathered(g.kids + (match m
                         case AsOpaque => [Opaque(g.word)]
                         case AsWords(_) => [Text(g.ws, g.word)]
                         case Dropped => []), false, "")
  }

  /** At a tag the data ends, and white space alone may become an empty text node. */
  function AtTag(g: Gathered, m: Mode): (r: Gathered) {
    var e := Ended(g, m);
    Gathered(if m.AsWords? && e.ws && !m.off then e.kids + [Text(true, "")] else e.kids, false, "")
  }

  /** One character of data; a reference is never white space. */
  function Feed(g: Gathered, p: Piece, m: Mode, cfg: Config): (r: Gathered) {
    if p.Char? && OneOf(p.c, BLANKS) && !m.AsOpaque? then Gathered(Ended(g, m).kids, true, "")
    else g.(word := g.word + Encode(Meaning(p, cfg)))
  }

  function FeedAll(g: Gathered, ps: seq<Piece>, m: Mode, cfg: Config): (r: Gathered)
    decreases |ps|
  {
    if ps == [] then g else FeedAll(Feed(g, ps[0], m, cfg), ps[1..], m, cfg)
  }

  /** A tag ends the data before it, and is a child itself. */
  function Child(g: Gathered, n: Node, m: Mode): (r: Gathered) {
    Gathered(AtTag(g, m).kids + [n], false, "")
  }

  function FeedItem(g: Gathered, item: Item, m: Mode, pick: Choice, cfg: Config): (r: Gathered)
    decreases item, 1
  {
    match item
    case Data(ps) => FeedAll(g, ps, m, cfg)
    case Single(lone) => Child(g, Element(LoneName(lone, cfg), [], []), m)
    case Nested(_, _, _, _, _, _, _) => Child(g, Denoted(item, pick, cfg), m)
  }

  function FeedItems(g: Gathered, items: seq<Item>, m: Mode, pick: Choice, cfg: Config): (r: Gathered)
    decreases items, 2
  {
    if items == [] then g else FeedItems(FeedItem(g, items[0], m, pick, cfg), items[1..], m, pick, cfg)
  }

  /** The element that a piece of text denotes. */
  function Denoted(item: Item, pick: Choice, cfg: Config): (n: Node)
    requires item.Nested?
    decreases item, 0
  {
    var name, attrs := Spelled(item.name, cfg), AttrsOf(item.attrs, cfg);
    var m := pick(name, attrs);
    Element(name, attrs, if item.end == "/>" then [] else AtTag(FeedItems(NOTHING, item.items, m, pick, cfg), m).kids)
  }

  /** The tree that a document denotes.  In an open-ended one data that no tag and no white space ends is lost. */
  function DocumentTree(d: Document, pick: Choice, cfg: Config): (n: Node) {
    match d
    case Closed(_, root, _) =>
      if root.Nested? then Denoted(root, pick, cfg)
      else if root.Single? then Element(LoneName(root.lone, cfg), [], []) else Opaque("")
    case OpenEnded(_, head, items) =>
      var name := LoneName(head, cfg);
      Element(name, [], FeedItems(NOTHING, items, pick(name, []), pick, cfg).kids)
  }

  // -- Turns of the main loop --------------------------------------------------------------------------------

  /** At a tag, what has been gathered becomes a node. */
  function Flushed(st: State, cfg: Config): (r: State) {
    LoneSpace(Flush(st, '<' as int), cfg).(buf := "")
  }

  lemma StepTag(st: State, s: Stream, cfg: Config)
    ensures Step(st, ['<' as int] + s, cfg) == Tag(Flushed(st, cfg), s, cfg)
  {
    assert (['<' as int] + s)[1..] == s;
  }

  /** Inside the open element `f`, whose ancestors are `outer`. */
  function Within(outer: seq<Frame>, f: Frame, g: Gathered, pick: Choice): (st: State) {
    var m := pick(f.name, f.attrs);
    State(outer + [f.(kids := g.kids)], None, VTypeOf(m), g.ws && m.AsWords?, g.word)
  }

  lemma LeafWithin(outer: seq<Frame>, f: Frame, g: Gathered, n: Node, pick: Choice)
    ensures AddLeaf(Within(outer, f, g, pick), n) == Within(outer, f, g.(kids := g.kids + [n]), pick)
  {
    assert (outer + [f.(kids := g.kids)])[..|outer|] == outer;
  }

  lemma FlushWithin(outer: seq<Frame>, f: Frame, g: Gathered, pick: Choice, cfg: Config)
    requires Suits(pick, cfg)
    ensures Flushed(Within(outer, f, g, pick), cfg) == Within(outer, f, AtTag(g, pick(f.name, f.attrs)), pick)
  {
    hide AddLeaf;
    var m := pick(f.name, f.attrs);
    assert g.kids + [] == g.kids;
    LeafWithin(outer, f, g, Text(g.ws, g.word), pick);
    LeafWithin(outer, f, g, Opaque(g.word), pick);
    LeafWithin(outer, f, Ended(g, m), Text(true, ""), pick);
  }

  /** One piece of data is one turn. */
  lemma StepData(outer: seq<Frame>, f: Frame, g: Gathered, p: Piece, tail: Stream, pick: Choice, cfg: Config)
    requires Proper(p, "<", cfg)
    ensures Step(Within(outer, f, g, pick), PieceText(p) + tail, cfg) ==
            Next(Within(outer, f, Feed(g, p, pick(f.name, f.attrs), cfg), pick), tail)
  {
    hide Encode, GetEntity, Markup.Proper, AddLeaf, Meaning, PieceText, OneOf;
    ResolvePiece(p, "<", tail, cfg);
    if p.Char? {
      DataChar(p, cfg);
      CharText(p.c, tail);
      assert g.kids + [] == g.kids;
      LeafWithin(outer, f, g, Text(g.ws, g.word), pick);
    } else {
      ResolveReference(PieceText(p) + tail, cfg);
    }
  }

  lemma DataChar(p: Piece, cfg: Config)
    requires Proper(p, "<", cfg) && p.Char?
    ensures p.c != '<' as int && p.c != '&' as int && p.c != EOF && Meaning(p, cfg) == p.c
    ensures OneOf(p.c, BLANKS) <==> IsSpace(p.c)
  {
    assert p.c != "<"[0] as int;
    BlankChar(p.c);
  }

  lemma RunNext(st: State, s: Stream, st': State, rest: Stream, cfg: Config)
    requires Step(st, s, cfg) == Next(st', rest)
    ensures Run(st, s, cfg) == Run(st', rest, cfg)
  {
    hide Step;
  }

  lemma {:induction false} RunData(outer: seq<Frame>, f: Frame, g: Gathered, ps: seq<Piece>, rest: Stream, pick: Choice,
                                   cfg: Config)
    requires AllProper(ps, "<", cfg)
    ensures Run(Within(outer, f, g, pick), PiecesText(ps) + rest, cfg) ==
            Run(Within(outer, f, FeedAll(g, ps, pick(f.name, f.attrs), cfg), pick), rest, cfg)
    decreases |ps|
  {
    hide Step, Run, Feed, Within, Markup.Proper, PieceText;
    if ps == [] {
      assert PiecesText(ps) + rest == rest;
    } else {
      var g' := Feed(g, ps[0], pick(f.name, f.attrs), cfg);
      PiecesCons(ps, rest);
      StepData(outer, f, g, ps[0], PiecesText(ps[1..]) + rest, pick, cfg);
      RunNext(Within(outer, f, g, pick), PiecesText(ps) + rest, Within(outer, f, g', pick),
          PiecesText(ps[1..]) + rest, cfg);
      RunData(outer, f, g', ps[1..], rest, pick, cfg);
    }
  }

  // -- The content of an open element ------------------------------------------------------------------------

  lemma RetypeWithin(outer: seq<Frame>, f: Frame, g: Gathered, pick: Choice, vtype: VType, cfg: Config)
    requires Suits(pick, cfg) && (cfg.cb.NoCallback? ==> vtype == VTypeOf(pick(f.name, f.attrs)))
    ensures Retype(Within(outer, f, g, pick).(vtype := vtype), cfg, vtype) == Within(outer, f, g, pick)
  {
    var stack := outer + [f.(kids := g.kids)];
    assert stack[|stack| - 1] == f.(kids := g.kids);
  }

  lemma OpenWithin(outer: seq<Frame>, f: Frame, g: Gathered, name: string, attrs: seq<Attr>, pick: Choice, cfg: Config)
    requires Suits(pick, cfg) && g.word == "" && !g.ws
    ensures var st := Within(outer, f, g, pick);
            Retype(Open(st, name, attrs), cfg, st.vtype) ==
            Within(outer + [f.(kids := g.kids)], Frame(name, attrs, []), NOTHING, pick)
  {
    RetypeWithin(outer + [f.(kids := g.kids)], Frame(name, attrs, []), NOTHING, pick, VTypeOf(pick(f.name, f.attrs)),
        cfg);
  }

  lemma TagEnds(g: Gathered, m: Mode)
    ensures AtTag(g, m).word == "" && !AtTag(g, m).ws
  {
  }

  lemma RunSingle(outer: seq<Frame>, f: Frame, g: Gathered, lone: Lone, rest: Stream, pick: Choice, cfg: Config)
    requires GoodLone(lone, cfg) && Suits(pick, cfg)
    ensures var g' := Child(g, Element(LoneName(lone, cfg), [], []), pick(f.name, f.attrs));
            Run(Within(outer, f, g, pick), ItemText(Single(lone)) + rest, cfg) ==
                Run(Within(outer, f, g', pick), rest, cfg)
  {
    hide Step, Run, Flushed, AtTag, LoneText, LoneName, GoodLone, Opens, Tag;
    var m := pick(f.name, f.attrs);
    var n := Element(LoneName(lone, cfg), [], []);
    var s := LoneText(lone) + (['>' as int] + rest);
    assert ItemText(Single(lone)) + rest == ['<' as int] + s;
    FlushWithin(outer, f, g, pick, cfg);
    TagEnds(g, m);
    LeafWithin(outer, f, AtTag(g, m), n, pick);
    StepTag(Within(outer, f, g, pick), s, cfg);
    LoneRead(Within(outer, f, AtTag(g, m), pick), lone, rest, cfg);
    RunNext(Within(outer, f, g, pick), ['<' as int] + s, Within(outer, f, Child(g, n, m), pick), rest, cfg);
  }

  /** Whatever is open, in whatever mode: the loader takes in an item as what it denotes. */
  lemma {:induction false} RunItem(outer: seq<Frame>, f: Frame, g: Gathered, item: Item, rest: Stream, pick: Choice,
                                   cfg: Config)
    requires GoodItem(item, cfg) && Suits(pick, cfg)
    ensures var g' := FeedItem(g, item, pick(f.name, f.attrs), pick, cfg);
            Run(Within(outer, f, g, pick), ItemText(item) + rest, cfg) == Run(Within(outer, f, g', pick), rest, cfg)
    decreases item, 0
  {
    hide Step, Run, Within, GoodTag, GoodLone, Suits, LoneText, Denoted;
    match item
    case Data(ps) =>
      RunData(outer, f, g, ps, rest, pick, cfg);
    case Single(lone) =>
      RunSingle(outer, f, g, lone, rest, pick, cfg);
    case Nested(_, _, _, end, items, close, extra) =>
      if end == "/>" {
        RunEmpty(outer, f, g, item, rest, pick, cfg);
      } else {
        var name, attrs := Spelled(item.name, cfg), AttrsOf(item.attrs, cfg);
        var f' := f.(kids := AtTag(g, pick(f.name, f.attrs)).kids);
        var inner := Frame(name, attrs, []);
        RunOpen(outer, f, g, item, ItemsText(items) + (CloseText(item) + rest), pick, cfg);
        RunItems(outer + [f'], inner, NOTHING, items, CloseText(item) + rest, pick, cfg);
        RunClose(outer, f', item, FeedItems(NOTHING, items, pick(name, attrs), pick, cfg), rest, pick, cfg);
        assert ItemText(item) + rest == OpenText(item) + (ItemsText(items) + (CloseText(item) + rest));
        DenotedFull(item, pick, cfg);
        assert f'.kids == AtTag(g, pick(f.name, f.attrs)).kids;
        SameFrame(outer, f, f', Child(g, Denoted(item, pick, cfg), pick(f.name, f.attrs)), pick);
      }
  }

  lemma DenotedFull(item: Item, pick: Choice, cfg: Config)
    requires item.Nested?
    ensures var name, attrs := Spelled(item.name, cfg), AttrsOf(item.attrs, cfg);
            var m := pick(name, attrs);
            Denoted(item, pick, cfg) ==
            Element(name, attrs,
                    if item.end == "/>" then [] else AtTag(FeedItems(NOTHING, item.items, m, pick, cfg), m).kids)
  {
  }

  /** The children are in what is gathered, not in the frame. */
  lemma SameFrame(outer: seq<Frame>, f: Frame, f': Frame, g: Gathered, pick: Choice)
    requires f'.name == f.name && f'.attrs == f.attrs
    ensures Within(outer, f, g, pick) == Within(outer, f', g, pick)
  {
  }

  lemma RunEmpty(outer: seq<Frame>, f: Frame, g: Gathered, item: Item, rest: Stream, pick: Choice, cfg: Config)
    requires item.Nested? && item.end == "/>" && GoodTag(item.name, item.attrs, item.gap, item.end, cfg)
    requires Suits(pick, cfg)
    ensures var g' := Child(g, Denoted(item, pick, cfg), pick(f.name, f.attrs));
            Run(Within(outer, f, g, pick), OpenText(item) + rest, cfg) == Run(Within(outer, f, g', pick), rest, cfg)
  {
    hide Step, Run, Flushed, AtTag, GoodTag, Tag, TailText, PiecesText, Spelled, AttrsOf, Suits, Denoted;
    var m := pick(f.name, f.attrs);
    DenotedFull(item, pick, cfg);
    var n := Denoted(item, pick, cfg);
    var s := PiecesText(item.name) + (TailText(item.attrs, item.gap, item.end) + rest);
    assert OpenText(item) + rest == ['<' as int] + s;
    FlushWithin(outer, f, g, pick, cfg);
    TagEnds(g, m);
    LeafWithin(outer, f, AtTag(g, m), n, pick);
    StepTag(Within(outer, f, g, pick), s, cfg);
    ElementRead(Within(outer, f, AtTag(g, m), pick), item.name, item.attrs, item.gap, item.end, rest, cfg);
    RunNext(Within(outer, f, g, pick), ['<' as int] + s, Within(outer, f, Child(g, n, m), pick), rest, cfg);
  }

  lemma RunOpen(outer: seq<Frame>, f: Frame, g: Gathered, item: Item, rest: Stream, pick: Choice, cfg: Config)
    requires item.Nested? && item.end != "/>" && GoodTag(item.name, item.attrs, item.gap, item.end, cfg)
    requires Suits(pick, cfg)
    ensures var f' := f.(kids := AtTag(g, pick(f.name, f.attrs)).kids);
            var inner := Frame(Spelled(item.name, cfg), AttrsOf(item.attrs, cfg), []);
            Run(Within(outer, f, g, pick), OpenText(item) + rest, cfg) ==
            Run(Within(outer + [f'], inner, NOTHING, pick), rest, cfg)
  {
    hide Step, Run, Flushed, AtTag, GoodTag, Tag, TailText, PiecesText, Spelled, AttrsOf, Suits, Retype, Open;
    var m := pick(f.name, f.attrs);
    var name, attrs := Spelled(item.name, cfg), AttrsOf(item.attrs, cfg);
    var s := PiecesText(item.name) + (TailText(item.attrs, item.gap, item.end) + rest);
    assert OpenText(item) + rest == ['<' as int] + s;
    FlushWithin(outer, f, g, pick, cfg);
    TagEnds(g, m);
    StepTag(Within(outer, f, g, pick), s, cfg);
    ElementRead(Within(outer, f, AtTag(g, m), pick), item.name, item.attrs, item.gap, item.end, rest, cfg);
    OpenWithin(outer, f, AtTag(g, m), name, attrs, pick, cfg);
    RunNext(Within(outer, f, g, pick), ['<' as int] + s,
            Within(outer + [f.(kids := AtTag(g, m).kids)], Frame(name, attrs, []), NOTHING, pick), rest, cfg);
  }

  /** The close tag makes the innermost element a child of its parent, and the parent's mode counts again. */
  lemma RunClose(outer: seq<Frame>, f: Frame, item: Item, g: Gathered, rest: Stream, pick: Choice, cfg: Config)
    requires item.Nested? && AllProper(item.close, TAG_BREAKS, cfg) && GoodExtra(item.extra) && Suits(pick, cfg)
    requires Spelled(item.close, cfg) == Spelled(item.name, cfg)
    ensures var name, attrs := Spelled(item.name, cfg), AttrsOf(item.attrs, cfg);
            var n := Element(name, attrs, AtTag(g, pick(name, attrs)).kids);
            Run(Within(outer + [f], Frame(name, attrs, []), g, pick), CloseText(item) + rest, cfg) ==
            Run(Within(outer, f, Gathered(f.kids + [n], false, ""), pick), rest, cfg)
  {
    hide Step, Run, Flushed, AtTag, Tag, PiecesText, Spelled, AttrsOf, Suits, GoodExtra, AllProper, Retype;
    var name, attrs := Spelled(item.name, cfg), AttrsOf(item.attrs, cfg);
    var inner := Frame(name, attrs, []);
    var g' := AtTag(g, pick(name, attrs));
    var n := Element(name, attrs, g'.kids);
    var s := ['/' as int] + (PiecesText(item.close) + (item.extra + (['>' as int] + rest)));
    var from := Within(outer + [f], inner, g, pick);
    var st := Within(outer + [f], inner, g', pick);
    assert CloseText(item) + rest == ['<' as int] + s;
    FlushWithin(outer + [f], inner, g, pick, cfg);
    TagEnds(g, pick(name, attrs));
    StepTag(from, s, cfg);
    CloseRead(st, item.close, item.extra, rest, cfg);
    PopWithin(outer, f, inner, g', n, pick, cfg);
    RunNext(from, ['<' as int] + s, Within(outer, f, Gathered(f.kids + [n], false, ""), pick), rest, cfg);
  }

  lemma PopWithin(outer: seq<Frame>, f: Frame, inner: Frame, g: Gathered, n: Node, pick: Choice, cfg: Config)
    requires Suits(pick, cfg) && g.word == "" && !g.ws && n == Element(inner.name, inner.attrs, g.kids)
    ensures var st := Within(outer + [f], inner, g, pick);
            && Pop(st).stack != []
            && Retype(Pop(st), cfg, st.vtype) == Within(outer, f, Gathered(f.kids + [n], false, ""), pick)
  {
    var st := Within(outer + [f], inner, g, pick);
    var to := Within(outer, f, Gathered(f.kids + [n], false, ""), pick);
    assert st.stack[..|outer| + 1] == outer + [f];
    LeafWithin(outer, f, Gathered(f.kids, false, ""), n, pick);
    assert Pop(st) == to.(vtype := st.vtype);
    RetypeWithin(outer, f, Gathered(f.kids + [n], false, ""), pick, st.vtype, cfg);
  }

  lemma {:induction false} RunItems(outer: seq<Frame>, f: Frame, g: Gathered, items: seq<Item>, rest: Stream,
                                    pick: Choice, cfg: Config)
    requires GoodItems(items, cfg) && Suits(pick, cfg)
    ensures var g' := FeedItems(g, items, pick(f.name, f.attrs), pick, cfg);
            Run(Within(outer, f, g, pick), ItemsText(items) + rest, cfg) == Run(Within(outer, f, g', pick), rest, cfg)
    decreases items, 1
  {
    hide Run, Within, GoodItem, ItemText, FeedItem, Suits;
    if items == [] {
      assert ItemsText(items) + rest == rest;
    } else {
      var more := ItemsText(items[1..]) + rest;
      assert ItemsText(items) + rest == ItemText(items[0]) + more;
      RunItem(outer, f, g, items[0], more, pick, cfg);
      RunItems(outer, f, FeedItem(g, items[0], pick(f.name, f.attrs), pick, cfg), items[1..], rest, pick, cfg);
    }
  }

  // -- Documents ---------------------------------------------------------------------------------------------

  /** Data before the root is gathered in vain. */
  lemma {:induction false} RunProlog(buf: string, ps: seq<Piece>, rest: Stream, cfg: Config) returns (left: string)
    requires AllProper(ps, "<", cfg)
    ensures Run(START.(buf := buf), PiecesText(ps) + rest, cfg) == Run(START.(buf := left), rest, cfg)
    decreases |ps|
  {
    hide Step, Run, Markup.Proper, PieceText;
    if ps == [] {
      assert PiecesText(ps) + rest == rest;
      left := buf;
    } else {
      PiecesCons(ps, rest);
      var next := StepProlog(buf, ps[0], PiecesText(ps[1..]) + rest, cfg);
      RunNext(START.(buf := buf), PiecesText(ps) + rest, START.(buf := next), PiecesText(ps[1..]) + rest, cfg);
      left := RunProlog(next, ps[1..], rest, cfg);
    }
  }

  lemma StepProlog(buf: string, p: Piece, tail: Stream, cfg: Config) returns (next: string)
    requires Proper(p, "<", cfg)
    ensures Step(START.(buf := buf), PieceText(p) + tail, cfg) == Next(START.(buf := next), tail)
  {
    hide Encode, GetEntity, Markup.Proper, Meaning, PieceText, OneOf;
    ResolvePiece(p, "<", tail, cfg);
    if p.Char? {
      DataChar(p, cfg);
      CharText(p.c, tail);
    } else {
      ResolveReference(PieceText(p) + tail, cfg);
    }
    next := if p.Char? && IsSpace(p.c) then "" else buf + Encode(Meaning(p, cfg));
  }

  lemma FlushStart(buf: string, cfg: Config)
    ensures Flushed(START.(buf := buf), cfg) == START
  {
  }

  /** Data after a closed root changes nothing. */
  lemma {:induction false} RunEpilog(n: Node, vtype: VType, ws: bool, buf: string, ps: seq<Piece>, cfg: Config)
    requires AllProper(ps, "<", cfg)
    ensures Run(State([], Some(n), vtype, ws, buf), PiecesText(ps), cfg) == Some(n)
    decreases |ps|
  {
    hide Step, Markup.Proper, PieceText;
    if ps == [] {
      EndOfInput(State([], Some(n), vtype, ws, buf), cfg);
    } else {
      var vtype', ws', buf' := StepEpilog(n, vtype, ws, buf, ps[0], PiecesText(ps[1..]), cfg);
      RunNext(State([], Some(n), vtype, ws, buf), PiecesText(ps), State([], Some(n), vtype', ws', buf'),
              PiecesText(ps[1..]), cfg);
      RunEpilog(n, vtype', ws', buf', ps[1..], cfg);
    }
  }

  lemma StepEpilog(n: Node, vtype: VType, ws: bool, buf: string, p: Piece, tail: Stream, cfg: Config)
    returns (vtype': VType, ws': bool, buf': string)
    requires Proper(p, "<", cfg)
    ensures Step(State([], Some(n), vtype, ws, buf), PieceText(p) + tail, cfg) ==
            Next(State([], Some(n), vtype', ws', buf'), tail)
  {
    hide Encode, GetEntity, Markup.Proper, Meaning, PieceText, OneOf;
    ResolvePiece(p, "<", tail, cfg);
    if p.Char? {
      DataChar(p, cfg);
      CharText(p.c, tail);
    } else {
      ResolveReference(PieceText(p) + tail, cfg);
    }
    var st := Step(State([], Some(n), vtype, ws, buf), PieceText(p) + tail, cfg).st;
    vtype', ws', buf' := st.vtype, st.ws, st.buf;
  }

  lemma EndOfInput(st: State, cfg: Config)
    ensures Run(st, [], cfg) == Finish(st)
  {
  }

  /** The tag of an element as root. */
  lemma StepRoot(buf: string, item: Item, rest: Stream, cfg: Config)
    requires item.Nested? && GoodTag(item.name, item.attrs, item.gap, item.end, cfg)
    ensures var name, attrs := Spelled(item.name, cfg), AttrsOf(item.attrs, cfg);
            Step(START.(buf := buf), OpenText(item) + rest, cfg) ==
            if item.end == "/>" then Next(AddLeaf(START, Element(name, attrs, [])), rest)
            else Next(Retype(Open(START, name, attrs), cfg, START.vtype), rest)
  {
    hide Step, Flushed, GoodTag, Tag, TailText, PiecesText, Spelled, AttrsOf, Retype, Open, AddLeaf;
    var s := PiecesText(item.name) + (TailText(item.attrs, item.gap, item.end) + rest);
    assert OpenText(item) + rest == ['<' as int] + s;
    FlushStart(buf, cfg);
    StepTag(START.(buf := buf), s, cfg);
    NoSecondRoot();
    ElementRead(START, item.name, item.attrs, item.gap, item.end, rest, cfg);
  }

  lemma NoSecondRoot()
    ensures !SecondRoot(START)
  {
  }

  /** An element as root. */
  lemma RunRoot(buf: string, item: Item, rest: Stream, pick: Choice, cfg: Config) returns (vtype: VType)
    requires item.Nested? && GoodItem(item, cfg) && ReadIn(pick, false, cfg)
    ensures Run(START.(buf := buf), ItemText(item) + rest, cfg) ==
            Run(State([], Some(Denoted(item, pick, cfg)), vtype, false, ""), rest, cfg)
  {
    hide Step, Run, GoodTag, OpenText, Spelled, AttrsOf, Denoted, GoodItems, CloseText, ItemsText, GoodExtra, AllProper;
    hide Retype, Open, Within, ReadIn;
    DenotedFull(item, pick, cfg);
    if item.end == "/>" {
      vtype := Ignore;
      StepRoot(buf, item, rest, cfg);
      RunNext(START.(buf := buf), OpenText(item) + rest, AddLeaf(START, Denoted(item, pick, cfg)), rest, cfg);
    } else {
      var name, attrs := Spelled(item.name, cfg), AttrsOf(item.attrs, cfg);
      var more := ItemsText(item.items) + (CloseText(item) + rest);
      var inside := Within([], Frame(name, attrs, []), NOTHING, pick);
      assert ItemText(item) + rest == OpenText(item) + more;
      StepRoot(buf, item, more, cfg);
      OpenRoot(name, attrs, pick, cfg);
      RunNext(START.(buf := buf), OpenText(item) + more, inside, more, cfg);
      assert Suits(pick, cfg) by { SuitsRoot(pick, cfg); }
      RunItems([], Frame(name, attrs, []), NOTHING, item.items, CloseText(item) + rest, pick, cfg);
      vtype := RunLastClose(item, FeedItems(NOTHING, item.items, pick(name, attrs), pick, cfg), rest, pick, cfg);
    }
  }

  lemma SuitsRoot(pick: Choice, cfg: Config)
    requires ReadIn(pick, false, cfg)
    ensures Suits(pick, cfg)
  {
  }

  lemma OpenRoot(name: string, attrs: seq<Attr>, pick: Choice, cfg: Config)
    requires ReadIn(pick, false, cfg)
    ensures Retype(Open(START, name, attrs), cfg, START.vtype) == Within([], Frame(name, attrs, []), NOTHING, pick)
  {
    var stack := [Frame(name, attrs, [])];
    assert stack[|stack| - 1] == Frame(name, attrs, []);
    assert Open(START, name, attrs).stack == stack;
  }

  lemma RunLastClose(item: Item, g: Gathered, rest: Stream, pick: Choice, cfg: Config) returns (vtype: VType)
    requires item.Nested? && AllProper(item.close, TAG_BREAKS, cfg) && GoodExtra(item.extra) && Suits(pick, cfg)
    requires Spelled(item.close, cfg) == Spelled(item.name, cfg)
    ensures var name, attrs := Spelled(item.name, cfg), AttrsOf(item.attrs, cfg);
            var n := Element(name, attrs, AtTag(g, pick(name, attrs)).kids);
            Run(Within([], Frame(name, attrs, []), g, pick), CloseText(item) + rest, cfg) ==
            Run(State([], Some(n), vtype, false, ""), rest, cfg)
  {
    hide Step, Run, Flushed, AtTag, Tag, PiecesText, Spelled, AttrsOf, Suits, GoodExtra, AllProper;
    var name, attrs := Spelled(item.name, cfg), AttrsOf(item.attrs, cfg);
    var f := Frame(name, attrs, []);
    var g' := AtTag(g, pick(name, attrs));
    var s := ['/' as int] + (PiecesText(item.close) + (item.extra + (['>' as int] + rest)));
    var from, st := Within([], f, g, pick), Within([], f, g', pick);
    assert CloseText(item) + rest == ['<' as int] + s;
    FlushWithin([], f, g, pick, cfg);
    TagEnds(g, pick(name, attrs));
    StepTag(from, s, cfg);
    CloseRead(st, item.close, item.extra, rest, cfg);
    vtype := st.vtype;
    RunNext(from, ['<' as int] + s, Pop(st), rest, cfg);
  }

  /** A comment or CDATA section as root. */
  lemma RunLoneRoot(buf: string, lone: Lone, rest: Stream, cfg: Config)
    requires GoodLone(lone, cfg) && !Opens(lone)
    ensures Run(START.(buf := buf), ItemText(Single(lone)) + rest, cfg) ==
            Run(State([], Some(Element(LoneName(lone, cfg), [], [])), Ignore, false, ""), rest, cfg)
  {
    hide Step, Run, Flushed, LoneText, LoneName, GoodLone, Tag;
    var s := LoneText(lone) + (['>' as int] + rest);
    assert ItemText(Single(lone)) + rest == ['<' as int] + s;
    FlushStart(buf, cfg);
    StepTag(START.(buf := buf), s, cfg);
    LoneRead(START, lone, rest, cfg);
    RunNext(START.(buf := buf), ['<' as int] + s, AddLeaf(START, Element(LoneName(lone, cfg), [], [])), rest, cfg);
  }

  /** A processing instruction or declaration that holds the document. */
  lemma RunHead(buf: string, head: Lone, rest: Stream, pick: Choice, cfg: Config)
    requires GoodLone(head, cfg) && Opens(head) && ReadIn(pick, true, cfg)
    ensures Run(START.(buf := buf), ['<' as int] + (LoneText(head) + (['>' as int] + rest)), cfg) ==
            Run(Within([], Frame(LoneName(head, cfg), [], []), NOTHING, pick), rest, cfg)
  {
    hide Step, Run, Flushed, LoneText, LoneName, GoodLone, Tag, Retype;
    var s := LoneText(head) + (['>' as int] + rest);
    FlushStart(buf, cfg);
    StepTag(START.(buf := buf), s, cfg);
    LoneRead(START, head, rest, cfg);
    OpenHead(LoneName(head, cfg), pick, cfg);
    RunNext(START.(buf := buf), ['<' as int] + s, Within([], Frame(LoneName(head, cfg), [], []), NOTHING, pick),
        rest, cfg);
  }

  lemma OpenHead(name: string, pick: Choice, cfg: Config)
    requires ReadIn(pick, true, cfg)
    ensures Retype(Open(START, name, []), cfg, TextType) == Within([], Frame(name, [], []), NOTHING, pick)
  {
    var stack := [Frame(name, [], [])];
    assert stack[|stack| - 1] == Frame(name, [], []);
    assert Open(START, name, []).stack == stack;
  }

  lemma SingleGood(item: Item, cfg: Config)
    requires item.Single? && GoodItem(item, cfg)
    ensures GoodLone(item.lone, cfg) && item == Single(item.lone)
  {
  }

  lemma LoadClosed(prolog: seq<Piece>, root: Item, epilog: seq<Piece>, pick: Choice, cfg: Config)
    requires GoodDocument(Closed(prolog, root, epilog), cfg) && ReadIn(pick, false, cfg)
    ensures Load(DocumentText(Closed(prolog, root, epilog)), cfg) ==
            Some(DocumentTree(Closed(prolog, root, epilog), pick, cfg))
  {
    hide Run, PiecesText, ItemText, GoodLone, GoodItem, AllProper, Denoted, LoneName, Opens, ReadIn;
    var buf := RunProlog("", prolog, ItemText(root) + PiecesText(epilog), cfg);
    if root.Nested? {
      var vtype := RunRoot(buf, root, PiecesText(epilog), pick, cfg);
      RunEpilog(Denoted(root, pick, cfg), vtype, false, "", epilog, cfg);
    } else {
      SingleGood(root, cfg);
      RunLoneRoot(buf, root.lone, PiecesText(epilog), cfg);
      RunEpilog(Element(LoneName(root.lone, cfg), [], []), Ignore, false, "", epilog, cfg);
    }
  }

  lemma LoadOpenEnded(prolog: seq<Piece>, head: Lone, items: seq<Item>, pick: Choice, cfg: Config)
    requires GoodDocument(OpenEnded(prolog, head, items), cfg) && ReadIn(pick, true, cfg)
    ensures Load(DocumentText(OpenEnded(prolog, head, items)), cfg) ==
            Some(DocumentTree(OpenEnded(prolog, head, items), pick, cfg))
  {
    hide Run, PiecesText, ItemsText, LoneText, GoodLone, GoodItems, AllProper, FeedItems, LoneName, Opens, ReadIn;
    var name := LoneName(head, cfg);
    var f := Frame(name, [], []);
    var buf := RunProlog("", prolog, ['<' as int] + (LoneText(head) + (['>' as int] + ItemsText(items))), cfg);
    RunHead(buf, head, ItemsText(items), pick, cfg);
    assert ItemsText(items) + [] == ItemsText(items);
    assert Suits(pick, cfg) by { SuitsHead(pick, cfg); }
    RunItems([], f, NOTHING, items, [], pick, cfg);
    EndOfInput(Within([], f, FeedItems(NOTHING, items, pick(name, []), pick, cfg), pick), cfg);
  }

  lemma SuitsHead(pick: Choice, cfg: Config)
    requires ReadIn(pick, true, cfg)
    ensures Suits(pick, cfg)
  {
  }

  /** Every document, in every spelling, with every load callback that goes by name and attributes, or none:
      the loader builds the tree it denotes. */
  lemma LoadDocument(d: Document, pick: Choice, cfg: Config)
    requires GoodDocument(d, cfg) && ReadIn(pick, d.OpenEnded?, cfg)
    ensures Load(DocumentText(d), cfg) == Some(DocumentTree(d, pick, cfg))
  {
    hide Load, DocumentText, GoodDocument, ReadIn, DocumentTree;
    match d
    case Closed(prolog, root, epilog) => LoadClosed(prolog, root, epilog, pick, cfg);
    case OpenEnded(prolog, head, items) => LoadOpenEnded(prolog, head, items, pick, cfg);
  }

  /** The same for a string that spells the document. */
  lemma LoadText(text: string, d: Document, pick: Choice, cfg: Config)
    requires Chars(text) == DocumentText(d) && GoodDocument(d, cfg) && ReadIn(pick, d.OpenEnded?, cfg)
    ensures LoadString(text, cfg) == Some(DocumentTree(d, pick, cfg))
  {
    hide Chars, DocumentText, GoodDocument, ReadIn, DocumentTree, Load;
    LoadDocument(d, pick, cfg);
  }

  /** Where the input ends inside open elements: with one open, that is the document, with the children it has so far;
      with more it is refused. */
  lemma RunCut(outer: seq<Frame>, f: Frame, g: Gathered, items: seq<Item>, pick: Choice, cfg: Config)
    requires GoodItems(items, cfg) && Suits(pick, cfg)
    ensures Run(Within(outer, f, g, pick), ItemsText(items), cfg) ==
            if outer == []
            then Some(Element(f.name, f.attrs, FeedItems(g, items, pick(f.name, f.attrs), pick, cfg).kids))
            else None
  {
    hide Run, ItemsText, GoodItems, FeedItems, Suits;
    assert ItemsText(items) + [] == ItemsText(items);
    RunItems(outer, f, g, items, [], pick, cfg);
    EndOfInput(Within(outer, f, FeedItems(g, items, pick(f.name, f.attrs), pick, cfg), pick), cfg);
  }

  /** A root that is never closed loads with the children it has so far. */
  lemma LoadUnclosed(prolog: seq<Piece>, root: Item, pick: Choice, cfg: Config)
    requires AllProper(prolog, "<", cfg) && root.Nested? && root.end != "/>" && ReadIn(pick, false, cfg)
    requires GoodTag(root.name, root.attrs, root.gap, root.end, cfg) && GoodItems(root.items, cfg)
    ensures var name, attrs := Spelled(root.name, cfg), AttrsOf(root.attrs, cfg);
            Load(PiecesText(prolog) + (OpenText(root) + ItemsText(root.items)), cfg) ==
            Some(Element(name, attrs, FeedItems(NOTHING, root.items, pick(name, attrs), pick, cfg).kids))
  {
    hide Step, Run, PiecesText, OpenText, ItemsText, GoodTag, GoodItems, AllProper, FeedItems, Spelled, AttrsOf, ReadIn;
    hide Retype, Open, Within;
    var name, attrs := Spelled(root.name, cfg), AttrsOf(root.attrs, cfg);
    var buf := RunProlog("", prolog, OpenText(root) + ItemsText(root.items), cfg);
    StepRoot(buf, root, ItemsText(root.items), cfg);
    OpenRoot(name, attrs, pick, cfg);
    var inside := Within([], Frame(name, attrs, []), NOTHING, pick);
    RunNext(START.(buf := buf), OpenText(root) + ItemsText(root.items), inside, ItemsText(root.items), cfg);
    SuitsRoot(pick, cfg);
    RunCut([], Frame(name, attrs, []), NOTHING, root.items, pick, cfg);
  }
}
