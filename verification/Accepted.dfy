/** The loader accepts nothing but XML text: whatever it reads is spelled as `Markup` says, so everything else is
    refused. */
module Accepted {
  import opened Attributes
  import opened CStrings
  import opened Entities
  import opened Loader
  import opened Markup
  import opened Spelling
  import opened Utf8
  import opened XmlTree

  // -- References --------------------------------------------------------------------------------------------

  lemma CodesCons(c: int, s: string)
    requires 0 <= c < 0x80
    ensures Codes([c as char] + s) == [c] + Codes(s)
  {
    assert ([c as char] + s)[1..] == s;
  }

  lemma LettersCons(c: int, s: string)
    requires (IsAlnum(c) || c == '#' as int) && Letters(s)
    ensures Letters([c as char] + s)
  {
  }

  predicate GoesOn(s: Stream, acc: string) {
    Head(s) != EOF && Head(s) <= 126 && (IsAlnum(Head(s)) || Head(s) == '#' as int) && |acc| < 63
  }

  lemma EntityStep(s: Stream, acc: string, cfg: Config)
    ensures GoesOn(s, acc) ==> GetEntity(s, acc, cfg) == GetEntity(Rest(s), acc + [Head(s) as char], cfg)
    ensures !GoesOn(s, acc) && GetEntity(s, acc, cfg).ch != EOF ==>
              && s != [] && s[0] == ';' as int && GetEntity(s, acc, cfg) == Read(EntityValue(acc, cfg), s[1..])
              && !BadChar(EntityValue(acc, cfg))
  {
    hide EntityValue;
  }

  lemma Prepend(c: int, a: Stream, b: Stream, s: Stream)
    requires s != [] && s[0] == c && s[1..] == a + b
    ensures s == [c] + a + b
  {
    assert s == [c] + s[1..];
  }

  /** `name` is what was read of an entity after `acc`. */
  predicate Entity(s: Stream, acc: string, name: string, r: Read, cfg: Config) {
    && Letters(name) && |acc| + |name| <= 63 && s == Codes(name) + ([';' as int] + r.rest)
    && r.ch == EntityValue(acc + name, cfg) && !BadChar(r.ch)
  }

  lemma EntityEnds(s: Stream, acc: string, cfg: Config)
    requires !GoesOn(s, acc) && GetEntity(s, acc, cfg).ch != EOF && |acc| <= 63
    ensures Entity(s, acc, "", GetEntity(s, acc, cfg), cfg)
  {
    hide GetEntity, EntityValue, BadChar, GoesOn;
    EntityStep(s, acc, cfg);
    NoLetters();
    assert acc + "" == acc && s == [s[0]] + s[1..];
  }

  lemma EntityGoes(s: Stream, acc: string, more: string, r: Read, cfg: Config)
    requires GoesOn(s, acc) && Entity(Rest(s), acc + [Head(s) as char], more, r, cfg)
    ensures Entity(s, acc, [Head(s) as char] + more, r, cfg)
  {
    hide EntityValue, BadChar, Letters, Codes;
    var ch := Head(s);
    assert acc + [ch as char] + more == acc + ([ch as char] + more);
    CodesCons(ch, more);
    LettersCons(ch, more);
    Prepend(ch, Codes(more), [';' as int] + r.rest, s);
  }

  lemma {:induction false} EntityShape(s: Stream, acc: string, cfg: Config) returns (name: string)
    requires GetEntity(s, acc, cfg).ch != EOF && |acc| <= 63
    ensures Entity(s, acc, name, GetEntity(s, acc, cfg), cfg)
    decreases |s|
  {
    hide GetEntity, Entity, IsAlnum;
    EntityStep(s, acc, cfg);
    if GoesOn(s, acc) {
      LetterRange(Head(s));
      var more := EntityShape(Rest(s), acc + [Head(s) as char], cfg);
      name := [Head(s) as char] + more;
      EntityGoes(s, acc, more, GetEntity(s, acc, cfg), cfg);
    } else {
      name := "";
      EntityEnds(s, acc, cfg);
    }
  }

  lemma LetterRange(c: int)
    requires IsAlnum(c) || c == '#' as int
    ensures 0 <= c < 0x80
  {
  }

  lemma NoLetters()
    ensures Letters("") && Codes("") == []
  {
  }

  /** The piece for what stands between `&` and `;`. */
  lemma NamePiece(name: string, marks: string, cfg: Config) returns (p: Piece)
    requires Letters(name) && |name| <= 63 && !BadChar(EntityValue(name, cfg))
    ensures !p.Char? && Proper(p, marks, cfg) && Meaning(p, cfg) == EntityValue(name, cfg)
    ensures PieceText(p) == ['&' as int] + (Codes(name) + [';' as int])
  {
    hide GetValue;
    if name != "" && name[0] == '#' {
      p := Numbered(name[1..]);
      assert name == "#" + name[1..];
      assert Codes(name) == ['#' as int] + Codes(name[1..]);
    } else {
      p := Named(name);
    }
  }

  /** A character that a reader of names, values or text goes past, or a reference. */
  lemma ResolveShape(s: Stream, marks: string, cfg: Config) returns (p: Piece)
    requires s != [] && AllReadable(s) && (s[0] == '&' as int || NoneOf(s[0], marks))
    requires Resolve(s[0], s[1..], cfg).ch != EOF
    ensures var r := Resolve(s[0], s[1..], cfg);
            && Proper(p, marks, cfg) && s == PieceText(p) + r.rest && r.ch == Meaning(p, cfg) && AllReadable(r.rest)
            && |r.rest| < |s|
  {
    hide GetEntity, Markup.Proper, Meaning, EntityValue, PieceText, NoneOf;
    if s[0] == '&' as int {
      var r := Resolve(s[0], s[1..], cfg);
      p := ReferenceShape(s[1..], marks, cfg);
      assert s == ['&' as int] + s[1..];
      SuffixReadable(PieceText(p), r.rest);
    } else {
      p := CharShape(s, marks, cfg);
    }
  }

  lemma CharShape(s: Stream, marks: string, cfg: Config) returns (p: Piece)
    requires s != [] && AllReadable(s) && s[0] != '&' as int && NoneOf(s[0], marks)
    ensures Proper(p, marks, cfg) && s == PieceText(p) + s[1..] && Meaning(p, cfg) == s[0]
  {
    hide NoneOf;
    p := Char(s[0]);
    assert s == [s[0]] + s[1..];
  }

  lemma SuffixReadable(a: Stream, b: Stream)
    requires AllReadable(a + b)
    ensures AllReadable(b)
  {
    forall i | 0 <= i < |b| ensures Readable(b[i]) { assert (a + b)[|a| + i] == b[i]; }
  }

  /** A reference is read exactly when it is spelled with at most 63 letters, digits and `#`, ends in a semicolon, and
      stands for a character. */
  lemma ReferenceIff(s: Stream, cfg: Config)
    ensures GetEntity(s, "", cfg).ch != EOF <==>
            exists p: Piece, rest: Stream :: !p.Char? && Proper(p, "", cfg) && ['&' as int] + s == PieceText(p) + rest
  {
    hide GetEntity, GetValue, Markup.Proper, PieceText;
    if GetEntity(s, "", cfg).ch != EOF {
      var p := ReferenceShape(s, "", cfg);
    }
    if p: Piece, rest: Stream :| !p.Char? && Proper(p, "", cfg) && ['&' as int] + s == PieceText(p) + rest {
      ResolvePiece(p, "", rest, cfg);
      assert (['&' as int] + s)[1..] == s;
      ResolveReference(['&' as int] + s, cfg);
    }
  }

  lemma ReferenceShape(s: Stream, marks: string, cfg: Config) returns (p: Piece)
    requires GetEntity(s, "", cfg).ch != EOF
    ensures var r := GetEntity(s, "", cfg);
            && !p.Char? && Proper(p, marks, cfg) && ['&' as int] + s == PieceText(p) + r.rest && r.ch == Meaning(p, cfg)
  {
    hide GetEntity, Markup.Proper, Meaning, EntityValue, PieceText, Letters, Codes;
    var name := EntityShape(s, "", cfg);
    assert "" + name == name;
    p := NamePiece(name, marks, cfg);
  }

  // -- Attributes --------------------------------------------------------------------------------------------

  lemma MoreProper(p: Piece, ps: seq<Piece>, marks: string, cfg: Config)
    requires Proper(p, marks, cfg) && AllProper(ps, marks, cfg)
    ensures AllProper([p] + ps, marks, cfg)
  {
    hide Markup.Proper;
  }

  lemma MoreSpelled(acc: string, p: Piece, ps: seq<Piece>, rest: Stream, cfg: Config)
    ensures PiecesText([p] + ps) + rest == PieceText(p) + (PiecesText(ps) + rest)
    ensures acc + Encode(Meaning(p, cfg)) + Spelled(ps, cfg) == acc + Spelled([p] + ps, cfg)
  {
    hide Encode, Meaning, PieceText;
    assert ([p] + ps)[1..] == ps;
  }

  lemma NotAMark(c: int, quote: char)
    requires c != quote as int
    ensures NoneOf(c, [quote])
  {
  }

  /** What has been read up to an end quote. */
  lemma {:induction false} QuotesShape(s: Stream, quote: char, acc: string, cfg: Config) returns (ps: seq<Piece>)
    requires AllReadable(s) && quote != '&'
    requires QuotedValue(s, quote as int, acc, cfg).Chunk? && QuotedValue(s, quote as int, acc, cfg).ch != EOF
    ensures var r := QuotedValue(s, quote as int, acc, cfg);
            && AllProper(ps, [quote], cfg) && s == PiecesText(ps) + ([quote as int] + r.rest)
            && r.buf == acc + Spelled(ps, cfg) && r.ch == quote as int && AllReadable(r.rest)
    decreases |s|
  {
    hide Resolve, Markup.Proper, Meaning, Encode, PieceText, Readable;
    if s[0] == quote as int {
      ps := [];
      assert acc + "" == acc && s == [] + ([quote as int] + s[1..]);
    } else {
      NotAMark(s[0], quote);
      var c := Resolve(s[0], s[1..], cfg);
      var p := ResolveShape(s, [quote], cfg);
      var more := QuotesShape(c.rest, quote, acc + Encode(c.ch), cfg);
      ps := [p] + more;
      MoreProper(p, more, [quote], cfg);
      MoreSpelled(acc, p, more, [quote as int] + QuotedValue(s, quote as int, acc, cfg).rest, cfg);
    }
  }

  /** What has been read of an unquoted name or value. */
  lemma {:induction false} PlainShape(s: Stream, isValue: bool, acc: string, cfg: Config) returns (ps: seq<Piece>)
    requires AllReadable(s) && Plain(s, isValue, acc, cfg).Chunk? && Plain(s, isValue, acc, cfg).ch != EOF
    ensures var r, ends := Plain(s, isValue, acc, cfg), if isValue then VALUE_ENDS else NAME_ENDS;
            && AllProper(ps, ends, cfg) && s == PiecesText(ps) + ([r.ch] + r.rest)
            && r.buf == acc + Spelled(ps, cfg) && OneOf(r.ch, ends) && AllReadable(r.rest)
    decreases |s|
  {
    hide Resolve, Markup.Proper, Meaning, Encode, PieceText, Readable, EndsName, EndsValue, OneOf, NoneOf;
    var r, ends := Plain(s, isValue, acc, cfg), if isValue then VALUE_ENDS else NAME_ENDS;
    Ends(s[0]);
    if if isValue then EndsValue(s[0]) else EndsName(s[0]) {
      ps := [];
      assert acc + "" == acc && s == [] + ([s[0]] + s[1..]);
    } else {
      var c := Resolve(s[0], s[1..], cfg);
      var p := ResolveShape(s, ends, cfg);
      var more := PlainShape(c.rest, isValue, acc + Encode(c.ch), cfg);
      ps := [p] + more;
      MoreProper(p, more, ends, cfg);
      MoreSpelled(acc, p, more, [r.ch] + r.rest, cfg);
    }
  }

  lemma BlankCons(c: int, s: string)
    requires IsSpace(c) && Blank(s)
    ensures Blank([c as char] + s)
  {
    hide OneOf;
    BlankChar(c);
    var t := [c as char] + s;
    forall i | 0 <= i < |t| ensures OneOf(t[i] as int, BLANKS) {
      assert i > 0 ==> t[i] == s[i - 1];
    }
  }

  lemma {:induction false} BlanksShape(ch: int, s: Stream) returns (gap: string)
    requires SkipSpace(ch, s).ch != EOF
    ensures var r := SkipSpace(ch, s);
            && Blank(gap) && [ch] + s == Codes(gap) + ([r.ch] + r.rest) && NoneOf(r.ch, BLANKS)
    decreases |s|
  {
    hide OneOf, NoneOf, Blank, Codes, SkipSpace;
    SkipStep(ch, s);
    if IsSpace(ch) {
      var more := BlanksShape(Head(s), Rest(s));
      var r := SkipSpace(ch, s);
      gap := [ch as char] + more;
      BlankCons(ch, more);
      CodesCons(ch, more);
      assert s == [s[0]] + s[1..];
      Prepend(ch, Codes(more), [r.ch] + r.rest, [ch] + s);
    } else {
      NotBlank(ch);
      gap := "";
      NoBlanks();
      assert [ch] + s == [] + ([ch] + s);
    }
  }

  lemma SkipStep(ch: int, s: Stream)
    requires SkipSpace(ch, s).ch != EOF
    ensures IsSpace(ch) ==> s != [] && s[0] != EOF && SkipSpace(ch, s) == SkipSpace(s[0], s[1..])
    ensures !IsSpace(ch) ==> SkipSpace(ch, s) == Read(ch, s)
  {
  }

  lemma NoBlanks()
    ensures Blank("") && Codes("") == []
  {
  }

  /** A name in quotes is never followed by an equals sign. */
  lemma {:induction false} QuotedNameEnds(s: Stream, quote: int, acc: string, cfg: Config)
    requires QuotedName(s, quote, acc, cfg).Chunk?
    ensures QuotedName(s, quote, acc, cfg).ch == quote || QuotedName(s, quote, acc, cfg).ch == EOF
    decreases |s|
  {
    hide Resolve, Encode;
    if Head(s) != EOF {
      var c := Resolve(Head(s), Rest(s), cfg);
      if c.ch != EOF && c.ch != quote {
        QuotedNameEnds(c.rest, quote, acc + Encode(c.ch), cfg);
      }
    }
  }

  lemma QuotedNameRefused(attrs: seq<Attr>, ch: int, s: Stream, cfg: Config)
    requires ch == '\"' as int || ch == '\'' as int
    ensures ParseAttr(attrs, ch, s, cfg) == BadAttr
  {
    hide QuotedName, GetAttr, CStr, ParseValue;
    if ParseName(ch, s, cfg).Chunk? { QuotedNameEnds(s, ch, Raw(ch), cfg); }
  }

  /** An attribute name and the white space up to the equals sign. */
  lemma NameShape(ch: int, s: Stream, cfg: Config) returns (more: seq<Piece>, before: string)
    requires AllReadable(s) && ch != '\"' as int && ch != '\'' as int
    requires ParseName(ch, s, cfg).Chunk?
    requires SkipSpace(ParseName(ch, s, cfg).ch, ParseName(ch, s, cfg).rest).ch == '=' as int
    ensures var n := ParseName(ch, s, cfg);
            var eq := SkipSpace(n.ch, n.rest);
            && AllProper(more, NAME_ENDS, cfg) && Blank(before) && n.buf == Raw(ch) + Spelled(more, cfg)
            && s == PiecesText(more) + (Codes(before) + (['=' as int] + eq.rest)) && AllReadable(eq.rest)
  {
    hide Plain, SkipSpace, AllReadable, AllProper, Spelled, PiecesText, Blank, Codes, OneOf;
    var n := ParseName(ch, s, cfg);
    assert n == Plain(s, false, Raw(ch), cfg);
    EofStays(n.ch, n.rest);
    more := PlainShape(s, false, Raw(ch), cfg);
    before := BlanksShape(n.ch, n.rest);
    var eq := SkipSpace(n.ch, n.rest);
    assert s == PiecesText(more) + Codes(before) + ['=' as int] + eq.rest;
    SuffixReadable(PiecesText(more) + Codes(before) + ['=' as int], eq.rest);
  }

  lemma EofStays(ch: int, s: Stream)
    ensures ch == EOF ==> SkipSpace(ch, s).ch == EOF
  {
  }

  /** A value up to its end quote, or up to the character that ends it. */
  lemma ValueShape(ch: int, s: Stream, cfg: Config) returns (v: Value)
    requires Readable(ch) && AllReadable(s) && NoneOf(ch, BLANKS)
    requires ParseValue(ch, s, cfg).Chunk? && ParseValue(ch, s, cfg).ch != EOF
    ensures var r := ParseValue(ch, s, cfg);
            && GoodValue(v, cfg) && (v.Bare? ==> v.skipped == "") && ValueOfText(v, cfg) == r.buf && AllReadable(r.rest)
            && [ch] + s == ValueText(v) + (if v.Bare? then [r.ch] + r.rest else r.rest)
            && if v.Bare? then OneOf(r.ch, VALUE_ENDS) else r.ch == v.quote as int
  {
    hide Plain, QuotedValue, AllReadable, AllProper, Spelled, PiecesText, OneOf, NoneOf, Readable;
    var r := ParseValue(ch, s, cfg);
    if ch == '\"' as int || ch == '\'' as int {
      var quote := ch as char;
      var ps := QuotesShape(s, quote, "", cfg);
      assert "" + Spelled(ps, cfg) == Spelled(ps, cfg);
      v := InQuotes(quote, ps);
      assert [ch] + (PiecesText(ps) + ([ch] + r.rest)) == [ch] + (PiecesText(ps) + [ch]) + r.rest;
    } else {
      var ps := PlainShape(s, true, Raw(ch), cfg);
      v := Bare(ch, ps, "");
      BareMarks(ch);
      assert PiecesText(ps) + Codes("") == PiecesText(ps);
      assert [ch] + (PiecesText(ps) + ([r.ch] + r.rest)) == [ch] + PiecesText(ps) + ([r.ch] + r.rest);
    }
  }

  lemma BareMarks(c: int)
    requires NoneOf(c, BLANKS) && c != '\"' as int && c != '\'' as int
    ensures NoneOf(c, " \t\r\n\"\'")
  {
    var marks := " \t\r\n\"\'";
    forall i | 0 <= i < |marks| ensures c != marks[i] as int {
      assert i < 4 ==> marks[i] == BLANKS[i];
    }
  }

  predicate AllSome(attrs: seq<Attr>) { forall i :: 0 <= i < |attrs| ==> attrs[i].value.Some? }

  lemma {:induction false} AbsentName(attrs: seq<Attr>, name: string)
    requires AllSome(attrs) && GetAttr(attrs, name).None?
    ensures !HasAttr(attrs, name)
  {
    if attrs != [] {
      AbsentName(attrs[1..], name);
      forall i | 0 <= i < |attrs| ensures attrs[i].name != name {
        assert i > 0 ==> attrs[i] == attrs[1..][i - 1];
      }
    }
  }

  /** The parts of `ParseAttr`. */
  lemma AttrParsed(attrs: seq<Attr>, ch: int, s: Stream, cfg: Config)
    requires ParseAttr(attrs, ch, s, cfg).OneAttr?
    ensures var n := ParseName(ch, s, cfg);
            && n.Chunk? && GetAttr(attrs, CStr(n.buf)).None?
            && var eq := SkipSpace(n.ch, n.rest);
            && eq.ch == '=' as int
            && var first := SkipSpace(Head(eq.rest), Rest(eq.rest));
            && first.ch != EOF
            && var v := ParseValue(first.ch, first.rest, cfg);
            && v.Chunk? && ParseAttr(attrs, ch, s, cfg) == OneAttr(CStr(n.buf), CStr(v.buf), v.ch, v.rest)
  {
    hide ParseName, ParseValue, SkipSpace, GetAttr, CStr;
  }

  /** What follows an attribute in the text: what ended an unquoted value is not part of it. */
  function Behind(a: Attribute, r: OneAttr): (s: Stream)
    requires r.OneAttr?
  {
    if a.value.Bare? then [r.ch] + r.rest else r.rest
  }

  /** One attribute. */
  lemma AttrShape(attrs: seq<Attr>, ch: int, s: Stream, cfg: Config) returns (a: Attribute)
    requires Readable(ch) && AllReadable(s) && NoneOf(ch, " \t\r\n/?<>") && AllSome(attrs)
    requires ParseAttr(attrs, ch, s, cfg).OneAttr? && ParseAttr(attrs, ch, s, cfg).ch != EOF
    ensures var r := ParseAttr(attrs, ch, s, cfg);
            && GoodAttribute(a, cfg) && AttrOf(a, cfg) == Attr(r.name, Some(r.value)) && !HasAttr(attrs, r.name)
            && (a.value.Bare? ==> a.value.skipped == "" && OneOf(r.ch, VALUE_ENDS))
            && (a.value.InQuotes? ==> r.ch == '\"' as int || r.ch == '\'' as int)
            && [ch] + s == AttributeText(a) + Behind(a, r) && AllReadable(r.rest)
  {
    hide ParseName, ParseValue, SkipSpace, GetAttr, CStr, ParseAttr, AllReadable, AllProper, Spelled, PiecesText, OneOf;
    hide NoneOf, Readable, Codes, Blank, ValueText, ValueOfText, HasAttr, AllSome;
    AttrParsed(attrs, ch, s, cfg);
    if ch == '\"' as int || ch == '\'' as int { QuotedNameRefused(attrs, ch, s, cfg); }
    var n := ParseName(ch, s, cfg);
    var more, before := NameShape(ch, s, cfg);
    AbsentName(attrs, CStr(n.buf));
    var eq := SkipSpace(n.ch, n.rest);
    var first := SkipSpace(Head(eq.rest), Rest(eq.rest));
    var after := FirstOfValue(eq.rest);
    var v := ValueShape(first.ch, first.rest, cfg);
    var r := ParseValue(first.ch, first.rest, cfg);
    a := Attribute("", ch, more, before, after, v);
    NameMarks(ch);
    NoBlanks();
    assert GoodValue(v, cfg);
    var tail := if v.Bare? then [r.ch] + r.rest else r.rest;
    assert eq.rest == Codes(after) + (ValueText(v) + tail);
    AttributeJoined(a, tail);
    assert [ch] + s ==
        [ch] + (PiecesText(more) + (Codes(before) + (['=' as int] + (Codes(after) + (ValueText(v) + tail)))));
  }

  lemma AttributeJoined(a: Attribute, tail: Stream)
    requires a.gap == ""
    ensures AttributeText(a) + tail ==
            [a.first] + (PiecesText(a.more)
                         + (Codes(a.before) + (['=' as int] + (Codes(a.after) + (ValueText(a.value) + tail)))))
  {
    hide PiecesText, ValueText;
    assert Codes(a.gap) + NameText(a) == NameText(a);
  }

  lemma FirstOfValue(s: Stream) returns (after: string)
    requires AllReadable(s) && SkipSpace(Head(s), Rest(s)).ch != EOF
    ensures var first := SkipSpace(Head(s), Rest(s));
            && Blank(after) && s == Codes(after) + ([first.ch] + first.rest) && NoneOf(first.ch, BLANKS)
            && Readable(first.ch) && AllReadable(first.rest)
  {
    hide SkipSpace, Blank, Codes, NoneOf, Readable;
    EofStays(Head(s), Rest(s));
    var first := SkipSpace(Head(s), Rest(s));
    after := BlanksShape(Head(s), Rest(s));
    assert s == [Head(s)] + Rest(s);
    SuffixReadable(Codes(after), [first.ch] + first.rest);
    assert ([first.ch] + first.rest)[0] == first.ch;
    SuffixReadable([first.ch], first.rest);
  }

  lemma NameMarks(c: int)
    requires NoneOf(c, " \t\r\n/?<>") && c != '\"' as int && c != '\'' as int
    ensures NoneOf(c, " \t\r\n/?<>\"\'")
  {
    var few, marks := " \t\r\n/?<>", " \t\r\n/?<>\"\'";
    forall i | 0 <= i < |marks| ensures c != marks[i] as int {
      assert i < 8 ==> marks[i] == few[i];
    }
  }

  // -- The inside of a tag -----------------------------------------------------------------------------------

  /** The attributes `list`, white space and the end of a tag. */
  predicate GoodTail(list: seq<Attribute>, gap: string, end: string, cfg: Config) {
    && (forall i :: 0 <= i < |list| ==> GoodAttribute(list[i], cfg)) && Blank(gap) && TagEnding(end)
    && Spaced(list, Codes(gap) + Codes(end))
  }

  /** They are spelled at the start of `s`, and the loader read them as `r` after `before`. */
  ghost predicate ReadAs(before: seq<Attr>, s: Stream, r: Parsed, list: seq<Attribute>, gap: string, end: string,
                         cfg: Config) {
    && GoodTail(list, gap, end, cfg) && DistinctNames(before + AttrsOf(list, cfg))
    && s == TailText(list, gap, end) + r.rest && r.attrs == before + AttrsOf(list, cfg) && r.ch == end[0] as int
  }

  lemma NoAttributes(before: seq<Attr>, end: string, rest: Stream, cfg: Config)
    requires TagEnding(end) && DistinctNames(before)
    ensures ReadAs(before, Codes(end) + rest, Parsed(before, end[0] as int, rest), [], "", end, cfg)
  {
    hide OneOf;
    NoBlanks();
    assert before + AttrsOf([], cfg) == before;
    assert TailText([], "", end) == Codes(end) by {
      assert [] + ([] + Codes(end)) == Codes(end);
    }
  }

  lemma Prefixed(c: int, a: Stream, b: Stream, g: Stream, e: Stream, rest: Stream)
    requires b == [c] + a
    ensures b + (g + e) + rest == [c] + (a + (g + e) + rest) && b + g == [c] + (a + g)
  {
  }

  lemma MoreGapAlone(before: seq<Attr>, c: int, s: Stream, r: Parsed, gap: string, end: string, cfg: Config)
    requires IsSpace(c) && ReadAs(before, s, r, [], gap, end, cfg) && 0 <= c < 0x80
    ensures ReadAs(before, [c] + s, r, [], [c as char] + gap, end, cfg)
  {
    hide OneOf, IsSpace, Blank, DistinctNames, TagEnding, Codes;
    BlankCons(c, gap);
    CodesCons(c, gap);
    Prefixed(c, Codes(gap), [c] + Codes(gap), Codes(end), [], r.rest);
    assert [] + (Codes(gap) + Codes(end)) == Codes(gap) + Codes(end);
    assert [] + ([c] + Codes(gap) + Codes(end)) + r.rest == [c] + (Codes(gap) + Codes(end) + r.rest);
  }

  lemma GapText(list: seq<Attribute>, a: Attribute, c: int)
    requires list != [] && AttributeText(a) == [c] + AttributeText(list[0])
    ensures AttributesText([a] + list[1..]) == [c] + AttributesText(list)
  {
    hide AttributeText;
    assert ([a] + list[1..])[1..] == list[1..];
    assert [c] + AttributeText(list[0]) + AttributesText(list[1..])
        == [c] + (AttributeText(list[0]) + AttributesText(list[1..]));
  }

  lemma GapList(list: seq<Attribute>, a: Attribute, tail: Stream, cfg: Config)
    requires list != [] && (forall i :: 0 <= i < |list| ==> GoodAttribute(list[i], cfg)) && Spaced(list, tail)
    requires GoodAttribute(a, cfg) && AttrOf(a, cfg) == AttrOf(list[0], cfg) && a.value == list[0].value
    ensures var list' := [a] + list[1..];
            && (forall i :: 0 <= i < |list'| ==> GoodAttribute(list'[i], cfg)) && Spaced(list', tail)
            && AttrsOf(list', cfg) == AttrsOf(list, cfg)
  {
    hide AttributeText, AttrOf, GoodAttribute, Follows;
    var list' := [a] + list[1..];
    assert list'[1..] == list[1..];
    SameFollows(list[0], a, AttributesText(list[1..]) + tail);
  }

  lemma MoreGapBefore(before: seq<Attr>, c: int, s: Stream, r: Parsed, list: seq<Attribute>, a: Attribute, gap: string,
                      end: string, cfg: Config)
    requires ReadAs(before, s, r, list, gap, end, cfg) && list != []
    requires GoodAttribute(a, cfg) && AttrOf(a, cfg) == AttrOf(list[0], cfg) && a.value == list[0].value
    requires AttributeText(a) == [c] + AttributeText(list[0])
    ensures ReadAs(before, [c] + s, r, [a] + list[1..], gap, end, cfg)
  {
    hide AttributeText, AttrOf, GoodAttribute, Spaced, Blank, DistinctNames, TagEnding, AttributesText, AttrsOf;
    GapList(list, a, Codes(gap) + Codes(end), cfg);
    GapText(list, a, c);
    Prefixed(c, AttributesText(list), AttributesText([a] + list[1..]), Codes(gap), Codes(end), r.rest);
  }

  /** One more blank in front. */
  lemma MoreGap(before: seq<Attr>, c: int, s: Stream, r: Parsed, list: seq<Attribute>, gap: string, end: string,
                cfg: Config)
    returns (list': seq<Attribute>, gap': string)
    requires IsSpace(c) && ReadAs(before, s, r, list, gap, end, cfg)
    ensures ReadAs(before, [c] + s, r, list', gap', end, cfg)
  {
    hide AttributeText, AttrOf, GoodAttribute, IsSpace, Spaced, Blank, DistinctNames, TagEnding, AttributesText;
    hide AttrsOf;
    hide TailText;
    SpaceRange(c);
    if list == [] {
      list', gap' := [], [c as char] + gap;
      MoreGapAlone(before, c, s, r, gap, end, cfg);
    } else {
      var a := list[0].(gap := [c as char] + list[0].gap);
      list', gap' := [a] + list[1..], gap;
      GapAdded(list[0], c, cfg);
      MoreGapBefore(before, c, s, r, list, a, gap, end, cfg);
    }
  }

  lemma SpaceRange(c: int)
    requires IsSpace(c)
    ensures 0 <= c < 0x80
  {
  }

  lemma GapAdded(a: Attribute, c: int, cfg: Config)
    requires IsSpace(c) && GoodAttribute(a, cfg)
    ensures var b := a.(gap := [c as char] + a.gap);
            GoodAttribute(b, cfg) && AttributeText(b) == [c] + AttributeText(a) && AttrOf(b, cfg) == AttrOf(a, cfg)
  {
    hide Blank, AllProper, GoodValue, Starts, NameText, ValueText, Spelled, ValueOfText, CStr;
    BlankCons(c, a.gap);
    CodesCons(c, a.gap);
    assert NameText(a.(gap := [c as char] + a.gap)) == NameText(a) by { SameName(a, [c as char] + a.gap); }
  }

  lemma SameName(a: Attribute, gap: string)
    ensures NameText(a.(gap := gap)) == NameText(a)
  {
  }

  lemma SameFollows(a: Attribute, b: Attribute, s: Stream)
    requires a.value == b.value && Follows(a, s)
    ensures Follows(b, s)
  {
    hide OneOf;
  }

  lemma FrontText(a: Attribute, list: seq<Attribute>, gap: string, end: string, rest: Stream)
    ensures AttributeText(a) + (TailText(list, gap, end) + rest) == TailText([a] + list, gap, end) + rest
  {
    hide AttributeText;
    assert ([a] + list)[1..] == list;
  }

  lemma FrontAttrs(before: seq<Attr>, a: Attribute, list: seq<Attribute>, cfg: Config)
    ensures before + AttrsOf([a] + list, cfg) == before + [AttrOf(a, cfg)] + AttrsOf(list, cfg)
  {
    hide AttrOf;
    assert ([a] + list)[1..] == list;
  }

  lemma FrontGood(a: Attribute, list: seq<Attribute>, gap: string, end: string, cfg: Config)
    requires GoodTail(list, gap, end, cfg) && GoodAttribute(a, cfg) && Follows(a, TailText(list, gap, end))
    ensures GoodTail([a] + list, gap, end, cfg)
  {
    hide AttributeText, GoodAttribute, Follows, Blank, TagEnding;
    assert ([a] + list)[1..] == list;
  }

  /** One more attribute in front. */
  lemma MoreAttribute(before: seq<Attr>, a: Attribute, s: Stream, r: Parsed, list: seq<Attribute>, gap: string,
                      end: string, cfg: Config)
    requires ReadAs(before + [AttrOf(a, cfg)], s, r, list, gap, end, cfg) && GoodAttribute(a, cfg)
    requires Follows(a, TailText(list, gap, end))
    ensures ReadAs(before, AttributeText(a) + s, r, [a] + list, gap, end, cfg)
  {
    hide AttributeText, AttrOf, GoodAttribute, Follows, GoodTail, DistinctNames, AttrsOf, TailText;
    FrontText(a, list, gap, end, r.rest);
    FrontAttrs(before, a, list, cfg);
    FrontGood(a, list, gap, end, cfg);
  }

  lemma DistinctMore(before: seq<Attr>, a: Attr)
    requires DistinctNames(before) && AllSome(before) && !HasAttr(before, a.name) && a.value.Some?
    ensures DistinctNames(before + [a]) && AllSome(before + [a])
  {
    var all := before + [a];
    forall i, j | 0 <= i < j < |all| ensures all[i].name != all[j].name {
      if j == |before| { assert before[i].name != a.name; }
    }
  }

  lemma HeadMarks(c: int)
    requires !IsSpace(c) && c != '/' as int && c != '?' as int && c != '<' as int && c != '>' as int
    ensures NoneOf(c, " \t\r\n/?<>")
  {
  }

  /** A value that the end of the input cuts off leaves nothing. */
  lemma {:induction false} QuotesCut(s: Stream, quote: int, acc: string, cfg: Config)
    requires AllReadable(s) && QuotedValue(s, quote, acc, cfg).Chunk? && QuotedValue(s, quote, acc, cfg).ch == EOF
    requires quote != EOF && quote != '&' as int
    ensures QuotedValue(s, quote, acc, cfg).rest == []
    decreases |s|
  {
    hide Resolve, Encode, Markup.Proper, Meaning, PieceText;
    if s != [] {
      var c := Resolve(s[0], s[1..], cfg);
      var p := ResolveShape(s, "", cfg);
      QuotesCut(c.rest, quote, acc + Encode(c.ch), cfg);
    }
  }

  lemma {:induction false} PlainCut(s: Stream, isValue: bool, acc: string, cfg: Config)
    requires AllReadable(s) && Plain(s, isValue, acc, cfg).Chunk? && Plain(s, isValue, acc, cfg).ch == EOF
    ensures Plain(s, isValue, acc, cfg).rest == []
    decreases |s|
  {
    hide Resolve, Encode, Markup.Proper, Meaning, PieceText, EndsName, EndsValue;
    if s != [] {
      var c := Resolve(s[0], s[1..], cfg);
      var p := ResolveShape(s, "", cfg);
      PlainCut(c.rest, isValue, acc + Encode(c.ch), cfg);
    }
  }

  lemma AttrCut(attrs: seq<Attr>, ch: int, s: Stream, cfg: Config)
    requires AllReadable(s) && ParseAttr(attrs, ch, s, cfg).OneAttr? && ParseAttr(attrs, ch, s, cfg).ch == EOF
    ensures ParseAttr(attrs, ch, s, cfg).rest == []
  {
    hide ParseName, QuotedValue, Plain, SkipSpace, GetAttr, CStr, ParseAttr, AllReadable, Blank, Codes, NoneOf, OneOf;
    hide Spelled, PiecesText, AllProper;
    AttrParsed(attrs, ch, s, cfg);
    if ch == '\"' as int || ch == '\'' as int { QuotedNameRefused(attrs, ch, s, cfg); }
    var n := ParseName(ch, s, cfg);
    var more, before := NameShape(ch, s, cfg);
    var eq := SkipSpace(n.ch, n.rest);
    var first := SkipSpace(Head(eq.rest), Rest(eq.rest));
    var after := FirstOfValue(eq.rest);
    if first.ch == '\"' as int || first.ch == '\'' as int {
      QuotesCut(first.rest, first.ch, "", cfg);
    } else {
      PlainCut(first.rest, true, Raw(first.ch), cfg);
    }
  }

  /** The cases of `ParseElement`. */
  lemma ElementStep(before: seq<Attr>, s: Stream, cfg: Config)
    requires ParseElement(before, s, cfg).ch != EOF
    ensures s != []
    ensures var ch, rest, r := s[0], s[1..], ParseElement(before, s, cfg);
            && ch != EOF && ch != '<' as int
            && (IsSpace(ch) ==> r == ParseElement(before, rest, cfg))
            && (!IsSpace(ch) && (ch == '/' as int || ch == '?' as int) ==>
                  rest != [] && rest[0] == '>' as int && r == Parsed(before, ch, rest[1..]))
            && (ch == '>' as int ==> r == Parsed(before, ch, rest))
            && (!IsSpace(ch) && ch != '/' as int && ch != '?' as int && ch != '>' as int ==>
                  var a := ParseAttr(before, ch, rest, cfg);
                  && a.OneAttr?
                  && var before' := SetAttr(before, a.name, Some(a.value));
                  && (a.ch == '/' as int || a.ch == '?' as int ==>
                        a.rest != [] && a.rest[0] == '>' as int && r == Parsed(before', a.ch, a.rest[1..]))
                  && (a.ch == '>' as int ==> r == Parsed(before', a.ch, a.rest))
                  && (a.ch != '/' as int && a.ch != '?' as int && a.ch != '>' as int ==>
                        r == ParseElement(before', a.rest, cfg) && a.rest != []))
  {
    hide ParseAttr, SetAttr;
    EmptyElement(before, cfg);
    var ch, rest := Head(s), Rest(s);
    if ch != EOF && !IsSpace(ch) && ch != '/' as int && ch != '?' as int && ch != '>' as int && ch != '<' as int {
      var a := ParseAttr(before, ch, rest, cfg);
      if a.OneAttr? { EmptyElement(SetAttr(before, a.name, Some(a.value)), cfg); }
    }
  }

  lemma EmptyElement(before: seq<Attr>, cfg: Config)
    ensures ParseElement(before, [], cfg).ch == EOF
  {
  }

  lemma TwoMarks(ch: int, s: Stream)
    requires (ch == '/' as int || ch == '?' as int) && s != [] && s[0] == '>' as int
    ensures var end := [ch as char, '>']; TagEnding(end) && [ch] + s == Codes(end) + s[1..] && end[0] as int == ch
  {
    assert s == ['>' as int] + s[1..];
    assert Codes([ch as char, '>']) == [ch, '>' as int];
    assert [ch as char, '>'] == if ch == '/' as int then "/>" else "?>";
  }

  lemma OneMark(s: Stream)
    ensures TagEnding(">") && ['>' as int] + s == Codes(">") + s
  {
    assert Codes(">") == ['>' as int];
  }

  lemma FirstOfTail(list: seq<Attribute>, gap: string, end: string, rest: Stream, c: int, s: Stream)
    requires TagEnding(end) && [c] + s == TailText(list, gap, end) + rest
    ensures TailText(list, gap, end) != [] && TailText(list, gap, end)[0] == c
  {
    TailNotEmpty(list, gap, end);
    assert ([c] + s)[0] == c;
  }

  lemma BareFollows(a: Attribute, s: Stream)
    requires s != [] && (IsSpace(s[0]) || s[0] == '/' as int || s[0] == '>' as int)
    ensures Follows(a, s)
  {
    var marks := " \t\r\n/>";
    assert marks[0] as int == 32 && marks[1] as int == 9 && marks[2] as int == 13 && marks[3] as int == 10;
    assert marks[4] == '/' && marks[5] == '>';
  }

  lemma Skipping(a: Attribute, cfg: Config)
    requires GoodAttribute(a, cfg) && a.value.Bare? && a.value.skipped == ""
    ensures var b := a.(value := a.value.(skipped := "="));
            && GoodAttribute(b, cfg) && AttrOf(b, cfg) == AttrOf(a, cfg)
            && AttributeText(b) == AttributeText(a) + ['=' as int] && forall s :: Follows(b, s)
  {
    hide Blank, AllProper, Starts, Spelled, CStr, PiecesText, OneOf;
    var v, w := a.value, a.value.(skipped := "=");
    assert Codes("=") == ['=' as int] && Codes("") == [];
    assert ValueText(w) == ValueText(v) + ['=' as int] by { SkippedText(v.first, PiecesText(v.ps)); }
    AppendedText(a, ValueText(v));
  }

  lemma SkippedText(first: int, ps: Stream)
    ensures [first] + (ps + ['=' as int]) == [first] + (ps + []) + ['=' as int]
  {
    assert ps + [] == ps;
  }

  lemma AppendedText(a: Attribute, v: Stream)
    ensures Codes(a.gap) + (NameText(a) + (Codes(a.before) + (['=' as int] + (Codes(a.after) + (v + ['=' as int])))))
         == Codes(a.gap) + (NameText(a) + (Codes(a.before) + (['=' as int] + (Codes(a.after) + v)))) + ['=' as int]
  {
    hide NameText, Codes;
  }

  /** Whatever the loader accepts inside a tag is attributes with different names, white space, and an end. */
  lemma {:induction false} TailShape(before: seq<Attr>, s: Stream, cfg: Config)
    returns (list: seq<Attribute>, gap: string, end: string)
    requires AllReadable(s) && ParseElement(before, s, cfg).ch != EOF && AllSome(before) && DistinctNames(before)
    ensures ReadAs(before, s, ParseElement(before, s, cfg), list, gap, end, cfg)
    decreases |s|, 3
  {
    hide ParseElement, ParseAttr, ReadAs, AllReadable, AllSome, DistinctNames, OneOf, NoneOf, AttributeText;
    hide GoodAttribute;
    hide AttrOf, Codes, Readable;
    ElementStep(before, s, cfg);
    var ch, rest, r := s[0], s[1..], ParseElement(before, s, cfg);
    assert s == [ch] + rest;
    FirstReadable(s);
    if IsSpace(ch) {
      list, gap, end := TailShape(before, rest, cfg);
      list, gap := MoreGap(before, ch, rest, r, list, gap, end, cfg);
    } else if ch == '/' as int || ch == '?' as int {
      list, gap, end := [], "", [ch as char, '>'];
      TwoMarks(ch, rest);
      NoAttributes(before, end, rest[1..], cfg);
    } else if ch == '>' as int {
      list, gap, end := [], "", ">";
      OneMark(rest);
      NoAttributes(before, end, rest, cfg);
    } else {
      list, gap, end := AttributeFirst(before, s, cfg);
    }
  }

  lemma FirstReadable(s: Stream)
    requires AllReadable(s) && s != []
    ensures Readable(s[0]) && AllReadable(s[1..])
  {
  }

  lemma {:induction false} AttributeFirst(before: seq<Attr>, s: Stream, cfg: Config)
    returns (list: seq<Attribute>, gap: string, end: string)
    requires AllReadable(s) && ParseElement(before, s, cfg).ch != EOF && AllSome(before) && DistinctNames(before)
    requires s != [] && !IsSpace(s[0]) && s[0] != '/' as int && s[0] != '?' as int && s[0] != '>' as int
    ensures ReadAs(before, s, ParseElement(before, s, cfg), list, gap, end, cfg)
    decreases |s|, 2
  {
    hide ParseElement, ParseAttr, ReadAs, AllReadable, AllSome, DistinctNames, OneOf, NoneOf, AttributeText;
    hide GoodAttribute;
    hide AttrOf, Codes, Readable, Follows, HasAttr, TailText, SetAttr;
    ElementStep(before, s, cfg);
    var ch, rest, r := s[0], s[1..], ParseElement(before, s, cfg);
    assert s == [ch] + rest;
    FirstReadable(s);
    HeadMarks(ch);
    var p := ParseAttr(before, ch, rest, cfg);
    if p.ch == EOF { AttrCut(before, ch, rest, cfg); }
    var a := AttrShape(before, ch, rest, cfg);
    var before' := before + [AttrOf(a, cfg)];
    SetAttrAbsent(before, p.name, Some(p.value));
    AttrSome(a, cfg);
    DistinctMore(before, AttrOf(a, cfg));
    list, gap, end := AfterAttribute(before, a, p, r, s, cfg);
  }

  lemma AttrSome(a: Attribute, cfg: Config)
    ensures AttrOf(a, cfg).value.Some?
  {
  }

  lemma {:induction false} AfterAttribute(before: seq<Attr>, a: Attribute, p: OneAttr, r: Parsed, s: Stream,
                                          cfg: Config)
    returns (list: seq<Attribute>, gap: string, end: string)
    requires p.OneAttr? && GoodAttribute(a, cfg) && s == AttributeText(a) + Behind(a, p) && AllReadable(p.rest)
    requires var before' := before + [AttrOf(a, cfg)];
             && AllSome(before') && DistinctNames(before') && r.ch != EOF
             && (p.ch == '/' as int || p.ch == '?' as int ==>
                   p.rest != [] && p.rest[0] == '>' as int && r == Parsed(before', p.ch, p.rest[1..]))
             && (p.ch == '>' as int ==> r == Parsed(before', p.ch, p.rest))
             && (p.ch != '/' as int && p.ch != '?' as int && p.ch != '>' as int ==>
                   r == ParseElement(before', p.rest, cfg))
    requires a.value.Bare? ==> a.value.skipped == "" && OneOf(p.ch, VALUE_ENDS)
    requires a.value.InQuotes? ==> p.ch == '\"' as int || p.ch == '\'' as int
    requires |p.rest| < |s|
    ensures ReadAs(before, s, r, list, gap, end, cfg)
    decreases |p.rest| + 1, 1
  {
    hide ParseElement, ReadAs, AllReadable, AllSome, DistinctNames, OneOf, AttributeText, GoodAttribute, AttrOf, Codes;
    hide Follows, TailText;
    var before' := before + [AttrOf(a, cfg)];
    if a.value.InQuotes? {
      list, gap, end := TailShape(before', p.rest, cfg);
      assert Follows(a, TailText(list, gap, end)) by { QuotedFollows(a, TailText(list, gap, end)); }
      MoreAttribute(before, a, p.rest, r, list, gap, end, cfg);
      list := [a] + list;
    } else {
      Ends(p.ch);
      if p.ch == '=' as int {
        var b := a.(value := a.value.(skipped := "="));
        Skipping(a, cfg);
        list, gap, end := TailShape(before', p.rest, cfg);
        MoreAttribute(before, b, p.rest, r, list, gap, end, cfg);
        assert s == AttributeText(b) + p.rest;
        list := [b] + list;
      } else {
        list, gap, end := AfterBare(before', p, r, cfg);
        var tail := TailText(list, gap, end);
        assert tail != [] && tail[0] == p.ch by { ReadFirst(before', p.ch, p.rest, r, list, gap, end, cfg); }
        BareFollows(a, tail);
        MoreAttribute(before, a, [p.ch] + p.rest, r, list, gap, end, cfg);
        list := [a] + list;
      }
    }
  }

  lemma QuotedFollows(a: Attribute, s: Stream)
    requires a.value.InQuotes?
    ensures Follows(a, s)
  {
  }

  lemma ReadFirst(before: seq<Attr>, c: int, s: Stream, r: Parsed, list: seq<Attribute>, gap: string, end: string,
                  cfg: Config)
    requires ReadAs(before, [c] + s, r, list, gap, end, cfg)
    ensures TailText(list, gap, end) != [] && TailText(list, gap, end)[0] == c
  {
    hide TailText, GoodAttribute, Spaced, Blank;
    FirstOfTail(list, gap, end, r.rest, c, s);
  }

  lemma {:induction false} AfterBare(before: seq<Attr>, p: OneAttr, r: Parsed, cfg: Config)
    returns (list: seq<Attribute>, gap: string, end: string)
    requires p.OneAttr? && AllReadable(p.rest) && AllSome(before) && DistinctNames(before) && r.ch != EOF
    requires IsSpace(p.ch) || p.ch == '/' as int || p.ch == '>' as int
    requires p.ch == '/' as int ==> p.rest != [] && p.rest[0] == '>' as int && r == Parsed(before, p.ch, p.rest[1..])
    requires p.ch == '>' as int ==> r == Parsed(before, p.ch, p.rest)
    requires IsSpace(p.ch) ==> r == ParseElement(before, p.rest, cfg)
    ensures ReadAs(before, [p.ch] + p.rest, r, list, gap, end, cfg)
    decreases |p.rest| + 1, 0
  {
    hide ParseElement, ReadAs, AllReadable, AllSome, DistinctNames, Codes;
    if IsSpace(p.ch) {
      list, gap, end := TailShape(before, p.rest, cfg);
      list, gap := MoreGap(before, p.ch, p.rest, r, list, gap, end, cfg);
    } else if p.ch == '/' as int {
      list, gap, end := [], "", [p.ch as char, '>'];
      TwoMarks(p.ch, p.rest);
      NoAttributes(before, end, p.rest[1..], cfg);
    } else {
      list, gap, end := [], "", ">";
      OneMark(p.rest);
      NoAttributes(before, end, p.rest, cfg);
    }
  }

  // -- Tags of elements --------------------------------------------------------------------------------------

  lemma {:induction false} TagTextGrows(s: Stream, acc: string, cfg: Config)
    requires ReadTag(s, acc, cfg).Chunk?
    ensures |acc| <= |ReadTag(s, acc, cfg).buf| && ReadTag(s, acc, cfg).buf[..|acc|] == acc
    decreases |s|
  {
    hide GetEntity, Encode, IsSpecial;
    var ch, r := Head(s), ReadTag(s, acc, cfg);
    if !(ch == EOF || IsSpace(ch) || ch == '>' as int || (ch == '/' as int && acc != "")) {
      if ch == '&' as int {
        var c := GetEntity(Rest(s), "", cfg);
        TagTextGrows(c.rest, acc + Encode(c.ch), cfg);
        assert r.buf[..|acc|] == r.buf[..|acc + Encode(c.ch)|][..|acc|];
      } else if IsSpecial(acc + Encode(ch)) {
        assert r.buf[..|acc|] == acc;
      } else {
        TagTextGrows(Rest(s), acc + Encode(ch), cfg);
        assert r.buf[..|acc|] == r.buf[..|acc + Encode(ch)|][..|acc|];
      }
    }
  }

  /** The cases of `ReadTag` while the tag is that of an element or a close tag. */
  lemma TagStep(s: Stream, acc: string, cfg: Config)
    requires ReadTag(s, acc, cfg).Chunk? && Ordinary(ReadTag(s, acc, cfg).buf)
    ensures var r := ReadTag(s, acc, cfg);
            if s == [] || s[0] == EOF then r == Chunk(acc, EOF, Rest(s))
            else if IsSpace(s[0]) || s[0] == '>' as int || (s[0] == '/' as int && acc != "") then
              r == Chunk(acc, s[0], s[1..])
            else
              && s[0] != '<' as int
              && var c := Resolve(s[0], s[1..], cfg);
              && c.ch != EOF && r == ReadTag(c.rest, acc + Encode(c.ch), cfg)
  {
    hide GetEntity, Encode, IsSpecial;
    var ch := Head(s);
    if !(ch == EOF || IsSpace(ch) || ch == '>' as int || (ch == '/' as int && acc != "")) && ch != '<' as int
       && ch != '&' as int && IsSpecial(acc + Encode(ch)) {
      NeverSpecial(acc + Encode(ch));
    }
  }

  lemma NeverSpecial(buf: string)
    requires IsSpecial(buf)
    ensures !Ordinary(buf)
  {
    assert COMMENT[0] == '!' && CDATA[0] == '!';
  }

  lemma TagChar(c: int)
    requires !IsSpace(c) && c != '>' as int && c != '<' as int && c != '/' as int
    ensures NoneOf(c, TAG_BREAKS)
  {
  }

  lemma TagEndMarks(c: int)
    requires IsSpace(c) || c == '>' as int || c == '/' as int
    ensures OneOf(c, TAG_ENDS)
  {
    assert TAG_ENDS[0] as int == 32 && TAG_ENDS[1] as int == 9 && TAG_ENDS[2] as int == 13 && TAG_ENDS[3] as int == 10;
    assert TAG_ENDS[4] == '/' && TAG_ENDS[5] == '>';
  }

  /** What the loader takes for the name in a tag. */
  lemma {:induction false} TagNameShape(s: Stream, acc: string, cfg: Config) returns (ps: seq<Piece>)
    requires AllReadable(s) && ReadTag(s, acc, cfg).Chunk? && Ordinary(ReadTag(s, acc, cfg).buf)
    requires acc == "" && ReadTag(s, acc, cfg).buf != "" ==> ReadTag(s, acc, cfg).buf[0] != '/'
    ensures var r := ReadTag(s, acc, cfg);
            && AllProper(ps, TAG_BREAKS, cfg) && r.buf == acc + Spelled(ps, cfg) && AllReadable(r.rest)
            && if r.ch == EOF then s == PiecesText(ps) && r.rest == []
               else
                 && s == PiecesText(ps) + ([r.ch] + r.rest) && OneOf(r.ch, TAG_ENDS)
                 && (r.buf == "" ==> r.ch != '/' as int)
    decreases |s|
  {
    hide ReadTag, Resolve, Markup.Proper, Meaning, Encode, PieceText, OneOf, NoneOf, Ordinary, Readable;
    var r := ReadTag(s, acc, cfg);
    TagStep(s, acc, cfg);
    if s == [] {
      ps := [];
      assert acc + "" == acc;
    } else if s[0] == EOF {
      NeverEof(s);
    } else if IsSpace(s[0]) || s[0] == '>' as int || (s[0] == '/' as int && acc != "") {
      ps := [];
      TagEndMarks(s[0]);
      assert acc + "" == acc && s == [] + ([s[0]] + s[1..]);
    } else {
      var c := Resolve(s[0], s[1..], cfg);
      if s[0] == '/' as int { SlashFirst(s, cfg); }
      TagChar(s[0]);
      var p := ResolveShape(s, TAG_BREAKS, cfg);
      EncodedSomething(acc, c.ch);
      var more := TagNameShape(c.rest, acc + Encode(c.ch), cfg);
      ps := [p] + more;
      MoreProper(p, more, TAG_BREAKS, cfg);
      MoreSpelled(acc, p, more, if r.ch == EOF then [] else [r.ch] + r.rest, cfg);
      assert r.ch == EOF ==> PiecesText(more) + [] == PiecesText(more) && PiecesText(ps) + [] == PiecesText(ps);
      TagTextGrows(c.rest, acc + Encode(c.ch), cfg);
    }
  }

  lemma NeverEof(s: Stream)
    requires s != [] && s[0] == EOF
    ensures !AllReadable(s)
  {
    assert !Readable(s[0]);
  }

  lemma EncodedSomething(acc: string, c: int)
    ensures acc + Encode(c) != ""
  {
  }

  lemma SlashFirst(s: Stream, cfg: Config)
    requires s != [] && s[0] == '/' as int && ReadTag(s, "", cfg).Chunk?
    ensures ReadTag(s, "", cfg).buf != "" && ReadTag(s, "", cfg).buf[0] == '/'
  {
    hide GetEntity;
    assert "" + Encode('/' as int) == "/";
    TagTextGrows(s[1..], "/", cfg);
    var buf := ReadTag(s[1..], "/", cfg).buf;
    assert buf[..1][0] == buf[0];
  }

  lemma FirstOfTag(s: Stream, cfg: Config)
    requires AllReadable(s) && s != [] && NoneOf(s[0], "!?/&") && ReadTag(s, "", cfg).Chunk?
    ensures var buf := ReadTag(s, "", cfg).buf; Ordinary(buf) && (buf != "" ==> buf[0] != '/')
  {
    hide GetEntity, Encode;
    var ch := s[0];
    assert ch != "!?/&"[0] as int && ch != "!?/&"[1] as int && ch != "!?/&"[2] as int && ch != "!?/&"[3] as int;
    if !(ch == EOF || IsSpace(ch) || ch == '>' as int || ch == '<' as int) {
      ByteOf(ch);
      assert "" + Encode(ch) == Encode(ch);
      assert !IsSpecial(Encode(ch)) by { if IsSpecial(Encode(ch)) { NeverSpecial(Encode(ch)); } }
      TagTextGrows(s[1..], Encode(ch), cfg);
      var buf := ReadTag(s[1..], Encode(ch), cfg).buf;
      assert buf[0] == buf[..|Encode(ch)|][0];
    }
  }

  lemma ByteOf(c: int)
    requires Readable(c) && c != '!' as int && c != '?' as int && c != '/' as int
    ensures Encode(c)[0] != '!' && Encode(c)[0] != '?' && Encode(c)[0] != '/'
  {
  }

  /** `s` starts with the tag of an element. */
  ghost predicate SpellsTag(s: Stream, name: seq<Piece>, attrs: seq<Attribute>, gap: string, end: string, rest: Stream,
                            cfg: Config) {
    GoodTag(name, attrs, gap, end, cfg) && s == PiecesText(name) + (TailText(attrs, gap, end) + rest)
  }

  /** `s` is a name without an end. */
  ghost predicate SpellsName(s: Stream, name: seq<Piece>, cfg: Config) {
    AllProper(name, TAG_BREAKS, cfg) && s == PiecesText(name)
  }

  lemma {:induction false} ReadTagCut(ps: seq<Piece>, acc: string, cfg: Config)
    requires AllProper(ps, TAG_BREAKS, cfg) && Ordinary(acc + Spelled(ps, cfg))
    ensures ReadTag(PiecesText(ps), acc, cfg) == Chunk(acc + Spelled(ps, cfg), EOF, [])
    decreases |ps|
  {
    hide Markup.Proper, Meaning, Encode, PieceText, ReadTag;
    if ps == [] {
      assert acc + "" == acc;
      TagCut(acc, cfg);
    } else {
      var acc' := acc + Encode(Meaning(ps[0], cfg));
      PiecesCons(ps, []);
      SpelledCons(acc, ps, cfg);
      assert PiecesText(ps) + [] == PiecesText(ps) && PiecesText(ps[1..]) + [] == PiecesText(ps[1..]);
      EncodedSomething(acc, Meaning(ps[0], cfg));
      assert acc'[0] == (acc + Spelled(ps, cfg))[0];
      TagPiece(ps[0], PiecesText(ps[1..]), acc, cfg);
      ReadTagCut(ps[1..], acc', cfg);
    }
  }

  lemma TagCut(acc: string, cfg: Config)
    ensures ReadTag([], acc, cfg) == Chunk(acc, EOF, [])
  {
  }

  /** A name that starts with a character as it is starts with its first byte. */
  lemma FirstSpelled(s: Stream, ps: seq<Piece>, cfg: Config)
    requires AllProper(ps, TAG_BREAKS, cfg) && s == PiecesText(ps) && s != [] && NoneOf(s[0], "!?/&")
    ensures var name := Spelled(ps, cfg); Ordinary(name) && name != "" && name[0] != '/'
  {
    hide Encode;
    var marks := "!?/&";
    assert s[0] != marks[0] as int && s[0] != marks[1] as int && s[0] != marks[2] as int && s[0] != marks[3] as int;
    assert PiecesText(ps) == PieceText(ps[0]) + PiecesText(ps[1..]);
    FirstPiece(ps[0], PiecesText(ps[1..]), cfg);
    ByteOf(s[0]);
    assert Spelled(ps, cfg)[0] == Encode(s[0])[0];
  }

  lemma FirstPiece(p: Piece, tail: Stream, cfg: Config)
    requires Proper(p, TAG_BREAKS, cfg) && (PieceText(p) + tail)[0] != '&' as int
    ensures p == Char((PieceText(p) + tail)[0]) && Meaning(p, cfg) == p.c && Readable(p.c)
  {
  }

  lemma ElementParts(st: State, s: Stream, cfg: Config)
    requires ReadTag(s, "", cfg).Chunk?
    requires var buf := ReadTag(s, "", cfg).buf; Ordinary(buf) && (buf != "" ==> buf[0] != '/')
    ensures Tag(st, s, cfg) == OpenElement(st, ReadTag(s, "", cfg), cfg)
  {
    hide ReadTag, OpenElement;
    OrdinaryName(ReadTag(s, "", cfg).buf);
  }

  lemma ElementShape(st: State, s: Stream, cfg: Config)
    returns (name: seq<Piece>, list: seq<Attribute>, gap: string, end: string, rest: Stream)
    requires AllReadable(s) && s != [] && NoneOf(s[0], "!?/&") && !Tag(st, s, cfg).Fail?
    ensures !SecondRoot(st)
    ensures Tag(st, s, cfg).Next? ==> SpellsTag(s, name, list, gap, end, rest, cfg)
    ensures Tag(st, s, cfg).Stop? ==> SpellsName(s, name, cfg)
  {
    hide ReadTag, AllReadable, NoneOf, OneOf, ParseElement, TagEnd, AllProper, PiecesText, Spelled, Retype, AddLeaf;
    hide Open;
    hide TailText, Ordinary, SecondRoot, GoodTail;
    assert ReadTag(s, "", cfg).Chunk? by { BrokenFails(st, s, cfg); }
    FirstOfTag(s, cfg);
    ElementParts(st, s, cfg);
    var tag := ReadTag(s, "", cfg);
    name := TagNameShape(s, "", cfg);
    assert "" + Spelled(name, cfg) == Spelled(name, cfg);
    list, gap, end, rest := [], "", "", [];
    if tag.ch == EOF {
      CutEnds(tag, cfg);
    } else {
      EndsLike(tag.ch, tag.rest, tag.buf, cfg);
      SuffixReadable(PiecesText(name), [tag.ch] + tag.rest);
      NoneDistinct();
      list, gap, end := TailShape([], [tag.ch] + tag.rest, cfg);
      var p := TagEnd(tag, cfg);
      rest := p.rest;
      ReadFirst([], tag.ch, tag.rest, p, list, gap, end, cfg);
      GoodTagOf(name, tag, p, list, gap, end, cfg);
    }
  }

  lemma BrokenFails(st: State, s: Stream, cfg: Config)
    ensures ReadTag(s, "", cfg).Broken? ==> Tag(st, s, cfg) == Fail
  {
    hide ReadTag;
  }

  lemma CutEnds(tag: Chunk, cfg: Config)
    requires tag.Chunk? && tag.ch == EOF
    ensures TagEnd(tag, cfg).ch == EOF
  {
    hide ParseElement;
  }

  lemma NoneDistinct()
    ensures DistinctNames([]) && AllSome([])
  {
  }

  lemma GoodTagOf(name: seq<Piece>, tag: Chunk, p: Parsed, list: seq<Attribute>, gap: string, end: string, cfg: Config)
    requires AllProper(name, TAG_BREAKS, cfg) && tag.Chunk? && tag.buf == Spelled(name, cfg) && Ordinary(tag.buf)
    requires (tag.buf != "" ==> tag.buf[0] != '/') && (tag.buf == "" ==> tag.ch != '/' as int)
    requires ReadAs([], [tag.ch] + tag.rest, p, list, gap, end, cfg) && OneOf(tag.ch, TAG_ENDS)
    requires TailText(list, gap, end) != [] && TailText(list, gap, end)[0] == tag.ch
    ensures GoodTag(name, list, gap, end, cfg)
  {
    hide AllProper, Spelled, OneOf, TailText, GoodAttribute, Spaced, Blank, AttrsOf, DistinctNames, Ordinary;
    assert [] + AttrsOf(list, cfg) == AttrsOf(list, cfg);
  }

  /** A tag that does not start with `!`, `?`, `/` or a reference is accepted exactly when it is spelled as the tag
      of an element and is not a second root; or when it is a name that the end of the input cuts off, which is taken
      for an element. */
  lemma ElementIff(st: State, s: Stream, cfg: Config)
    requires AllReadable(s) && s != [] && NoneOf(s[0], "!?/&")
    ensures Tag(st, s, cfg).Next? <==>
              !(st.stack == [] && st.done.Some?)
              && exists name, attrs, gap, end, rest :: SpellsTag(s, name, attrs, gap, end, rest, cfg)
    ensures Tag(st, s, cfg).Stop? <==> !(st.stack == [] && st.done.Some?) && exists name :: SpellsName(s, name, cfg)
    ensures forall name :: SpellsName(s, name, cfg) && !(st.stack == [] && st.done.Some?) ==>
              Tag(st, s, cfg) == Stop(AddLeaf(st, Element(Spelled(name, cfg), [], [])))
  {
    hide Tag, AllReadable, NoneOf, SpellsTag, SpellsName, AddLeaf, Spelled;
    if !Tag(st, s, cfg).Fail? {
      var name, list, gap, end, rest := ElementShape(st, s, cfg);
    }
    forall name, attrs, gap, end, rest | SpellsTag(s, name, attrs, gap, end, rest, cfg) && !SecondRoot(st)
      ensures Tag(st, s, cfg).Next?
    {
      TagAccepted(st, s, name, attrs, gap, end, rest, cfg);
    }
    forall name | SpellsName(s, name, cfg) && !SecondRoot(st)
      ensures Tag(st, s, cfg) == Stop(AddLeaf(st, Element(Spelled(name, cfg), [], [])))
    {
      NameAccepted(st, s, name, cfg);
    }
  }

  lemma TagAccepted(st: State, s: Stream, name: seq<Piece>, attrs: seq<Attribute>, gap: string, end: string,
                    rest: Stream, cfg: Config)
    requires SpellsTag(s, name, attrs, gap, end, rest, cfg) && !SecondRoot(st)
    ensures Tag(st, s, cfg).Next?
  {
    hide Tag, GoodTag, PiecesText, TailText;
    ElementRead(st, name, attrs, gap, end, rest, cfg);
  }

  lemma NameAccepted(st: State, s: Stream, name: seq<Piece>, cfg: Config)
    requires SpellsName(s, name, cfg) && !SecondRoot(st) && s != [] && NoneOf(s[0], "!?/&")
    ensures Tag(st, s, cfg) == Stop(AddLeaf(st, Element(Spelled(name, cfg), [], [])))
  {
    hide ReadTag, NoneOf, PiecesText, Spelled, AllProper, AddLeaf, Ordinary, TagEnd;
    FirstSpelled(s, name, cfg);
    assert "" + Spelled(name, cfg) == Spelled(name, cfg);
    ReadTagCut(name, "", cfg);
    ElementParts(st, s, cfg);
    CutEnds(ReadTag(s, "", cfg), cfg);
  }

  // -- Other tags --------------------------------------------------------------------------------------------

  /** Nothing at all is accepted as a second root. */
  lemma SecondRootRefused(st: State, s: Stream, cfg: Config)
    requires st.stack == [] && st.done.Some?
    ensures Tag(st, s, cfg) == Fail
  {
    hide ReadTag, ReadSpecial, ReadDeclaration, TagEnd;
  }

  /** A close tag is accepted exactly when it spells the name of the innermost open element; what follows the name does
      not matter, not even whether the tag ends. */
  lemma CloseIff(st: State, s: Stream, cfg: Config)
    requires AllReadable(s)
    ensures !Tag(st, ['/' as int] + s, cfg).Stop?
    ensures Tag(st, ['/' as int] + s, cfg).Next? <==>
              st.stack != []
              && exists close, x ::
                   SpellsClose(s, close, x, cfg) && Spelled(close, cfg) == st.stack[|st.stack| - 1].name
  {
    hide Tag, AllReadable, SpellsClose, Spelled, Pop, Retype;
    CloseParts(st, s, cfg);
    if Tag(st, ['/' as int] + s, cfg).Next? {
      var close, x := CloseShape(st, s, cfg);
    }
    forall close, x | SpellsClose(s, close, x, cfg) && st.stack != []
        && Spelled(close, cfg) == st.stack[|st.stack| - 1].name
      ensures Tag(st, ['/' as int] + s, cfg).Next?
    {
      CloseAccepted(st, s, close, x, cfg);
    }
  }

  /** `s` is a name and what ends it, or nothing. */
  ghost predicate SpellsClose(s: Stream, close: seq<Piece>, x: Stream, cfg: Config) {
    AllProper(close, TAG_BREAKS, cfg) && s == PiecesText(close) + x && (x != [] ==> OneOf(x[0], TAG_ENDS))
  }

  lemma CloseParts(st: State, s: Stream, cfg: Config)
    ensures var tag := ReadTag(s, "/", cfg);
            && (tag.Broken? ==> Tag(st, ['/' as int] + s, cfg) == Fail)
            && (tag.Chunk? ==>
               tag.buf != "" && tag.buf[0] == '/' && Tag(st, ['/' as int] + s, cfg) == CloseElement(st, tag, cfg))
            && !Tag(st, ['/' as int] + s, cfg).Stop?
  {
    hide ReadTag, SkipToEnd, Pop, Retype;
    SlashRead(s, cfg);
    var tag := ReadTag(s, "/", cfg);
    if tag.Chunk? {
      TagTextGrows(s, "/", cfg);
      assert tag.buf[..1][0] == tag.buf[0] && tag.buf[..1] == "/";
      assert COMMENT[0] == '!' && CDATA[0] == '!' && tag.buf[..1] != "?" && tag.buf[..1] != "!";
    }
  }

  lemma CloseShape(st: State, s: Stream, cfg: Config) returns (close: seq<Piece>, x: Stream)
    requires AllReadable(s) && Tag(st, ['/' as int] + s, cfg).Next?
    ensures st.stack != [] && SpellsClose(s, close, x, cfg) && Spelled(close, cfg) == st.stack[|st.stack| - 1].name
  {
    hide ReadTag, SkipToEnd, Pop, Retype, AllReadable, Spelled, AllProper, PiecesText, Tag, OneOf;
    CloseParts(st, s, cfg);
    var tag := ReadTag(s, "/", cfg);
    close := TagNameShape(s, "/", cfg);
    assert ("/" + Spelled(close, cfg))[1..] == Spelled(close, cfg);
    x := if tag.ch == EOF then [] else [tag.ch] + tag.rest;
    assert PiecesText(close) + [] == PiecesText(close);
  }

  lemma CloseAccepted(st: State, s: Stream, close: seq<Piece>, x: Stream, cfg: Config)
    requires SpellsClose(s, close, x, cfg) && st.stack != [] && Spelled(close, cfg) == st.stack[|st.stack| - 1].name
    ensures Tag(st, ['/' as int] + s, cfg).Next?
  {
    hide ReadTag, SkipToEnd, Pop, Retype, Spelled, AllProper, PiecesText, Tag, OneOf;
    CloseParts(st, s, cfg);
    if x == [] {
      assert PiecesText(close) + [] == PiecesText(close);
      ReadTagCut(close, "/", cfg);
    } else {
      assert x == [x[0]] + x[1..];
      ReadTagPieces(close, "/", x[0], x[1..], cfg);
    }
    assert ("/" + Spelled(close, cfg))[1..] == Spelled(close, cfg);
  }

  lemma {:induction false} SkippedAll(ch: int, x: Stream)
    requires ch != '>' as int && ch != EOF && forall i :: 0 <= i < |x| ==> x[i] != '>' as int && x[i] != EOF
    ensures SkipToEnd(ch, x) == []
    decreases |x|
  {
    if x != [] {
      SkippedAll(x[0], x[1..]);
    }
  }

  /** A close tag that the end of the input cuts off closes the element all the same. */
  lemma CloseCut(st: State, close: seq<Piece>, x: Stream, cfg: Config)
    requires SpellsClose(PiecesText(close) + x, close, x, cfg)
    requires st.stack != [] && Spelled(close, cfg) == st.stack[|st.stack| - 1].name
    requires forall i :: 0 <= i < |x| ==> x[i] != '>' as int && x[i] != EOF
    ensures Tag(st, ['/' as int] + (PiecesText(close) + x), cfg) ==
            Next(if Pop(st).stack == [] then Pop(st) else Retype(Pop(st), cfg, st.vtype), [])
  {
    hide ReadTag, SkipToEnd, Pop, Retype, Spelled, AllProper, PiecesText, Tag, OneOf;
    var s := PiecesText(close) + x;
    CloseParts(st, s, cfg);
    if x == [] {
      assert PiecesText(close) + [] == PiecesText(close);
      ReadTagCut(close, "/", cfg);
      AtEnd([]);
    } else {
      assert x == [x[0]] + x[1..];
      ReadTagPieces(close, "/", x[0], x[1..], cfg);
      SkippedAll(x[0], x[1..]);
    }
    assert ("/" + Spelled(close, cfg))[1..] == Spelled(close, cfg);
  }

  lemma AtEnd(s: Stream)
    ensures SkipToEnd(EOF, s) == s
  {
  }

  /** `cps` is what was read of a comment, CDATA section or processing instruction after `acc`. */
  ghost predicate RawRead(s: Stream, kind: Special, acc: string, cps: Stream, r: Chunk)
    requires r.Chunk?
  {
    && s == cps + (['>' as int] + r.rest) && AllReadable(cps) && r.buf == acc + EncodeAll(cps)
    && EndsSpecial(kind, r.buf)
    && forall i :: |acc| <= i < |r.buf| && r.buf[i] == '>' ==> !EndsSpecial(kind, r.buf[..i])
  }

  lemma {:induction false} RawShape(s: Stream, kind: Special, acc: string) returns (cps: Stream)
    requires AllReadable(s) && ReadSpecial(s, kind, acc).Chunk? && |acc| >= |Prefix(kind)|
    ensures RawRead(s, kind, acc, cps, ReadSpecial(s, kind, acc))
    decreases |s|
  {
    hide EndsSpecial, Encode, Readable, RawRead, Prefix;
    if s != [] && s[0] == '>' as int && EndsSpecial(kind, acc) {
      cps := [];
      RawNone(s, kind, acc);
    } else {
      FirstReadable(s);
      var more := RawShape(s[1..], kind, acc + Encode(s[0]));
      cps := [s[0]] + more;
      RawMore(s, kind, acc, more, ReadSpecial(s, kind, acc));
    }
  }

  lemma RawNone(s: Stream, kind: Special, acc: string)
    requires s != [] && s[0] == '>' as int && EndsSpecial(kind, acc)
    ensures RawRead(s, kind, acc, [], Chunk(acc, '>' as int, s[1..]))
  {
    hide EndsSpecial;
    assert acc + "" == acc && s == [] + ([s[0]] + s[1..]);
  }

  lemma RawMore(s: Stream, kind: Special, acc: string, more: Stream, r: Chunk)
    requires s != [] && Readable(s[0]) && r.Chunk? && RawRead(s[1..], kind, acc + Encode(s[0]), more, r)
    requires !(s[0] == '>' as int && EndsSpecial(kind, acc))
    ensures RawRead(s, kind, acc, [s[0]] + more, r)
  {
    hide EndsSpecial, Encode, Readable;
    var cps := [s[0]] + more;
    assert cps[1..] == more && acc + Encode(s[0]) + EncodeAll(more) == acc + EncodeAll(cps);
    assert s == [s[0]] + s[1..];
    assert [s[0]] + (more + (['>' as int] + r.rest)) == cps + (['>' as int] + r.rest);
    InsideByte(kind, acc, s[0], EncodeAll(more), r.buf);
  }

  /** Inside the bytes of one character the tag does not end either. */
  lemma InsideByte(kind: Special, acc: string, c: int, more: string, buf: string)
    requires Readable(c) && buf == acc + Encode(c) + more && !(c == '>' as int && EndsSpecial(kind, acc))
    ensures forall i :: |acc| <= i < |acc + Encode(c)| && buf[i] == '>' ==> !EndsSpecial(kind, buf[..i])
  {
    hide EndsSpecial;
    forall i | |acc| <= i < |acc + Encode(c)| && buf[i] == '>' ensures !EndsSpecial(kind, buf[..i]) {
      assert buf[i] == Encode(c)[i - |acc|];
      GreaterByte(c, i - |acc|);
      assert buf[..i] == acc;
    }
  }

  lemma GreaterByte(c: int, i: nat)
    requires Readable(c) && i < |Encode(c)| && Encode(c)[i] == '>'
    ensures c == '>' as int && i == 0
  {
  }

  function EndMark(kind: Special): (mark: string) {
    match kind
    case CommentTag => "--"
    case CDataTag => "]]"
    case DirectiveTag => "?"
  }

  predicate Body(kind: Special, x: string) {
    match kind
    case CommentTag => CommentBody(x)
    case CDataTag => CDataBody(x)
    case DirectiveTag => InstructionBody(x)
  }

  function StartMark(kind: Special): (mark: string) {
    match kind
    case CommentTag => "!--"
    case CDataTag => "![CDATA["
    case DirectiveTag => "?"
  }

  /** The name of such a tag is its text between the marks; `<?>` alone has one mark for both. */
  lemma RawParts(kind: Special, name: string) returns (x: string)
    requires RawName(kind, name)
    ensures (name == "?" && kind == DirectiveTag) || (name == StartMark(kind) + x + EndMark(kind) && Body(kind, x))
  {
    hide CommentBody, CDataBody, InstructionBody, RawName;
    RawLong(kind, name);
    if name == "?" {
      x := "";
    } else {
      var a, b := StartMark(kind), EndMark(kind);
      x := name[|a|..|name| - |b|];
      assert name == name[..|a|] + x + name[|name| - |b|..];
      match kind
      case CommentTag => CommentRaw(x);
      case CDataTag => CDataRaw(x);
      case DirectiveTag => InstructionRaw(x);
    }
  }

  lemma RawLong(kind: Special, name: string)
    requires RawName(kind, name)
    ensures |name| >= |StartMark(kind)| && name[..|StartMark(kind)|] == StartMark(kind)
    ensures |name| >= |EndMark(kind)| && name[|name| - |EndMark(kind)|..] == EndMark(kind)
    ensures (name == "?" && kind == DirectiveTag) || |name| >= |StartMark(kind)| + |EndMark(kind)|
  {
    if kind == CDataTag {
      assert name[7] == name[..8][7] == '[';
      assert |name| == 8 || |name| == 9 ==> name[7] != name[|name| - 2..][if |name| == 8 then 1 else 0];
    }
  }

  lemma RawOf(kind: Special, x: string)
    requires Body(kind, x)
    ensures RawName(kind, StartMark(kind) + x + EndMark(kind))
  {
    hide CommentBody, CDataBody, InstructionBody, RawName;
    match kind
    case CommentTag => CommentRaw(x);
    case CDataTag => CDataRaw(x);
    case DirectiveTag => InstructionRaw(x);
  }

  /** `s` is what can stand in such a tag, its end mark, and `>`. */
  ghost predicate SpellsRaw(s: Stream, kind: Special, x: string, rest: Stream) {
    IsText(x) && Body(kind, x) && s == Chars(x) + (Codes(EndMark(kind)) + (['>' as int] + rest))
  }

  /** A comment, CDATA section or processing instruction is accepted exactly when it ends as it should and is not a
      second root. */
  lemma SpecialIff(st: State, kind: Special, s: Stream, cfg: Config)
    requires AllReadable(s)
    ensures !Tag(st, Codes(StartMark(kind)) + s, cfg).Stop?
    ensures Tag(st, Codes(StartMark(kind)) + s, cfg).Next? <==>
              && !(st.stack == [] && st.done.Some?)
              && ((kind == DirectiveTag && s != [] && s[0] == '>' as int)
                  || exists x, rest :: SpellsRaw(s, kind, x, rest))
  {
    hide Tag, AllReadable, SpellsRaw, ReadSpecial;
    SpecialParts(st, kind, s, cfg);
    var c := ReadSpecial(s, kind, Prefix(kind));
    if c.Chunk? {
      var x := SpecialShape(kind, s);
    }
    if kind == DirectiveTag && s != [] && s[0] == '>' as int { BareInstruction(s); }
    forall x, rest | SpellsRaw(s, kind, x, rest) ensures c.Chunk? {
      SpecialAccepted(kind, s, x, rest);
    }
  }

  lemma SpecialKind(st: State, kind: Special, s: Stream, cfg: Config)
    requires ReadTag(s, "", cfg).Chunk? && ReadTag(s, "", cfg).buf == Prefix(kind)
    ensures Tag(st, s, cfg) == SpecialTag(st, kind, ReadTag(s, "", cfg), cfg)
  {
    hide ReadTag, SpecialTag, Prefix;
    PrefixKind(kind);
  }

  lemma SpecialParts(st: State, kind: Special, s: Stream, cfg: Config)
    ensures var c := ReadSpecial(s, kind, Prefix(kind));
            var r := Tag(st, Codes(StartMark(kind)) + s, cfg);
            !r.Stop? && (r.Next? <==> c.Chunk? && !SecondRoot(st))
  {
    hide Tag, ReadTag, ReadSpecial, Retype, Open, AddLeaf, Prefix, StartMark;
    SameMark(kind);
    ReadPrefix(kind, s, cfg);
    SpecialKind(st, kind, Codes(StartMark(kind)) + s, cfg);
  }

  lemma SameMark(kind: Special)
    ensures StartMark(kind) == Prefix(kind)
  {
  }

  lemma SpecialShape(kind: Special, s: Stream) returns (x: string)
    requires AllReadable(s) && ReadSpecial(s, kind, Prefix(kind)).Chunk?
    ensures (kind == DirectiveTag && s != [] && s[0] == '>' as int)
            || SpellsRaw(s, kind, x, ReadSpecial(s, kind, Prefix(kind)).rest)
  {
    hide ReadSpecial, EndsSpecial, Chars, IsText, Body, AllReadable;
    var r := ReadSpecial(s, kind, Prefix(kind));
    var cps := RawShape(s, kind, Prefix(kind));
    var name := r.buf;
    PrefixTaken(kind, EncodeAll(cps));
    x := RawParts(kind, name);
    if name == "?" {
      NothingEncoded(cps);
      assert s[0] == '>' as int;
    } else {
      assert EncodeAll(cps) == x + EndMark(kind) by {
        assert name == StartMark(kind) + (x + EndMark(kind));
        assert name[|StartMark(kind)|..] == x + EndMark(kind);
        assert name[|Prefix(kind)|..] == EncodeAll(cps);
      }
      MarkAscii(kind);
      SuffixText(x, EndMark(kind), cps);
      assert s == cps + (['>' as int] + r.rest);
      assert Chars(x) + Codes(EndMark(kind)) + (['>' as int] + r.rest)
          == Chars(x) + (Codes(EndMark(kind)) + (['>' as int] + r.rest));
    }
  }

  lemma PrefixTaken(kind: Special, more: string)
    ensures var name := Prefix(kind) + more; StartsWith(name, Prefix(kind)) && Prefix(kind) == StartMark(kind)
  {
    assert (Prefix(kind) + more)[..|Prefix(kind)|] == Prefix(kind);
  }

  lemma NothingEncoded(cps: Stream)
    requires "?" + EncodeAll(cps) == "?"
    ensures cps == []
  {
    hide Encode;
    assert |"?" + EncodeAll(cps)| == 1 + |EncodeAll(cps)|;
  }

  lemma LastAscii(cps: Stream, s: string, c: char)
    requires AllReadable(cps) && EncodeAll(cps) == s + [c] && c as int < 0x80
    ensures cps != [] && cps[|cps| - 1] == c as int && EncodeAll(cps[..|cps| - 1]) == s
  {
    hide Encode, Readable, EncodeAll;
    SomeCharacter(cps);
    var last, front := cps[|cps| - 1], cps[..|cps| - 1];
    assert cps == front + [last];
    EncodeAllAppend(front, [last]);
    EncodeOne(last);
    LastCut(EncodeAll(front), Encode(last), s, c);
    LastByte(last);
  }

  lemma SomeCharacter(cps: Stream)
    ensures cps == [] ==> EncodeAll(cps) == ""
  {
  }

  lemma EncodeOne(c: int)
    ensures EncodeAll([c]) == Encode(c)
  {
    hide Encode;
    assert [c][1..] == [] && Encode(c) + "" == Encode(c);
  }

  lemma LastCut(a: string, e: string, s: string, c: char)
    requires a + e == s + [c] && e != ""
    ensures e[|e| - 1] == c && (|e| == 1 ==> a == s)
  {
    assert (a + e)[|a| + |e| - 1] == e[|e| - 1];
    if |e| == 1 {
      assert a == (a + e)[..|a|] && s == (s + [c])[..|s|];
    }
  }

  lemma LastByte(c: int)
    requires Readable(c)
    ensures var e := Encode(c); e[|e| - 1] as int < 0x80 ==> |e| == 1 && e[0] as int == c
  {
  }

  /** An end mark is ASCII, so what is before it is text. */
  lemma {:induction false} SuffixText(x: string, b: string, cps: Stream)
    requires AllReadable(cps) && EncodeAll(cps) == x + b && IsAscii(b)
    ensures IsText(x) && cps == Chars(x) + Codes(b)
    decreases |b|
  {
    hide IsText, Chars, Encode, Readable, BadChar;
    if b == "" {
      assert x + b == x;
      TextOf(cps);
      assert Codes(b) == [] && cps + [] == cps;
    } else {
      var n := |b| - 1;
      assert x + b == x + b[..n] + [b[n]];
      LastAscii(cps, x + b[..n], b[n]);
      SuffixText(x, b[..n], cps[..|cps| - 1]);
      assert Codes(b) == Codes(b[..n]) + [b[n] as int];
      assert cps == cps[..|cps| - 1] + [cps[|cps| - 1]];
    }
  }

  lemma MarkAscii(kind: Special)
    ensures IsAscii(EndMark(kind))
  {
  }

  lemma BareInstruction(s: Stream)
    requires s != [] && s[0] == '>' as int
    ensures ReadSpecial(s, DirectiveTag, Prefix(DirectiveTag)).Chunk?
  {
    assert "?"[|"?"| - 1..] == "?";
  }

  lemma SpecialAccepted(kind: Special, s: Stream, x: string, rest: Stream)
    requires SpellsRaw(s, kind, x, rest)
    ensures ReadSpecial(s, kind, Prefix(kind)).Chunk?
  {
    hide ReadSpecial, Chars, IsText, Body, RawName, EncodeAll, AllReadable;
    RawOf(kind, x);
    MarkAscii(kind);
    AsciiText(EndMark(kind));
    TextAppend(x, EndMark(kind));
    var all := x + EndMark(kind);
    assert StartMark(kind) + x + EndMark(kind) == Prefix(kind) + all;
    TextChars(all);
    ReadRaw(kind, Prefix(kind), Chars(all), rest);
    assert s == Chars(all) + (['>' as int] + rest);
  }

  lemma TextChars(s: string)
    requires IsText(s)
    ensures AllReadable(Chars(s)) && EncodeAll(Chars(s)) == s
  {
    hide Chars;
  }

  // -- Declarations and data ----------------------------------------------------------------------------------

  /** A declaration that the end of the input, or something that is no reference, cuts off is refused. */
  lemma DeclarationRefused(st: State, word: seq<Piece>, more: seq<Piece>, tail: Stream, cfg: Config)
    requires GoodLone(Declared(word, more), cfg)
    requires tail == [] || (tail[0] == '&' as int && GetEntity(tail[1..], "", cfg).ch == EOF)
    ensures Tag(st, LoneText(Declared(word, more)) + tail, cfg) == Fail
  {
    hide ReadTag, ReadDeclaration, DeclarationStart, AllProper, OneOf, PiecesText, Spelled, GetEntity;
    var first := Spelled(word, cfg);
    var all := PiecesText(more) + tail;
    SpelledAppend(word, more, cfg);
    WordStarts(word, cfg);
    assert "" + first == first;
    assert LoneText(Declared(word, more)) + tail == PiecesText(word) + all;
    var name := first + Spelled(more, cfg);
    assert name[..|first|] == first;
    DeclarationPrefix(name, |first|);
    DeclarationKind(first);
    if more != [] {
      FirstOfMore(more, tail, cfg);
      assert all == [all[0]] + all[1..];
      ReadWord(word, "", Spelled(more, cfg), all[0], all[1..], cfg);
      DeclaredCut(more, first, tail, cfg);
    } else {
      assert all == tail by { NoPieces(tail); }
      WordCut(word, "", Spelled(more, cfg), tail, cfg);
      NoDeclaration(first, cfg);
    }
  }

  lemma NoPieces(tail: Stream)
    ensures PiecesText([]) + tail == tail
  {
  }

  lemma NoDeclaration(buf: string, cfg: Config)
    ensures ReadDeclaration(EOF, [], buf, cfg) == Broken
  {
  }

  lemma FirstOfMore(more: seq<Piece>, tail: Stream, cfg: Config)
    requires more != [] && more[0].Char? && OneOf(more[0].c, TAG_ENDS)
    ensures var all := PiecesText(more) + tail; all != [] && OneOf(all[0], TAG_ENDS)
  {
    hide OneOf;
    PiecesCons(more, tail);
  }

  /** What the reader of tags makes of a reference that is none. */
  lemma BadReference(s: Stream, acc: string, cfg: Config)
    requires GetEntity(s, "", cfg).ch == EOF
    ensures ReadTag(['&' as int] + s, acc, cfg) == Broken
  {
    hide GetEntity;
    assert (['&' as int] + s)[1..] == s;
  }

  lemma {:induction false} WordCut(ps: seq<Piece>, acc: string, more: string, tail: Stream, cfg: Config)
    requires AllProper(ps, TAG_BREAKS, cfg) && acc + Spelled(ps, cfg) != ""
    requires DeclarationStart(acc + Spelled(ps, cfg) + more)
    requires tail == [] || (tail[0] == '&' as int && GetEntity(tail[1..], "", cfg).ch == EOF)
    ensures ReadTag(PiecesText(ps) + tail, acc, cfg) ==
            if tail == [] then Chunk(acc + Spelled(ps, cfg), EOF, []) else Broken
    decreases |ps|
  {
    hide Markup.Proper, Meaning, Encode, PieceText, ReadTag, DeclarationStart, IsSpecial, GetEntity;
    if ps == [] {
      assert PiecesText(ps) + tail == tail && acc + "" == acc;
      if tail == [] {
        TagCut(acc, cfg);
      } else {
        assert tail == ['&' as int] + tail[1..];
        BadReference(tail[1..], acc, cfg);
      }
    } else {
      var acc' := acc + Encode(Meaning(ps[0], cfg));
      var name := acc + Spelled(ps, cfg) + more;
      PiecesCons(ps, tail);
      SpelledCons(acc, ps, cfg);
      assert name[..|acc'|] == acc';
      EncodedSomething(acc, Meaning(ps[0], cfg));
      DeclarationPrefix(name, |acc'|);
      WordPiece(ps[0], PiecesText(ps[1..]) + tail, acc, cfg);
      WordCut(ps[1..], acc', more, tail, cfg);
    }
  }

  lemma {:induction false} DeclaredCut(ps: seq<Piece>, acc: string, tail: Stream, cfg: Config)
    requires AllProper(ps, ">", cfg) && ps != []
    requires tail == [] || (tail[0] == '&' as int && GetEntity(tail[1..], "", cfg).ch == EOF)
    ensures var s := PiecesText(ps) + tail; s != [] && ReadDeclaration(s[0], s[1..], acc, cfg) == Broken
    decreases |ps|
  {
    hide Resolve, Markup.Proper, Meaning, Encode, PieceText, GetEntity;
    PiecesCons(ps, tail);
    ResolvePiece(ps[0], ">", PiecesText(ps[1..]) + tail, cfg);
    NotGreater(ps[0], cfg);
    if ps[1..] == [] {
      NoPieces(tail);
      if tail != [] { CutByReference(tail, acc + Encode(Meaning(ps[0], cfg)), cfg); }
    } else {
      PieceHead(ps[1..], ">", tail, cfg);
      DeclaredCut(ps[1..], acc + Encode(Meaning(ps[0], cfg)), tail, cfg);
    }
  }

  lemma CutByReference(tail: Stream, acc: string, cfg: Config)
    requires tail != [] && tail[0] == '&' as int && GetEntity(tail[1..], "", cfg).ch == EOF
    ensures ReadDeclaration(tail[0], tail[1..], acc, cfg) == Broken
  {
    hide GetEntity;
  }

  /** An ampersand in data is refused exactly when no reference follows. */
  lemma DataIff(st: State, s: Stream, cfg: Config)
    ensures Step(st, ['&' as int] + s, cfg).Fail? <==>
            !exists p: Piece, rest: Stream :: !p.Char? && Proper(p, "", cfg) && ['&' as int] + s == PieceText(p) + rest
  {
    hide GetEntity, Markup.Proper, PieceText, Flush;
    ReferenceIff(s, cfg);
    assert (['&' as int] + s)[1..] == s;
  }

  // -- Failed reads ------------------------------------------------------------------------------------------

  /** Between tags a failed read ends the document, whatever follows; inside a comment, CDATA section, processing
      instruction or declaration, or between attributes, the tag is refused. */
  lemma ReadFails(st: State, kind: Special, attrs: seq<Attr>, buf: string, rest: Stream, cfg: Config)
    ensures Step(st, [EOF] + rest, cfg) == Stop(st)
    ensures ReadSpecial([EOF] + rest, kind, buf) == Broken
    ensures ParseElement(attrs, [EOF] + rest, cfg).ch == EOF
  {
  }

  lemma {:induction false} QuotesFail(ps: seq<Piece>, quote: char, acc: string, rest: Stream, cfg: Config)
    requires AllProper(ps, [quote], cfg) && quote != '&'
    ensures QuotedValue(PiecesText(ps) + ([EOF] + rest), quote as int, acc, cfg) ==
            Chunk(acc + Spelled(ps, cfg), EOF, rest)
    decreases |ps|
  {
    hide Resolve, Markup.Proper, Meaning, Encode, PieceText;
    var tail := [EOF] + rest;
    if ps == [] {
      assert PiecesText(ps) + tail == tail && tail[1..] == rest && acc + Spelled(ps, cfg) == acc;
    } else {
      PiecesCons(ps, tail);
      ResolvePiece(ps[0], [quote], PiecesText(ps[1..]) + tail, cfg);
      NotQuote(ps[0], quote, cfg);
      QuotesFail(ps[1..], quote, acc + Encode(Meaning(ps[0], cfg)), rest, cfg);
      SpelledCons(acc, ps, cfg);
    }
  }

  lemma {:induction false} PlainFails(ps: seq<Piece>, acc: string, rest: Stream, cfg: Config)
    requires AllProper(ps, VALUE_ENDS, cfg)
    ensures Plain(PiecesText(ps) + ([EOF] + rest), true, acc, cfg) == Chunk(acc + Spelled(ps, cfg), EOF, rest)
    decreases |ps|
  {
    hide Resolve, Markup.Proper, Meaning, Encode, PieceText, OneOf, NoneOf, EndsName, EndsValue;
    var tail := [EOF] + rest;
    if ps == [] {
      assert PiecesText(ps) + tail == tail && tail[1..] == rest && acc + Spelled(ps, cfg) == acc;
    } else {
      PiecesCons(ps, tail);
      ResolvePiece(ps[0], VALUE_ENDS, PiecesText(ps[1..]) + tail, cfg);
      NotEnd(ps[0], true, cfg);
      PlainFails(ps[1..], acc + Encode(Meaning(ps[0], cfg)), rest, cfg);
      SpelledCons(acc, ps, cfg);
    }
  }

  predicate IsQuote(ch: int) { ch == '\"' as int || ch == '\'' as int }

  /** A failed read inside a value ends the value like its end quote, and reading goes on behind it. */
  lemma ValueFails(ch: int, ps: seq<Piece>, rest: Stream, cfg: Config)
    requires AllProper(ps, if IsQuote(ch) then [ch as char] else VALUE_ENDS, cfg)
    ensures ParseValue(ch, PiecesText(ps) + ([EOF] + rest), cfg) ==
            Chunk(if IsQuote(ch) then Spelled(ps, cfg) else OneByte(ch) + Spelled(ps, cfg), EOF, rest)
  {
    hide Plain, QuotedValue, PiecesText, Spelled, AllProper;
    if IsQuote(ch) {
      QuotesFail(ps, ch as char, "", rest, cfg);
      assert "" + Spelled(ps, cfg) == Spelled(ps, cfg);
    } else {
      PlainFails(ps, Raw(ch), rest, cfg);
    }
  }
}
