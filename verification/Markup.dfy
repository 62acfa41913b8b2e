/** XML text, whoever wrote it: what it spells, and that the loader reads it that way. */
module Markup {
  import opened Attributes
  import opened CStrings
  import opened Entities
  import opened Loader
  import opened Spelling
  import opened Utf8
  import opened XmlTree

  // -- Characters and references -----------------------------------------------------------------------

  /** A character as it is, or a reference to one by name or by number. */
  datatype Piece = Char(c: int) | Named(name: string) | Numbered(number: string)

  function PieceText(p: Piece): (s: Stream) {
    match p
    case Char(c) => [c]
    case Named(name) => ['&' as int] + (Codes(name) + [';' as int])
    case Numbered(number) => ['&' as int, '#' as int] + (Codes(number) + [';' as int])
  }

  function PiecesText(ps: seq<Piece>): (s: Stream) {
    if ps == [] then [] else PieceText(ps[0]) + PiecesText(ps[1..])
  }

  /** The character a piece stands for: that of the entity table, or what `strtol` says. */
  function Meaning(p: Piece, cfg: Config): (c: int) {
    match p
    case Char(c) => c
    case Named(name) => GetValue(name)
    case Numbered(number) => cfg.numeric(number)
  }

  function Spelled(ps: seq<Piece>, cfg: Config): (s: string) {
    if ps == [] then "" else Encode(Meaning(ps[0], cfg)) + Spelled(ps[1..], cfg)
  }

  /** What can stand between `&` and `;`. */
  predicate Letters(s: string) {
    forall i :: 0 <= i < |s| ==> '0' <= s[i] <= '9' || 'A' <= s[i] <= 'Z' || 'a' <= s[i] <= 'z' || s[i] == '#'
  }

  /** The character `c` is none of `marks`. */
  predicate NoneOf(c: int, marks: string) {
    forall i :: 0 <= i < |marks| ==> c != marks[i] as int
  }

  predicate OneOf(c: int, marks: string) {
    exists i :: 0 <= i < |marks| && c == marks[i] as int
  }

  /** A piece the loader can read; none of the characters in `marks` stands for itself. */
  predicate Proper(p: Piece, marks: string, cfg: Config) {
    match p
    case Char(c) => Readable(c) && c != '&' as int && NoneOf(c, marks)
    case Named(name) => Letters(name) && |name| <= 63 && (name == "" || name[0] != '#') && !BadChar(GetValue(name))
    case Numbered(number) => Letters(number) && |number| <= 62 && !BadChar(cfg.numeric(number))
  }

  predicate AllProper(ps: seq<Piece>, marks: string, cfg: Config) {
    forall i :: 0 <= i < |ps| ==> Proper(ps[i], marks, cfg)
  }

  const BLANKS := " \t\r\n"

  predicate Blank(s: string) {
    forall i :: 0 <= i < |s| ==> OneOf(s[i] as int, BLANKS)
  }

  lemma BlankChar(c: int)
    ensures OneOf(c, BLANKS) <==> IsSpace(c)
  {
    assert BLANKS[0] as int == 32 && BLANKS[1] as int == 9 && BLANKS[2] as int == 13 && BLANKS[3] as int == 10;
  }

  lemma LettersRead(s: string)
    requires Letters(s)
    ensures forall i :: 0 <= i < |s| ==> IsAlnum(s[i] as int) || s[i] == '#'
  {
  }

  /** The reader of entities at the end of a reference. */
  lemma ReferenceEnds(acc: string, rest: Stream, cfg: Config)
    requires !BadChar(EntityValue(acc, cfg))
    ensures GetEntity([';' as int] + rest, acc, cfg) == Read(EntityValue(acc, cfg), rest)
  {
    hide EntityValue;
    assert ([';' as int] + rest)[1..] == rest;
  }

  lemma NumberStarts(s: Stream, cfg: Config)
    ensures GetEntity(['#' as int] + s, "", cfg) == GetEntity(s, "#", cfg)
  {
    assert (['#' as int] + s)[1..] == s && "" + "#" == "#";
  }

  /** Whatever piece comes next, the readers of names, values and text see the character it stands for. */
  lemma ResolvePiece(p: Piece, marks: string, rest: Stream, cfg: Config)
    requires Proper(p, marks, cfg)
    ensures var s := PieceText(p) + rest;
            && s != [] && Resolve(s[0], s[1..], cfg) == Read(Meaning(p, cfg), rest)
            && Meaning(p, cfg) != EOF && s[0] == (if p.Char? then p.c else '&' as int)
  {
    hide GetEntity, Meaning, NoneOf;
    match p
    case Char(c) =>
      assert ([c] + rest)[1..] == rest;
      CharMeaning(c, cfg);
    case Named(name) =>
      ReadName(name, rest, cfg);
    case Numbered(number) =>
      ReadNumber(number, rest, cfg);
  }

  lemma CharMeaning(c: int, cfg: Config)
    ensures Meaning(Char(c), cfg) == c
  {
  }

  lemma ReadName(name: string, rest: Stream, cfg: Config)
    requires Letters(name) && |name| <= 63 && (name == "" || name[0] != '#') && !BadChar(GetValue(name))
    ensures var s := PieceText(Named(name)) + rest;
            && s != [] && s[0] == '&' as int && GetEntity(s[1..], "", cfg) == Read(Meaning(Named(name), cfg), rest)
            && Meaning(Named(name), cfg) != EOF
  {
    hide GetEntity, GetValue, IsAlnum;
    var s := PieceText(Named(name)) + rest;
    assert s[1..] == Codes(name) + [';' as int] + rest;
    LettersRead(name);
    NameValue(name, cfg);
    GetEntityName(name, "", rest, cfg);
    assert "" + name == name;
    ReferenceEnds(name, rest, cfg);
  }

  lemma ReadNumber(number: string, rest: Stream, cfg: Config)
    requires Letters(number) && |number| <= 62 && !BadChar(cfg.numeric(number))
    ensures var s := PieceText(Numbered(number)) + rest;
            && s != [] && s[0] == '&' as int && GetEntity(s[1..], "", cfg) == Read(Meaning(Numbered(number), cfg), rest)
            && Meaning(Numbered(number), cfg) != EOF
  {
    hide GetEntity, GetValue, IsAlnum;
    var s := PieceText(Numbered(number)) + rest;
    assert s[1..] == ['#' as int] + (Codes(number) + [';' as int] + rest);
    LettersRead(number);
    NumberStarts(Codes(number) + [';' as int] + rest, cfg);
    GetEntityName(number, "#", rest, cfg);
    assert ("#" + number)[1..] == number;
    ReferenceEnds("#" + number, rest, cfg);
  }

  lemma NameValue(name: string, cfg: Config)
    requires name == "" || name[0] != '#'
    ensures EntityValue(name, cfg) == GetValue(name)
  {
  }

  lemma PiecesCons(ps: seq<Piece>, rest: Stream)
    requires ps != []
    ensures PiecesText(ps) + rest == PieceText(ps[0]) + (PiecesText(ps[1..]) + rest)
  {
  }

  lemma SpelledCons(acc: string, ps: seq<Piece>, cfg: Config)
    requires ps != []
    ensures acc + Encode(Meaning(ps[0], cfg)) + Spelled(ps[1..], cfg) == acc + Spelled(ps, cfg)
  {
    hide Encode, Meaning;
  }

  // -- Attributes ------------------------------------------------------------------------------------------

  /** A quoted value, up to its end quote. */
  lemma {:induction false} ReadQuotes(ps: seq<Piece>, quote: char, acc: string, rest: Stream, cfg: Config)
    requires AllProper(ps, [quote], cfg) && quote != '&'
    ensures QuotedValue(PiecesText(ps) + ([quote as int] + rest), quote as int, acc, cfg) ==
            Chunk(acc + Spelled(ps, cfg), quote as int, rest)
    decreases |ps|
  {
    hide Resolve, Proper, Meaning, Encode, PieceText;
    var tail := [quote as int] + rest;
    if ps == [] {
      assert PiecesText(ps) + tail == tail && tail[1..] == rest && acc + Spelled(ps, cfg) == acc;
    } else {
      PiecesCons(ps, tail);
      ResolvePiece(ps[0], [quote], PiecesText(ps[1..]) + tail, cfg);
      NotQuote(ps[0], quote, cfg);
      ReadQuotes(ps[1..], quote, acc + Encode(Meaning(ps[0], cfg)), rest, cfg);
      SpelledCons(acc, ps, cfg);
    }
  }

  lemma NotQuote(p: Piece, quote: char, cfg: Config)
    requires Proper(p, [quote], cfg) && quote != '&'
    ensures (if p.Char? then p.c else '&' as int) != quote as int
    ensures (if p.Char? then p.c else '&' as int) != EOF
  {
    if p.Char? { assert p.c != [quote][0] as int; }
  }

  /** The characters that end an unquoted name, and an unquoted value. */
  const NAME_ENDS := " \t\r\n=/>?"
  const VALUE_ENDS := " \t\r\n=/>"

  lemma Ends(c: int)
    ensures OneOf(c, NAME_ENDS) <==> EndsName(c)
    ensures OneOf(c, VALUE_ENDS) <==> EndsValue(c)
    ensures NoneOf(c, NAME_ENDS) <==> !EndsName(c)
    ensures NoneOf(c, VALUE_ENDS) <==> !EndsValue(c)
  {
    assert forall i :: 0 <= i < 7 ==> NAME_ENDS[i] == VALUE_ENDS[i];
    assert VALUE_ENDS[0] as int == 32 && VALUE_ENDS[1] as int == 9 && VALUE_ENDS[2] as int == 13;
    assert VALUE_ENDS[3] as int == 10 && VALUE_ENDS[4] == '=' && VALUE_ENDS[5] == '/' && VALUE_ENDS[6] == '>';
    assert NAME_ENDS[7] == '?';
  }

  /** An unquoted name or value after its first character, up to the character `t` that ends it. */
  lemma {:induction false} ReadPlain(ps: seq<Piece>, isValue: bool, acc: string, t: int, rest: Stream, cfg: Config)
    requires AllProper(ps, if isValue then VALUE_ENDS else NAME_ENDS, cfg)
    requires OneOf(t, if isValue then VALUE_ENDS else NAME_ENDS)
    ensures Plain(PiecesText(ps) + ([t] + rest), isValue, acc, cfg) == Chunk(acc + Spelled(ps, cfg), t, rest)
    decreases |ps|
  {
    hide Resolve, Proper, Meaning, Encode, PieceText, OneOf, NoneOf, EndsName, EndsValue;
    var tail := [t] + rest;
    Ends(t);
    if ps == [] {
      assert PiecesText(ps) + tail == tail && tail[1..] == rest && acc + Spelled(ps, cfg) == acc;
    } else {
      PiecesCons(ps, tail);
      ResolvePiece(ps[0], if isValue then VALUE_ENDS else NAME_ENDS, PiecesText(ps[1..]) + tail, cfg);
      NotEnd(ps[0], isValue, cfg);
      ReadPlain(ps[1..], isValue, acc + Encode(Meaning(ps[0], cfg)), t, rest, cfg);
      SpelledCons(acc, ps, cfg);
    }
  }

  lemma NotEnd(p: Piece, isValue: bool, cfg: Config)
    requires Proper(p, if isValue then VALUE_ENDS else NAME_ENDS, cfg)
    ensures var c := if p.Char? then p.c else '&' as int; c != EOF && !(if isValue then EndsValue(c) else EndsName(c))
  {
    hide NoneOf;
    if p.Char? { Ends(p.c); }
  }

  /** A value in quotes, or after its first character up to what ends it; an equals sign there is skipped. */
  datatype Value = InQuotes(quote: char, ps: seq<Piece>) | Bare(first: int, ps: seq<Piece>, skipped: string)

  /** An attribute: white space before it, the first character of its name and the rest, white space on both
      sides of the `=`, and the value. */
  datatype Attribute = Attribute(gap: string, first: int, more: seq<Piece>, before: string, after: string, value: Value)

  function ValueText(v: Value): (s: Stream) {
    match v
    case InQuotes(quote, ps) => [quote as int] + (PiecesText(ps) + [quote as int])
    case Bare(first, ps, skipped) => [first] + (PiecesText(ps) + Codes(skipped))
  }

  function NameText(a: Attribute): (s: Stream) { [a.first] + PiecesText(a.more) }

  function AttributeText(a: Attribute): (s: Stream) {
    Codes(a.gap) + (NameText(a) + (Codes(a.before) + (['=' as int] + (Codes(a.after) + ValueText(a.value)))))
  }

  /** The first character of a name or unquoted value is kept as one byte. */
  function OneByte(c: int): (s: string) { [(c % 256) as char] }

  function ValueOfText(v: Value, cfg: Config): (s: string) {
    match v
    case InQuotes(_, ps) => Spelled(ps, cfg)
    case Bare(first, ps, _) => OneByte(first) + Spelled(ps, cfg)
  }

  /** Names and values are kept as C strings. */
  function AttrOf(a: Attribute, cfg: Config): (r: Attr) {
    Attr(CStr(OneByte(a.first) + Spelled(a.more, cfg)), Some(CStr(ValueOfText(a.value, cfg))))
  }

  predicate Starts(c: int, marks: string) {
    Readable(c) && NoneOf(c, marks)
  }

  predicate GoodValue(v: Value, cfg: Config) {
    match v
    case InQuotes(quote, ps) => (quote == '\"' || quote == '\'') && AllProper(ps, [quote], cfg)
    case Bare(first, ps, skipped) =>
      Starts(first, " \t\r\n\"\'") && AllProper(ps, VALUE_ENDS, cfg) && (skipped == "" || skipped == "=")
  }

  predicate GoodAttribute(a: Attribute, cfg: Config) {
    && Blank(a.gap) && Blank(a.before) && Blank(a.after)
    && Starts(a.first, " \t\r\n/?<>\"\'") && AllProper(a.more, NAME_ENDS, cfg) && GoodValue(a.value, cfg)
  }

  /** What may follow an attribute directly. */
  predicate Follows(a: Attribute, s: Stream) {
    a.value.Bare? && a.value.skipped == "" ==> s != [] && OneOf(s[0], " \t\r\n/>")
  }

  lemma {:induction false} SkipBlanks(s: string, ch: int, rest: Stream)
    requires Blank(s) && ch != EOF
    ensures SkipSpace(if s == "" then ch else s[0] as int, if s == "" then rest else Codes(s[1..]) + ([ch] + rest)) ==
            SkipSpace(ch, rest)
    decreases |s|
  {
    hide OneOf;
    if s != "" {
      var more := Codes(s[1..]) + ([ch] + rest);
      BlankChar(s[0] as int);
      assert more[0] == if s[1..] == "" then ch else s[1] as int;
      assert more[1..] == if s[1..] == "" then rest else Codes(s[1..][1..]) + ([ch] + rest);
      SkipBlanks(s[1..], ch, rest);
    }
  }

  /** The first character after white space. */
  lemma AfterBlanks(s: string, ch: int, rest: Stream)
    requires Blank(s) && ch != EOF && NoneOf(ch, BLANKS)
    ensures var all := Codes(s) + ([ch] + rest); all != [] && SkipSpace(all[0], all[1..]) == Read(ch, rest)
  {
    hide OneOf;
    SkipBlanks(s, ch, rest);
    NotBlank(ch);
    var all := Codes(s) + ([ch] + rest);
    if s == "" {
      assert all == [ch] + rest && all[1..] == rest;
    } else {
      assert all[1..] == Codes(s[1..]) + ([ch] + rest);
    }
  }

  lemma NotBlank(c: int)
    ensures NoneOf(c, BLANKS) <==> !IsSpace(c)
  {
    assert BLANKS[0] as int == 32 && BLANKS[1] as int == 9 && BLANKS[2] as int == 13 && BLANKS[3] as int == 10;
  }

  /** What is left to read after a value as `ParseValue` leaves it. */
  function AfterValue(v: Value, tail: Stream): (s: Stream) {
    if v.Bare? then Codes(v.skipped) + tail else [v.quote as int] + tail
  }

  lemma ReadInQuotes(quote: char, ps: seq<Piece>, tail: Stream, cfg: Config)
    requires GoodValue(InQuotes(quote, ps), cfg)
    ensures var s := ValueText(InQuotes(quote, ps)) + tail;
            && s != [] && s[0] == quote as int
            && ParseValue(s[0], s[1..], cfg) == Chunk(Spelled(ps, cfg), quote as int, tail)
  {
    hide PiecesText, AllProper, Spelled, QuotedValue, Plain;
    var s := ValueText(InQuotes(quote, ps)) + tail;
    assert s[1..] == PiecesText(ps) + ([quote as int] + tail);
    ReadQuotes(ps, quote, "", tail, cfg);
    assert "" + Spelled(ps, cfg) == Spelled(ps, cfg);
  }

  lemma ReadBare(first: int, ps: seq<Piece>, skipped: string, tail: Stream, cfg: Config)
    requires GoodValue(Bare(first, ps, skipped), cfg) && Codes(skipped) + tail != []
    requires OneOf((Codes(skipped) + tail)[0], VALUE_ENDS)
    ensures var s, t := ValueText(Bare(first, ps, skipped)) + tail, Codes(skipped) + tail;
            && s != [] && s[0] == first
            && ParseValue(s[0], s[1..], cfg) == Chunk(OneByte(first) + Spelled(ps, cfg), t[0], t[1..])
  {
    hide PiecesText, AllProper, Spelled, OneOf, Starts, Raw, ParseValue, OneByte;
    var s, t := ValueText(Bare(first, ps, skipped)) + tail, Codes(skipped) + tail;
    assert s == [first] + (PiecesText(ps) + t) && t == [t[0]] + t[1..];
    assert s[1..] == PiecesText(ps) + t;
    ReadPlain(ps, true, OneByte(first), t[0], t[1..], cfg);
    BareStarts(first);
    ParseBare(first, PiecesText(ps) + t, cfg);
  }

  lemma ParseBare(first: int, s: Stream, cfg: Config)
    requires first != '\"' as int && first != '\'' as int
    ensures ParseValue(first, s, cfg) == Plain(s, true, Raw(first), cfg)
  {
    hide Plain, QuotedValue, Raw;
  }

  /** A value, up to its end quote or the character that ends it. */
  lemma ReadValue(v: Value, tail: Stream, cfg: Config)
    requires GoodValue(v, cfg) && (v.Bare? ==> AfterValue(v, tail) != [] && OneOf(AfterValue(v, tail)[0], VALUE_ENDS))
    ensures var s, t := ValueText(v) + tail, AfterValue(v, tail);
            && s != [] && s[0] != EOF && NoneOf(s[0], BLANKS)
            && ParseValue(s[0], s[1..], cfg) == Chunk(ValueOfText(v, cfg), t[0], t[1..])
  {
    hide ValueText, AllProper, Spelled, ParseValue, OneOf, Starts, OneByte;
    match v
    case InQuotes(quote, ps) =>
      ReadInQuotes(quote, ps, tail, cfg);
      assert AfterValue(v, tail)[1..] == tail;
      NotBlank(quote as int);
    case Bare(first, ps, skipped) =>
      ReadBare(first, ps, skipped, tail, cfg);
      BareStarts(first);
  }

  lemma BareStarts(c: int)
    requires Starts(c, " \t\r\n\"\'")
    ensures NoneOf(c, BLANKS) && c != '\"' as int && c != '\'' as int && Raw(c) == OneByte(c) && c != EOF
  {
    var marks := " \t\r\n\"\'";
    assert marks[..4] == BLANKS && marks[4] == '\"' && marks[5] == '\'';
    assert forall i :: 0 <= i < 4 ==> BLANKS[i] == marks[i];
  }

  lemma NameStarts(c: int)
    requires Starts(c, " \t\r\n/?<>\"\'")
    ensures && !IsSpace(c) && c != '/' as int && c != '?' as int && c != '<' as int && c != '>' as int
            && c != '\"' as int && c != '\'' as int && c != EOF && Raw(c) == OneByte(c)
  {
    var marks := " \t\r\n/?<>\"\'";
    assert marks[0] as int == 32 && marks[1] as int == 9 && marks[2] as int == 13 && marks[3] as int == 10;
    assert marks[4] == '/' && marks[5] == '?' && marks[6] == '<' && marks[7] == '>' && marks[8] == '\"'
        && marks[9] == '\'';
  }

  /** The name, up to the white space or `=` that follows it. */
  lemma ReadNamePart(a: Attribute, rest: Stream, cfg: Config)
    requires GoodAttribute(a, cfg)
    ensures var s := NameText(a) + (Codes(a.before) + (['=' as int] + rest));
            var n := ParseName(s[0], s[1..], cfg);
            && n.Chunk? && n.buf == OneByte(a.first) + Spelled(a.more, cfg)
            && SkipSpace(n.ch, n.rest) == Read('=' as int, rest)
  {
    hide PiecesText, AllProper, Spelled, Plain, OneOf, SkipSpace, GoodValue;
    var tail := Codes(a.before) + (['=' as int] + rest);
    var s := NameText(a) + tail;
    assert s[1..] == PiecesText(a.more) + tail;
    NameStarts(a.first);
    EndsAName(a.before, rest);
    assert tail == [tail[0]] + tail[1..];
    ReadPlain(a.more, false, OneByte(a.first), tail[0], tail[1..], cfg);
    EqualsChar();
    AfterBlanks(a.before, '=' as int, rest);
  }

  lemma EqualsChar()
    ensures NoneOf('=' as int, BLANKS) && OneOf('=' as int, NAME_ENDS)
  {
    NotBlank('=' as int);
    assert NAME_ENDS[4] == '=';
  }

  lemma EndsAName(before: string, rest: Stream)
    requires Blank(before)
    ensures var tail := Codes(before) + (['=' as int] + rest); tail != [] && OneOf(tail[0], NAME_ENDS)
  {
    var tail := Codes(before) + (['=' as int] + rest);
    EqualsChar();
    if before != "" {
      BlankChar(before[0] as int);
      Ends(before[0] as int);
      assert OneOf(before[0] as int, BLANKS);
      assert tail[0] == before[0] as int;
    } else {
      assert tail[0] == '=' as int;
    }
  }

  /** One attribute, in whatever way it is spelled. */
  lemma ReadAttribute(attrs: seq<Attr>, a: Attribute, tail: Stream, cfg: Config)
    requires GoodAttribute(a, cfg) && !HasAttr(attrs, AttrOf(a, cfg).name)
    requires a.value.Bare? ==> AfterValue(a.value, tail) != [] && OneOf(AfterValue(a.value, tail)[0], VALUE_ENDS)
    ensures var s := NameText(a) + (Codes(a.before) + (['=' as int] + (Codes(a.after) + (ValueText(a.value) + tail))));
            var r, t := AttrOf(a, cfg), AfterValue(a.value, tail);
            ParseAttr(attrs, s[0], s[1..], cfg) == OneAttr(r.name, r.value.value, t[0], t[1..])
  {
    hide NameText, ParseName, ParseValue, SkipSpace, ValueText, Spelled, OneOf, HasAttr, CStr, GetAttr, GoodValue;
    hide AfterValue;
    hide ValueOfText;
    var r := AttrOf(a, cfg);
    var text := ValueText(a.value) + tail;
    ReadNamePart(a, Codes(a.after) + text, cfg);
    GetAttrAbsent(attrs, r.name);
    ReadValue(a.value, tail, cfg);
    assert text == [text[0]] + text[1..];
    AfterBlanks(a.after, text[0], text[1..]);
    var all := Codes(a.after) + text;
    assert Head(all) == all[0] && Rest(all) == all[1..];
  }

  lemma {:induction false} SkipGap(attrs: seq<Attr>, gap: string, rest: Stream, cfg: Config)
    requires Blank(gap)
    ensures ParseElement(attrs, Codes(gap) + rest, cfg) == ParseElement(attrs, rest, cfg)
    decreases |gap|
  {
    hide OneOf, ParseElement;
    if gap == "" {
      assert Codes(gap) + rest == rest;
    } else {
      BlankChar(gap[0] as int);
      assert (Codes(gap) + rest)[1..] == Codes(gap[1..]) + rest;
      SkipOne(attrs, Codes(gap) + rest, cfg);
      SkipGap(attrs, gap[1..], rest, cfg);
    }
  }

  lemma SkipOne(attrs: seq<Attr>, s: Stream, cfg: Config)
    requires s != [] && IsSpace(s[0])
    ensures ParseElement(attrs, s, cfg) == ParseElement(attrs, s[1..], cfg)
  {
  }

  lemma FollowChar(c: int)
    requires OneOf(c, " \t\r\n/>")
    ensures OneOf(c, VALUE_ENDS) && (IsSpace(c) || c == '/' as int || c == '>' as int)
  {
    var marks := " \t\r\n/>";
    assert marks[0] as int == 32 && marks[1] as int == 9 && marks[2] as int == 13 && marks[3] as int == 10;
    assert marks[4] == '/' && marks[5] == '>';
    Ends(c);
  }

  lemma AfterFollows(a: Attribute, tail: Stream, cfg: Config)
    requires GoodAttribute(a, cfg) && Follows(a, tail)
    ensures var t := AfterValue(a.value, tail);
            && t != []
            && (a.value.Bare? ==> OneOf(t[0], VALUE_ENDS) && (a.value.skipped == "" ==> t == tail))
            && (a.value.InQuotes? || a.value.skipped == "=" ==> t[1..] == tail)
            && (a.value.InQuotes? ==> t[0] == '\"' as int || t[0] == '\'' as int)
            && (a.value.Bare? && a.value.skipped == "=" ==> t[0] == '=' as int)
            && (a.value.Bare? && a.value.skipped != "=" ==> IsSpace(t[0]) || t[0] == '/' as int || t[0] == '>' as int)
  {
    hide OneOf, AllProper, Starts;
    if a.value.Bare? {
      if a.value.skipped == "" { FollowChar(tail[0]); } else { EqualsEnds(); }
      assert Codes("") + tail == tail;
    }
  }

  lemma EqualsEnds()
    ensures OneOf('=' as int, VALUE_ENDS)
  {
    assert VALUE_ENDS[4] == '=';
  }

  /** The attributes of an element, one more. */
  lemma OneMore(attrs: seq<Attr>, a: Attribute, tail: Stream, cfg: Config)
    requires GoodAttribute(a, cfg) && !HasAttr(attrs, AttrOf(a, cfg).name) && Follows(a, tail)
    ensures ParseElement(attrs, AttributeText(a) + tail, cfg) == ParseElement(attrs + [AttrOf(a, cfg)], tail, cfg)
  {
    hide ParseAttr, NameText, ValueText, OneOf, HasAttr, Spelled, ValueOfText, SetAttr, AllProper, CStr, Follows;
    hide AfterValue;
    var s := NameText(a) + (Codes(a.before) + (['=' as int] + (Codes(a.after) + (ValueText(a.value) + tail))));
    assert AttributeText(a) + tail == Codes(a.gap) + s;
    SkipGap(attrs, a.gap, s, cfg);
    AfterFollows(a, tail, cfg);
    ReadAttribute(attrs, a, tail, cfg);
    NameFirst(a);
    NameStarts(a.first);
    SetAttrAbsent(attrs, AttrOf(a, cfg).name, AttrOf(a, cfg).value);
    if a.value.Bare? && a.value.skipped == "" && IsSpace(tail[0]) { SkipOne(attrs + [AttrOf(a, cfg)], tail, cfg); }
  }

  lemma NameFirst(a: Attribute)
    ensures NameText(a) != [] && NameText(a)[0] == a.first
  {
  }

  // -- Tags -------------------------------------------------------------------------------------------------

  function AttributesText(attrs: seq<Attribute>): (s: Stream) {
    if attrs == [] then [] else AttributeText(attrs[0]) + AttributesText(attrs[1..])
  }

  function AttrsOf(attrs: seq<Attribute>, cfg: Config): (r: seq<Attr>)
    ensures |r| == |attrs| && forall i :: 0 <= i < |r| ==> r[i] == AttrOf(attrs[i], cfg)
  {
    if attrs == [] then [] else [AttrOf(attrs[0], cfg)] + AttrsOf(attrs[1..], cfg)
  }

  /** Each attribute may stand before the next one, and the last before `tail`. */
  predicate Spaced(attrs: seq<Attribute>, tail: Stream) {
    attrs != [] ==> Follows(attrs[0], AttributesText(attrs[1..]) + tail) && Spaced(attrs[1..], tail)
  }

  predicate GoodAttributes(attrs: seq<Attribute>, cfg: Config) {
    DistinctNames(AttrsOf(attrs, cfg)) && forall i :: 0 <= i < |attrs| ==> GoodAttribute(attrs[i], cfg)
  }

  lemma FollowsMore(a: Attribute, s: Stream, rest: Stream)
    requires Follows(a, s)
    ensures Follows(a, s + rest)
  {
    hide OneOf;
  }

  /** Any attributes in any spelling are read in order. */
  lemma {:induction false} ReadAttributes(before: seq<Attr>, attrs: seq<Attribute>, tail: Stream, rest: Stream,
                                          cfg: Config)
    requires forall i :: 0 <= i < |attrs| ==> GoodAttribute(attrs[i], cfg)
    requires DistinctNames(before + AttrsOf(attrs, cfg)) && Spaced(attrs, tail)
    ensures ParseElement(before, AttributesText(attrs) + (tail + rest), cfg) ==
            ParseElement(before + AttrsOf(attrs, cfg), tail + rest, cfg)
    decreases |attrs|
  {
    hide ParseElement, AttributeText, AttrOf, GoodAttribute, Follows;
    if attrs == [] {
      assert AttributesText(attrs) + (tail + rest) == tail + rest && before + AttrsOf(attrs, cfg) == before;
    } else {
      var a, more := attrs[0], attrs[1..];
      var r := AttrOf(a, cfg);
      var text := AttributesText(more) + tail;
      assert AttributesText(attrs) + (tail + rest) == AttributeText(a) + (text + rest);
      FollowsMore(a, text, rest);
      var all := before + AttrsOf(attrs, cfg);
      assert all == before + [r] + AttrsOf(more, cfg);
      assert !HasAttr(before, r.name) by {
        assert all[|before|] == r && forall i :: 0 <= i < |before| ==> before[i] == all[i];
      }
      OneMore(before, a, text + rest, cfg);
      assert text + rest == AttributesText(more) + (tail + rest);
      ReadAttributes(before + [r], more, tail, rest, cfg);
    }
  }

  predicate TagEnding(end: string) { end == ">" || end == "/>" || end == "?>" }

  lemma ReadEnding(attrs: seq<Attr>, gap: string, end: string, rest: Stream, cfg: Config)
    requires Blank(gap) && TagEnding(end)
    ensures ParseElement(attrs, Codes(gap) + Codes(end) + rest, cfg) == Parsed(attrs, end[0] as int, rest)
  {
    hide ParseElement;
    SkipGap(attrs, gap, Codes(end) + rest, cfg);
    assert Codes(gap) + Codes(end) + rest == Codes(gap) + (Codes(end) + rest);
    EndingRead(attrs, end, rest, cfg);
  }

  lemma EndingRead(attrs: seq<Attr>, end: string, rest: Stream, cfg: Config)
    requires TagEnding(end)
    ensures ParseElement(attrs, Codes(end) + rest, cfg) == Parsed(attrs, end[0] as int, rest)
  {
    var s := Codes(end) + rest;
    if end == ">" {
      assert s[1..] == rest;
    } else {
      assert s[1..] == ['>' as int] + rest && s[1..][1..] == rest;
    }
  }

  /** The characters that end the name of an element, and those that cannot stand in one. */
  const TAG_ENDS := " \t\r\n/>"
  const TAG_BREAKS := " \t\r\n/><"

  lemma TagMarks(c: int)
    ensures OneOf(c, TAG_ENDS) ==> IsSpace(c) || c == '/' as int || c == '>' as int
    ensures NoneOf(c, TAG_BREAKS) ==> !IsSpace(c) && c != '/' as int && c != '>' as int && c != '<' as int
  {
    assert forall i :: 0 <= i < 6 ==> TAG_ENDS[i] == TAG_BREAKS[i];
    assert TAG_BREAKS[0] as int == 32 && TAG_BREAKS[1] as int == 9 && TAG_BREAKS[2] as int == 13;
    assert TAG_BREAKS[3] as int == 10 && TAG_BREAKS[4] == '/' && TAG_BREAKS[5] == '>' && TAG_BREAKS[6] == '<';
  }

  /** The first byte decides what kind of tag this is. */
  predicate Ordinary(name: string) { name == "" || (name[0] != '?' && name[0] != '!') }

  lemma TagPiece(p: Piece, tail: Stream, acc: string, cfg: Config)
    requires Proper(p, TAG_BREAKS, cfg) && Ordinary(acc + Encode(Meaning(p, cfg)))
    ensures ReadTag(PieceText(p) + tail, acc, cfg) == ReadTag(tail, acc + Encode(Meaning(p, cfg)), cfg)
  {
    hide Resolve, Proper, Encode, OneOf, NoneOf, PieceText;
    ResolvePiece(p, TAG_BREAKS, tail, cfg);
    var s := PieceText(p) + tail;
    if p.Char? {
      TagPieceChar(p, cfg);
      CharText(p.c, tail);
    } else {
      ResolveReference(s, cfg);
    }
  }

  lemma CharText(c: int, tail: Stream)
    ensures var s := PieceText(Char(c)) + tail; s[0] == c && s[1..] == tail
  {
  }

  lemma ResolveReference(s: Stream, cfg: Config)
    requires s != [] && s[0] == '&' as int
    ensures Resolve(s[0], s[1..], cfg) == GetEntity(s[1..], "", cfg)
  {
  }

  lemma TagPieceChar(p: Piece, cfg: Config)
    requires Proper(p, TAG_BREAKS, cfg) && p.Char?
    ensures NoneOf(p.c, TAG_BREAKS) && p.c != '&' as int && p.c != EOF && Meaning(p, cfg) == p.c
    ensures !IsSpace(p.c) && p.c != '/' as int && p.c != '>' as int && p.c != '<' as int
  {
    hide NoneOf;
    TagMarks(p.c);
  }

  /** A name in a tag, up to the character `t` that ends it. */
  lemma {:induction false} ReadTagPieces(ps: seq<Piece>, acc: string, t: int, rest: Stream, cfg: Config)
    requires AllProper(ps, TAG_BREAKS, cfg) && OneOf(t, TAG_ENDS) && Ordinary(acc + Spelled(ps, cfg))
    requires acc + Spelled(ps, cfg) == "" ==> t != '/' as int
    ensures ReadTag(PiecesText(ps) + ([t] + rest), acc, cfg) == Chunk(acc + Spelled(ps, cfg), t, rest)
    decreases |ps|
  {
    hide Resolve, Proper, Meaning, Encode, PieceText, OneOf, ReadTag;
    var tail := [t] + rest;
    if ps == [] {
      assert PiecesText(ps) + tail == tail && acc + Spelled(ps, cfg) == acc;
      TagMarks(t);
      TagTextEnds(acc, t, rest, cfg);
    } else {
      PiecesCons(ps, tail);
      SpelledCons(acc, ps, cfg);
      assert (acc + Encode(Meaning(ps[0], cfg)))[0] == (acc + Spelled(ps, cfg))[0];
      TagPiece(ps[0], PiecesText(ps[1..]) + tail, acc, cfg);
      ReadTagPieces(ps[1..], acc + Encode(Meaning(ps[0], cfg)), t, rest, cfg);
    }
  }

  lemma TagTextEnds(acc: string, t: int, rest: Stream, cfg: Config)
    requires IsSpace(t) || (t == '/' as int && acc != "") || t == '>' as int
    ensures ReadTag([t] + rest, acc, cfg) == Chunk(acc, t, rest)
  {
    assert ([t] + rest)[1..] == rest;
  }

  /** What follows the name of an element up to the end of its tag. */
  function TailText(attrs: seq<Attribute>, gap: string, end: string): (s: Stream) {
    AttributesText(attrs) + (Codes(gap) + Codes(end))
  }

  /** The name must not make it another kind of tag; it may even be missing. */
  predicate Opening(name: string, next: int) {
    Ordinary(name) && (if name == "" then next != '/' as int else name[0] != '/')
  }

  predicate GoodTag(name: seq<Piece>, attrs: seq<Attribute>, gap: string, end: string, cfg: Config) {
    && AllProper(name, TAG_BREAKS, cfg) && Opening(Spelled(name, cfg), Head(TailText(attrs, gap, end)))
    && GoodAttributes(attrs, cfg) && Blank(gap) && TagEnding(end) && Spaced(attrs, Codes(gap) + Codes(end))
    && OneOf(Head(TailText(attrs, gap, end)), TAG_ENDS)
  }

  lemma EndsLike(t: int, rest: Stream, buf: string, cfg: Config)
    requires OneOf(t, TAG_ENDS)
    ensures TagEnd(Chunk(buf, t, rest), cfg) == ParseElement([], [t] + rest, cfg)
  {
    hide OneOf, ParseAttr;
    TagMarks(t);
    assert ([t] + rest)[1..] == rest;
  }

  /** The tag of an element in any spelling: its name, its attributes, and how it ends. */
  lemma ReadElementTag(name: seq<Piece>, attrs: seq<Attribute>, gap: string, end: string, rest: Stream, cfg: Config)
    requires GoodTag(name, attrs, gap, end, cfg)
    ensures var tag := ReadTag(PiecesText(name) + (TailText(attrs, gap, end) + rest), "", cfg);
            && tag.Chunk? && tag.buf == Spelled(name, cfg)
            && TagEnd(tag, cfg) == Parsed(AttrsOf(attrs, cfg), end[0] as int, rest)
  {
    hide ReadTag, TagEnd, ParseElement, PiecesText, Spelled, AllProper, AttributesText, GoodAttribute, OneOf, Spaced;
    hide Blank;
    var text := TailText(attrs, gap, end);
    var tail := text + rest;
    TailNotEmpty(attrs, gap, end);
    assert tail == [tail[0]] + tail[1..] && tail[0] == text[0];
    assert "" + Spelled(name, cfg) == Spelled(name, cfg);
    ReadTagPieces(name, "", tail[0], tail[1..], cfg);
    EndsLike(tail[0], tail[1..], Spelled(name, cfg), cfg);
    assert [] + AttrsOf(attrs, cfg) == AttrsOf(attrs, cfg);
    ReadAttributes([], attrs, Codes(gap) + Codes(end), rest, cfg);
    assert tail == AttributesText(attrs) + (Codes(gap) + Codes(end) + rest);
    ReadEnding(AttrsOf(attrs, cfg), gap, end, rest, cfg);
  }

  lemma TailNotEmpty(attrs: seq<Attribute>, gap: string, end: string)
    requires TagEnding(end)
    ensures TailText(attrs, gap, end) != []
  {
  }

  /** What may stand between the name in a close tag and its `>`. */
  predicate GoodExtra(extra: Stream) {
    && (extra != [] ==> OneOf(extra[0], TAG_ENDS))
    && forall i :: 0 <= i < |extra| ==> extra[i] != '>' as int && extra[i] != EOF
  }

  lemma {:induction false} SkipExtra(ch: int, extra: Stream, rest: Stream)
    requires ch != '>' as int && ch != EOF
    requires forall i :: 0 <= i < |extra| ==> extra[i] != '>' as int && extra[i] != EOF
    ensures SkipToEnd(ch, extra + (['>' as int] + rest)) == rest
    decreases |extra|
  {
    var s := extra + (['>' as int] + rest);
    if extra == [] {
      assert s == ['>' as int] + rest && s[1..] == rest;
    } else {
      assert s[0] == extra[0] && s[1..] == extra[1..] + (['>' as int] + rest);
      SkipExtra(extra[0], extra[1..], rest);
    }
  }

  /** A close tag: the name in any spelling, and anything up to the `>`. */
  lemma ReadCloseTag(close: seq<Piece>, extra: Stream, rest: Stream, cfg: Config)
    requires AllProper(close, TAG_BREAKS, cfg) && GoodExtra(extra)
    ensures var tag := ReadTag(['/' as int] + (PiecesText(close) + (extra + (['>' as int] + rest))), "", cfg);
            tag.Chunk? && tag.buf == "/" + Spelled(close, cfg) && SkipToEnd(tag.ch, tag.rest) == rest
  {
    hide ReadTag, PiecesText, Spelled, AllProper, OneOf, SkipToEnd;
    var tail := extra + (['>' as int] + rest);
    var t := tail[0];
    assert tail == [t] + tail[1..];
    SlashRead(PiecesText(close) + tail, cfg);
    GreaterEnds();
    ReadTagPieces(close, "/", t, tail[1..], cfg);
    if extra == [] {
      assert tail[1..] == rest;
      AtGreater(rest);
    } else {
      assert tail[1..] == extra[1..] + (['>' as int] + rest);
      SkipExtra(t, extra[1..], rest);
    }
  }

  lemma GreaterEnds()
    ensures OneOf('>' as int, TAG_ENDS)
  {
    assert TAG_ENDS[5] == '>';
  }

  lemma AtGreater(rest: Stream)
    ensures SkipToEnd('>' as int, rest) == rest
  {
  }

  lemma SlashRead(s: Stream, cfg: Config)
    ensures ReadTag(['/' as int] + s, "", cfg) == ReadTag(s, "/", cfg)
  {
    hide GetEntity;
    assert (['/' as int] + s)[1..] == s && "" + Encode('/' as int) == "/";
    assert "/"[0] != "?"[0];
  }

  // -- Comments, CDATA sections, processing instructions, declarations -----------------------------------------

  /** A tag without attributes: the text of the first three between their marks, and the first word and the rest
      of a declaration. */
  datatype Lone =
    | Comment(text: string)
    | CData(text: string)
    | Instruction(text: string)
    | Declared(word: seq<Piece>, more: seq<Piece>)

  function LoneName(l: Lone, cfg: Config): (name: string) {
    match l
    case Comment(x) => "!--" + x + "--"
    case CData(x) => "![CDATA[" + x + "]]"
    case Instruction(x) => "?" + x + "?"
    case Declared(word, more) => Spelled(word + more, cfg)
  }

  function LoneText(l: Lone): (s: Stream) {
    match l
    case Comment(x) => Codes("!--") + (Chars(x) + Codes("--"))
    case CData(x) => Codes("![CDATA[") + (Chars(x) + Codes("]]"))
    case Instruction(x) => Codes("?") + (Chars(x) + Codes("?"))
    case Declared(word, more) => PiecesText(word) + PiecesText(more)
  }

  predicate StandsAt(x: string, mark: string, i: int) {
    0 <= i && i + |mark| <= |x| && x[i..i + |mark|] == mark
  }

  /** A comment goes on at `-->` after another dash, and where its first two dashes would have to end it. */
  predicate CommentBody(x: string) {
    && x != "" && x[|x| - 1] != '-'
    && forall i :: 0 <= i < |x| && StandsAt(x, "-->", i) ==> i == 0 || x[i - 1] == '-'
  }

  predicate CDataBody(x: string) { forall i :: 0 <= i < |x| ==> !StandsAt(x, "]]>", i) }

  predicate InstructionBody(x: string) {
    (x != "" ==> x[0] != '>') && forall i :: 0 <= i < |x| ==> !StandsAt(x, "?>", i)
  }

  lemma CommentRaw(x: string)
    ensures RawName(CommentTag, "!--" + x + "--") <==> CommentBody(x)
  {
    var name := "!--" + x + "--";
    assert name[..3] == "!--";
    assert name[|name| - 2..] == "--";
    forall i | 3 <= i < |name| && name[i] == '>'
      ensures EndsSpecial(CommentTag, name[..i]) <==> StandsAt(x, "-->", i - 5) && i != 5 && x[i - 6] != '-'
    {
      CommentEnds(x, i);
    }
    forall j | StandsAt(x, "-->", j) ensures 3 <= j + 5 < |name| && name[j + 5] == '>' {
      assert x[j..j + 3][2] == '>';
    }
  }

  lemma CommentEnds(x: string, i: int)
    requires var name := "!--" + x + "--"; 3 <= i < |name| && name[i] == '>'
    ensures EndsSpecial(CommentTag, ("!--" + x + "--")[..i]) <==> StandsAt(x, "-->", i - 5) && i != 5 && x[i - 6] != '-'
  {
    var name := "!--" + x + "--";
    var buf := name[..i];
    assert i - 3 < |x| && x[i - 3] == '>';
    assert |buf| > 4 ==> buf[|buf| - 2..] == [buf[i - 2], buf[i - 1]];
    if i >= 5 {
      assert buf[i - 2] == x[i - 5] && buf[i - 1] == x[i - 4];
      assert x[i - 5..i - 2] == [x[i - 5], x[i - 4], x[i - 3]];
      assert buf[i - 3] == if i == 5 then '-' else x[i - 6];
    }
  }

  lemma CDataRaw(x: string)
    ensures RawName(CDataTag, "![CDATA[" + x + "]]") <==> CDataBody(x)
  {
    var name := "![CDATA[" + x + "]]";
    assert name[..8] == "![CDATA[" && name[|name| - 2..] == "]]";
    forall i | 8 <= i < |name| && name[i] == '>'
      ensures EndsSpecial(CDataTag, name[..i]) <==> StandsAt(x, "]]>", i - 10)
    {
      var buf := name[..i];
      assert i - 8 < |x| && x[i - 8] == '>';
      assert buf[|buf| - 2..] == [buf[i - 2], buf[i - 1]];
      if i >= 10 {
        assert buf[i - 2] == x[i - 10] && buf[i - 1] == x[i - 9];
        assert x[i - 10..i - 7] == [x[i - 10], x[i - 9], x[i - 8]];
      }
    }
    forall j | StandsAt(x, "]]>", j) ensures 8 <= j + 10 < |name| && name[j + 10] == '>' {
      assert x[j..j + 3][2] == '>';
    }
  }

  lemma InstructionRaw(x: string)
    ensures RawName(DirectiveTag, "?" + x + "?") <==> InstructionBody(x)
  {
    var name := "?" + x + "?";
    assert name[..1] == "?" && name[|name| - 1..] == "?";
    forall i | 1 <= i < |name| && name[i] == '>'
      ensures EndsSpecial(DirectiveTag, name[..i]) <==> i == 1 || StandsAt(x, "?>", i - 2)
    {
      var buf := name[..i];
      assert i - 1 < |x| && x[i - 1] == '>';
      assert buf[|buf| - 1..] == [buf[i - 1]];
      if i >= 2 {
        assert x[i - 2..i] == [x[i - 2], x[i - 1]];
      }
    }
    if x != "" && x[0] == '>' { assert name[1] == '>'; }
    forall j | StandsAt(x, "?>", j) ensures 1 <= j + 2 < |name| && name[j + 2] == '>' {
      assert x[j..j + 2][1] == '>';
    }
  }

  function KindOf(l: Lone): (kind: Special)
    requires !l.Declared?
  {
    match l
    case Comment(_) => CommentTag
    case CData(_) => CDataTag
    case Instruction(_) => DirectiveTag
  }

  /** What these tags may hold; the text of a declaration has no `<` in its first word and no `>`. */
  ghost predicate GoodLone(l: Lone, cfg: Config) {
    match l
    case Comment(x) => IsText(x) && CommentBody(x)
    case CData(x) => IsText(x) && CDataBody(x)
    case Instruction(x) => IsText(x) && InstructionBody(x)
    case Declared(word, more) =>
      && AllProper(word, TAG_BREAKS, cfg) && AllProper(more, ">", cfg) && word != [] && word[0] == Char('!' as int)
      && (more != [] ==> more[0].Char? && OneOf(more[0].c, TAG_ENDS))
      && DeclarationStart(Spelled(word + more, cfg))
  }

  lemma RawText(a: string, x: string, b: string)
    requires IsAscii(a) && IsAscii(b) && IsText(x)
    ensures IsText(a + x + b) && Chars(a + x + b) == Codes(a) + (Chars(x) + Codes(b))
  {
    hide IsText, Chars, IsAscii;
    AsciiText(a);
    AsciiText(b);
    TextAppend(x, b);
    TextAppend(a, x + b);
    assert a + x + b == a + (x + b);
  }

  /** A comment, CDATA section or processing instruction is text, and named as the loader expects. */
  lemma LoneRaw(l: Lone, cfg: Config)
    requires !l.Declared? && GoodLone(l, cfg)
    ensures var name := LoneName(l, cfg); IsText(name) && Chars(name) == LoneText(l) && RawName(KindOf(l), name)
  {
    hide IsText, Chars, RawName;
    match l
    case Comment(x) =>
      RawText("!--", x, "--");
      CommentRaw(x);
    case CData(x) =>
      RawText("![CDATA[", x, "]]");
      CDataRaw(x);
    case Instruction(x) =>
      RawText("?", x, "?");
      InstructionRaw(x);
  }

  lemma RawStarts(kind: Special, name: string)
    requires RawName(kind, name)
    ensures StartsWith(name, Prefix(kind)) && IsAscii(Prefix(kind))
  {
  }

  lemma RawTagRead(kind: Special, name: string, rest: Stream, cfg: Config)
    requires IsText(name) && RawName(kind, name)
    ensures var tag := ReadTag(Chars(name) + (['>' as int] + rest), "", cfg);
            && tag.Chunk? && tag.buf == Prefix(kind)
            && ReadSpecial(tag.rest, kind, tag.buf) == Chunk(name, '>' as int, rest)
  {
    hide EndsSpecial, Encode, ReadTag, ReadSpecial, Chars, EncodeAll, RawName, AllReadable;
    RawStarts(kind, name);
    var p, more := Prefix(kind), name[|Prefix(kind)|..];
    assert name == p + more;
    AsciiPrefix(p, more);
    assert Chars(name) + (['>' as int] + rest) == Codes(p) + (Chars(more) + (['>' as int] + rest));
    ReadPrefix(kind, Chars(more) + (['>' as int] + rest), cfg);
    ReadRaw(kind, p, Chars(more), rest);
  }

  lemma PieceHead(ps: seq<Piece>, marks: string, tail: Stream, cfg: Config)
    requires AllProper(ps, marks, cfg) && (ps == [] ==> tail != [] && tail[0] != EOF)
    ensures var s := PiecesText(ps) + tail; s != [] && s[0] != EOF
  {
    hide Proper, PieceText;
    if ps == [] {
      assert PiecesText(ps) + tail == tail;
    } else {
      PiecesCons(ps, tail);
      PieceStarts(ps[0], marks, cfg);
    }
  }

  lemma PieceStarts(p: Piece, marks: string, cfg: Config)
    requires Proper(p, marks, cfg)
    ensures PieceText(p) != [] && PieceText(p)[0] == (if p.Char? then p.c else '&' as int) && PieceText(p)[0] != EOF
  {
  }

  /** The rest of a declaration, up to its end. */
  lemma {:induction false} ReadDeclared(ps: seq<Piece>, acc: string, rest: Stream, cfg: Config)
    requires AllProper(ps, ">", cfg)
    ensures var s := PiecesText(ps) + (['>' as int] + rest);
            s != [] && ReadDeclaration(s[0], s[1..], acc, cfg) == Chunk(acc + Spelled(ps, cfg), '>' as int, rest)
    decreases |ps|
  {
    hide Resolve, Proper, Meaning, Encode, PieceText;
    var tail := ['>' as int] + rest;
    if ps == [] {
      assert PiecesText(ps) + tail == tail && tail[1..] == rest && acc + Spelled(ps, cfg) == acc;
    } else {
      PiecesCons(ps, tail);
      SpelledCons(acc, ps, cfg);
      ResolvePiece(ps[0], ">", PiecesText(ps[1..]) + tail, cfg);
      NotGreater(ps[0], cfg);
      PieceHead(ps[1..], ">", tail, cfg);
      ReadDeclared(ps[1..], acc + Encode(Meaning(ps[0], cfg)), rest, cfg);
    }
  }

  lemma NotGreater(p: Piece, cfg: Config)
    requires Proper(p, ">", cfg)
    ensures (if p.Char? then p.c else '&' as int) != '>' as int
  {
    if p.Char? { assert p.c != ">"[0] as int; }
  }

  lemma WordPiece(p: Piece, tail: Stream, acc: string, cfg: Config)
    requires Proper(p, TAG_BREAKS, cfg) && !IsSpecial(acc + Encode(Meaning(p, cfg)))
    ensures ReadTag(PieceText(p) + tail, acc, cfg) == ReadTag(tail, acc + Encode(Meaning(p, cfg)), cfg)
  {
    hide Resolve, Proper, Encode, OneOf, NoneOf, PieceText, IsSpecial;
    ResolvePiece(p, TAG_BREAKS, tail, cfg);
    var s := PieceText(p) + tail;
    if p.Char? {
      TagPieceChar(p, cfg);
      CharText(p.c, tail);
    } else {
      ResolveReference(s, cfg);
    }
  }

  /** The first word of a declaration. */
  lemma {:induction false} ReadWord(ps: seq<Piece>, acc: string, more: string, t: int, rest: Stream, cfg: Config)
    requires AllProper(ps, TAG_BREAKS, cfg) && OneOf(t, TAG_ENDS) && acc + Spelled(ps, cfg) != ""
    requires DeclarationStart(acc + Spelled(ps, cfg) + more)
    ensures ReadTag(PiecesText(ps) + ([t] + rest), acc, cfg) == Chunk(acc + Spelled(ps, cfg), t, rest)
    decreases |ps|
  {
    hide Proper, Meaning, Encode, PieceText, OneOf, ReadTag, DeclarationStart, IsSpecial;
    var tail := [t] + rest;
    if ps == [] {
      assert PiecesText(ps) + tail == tail && acc + Spelled(ps, cfg) == acc;
      TagMarks(t);
      TagTextEnds(acc, t, rest, cfg);
    } else {
      var acc' := acc + Encode(Meaning(ps[0], cfg));
      var name := acc + Spelled(ps, cfg) + more;
      PiecesCons(ps, tail);
      SpelledCons(acc, ps, cfg);
      assert name[..|acc'|] == acc';
      DeclarationPrefix(name, |acc'|);
      WordPiece(ps[0], PiecesText(ps[1..]) + tail, acc, cfg);
      ReadWord(ps[1..], acc', more, t, rest, cfg);
    }
  }

  /** A declaration is read whole: its first word, and the rest from the character that ended that. */
  lemma ReadDeclaredTag(word: seq<Piece>, more: seq<Piece>, rest: Stream, cfg: Config)
    requires GoodLone(Declared(word, more), cfg)
    ensures var tag := ReadTag(LoneText(Declared(word, more)) + (['>' as int] + rest), "", cfg);
            && tag.Chunk? && DeclarationStart(tag.buf)
            && ReadDeclaration(tag.ch, tag.rest, tag.buf, cfg) ==
               Chunk(LoneName(Declared(word, more), cfg), '>' as int, rest)
  {
    hide ReadTag, ReadDeclaration, DeclarationStart, AllProper, OneOf, PiecesText, Spelled;
    var tail := PiecesText(more) + (['>' as int] + rest);
    var first := Spelled(word, cfg);
    SpelledAppend(word, more, cfg);
    WordStarts(word, cfg);
    assert "" + first == first;
    AfterWord(more, rest, cfg);
    assert tail == [tail[0]] + tail[1..];
    assert LoneText(Declared(word, more)) + (['>' as int] + rest) == PiecesText(word) + tail;
    ReadWord(word, "", Spelled(more, cfg), tail[0], tail[1..], cfg);
    ReadDeclared(more, first, rest, cfg);
    var name := first + Spelled(more, cfg);
    assert name[..|first|] == first;
    DeclarationPrefix(name, |first|);
  }

  lemma WordStarts(word: seq<Piece>, cfg: Config)
    requires word != []
    ensures Spelled(word, cfg) != ""
  {
  }

  lemma AfterWord(more: seq<Piece>, rest: Stream, cfg: Config)
    requires more != [] ==> more[0].Char? && OneOf(more[0].c, TAG_ENDS)
    ensures var tail := PiecesText(more) + (['>' as int] + rest); tail != [] && OneOf(tail[0], TAG_ENDS)
  {
    hide OneOf;
    GreaterEnds();
    if more != [] {
      PiecesCons(more, ['>' as int] + rest);
    }
  }

  lemma {:induction false} SpelledAppend(a: seq<Piece>, b: seq<Piece>, cfg: Config)
    ensures Spelled(a + b, cfg) == Spelled(a, cfg) + Spelled(b, cfg)
  {
    hide Encode, Meaning;
    if a == [] {
      assert a + b == b;
    } else {
      assert (a + b)[0] == a[0] && (a + b)[1..] == a[1..] + b;
      SpelledAppend(a[1..], b, cfg);
    }
  }

  /** Processing instructions and declarations hold what follows them when nothing is open. */
  predicate Opens(l: Lone) { l.Instruction? || l.Declared? }

  /** What the loader makes of a tag without attributes. */
  lemma LoneRead(st: State, l: Lone, rest: Stream, cfg: Config)
    requires GoodLone(l, cfg) && !SecondRoot(st)
    ensures Tag(st, LoneText(l) + (['>' as int] + rest), cfg) ==
            if Opens(l) && st.stack == [] then Next(Retype(Open(st, LoneName(l, cfg), []), cfg, TextType), rest)
            else Next(AddLeaf(st, Element(LoneName(l, cfg), [], [])), rest)
  {
    hide Chars, ReadTag, ReadSpecial, RawName, DeclarationStart, ReadDeclaration, LoneName, LoneText, IsText, GoodLone;
    if l.Declared? {
      ReadDeclaredTag(l.word, l.more, rest, cfg);
      DeclarationKind(ReadTag(LoneText(l) + (['>' as int] + rest), "", cfg).buf);
    } else {
      LoneRaw(l, cfg);
      RawTagRead(KindOf(l), LoneName(l, cfg), rest, cfg);
      PrefixKind(KindOf(l));
    }
  }

  lemma DeclarationKind(tag: string)
    requires DeclarationStart(tag)
    ensures tag != COMMENT && tag != CDATA && !StartsWith(tag, "?") && StartsWith(tag, "!")
  {
    assert tag[..1][0] == '!';
    assert COMMENT[..|COMMENT|] == COMMENT && CDATA[..|CDATA|] == CDATA;
  }

  lemma PrefixKind(kind: Special)
    ensures Prefix(kind) == COMMENT <==> kind == CommentTag
    ensures Prefix(kind) == CDATA <==> kind == CDataTag
    ensures StartsWith(Prefix(kind), "?") <==> kind == DirectiveTag
  {
    assert COMMENT[0] == '!' && CDATA[0] == '!' && |COMMENT| != |CDATA|;
    assert Prefix(kind)[..1][0] == Prefix(kind)[0];
  }

  /** What it makes of the tag of an element, in any spelling: with `/>` the element is complete. */
  lemma ElementRead(st: State, name: seq<Piece>, attrs: seq<Attribute>, gap: string, end: string, rest: Stream,
                    cfg: Config)
    requires GoodTag(name, attrs, gap, end, cfg) && !SecondRoot(st)
    ensures Tag(st, PiecesText(name) + (TailText(attrs, gap, end) + rest), cfg) ==
            if end == "/>" then Next(AddLeaf(st, Element(Spelled(name, cfg), AttrsOf(attrs, cfg), [])), rest)
            else Next(Retype(Open(st, Spelled(name, cfg), AttrsOf(attrs, cfg)), cfg, st.vtype), rest)
  {
    hide ReadTag, TagEnd, PiecesText, Spelled, AllProper, AttributesText, GoodAttributes, OneOf, Spaced, Blank;
    ReadElementTag(name, attrs, gap, end, rest, cfg);
    OrdinaryName(Spelled(name, cfg));
  }

  lemma OrdinaryName(name: string)
    requires Ordinary(name) && (name != "" ==> name[0] != '/')
    ensures name != COMMENT && name != CDATA
    ensures !StartsWith(name, "?") && !StartsWith(name, "!") && !StartsWith(name, "/")
  {
    assert name != "" ==> name[..1] == [name[0]];
  }

  /** And of a close tag that names the innermost open element. */
  lemma CloseRead(st: State, close: seq<Piece>, extra: Stream, rest: Stream, cfg: Config)
    requires AllProper(close, TAG_BREAKS, cfg) && GoodExtra(extra)
    requires st.stack != [] && st.stack[|st.stack| - 1].name == Spelled(close, cfg)
    ensures Tag(st, ['/' as int] + (PiecesText(close) + (extra + (['>' as int] + rest))), cfg) ==
            Next(if Pop(st).stack == [] then Pop(st) else Retype(Pop(st), cfg, st.vtype), rest)
  {
    hide ReadTag, PiecesText, Spelled, AllProper, SkipToEnd, Pop, GoodExtra;
    ReadCloseTag(close, extra, rest, cfg);
    var name := "/" + Spelled(close, cfg);
    assert name[0] == '/' && name[..1] == "/" && name[1..] == Spelled(close, cfg);
  }
}
