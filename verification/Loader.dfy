/** What `mxml_load_data` builds (mxml-file.c), as a function of the characters its getc callback
    returns; no top node and no SAX callback.

    A stream is the sequence of results of successive getc calls.  An EOF inside a stream is a
    failed read after which the callback goes on; after the last element every read is EOF. */
module Loader {
  import opened CStrings
  import opened Entities
  import opened XmlTree
  import opened Utf8

  type Stream = seq<int>

  function Head(s: Stream): (ch: int) {
    if s == [] then EOF else s[0]
  }

  function Rest(s: Stream): (r: Stream)
    ensures |r| <= |s| && (Head(s) != EOF ==> |r| < |s|)
  {
    if s == [] then [] else s[1..]
  }

  /** The value types within this model. */
  datatype VType = Ignore | OpaqueType | TextType

  /** An element that is still open, with the children it has so far. */
  datatype Frame = Frame(name: string, attrs: seq<Attr>, kids: seq<Node>)

  /** The load callback sees the chain of open elements, outermost first. */
  datatype Callback = NoCallback | Callback(choose: seq<Frame> -> VType)

  /** `numeric` is the value of `strtol` for the text after `#` in a character reference. */
  datatype Config = Config(cb: Callback, numeric: string -> int, loneWsOff: bool)

  datatype Read = Read(ch: int, rest: Stream)

  // -- Entities ---------------------------------------------------------------------------------

  function EntityValue(name: string, cfg: Config): (v: int) {
    if name != "" && name[0] == '#' then cfg.numeric(name[1..]) else GetValue(name)
  }

  /** `mxml_get_entity` after `acc` has been read. */
  function GetEntity(s: Stream, acc: string, cfg: Config): (r: Read)
    ensures |r.rest| <= |s|
    decreases |s|
  {
    var ch := Head(s);
    if ch != EOF && ch <= 126 && (IsAlnum(ch) || ch == '#' as int) && |acc| < 63 then
      GetEntity(Rest(s), acc + [ch as char], cfg)
    else if ch != ';' as int then Read(EOF, Rest(s))
    else
      var v := EntityValue(acc, cfg);
      Read(if BadChar(v) then EOF else v, Rest(s))
  }

  /** `ch`, or the character the entity after an ampersand stands for. */
  function Resolve(ch: int, s: Stream, cfg: Config): (r: Read)
    ensures |r.rest| <= |s|
  {
    if ch == '&' as int then GetEntity(s, "", cfg) else Read(ch, s)
  }

  // -- Attributes -------------------------------------------------------------------------------

  datatype Chunk = Broken | Chunk(buf: string, ch: int, rest: Stream)

  /** A quoted attribute name: up to and including its end quote, which may come from an entity. */
  function QuotedName(s: Stream, quote: int, acc: string, cfg: Config): (r: Chunk)
    ensures r.Chunk? ==> |r.rest| <= |s|
    decreases |s|
  {
    if Head(s) == EOF then Chunk(acc, EOF, Rest(s))
    else
      var c := Resolve(Head(s), Rest(s), cfg);
      if c.ch == EOF then Broken
      else if c.ch == quote then Chunk(acc + Encode(c.ch), c.ch, c.rest)
      else QuotedName(c.rest, quote, acc + Encode(c.ch), cfg)
  }

  predicate EndsName(ch: int) {
    IsSpace(ch) || ch == '=' as int || ch == '/' as int || ch == '>' as int || ch == '?' as int
  }

  predicate EndsValue(ch: int) {
    IsSpace(ch) || ch == '=' as int || ch == '/' as int || ch == '>' as int
  }

  /** An unquoted attribute name, or (`isValue`) an unquoted attribute value. */
  function Plain(s: Stream, isValue: bool, acc: string, cfg: Config): (r: Chunk)
    ensures r.Chunk? ==> |r.rest| <= |s|
    decreases |s|
  {
    var ch := Head(s);
    if ch == EOF || (if isValue then EndsValue(ch) else EndsName(ch)) then Chunk(acc, ch, Rest(s))
    else
      var c := Resolve(ch, Rest(s), cfg);
      if c.ch == EOF then Broken else Plain(c.rest, isValue, acc + Encode(c.ch), cfg)
  }

  /** A quoted attribute value, up to its end quote. */
  function QuotedValue(s: Stream, quote: int, acc: string, cfg: Config): (r: Chunk)
    ensures r.Chunk? ==> |r.rest| <= |s|
    decreases |s|
  {
    var ch := Head(s);
    if ch == EOF || ch == quote then Chunk(acc, ch, Rest(s))
    else
      var c := Resolve(ch, Rest(s), cfg);
      if c.ch == EOF then Broken else QuotedValue(c.rest, quote, acc + Encode(c.ch), cfg)
  }

  /** The first character at or after `ch` that is not white space. */
  function SkipSpace(ch: int, s: Stream): (r: Read)
    ensures |r.rest| <= |s| && !IsSpace(r.ch)
    decreases |s|
  {
    if !IsSpace(ch) then Read(ch, s)
    else if Head(s) == EOF then Read(EOF, Rest(s))
    else SkipSpace(Head(s), Rest(s))
  }

  /** The first character of a name or of an unquoted value is stored without encoding it. */
  function Raw(ch: int): (s: string) { [(ch % 256) as char] }

  /** One attribute, whose name starts with `ch`: its name and value as C strings. */
  datatype OneAttr = BadAttr | OneAttr(name: string, value: string, ch: int, rest: Stream)

  function ParseName(ch: int, s: Stream, cfg: Config): (r: Chunk)
    ensures r.Chunk? ==> |r.rest| <= |s|
  {
    if ch == '\"' as int || ch == '\'' as int then QuotedName(s, ch, Raw(ch), cfg)
    else Plain(s, false, Raw(ch), cfg)
  }

  function ParseValue(ch: int, s: Stream, cfg: Config): (r: Chunk)
    ensures r.Chunk? ==> |r.rest| <= |s|
  {
    if ch == '\"' as int || ch == '\'' as int then QuotedValue(s, ch, "", cfg)
    else Plain(s, true, Raw(ch), cfg)
  }

  function ParseAttr(attrs: seq<Attr>, ch: int, s: Stream, cfg: Config): (r: OneAttr)
    ensures r.OneAttr? ==> |r.rest| <= |s|
  {
    var n := ParseName(ch, s, cfg);
    if n.Broken? || GetAttr(attrs, CStr(n.buf)).Some? then BadAttr
    else
      var eq := SkipSpace(n.ch, n.rest);
      if eq.ch != '=' as int then BadAttr
      else
        var first := SkipSpace(Head(eq.rest), Rest(eq.rest));
        if first.ch == EOF then BadAttr
        else
          var v := ParseValue(first.ch, first.rest, cfg);
          if v.Broken? then BadAttr else OneAttr(CStr(n.buf), CStr(v.buf), v.ch, v.rest)
  }

  /** The attributes of an element and the character that ended its tag (EOF on errors). */
  datatype Parsed = Parsed(attrs: seq<Attr>, ch: int, rest: Stream)

  /** After `/` or `?` a `>` must follow. */
  function CloseTag(attrs: seq<Attr>, ch: int, s: Stream): (r: Parsed)
    ensures |r.rest| <= |s|
  {
    Parsed(attrs, if Head(s) == '>' as int then ch else EOF, Rest(s))
  }

  /** `mxml_parse_element` on an element that has `attrs` so far. */
  function ParseElement(attrs: seq<Attr>, s: Stream, cfg: Config): (r: Parsed)
    ensures |r.rest| <= |s|
    decreases |s|
  {
    var ch := Head(s);
    var rest := Rest(s);
    if ch == EOF then Parsed(attrs, EOF, rest)
    else if IsSpace(ch) then ParseElement(attrs, rest, cfg)
    else if ch == '/' as int || ch == '?' as int then CloseTag(attrs, ch, rest)
    else if ch == '<' as int then Parsed(attrs, EOF, rest)
    else if ch == '>' as int then Parsed(attrs, ch, rest)
    else
      var a := ParseAttr(attrs, ch, rest, cfg);
      if a.BadAttr? then Parsed(attrs, EOF, [])
      else
        var attrs' := SetAttr(attrs, a.name, Some(a.value));
        if a.ch == '/' as int || a.ch == '?' as int then CloseTag(attrs', a.ch, a.rest)
        else if a.ch == '>' as int then Parsed(attrs', a.ch, a.rest)
        else ParseElement(attrs', a.rest, cfg)
  }

  // -- Tags ---------------------------------------------------------------------------------------

  const COMMENT := "!--"
  const CDATA := "![CDATA["

  /** The tag text read so far already says how the tag goes on. */
  predicate IsSpecial(buf: string) {
    buf == "?" || buf == COMMENT || buf == CDATA
  }

  /** The text after `<`, up to white space, `>`, a slash that is not first, or a special prefix. */
  function ReadTag(s: Stream, buf: string, cfg: Config): (r: Chunk)
    ensures r.Chunk? ==> |r.rest| <= |s|
    decreases |s|
  {
    var ch := Head(s);
    if ch == EOF || IsSpace(ch) || ch == '>' as int || (ch == '/' as int && buf != "") then Chunk(buf, ch, Rest(s))
    else if ch == '<' as int then Broken
    else if ch == '&' as int then
      var c := GetEntity(Rest(s), "", cfg);
      if c.ch == EOF then Broken else ReadTag(c.rest, buf + Encode(c.ch), cfg)
    else if IsSpecial(buf + Encode(ch)) then Chunk(buf + Encode(ch), ch, Rest(s))
    else ReadTag(Rest(s), buf + Encode(ch), cfg)
  }

  datatype Special = CommentTag | CDataTag | DirectiveTag

  predicate EndsWith(s: string, suffix: string) {
    |suffix| <= |s| && s[|s| - |suffix|..] == suffix
  }

  /** A `>` ends the tag: after `--` but not `---` in a comment, after `]]` in CDATA, after `?`. */
  predicate EndsSpecial(kind: Special, buf: string) {
    match kind
    case CommentTag => |buf| > 4 && EndsWith(buf, "--") && buf[|buf| - 3] != '-'
    case CDataTag => EndsWith(buf, "]]")
    case DirectiveTag => EndsWith(buf, "?")
  }

  function ReadSpecial(s: Stream, kind: Special, buf: string): (r: Chunk)
    ensures r.Chunk? ==> |r.rest| <= |s|
    decreases |s|
  {
    if Head(s) == EOF then Broken
    else if Head(s) == '>' as int && EndsSpecial(kind, buf) then Chunk(buf, '>' as int, Rest(s))
    else ReadSpecial(Rest(s), kind, buf + Encode(Head(s)))
  }

  /** The rest of a declaration, from the character `ch` that ended its first word. */
  function ReadDeclaration(ch: int, s: Stream, buf: string, cfg: Config): (r: Chunk)
    ensures r.Chunk? ==> |r.rest| <= |s|
    decreases |s|
  {
    if ch == '>' as int then Chunk(buf, ch, s)
    else
      var c := Resolve(ch, s, cfg);
      if ch == '&' as int && c.ch == EOF then Broken
      else if Head(c.rest) == EOF then Broken
      else ReadDeclaration(Head(c.rest), Rest(c.rest), buf + Encode(c.ch), cfg)
  }

  /** After a close tag everything up to `>` is skipped. */
  function SkipToEnd(ch: int, s: Stream): (r: Stream)
    ensures |r| <= |s|
    decreases |s|
  {
    if ch == '>' as int || ch == EOF then s
    else if Head(s) == EOF then Rest(s)
    else SkipToEnd(Head(s), Rest(s))
  }

  // -- The main loop --------------------------------------------------------------------------------

  /** `stack` is the chain of `parent` pointers, outermost first; `done` is `first` once nothing is
      open; `buf` is the text gathered since the last tag. */
  datatype State = State(stack: seq<Frame>, done: Option<Node>, vtype: VType, ws: bool, buf: string)

  const START := State([], None, Ignore, false, "")

  datatype Outcome = Fail | Stop(st: State) | Next(st: State, rest: Stream)

  /** A new node without descendants: appended to the current parent; without a parent it becomes
      `first` unless there is one already, in which case nothing points to it. */
  function AddLeaf(st: State, n: Node): (r: State) {
    if st.stack == [] then (if st.done.None? then st.(done := Some(n)) else st)
    else
      var top := st.stack[|st.stack| - 1];
      st.(stack := st.stack[..|st.stack| - 1] + [top.(kids := top.kids + [n])])
  }

  function Open(st: State, name: string, attrs: seq<Attr>): (r: State) {
    st.(stack := st.stack + [Frame(name, attrs, [])])
  }

  function Closed(f: Frame): (n: Node) { Element(f.name, f.attrs, f.kids) }

  /** The innermost open element is complete. */
  function Pop(st: State): (r: State)
    requires st.stack != []
  {
    var n := |st.stack| - 1;
    if n == 0 then st.(stack := [], done := Some(Closed(st.stack[0])))
    else AddLeaf(st.(stack := st.stack[..n]), Closed(st.stack[n]))
  }

  /** A root cannot be added when there is one and nothing is open. */
  predicate SecondRoot(st: State) {
    st.stack == [] && st.done.Some?
  }

  function Retype(st: State, cfg: Config, otherwise: VType): (r: State) {
    st.(vtype := if cfg.cb.Callback? then cfg.cb.choose(st.stack) else otherwise)
  }

  /** The text gathered so far becomes a node when a tag starts or, except in opaque data, at white
      space (`ch` is the character just read). */
  function Flush(st: State, ch: int): (r: State) {
    if st.buf != "" && (ch == '<' as int || (IsSpace(ch) && st.vtype != OpaqueType)) then
      (match st.vtype
       case Ignore => st
       case OpaqueType => AddLeaf(st, Opaque(st.buf))
       case TextType => AddLeaf(st, Text(st.ws, st.buf))).(buf := "", ws := IsSpace(ch) && st.vtype == TextType)
    else if IsSpace(ch) && st.vtype == TextType then st.(ws := true)
    else st
  }

  /** White space alone before a tag becomes an empty text node. */
  function LoneSpace(st: State, cfg: Config): (r: State) {
    if st.ws && st.vtype == TextType then
      (if st.stack != [] && !cfg.loneWsOff then AddLeaf(st, Text(true, "")) else st).(ws := false)
    else st
  }

  function SpecialTag(st: State, kind: Special, tag: Chunk, cfg: Config): (r: Outcome)
    requires tag.Chunk?
    ensures r.Next? ==> |r.rest| <= |tag.rest|
  {
    var c := ReadSpecial(tag.rest, kind, tag.buf);
    if c.Broken? || SecondRoot(st) then Fail
    else if kind == DirectiveTag && st.stack == [] then Next(Retype(Open(st, c.buf, []), cfg, TextType), c.rest)
    else Next(AddLeaf(st, Element(c.buf, [], [])), c.rest)
  }

  function DeclarationTag(st: State, tag: Chunk, cfg: Config): (r: Outcome)
    requires tag.Chunk?
    ensures r.Next? ==> |r.rest| <= |tag.rest|
  {
    var c := ReadDeclaration(tag.ch, tag.rest, tag.buf, cfg);
    if c.Broken? || SecondRoot(st) then Fail
    else if st.stack == [] then Next(Retype(Open(st, c.buf, []), cfg, TextType), c.rest)
    else Next(AddLeaf(st, Element(c.buf, [], [])), c.rest)
  }

  function CloseElement(st: State, tag: Chunk, cfg: Config): (r: Outcome)
    requires tag.Chunk? && tag.buf != ""
    ensures r.Next? ==> |r.rest| <= |tag.rest|
  {
    if st.stack == [] || tag.buf[1..] != st.stack[|st.stack| - 1].name then Fail
    else
      var st' := Pop(st);
      Next(if st'.stack == [] then st' else Retype(st', cfg, st.vtype), SkipToEnd(tag.ch, tag.rest))
  }

  /** The attributes of an open tag and how it ends. */
  function TagEnd(tag: Chunk, cfg: Config): (r: Parsed)
    requires tag.Chunk?
    ensures |r.rest| <= |tag.rest|
  {
    if IsSpace(tag.ch) then ParseElement([], tag.rest, cfg)
    else if tag.ch == '/' as int then CloseTag([], tag.ch, tag.rest)
    else Parsed([], tag.ch, tag.rest)
  }

  function OpenElement(st: State, tag: Chunk, cfg: Config): (r: Outcome)
    requires tag.Chunk?
    ensures r.Next? ==> |r.rest| <= |tag.rest|
  {
    if SecondRoot(st) then Fail
    else
      var p := TagEnd(tag, cfg);
      if p.ch == EOF then (if tag.ch == EOF then Stop(AddLeaf(st, Element(tag.buf, [], []))) else Fail)
      else if p.ch == '/' as int then Next(AddLeaf(st, Element(tag.buf, p.attrs, [])), p.rest)
      else Next(Retype(Open(st, tag.buf, p.attrs), cfg, st.vtype), p.rest)
  }

  /** Everything from `<` to the end of the tag. */
  function Tag(st: State, s: Stream, cfg: Config): (r: Outcome)
    ensures r.Next? ==> |r.rest| <= |s|
  {
    var tag := ReadTag(s, "", cfg);
    if tag.Broken? then Fail
    else if tag.buf == COMMENT then SpecialTag(st, CommentTag, tag, cfg)
    else if tag.buf == CDATA then SpecialTag(st, CDataTag, tag, cfg)
    else if StartsWith(tag.buf, "?") then SpecialTag(st, DirectiveTag, tag, cfg)
    else if StartsWith(tag.buf, "!") then DeclarationTag(st, tag, cfg)
    else if StartsWith(tag.buf, "/") then CloseElement(st, tag, cfg)
    else OpenElement(st, tag, cfg)
  }

  /** One turn of the main loop. */
  function Step(st: State, s: Stream, cfg: Config): (r: Outcome)
    ensures r.Next? ==> |r.rest| < |s|
  {
    var ch := Head(s);
    if ch == EOF then Stop(st)
    else
      var st1 := Flush(st, ch);
      if ch == '<' as int then
        Tag(LoneSpace(st1, cfg).(buf := ""), Rest(s), cfg)
      else if ch == '&' as int then
        var c := GetEntity(Rest(s), "", cfg);
        if c.ch == EOF then Fail else Next(st1.(buf := st1.buf + Encode(c.ch)), c.rest)
      else if st1.vtype == OpaqueType || !IsSpace(ch) then Next(st1.(buf := st1.buf + Encode(ch)), Rest(s))
      else Next(st1, Rest(s))
  }

  /** The result at the end of the input: at most the outermost element may still be open. */
  function Finish(st: State): (r: Option<Node>) {
    if |st.stack| > 1 then None
    else if |st.stack| == 1 then Some(Closed(st.stack[0]))
    else st.done
  }

  function Run(st: State, s: Stream, cfg: Config): (r: Option<Node>)
    decreases |s|
  {
    match Step(st, s, cfg)
    case Fail => None
    case Stop(st') => Finish(st')
    case Next(st', rest) => Run(st', rest, cfg)
  }

  function Load(s: Stream, cfg: Config): (r: Option<Node>) { Run(START, s, cfg) }

  /** `mxmlLoadString` without a top node. */
  function LoadString(text: string, cfg: Config): (r: Option<Node>) { Load(Chars(text), cfg) }
}
