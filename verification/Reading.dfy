/** The reading loops of `mxml_get_entity`, `mxml_load_data` and `mxml_parse_element` (mxml-file.c): each
    takes characters from the input, keeps them in a buffer, and does what the loader's function of the same
    name says. */
module Reading {
  import opened CStrings
  import opened Buffers
  import Entities
  import opened L = Loader
  import opened Readers
  import T = NodeTree
  import opened Utf8
  import opened XmlTree

  /** The results of all getc calls still to come. */
  ghost function StreamOf(input: StringReader): (s: Stream)
    requires input.Valid()
    reads input
  {
    Chars(input.Left())
  }

  /** One getc call. */
  method Getc(input: StringReader) returns (ch: int)
    requires input.Valid()
    modifies input
    ensures input.Valid() && ch == Head(old(StreamOf(input))) && StreamOf(input) == Rest(old(StreamOf(input)))
  {
    hide StringGetc;
    ch := input.Getc();
  }

  /** `mxml_get_entity`. */
  method ReadEntity(input: StringReader, cfg: Config) returns (ch: int)
    requires input.Valid()
    modifies input
    ensures input.Valid() && GetEntity(old(StreamOf(input)), "", cfg) == Read(ch, StreamOf(input))
  {
    hide Chars, StringReader.Valid, EntityValue, StreamOf;
    ghost var goal := GetEntity(StreamOf(input), "", cfg);
    var entity := "";
    ghost var s := StreamOf(input);
    ch := Getc(input);
    while ch != EOF
      invariant input.Valid() && ch == Head(s) && StreamOf(input) == Rest(s) && |entity| <= 63
      invariant GetEntity(s, entity, cfg) == goal
      decreases |s|
    {
      if ch > 126 || (!IsAlnum(ch) && ch != '#' as int) {
        break;
      } else if |entity| < 63 {
        entity := entity + [ch as char];
      } else {
        break;
      }
      s := StreamOf(input);
      ch := Getc(input);
    }
    if ch != ';' as int {
      return EOF;
    }
    ch := LookUpEntity(entity, cfg);
    if BadChar(ch) {
      return EOF;
    }
  }

  method LookUpEntity(entity: string, cfg: Config) returns (ch: int)
    ensures ch == EntityValue(entity, cfg)
  {
    hide Entities.GetValue;
    if entity != "" && entity[0] == '#' {
      ch := cfg.numeric(entity[1..]);
    } else {
      ch := Entities.LookUp(entity);
    }
  }

  /** The character just read, or what the entity it starts stands for. */
  method ReadResolved(ch: int, input: StringReader, cfg: Config) returns (r: int)
    requires input.Valid()
    modifies input
    ensures input.Valid() && Resolve(ch, old(StreamOf(input)), cfg) == Read(r, StreamOf(input))
  {
    hide GetEntity, StringReader.Valid, StreamOf;
    r := ch;
    if ch == '&' as int {
      r := ReadEntity(input, cfg);
    }
  }

  /** The buffer, the last character and the rest of the input are as `r` says; `ok` is false for an error. */
  ghost predicate Got(input: StringReader, buf: CharBuffer, ok: bool, ch: int, r: Chunk)
    requires input.Valid() && buf.Valid()
    reads input, buf, buf.data
  {
    if ok then r == Chunk(buf.Contents(), ch, StreamOf(input)) else r.Broken?
  }

  /** The rest of a quoted attribute name. */
  method ReadQuotedName(input: StringReader, quote: int, buf: CharBuffer, cfg: Config) returns (ok: bool, ch: int)
    requires input.Valid() && buf.Valid()
    modifies input, buf, buf.data
    ensures input.Valid() && buf.Valid() && (buf.data == old(buf.data) || fresh(buf.data))
    ensures Got(input, buf, ok, ch, QuotedName(old(StreamOf(input)), quote, old(buf.Contents()), cfg))
  {
    hide Resolve, StringReader.Valid, CharBuffer.Valid, CharBuffer.Contents, StreamOf, Encode;
    ghost var goal := QuotedName(StreamOf(input), quote, buf.Contents(), cfg);
    while true
      invariant input.Valid() && buf.Valid() && (buf.data == old(buf.data) || fresh(buf.data))
      invariant QuotedName(StreamOf(input), quote, buf.Contents(), cfg) == goal
      decreases |StreamOf(input)|
    {
      ch := Getc(input);
      if ch == EOF {
        return true, EOF;
      }
      ch := ReadResolved(ch, input, cfg);
      if ch == EOF {
        return false, EOF;
      }
      buf.Add(ch);
      if ch == quote {
        return true, ch;
      }
    }
  }

  /** The rest of an unquoted attribute name or value. */
  method ReadPlain(input: StringReader, isValue: bool, buf: CharBuffer, cfg: Config) returns (ok: bool, ch: int)
    requires input.Valid() && buf.Valid()
    modifies input, buf, buf.data
    ensures input.Valid() && buf.Valid() && (buf.data == old(buf.data) || fresh(buf.data))
    ensures Got(input, buf, ok, ch, Plain(old(StreamOf(input)), isValue, old(buf.Contents()), cfg))
  {
    hide Resolve, StringReader.Valid, CharBuffer.Valid, CharBuffer.Contents, StreamOf, Encode, EndsName, EndsValue;
    ghost var goal := Plain(StreamOf(input), isValue, buf.Contents(), cfg);
    while true
      invariant input.Valid() && buf.Valid() && (buf.data == old(buf.data) || fresh(buf.data))
      invariant Plain(StreamOf(input), isValue, buf.Contents(), cfg) == goal
      decreases |StreamOf(input)|
    {
      ch := Getc(input);
      if ch == EOF || (if isValue then EndsValue(ch) else EndsName(ch)) {
        return true, ch;
      }
      ch := ReadResolved(ch, input, cfg);
      if ch == EOF {
        return false, EOF;
      }
      buf.Add(ch);
    }
  }

  /** The rest of a quoted attribute value. */
  method ReadQuotedValue(input: StringReader, quote: int, buf: CharBuffer, cfg: Config) returns (ok: bool, ch: int)
    requires input.Valid() && buf.Valid()
    modifies input, buf, buf.data
    ensures input.Valid() && buf.Valid() && (buf.data == old(buf.data) || fresh(buf.data))
    ensures Got(input, buf, ok, ch, QuotedValue(old(StreamOf(input)), quote, old(buf.Contents()), cfg))
  {
    hide Resolve, StringReader.Valid, CharBuffer.Valid, CharBuffer.Contents, StreamOf, Encode;
    ghost var goal := QuotedValue(StreamOf(input), quote, buf.Contents(), cfg);
    while true
      invariant input.Valid() && buf.Valid() && (buf.data == old(buf.data) || fresh(buf.data))
      invariant QuotedValue(StreamOf(input), quote, buf.Contents(), cfg) == goal
      decreases |StreamOf(input)|
    {
      ch := Getc(input);
      if ch == EOF || ch == quote {
        return true, ch;
      }
      ch := ReadResolved(ch, input, cfg);
      if ch == EOF {
        return false, EOF;
      }
      buf.Add(ch);
    }
  }

  method ReadPastSpace(ch0: int, input: StringReader) returns (ch: int)
    requires input.Valid()
    modifies input
    ensures input.Valid() && SkipSpace(ch0, old(StreamOf(input))) == Read(ch, StreamOf(input))
  {
    hide StringReader.Valid, StreamOf;
    ghost var goal := SkipSpace(ch0, StreamOf(input));
    ch := ch0;
    while ch != EOF && IsSpace(ch)
      invariant input.Valid()
      invariant (if ch == EOF then goal == Read(EOF, StreamOf(input)) else SkipSpace(ch, StreamOf(input)) == goal)
      decreases |StreamOf(input)|, ch != EOF
    {
      ch := Getc(input);
    }
  }

  /** The text of a tag. */
  method ReadTagText(input: StringReader, buf: CharBuffer, cfg: Config) returns (ok: bool, ch: int)
    requires input.Valid() && buf.Valid() && buf.Contents() == ""
    modifies input, buf, buf.data
    ensures input.Valid() && buf.Valid() && (buf.data == old(buf.data) || fresh(buf.data))
    ensures Got(input, buf, ok, ch, ReadTag(old(StreamOf(input)), "", cfg))
  {
    hide GetEntity, StringReader.Valid, StreamOf, Encode, IsSpecial;
    ghost var goal := ReadTag(StreamOf(input), "", cfg);
    while true
      invariant input.Valid() && buf.Valid() && (buf.data == old(buf.data) || fresh(buf.data))
      invariant ReadTag(StreamOf(input), buf.Contents(), cfg) == goal
      decreases |StreamOf(input)|
    {
      ch := Getc(input);
      if ch == EOF || IsSpace(ch) || ch == '>' as int || (ch == '/' as int && buf.len > 0) {
        return true, ch;
      } else if ch == '<' as int {
        return false, ch;
      } else if ch == '&' as int {
        ch := ReadEntity(input, cfg);
        if ch == EOF {
          return false, ch;
        }
        buf.Add(ch);
      } else {
        buf.Add(ch);
        if IsSpecial(buf.data[..buf.len]) {
          return true, ch;
        }
      }
    }
  }

  /** The rest of a comment, a CDATA section or a processing instruction. */
  method ReadSpecialText(input: StringReader, kind: Special, buf: CharBuffer) returns (ok: bool)
    requires input.Valid() && buf.Valid()
    modifies input, buf, buf.data
    ensures input.Valid() && buf.Valid() && (buf.data == old(buf.data) || fresh(buf.data))
    ensures Got(input, buf, ok, '>' as int, ReadSpecial(old(StreamOf(input)), kind, old(buf.Contents())))
  {
    hide StringReader.Valid, StreamOf, Encode, EndsSpecial;
    ghost var goal := ReadSpecial(StreamOf(input), kind, buf.Contents());
    while true
      invariant input.Valid() && buf.Valid() && (buf.data == old(buf.data) || fresh(buf.data))
      invariant ReadSpecial(StreamOf(input), kind, buf.Contents()) == goal
      decreases |StreamOf(input)|
    {
      var ch := Getc(input);
      if ch == EOF {
        return false;
      }
      if ch == '>' as int && EndsSpecial(kind, buf.data[..buf.len]) {
        return true;
      }
      buf.Add(ch);
    }
  }

  /** The rest of a declaration, from the character that ended its first word. */
  method ReadDeclarationText(ch0: int, input: StringReader, buf: CharBuffer, cfg: Config) returns (ok: bool)
    requires input.Valid() && buf.Valid()
    modifies input, buf, buf.data
    ensures input.Valid() && buf.Valid() && (buf.data == old(buf.data) || fresh(buf.data))
    ensures Got(input, buf, ok, '>' as int, ReadDeclaration(ch0, old(StreamOf(input)), old(buf.Contents()), cfg))
  {
    hide StringReader.Valid, StreamOf, Encode, GetEntity, CharBuffer.Contents, CharBuffer.Valid;
    ghost var goal := ReadDeclaration(ch0, StreamOf(input), buf.Contents(), cfg);
    var ch := ch0;
    while ch != '>' as int
      invariant input.Valid() && buf.Valid() && (buf.data == old(buf.data) || fresh(buf.data))
      invariant ReadDeclaration(ch, StreamOf(input), buf.Contents(), cfg) == goal
      decreases |StreamOf(input)|
    {
      if ch == '&' as int {
        ch := ReadEntity(input, cfg);
        if ch == EOF {
          return false;
        }
      }
      buf.Add(ch);
      ch := Getc(input);
      if ch == EOF {
        return false;
      }
    }
    return true;
  }

  method ReadToEnd(ch0: int, input: StringReader)
    requires input.Valid()
    modifies input
    ensures input.Valid() && StreamOf(input) == SkipToEnd(ch0, old(StreamOf(input)))
  {
    hide StringReader.Valid, StreamOf;
    ghost var goal := SkipToEnd(ch0, StreamOf(input));
    var ch := ch0;
    while ch != '>' as int && ch != EOF
      invariant input.Valid() && SkipToEnd(ch, StreamOf(input)) == goal
      decreases |StreamOf(input)|, ch != EOF
    {
      ch := Getc(input);
    }
  }

  // -- Attributes ---------------------------------------------------------------------------------------------

  /** An attribute name that starts with `ch0`, as a C string. */
  method ReadName(ch0: int, input: StringReader, buf: CharBuffer, cfg: Config) returns (ok: bool, ch: int, name: string)
    requires input.Valid() && buf.Valid()
    modifies input, buf, buf.data
    ensures input.Valid() && buf.Valid() && (buf.data == old(buf.data) || fresh(buf.data))
    ensures Got(input, buf, ok, ch, ParseName(ch0, old(StreamOf(input)), cfg)) && name == CStr(buf.Contents())
  {
    hide StringReader.Valid, StreamOf, QuotedName, Plain;
    buf.Start(ch0);
    if ch0 == '\"' as int || ch0 == '\'' as int {
      ok, ch := ReadQuotedName(input, ch0, buf, cfg);
    } else {
      ok, ch := ReadPlain(input, false, buf, cfg);
    }
    var s := buf.Terminate();
    name := CStr(s);
  }

  /** An attribute value that starts with `ch0`, as a C string. */
  method ReadValue(ch0: int, input: StringReader, buf: CharBuffer, cfg: Config)
    returns (ok: bool, ch: int, value: string)
    requires input.Valid() && buf.Valid()
    modifies input, buf, buf.data
    ensures input.Valid() && buf.Valid() && (buf.data == old(buf.data) || fresh(buf.data))
    ensures Got(input, buf, ok, ch, ParseValue(ch0, old(StreamOf(input)), cfg)) && value == CStr(buf.Contents())
  {
    hide StringReader.Valid, StreamOf, QuotedValue, Plain;
    if ch0 == '\"' as int || ch0 == '\'' as int {
      buf.Clear();
      ok, ch := ReadQuotedValue(input, ch0, buf, cfg);
    } else {
      buf.Start(ch0);
      ok, ch := ReadPlain(input, true, buf, cfg);
    }
    var s := buf.Terminate();
    value := CStr(s);
  }

  /** The name and value buffers of `mxml_parse_element`. */
  ghost predicate TwoBuffers(name: CharBuffer, value: CharBuffer)
    reads name, value
  {
    name.Valid() && value.Valid() && name != value && name.data != value.data
  }

  /** One attribute. */
  method ReadAttr(node: T.Node, ch0: int, input: StringReader, name: CharBuffer, value: CharBuffer, cfg: Config)
    returns (ok: bool, ch: int)
    requires input.Valid() && TwoBuffers(name, value) && node.value.ElementValue?
    modifies input, name, name.data, value, value.data, node`value
    ensures input.Valid() && TwoBuffers(name, value)
    ensures (name.data == old(name.data) || fresh(name.data)) && (value.data == old(value.data) || fresh(value.data))
    ensures var a := ParseAttr(old(node.value.attrs), ch0, old(StreamOf(input)), cfg);
            && ok == a.OneAttr? && (!ok ==> node.value == old(node.value))
            && (ok ==> ch == a.ch && StreamOf(input) == a.rest)
            && (ok ==>
                  node.value ==
                  T.ElementValue(old(node.value.name), SetAttr(old(node.value.attrs), a.name, Some(a.value))))
  {
    hide StringReader.Valid, StreamOf, ParseName, ParseValue, SkipSpace, CharBuffer.Valid, CharBuffer.Contents;
    var n, v;
    ok, ch, n := ReadName(ch0, input, name, cfg);
    if !ok {
      return false, EOF;
    }
    var attr := GetAttr(node.value.attrs, n);
    if attr.Some? {
      return false, EOF;
    }
    ch := ReadPastSpace(ch, input);
    if ch != '=' as int {
      return false, EOF;
    }
    ch := Getc(input);
    ch := ReadPastSpace(ch, input);
    if ch == EOF {
      return false, EOF;
    }
    ok, ch, v := ReadValue(ch, input, value, cfg);
    if !ok {
      return false, EOF;
    }
    node.value := node.value.(attrs := SetAttr(node.value.attrs, n, Some(v)));
  }

  /** The character after a slash or question mark must be `>`. */
  method ReadClose(ch0: int, input: StringReader, ghost attrs: seq<Attr>) returns (ch: int)
    requires input.Valid()
    modifies input
    ensures input.Valid() && CloseTag(attrs, ch0, old(StreamOf(input))) == Parsed(attrs, ch, StreamOf(input))
  {
    hide StringReader.Valid, StreamOf;
    var quote := Getc(input);
    return if quote == '>' as int then ch0 else EOF;
  }

  /** `mxml_parse_element`: the attributes of an open tag become those of the node. */
  method ReadElement(node: T.Node, input: StringReader, cfg: Config) returns (ch: int)
    requires input.Valid() && node.value.ElementValue?
    modifies input, node`value
    ensures input.Valid() && node.value.ElementValue? && node.value.name == old(node.value.name)
    ensures var p := ParseElement(old(node.value.attrs), old(StreamOf(input)), cfg);
            ch == p.ch && (ch != EOF ==> node.value.attrs == p.attrs && StreamOf(input) == p.rest)
  {
    hide StringReader.Valid, StreamOf, ParseAttr, CharBuffer.Valid, CloseTag;
    var name := new CharBuffer();
    var value := new CharBuffer();
    ghost var goal := ParseElement(node.value.attrs, StreamOf(input), cfg);
    while true
      invariant input.Valid() && TwoBuffers(name, value) && fresh(name) && fresh(value) && fresh(name.data)
      invariant fresh(value.data)
      invariant node.value.ElementValue? && node.value.name == old(node.value.name)
      invariant ParseElement(node.value.attrs, StreamOf(input), cfg) == goal
      decreases |StreamOf(input)|
    {
      ch := Getc(input);
      if ch == EOF {
        return;
      }
      if !IsSpace(ch) {
        if ch == '/' as int || ch == '?' as int {
          ch := ReadClose(ch, input, node.value.attrs);
          return;
        } else if ch == '<' as int {
          return EOF;
        } else if ch == '>' as int {
          return;
        }
        var ok;
        ok, ch := ReadAttr(node, ch, input, name, value, cfg);
        if !ok {
          return EOF;
        }
        if ch == '/' as int || ch == '?' as int {
          ch := ReadClose(ch, input, node.value.attrs);
          return;
        } else if ch == '>' as int {
          return;
        }
      }
    }
  }
}
