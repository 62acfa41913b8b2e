/** Escaped text, the names of entities, and the marks of comments, CDATA sections and processing instructions. */
module Spelling {
  import opened CStrings
  import opened Entities
  import opened Utf8
  import opened XmlTree
  import opened Writer
  import opened Loader

  // -- ASCII -----------------------------------------------------------------------------------

  predicate IsAscii(s: string) {
    forall i :: 0 <= i < |s| ==> 0 < s[i] as int < 0x80 && !BadChar(s[i] as int)
  }

  function Codes(s: string): (cs: Stream)
    ensures |cs| == |s| && forall i :: 0 <= i < |s| ==> cs[i] == s[i] as int
  {
    if s == "" then [] else [s[0] as int] + Codes(s[1..])
  }

  lemma {:induction false} CodesOfAscii(s: string)
    requires IsAscii(s)
    ensures EncodeAll(Codes(s)) == s && AllReadable(Codes(s))
  {
    if s != "" {
      CodesOfAscii(s[1..]);
      assert Encode(s[0] as int) == [s[0]];
      assert s == [s[0]] + s[1..];
    }
  }

  lemma AsciiText(s: string)
    requires IsAscii(s)
    ensures IsText(s) && Chars(s) == Codes(s)
  {
    CodesOfAscii(s);
    TextOf(Codes(s));
  }

  /** Text that starts with an ASCII part: the remainder is text as well. */
  lemma AsciiPrefix(a: string, b: string)
    requires IsAscii(a) && IsText(a + b)
    ensures IsText(b) && Chars(a + b) == Codes(a) + Chars(b)
  {
    AsciiText(a);
    CharsAppend(a, b);
    EncodeAllAppend(Chars(a), Chars(b));
    var cs := Chars(a + b);
    forall i | 0 <= i < |Chars(b)| ensures Readable(Chars(b)[i]) {
      assert Chars(b)[i] == cs[|Chars(a)| + i];
    }
    assert a + b == a + EncodeAll(Chars(b));
    assert b == (a + b)[|a|..] == EncodeAll(Chars(b));
  }

  // -- Escaped characters -----------------------------------------------------------------------

  predicate HasEntity(c: int) {
    c == '&' as int || c == '<' as int || c == '>' as int || c == '\"' as int
  }

  /** The characters that stand for `c` after escaping. */
  function Spell(c: int): (cs: Stream) {
    if HasEntity(c) then Codes(EscapeChar(c as char)) else [c]
  }

  function SpellAll(cps: Stream): (cs: Stream) {
    if cps == [] then [] else Spell(cps[0]) + SpellAll(cps[1..])
  }

  lemma SpellEncodes(c: int, tail: string)
    requires Readable(c)
    ensures Escape(Encode(c) + tail) == EncodeAll(Spell(c)) + Escape(tail)
    ensures AllReadable(Spell(c))
  {
    if c >= 0x80 {
      HighSpelling(c, tail);
    } else if HasEntity(c) {
      assert Encode(c) == [c as char] && ([c as char] + tail)[1..] == tail;
      CodesOfAscii(EscapeChar(c as char));
    } else {
      LowSpelling(c, tail);
    }
  }

  lemma LowSpelling(c: int, tail: string)
    requires Readable(c) && c < 0x80 && !HasEntity(c)
    ensures Escape(Encode(c) + tail) == EncodeAll([c]) + Escape(tail)
  {
    assert Encode(c) == [c as char] && ([c as char] + tail)[1..] == tail;
    assert EscapeChar(c as char) == [c as char];
    assert EncodeAll([c]) == Encode(c);
  }

  lemma HighSpelling(c: int, tail: string)
    requires Readable(c) && c >= 0x80
    ensures Escape(Encode(c) + tail) == EncodeAll([c]) + Escape(tail)
  {
    hide Escape;
    HighBytes(Encode(c), tail);
    assert EncodeAll([c]) == Encode(c);
  }

  lemma EscapeHighByte(c: char, tail: string)
    requires c as int >= 0x80
    ensures Escape([c] + tail) == [c] + Escape(tail)
  {
    assert ([c] + tail)[1..] == tail;
  }

  lemma {:induction false} HighBytes(s: string, tail: string)
    requires forall i :: 0 <= i < |s| ==> s[i] as int >= 0x80
    ensures Escape(s + tail) == s + Escape(tail)
  {
    hide Escape, EscapeChar;
    if s == "" {
      assert s + tail == tail;
    } else {
      var c, more := s[0], s[1..];
      assert s + tail == [c] + (more + tail);
      EscapeHighByte(c, more + tail);
      HighBytes(more, tail);
      assert s + Escape(tail) == [c] + (more + Escape(tail));
    }
  }

  lemma {:induction false} EscapeEncoded(cps: Stream)
    requires AllReadable(cps)
    ensures Escape(EncodeAll(cps)) == EncodeAll(SpellAll(cps)) && AllReadable(SpellAll(cps))
  {
    hide Encode, Spell;
    if cps != [] {
      SpellEncodes(cps[0], EncodeAll(cps[1..]));
      EscapeEncoded(cps[1..]);
      EncodeAllAppend(Spell(cps[0]), SpellAll(cps[1..]));
    }
  }

  /** Escaping keeps text text, and spells each character on its own. */
  lemma EscapeText(s: string)
    requires IsText(s)
    ensures IsText(Escape(s)) && Chars(Escape(s)) == SpellAll(Chars(s))
  {
    EscapeEncoded(Chars(s));
    TextOf(SpellAll(Chars(s)));
  }

  // -- Entities -------------------------------------------------------------------------------------

  lemma GetEntityStep(c: char, s: Stream, acc: string, cfg: Config)
    requires (IsAlnum(c as int) || c == '#') && |acc| < 63
    ensures GetEntity([c as int] + s, acc, cfg) == GetEntity(s, acc + [c], cfg)
  {
    assert ([c as int] + s)[1..] == s;
  }

  lemma CodesFirst(s: string)
    ensures Codes(s) == if s == "" then [] else [s[0] as int] + Codes(s[1..])
  {
  }

  lemma {:induction false} GetEntityName(name: string, acc: string, rest: Stream, cfg: Config)
    requires forall i :: 0 <= i < |name| ==> IsAlnum(name[i] as int) || name[i] == '#'
    requires |acc| + |name| < 64
    ensures GetEntity(Codes(name) + [';' as int] + rest, acc, cfg)
         == GetEntity([';' as int] + rest, acc + name, cfg)
    decreases |name|
  {
    hide GetEntity, IsAlnum, Codes;
    var s := Codes(name) + [';' as int] + rest;
    CodesFirst(name);
    if name == "" {
      assert s == [';' as int] + rest && acc + name == acc;
    } else {
      assert s == [name[0] as int] + (Codes(name[1..]) + [';' as int] + rest);
      GetEntityStep(name[0], Codes(name[1..]) + [';' as int] + rest, acc, cfg);
      GetEntityName(name[1..], acc + [name[0]], rest, cfg);
      assert acc + [name[0]] + name[1..] == acc + name;
    }
  }

  lemma ShortName(c: int)
    requires HasEntity(c)
    ensures GetName(c as char).Some?
    ensures var name := GetName(c as char).value;
            && name != "" && name[0] != '#' && |name| <= 4
            && (forall i :: 0 <= i < |name| ==> IsAlnum(name[i] as int))
            && Codes("&" + name + ";") == ['&' as int] + Codes(name) + [';' as int]
  {
  }

  // -- Tags ------------------------------------------------------------------------------------------

  predicate TagChar(c: int) {
    !IsSpace(c) && c != '<' as int && c != '>' as int && c != '&' as int && c != '/' as int
  }

  function Prefix(kind: Special): (p: string) {
    match kind
    case CommentTag => COMMENT
    case CDataTag => CDATA
    case DirectiveTag => "?"
  }

  /** The name of a comment, CDATA section or processing instruction: its text ends where the tag
      ends, and nowhere before. */
  predicate RawName(kind: Special, name: string) {
    && StartsWith(name, Prefix(kind))
    && EndsSpecial(kind, name)
    && forall i :: |Prefix(kind)| <= i < |name| && name[i] == '>' ==> !EndsSpecial(kind, name[..i])
  }

  lemma {:induction false} ReadRaw(kind: Special, acc: string, cps: Stream, rest: Stream)
    requires AllReadable(cps) && RawName(kind, acc + EncodeAll(cps)) && |acc| >= |Prefix(kind)|
    ensures ReadSpecial(cps + (['>' as int] + rest), kind, acc) == Chunk(acc + EncodeAll(cps), '>' as int, rest)
    decreases |cps|
  {
    hide EndsSpecial, Encode, RawName;
    var s := cps + (['>' as int] + rest);
    var name := acc + EncodeAll(cps);
    if cps == [] {
      assert s == ['>' as int] + rest && s[1..] == rest && name == acc;
      RawEnds(kind, name);
    } else {
      var acc' := acc + Encode(cps[0]);
      assert s[0] == cps[0] && s[1..] == cps[1..] + (['>' as int] + rest);
      assert acc' + EncodeAll(cps[1..]) == name;
      if cps[0] == '>' as int {
        EncodeGt();
        assert name == acc + (">" + EncodeAll(cps[1..]));
        RawGoesOn(kind, acc, EncodeAll(cps[1..]));
      }
      ReadRaw(kind, acc', cps[1..], rest);
    }
  }

  lemma EncodeGt()
    ensures Encode('>' as int) == ">"
  {
  }

  lemma RawEnds(kind: Special, name: string)
    requires RawName(kind, name)
    ensures EndsSpecial(kind, name)
  {
  }

  lemma RawGoesOn(kind: Special, acc: string, more: string)
    requires RawName(kind, acc + (">" + more)) && |acc| >= |Prefix(kind)|
    ensures !EndsSpecial(kind, acc)
  {
    var name := acc + (">" + more);
    assert name[|acc|] == '>' && name[..|acc|] == acc;
  }

  /** The prefix of a special tag is recognised as soon as it is complete. */
  lemma ReadPrefix(kind: Special, rest: Stream, cfg: Config)
    ensures var r := ReadTag(Codes(Prefix(kind)) + rest, "", cfg);
            r.Chunk? && r.buf == Prefix(kind) && r.rest == rest
  {
    var n := |Prefix(kind)|;
    assert Prefix(kind)[..0] == "" && Codes(Prefix(kind))[0..] + rest == Codes(Prefix(kind)) + rest;
    PrefixFrom(kind, 0, rest, cfg);
  }

  lemma PrefixChar(kind: Special, n: nat)
    requires n < |Prefix(kind)|
    ensures var c := Prefix(kind)[n] as int; 0 < c < 0x80 && TagChar(c) && Encode(c) == [Prefix(kind)[n]]
    ensures Prefix(kind)[..n + 1] == Prefix(kind)[..n] + [Prefix(kind)[n]]
  {
  }

  /** Only the complete prefix stops `ReadTag`. */
  lemma PrefixSpecial(kind: Special, n: nat)
    requires 0 < n <= |Prefix(kind)|
    ensures IsSpecial(Prefix(kind)[..n]) <==> n == |Prefix(kind)|
  {
    var p := Prefix(kind)[..n];
    assert |p| == n && p[0] == Prefix(kind)[0];
    if n == |Prefix(kind)| {
      assert p == Prefix(kind);
    } else if kind == CDataTag && n == 3 {
      assert p[2] == 'C' && COMMENT[2] == '-';
    }
  }

  lemma {:induction false} PrefixFrom(kind: Special, n: nat, rest: Stream, cfg: Config)
    requires n < |Prefix(kind)|
    ensures var r := ReadTag(Codes(Prefix(kind))[n..] + rest, Prefix(kind)[..n], cfg);
            r.Chunk? && r.buf == Prefix(kind) && r.rest == rest
    decreases |Prefix(kind)| - n
  {
    hide Encode, IsSpecial, Codes, Prefix, GetEntity;
    var p := Prefix(kind);
    var s := Codes(p)[n..] + rest;
    PrefixChar(kind, n);
    PrefixSpecial(kind, n + 1);
    assert s[0] == p[n] as int && s[1..] == Codes(p)[n + 1..] + rest;
    if n + 1 < |p| {
      PrefixFrom(kind, n + 1, rest, cfg);
    } else {
      assert p[..n + 1] == p && Codes(p)[n + 1..] + rest == rest;
    }
  }

  // -- Declarations --------------------------------------------------------------------------------

  /** Tags starting with `!` other than comments and CDATA sections. */
  predicate DeclarationStart(name: string) {
    StartsWith(name, "!") && !StartsWith(name, COMMENT) && !StartsWith(name, CDATA)
  }

  lemma DeclarationPrefix(name: string, n: nat)
    requires DeclarationStart(name) && 0 < n <= |name|
    ensures DeclarationStart(name[..n]) && !IsSpecial(name[..n])
  {
    StartsBoth(name, n, COMMENT);
    StartsBoth(name, n, CDATA);
    assert name[..n][..1] == name[..1];
  }

  lemma StartsBoth(name: string, n: nat, prefix: string)
    requires n <= |name|
    ensures StartsWith(name[..n], prefix) ==> StartsWith(name, prefix)
  {
    if |prefix| <= n {
      assert name[..n][..|prefix|] == name[..|prefix|];
    }
  }
}
