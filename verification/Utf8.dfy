/** The character codec of mxml-file.c: `mxml_add_char`, `mxml_string_getc` and `mxml_fd_getc`
    in UTF-8 mode (section 3 of RFC 3629, widened to 21 bits). */
module Utf8 {
  import opened CStrings

  const BOM: int := 0xFEFF

  // -- Encoding -------------------------------------------------------------------------------

  function Cont(bits: int): (c: char)
    requires 0 <= bits < 64
  {
    (0x80 + bits) as char
  }

  /** The bytes `mxml_add_char` stores for `ch`.  Stores to `char` keep the low eight bits, so EOF
      becomes the byte 255. */
  function Encode(ch: int): (s: string)
    ensures 1 <= |s| <= 4
    ensures forall i :: 0 <= i < |s| ==> s[i] as int < 256
  {
    if ch < 0x80 then [(ch % 256) as char]
    else if ch < 0x800 then [(0xC0 + ch / 64) as char, Cont(ch % 64)]
    else if ch < 0x10000 then [(0xE0 + ch / 4096) as char, Cont(ch / 64 % 64), Cont(ch % 64)]
    else [(0xF0 + ch / 262144 % 16) as char, Cont(ch / 4096 % 64), Cont(ch / 64 % 64), Cont(ch % 64)]
  }

  function EncodeAll(cps: seq<int>): (s: string) {
    if cps == [] then "" else Encode(cps[0]) + EncodeAll(cps[1..])
  }

  /** The arithmetic above is what the masks and shifts of the source compute. */
  lemma ShiftsAndMasks(c: bv32)
    ensures c < 0x800 ==> (0xC0 | (c >> 6)) == 0xC0 + c / 64 && (0x80 | (c & 0x3F)) == 0x80 + c % 64
    ensures c < 0x10000 ==> (0xE0 | (c >> 12)) == 0xE0 + c / 4096 && (0x80 | ((c >> 6) & 0x3F)) == 0x80 + c / 64 % 64
    ensures (0xF0 | (c >> 18)) & 0xFF == 0xF0 + c / 262144 % 16 && (0x80 | ((c >> 12) & 0x3F)) == 0x80 + c / 4096 % 64
  {
  }

  /** Section 3 of RFC 3629, widened to 21 bits: `e` is the shortest sequence of a lead byte and continuation
      bytes whose bits are the number `ch`. */
  predicate IsUtf8(e: string, ch: int) {
    && 1 <= |e| <= 4
    && (forall i :: 1 <= i < |e| ==> IsCont(e[i] as int))
    && var b := e[0] as int;
       if |e| == 1 then 0 <= ch < 0x80 && ch == b
       else if |e| == 2 then
         0x80 <= ch < 0x800 && 0xC0 <= b < 0xE0 && ch == (b - 0xC0) * 64 + Low(e[1])
       else if |e| == 3 then
         0x800 <= ch < 0x10000 && 0xE0 <= b < 0xF0 && ch == (b - 0xE0) * 4096 + Low(e[1]) * 64 + Low(e[2])
       else
         && 0x10000 <= ch < 0x200000 && 0xF0 <= b < 0xF8
         && ch == (b - 0xF0) * 262144 + Low(e[1]) * 4096 + Low(e[2]) * 64 + Low(e[3])
  }

  /** The payload of a continuation byte. */
  function Low(c: char): (bits: int) { c as int - 0x80 }

  /** The digits of a number in base 64. */
  lemma Digits(high: int, low: int)
    requires 0 <= low < 64
    ensures (high * 64 + low) / 64 == high && (high * 64 + low) % 64 == low
  {
  }

  /** Up to 21 bits, `mxml_add_char` stores exactly the UTF-8 sequence of the character. */
  lemma EncodeIsUtf8(e: string, ch: int)
    requires 0 <= ch < 0x200000
    ensures e == Encode(ch) <==> IsUtf8(e, ch)
  {
    if IsUtf8(e, ch) {
      OnlyUtf8(e, ch);
    }
    if e == Encode(ch) {
      EncodedUtf8(ch);
    }
  }

  lemma EncodedUtf8(ch: int)
    requires 0 <= ch < 0x200000
    ensures IsUtf8(Encode(ch), ch)
  {
    if ch >= 0x10000 {
      EncodedFour(ch);
    } else if ch >= 0x800 {
      EncodedThree(ch);
    }
  }

  lemma EncodedThree(ch: int)
    requires 0x800 <= ch < 0x10000
    ensures IsUtf8(Encode(ch), ch)
  {
    hide Join2;
    JoinSplit(ch);
    assert ch / 4096 == ch / 64 / 64 < 16;
    assert ch == ch / 64 * 64 + ch % 64 && ch / 64 == ch / 4096 * 64 + ch / 64 % 64;
  }

  lemma EncodedFour(ch: int)
    requires 0x10000 <= ch < 0x200000
    ensures IsUtf8(Encode(ch), ch)
  {
    hide Join2;
    var high := ch / 64 / 64;
    JoinSplit(ch);
    assert ch / 4096 == high && ch / 262144 == high / 64 < 8;
    assert ch == ch / 64 * 64 + ch % 64 && ch / 64 == high * 64 + ch / 64 % 64 && high == high / 64 * 64 + high % 64;
  }

  lemma OnlyUtf8(e: string, ch: int)
    requires IsUtf8(e, ch)
    ensures e == Encode(ch)
  {
    if |e| == 2 {
      Digits(e[0] as int - 0xC0, Low(e[1]));
    } else if |e| == 3 {
      var high := (e[0] as int - 0xE0) * 64 + Low(e[1]);
      Digits(e[0] as int - 0xE0, Low(e[1]));
      Digits(high, Low(e[2]));
    } else if |e| == 4 {
      OnlyFour(e, ch);
    }
  }

  lemma OnlyFour(e: string, ch: int)
    requires |e| == 4 && IsUtf8(e, ch)
    ensures e == Encode(ch)
  {
    var high := (e[0] as int - 0xF0) * 64 + Low(e[1]);
    Digits(e[0] as int - 0xF0, Low(e[1]));
    Digits(high, Low(e[2]));
    Digits(high * 64 + Low(e[2]), Low(e[3]));
  }

  // -- Decoding -------------------------------------------------------------------------------

  /** What one call of a getc function leaves: the character (or EOF) and the unread input, or
      the news that a UTF-16 byte order mark was met. */
  datatype Got = Got(ch: int, rest: string) | Utf16

  /** The byte at offset `i`; the terminating NUL stands after the last one. */
  function At(s: string, i: nat): (b: int) {
    if i < |s| then s[i] as int else 0
  }

  /** Shifts the bits of one continuation byte in. */
  function Join2(high: int, b: int): (n: int) { high * 64 + b % 64 }

  predicate IsCont(b: int) { 0x80 <= b < 0xC0 }

  /** `mxml_string_getc` in UTF-8 mode.  A failure consumes exactly what the source consumes. */
  function StringGetc(s: string): (g: Got)
    ensures g.Got? ==> |g.rest| <= |s|
    ensures g.Got? && g.ch != EOF ==> |g.rest| < |s|
    decreases |s|
  {
    if At(s, 0) == 0 then Got(EOF, s)
    else
      var b := At(s, 0);
      if b < 0x80 then Got(if BadChar(b) then EOF else b, s[1..])
      else if b == 0xFE then if At(s, 1) == 0xFF then Utf16 else Got(EOF, s[1..])
      else if b == 0xFF then if At(s, 1) == 0xFE then Utf16 else Got(EOF, s[1..])
      else if 0xC0 <= b < 0xE0 then
        if !IsCont(At(s, 1)) then Got(EOF, s[1..])
        else
          var ch := Join2(b % 32, At(s, 1));
          Got(if ch < 0x80 then EOF else ch, s[2..])
      else if 0xE0 <= b < 0xF0 then
        if !IsCont(At(s, 1)) || !IsCont(At(s, 2)) then Got(EOF, s[1..])
        else
          var ch := Join2(Join2(b % 16, At(s, 1)), At(s, 2));
          if ch < 0x800 then Got(EOF, s[3..])
          else if ch == BOM then StringGetc(s[3..])
          else Got(ch, s[3..])
      else if 0xF0 <= b < 0xF8 then
        if !IsCont(At(s, 1)) || !IsCont(At(s, 2)) || !IsCont(At(s, 3)) then Got(EOF, s[1..])
        else
          var ch := Join2(Join2(Join2(b % 8, At(s, 1)), At(s, 2)), At(s, 3));
          Got(if ch < 0x10000 then EOF else ch, s[4..])
      else Got(EOF, s[1..])
  }

  /** The characters that survive being written and read back. */
  predicate Readable(ch: int) {
    0 < ch <= 0x1FFFFF && !BadChar(ch) && ch != BOM
  }

  /** Of 21 bits: tab, newline, carriage return and everything from the blank on, without the byte order mark. */
  lemma ReadableIs(ch: int)
    ensures Readable(ch) <==> ch == 9 || ch == 10 || ch == 13 || (32 <= ch < 0x200000 && ch != 0xFEFF)
    ensures BadChar(ch) <==> ch < 0 || (ch < 32 && ch != 9 && ch != 10 && ch != 13)
  {
  }

  predicate AllReadable(cps: seq<int>) {
    forall i :: 0 <= i < |cps| ==> Readable(cps[i])
  }

  lemma JoinSplit(n: int)
    requires 0 <= n
    ensures Join2(n / 64, 0x80 + n % 64) == n
    ensures n / 4096 == n / 64 / 64 && n / 262144 == n / 64 / 64 / 64
  {
  }

  lemma SplitJoin(high: int, b: int)
    requires IsCont(b)
    ensures Join2(high, b) / 64 == high && 0x80 + Join2(high, b) % 64 == b
  {
  }

  lemma Heads(n: int)
    ensures 0 <= n < 32 ==> (0xC0 + n) % 32 == n
    ensures 0 <= n < 16 ==> (0xE0 + n) % 16 == n
    ensures 0 <= n < 8 ==> (0xF0 + n) % 8 == n && n % 16 == n
  {
  }

  /** Decoding what `mxml_add_char` appends returns the character and consumes exactly its bytes. */
  lemma DecodeEncode(ch: int, rest: string)
    requires Readable(ch)
    ensures StringGetc(Encode(ch) + rest) == Got(ch, rest)
  {
    if ch < 0x800 { Decode12(ch, rest); } else if ch < 0x10000 { Decode3(ch, rest); } else { Decode4(ch, rest); }
  }

  lemma BytesOf(ch: int, rest: string)
    ensures var e := Encode(ch); var s := e + rest;
            s[|e|..] == rest && forall i: nat :: i < |e| ==> At(s, i) == e[i] as int
  {
    hide Encode;
  }

  lemma Decode12(ch: int, rest: string)
    requires Readable(ch) && ch < 0x800
    ensures StringGetc(Encode(ch) + rest) == Got(ch, rest)
  {
    BytesOf(ch, rest);
    JoinSplit(ch);
    Heads(ch / 64);
  }

  lemma Decode3(ch: int, rest: string)
    requires Readable(ch) && 0x800 <= ch < 0x10000
    ensures StringGetc(Encode(ch) + rest) == Got(ch, rest)
  {
    BytesOf(ch, rest);
    JoinSplit(ch);
    JoinSplit(ch / 64);
    Heads(ch / 64 / 64);
  }

  lemma Decode4(ch: int, rest: string)
    requires Readable(ch) && 0x10000 <= ch
    ensures StringGetc(Encode(ch) + rest) == Got(ch, rest)
  {
    BytesOf(ch, rest);
    Joined4(ch);
  }

  /** The four bytes of a high character, put together again. */
  lemma Joined4(ch: int)
    requires 0x10000 <= ch <= 0x1FFFFF
    ensures var e := Encode(ch);
            && |e| == 4 && 0xF0 <= (e[0] as int) < 0xF8
            && IsCont(e[1] as int) && IsCont(e[2] as int) && IsCont(e[3] as int)
            && Join2(Join2(Join2((e[0] as int) % 8, e[1] as int), e[2] as int), e[3] as int) == ch
  {
    hide Join2;
    JoinSplit(ch);
    JoinSplit(ch / 64);
    JoinSplit(ch / 64 / 64);
    Heads(ch / 64 / 64 / 64);
  }

  function Boms(n: nat): (s: string) {
    if n == 0 then "" else Encode(BOM) + Boms(n - 1)
  }

  /** `s` is `n` byte order marks, the encoding of `g.ch`, and the input `g` left unread. */
  ghost predicate ReadsAs(s: string, n: nat, g: Got)
    requires g.Got?
  {
    s == Boms(n) + Encode(g.ch) + g.rest
  }

  lemma ReadsAsMore(s: string, n: nat, g: Got)
    requires g.Got? && |s| >= 3 && s == Encode(BOM) + s[3..] && ReadsAs(s[3..], n, g)
    ensures ReadsAs(s, n + 1, g)
  {
    assert s == Encode(BOM) + (Boms(n) + Encode(g.ch) + g.rest) == Encode(BOM) + Boms(n) + Encode(g.ch) + g.rest;
  }

  lemma ReadsAsNow(s: string, g: Got)
    requires g.Got? && s == Encode(g.ch) + g.rest
    ensures ReadsAs(s, 0, g)
  {
    assert Boms(0) + Encode(g.ch) + g.rest == Encode(g.ch) + g.rest;
  }

  /** A successful read consumed byte order marks and then the one encoding of its result, so
      overlong forms are refused. */
  lemma {:induction false} EncodeDecode(s: string)
    requires StringGetc(s).Got? && StringGetc(s).ch != EOF
    ensures Readable(StringGetc(s).ch)
    ensures exists n: nat :: ReadsAs(s, n, StringGetc(s))
    decreases |s|
  {
    hide Encode, ReadsAs;
    var g := StringGetc(s);
    var b := At(s, 0);
    if 0xE0 <= b < 0xF0 && Join2(Join2(b % 16, At(s, 1)), At(s, 2)) == BOM {
      EncodeDecode(s[3..]);
      var n: nat :| ReadsAs(s[3..], n, StringGetc(s[3..]));
      EncodeInverts3(s);
      ReadsAsMore(s, n, g);
    } else {
      if b < 0x80 { EncodeInverts1(s); }
      else if b < 0xE0 { EncodeInverts2(s); }
      else if b < 0xF0 { EncodeInverts3(s); }
      else { EncodeInverts4(s); }
      ReadsAsNow(s, g);
    }
  }

  /** A byte order mark is skipped, whatever follows it. */
  lemma MarkSkipped(rest: string)
    ensures StringGetc(Encode(BOM) + rest) == StringGetc(rest)
  {
    BytesOf(BOM, rest);
    JoinSplit(BOM);
    JoinSplit(BOM / 64);
    Heads(BOM / 64 / 64);
  }

  /** Any number of byte order marks and then a character: the character is read. */
  lemma {:induction false} MarksSkipped(n: nat, ch: int, rest: string)
    requires Readable(ch)
    ensures StringGetc(Boms(n) + Encode(ch) + rest) == Got(ch, rest)
  {
    hide StringGetc, Encode;
    if n == 0 {
      assert Boms(0) + Encode(ch) + rest == Encode(ch) + rest;
      DecodeEncode(ch, rest);
    } else {
      var more := Boms(n - 1) + Encode(ch) + rest;
      assert Boms(n) + Encode(ch) + rest == Encode(BOM) + more;
      MarkSkipped(more);
      MarksSkipped(n - 1, ch, rest);
    }
  }

  /** A read succeeds exactly on byte order marks followed by the encoding of a readable character. */
  lemma ReadIff(s: string)
    ensures StringGetc(s).Got? && StringGetc(s).ch != EOF <==>
            exists n: nat, g: Got :: g.Got? && Readable(g.ch) && ReadsAs(s, n, g)
  {
    hide StringGetc, Encode, Readable, BadChar;
    if StringGetc(s).Got? && StringGetc(s).ch != EOF {
      EncodeDecode(s);
    }
    if n: nat, g: Got :| g.Got? && Readable(g.ch) && ReadsAs(s, n, g) {
      MarksSkipped(n, g.ch, g.rest);
      NotEof(g.ch);
    }
  }

  lemma NotEof(ch: int)
    requires Readable(ch)
    ensures ch != EOF
  {
  }

  /** The bytes 0xFE and 0xFF in either order switch to UTF-16, one of them alone is a failed read. */
  lemma SwitchIff(s: string)
    requires s != "" && (s[0] as int == 0xFE || s[0] as int == 0xFF)
    ensures StringGetc(s) ==
            if |s| >= 2 && s[1] as int == (if s[0] as int == 0xFE then 0xFF else 0xFE) then Utf16 else Got(EOF, s[1..])
  {
  }

  /** How many continuation bytes follow the first byte, up to `most`. */
  function Continued(s: string, most: nat): (n: nat)
    ensures n <= most
  {
    if most == 0 || !IsCont(At(s, 1)) then 0
    else if most == 1 || !IsCont(At(s, 2)) then 1
    else if most == 2 || !IsCont(At(s, 3)) then 2
    else 3
  }

  /** How many a lead byte asks for. */
  function Asked(b: int): (n: nat) {
    if 0xC0 <= b < 0xE0 then 1 else if 0xE0 <= b < 0xF0 then 2 else if 0xF0 <= b < 0xF8 then 3 else 0
  }

  lemma MarkFirst(s: string)
    requires 0xE0 <= At(s, 0) < 0xF0 && IsCont(At(s, 1)) && IsCont(At(s, 2))
    requires Join2(Join2(At(s, 0) % 16, At(s, 1)), At(s, 2)) == BOM
    ensures |s| >= 3 && s[..3] == Encode(BOM)
  {
    EncodeInverts3(s);
  }

  /** A failed read takes the whole of a complete sequence, and of any other only the first byte; at the end of the
      string it takes nothing. */
  lemma FailedRead(s: string)
    requires StringGetc(s).Got? && StringGetc(s).ch == EOF && !(|s| >= 3 && s[..3] == Encode(BOM))
    ensures StringGetc(s).rest ==
            if At(s, 0) == 0 then s
            else s[if Continued(s, Asked(At(s, 0))) == Asked(At(s, 0)) then 1 + Asked(At(s, 0)) else 1..]
  {
    var b := At(s, 0);
    if 0xE0 <= b < 0xF0 && IsCont(At(s, 1)) && IsCont(At(s, 2)) && Join2(Join2(b % 16, At(s, 1)), At(s, 2)) == BOM {
      MarkFirst(s);
    }
  }

  lemma EncodeInverts1(s: string)
    requires 0 < At(s, 0) < 0x80
    ensures s == Encode(At(s, 0)) + s[1..]
  {
  }

  lemma EncodeInverts2(s: string)
    requires 0xC0 <= At(s, 0) < 0xE0 && IsCont(At(s, 1))
    requires Join2(At(s, 0) % 32, At(s, 1)) >= 0x80
    ensures s == Encode(Join2(At(s, 0) % 32, At(s, 1))) + s[2..]
  {
    SplitJoin(At(s, 0) % 32, At(s, 1));
  }

  lemma EncodeInverts3(s: string)
    requires 0xE0 <= At(s, 0) < 0xF0 && IsCont(At(s, 1)) && IsCont(At(s, 2))
    requires Join2(Join2(At(s, 0) % 16, At(s, 1)), At(s, 2)) >= 0x800
    ensures s == Encode(Join2(Join2(At(s, 0) % 16, At(s, 1)), At(s, 2))) + s[3..]
  {
    var h := Join2(At(s, 0) % 16, At(s, 1));
    SplitJoin(At(s, 0) % 16, At(s, 1));
    SplitJoin(h, At(s, 2));
    JoinSplit(Join2(h, At(s, 2)));
  }

  lemma EncodeInverts4(s: string)
    requires 0xF0 <= At(s, 0) < 0xF8 && IsCont(At(s, 1)) && IsCont(At(s, 2)) && IsCont(At(s, 3))
    requires Join2(Join2(Join2(At(s, 0) % 8, At(s, 1)), At(s, 2)), At(s, 3)) >= 0x10000
    ensures s == Encode(Join2(Join2(Join2(At(s, 0) % 8, At(s, 1)), At(s, 2)), At(s, 3))) + s[4..]
  {
    var h := Join2(At(s, 0) % 8, At(s, 1));
    var m := Join2(h, At(s, 2));
    SplitJoin(At(s, 0) % 8, At(s, 1));
    SplitJoin(h, At(s, 2));
    SplitJoin(m, At(s, 3));
    JoinSplit(Join2(m, At(s, 3)));
    Heads(At(s, 0) % 8);
  }

  // -- Whole strings -----------------------------------------------------------------------------

  /** The results of calling `mxml_string_getc` again and again, until it can only fail for ever.
      An EOF inside the sequence is a failed read after which the input goes on. */
  function Chars(s: string): (cs: seq<int>)
    decreases |s|
  {
    match StringGetc(s)
    case Utf16 => []
    case Got(ch, rest) => if |rest| == |s| then [] else [ch] + Chars(rest)
  }

  lemma CharsCons(ch: int, rest: string)
    requires Readable(ch)
    ensures Chars(Encode(ch) + rest) == [ch] + Chars(rest)
  {
    DecodeEncode(ch, rest);
  }

  lemma EncodeAllCons(cps: seq<int>, rest: string)
    requires cps != []
    ensures EncodeAll(cps) + rest == Encode(cps[0]) + (EncodeAll(cps[1..]) + rest)
  {
  }

  lemma {:induction false} CharsOfEncoded(cps: seq<int>, rest: string)
    requires AllReadable(cps)
    ensures Chars(EncodeAll(cps) + rest) == cps + Chars(rest)
  {
    hide StringGetc, Encode;
    if cps == [] {
      assert EncodeAll(cps) + rest == rest;
    } else {
      var ch, more := cps[0], cps[1..];
      assert cps == [ch] + more;
      EncodeAllCons(cps, rest);
      CharsOfEncoded(more, rest);
      CharsCons(ch, EncodeAll(more) + rest);
      calc {
        Chars(EncodeAll(cps) + rest);
        Chars(Encode(ch) + (EncodeAll(more) + rest));
        [ch] + Chars(EncodeAll(more) + rest);
        [ch] + (more + Chars(rest));
      }
    }
  }

  /** Well-formed text: the encoding of readable characters. */
  ghost predicate IsText(s: string) {
    AllReadable(Chars(s)) && s == EncodeAll(Chars(s))
  }

  lemma TextOf(cps: seq<int>)
    requires AllReadable(cps)
    ensures IsText(EncodeAll(cps)) && Chars(EncodeAll(cps)) == cps
  {
    CharsOfEncoded(cps, "");
    assert EncodeAll(cps) + "" == EncodeAll(cps) && cps + Chars("") == cps;
  }

  lemma CharsAppend(a: string, b: string)
    requires IsText(a)
    ensures Chars(a + b) == Chars(a) + Chars(b)
  {
    CharsOfEncoded(Chars(a), b);
  }

  lemma {:induction false} EncodeAllAppend(a: seq<int>, b: seq<int>)
    ensures EncodeAll(a + b) == EncodeAll(a) + EncodeAll(b)
  {
    if a == [] {
      assert a + b == b;
    } else {
      assert (a + b)[1..] == a[1..] + b;
      EncodeAllAppend(a[1..], b);
    }
  }

  lemma TextAppend(a: string, b: string)
    requires IsText(a) && IsText(b)
    ensures IsText(a + b) && Chars(a + b) == Chars(a) + Chars(b)
  {
    CharsAppend(a, b);
    EncodeAllAppend(Chars(a), Chars(b));
  }

  /** Byte order marks in front of text change nothing. */
  lemma CharsMarked(n: nat, s: string)
    requires IsText(s) && s != ""
    ensures Chars(Boms(n) + s) == Chars(s)
  {
    hide StringGetc, Encode;
    var ch, more := Chars(s)[0], EncodeAll(Chars(s)[1..]);
    assert s == Encode(ch) + more;
    assert Boms(n) + s == Boms(n) + Encode(ch) + more;
    MarksSkipped(n, ch, more);
    DecodeEncode(ch, more);
  }

  /** Nor do they between two texts. */
  lemma MarksBetween(a: string, n: nat, b: string)
    requires IsText(a) && IsText(b) && b != ""
    ensures Chars(a + Boms(n) + b) == Chars(a + b)
  {
    hide Chars, IsText;
    CharsAppend(a, Boms(n) + b);
    CharsAppend(a, b);
    CharsMarked(n, b);
    assert a + Boms(n) + b == a + (Boms(n) + b);
  }
}
