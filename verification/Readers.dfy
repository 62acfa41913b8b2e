/** `mxml_string_getc` and `mxml_fd_getc` (mxml-file.c) as readers with a position, for input without the
    bytes 0xFE and 0xFF, which would switch them to UTF-16. */
module Readers {
  import opened CStrings
  import opened Utf8

  predicate EightBit(s: string) {
    forall i :: 0 <= i < |s| ==> (s[i] as int) < 0xFE
  }

  lemma SkipAt(s: string, n: nat)
    requires n <= |s|
    ensures forall i: nat :: At(s[n..], i) == At(s, n + i)
    ensures forall m: nat :: m <= |s| - n ==> s[n..][m..] == s[n + m..]
  {
  }

  class StringReader {
    const s: string
    var pos: nat

    ghost predicate Valid()
      reads this
    {
      pos <= |s| && EightBit(s)
    }

    ghost function Left(): (r: string)
      requires Valid()
      reads this
    {
      s[pos..]
    }

    constructor (s: string)
      requires EightBit(s)
      ensures Valid() && Left() == s
    {
      this.s := s;
      pos := 0;
    }

    /** The byte `i` places ahead; after the last one stands the terminating NUL. */
    method Peek(i: nat) returns (b: int)
      requires Valid()
      ensures b == At(Left(), i)
    {
      b := if pos + i < |s| then s[pos + i] as int else 0;
    }

    method Skip(n: nat)
      requires Valid() && n <= |Left()|
      modifies this
      ensures Valid() && Left() == old(Left())[n..]
      ensures forall i: nat :: At(Left(), i) == At(old(Left()), n + i)
    {
      SkipAt(Left(), n);
      SkipAt(s, pos);
      pos := pos + n;
    }

    /** `mxml_string_getc`. */
    method Getc() returns (ch: int)
      requires Valid()
      modifies this
      ensures Valid() && StringGetc(old(Left())) == Got(ch, Left())
      decreases |Left()|
    {
      hide Join2, EightBit;
      ch := Peek(0);
      if ch == 0 {
        return EOF;
      }
      EightBitFrom(s, pos);
      FirstByte(Left());
      var b1 := Peek(1);
      if ch < 0x80 {
        Skip(1);
        return if BadChar(ch) then EOF else ch;
      } else if 0xC0 <= ch < 0xE0 && IsCont(b1) {
        Skip(2);
        ch := Join2(ch % 32, b1);
        return if ch < 0x80 then EOF else ch;
      } else if 0xE0 <= ch < 0xF0 {
        ch := Getc3();
      } else if 0xF0 <= ch < 0xF8 {
        ch := Getc4();
      } else {
        Skip(1);
        return EOF;
      }
    }

    /** A three-byte value; a byte order mark is skipped. */
    method Getc3() returns (ch: int)
      requires Valid() && 0xE0 <= At(Left(), 0) < 0xF0
      modifies this
      ensures Valid() && StringGetc(old(Left())) == Got(ch, Left())
      decreases |Left()|, 0
    {
      hide Join2, EightBit;
      var b0 := Peek(0);
      var b1 := Peek(1);
      var b2 := Peek(2);
      if !IsCont(b1) || !IsCont(b2) {
        Skip(1);
        return EOF;
      }
      Skip(3);
      ch := Join2(Join2(b0 % 16, b1), b2);
      if ch < 0x800 {
        return EOF;
      } else if ch == BOM {
        ch := Getc();
      }
    }

    method Getc4() returns (ch: int)
      requires Valid() && 0xF0 <= At(Left(), 0) < 0xF8
      modifies this
      ensures Valid() && StringGetc(old(Left())) == Got(ch, Left())
      decreases |Left()|, 0
    {
      hide Join2, EightBit;
      var b0 := Peek(0);
      var b1 := Peek(1);
      var b2 := Peek(2);
      var b3 := Peek(3);
      if !IsCont(b1) || !IsCont(b2) || !IsCont(b3) {
        Skip(1);
        return EOF;
      }
      Skip(4);
      ch := Join2(Join2(Join2(b0 % 8, b1), b2), b3);
      if ch < 0x10000 {
        return EOF;
      }
    }
  }

  lemma FirstByte(s: string)
    requires EightBit(s)
    ensures At(s, 0) < 0xFE
  {
  }

  // -- Files ------------------------------------------------------------------------------------------

  /** `mxml_fd_getc` in UTF-8 mode on the bytes `s` still to come, however `read` will cut them up. Unlike
      the string reader it also consumes the byte that does not continue a character. */
  function FdGetc(s: string): (g: Got)
    ensures g.Got? ==> |g.rest| <= |s| && (s != "" ==> |g.rest| < |s|)
    decreases |s|
  {
    if s == "" then Got(EOF, "")
    else
      var b := At(s, 0);
      if b < 0x80 then Got(if BadChar(b) then EOF else b, s[1..])
      else if b == 0xFE then if At(s, 1) == 0xFF then Utf16 else Got(EOF, From(s, 2))
      else if b == 0xFF then if At(s, 1) == 0xFE then Utf16 else Got(EOF, From(s, 2))
      else if 0xC0 <= b < 0xE0 then
        if !IsCont(At(s, 1)) then Got(EOF, From(s, 2))
        else
          var ch := Join2(b % 32, At(s, 1));
          Got(if ch < 0x80 then EOF else ch, s[2..])
      else if 0xE0 <= b < 0xF0 then
        if !IsCont(At(s, 1)) then Got(EOF, From(s, 2))
        else if !IsCont(At(s, 2)) then Got(EOF, From(s, 3))
        else
          var ch := Join2(Join2(b % 16, At(s, 1)), At(s, 2));
          if ch < 0x800 then Got(EOF, s[3..])
          else if ch == BOM then FdGetc(s[3..])
          else Got(ch, s[3..])
      else if 0xF0 <= b < 0xF8 then
        if !IsCont(At(s, 1)) then Got(EOF, From(s, 2))
        else if !IsCont(At(s, 2)) then Got(EOF, From(s, 3))
        else if !IsCont(At(s, 3)) then Got(EOF, From(s, 4))
        else
          var ch := Join2(Join2(Join2(b % 8, At(s, 1)), At(s, 2)), At(s, 3));
          Got(if ch < 0x10000 then EOF else ch, s[4..])
      else Got(EOF, s[1..])
  }

  /** `s` without its first `n` bytes, or nothing when it is shorter. */
  function From(s: string, n: nat): (r: string) {
    if n <= |s| then s[n..] else ""
  }

  function Flatten(chunks: seq<string>): (r: string) {
    if chunks == [] then "" else chunks[0] + Flatten(chunks[1..])
  }

  /** A file descriptor buffer; `chunks` is what the calls of `read` will give before the end of the file. */
  class FdReader {
    const buffer: array<char>
    var current: nat
    var end: nat
    var chunks: seq<string>

    ghost predicate Valid()
      reads this, buffer
    {
      && current <= end <= buffer.Length
      && forall i :: 0 <= i < |chunks| ==> 0 < |chunks[i]| <= buffer.Length
    }

    /** All the bytes still to come. */
    ghost function Left(): (r: string)
      requires Valid()
      reads this, buffer
    {
      buffer[current..end] + Flatten(chunks)
    }

    constructor (size: nat, chunks: seq<string>)
      requires forall i :: 0 <= i < |chunks| ==> 0 < |chunks[i]| <= size
      ensures Valid() && fresh(buffer) && Left() == Flatten(chunks)
    {
      buffer := new char[size](_ => '\0');
      current, end := 0, 0;
      this.chunks := chunks;
    }

    /** `mxml_fd_read`, when `read` does not fail. */
    method Read() returns (ok: bool)
      requires Valid() && current == end
      modifies this, buffer
      ensures Valid() && Left() == old(Left())
      ensures ok == (Left() != "") && (ok ==> current < end)
    {
      if chunks == [] {
        return false;
      }
      var bytes := chunks[0];
      chunks := chunks[1..];
      forall i | 0 <= i < |bytes| { buffer[i] := bytes[i]; }
      current, end := 0, |bytes|;
      assert buffer[current..end] == bytes;
      return true;
    }

    /** The next byte, or EOF at the end of the file. */
    method Byte() returns (b: int)
      requires Valid()
      modifies this, buffer
      ensures Valid() && Left() == From(old(Left()), 1)
      ensures b == if old(Left()) == "" then EOF else At(old(Left()), 0)
    {
      if current >= end {
        var ok := Read();
        if !ok {
          return EOF;
        }
      }
      b := buffer[current] as int;
      assert buffer[current..end] == [buffer[current]] + buffer[current + 1..end];
      current := current + 1;
    }

    /** `mxml_fd_getc`. */
    method Getc() returns (ch: int)
      requires Valid() && EightBit(Left())
      modifies this, buffer
      ensures Valid() && FdGetc(old(Left())) == Got(ch, Left())
      decreases |Left()|
    {
      hide Join2, EightBit, Flatten;
      ghost var s := Left();
      SkipFrom(s);
      ch := Byte();
      if ch == EOF {
        return;
      }
      FirstByte(s);
      if ch < 0x80 {
        return if BadChar(ch) then EOF else ch;
      } else if 0xC0 <= ch < 0xE0 {
        var temp := Byte();
        if !IsCont(temp) {
          return EOF;
        }
        ch := Join2(ch % 32, temp);
        return if ch < 0x80 then EOF else ch;
      } else if 0xE0 <= ch < 0xF0 {
        ch := Getc3(ch, s);
      } else if 0xF0 <= ch < 0xF8 {
        ch := Getc4(ch, s);
      } else {
        return EOF;
      }
    }

    method Getc3(first: int, ghost s: string) returns (ch: int)
      requires Valid() && EightBit(s) && 0xE0 <= first < 0xF0 && |s| > 0 && first == At(s, 0) && Left() == s[1..]
      modifies this, buffer
      ensures Valid() && FdGetc(s) == Got(ch, Left())
      decreases |s|, 0
    {
      hide Join2, EightBit, Flatten;
      SkipFrom(s);
      var temp := Byte();
      if !IsCont(temp) {
        return EOF;
      }
      ch := Join2(first % 16, temp);
      temp := Byte();
      if !IsCont(temp) {
        return EOF;
      }
      ch := Join2(ch, temp);
      if ch < 0x800 {
        return EOF;
      }
      if ch == BOM {
        EightBitFrom(s, 3);
        ch := Getc();
      }
    }

    method Getc4(first: int, ghost s: string) returns (ch: int)
      requires Valid() && 0xF0 <= first < 0xF8 && |s| > 0 && first == At(s, 0) && Left() == s[1..]
      modifies this, buffer
      ensures Valid() && FdGetc(s) == Got(ch, Left())
    {
      hide Join2, Flatten;
      SkipFrom(s);
      var temp := Byte();
      if !IsCont(temp) {
        return EOF;
      }
      ch := Join2(first % 8, temp);
      temp := Byte();
      if !IsCont(temp) {
        return EOF;
      }
      ch := Join2(ch, temp);
      temp := Byte();
      if !IsCont(temp) {
        return EOF;
      }
      ch := Join2(ch, temp);
      return if ch < 0x10000 then EOF else ch;
    }
  }

  lemma EightBitFrom(s: string, n: nat)
    requires EightBit(s)
    ensures EightBit(From(s, n))
  {
  }

  /** Reading byte by byte. */
  lemma SkipFrom(s: string)
    ensures forall n: nat :: From(From(s, n), 1) == From(s, n + 1)
    ensures forall n: nat :: From(s, n) == "" ==> At(s, n) == 0
    ensures forall n: nat :: From(s, n) != "" ==> At(From(s, n), 0) == At(s, n)
    ensures From(s, 0) == s
  {
  }

  /** The results of calling `mxml_fd_getc` again and again until the end of the file. */
  function FdChars(s: string): (cs: seq<int>)
    decreases |s|
  {
    if s == "" then []
    else
      match FdGetc(s)
      case Utf16 => []
      case Got(ch, rest) => [ch] + FdChars(rest)
  }

  /** The characters before the first EOF. */
  function BeforeEof(cs: seq<int>): (r: seq<int>) {
    if cs == [] || cs[0] == EOF then [] else [cs[0]] + BeforeEof(cs[1..])
  }

  /** One read gives the same character from a file as from a string, and when it is not EOF it leaves the
      same bytes. */
  lemma {:induction false} SameGetc(s: string)
    requires EightBit(s) && NulFree(s)
    ensures StringGetc(s).Got? && FdGetc(s).Got?
    ensures StringGetc(s).ch == FdGetc(s).ch
    ensures FdGetc(s).ch != EOF ==>
            StringGetc(s).rest == FdGetc(s).rest && EightBit(FdGetc(s).rest) && NulFree(FdGetc(s).rest)
    decreases |s|
  {
    hide Join2;
    if 0xE0 <= At(s, 0) < 0xF0 && IsCont(At(s, 1)) && IsCont(At(s, 2))
        && Join2(Join2(At(s, 0) % 16, At(s, 1)), At(s, 2)) == BOM {
      SameGetc(s[3..]);
    }
  }

  /** Where a read from a string succeeds, one from a file does the same. */
  lemma {:induction false} SameSuccess(s: string)
    requires StringGetc(s).Got? && StringGetc(s).ch != EOF
    ensures FdGetc(s) == StringGetc(s)
    decreases |s|
  {
    hide Join2;
    if 0xE0 <= At(s, 0) < 0xF0 && IsCont(At(s, 1)) && IsCont(At(s, 2))
        && Join2(Join2(At(s, 0) % 16, At(s, 1)), At(s, 2)) == BOM {
      SameSuccess(s[3..]);
    }
  }

  /** Byte order marks are skipped in files too. */
  lemma FileMarksSkipped(n: nat, ch: int, rest: string)
    requires Readable(ch)
    ensures FdGetc(Boms(n) + Encode(ch) + rest) == Got(ch, rest)
  {
    hide StringGetc, FdGetc, Encode;
    MarksSkipped(n, ch, rest);
    SameSuccess(Boms(n) + Encode(ch) + rest);
  }

  /** A failed read from a file also takes the byte that does not continue the sequence, if there is one. */
  lemma FileFailedRead(s: string)
    requires s != "" && FdGetc(s).Got? && FdGetc(s).ch == EOF && !(|s| >= 3 && s[..3] == Encode(BOM))
    requires At(s, 0) < 0xFE
    ensures var b := At(s, 0);
            FdGetc(s).rest ==
            From(s, if Continued(s, Asked(b)) == Asked(b) then 1 + Asked(b) else 2 + Continued(s, Asked(b)))
  {
    var b := At(s, 0);
    if 0xE0 <= b < 0xF0 && IsCont(At(s, 1)) && IsCont(At(s, 2)) && Join2(Join2(b % 16, At(s, 1)), At(s, 2)) == BOM {
      MarkFirst(s);
    }
  }

  /** However `read` splits the bytes `s` into chunks, the file reader gives the same characters as the
      string reader up to the first EOF. */
  lemma {:induction false} ChunkIndependent(s: string)
    requires EightBit(s) && NulFree(s)
    ensures BeforeEof(FdChars(s)) == BeforeEof(Chars(s))
    decreases |s|
  {
    hide StringGetc, FdGetc, EightBit, NulFree;
    SameGetc(s);
    if s != "" && FdGetc(s).ch != EOF {
      ChunkIndependent(FdGetc(s).rest);
    }
  }
}
