/** The growing character buffer of `mxml_add_char` and the string sink of `mxml_string_putc`
    (mxml-file.c). */
module Buffers {
  import opened CStrings
  import opened Utf8

  /** A buffer of `bufsize` bytes, filled up to `bufptr`; there is always room for a terminator. */
  class CharBuffer {
    var data: array<char>
    var len: nat

    ghost predicate Valid()
      reads this
    {
      64 <= data.Length && len < data.Length
    }

    ghost function Contents(): (s: string)
      requires Valid()
      reads this, data
    {
      data[..len]
    }

    constructor ()
      ensures Valid() && fresh(data) && Contents() == ""
    {
      data := new char[64](_ => '\0');
      len := 0;
    }

    /** `bufptr = buffer`. */
    method Clear()
      requires Valid()
      modifies this`len
      ensures Valid() && Contents() == ""
    {
      len := 0;
    }

    /** Stores the first character of a name or value as it is. */
    method Start(ch: int)
      requires Valid()
      modifies this`len, data
      ensures Valid() && Contents() == [(ch % 256) as char]
    {
      data[0] := (ch % 256) as char;
      len := 1;
    }

    /** `mxml_add_char`, when memory does not run out. */
    method Add(ch: int)
      requires Valid()
      modifies this, data
      ensures Valid() && (data == old(data) || fresh(data))
      ensures Contents() == old(Contents()) + Encode(ch)
    {
      if len >= data.Length - 4 {
        Grow();
      }
      assert len + 4 < data.Length;
      if ch < 0x80 {
        Put((ch % 256) as char);
      } else if ch < 0x800 {
        Put2((0xC0 + ch / 64) as char, Cont(ch % 64));
      } else if ch < 0x10000 {
        Put2((0xE0 + ch / 4096) as char, Cont(ch / 64 % 64));
        Put(Cont(ch % 64));
      } else {
        Put2((0xF0 + ch / 262144 % 16) as char, Cont(ch / 4096 % 64));
        Put2(Cont(ch / 64 % 64), Cont(ch % 64));
      }
    }

    method Put2(b: char, c: char)
      requires Valid() && len + 2 < data.Length
      modifies this`len, data
      ensures Valid() && len == old(len) + 2 && Contents() == old(Contents()) + [b, c]
    {
      Put(b);
      Put(c);
    }

    /** `*(*bufptr)++ = b`. */
    method Put(b: char)
      requires Valid() && len + 1 < data.Length
      modifies this`len, data
      ensures Valid() && len == old(len) + 1 && Contents() == old(Contents()) + [b]
    {
      data[len] := b;
      len := len + 1;
    }

    /** The buffer doubles below 1024 bytes and then grows by 1024. */
    method Grow()
      requires Valid()
      modifies this`data
      ensures Valid() && fresh(data) && Contents() == old(Contents())
      ensures data.Length == if old(data.Length) < 1024 then 2 * old(data.Length) else old(data.Length) + 1024
    {
      var bufsize := if data.Length < 1024 then data.Length * 2 else data.Length + 1024;
      var newbuffer := new char[bufsize](_ => '\0');
      forall i | 0 <= i < len { newbuffer[i] := data[i]; }
      data := newbuffer;
    }

    /** The buffer as a C string, after `*bufptr = 0`. */
    method Terminate() returns (s: string)
      requires Valid()
      modifies data
      ensures Valid() && Contents() == old(Contents()) && data[len] == '\0'
      ensures s == Contents()
    {
      data[len] := '\0';
      s := data[..len];
    }
  }

  function Min(a: int, b: int): (r: int)
    ensures r <= a && r <= b && (r == a || r == b)
  {
    if a < b then a else b
  }

  /** The output of `mxmlSaveString`: `pos` is where `pp[0]` points, `end` where `pp[1]` does.  What does
      not fit is counted but not stored. */
  class StringSink {
    const buffer: array<char>
    const end: nat
    var pos: nat
    ghost var text: string
    ghost const beyond: seq<char>

    ghost predicate Valid()
      reads this, buffer
    {
      && end <= buffer.Length && pos == |text| && buffer[end..] == beyond
      && forall i :: 0 <= i < Min(pos, end) ==> buffer[i] == text[i]
    }

    constructor (buffer: array<char>, bufsize: nat)
      requires bufsize <= buffer.Length
      ensures Valid() && this.buffer == buffer && end == bufsize && text == "" && beyond == buffer[bufsize..]
    {
      this.buffer, end := buffer, bufsize;
      pos, text, beyond := 0, "", buffer[bufsize..];
    }

    /** `mxml_string_putc`. */
    method Putc(ch: char)
      requires Valid()
      modifies this, buffer
      ensures Valid() && text == old(text) + [ch]
    {
      if pos < end {
        buffer[pos] := ch;
      }
      pos := pos + 1;
      text := text + [ch];
    }
  }
}
