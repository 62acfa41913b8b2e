/** C strings and characters as both libraries use them.

    A C string is a Dafny `string` without its terminating NUL; one element is one byte
    (character codes 0 to 255).  A character read from a document is an `int`: a Unicode
    code point, or EOF. */
module CStrings {

  datatype Option<+T> = None | Some(value: T)

  const EOF: int := -1

  const TAB: int := 9
  const LF: int := 10
  const CR: int := 13
  const SPACE: int := 32

  /** `mxml_isspace`. */
  predicate IsSpace(ch: int) {
    ch == SPACE || ch == TAB || ch == CR || ch == LF
  }

  /** The macro `mxml_bad_char`: control characters, and every negative value. */
  predicate BadChar(ch: int) {
    ch < SPACE && ch != LF && ch != CR && ch != TAB
  }

  /** `isalnum` in the C locale. */
  predicate IsAlnum(ch: int) {
    '0' as int <= ch <= '9' as int || 'A' as int <= ch <= 'Z' as int || 'a' as int <= ch <= 'z' as int
  }

  /** What `strdup` keeps of a buffer: everything before the first NUL. */
  function CStr(buf: string): (s: string)
  {
    if buf == "" || buf[0] == '\0' then "" else [buf[0]] + CStr(buf[1..])
  }

  predicate NulFree(s: string) {
    forall i :: 0 <= i < |s| ==> s[i] != '\0'
  }

  lemma {:induction false} CStrOfNulFree(s: string)
    requires NulFree(s)
    ensures CStr(s) == s
  {
    if s != "" {
      CStrOfNulFree(s[1..]);
    }
  }

  /** Only what stands before the first NUL is kept. */
  lemma {:induction false} CStrStops(a: string, b: string)
    requires NulFree(a)
    ensures CStr(a + ['\0'] + b) == a
    decreases |a|
  {
    if a != "" {
      CStrStops(a[1..], b);
      assert (a + ['\0'] + b)[1..] == a[1..] + ['\0'] + b;
    }
  }

  /** The sign of `strcmp(a, b)`. */
  function StrCmp(a: string, b: string): (r: int)
    decreases |a|
  {
    if a == "" && b == "" then 0
    else if a == "" then -1
    else if b == "" then 1
    else if a[0] < b[0] then -1
    else if a[0] > b[0] then 1
    else StrCmp(a[1..], b[1..])
  }

  lemma {:induction false} StrCmpZero(a: string, b: string)
    ensures StrCmp(a, b) == 0 <==> a == b
    decreases |a|
  {
    if a != "" && b != "" && a[0] == b[0] {
      StrCmpZero(a[1..], b[1..]);
      assert a == [a[0]] + a[1..] && b == [b[0]] + b[1..];
    }
  }

  lemma {:induction false} StrCmpAntisymmetric(a: string, b: string)
    ensures StrCmp(a, b) == -StrCmp(b, a)
    decreases |a|
  {
    if a != "" && b != "" && a[0] == b[0] {
      StrCmpAntisymmetric(a[1..], b[1..]);
    }
  }

  lemma {:induction false} StrCmpTransitive(a: string, b: string, c: string)
    requires StrCmp(a, b) <= 0 && StrCmp(b, c) <= 0
    ensures StrCmp(a, c) <= 0
    ensures StrCmp(a, b) < 0 || StrCmp(b, c) < 0 ==> StrCmp(a, c) < 0
    decreases |a|
  {
    if a != "" && b != "" && c != "" && a[0] == b[0] == c[0] {
      StrCmpTransitive(a[1..], b[1..], c[1..]);
    }
  }
}
