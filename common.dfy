/** Shared vocabulary of the attribute tools: bytes, C-string reads and C's whitespace class. */
module Common {

  /** One C `unsigned char`. Attribute values are sequences of these. */
  type byte = x: int | 0 <= x < 256

  datatype Option<+T> = None | Some(value: T)

  datatype Result<+T, +E> = Ok(value: T) | Err(error: E)

  /** Reading a NUL-terminated C string at index `i`: past the last character the
      reader sees the terminating NUL. */
  function At(s: string, i: nat): (c: char)
    ensures i < |s| ==> c == s[i]
    ensures i >= |s| ==> c == '\0'
  {
    if i < |s| then s[i] else '\0'
  }

  /** `isspace` in the C locale: space, tab, newline, vertical tab, form feed, carriage return. */
  predicate IsSpace(c: char)
  {
    c == ' ' || c == '\t' || c == '\n' || c == '\U{0B}' || c == '\U{0C}' || c == '\r'
  }

  /** The byte a text character stands for. A character of the modelled text is one C
      `char`; the reduction modulo 256 only matters for characters above 255, which C
      text cannot hold. */
  function ByteOf(c: char): (b: byte)
    ensures (c as int) < 256 ==> b == c as int
  {
    (c as int) % 256
  }

  /** The text character that stands for a byte. */
  function CharOf(b: byte): (c: char)
    ensures ByteOf(c) == b
  {
    b as char
  }

  /** `strncmp(prefix, s, |prefix|) == 0`. */
  predicate HasPrefix(s: string, prefix: string)
  {
    |prefix| <= |s| && s[..|prefix|] == prefix
  }
}
