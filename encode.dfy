/** getfattr's `encode`: an attribute value becomes quoted text with escapes, `0x` plus
    lowercase hex, or `0s` plus base64 (the alphabet and `=` padding of RFC 4648,
    section 4). The specification functions say what each encoding is; the methods
    write it into a buffer through a moving index, as the C code does. */
module Encode {
  import opened Common

  /** The values of getfattr's `-e` option; no option means Text. */
  datatype Encoding = Text | Hex | Base64

  function OctalDigit(d: int): (c: char)
    requires 0 <= d < 8
    ensures '0' <= c <= '7' && c as int - '0' as int == d
  {
    ('0' as int + d) as char
  }

  /** `"0123456789abcdef"[d]` */
  function HexChar(d: int): (c: char)
    requires 0 <= d < 16
    ensures ('0' <= c <= '9' && c as int - '0' as int == d) || ('a' <= c <= 'f' && c as int - 'a' as int + 10 == d)
  {
    if d < 10 then ('0' as int + d) as char else ('a' as int + d - 10) as char
  }

  /** The base64 alphabet of RFC 4648, section 4: `A-Z`, `a-z`, `0-9`, `+`, `/`. */
  function Base64Char(d: int): (c: char)
    requires 0 <= d < 64
    ensures c != '=' && Printable(c)
  {
    if d < 26 then ('A' as int + d) as char
    else if d < 52 then ('a' as int + d - 26) as char
    else if d < 62 then ('0' as int + d - 52) as char
    else if d == 62 then '+'
    else '/'
  }

  // ---------------------------------------------------------------- text

  /** A byte outside the printable range 32..126 is written as an octal escape. */
  predicate NeedsOctal(x: byte)
  {
    x < 32 || x >= 127
  }

  /** Backslash (92) and double quote (34) are written with a backslash in front. */
  predicate NeedsBackslash(x: byte)
  {
    x == 92 || x == 34
  }

  predicate Printable(c: char)
  {
    32 <= c as int < 127
  }

  /** The three octal digits of a byte: the first is at most 3. */
  lemma OctalSplit(x: byte)
    ensures 0 <= x / 64 <= 3 && 0 <= x / 8 % 8 < 8 && 0 <= x % 8 < 8
    ensures x / 64 * 64 + x / 8 % 8 * 8 + x % 8 == x
  {
    assert x / 8 == x / 64 * 8 + x / 8 % 8;
  }

  /** What one byte becomes in the text encoding. */
  function Escape(x: byte): (r: string)
    ensures NeedsOctal(x) ==>
              && |r| == 4 && r[0] == '\\' && '0' <= r[1] <= '3' && '0' <= r[2] <= '7' && '0' <= r[3] <= '7'
              && (r[1] as int - '0' as int) * 64 + (r[2] as int - '0' as int) * 8 + (r[3] as int - '0' as int) == x
    ensures !NeedsOctal(x) && NeedsBackslash(x) ==> |r| == 2 && r[0] == '\\' && ByteOf(r[1]) == x
    ensures !NeedsOctal(x) && !NeedsBackslash(x) ==> |r| == 1 && ByteOf(r[0]) == x
    ensures forall i | 0 <= i < |r| :: Printable(r[i])
  {
    if NeedsOctal(x) then OctalSplit(x); ['\\', OctalDigit(x / 64), OctalDigit(x / 8 % 8), OctalDigit(x % 8)]
    else if NeedsBackslash(x) then ['\\', x as char]
    else [x as char]
  }

  function TextBody(b: seq<byte>): string
  {
    if b == [] then [] else Escape(b[0]) + TextBody(b[1..])
  }

  function TextEncoding(b: seq<byte>): string
  {
    "\"" + TextBody(b) + "\""
  }

  /** Width of a byte in the text encoding: 4, 2 or 1. */
  function Width(x: byte): nat
  {
    if NeedsOctal(x) then 4 else if NeedsBackslash(x) then 2 else 1
  }

  function SumWidths(b: seq<byte>): nat
  {
    if b == [] then 0 else Width(b[0]) + SumWidths(b[1..])
  }

  /** The `extra` count of the sizing loop: 4 per octal escape, 1 per backslash escape. */
  function AllocExtra(b: seq<byte>): nat
  {
    if b == [] then 0 else (if NeedsOctal(b[0]) then 4 else if NeedsBackslash(b[0]) then 1 else 0) + AllocExtra(b[1..])
  }

  lemma {:induction false} TextBodyAppend(a: seq<byte>, b: seq<byte>)
    ensures TextBody(a + b) == TextBody(a) + TextBody(b)
  {
    if a != [] {
      assert (a + b)[1..] == a[1..] + b;
      TextBodyAppend(a[1..], b);
    } else {
      assert a + b == b;
    }
  }

  lemma {:induction false} AllocExtraAppend(a: seq<byte>, b: seq<byte>)
    ensures AllocExtra(a + b) == AllocExtra(a) + AllocExtra(b)
  {
    if a != [] {
      assert (a + b)[1..] == a[1..] + b;
      AllocExtraAppend(a[1..], b);
    } else {
      assert a + b == b;
    }
  }

  /** The text encoding is 2 characters of quotes plus 4, 2 or 1 per byte. */
  lemma {:induction false} TextEncodingLength(b: seq<byte>)
    ensures |TextEncoding(b)| == 2 + SumWidths(b)
    ensures |TextBody(b)| == SumWidths(b)
  {
    if b != [] {
      TextEncodingLength(b[1..]);
    }
  }

  /** The buffer of getfattr.c:355 (`size + extra + 3`) holds the encoding and its NUL. */
  lemma {:induction false} TextBodyWithinAlloc(b: seq<byte>)
    ensures |TextBody(b)| <= |b| + AllocExtra(b)
  {
    if b != [] {
      TextBodyWithinAlloc(b[1..]);
    }
  }

  /** Every character of a text encoding is printable: no NUL, newline or carriage return. */
  lemma {:induction false} TextEncodingPrintable(b: seq<byte>)
    ensures TextEncoding(b)[0] == '"' && TextEncoding(b)[|TextEncoding(b)| - 1] == '"'
    ensures forall i | 0 <= i < |TextBody(b)| :: Printable(TextBody(b)[i])
    ensures forall i | 0 <= i < |TextEncoding(b)| :: Printable(TextEncoding(b)[i])
  {
    if b != [] {
      TextEncodingPrintable(b[1..]);
      var e, t := Escape(b[0]), TextBody(b[1..]);
      assert TextBody(b) == e + t;
      forall i | 0 <= i < |TextBody(b)| ensures Printable(TextBody(b)[i]) {
        if i >= |e| { assert TextBody(b)[i] == t[i - |e|]; }
      }
    }
    var body := TextBody(b);
    forall i | 0 <= i < |TextEncoding(b)| ensures Printable(TextEncoding(b)[i]) {
      if 0 < i < |TextEncoding(b)| - 1 { assert TextEncoding(b)[i] == body[i - 1]; }
    }
  }

  // ---------------------------------------------------------------- hex

  function HexPair(x: byte): string
  {
    [HexChar(x / 16), HexChar(x % 16)]
  }

  function HexBody(b: seq<byte>): string
  {
    if b == [] then [] else HexPair(b[0]) + HexBody(b[1..])
  }

  function HexEncoding(b: seq<byte>): string
  {
    "0x" + HexBody(b)
  }

  lemma {:induction false} HexBodyAppend(a: seq<byte>, b: seq<byte>)
    ensures HexBody(a + b) == HexBody(a) + HexBody(b)
  {
    if a != [] {
      assert (a + b)[1..] == a[1..] + b;
      HexBodyAppend(a[1..], b);
    } else {
      assert a + b == b;
    }
  }

  /** `0x` and then, for byte i, the high nibble at 2i and the low nibble at 2i+1,
      in lowercase hex; the length is 2 + 2n. */
  lemma {:induction false} HexEncodingAt(b: seq<byte>)
    ensures |HexEncoding(b)| == 2 + 2 * |b|
    ensures HexEncoding(b)[..2] == "0x"
    ensures forall i | 0 <= i < |b| :: HexEncoding(b)[2 + 2 * i] == HexChar(b[i] / 16) && HexEncoding(b)[3 + 2 * i] == HexChar(b[i] % 16)
  {
    if b != [] {
      HexEncodingAt(b[1..]);
      forall i | 0 <= i < |b| ensures HexBody(b)[2 * i] == HexChar(b[i] / 16) && HexBody(b)[2 * i + 1] == HexChar(b[i] % 16) {
        if i > 0 {
          assert HexBody(b)[2 * i] == HexBody(b[1..])[2 * (i - 1)];
          assert HexBody(b)[2 * i + 1] == HexBody(b[1..])[2 * (i - 1) + 1];
          assert HexEncoding(b[1..])[2 + 2 * (i - 1)] == HexBody(b[1..])[2 * (i - 1)];
          assert HexEncoding(b[1..])[3 + 2 * (i - 1)] == HexBody(b[1..])[2 * (i - 1) + 1];
        }
      }
    }
  }

  // ---------------------------------------------------------------- base64

  function Group3(x0: byte, x1: byte, x2: byte): (r: string)
    ensures |r| == 4
  {
    [Base64Char(x0 / 4), Base64Char(x0 % 4 * 16 + x1 / 16), Base64Char(x1 % 16 * 4 + x2 / 64), Base64Char(x2 % 64)]
  }

  function Group2(x0: byte, x1: byte): (r: string)
    ensures |r| == 4
  {
    [Base64Char(x0 / 4), Base64Char(x0 % 4 * 16 + x1 / 16), Base64Char(x1 % 16 * 4), '=']
  }

  function Group1(x0: byte): (r: string)
    ensures |r| == 4
  {
    [Base64Char(x0 / 4), Base64Char(x0 % 4 * 16), '=', '=']
  }

  function Base64Body(b: seq<byte>): string
    decreases |b|
  {
    if |b| >= 3 then Group3(b[0], b[1], b[2]) + Base64Body(b[3..])
    else if |b| == 2 then Group2(b[0], b[1])
    else if |b| == 1 then Group1(b[0])
    else []
  }

  function Base64Encoding(b: seq<byte>): string
  {
    "0s" + Base64Body(b)
  }

  /** Whole groups of three encode independently of what follows them. */
  lemma {:induction false} Base64BodyAppend(a: seq<byte>, b: seq<byte>, groups: nat)
    requires |a| == 3 * groups
    ensures Base64Body(a + b) == Base64Body(a) + Base64Body(b)
    decreases groups
  {
    if a != [] {
      assert (a + b)[3..] == a[3..] + b;
      Base64BodyAppend(a[3..], b, groups - 1);
    } else {
      assert a + b == b;
    }
  }

  /** The `=` characters a final group of `n % 3` bytes ends in. */
  function Padding(n: nat): nat
  {
    if n % 3 == 0 then 0 else 3 - n % 3
  }

  /** Taking a group of three off a length. */
  lemma Div3Step(n: nat)
    requires n >= 3
    ensures (n + 2) / 3 == (n - 3 + 2) / 3 + 1 && n % 3 == (n - 3) % 3
  {
  }

  /** Four characters per started group of three bytes. */
  lemma {:induction false} Base64BodyLength(b: seq<byte>)
    ensures |Base64Body(b)| == 4 * ((|b| + 2) / 3)
    decreases |b|
  {
    if |b| >= 3 {
      Base64BodyLength(b[3..]);
      Div3Step(|b|);
      assert Base64Body(b) == Group3(b[0], b[1], b[2]) + Base64Body(b[3..]);
    }
  }

  /** No character before the final padding is `=`. */
  lemma {:induction false} Base64BodyPadFree(b: seq<byte>)
    ensures Padding(|b|) <= |Base64Body(b)|
    ensures forall i | 0 <= i < |Base64Body(b)| - Padding(|b|) :: Base64Body(b)[i] != '='
    decreases |b|
  {
    if |b| >= 3 {
      Base64BodyPadFree(b[3..]);
      var body, g, t := Base64Body(b), Group3(b[0], b[1], b[2]), Base64Body(b[3..]);
      assert body == g + t;
      Div3Step(|b|);
      assert Padding(|b[3..]|) == Padding(|b|);
      forall i | 0 <= i < |body| - Padding(|b|) ensures body[i] != '=' {
        if i >= 4 {
          assert body[i] == t[i - 4];
        }
      }
    }
  }

  /** The final padding: `==` after one byte, `=` after two. */
  lemma {:induction false} Base64BodyEnd(b: seq<byte>)
    ensures |b| % 3 == 1 ==> var t := Base64Body(b); |t| >= 2 && t[|t| - 2] == '=' && t[|t| - 1] == '='
    ensures |b| % 3 == 2 ==> var t := Base64Body(b); |t| >= 1 && t[|t| - 1] == '='
    decreases |b|
  {
    if |b| >= 3 {
      Base64BodyEnd(b[3..]);
      Div3Step(|b|);
      assert Base64Body(b) == Group3(b[0], b[1], b[2]) + Base64Body(b[3..]);
    }
  }

  /** Four characters per started group of three bytes: 2 + 4 * ceil(n / 3) in all. A
      final group of two bytes ends in one `=`, a final group of one byte in `==`,
      and no other character is `=`. */
  lemma Base64EncodingShape(b: seq<byte>)
    ensures |Base64Encoding(b)| == 2 + 4 * ((|b| + 2) / 3)
    ensures |b| % 3 == 0 ==> forall i | 0 <= i < |Base64Body(b)| :: Base64Body(b)[i] != '='
    ensures |b| % 3 == 1 ==>
              var e := Base64Encoding(b);
              && e[|e| - 2] == '=' && e[|e| - 1] == '='
              && forall i | 0 <= i < |Base64Body(b)| - 2 :: Base64Body(b)[i] != '='
    ensures |b| % 3 == 2 ==>
              var e := Base64Encoding(b);
              && e[|e| - 1] == '='
              && forall i | 0 <= i < |Base64Body(b)| - 1 :: Base64Body(b)[i] != '='
  {
    Base64BodyLength(b);
    Base64BodyPadFree(b);
    Base64BodyEnd(b);
    var t := Base64Body(b);
    var e := Base64Encoding(b);
    assert e == "0s" + t;
    assert |e| == |t| + 2;
    assert |t| > 0 ==> e[|e| - 1] == t[|t| - 1];
    assert |t| > 1 ==> e[|e| - 2] == t[|t| - 2];
  }

  lemma Base64Examples()
    ensures Base64Encoding([65]) == "0sQQ=="
    ensures Base64Encoding([65, 66]) == "0sQUI="
    ensures Base64Encoding([65, 66, 67]) == "0sQUJD"
  {
  }

  // ---------------------------------------------------------------- dispatch

  function Encoded(b: seq<byte>, encoding: Encoding): string
  {
    match encoding
    case Text => TextEncoding(b)
    case Hex => HexEncoding(b)
    case Base64 => Base64Encoding(b)
  }

  lemma {:induction false} HexBodyPrintable(b: seq<byte>)
    ensures forall i | 0 <= i < |HexBody(b)| :: Printable(HexBody(b)[i])
  {
    if b != [] {
      HexBodyPrintable(b[1..]);
      var p, t := HexPair(b[0]), HexBody(b[1..]);
      assert HexBody(b) == p + t;
      forall i | 0 <= i < |HexBody(b)| ensures Printable(HexBody(b)[i]) {
        if i >= |p| { assert HexBody(b)[i] == t[i - |p|]; }
      }
    }
  }

  lemma {:induction false} Base64BodyPrintable(b: seq<byte>)
    ensures forall i | 0 <= i < |Base64Body(b)| :: Printable(Base64Body(b)[i])
    decreases |b|
  {
    if |b| >= 3 {
      Base64BodyPrintable(b[3..]);
      var g, t := Group3(b[0], b[1], b[2]), Base64Body(b[3..]);
      assert Base64Body(b) == g + t;
      forall i | 0 <= i < |Base64Body(b)| ensures Printable(Base64Body(b)[i]) {
        if i >= |g| { assert Base64Body(b)[i] == t[i - |g|]; }
      }
    }
  }

  /** Every encoding prints only characters from space to `~`: an encoded value
      never holds a newline, a carriage return or a NUL. */
  lemma EncodedPrintable(b: seq<byte>, encoding: Encoding)
    ensures forall i | 0 <= i < |Encoded(b, encoding)| :: Printable(Encoded(b, encoding)[i])
  {
    var e := Encoded(b, encoding);
    match encoding
    case Text =>
      TextEncodingPrintable(b);
    case Hex =>
      HexBodyPrintable(b);
      forall i | 0 <= i < |e| ensures Printable(e[i]) {
        if i >= 2 { assert e[i] == HexBody(b)[i - 2]; }
      }
    case Base64 =>
      Base64BodyPrintable(b);
      forall i | 0 <= i < |e| ensures Printable(e[i]) {
        if i >= 2 { assert e[i] == Base64Body(b)[i - 2]; }
      }
  }

  /** The base64 buffer size as getfattr.c:402 computes it: without room for the `0s`
      prefix. */
  function Base64AllocAsWritten(n: nat): nat
  {
    (n + 2) / 3 * 4 + 1
  }

  /** The buffer the base64 branch needs: prefix, groups and the NUL. */
  function Base64Alloc(n: nat): nat
  {
    (n + 2) / 3 * 4 + 3
  }

  /** getfattr.c:409-431 write the encoding and a NUL: two bytes more than line 402
      allocates, for every value. */
  lemma Base64AllocAsWrittenShort(b: seq<byte>)
    ensures |Base64Encoding(b)| + 1 == Base64AllocAsWritten(|b|) + 2
  {
    Base64EncodingShape(b);
  }

  /** With the corrected size the encoding and its NUL fit exactly. */
  lemma Base64AllocFits(b: seq<byte>)
    ensures |Base64Encoding(b)| + 1 == Base64Alloc(|b|)
  {
    Base64EncodingShape(b);
  }

  // ---------------------------------------------------------------- the C routine

  /** `*e++ = c` for each character of `g`, starting at index `e` of the buffer. */
  method Put(buf: array<char>, e: nat, g: string)
    requires e + |g| <= buf.Length
    modifies buf
    ensures buf[..e + |g|] == old(buf[..e]) + g
  {
    var k := 0;
    while k < |g|
      invariant 0 <= k <= |g|
      invariant buf[..e + k] == old(buf[..e]) + g[..k]
    {
      buf[e + k] := g[k];
      assert buf[..e + k + 1] == buf[..e + k] + [g[k]];
      k := k + 1;
    }
  }

  lemma TextBodyStep(value: seq<byte>, n: nat)
    requires n < |value|
    ensures TextBody(value[..n + 1]) == TextBody(value[..n]) + Escape(value[n])
    ensures TextBody(value[n..]) == Escape(value[n]) + TextBody(value[n + 1..])
  {
    assert value[..n + 1] == value[..n] + [value[n]];
    TextBodyAppend(value[..n], [value[n]]);
    assert value[n..] == [value[n]] + value[n + 1..];
  }

  lemma Base64BodyStep(value: seq<byte>, n: nat, groups: nat)
    requires n == 3 * groups && n + 3 <= |value|
    ensures Base64Body(value[..n + 3]) == Base64Body(value[..n]) + Group3(value[n], value[n + 1], value[n + 2])
  {
    assert value[..n + 3] == value[..n] + [value[n], value[n + 1], value[n + 2]];
    Base64BodyAppend(value[..n], [value[n], value[n + 1], value[n + 2]], groups);
  }

  lemma Base64Last(value: seq<byte>, n: nat, groups: nat)
    requires n == 3 * groups && n <= |value| < n + 3
    ensures |value| - n == 2 ==> Base64Body(value) == Base64Body(value[..n]) + Group2(value[n], value[n + 1])
    ensures |value| - n == 1 ==> Base64Body(value) == Base64Body(value[..n]) + Group1(value[n])
    ensures |value| == n ==> Base64Body(value) == Base64Body(value[..n])
  {
    assert value == value[..n] + value[n..];
    Base64BodyAppend(value[..n], value[n..], groups);
  }

  /** The sizing loop of the text branch (getfattr.c:349-354). */
  method CountExtra(value: seq<byte>) returns (extra: nat)
    ensures extra == AllocExtra(value)
  {
    extra := 0;
    var i := 0;
    while i < |value|
      invariant 0 <= i <= |value|
      invariant extra == AllocExtra(value[..i])
    {
      AllocExtraAppend(value[..i], [value[i]]);
      assert value[..i + 1] == value[..i] + [value[i]];
      if NeedsOctal(value[i]) {
        extra := extra + 4;
      } else if NeedsBackslash(value[i]) {
        extra := extra + 1;
      }
      i := i + 1;
    }
    assert value[..|value|] == value;
  }

  /** The writes for one byte of the text branch (getfattr.c:364-374). */
  method PutEscape(buf: array<char>, e: nat, x: byte) returns (e': nat)
    requires e + |Escape(x)| <= buf.Length
    modifies buf
    ensures e' == e + |Escape(x)|
    ensures buf[..e'] == old(buf[..e]) + Escape(x)
  {
    if NeedsOctal(x) {
      Put(buf, e, ['\\', OctalDigit(x / 64), OctalDigit(x / 8 % 8), OctalDigit(x % 8)]);
      e' := e + 4;
    } else if NeedsBackslash(x) {
      Put(buf, e, ['\\', x as char]);
      e' := e + 2;
    } else {
      Put(buf, e, [x as char]);
      e' := e + 1;
    }
  }

  /** The write loop of the text branch, after the opening quote (getfattr.c:363-375). */
  method PutTextBody(buf: array<char>, value: seq<byte>) returns (e: nat)
    requires 1 + |TextBody(value)| < buf.Length
    requires buf[..1] == "\""
    modifies buf
    ensures e == 1 + |TextBody(value)|
    ensures buf[..e] == "\"" + TextBody(value)
  {
    e := 1;
    var n := 0;
    while n < |value|
      invariant 0 <= n <= |value|
      invariant e + |TextBody(value[n..])| == 1 + |TextBody(value)|
      invariant buf[..e] == "\"" + TextBody(value[..n])
    {
      var x := value[n];
      TextBodyStep(value, n);
      ghost var esc, done, rest := Escape(x), TextBody(value[..n]), TextBody(value[n + 1..]);
      assert e + |esc| + |rest| == 1 + |TextBody(value)|;
      assert buf[..e] == "\"" + done;
      e := PutEscape(buf, e, x);
      assert buf[..e] == "\"" + done + esc;
      assert "\"" + done + esc == "\"" + TextBody(value[..n + 1]);
      n := n + 1;
    }
    assert value[..n] == value;
  }

  /** The text branch of `encode`: size the buffer, then write through `e`. */
  method EncodeText(value: seq<byte>) returns (encoded: string)
    ensures encoded == TextEncoding(value)
  {
    var extra := CountExtra(value);
    TextBodyWithinAlloc(value);
    var buf := new char[|value| + extra + 3];
    buf[0] := '"';
    var e := PutTextBody(buf, value);
    buf[e] := '"';
    assert buf[..e + 1] == buf[..e] + ['"'];
    e := e + 1;
    ghost var written := buf[..e];
    buf[e] := '\0';
    assert buf[..e] == written;
    encoded := buf[..e];
  }

  /** The hex branch of `encode`. */
  lemma HexBodySnoc(value: seq<byte>, n: nat)
    requires n < |value|
    ensures HexBody(value[..n + 1]) == HexBody(value[..n]) + HexPair(value[n])
  {
    assert value[..n + 1] == value[..n] + [value[n]];
    HexBodyAppend(value[..n], [value[n]]);
  }

  /** Writes the two hex digits of a byte at `e`, high nibble first. */
  method PutHexPair(buf: array<char>, e: nat, x: byte)
    requires e + 2 <= buf.Length
    modifies buf
    ensures buf[..e + 2] == old(buf[..e]) + HexPair(x)
  {
    buf[e] := HexChar(x / 16);
    buf[e + 1] := HexChar(x % 16);
  }

  /** The write loop of the hex branch, after the `0x` prefix. */
  method PutHexBody(buf: array<char>, value: seq<byte>) returns (e: nat)
    requires 2 * |value| + 2 < buf.Length
    requires buf[..2] == "0x"
    modifies buf
    ensures e == 2 + 2 * |value|
    ensures buf[..e] == "0x" + HexBody(value)
  {
    e := 2;
    var n := 0;
    assert value[..0] == [] && HexBody([]) == [];
    while n < |value|
      invariant 0 <= n <= |value|
      invariant e == 2 + 2 * n
      invariant buf[..e] == "0x" + HexBody(value[..n])
    {
      var x := value[n];
      HexBodySnoc(value, n);
      ghost var done := HexBody(value[..n]);
      PutHexPair(buf, e, x);
      assert buf[..e + 2] == "0x" + done + HexPair(x);
      e := e + 2;
      n := n + 1;
    }
    assert value[..n] == value;
  }

  method EncodeHex(value: seq<byte>) returns (encoded: string)
    ensures encoded == HexEncoding(value)
  {
    var buf := new char[|value| * 2 + 4];
    buf[0], buf[1] := '0', 'x';
    var e := PutHexBody(buf, value);
    ghost var written := buf[..e];
    buf[e] := '\0';
    assert buf[..e] == written;
    encoded := buf[..e];
  }

  lemma GroupsFit(groups: nat, size: nat)
    requires 3 * groups < size
    ensures groups + 1 <= (size + 2) / 3
    ensures 2 + 4 * (groups + 1) < Base64Alloc(size)
  {
  }

  /** The buffer for `size` bytes, `groups` whole groups and at most two bytes more. */
  lemma AllocOfGroups(groups: nat, size: nat)
    requires 3 * groups <= size < 3 * groups + 3
    ensures Base64Alloc(size) == 4 * groups + 3 + (if size == 3 * groups then 0 else 4)
  {
    if size == 3 * groups {
      assert (size + 2) / 3 == groups;
    } else {
      assert (size + 2) / 3 == groups + 1;
    }
  }

  /** The partial final group of the base64 branch (getfattr.c:419-430). */
  method PutLastGroup(buf: array<char>, e: nat, value: seq<byte>, n: nat, ghost groups: nat) returns (e': nat)
    requires n == 3 * groups && n <= |value| < n + 3 && e == 2 + 4 * groups
    requires buf.Length == Base64Alloc(|value|)
    requires buf[..e] == "0s" + Base64Body(value[..n])
    modifies buf
    ensures e' < buf.Length
    ensures buf[..e'] == Base64Encoding(value)
  {
    Base64Last(value, n, groups);
    AllocOfGroups(groups, |value|);
    ghost var before := buf[..e];
    e' := e;
    if |value| - n == 2 {
      var g := Group2(value[n], value[n + 1]);
      Put(buf, e, g);
      assert buf[..e + 4] == before + g == "0s" + Base64Body(value);
      e' := e + 4;
    } else if |value| - n == 1 {
      var g := Group1(value[n]);
      Put(buf, e, g);
      assert buf[..e + 4] == before + g == "0s" + Base64Body(value);
      e' := e + 4;
    } else {
      assert value[..n] == value;
    }
  }

  /** Writes the four digits of the whole group of three bytes at `n`, after the
      groups already written. */
  method PutWholeGroup(buf: array<char>, e: nat, value: seq<byte>, n: nat, ghost groups: nat)
    requires n == 3 * groups && n + 3 <= |value| && e == 2 + 4 * groups
    requires buf.Length == Base64Alloc(|value|)
    requires buf[..e] == "0s" + Base64Body(value[..n])
    modifies buf
    ensures e + 4 < buf.Length
    ensures buf[..e + 4] == "0s" + Base64Body(value[..n + 3])
  {
    GroupsFit(groups, |value|);
    var g := Group3(value[n], value[n + 1], value[n + 2]);
    Base64BodyStep(value, n, groups);
    ghost var before := buf[..e];
    Put(buf, e, g);
    assert buf[..e + 4] == before + g;
  }

  /** The `for` loop of getfattr.c:410-418: every whole group of three bytes. */
  method PutWholeGroups(buf: array<char>, value: seq<byte>) returns (e: nat, n: nat, ghost groups: nat)
    requires buf.Length == Base64Alloc(|value|) && buf.Length >= 2 && buf[..2] == "0s"
    modifies buf
    ensures n == 3 * groups && n <= |value| < n + 3 && e == 2 + 4 * groups
    ensures buf[..e] == "0s" + Base64Body(value[..n])
  {
    e, n, groups := 2, 0, 0;
    assert value[..0] == [] && Base64Body([]) == [];
    while n + 2 < |value|
      invariant 0 <= n <= |value| && n == 3 * groups
      invariant e == 2 + 4 * groups
      invariant buf[..e] == "0s" + Base64Body(value[..n])
    {
      PutWholeGroup(buf, e, value, n, groups);
      e := e + 4;
      n := n + 3;
      groups := groups + 1;
    }
  }

  /** The base64 branch of `encode`, with the buffer sized as the writes need. */
  method EncodeBase64(value: seq<byte>) returns (encoded: string)
    ensures encoded == Base64Encoding(value)
  {
    var buf := new char[Base64Alloc(|value|)];
    buf[0], buf[1] := '0', 's';
    var e, n, groups := PutWholeGroups(buf, value);
    e := PutLastGroup(buf, e, value, n, groups);
    ghost var written := buf[..e];
    buf[e] := '\0';
    assert buf[..e] == written;
    encoded := buf[..e];
  }

  /** `encode(value, &size)`: the chosen encoding of the value. */
  method Encode(value: seq<byte>, encoding: Encoding) returns (encoded: string)
    ensures encoded == Encoded(value, encoding)
  {
    match encoding
    case Text => encoded := EncodeText(value);
    case Hex => encoded := EncodeHex(value);
    case Base64 => encoded := EncodeBase64(value);
  }
}
