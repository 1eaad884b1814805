/** setfattr's `decode`: the scheme is chosen by the first two characters (`0x`/`0X` hex,
    `0s`/`0S` base64, anything else quoted or bare text) and the value is read back into
    bytes. Hex and base64 fail on malformed input; text decoding never fails. The
    specification functions follow the C code position by position (`v` is the index
    the C pointer `v` has reached); the methods run the C loops over an array sized as
    the C code allocates it. */
module Decode {
  import opened Common

  /** `hex_digit`: the value of a hex digit of either case, -1 for any other character. */
  function HexDigit(c: char): (d: int)
    ensures -1 <= d < 16
    ensures d >= 0 <==> '0' <= c <= '9' || 'A' <= c <= 'F' || 'a' <= c <= 'f'
  {
    if '0' <= c <= '9' then c as int - '0' as int
    else if 'A' <= c <= 'F' then c as int - 'A' as int + 10
    else if 'a' <= c <= 'f' then c as int - 'a' as int + 10
    else -1
  }

  /** `base64_digit`: 0..63 for the alphabet of RFC 4648, section 4, -2 for the padding
      character `=`, -1 for anything else. */
  function Base64Digit(c: char): (d: int)
    ensures -2 <= d < 64
    ensures d == -2 <==> c == '='
    ensures d >= 0 <==> 'A' <= c <= 'Z' || 'a' <= c <= 'z' || '0' <= c <= '9' || c == '+' || c == '/'
  {
    if 'A' <= c <= 'Z' then c as int - 'A' as int
    else if 'a' <= c <= 'z' then 26 + c as int - 'a' as int
    else if '0' <= c <= '9' then 52 + c as int - '0' as int
    else if c == '+' then 62
    else if c == '/' then 63
    else if c == '=' then -2
    else -1
  }

  /** `while (v < end && isspace(*v)) v++`: the first index at or after `v` that is not
      white space, or `end`. */
  function SkipSpace(s: string, v: nat, end: nat): (w: nat)
    requires v <= end <= |s|
    ensures v <= w <= end
    ensures w < end ==> !IsSpace(s[w])
    decreases end - v
  {
    if v < end && IsSpace(s[v]) then SkipSpace(s, v + 1, end) else v
  }

  /** Bytes already written, in front of what the rest of the input decodes to. */
  function Prepend(p: seq<byte>, rest: Option<seq<byte>>): Option<seq<byte>>
  {
    match rest
    case None => None
    case Some(b) => Some(p + b)
  }

  lemma PrependNil(rest: Option<seq<byte>>)
    ensures Prepend([], rest) == rest
  {
    if rest.Some? {
      assert [] + rest.value == rest.value;
    }
  }

  /** The loop invariant of the decoding loops, carried over one more write. */
  lemma PrependStep(total: Option<seq<byte>>, p: seq<byte>, mid: Option<seq<byte>>, q: seq<byte>, rest: Option<seq<byte>>)
    requires total == Prepend(p, mid) && mid == Prepend(q, rest)
    ensures total == Prepend(p + q, rest)
  {
    if rest.Some? {
      assert p + (q + rest.value) == (p + q) + rest.value;
    }
  }

  // ---------------------------------------------------------------- hex

  /** The hex loop from position `v`: white space may stand before either digit of a
      pair; a pair with a second digit missing or a non-hex digit fails; each pair gives
      `d1 << 4 | d0`. */
  function HexFrom(s: string, v: nat): Option<seq<byte>>
    requires v <= |s|
    decreases |s| - v
  {
    var v1 := SkipSpace(s, v, |s|);
    if v1 == |s| then Some([])
    else
      var d1 := HexDigit(s[v1]);
      var v2 := SkipSpace(s, v1 + 1, |s|);
      if v2 == |s| then None
      else
        var d0 := HexDigit(s[v2]);
        if d1 < 0 || d0 < 0 then None
        else Prepend([d1 * 16 + d0], HexFrom(s, v2 + 1))
  }

  // ---------------------------------------------------------------- base64

  /** `(d0 << 2) | (d1 >> 4)` */
  function Byte0(d0: int, d1: int): byte
    requires 0 <= d0 < 64 && 0 <= d1 < 64
  {
    d0 * 4 + d1 / 16
  }

  /** `(char)((d1 << 4) | (d2 >> 2))`: the cast keeps the low eight bits. */
  function Byte1(d1: int, d2: int): byte
    requires 0 <= d1 < 64 && 0 <= d2 < 64
  {
    (d1 * 16 + d2 / 4) % 256
  }

  /** `(char)((d2 << 6) | d3)` */
  function Byte2(d2: int, d3: int): byte
    requires 0 <= d2 < 64 && 0 <= d3 < 64
  {
    (d2 * 64 + d3) % 256
  }

  predicate IsDigit64(d: int)
  {
    -2 <= d < 64
  }

  /** The base64 loop from position `v`: after white space, the end of the input ends the
      loop with all four digits -2; fewer than four characters left fail; a group of four
      alphabet characters gives three bytes; a group holding any other character ends the
      loop and is handed to the final-group rules. */
  function B64From(s: string, v: nat): Option<seq<byte>>
    requires v <= |s|
    decreases |s| - v
  {
    var w := SkipSpace(s, v, |s|);
    if w == |s| then B64Final(s, w, -2, -2, -2, -2)
    else if w + 4 > |s| then None
    else
      var d0, d1, d2, d3 := Base64Digit(s[w]), Base64Digit(s[w + 1]), Base64Digit(s[w + 2]), Base64Digit(s[w + 3]);
      if d0 < 0 || d1 < 0 || d2 < 0 || d3 < 0 then B64Final(s, w + 4, d0, d1, d2, d3)
      else Prepend([Byte0(d0, d1), Byte1(d1, d2), Byte2(d2, d3)], B64From(s, w + 4))
  }

  /** The final-group rules (setfattr.c:320-338): what the group that ended the loop
      adds, or None when it is malformed. `XY==` gives one byte and needs the low four
      bits of Y clear, `XYZ=` gives two and needs the low two bits of Z clear, a
      character outside the alphabet or a misplaced `=` fails, and the all-padding
      group of the end of input adds nothing. */
  function FinalBytes(d0: int, d1: int, d2: int, d3: int): Option<seq<byte>>
    requires IsDigit64(d0) && IsDigit64(d1) && IsDigit64(d2) && IsDigit64(d3)
  {
    if d0 == -2 then
      (if d1 != -2 || d2 != -2 || d3 != -2 then None else Some([]))
    else if d0 == -1 || d1 < 0 || d2 == -1 || d3 == -1 then None
    else if d2 == -2 then
      (if d1 % 16 != 0 || d3 != -2 then None else Some([Byte0(d0, d1)]))
    else if d3 != -2 then Some([Byte0(d0, d1), Byte1(d1, d2), Byte2(d2, d3)])
    else if d2 % 4 != 0 then None
    else Some([Byte0(d0, d1), Byte1(d1, d2)])
  }

  /** The final group followed by the trailer check. */
  function B64Final(s: string, v: nat, d0: int, d1: int, d2: int, d3: int): Option<seq<byte>>
    requires v <= |s|
    requires IsDigit64(d0) && IsDigit64(d1) && IsDigit64(d2) && IsDigit64(d3)
  {
    var last := FinalBytes(d0, d1, d2, d3);
    if last.Some? && B64Tail(s, v) then last else None
  }

  /** After the last group: white space, at most one further `====`, white space, and
      then the end of the input. */
  predicate B64Tail(s: string, v: nat)
    requires v <= |s|
  {
    var w := SkipSpace(s, v, |s|);
    if w + 4 <= |s| && s[w] == '=' then
      s[w + 1] == '=' && s[w + 2] == '=' && s[w + 3] == '=' && SkipSpace(s, w + 4, |s|) == |s|
    else SkipSpace(s, w, |s|) == |s|
  }

  // ---------------------------------------------------------------- text

  predicate IsOctalDigit(c: char)
  {
    '0' <= c <= '7'
  }

  /** The value of a run of octal digits, most significant first. */
  function OctalValue(digits: string): nat
    requires forall k | 0 <= k < |digits| :: IsOctalDigit(digits[k])
  {
    if digits == [] then 0
    else
      var last := digits[|digits| - 1];
      assert IsOctalDigit(last);
      OctalValue(digits[..|digits| - 1]) * 8 + (last as int - '0' as int)
  }

  /** One more octal digit multiplies the value so far by 8 and adds the digit. */
  lemma OctalValueExtend(s: string, w: nat, n: nat)
    requires w + n < |s| && forall k | w <= k <= w + n :: IsOctalDigit(s[k])
    ensures OctalValue(s[w..w + n + 1]) == OctalValue(s[w..w + n]) * 8 + (s[w + n] as int - '0' as int)
  {
    assert s[w..w + n + 1][..n] == s[w..w + n];
  }

  /** An octal escape whose first digit is at `w`: one to three digits are read; the
      result is their value and the index after them. */
  function OctalRun(s: string, w: nat): (r: (nat, nat))
    requires w < |s| && IsOctalDigit(s[w])
    ensures w + 1 <= r.1 <= w + 3 && r.1 <= |s|
    ensures forall k | w <= k < r.1 :: IsOctalDigit(s[k])
    ensures r.0 == OctalValue(s[w..r.1]) && r.0 < 512
    ensures r.1 < w + 3 ==> !IsOctalDigit(At(s, r.1))
  {
    var c1 := s[w] as int - '0' as int;
    OctalValueExtend(s, w, 0);
    if !IsOctalDigit(At(s, w + 1)) then (c1, w + 1)
    else
      var c2 := c1 * 8 + (s[w + 1] as int - '0' as int);
      OctalValueExtend(s, w, 1);
      if !IsOctalDigit(At(s, w + 2)) then (c2, w + 2)
      else
        var c3 := c2 * 8 + (s[w + 2] as int - '0' as int);
        OctalValueExtend(s, w, 2);
        (c3, w + 3)
  }

  /** One step of the text loop at position `v`: the byte written and the position after
      what was read. `\\` and `\"` give the escaped character, `\` and one to three
      octal digits give their value modulo 256, any other backslash and every other
      character stand for themselves. The character after a backslash is read even
      when it is the stripped closing quote; past the end the reader sees the NUL. */
  function TextStep(s: string, v: nat): (r: (byte, nat))
    requires v < |s|
    ensures v < r.1 <= |s|
  {
    if s[v] == '\\' && (At(s, v + 1) == '\\' || At(s, v + 1) == '"') then (ByteOf(s[v + 1]), v + 2)
    else if s[v] == '\\' && IsOctalDigit(At(s, v + 1)) then
      var o := OctalRun(s, v + 1);
      (o.0 % 256, o.1)
    else (ByteOf(s[v]), v + 1)
  }

  /** The text loop from position `v` up to `end`. */
  function TextFrom(s: string, v: nat, end: nat): seq<byte>
    requires end <= |s| && v <= |s|
    decreases |s| - v
  {
    if v >= end then [] else [TextStep(s, v).0] + TextFrom(s, TextStep(s, v).1, end)
  }

  /** One pair of surrounding double quotes is stripped when the text has at least two
      characters. */
  predicate Quoted(s: string)
  {
    |s| >= 2 && s[0] == '"' && s[|s| - 1] == '"'
  }

  function TextDecoded(s: string): seq<byte>
  {
    if Quoted(s) then TextFrom(s, 1, |s| - 1) else TextFrom(s, 0, |s|)
  }

  predicate HexPrefixed(s: string)
  {
    At(s, 0) == '0' && (At(s, 1) == 'x' || At(s, 1) == 'X')
  }

  predicate Base64Prefixed(s: string)
  {
    At(s, 0) == '0' && (At(s, 1) == 's' || At(s, 1) == 'S')
  }

  /** `decode(value, &size)` with `size == strlen(value)`: None is the NULL return. */
  function Decoded(s: string): (r: Option<seq<byte>>)
    ensures !HexPrefixed(s) && !Base64Prefixed(s) ==> r.Some?
  {
    if HexPrefixed(s) then HexFrom(s, 2)
    else if Base64Prefixed(s) then B64From(s, 2)
    else Some(TextDecoded(s))
  }

  // ---------------------------------------------------------------- lengths

  lemma {:induction false} HexFromLength(s: string, v: nat)
    requires v <= |s|
    ensures HexFrom(s, v).Some? ==> 2 * |HexFrom(s, v).value| <= |s| - v
    decreases |s| - v
  {
    var v1 := SkipSpace(s, v, |s|);
    if v1 < |s| {
      var v2 := SkipSpace(s, v1 + 1, |s|);
      if v2 < |s| {
        HexFromLength(s, v2 + 1);
      }
    }
  }

  lemma {:induction false} B64FromLength(s: string, v: nat)
    requires v <= |s|
    ensures B64From(s, v).Some? ==> |B64From(s, v).value| <= 3 * ((|s| - v) / 4)
    decreases |s| - v
  {
    var w := SkipSpace(s, v, |s|);
    if w < |s| && w + 4 <= |s| {
      B64FromLength(s, w + 4);
      assert (|s| - (w + 4)) / 4 + 1 <= (|s| - v) / 4;
    }
  }

  lemma {:induction false} TextFromLength(s: string, v: nat, end: nat)
    requires end <= |s| && v <= |s|
    ensures v <= end ==> |TextFrom(s, v, end)| <= end - v
    ensures v >= end ==> TextFrom(s, v, end) == []
    decreases |s| - v
  {
    if v < end {
      TextFromLength(s, TextStep(s, v).1, end);
    }
  }

  /** In every scheme the decoded value is no longer than its encoding. */
  lemma DecodedLength(s: string)
    ensures Decoded(s).Some? ==> |Decoded(s).value| <= |s|
    ensures HexPrefixed(s) && Decoded(s).Some? ==> 2 * |Decoded(s).value| <= |s| - 2
    ensures Base64Prefixed(s) && Decoded(s).Some? ==> |Decoded(s).value| <= 3 * ((|s| - 2) / 4)
  {
    if HexPrefixed(s) {
      HexFromLength(s, 2);
    } else if Base64Prefixed(s) {
      B64FromLength(s, 2);
    } else if Quoted(s) {
      TextFromLength(s, 1, |s| - 1);
    } else {
      TextFromLength(s, 0, |s|);
    }
  }

  // ---------------------------------------------------------------- hex, characterised

  /** The characters from `v` on that are not white space. */
  function NonSpace(s: string, v: nat): string
    requires v <= |s|
    decreases |s| - v
  {
    if v == |s| then [] else (if IsSpace(s[v]) then [] else [s[v]]) + NonSpace(s, v + 1)
  }

  lemma {:induction false} NonSpaceSkip(s: string, v: nat)
    requires v <= |s|
    ensures NonSpace(s, v) == NonSpace(s, SkipSpace(s, v, |s|))
    decreases |s| - v
  {
    if v < |s| && IsSpace(s[v]) {
      NonSpaceSkip(s, v + 1);
      assert NonSpace(s, v) == [] + NonSpace(s, v + 1);
    }
  }

  predicate AllHexDigits(t: string)
  {
    forall k | 0 <= k < |t| :: HexDigit(t[k]) >= 0
  }

  lemma AllHexDigitsPair(a: char, b: char, rest: string)
    ensures AllHexDigits([a, b] + rest) <==> HexDigit(a) >= 0 && HexDigit(b) >= 0 && AllHexDigits(rest)
  {
    var t := [a, b] + rest;
    if HexDigit(a) >= 0 && HexDigit(b) >= 0 && AllHexDigits(rest) {
      forall k | 0 <= k < |t| ensures HexDigit(t[k]) >= 0 {
        if k >= 2 { assert t[k] == rest[k - 2]; }
      }
    }
    if AllHexDigits(t) {
      assert t[0] == a && t[1] == b;
      forall k | 0 <= k < |rest| ensures HexDigit(rest[k]) >= 0 {
        assert rest[k] == t[k + 2];
      }
    }
  }

  lemma NonSpaceCons(s: string, v: nat)
    requires v < |s| && !IsSpace(s[v])
    ensures NonSpace(s, v) == [s[v]] + NonSpace(s, v + 1)
  {
  }

  /** The characters a pair of the hex loop reads, `v1` and then `v2`, after the white
      space before each: the first two characters from `v` on that are not white space. */
  lemma NonSpacePair(s: string, v: nat, v1: nat, v2: nat)
    requires v <= v1 < v2 <= |s| && !IsSpace(s[v1]) && (v2 < |s| ==> !IsSpace(s[v2]))
    requires NonSpace(s, v) == NonSpace(s, v1) && NonSpace(s, v1 + 1) == NonSpace(s, v2)
    ensures v2 == |s| ==> NonSpace(s, v) == [s[v1]]
    ensures v2 < |s| ==> NonSpace(s, v) == [s[v1], s[v2]] + NonSpace(s, v2 + 1)
  {
    NonSpaceCons(s, v1);
    if v2 < |s| {
      NonSpaceCons(s, v2);
      var tail := NonSpace(s, v2 + 1);
      assert [s[v1]] + ([s[v2]] + tail) == [s[v1], s[v2]] + tail;
    } else {
      assert NonSpace(s, v2) == [];
    }
  }

  /** What one pass of the hex loop does with the pair at `v1` and `v2`. */
  lemma HexFromPairStep(s: string, v: nat, v1: nat, v2: nat)
    requires v <= |s| && v1 == SkipSpace(s, v, |s|) && v1 < |s| && v2 == SkipSpace(s, v1 + 1, |s|)
    ensures v2 == |s| ==> HexFrom(s, v).None?
    ensures v2 < |s| ==>
      HexFrom(s, v) ==
        (if HexDigit(s[v1]) < 0 || HexDigit(s[v2]) < 0 then None
         else Prepend([HexDigit(s[v1]) * 16 + HexDigit(s[v2])], HexFrom(s, v2 + 1)))
  {
  }

  /** One pair in front of the rest: the pair is accepted when both characters are
      hex digits, and the length of the result grows by one per two characters. */
  lemma HexPairCase(a: char, b: char, rest: string, tail: Option<seq<byte>>, x: byte, r: Option<seq<byte>>)
    requires tail.Some? <==> |rest| % 2 == 0 && AllHexDigits(rest)
    requires tail.Some? ==> 2 * |tail.value| == |rest|
    requires r == (if HexDigit(a) < 0 || HexDigit(b) < 0 then None else Prepend([x], tail))
    ensures r.Some? <==> |[a, b] + rest| % 2 == 0 && AllHexDigits([a, b] + rest)
    ensures r.Some? ==> 2 * |r.value| == |[a, b] + rest|
  {
    AllHexDigitsPair(a, b, rest);
  }

  /** Hex decoding ignores white space and succeeds exactly when what is left is an
      even number of hex digits; it then gives one byte per pair. */
  lemma {:induction false} HexFromDefined(s: string, v: nat)
    requires v <= |s|
    ensures HexFrom(s, v).Some? <==> |NonSpace(s, v)| % 2 == 0 && AllHexDigits(NonSpace(s, v))
    ensures HexFrom(s, v).Some? ==> 2 * |HexFrom(s, v).value| == |NonSpace(s, v)|
    decreases |s| - v
  {
    var v1 := SkipSpace(s, v, |s|);
    if v1 == |s| {
      NonSpaceSkip(s, v);
      assert HexFrom(s, v) == Some([]);
    } else {
      var v2 := SkipSpace(s, v1 + 1, |s|);
      HexFromPairStep(s, v, v1, v2);
      NonSpaceSkip(s, v);
      NonSpaceSkip(s, v1 + 1);
      NonSpacePair(s, v, v1, v2);
      if v2 < |s| {
        HexFromDefined(s, v2 + 1);
        var x: byte := if HexDigit(s[v1]) < 0 || HexDigit(s[v2]) < 0 then 0 else HexDigit(s[v1]) * 16 + HexDigit(s[v2]);
        HexPairCase(s[v1], s[v2], NonSpace(s, v2 + 1), HexFrom(s, v2 + 1), x, HexFrom(s, v));
      }
    }
  }

  /** `0x` input decodes exactly when the rest holds an even number of hex digits of
      either case, white space aside: an odd count or a non-hex digit gives NULL. */
  lemma HexDecodeFails(s: string)
    requires HexPrefixed(s)
    ensures Decoded(s).Some? <==> |NonSpace(s, 2)| % 2 == 0 && AllHexDigits(NonSpace(s, 2))
  {
    HexFromDefined(s, 2);
  }

  // ---------------------------------------------------------------- the C routine

  /** `while (v < end && isspace(*v)) v++` */
  method SkipSpaces(s: string, v: nat, end: nat) returns (w: nat)
    requires v <= end <= |s|
    ensures w == SkipSpace(s, v, end)
  {
    w := v;
    while w < end && IsSpace(s[w])
      invariant v <= w <= end
      invariant SkipSpace(s, w, end) == SkipSpace(s, v, end)
    {
      w := w + 1;
    }
  }

  /** `*d++ = x` */
  method Emit(buf: array<byte>, d: nat, x: byte)
    requires d < buf.Length
    modifies buf
    ensures buf[..d + 1] == old(buf[..d]) + [x]
  {
    buf[d] := x;
    assert buf[..d + 1] == buf[..d] + [buf[d]];
  }

  /** The three writes of a whole group of four digits. */
  method EmitGroup(buf: array<byte>, d: nat, x0: byte, x1: byte, x2: byte)
    requires d + 3 <= buf.Length
    modifies buf
    ensures buf[..d + 3] == old(buf[..d]) + [x0, x1, x2]
  {
    Emit(buf, d, x0);
    Emit(buf, d + 1, x1);
    Emit(buf, d + 2, x2);
  }

  /** A pair of hex digits adds its byte to what is decoded. */
  lemma HexStep(s: string, before: seq<byte>, v: nat, v1: nat, v2: nat, d1: int, d0: int)
    requires v <= |s| && v1 == SkipSpace(s, v, |s|) && v1 < |s|
    requires v2 == SkipSpace(s, v1 + 1, |s|) && v2 < |s|
    requires d1 == HexDigit(s[v1]) && d0 == HexDigit(s[v2]) && d1 >= 0 && d0 >= 0
    requires HexFrom(s, 2) == Prepend(before, HexFrom(s, v))
    ensures HexFrom(s, 2) == Prepend(before + [d1 * 16 + d0], HexFrom(s, v2 + 1))
  {
    PrependStep(HexFrom(s, 2), before, HexFrom(s, v), [d1 * 16 + d0], HexFrom(s, v2 + 1));
  }

  /** The hex branch: `decoded = malloc(*size / 2)`, written through `d`. */
  method DecodeHex(s: string) returns (r: Option<seq<byte>>)
    requires 2 <= |s|
    ensures r == HexFrom(s, 2)
  {
    var decoded := new byte[|s| / 2];
    var v, d := 2, 0;
    PrependNil(HexFrom(s, v));
    while v < |s|
      invariant 2 <= v <= |s| && 2 * d + 2 <= v
      invariant HexFrom(s, 2) == Prepend(decoded[..d], HexFrom(s, v))
      decreases |s| - v
    {
      var more, bad;
      more, bad, v := ReadHexPair(s, decoded, v, d);
      if bad {
        return None;
      }
      if !more {
        assert decoded[..d] + [] == decoded[..d];
        return Some(decoded[..d]);
      }
      d := d + 1;
    }
    assert decoded[..d] + [] == decoded[..d];
    r := Some(decoded[..d]);
  }

  /** One pass of the hex loop from `v0` (setfattr.c:263-283): either a pair of digits
      is written out (`more`), or only white space is left, or the pair is malformed
      (`bad`). */
  method ReadHexPair(s: string, decoded: array<byte>, v0: nat, d: nat) returns (more: bool, bad: bool, v: nat)
    requires v0 <= |s| && 2 * d + 2 <= v0 && decoded.Length == |s| / 2
    requires HexFrom(s, 2) == Prepend(decoded[..d], HexFrom(s, v0))
    modifies decoded
    ensures bad ==> HexFrom(s, v0) == None
    ensures more ==> !bad && v0 + 2 <= v <= |s| && HexFrom(s, 2) == Prepend(decoded[..d + 1], HexFrom(s, v))
    ensures !more && !bad ==> decoded[..d] == old(decoded[..d]) && HexFrom(s, v0) == Some([])
  {
    v := SkipSpaces(s, v0, |s|);
    if v == |s| {
      assert HexFrom(s, v0) == Some([]);
      return false, false, v;
    }
    ghost var v1 := v;
    var d1 := HexDigit(s[v]);
    v := SkipSpaces(s, v + 1, |s|);
    HexFromPairStep(s, v0, v1, v);
    if v == |s| {
      return false, true, v;
    }
    var d0 := HexDigit(s[v]);
    v := v + 1;
    if d1 < 0 || d0 < 0 {
      return false, true, v;
    }
    HexStep(s, decoded[..d], v0, v1, v - 1, d1, d0);
    Emit(decoded, d, d1 * 16 + d0);
    more, bad := true, false;
  }

  /** One full group of the base64 loop, after the white space in front of it. */
  lemma B64FromGroup(s: string, v: nat, w: nat, d0: int, d1: int, d2: int, d3: int)
    requires v <= |s| && w == SkipSpace(s, v, |s|) && w + 4 <= |s|
    requires d0 == Base64Digit(s[w]) && d1 == Base64Digit(s[w + 1]) && d2 == Base64Digit(s[w + 2]) && d3 == Base64Digit(s[w + 3])
    requires d0 >= 0 && d1 >= 0 && d2 >= 0 && d3 >= 0
    ensures B64From(s, v) == Prepend([Byte0(d0, d1), Byte1(d1, d2), Byte2(d2, d3)], B64From(s, w + 4))
  {
    var rest := B64From(s, w + 4);
    assert w != |s| && !(w + 4 > |s|);
    assert !(d0 < 0 || d1 < 0 || d2 < 0 || d3 < 0);
    assert B64From(s, v) == Prepend([Byte0(d0, d1), Byte1(d1, d2), Byte2(d2, d3)], rest);
  }

  /** A group of four characters that holds one outside the alphabet ends the loop
      and is handed to the final-group rules. */
  lemma B64FromStop(s: string, v: nat, w: nat, d0: int, d1: int, d2: int, d3: int)
    requires v <= |s| && w == SkipSpace(s, v, |s|) && w + 4 <= |s|
    requires d0 == Base64Digit(s[w]) && d1 == Base64Digit(s[w + 1]) && d2 == Base64Digit(s[w + 2]) && d3 == Base64Digit(s[w + 3])
    requires d0 < 0 || d1 < 0 || d2 < 0 || d3 < 0
    ensures B64From(s, v) == B64Final(s, w + 4, d0, d1, d2, d3)
  {
    assert w != |s| && !(w + 4 > |s|);
    assert B64From(s, v) == B64Final(s, w + 4, d0, d1, d2, d3);
  }

  /** A whole group of four digits adds its three bytes to what is decoded. */
  lemma GroupStep(s: string, before: seq<byte>, v: nat, w: nat, d0: int, d1: int, d2: int, d3: int)
    requires v <= |s| && w == SkipSpace(s, v, |s|) && w + 4 <= |s|
    requires B64From(s, 2) == Prepend(before, B64From(s, v))
    requires d0 == Base64Digit(s[w]) && d1 == Base64Digit(s[w + 1]) && d2 == Base64Digit(s[w + 2]) && d3 == Base64Digit(s[w + 3])
    requires d0 >= 0 && d1 >= 0 && d2 >= 0 && d3 >= 0
    ensures B64From(s, 2) == Prepend(before + [Byte0(d0, d1), Byte1(d1, d2), Byte2(d2, d3)], B64From(s, w + 4))
  {
    B64FromGroup(s, v, w, d0, d1, d2, d3);
    PrependStep(B64From(s, 2), before, B64From(s, v), [Byte0(d0, d1), Byte1(d1, d2), Byte2(d2, d3)], B64From(s, w + 4));
  }

  /** The final group of `(d0 << 2) | ...` writes: it adds FinalBytes, or fails. */
  method FinalGroup(decoded: array<byte>, d: nat, d0: int, d1: int, d2: int, d3: int) returns (ok: bool, d': nat)
    requires IsDigit64(d0) && IsDigit64(d1) && IsDigit64(d2) && IsDigit64(d3)
    requires d <= decoded.Length && (d0 != -2 ==> d + 3 <= decoded.Length)
    modifies decoded
    ensures ok == FinalBytes(d0, d1, d2, d3).Some?
    ensures ok ==> d' <= decoded.Length && decoded[..d'] == old(decoded[..d]) + FinalBytes(d0, d1, d2, d3).value
  {
    d' := d;
    if d0 == -2 {
      if d1 != -2 || d2 != -2 || d3 != -2 {
        return false, d';
      }
      assert decoded[..d] + [] == decoded[..d];
      return true, d';
    }
    if d0 == -1 || d1 < 0 || d2 == -1 || d3 == -1 {
      return false, d';
    }
    ghost var before := decoded[..d];
    Emit(decoded, d', Byte0(d0, d1));
    d' := d' + 1;
    if d2 != -2 {
      Emit(decoded, d', Byte1(d1, d2));
      d' := d' + 1;
    } else {
      if d1 % 16 != 0 || d3 != -2 {
        return false, d';
      }
      return true, d';
    }
    if d3 != -2 {
      Emit(decoded, d', Byte2(d2, d3));
      d' := d' + 1;
    } else if d2 % 4 != 0 {
      return false, d';
    }
    ok := true;
  }

  /** `base64_end`: the trailer check. */
  method Base64Trailer(s: string, v: nat) returns (ok: bool)
    requires v <= |s|
    ensures ok == B64Tail(s, v)
  {
    var w := SkipSpaces(s, v, |s|);
    if w + 4 <= |s| && s[w] == '=' {
      if s[w + 1] != '=' || s[w + 2] != '=' || s[w + 3] != '=' {
        return false;
      }
      w := w + 4;
    }
    w := SkipSpaces(s, w, |s|);
    ok := w == |s|;
  }

  /** The base64 branch: `decoded = malloc(*size / 4 * 3)`, written through `d`. */
  method DecodeBase64(s: string) returns (r: Option<seq<byte>>)
    requires 2 <= |s|
    ensures r == B64From(s, 2)
  {
    var decoded := new byte[|s| / 4 * 3];
    var v, d := 2, 0;
    ghost var groups := 0;
    var d0, d1, d2, d3 := -2, -2, -2, -2;
    PrependNil(B64From(s, v));
    while true
      invariant 2 <= v <= |s| && d == 3 * groups && 4 * groups + 2 <= v
      invariant B64From(s, 2) == Prepend(decoded[..d], B64From(s, v))
      decreases |s| - v
    {
      if v + 4 <= |s| {
        assert groups + 1 <= |s| / 4;
      }
      var more, bad;
      more, bad, v, d0, d1, d2, d3 := Base64Group(s, decoded, v, d);
      if bad {
        return None;
      }
      if !more {
        break;
      }
      d := d + 3;
      groups := groups + 1;
    }
    var ok, e := FinalGroup(decoded, d, d0, d1, d2, d3);
    if !ok {
      return None;
    }
    ok := Base64Trailer(s, v);
    if !ok {
      return None;
    }
    r := Some(decoded[..e]);
  }

  /** One pass of the group loop from `v0` (setfattr.c:296-319): either a whole group
      of four digits is written out (`more`), or the loop ends at the end of the input
      or at a group holding a non-digit, or a short group makes the input malformed
      (`bad`). */
  method Base64Group(s: string, decoded: array<byte>, v0: nat, d: nat)
    returns (more: bool, bad: bool, v: nat, d0: int, d1: int, d2: int, d3: int)
    requires 2 <= v0 <= |s| && d <= decoded.Length
    requires v0 + 4 <= |s| ==> d + 3 <= decoded.Length
    requires B64From(s, 2) == Prepend(decoded[..d], B64From(s, v0))
    modifies decoded
    ensures v <= |s|
    ensures bad ==> B64From(s, v0) == None
    ensures more ==> !bad && v0 + 4 <= v && B64From(s, 2) == Prepend(decoded[..d + 3], B64From(s, v))
    ensures !more && !bad ==> decoded[..d] == old(decoded[..d])
    ensures !more && !bad ==> IsDigit64(d0) && IsDigit64(d1) && IsDigit64(d2) && IsDigit64(d3)
    ensures !more && !bad ==> (d0 != -2 ==> d + 3 <= decoded.Length) && B64From(s, v0) == B64Final(s, v, d0, d1, d2, d3)
  {
    v := SkipSpaces(s, v0, |s|);
    if v == |s| {
      d0, d1, d2, d3 := -2, -2, -2, -2;
      return false, false, v, d0, d1, d2, d3;
    }
    if v + 4 > |s| {
      return false, true, v, -2, -2, -2, -2;
    }
    more, d0, d1, d2, d3 := Base64Digits(s, decoded, v0, v, d);
    v, bad := v + 4, false;
  }

  /** The four digits of a group at `w`, written out when they are all digits. */
  method Base64Digits(s: string, decoded: array<byte>, v0: nat, w: nat, d: nat)
    returns (more: bool, d0: int, d1: int, d2: int, d3: int)
    requires v0 <= |s| && w == SkipSpace(s, v0, |s|) && w + 4 <= |s| && d + 3 <= decoded.Length
    requires B64From(s, 2) == Prepend(decoded[..d], B64From(s, v0))
    modifies decoded
    ensures more ==> B64From(s, 2) == Prepend(decoded[..d + 3], B64From(s, w + 4))
    ensures !more ==> decoded[..d] == old(decoded[..d])
    ensures !more ==> IsDigit64(d0) && IsDigit64(d1) && IsDigit64(d2) && IsDigit64(d3)
    ensures !more ==> B64From(s, v0) == B64Final(s, w + 4, d0, d1, d2, d3)
  {
    d0, d1, d2, d3 := Base64Digit(s[w]), Base64Digit(s[w + 1]), Base64Digit(s[w + 2]), Base64Digit(s[w + 3]);
    if d0 < 0 || d1 < 0 || d2 < 0 || d3 < 0 {
      return false, d0, d1, d2, d3;
    }
    GroupStep(s, decoded[..d], v0, w, d0, d1, d2, d3);
    EmitGroup(decoded, d, Byte0(d0, d1), Byte1(d1, d2), Byte2(d2, d3));
    more := true;
  }

  /** Reading an octal escape whose first digit is at `w` (setfattr.c:373-380). */
  method ReadOctal(s: string, w: nat) returns (c: nat, next: nat)
    requires w < |s| && IsOctalDigit(s[w])
    ensures (c, next) == OctalRun(s, w)
  {
    next := w;
    c := s[next] as int - '0' as int;
    next := next + 1;
    if IsOctalDigit(At(s, next)) {
      c := c * 8 + (s[next] as int - '0' as int);
      next := next + 1;
      if IsOctalDigit(At(s, next)) {
        c := c * 8 + (s[next] as int - '0' as int);
        next := next + 1;
      }
    }
  }

  /** One step of the text loop (setfattr.c:369-384). */
  method ReadTextByte(s: string, v: nat) returns (x: byte, next: nat)
    requires v < |s|
    ensures (x, next) == TextStep(s, v)
  {
    next := v;
    if s[next] == '\\' {
      if At(s, next + 1) == '\\' || At(s, next + 1) == '"' {
        next := next + 1;
        x := ByteOf(s[next]);
        next := next + 1;
      } else if IsOctalDigit(At(s, next + 1)) {
        next := next + 1;
        var c;
        c, next := ReadOctal(s, next);
        x := c % 256;
      } else {
        x := ByteOf(s[next]);
        next := next + 1;
      }
    } else {
      x := ByteOf(s[next]);
      next := next + 1;
    }
  }

  /** The loop invariant of the text loop, carried over one more write. */
  lemma AppendStep(total: seq<byte>, p: seq<byte>, mid: seq<byte>, q: seq<byte>, rest: seq<byte>)
    requires total == p + mid && mid == q + rest
    ensures total == (p + q) + rest
  {
  }

  /** The write loop of the text branch (setfattr.c:368-385), from `start` up to `end`. */
  method PutText(s: string, start: nat, end: nat, decoded: array<byte>) returns (d: nat)
    requires end + start == |s| && start <= end && decoded.Length == |s|
    modifies decoded
    ensures d <= decoded.Length
    ensures decoded[..d] == TextFrom(s, start, end)
  {
    ghost var total := TextFrom(s, start, end);
    var v := start;
    d := 0;
    while v < end
      invariant start <= v <= |s| && d + start <= v
      invariant total == decoded[..d] + TextFrom(s, v, end)
      decreases |s| - v
    {
      ghost var before := decoded[..d];
      ghost var v0 := v;
      var x;
      x, v := ReadTextByte(s, v);
      AppendStep(total, before, TextFrom(s, v0, end), [x], TextFrom(s, v, end));
      Emit(decoded, d, x);
      d := d + 1;
    }
    assert TextFrom(s, v, end) == [];
    assert decoded[..d] + [] == decoded[..d];
  }

  /** The text branch: `decoded = malloc(*size)`, written through `d`. */
  method DecodeText(s: string) returns (r: seq<byte>)
    ensures r == TextDecoded(s)
  {
    var v, end := 0, |s|;
    if end > v + 1 && s[v] == '"' && s[end - 1] == '"' {
      v := v + 1;
      end := end - 1;
    }
    var decoded := new byte[|s|];
    var d := PutText(s, v, end, decoded);
    r := decoded[..d];
  }

  /** `decode(value, &size)` with `size == strlen(value)`. */
  method Decode(s: string) returns (r: Option<seq<byte>>)
    ensures r == Decoded(s)
  {
    if At(s, 0) == '0' && (At(s, 1) == 'x' || At(s, 1) == 'X') {
      r := DecodeHex(s);
    } else if At(s, 0) == '0' && (At(s, 1) == 's' || At(s, 1) == 'S') {
      r := DecodeBase64(s);
    } else {
      var b := DecodeText(s);
      r := Some(b);
    }
  }
}
