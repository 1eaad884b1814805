/** getfattr's encodings are read back by setfattr: for every value and every scheme,
    decoding the encoding gives the value again. This is what makes a `getfattr --dump`
    usable as input to `setfattr --restore`. */
module RoundTrip {
  import opened Common
  import opened Encode
  import opened Decode

  // ---------------------------------------------------------------- digits

  /** `hex_digit` inverts the lowercase hex alphabet of `encode`. */
  lemma HexDigitOfHexChar(d: int)
    requires 0 <= d < 16
    ensures HexDigit(HexChar(d)) == d
    ensures !IsSpace(HexChar(d))
  {
  }

  /** `base64_digit` inverts the base64 alphabet of `encode`. */
  lemma Base64DigitOfBase64Char(d: int)
    requires 0 <= d < 64
    ensures Base64Digit(Base64Char(d)) == d
    ensures !IsSpace(Base64Char(d))
  {
    if d < 26 {
    } else if d < 52 {
    } else if d < 62 {
    }
  }

  // ---------------------------------------------------------------- text

  /** Three octal digits after a backslash are read as one escape of their value. */
  lemma OctalEscapeStep(s: string, v: nat, x: byte)
    requires NeedsOctal(x) && v + 4 <= |s| && s[v] == '\\'
    requires s[v + 1] == OctalDigit(x / 64) && s[v + 2] == OctalDigit(x / 8 % 8) && s[v + 3] == OctalDigit(x % 8)
    ensures TextStep(s, v) == (x, v + 4)
  {
    OctalSplit(x);
    var d1, d2, d3 := x / 64, x / 8 % 8, x % 8;
    assert s[v + 1] as int - '0' as int == d1 && s[v + 2] as int - '0' as int == d2 && s[v + 3] as int - '0' as int == d3;
    assert At(s, v + 1) == s[v + 1] && At(s, v + 2) == s[v + 2] && At(s, v + 3) == s[v + 3];
    var o := OctalRun(s, v + 1);
    assert o == ((d1 * 8 + d2) * 8 + d3, v + 4);
    assert (d1 * 8 + d2) * 8 + d3 == d1 * 64 + d2 * 8 + d3 == x;
  }

  /** Reading one escape back: the step of the text loop at the start of `Escape(x)`
      yields `x` and moves past the escape, whatever follows it. */
  lemma TextStepOfEscape(s: string, v: nat, x: byte)
    requires v + |Escape(x)| <= |s| && s[v..v + |Escape(x)|] == Escape(x)
    ensures TextStep(s, v) == (x, v + |Escape(x)|)
  {
    var e := Escape(x);
    assert forall k | 0 <= k < |e| :: s[v + k] == e[k] by {
      forall k | 0 <= k < |e| ensures s[v + k] == e[k] {
        assert s[v..v + |e|][k] == s[v + k];
      }
    }
    if NeedsOctal(x) {
      OctalEscapeStep(s, v, x);
    }
  }

  /** The two parts of a slice cut at `m`. */
  lemma SliceCut(s: string, v: nat, m: nat, end: nat)
    requires v <= m <= end <= |s|
    ensures s[v..end][..m - v] == s[v..m] && s[v..end][m - v..] == s[m..end]
  {
  }

  lemma {:induction false} TextFromBody(s: string, v: nat, end: nat, c: seq<byte>)
    requires v <= end <= |s| && s[v..end] == TextBody(c)
    ensures TextFrom(s, v, end) == c
    decreases c
  {
    if c == [] {
      assert v == end;
    } else {
      var e, rest := Escape(c[0]), TextBody(c[1..]);
      assert TextBody(c) == e + rest;
      assert 1 <= |e| && v + |e| <= end;
      SliceCut(s, v, v + |e|, end);
      assert s[v..v + |e|] == e;
      TextStepOfEscape(s, v, c[0]);
      var step := TextStep(s, v);
      assert step == (c[0], v + |e|);
      assert TextFrom(s, v, end) == [step.0] + TextFrom(s, step.1, end);
      assert s[v + |e|..end] == rest;
      TextFromBody(s, v + |e|, end, c[1..]);
      assert [c[0]] + c[1..] == c;
    }
  }

  /** `setfattr` reads the quoted text `getfattr` prints back into the same bytes. */
  lemma TextRoundTrip(b: seq<byte>)
    ensures Decoded(TextEncoding(b)) == Some(b)
  {
    var s := TextEncoding(b);
    TextEncodingLength(b);
    assert s[0] == '"';
    assert Quoted(s);
    assert s[1..|s| - 1] == TextBody(b);
    TextFromBody(s, 1, |s| - 1, b);
  }

  // ---------------------------------------------------------------- hex

  /** One pair of hex digits `encode` writes reads back as its byte. */
  lemma HexPairAt(s: string, v: nat, x: byte)
    requires v + 2 <= |s| && s[v] == HexChar(x / 16) && s[v + 1] == HexChar(x % 16)
    ensures HexFrom(s, v) == Prepend([x], HexFrom(s, v + 2))
  {
    HexDigitOfHexChar(x / 16);
    HexDigitOfHexChar(x % 16);
    assert SkipSpace(s, v, |s|) == v;
    assert SkipSpace(s, v + 1, |s|) == v + 1;
    assert HexDigit(s[v]) * 16 + HexDigit(s[v + 1]) == x;
  }

  lemma {:induction false} HexFromBody(s: string, v: nat, c: seq<byte>)
    requires v <= |s| && s[v..] == HexBody(c)
    ensures HexFrom(s, v) == Some(c)
    decreases c
  {
    if c == [] {
      assert v == |s|;
    } else {
      var x := c[0];
      assert HexBody(c) == HexPair(x) + HexBody(c[1..]);
      assert s[v] == HexChar(x / 16) && s[v + 1] == HexChar(x % 16) by {
        assert s[v..][0] == s[v] && s[v..][1] == s[v + 1];
      }
      HexPairAt(s, v, x);
      assert s[v + 2..] == HexBody(c[1..]) by {
        assert s[v..][2..] == s[v + 2..];
      }
      HexFromBody(s, v + 2, c[1..]);
      assert [c[0]] + c[1..] == c;
    }
  }

  /** `setfattr` reads the `0x` form `getfattr -e hex` prints back into the same bytes. */
  lemma HexRoundTrip(b: seq<byte>)
    ensures Decoded(HexEncoding(b)) == Some(b)
  {
    var s := HexEncoding(b);
    assert s[0] == '0' && s[1] == 'x';
    assert s[2..] == HexBody(b);
    HexFromBody(s, 2, b);
  }

  // ---------------------------------------------------------------- base64

  lemma Byte0Back(x0: byte, x1: byte)
    ensures Byte0(x0 / 4, x0 % 4 * 16 + x1 / 16) == x0
  {
    var q := x1 / 16;
    assert 0 <= q < 16;
    assert (x0 % 4 * 16 + q) / 16 == x0 % 4;
  }

  lemma Byte1Back(x0: byte, x1: byte, x2: byte)
    ensures Byte1(x0 % 4 * 16 + x1 / 16, x1 % 16 * 4 + x2 / 64) == x1
  {
    var q := x2 / 64;
    assert 0 <= q < 4;
    assert (x1 % 16 * 4 + q) / 4 == x1 % 16;
    assert x1 / 16 * 16 + x1 % 16 == x1;
    assert (x0 % 4 * 16 + x1 / 16) * 16 + x1 % 16 == x0 % 4 * 256 + x1;
  }

  lemma Byte2Back(x1: byte, x2: byte)
    ensures Byte2(x1 % 16 * 4 + x2 / 64, x2 % 64) == x2
  {
    assert x2 / 64 * 64 + x2 % 64 == x2;
    assert (x1 % 16 * 4 + x2 / 64) * 64 + x2 % 64 == x1 % 16 * 256 + x2;
  }

  /** The three bytes of a full group come back from its four digits. */
  lemma Group3Bytes(x0: byte, x1: byte, x2: byte)
    ensures Byte0(x0 / 4, x0 % 4 * 16 + x1 / 16) == x0
    ensures Byte1(x0 % 4 * 16 + x1 / 16, x1 % 16 * 4 + x2 / 64) == x1
    ensures Byte2(x1 % 16 * 4 + x2 / 64, x2 % 64) == x2
  {
    Byte0Back(x0, x1);
    Byte1Back(x0, x1, x2);
    Byte2Back(x1, x2);
  }

  /** `c` is the character `encode` writes for the digit `d`, -2 standing for `=`. */
  predicate DigitChar(c: char, d: int)
  {
    (d == -2 && c == '=') || (0 <= d < 64 && c == Base64Char(d))
  }

  lemma DigitOfDigitChar(c: char, d: int)
    requires DigitChar(c, d)
    ensures Base64Digit(c) == d && !IsSpace(c)
  {
    if d != -2 {
      Base64DigitOfBase64Char(d);
    }
  }

  /** The digits of a group of four characters at `w`. */
  lemma GroupDigits(s: string, w: nat, g: string, d0: int, d1: int, d2: int, d3: int)
    requires w + 4 <= |s| && s[w..w + 4] == g && |g| == 4
    requires DigitChar(g[0], d0) && DigitChar(g[1], d1) && DigitChar(g[2], d2) && DigitChar(g[3], d3)
    ensures SkipSpace(s, w, |s|) == w
    ensures Base64Digit(s[w]) == d0 && Base64Digit(s[w + 1]) == d1 && Base64Digit(s[w + 2]) == d2
    ensures Base64Digit(s[w + 3]) == d3
  {
    assert s[w] == g[0] && s[w + 1] == g[1] && s[w + 2] == g[2] && s[w + 3] == g[3] by {
      assert s[w..w + 4][0] == s[w] && s[w..w + 4][1] == s[w + 1];
      assert s[w..w + 4][2] == s[w + 2] && s[w..w + 4][3] == s[w + 3];
    }
    DigitOfDigitChar(g[0], d0);
    DigitOfDigitChar(g[1], d1);
    DigitOfDigitChar(g[2], d2);
    DigitOfDigitChar(g[3], d3);
  }

  /** A full group `encode` writes reads back as its three bytes. */
  lemma Group3At(s: string, v: nat, x0: byte, x1: byte, x2: byte)
    requires v + 4 <= |s| && s[v..v + 4] == Group3(x0, x1, x2)
    ensures B64From(s, v) == Prepend([x0, x1, x2], B64From(s, v + 4))
  {
    GroupDigits(s, v, Group3(x0, x1, x2), x0 / 4, x0 % 4 * 16 + x1 / 16, x1 % 16 * 4 + x2 / 64, x2 % 64);
    Group3Bytes(x0, x1, x2);
    B64FromGroup(s, v, v, x0 / 4, x0 % 4 * 16 + x1 / 16, x1 % 16 * 4 + x2 / 64, x2 % 64);
  }

  /** The digits of a final group of two bytes give those two bytes back. */
  lemma FinalPair(x0: byte, x1: byte)
    ensures FinalBytes(x0 / 4, x0 % 4 * 16 + x1 / 16, x1 % 16 * 4, -2) == Some([x0, x1])
  {
    Byte0Back(x0, x1);
    Byte1Back(x0, x1, 0);
    assert (x1 % 16 * 4) % 4 == 0;
  }

  /** The digits of a final group of one byte give that byte back. */
  lemma FinalSingle(x0: byte)
    ensures FinalBytes(x0 / 4, x0 % 4 * 16, -2, -2) == Some([x0])
  {
    Byte0Back(x0, 0);
    assert (x0 % 4 * 16) % 16 == 0;
  }

  lemma TailAtEnd(s: string)
    ensures B64Tail(s, |s|)
  {
    assert SkipSpace(s, |s|, |s|) == |s|;
  }

  /** A final group of two bytes `encode` writes reads back as those two bytes. */
  lemma Group2At(s: string, v: nat, x0: byte, x1: byte)
    requires v + 4 == |s| && s[v..v + 4] == Group2(x0, x1)
    ensures B64From(s, v) == Some([x0, x1])
  {
    var d0, d1, d2 := x0 / 4, x0 % 4 * 16 + x1 / 16, x1 % 16 * 4;
    GroupDigits(s, v, Group2(x0, x1), d0, d1, d2, -2);
    B64FromStop(s, v, v, d0, d1, d2, -2);
    FinalPair(x0, x1);
    TailAtEnd(s);
  }

  /** A final group of one byte `encode` writes reads back as that byte. */
  lemma Group1At(s: string, v: nat, x0: byte)
    requires v + 4 == |s| && s[v..v + 4] == Group1(x0)
    ensures B64From(s, v) == Some([x0])
  {
    var d0, d1 := x0 / 4, x0 % 4 * 16;
    GroupDigits(s, v, Group1(x0), d0, d1, -2, -2);
    B64FromStop(s, v, v, d0, d1, -2, -2);
    FinalSingle(x0);
    TailAtEnd(s);
  }

  lemma SplitGroup(c: seq<byte>)
    requires |c| >= 3
    ensures c == [c[0], c[1], c[2]] + c[3..]
  {
  }

  lemma {:induction false} B64FromBody(s: string, v: nat, c: seq<byte>)
    requires v <= |s| && s[v..] == Base64Body(c)
    ensures B64From(s, v) == Some(c)
    decreases |c|
  {
    if |c| == 0 {
      assert v == |s|;
    } else if |c| >= 3 {
      var g := Group3(c[0], c[1], c[2]);
      assert Base64Body(c) == g + Base64Body(c[3..]);
      assert s[v..v + 4] == g by {
        assert s[v..][..4] == s[v..v + 4];
      }
      Group3At(s, v, c[0], c[1], c[2]);
      assert s[v + 4..] == Base64Body(c[3..]) by {
        assert s[v..][4..] == s[v + 4..];
      }
      B64FromBody(s, v + 4, c[3..]);
      SplitGroup(c);
    } else {
      B64FromLast(s, v, c);
    }
  }

  /** The final partial group of an encoding reads back as its one or two bytes. */
  lemma B64FromLast(s: string, v: nat, c: seq<byte>)
    requires v <= |s| && s[v..] == Base64Body(c) && 1 <= |c| <= 2
    ensures B64From(s, v) == Some(c)
  {
    if |c| == 2 {
      var g := Group2(c[0], c[1]);
      assert Base64Body(c) == g;
      assert s[v..v + 4] == g;
      Group2At(s, v, c[0], c[1]);
      assert [c[0], c[1]] == c;
    } else {
      var g := Group1(c[0]);
      assert Base64Body(c) == g;
      assert s[v..v + 4] == g;
      Group1At(s, v, c[0]);
      assert [c[0]] == c;
    }
  }

  /** `setfattr` reads the `0s` form `getfattr -e base64` prints back into the same bytes. */
  lemma Base64RoundTrip(b: seq<byte>)
    ensures Decoded(Base64Encoding(b)) == Some(b)
  {
    var s := Base64Encoding(b);
    assert s[0] == '0' && s[1] == 's';
    assert s[2..] == Base64Body(b);
    B64FromBody(s, 2, b);
  }

  /** Every scheme of `encode` is read back by `decode`. */
  lemma RoundTrip(b: seq<byte>, encoding: Encoding)
    ensures Decoded(Encoded(b, encoding)) == Some(b)
  {
    match encoding
    case Text => TextRoundTrip(b);
    case Hex => HexRoundTrip(b);
    case Base64 => Base64RoundTrip(b);
  }
}
