/** UTF-8, as `res.end(content)` puts a string on the wire and as
    `Buffer.byteLength(content, 'utf8')` counts it (the Unicode Standard,
    section 3.9, table 3-6). Strings are sequences of Unicode scalar values. */
module Utf8 {

  import opened Wrappers

  newtype byte = x: int | 0 <= x < 256

  /** The number of bytes UTF-8 uses for one scalar value. */
  function Width(c: char): (n: nat)
    ensures 1 <= n <= 4
    ensures n == 1 <==> c as int < 0x80
  {
    if c as int < 0x80 then 1
    else if c as int < 0x800 then 2
    else if c as int < 0x10000 then 3
    else 4
  }

  /** A byte of the form 10xxxxxx. */
  predicate IsContinuation(b: byte) {
    0x80 <= b < 0xC0
  }

  /** The continuation byte carrying bits `6*k .. 6*k+5` of `v`. */
  function Cont(v: nat, k: nat): (b: byte)
    ensures IsContinuation(b)
  {
    var d := if k == 0 then 1 else if k == 1 then 64 else 4096;
    (0x80 + (v / d) % 64) as byte
  }

  /** The UTF-8 encoding of one scalar value. */
  function EncodeChar(c: char): (bs: seq<byte>)
    ensures |bs| == Width(c)
    ensures forall i :: 1 <= i < |bs| ==> IsContinuation(bs[i])
  {
    var v := c as int;
    if v < 0x80 then [v as byte]
    else if v < 0x800 then [(0xC0 + v / 64) as byte, Cont(v, 0)]
    else if v < 0x10000 then [(0xE0 + v / 4096) as byte, Cont(v, 1), Cont(v, 0)]
    else [(0xF0 + v / 262144) as byte, Cont(v, 2), Cont(v, 1), Cont(v, 0)]
  }

  /** The UTF-8 encoding of a string. */
  function Encode(s: string): (bs: seq<byte>)
  {
    if s == [] then [] else EncodeChar(s[0]) + Encode(s[1..])
  }

  /** A value in the range of Unicode scalar values. */
  predicate IsScalar(v: int) {
    (0 <= v < 0xD800) || (0xE000 <= v < 0x110000)
  }

  /** Decodes the first scalar value of `bs`, rejecting truncated sequences,
      stray continuation bytes, overlong forms, surrogates and values beyond
      U+10FFFF. Returns the value and the number of bytes it took. */
  function DecodeFirst(bs: seq<byte>): (r: Option<(char, nat)>)
    ensures r.Some? ==> 1 <= r.value.1 <= |bs|
  {
    if bs == [] then None
    else
      var b0 := bs[0] as int;
      if b0 < 0x80 then Some((b0 as char, 1))
      else if 0xC0 <= b0 < 0xE0 && |bs| >= 2 && IsContinuation(bs[1]) then
        var v := (b0 - 0xC0) * 64 + (bs[1] as int - 0x80);
        if 0x80 <= v then Some((v as char, 2)) else None
      else if 0xE0 <= b0 < 0xF0 && |bs| >= 3 && IsContinuation(bs[1]) && IsContinuation(bs[2]) then
        var v := (b0 - 0xE0) * 4096 + (bs[1] as int - 0x80) * 64 + (bs[2] as int - 0x80);
        if 0x800 <= v && IsScalar(v) then Some((v as char, 3)) else None
      else if 0xF0 <= b0 < 0xF8 && |bs| >= 4 && IsContinuation(bs[1]) && IsContinuation(bs[2])
              && IsContinuation(bs[3]) then
        var v := (b0 - 0xF0) * 262144 + (bs[1] as int - 0x80) * 4096
                 + (bs[2] as int - 0x80) * 64 + (bs[3] as int - 0x80);
        if 0x10000 <= v < 0x110000 then Some((v as char, 4)) else None
      else None
  }

  /** Decodes a whole byte sequence, or `None` if it is not valid UTF-8. */
  function Decode(bs: seq<byte>): (r: Option<string>)
    decreases |bs|
  {
    if bs == [] then Some([])
    else match DecodeFirst(bs)
      case None => None
      case Some((c, n)) =>
        match Decode(bs[n..])
        case None => None
        case Some(rest) => Some([c] + rest)
  }

  /** `Buffer.byteLength(s, 'utf8')`: counts the bytes of the encoding
      without building it. */
  method ByteLength(s: string) returns (n: nat)
    ensures n == |Encode(s)|
  {
    n := 0;
    var i := 0;
    while i < |s|
      invariant 0 <= i <= |s|
      invariant n + |Encode(s[i..])| == |Encode(s)|
    {
      assert s[i..] == [s[i]] + s[i + 1..];
      n := n + Width(s[i]);
      i := i + 1;
    }
    assert s[i..] == [];
  }

  lemma DecodeTwoBytes(c: char, rest: seq<byte>)
    requires 0x80 <= c as int < 0x800
    ensures DecodeFirst(EncodeChar(c) + rest) == Some((c, 2))
  {
    var v := c as int;
    assert (v / 64) * 64 + v % 64 == v;
  }

  lemma DecodeThreeBytes(c: char, rest: seq<byte>)
    requires 0x800 <= c as int < 0x10000
    ensures DecodeFirst(EncodeChar(c) + rest) == Some((c, 3))
  {
    var v := c as int;
    var hi, mid, lo := v / 4096, (v / 64) % 64, v % 64;
    assert v / 64 == hi * 64 + mid;
    assert v == hi * 4096 + mid * 64 + lo;
    var bs := EncodeChar(c) + rest;
    assert bs[0] as int == 0xE0 + hi && bs[1] as int == 0x80 + mid && bs[2] as int == 0x80 + lo;
  }

  lemma DecodeFourBytes(c: char, rest: seq<byte>)
    requires 0x10000 <= c as int
    ensures DecodeFirst(EncodeChar(c) + rest) == Some((c, 4))
  {
    var v := c as int;
    var top, hi, mid, lo := v / 262144, (v / 4096) % 64, (v / 64) % 64, v % 64;
    assert v / 4096 == top * 64 + hi;
    assert v / 64 == (v / 4096) * 64 + mid;
    assert v == top * 262144 + hi * 4096 + mid * 64 + lo;
    var bs := EncodeChar(c) + rest;
    assert bs[0] as int == 0xF0 + top && bs[1] as int == 0x80 + hi;
    assert bs[2] as int == 0x80 + mid && bs[3] as int == 0x80 + lo;
  }

  /** Decoding the encoding of one character gives it back, whatever follows. */
  lemma DecodeFirstEncodeChar(c: char, rest: seq<byte>)
    ensures DecodeFirst(EncodeChar(c) + rest) == Some((c, Width(c)))
  {
    var v := c as int;
    if v < 0x80 {
    } else if v < 0x800 {
      DecodeTwoBytes(c, rest);
    } else if v < 0x10000 {
      DecodeThreeBytes(c, rest);
    } else {
      DecodeFourBytes(c, rest);
    }
  }

  /** Round trip: decoding an encoded string gives the string back. */
  lemma {:induction false} DecodeEncode(s: string)
    ensures Decode(Encode(s)) == Some(s)
  {
    if s != [] {
      var head := EncodeChar(s[0]);
      var tail := Encode(s[1..]);
      DecodeFirstEncodeChar(s[0], tail);
      assert (head + tail)[|head|..] == tail;
      DecodeEncode(s[1..]);
      assert [s[0]] + s[1..] == s;
    }
  }

  lemma EncodesTwo(c: char, b0: byte, b1: byte)
    requires 0xC0 <= b0 < 0xE0 && IsContinuation(b1)
    requires c as int == (b0 as int - 0xC0) * 64 + (b1 as int - 0x80) && 0x80 <= c as int
    ensures Width(c) == 2 && EncodeChar(c) == [b0, b1]
  {
    var v := c as int;
    assert v / 64 == b0 as int - 0xC0 && v % 64 == b1 as int - 0x80;
  }

  lemma EncodesThree(c: char, b0: byte, b1: byte, b2: byte)
    requires 0xE0 <= b0 < 0xF0 && IsContinuation(b1) && IsContinuation(b2)
    requires c as int == (b0 as int - 0xE0) * 4096 + (b1 as int - 0x80) * 64 + (b2 as int - 0x80)
    requires 0x800 <= c as int
    ensures Width(c) == 3 && EncodeChar(c) == [b0, b1, b2]
  {
    var v := c as int;
    var hi, mid, lo := b0 as int - 0xE0, b1 as int - 0x80, b2 as int - 0x80;
    assert v / 64 == hi * 64 + mid && v % 64 == lo;
    assert v / 4096 == hi && (v / 64) % 64 == mid;
  }

  lemma EncodesFour(c: char, b0: byte, b1: byte, b2: byte, b3: byte)
    requires 0xF0 <= b0 < 0xF8 && IsContinuation(b1) && IsContinuation(b2) && IsContinuation(b3)
    requires c as int == (b0 as int - 0xF0) * 262144 + (b1 as int - 0x80) * 4096
                         + (b2 as int - 0x80) * 64 + (b3 as int - 0x80)
    requires 0x10000 <= c as int
    ensures Width(c) == 4 && EncodeChar(c) == [b0, b1, b2, b3]
  {
    var v := c as int;
    var top, hi, mid, lo := b0 as int - 0xF0, b1 as int - 0x80, b2 as int - 0x80, b3 as int - 0x80;
    assert v / 64 == top * 4096 + hi * 64 + mid && v % 64 == lo;
    assert v / 4096 == top * 64 + hi && (v / 64) % 64 == mid;
    assert (v / 4096) % 64 == hi && v / 262144 == top;
  }

  /** Whatever `DecodeFirst` accepts is exactly the encoding of the character
      it returns: the bytes it consumed are `EncodeChar` of that character. */
  lemma FirstIsEncoding(bs: seq<byte>, c: char, n: nat)
    requires DecodeFirst(bs) == Some((c, n))
    ensures n == Width(c) && bs[..n] == EncodeChar(c)
  {
    if bs[0] < 0x80 {
      assert bs[..1] == [bs[0]];
    } else if n == 2 {
      EncodesTwo(c, bs[0], bs[1]);
      assert bs[..2] == [bs[0], bs[1]];
    } else if n == 3 {
      EncodesThree(c, bs[0], bs[1], bs[2]);
      assert bs[..3] == [bs[0], bs[1], bs[2]];
    } else {
      EncodesFour(c, bs[0], bs[1], bs[2], bs[3]);
      assert bs[..4] == [bs[0], bs[1], bs[2], bs[3]];
    }
  }

  /** A successful decode of a non-empty sequence is its first character
      followed by the decode of the bytes after it. */
  lemma DecodeStep(bs: seq<byte>)
    requires bs != [] && Decode(bs).Some?
    ensures DecodeFirst(bs).Some?
    ensures Decode(bs[DecodeFirst(bs).value.1..]).Some?
    ensures Decode(bs).value == [DecodeFirst(bs).value.0] + Decode(bs[DecodeFirst(bs).value.1..]).value
  {
  }

  lemma EncodeCons(c: char, rest: string)
    ensures Encode([c] + rest) == EncodeChar(c) + Encode(rest)
  {
    assert ([c] + rest)[1..] == rest;
  }

  /** Decoding is injective: bytes that decode to `s` are the encoding of `s`,
      so no other byte sequence stands for the same text. */
  lemma {:induction false} DecodeInjective(bs: seq<byte>, s: string)
    requires Decode(bs) == Some(s)
    ensures bs == Encode(s)
    decreases |bs|
  {
    if bs != [] {
      DecodeStep(bs);
      var c, n := DecodeFirst(bs).value.0, DecodeFirst(bs).value.1;
      var rest := Decode(bs[n..]).value;
      FirstIsEncoding(bs, c, n);
      DecodeInjective(bs[n..], rest);
      ConsEncoding(bs, n, c, rest, s);
    }
  }

  /** Bytes made of the encoding of `c` and then the encoding of `rest` are
      the encoding of `[c] + rest`. */
  lemma ConsEncoding(bs: seq<byte>, n: nat, c: char, rest: string, s: string)
    requires n <= |bs| && bs[..n] == EncodeChar(c) && bs[n..] == Encode(rest)
    requires s == [c] + rest
    ensures bs == Encode(s)
  {
    EncodeCons(c, rest);
    assert bs == bs[..n] + bs[n..];
  }

  /** The encoding takes between one and four bytes per character, and exactly
      one byte per character for ASCII text. */
  lemma {:induction false} EncodeLengthBounds(s: string)
    ensures |s| <= |Encode(s)| <= 4 * |s|
    ensures (forall i :: 0 <= i < |s| ==> s[i] as int < 0x80) ==> |Encode(s)| == |s|
  {
    if s != [] {
      EncodeLengthBounds(s[1..]);
    }
  }
}
