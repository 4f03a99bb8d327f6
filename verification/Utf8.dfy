/**
 * UTF-8, as `str::as_bytes` and `String::from_utf8` use it.
 * A Dafny `char` is a Unicode scalar value, so a `string` is exactly the content of a Rust `String`.
 */
module Utf8 {
  import opened Prelude

  function EncodeChar(c: char): (b: Bytes)
    ensures 1 <= |b| <= 4
  {
    var v := c as int;
    var hi := v / 0x40;
    if v < 0x80 then [v]
    else if v < 0x800 then [0xC0 + hi, 0x80 + v % 0x40]
    else if v < 0x1_0000 then [0xE0 + hi / 0x40, 0x80 + hi % 0x40, 0x80 + v % 0x40]
    else [0xF0 + hi / 0x40 / 0x40, 0x80 + hi / 0x40 % 0x40, 0x80 + hi % 0x40, 0x80 + v % 0x40]
  }

  function Encode(s: string): (b: Bytes)
    ensures |b| >= |s|
  {
    if s == "" then [] else EncodeChar(s[0]) + Encode(s[1..])
  }

  predicate IsContinuation(b: Byte) {
    0x80 <= b < 0xC0
  }

  /** A character and the number of bytes it occupied. */
  datatype Head = Head(c: char, len: nat)

  /** The scalar value spread over a lead byte's low bits and the continuation bytes after it. */
  function Value2(b0: int, b1: int): int {
    (b0 - 0xC0) * 0x40 + (b1 - 0x80)
  }

  function Value3(b0: int, b1: int, b2: int): int {
    ((b0 - 0xE0) * 0x40 + (b1 - 0x80)) * 0x40 + (b2 - 0x80)
  }

  function Value4(b0: int, b1: int, b2: int, b3: int): int {
    (((b0 - 0xF0) * 0x40 + (b1 - 0x80)) * 0x40 + (b2 - 0x80)) * 0x40 + (b3 - 0x80)
  }

  /** The first well-formed byte sequence of `b` (Table 3-7 of the Unicode Standard). */
  function DecodeHead(b: Bytes): (h: Option<Head>)
    ensures h.Some? ==> 1 <= h.value.len <= |b|
  {
    if |b| >= 1 && b[0] < 0x80 then
      Some(Head(b[0] as char, 1))
    else if |b| >= 2 && 0xC2 <= b[0] < 0xE0 && IsContinuation(b[1]) then
      Some(Head(Value2(b[0], b[1]) as char, 2))
    else if |b| >= 3 && 0xE0 <= b[0] < 0xF0 && IsContinuation(b[1]) && IsContinuation(b[2]) then
      var v := Value3(b[0], b[1], b[2]);
      if 0x800 <= v && !(0xD800 <= v < 0xE000) then Some(Head(v as char, 3)) else None
    else if |b| >= 4 && 0xF0 <= b[0] < 0xF5
            && IsContinuation(b[1]) && IsContinuation(b[2]) && IsContinuation(b[3]) then
      var v := Value4(b[0], b[1], b[2], b[3]);
      if 0x1_0000 <= v < 0x11_0000 then Some(Head(v as char, 4)) else None
    else None
  }

  function Decode(b: Bytes): (s: Option<string>) {
    if b == [] then Some("")
    else
      match DecodeHead(b)
      case None => None
      case Some(h) =>
        match Decode(b[h.len..])
        case None => None
        case Some(rest) => Some([h.c] + rest)
  }

  lemma DecodeHeadOfEncodeChar(c: char, rest: Bytes)
    ensures DecodeHead(EncodeChar(c) + rest) == Some(Head(c, |EncodeChar(c)|))
  {
  }

  predicate Follows(b: int) {
    128 <= b <= 191
  }

  /** The bits of `v` in each length of byte sequence (Table 3-6 of the Unicode Standard). */
  predicate InTwo(v: int, b0: int, b1: int) {
    192 <= b0 <= 223 && Follows(b1) && v == (b0 - 192) * 64 + (b1 - 128)
  }

  predicate InThree(v: int, b0: int, b1: int, b2: int) {
    224 <= b0 <= 239 && Follows(b1) && Follows(b2) && v == (b0 - 224) * 4096 + (b1 - 128) * 64 + (b2 - 128)
  }

  predicate InFour(v: int, b0: int, b1: int, b2: int, b3: int) {
    && 240 <= b0 <= 247 && Follows(b1) && Follows(b2) && Follows(b3)
    && v == (b0 - 240) * 262144 + (b1 - 128) * 4096 + (b2 - 128) * 64 + (b3 - 128)
  }

  lemma EncodedBits(c: char)
    ensures var v, b := c as int, EncodeChar(c);
            if v <= 127 then b == [v]
            else if v <= 2047 then |b| == 2 && InTwo(v, b[0], b[1])
            else if v <= 65535 then |b| == 3 && InThree(v, b[0], b[1], b[2])
            else |b| == 4 && InFour(v, b[0], b[1], b[2], b[3])
  {
    var v := c as int;
    Halves(v);
    Halves(v / 64);
    Halves(v / 64 / 64);
  }

  lemma Halves(v: int)
    requires v >= 0
    ensures v == v / 64 * 64 + v % 64
  {
  }

  lemma DivMod(hi: int, lo: int)
    requires 0 <= lo < 0x40
    ensures (hi * 0x40 + lo) / 0x40 == hi && (hi * 0x40 + lo) % 0x40 == lo
  {
  }

  lemma EncodeTwo(b0: int, b1: int)
    requires 0xC2 <= b0 < 0xE0 && 0x80 <= b1 < 0xC0
    ensures EncodeChar(Value2(b0, b1) as char) == [b0, b1]
  {
    DivMod(b0 - 0xC0, b1 - 0x80);
  }

  lemma EncodeThree(b0: int, b1: int, b2: int)
    requires 0xE0 <= b0 < 0xF0 && 0x80 <= b1 < 0xC0 && 0x80 <= b2 < 0xC0
    requires var v := Value3(b0, b1, b2); 0x800 <= v && !(0xD800 <= v < 0xE000)
    ensures EncodeChar(Value3(b0, b1, b2) as char) == [b0, b1, b2]
  {
    DivMod(b0 - 0xE0, b1 - 0x80);
    DivMod((b0 - 0xE0) * 0x40 + (b1 - 0x80), b2 - 0x80);
  }

  lemma EncodeFour(b0: int, b1: int, b2: int, b3: int)
    requires 0xF0 <= b0 < 0xF5 && 0x80 <= b1 < 0xC0 && 0x80 <= b2 < 0xC0 && 0x80 <= b3 < 0xC0
    requires 0x1_0000 <= Value4(b0, b1, b2, b3) < 0x11_0000
    ensures EncodeChar(Value4(b0, b1, b2, b3) as char) == [b0, b1, b2, b3]
  {
    var mid := (b0 - 0xF0) * 0x40 + (b1 - 0x80);
    DivMod(b0 - 0xF0, b1 - 0x80);
    DivMod(mid, b2 - 0x80);
    DivMod(mid * 0x40 + (b2 - 0x80), b3 - 0x80);
  }

  lemma EncodeCharOfDecodeHead(b: Bytes)
    requires DecodeHead(b).Some?
    ensures EncodeChar(DecodeHead(b).value.c) == b[..DecodeHead(b).value.len]
  {
    var n := DecodeHead(b).value.len;
    if n == 2 {
      EncodeTwo(b[0], b[1]);
    } else if n == 3 {
      EncodeThree(b[0], b[1], b[2]);
    } else if n == 4 {
      EncodeFour(b[0], b[1], b[2], b[3]);
    }
  }

  /** The first character that decoding finds, and the number of its bytes. */
  lemma DecodeFirst(b: Bytes) returns (c: char, n: nat)
    requires b != [] && Decode(b).Some?
    ensures 1 <= n <= |b| && EncodeChar(c) == b[..n]
    ensures Decode(b[n..]).Some? && Decode(b).value == [c] + Decode(b[n..]).value
  {
    EncodeCharOfDecodeHead(b);
    c, n := DecodeHead(b).value.c, DecodeHead(b).value.len;
  }

  /** Every string survives the trip through its bytes. */
  lemma {:induction false} DecodeEncode(s: string)
    ensures Decode(Encode(s)) == Some(s)
  {
    if s == "" {
    } else {
      DecodeEncode(s[1..]);
      assert s == [s[0]] + s[1..];
      DecodeHeadOfEncodeChar(s[0], Encode(s[1..]));
      assert Encode(s)[|EncodeChar(s[0])|..] == Encode(s[1..]);
    }
  }

  /** `from_utf8` accepts a byte sequence only if it is the encoding of what it returns. */
  lemma {:induction false} EncodeDecode(b: Bytes)
    requires Decode(b).Some?
    ensures Encode(Decode(b).value) == b
  {
    if b == [] {
    } else {
      var c, n := DecodeFirst(b);
      EncodeDecode(b[n..]);
      assert Decode(b).value[1..] == Decode(b[n..]).value;
      assert b == b[..n] + b[n..];
    }
  }
}
