/**
 * Unpadded base64url: the URL and filename safe alphabet (section 5 of RFC 4648) without
 * padding (section 3.2), where the unused bits of the last character must be zero (section 3.5).
 */
module Base64Url {
  import opened Prelude

  type Sextet = i: int | 0 <= i < 64

  /** Table 2 of RFC 4648. */
  function CharOf(i: Sextet): (c: char) {
    if i < 26 then ('A' as int + i) as char
    else if i < 52 then ('a' as int + i - 26) as char
    else if i < 62 then ('0' as int + i - 52) as char
    else if i == 62 then '-'
    else '_'
  }

  function SextetOf(c: char): (i: Option<Sextet>)
    ensures i.Some? ==> CharOf(i.value) == c && c != '.'
  {
    if 'A' <= c <= 'Z' then Some(c as int - 'A' as int)
    else if 'a' <= c <= 'z' then Some(c as int - 'a' as int + 26)
    else if '0' <= c <= '9' then Some(c as int - '0' as int + 52)
    else if c == '-' then Some(62)
    else if c == '_' then Some(63)
    else None
  }

  /** The alphabet by code point: upper case, lower case, digits, hyphen, underscore. */
  lemma Alphabet(i: Sextet)
    ensures CharOf(i) as int ==
            if i < 26 then 65 + i
            else if i < 52 then 97 + i - 26
            else if i < 62 then 48 + i - 52
            else if i == 62 then 45
            else 95
  {
  }

  lemma SextetOfCharOf(i: Sextet)
    ensures SextetOf(CharOf(i)) == Some(i)
  {
  }

  /** The sextets of a byte sequence, most significant bits first. */
  function Sextets(b: Bytes): (x: seq<Sextet>) {
    if |b| == 0 then []
    else if |b| == 1 then [b[0] / 4, b[0] % 4 * 16]
    else if |b| == 2 then [b[0] / 4, b[0] % 4 * 16 + b[1] / 16, b[1] % 16 * 4]
    else [b[0] / 4, b[0] % 4 * 16 + b[1] / 16, b[1] % 16 * 4 + b[2] / 64, b[2] % 64] + Sextets(b[3..])
  }

  /** The byte made of `hi`'s low bits above `lo`'s high bits. */
  function Merge(hi: int, scale: int, lo: int): int {
    hi * scale + lo
  }

  /** The three bytes made of four sextets. */
  function MergeGroup(x: seq<Sextet>): (b: Bytes)
    requires |x| == 4
  {
    [Merge(x[0], 4, x[1] / 16), Merge(x[1] % 16, 16, x[2] / 4), Merge(x[2] % 4, 64, x[3])]
  }

  function FromSextets(x: seq<Sextet>): (b: Option<Bytes>) {
    if |x| == 0 then Some([])
    else if |x| == 1 then None
    else if |x| == 2 then
      if x[1] % 16 == 0 then Some([Merge(x[0], 4, x[1] / 16)]) else None
    else if |x| == 3 then
      if x[2] % 4 == 0 then Some([Merge(x[0], 4, x[1] / 16), Merge(x[1] % 16, 16, x[2] / 4)]) else None
    else
      match FromSextets(x[4..])
      case None => None
      case Some(rest) =>
        Some(MergeGroup(x[..4]) + rest)
  }

  function Chars(x: seq<Sextet>): (s: string)
    ensures |s| == |x|
    ensures forall k :: 0 <= k < |x| ==> s[k] == CharOf(x[k])
  {
    if x == [] then [] else [CharOf(x[0])] + Chars(x[1..])
  }

  function FromChars(s: string): (x: Option<seq<Sextet>>)
    ensures x.Some? ==> Chars(x.value) == s && '.' !in s
  {
    if s == [] then Some([])
    else
      match (SextetOf(s[0]), FromChars(s[1..]))
      case (Some(i), Some(rest)) => Some([i] + rest)
      case _ => None
  }

  function Encode(b: Bytes): (s: string) {
    Chars(Sextets(b))
  }

  function Decode(s: string): (b: Option<Bytes>) {
    match FromChars(s)
    case None => None
    case Some(x) => FromSextets(x)
  }

  lemma Quotient(hi: int, lo: int, n: int)
    requires 0 <= lo < n && n in {4, 16, 64}
    ensures (hi * n + lo) / n == hi && (hi * n + lo) % n == lo
  {
  }

  /** Cutting three bytes into four sextets and merging them again. */
  lemma MergeCut(b0: int, b1: int, b2: int, x0: int, x1: int, x2: int, x3: int)
    requires 0 <= b0 < 0x100 && 0 <= b1 < 0x100 && 0 <= b2 < 0x100
    requires x0 == b0 / 4 && x1 == b0 % 4 * 16 + b1 / 16 && x2 == b1 % 16 * 4 + b2 / 64 && x3 == b2 % 64
    ensures Merge(x0, 4, x1 / 16) == b0 && Merge(x1 % 16, 16, x2 / 4) == b1 && Merge(x2 % 4, 64, x3) == b2
  {
    Quotient(b0 % 4, b1 / 16, 16);
    Quotient(b1 % 16, b2 / 64, 4);
  }

  /** Merging four sextets into three bytes and cutting them again. */
  lemma CutMerge(x0: int, x1: int, x2: int, x3: int, b0: int, b1: int, b2: int)
    requires 0 <= x0 < 64 && 0 <= x1 < 64 && 0 <= x2 < 64 && 0 <= x3 < 64
    requires b0 == Merge(x0, 4, x1 / 16) && b1 == Merge(x1 % 16, 16, x2 / 4) && b2 == Merge(x2 % 4, 64, x3)
    ensures b0 / 4 == x0 && b0 % 4 * 16 + b1 / 16 == x1 && b1 % 16 * 4 + b2 / 64 == x2 && b2 % 64 == x3
  {
    Quotient(x0, x1 / 16, 4);
    Quotient(x1 % 16, x2 / 4, 16);
    Quotient(x2 % 4, x3, 64);
  }

  /** The two sextets of a last single byte. */
  lemma CutOne(b: Bytes) returns (x: seq<Sextet>)
    requires |b| == 1
    ensures |x| == 2 && Sextets(b) == x && x[1] % 16 == 0 && [Merge(x[0], 4, x[1] / 16)] == b
  {
    x := Sextets(b);
    Quotient(b[0] % 4, 0, 16);
  }

  /** The three sextets of the last two bytes. */
  lemma CutTwo(b: Bytes) returns (x: seq<Sextet>)
    requires |b| == 2
    ensures |x| == 3 && Sextets(b) == x && x[2] % 4 == 0
    ensures [Merge(x[0], 4, x[1] / 16), Merge(x[1] % 16, 16, x[2] / 4)] == b
  {
    x := Sextets(b);
    Quotient(b[0] % 4, b[1] / 16, 16);
    Quotient(b[1] % 16, 0, 4);
  }

  /** The four sextets of the first three bytes. */
  lemma CutGroup(b: Bytes) returns (x: seq<Sextet>)
    requires |b| >= 3
    ensures |x| == 4 && Sextets(b) == x + Sextets(b[3..]) && MergeGroup(x) == b[..3]
  {
    x := Sextets(b)[..4];
    MergeCut(b[0], b[1], b[2], x[0], x[1], x[2], x[3]);
  }

  lemma FromGroup(x: seq<Sextet>, rest: seq<Sextet>)
    requires |x| == 4
    ensures FromSextets(x + rest) ==
            match FromSextets(rest) { case None => None case Some(b) => Some(MergeGroup(x) + b) }
  {
    assert (x + rest)[4..] == rest;
  }

  lemma {:induction false} FromSextetsOfSextets(b: Bytes)
    ensures FromSextets(Sextets(b)) == Some(b)
  {
    if |b| == 0 {
    } else if |b| == 1 {
      var x := CutOne(b);
    } else if |b| == 2 {
      var x := CutTwo(b);
    } else {
      var x := CutGroup(b);
      FromSextetsOfSextets(b[3..]);
      FromGroup(x, Sextets(b[3..]));
      assert b == b[..3] + b[3..];
    }
  }

  lemma MergeOne(x: seq<Sextet>) returns (b: Bytes)
    requires |x| == 2 && FromSextets(x).Some?
    ensures |b| == 1 && FromSextets(x).value == b && b[0] / 4 == x[0] && b[0] % 4 * 16 == x[1]
  {
    b := FromSextets(x).value;
    Quotient(x[0], x[1] / 16, 4);
  }

  lemma MergeTwo(x: seq<Sextet>) returns (b: Bytes)
    requires |x| == 3 && FromSextets(x).Some?
    ensures |b| == 2 && FromSextets(x).value == b
    ensures b[0] / 4 == x[0] && b[0] % 4 * 16 + b[1] / 16 == x[1] && b[1] % 16 * 4 == x[2]
  {
    b := FromSextets(x).value;
    Quotient(x[0], x[1] / 16, 4);
    Quotient(x[1] % 16, x[2] / 4, 16);
  }

  lemma CutOfGroup(x: seq<Sextet>, b: Bytes)
    requires |x| == 4
    ensures Sextets(MergeGroup(x) + b) == x + Sextets(b)
  {
    var g := MergeGroup(x);
    CutMerge(x[0], x[1], x[2], x[3], g[0], g[1], g[2]);
    assert (g + b)[3..] == b;
    assert x == [x[0], x[1], x[2], x[3]];
  }

  lemma {:induction false} SextetsOfFromSextets(x: seq<Sextet>)
    requires FromSextets(x).Some?
    ensures Sextets(FromSextets(x).value) == x
  {
    if |x| == 0 {
    } else if |x| == 2 {
      var b := MergeOne(x);
    } else if |x| == 3 {
      var b := MergeTwo(x);
    } else {
      assert x == x[..4] + x[4..];
      FromGroup(x[..4], x[4..]);
      SextetsOfFromSextets(x[4..]);
      CutOfGroup(x[..4], FromSextets(x[4..]).value);
    }
  }

  lemma {:induction false} FromCharsOfChars(x: seq<Sextet>)
    ensures FromChars(Chars(x)) == Some(x)
  {
    if x == [] {
    } else {
      FromCharsOfChars(x[1..]);
      assert x == [x[0]] + x[1..];
      SextetOfCharOf(x[0]);
      assert Chars(x)[1..] == Chars(x[1..]);
    }
  }

  /** Decoding inverts encoding, whatever the length modulo three; encodings hold no dot. */
  lemma DecodeEncode(b: Bytes)
    ensures Decode(Encode(b)) == Some(b)
    ensures '.' !in Encode(b)
  {
    FromCharsOfChars(Sextets(b));
    FromSextetsOfSextets(b);
  }

  /** Strictness: a string that decodes is the one encoding of its bytes. */
  lemma EncodeDecode(s: string)
    requires Decode(s).Some?
    ensures Encode(Decode(s).value) == s
    ensures '.' !in s
  {
    SextetsOfFromSextets(FromChars(s).value);
  }

  /** The length is ceil(4m/3), and so never one more than a multiple of four. */
  lemma {:induction false} EncodeLength(b: Bytes)
    ensures |Encode(b)| == (4 * |b| + 2) / 3
    ensures |Encode(b)| % 4 != 1
  {
    if |b| < 3 {
    } else {
      EncodeLength(b[3..]);
      assert |Sextets(b)| == 4 + |Sextets(b[3..])|;
    }
  }

  // ---- The same bits ----------------------------------------------------------------------

  /** The number whose base-256 digits after `acc` are `b`. */
  function ByteNumber(acc: nat, b: Bytes): nat
    decreases |b|
  {
    if b == [] then acc else ByteNumber(acc * 256 + b[0], b[1..])
  }

  /** The number whose base-64 digits after `acc` are `x`. */
  function SextetNumber(acc: nat, x: seq<Sextet>): nat
    decreases |x|
  {
    if x == [] then acc else SextetNumber(acc * 64 + x[0], x[1..])
  }

  /** `n` with the zero bits that fill the last character: none, four or two. */
  function Filled(n: nat, length: nat): nat {
    if length % 3 == 0 then n else if length % 3 == 1 then n * 16 else n * 4
  }

  lemma SextetNumberPrefix(acc: nat, x: seq<Sextet>)
    requires |x| >= 2
    ensures SextetNumber(acc, x) == SextetNumber((acc * 64 + x[0]) * 64 + x[1], x[2..])
  {
    assert x[1..][1..] == x[2..];
  }

  lemma ByteNumberPrefix(acc: nat, b: Bytes)
    requires |b| >= 2
    ensures ByteNumber(acc, b) == ByteNumber((acc * 256 + b[0]) * 256 + b[1], b[2..])
  {
    assert b[1..][1..] == b[2..];
  }

  lemma SplitByte(b: Byte, n: int)
    requires n in {4, 16, 64}
    ensures b == b / n * n + b % n
  {
  }

  /** The first three bytes are the first four sextets. */
  lemma GroupBits(acc: nat, b: Bytes) returns (next: nat)
    requires |b| >= 3
    ensures ByteNumber(acc, b) == ByteNumber(next, b[3..])
    ensures SextetNumber(acc, Sextets(b)) == SextetNumber(next, Sextets(b[3..]))
  {
    next := ((acc * 256 + b[0]) * 256 + b[1]) * 256 + b[2];
    var x := Sextets(b);
    SplitByte(b[0], 4);
    SplitByte(b[1], 16);
    SplitByte(b[2], 64);
    ByteNumberPrefix(acc, b);
    assert b[2..][1..] == b[3..];
    SextetNumberPrefix(acc, x);
    SextetNumberPrefix((acc * 64 + x[0]) * 64 + x[1], x[2..]);
    assert x[2..][2..] == x[4..] == Sextets(b[3..]);
  }

  lemma TailBits(acc: nat, b: Bytes)
    requires |b| < 3
    ensures SextetNumber(acc, Sextets(b)) == Filled(ByteNumber(acc, b), |b|)
  {
    var x := Sextets(b);
    if |b| == 1 {
      SplitByte(b[0], 4);
      SextetNumberPrefix(acc, x);
    } else if |b| == 2 {
      SplitByte(b[0], 4);
      SplitByte(b[1], 16);
      SextetNumberPrefix(acc, x);
      ByteNumberPrefix(acc, b);
    }
  }

  /** The sextets are the bits of the bytes in order, filled up with zero bits at the end. */
  lemma {:induction false} SextetBits(acc: nat, b: Bytes)
    ensures SextetNumber(acc, Sextets(b)) == Filled(ByteNumber(acc, b), |b|)
    decreases |b|
  {
    if |b| < 3 {
      TailBits(acc, b);
    } else {
      var next := GroupBits(acc, b);
      SextetBits(next, b[3..]);
    }
  }

  /** The place in the alphabet of the character with code point `c`. */
  function Digit(c: int): nat {
    if 65 <= c <= 90 then c - 65
    else if 97 <= c <= 122 then c - 97 + 26
    else if 48 <= c <= 57 then c - 48 + 52
    else if c == 45 then 62
    else 63
  }

  /** The number whose base-64 digits after `acc` are the characters of `s`. */
  function TextNumber(acc: nat, s: string): nat
    decreases |s|
  {
    if s == "" then acc else TextNumber(acc * 64 + Digit(s[0] as int), s[1..])
  }

  lemma {:induction false} TextOfSextets(acc: nat, x: seq<Sextet>)
    ensures TextNumber(acc, Chars(x)) == SextetNumber(acc, x)
    decreases |x|
  {
    if x == [] {
    } else {
      Alphabet(x[0]);
      assert Chars(x)[1..] == Chars(x[1..]);
      TextOfSextets(acc * 64 + x[0], x[1..]);
    }
  }

  /** The characters carry the bits of the bytes in order, filled up with zero bits at the end. */
  lemma SameBits(acc: nat, b: Bytes)
    ensures TextNumber(acc, Encode(b)) == Filled(ByteNumber(acc, b), |b|)
  {
    SextetBits(acc, b);
    TextOfSextets(acc, Sextets(b));
  }
}
