/**
 * Field encryption: the deterministic nonce, the AES-256-GCM-SIV wrapper, and the
 * `v1.<nonce>.<ciphertext>` token that replaces a plaintext in a payload.
 */
module Cipher {
  import opened Prelude
  import Base64Url
  import Utf8

  const KEY_LEN: nat := 32
  const NONCE_LEN: nat := 12
  const MAC_LEN: nat := 32
  const TAG_LEN: nat := 16
  const VERSION_PREFIX: string := "v1"

  /** Longest plaintext AES-GCM-SIV accepts, in bytes (section 6 of RFC 8452). */
  const PLAINTEXT_MAX: nat := 0x10_0000_0000

  datatype CipherError = InvalidKeyLength | AeadFailure | InvalidFormat

  /** HMAC-SHA256 and AES-256-GCM-SIV, as the code sees them: functions of their arguments. */
  datatype Primitives = Primitives(
    mac: (Bytes, Bytes) -> Bytes,                    // key, message
    seal: (Bytes, Bytes, Bytes) -> Option<Bytes>,    // key, nonce, plaintext
    open: (Bytes, Bytes, Bytes) -> Option<Bytes>     // key, nonce, ciphertext and tag
  )

  /**
   * All that is assumed of the two algorithms: output lengths, success within the length
   * limit, and that opening undoes sealing. Nothing is assumed about collisions or forgery.
   */
  ghost predicate Sound(p: Primitives) {
    && (forall k, m {:trigger p.mac(k, m)} :: |p.mac(k, m)| == MAC_LEN)
    && (forall k, n, m {:trigger p.seal(k, n, m)} ::
          |k| == KEY_LEN && |n| == NONCE_LEN && |m| <= PLAINTEXT_MAX ==> p.seal(k, n, m).Some?)
    && (forall k, n, m {:trigger p.seal(k, n, m)} :: p.seal(k, n, m).Some? ==>
          && |p.seal(k, n, m).value| == |m| + TAG_LEN
          && p.open(k, n, p.seal(k, n, m).value) == Some(m))
  }

  type Suite = p: Primitives | Sound(p) ghost witness Toy()

  function Zeros(n: nat): (z: Bytes)
    ensures |z| == n && forall i :: 0 <= i < n ==> z[i] == 0
  {
    seq(n, _ => 0)
  }

  /** A pair of algorithms meeting `Sound`, so the assumptions are not contradictory. */
  function Toy(): (p: Primitives)
    ensures Sound(p)
  {
    Primitives(
      (k, m) => Zeros(MAC_LEN),
      (k, n, m) => if |m| <= PLAINTEXT_MAX then Some(m + Zeros(TAG_LEN)) else None,
      (k, n, c) => if |c| >= TAG_LEN then Some(c[..|c| - TAG_LEN]) else None)
  }

  type Nonce = n: Bytes | |n| == NONCE_LEN witness Zeros(NONCE_LEN)

  datatype EncryptedField = EncryptedField(nonce: Nonce, ciphertext: Bytes)

  // ---- The token text -------------------------------------------------------------------

  function ToStringRepr(f: EncryptedField): (s: string) {
    VERSION_PREFIX + "." + (Base64Url.Encode(f.nonce) + "." + Base64Url.Encode(f.ciphertext))
  }

  /** `s.splitn(3, '.')`: at most three parts, the last of which keeps any further dots. */
  function SplitN3(s: string): (parts: seq<string>)
    ensures 1 <= |parts| <= 3
  {
    var i := FirstDot(s);
    if i == |s| then [s]
    else
      var rest := s[i + 1..];
      var j := FirstDot(rest);
      if j == |rest| then [s[..i], rest] else [s[..i], rest[..j], rest[j + 1..]]
  }

  function FromStr(s: string): (r: Result<EncryptedField, CipherError>)
    ensures r.Err? ==> r.error == InvalidFormat
  {
    var parts := SplitN3(s);
    if |parts| != 3 || parts[0] != VERSION_PREFIX then Err(InvalidFormat)
    else
      match Base64Url.Decode(parts[1])
      case None => Err(InvalidFormat)
      case Some(nonce) =>
        if |nonce| != NONCE_LEN then Err(InvalidFormat)
        else
          match Base64Url.Decode(parts[2])
          case None => Err(InvalidFormat)
          case Some(ciphertext) => Ok(EncryptedField(nonce, ciphertext))
  }

  lemma SplitThree(a: string, b: string, c: string)
    requires '.' !in a && '.' !in b
    ensures SplitN3(a + "." + (b + "." + c)) == [a, b, c]
  {
    var rest := b + "." + c;
    var s := a + "." + rest;
    FirstDotAfter(a, rest);
    FirstDotAfter(b, c);
    assert s[..|a|] == a && s[|a| + 1..] == rest;
    assert rest[..|b|] == b && rest[|b| + 1..] == c;
  }

  /**
   * Parsing a printed field gives the field back, for every nonce and ciphertext; the parts of
   * the text are the version, the nonce and the ciphertext, in that order.
   */
  lemma ParsePrinted(f: EncryptedField)
    ensures FromStr(ToStringRepr(f)) == Ok(f)
    ensures SplitN3(ToStringRepr(f)) == ["v1", Base64Url.Encode(f.nonce), Base64Url.Encode(f.ciphertext)]
  {
    Base64Url.DecodeEncode(f.nonce);
    Base64Url.DecodeEncode(f.ciphertext);
    SplitThree(VERSION_PREFIX, Base64Url.Encode(f.nonce), Base64Url.Encode(f.ciphertext));
  }

  /** Every accepted string is the canonical text of the field it parses to. */
  lemma PrintParsed(s: string)
    requires FromStr(s).Ok?
    ensures ToStringRepr(FromStr(s).value) == s
  {
    var parts := SplitN3(s);
    Base64Url.EncodeDecode(parts[1]);
    Base64Url.EncodeDecode(parts[2]);
    JoinThree(s);
  }

  lemma JoinThree(s: string)
    requires |SplitN3(s)| == 3
    ensures s == SplitN3(s)[0] + "." + (SplitN3(s)[1] + "." + SplitN3(s)[2])
  {
    JoinAt(s, FirstDot(s));
    var rest := s[FirstDot(s) + 1..];
    JoinAt(rest, FirstDot(rest));
  }

  // ---- Sealing and opening one field ----------------------------------------------------

  function DeriveNonce(p: Suite, dek: Bytes, plaintext: Bytes): (n: Nonce) {
    p.mac(dek, plaintext)[..NONCE_LEN]
  }

  /** The nonce is a prefix of the MAC of the plaintext under the key itself. */
  function EncryptField(p: Suite, plaintext: Bytes, dek: Bytes): (r: Result<EncryptedField, CipherError>)
    ensures |dek| != 32 <==> r == Err(InvalidKeyLength)
    ensures |dek| == 32 && |plaintext| <= 0x10_0000_0000 ==> r.Ok?
    ensures r.Ok? ==>
              && r.value.nonce == p.mac(dek, plaintext)[..12]
              && p.seal(dek, r.value.nonce, plaintext) == Some(r.value.ciphertext)
              && |r.value.ciphertext| == |plaintext| + 16
  {
    if |dek| != KEY_LEN then Err(InvalidKeyLength)
    else
      var nonce := DeriveNonce(p, dek, plaintext);
      match p.seal(dek, nonce, plaintext)
      case None => Err(AeadFailure)
      case Some(ciphertext) => Ok(EncryptedField(nonce, ciphertext))
  }

  function DecryptField(p: Suite, f: EncryptedField, dek: Bytes): (r: Result<Bytes, CipherError>)
    ensures |dek| != 32 <==> r == Err(InvalidKeyLength)
    ensures |dek| == 32 ==> (r.Ok? <==> p.open(dek, f.nonce, f.ciphertext).Some?)
    ensures r.Ok? ==> p.open(dek, f.nonce, f.ciphertext) == Some(r.value)
    ensures r != Err(InvalidFormat)
  {
    if |dek| != KEY_LEN then Err(InvalidKeyLength)
    else
      match p.open(dek, f.nonce, f.ciphertext)
      case None => Err(AeadFailure)
      case Some(plaintext) => Ok(plaintext)
  }

  // ---- What happens to one string leaf --------------------------------------------------

  const TOKEN_PREFIX: string := "v1."

  function SealLeaf(p: Suite, dek: Bytes, s: string): (r: Result<string, CipherError>)
    ensures |dek| != 32 <==> r == Err(InvalidKeyLength)
  {
    match EncryptField(p, Utf8.Encode(s), dek)
    case Err(e) => Err(e)
    case Ok(f) => Ok(ToStringRepr(f))
  }

  function OpenLeaf(p: Suite, dek: Bytes, s: string): (r: Result<string, CipherError>) {
    if !StartsWith(s, TOKEN_PREFIX) then Ok(s)
    else
      match FromStr(s)
      case Err(e) => Err(e)
      case Ok(f) =>
        match DecryptField(p, f, dek)
        case Err(e) => Err(e)
        case Ok(plaintext) =>
          match Utf8.Decode(plaintext)
          case None => Err(AeadFailure)
          case Some(t) => Ok(t)
  }

  /** The text starts with the three characters of a token's version and first dot. */
  predicate LooksLikeToken(s: string) {
    |s| >= 3 && s[..3] == "v1."
  }

  /** A leaf that does not look like a token is left as it is, whatever the key. */
  lemma OtherLeafKept(p: Suite, dek: Bytes, s: string)
    requires |s| < 3 || s[..3] != "v1."
    ensures OpenLeaf(p, dek, s) == Ok(s)
  {
    assert !StartsWith(s, TOKEN_PREFIX);
  }

  /** The whole text of a token. */
  lemma TokenText(p: Suite, dek: Bytes, s: string)
    requires |dek| == 32 && |Utf8.Encode(s)| <= 0x10_0000_0000
    ensures var m := Utf8.Encode(s);
            var nonce := p.mac(dek, m)[..12];
            && p.seal(dek, nonce, m).Some?
            && SealLeaf(p, dek, s) ==
               Ok("v1." + Base64Url.Encode(nonce) + "." + Base64Url.Encode(p.seal(dek, nonce, m).value))
  {
    var f := EncryptField(p, Utf8.Encode(s), dek).value;
    var a, b := Base64Url.Encode(f.nonce), Base64Url.Encode(f.ciphertext);
    assert VERSION_PREFIX + "." + (a + "." + b) == "v1." + a + "." + b;
  }

  /**
   * A token starts with `v1.`, opens to its plaintext under the same key (even a plaintext
   * that itself starts with `v1.`), and is exactly 20 + ceil(4(n+16)/3) characters long for
   * n plaintext bytes, so it never equals the plaintext.
   */
  lemma TokenOpens(p: Suite, dek: Bytes, s: string)
    requires SealLeaf(p, dek, s).Ok?
    ensures var t := SealLeaf(p, dek, s).value;
            && LooksLikeToken(t)
            && OpenLeaf(p, dek, t) == Ok(s)
            && |t| == 20 + (4 * (|Utf8.Encode(s)| + 16) + 2) / 3
            && |t| > |s|
  {
    var m := Utf8.Encode(s);
    var f := EncryptField(p, m, dek).value;
    TokenShape(f);
    assert |f.ciphertext| == |m| + TAG_LEN;
    FieldOpens(p, dek, s);
  }

  lemma TokenShape(f: EncryptedField)
    ensures StartsWith(ToStringRepr(f), TOKEN_PREFIX) && LooksLikeToken(ToStringRepr(f))
    ensures |ToStringRepr(f)| == 20 + (4 * |f.ciphertext| + 2) / 3
  {
    Base64Url.EncodeLength(f.nonce);
    Base64Url.EncodeLength(f.ciphertext);
    assert ToStringRepr(f)[..3] == TOKEN_PREFIX;
  }

  lemma FieldOpens(p: Suite, dek: Bytes, s: string)
    requires SealLeaf(p, dek, s).Ok?
    ensures OpenLeaf(p, dek, SealLeaf(p, dek, s).value) == Ok(s)
  {
    var m := Utf8.Encode(s);
    var f := EncryptField(p, m, dek).value;
    TokenShape(f);
    ParsePrinted(f);
    Utf8.DecodeEncode(s);
    assert p.open(dek, f.nonce, p.seal(dek, f.nonce, m).value) == Some(m);
  }

  /** Under one key, two tokens are equal exactly when their plaintexts are. */
  lemma TokensEqualIffPlaintextsEqual(p: Suite, dek: Bytes, s: string, t: string)
    requires SealLeaf(p, dek, s).Ok? && SealLeaf(p, dek, t).Ok?
    ensures SealLeaf(p, dek, s) == SealLeaf(p, dek, t) <==> s == t
  {
    TokenOpens(p, dek, s);
    TokenOpens(p, dek, t);
  }

  /**
   * When a leaf can be opened: it does not look like a token, or it is the canonical text of
   * some field that authenticates under the key and holds the UTF-8 bytes of the result.
   */
  lemma OpenLeafSucceeds(p: Suite, dek: Bytes, s: string, t: string)
    ensures OpenLeaf(p, dek, s) == Ok(t) <==>
              if LooksLikeToken(s)
              then |dek| == 32 && exists f: EncryptedField ::
                     ToStringRepr(f) == s && p.open(dek, f.nonce, f.ciphertext) == Some(Utf8.Encode(t))
              else t == s
  {
    Utf8.DecodeEncode(t);
    assert StartsWith(s, TOKEN_PREFIX) <==> LooksLikeToken(s);
    if LooksLikeToken(s) {
      if OpenLeaf(p, dek, s) == Ok(t) {
        PrintParsed(s);
        var f := FromStr(s).value;
        Utf8.EncodeDecode(DecryptField(p, f, dek).value);
        assert ToStringRepr(f) == s;
      }
      forall f: EncryptedField | ToStringRepr(f) == s
        ensures FromStr(s) == Ok(f)
      {
        ParsePrinted(f);
      }
    }
  }

  /** The field authenticates under `dek` and holds the UTF-8 bytes of some string. */
  ghost predicate HoldsText(p: Suite, dek: Bytes, f: EncryptedField) {
    exists t: string :: p.open(dek, f.nonce, f.ciphertext) == Some(Utf8.Encode(t))
  }

  lemma HoldsTextIff(p: Suite, dek: Bytes, f: EncryptedField)
    requires |dek| == 32
    ensures HoldsText(p, dek, f) <==>
              DecryptField(p, f, dek).Ok? && Utf8.Decode(DecryptField(p, f, dek).value).Some?
  {
    var r := DecryptField(p, f, dek);
    forall t: string | p.open(dek, f.nonce, f.ciphertext) == Some(Utf8.Encode(t)) ensures Utf8.Decode(r.value) == Some(t) {
      Utf8.DecodeEncode(t);
    }
    if r.Ok? && Utf8.Decode(r.value).Some? {
      Utf8.EncodeDecode(r.value);
    }
  }

  /** The text of a field opens, or fails for the length of the key or for what the field holds. */
  lemma OpenFieldText(p: Suite, dek: Bytes, f: EncryptedField)
    ensures var r := OpenLeaf(p, dek, ToStringRepr(f));
            if |dek| != 32 then r == Err(InvalidKeyLength)
            else if HoldsText(p, dek, f) then r.Ok? else r == Err(AeadFailure)
  {
    TokenShape(f);
    ParsePrinted(f);
    if |dek| == 32 {
      HoldsTextIff(p, dek, f);
    }
  }

  /** Any other string is malformed if it looks like a token, and is left alone if not. */
  lemma OpenOtherText(p: Suite, dek: Bytes, s: string)
    requires forall f :: ToStringRepr(f) != s
    ensures OpenLeaf(p, dek, s) == if LooksLikeToken(s) then Err(InvalidFormat) else Ok(s)
  {
    assert StartsWith(s, TOKEN_PREFIX) <==> LooksLikeToken(s);
    if FromStr(s).Ok? {
      PrintParsed(s);
    }
  }

  /** The prefix alone is not a token, so no key opens it. */
  lemma BarePrefixFails(p: Suite, dek: Bytes)
    ensures OpenLeaf(p, dek, "v1.") == Err(InvalidFormat)
  {
    FirstDotAfter(VERSION_PREFIX, "");
    assert VERSION_PREFIX + "." + "" == TOKEN_PREFIX;
    assert |SplitN3(TOKEN_PREFIX)| == 2;
  }
}
