/** Why a derived nonce cannot tell plaintexts or keys apart: there are fewer nonces than either. */
module Nonces {
  import opened Prelude
  import opened Cipher

  /** The number of byte sequences of length `n`. */
  function Count(n: nat): (c: nat)
    ensures c > 0
  {
    if n == 0 then 1 else 256 * Count(n - 1)
  }

  /** The number with the base-256 digits `b`, least significant first. */
  function Number(b: Bytes): nat
    decreases |b|
  {
    if b == [] then 0 else b[0] + 256 * Number(b[1..])
  }

  /** The `n` lowest base-256 digits of `x`. */
  function Digits(x: nat, n: nat): (b: Bytes)
    ensures |b| == n
  {
    if n == 0 then [] else [x % 256] + Digits(x / 256, n - 1)
  }

  lemma {:induction false} NumberBelow(b: Bytes)
    ensures Number(b) < Count(|b|)
    decreases |b|
  {
    if b == [] {
    } else {
      NumberBelow(b[1..]);
    }
  }

  lemma {:induction false} NumberInjective(a: Bytes, b: Bytes)
    requires |a| == |b| && Number(a) == Number(b)
    ensures a == b
    decreases |a|
  {
    if a == [] {
    } else {
      NumberInjective(a[1..], b[1..]);
      assert a == [a[0]] + a[1..] && b == [b[0]] + b[1..];
    }
  }

  lemma {:induction false} DigitsInjective(x: nat, y: nat, n: nat)
    requires x < Count(n) && y < Count(n) && Digits(x, n) == Digits(y, n)
    ensures x == y
    decreases n
  {
    if n == 0 {
    } else {
      assert Digits(x, n)[1..] == Digits(x / 256, n - 1);
      assert Digits(y, n)[1..] == Digits(y / 256, n - 1);
      assert Digits(x, n)[0] == x % 256 && Digits(y, n)[0] == y % 256;
      DigitsInjective(x / 256, y / 256, n - 1);
    }
  }

  lemma {:induction false} CountGrows(size: nat, length: nat)
    requires size < length
    ensures Count(size) < Count(length)
    decreases length
  {
    if length == size + 1 {
    } else {
      CountGrows(size, length - 1);
    }
  }

  lemma {:induction false} SubsetSize(a: set<nat>, b: set<nat>)
    requires a <= b
    ensures |a| <= |b|
  {
    if a == {} {
    } else {
      var x :| x in a;
      SubsetSize(a - {x}, b - {x});
    }
  }

  function Image(f: nat -> nat, n: nat): set<nat> {
    set k: nat | k < n :: f(k)
  }

  function Below(n: nat): (s: set<nat>)
    ensures |s| == n && forall k: nat :: k in s <==> k < n
  {
    if n == 0 then {} else Below(n - 1) + {n - 1}
  }

  lemma {:induction false} ImageSize(f: nat -> nat, n: nat)
    requires forall k: nat, l: nat :: k < l < n ==> f(k) != f(l)
    ensures |Image(f, n)| == n
  {
    if n == 0 {
    } else {
      ImageSize(f, n - 1);
      assert Image(f, n) == Image(f, n - 1) + {f(n - 1)};
      assert f(n - 1) !in Image(f, n - 1);
    }
  }

  /** A function from `n + 1` numbers to `n` numbers takes some value twice. */
  lemma Pigeonhole(f: nat -> nat, n: nat) returns (i: nat, j: nat)
    requires forall k: nat :: k <= n ==> f(k) < n
    ensures i < j <= n && f(i) == f(j)
  {
    if forall k: nat, l: nat :: k < l <= n ==> f(k) != f(l) {
      ImageSize(f, n + 1);
      SubsetSize(Image(f, n + 1), Below(n));
      assert false;
    }
    i, j :| i < j <= n && f(i) == f(j);
  }

  /** A function to byte sequences that are shorter than its arguments takes some value twice. */
  lemma Collision(g: Bytes -> Bytes, size: nat, length: nat) returns (a: Bytes, b: Bytes)
    requires size < length && forall x {:trigger g(x)} :: |g(x)| == size
    ensures |a| == |b| == length && a != b && g(a) == g(b)
  {
    var f := (x: nat) => Number(g(Digits(x, length)));
    forall x: nat ensures f(x) < Count(size) {
      NumberBelow(g(Digits(x, length)));
    }
    var i, j := Pigeonhole(f, Count(size));
    CountGrows(size, length);
    a, b := Digits(i, length), Digits(j, length);
    NumberInjective(g(a), g(b));
    if a == b {
      DigitsInjective(i, j, length);
    }
  }

  /** Under every key two different plaintexts, short enough to be sealed, get the same nonce. */
  lemma PlaintextsShareNonce(p: Suite, dek: Bytes) returns (m: Bytes, n: Bytes)
    ensures m != n && |m| <= 0x10_0000_0000 && |n| <= 0x10_0000_0000
    ensures DeriveNonce(p, dek, m) == DeriveNonce(p, dek, n)
  {
    m, n := Collision(x => DeriveNonce(p, dek, x), NONCE_LEN, NONCE_LEN + 1);
  }

  /** For every plaintext two different 32-byte keys give the same nonce. */
  lemma KeysShareNonce(p: Suite, plaintext: Bytes) returns (k: Bytes, l: Bytes)
    ensures k != l && |k| == |l| == 32
    ensures DeriveNonce(p, k, plaintext) == DeriveNonce(p, l, plaintext)
  {
    k, l := Collision(x => DeriveNonce(p, x, plaintext), NONCE_LEN, KEY_LEN);
  }
}
