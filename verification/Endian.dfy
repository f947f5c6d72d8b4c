/** Bytes and network byte order (muduo/net/Endian.h). */
module Endian {
  type byte = x: int | 0 <= x < 256

  function Pow256(n: nat): (p: int)
    ensures p > 0
  {
    if n == 0 then 1 else 256 * Pow256(n - 1)
  }

  /** The `n` low bytes of `u`, most significant first. */
  function BigEndian(u: int, n: nat): (bytes: seq<byte>)
    ensures |bytes| == n
    decreases n
  {
    if n == 0 then [] else BigEndian(u / 256, n - 1) + [u % 256]
  }

  function FromBigEndian(bytes: seq<byte>): int {
    if bytes == [] then 0
    else FromBigEndian(bytes[..|bytes| - 1]) * 256 + bytes[|bytes| - 1]
  }

  /** The range of a signed integer of `n` bytes. */
  predicate IsSigned(x: int, n: nat) {
    -Pow256(n) <= 2 * x < Pow256(n)
  }

  /** Two's complement, then network order. */
  function EncodeSigned(x: int, n: nat): (bytes: seq<byte>)
    ensures |bytes| == n
  {
    BigEndian(if x < 0 then x + Pow256(n) else x, n)
  }

  function DecodeSigned(bytes: seq<byte>): int {
    var u := FromBigEndian(bytes);
    if 2 * u < Pow256(|bytes|) then u else u - Pow256(|bytes|)
  }

  lemma {:induction false} BigEndianRoundTrip(u: int, n: nat)
    requires 0 <= u < Pow256(n)
    ensures FromBigEndian(BigEndian(u, n)) == u
  {
    if n > 0 {
      BigEndianRoundTrip(u / 256, n - 1);
      assert BigEndian(u, n)[..n - 1] == BigEndian(u / 256, n - 1);
    }
  }

  lemma {:induction false} FromBigEndianRoundTrip(bytes: seq<byte>)
    ensures 0 <= FromBigEndian(bytes) < Pow256(|bytes|)
    ensures BigEndian(FromBigEndian(bytes), |bytes|) == bytes
  {
    if bytes != [] {
      var front, last := bytes[..|bytes| - 1], bytes[|bytes| - 1];
      FromBigEndianRoundTrip(front);
      assert bytes == front + [last];
    }
  }

  /** The most significant byte comes first. */
  lemma {:induction false} BigEndianAt(u: nat, n: nat, i: nat)
    requires i < n
    ensures BigEndian(u, n)[i] == u / Pow256(n - 1 - i) % 256
    decreases n
  {
    if i == n - 1 {
      assert Pow256(0) == 1;
    } else {
      BigEndianAt(u / 256, n - 1, i);
      DivideTwice(u, Pow256(n - 2 - i));
    }
  }

  lemma DivideTwice(u: nat, p: nat)
    requires p > 0
    ensures u / 256 / p == u / (256 * p)
  {
    var q, r := u / 256 / p, u / 256 % p;
    var rest := 256 * r + u % 256;
    assert u / 256 == p * q + r;
    assert u == 256 * p * q + rest;
    assert 256 * r <= 256 * (p - 1);
    QuotientIs(u, 256 * p, q, rest);
  }

  lemma QuotientIs(u: nat, d: nat, q: nat, r: nat)
    requires d > 0 && u == d * q + r && r < d
    ensures u / d == q
  {
    var q', r' := u / d, u % d;
    assert u == d * q' + r';
    Steps(d, q', q);
    Steps(d, q, q');
  }

  lemma {:induction false} Steps(d: nat, a: nat, b: nat)
    ensures a < b ==> d * a + d <= d * b
  {
    if a < b {
      Steps(d, a, b - 1);
      assert d * b == d * (b - 1) + d;
    }
  }

  /** Negative integers go as their two's complement. */
  lemma TwosComplement(x: int, n: nat, i: nat)
    requires IsSigned(x, n) && i < n
    ensures EncodeSigned(x, n)[i] == (if x < 0 then Pow256(n) + x else x) / Pow256(n - 1 - i) % 256
  {
    BigEndianAt(if x < 0 then Pow256(n) + x else x, n, i);
  }

  /** Signed integers of any width survive the wire, negatives included. */
  lemma SignedRoundTrip(x: int, n: nat)
    requires n > 0 && IsSigned(x, n)
    ensures DecodeSigned(EncodeSigned(x, n)) == x
  {
    BigEndianRoundTrip(if x < 0 then x + Pow256(n) else x, n);
  }

  /** And every byte string of that width is some integer's image. */
  lemma SignedRoundTripBack(bytes: seq<byte>)
    requires bytes != []
    ensures IsSigned(DecodeSigned(bytes), |bytes|)
    ensures EncodeSigned(DecodeSigned(bytes), |bytes|) == bytes
  {
    FromBigEndianRoundTrip(bytes);
    assert Pow256(|bytes|) == 256 * Pow256(|bytes| - 1);
  }
}
