/** Bytes and little-endian integers, as every wire format of the model uses them. */
module Bytes {

  type Byte = b: int | 0 <= b < 256

  /** 256 to the power n: the weight of byte n, that is `1 << 8n`. */
  function Pow256(n: nat): (p: nat)
    ensures p > 0
  {
    if n == 0 then 1 else 256 * Pow256(n - 1)
  }

  /** The n low bytes of u, least significant first. */
  function LeBytes(u: nat, n: nat): (s: seq<Byte>)
    ensures |s| == n
    decreases n
  {
    if n == 0 then [] else [u % 256] + LeBytes(u / 256, n - 1)
  }

  /** The number whose little-endian digits are s. */
  function LeValue(s: seq<Byte>): (u: nat)
  {
    if s == [] then 0 else s[0] + 256 * LeValue(s[1..])
  }

  lemma {:induction false} LeValueBound(s: seq<Byte>)
    ensures LeValue(s) < Pow256(|s|)
  {
    if s != [] {
      LeValueBound(s[1..]);
    }
  }

  /** Decoding inverts encoding on every number that fits. */
  lemma {:induction false} LeValueOfBytes(u: nat, n: nat)
    requires u < Pow256(n)
    ensures LeValue(LeBytes(u, n)) == u
    decreases n
  {
    if n > 0 {
      LeValueOfBytes(u / 256, n - 1);
      assert LeBytes(u, n)[1..] == LeBytes(u / 256, n - 1);
    }
  }

  /** Encoding inverts decoding on every byte string. */
  lemma {:induction false} LeBytesOfValue(s: seq<Byte>)
    ensures LeBytes(LeValue(s), |s|) == s
  {
    if s != [] {
      LeBytesOfValue(s[1..]);
      assert LeValue(s) % 256 == s[0];
      assert LeValue(s) / 256 == LeValue(s[1..]);
    }
  }

  /** Byte i of u is what shifting right by 8i bits and masking with 0xFF leaves. */
  lemma {:induction false} LeByteIsShift(u: nat, n: nat, i: nat)
    requires i < n
    ensures LeBytes(u, n)[i] == (u / Pow256(i)) % 256
    decreases n
  {
    if i > 0 {
      LeByteIsShift(u / 256, n - 1, i - 1);
      DivDiv(u, Pow256(i - 1));
    }
  }

  lemma DivDiv(u: nat, p: nat)
    requires p > 0
    ensures (u / 256) / p == u / (256 * p)
  {
    var q, r := u / (256 * p), u % (256 * p);
    assert u == q * (256 * p) + r;
    assert u == 256 * (q * p) + r;
    assert u / 256 == q * p + r / 256;
    assert 0 <= r / 256 < p;
    DivUnique(u / 256, p, q, r / 256);
  }

  lemma DivUnique(a: nat, p: nat, q: nat, r: nat)
    requires p > 0 && r < p && a == q * p + r
    ensures a / p == q
  {
    var d := a / p - q;
    assert a == (a / p) * p + a % p;
    assert d * p == r - a % p;
  }

  /** Reading one more byte adds it at its weight. */
  lemma {:induction false} LeValueSnoc(s: seq<Byte>, b: Byte)
    ensures LeValue(s + [b]) == LeValue(s) + b * Pow256(|s|)
  {
    if s == [] {
      assert s + [b] == [b];
    } else {
      LeValueSnoc(s[1..], b);
      assert (s + [b])[1..] == s[1..] + [b];
      assert Pow256(|s|) == 256 * Pow256(|s| - 1);
      assert b * Pow256(|s|) == 256 * (b * Pow256(|s| - 1));
    }
  }
}
