/** Go's `int64`: two's complement 64-bit integers, their wrap-around arithmetic and
    their little-endian byte encoding as `binary.Write`/`binary.Read` produce it. */
module Int64 {
  import opened Bytes

  const TWO_63: int := 0x8000_0000_0000_0000
  const TWO_64: int := 0x1_0000_0000_0000_0000

  type int64 = x: int | -TWO_63 <= x < TWO_63

  /** The int64 that a Go arithmetic result `x` wraps to. */
  function Wrap(x: int): (r: int64)
    ensures (r - x) % TWO_64 == 0
    ensures -TWO_63 <= x < TWO_63 ==> r == x
  {
    (x + TWO_63) % TWO_64 - TWO_63
  }

  lemma WrapCongruent(x: int, y: int)
    requires (x - y) % TWO_64 == 0
    ensures Wrap(x) == Wrap(y)
  {
    var k := (x - y) / TWO_64;
    assert x + TWO_63 == (y + TWO_63) + k * TWO_64;
    ModShift(y + TWO_63, k);
  }

  lemma ModShift(a: int, k: int)
    ensures (a + k * TWO_64) % TWO_64 == a % TWO_64
  {
  }

  /** Wrapping an intermediate result does not change the final wrapped sum. */
  lemma WrapAdd(a: int, b: int)
    ensures Wrap(Wrap(a) + b) == Wrap(a + b)
  {
    WrapCongruent(Wrap(a) + b, a + b);
  }

  /** Wrapping an intermediate product does not change the final wrapped product. */
  lemma WrapMul(a: int, b: int)
    ensures Wrap(Wrap(a) * b) == Wrap(a * b)
  {
    var k := (Wrap(a) - a) / TWO_64;
    assert Wrap(a) == a + k * TWO_64;
    assert Wrap(a) * b - a * b == (k * b) * TWO_64;
    WrapCongruent(Wrap(a) * b, a * b);
  }

  function Pow256(n: nat): (r: nat)
    ensures r > 0
  {
    if n == 0 then 1 else 256 * Pow256(n - 1)
  }

  /** The `n`-byte little-endian encoding of an unsigned value. */
  function EncodeUnsigned(u: nat, n: nat): (r: seq<byte>)
    ensures |r| == n
  {
    if n == 0 then [] else [u % 256] + EncodeUnsigned(u / 256, n - 1)
  }

  /** The unsigned value of a little-endian byte sequence. */
  function DecodeUnsigned(s: seq<byte>): nat
  {
    if s == [] then 0 else s[0] + 256 * DecodeUnsigned(s[1..])
  }

  /** Byte `k` of the encoding is digit `k` of `u` in base 256: least significant first. */
  lemma {:induction false} EncodeUnsignedAt(u: nat, n: nat, k: nat)
    requires k < n
    ensures EncodeUnsigned(u, n)[k] == (u / Pow256(k)) % 256
  {
    if k > 0 {
      EncodeUnsignedAt(u / 256, n - 1, k - 1);
      DivDiv(u, 256, Pow256(k - 1));
    }
  }

  lemma DivDiv(u: nat, a: nat, b: nat)
    requires a > 0 && b > 0
    ensures u / a / b == u / (a * b)
  {
    var q, r2, r1 := u / a / b, (u / a) % b, u % a;
    assert u / a == q * b + r2;
    assert u == (u / a) * a + r1;
    assert u == (q * b + r2) * a + r1;
    assert (q * b + r2) * a == q * (a * b) + r2 * a;
    assert r2 * a <= (b - 1) * a by { MulLe(r2, b - 1, a); }
    assert (b - 1) * a == a * b - a;
    DivUnique(u, a * b, q, r2 * a + r1);
  }

  lemma MulLe(x: nat, y: nat, z: nat)
    requires x <= y
    ensures x * z <= y * z
  {
  }

  lemma DivUnique(u: int, d: int, q: int, r: int)
    requires d > 0 && 0 <= r < d && u == q * d + r
    ensures u / d == q
  {
    var q', r' := u / d, u % d;
    assert (q - q') * d == r' - r;
    if q - q' >= 1 {
      MulLe(1, q - q', d);
    } else if q' - q >= 1 {
      MulLe(1, q' - q, d);
    }
  }

  lemma {:induction false} DecodeUnsignedBound(s: seq<byte>)
    ensures DecodeUnsigned(s) < Pow256(|s|)
  {
    if s != [] {
      DecodeUnsignedBound(s[1..]);
    }
  }

  lemma {:induction false} DecodeEncodeUnsigned(u: nat, n: nat)
    requires u < Pow256(n)
    ensures DecodeUnsigned(EncodeUnsigned(u, n)) == u
  {
    if n > 0 {
      var s := EncodeUnsigned(u, n);
      assert s[1..] == EncodeUnsigned(u / 256, n - 1);
      DecodeEncodeUnsigned(u / 256, n - 1);
    }
  }

  lemma {:induction false} EncodeDecodeUnsigned(s: seq<byte>)
    ensures EncodeUnsigned(DecodeUnsigned(s), |s|) == s
  {
    if s != [] {
      var u := DecodeUnsigned(s);
      assert u % 256 == s[0] && u / 256 == DecodeUnsigned(s[1..]);
      EncodeDecodeUnsigned(s[1..]);
    }
  }

  /** `binary.LittleEndian` encoding of an int64: its two's complement bit pattern, low byte first. */
  function EncodeInt64(v: int64): (r: seq<byte>)
    ensures |r| == 8
  {
    EncodeUnsigned(if v < 0 then v + TWO_64 else v, 8)
  }

  function DecodeInt64(s: seq<byte>): int64
    requires |s| == 8
  {
    var u := DecodeUnsigned(s);
    DecodeUnsignedBound(s);
    if u >= TWO_63 then u - TWO_64 else u
  }

  /** The encoding is little-endian two's complement: byte `k` is the `k`-th base-256 digit
      of the value taken modulo 2^64. */
  lemma EncodeInt64At(v: int64, k: nat)
    requires k < 8
    ensures EncodeInt64(v)[k] == ((v % TWO_64) / Pow256(k)) % 256
  {
    var u := if v < 0 then v + TWO_64 else v;
    assert u == v % TWO_64 by {
      if v < 0 { ModShift(v, 1); } else { DivUnique(v, TWO_64, 0, v); }
    }
    EncodeUnsignedAt(u, 8, k);
  }

  lemma Int64RoundTrip(v: int64)
    ensures DecodeInt64(EncodeInt64(v)) == v
  {
    assert Pow256(8) == TWO_64;
    DecodeEncodeUnsigned(if v < 0 then v + TWO_64 else v, 8);
  }

  lemma Int64BytesRoundTrip(s: seq<byte>)
    requires |s| == 8
    ensures EncodeInt64(DecodeInt64(s)) == s
  {
    assert Pow256(8) == TWO_64;
    DecodeUnsignedBound(s);
    EncodeDecodeUnsigned(s);
  }
}
