/**
 Bytes and the big-endian integer layout used by every multi-byte MessagePack payload.

 A DataView store of width w (setUint16, setInt32, setBigUint64, ...) converts its
 argument modulo 256^w and writes the result most significant byte first; `BigEndian`
 is that store, and `FromBigEndian` reads it back.
 */
module Bytes {

  newtype byte = x: int | 0 <= x < 256

  /** 256^w */
  function Pow256(w: nat): (r: nat)
    ensures r >= 1
    ensures w >= 1 ==> r >= 256 && r % 256 == 0
  {
    if w == 0 then 1 else 256 * Pow256(w - 1)
  }

  /** The w bytes, most significant first, of x modulo 256^w (out-of-range values wrap). */
  function BigEndian(x: int, w: nat): (r: seq<byte>)
    ensures |r| == w
    decreases w
  {
    if w == 0 then [] else BigEndian(x / 256, w - 1) + [(x % 256) as byte]
  }

  /** The unsigned integer whose big-endian bytes are bs. */
  function FromBigEndian(bs: seq<byte>): (r: nat)
    ensures r < Pow256(|bs|)
  {
    if bs == [] then 0
    else
      var hi := FromBigEndian(bs[..|bs| - 1]);
      assert hi <= Pow256(|bs| - 1) - 1;
      hi * 256 + bs[|bs| - 1] as int
  }

  /** Two's-complement reading of an unsigned w-byte quantity. */
  function ToSigned(u: nat, w: nat): (r: int)
    requires u < Pow256(w)
    ensures -(Pow256(w) as int) <= r < Pow256(w)
    ensures r == u || r == u - Pow256(w)
  {
    if 2 * u >= Pow256(w) then u - Pow256(w) else u
  }

  lemma ModOfDecomposition(x: int, d: int, k: int, m: int)
    requires d > 0 && x == d * k + m && 0 <= m < d
    ensures x % d == m && x / d == k
  {
    var q', m' := x / d, x % d;
    assert d * (k - q') == m' - m;
    if k - q' >= 1 {
      MulMonotone(d, k - q');
    } else if k - q' <= -1 {
      MulMonotone(d, q' - k);
    }
  }

  lemma MulMonotone(d: int, t: int)
    requires d > 0 && t >= 1
    ensures d * t >= d
  {
    if t > 1 {
      MulMonotone(d, t - 1);
      assert d * t == d * (t - 1) + d;
    }
  }

  /** Peeling off the low byte: x mod 256p is 256 * ((x / 256) mod p) + x mod 256. */
  lemma ModOfProduct(x: int, p: int)
    requires p > 0
    ensures x % (256 * p) == 256 * ((x / 256) % p) + x % 256
  {
    var q, r := x / 256, x % 256;
    var s, k := q % p, q / p;
    assert q == p * k + s;
    assert x == 256 * q + r;
    assert 256 * q == (256 * p) * k + 256 * s by {
      assert 256 * (p * k + s) == (256 * p) * k + 256 * s;
    }
    assert 0 <= 256 * s + r < 256 * p by {
      assert s <= p - 1;
      assert 256 * s <= 256 * (p - 1);
    }
    ModOfDecomposition(x, 256 * p, k, 256 * s + r);
  }

  /** Reading back a big-endian store yields the stored value modulo 256^w. */
  lemma {:induction false} FromBigEndianOfBigEndian(x: int, w: nat)
    ensures FromBigEndian(BigEndian(x, w)) == x % Pow256(w)
    decreases w
  {
    if w > 0 {
      var bs := BigEndian(x, w);
      assert bs[..w - 1] == BigEndian(x / 256, w - 1);
      FromBigEndianOfBigEndian(x / 256, w - 1);
      ModOfProduct(x, Pow256(w - 1));
    }
  }

  /** A value below 256^w survives a big-endian store unchanged. */
  lemma UnsignedRoundTrip(x: int, w: nat)
    requires 0 <= x < Pow256(w)
    ensures FromBigEndian(BigEndian(x, w)) == x
  {
    FromBigEndianOfBigEndian(x, w);
  }

  /** A value in the signed w-byte range survives a store followed by a two's-complement read. */
  lemma SignedRoundTrip(x: int, w: nat)
    requires w >= 1
    requires -(Pow256(w) as int) <= 2 * x < Pow256(w)
    ensures ToSigned(FromBigEndian(BigEndian(x, w)), w) == x
  {
    FromBigEndianOfBigEndian(x, w);
    var p := Pow256(w);
    if x >= 0 {
      ModOfDecomposition(x, p, 0, x);
    } else {
      ModOfDecomposition(x, p, -1, x + p);
    }
  }
}
