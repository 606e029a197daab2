/**
 * Bytes and big-endian integers, as produced by Rust's `to_be_bytes` and
 * consumed by `from_be_bytes`.
 */
module ByteOrder {

  type u8 = x: int | 0 <= x < 0x100

  type Bytes = seq<u8>

  /** 256 to the power n: the number of values n bytes can hold. */
  function Pow256(n: nat): (r: nat)
    ensures r >= 1
  {
    if n == 0 then 1 else 256 * Pow256(n - 1)
  }

  lemma Pow256Values()
    ensures Pow256(2) == 0x1_0000
    ensures Pow256(4) == 0x1_0000_0000
    ensures Pow256(6) == 0x1_0000_0000_0000
    ensures Pow256(8) == 0x1_0000_0000_0000_0000
  {
  }

  /** The n low-order bytes of v, most significant first. */
  function BeBytes(v: nat, n: nat): (r: Bytes)
    ensures |r| == n
  {
    if n == 0 then [] else BeBytes(v / 256, n - 1) + [v % 256]
  }

  /** The number whose big-endian bytes are s. */
  function FromBeBytes(s: Bytes): (v: nat)
    ensures v < Pow256(|s|)
  {
    if s == [] then 0
    else
      var hi := FromBeBytes(s[..|s| - 1]);
      assert hi * 256 + s[|s| - 1] < Pow256(|s|) by {
        assert hi <= Pow256(|s| - 1) - 1;
        assert hi * 256 <= Pow256(|s|) - 256;
      }
      hi * 256 + s[|s| - 1]
  }

  /** Reading back the bytes of a value that fits gives that value. */
  lemma {:induction false} FromBeBytesInverse(v: nat, n: nat)
    requires v < Pow256(n)
    ensures FromBeBytes(BeBytes(v, n)) == v
  {
    if n > 0 {
      var s := BeBytes(v, n);
      assert s[..n - 1] == BeBytes(v / 256, n - 1);
      FromBeBytesInverse(v / 256, n - 1);
    }
  }

  /** Two values that fit in n bytes have equal forms only if they are equal. */
  lemma BeBytesInjective(a: nat, b: nat, n: nat)
    requires a < Pow256(n) && b < Pow256(n)
    ensures BeBytes(a, n) == BeBytes(b, n) <==> a == b
  {
    FromBeBytesInverse(a, n);
    FromBeBytesInverse(b, n);
  }

  lemma MulAtLeast(a: int, d: int)
    requires a >= 1 && d > 0
    ensures a * d >= d
  {
    var k := a - 1;
    assert a * d == k * d + d;
    assert k * d >= 0;
  }

  /** Quotient and remainder are the only q and r with x == q * d + r and 0 <= r < d. */
  lemma DivModUnique(x: int, d: int, q: int, r: int)
    requires d > 0 && 0 <= r < d && x == q * d + r
    ensures x / d == q && x % d == r
  {
    var q', r' := x / d, x % d;
    assert x == q' * d + r';
    assert (q - q') * d == r' - r;
    if q > q' {
      MulAtLeast(q - q', d);
    } else if q < q' {
      MulAtLeast(q' - q, d);
    }
  }

  /** Quotient and remainder of x * 256 + y by 256. */
  lemma DivModShift(x: nat, y: nat)
    ensures (x * 256 + y) / 256 == x + y / 256
    ensures (x * 256 + y) % 256 == y % 256
  {
  }

  /**
   * The bytes of hi * 256^m + lo (lo < 256^m) are the bytes of hi followed by
   * the m bytes of lo: the layout of a packed integer.
   */
  lemma {:induction false} BeBytesConcat(hi: nat, lo: nat, n: nat, m: nat)
    requires lo < Pow256(m)
    ensures BeBytes(hi * Pow256(m) + lo, n + m) == BeBytes(hi, n) + BeBytes(lo, m)
  {
    if m > 0 {
      var p := Pow256(m - 1);
      var v := hi * Pow256(m) + lo;
      assert v == (hi * p) * 256 + lo;
      DivModShift(hi * p, lo);
      assert lo / 256 < p;
      BeBytesConcat(hi, lo / 256, n, m - 1);
      calc {
        BeBytes(v, n + m);
        BeBytes(v / 256, n + m - 1) + [v % 256];
        BeBytes(hi * p + lo / 256, n + (m - 1)) + [lo % 256];
        (BeBytes(hi, n) + BeBytes(lo / 256, m - 1)) + [lo % 256];
        BeBytes(hi, n) + (BeBytes(lo / 256, m - 1) + [lo % 256]);
        BeBytes(hi, n) + BeBytes(lo, m);
      }
    }
  }

  /** The n-byte form of zero is n zero bytes. */
  lemma {:induction false} BeBytesZero(n: nat)
    ensures forall i :: 0 <= i < n ==> BeBytes(0, n)[i] == 0
  {
    if n > 0 {
      BeBytesZero(n - 1);
    }
  }
}
