/** Byte-level vocabulary shared by the archive model: octets, powers of two,
    single bits, the reinterpretation of an octet through a signed C `char`,
    and the 32-bit little-endian size fields of an entry header. */
module Bytes {

  /** One octet of an archive file. */
  type byte = x: int | 0 <= x < 256

  /** 2^32: the size fields are C `unsigned int`s. */
  const U32_LIMIT: int := 0x1_0000_0000

  function Pow2(n: nat): (r: nat)
    ensures r >= 1
  {
    if n == 0 then 1 else 2 * Pow2(n - 1)
  }

  /** Bit `i` of `x`, bit 0 being the least significant; this is
      `(x >> i) & 1` for a non-negative `x`. */
  function Bit(x: nat, i: nat): (r: nat)
    ensures r < 2
  {
    (x / Pow2(i)) % 2
  }

  /** The value an octet has when it is read into a plain `char`, which is
      signed on the usual x86 ABI: the two's-complement reading of the octet. */
  function AsChar(b: byte): (c: int)
    ensures -128 <= c < 128
    ensures c % 256 == b
  {
    if b < 128 then b else b - 256
  }

  /** The four octets of a 32-bit value, least significant first. */
  function LE32(x: nat): (bs: seq<byte>)
    requires x < U32_LIMIT
    ensures |bs| == 4
  {
    [x % 256, (x / 0x100) % 256, (x / 0x1_0000) % 256, (x / 0x100_0000) % 256]
  }

  /** The 32-bit value stored little-endian in four octets. */
  function LE32Value(bs: seq<byte>): (x: nat)
    requires |bs| == 4
    ensures x < U32_LIMIT
  {
    bs[0] + 0x100 * (bs[1] as int) + 0x1_0000 * (bs[2] as int) + 0x100_0000 * (bs[3] as int)
  }

  /** Reading back a written size field gives the size. */
  lemma LE32RoundTrip(x: nat)
    requires x < U32_LIMIT
    ensures LE32Value(LE32(x)) == x
  {
    var bs := LE32(x);
    DivModNested(x, 0x100, 0x100);
    DivModNested(x, 0x1_0000, 0x100);
    assert x / 0x100_0000 < 0x100;
    assert (x / 0x100_0000) % 256 == x / 0x100_0000;
    assert x / 0x100 / 0x100 == x / 0x1_0000;
    assert x / 0x1_0000 / 0x100 == x / 0x100_0000;
    DivMod(x / 0x100, 0x100, x / 0x1_0000, (x / 0x100) % 256);
    DivMod(x / 0x1_0000, 0x100, x / 0x100_0000, (x / 0x1_0000) % 256);
    DivMod(x, 0x100, x / 0x100, x % 256);
  }

  /** Writing a read size field gives back the same four octets. */
  lemma LE32Canonical(bs: seq<byte>)
    requires |bs| == 4
    ensures LE32(LE32Value(bs)) == bs
  {
    var x := LE32Value(bs);
    var q1 := bs[1] + 0x100 * (bs[2] as int) + 0x1_0000 * (bs[3] as int);
    var q2 := bs[2] + 0x100 * (bs[3] as int);
    DivMod(x, 0x100, q1, bs[0]);
    DivMod(q1, 0x100, q2, bs[1]);
    DivMod(q2, 0x100, bs[3], bs[2]);
    DivModNested(x, 0x100, 0x100);
    DivModNested(x, 0x1_0000, 0x100);
  }

  /** Quotient and remainder are determined by the defining equation. */
  lemma DivMod(x: int, m: int, q: int, r: int)
    requires m > 0 && 0 <= r < m && x == q * m + r
    ensures x / m == q && x % m == r
  {
    var q' := x / m;
    if q > q' {
      MulAtLeast(q - q', m);
    } else if q < q' {
      MulAtLeast(q' - q, m);
    }
  }

  lemma MulAtLeast(k: int, m: int)
    requires k >= 1 && m > 0
    ensures k * m >= m
  {
  }

  /** Dividing by `a` and then by `b` is dividing by `a * b`; the remainder
      by `a * b` is assembled from the two partial remainders. */
  lemma DivModNested(x: nat, a: nat, b: nat)
    requires a > 0 && b > 0
    ensures x / (a * b) == x / a / b
    ensures x % (a * b) == (x / a % b) * a + x % a
  {
    var q1, r1 := x / a, x % a;
    var q2, r2 := q1 / b, q1 % b;
    var ab := a * b;
    assert q1 * a == q2 * ab + r2 * a by {
      assert q1 == q2 * b + r2;
      Distribute(q2 * b, r2, a);
      assert q2 * b * a == q2 * ab;
    }
    assert r2 * a + r1 < ab by {
      MulLeft(r2, b - 1, a);
      assert (b - 1) * a == ab - a;
    }
    DivMod(x, ab, q2, r2 * a + r1);
  }

  lemma Distribute(p: int, q: int, a: int)
    ensures (p + q) * a == p * a + q * a
  {
  }

  lemma MulLeft(x: int, y: int, a: int)
    requires x <= y && a >= 0
    ensures x * a <= y * a
  {
  }

  lemma Pow2Add(m: nat, n: nat)
    ensures Pow2(m + n) == Pow2(m) * Pow2(n)
  {
    if m > 0 {
      Pow2Add(m - 1, n);
    }
  }

  /** The low `i + 1` bits of `x` are its low `i` bits plus bit `i`. */
  lemma LowBitsStep(x: nat, i: nat)
    ensures x % Pow2(i + 1) == x % Pow2(i) + Bit(x, i) * Pow2(i)
  {
    DivModNested(x, Pow2(i), 2);
  }

  /** Bit `i` of `y = x / 2^k` is bit `k + i` of `x`. */
  lemma BitOfQuotient(x: nat, k: nat, i: nat, y: nat)
    requires y == x / Pow2(k)
    ensures Bit(y, i) == Bit(x, k + i)
  {
    DivPow2Twice(x, k, i);
  }

  /** Dividing by 2^k and then by 2^i is dividing by 2^(k+i). */
  lemma DivPow2Twice(x: nat, k: nat, i: nat)
    ensures x / Pow2(k) / Pow2(i) == x / Pow2(k + i)
  {
    Pow2Add(k, i);
    DivModNested(x, Pow2(k), Pow2(i));
  }

  /** Division with remainder, read back. */
  lemma Euclid(x: int, m: int)
    requires m > 0
    ensures x == m * (x / m) + x % m
  {
  }

  /** A value below 2^n keeps all of its low n bits. */
  lemma ModOfSmall(x: nat, n: nat)
    requires x < Pow2(n)
    ensures x % Pow2(n) == x
  {
    DivMod(x, Pow2(n), 0, x);
  }

  /** Successor modulo `w`, as a cursor that wraps back to 0 past `w - 1`. */
  lemma ModSucc(a: int, w: int)
    requires w > 0
    ensures (a + 1) % w == (if a % w < w - 1 then a % w + 1 else 0)
  {
    if a % w < w - 1 {
      DivMod(a + 1, w, a / w, a % w + 1);
    } else {
      DivMod(a + 1, w, a / w + 1, 0);
    }
  }

  /** A remainder never exceeds the non-negative number it is taken of. */
  lemma ModAtMost(a: int, w: int)
    requires a >= 0 && w > 0
    ensures a % w <= a
  {
    if a / w >= 1 {
      MulAtLeast(a / w, w);
    }
  }

  /** Two positions less than `w` apart never share a residue modulo `w`. */
  lemma ModDistinct(a: int, b: int, w: int)
    requires w > 0 && a < b < a + w
    ensures a % w != b % w
  {
    var qa, qb := a / w, b / w;
    if qb > qa {
      MulAtLeast(qb - qa, w);
    } else if qa > qb {
      MulAtLeast(qa - qb, w);
    }
  }
}
