/** The parameters of the dictionary code (levels 2-6) and its two-byte
    back-reference tokens (`src/archive.c`, lines 223-225 and 264-288).
    `ob` is the level's `offset_bits`; the guard of line 217 only lets
    values up to 8 reach the decoder. */
module Tokens {
  import opened Bytes

  function RunLengthBits(ob: nat): nat
    requires ob <= 8
  {
    8 - ob
  }

  function MaxRunLength(ob: nat): nat
    requires ob <= 8
  {
    Pow2(RunLengthBits(ob)) + 2
  }

  /** The largest window index; offsets and the write cursor wrap past it. */
  function MaxOffset(ob: nat): nat
  {
    Pow2(ob + 8) - 1
  }

  /** One cell per index 0..MaxOffset. */
  function WindowSize(ob: nat): (n: nat)
    ensures n == MaxOffset(ob) + 1
  {
    Pow2(ob + 8)
  }

  /** A back-reference: an absolute window index (one less than the token's
      stored value, so -1 is possible) and the number of bytes to copy. */
  datatype Token = Token(offset: int, runLength: nat)

  /** A token whose fields fit its two bytes at this `offset_bits`: the
      offset from -1 below `MaxOffset`, the run length from 2 below
      `MaxRunLength`. */
  predicate TokenInRange(t: Token, ob: nat)
    requires ob <= 8
  {
    && -1 <= t.offset < MaxOffset(ob)
    && 2 <= t.runLength < MaxRunLength(ob)
  }

  /** The meaning of a token: the first byte and the low `ob` bits of the
      second byte form the stored offset value, the high bits of the
      second byte the run length beyond its base of 2.  Both validity
      checks on the run length and on the upper offset bound are therefore
      always passed; only offset -1 or an offset not yet produced can fail. */
  function DecodeToken(b1: byte, b2: byte, ob: nat): (t: Token)
    requires ob <= 8
    ensures TokenInRange(t, ob)
  {
    TokenBounds(b2, ob);
    Token(b1 - 1 + 256 * (b2 % Pow2(ob)), 2 + b2 / Pow2(ob))
  }

  lemma TokenBounds(b2: byte, ob: nat)
    requires ob <= 8
    ensures 256 * Pow2(ob) == Pow2(ob + 8)
    ensures 0 <= b2 / Pow2(ob) < Pow2(8 - ob)
  {
    Pow2Add(8, ob);
    Pow2Add(ob, 8 - ob);
    Pow2Eight();
  }

  lemma Pow2Eight()
    ensures Pow2(8) == 256
  {
    assert Pow2(4) == 16;
  }

  /** The bit-by-bit accumulation of lines 265-288, as the program performs
      it; its result is the arithmetic meaning `DecodeToken`. */
  method ReadToken(b1: byte, b2: byte, ob: nat) returns (offset: int, runLength: nat)
    requires ob <= 8
    ensures Token(offset, runLength) == DecodeToken(b1, b2, ob)
  {
    var partial := ReadFirstByte(b1);
    offset, runLength := ReadSecondByte(partial, b2, ob);
  }

  /** Lines 265-272: starting from -1, each set bit `i` of the first token
      byte adds 2^i, so the offset so far is the byte's value less one. */
  method ReadFirstByte(b1: byte) returns (offset: int)
    ensures offset == b1 - 1
  {
    offset := -1;
    var count: nat := 0;
    var i: nat := 0;
    while i < 8
      invariant i <= 8 && count == i
      invariant offset == b1 % Pow2(i) - 1
    {
      LowBitsStep(b1, i);
      if Bit(b1, i) == 1 {
        offset := offset + Pow2(count);
      }
      count := count + 1;
      i := i + 1;
    }
    Pow2Eight();
    ModOfSmall(b1, 8);
  }

  /** Lines 273-288: the low `ob` bits of the second token byte continue
      the offset at weight 2^8, the counter restarts at bit `ob`, and the
      remaining bits add to the run length from its base of 2. */
  method ReadSecondByte(partial: int, b2: byte, ob: nat) returns (offset: int, runLength: nat)
    requires ob <= 8
    ensures offset == partial + 256 * (b2 % Pow2(ob))
    ensures runLength == 2 + b2 / Pow2(ob)
  {
    offset := partial;
    var count: nat := 8;
    runLength := 2;
    var i: nat := 0;
    while i < 8
      invariant i <= 8
      invariant count == if i <= ob then 8 + i else i - ob
      invariant offset == OffsetSoFar(partial, b2, ob, i)
      invariant runLength == RunSoFar(b2, ob, i)
    {
      if i == ob {
        count := 0;
      }
      SecondByteStep(partial, b2, ob, i);
      if Bit(b2, i) == 1 {
        if i >= ob {
          runLength := runLength + Pow2(count);
        } else {
          offset := offset + Pow2(count);
        }
      }
      count := count + 1;
      i := i + 1;
    }
    TokenBounds(b2, ob);
    var hi: nat := b2 / Pow2(ob);
    if ob < 8 {
      ModOfSmall(hi, 8 - ob);
    }
  }

  /** The offset once bits 0..i-1 of the second token byte are added. */
  function OffsetSoFar(partial: int, b2: byte, ob: nat, i: nat): int
  {
    partial + 256 * (b2 % Pow2(if i <= ob then i else ob))
  }

  /** The run length once bits 0..i-1 of the second token byte are added. */
  function RunSoFar(b2: byte, ob: nat, i: nat): nat
  {
    2 + (if i <= ob then 0 else (b2 / Pow2(ob)) % Pow2(i - ob))
  }

  /** One iteration of the loop over the second token byte. */
  lemma SecondByteStep(partial: int, b2: byte, ob: nat, i: nat)
    requires ob <= 8
    ensures i < ob ==>
              && OffsetSoFar(partial, b2, ob, i + 1)
                 == OffsetSoFar(partial, b2, ob, i) + (if Bit(b2, i) == 1 then Pow2(8 + i) else 0)
              && RunSoFar(b2, ob, i + 1) == RunSoFar(b2, ob, i)
    ensures ob <= i ==>
              && OffsetSoFar(partial, b2, ob, i + 1) == OffsetSoFar(partial, b2, ob, i)
              && RunSoFar(b2, ob, i + 1)
                 == RunSoFar(b2, ob, i) + (if Bit(b2, i) == 1 then Pow2(i - ob) else 0)
  {
    if i < ob {
      OffsetBitStep(b2, i);
    } else {
      TokenBounds(b2, ob);
      RunBitStep(b2, ob, i, b2 / Pow2(ob));
      if i == ob {
        assert Pow2(0) == 1;
      }
    }
  }

  /** Bit `i` of the second token byte, below `ob`, is worth 2^(8+i) in
      the offset. */
  lemma OffsetBitStep(b2: byte, i: nat)
    ensures 256 * (b2 % Pow2(i + 1))
            == 256 * (b2 % Pow2(i)) + (if Bit(b2, i) == 1 then Pow2(8 + i) else 0)
  {
    LowBitsStep(b2, i);
    Pow2Add(8, i);
    Pow2Eight();
  }

  /** Bit `i` of the second token byte, from `ob` on, is worth 2^(i-ob)
      in the run length. */
  lemma RunBitStep(b2: byte, ob: nat, i: nat, x: nat)
    requires ob <= i && x == b2 / Pow2(ob)
    ensures x % Pow2(i + 1 - ob) == x % Pow2(i - ob) + (if Bit(b2, i) == 1 then Pow2(i - ob) else 0)
  {
    var k: nat := i - ob;
    assert i + 1 - ob == k + 1;
    LowBitsStep(x, k);
    assert x % Pow2(k + 1) == x % Pow2(k) + Bit(x, k) * Pow2(k);
    BitOfQuotient(b2, ob, k, x);
    assert ob + k == i;
    assert Bit(x, k) == Bit(b2, i);
    if Bit(b2, i) == 1 {
      assert Bit(x, k) * Pow2(k) == Pow2(k);
    } else {
      assert Bit(x, k) * Pow2(k) == 0;
    }
  }

  /** The two token bytes that store a back-reference. */
  function EncodeToken(t: Token, ob: nat): (bs: (byte, byte))
    requires ob <= 8
    requires TokenInRange(t, ob)
    ensures DecodeToken(bs.0, bs.1, ob) == t
  {
    var v := t.offset + 1;
    TokenBounds(0, ob);
    Pow2Add(ob, 8 - ob);
    Pow2Eight();
    var hi := v / 256;
    PackDigits(hi, t.runLength - 2, Pow2(ob), Pow2(8 - ob));
    var b2: byte := hi + Pow2(ob) * (t.runLength - 2);
    (v % 256, b2)
  }

  /** A two-digit number in the mixed radix (p, q). */
  lemma PackDigits(lo: nat, hi: nat, p: nat, q: nat)
    requires lo < p && hi < q
    ensures lo + p * hi < p * q
    ensures (lo + p * hi) % p == lo && (lo + p * hi) / p == hi
  {
    assert p * hi <= p * (q - 1);
    DivMod(lo + p * hi, p, hi, lo);
  }

  /** Every pair of token bytes is the encoding of the token it decodes to:
      with `EncodeToken` the token code is a bijection. */
  lemma TokenBijective(b1: byte, b2: byte, ob: nat)
    requires ob <= 8
    ensures EncodeToken(DecodeToken(b1, b2, ob), ob) == (b1, b2)
  {
    var p := Pow2(ob);
    var lo, hi := b2 % p, b2 / p;
    var t := DecodeToken(b1, b2, ob);
    assert t == Token(b1 - 1 + 256 * lo, 2 + hi);
    var v := t.offset + 1;
    DivMod(v, 256, lo, b1);
    Euclid(b2, p);
  }
}
