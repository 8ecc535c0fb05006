/** The framing of a dictionary-coded payload (levels 2-6): flag bytes, each
    followed by up to eight items chosen by its bits from bit 0 upwards, a
    set bit for one literal byte and a clear bit for a two-byte token
    (`src/archive.c`, lines 238-288 and 334-336).  What an item reads never
    depends on the bytes decoded so far, so the framing is computed on its
    own here and executed separately. */
module Frames {
  import opened Bytes
  import opened Tokens

  /** One item, with the payload position just after it (the program's
      `compressed_pointer` once the item has been read). */
  datatype Item =
    | Literal(value: byte, end: nat)
    | Reference(token: Token, end: nat)

  /** The items of a payload, and whether the last one would have been read
      past the end of the payload. */
  datatype Framing = Framing(items: seq<Item>, truncated: bool)

  predicate InRange(item: Item, ob: nat)
    requires ob <= 8
  {
    item.Reference? ==> TokenInRange(item.token, ob)
  }

  /** The framing of the payload from position `cp` on: every item lies
      past `cp` and inside the payload, items come in payload order, tokens
      are in range, and unless it is truncated the framing consumes the
      payload exactly. */
  predicate WellFramed(f: Framing, size: nat, ob: nat, cp: nat)
    requires ob <= 8
  {
    && (forall k | 0 <= k < |f.items| :: cp < f.items[k].end <= size && InRange(f.items[k], ob))
    && (forall k | 0 <= k < |f.items| - 1 :: f.items[k].end < f.items[k + 1].end)
    && (!f.truncated ==> if |f.items| == 0 then cp == size else f.items[|f.items| - 1].end == size)
  }

  function Cons(item: Item, f: Framing): Framing
  {
    Framing([item] + f.items, f.truncated)
  }

  /** The outer loop of lines 238-242: read a flag byte while payload is left. */
  function Blocks(data: seq<byte>, ob: nat, cp: nat): (f: Framing)
    requires ob <= 8 && cp <= |data|
    ensures WellFramed(f, |data|, ob, cp)
    decreases |data| - cp, 0
  {
    if cp == |data| then Framing([], false)
    else Items(data, ob, data[cp], 0, cp + 1)
  }

  /** The item selected by bit `bit` of the flag (lines 243-288).  A literal
      with no byte left, or a token with fewer than two, is a read past the
      payload: the framing ends there, truncated.  In particular a flag byte
      that is the payload's last byte still has its bit 0 examined. */
  function Items(data: seq<byte>, ob: nat, flag: byte, bit: nat, cp: nat): (f: Framing)
    requires ob <= 8 && bit < 8 && 0 < cp <= |data|
    ensures WellFramed(f, |data|, ob, cp)
    ensures !f.truncated ==> |f.items| > 0
    decreases |data| - cp, 0
  {
    if Bit(flag, bit) == 1 then
      if cp + 1 > |data| then Framing([], true)
      else
        var f := Cons(Literal(data[cp], cp + 1), Next(data, ob, flag, bit, cp + 1));
        assert f.items[1..] == Next(data, ob, flag, bit, cp + 1).items;
        f
    else if cp + 2 > |data| then Framing([], true)
    else
      var f := Cons(Reference(DecodeToken(data[cp], data[cp + 1], ob), cp + 2),
                    Next(data, ob, flag, bit, cp + 2));
      assert f.items[1..] == Next(data, ob, flag, bit, cp + 2).items;
      f
  }

  /** After an item: stop once the payload is used up (line 334), otherwise
      go on with the next bit or, after bit 7, the next flag byte. */
  function Next(data: seq<byte>, ob: nat, flag: byte, bit: nat, cp: nat): (f: Framing)
    requires ob <= 8 && bit < 8 && 0 < cp <= |data|
    ensures WellFramed(f, |data|, ob, cp)
    decreases |data| - cp, 1
  {
    if cp == |data| then Framing([], false)
    else if bit + 1 < 8 then Items(data, ob, flag, bit + 1, cp)
    else Blocks(data, ob, cp)
  }

  /** The framing of a whole payload. */
  function Frame(data: seq<byte>, ob: nat): (f: Framing)
    requires ob <= 8
    ensures WellFramed(f, |data|, ob, 0)
  {
    Blocks(data, ob, 0)
  }

  /** Framing reads a payload front to back, so more bytes after it never
      change the items already read: the items of a payload are a prefix of
      the items of any extension.  A truncated framing drops only the item
      that would run past the end: given two more bytes, that item is read
      and ends beyond the original payload. */
  lemma FrameExtend(data: seq<byte>, more: seq<byte>, ob: nat)
    requires ob <= 8
    ensures Frame(data, ob).items <= Frame(data + more, ob).items
    ensures Frame(data, ob).truncated && |more| >= 2 ==>
              var n := |Frame(data, ob).items|;
              n < |Frame(data + more, ob).items| && Frame(data + more, ob).items[n].end > |data|
  {
    BlocksExtend(data, more, ob, 0);
  }

  /** What the extension lemmas promise of two framings of the same region. */
  predicate Extends(f: Framing, g: Framing, size: nat, more: seq<byte>)
  {
    && f.items <= g.items
    && (f.truncated && |more| >= 2 ==> |f.items| < |g.items| && g.items[|f.items|].end > size)
  }

  lemma ConsExtends(item: Item, f: Framing, g: Framing, size: nat, more: seq<byte>)
    requires Extends(f, g, size, more)
    ensures Extends(Cons(item, f), Cons(item, g), size, more)
  {
    if |f.items| < |g.items| {
      assert Cons(item, g).items[1 + |f.items|] == g.items[|f.items|];
    }
  }

  lemma {:induction false} BlocksExtend(data: seq<byte>, more: seq<byte>, ob: nat, cp: nat)
    requires ob <= 8 && cp <= |data|
    ensures Extends(Blocks(data, ob, cp), Blocks(data + more, ob, cp), |data|, more)
    decreases |data| - cp, 0
  {
    if cp < |data| {
      assert (data + more)[cp] == data[cp];
      ItemsExtend(data, more, ob, data[cp], 0, cp + 1);
    }
  }

  lemma {:induction false} ItemsExtend(data: seq<byte>, more: seq<byte>, ob: nat, flag: byte, bit: nat, cp: nat)
    requires ob <= 8 && bit < 8 && 0 < cp <= |data|
    ensures Extends(Items(data, ob, flag, bit, cp), Items(data + more, ob, flag, bit, cp), |data|, more)
    decreases |data| - cp, 0
  {
    var longer := data + more;
    if Bit(flag, bit) == 1 {
      if cp + 1 <= |data| {
        assert longer[cp] == data[cp];
        NextExtend(data, more, ob, flag, bit, cp + 1);
        ConsExtends(Literal(data[cp], cp + 1), Next(data, ob, flag, bit, cp + 1),
                    Next(longer, ob, flag, bit, cp + 1), |data|, more);
      }
    } else if cp + 2 <= |data| {
      assert longer[cp] == data[cp] && longer[cp + 1] == data[cp + 1];
      NextExtend(data, more, ob, flag, bit, cp + 2);
      ConsExtends(Reference(DecodeToken(data[cp], data[cp + 1], ob), cp + 2),
                  Next(data, ob, flag, bit, cp + 2), Next(longer, ob, flag, bit, cp + 2), |data|, more);
    }
  }

  lemma {:induction false} NextExtend(data: seq<byte>, more: seq<byte>, ob: nat, flag: byte, bit: nat, cp: nat)
    requires ob <= 8 && bit < 8 && 0 < cp <= |data|
    ensures Extends(Next(data, ob, flag, bit, cp), Next(data + more, ob, flag, bit, cp), |data|, more)
    decreases |data| - cp, 1
  {
    if cp < |data| {
      if bit + 1 < 8 {
        ItemsExtend(data, more, ob, flag, bit + 1, cp);
      } else {
        BlocksExtend(data, more, ob, cp);
      }
    }
  }

  // ---------------------------------------------------------------------
  // The encoder the framing inverts: symbols grouped by eight, each group
  // preceded by a flag byte whose bit `i` is set exactly when the group's
  // item `i` is a literal.

  /** An item without its payload position. */
  datatype Symbol = Lit(value: byte) | Ref(token: Token)

  function SymbolOf(item: Item): Symbol
  {
    match item
    case Literal(b, _) => Lit(b)
    case Reference(t, _) => Ref(t)
  }

  function Symbols(items: seq<Item>): seq<Symbol>
  {
    seq(|items|, k requires 0 <= k < |items| => SymbolOf(items[k]))
  }

  /** Symbols a payload can carry: tokens whose fields fit the two bytes. */
  predicate Encodable(syms: seq<Symbol>, ob: nat)
    requires ob <= 8
  {
    forall k | 0 <= k < |syms| :: syms[k].Ref? ==> TokenInRange(syms[k].token, ob)
  }

  function Kind(s: Symbol): nat
  {
    if s.Lit? then 1 else 0
  }

  /** The flag byte of a group: bit `i` is the kind of item `i`. */
  function FlagOf(group: seq<Symbol>): (flag: nat)
    ensures flag < Pow2(|group|)
    ensures forall i | 0 <= i < |group| :: Bit(flag, i) == Kind(group[i])
    decreases |group|
  {
    if |group| == 0 then 0
    else
      var rest := FlagOf(group[1..]);
      var flag := Kind(group[0]) + 2 * rest;
      forall i | 0 <= i < |group|
        ensures Bit(flag, i) == Kind(group[i])
      {
        if i > 0 {
          BitOfDouble(Kind(group[0]), rest, i - 1);
          assert group[1..][i - 1] == group[i];
        }
      }
      flag
  }

  /** Bit `i + 1` of `k + 2y` is bit `i` of `y`, and bit 0 is `k`. */
  lemma BitOfDouble(k: nat, y: nat, i: nat)
    requires k < 2
    ensures Bit(k + 2 * y, i + 1) == Bit(y, i)
    ensures Bit(k + 2 * y, 0) == k
  {
    DivMod(k + 2 * y, 2, y, k);
    BitOfQuotient(k + 2 * y, 1, i, y);
  }

  lemma FlagFits(group: seq<Symbol>)
    requires |group| <= 8
    ensures FlagOf(group) < 256
  {
    Pow2Eight();
    Pow2Monotone(|group|, 8);
  }

  lemma {:induction false} Pow2Monotone(m: nat, n: nat)
    requires m <= n
    ensures Pow2(m) <= Pow2(n)
    decreases n
  {
    if m < n {
      Pow2Monotone(m, n - 1);
    }
  }

  function SymbolBytes(s: Symbol, ob: nat): (bs: seq<byte>)
    requires ob <= 8 && Encodable([s], ob)
    ensures |bs| == 2 - Kind(s)
  {
    match s
    case Lit(b) => [b]
    case Ref(t) =>
      assert [s][0] == s;
      var (b1, b2) := EncodeToken(t, ob);
      [b1, b2]
  }

  /** The items of a group after its flag byte. */
  function Body(group: seq<Symbol>, ob: nat): (bs: seq<byte>)
    requires ob <= 8 && Encodable(group, ob)
    decreases |group|
  {
    if |group| == 0 then []
    else
      assert [group[0]][0] == group[0];
      SymbolBytes(group[0], ob) + Body(group[1..], ob)
  }

  /** A payload carrying the given symbols: groups of eight, the last one
      possibly shorter, each behind its flag byte. */
  function Encode(syms: seq<Symbol>, ob: nat): (data: seq<byte>)
    requires ob <= 8 && Encodable(syms, ob)
    ensures |data| == 0 <==> |syms| == 0
    decreases |syms|
  {
    if |syms| == 0 then []
    else
      var n := if |syms| < 8 then |syms| else 8;
      FlagFits(syms[..n]);
      [FlagOf(syms[..n]) as byte] + Body(syms[..n], ob) + Encode(syms[n..], ob)
  }

  /** The framing inverts the encoder: an encoded payload is read back as
      exactly its symbols, a set flag bit giving a literal and a clear one
      a token, and it is used up without a read past its end. */
  lemma FrameEncode(syms: seq<Symbol>, ob: nat)
    requires ob <= 8 && Encodable(syms, ob)
    ensures !Frame(Encode(syms, ob), ob).truncated
    ensures Symbols(Frame(Encode(syms, ob), ob).items) == syms
  {
    BlocksEncode(Encode(syms, ob), ob, 0, syms);
  }

  lemma {:induction false} BlocksEncode(data: seq<byte>, ob: nat, cp: nat, syms: seq<Symbol>)
    requires ob <= 8 && cp <= |data| && Encodable(syms, ob)
    requires data[cp..] == Encode(syms, ob)
    ensures !Blocks(data, ob, cp).truncated
    ensures Symbols(Blocks(data, ob, cp).items) == syms
    decreases |data| - cp, 0
  {
    if |syms| > 0 {
      var n := if |syms| < 8 then |syms| else 8;
      var g, tail := syms[..n], syms[n..];
      EncodableParts(syms, n);
      FlagFits(g);
      EncodeGroup(syms, ob);
      Split(data, cp, [FlagOf(g) as byte], Body(g, ob) + Encode(tail, ob));
      ItemsEncode(data, ob, data[cp], 0, cp + 1, g, tail);
      assert g[0..] + tail == syms;
    }
  }

  /** A non-empty symbol sequence is encoded as its first group behind
      that group's flag byte, then the rest. */
  lemma EncodeGroup(syms: seq<Symbol>, ob: nat)
    requires ob <= 8 && Encodable(syms, ob) && |syms| > 0
    ensures var n := if |syms| < 8 then |syms| else 8;
            && FlagOf(syms[..n]) < 256
            && Encodable(syms[..n], ob) && Encodable(syms[n..], ob)
            && Encode(syms, ob) == [FlagOf(syms[..n]) as byte] + (Body(syms[..n], ob) + Encode(syms[n..], ob))
  {
    var n := if |syms| < 8 then |syms| else 8;
    EncodableParts(syms, n);
    FlagFits(syms[..n]);
  }

  /** A payload that continues with `x + y` from `cp`. */
  lemma Split(data: seq<byte>, cp: nat, x: seq<byte>, y: seq<byte>)
    requires cp <= |data| && data[cp..] == x + y
    ensures cp + |x| <= |data| && data[cp + |x|..] == y
    ensures forall i | 0 <= i < |x| :: data[cp + i] == x[i]
  {
    assert data[cp..][|x|..] == y;
    forall i | 0 <= i < |x| ensures data[cp + i] == x[i] {
      assert data[cp..][i] == x[i];
    }
  }

  lemma EncodableParts(syms: seq<Symbol>, n: nat)
    requires n <= |syms|
    ensures forall ob | ob <= 8 && Encodable(syms, ob) ::
              Encodable(syms[..n], ob) && Encodable(syms[n..], ob)
  {
    forall ob | ob <= 8 && Encodable(syms, ob)
      ensures Encodable(syms[..n], ob) && Encodable(syms[n..], ob)
    {
      forall k | 0 <= k < |syms| - n ensures syms[n..][k] == syms[n + k] { }
    }
  }

  /** The body of a group from item `bit` on: that item's bytes, then the rest. */
  lemma BodyStep(g: seq<Symbol>, bit: nat, ob: nat)
    requires ob <= 8 && bit < |g| && Encodable(g, ob)
    ensures Encodable(g[bit..], ob) && Encodable([g[bit]], ob) && Encodable(g[bit + 1..], ob)
    ensures Body(g[bit..], ob) == SymbolBytes(g[bit], ob) + Body(g[bit + 1..], ob)
  {
    EncodableParts(g, bit);
    EncodableParts(g, bit + 1);
    assert g[bit..][0] == g[bit] && g[bit..][1..] == g[bit + 1..];
  }

  lemma SymbolsCons(item: Item, f: Framing)
    ensures Symbols(Cons(item, f).items) == [SymbolOf(item)] + Symbols(f.items)
  {
  }

  /** From item `bit` of a group whose flag is `flag`: the items read are
      the rest of the group, then the symbols of the following groups. */
  lemma {:induction false} ItemsEncode(data: seq<byte>, ob: nat, flag: byte, bit: nat, cp: nat,
                                       g: seq<Symbol>, tail: seq<Symbol>)
    requires ob <= 8 && 0 < cp <= |data|
    requires bit < |g| <= 8 && (|g| < 8 ==> tail == [])
    requires Encodable(g, ob) && Encodable(tail, ob)
    requires forall i | 0 <= i < |g| :: Bit(flag, i) == Kind(g[i])
    requires data[cp..] == Body(g[bit..], ob) + Encode(tail, ob)
    ensures !Items(data, ob, flag, bit, cp).truncated
    ensures Symbols(Items(data, ob, flag, bit, cp).items) == g[bit..] + tail
    decreases |data| - cp, 0
  {
    var s := g[bit];
    assert Encodable(g[bit + 1..], ob) && Encodable([s], ob) by {
      BodyStep(g, bit, ob);
    }
    var sb := SymbolBytes(s, ob);
    var after := Body(g[bit + 1..], ob) + Encode(tail, ob);
    assert cp + |sb| <= |data| && data[cp + |sb|..] == after
           && forall i | 0 <= i < |sb| :: data[cp + i] == sb[i] by {
      BodyStep(g, bit, ob);
      Split(data, cp, sb, after);
    }
    assert !Next(data, ob, flag, bit, cp + |sb|).truncated
           && Symbols(Next(data, ob, flag, bit, cp + |sb|).items) == g[bit + 1..] + tail by {
      NextEncode(data, ob, flag, bit, cp + |sb|, g, tail);
    }
    assert Bit(flag, bit) == Kind(s);
    ItemsAfterFirst(data, ob, flag, bit, cp, g, tail);
  }

  /** The step of `ItemsEncode` once the items after the first are known. */
  lemma ItemsAfterFirst(data: seq<byte>, ob: nat, flag: byte, bit: nat, cp: nat,
                        g: seq<Symbol>, tail: seq<Symbol>)
    requires ob <= 8 && bit < 8 && 0 < cp <= |data| && bit < |g|
    requires Encodable([g[bit]], ob) && Bit(flag, bit) == Kind(g[bit])
    requires cp + |SymbolBytes(g[bit], ob)| <= |data|
    requires forall i | 0 <= i < |SymbolBytes(g[bit], ob)| :: data[cp + i] == SymbolBytes(g[bit], ob)[i]
    requires !Next(data, ob, flag, bit, cp + |SymbolBytes(g[bit], ob)|).truncated
    requires Symbols(Next(data, ob, flag, bit, cp + |SymbolBytes(g[bit], ob)|).items) == g[bit + 1..] + tail
    ensures !Items(data, ob, flag, bit, cp).truncated
    ensures Symbols(Items(data, ob, flag, bit, cp).items) == g[bit..] + tail
  {
    ItemsFirst(data, ob, flag, bit, cp, g[bit]);
    SliceCons(g, bit, tail);
  }

  lemma SliceCons(g: seq<Symbol>, bit: nat, tail: seq<Symbol>)
    requires bit < |g|
    ensures g[bit..] + tail == [g[bit]] + (g[bit + 1..] + tail)
  {
    assert g[bit..] == [g[bit]] + g[bit + 1..];
  }

  /** The first item read from bit `bit` is the symbol the flag bit and the
      bytes at `cp` encode. */
  lemma ItemsFirst(data: seq<byte>, ob: nat, flag: byte, bit: nat, cp: nat, s: Symbol)
    requires ob <= 8 && bit < 8 && 0 < cp <= |data| && Encodable([s], ob)
    requires Bit(flag, bit) == Kind(s)
    requires cp + |SymbolBytes(s, ob)| <= |data|
    requires forall i | 0 <= i < |SymbolBytes(s, ob)| :: data[cp + i] == SymbolBytes(s, ob)[i]
    ensures var next := Next(data, ob, flag, bit, cp + |SymbolBytes(s, ob)|);
            && Items(data, ob, flag, bit, cp).truncated == next.truncated
            && Symbols(Items(data, ob, flag, bit, cp).items) == [s] + Symbols(next.items)
  {
    var sb := SymbolBytes(s, ob);
    var next := Next(data, ob, flag, bit, cp + |sb|);
    match s
    case Lit(b) =>
      assert data[cp] == sb[0];
      assert Items(data, ob, flag, bit, cp) == Cons(Literal(b, cp + 1), next);
      SymbolsCons(Literal(b, cp + 1), next);
    case Ref(t) =>
      assert data[cp] == sb[0] && data[cp + 1] == sb[1];
      assert DecodeToken(data[cp], data[cp + 1], ob) == t;
      assert Items(data, ob, flag, bit, cp) == Cons(Reference(t, cp + 2), next);
      SymbolsCons(Reference(t, cp + 2), next);
  }

  lemma {:induction false} NextEncode(data: seq<byte>, ob: nat, flag: byte, bit: nat, cp: nat,
                                      g: seq<Symbol>, tail: seq<Symbol>)
    requires ob <= 8 && 0 < cp <= |data|
    requires bit < |g| <= 8 && (|g| < 8 ==> tail == [])
    requires Encodable(g, ob) && Encodable(tail, ob)
    requires forall i | 0 <= i < |g| :: Bit(flag, i) == Kind(g[i])
    requires data[cp..] == Body(g[bit + 1..], ob) + Encode(tail, ob)
    ensures !Next(data, ob, flag, bit, cp).truncated
    ensures Symbols(Next(data, ob, flag, bit, cp).items) == g[bit + 1..] + tail
    decreases |data| - cp, 1
  {
    EncodableParts(g, bit + 1);
    if cp == |data| {
      BodyEmpty(g[bit + 1..], ob);
    } else if bit + 1 < |g| {
      ItemsEncode(data, ob, flag, bit + 1, cp, g, tail);
    } else if bit + 1 == 8 {
      assert g[bit + 1..] == [];
      assert data[cp..] == Encode(tail, ob);
      BlocksEncode(data, ob, cp, tail);
    } else {
      assert false;
    }
  }

  lemma BodyEmpty(group: seq<Symbol>, ob: nat)
    requires ob <= 8 && Encodable(group, ob)
    ensures |Body(group, ob)| == 0 <==> |group| == 0
  {
  }
}
