/** Executing the items of a dictionary-coded payload (`src/archive.c`,
    lines 227-338): literals and copied bytes go both to the output and to
    a circular window, and a back-reference reads the window at an absolute
    index that advances, and wraps, with every byte copied.

    The program allocates a window of `max_offset` bytes but writes index
    `max_offset` (lines 235 and 255-259); the model's window has
    `max_offset + 1` cells (see `WindowFinding`). */
module Window {
  import opened Bytes
  import opened Tokens
  import opened Frames
  import opened Diagnostics

  /** Bytes produced so far (`uncompressed_data` up to
      `uncompressed_pointer`), the window and its write cursor
      (`sliding_offset`). */
  datatype Decoder = Decoder(out: seq<byte>, window: seq<byte>, cursor: nat)

  predicate Fits(d: Decoder, ob: nat)
  {
    |d.window| == WindowSize(ob) && d.cursor < WindowSize(ob)
  }

  /** The window invariant: the cursor is the number of bytes produced
      modulo the window size, and each of the last `WindowSize(ob)` bytes
      produced sits in the window at its position modulo the window size. */
  predicate Cached(d: Decoder, ob: nat)
  {
    && Fits(d, ob)
    && d.cursor == |d.out| % WindowSize(ob)
    && forall k | 0 <= k < |d.out| && |d.out| - WindowSize(ob) <= k ::
         d.window[k % WindowSize(ob)] == d.out[k]
  }

  /** Nothing produced, cursor at 0.  The program's window starts out
      uninitialised; by the invariant no cell is read before it is written,
      so the initial contents are immaterial. */
  function Start(ob: nat): (d: Decoder)
    ensures Cached(d, ob) && d.out == []
  {
    Decoder([], seq(WindowSize(ob), _ => 0), 0)
  }

  /** One byte produced (lines 250-260 for a literal, 314-324 for a copied
      byte): store it at the cursor, advance the cursor and wrap it to 0
      past `MaxOffset`, and append it to the output. */
  function Put(d: Decoder, b: byte, ob: nat): (e: Decoder)
    requires Fits(d, ob)
    ensures Fits(e, ob) && e.out == d.out + [b]
  {
    Decoder(d.out + [b], d.window[d.cursor := b],
            if d.cursor < MaxOffset(ob) then d.cursor + 1 else 0)
  }

  /** Producing a byte keeps the window invariant. */
  lemma PutKeepsCached(d: Decoder, b: byte, ob: nat)
    requires Cached(d, ob)
    ensures Cached(Put(d, b, ob), ob)
  {
    var w := WindowSize(ob);
    var e := Put(d, b, ob);
    var n := |d.out|;
    ModSucc(n, w);
    forall k | 0 <= k < |e.out| && |e.out| - w <= k
      ensures e.window[k % w] == e.out[k]
    {
      if k < n {
        ModDistinct(k, n, w);
      }
    }
  }

  /** The outcome of copying a run: the decoder afterwards, and whether
      every byte was copied. */
  datatype Copied = Copied(dec: Decoder, complete: bool)

  /** The copy loop of lines 303-332: before each byte the offset is checked
      against `MaxOffset` and against the bytes produced; the byte at the
      offset is produced again, and the offset advances, wrapping to 0 past
      `MaxOffset`. */
  function CopyRun(d: Decoder, offset: nat, n: nat, ob: nat): (c: Copied)
    requires Fits(d, ob)
    ensures Fits(c.dec, ob)
    ensures d.out <= c.dec.out && |c.dec.out| <= |d.out| + n
    ensures c.complete ==> |c.dec.out| == |d.out| + n
    decreases n
  {
    if n == 0 then Copied(d, true)
    else if offset > MaxOffset(ob) || offset >= |d.out| then Copied(d, false)
    else
      var e := Put(d, d.window[offset], ob);
      var c := CopyRun(e, if offset < MaxOffset(ob) then offset + 1 else 0, n - 1, ob);
      assert d.out <= e.out <= c.dec.out;
      c
  }

  /** Why decoding of an entry's payload ended. */
  datatype Halt =
    | Finished                                           // every item executed
    | Rejected(diagnostic: Diagnostic, consumed: nat)    // lines 290-309: stopped at a token

  datatype Run = Run(dec: Decoder, halt: Halt)

  /** The items executed in order (lines 244-333); a rejected token stops
      decoding, keeping the bytes produced so far. */
  function Execute(items: seq<Item>, ob: nat, d: Decoder): (r: Run)
    requires ob <= 8 && Fits(d, ob)
    ensures Fits(r.dec, ob) && d.out <= r.dec.out
    decreases |items|
  {
    if |items| == 0 then Run(d, Finished)
    else
      match items[0]
      case Literal(b, _) => Execute(items[1..], ob, Put(d, b, ob))
      case Reference(t, end) =>
        if t.offset < 0 then Run(d, Rejected(InvalidOffset, end))
        else if t.runLength > MaxRunLength(ob) then Run(d, Rejected(InvalidRunLength, end))
        else
          var c := CopyRun(d, t.offset, t.runLength, ob);
          if !c.complete then Run(c.dec, Rejected(InvalidOffset, end))
          else Execute(items[1..], ob, c.dec)
  }

  // ---------------------------------------------------------------------
  // Reference semantics: the same items expanded on the output alone, a
  // back-reference copying from a fixed distance behind the end of the
  // output, as an LZ77 decoder does.

  /** How far behind the end of `len` produced bytes the window index
      `offset` points: the most recent produced byte stored at that index. */
  function Distance(len: nat, offset: nat, w: nat): (dist: nat)
    requires 0 < w && offset < w && offset < len
    ensures 1 <= dist <= w && dist <= len
    ensures offset == (len - dist) % w
  {
    var m := len - offset - 1;
    DivMod(offset + (m / w) * w, w, m / w, offset);
    m % w + 1
  }

  /** `n` bytes appended one at a time, each a copy of the byte `dist`
      positions before it; the copy may overlap the bytes it produces. */
  function CopyBack(out: seq<byte>, dist: nat, n: nat): (r: seq<byte>)
    requires 1 <= dist <= |out|
    ensures |r| == |out| + n && r[..|out|] == out
    ensures forall k | |out| <= k < |r| :: r[k] == r[k - dist]
    decreases n
  {
    if n == 0 then out
    else
      var r := CopyBack(out + [out[|out| - dist]], dist, n - 1);
      assert r[..|out| + 1][..|out|] == r[..|out|];
      r
  }

  datatype Replayed = Replayed(out: seq<byte>, halt: Halt)

  /** The reference expansion of a sequence of items. */
  function Replay(items: seq<Item>, ob: nat, out: seq<byte>): (r: Replayed)
    requires ob <= 8
    ensures out <= r.out
    decreases |items|
  {
    if |items| == 0 then Replayed(out, Finished)
    else
      match items[0]
      case Literal(b, _) => Replay(items[1..], ob, out + [b])
      case Reference(t, end) =>
        if t.offset < 0 then Replayed(out, Rejected(InvalidOffset, end))
        else if t.runLength > MaxRunLength(ob) then Replayed(out, Rejected(InvalidRunLength, end))
        else if t.offset > MaxOffset(ob) || t.offset >= |out| then Replayed(out, Rejected(InvalidOffset, end))
        else
          var r := Replay(items[1..], ob,
                          CopyBack(out, Distance(|out|, t.offset, WindowSize(ob)), t.runLength));
          assert out <= CopyBack(out, Distance(|out|, t.offset, WindowSize(ob)), t.runLength) <= r.out;
          r
  }

  /** With the window invariant, a run copied through the window is the
      run copied from `dist` bytes back, and the invariant still holds. */
  lemma {:induction false} CopyMatches(d: Decoder, offset: nat, n: nat, ob: nat, dist: nat)
    requires Cached(d, ob)
    requires 1 <= dist <= |d.out| && dist <= WindowSize(ob)
    requires offset == (|d.out| - dist) % WindowSize(ob)
    ensures CopyRun(d, offset, n, ob).complete
    ensures CopyRun(d, offset, n, ob).dec.out == CopyBack(d.out, dist, n)
    ensures Cached(CopyRun(d, offset, n, ob).dec, ob)
    decreases n
  {
    if n > 0 {
      var next := CopyStep(d, offset, ob, dist);
      var e := Put(d, d.window[offset], ob);
      CopyMatches(e, next, n - 1, ob, dist);
      assert CopyRun(d, offset, n, ob) == CopyRun(e, next, n - 1, ob);
      assert CopyBack(d.out, dist, n) == CopyBack(e.out, dist, n - 1);
    }
  }

  /** One byte of a copy under the window invariant: the offset passes both
      checks, the window cell holds the byte `dist` back, and the advanced
      offset stands in the same relation to the longer output. */
  lemma CopyStep(d: Decoder, offset: nat, ob: nat, dist: nat) returns (next: nat)
    requires Cached(d, ob)
    requires 1 <= dist <= |d.out| && dist <= WindowSize(ob)
    requires offset == (|d.out| - dist) % WindowSize(ob)
    ensures offset <= MaxOffset(ob) && offset < |d.out|
    ensures d.window[offset] == d.out[|d.out| - dist]
    ensures next == (if offset < MaxOffset(ob) then offset + 1 else 0)
    ensures Cached(Put(d, d.window[offset], ob), ob)
    ensures next == (|d.out| + 1 - dist) % WindowSize(ob)
  {
    var w := WindowSize(ob);
    var k := |d.out| - dist;
    ModAtMost(k, w);
    assert d.window[k % w] == d.out[k];
    PutKeepsCached(d, d.window[offset], ob);
    ModSucc(k, w);
    assert |d.out| + 1 - dist == k + 1;
    next := if offset < MaxOffset(ob) then offset + 1 else 0;
  }

  /** A back-reference whose offset is in the window copies its whole run
      if the offset names a byte already produced, and nothing otherwise. */
  lemma CopyAllOrNothing(d: Decoder, offset: nat, n: nat, ob: nat)
    requires Cached(d, ob) && offset <= MaxOffset(ob) && n >= 1
    ensures CopyRun(d, offset, n, ob).complete <==> offset < |d.out|
    ensures CopyRun(d, offset, n, ob).complete ==> |CopyRun(d, offset, n, ob).dec.out| == |d.out| + n
    ensures !CopyRun(d, offset, n, ob).complete ==> CopyRun(d, offset, n, ob).dec == d
  {
    if offset < |d.out| {
      var dist := Distance(|d.out|, offset, WindowSize(ob));
      CopyMatches(d, offset, n, ob, dist);
    }
  }

  /** Until the window has wrapped, a back-reference copies the bytes that
      start at its offset in the output, overlapping what it produces. */
  lemma CopyBeforeWrap(out: seq<byte>, offset: nat, n: nat, ob: nat)
    requires offset < |out| <= WindowSize(ob)
    ensures Distance(|out|, offset, WindowSize(ob)) == |out| - offset
    ensures CopyBack(out, |out| - offset, n)[|out|..] == CopyBack(out, |out| - offset, n)[offset..offset + n]
  {
    var w := WindowSize(ob);
    DivMod(|out| - offset - 1, w, 0, |out| - offset - 1);
    var r := CopyBack(out, |out| - offset, n);
    forall i | 0 <= i < n ensures r[|out|..][i] == r[offset..offset + n][i] {
      assert r[|out| + i] == r[|out| + i - (|out| - offset)];
    }
  }

  /** The window-based decoder computes the reference expansion: same bytes,
      same reason for stopping; and it keeps the window invariant. */
  lemma {:induction false} ExecuteMatchesReplay(items: seq<Item>, ob: nat, d: Decoder)
    requires ob <= 8 && Cached(d, ob)
    requires forall k | 0 <= k < |items| :: InRange(items[k], ob)
    ensures Execute(items, ob, d).dec.out == Replay(items, ob, d.out).out
    ensures Execute(items, ob, d).halt == Replay(items, ob, d.out).halt
    ensures Cached(Execute(items, ob, d).dec, ob)
    decreases |items|
  {
    if |items| > 0 {
      var rest := items[1..];
      assert forall k | 0 <= k < |rest| :: InRange(rest[k], ob) by {
        forall k | 0 <= k < |rest| ensures InRange(rest[k], ob) {
          assert rest[k] == items[k + 1];
        }
      }
      assert InRange(items[0], ob);
      match items[0]
      case Literal(b, _) =>
        PutKeepsCached(d, b, ob);
        ExecuteMatchesReplay(rest, ob, Put(d, b, ob));
      case Reference(t, end) =>
        if t.offset >= 0 && t.runLength <= MaxRunLength(ob) {
          CopyAllOrNothing(d, t.offset, t.runLength, ob);
          if t.offset < |d.out| {
            var dist := Distance(|d.out|, t.offset, WindowSize(ob));
            CopyMatches(d, t.offset, t.runLength, ob, dist);
            ExecuteMatchesReplay(rest, ob, CopyRun(d, t.offset, t.runLength, ob).dec);
          }
        }
    }
  }

  /** A rejected token keeps exactly the bytes produced by the items before
      it, which all executed normally, and reports where it ended. */
  lemma {:induction false} RejectionKeepsPrefix(items: seq<Item>, ob: nat, out: seq<byte>)
    requires ob <= 8
    requires Replay(items, ob, out).halt.Rejected?
    ensures exists j | 0 <= j < |items| ::
              && items[j].Reference?
              && items[j].end == Replay(items, ob, out).halt.consumed
              && Replay(items[..j], ob, out) == Replayed(Replay(items, ob, out).out, Finished)
    decreases |items|
  {
    var r := Replay(items, ob, out);
    var rest := items[1..];
    match items[0]
    case Literal(b, _) =>
      RejectionKeepsPrefix(rest, ob, out + [b]);
      var j :| 0 <= j < |rest| && rest[j].Reference? && rest[j].end == r.halt.consumed
               && Replay(rest[..j], ob, out + [b]) == Replayed(r.out, Finished);
      assert items[..j + 1][1..] == rest[..j];
      assert items[j + 1] == rest[j];
    case Reference(t, end) =>
      if t.offset < 0 || t.runLength > MaxRunLength(ob) || t.offset > MaxOffset(ob) || t.offset >= |out| {
        assert Replay(items[..0], ob, out) == Replayed(out, Finished);
      } else {
        var out' := CopyBack(out, Distance(|out|, t.offset, WindowSize(ob)), t.runLength);
        RejectionKeepsPrefix(rest, ob, out');
        var j :| 0 <= j < |rest| && rest[j].Reference? && rest[j].end == r.halt.consumed
                 && Replay(rest[..j], ob, out') == Replayed(r.out, Finished);
        assert items[..j + 1][1..] == rest[..j];
        assert items[j + 1] == rest[j];
      }
  }

  /** What decoding a payload comes to (lines 228-345): the bytes produced
      and why it stopped, or a read past the payload. */
  datatype Inflated = Inflated(out: seq<byte>, halt: Halt)

  /** The program's decoder: framing executed through the window. */
  function Inflate(payload: seq<byte>, ob: nat): (r: Decoding<Inflated>)
    requires ob <= 8
    ensures r.Undefined? ==> r.fault == Truncated
  {
    var f := Frame(payload, ob);
    var run := Execute(f.items, ob, Start(ob));
    if run.halt.Finished? && f.truncated then Undefined(Truncated)
    else Decoded(Inflated(run.dec.out, run.halt))
  }

  /** The reference decoder: the same framing, expanded without a window. */
  function ReplayPayload(payload: seq<byte>, ob: nat): (r: Decoding<Inflated>)
    requires ob <= 8
  {
    var f := Frame(payload, ob);
    var rep := Replay(f.items, ob, []);
    if rep.halt.Finished? && f.truncated then Undefined(Truncated)
    else Decoded(Inflated(rep.out, rep.halt))
  }

  /** The program's window-based decoder and the reference decoder agree on
      every payload and every supported level. */
  lemma InflateMatchesReplay(payload: seq<byte>, ob: nat)
    requires ob <= 8
    ensures Inflate(payload, ob) == ReplayPayload(payload, ob)
  {
    var f := Frame(payload, ob);
    ExecuteMatchesReplay(f.items, ob, Start(ob));
  }

  /** A finished decoding executed an untruncated framing, whose last item
      ends exactly at the end of the payload; a rejected one stopped inside
      the payload. */
  lemma InflateConsumption(payload: seq<byte>, ob: nat)
    requires ob <= 8 && Inflate(payload, ob).Decoded?
    ensures Inflate(payload, ob).value.halt.Finished? ==>
              && !Frame(payload, ob).truncated
              && (|payload| > 0 ==>
                    && |Frame(payload, ob).items| > 0
                    && Frame(payload, ob).items[|Frame(payload, ob).items| - 1].end == |payload|)
    ensures Inflate(payload, ob).value.halt.Rejected? ==>
              0 < Inflate(payload, ob).value.halt.consumed <= |payload|
  {
    var f := Frame(payload, ob);
    var r := Inflate(payload, ob);
    ExecuteMatchesReplay(f.items, ob, Start(ob));
    if r.value.halt.Rejected? {
      RejectionKeepsPrefix(f.items, ob, []);
    }
  }

  // ---------------------------------------------------------------------
  // The window the program allocates.

  /** Line 235: `malloc(max_offset)`. */
  function AllocatedWindow(ob: nat): nat
  {
    MaxOffset(ob)
  }

  /** As written, once `MaxOffset(ob)` bytes have been produced the cursor
      stands at index `MaxOffset(ob)`, one past the last cell the program
      allocated, and the next byte produced is stored there (lines 255 and
      315).  With the `WindowSize(ob)` cells of the model the same cursor is
      always inside the window. */
  lemma WindowFinding(d: Decoder, ob: nat)
    requires Cached(d, ob) && |d.out| == MaxOffset(ob)
    ensures d.cursor == AllocatedWindow(ob)
    ensures d.cursor < WindowSize(ob)
  {
  }

  /** A reachable instance: a level-6 payload (`offset_bits` 0, so
      `max_offset` 255) of 256 literals.  Once its first 255 literals have
      been executed the cursor stands at index 255, outside the 255 cells
      the program allocates, and the next item is a literal that is stored
      there. */
  lemma WindowOverflowExample()
    ensures var items := Frame(Encode(seq(256, _ => Lit(0)), 0), 0).items;
            && |items| == 256 && items[255].Literal?
            && Execute(items[..255], 0, Start(0)).dec.cursor == AllocatedWindow(0) == 255
  {
    var syms: seq<Symbol> := seq(256, _ => Lit(0));
    FrameEncode(syms, 0);
    var items := Frame(Encode(syms, 0), 0).items;
    assert |Symbols(items)| == 256;
    assert forall k | 0 <= k < 256 :: SymbolOf(items[k]) == Lit(0) by {
      forall k | 0 <= k < 256 ensures SymbolOf(items[k]) == Lit(0) {
        assert Symbols(items)[k] == syms[k];
      }
    }
    var first := items[..255];
    assert forall k | 0 <= k < |first| :: first[k].Literal? by {
      forall k | 0 <= k < |first| ensures first[k].Literal? {
        assert first[k] == items[k] && SymbolOf(items[k]) == Lit(0);
      }
    }
    ExecuteLiterals(first, 0, Start(0));
    ExecuteMatchesReplay(first, 0, Start(0));
    Pow2Eight();
    WindowFinding(Execute(first, 0, Start(0)).dec, 0);
    assert SymbolOf(items[255]) == Lit(0);
  }

  /** Literals only: every item produces exactly one byte. */
  lemma {:induction false} ExecuteLiterals(items: seq<Item>, ob: nat, d: Decoder)
    requires ob <= 8 && Fits(d, ob)
    requires forall k | 0 <= k < |items| :: items[k].Literal?
    ensures Execute(items, ob, d).halt.Finished?
    ensures |Execute(items, ob, d).dec.out| == |d.out| + |items|
    decreases |items|
  {
    if |items| > 0 {
      var rest := items[1..];
      assert forall k | 0 <= k < |rest| :: rest[k].Literal? by {
        forall k | 0 <= k < |rest| ensures rest[k].Literal? {
          assert rest[k] == items[k + 1];
        }
      }
      ExecuteLiterals(rest, ob, Put(d, items[0].value, ob));
    }
  }
}
