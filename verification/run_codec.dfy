/** Level 1: the byte-run code (`src/archive.c`, lines 156-192).  The payload
    is a sequence of segments, each a flag byte followed by its data: a flag
    of 0-127 announces flag+1 literal bytes, a flag of 128-255 announces one
    byte to be repeated flag-125 times. */
module RunCodec {
  import opened Bytes
  import opened Diagnostics

  /** One decoded segment, independent of its encoding. */
  datatype Segment =
    | Literal(bytes: seq<byte>)
    | Repeat(value: byte, count: nat)

  /** The segments a flag byte can express: 1-128 literals, 3-130 repeats. */
  predicate WellFormed(s: Segment)
  {
    match s
    case Literal(bytes) => 1 <= |bytes| <= 128
    case Repeat(_, count) => 3 <= count <= 130
  }

  predicate AllWellFormed(segs: seq<Segment>)
  {
    forall i | 0 <= i < |segs| :: WellFormed(segs[i])
  }

  /** The bytes a segment stands for. */
  function Expand(s: Segment): seq<byte>
  {
    match s
    case Literal(bytes) => bytes
    case Repeat(value, count) => seq(count, _ => value)
  }

  function ExpandAll(segs: seq<Segment>): seq<byte>
  {
    if |segs| == 0 then [] else Expand(segs[0]) + ExpandAll(segs[1..])
  }

  /** A segment as it is laid out in the payload: flag byte, then data. */
  function Encode(s: Segment): (bs: seq<byte>)
    requires WellFormed(s)
    ensures |bs| >= 2
  {
    match s
    case Literal(bytes) => [|bytes| - 1] + bytes
    case Repeat(value, count) => [count + 125, value]
  }

  function EncodeAll(segs: seq<Segment>): seq<byte>
    requires AllWellFormed(segs)
  {
    if |segs| == 0 then [] else Encode(segs[0]) + EncodeAll(segs[1..])
  }

  function PrependTo(front: seq<byte>, rest: Decoding<seq<byte>>): Decoding<seq<byte>>
  {
    match rest
    case Decoded(out) => Decoded(front + out)
    case Undefined(fault) => rest
  }

  /** The decoding loop of lines 163-184.  A segment whose data runs past
      the end of the payload is a read the program performs out of bounds;
      here it is the `Truncated` fault. */
  function Decode(payload: seq<byte>): (r: Decoding<seq<byte>>)
    ensures r.Undefined? ==> r.fault == Truncated
    decreases |payload|
  {
    if |payload| == 0 then Decoded([])
    else
      var flag := payload[0];
      if flag > 127 then
        if |payload| < 2 then Undefined(Truncated)
        else PrependTo(seq(flag - 125, _ => payload[1]), Decode(payload[2..]))
      else if |payload| < flag + 2 then Undefined(Truncated)
      else PrependTo(payload[1..flag + 2], Decode(payload[flag + 2..]))
  }

  /** Decoding a stream built from well-formed segments yields the bytes
      those segments stand for, in order. */
  lemma {:induction false} DecodeEncoded(segs: seq<Segment>)
    requires AllWellFormed(segs)
    ensures Decode(EncodeAll(segs)) == Decoded(ExpandAll(segs))
  {
    if |segs| > 0 {
      var s, rest := segs[0], segs[1..];
      assert AllWellFormed(rest) by {
        forall i | 0 <= i < |rest| ensures WellFormed(rest[i]) {
          assert rest[i] == segs[i + 1];
        }
      }
      DecodeEncoded(rest);
      var payload := EncodeAll(segs);
      assert payload == Encode(s) + EncodeAll(rest);
      match s
      case Literal(bytes) =>
        assert payload[1..|bytes| + 1] == bytes;
        assert payload[|bytes| + 1..] == EncodeAll(rest);
      case Repeat(value, count) =>
        assert payload[2..] == EncodeAll(rest);
    }
  }

  /** Every stream that decodes without a fault is the encoding of some
      well-formed segments, and its output is what they stand for.  With
      `DecodeEncoded` this characterises the decodable streams exactly. */
  lemma DecodedIsEncoded(payload: seq<byte>)
    requires Decode(payload).Decoded?
    ensures exists segs :: AllWellFormed(segs) && EncodeAll(segs) == payload
                           && ExpandAll(segs) == Decode(payload).value
  {
    var segs := SegmentsOf(payload);
  }

  /** The segments a decodable stream consists of, found one at a time. */
  lemma {:induction false} SegmentsOf(payload: seq<byte>) returns (segs: seq<Segment>)
    requires Decode(payload).Decoded?
    ensures AllWellFormed(segs) && EncodeAll(segs) == payload
    ensures ExpandAll(segs) == Decode(payload).value
    decreases |payload|
  {
    if |payload| == 0 {
      segs := [];
    } else {
      var s, k := FirstSegment(payload);
      var rest := SegmentsOf(payload[k..]);
      ConsSegment(s, rest);
      assert payload[..k] + payload[k..] == payload;
      segs := [s] + rest;
    }
  }

  /** Segments in front of segments: well-formedness, encoding and
      expansion all extend by the segment in front. */
  lemma ConsSegment(s: Segment, rest: seq<Segment>)
    requires WellFormed(s) && AllWellFormed(rest)
    ensures AllWellFormed([s] + rest)
    ensures EncodeAll([s] + rest) == Encode(s) + EncodeAll(rest)
    ensures ExpandAll([s] + rest) == Expand(s) + ExpandAll(rest)
  {
    var segs := [s] + rest;
    assert segs[1..] == rest;
    assert AllWellFormed(segs) by {
      forall i | 0 <= i < |segs| ensures WellFormed(segs[i]) {
        if i > 0 { assert segs[i] == rest[i - 1]; }
      }
    }
  }

  /** The first segment of a stream that decodes without a fault: its
      encoding is the first `k` bytes, and the rest decodes on its own. */
  lemma FirstSegment(payload: seq<byte>) returns (s: Segment, k: nat)
    requires |payload| > 0 && Decode(payload).Decoded?
    ensures WellFormed(s) && 2 <= k <= |payload| && Encode(s) == payload[..k]
    ensures Decode(payload[k..]).Decoded?
    ensures Decode(payload).value == Expand(s) + Decode(payload[k..]).value
  {
    var flag := payload[0];
    if flag > 127 {
      s, k := Repeat(payload[1], flag - 125), 2;
    } else {
      s, k := Literal(payload[1..flag + 2]), flag + 2;
    }
  }
}
