/** Extracting one entry's payload according to its compression level
    (`src/archive.c`, lines 136-365). */
module EntryCodec {
  import opened Bytes
  import opened Diagnostics
  import RunCodec
  import opened Tokens
  import opened Window
  import opened Frames

  /** What extracting one entry comes to. */
  datatype Extraction =
    | Written(data: seq<byte>, diagnostics: seq<Diagnostic>)  // a file is written
    | Skipped                 // lines 216-221: the level has no bit split
    | Aborted(fault: Fault)   // undefined behaviour in the program: the model stops
    | Refused                 // lines 362-364: a negative level ends the unpack

  /** Line 216: `6 - level` stored in an `unsigned char`. */
  function OffsetBits(level: int): (ob: nat)
    ensures ob < 256 && (ob - (6 - level)) % 256 == 0
  {
    (6 - level) % 256
  }

  /** The size warning of lines 138-140, 190-192 and 343-345. */
  function SizeCheck(produced: nat, usize: nat, consumedAll: bool): (ds: seq<Diagnostic>)
    ensures ds == [] || ds == [SizeMismatch]
    ensures ds == [] <==> produced == usize && consumedAll
  {
    if produced != usize || !consumedAll then [SizeMismatch] else []
  }

  /** The bytes a decoder produced, unless they overflow the buffer of
      `usize` bytes that the program allocates for them. */
  function Produced(out: seq<byte>, usize: nat, diagnostics: seq<Diagnostic>): (r: Extraction)
    ensures r.Written? <==> |out| <= usize
    ensures r.Written? ==> r.data == out && r.diagnostics == diagnostics
    ensures r.Aborted? ==> r.fault == Overrun
  {
    if |out| > usize then Aborted(Overrun) else Written(out, diagnostics)
  }

  /** The dispatch on the level byte, read into a signed `char`: 0 stores,
      1 is the byte-run code, 2-6 the dictionary code, 7-127 are skipped
      because `offset_bits` wraps past 8, and the bytes 128-255 are negative
      levels that end the whole unpack.  The level-0 payload is written as
      it is; each decoder's output is checked against `usize`. */
  function Extract(payload: seq<byte>, usize: nat, levelByte: byte): (r: Extraction)
    ensures r.Refused? <==> levelByte >= 128
    ensures r.Skipped? <==> 7 <= levelByte <= 127
    ensures levelByte == 0 ==> r == Written(payload, SizeCheck(|payload|, usize, true))
    ensures r.Written? && levelByte != 0 ==> |r.data| <= usize
    ensures levelByte == 1 ==>
              (r.Written? <==> RunCodec.Decode(payload).Decoded?
                               && |RunCodec.Decode(payload).value| <= usize)
    ensures levelByte == 1 && r.Written? ==>
              && RunCodec.Decode(payload) == Decoded(r.data)
              && r.diagnostics == (if |r.data| == usize then [] else [SizeMismatch])
    ensures levelByte == 1 && r.Aborted? ==>
              r.fault == (if RunCodec.Decode(payload).Undefined? then Truncated else Overrun)
    ensures 2 <= levelByte <= 6 ==> DictionaryEntry(payload, usize, 6 - levelByte, r)
  {
    var level := AsChar(levelByte);
    LevelClasses(levelByte);
    if level == 0 then
      Written(payload, SizeCheck(|payload|, usize, true))
    else if level == 1 then
      match RunCodec.Decode(payload)
      case Undefined(fault) => Aborted(fault)
      case Decoded(out) => Produced(out, usize, SizeCheck(|out|, usize, true))
    else if level > 1 then
      var ob := OffsetBits(level);
      if ob > 8 then Skipped
      else ExtractDictionary(payload, usize, ob)
    else Refused
  }

  /** How the signed reading of the level byte selects a branch. */
  lemma LevelClasses(levelByte: byte)
    ensures AsChar(levelByte) == 0 <==> levelByte == 0
    ensures AsChar(levelByte) == 1 <==> levelByte == 1
    ensures AsChar(levelByte) > 1 <==> 2 <= levelByte <= 127
    ensures 2 <= levelByte <= 6 ==> OffsetBits(AsChar(levelByte)) == 6 - levelByte
    ensures 7 <= levelByte <= 127 ==> OffsetBits(AsChar(levelByte)) > 8
  {
  }

  /** What a dictionary-coded entry comes to, stated on the reference
      decoder: a read past the payload is undefined behaviour; otherwise the
      entry is written exactly when the expansion fits the `usize` buffer,
      with the bytes expanded before any rejected token.  A rejected token
      adds its diagnostic, and the size warning of line 343 follows when
      the output length differs from `usize` or, after a rejection, payload
      is left unread. */
  predicate DictionaryEntry(payload: seq<byte>, usize: nat, ob: nat, r: Extraction)
    requires ob <= 8
  {
    var d := ReplayPayload(payload, ob);
    && (d.Undefined? ==> r == Aborted(Truncated))
    && (d.Decoded? ==>
          if |d.value.out| > usize then r == Aborted(Overrun)
          else
            && r.Written?
            && r.data == d.value.out
            && match d.value.halt
               case Finished =>
                 r.diagnostics == (if |r.data| == usize then [] else [SizeMismatch])
               case Rejected(dg, consumed) =>
                 r.diagnostics ==
                   [dg] + (if |r.data| == usize && consumed == |payload| then [] else [SizeMismatch]))
  }

  /** The dictionary branch (lines 214-360) for a supported `offset_bits`. */
  function ExtractDictionary(payload: seq<byte>, usize: nat, ob: nat): (r: Extraction)
    requires ob <= 8
    ensures r.Written? <==>
              ReplayPayload(payload, ob).Decoded? && |ReplayPayload(payload, ob).value.out| <= usize
    ensures DictionaryEntry(payload, usize, ob, r)
  {
    InflateMatchesReplay(payload, ob);
    match Inflate(payload, ob)
    case Undefined(fault) => Aborted(fault)
    case Decoded(Inflated(out, Finished)) =>
      Produced(out, usize, SizeCheck(|out|, usize, true))
    case Decoded(Inflated(out, Rejected(diagnostic, consumed))) =>
      Produced(out, usize, [diagnostic] + SizeCheck(|out|, usize, consumed == |payload|))
  }

  /** A rejected token ends a dictionary-coded entry but keeps the bytes
      already produced: what is written is the expansion of the items before
      that token, which all executed normally, and its diagnostic comes
      first. */
  lemma DictionaryRejection(payload: seq<byte>, usize: nat, ob: nat)
    requires ob <= 8
    requires ExtractDictionary(payload, usize, ob).Written?
    requires ReplayPayload(payload, ob).value.halt.Rejected?
    ensures var items := Frame(payload, ob).items;
            var r := ExtractDictionary(payload, usize, ob);
            exists j | 0 <= j < |items| ::
              && items[j].Reference?
              && Replay(items[..j], ob, []) == Replayed(r.data, Finished)
              && r.diagnostics[0] == ReplayPayload(payload, ob).value.halt.diagnostic
  {
    RejectionKeepsPrefix(Frame(payload, ob).items, ob, []);
  }

  /** The level parameters of lines 216-225 for the supported levels 2-6:
      the token's offset field widens, and its run-length field narrows, as
      the level falls; every other level byte is skipped or refused. */
  lemma LevelParameters(levelByte: byte)
    ensures 2 <= levelByte <= 6 ==>
              && OffsetBits(AsChar(levelByte)) == 6 - levelByte
              && RunLengthBits(6 - levelByte) == levelByte + 2
              && MaxRunLength(6 - levelByte) == Pow2(levelByte + 2) + 2
              && MaxOffset(6 - levelByte) == Pow2(14 - levelByte) - 1
    ensures 7 <= levelByte <= 127 ==> OffsetBits(AsChar(levelByte)) > 8
  {
  }

  /** Level 2 splits a token 4/4: a window of 4096 bytes, runs of up to 18,
      and the token bytes 0x05 0x30 mean offset 4, run length 5. */
  lemma LevelTwoExample()
    ensures OffsetBits(2) == 4
    ensures MaxOffset(4) == 4095 && MaxRunLength(4) == 18
    ensures DecodeToken(0x05, 0x30, 4) == Token(4, 5)
  {
  }
}
