/** The archive as a whole: the record that opens every entry, the unpack
    loop over records, and the packer that writes them (`src/archive.c`,
    lines 38-126, 367-376 and 383-470).  An archive is a byte sequence; a
    folder is a list of (name, contents) entries in the order the directory
    listing yields them. */
module Archive {
  import opened Bytes
  import opened Diagnostics
  import opened Names
  import EntryCodec

  /** Which program is meant.  `fread` and `fwrite` return 0 when asked for
      an item of size zero, and the program compares that result with 1
      (lines 122 and 205-208): `AsWritten` keeps those checks, `Corrected`
      treats a zero-size transfer as done. */
  datatype Variant = AsWritten | Corrected

  /** Why the unpack loop gives up (each is an `EXIT_FAILURE`). */
  datatype Failure =
    | NoFilename          // lines 59-63
    | InvalidFilename     // lines 77-81
    | NoCompressedSize    // lines 95-99
    | NoUncompressedSize  // lines 103-107
    | NoLevel             // lines 111-115
    | NoData              // lines 122-126
    | CannotWrite         // lines 208-212
    | NegativeLevel       // lines 362-364
    | Unsafe(fault: Fault)

  /** What happened to one entry the loop went past. */
  datatype Report =
    | Extracted(name: seq<byte>, data: seq<byte>, diagnostics: seq<Diagnostic>)
    | Skipped(name: seq<byte>)

  /** The outcome of an unpack, with the entries handled before it ended. */
  datatype Unpacked =
    | Completed(reports: seq<Report>)
    | Failed(reason: Failure, reports: seq<Report>)

  /** The fields of an entry record that precede its payload. */
  datatype Header = Header(name: seq<byte>, csize: nat, usize: nat, level: byte)

  datatype HeaderRead =
    | AtEnd
    | AtEntry(header: Header)
    | Unreadable(failure: Failure)

  /** The bytes of a record before its payload: the name, its terminator,
      both sizes little-endian and the level byte. */
  function HeaderBytes(h: Header): (bs: seq<byte>)
    requires h.csize < U32_LIMIT && h.usize < U32_LIMIT
    ensures |bs| == |h.name| + 10
  {
    h.name + [0] + LE32(h.csize) + LE32(h.usize) + [h.level]
  }

  function PayloadStart(h: Header): nat
  {
    |h.name| + 10
  }

  /** The bytes `fread` at line 56 returns for a name: the next
      `FILENAME_SIZE` bytes of the archive, or all that are left. */
  function NameWindow(a: seq<byte>): (field: seq<byte>)
    ensures |field| == if |a| < FILENAME_SIZE then |a| else FILENAME_SIZE
    ensures field <= a
  {
    a[..if |a| < FILENAME_SIZE then |a| else FILENAME_SIZE]
  }

  /** Lines 52-126 on the archive bytes from the current position on: the
      name field, the seek past the name, both sizes, the level byte and
      the payload, each of which must be there. */
  function ReadHeader(a: seq<byte>, v: Variant): (r: HeaderRead)
    ensures r == AtEnd <==> a == [0]
    ensures r == Unreadable(NoFilename) <==> a == []
    ensures r == Unreadable(InvalidFilename) <==> ReadNameField(NameWindow(a)).Invalid?
    ensures ReadNameField(NameWindow(a)).Named? ==>
              var s := |ReadNameField(NameWindow(a)).name| + 1;
              && (|a| < s + 4 <==> r == Unreadable(NoCompressedSize))
              && (s + 4 <= |a| < s + 8 <==> r == Unreadable(NoUncompressedSize))
              && (s + 8 <= |a| < s + 9 <==> r == Unreadable(NoLevel))
              && (s + 9 <= |a| ==>
                    (r == Unreadable(NoData) <==>
                       || |a| < s + 9 + LE32Value(a[s..s + 4])
                       || (LE32Value(a[s..s + 4]) == 0 && v == AsWritten)))
    ensures r.AtEntry? ==>
              && ValidName(r.header.name)
              && r.header.csize < U32_LIMIT && r.header.usize < U32_LIMIT
              && PayloadStart(r.header) + r.header.csize <= |a|
              && a[..PayloadStart(r.header)] == HeaderBytes(r.header)
              && (r.header.csize == 0 ==> v != AsWritten)
  {
    var field := NameWindow(a);
    match ReadNameField(field)
    case Missing => Unreadable(NoFilename)
    case EndOfArchive => AtEnd
    case Invalid => Unreadable(InvalidFilename)
    case Named(name) =>
      var s := |name| + 1;
      if |a| < s + 4 then Unreadable(NoCompressedSize)
      else if |a| < s + 8 then Unreadable(NoUncompressedSize)
      else if |a| < s + 9 then Unreadable(NoLevel)
      else
        var cs := LE32Value(a[s..s + 4]);
        if |a| < s + 9 + cs || (cs == 0 && v == AsWritten) then Unreadable(NoData)
        else
          var h := Header(name, cs, LE32Value(a[s + 4..s + 8]), a[s + 8]);
          HeaderLayout(a, h);
          AtEntry(h)
  }

  /** The bytes a successful header read went past are that header. */
  lemma HeaderLayout(a: seq<byte>, h: Header)
    requires |a| >= |h.name| + 10
    requires a[..|h.name|] == h.name && a[|h.name|] == 0
    requires h.csize == LE32Value(a[|h.name| + 1..|h.name| + 5])
    requires h.usize == LE32Value(a[|h.name| + 5..|h.name| + 9])
    requires h.level == a[|h.name| + 9]
    ensures a[..PayloadStart(h)] == HeaderBytes(h)
  {
    var n := |h.name|;
    LE32Canonical(a[n + 1..n + 5]);
    LE32Canonical(a[n + 5..n + 9]);
    assert a[..n + 10] == a[..n] + [a[n]] + a[n + 1..n + 5] + a[n + 5..n + 9] + [a[n + 9]];
  }

  /** Conversely, a record that starts with a valid name, has its payload
      in full and, as written, a non-empty one, is read as its header. */
  lemma ReadsHeader(h: Header, rest: seq<byte>, v: Variant)
    requires ValidName(h.name)
    requires h.csize < U32_LIMIT && h.usize < U32_LIMIT
    requires h.csize <= |rest|
    requires h.csize == 0 ==> v != AsWritten
    ensures ReadHeader(HeaderBytes(h) + rest, v) == AtEntry(h)
  {
    var n := |h.name|;
    var a := HeaderBytes(h) + rest;
    assert a == h.name + [0] + (LE32(h.csize) + LE32(h.usize) + [h.level] + rest);
    ReadsName(h.name, LE32(h.csize) + LE32(h.usize) + [h.level] + rest);
    assert a[n + 1..n + 5] == LE32(h.csize);
    assert a[n + 5..n + 9] == LE32(h.usize);
    LE32RoundTrip(h.csize);
    LE32RoundTrip(h.usize);
  }

  /** The unpack loop of lines 50-376: read a header, extract the payload,
      resume right after the payload (line 371, and equally after the
      `continue` of line 221, since line 122 has already read the payload). */
  function UnpackWith(a: seq<byte>, v: Variant): (r: Unpacked)
    ensures forall k | 0 <= k < |r.reports| :: ValidName(r.reports[k].name)
    ensures r.Completed? ==> |a| > 0 && a[|a| - 1] == 0
    ensures ReadHeader(a, v).AtEnd? ==> r == Completed([])
    ensures ReadHeader(a, v).Unreadable? ==> r == Failed(ReadHeader(a, v).failure, [])
    ensures ReadNameField(NameWindow(a)).Invalid? ==> r == Failed(InvalidFilename, [])
    decreases |a|
  {
    match ReadHeader(a, v)
    case AtEnd => Completed([])
    case Unreadable(failure) => Failed(failure, [])
    case AtEntry(h) =>
      var start := PayloadStart(h);
      match EntryOutcome(h, a[start..start + h.csize], v)
      case Stop(failure) => Failed(failure, [])
      case Go(report) => Then(report, UnpackWith(a[start + h.csize..], v))
  }

  /** Whether the loop goes on after an entry, and with what report. */
  datatype Outcome = Go(report: Report) | Stop(failure: Failure)

  /** Lines 136-365 for one entry: a negative level or undefined behaviour
      stops the loop, a skipped level is reported as such, and a written
      entry is reported with its bytes and diagnostics; as written, a
      level-1 entry of size zero fails its write check. */
  function EntryOutcome(h: Header, payload: seq<byte>, v: Variant): (o: Outcome)
    ensures o.Go? ==> o.report.name == h.name
    ensures o.Stop? <==>
              || EntryCodec.Extract(payload, h.usize, h.level).Refused?
              || EntryCodec.Extract(payload, h.usize, h.level).Aborted?
              || (EntryCodec.Extract(payload, h.usize, h.level).Written?
                  && h.level == 1 && h.usize == 0 && v == AsWritten)
    ensures o.Stop? && h.level >= 128 ==> o.failure == NegativeLevel
    ensures o.Stop? && EntryCodec.Extract(payload, h.usize, h.level).Written? ==> o.failure == CannotWrite
    ensures EntryCodec.Extract(payload, h.usize, h.level).Aborted? ==>
              o == Stop(Unsafe(EntryCodec.Extract(payload, h.usize, h.level).fault))
    ensures o.Go? ==> (o.report.Skipped? <==> 7 <= h.level <= 127)
    ensures o.Go? && o.report.Extracted? ==>
              EntryCodec.Extract(payload, h.usize, h.level)
              == EntryCodec.Written(o.report.data, o.report.diagnostics)
  {
    var x := EntryCodec.Extract(payload, h.usize, h.level);
    if x.Refused? then Stop(NegativeLevel)
    else if x.Aborted? then Stop(Unsafe(x.fault))
    else if x.Skipped? then Go(Skipped(h.name))
    else if h.level == 1 && h.usize == 0 && v == AsWritten then Stop(CannotWrite)
    else Go(Extracted(h.name, x.data, x.diagnostics))
  }

  /** The outcome of the remaining records, after one more report. */
  function Then(report: Report, later: Unpacked): (r: Unpacked)
    ensures r.Completed? <==> later.Completed?
    ensures r.reports == [report] + later.reports
    ensures r.Failed? ==> r.reason == later.reason
  {
    if later.Completed? then Completed([report] + later.reports)
    else Failed(later.reason, [report] + later.reports)
  }

  /** The program as it stands. */
  function UnpackAsWritten(a: seq<byte>): Unpacked
  {
    UnpackWith(a, AsWritten)
  }

  /** The program with zero-size transfers accepted. */
  function Unpack(a: seq<byte>): Unpacked
  {
    UnpackWith(a, Corrected)
  }

  /** One file of the folder being packed. */
  datatype Entry = Entry(name: seq<byte>, data: seq<byte>)

  /** A name `readdir` can return: not empty, without a zero byte. */
  predicate DirectoryName(name: seq<byte>)
  {
    |name| > 0 && forall k | 0 <= k < |name| :: name[k] != 0
  }

  /** The `.` and `..` entries that line 402 skips. */
  predicate SelfOrParent(name: seq<byte>)
  {
    name == [46] || name == [46, 46]
  }

  /** Lines 434-454: the record of one file, its size truncated to the
      32 bits of `unsigned int`, stored twice, and level 0. */
  function Record(e: Entry): (bs: seq<byte>)
    requires DirectoryName(e.name)
    ensures var n := |e.name|;
            && |bs| == n + 10 + |e.data|
            && bs[..n] == e.name && bs[n] == 0
            && LE32Value(bs[n + 1..n + 5]) == |e.data| % U32_LIMIT
            && LE32Value(bs[n + 5..n + 9]) == |e.data| % U32_LIMIT
            && bs[n + 9] == 0
            && bs[n + 10..] == e.data
  {
    var size := |e.data| % U32_LIMIT;
    var n := |e.name|;
    var bs := HeaderBytes(Header(e.name, size, size, 0)) + e.data;
    assert bs[n + 1..n + 5] == LE32(size) && bs[n + 5..n + 9] == LE32(size);
    LE32RoundTrip(size);
    bs
  }

  /** The records of a listing, in order, without `.` and `..`. */
  function Records(listing: seq<Entry>): (bs: seq<byte>)
    requires forall k | 0 <= k < |listing| :: DirectoryName(listing[k].name)
    ensures bs == [] <==> forall k | 0 <= k < |listing| :: SelfOrParent(listing[k].name)
    decreases |listing|
  {
    if |listing| == 0 then []
    else
      var rest := Records(listing[1..]);
      assert forall k | 1 <= k < |listing| :: listing[1..][k - 1] == listing[k];
      if SelfOrParent(listing[0].name) then rest
      else Record(listing[0]) + rest
  }

  /** Lines 398-463: every record, then the zero byte that ends the archive. */
  function Pack(listing: seq<Entry>): (a: seq<byte>)
    requires forall k | 0 <= k < |listing| :: DirectoryName(listing[k].name)
    ensures |a| > 0 && a[|a| - 1] == 0
  {
    Records(listing) + [0]
  }

  /** The entries of a listing that the packer stores. */
  function Kept(listing: seq<Entry>): (kept: seq<Entry>)
    ensures |kept| <= |listing|
    ensures forall k | 0 <= k < |kept| :: kept[k] in listing && !SelfOrParent(kept[k].name)
  {
    if |listing| == 0 then []
    else if SelfOrParent(listing[0].name) then Kept(listing[1..])
    else [listing[0]] + Kept(listing[1..])
  }

  /** What unpacking should report for a listing: each kept file, extracted
      whole and without a diagnostic. */
  function Expected(listing: seq<Entry>): (reports: seq<Report>)
    ensures |reports| == |Kept(listing)|
    ensures forall k | 0 <= k < |reports| ::
              reports[k] == Extracted(Kept(listing)[k].name, Kept(listing)[k].data, [])
  {
    if |listing| == 0 then []
    else if SelfOrParent(listing[0].name) then Expected(listing[1..])
    else [Extracted(listing[0].name, listing[0].data, [])] + Expected(listing[1..])
  }

  /** A listing whose files the corrected unpacker can restore: valid names
      and sizes that fit the 32-bit size fields. */
  predicate Restorable(listing: seq<Entry>)
  {
    forall k | 0 <= k < |listing| ::
      ValidName(listing[k].name) && |listing[k].data| < U32_LIMIT
  }

  /** Unpacking a packed folder yields its files, in order, whole. */
  lemma PackUnpackRoundTrip(listing: seq<Entry>)
    requires Restorable(listing)
    ensures Unpack(Pack(listing)) == Completed(Expected(listing))
  {
    RoundTrip(listing, Corrected);
  }

  /** As written, the round trip holds when no stored file is empty (and
      fails otherwise, `AsWrittenStopsAtEmpty`); the `.` and `..` entries
      are never read and may be anything. */
  lemma AsWrittenRoundTrip(listing: seq<Entry>)
    requires Restorable(listing)
    requires forall k | 0 <= k < |listing| :: !SelfOrParent(listing[k].name) ==> |listing[k].data| > 0
    ensures UnpackAsWritten(Pack(listing)) == Completed(Expected(listing))
  {
    RoundTrip(listing, AsWritten);
  }

  /** A listing the given variant restores: restorable and, as written,
      without empty files among those stored. */
  predicate Supported(listing: seq<Entry>, v: Variant)
  {
    && Restorable(listing)
    && (v == AsWritten ==>
          forall k | 0 <= k < |listing| :: !SelfOrParent(listing[k].name) ==> |listing[k].data| > 0)
  }

  lemma SupportedTail(listing: seq<Entry>, v: Variant)
    requires |listing| > 0 && Supported(listing, v)
    ensures Supported(listing[1..], v)
  {
    forall k | 0 <= k < |listing| - 1
      ensures listing[1..][k] == listing[k + 1]
    {
    }
  }

  lemma {:induction false} RoundTrip(listing: seq<Entry>, v: Variant)
    requires Supported(listing, v)
    ensures UnpackWith(Pack(listing), v) == Completed(Expected(listing))
    decreases |listing|
  {
    if |listing| == 0 {
      assert Pack(listing) == [0];
    } else {
      var e := listing[0];
      var rest := Pack(listing[1..]);
      assert Supported(listing[1..], v) by {
        SupportedTail(listing, v);
      }
      assert UnpackWith(rest, v) == Completed(Expected(listing[1..])) by {
        RoundTrip(listing[1..], v);
      }
      PackCons(listing);
      if !SelfOrParent(e.name) {
        UnpackRecord(e, rest, v);
      }
    }
  }

  /** The packer writes the first entry's record, unless it is `.` or `..`,
      before those of the others; the expected reports follow suit. */
  lemma PackCons(listing: seq<Entry>)
    requires |listing| > 0 && forall k | 0 <= k < |listing| :: DirectoryName(listing[k].name)
    ensures SelfOrParent(listing[0].name) ==>
              && Pack(listing) == Pack(listing[1..])
              && Expected(listing) == Expected(listing[1..])
    ensures !SelfOrParent(listing[0].name) ==>
              && Pack(listing) == Record(listing[0]) + Pack(listing[1..])
              && Expected(listing) == [Extracted(listing[0].name, listing[0].data, [])] + Expected(listing[1..])
  {
  }

  /** One stored record unpacks to its file, and then to whatever the rest
      unpacks to. */
  lemma UnpackRecord(e: Entry, rest: seq<byte>, v: Variant)
    requires ValidName(e.name) && |e.data| < U32_LIMIT
    requires v == AsWritten ==> |e.data| > 0
    ensures UnpackWith(Record(e) + rest, v).reports
            == [Extracted(e.name, e.data, [])] + UnpackWith(rest, v).reports
    ensures UnpackWith(Record(e) + rest, v).Completed? <==> UnpackWith(rest, v).Completed?
    ensures UnpackWith(rest, v).Failed? ==>
              UnpackWith(Record(e) + rest, v).reason == UnpackWith(rest, v).reason
  {
    var size := |e.data|;
    assert size % U32_LIMIT == size;
    var h := Header(e.name, size, size, 0);
    assert Record(e) + rest == HeaderBytes(h) + e.data + rest;
    assert EntryOutcome(h, e.data, v) == Go(Extracted(e.name, e.data, []));
    UnpackStep(h, e.data, rest, v);
  }

  /** The loop resynchronises on `compressed_size` alone: after any entry,
      at any level, that lets it go on, the next record is read right after
      the payload (line 371, and equally after the `continue` of line 221);
      an entry that stops it ends the unpack with no report; and, as written,
      a record of `compressed_size` 0 is refused at its payload read. */
  lemma UnpackStep(h: Header, payload: seq<byte>, rest: seq<byte>, v: Variant)
    requires ValidName(h.name) && h.csize < U32_LIMIT && h.usize < U32_LIMIT
    requires |payload| == h.csize
    ensures h.csize == 0 && v == AsWritten ==>
              UnpackWith(HeaderBytes(h) + payload + rest, v) == Failed(NoData, [])
    ensures (h.csize > 0 || v != AsWritten) && EntryOutcome(h, payload, v).Go? ==>
              UnpackWith(HeaderBytes(h) + payload + rest, v)
              == Then(EntryOutcome(h, payload, v).report, UnpackWith(rest, v))
    ensures (h.csize > 0 || v != AsWritten) && EntryOutcome(h, payload, v).Stop? ==>
              UnpackWith(HeaderBytes(h) + payload + rest, v)
              == Failed(EntryOutcome(h, payload, v).failure, [])
  {
    var a := HeaderBytes(h) + payload + rest;
    assert a == HeaderBytes(h) + (payload + rest);
    if h.csize == 0 && v == AsWritten {
      EmptyRecordAsWritten(h, payload + rest);
    } else {
      ReadsHeader(h, payload + rest, v);
      var start := PayloadStart(h);
      assert a[start..start + h.csize] == payload;
      assert a[start + h.csize..] == rest;
    }
  }

  /** As written, a packed empty file cannot be unpacked: its record says
      `compressed_size` 0, and `fread` of a zero-size item returns 0, which
      line 122 takes for a failed read.  The corrected unpacker restores it. */
  lemma EmptyFileFinding()
    ensures UnpackAsWritten(Pack([Entry([65], [])])) == Failed(NoData, [])
    ensures Unpack(Pack([Entry([65], [])])) == Completed([Extracted([65], [], [])])
  {
    var e := Entry([65], []);
    assert ValidName(e.name);
    assert [e][1..] == [];
    PackCons([e]);
    assert Pack([e]) == Record(e) + [0];
    assert Expected([e]) == [Extracted([65], [], [])];
    PackUnpackRoundTrip([e]);
    EmptyRecordStops(e, [0]);
  }

  /** As written, the header of a record with `compressed_size` 0 is
      unreadable: the zero-size payload read fails. */
  lemma EmptyRecordAsWritten(h: Header, rest: seq<byte>)
    requires ValidName(h.name) && h.csize == 0 && h.usize < U32_LIMIT
    ensures ReadHeader(HeaderBytes(h) + rest, AsWritten) == Unreadable(NoData)
  {
    var n := |h.name|;
    var a := HeaderBytes(h) + rest;
    assert a == h.name + [0] + (LE32(0) + LE32(h.usize) + [h.level] + rest);
    ReadsName(h.name, LE32(0) + LE32(h.usize) + [h.level] + rest);
    assert a[n + 1..n + 5] == LE32(0);
    LE32RoundTrip(0);
  }

  /** The converse of `AsWrittenRoundTrip`: as written, a folder with an
      empty stored file fails to unpack, at that file's payload read. */
  lemma {:induction false} AsWrittenStopsAtEmpty(listing: seq<Entry>, k: nat)
    requires Restorable(listing)
    requires k < |listing| && !SelfOrParent(listing[k].name) && |listing[k].data| == 0
    ensures UnpackAsWritten(Pack(listing)).Failed?
    ensures UnpackAsWritten(Pack(listing)).reason == NoData
    decreases k
  {
    var e := listing[0];
    var tail := listing[1..];
    assert Restorable(tail) by {
      forall i | 0 <= i < |tail| ensures tail[i] == listing[i + 1] { }
    }
    var a := Pack(listing);
    if SelfOrParent(e.name) {
      assert a == Pack(tail);
      assert tail[k - 1] == listing[k];
      AsWrittenStopsAtEmpty(tail, k - 1);
    } else if |e.data| == 0 {
      EmptyRecordStops(e, Pack(tail));
      assert a == Record(e) + Pack(tail);
    } else {
      assert a == Record(e) + Pack(tail);
      assert tail[k - 1] == listing[k];
      assert UnpackAsWritten(Pack(tail)).reason == NoData by {
        AsWrittenStopsAtEmpty(tail, k - 1);
      }
      UnpackRecord(e, Pack(tail), AsWritten);
    }
  }

  /** As written, the unpack stops at the record of an empty file. */
  lemma EmptyRecordStops(e: Entry, rest: seq<byte>)
    requires ValidName(e.name) && |e.data| == 0
    ensures UnpackAsWritten(Record(e) + rest) == Failed(NoData, [])
  {
    var h := Header(e.name, 0, 0, 0);
    assert Record(e) + rest == HeaderBytes(h) + [] + rest;
    UnpackStep(h, [], rest, AsWritten);
  }
}
