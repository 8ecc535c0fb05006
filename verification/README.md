# red-archive unpacker and packer, modelled in Dafny

Red Archive stores a folder as one file. Each entry record holds:

- a name of 1 to 12 MS-DOS characters, followed by a zero byte;
- two little-endian 32-bit sizes, `compressed_size` and `uncompressed_size`;
- a compression level byte;
- the payload.

A single zero byte ends the archive.

The unpacker (`unpack` in `src/archive.c`) reads the records one after another and extracts each payload by level:

- level 0 stores the payload as it is;
- level 1 is a byte-run code;
- levels 2-6 use an LZ77-style dictionary code with a circular window and two-byte back-references;
- levels 7-127 are skipped;
- a negative level ends the run.

The packer (`pack`) writes every file of a folder as a level-0 record, then the terminator.

The model works on byte sequences, with no files or directories:

- **`Bytes`**: bytes, signed `char`, 32-bit little-endian fields, and the arithmetic lemmas the proofs use.
- **`Names`**: the character test and the 13-byte name field.
- **`RunCodec`**: the level-1 decoder. It has a segment-level encoder as its partner.
- **`Tokens`**: the level parameters and the two-byte token code. It includes the bit-by-bit loop that reads a token.
- **`Frames`**: how a level 2-6 payload splits into flag bytes, literals and tokens.
- **`Window`**: the program's decoder, which executes those items through a window. It is proved equal to a reference LZ77 expansion that copies from a fixed distance behind the output.
- **`EntryCodec`**: the dispatch on the level byte, and the size diagnostics.
- **`Archive`**: header reading, the unpack loop, the record writer, and the round trip between packing and unpacking.

`char` is taken to be signed, as on x86. Two consequences:

- a level byte of 128-255 is a negative level;
- a name byte of 128 or more fails the character test.

The unpacker reaches undefined behaviour in several places. The model treats each one in one of three ways.

It stops with an explicit fault (`Diagnostics.Fault`) instead of guessing what memory would hold:

- a read past the payload at level 1 or levels 2-6 (`Truncated`);
- a write past the `uncompressed_size` buffer at level 1 or levels 2-6 (`Overrun`).

It corrects the program:

- the window is allocated with `max_offset` bytes (line 235), but index `max_offset` is written (lines 255 and 315) and read (line 312). The model's window has `max_offset`+1 cells (see Findings).

It sets the behaviour aside, and goes on as if it were harmless:

- `compressed_data` is freed twice for every level-0 and level-1 entry: at line 154 or 187, then again at line 368. A C library that detects the double free ends the program there.
- `file_path` is used after it is freed, in the error messages of lines 147 and 200. These are reached only when an output file cannot be opened, which is not modelled.
- When fewer than `uncompressed_size` bytes are produced, the rest of the buffer is written uninitialised (lines 205 and 356). The model returns only the bytes produced.

`Archive.UnpackWith` takes a `Variant` parameter:

- **`AsWritten`** keeps the program's checks as they stand. A zero-size `fread` or `fwrite` returns 0, and the program counts that as a failure.
- **`Corrected`** accepts zero-size transfers.

Both variants use the corrected window and treat the places set aside above as harmless. So `Archive.UnpackAsWritten` is the program as written only up to those places. In particular, a run of the program may end at the double free after its first level-0 or level-1 entry, which is every entry `pack` writes. `Archive.Unpack` is the corrected unpacker.

## Model

| member | source | states |
|---|---|---|
| `Names.ValidFilenameCharacter` | src/archive.c:20-36 | the character test admits only values 33-126, and on the ASCII range it admits exactly the glyphs of the independent set `DosNameChar` |
| `Names.NameByte` | src/archive.c:20-36 | a byte passes the character test exactly when, read as a character, it is one of `!$%&'()-.`, a digit, `@`-`Z` or `^`-`{` (this set is stated by glyph, independently of the code ranges), `}` or `~`; so zero, space, `/` and every byte of 128 or more are refused |
| `Names.ReadNameField` | src/archive.c:54-82 | the name field fails when nothing is left to read; it ends the archive exactly when the one byte left is zero; it is accepted exactly when some zero at index 1 or later ends a run of valid characters; an accepted name is that run, 1-12 bytes long |
| `Names.ScanName` | src/archive.c:72-82 | the validation loop from index `i` either refuses the field or accepts a name that ends at a zero past index 0 and no earlier than `i`, is a prefix of the field, and whose bytes from `i` on all pass the character test |
| `Names.ScanAgrees` | src/archive.c:72-82 | the validation loop started at index 0 accepts exactly the fields that hold a terminated valid name, and returns that name |
| `Names.ScanSound` | src/archive.c:72-82 | a name the loop accepts is a run of valid characters ended by a zero |
| `Names.ScanFinds` | src/archive.c:72-82 | a terminated valid name is found by the loop from any index up to its terminator |
| `Names.TerminatorUnique` | src/archive.c:72-82 | a field holds at most one terminated valid name |
| `Names.ReadsName` | src/archive.c:54-82 | a record that starts with a valid name and a zero byte has that name read from it, whatever follows |
| `RunCodec.Decode` | src/archive.c:163-184 | the level-1 decoder's only undefined outcome is a read past the payload |
| `RunCodec.DecodeEncoded` | src/archive.c:163-184 | a payload built from well-formed segments (1-128 literal bytes, or a byte repeated 3-130 times) decodes to the concatenation of what those segments stand for, in order |
| `RunCodec.DecodedIsEncoded` | src/archive.c:163-184 | every payload that decodes without a fault is such a sequence of segments, and its output is theirs |
| `RunCodec.FirstSegment` | src/archive.c:165-183 | a decodable payload starts with one well-formed segment: a flag of 0-127 followed by that many plus one bytes, or a flag of 128-255 followed by the byte to repeat flag-125 times; the remainder decodes on its own |
| `Tokens.DecodeToken` | src/archive.c:264-309 | every token names an offset from -1 to `max_offset`-1 and a run length from 2 to `max_run_length`-1, so the run-length check and the upper offset check never reject one |
| `Tokens.ReadToken` | src/archive.c:264-288 | the program's bit-by-bit accumulation of the two token bytes gives offset `b1 + 256 * (b2 mod 2^ob) - 1` and run length `2 + b2 div 2^ob` |
| `Tokens.ReadFirstByte` | src/archive.c:265-272 | the loop over the first token byte leaves the offset at the byte's value less one |
| `Tokens.ReadSecondByte` | src/archive.c:273-288 | the loop over the second token byte adds its low `offset_bits` bits to the offset at weight 256 and its remaining bits to the run length, from 2 |
| `Tokens.EncodeToken` | src/archive.c:264-288 | every in-range token has two bytes that decode to it |
| `Tokens.TokenBijective` | src/archive.c:264-288 | every pair of token bytes is the encoding of the token it decodes to, so the token code is a bijection |
| `Frames.Blocks` | src/archive.c:238-242 | the items read from a position on lie past it and inside the payload, come in payload order, and are in range; unless the last one would read past the end, they use up the payload exactly |
| `Frames.Items` | src/archive.c:243-288 | the same holds from any bit of a flag byte, and an untruncated framing from a flag bit has at least one item |
| `Frames.Frame` | src/archive.c:238-338 | the framing of a whole payload is well framed from position 0 |
| `Frames.FrameExtend` | src/archive.c:238-288 | the framing reads a payload front to back: the items of a payload are a prefix of the items of any longer payload that starts with it. A truncated framing keeps every item before the one that runs past the end, and only drops that one: with two more bytes it is read and ends beyond the original payload |
| `Frames.FrameEncode` | src/archive.c:238-338 | the framing inverts an independent encoder. A payload of groups of up to eight items, each behind a flag byte whose bit `i` is set exactly for a literal, is read back as exactly those items, in order, and is used up with no read past its end |
| `Window.Start` | src/archive.c:227-236 | the initial decoder has produced nothing and satisfies the window invariant |
| `Window.Put` | src/archive.c:250-260 | producing a byte appends it to the output and keeps the cursor inside the window |
| `Window.PutKeepsCached` | src/archive.c:250-260 | producing a byte keeps the window invariant: the cursor equals the bytes produced modulo `max_offset`+1, and each of the last `max_offset`+1 bytes sits at its position modulo that size |
| `Window.CopyRun` | src/archive.c:302-332 | a copy only extends the output, by at most the run length, and by exactly the run length when it completes |
| `Window.Execute` | src/archive.c:243-333 | executing items only extends the output |
| `Window.CopyMatches` | src/archive.c:302-332 | with the window invariant, a copy from a valid absolute index completes and appends the bytes found a fixed distance behind the end of the output, overlap included, keeping the invariant |
| `Window.CopyAllOrNothing` | src/archive.c:302-332 | a back-reference copies its whole run exactly when its offset names a byte already produced; otherwise it copies nothing |
| `Window.CopyBeforeWrap` | src/archive.c:302-332 | before the window wraps, the distance is the bytes produced minus the offset, and the bytes appended are those of the output from the offset on |
| `Window.ExecuteMatchesReplay` | src/archive.c:243-333 | the program's window-based execution produces the same bytes and stops for the same reason as the reference LZ77 expansion, keeping the window invariant |
| `Window.RejectionKeepsPrefix` | src/archive.c:289-309 | a rejected token keeps exactly the bytes the items before it produced, all of which executed normally, and records where that token ended |
| `Window.Inflate` | src/archive.c:227-345 | the dictionary decoder's only undefined outcome is a read past the payload |
| `Window.InflateMatchesReplay` | src/archive.c:227-345 | for every payload and every supported level, the program's decoder and the reference decoder agree |
| `Window.InflateConsumption` | src/archive.c:334-345 | a finished decoding read an untruncated framing whose last item ends exactly at the end of the payload; a decoding stopped by a rejected token ended inside the payload |
| `Window.WindowFinding` | src/archive.c:235-260 | after `max_offset` bytes the cursor stands at index `max_offset`, one past the `max_offset` cells the program allocates, but inside a window of `max_offset`+1 cells |
| `Window.WindowOverflowExample` | src/archive.c:235-260 | a level-6 payload of 256 literals reaches that state: after 255 literals the cursor is at index 255 of the 255 cells allocated, and the next item is a literal stored there |
| `EntryCodec.OffsetBits` | src/archive.c:216 | `offset_bits` is `6 - level` reduced into an `unsigned char` |
| `EntryCodec.Extract` | src/archive.c:136-365 | a level byte of 128-255 ends the unpack; levels 7-127 are skipped; level 0 writes the payload as it is, warning on a size mismatch; level 1 writes exactly when the byte-run decoding succeeds and fits `uncompressed_size`, writes that decoding, and its only diagnostic is the size warning, given exactly when the length differs from `uncompressed_size`; a level-1 entry that is not written aborts as `Truncated` when the decoding reads past the payload and as `Overrun` when it does not fit; any other output written fits `uncompressed_size`; levels 2-6 behave as `ExtractDictionary` states, with `offset_bits` 6-level |
| `EntryCodec.LevelClasses` | src/archive.c:136-221 | reading the level byte as a signed `char` sends 0, 1, 2-127 and 128-255 to the four branches; levels 2-6 get `offset_bits` 6-level and levels 7-127 wrap past 8 |
| `EntryCodec.ExtractDictionary` | src/archive.c:214-360 | a dictionary-coded entry is written exactly when the reference LZ77 expansion reads nothing past the payload and fits `uncompressed_size`. Otherwise it is aborted, as a read past the payload or as an overrun. What it writes is that expansion, up to any rejected token. The diagnostics are the rejected token's own, if any, then the size warning of line 343. That warning is raised when the length differs from `uncompressed_size` or, after a rejection, payload is left unread |
| `EntryCodec.DictionaryRejection` | src/archive.c:289-309 | a rejected token ends the entry but keeps what came before. The entry writes the expansion of the items before that token, all of which executed normally, and the token's diagnostic comes first |
| `EntryCodec.LevelParameters` | src/archive.c:216-225 | at levels 2-6, `run_length_bits` is level+2, `max_run_length` is 2^(level+2)+2, and `max_offset` is 2^(14-level)-1 |
| `EntryCodec.LevelTwoExample` | src/archive.c:216-288 | level 2 has a 4096-byte window and runs of up to 18 bytes; the token bytes 0x05 0x30 mean offset 4, run length 5 |
| `Archive.HeaderBytes` | src/archive.c:441-447 | the bytes of a record before its payload are the name length plus 10 |
| `Archive.NameWindow` | src/archive.c:55-56 | the name read takes the next 13 bytes of the archive, or all that are left when fewer remain |
| `Archive.ReadHeader` | src/archive.c:52-126 | the archive ends exactly at a lone zero byte; the name read fails exactly when nothing is left; the name is refused (`InvalidFilename`) exactly when the name field is invalid; after a valid name of length n, the archive failing before n+5, n+9 or n+10 bytes gives `NoCompressedSize`, `NoUncompressedSize` or `NoLevel` respectively, and with those fields present `NoData` is given exactly when the payload is short or, as written, empty; an entry is accepted only when a valid name, its terminator, both sizes, the level byte and the whole payload are present, they lay out as a record, and, as written, the payload is not empty |
| `Archive.HeaderLayout` | src/archive.c:91-115 | the fields read after the name are the record layout: terminator, both sizes little-endian, level |
| `Archive.ReadsHeader` | src/archive.c:54-126 | conversely, a record with a valid name and its whole payload (non-empty, as written) is read as exactly its header |
| `Archive.UnpackWith` | src/archive.c:50-376 | every entry the loop reports has a valid name, and an unpack completes only when the archive ends in a zero byte. A lone terminating zero completes the unpack with no entries; a header that cannot be read (a missing or invalid name, a missing size, level or payload) ends it with that header's failure and no further entries |
| `Archive.EntryOutcome` | src/archive.c:136-365 | the loop stops after an entry exactly when its level is negative, its decoding reaches undefined behaviour, or (as written) it is a level-1 entry of size zero whose write check fails; otherwise it goes on with a report for that entry's name. The report is `Skipped` exactly for levels 7-127. Otherwise it carries the data and diagnostics that `Extract` gives; undefined behaviour stops the loop with its fault, a negative level with `NegativeLevel`, and the failed level-1 write check with `CannotWrite` |
| `Archive.UnpackStep` | src/archive.c:50-376 | the loop resynchronises on `compressed_size` alone. After any valid header and its payload, at any level, an entry that lets the loop go on is followed by the unpack of the bytes right after the payload, even after the skip at line 221. An entry that stops the loop ends the unpack with no report, and as written a record of `compressed_size` 0 fails at its payload read |
| `Archive.Record` | src/archive.c:434-454 | a file's record is its name, a zero byte, the file size modulo 2^32 little-endian twice, level 0, then the contents |
| `Archive.Records` | src/archive.c:398-456 | the `.` and `..` entries add nothing and every other entry adds a non-empty record, so the records are empty exactly when every entry is `.` or `..` |
| `Archive.Pack` | src/archive.c:461-463 | a packed archive ends in the zero terminator byte |
| `Archive.UnpackRecord` | src/archive.c:434-454 | one level-0 record written by the packer unpacks to its file, whole and without a diagnostic, and the unpack goes on right after it, whatever follows |
| `Archive.RoundTrip` | src/archive.c:434-463 | under either variant, for a folder whose names are valid and whose files are under 2^32 bytes (and, as written, not empty unless named `.` or `..`), unpacking the packed archive completes with each file other than `.` and `..`, in order, whole |
| `Archive.PackUnpackRoundTrip` | src/archive.c:434-463 | the corrected unpacker restores every packed folder with valid names and files under 2^32 bytes: same names, same contents, same order |
| `Archive.AsWrittenRoundTrip` | src/archive.c:121-126 | as written, the round trip holds for folders whose stored files are all non-empty; `.` and `..` are never read and may be anything |
| `Archive.AsWrittenStopsAtEmpty` | src/archive.c:121-126 | conversely, as written, a folder with an empty stored file fails to unpack, with the failure of the payload read |
| `Archive.EmptyFileFinding` | src/archive.c:121-126 | as written, the archive packed from one empty file `A` fails to unpack at the payload read; the corrected unpacker restores it |
| `Archive.EmptyRecordAsWritten` | src/archive.c:121-126 | as written, a record with a valid name and `compressed_size` 0 is unreadable, whatever follows, because its payload read fails |

## Left out

- **File and directory I/O**, and the failures it can cause:
  - opening the archive, the output files and the folder;
  - `make_folder`;
  - building file paths;
  - writing each file;
  - reading each file in `pack`.

  The archive is a byte sequence. A folder is a list of entries in the order `readdir` yields them; that order is the caller's.
- **Level-1 write check:** only the zero-size case of the result check at lines 205-212 is modelled (`CannotWrite`). Other write failures are I/O. As written, this case cannot be reached: a level-1 entry of size zero needs an empty payload, and the payload read already fails on that.
- **Messages:** the `printf`/`fprintf` messages are tags (`Diagnostics`), not text. The progress lines are not modelled.
- **Memory management:**
  - `malloc` failures;
  - the leak of the window on the `goto`s at lines 293, 299 and 308;
  - the use of `file_path` after `free`, and the second `free` of `compressed_data` at line 368 after levels 0 and 1. Both are undefined behaviour that the model sets aside, as described above.
- **Byte order:** the size fields are read little-endian. The program reads them in the host's order.
- **Output padding:** the program writes all `uncompressed_size` bytes of a buffer that may be partly uninitialised. The model returns only the bytes produced.
- **Faults:** a read past the payload or a write past the output buffer ends the whole model unpack (`Unsafe`). The program's behaviour is undefined there. When one payload does both, the model reports the read.
- **Reading past the end:** the seek at line 91 and the seek at line 371 cannot fail on the positions the model reaches; a read past the end of the archive is the next header read failing.
- `RunCodec.Decode`: its own contract only classifies faults. What it decodes is stated by `RunCodec.DecodeEncoded` and `RunCodec.DecodedIsEncoded`.
- `Frames.Blocks`: its own contract gives the shape of the framing only. What a flag bit selects, and with which bytes, is stated by `Frames.FrameEncode` for complete payloads and by `Frames.FrameExtend` for payloads that end inside an item.
- `Frames.Items`: its own contract gives the shape of the framing only. What a flag bit selects, and with which bytes, is stated by `Frames.FrameEncode` for complete payloads and by `Frames.FrameExtend` for payloads that end inside an item.
- `Frames.Frame`: its own contract gives the shape of the framing only. What a flag bit selects, and with which bytes, is stated by `Frames.FrameEncode` for complete payloads and by `Frames.FrameExtend` for payloads that end inside an item.
- `Window.Inflate`: its own contract only classifies faults. What it decodes is stated by `Window.InflateMatchesReplay` and the lemmas on `Replay`.
- `Archive.UnpackWith`: its own contract states name validity, the empty archive and the header failures. What happens after a readable header is stated by `Archive.UnpackStep`, and what it extracts from packed folders by `Archive.RoundTrip`.
- `Archive.Pack`: names are required to be non-empty and free of zero bytes, as `readdir` guarantees. Files of 2^32 bytes or more are stored with their size reduced modulo 2^32, as the cast at line 436 does; the round trip is stated only below that size.

## Findings

| source | as written | input that shows it | evidently intended | confidence | as-written member | corrected member |
|---|---|---|---|---|---|---|
| src/archive.c:121-126 | the payload is read as one item of `compressed_size` bytes and a result other than 1 is fatal; for a zero size `fread` returns 0 (C11 7.21.8.1), so an empty payload is reported as unreadable | the archive `pack` writes for a folder holding one empty file `A`: `41 00 00 00 00 00 00 00 00 00 00 00` | an empty payload is read as empty and the file is restored, so that every packed folder unpacks | not executed | `Archive.EmptyFileFinding` | `Archive.PackUnpackRoundTrip` |
| src/archive.c:235-260 | the window is allocated with `max_offset` bytes, but the cursor reaches index `max_offset` before it wraps, so the byte produced after the first `max_offset` is written one past the allocation | a level-6 entry (`max_offset` 255) whose payload produces 256 literal bytes: the 256th goes to index 255 of a 255-byte window | a window of `max_offset`+1 bytes, the range the cursor and offsets actually take | not executed | `Window.WindowFinding`, `Window.WindowOverflowExample` | `Window.PutKeepsCached` |
