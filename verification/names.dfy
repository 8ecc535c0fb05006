/** Entry names: the character test and the fixed-width name field that
    opens every entry record (`src/archive.c`, lines 20-36 and 54-82). */
module Names {
  import opened Bytes

  /** Bytes read for a name: an 8.3 name plus its terminator. */
  const FILENAME_SIZE: nat := 13

  /** The character test as the program states it, on the value of a
      (signed) `char`: it admits printable ASCII only, and on that range
      exactly the glyphs of `DosNameChar`. */
  function ValidFilenameCharacter(c: int): (ok: bool)
    ensures ok ==> 33 <= c <= 126
    ensures 0 <= c < 128 ==> (ok <==> DosNameChar(c as char))
  {
    || (36 <= c <= 41)
    || (48 <= c <= 57)
    || (64 <= c <= 90)
    || (94 <= c <= 123)
    || c == 33
    || c == 45
    || c == 46
    || c == 125
    || c == 126
  }

  /** The glyphs an MS-DOS short name may use in this format, listed by
      glyph rather than by code: an independent statement of the set. */
  predicate DosNameChar(ch: char)
  {
    || ch in "!-.}~"
    || ('0' <= ch <= '9')
    || ('@' <= ch <= 'Z')
    || ('^' <= ch <= '{')
    || ('$' <= ch <= ')')
  }

  /** Whether an archive byte passes the character test once it has been
      read into a `char`. */
  function NameByte(b: byte): (ok: bool)
    ensures ok <==> DosNameChar(b as char)
    ensures ok ==> 33 <= b <= 126 && b != 32 && b != 47
  {
    ValidFilenameCharacter(AsChar(b))
  }

  /** A name the unpacker accepts: 1 to 12 valid characters. */
  predicate ValidName(name: seq<byte>)
  {
    && 1 <= |name| < FILENAME_SIZE
    && forall k | 0 <= k < |name| :: NameByte(name[k])
  }

  /** The field read at the start of a record holds a valid name whose
      terminating zero sits at index `j`. */
  predicate NameEndsAt(field: seq<byte>, j: int)
  {
    && 1 <= j < |field|
    && field[j] == 0
    && ValidName(field[..j])
  }

  /** What the unpacker makes of the bytes read for a name. */
  datatype NameField =
    | Missing           // nothing left to read: fatal
    | EndOfArchive      // exactly one zero byte left: the terminator
    | Named(name: seq<byte>)
    | Invalid           // bad character or no terminator: fatal

  /** The validation loop of lines 72-82, from index `i` on: stop at the
      first zero past index 0, refuse a bad character or a last byte that
      is not a terminator. */
  function ScanName(field: seq<byte>, i: nat): (r: NameField)
    requires i < |field|
    ensures r.Named? || r.Invalid?
    ensures r.Named? ==>
              && 0 < |r.name| < |field| && i <= |r.name|
              && r.name == field[..|r.name|] && field[|r.name|] == 0
              && forall k | i <= k < |r.name| :: NameByte(field[k])
    decreases |field| - i
  {
    if i > 0 && field[i] == 0 then Named(field[..i])
    else if !NameByte(field[i]) || (i == |field| - 1 && field[i] != 0) then Invalid
    else ScanName(field, i + 1)
  }

  /** Lines 56-82 applied to the (at most 13) bytes that `fread` returned. */
  function ReadNameField(field: seq<byte>): (r: NameField)
    requires |field| <= FILENAME_SIZE
    ensures r == Missing <==> |field| == 0
    ensures r == EndOfArchive <==> field == [0]
    ensures r.Named? <==> exists j :: NameEndsAt(field, j)
    ensures r.Named? ==> NameEndsAt(field, |r.name|) && r.name == field[..|r.name|]
  {
    if |field| == 0 then Missing
    else if |field| == 1 && field[0] == 0 then EndOfArchive
    else
      ScanAgrees(field);
      ScanName(field, 0)
  }

  /** The scan from index 0 accepts exactly the fields that hold a
      terminated valid name, and returns that name. */
  lemma ScanAgrees(field: seq<byte>)
    requires 1 <= |field| <= FILENAME_SIZE
    ensures ScanName(field, 0).Named? <==> exists j :: NameEndsAt(field, j)
    ensures ScanName(field, 0).Named? ==>
              NameEndsAt(field, |ScanName(field, 0).name|)
              && ScanName(field, 0).name == field[..|ScanName(field, 0).name|]
  {
    ScanSound(field, 0);
    if j :| NameEndsAt(field, j) {
      ScanFinds(field, 0, j);
    }
  }

  /** Whatever the scan accepts is a terminated valid name. */
  lemma {:induction false} ScanSound(field: seq<byte>, i: nat)
    requires i < |field| <= FILENAME_SIZE
    requires forall k | 0 <= k < i :: NameByte(field[k])
    ensures ScanName(field, i).Named? ==>
              NameEndsAt(field, |ScanName(field, i).name|)
              && ScanName(field, i).name == field[..|ScanName(field, i).name|]
    decreases |field| - i
  {
    if i > 0 && field[i] == 0 {
      assert ValidName(field[..i]);
    } else if !NameByte(field[i]) || (i == |field| - 1 && field[i] != 0) {
    } else {
      ScanSound(field, i + 1);
    }
  }

  /** A terminated valid name is found by the scan, from any index up to
      its terminator. */
  lemma {:induction false} ScanFinds(field: seq<byte>, i: nat, j: nat)
    requires i <= j
    requires NameEndsAt(field, j)
    ensures ScanName(field, i) == Named(field[..j])
    decreases j - i
  {
    if i < j {
      assert field[..j][i] == field[i];
      ScanFinds(field, i + 1, j);
    }
  }

  /** A field holds at most one terminated valid name: the bytes of a valid
      name are never zero, so no earlier zero can end it. */
  lemma TerminatorUnique(field: seq<byte>, i: int, j: int)
    requires NameEndsAt(field, i) && NameEndsAt(field, j)
    ensures i == j
  {
  }

  /** The field read at the start of a record that begins with a valid
      name and its terminator holds exactly that name. */
  lemma ReadsName(name: seq<byte>, rest: seq<byte>)
    requires ValidName(name)
    ensures var a := name + [0] + rest;
            ReadNameField(a[..if |a| < FILENAME_SIZE then |a| else FILENAME_SIZE]) == Named(name)
  {
    var a := name + [0] + rest;
    var field := a[..if |a| < FILENAME_SIZE then |a| else FILENAME_SIZE];
    assert field[..|name|] == name;
    assert NameEndsAt(field, |name|);
    var r := ReadNameField(field);
    TerminatorUnique(field, |r.name|, |name|);
  }
}
