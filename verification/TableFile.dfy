/** The table file, the format part of src/table/table.c: a checksummed header and a run of entries. */
module TableFile {
  import opened Bytes
  import opened Errors
  import Arith
  import Crc
  import opened Registry

  /** Within the range its Kconfig entry allows. */
  type EntryLimit = n: nat | 1 <= n <= 255 witness 1
  const MAX_ENTRIES: EntryLimit

  const MAGIC: seq<byte> := [0x4B, 0x54, 0x42, 0x4C]
  const VERSION := 1
  const HEADER_SIZE := 20
  const CRC_OFFSET := 16
  const ENTRY_HEADER_SIZE := 4

  function MaxBytes(): nat {
    HEADER_SIZE + MAX_ENTRIES * (ENTRY_HEADER_SIZE + STRING_MAX)
  }

  datatype FileEntry = FileEntry(offset: byte, code: byte, value: seq<byte>)

  predicate Sized(e: FileEntry) {
    1 <= |e.value| <= STRING_MAX
  }

  predicate AllSized(es: seq<FileEntry>) {
    forall k :: 0 <= k < |es| ==> Sized(es[k])
  }

  function EntryBytes(e: FileEntry): (b: seq<byte>)
    requires Sized(e)
    ensures |b| == ENTRY_HEADER_SIZE + |e.value|
  {
    [e.offset, e.code] + Put16(|e.value|) + e.value
  }

  /** A run of entries as it lies in the file. */
  function Payload(es: seq<FileEntry>): (b: seq<byte>)
    requires AllSized(es)
  {
    if es == [] then [] else EntryBytes(es[0]) + Payload(es[1..])
  }

  lemma {:induction false} PayloadAppend(es: seq<FileEntry>, e: FileEntry)
    requires AllSized(es) && Sized(e)
    ensures Payload(es + [e]) == Payload(es) + EntryBytes(e)
  {
    hide EntryBytes;
    if es == [] {
      assert es + [e] == [e] && [e][1..] == [];
    } else {
      assert (es + [e])[1..] == es[1..] + [e];
      PayloadAppend(es[1..], e);
    }
  }

  lemma {:induction false} PayloadSize(es: seq<FileEntry>)
    requires AllSized(es)
    ensures |Payload(es)| <= |es| * (ENTRY_HEADER_SIZE + STRING_MAX)
  {
    if es != [] {
      PayloadSize(es[1..]);
      assert |es| * (ENTRY_HEADER_SIZE + STRING_MAX) == (|es| - 1) * (ENTRY_HEADER_SIZE + STRING_MAX) + (ENTRY_HEADER_SIZE + STRING_MAX);
    }
  }

  // ----- parsing -----

  /** `next_entry`. */
  function NextEntry(image: seq<byte>, offset: nat): (r: Option<FileEntry>)
    ensures r.Some? ==> Sized(r.value) && offset + ENTRY_HEADER_SIZE + |r.value.value| <= |image|
  {
    if offset + ENTRY_HEADER_SIZE > |image| then None else
    var size := Get16(image[offset + 2..offset + 4]);
    var start := offset + ENTRY_HEADER_SIZE;
    if size == 0 || size > STRING_MAX || start + size > |image| then None
    else Some(FileEntry(image[offset], image[offset + 1], image[start..start + size]))
  }

  function After(offset: nat, e: FileEntry): nat {
    offset + ENTRY_HEADER_SIZE + |e.value|
  }

  /** The bytes at `offset` start with an entry exactly when `next_entry` finds it. */
  lemma NextEntryIff(image: seq<byte>, offset: nat, e: FileEntry)
    requires offset <= |image|
    ensures NextEntry(image, offset) == Some(e) <==> Sized(e) && EntryBytes(e) <= image[offset..]
  {
    hide Put16, Get16;
    if Sized(e) && EntryBytes(e) <= image[offset..] {
      var b := EntryBytes(e);
      assert image[offset..offset + |b|] == b;
      assert image[offset] == b[0] && image[offset + 1] == b[1];
      assert image[offset + 2..offset + 4] == b[2..4] == Put16(|e.value|);
      assert image[offset + 4..offset + 4 + |e.value|] == b[4..] == e.value;
    }
    if NextEntry(image, offset) == Some(e) {
      PutGet16(image[offset + 2..offset + 4]);
      assert image[offset..][..|EntryBytes(e)|] == EntryBytes(e);
    }
  }

  /** All of the file from `offset` on, as `n` entries. */
  function ParseFrom(image: seq<byte>, offset: nat, n: nat): (r: Option<seq<FileEntry>>)
    requires offset <= |image|
    decreases n
  {
    if n == 0 then if offset == |image| then Some([]) else None
    else match NextEntry(image, offset)
      case None => None
      case Some(e) =>
        match ParseFrom(image, After(offset, e), n - 1)
        case None => None
        case Some(rest) => Some([e] + rest)
  }

  /** A file parses to a list exactly when it is that list laid out. */
  lemma {:induction false} ParseIff(image: seq<byte>, offset: nat, n: nat, es: seq<FileEntry>)
    requires offset <= |image|
    ensures ParseFrom(image, offset, n) == Some(es) <==> |es| == n && AllSized(es) && Payload(es) == image[offset..]
    decreases n
  {
    hide EntryBytes, NextEntry;
    if n == 0 {
      assert ParseFrom(image, offset, n) == Some(es) ==> es == [];
    } else {
      if ParseFrom(image, offset, n) == Some(es) {
        ParsedIsLaidOut(image, offset, n, es);
      }
      if |es| == n && AllSized(es) && Payload(es) == image[offset..] {
        LaidOutIsParsed(image, offset, n, es);
      }
    }
  }

  lemma {:induction false} ParsedIsLaidOut(image: seq<byte>, offset: nat, n: nat, es: seq<FileEntry>)
    requires offset <= |image| && n > 0 && ParseFrom(image, offset, n) == Some(es)
    ensures |es| == n && AllSized(es) && Payload(es) == image[offset..]
    decreases n, 0
  {
    hide EntryBytes, NextEntry;
    var e := NextEntry(image, offset).value;
    assert es[0] == e;
    assert ParseFrom(image, After(offset, e), n - 1) == Some(es[1..]);
    NextEntryIff(image, offset, e);
    ParseIff(image, After(offset, e), n - 1, es[1..]);
    assert AllSized(es) by {
      assert forall k :: 1 <= k < |es| ==> es[k] == es[1..][k - 1];
    }
    assert image[offset..] == EntryBytes(e) + image[offset..][|EntryBytes(e)|..];
    assert image[offset..][|EntryBytes(e)|..] == image[After(offset, e)..];
  }

  lemma {:induction false} LaidOutIsParsed(image: seq<byte>, offset: nat, n: nat, es: seq<FileEntry>)
    requires offset <= |image| && |es| == n > 0 && AllSized(es) && Payload(es) == image[offset..]
    ensures ParseFrom(image, offset, n) == Some(es)
    decreases n, 0
  {
    hide EntryBytes, NextEntry;
    var e := es[0];
    assert image[offset..] == EntryBytes(e) + Payload(es[1..]);
    NextEntryIff(image, offset, e);
    assert image[After(offset, e)..] == image[offset..][|EntryBytes(e)|..] == Payload(es[1..]);
    ParseIff(image, After(offset, e), n - 1, es[1..]);
    assert es == [e] + es[1..];
  }

  // ----- header -----

  function HeaderFields(table: byte, count: uint16, size: uint32, crc: uint32): (b: seq<byte>)
    ensures |b| == HEADER_SIZE
  {
    MAGIC + Put16(VERSION) + Put16(HEADER_SIZE) + Put32(size) + Put16(count) + [table, 0] + Put32(crc)
  }

  /** Where each field of the header and of an entry lies. */
  lemma FileLayout(table: byte, count: uint16, size: uint32, crc: uint32, e: FileEntry)
    requires Sized(e)
    ensures var b := HeaderFields(table, count, size, crc);
            && |b| == 20 && b[..4] == MAGIC && Get16(b[4..6]) == VERSION && Get16(b[6..8]) == 20 && Get32(b[8..12]) == size
            && Get16(b[12..14]) == count && b[14] == table && b[15] == 0 && Get32(b[16..20]) == crc
    ensures var b := EntryBytes(e);
            |b| == 4 + |e.value| && b[0] == e.offset && b[1] == e.code && Get16(b[2..4]) == |e.value| && b[4..] == e.value
  {
    hide Put16, Put32, Get16, Get32;
    var b, c := HeaderFields(table, count, size, crc), EntryBytes(e);
    assert b[4..6] == Put16(VERSION) && b[6..8] == Put16(HEADER_SIZE) && b[8..12] == Put32(size);
    assert b[12..14] == Put16(count) && b[16..20] == Put32(crc) && c[2..4] == Put16(|e.value|);
  }

  /** The checksum of a file with its checksum field zero. */
  function FileCrc(image: seq<byte>): uint32
    requires |image| >= HEADER_SIZE
  {
    Crc.Checksum(image[..CRC_OFFSET] + Put32(0) + image[HEADER_SIZE..])
  }

  /** The file `kfsw_table_dump` writes for a list of entries. */
  function FileBytes(table: byte, es: seq<FileEntry>): (b: seq<byte>)
    requires AllSized(es) && 1 <= |es| <= MAX_ENTRIES
    ensures |b| >= HEADER_SIZE
  {
    PayloadFits(es);
    var blank := HeaderFields(table, |es|, |Payload(es)|, 0) + Payload(es);
    HeaderFields(table, |es|, |Payload(es)|, Crc.Checksum(blank)) + Payload(es)
  }

  lemma PayloadFits(es: seq<FileEntry>)
    requires AllSized(es) && |es| <= MAX_ENTRIES
    ensures |Payload(es)| < 0x1_0000_0000 && HEADER_SIZE + |Payload(es)| <= MaxBytes()
  {
    hide Payload;
    PayloadSize(es);
    Arith.Monotone(|es|, MAX_ENTRIES, ENTRY_HEADER_SIZE + STRING_MAX);
    Arith.Monotone(MAX_ENTRIES, 255, ENTRY_HEADER_SIZE + STRING_MAX);
  }

  datatype Header = Header(count: nat, table: byte)

  /** `validate_header`. */
  function ReadHeader(image: seq<byte>): (r: Result<Header>)
    requires |image| >= HEADER_SIZE
    ensures r.Ok? ==> 1 <= r.value.count <= MAX_ENTRIES && TABLE_FIRST <= r.value.table <= TABLE_LAST
  {
    if image[..4] != MAGIC then Err(EBADMSG)
    else if Get16(image[4..6]) != VERSION then Err(ENOTSUP)
    else if Get16(image[6..8]) != HEADER_SIZE then Err(EBADMSG)
    else if Get32(image[8..12]) != |image| - HEADER_SIZE then Err(EBADMSG)
    else
      var count, table := Get16(image[12..14]), image[14];
      if count == 0 || count > MAX_ENTRIES then Err(EBADMSG)
      else if table < TABLE_FIRST || table > TABLE_LAST then Err(EBADMSG)
      else if FileCrc(image) != Get32(image[16..20]) then Err(EBADMSG)
      else Ok(Header(count, table))
  }

  lemma HeaderSlices(table: byte, count: uint16, size: uint32, crc: uint32, rest: seq<byte>)
    ensures var b := HeaderFields(table, count, size, crc) + rest;
            && |b| == HEADER_SIZE + |rest| && b[..4] == MAGIC && b[4..6] == Put16(VERSION) && b[6..8] == Put16(HEADER_SIZE)
            && b[8..12] == Put32(size) && b[12..14] == Put16(count) && b[14] == table && b[16..20] == Put32(crc)
            && b[HEADER_SIZE..] == rest
            && b[..CRC_OFFSET] + Put32(0) + b[HEADER_SIZE..] == HeaderFields(table, count, size, 0) + rest
  {
    hide Put16, Put32, Get16, Get32;
  }

  /** A header is accepted exactly when it is, but for the reserved byte, the one written for its table, its
      count and this file's size, with the checksum of this file. */
  lemma HeaderIff(image: seq<byte>, h: Header)
    requires |image| >= HEADER_SIZE
    ensures ReadHeader(image) == Ok(h) <==>
            1 <= h.count <= MAX_ENTRIES && 1 <= h.table <= 99 && |image| - HEADER_SIZE < 0x1_0000_0000
            && image[..15] == HeaderFields(h.table, h.count, |image| - HEADER_SIZE, 0)[..15]
            && image[16..20] == Put32(Crc.Checksum(image[..16] + [0, 0, 0, 0] + image[20..]))
  {
    hide Put16, Put32, Get16, Get32, Crc.Checksum;
    PutGet16(image[4..6]);
    PutGet16(image[6..8]);
    PutGet32(image[8..12]);
    PutGet16(image[12..14]);
    PutGet32(image[16..20]);
    ZeroWord();
    assert image[..15] == image[..4] + image[4..6] + image[6..8] + image[8..12] + image[12..14] + [image[14]];
    if 1 <= h.count <= MAX_ENTRIES && |image| - HEADER_SIZE < 0x1_0000_0000 {
      HeaderSlices(h.table, h.count, |image| - HEADER_SIZE, 0, []);
      var b := HeaderFields(h.table, h.count, |image| - HEADER_SIZE, 0);
      assert b + [] == b;
      assert b[..15] == b[..4] + b[4..6] + b[6..8] + b[8..12] + b[12..14] + [b[14]];
      if image[..15] == b[..15] {
        assert image[..4] == image[..15][..4] && image[4..6] == image[..15][4..6] && image[6..8] == image[..15][6..8];
        assert image[8..12] == image[..15][8..12] && image[12..14] == image[..15][12..14] && image[14] == image[..15][14];
        assert b[..4] == b[..15][..4] && b[4..6] == b[..15][4..6] && b[6..8] == b[..15][6..8];
        assert b[8..12] == b[..15][8..12] && b[12..14] == b[..15][12..14] && b[14] == b[..15][14];
      }
    }
  }

  lemma ZeroWord()
    ensures Put32(0) == [0, 0, 0, 0]
  {
  }

  /** The table and entries a file holds, if it is well formed. */
  function Contents(image: seq<byte>): (r: Option<(byte, seq<FileEntry>)>)
    requires |image| >= HEADER_SIZE
  {
    match ReadHeader(image)
    case Err(_) => None
    case Ok(h) => match ParseFrom(image, HEADER_SIZE, h.count) { case None => None case Some(es) => Some((h.table, es)) }
  }

  /** A written file passes the header checks and parses back to what was written. */
  lemma FileRoundTrip(table: byte, es: seq<FileEntry>)
    requires AllSized(es) && 1 <= |es| <= MAX_ENTRIES && TABLE_FIRST <= table <= TABLE_LAST
    ensures |FileBytes(table, es)| <= MaxBytes()
    ensures ReadHeader(FileBytes(table, es)) == Ok(Header(|es|, table))
    ensures Contents(FileBytes(table, es)) == Some((table, es))
  {
    PayloadFits(es);
    hide Put16, Put32, Get16, Get32, HeaderFields, Payload, ParseFrom;
    var p := Payload(es);
    var crc := Crc.Checksum(HeaderFields(table, |es|, |p|, 0) + p);
    var b := FileBytes(table, es);
    assert b == HeaderFields(table, |es|, |p|, crc) + p;
    HeaderSlices(table, |es|, |p|, crc, p);
    ParseIff(b, HEADER_SIZE, |es|, es);
  }
}
