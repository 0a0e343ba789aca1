/** What a file transfer keeps on disk, src/ftp/ftp_store.c: the target, a `.part` file growing beside
    it, and a `.map` note naming the size and checksum the partial is going to have. */
module FtpStore {
  import opened Bytes
  import opened Errors
  import Arith
  import Crc

  datatype Disk = Disk(target: Option<seq<byte>>, part: Option<seq<byte>>, note: Option<seq<byte>>)

  // ----- the note -----

  const NOTE_MAGIC: uint32 := 0x4B465450
  const NOTE_VERSION: uint32 := 1
  const NOTE_SIZE := 20

  datatype Note = Note(total: uint32, crc: uint32)

  function NoteBody(n: Note): (b: seq<byte>)
    ensures |b| == 16
  {
    Put32(NOTE_MAGIC) + Put32(NOTE_VERSION) + Put32(n.total) + Put32(n.crc)
  }

  function NoteBytes(n: Note): (b: seq<byte>)
    ensures |b| == NOTE_SIZE
  {
    NoteBody(n) + Put32(Crc.Checksum(NoteBody(n)))
  }

  /** `read_note`: a short or damaged note is no note. */
  function ReadNote(b: seq<byte>): (r: Option<Note>)
    ensures r.Some? ==> |b| >= NOTE_SIZE
  {
    if |b| < NOTE_SIZE || Get32(b[0..4]) != NOTE_MAGIC || Get32(b[4..8]) != NOTE_VERSION
       || Get32(b[16..20]) != Crc.Checksum(b[0..16]) then None
    else Some(Note(Get32(b[8..12]), Get32(b[12..16])))
  }

  lemma ReadNoteBytes(n: Note)
    ensures ReadNote(NoteBytes(n)) == Some(n)
  {
    hide Put32, Get32, Crc.Checksum;
    var b := NoteBytes(n);
    assert b[0..16] == NoteBody(n);
    assert b[16..20] == Put32(Crc.Checksum(NoteBody(n)));
    assert b[0..4] == NoteBody(n)[0..4] == Put32(NOTE_MAGIC);
    assert b[4..8] == NoteBody(n)[4..8] == Put32(NOTE_VERSION);
    assert b[8..12] == NoteBody(n)[8..12] == Put32(n.total);
    assert b[12..16] == NoteBody(n)[12..16] == Put32(n.crc);
  }

  /** Bytes read as a note exactly when they begin with the encoding of it, checksum and all. */
  lemma ReadNoteIff(b: seq<byte>, n: Note)
    ensures ReadNote(b) == Some(n) <==> |b| >= NOTE_SIZE && b[..NOTE_SIZE] == NoteBytes(n)
  {
    hide Put32, Get32, Crc.Checksum;
    if |b| >= NOTE_SIZE {
      PutGet32(b[0..4]);
      PutGet32(b[4..8]);
      PutGet32(b[8..12]);
      PutGet32(b[12..16]);
      PutGet32(b[16..20]);
      assert b[0..16] == b[0..4] + b[4..8] + b[8..12] + b[12..16];
      assert b[..20] == b[0..16] + b[16..20];
      if b[..NOTE_SIZE] == NoteBytes(n) {
        ReadNoteBytes(n);
        var c := NoteBytes(n);
        assert b[0..4] == c[0..4] && b[4..8] == c[4..8] && b[8..12] == c[8..12] && b[12..16] == c[12..16] && b[16..20] == c[16..20] && b[0..16] == c[0..16];
      }
    }
  }

  /** The disk carries a readable note, and this is what it says. */
  function NoteOn(d: Disk): Option<Note> {
    if d.note.None? then None else ReadNote(d.note.value)
  }

  // ----- resuming -----

  datatype Resume = Resume(offset: nat, crc: uint32)

  /** `kfsw_ftp_partial_resume_point`: only a partial the note gives to this same file, neither empty
      nor complete, is continued; its own size is the offset. */
  function ResumePoint(d: Disk, wanted: Note): (r: Resume)
    ensures r.offset != 0 ==> NoteOn(d) == Some(wanted) && d.part.Some? && r.offset == |d.part.value| < wanted.total
                              && r.crc == Crc.Checksum(d.part.value)
    ensures r.offset == 0 ==> r.crc == 0
    ensures r.offset != 0 <==> NoteOn(d) == Some(wanted) && d.part.Some? && 0 < |d.part.value| < wanted.total
  {
    if NoteOn(d) != Some(wanted) || d.part.None? then Resume(0, 0)
    else if d.part.value == [] || |d.part.value| >= wanted.total then Resume(0, 0)
    else Resume(|d.part.value|, Crc.Checksum(d.part.value))
  }

  /** `kfsw_ftp_file_crc`: size and checksum by reading the file a chunk at a time. `good` is how many
      reads succeed, when one fails. */
  method FileCrc(data: seq<byte>, chunk: Positive, good: Option<nat>) returns (r: Result<Note>)
    ensures r.Ok? ==> |data| <= UINT32_MAX && r.value == Note(|data|, Crc.Checksum(data))
    ensures r.Err? ==> (r.error == EFBIG && |data| > UINT32_MAX) || (r.error == EIO && good.Some?)
    ensures good == Some(0) ==> r == Err(EIO)
  {
    var size: nat, crc: uint32, done := 0, 0, 0;
    Crc.ChecksumEmpty();
    assert data[..0] == [];
    while true
      invariant size <= |data| && size <= UINT32_MAX && crc == Crc.Checksum(data[..size])
      invariant done > 0 ==> good != Some(0)
      decreases |data| - size
    {
      if good == Some(done) {
        return Err(EIO);
      }
      done := done + 1;
      if size == |data| {
        break;
      }
      var end := Arith.Min(size + chunk, |data|);
      if end > UINT32_MAX {
        return Err(EFBIG);
      }
      Crc.UpdateConcat(data[..size], data[size..end]);
      assert data[..size] + data[size..end] == data[..end];
      crc := Crc.Update(crc, data[size..end]);
      size := end;
    }
    assert data[..size] == data;
    r := Ok(Note(size, crc));
  }

  // ----- what the leftovers promise -----

  function NoteOf(source: seq<byte>): Note
    requires |source| < 0x1_0000_0000
  {
    Note(|source|, Crc.Checksum(source))
  }

  /** A partial whose note names the source is a prefix of the source. */
  ghost predicate PartIsPrefix(d: Disk, source: seq<byte>)
    requires |source| < 0x1_0000_0000
  {
    NoteOn(d) == Some(NoteOf(source)) && d.part.Some? ==> d.part.value <= source
  }

  /** Content of the declared size and checksum. */
  predicate Declared(content: seq<byte>, n: Note) {
    |content| == n.total && Crc.Checksum(content) == n.crc
  }
}
