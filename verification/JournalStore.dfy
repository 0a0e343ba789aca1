/** The journal file and its in-memory index, src/journal/journal_store.c: a ring of fixed-size
    records, each in the slot its sequence number selects. */
module JournalStore {
  import opened Bytes
  import opened Errors
  import Crc
  import Arith
  import Sets

  /** Within the range its Kconfig entry allows. */
  type CapacityLimit = n: nat | 8 <= n <= 256 witness 8
  const CAPACITY: CapacityLimit
  const HEADER_SIZE := 16
  const RECORD_SIZE := 72
  const MAX_PAYLOAD_SIZE := 16
  const CRITICAL: byte := 3
  const SOURCE_BOOT: uint16 := 1
  const SOURCE_RESMON: uint16 := 7

  datatype Event = Event(
    monotonicUs: uint64, sequence: uint32, source: uint16, id: uint16, severity: byte, payload: seq<byte>)

  datatype Record = Record(sequence: uint64, boot: uint64, utcSeconds: int64, utcValid: bool, event: Event)

  // ----- one record -----

  predicate SourceKnown(e: Event) {
    SOURCE_BOOT <= e.source <= SOURCE_RESMON
  }

  /** The checks an append makes on a record. */
  predicate Appendable(r: Record) {
    0 < r.boot < UINT64_MAX && |r.event.payload| <= MAX_PAYLOAD_SIZE && r.event.severity <= CRITICAL
  }

  predicate Storable(r: Record) {
    Appendable(r) && SourceKnown(r.event) && 0 < r.sequence < UINT64_MAX
  }

  function Zeros(n: nat): (z: seq<byte>)
    ensures |z| == n && forall i :: 0 <= i < n ==> z[i] == 0
  {
    seq(n, _ => 0)
  }

  const MAGIC: seq<byte> := [0x4B, 0x46, 0x45, 0x31]  // "KFE1"

  /** The record without its checksum: head, four 64-bit fields, event, padded payload. */
  function Head(r: Record): (h: seq<byte>)
    ensures |h| == 8
  {
    MAGIC + [1, if r.utcValid then 1 else 0] + Put16(RECORD_SIZE)
  }

  function Numbers(r: Record): (n: seq<byte>)
    ensures |n| == 32
  {
    Put64(r.sequence) + Put64(r.boot) + Put64(r.event.monotonicUs) + Put64(Unsigned64(r.utcSeconds))
  }

  function EventFields(r: Record): (e: seq<byte>)
    requires |r.event.payload| <= MAX_PAYLOAD_SIZE
    ensures |e| == 28
  {
    Put32(r.event.sequence) + Put16(r.event.source) + Put16(r.event.id)
    + [r.event.severity, |r.event.payload|, 0, 0]
    + r.event.payload + Zeros(MAX_PAYLOAD_SIZE - |r.event.payload|)
  }

  function Body(r: Record): (b: seq<byte>)
    requires |r.event.payload| <= MAX_PAYLOAD_SIZE
    ensures |b| == 68
  {
    Head(r) + Numbers(r) + EventFields(r)
  }

  function Encode(r: Record): (b: seq<byte>)
    requires |r.event.payload| <= MAX_PAYLOAD_SIZE
    ensures |b| == RECORD_SIZE
  {
    Body(r) + Put32(Crc.Checksum(Body(r)))
  }

  function Decode(b: seq<byte>): (r: Result<Record>)
    requires |b| == RECORD_SIZE
    ensures r.Ok? ==> Storable(r.value)
  {
    if b[..4] != MAGIC || b[4] != 1 || b[5] > 1 || Get16(b[6..8]) != RECORD_SIZE
       || Get32(b[68..72]) != Crc.Checksum(b[..68])
       || Get16(b[44..46]) < SOURCE_BOOT || Get16(b[44..46]) > SOURCE_RESMON
       || b[48] > CRITICAL || b[49] > MAX_PAYLOAD_SIZE || b[50] != 0 || b[51] != 0 then Err(EBADMSG)
    else
      var sequence := Get64(b[8..16]);
      var boot := Get64(b[16..24]);
      if sequence == 0 || sequence == UINT64_MAX || boot == 0 || boot == UINT64_MAX then Err(EBADMSG)
      else Ok(Record(sequence, boot, Signed64(Get64(b[32..40])), b[5] != 0,
                     Event(Get64(b[24..32]), Get32(b[40..44]), Get16(b[44..46]), Get16(b[46..48]),
                           b[48], b[52..52 + b[49]])))
  }

  /** Where each field of a record lies. */
  lemma RecordLayout(r: Record)
    requires |r.event.payload| <= MAX_PAYLOAD_SIZE
    ensures var b := Encode(r);
            && |b| == 72 && b[..4] == [0x4B, 0x46, 0x45, 0x31] && b[4] == 1 && b[5] == (if r.utcValid then 1 else 0)
            && Get16(b[6..8]) == 72 && Get64(b[8..16]) == r.sequence && Get64(b[16..24]) == r.boot
            && Get64(b[24..32]) == r.event.monotonicUs && Get64(b[32..40]) == Unsigned64(r.utcSeconds)
  {
    hide Put16, Put32, Put64, Get16, Get32, Get64, Crc.Checksum;
    var b := Encode(r);
    assert b[6..8] == Put16(RECORD_SIZE) && b[8..40] == Numbers(r);
    NumbersRead(r, b);
  }

  lemma EventLayout(r: Record)
    requires |r.event.payload| <= MAX_PAYLOAD_SIZE
    ensures var b := Encode(r);
            && Get32(b[40..44]) == r.event.sequence && Get16(b[44..46]) == r.event.source && Get16(b[46..48]) == r.event.id
            && b[48] == r.event.severity && b[49] == |r.event.payload| && b[50] == b[51] == 0
            && b[52..52 + |r.event.payload|] == r.event.payload && Get32(b[68..72]) == Crc.Checksum(b[..68])
  {
    hide Put16, Put32, Put64, Get16, Get32, Get64, Crc.Checksum;
    var b := Encode(r);
    assert b[..68] == Body(r) && b[68..72] == Put32(Crc.Checksum(Body(r)));
    assert b[40..44] == Put32(r.event.sequence) && b[44..46] == Put16(r.event.source) && b[46..48] == Put16(r.event.id);
  }

  lemma NumbersRead(r: Record, b: seq<byte>)
    requires |b| >= 40 && b[8..40] == Numbers(r)
    ensures b[8..16] == Put64(r.sequence) && b[16..24] == Put64(r.boot)
    ensures b[24..32] == Put64(r.event.monotonicUs) && b[32..40] == Put64(Unsigned64(r.utcSeconds))
  {
    var n := Numbers(r);
    assert forall k :: 0 <= k < 32 ==> b[8 + k] == b[8..40][k] == n[k];
    assert n[0..8] == Put64(r.sequence) && n[8..16] == Put64(r.boot);
    assert n[16..24] == Put64(r.event.monotonicUs) && n[24..32] == Put64(Unsigned64(r.utcSeconds));
    assert b[8..16] == n[0..8];
    assert b[16..24] == n[8..16];
    assert b[24..32] == n[16..24];
    assert b[32..40] == n[24..32];
  }

  lemma EventRead(r: Record, b: seq<byte>)
    requires |r.event.payload| <= MAX_PAYLOAD_SIZE && |b| >= 68 && b[40..68] == EventFields(r)
    ensures Get32(b[40..44]) == r.event.sequence && Get16(b[44..46]) == r.event.source
    ensures Get16(b[46..48]) == r.event.id && b[48] == r.event.severity && b[49] == |r.event.payload|
    ensures b[50] == 0 && b[51] == 0 && b[52..52 + b[49]] == r.event.payload
  {
    var e := EventFields(r);
    assert forall k :: 0 <= k < 28 ==> b[40 + k] == b[40..68][k] == e[k];
    assert b[40..44] == e[0..4] == Put32(r.event.sequence);
    assert b[44..46] == e[4..6] == Put16(r.event.source);
    assert b[46..48] == e[6..8] == Put16(r.event.id);
    assert b[48] == e[8] && b[49] == e[9] && b[50] == e[10] && b[51] == e[11];
    assert b[52..52 + b[49]] == e[12..12 + |r.event.payload|] == r.event.payload;
  }

  /** Every record an append accepts reads back as itself. */
  lemma DecodeEncode(r: Record)
    requires Storable(r)
    ensures Decode(Encode(r)) == Ok(r)
  {
    hide Put16, Put32, Put64, Get16, Get32, Get64, Crc.Checksum, Body, Numbers, EventFields;
    var b := Encode(r);
    HeadRead(r);
    NumbersRead(r, b);
    assert Signed64(Unsigned64(r.utcSeconds)) == r.utcSeconds;
    EventRead(r, b);
  }

  /** Bytes decode to a record exactly when they spell it, up to the end of its payload, and carry their own
      checksum. The padding after a short payload may be anything. */
  lemma DecodeIff(b: seq<byte>, r: Record)
    requires |b| == RECORD_SIZE
    ensures Decode(b) == Ok(r) <==>
            Storable(r) && b[..52 + |r.event.payload|] == Body(r)[..52 + |r.event.payload|] && b[68..72] == Put32(Crc.Checksum(b[..68]))
  {
    hide Put16, Put32, Put64, Get16, Get32, Get64, Crc.Checksum, Signed64, Unsigned64;
    PutGet32(b[68..72]);
    if Decode(b) == Ok(r) {
      Respelled(b, r);
    }
    if Storable(r) && b[..52 + |r.event.payload|] == Body(r)[..52 + |r.event.payload|] && b[68..72] == Put32(Crc.Checksum(b[..68])) {
      Spelled(b, r);
    }
  }

  lemma Respelled(b: seq<byte>, r: Record)
    requires |b| == RECORD_SIZE && Decode(b) == Ok(r)
    ensures b[..52 + |r.event.payload|] == Body(r)[..52 + |r.event.payload|]
  {
    hide Put16, Put32, Put64, Get16, Get32, Get64, Crc.Checksum, Signed64, Unsigned64, Zeros;
    PutGet16(b[6..8]);
    PutGet64(b[8..16]);
    PutGet64(b[16..24]);
    PutGet64(b[24..32]);
    PutGet64(b[32..40]);
    PutGet32(b[40..44]);
    PutGet16(b[44..46]);
    PutGet16(b[46..48]);
    var n := |r.event.payload|;
    assert Head(r) == b[..8] by {
      assert b[..8] == b[..4] + [b[4], b[5]] + b[6..8];
    }
    assert Numbers(r) == b[8..40] by {
      assert b[8..40] == b[8..16] + b[16..24] + b[24..32] + b[32..40];
    }
    assert EventFields(r)[..12 + n] == b[40..52 + n] by {
      assert b[40..52 + n] == b[40..44] + b[44..46] + b[46..48] + [b[48], b[49], b[50], b[51]] + b[52..52 + n];
    }
    assert b[..52 + n] == b[..8] + b[8..40] + b[40..52 + n];
    assert Body(r)[..52 + n] == Head(r) + Numbers(r) + EventFields(r)[..12 + n];
  }

  lemma Spelled(b: seq<byte>, r: Record)
    requires |b| == RECORD_SIZE && Storable(r)
    requires b[..52 + |r.event.payload|] == Body(r)[..52 + |r.event.payload|] && b[68..72] == Put32(Crc.Checksum(b[..68]))
    ensures Decode(b) == Ok(r)
  {
    hide Put16, Put32, Put64, Get16, Get32, Get64, Crc.Checksum, Signed64, Unsigned64, Body, Numbers, EventFields, Head;
    var n, e := |r.event.payload|, Encode(r);
    HeadRead(r);
    NumbersRead(r, e);
    EventRead(r, e);
    SignedBack(r.utcSeconds);
    assert forall i :: 0 <= i < 52 + n ==> b[i] == e[i] by {
      forall i | 0 <= i < 52 + n ensures b[i] == e[i] {
        assert b[i] == b[..52 + n][i] == Body(r)[..52 + n][i] == Body(r)[i] == e[..68][i];
      }
    }
    SameSlice(b, e, 52 + n, 0, 4);
    SameSlice(b, e, 52 + n, 6, 8);
    SameSlice(b, e, 52 + n, 8, 16);
    SameSlice(b, e, 52 + n, 16, 24);
    SameSlice(b, e, 52 + n, 24, 32);
    SameSlice(b, e, 52 + n, 32, 40);
    SameSlice(b, e, 52 + n, 40, 44);
    SameSlice(b, e, 52 + n, 44, 46);
    SameSlice(b, e, 52 + n, 46, 48);
    SameSlice(b, e, 52 + n, 52, 52 + n);
  }

  lemma SameSlice(a: seq<byte>, b: seq<byte>, n: nat, i: nat, j: nat)
    requires i <= j <= n <= |a| && n <= |b| && forall k :: 0 <= k < n ==> a[k] == b[k]
    ensures a[i..j] == b[i..j]
  {
  }

  lemma SignedBack(v: int64)
    ensures Signed64(Unsigned64(v)) == v
  {
  }

  lemma HeadRead(r: Record)
    requires |r.event.payload| <= MAX_PAYLOAD_SIZE
    ensures var b := Encode(r);
            b[..68] == Body(r) && b[68..72] == Put32(Crc.Checksum(Body(r)))
            && b[..4] == MAGIC && b[4] == 1 && b[5] == (if r.utcValid then 1 else 0)
            && b[6..8] == Put16(RECORD_SIZE) && b[8..40] == Numbers(r) && b[40..68] == EventFields(r)
  {
    var b := Encode(r);
    var body := Body(r);
    var h := Head(r);
    assert body[..8] == h && body[8..40] == Numbers(r) && body[40..68] == EventFields(r);
    assert b[..68] == body;
    assert b[68..] == Put32(Crc.Checksum(body)) && b[68..72] == b[68..];
    assert forall k :: 0 <= k < 8 ==> b[k] == body[k] == h[k];
    assert b[..4] == h[..4] && b[6..8] == h[6..8];
    assert b[8..40] == body[8..40] && b[40..68] == body[40..68];
  }

  // ----- the file -----

  function SlotOf(sequence: uint64): (slot: nat)
    ensures slot < CAPACITY
  {
    (sequence - 1) % CAPACITY
  }

  function SlotStart(slot: nat): (n: nat)
    ensures n == HEADER_SIZE + slot * RECORD_SIZE
  {
    HEADER_SIZE + slot * RECORD_SIZE
  }

  /** The record that the scan accepts at `slot`: complete, decodable, and in its own slot. */
  function RecordAt(file: seq<byte>, slot: nat): (r: Option<Record>)
    ensures r.Some? ==> Storable(r.value) && SlotOf(r.value.sequence) == slot
  {
    if SlotStart(slot + 1) > |file| then None
    else
      var d := Decode(file[SlotStart(slot)..SlotStart(slot + 1)]);
      if d.Ok? && SlotOf(d.value.sequence) == slot then Some(d.value) else None
  }

  /** Its sequence, zero for a slot that holds none. */
  function SequenceAt(file: seq<byte>, slot: nat): (s: uint64)
    ensures s != 0 ==> s < UINT64_MAX && SlotOf(s) == slot
  {
    var r := RecordAt(file, slot);
    if r.Some? then r.value.sequence else 0
  }

  const FILE_HEADER: seq<byte> :=
    var h: seq<byte> := [0x4B, 0x46, 0x4A, 0x31, 1, 0] + Put16(RECORD_SIZE) + Put32(CAPACITY % 0x1_0000_0000);
    h + Put32(Crc.Checksum(h))

  predicate HeaderOk(file: seq<byte>) {
    |file| >= HEADER_SIZE && file[..HEADER_SIZE] == FILE_HEADER
  }

  /** What a journal file begins with: its mark and version, the size and number of its records, and the checksum
      of these. */
  lemma HeaderIff(file: seq<byte>)
    ensures HeaderOk(file) <==>
            && |file| >= 16 && file[..6] == [0x4B, 0x46, 0x4A, 0x31, 1, 0] && Get16(file[6..8]) == 72
            && Get32(file[8..12]) == CAPACITY % 0x1_0000_0000 && Get32(file[12..16]) == Crc.Checksum(file[..12])
  {
    hide Put16, Put32, Get16, Get32, Crc.Checksum;
    if |file| >= 16 {
      PutGet16(file[6..8]);
      PutGet32(file[8..12]);
      PutGet32(file[12..16]);
      var h := FILE_HEADER;
      assert h[6..8] == Put16(RECORD_SIZE) && h[8..12] == Put32(CAPACITY % 0x1_0000_0000);
      assert h[12..16] == Put32(Crc.Checksum(h[..12]));
      var f := file[..16];
      assert f[..6] == file[..6] && f[6..8] == file[6..8] && f[8..12] == file[8..12] && f[12..16] == file[12..16] && f[..12] == file[..12];
      assert f == f[..6] + f[6..8] + f[8..12] + f[12..16];
      assert h == h[..6] + h[6..8] + h[8..12] + h[12..16];
      assert f[..12] == f[..6] + f[6..8] + f[8..12];
      assert h[..12] == h[..6] + h[6..8] + h[8..12];
    }
  }

  /** A write at `offset`; seeking past the end fills with zeros. */
  function Overwrite(file: seq<byte>, offset: nat, data: seq<byte>): (f: seq<byte>)
    ensures |f| >= |file|
  {
    if data == [] then file
    else
      var base := if |file| < offset then file + Zeros(offset - |file|) else file;
      base[..offset] + data + if offset + |data| < |base| then base[offset + |data|..] else []
  }

  lemma OverwriteBytes(file: seq<byte>, offset: nat, data: seq<byte>)
    requires data != []
    ensures var f := Overwrite(file, offset, data);
            |f| >= offset + |data| && f[offset..offset + |data|] == data
            && (|f| == |file| || |f| == offset + |data|)
            && (forall i :: 0 <= i < |f| && !(offset <= i < offset + |data|) ==>
                  f[i] == if i < |file| then file[i] else 0)
  {
  }

  /** What a write at a slot, whole or cut short, may do to what the file says: the other slots read
      as before, and this one as before, as the new record, or as nothing. A cut that forged a
      different record would have to meet its checksum by accident. */
  predicate Detected(file: seq<byte>, file': seq<byte>, slot: nat, r: Record) {
    && (forall j :: 0 <= j < CAPACITY && j != slot ==> RecordAt(file', j) == RecordAt(file, j))
    && (RecordAt(file', slot) == RecordAt(file, slot) || RecordAt(file', slot) == Some(r) || RecordAt(file', slot) == None)
  }

  lemma SlotsApart(i: nat, j: nat)
    requires i != j
    ensures SlotStart(i + 1) <= SlotStart(j) || SlotStart(j + 1) <= SlotStart(i)
  {
  }

  /** A slot outside the written range keeps its record when nothing before the write was missing. */
  lemma OtherSlotKept(file: seq<byte>, slot: nat, data: seq<byte>, j: nat)
    requires SlotStart(slot) <= |file| && |data| <= RECORD_SIZE && j != slot
    ensures RecordAt(Overwrite(file, SlotStart(slot), data), j) == RecordAt(file, j)
  {
    if data != [] {
      var f := Overwrite(file, SlotStart(slot), data);
      OverwriteBytes(file, SlotStart(slot), data);
      SlotsApart(slot, j);
      if SlotStart(j + 1) <= |file| {
        assert f[SlotStart(j)..SlotStart(j + 1)] == file[SlotStart(j)..SlotStart(j + 1)];
      }
    }
  }

  lemma WrittenSlot(file: seq<byte>, r: Record)
    requires Storable(r)
    ensures RecordAt(Overwrite(file, SlotStart(SlotOf(r.sequence)), Encode(r)), SlotOf(r.sequence)) == Some(r)
  {
    var offset := SlotStart(SlotOf(r.sequence));
    OverwriteBytes(file, offset, Encode(r));
    DecodeEncode(r);
  }

  /** A whole record written at or before the end of the file needs no assumption. */
  lemma WholeWriteDetected(file: seq<byte>, r: Record)
    requires Storable(r) && SlotStart(SlotOf(r.sequence)) <= |file|
    ensures Detected(file, Overwrite(file, SlotStart(SlotOf(r.sequence)), Encode(r)), SlotOf(r.sequence), r)
  {
    var slot := SlotOf(r.sequence);
    WrittenSlot(file, r);
    forall j | 0 <= j < CAPACITY && j != slot
      ensures RecordAt(Overwrite(file, SlotStart(slot), Encode(r)), j) == RecordAt(file, j)
    {
      OtherSlotKept(file, slot, Encode(r), j);
    }
  }

  // ----- the index -----

  ghost function HeldSlots(sequences: seq<uint64>): set<int> {
    set i | 0 <= i < |sequences| && sequences[i] != 0
  }

  /** `next` is one past the largest sequence, and 1 when there is none. */
  ghost predicate IsNext(sequences: seq<uint64>, next: int) {
    && next >= 1 && (forall i :: 0 <= i < |sequences| ==> sequences[i] < next)
    && (next == 1 || exists i :: 0 <= i < |sequences| && sequences[i] == next - 1)
  }

  /** What the file holds, slot by slot. */
  ghost function View(file: seq<byte>): (v: seq<uint64>)
    ensures |v| == CAPACITY && forall i :: 0 <= i < CAPACITY ==> v[i] == SequenceAt(file, i)
  {
    seq(CAPACITY, i requires 0 <= i < CAPACITY => SequenceAt(file, i))
  }

  ghost predicate IsIndex(sequences: seq<uint64>, held: nat, next: int) {
    held == |HeldSlots(sequences)| && IsNext(sequences, next)
  }

  /** The index says exactly what the file holds. */
  ghost predicate Agrees(file: seq<byte>, sequences: seq<uint64>, held: nat, next: int) {
    sequences == View(file) && IsIndex(sequences, held, next)
  }

  lemma IndexUnique(s: seq<uint64>, held: nat, next: int, held': nat, next': int)
    requires IsIndex(s, held, next) && IsIndex(s, held', next')
    ensures held == held' && next == next'
  {
  }

  /** The file determines the index: one built by appends and one built by a scan are the same. */
  lemma IndexDetermined(file: seq<byte>, s: seq<uint64>, held: nat, next: int, s': seq<uint64>, held': nat, next': int)
    requires Agrees(file, s, held, next) && Agrees(file, s', held', next')
    ensures s == s' && held == held' && next == next'
  {
    IndexUnique(s, held, next, held', next');
  }

  lemma IndexAppend(s: seq<uint64>, held: nat, next: int, slot: nat, sequence: uint64)
    requires IsIndex(s, held, next) && slot < |s| && 0 < sequence <= next && s[slot] <= sequence
    ensures IsIndex(s[slot := sequence], if s[slot] == 0 then held + 1 else held,
                    if sequence + 1 > next then sequence + 1 else next)
  {
    var s' := s[slot := sequence];
    if s[slot] == 0 {
      assert HeldSlots(s') == HeldSlots(s) + {slot};
    } else {
      assert HeldSlots(s') == HeldSlots(s);
    }
    assert s'[slot] == sequence;
    if sequence < next - 1 {
      var i :| 0 <= i < |s| && s[i] == next - 1;
      assert s'[i] == next - 1;
    }
  }

  /** A detected write changes the view in its own slot only. */
  lemma ViewAfter(file: seq<byte>, file': seq<byte>, slot: nat, r: Record)
    requires slot < CAPACITY && Detected(file, file', slot, r)
    ensures View(file') == View(file)[slot := View(file')[slot]]
    ensures View(file')[slot] == View(file)[slot] || View(file')[slot] == r.sequence || View(file')[slot] == 0
  {
    assert View(file')[slot] == SequenceAt(file', slot) && View(file)[slot] == SequenceAt(file, slot);
    forall j | 0 <= j < CAPACITY && j != slot ensures SequenceAt(file', j) == SequenceAt(file, j) {
      assert RecordAt(file', j) == RecordAt(file, j);
    }
  }

  lemma StoredView(file: seq<byte>, file': seq<byte>, slot: nat, r: Record)
    requires slot == SlotOf(r.sequence) && Detected(file, file', slot, r) && RecordAt(file', slot) == Some(r)
    ensures View(file') == View(file)[slot := r.sequence]
  {
    hide Decode, RecordAt, SlotOf;
    ViewAfter(file, file', slot, r);
    assert View(file')[slot] == SequenceAt(file', slot);
  }

  // ----- after a failed append -----

  /** The checks of an append on a record that already has its sequence. */
  predicate Accepted(s: seq<uint64>, next: int, slot: nat, sequence: uint64) {
    slot < |s| && sequence <= next && s[slot] <= sequence
  }

  /** Retrying after a reopen is accepted exactly when the slot holds nothing newer and some readable
      record is not older than the predecessor. */
  lemma RetryAcceptedIff(s: seq<uint64>, held: nat, next: int, slot: nat, sequence: uint64)
    requires IsIndex(s, held, next) && slot < |s| && sequence > 0
    ensures Accepted(s, next, slot, sequence)
       <==> s[slot] <= sequence && (sequence == 1 || exists i :: 0 <= i < |s| && s[i] >= sequence - 1)
  {
    if sequence > 1 && Accepted(s, next, slot, sequence) {
      var i :| 0 <= i < |s| && s[i] == next - 1;
      assert s[i] >= sequence - 1;
    }
  }

  lemma NeighboursApart(sequence: uint64)
    requires sequence > 1
    ensures SlotOf(sequence) != SlotOf(sequence - 1)
  {
    Arith.ModStep(sequence - 2, CAPACITY);
  }

  lemma CutViewKeepsRetry(v: seq<uint64>, v': seq<uint64>, held: nat, next: int, slot: nat, before: nat, sequence: uint64)
    requires slot < |v| == |v'| && before < |v| && v' == v[slot := v'[slot]] && sequence > 0
    requires v'[slot] == v[slot] || v'[slot] == sequence || v'[slot] == 0
    requires v[slot] <= sequence && (sequence == 1 || (before != slot && v[before] == sequence - 1))
    requires IsIndex(v', held, next)
    ensures Accepted(v', next, slot, sequence)
  {
    if sequence > 1 {
      assert v'[before] >= sequence - 1;
    }
    RetryAcceptedIff(v', held, next, slot, sequence);
  }

  /** A cut write never costs the retry its sequence: whatever the cut left
      in its own slot, the predecessor is still there, so the reopened index accepts the retry. */
  lemma CutKeepsRetry(file: seq<byte>, file': seq<byte>, r: Record, held: nat, next: int)
    requires Storable(r) && Detected(file, file', SlotOf(r.sequence), r)
    requires forall i :: 0 <= i < CAPACITY ==> View(file)[i] <= r.sequence
    requires r.sequence == 1 || View(file)[SlotOf(r.sequence - 1)] == r.sequence - 1
    requires IsIndex(View(file'), held, next)
    ensures Accepted(View(file'), next, SlotOf(r.sequence), r.sequence)
  {
    hide Decode, RecordAt;
    var slot := SlotOf(r.sequence);
    ViewAfter(file, file', slot, r);
    if r.sequence > 1 {
      NeighboursApart(r.sequence);
    }
    var before := if r.sequence > 1 then SlotOf(r.sequence - 1) else slot;
    CutViewKeepsRetry(View(file), View(file'), held, next, slot, before, r.sequence);
  }

  /** The file, or its absence, changed by a write of `r` that passed the checks. */
  ghost predicate Wrote(file: Option<seq<byte>>, file': Option<seq<byte>>, s: seq<uint64>, next: int, r: Record) {
    && file.Some? && file'.Some? && Appendable(r) && 0 < r.sequence < UINT64_MAX
    && Accepted(s, next, SlotOf(r.sequence), r.sequence)
    && Detected(file.value, file'.value, SlotOf(r.sequence), r)
    && (HeaderOk(file.value) ==> HeaderOk(file'.value))
  }

  ghost predicate Holds(file: Option<seq<byte>>, r: Record) {
    file.Some? && RecordAt(file.value, SlotOf(r.sequence)) == Some(r)
  }

  /** A record an append accepts, for a slot at or before the end of the file. */
  ghost predicate Writable(file: Option<seq<byte>>, s: seq<uint64>, next: int, r: Record) {
    && file.Some? && SlotStart(SlotOf(r.sequence)) <= |file.value| && Appendable(r) && 0 < r.sequence < UINT64_MAX
    && Accepted(s, next, SlotOf(r.sequence), r.sequence)
  }

  // ----- rank selection -----

  ghost function Above(s: seq<uint64>, v: int): set<int> {
    set i | 0 <= i < |s| && s[i] > v
  }

  ghost predicate Distinct(s: seq<uint64>) {
    forall i, j :: 0 <= i < j < |s| && s[i] != 0 ==> s[i] != s[j]
  }

  /** A sequence selects its slot, so a file never shows the same sequence twice. */
  lemma ViewDistinct(file: seq<byte>)
    ensures Distinct(View(file))
  {
    var v := View(file);
    forall i, j | 0 <= i < j < |v| && v[i] != 0 ensures v[i] != v[j] {
      assert v[i] == SequenceAt(file, i) && v[j] == SequenceAt(file, j);
    }
  }

  /** Below the value at `c`, the largest has one more above it than `s[c]` has. */
  lemma NextRank(s: seq<uint64>, ceiling: int, top: nat, slot: nat, rank: nat)
    requires Distinct(s) && slot < |s| && 0 < s[slot] < ceiling
    requires forall i :: 0 <= i < |s| && s[i] < ceiling ==> s[i] <= s[slot]
    requires if rank == 0 then Above(s, ceiling - 1) == {} else top < |s| && s[top] == ceiling && |Above(s, ceiling)| == rank - 1
    ensures |Above(s, s[slot])| == rank
  {
    if rank == 0 {
      forall i | 0 <= i < |s| ensures s[i] <= s[slot] {
        assert s[i] > ceiling - 1 ==> i in Above(s, ceiling - 1);
      }
      assert Above(s, s[slot]) == {};
    } else {
      assert Above(s, s[slot]) == Above(s, ceiling) + {top};
      assert top !in Above(s, ceiling);
    }
  }

  /** While fewer than all held records are above, some held record is at or below. */
  lemma MoreBelow(s: seq<uint64>, ceiling: int, top: nat, rank: nat) returns (i: int)
    requires rank < |HeldSlots(s)| && Distinct(s)
    requires if rank == 0 then Above(s, ceiling - 1) == {} else top < |s| && s[top] == ceiling > 0 && |Above(s, ceiling)| == rank - 1
    ensures 0 <= i < |s| && 0 < s[i] < ceiling
  {
    var taken := if rank == 0 then {} else Above(s, ceiling) + {top};
    if rank > 0 {
      assert top !in Above(s, ceiling);
    }
    assert |taken| == rank;
    if HeldSlots(s) <= taken {
      Sets.SubsetSize(HeldSlots(s), taken);
    }
    i :| i in HeldSlots(s) && i !in taken;
    if rank == 0 {
      assert i !in Above(s, ceiling - 1);
    } else {
      assert i !in Above(s, ceiling) && i != top;
      assert s[i] != s[top];
    }
  }

  /** No record in the first `n` slots is of a later boot than `boot`. */
  ghost predicate BootsUpTo(file: seq<byte>, n: nat, boot: nat) {
    forall i :: 0 <= i < n && RecordAt(file, i).Some? ==> RecordAt(file, i).value.boot <= boot
  }

  /** The latest boot of a record in the first `n` slots, zero when there is none. */
  ghost predicate HighestBoot(file: seq<byte>, n: nat, boot: nat) {
    && BootsUpTo(file, n, boot)
    && (boot == 0 || exists i :: 0 <= i < n && RecordAt(file, i).Some? && RecordAt(file, i).value.boot == boot)
  }

  lemma HighestIsLeast(file: seq<byte>, n: nat, boot: nat)
    requires HighestBoot(file, n, boot)
    ensures forall b: nat :: BootsUpTo(file, n, b) <==> boot <= b
  {
    hide RecordAt;
  }

  lemma BootsExtend(file: seq<byte>, n: nat, boot: nat)
    requires HighestBoot(file, n, boot)
    ensures HighestBoot(file, n + 1, if RecordAt(file, n).Some? then Arith.Max(RecordAt(file, n).value.boot, boot) else boot)
  {
    hide RecordAt;
  }

  lemma BootsPad(file: seq<byte>, n: nat, boot: nat)
    requires n <= CAPACITY && HighestBoot(file, n, boot) && (n == CAPACITY || SlotStart(n + 1) > |file|)
    ensures HighestBoot(file, CAPACITY, boot) && BootsUpTo(file, CAPACITY, boot)
  {
    hide Decode;
    RestUnreadable(file, n);
    forall i | 0 <= i < CAPACITY && RecordAt(file, i).Some? ensures i < n {
    }
  }

  lemma BootsAfter(file: seq<byte>, file': seq<byte>, slot: nat, r: Record, boot: nat)
    requires BootsUpTo(file, CAPACITY, boot) && Detected(file, file', slot, r)
    ensures BootsUpTo(file', CAPACITY, Arith.Max(r.boot, boot))
  {
    hide RecordAt;
    forall i | 0 <= i < CAPACITY && RecordAt(file', i).Some? ensures RecordAt(file', i).value.boot <= Arith.Max(r.boot, boot) {
      assert i != slot ==> RecordAt(file', i) == RecordAt(file, i);
    }
  }

  // ----- the store -----

  /** How opening the file goes. A creation that fails is unlinked again, or, when that fails too, leaves so
      many bytes of the header. */
  datatype OpenIo = OpenOk | NotReady | StatFails | CreateFails(left: Option<nat>) | OpenFails | ReadFails(slot: nat) | CloseFails

  /** How an append's file operations go; a failure leaves the first `k` bytes written. */
  datatype WriteIo = Done | StorageGone | Cut(k: nat)

  class Store {
    var file: Option<seq<byte>>
    const sequences: array<uint64>
    var nextSequence: uint64
    var highestBoot: uint64
    var held: nat
    var corrupt: nat
    var ready: bool

    constructor (disk: Option<seq<byte>>)
      ensures file == disk && !ready && fresh(sequences) && sequences.Length == CAPACITY
    {
      file := disk;
      sequences := new uint64[CAPACITY];
      nextSequence, highestBoot, held, corrupt, ready := 1, 0, 0, 0, false;
    }

    /** While ready, the index is the index of the file, and no record in it is of a later boot. */
    ghost predicate Valid()
      reads this, sequences
    {
      sequences.Length == CAPACITY
      && (ready ==> file.Some? && HeaderOk(file.value) && Agrees(file.value, sequences[..], held, nextSequence)
                    && BootsUpTo(file.value, CAPACITY, highestBoot))
    }

    method Open(io: OpenIo) returns (result: Status)
      requires sequences.Length == CAPACITY
      modifies this, sequences
      ensures Valid() && ready == result.Success? && result != Failure(EOVERFLOW) && result != Failure(ESTALE)
      ensures ready ==> HighestBoot(file.value, CAPACITY, highestBoot)
      ensures old(file).Some? ==> file == old(file)
      ensures old(file).None? ==> file == old(file) || (file.Some? && file.value <= FILE_HEADER)
      ensures old(file).None? && result.Success? ==> file == Some(FILE_HEADER)
      ensures old(file).Some? && !HeaderOk(old(file).value) ==> result.Failure?
      ensures old(file).None? ==> (ready <==> io.OpenOk?)
      ensures io.NotReady? ==> result == Failure(ENODEV)
      ensures io.StatFails? || io.OpenFails? || io.CreateFails? || io.CloseFails? ==> result.Failure?
      ensures io.NotReady? || io.StatFails? ==> file == old(file)
      ensures old(file).Some? && !io.NotReady? && !io.StatFails? && |old(file).value| > SlotStart(CAPACITY) ==> result == Failure(EFBIG)
      ensures old(file).Some? && io.OpenOk? && |old(file).value| <= SlotStart(CAPACITY) && !HeaderOk(old(file).value) ==> result == Failure(EBADMSG)
      ensures io.OpenOk? && old(file).Some? && HeaderOk(old(file).value) && |old(file).value| <= SlotStart(CAPACITY) ==> ready
    {
      Clear();
      if io.NotReady? {
        return Failure(ENODEV);
      }
      if io.StatFails? {
        return Failure(EIO);
      }
      if file.None? {
        if !io.OpenOk? {
          if io.CreateFails? && io.left.Some? {
            file := Some(FILE_HEADER[..Arith.Min(io.left.value, |FILE_HEADER|)]);
          }
          return Failure(EIO);
        }
        file := Some(FILE_HEADER);
        ready := true;
        EmptyFile(sequences[..]);
        return Success;
      }
      if |file.value| > SlotStart(CAPACITY) {
        return Failure(EFBIG);
      }
      if io.OpenFails? || io.CreateFails? {
        return Failure(EIO);
      }
      if !HeaderOk(file.value) {
        return Failure(EBADMSG);
      }
      result := ScanSlots(io);
    }

    method Clear()
      requires sequences.Length == CAPACITY
      modifies this, sequences
      ensures file == old(file) && !ready && nextSequence == 1 && highestBoot == 0 && held == 0 && corrupt == 0
      ensures forall i :: 0 <= i < CAPACITY ==> sequences[i] == 0
    {
      for i := 0 to sequences.Length
        invariant forall j :: 0 <= j < i ==> sequences[j] == 0
        invariant file == old(file)
      {
        sequences[i] := 0;
      }
      nextSequence, highestBoot, held, corrupt, ready := 1, 0, 0, 0, false;
    }

    /** The scan loop of an open: the sequential reads stop at the end of the file. */
    method ScanSlots(io: OpenIo) returns (result: Status)
      requires sequences.Length == CAPACITY && file.Some? && HeaderOk(file.value)
      requires !ready && nextSequence == 1 && held == 0 && highestBoot == 0 && forall i :: 0 <= i < CAPACITY ==> sequences[i] == 0
      modifies this`nextSequence, this`highestBoot, this`held, this`corrupt, this`ready, sequences
      ensures Valid() && ready == result.Success? && (result.Failure? ==> result.error == EIO)
      ensures io.OpenOk? ==> ready
      ensures io.CloseFails? ==> !ready
      ensures ready ==> HighestBoot(file.value, CAPACITY, highestBoot)
    {
      hide Decode, RecordAt, SlotOf, HighestBoot, BootsUpTo, IsIndex;
      var bytes := file.value;
      var i := 0;
      NoBoot(bytes);
      NoneHeld();
      assert sequences[..0] == [];
      while i < CAPACITY && SlotStart(i + 1) <= |bytes|
        invariant 0 <= i <= CAPACITY && !ready
        invariant forall j :: 0 <= j < i ==> sequences[j] == SequenceAt(bytes, j)
        invariant forall j :: i <= j < CAPACITY ==> sequences[j] == 0
        invariant IsIndex(sequences[..i], held, nextSequence) && HighestBoot(bytes, i, highestBoot)
      {
        if io == ReadFails(i) {
          return Failure(EIO);
        }
        BootsExtend(bytes, i, highestBoot);
        ScanSlot(i, RecordAt(bytes, i));
        i := i + 1;
      }
      if i < CAPACITY && SlotStart(i) < |bytes| {
        corrupt := corrupt + 1;
      }
      if io.CloseFails? {
        return Failure(EIO);
      }
      RestUnreadable(bytes, i);
      BootsPad(bytes, i, highestBoot);
      IndexPad(sequences[..i], held, nextSequence, CAPACITY - i);
      assert sequences[..] == sequences[..i] + seq(CAPACITY - i, _ => 0);
      assert sequences[..] == View(bytes);
      ready := true;
      result := Success;
    }

    method ScanSlot(i: nat, record: Option<Record>)
      requires i < sequences.Length && sequences[i] == 0 && IsIndex(sequences[..i], held, nextSequence)
      requires record.Some? ==> 0 < record.value.sequence < UINT64_MAX
      modifies this`nextSequence, this`highestBoot, this`held, this`corrupt, sequences
      ensures sequences[i] == if record.Some? then record.value.sequence else 0
      ensures highestBoot == if record.Some? then Arith.Max(record.value.boot, old(highestBoot)) else old(highestBoot)
      ensures forall j :: 0 <= j < sequences.Length && j != i ==> sequences[j] == old(sequences[j])
      ensures IsIndex(sequences[..i + 1], held, nextSequence)
    {
      ghost var before := sequences[..i];
      if record.None? {
        corrupt := corrupt + 1;
        IndexExtend(before, held, nextSequence, 0);
        assert sequences[..i + 1] == before + [0];
      } else {
        var sequence := record.value.sequence;
        IndexExtend(before, held, nextSequence, sequence);
        sequences[i] := sequence;
        assert sequences[..i + 1] == before + [sequence];
        nextSequence := if sequence + 1 > nextSequence then sequence + 1 else nextSequence;
        highestBoot := if record.value.boot > highestBoot then record.value.boot else highestBoot;
        held := held + 1;
      }
    }

    method Append(record: Record, io: WriteIo) returns (result: Status, sequenced: Record)
      requires Valid()
      modifies this, sequences
      ensures SourceKnown(record.event) ==> Valid()
      ensures sequences.Length == CAPACITY
      ensures sequenced == record || (record.sequence == 0 && sequenced == record.(sequence := old(nextSequence)))
      ensures old(ready) && !io.StorageGone? && Appendable(record) && record.sequence == 0 ==> sequenced.sequence == old(nextSequence)
      // A record that was refused before it had a sequence left everything as it was.
      ensures result.Failure? && sequenced.sequence == 0 ==>
                file == old(file) && sequences[..] == old(sequences[..]) && ready == old(ready)
      ensures file == old(file) || Wrote(old(file), file, old(sequences[..]), old(nextSequence), sequenced)
      ensures result.Success? ==> old(ready) && ready && Wrote(old(file), file, old(sequences[..]), old(nextSequence), sequenced)
      ensures result.Success? && SourceKnown(record.event) ==> Holds(file, sequenced)
      ensures result == Failure(EOVERFLOW) || result == Failure(ESTALE) ==>
                sequenced.sequence != 0
      ensures result == Failure(ESTALE) || (result == Failure(EOVERFLOW) && sequenced.sequence != UINT64_MAX) ==>
                !Accepted(old(sequences[..]), old(nextSequence), SlotOf(sequenced.sequence), sequenced.sequence)
      ensures result == Failure(EINVAL) ==> !Appendable(record)
      ensures old(ready) && io.Done? && SourceKnown(record.event) && Writable(old(file), old(sequences[..]), old(nextSequence), sequenced)
              ==> result.Success?
    {
      hide Decode, RecordAt, Encode, HeaderOk, SlotOf, Detected, View;
      sequenced := record;
      if !ready || io.StorageGone? {
        return Failure(ENODEV), sequenced;
      }
      if !Appendable(record) {
        return Failure(EINVAL), sequenced;
      }
      if record.sequence == 0 {
        sequenced := record.(sequence := nextSequence);
      }
      if sequenced.sequence == UINT64_MAX || sequenced.sequence > nextSequence {
        return Failure(EOVERFLOW), sequenced;
      }
      var slot := SlotOf(sequenced.sequence);
      if sequences[slot] > sequenced.sequence {
        return Failure(ESTALE), sequenced;
      }
      result := WriteSlot(sequenced, io);
      if result.Failure? {
        return;
      }
      if SourceKnown(record.event) {
        StoredView(old(file).value, file.value, slot, sequenced);
        BootsAfter(old(file).value, file.value, slot, sequenced, highestBoot);
      }
      Commit(sequenced, slot);
    }

    /** The file operations of an append. */
    method WriteSlot(record: Record, io: WriteIo) returns (result: Status)
      requires file.Some? && Appendable(record) && 0 < record.sequence < UINT64_MAX
      modifies this`file, this`ready
      ensures file.Some? && (file == old(file) || Detected(old(file).value, file.value, SlotOf(record.sequence), record))
      ensures HeaderOk(old(file).value) ==> HeaderOk(file.value)
      ensures if result.Success? then ready == old(ready) && Detected(old(file).value, file.value, SlotOf(record.sequence), record)
              else !ready && result.error == EIO
      ensures result.Success? && SourceKnown(record.event) ==> Holds(file, record)
      ensures io.Done? && SourceKnown(record.event) && SlotStart(SlotOf(record.sequence)) <= |old(file).value| ==> result.Success?
    {
      hide Decode, RecordAt, HeaderOk, SlotOf, Overwrite, Body;
      var slot := SlotOf(record.sequence);
      var bytes := Encode(record);
      var written := if io.Cut? && io.k < RECORD_SIZE then bytes[..io.k] else bytes;
      var file' := Overwrite(file.value, SlotStart(slot), written);
      if HeaderOk(file.value) {
        HeaderKept(file.value, SlotStart(slot), written);
      }
      if SourceKnown(record.event) {
        WrittenSlot(file.value, record);
        if SlotStart(slot) <= |file.value| {
          WholeWriteDetected(file.value, record);
        }
      }
      if io.StorageGone? || !Detected(file.value, file', slot, record) {
        // A forged checksum is outside the model: such a write fails with nothing written.
        ready := false;
        return Failure(EIO);
      }
      file := Some(file');
      if io.Cut? {
        ready := false;
        return Failure(EIO);
      }
      result := Success;
    }

    /** The index update once the record is on disk. */
    method Commit(record: Record, slot: nat)
      requires sequences.Length == CAPACITY && slot < CAPACITY && 0 < record.sequence < UINT64_MAX
      requires IsIndex(sequences[..], held, nextSequence) && Accepted(sequences[..], nextSequence, slot, record.sequence)
      modifies this`nextSequence, this`highestBoot, this`held, sequences
      ensures sequences[..] == old(sequences[..])[slot := record.sequence]
      ensures IsIndex(sequences[..], held, nextSequence) && highestBoot == Arith.Max(record.boot, old(highestBoot))
    {
      ghost var before := sequences[..];
      IndexAppend(before, held, nextSequence, slot, record.sequence);
      if sequences[slot] == 0 {
        held := held + 1;
      }
      sequences[slot] := record.sequence;
      assert sequences[..] == before[slot := record.sequence];
      nextSequence := if record.sequence + 1 > nextSequence then record.sequence + 1 else nextSequence;
      highestBoot := if record.boot > highestBoot then record.boot else highestBoot;
    }

    /** The record with exactly `age` held records newer than it. */
    method Get(age: nat, readFails: bool) returns (r: Result<Record>)
      requires Valid()
      ensures !ready ==> r == Err(ENODEV)
      ensures ready && age >= held ==> r == Err(ENOENT)
      ensures ready && age < held && !readFails ==>
                r.Ok? && Holds(file, r.value) && |Above(sequences[..], r.value.sequence)| == age
    {
      hide Decode, RecordAt, SlotOf;
      if !ready {
        return Err(ENODEV);
      }
      if age >= held {
        return Err(ENOENT);
      }
      ghost var view := sequences[..];
      ViewDistinct(file.value);
      var ceiling: int, sequence: uint64, slot := UINT64_MAX, 0, 0;
      assert Above(view, ceiling - 1) == {} by {
        forall i | 0 <= i < |view| ensures view[i] <= ceiling - 1 { }
      }
      var rank := 0;
      while rank <= age
        invariant 0 <= rank <= age + 1 && slot < CAPACITY
        invariant rank == 0 ==> ceiling == UINT64_MAX
        invariant rank > 0 ==> view[slot] == sequence == ceiling && sequence > 0 && |Above(view, ceiling)| == rank - 1
      {
        ghost var some := MoreBelow(view, ceiling, slot, rank);
        ghost var top := slot;
        sequence := 0;
        for i := 0 to CAPACITY
          invariant forall j :: 0 <= j < i && view[j] < ceiling ==> view[j] <= sequence
          invariant sequence > 0 ==> slot < CAPACITY && view[slot] == sequence < ceiling
          invariant sequence == 0 ==> slot == top
        {
          if sequences[i] > sequence && sequences[i] < ceiling {
            sequence, slot := sequences[i], i;
          }
        }
        assert view[some] <= sequence;
        NextRank(view, ceiling, top, slot, rank);
        ceiling := sequence;
        rank := rank + 1;
      }
      if readFails {
        return Err(EIO);
      }
      assert view[slot] == SequenceAt(file.value, slot);
      var record := RecordAt(file.value, slot);
      if record.None? || record.value.sequence != sequence {
        return Err(EBADMSG);
      }
      r := Ok(record.value);
    }
  }

  lemma HeaderKept(file: seq<byte>, offset: nat, data: seq<byte>)
    requires offset >= HEADER_SIZE && HeaderOk(file)
    ensures HeaderOk(Overwrite(file, offset, data))
  {
    if data != [] {
      OverwriteBytes(file, offset, data);
      assert Overwrite(file, offset, data)[..HEADER_SIZE] == file[..HEADER_SIZE];
    }
  }

  lemma NoneHeld()
    ensures IsIndex([], 0, 1)
  {
    assert HeldSlots([]) == {};
  }

  lemma NoBoot(file: seq<byte>)
    ensures HighestBoot(file, 0, 0)
  {
    hide RecordAt;
  }

  lemma EmptyFile(s: seq<uint64>)
    requires |s| == CAPACITY && forall i :: 0 <= i < CAPACITY ==> s[i] == 0
    ensures HeaderOk(FILE_HEADER) && Agrees(FILE_HEADER, s, 0, 1) && BootsUpTo(FILE_HEADER, CAPACITY, 0)
  {
    assert |FILE_HEADER| == HEADER_SIZE && FILE_HEADER[..HEADER_SIZE] == FILE_HEADER;
    forall i | 0 <= i < CAPACITY ensures SequenceAt(FILE_HEADER, i) == 0 {
      assert SlotStart(i + 1) > |FILE_HEADER|;
    }
    assert s == View(FILE_HEADER);
    assert HeldSlots(s) == {};
  }

  lemma RestUnreadable(file: seq<byte>, i: nat)
    requires i >= CAPACITY || SlotStart(i + 1) > |file|
    ensures forall j :: i <= j < CAPACITY ==> SequenceAt(file, j) == 0
  {
  }

  lemma IndexExtend(s: seq<uint64>, held: nat, next: int, sequence: uint64)
    requires IsIndex(s, held, next)
    ensures IsIndex(s + [sequence], if sequence == 0 then held else held + 1,
                    if sequence + 1 > next then sequence + 1 else next)
  {
    var s' := s + [sequence];
    assert s'[|s|] == sequence && forall i :: 0 <= i < |s| ==> s'[i] == s[i];
    if sequence == 0 {
      assert HeldSlots(s') == HeldSlots(s);
    } else {
      assert HeldSlots(s') == HeldSlots(s) + {|s|};
    }
    if sequence + 1 <= next && next > 1 {
      var i :| 0 <= i < |s| && s[i] == next - 1;
      assert s'[i] == next - 1;
    }
  }

  lemma IndexPad(s: seq<uint64>, held: nat, next: int, n: nat)
    requires IsIndex(s, held, next)
    ensures IsIndex(s + seq(n, _ => 0), held, next)
  {
    var s' := s + seq(n, _ => 0);
    assert forall i :: 0 <= i < |s| ==> s'[i] == s[i];
    assert HeldSlots(s') == HeldSlots(s);
    if next > 1 {
      var i :| 0 <= i < |s| && s[i] == next - 1;
      assert s'[i] == next - 1;
    }
  }
}
