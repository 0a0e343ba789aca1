/** Reading stored housekeeping back, src/hk/hk_reader.c: one slot per sequence number modulo the
    capacity, sequence numbers of 16 bits that wrap. */
module HkReader {
  import opened Bytes
  import opened Errors
  import opened HkConfig
  import Arith

  const PROTOCOL_VERSION: byte := 1
  const FRAME_HEADER := 10
  const SEQUENCES := 0x1_0000
  const HALF := 0x8000

  // ----- the file header -----

  const STORE_MAGIC: seq<byte> := [0x4B, 0x48, 0x4B, 0x53]
  const STORE_VERSION: byte := 1
  const STORE_HEADER := 12

  /** What a store file says of itself. */
  datatype Shape = Shape(recordSize: uint16, capacity: uint32)

  /** The header `create_file` writes. */
  function HeaderBytes(report: byte, shape: Shape): (b: seq<byte>)
    ensures |b| == STORE_HEADER
  {
    STORE_MAGIC + [STORE_VERSION, report] + Put16(shape.recordSize) + Put32(shape.capacity)
  }

  /** The header checks of `reader_open`. */
  function ReadHeader(b: seq<byte>, report: byte): (r: Result<Shape>)
    ensures r.Ok? ==> r.value.capacity > 0
  {
    if |b| < STORE_HEADER || b[..4] != STORE_MAGIC || b[4] != STORE_VERSION || b[5] != report then Err(EBADMSG)
    else
      var shape := Shape(Get16(b[6..8]), Get32(b[8..12]));
      if shape.recordSize == 0 || shape.recordSize > SAMPLE_BYTES || shape.capacity == 0 then Err(EBADMSG) else Ok(shape)
  }

  /** A header is accepted exactly when it is the one written for this report and a usable shape. */
  lemma HeaderIff(b: seq<byte>, report: byte, shape: Shape)
    requires |b| == STORE_HEADER
    ensures ReadHeader(b, report) == Ok(shape) <==>
            b == HeaderBytes(report, shape) && 0 < shape.recordSize <= SAMPLE_BYTES && shape.capacity > 0
  {
    hide Put16, Put32, Get16, Get32;
    PutGet16(b[6..8]);
    PutGet32(b[8..12]);
    var h := HeaderBytes(report, shape);
    assert h[..4] == STORE_MAGIC && h[6..8] == Put16(shape.recordSize) && h[8..12] == Put32(shape.capacity);
    assert b == b[..4] + [b[4], b[5]] + b[6..8] + b[8..12];
  }

  // ----- frames and slots -----

  /** A stored frame: version, report, sequence, time, entry count, flags, values. */
  type Frame = f: seq<byte> | |f| >= FRAME_HEADER witness seq(FRAME_HEADER, _ => 0)

  function SequenceOf(f: Frame): uint16 {
    Get16(f[2..4])
  }

  function SecondsOf(f: Frame): uint32 {
    Get32(f[4..8])
  }

  /** `slot_belongs`. */
  predicate Belongs(f: Frame, report: byte, capacity: Positive, slot: int) {
    f[0] == PROTOCOL_VERSION && f[1] == report && SequenceOf(f) % capacity == slot
  }

  lemma BelongsIsWritten(f: Frame, report: byte, capacity: Positive, slot: int)
    requires Belongs(f, report, capacity, slot)
    ensures f[0] != 0
  {
  }

  /** What follows the header of a store file: its whole records. A trailing part of one reads as none. */
  type Slots = seq<Frame>

  predicate Occupied(slots: Slots, report: byte, capacity: Positive, i: int) {
    0 <= i < |slots| && i < capacity && Belongs(slots[i], report, capacity, i)
  }

  // ----- serial numbers -----

  function Wrap(x: int): (s: uint16) {
    x % SEQUENCES
  }

  /** `(int16_t)(a - b) > 0`: serial number arithmetic; half the circle apart is not newer. */
  predicate Newer(a: uint16, b: uint16) {
    0 < Wrap(a - b) < HALF
  }

  /** How far `s` lies after `first` on the circle. */
  function Offset(first: uint16, s: uint16): (k: nat)
    ensures k < SEQUENCES && Wrap(first + k) == s
  {
    if s >= first then s - first else s - first + SEQUENCES
  }

  lemma OffsetOf(first: uint16, k: nat)
    requires k < SEQUENCES
    ensures Offset(first, Wrap(first + k)) == k
  {
  }

  /** Within half the circle, newer is farther from the start. */
  lemma NewerIsFarther(first: uint16, a: uint16, b: uint16)
    requires Offset(first, a) < HALF && Offset(first, b) < HALF
    ensures Newer(a, b) <==> Offset(first, a) > Offset(first, b)
  {
  }

  // ----- a window of consecutive sequences -----

  ghost function SlotOf(first: uint16, k: nat, capacity: Positive): nat {
    Wrap(first + k) % capacity
  }

  /** The file holds the `w` sequences from `first` on, each in its own slot, and nothing else. */
  ghost predicate Window(slots: Slots, report: byte, capacity: Positive, first: uint16, w: nat) {
    && w <= capacity <= HALF
    && (forall k :: 0 <= k < w ==> Occupied(slots, report, capacity, SlotOf(first, k, capacity))
                                   && SequenceOf(slots[SlotOf(first, k, capacity)]) == Wrap(first + k))
    && (forall i :: Occupied(slots, report, capacity, i) ==> Offset(first, SequenceOf(slots[i])) < w)
  }

  lemma WindowInjective(slots: Slots, report: byte, capacity: Positive, first: uint16, w: nat, j: nat, k: nat)
    requires Window(slots, report, capacity, first, w) && j < k < w
    ensures SlotOf(first, j, capacity) != SlotOf(first, k, capacity)
  {
    OffsetOf(first, j);
    OffsetOf(first, k);
  }

  ghost function OccupiedBelow(slots: Slots, report: byte, capacity: Positive, n: int): set<int> {
    set i | 0 <= i < n && Occupied(slots, report, capacity, i)
  }

  ghost function WindowSlots(first: uint16, w: nat, capacity: Positive): set<nat> {
    set k | 0 <= k < w :: SlotOf(first, k, capacity)
  }

  lemma {:induction false} WindowSlotsSize(slots: Slots, report: byte, capacity: Positive, first: uint16, w: nat, n: nat)
    requires Window(slots, report, capacity, first, w) && n <= w
    ensures |WindowSlots(first, n, capacity)| == n
  {
    hide Window, SlotOf;
    if n > 0 {
      WindowSlotsSize(slots, report, capacity, first, w, n - 1);
      var s := SlotOf(first, n - 1, capacity);
      assert WindowSlots(first, n, capacity) == WindowSlots(first, n - 1, capacity) + {s};
      if s in WindowSlots(first, n - 1, capacity) {
        var j :| 0 <= j < n - 1 && SlotOf(first, j, capacity) == s;
        WindowInjective(slots, report, capacity, first, w, j, n - 1);
      }
    }
  }

  /** The occupied slots are exactly those of the window. */
  lemma OccupiedCount(slots: Slots, report: byte, capacity: Positive, first: uint16, w: nat, n: int)
    requires Window(slots, report, capacity, first, w) && (n >= capacity || n >= |slots|)
    ensures |OccupiedBelow(slots, report, capacity, n)| == w
  {
    WindowSlotsSize(slots, report, capacity, first, w, w);
    forall i ensures i in OccupiedBelow(slots, report, capacity, n) <==> i in WindowSlots(first, w, capacity) {
      if Occupied(slots, report, capacity, i) {
        var k := Offset(first, SequenceOf(slots[i]));
        assert SlotOf(first, k, capacity) == i;
      }
    }
    assert OccupiedBelow(slots, report, capacity, n) == WindowSlots(first, w, capacity);
  }

  // ----- the reader -----

  datatype Reader = Reader(written: uint16, newest: uint16)

  function Oldest(r: Reader): uint16 {
    Wrap(r.newest - (r.written - 1))
  }

  lemma OccupiedNone(slots: Slots, report: byte, capacity: Positive)
    ensures OccupiedBelow(slots, report, capacity, 0) == {}
  {
  }

  lemma OccupiedStep(slots: Slots, report: byte, capacity: Positive, n: nat)
    requires n < |slots| && n < capacity
    ensures var below, upTo := OccupiedBelow(slots, report, capacity, n), OccupiedBelow(slots, report, capacity, n + 1);
            if Belongs(slots[n], report, capacity, n) then upTo == below + {n} && |upTo| == |below| + 1 else upTo == below
  {
    hide Belongs;
  }

  /** The slot scan of `reader_open`. */
  method OpenReader(slots: Slots, report: byte, capacity: Positive, ghost first: uint16, ghost w: nat) returns (r: Reader)
    ensures r.written == |OccupiedBelow(slots, report, capacity, Readable(slots, capacity))| % SEQUENCES
    ensures Window(slots, report, capacity, first, w) ==> r.written == w && (w > 0 ==> r.newest == Wrap(first + w - 1))
  {
    hide SequenceOf, Offset, Newer, Wrap, Belongs, Window, Farthest, OccupiedBelow;
    var written, newest: uint16, haveNewest := 0, 0, false;
    ghost var window := Window(slots, report, capacity, first, w);
    OccupiedNone(slots, report, capacity);
    var slot := 0;
    while slot < capacity && slot < |slots|
      invariant 0 <= slot <= Readable(slots, capacity)
      invariant written == |OccupiedBelow(slots, report, capacity, slot)| % SEQUENCES
      invariant haveNewest <==> OccupiedBelow(slots, report, capacity, slot) != {}
      invariant window && haveNewest ==> Farthest(slots, report, capacity, first, w, slot, newest)
    {
      OccupiedStep(slots, report, capacity, slot);
      if Belongs(slots[slot], report, capacity, slot) {
        BelongsIsWritten(slots[slot], report, capacity, slot);
      }
      if slots[slot][0] != 0 && Belongs(slots[slot], report, capacity, slot) {
        var sequence := SequenceOf(slots[slot]);
        written := (written + 1) % SEQUENCES;
        if window {
          FarthestStep(slots, report, capacity, first, w, slot, newest, haveNewest);
        }
        if !haveNewest || Newer(sequence, newest) {
          newest, haveNewest := sequence, true;
        }
      } else {
        if window && haveNewest {
          FarthestSkip(slots, report, capacity, first, w, slot, newest);
        }
      }
      slot := slot + 1;
    }
    if window {
      WindowFits(slots, report, capacity, first, w);
      OccupiedCount(slots, report, capacity, first, w, slot);
      if w > 0 {
        FarthestIsLast(slots, report, capacity, first, w, slot, newest);
      }
    }
    r := Reader(if haveNewest then written else 0, newest);
  }

  /** `reader_open`: the header, then the slots of the capacity it names. */
  method OpenFile(header: seq<byte>, slots: Slots, report: byte, ghost first: uint16, ghost w: nat) returns (r: Result<Reader>)
    ensures r.Ok? <==> ReadHeader(header, report).Ok?
    ensures r.Ok? ==>
              var capacity := ReadHeader(header, report).value.capacity;
              r.value.written == |OccupiedBelow(slots, report, capacity, Readable(slots, capacity))| % SEQUENCES
              && (Window(slots, report, capacity, first, w) ==> r.value.written == w && (w > 0 ==> r.value.newest == Wrap(first + w - 1)))
  {
    hide Window, OccupiedBelow, ReadHeader;
    var shape := ReadHeader(header, report);
    if shape.Err? {
      return Err(shape.error);
    }
    var reader := OpenReader(slots, report, shape.value.capacity, first, w);
    r := Ok(reader);
  }

  function Readable(slots: Slots, capacity: Positive): nat {
    if capacity < |slots| then capacity else |slots|
  }

  /** `newest` is in the window, and nothing found among the first `n` slots lies farther. */
  ghost predicate Farthest(slots: Slots, report: byte, capacity: Positive, first: uint16, w: nat, n: int, newest: uint16) {
    && Offset(first, newest) < w
    && forall i :: 0 <= i < n && Occupied(slots, report, capacity, i) ==> Offset(first, SequenceOf(slots[i])) <= Offset(first, newest)
  }

  lemma FarthestStep(slots: Slots, report: byte, capacity: Positive, first: uint16, w: nat, n: int, newest: uint16, have: bool)
    requires Window(slots, report, capacity, first, w) && Occupied(slots, report, capacity, n)
    requires if have then Farthest(slots, report, capacity, first, w, n, newest) else OccupiedBelow(slots, report, capacity, n) == {}
    ensures var sequence := SequenceOf(slots[n]);
            Farthest(slots, report, capacity, first, w, n + 1, if !have || Newer(sequence, newest) then sequence else newest)
  {
    hide SequenceOf, Belongs, Wrap, Newer, Offset;
    var sequence := SequenceOf(slots[n]);
    if have {
      NewerIsFarther(first, sequence, newest);
    } else {
      forall i | 0 <= i < n ensures !Occupied(slots, report, capacity, i) {
        assert i !in OccupiedBelow(slots, report, capacity, n);
      }
    }
  }

  lemma FarthestSkip(slots: Slots, report: byte, capacity: Positive, first: uint16, w: nat, n: int, newest: uint16)
    requires !Occupied(slots, report, capacity, n) && Farthest(slots, report, capacity, first, w, n, newest)
    ensures Farthest(slots, report, capacity, first, w, n + 1, newest)
  {
    hide SequenceOf, Belongs, Wrap, Offset;
  }

  lemma FarthestIsLast(slots: Slots, report: byte, capacity: Positive, first: uint16, w: nat, n: int, newest: uint16)
    requires Window(slots, report, capacity, first, w) && w > 0 && (n >= capacity || n >= |slots|)
    requires Farthest(slots, report, capacity, first, w, n, newest)
    ensures newest == Wrap(first + w - 1)
  {
    var last := SlotOf(first, w - 1, capacity);
    assert Occupied(slots, report, capacity, last);
    OffsetOf(first, w - 1);
  }

  /** `reader_record`: the slot a sequence selects, refused when it holds something else. */
  function RecordOf(slots: Slots, report: byte, capacity: Positive, sequence: uint16): (r: Result<Frame>)
    ensures r.Ok? ==> r.value[0] == PROTOCOL_VERSION && r.value[1] == report && SequenceOf(r.value) == sequence
  {
    var i := sequence % capacity;
    if i >= |slots| then Err(EBADMSG)
    else if slots[i][0] == 0 || !Belongs(slots[i], report, capacity, i) || SequenceOf(slots[i]) != sequence then Err(ENOENT)
    else Ok(slots[i])
  }

  datatype Filter = Filter(fromSequence: uint16, toSequence: uint16, fromSeconds: uint32, toSeconds: uint32, withoutFlags: bv8)

  /** `sequence_within`: a window of signed differences; zero bounds do not bound. */
  predicate SequenceWithin(filter: Filter, sequence: uint16) {
    && (filter.fromSequence != 0 ==> !Before(sequence, filter.fromSequence))
    && (filter.toSequence != 0 ==> !Newer(sequence, filter.toSequence))
  }

  /** `(int16_t)(a - b) < 0`. */
  predicate Before(a: uint16, b: uint16) {
    Wrap(a - b) >= HALF
  }

  predicate SampleMatches(filter: Filter, f: Frame) {
    && SequenceWithin(filter, SequenceOf(f))
    && (filter.fromSeconds != 0 ==> SecondsOf(f) >= filter.fromSeconds)
    && (filter.toSeconds != 0 ==> SecondsOf(f) <= filter.toSeconds)
    && (filter.withoutFlags != 0 ==> (f[9] as bv8) & filter.withoutFlags == 0)
  }

  /** What a filter lets through, by the bytes of the frame: a sequence in the half circle from the lower bound on
      and in the half circle up to the upper one, a time in range, and none of the unwanted flags. */
  lemma FilterIff(filter: Filter, f: Frame)
    ensures SampleMatches(filter, f) <==>
            var sequence, seconds := f[2] as int * 0x100 + f[3], f[4] as int * 0x1000000 + f[5] as int * 0x10000 + f[6] as int * 0x100 + f[7];
            && (filter.fromSequence == 0 || Offset(filter.fromSequence, sequence) < 0x8000)
            && (filter.toSequence == 0 || Offset(sequence, filter.toSequence) <= 0x8000)
            && filter.fromSeconds <= seconds && (filter.toSeconds == 0 || seconds <= filter.toSeconds)
            && (f[9] as bv8) & filter.withoutFlags == 0
  {
    assert SequenceOf(f) == f[2] as int * 0x100 + f[3];
    assert SecondsOf(f) == f[4] as int * 0x1000000 + f[5] as int * 0x10000 + f[6] as int * 0x100 + f[7];
  }

  /** The range from the sequence of place `a` to that of place `b` of a window, as a filter. */
  function RangeFilter(first: uint16, a: nat, b: nat): Filter {
    Filter(Wrap(first + a), Wrap(first + b), 0, 0, 0)
  }

  /** Places a range filter lets through: a bound that happens to be sequence zero does not bound. */
  ghost predicate InRange(first: uint16, a: nat, b: nat, k: nat) {
    (Wrap(first + a) == 0 || a <= k) && (Wrap(first + b) == 0 || k <= b)
  }

  /** A range across the wrap selects what it should, unless one of its bounds is the sequence zero. */
  lemma RangeAcrossWrap(first: uint16, a: nat, b: nat, k: nat, w: nat)
    requires a < w && b < w && k < w && w <= HALF
    ensures SequenceWithin(RangeFilter(first, a, b), Wrap(first + k)) <==> InRange(first, a, b, k)
  {
    SerialOrder(first, a, k);
    SerialOrder(first, b, k);
  }

  lemma SerialOrder(first: uint16, a: nat, k: nat)
    requires a < HALF && k < HALF
    ensures Before(Wrap(first + k), Wrap(first + a)) <==> k < a
    ensures Newer(Wrap(first + k), Wrap(first + a)) <==> k > a
  {
    var d := Wrap(Wrap(first + k) - Wrap(first + a));
    assert d == if k >= a then k - a else k - a + SEQUENCES;
  }

  const NO_FILTER := Filter(0, 0, 0, 0, 0)

  /** The frames among the first `n` sequences from `first` that are there and match. */
  ghost function Matching(slots: Slots, report: byte, capacity: Positive, filter: Filter, first: uint16, n: nat): seq<Frame> {
    if n == 0 then []
    else
      var rest := Matching(slots, report, capacity, filter, first, n - 1);
      var r := RecordOf(slots, report, capacity, Wrap(first + n - 1));
      if r.Ok? && SampleMatches(filter, r.value) then rest + [r.value] else rest
  }

  /** `walk`: the records from the oldest to the newest sequence that are there and match. */
  method Walk(slots: Slots, report: byte, capacity: Positive, filter: Filter, ghost first: uint16, ghost w: nat)
    returns (visited: seq<Frame>, r: Reader)
    ensures visited == Matching(slots, report, capacity, filter, Oldest(r), r.written)
    ensures Window(slots, report, capacity, first, w) ==> r.written == w && (w > 0 ==> Oldest(r) == first)
  {
    hide Window, SampleMatches, RecordOf, Wrap;
    r := OpenReader(slots, report, capacity, first, w);
    if Window(slots, report, capacity, first, w) && w > 0 {
      WindowFits(slots, report, capacity, first, w);
      OldestIs(first, w);
    }
    visited := [];
    var index := 0;
    while index < r.written
      invariant 0 <= index <= r.written
      invariant visited == Matching(slots, report, capacity, filter, Oldest(r), index)
    {
      var record := RecordOf(slots, report, capacity, Wrap(Oldest(r) + index));
      if record.Ok? && SampleMatches(filter, record.value) {
        visited := visited + [record.value];
      }
      index := index + 1;
    }
  }

  lemma WindowFits(slots: Slots, report: byte, capacity: Positive, first: uint16, w: nat)
    requires Window(slots, report, capacity, first, w)
    ensures w <= HALF
  {
  }

  lemma OldestIs(first: uint16, w: nat)
    requires 1 <= w <= HALF
    ensures Oldest(Reader(w, Wrap(first + w - 1))) == first
  {
  }

  ghost predicate AsAsked(f: Frame, report: byte, filter: Filter, first: uint16, n: nat) {
    f[0] == PROTOCOL_VERSION && f[1] == report && SampleMatches(filter, f) && Offset(first, SequenceOf(f)) < n
  }

  /** Frames of the report that pass the filter, with sequences asked for, in the order asked. */
  ghost predicate InOrder(v: seq<Frame>, report: byte, filter: Filter, first: uint16, n: nat) {
    && (forall i :: 0 <= i < |v| ==> AsAsked(v[i], report, filter, first, n))
    && (forall i, j :: 0 <= i < j < |v| ==> Offset(first, SequenceOf(v[i])) < Offset(first, SequenceOf(v[j])))
  }

  lemma InOrderStep(rest: seq<Frame>, f: Frame, report: byte, filter: Filter, first: uint16, n: nat)
    requires InOrder(rest, report, filter, first, n)
    requires AsAsked(f, report, filter, first, n + 1) && Offset(first, SequenceOf(f)) == n
    ensures InOrder(rest + [f], report, filter, first, n + 1)
  {
    hide SampleMatches, SequenceOf, Offset;
    var v := rest + [f];
    assert forall i :: 0 <= i < |rest| ==> v[i] == rest[i] && AsAsked(rest[i], report, filter, first, n);
  }

  /** For any file contents, what a walk visits is what it asked for. */
  lemma {:induction false} VisitedAsAsked(slots: Slots, report: byte, capacity: Positive, filter: Filter, first: uint16, n: nat)
    requires n < SEQUENCES
    ensures InOrder(Matching(slots, report, capacity, filter, first, n), report, filter, first, n)
  {
    if n > 0 {
      hide SampleMatches, SequenceOf, Wrap, Offset, RecordOf;
      VisitedAsAsked(slots, report, capacity, filter, first, n - 1);
      OffsetOf(first, n - 1);
      var rest := Matching(slots, report, capacity, filter, first, n - 1);
      var r := RecordOf(slots, report, capacity, Wrap(first + n - 1));
      if r.Ok? && SampleMatches(filter, r.value) {
        InOrderStep(rest, r.value, report, filter, first, n - 1);
      } else {
        assert forall i :: 0 <= i < |rest| ==> AsAsked(rest[i], report, filter, first, n - 1);
      }
    }
  }

  /** On a window, a walk over a range of sequences visits exactly the records of its places, oldest first. */
  lemma {:induction false} RangeVisited(slots: Slots, report: byte, capacity: Positive, first: uint16, w: nat, a: nat, b: nat, n: nat)
    requires Window(slots, report, capacity, first, w) && n <= w && a <= b < w
    ensures var v := Matching(slots, report, capacity, RangeFilter(first, a, b), first, n);
            var low, high := if Wrap(first + a) == 0 then 0 else a, if Wrap(first + b) == 0 then w else b + 1;
            && |v| == Arith.Max(Arith.Min(n, high) - low, 0)
            && forall k :: 0 <= k < |v| ==> v[k] == slots[SlotOf(first, low + k, capacity)]
  {
    if n > 0 {
      hide Wrap, SequenceOf, Belongs, SequenceWithin, Offset;
      RangeVisited(slots, report, capacity, first, w, a, b, n - 1);
      assert Occupied(slots, report, capacity, SlotOf(first, n - 1, capacity));
      RangeAcrossWrap(first, a, b, n - 1, w);
      WindowRecord(slots, report, capacity, first, w, n - 1);
    }
  }

  lemma WindowRecord(slots: Slots, report: byte, capacity: Positive, first: uint16, w: nat, k: nat)
    requires Window(slots, report, capacity, first, w) && k < w
    ensures SlotOf(first, k, capacity) < |slots|
    ensures RecordOf(slots, report, capacity, Wrap(first + k)) == Ok(slots[SlotOf(first, k, capacity)])
  {
    assert Occupied(slots, report, capacity, SlotOf(first, k, capacity));
  }

  /** On a window, an unfiltered walk visits exactly its records, oldest first. */
  lemma {:induction false} WindowVisited(slots: Slots, report: byte, capacity: Positive, first: uint16, w: nat, n: nat)
    requires Window(slots, report, capacity, first, w) && n <= w
    ensures var v := Matching(slots, report, capacity, NO_FILTER, first, n);
            |v| == n && forall k :: 0 <= k < n ==> v[k] == slots[SlotOf(first, k, capacity)] && SequenceOf(v[k]) == Wrap(first + k)
  {
    if n > 0 {
      WindowVisited(slots, report, capacity, first, w, n - 1);
      assert Occupied(slots, report, capacity, SlotOf(first, n - 1, capacity));
    }
  }
}
