/** Storing housekeeping, src/hk/hk_store.c: each batch of collected samples goes to the slots their
    sequence numbers select, in a ring file that the reader of src/hk/hk_reader.c reads back. */
module HkStore {
  import opened Bytes
  import opened Errors
  import opened HkConfig
  import opened HkRing
  import opened HkReader
  import Arith

  const FLOOR_MS: nat

  // ----- when the ring file is a window -----

  /** The sequence circle is a whole number of turns of the ring file. */
  predicate Divides(capacity: Positive) {
    SEQUENCES % capacity == 0
  }

  lemma SlotIsModulo(x: int, capacity: Positive)
    requires Divides(capacity)
    ensures Wrap(x) % capacity == x % capacity
  {
    var c := SEQUENCES / capacity;
    assert SEQUENCES == c * capacity + SEQUENCES % capacity == c * capacity;
    Arith.ModMod(x, c, capacity);
    assert Wrap(x) == x % (c * capacity);
  }

  /** The slot of a sequence counted without wrapping. */
  function StoreSlot(x: nat, capacity: Positive): nat {
    Wrap(x) % capacity
  }

  ghost predicate SlotsDistinct(capacity: Positive) {
    forall x: nat, y: nat :: x < y < x + capacity ==> StoreSlot(x, capacity) != StoreSlot(y, capacity)
  }

  /** Sequences closer than the capacity never share a slot exactly when the capacity divides the
      circle: otherwise some pair across the 16-bit wrap does. */
  lemma SlotsDistinctIff(capacity: Positive)
    requires capacity <= HALF
    ensures Divides(capacity) <==> SlotsDistinct(capacity)
  {
    if Divides(capacity) {
      forall x: nat, y: nat | x < y < x + capacity ensures StoreSlot(x, capacity) != StoreSlot(y, capacity) {
        SlotIsModulo(x, capacity);
        SlotIsModulo(y, capacity);
        Arith.ModShift(x, y - x, capacity);
      }
    } else {
      WrapCollides(capacity);
    }
  }

  lemma WrapCollides(capacity: Positive)
    requires capacity <= HALF && !Divides(capacity)
    ensures !SlotsDistinct(capacity)
  {
    var r, q := SEQUENCES % capacity, SEQUENCES / capacity;
    assert SEQUENCES == q * capacity + r;
    var x := SEQUENCES - r;
    assert x == q * capacity + 0;
    Arith.DivModUnique(x, capacity, q, 0);
    Arith.DivModUnique(0, capacity, 0, 0);
    assert StoreSlot(x, capacity) == 0 && StoreSlot(SEQUENCES, capacity) == 0;
    assert x < SEQUENCES < x + capacity;
  }

  function Put(slots: Slots, i: nat, f: Frame): (s: Slots)
    ensures i < |s| && s[i] == f && |s| >= |slots|
    ensures forall j :: 0 <= j < |slots| && j != i ==> s[j] == slots[j]
    ensures forall j :: |slots| <= j < |s| && j != i ==> s[j][0] == 0
  {
    if i < |slots| then slots[i := f] else slots + seq(i - |slots|, _ => seq(|f|, _ => 0)) + [f]
  }

  lemma WrapAdd(x: int, k: int)
    ensures Wrap(Wrap(x) + k) == Wrap(x + k)
  {
  }

  /** Counting from a later sequence. */
  lemma SlotShift(start: uint16, m: nat, k: nat)
    ensures SlotOf(Wrap(start + m), k, STORE_CAPACITY) == SlotOf(start, m + k, STORE_CAPACITY) && Wrap(Wrap(start + m) + k) == Wrap(start + (m + k))
  {
    WrapAdd(start + m, k);
  }

  /** Whether the last `w` sequences, from `first` on, keep separate slots: the capacity divides the circle,
      or they do not straddle the wrap, or there are too few of them for any two to meet across it. */
  predicate WindowKept(first: uint16, w: nat) {
    Divides(STORE_CAPACITY) || first + w <= SEQUENCES || w <= SEQUENCES % STORE_CAPACITY
  }

  /** Two sequences on different sides of the wrap meet exactly at the distance the wrap is off by. */
  lemma AcrossWrap(x: int, d: int)
    requires 0 <= x < SEQUENCES <= x + d && 0 < d < STORE_CAPACITY
    ensures Wrap(x) % STORE_CAPACITY == Wrap(x + d) % STORE_CAPACITY <==> d == SEQUENCES % STORE_CAPACITY
  {
    var c, r, q := STORE_CAPACITY, SEQUENCES % STORE_CAPACITY, SEQUENCES / STORE_CAPACITY;
    var y := x + d - SEQUENCES;
    assert Wrap(x) == x && Wrap(x + d) == y && SEQUENCES == q * c + r;
    var m := y % c;
    assert y == (y / c) * c + m;
    // x == y - d + q * c + r, so only the residue of m + r - d decides.
    assert x == (y / c + q) * c + (m + r - d) by {
      assert (y / c + q) * c == (y / c) * c + q * c;
    }
    ResidueOf(x, c, y / c + q, m + r - d);
  }

  lemma ResidueOf(x: int, c: int, q: int, e: int)
    requires c >= 1 && x == q * c + e && -c < e < 2 * c
    ensures x % c == if e < 0 then e + c else if e < c then e else e - c
  {
    if e < 0 {
      assert x == (q - 1) * c + (e + c);
      Arith.DivModUnique(x, c, q - 1, e + c);
    } else if e < c {
      Arith.DivModUnique(x, c, q, e);
    } else {
      assert x == (q + 1) * c + (e - c);
      Arith.DivModUnique(x, c, q + 1, e - c);
    }
  }

  /** Kept sequences lie in different slots. */
  lemma KeptApart(first: uint16, w: nat, a: nat, b: nat)
    requires WindowKept(first, w) && a < b < w <= STORE_CAPACITY
    ensures SlotOf(first, a, STORE_CAPACITY) != SlotOf(first, b, STORE_CAPACITY)
  {
    if Divides(STORE_CAPACITY) {
      hide Wrap;
      SlotIsModulo(first + a, STORE_CAPACITY);
      SlotIsModulo(first + b, STORE_CAPACITY);
      Arith.ModShift(first + a, b - a, STORE_CAPACITY);
    } else if first + a < SEQUENCES <= first + b {
      AcrossWrap(first + a, b - a);
    } else {
      SameSide(first + a, b - a);
    }
  }

  /** On one side of the wrap, less than a capacity apart is never the same slot. */
  lemma SameSide(x: nat, d: nat)
    requires 0 < d < STORE_CAPACITY && (x + d < SEQUENCES || SEQUENCES <= x < x + d < 2 * SEQUENCES)
    ensures Wrap(x) % STORE_CAPACITY != Wrap(x + d) % STORE_CAPACITY
  {
    var base := if x < SEQUENCES then 0 else SEQUENCES;
    assert Wrap(x) == x - base && Wrap(x + d) == x + d - base;
    Arith.ModShift(x - base, d, STORE_CAPACITY);
  }

  /** Sequences that are not kept lose one of them: a later one takes the slot of an earlier one. */
  lemma ClashAt(first: uint16, w: nat) returns (a: nat, b: nat)
    requires !WindowKept(first, w) && w <= STORE_CAPACITY
    ensures a < b < w && SlotOf(first, a, STORE_CAPACITY) == SlotOf(first, b, STORE_CAPACITY) && Wrap(first + a) != Wrap(first + b)
  {
    var r := SEQUENCES % STORE_CAPACITY;
    b := Arith.Max(r, SEQUENCES - first);
    a := b - r;
    AcrossWrap(first + a, r);
  }

  /** Every slot is the slot of one of any capacity's worth of kept sequences. */
  lemma KeptCover(first: uint16, i: nat) returns (k: nat)
    requires WindowKept(first, STORE_CAPACITY) && i < STORE_CAPACITY
    ensures k < STORE_CAPACITY && SlotOf(first, k, STORE_CAPACITY) == i
  {
    k := Toward(first, i);
    if Divides(STORE_CAPACITY) {
      SlotIsModulo(first + k, STORE_CAPACITY);
    }
  }

  /** The step from `x` to the next number with residue `i`. */
  lemma Toward(x: nat, i: nat) returns (k: nat)
    requires i < STORE_CAPACITY
    ensures k < STORE_CAPACITY && (x + k) % STORE_CAPACITY == i
  {
    var c, m, q := STORE_CAPACITY, x % STORE_CAPACITY, x / STORE_CAPACITY;
    k := if i >= m then i - m else i - m + c;
    assert x == q * c + m;
    ResidueOf(x + k, c, q, m + k);
  }

  /** Every slot is taken within twice the capacity, across the wrap or not. */
  lemma AllCovered(start: uint16, m: nat, i: nat) returns (k: nat)
    requires i < STORE_CAPACITY
    ensures k < 2 * STORE_CAPACITY && SlotOf(start, m + k, STORE_CAPACITY) == i
  {
    var u := Wrap(start + m);
    if u + STORE_CAPACITY <= SEQUENCES {
      k := Toward(u, i);
      assert Wrap(u + k) == u + k;
    } else {
      k := SEQUENCES - u + i;
      assert Wrap(u + k) == i;
      Arith.DivModUnique(i, STORE_CAPACITY, 0, i);
    }
    hide Wrap;
    SlotShift(start, m, k);
  }

  // ----- one report, its ring and its file -----

  /** A collected frame: the header and the values after it. */
  function MakeFrame(report: byte, sequence: uint16, body: seq<byte>): (f: Frame)
    requires |body| >= FRAME_HEADER - 4
    ensures f[0] == PROTOCOL_VERSION && f[1] == report && SequenceOf(f) == sequence
  {
    var f := [PROTOCOL_VERSION, report] + Put16(sequence) + body;
    assert f[2..4] == Put16(sequence);
    f
  }

  lemma AgeInRing(r: Report, age: nat)
    requires Shaped(r)
    ensures 0 <= SlotOfAge(r, age) < |r.ring|
  {
  }

  lemma MadeFrame(report: byte, sequence: uint16, body: seq<byte>)
    requires |body| >= FRAME_HEADER - 4
    ensures IsFrameOf(Sample(sequence, MakeFrame(report, sequence, body)), report)
  {
  }

  lemma PushedSequence(r: Report, s: Sample, order: nat)
    requires Shaped(r)
    ensures Pushed(r, s, order).sequence == Wrap(r.sequence + 1)
  {
  }

  ghost predicate IsFrameOf(s: Sample, report: byte) {
    |s.data| >= FRAME_HEADER && s.data[0] == PROTOCOL_VERSION && s.data[1] == report && Get16(s.data[2..4]) == s.sequence
  }

  /** How creating the file goes: a failure may come before or after the old file is emptied. */
  datatype Creation = Created | Untouched | Truncated

  /** How the storage operations of one flush go. */
  datatype FlushIo = FlushOk | OpenFails | WriteFails(index: nat) | CloseFails

  /** Samples per write: as many collections as fit in the interval, at most the ring. */
  function EveryN(intervalMs: nat, periodMs: nat): (n: nat)
    ensures n <= HISTORY && (intervalMs > 0 ==> n >= 1)
  {
    if periodMs == 0 then 1
    else
      var every := (intervalMs + periodMs - 1) / periodMs;
      if every > HISTORY then HISTORY else if every == 0 then 1 else every
  }

  /** A batch is the fewest samples whose collections span the interval, at most what the ring holds. */
  lemma EveryNIff(intervalMs: nat, periodMs: nat, n: nat)
    requires intervalMs > 0
    ensures EveryN(intervalMs, periodMs) == n <==>
            if periodMs == 0 then n == 1
            else 1 <= n <= HISTORY && (n - 1) * periodMs < intervalMs && (n < HISTORY ==> n * periodMs >= intervalMs)
  {
    if periodMs > 0 && n > 0 {
      var every := (intervalMs + periodMs - 1) / periodMs;
      assert (every - 1) * periodMs < intervalMs <= every * periodMs;
      if n < every {
        Arith.Monotone(n, every - 1, periodMs);
        Arith.Monotone(n - 1, every - 1, periodMs);
      } else if n > every {
        Arith.Monotone(every, n - 1, periodMs);
      }
    }
  }

  /** The youngest `n` samples of the ring are the last `n` of `since`. */
  ghost predicate RingTail(r: Report, since: seq<Sample>, n: nat) {
    Shaped(r) && n <= r.held && n <= |since|
    && forall a :: 0 <= a < n ==> r.ring[SlotOfAge(r, a)] == since[|since| - 1 - a]
  }

  ghost predicate Numbered(since: seq<Sample>, start: uint16, report: byte) {
    forall k :: 0 <= k < |since| ==> since[k].sequence == Wrap(start + k) && IsFrameOf(since[k], report)
  }

  /** The `k`-th of `n` sequences from `start` is the last one in its slot. */
  ghost predicate LastIn(start: uint16, k: nat, n: nat) {
    forall m: nat :: k < m < n ==> SlotOf(start, m, STORE_CAPACITY) != SlotOf(start, k, STORE_CAPACITY)
  }

  /** The slot of the `k`-th sequence from `start` holds this sample's frame. */
  ghost predicate InSlot(slots: Slots, start: uint16, k: nat, s: Sample) {
    SlotOf(start, k, STORE_CAPACITY) < |slots| && slots[SlotOf(start, k, STORE_CAPACITY)] == s.data
  }

  /** The slot is never written, or belongs to the report and is the slot of one of the `n` sequences. */
  ghost predicate SlotOk(slots: Slots, report: byte, start: uint16, n: nat, i: nat) {
    i < |slots| && (slots[i][0] == 0 || (Occupied(slots, report, STORE_CAPACITY, i) && exists k: nat :: k < n && SlotOf(start, k, STORE_CAPACITY) == i))
  }

  /** A file after writes in sequence from `start`: every slot holds the last of them that chose it. */
  ghost predicate Latest(slots: Slots, report: byte, start: uint16, written: seq<Sample>) {
    && |slots| <= STORE_CAPACITY
    && (forall k :: 0 <= k < |written| && LastIn(start, k, |written|) ==> InSlot(slots, start, k, written[k]))
    && (forall i :: 0 <= i < |slots| ==> SlotOk(slots, report, start, |written|, i))
  }

  /** A new sample joins the youngest; a full ring lets go of its oldest. */
  lemma PushKeepsTail(r: Report, since: seq<Sample>, n: nat, s: Sample, order: nat)
    requires RingTail(r, since, n)
    ensures RingTail(Pushed(r, s, order), since + [s], Arith.Min(n + 1, HISTORY))
  {
    var p := Pushed(r, s, order);
    forall a | 0 <= a < Arith.Min(n + 1, HISTORY) ensures Shaped(p) && p.ring[SlotOfAge(p, a)] == (since + [s])[|since| - a] {
      PushedOrders(r, s, order, a);
    }
  }

  /** Forgetting the first `m` samples leaves the youngest in place. */
  lemma TailDrop(r: Report, since: seq<Sample>, n: nat, m: nat)
    requires RingTail(r, since, n) && m + n <= |since|
    ensures RingTail(r, since[m..], n)
  {
    hide SlotOfAge;
  }

  lemma TailNone(r: Report, since: seq<Sample>)
    requires Shaped(r)
    ensures RingTail(r, since, 0)
  {
  }

  lemma NumberedDrop(since: seq<Sample>, start: uint16, report: byte, m: nat)
    requires Numbered(since, start, report) && m <= |since|
    ensures Numbered(since[m..], Wrap(start + m), report) && Wrap(Wrap(start + m) + (|since| - m)) == Wrap(start + |since|)
  {
    hide IsFrameOf, Wrap;
    forall k | 0 <= k < |since| - m ensures since[m..][k].sequence == Wrap(Wrap(start + m) + k) && IsFrameOf(since[m..][k], report) {
      WrapAdd(start + m, k);
      assert since[m..][k] == since[m + k];
    }
    WrapAdd(start + m, |since| - m);
  }

  /** A written frame takes its own slot and leaves the others. */
  lemma OccupiedAfter(slots: Slots, report: byte, f: Frame)
    requires f[0] == PROTOCOL_VERSION && f[1] == report
    ensures var slot := SequenceOf(f) % STORE_CAPACITY;
            var slots' := Put(slots, slot, f);
            Occupied(slots', report, STORE_CAPACITY, slot)
            && forall j :: j != slot ==> (Occupied(slots', report, STORE_CAPACITY, j) <==> Occupied(slots, report, STORE_CAPACITY, j))
  {
    hide SequenceOf;
  }

  lemma LatestAdvances(slots: Slots, report: byte, start: uint16, written: seq<Sample>, s: Sample)
    requires Latest(slots, report, start, written) && IsFrameOf(s, report) && s.sequence == Wrap(start + |written|)
    ensures Latest(Put(slots, s.sequence % STORE_CAPACITY, s.data), report, start, written + [s])
  {
    hide Put, Wrap, IsFrameOf, SequenceOf, LastIn;
    FrameSequence(s, report);
    var n, j := |written|, s.sequence % STORE_CAPACITY;
    var more := n + 1;
    var slots' := Put(slots, j, s.data);
    assert j == SlotOf(start, n, STORE_CAPACITY);
    OccupiedAfter(slots, report, s.data);
    PutSize(slots, j, s.data);
    forall k | 0 <= k < more && LastIn(start, k, more) ensures InSlot(slots', start, k, (written + [s])[k]) {
      if k < n {
        LastBefore(start, k, n);
        assert InSlot(slots, start, k, written[k]);
      }
    }
    forall i | 0 <= i < |slots'| ensures SlotOk(slots', report, start, more, i) {
      if i != j && i < |slots| {
        assert SlotOk(slots, report, start, n, i);
      }
    }
  }

  lemma LastBefore(start: uint16, k: nat, n: nat)
    requires LastIn(start, k, n + 1) && k < n
    ensures LastIn(start, k, n) && SlotOf(start, n, STORE_CAPACITY) != SlotOf(start, k, STORE_CAPACITY)
  {
    hide Wrap;
  }

  lemma PutSize(slots: Slots, i: nat, f: Frame)
    ensures |Put(slots, i, f)| == if i < |slots| then |slots| else i + 1
  {
  }

  /** The last of the sequences that chose a slot. */
  lemma LastOf(start: uint16, n: nat, k: nat) returns (last: nat)
    requires k < n
    ensures k <= last < n && LastIn(start, last, n) && SlotOf(start, last, STORE_CAPACITY) == SlotOf(start, k, STORE_CAPACITY)
    decreases n - k
  {
    hide StoreSlot;
    if LastIn(start, k, n) {
      last := k;
    } else {
      var m: nat :| k < m < n && SlotOf(start, m, STORE_CAPACITY) == SlotOf(start, k, STORE_CAPACITY);
      last := LastOf(start, n, m);
    }
  }

  /** What an occupied slot holds: the last sequence that chose it, at most twice the capacity ago. */
  lemma Holder(slots: Slots, report: byte, start: uint16, written: seq<Sample>, i: nat) returns (k: nat)
    requires Latest(slots, report, start, written) && Occupied(slots, report, STORE_CAPACITY, i)
    ensures k < |written| && LastIn(start, k, |written|) && SlotOf(start, k, STORE_CAPACITY) == i && slots[i] == written[k].data
    ensures |written| <= k + 2 * STORE_CAPACITY
  {
    hide Wrap, SequenceOf;
    BelongsIsWritten(slots[i], report, STORE_CAPACITY, i);
    assert SlotOk(slots, report, start, |written|, i);
    var n := |written|;
    var some: nat :| some < n && SlotOf(start, some, STORE_CAPACITY) == i;
    if n > 2 * STORE_CAPACITY {
      var late := AllCovered(start, n - 2 * STORE_CAPACITY, i);
      some := n - 2 * STORE_CAPACITY + late;
    }
    k := LastOf(start, n, some);
    assert InSlot(slots, start, k, written[k]);
  }

  ghost function WindowFirst(start: uint16, n: nat): uint16 {
    Wrap(start + n - WindowSize(n))
  }

  function WindowSize(n: nat): nat {
    Arith.Min(n, STORE_CAPACITY)
  }

  /** After any writes at all the file is the window of the last of them, as many as fit, exactly when they
      are kept. */
  lemma WindowIff(slots: Slots, report: byte, start: uint16, written: seq<Sample>)
    requires Latest(slots, report, start, written) && Numbered(written, start, report)
    ensures var n := |written|;
            Window(slots, report, STORE_CAPACITY, WindowFirst(start, n), WindowSize(n)) <==> WindowKept(WindowFirst(start, n), WindowSize(n))
  {
    hide Wrap, WindowKept, Latest, Numbered;
    var n, w := |written|, WindowSize(|written|);
    var first := WindowFirst(start, n);
    if WindowKept(first, w) {
      forall k | 0 <= k < w
        ensures Occupied(slots, report, STORE_CAPACITY, SlotOf(first, k, STORE_CAPACITY))
        ensures SequenceOf(slots[SlotOf(first, k, STORE_CAPACITY)]) == Wrap(first + k)
      {
        WindowMember(slots, report, start, written, k);
      }
      forall i | Occupied(slots, report, STORE_CAPACITY, i) ensures Offset(first, SequenceOf(slots[i])) < w {
        WindowOnly(slots, report, start, written, i);
      }
    } else if Window(slots, report, STORE_CAPACITY, first, w) {
      var a, b := ClashAt(first, w);
      assert false;
    }
  }

  lemma WindowMember(slots: Slots, report: byte, start: uint16, written: seq<Sample>, k: nat)
    requires Latest(slots, report, start, written) && Numbered(written, start, report)
    requires WindowKept(WindowFirst(start, |written|), WindowSize(|written|)) && k < WindowSize(|written|)
    ensures var first := WindowFirst(start, |written|);
            Occupied(slots, report, STORE_CAPACITY, SlotOf(first, k, STORE_CAPACITY))
            && SequenceOf(slots[SlotOf(first, k, STORE_CAPACITY)]) == Wrap(first + k)
            && slots[SlotOf(first, k, STORE_CAPACITY)] == written[|written| - WindowSize(|written|) + k].data
  {
    hide Wrap, WindowKept, SequenceOf, IsFrameOf;
    var n, w := |written|, WindowSize(|written|);
    var first := WindowFirst(start, n);
    var p := n - w + k;
    forall m: nat | p < m < n ensures SlotOf(start, m, STORE_CAPACITY) != SlotOf(start, p, STORE_CAPACITY) {
      KeptApart(first, w, k, m - (n - w));
      SlotShift(start, n - w, m - (n - w));
      SlotShift(start, n - w, k);
    }
    assert LastIn(start, p, n);
    assert InSlot(slots, start, p, written[p]);
    SlotShift(start, n - w, k);
    FrameSequence(written[p], report);
  }

  lemma WindowOnly(slots: Slots, report: byte, start: uint16, written: seq<Sample>, i: nat)
    requires Latest(slots, report, start, written) && Numbered(written, start, report)
    requires WindowKept(WindowFirst(start, |written|), WindowSize(|written|)) && Occupied(slots, report, STORE_CAPACITY, i)
    ensures Offset(WindowFirst(start, |written|), SequenceOf(slots[i])) < WindowSize(|written|)
  {
    hide Wrap, WindowKept, SequenceOf, IsFrameOf;
    var n, w := |written|, WindowSize(|written|);
    var first := WindowFirst(start, n);
    var k := Holder(slots, report, start, written, i);
    if k < n - w {
      // A full window takes every slot, so a later sequence chose this one.
      var c := KeptCover(first, i);
      SlotShift(start, n - w, c);
      assert false;
    }
    FrameSequence(written[k], report);
    SlotShift(start, n - w, k - (n - w));
    OffsetOf(first, k - (n - w));
  }

  /** A file nothing was written to is one from any start. */
  lemma EmptyAnywhere(slots: Slots, report: byte, start: uint16, other: uint16)
    requires Latest(slots, report, start, [])
    ensures Latest(slots, report, other, [])
  {
    hide Belongs;
    forall i | 0 <= i < |slots| ensures SlotOk(slots, report, other, 0, i) {
      assert SlotOk(slots, report, start, 0, i);
    }
  }

  lemma NothingStored(report: byte, start: uint16)
    ensures Latest([], report, start, [])
  {
  }

  lemma NothingSince(r: Report, report: byte)
    requires Shaped(r)
    ensures RingTail(r, [], 0) && Numbered([], r.sequence, report) && Wrap(r.sequence + 0) == r.sequence
  {
  }

  lemma NumberedStep(since: seq<Sample>, start: uint16, report: byte, s: Sample)
    requires Numbered(since, start, report) && s.sequence == Wrap(start + |since|) && IsFrameOf(s, report)
    ensures Numbered(since + [s], start, report)
  {
  }

  /** The batch's own arithmetic names the sequences that were counted. */
  lemma BatchSequence(start: uint16, total: nat, pending: nat, index: nat)
    ensures Wrap(Wrap(Wrap(start + total) - pending) + index) == Wrap(start + total - pending + index)
  {
    WrapAdd(start + total, 0 - (pending as int));
    WrapAdd(start + total - pending, index);
  }

  lemma FrameSequence(s: Sample, report: byte)
    requires IsFrameOf(s, report)
    ensures |s.data| >= FRAME_HEADER && s.data[0] == PROTOCOL_VERSION && s.data[1] == report && SequenceOf(s.data) == s.sequence
  {
  }

  // ----- restoring at boot -----

  lemma FreshShaped(sequence: uint16)
    ensures Shaped(EMPTY_REPORT.(defined := true, sequence := sequence))
  {
  }

  /** The last writes, as far back as any slot can hold one. */
  ghost function ReachSize(n: nat): nat {
    Arith.Min(n, 2 * STORE_CAPACITY)
  }

  ghost function ReachFirst(start: uint16, n: nat): uint16 {
    Wrap(start + n - ReachSize(n))
  }

  /** Whatever slot holds is one of those writes. */
  lemma WithinReach(slots: Slots, report: byte, start: uint16, written: seq<Sample>, i: nat)
    requires Latest(slots, report, start, written) && Numbered(written, start, report) && Occupied(slots, report, STORE_CAPACITY, i)
    ensures Offset(ReachFirst(start, |written|), SequenceOf(slots[i])) < ReachSize(|written|)
  {
    hide Wrap, SequenceOf, IsFrameOf;
    var n, w := |written|, ReachSize(|written|);
    var k := Holder(slots, report, start, written, i);
    FrameSequence(written[k], report);
    SlotShift(start, n - w, k - (n - w));
    OffsetOf(ReachFirst(start, n), k - (n - w));
  }

  /** The newest write is in the file, and nothing in it is farther. */
  lemma NewestHeld(slots: Slots, report: byte, start: uint16, written: seq<Sample>)
    requires Latest(slots, report, start, written) && Numbered(written, start, report) && written != []
    ensures var i, n := SlotOf(start, |written| - 1, STORE_CAPACITY), |written|;
            Occupied(slots, report, STORE_CAPACITY, i) && SequenceOf(slots[i]) == Wrap(start + n - 1)
            && Offset(ReachFirst(start, n), SequenceOf(slots[i])) == ReachSize(n) - 1
  {
    hide Wrap, SequenceOf, IsFrameOf;
    var n, w := |written|, ReachSize(|written|);
    assert LastIn(start, n - 1, n);
    assert InSlot(slots, start, n - 1, written[n - 1]);
    FrameSequence(written[n - 1], report);
    SlotShift(start, n - w, w - 1);
    OffsetOf(ReachFirst(start, n), w - 1);
  }

  /** `newest` is a write, and no slot scanned so far holds a later one. */
  ghost predicate NewestSoFar(slots: Slots, report: byte, first: uint16, w: nat, scanned: nat, newest: Option<uint16>) {
    && (newest.None? ==> forall i :: 0 <= i < scanned ==> !Occupied(slots, report, STORE_CAPACITY, i))
    && (newest.Some? ==>
          Offset(first, newest.value) < w
          && forall i :: 0 <= i < scanned && Occupied(slots, report, STORE_CAPACITY, i) ==> Offset(first, SequenceOf(slots[i])) <= Offset(first, newest.value))
  }

  lemma ScanStep(slots: Slots, report: byte, first: uint16, w: nat, i: nat, newest: Option<uint16>)
    requires NewestSoFar(slots, report, first, w, i, newest) && w <= HALF && i < |slots|
    requires Occupied(slots, report, STORE_CAPACITY, i) ==> Offset(first, SequenceOf(slots[i])) < w
    ensures var s := SequenceOf(slots[i]);
            NewestSoFar(slots, report, first, w, i + 1,
                        if !Occupied(slots, report, STORE_CAPACITY, i) then newest
                        else if newest.None? || Newer(s, newest.value) then Some(s) else newest)
  {
    hide Wrap, SequenceOf, Offset, Newer, Belongs;
    if Occupied(slots, report, STORE_CAPACITY, i) && newest.Some? {
      NewerIsFarther(first, SequenceOf(slots[i]), newest.value);
    }
  }

  /** The record loop of `kfsw_hk_store_restore_prepare`: refuses a file with anything that does not belong,
      and finds the newest sequence. After any writes at all, wrapped or not, that is the last one written. */
  method RestoreScan(slots: Slots, report: byte, ghost start: uint16, ghost written: seq<Sample>) returns (r: Result<Option<uint16>>)
    ensures r.Ok? <==> |slots| <= STORE_CAPACITY && forall i :: 0 <= i < |slots| ==> slots[i][0] == 0 || Belongs(slots[i], report, STORE_CAPACITY, i)
    ensures Latest(slots, report, start, written) && Numbered(written, start, report) ==>
              r == Ok(if written == [] then None else Some(Wrap(start + |written| - 1)))
  {
    hide Wrap, SequenceOf, Offset, Newer, Belongs, Latest, Numbered, NewestSoFar;
    var newest: Option<uint16> := None;
    ghost var tracked := Latest(slots, report, start, written) && Numbered(written, start, report);
    ghost var first, w := ReachFirst(start, |written|), ReachSize(|written|);
    ScanStart(slots, report, first, w);
    if tracked {
      AllBelong(slots, report, start, written);
    }
    var slot: nat := 0;
    while slot < |slots|
      invariant slot <= |slots| && slot <= STORE_CAPACITY
      invariant forall i :: 0 <= i < slot ==> slots[i][0] == 0 || Belongs(slots[i], report, STORE_CAPACITY, i)
      invariant tracked ==> NewestSoFar(slots, report, first, w, slot, newest)
    {
      if slot == STORE_CAPACITY {
        return Err(EBADMSG);
      }
      if tracked {
        if Occupied(slots, report, STORE_CAPACITY, slot) {
          WithinReach(slots, report, start, written, slot);
        }
        ScanStep(slots, report, first, w, slot, newest);
      }
      var f := slots[slot];
      if f[0] == 0 {
        NeverWritten(slots, report, slot);
      } else {
        if !Belongs(f, report, STORE_CAPACITY, slot) {
          return Err(EBADMSG);
        }
        if newest.None? || Newer(SequenceOf(f), newest.value) {
          newest := Some(SequenceOf(f));
        }
      }
      slot := slot + 1;
    }
    if tracked {
      ScanEnd(slots, report, start, written, newest);
    }
    r := Ok(newest);
  }

  lemma ScanStart(slots: Slots, report: byte, first: uint16, w: nat)
    ensures NewestSoFar(slots, report, first, w, 0, None)
  {
  }

  lemma NeverWritten(slots: Slots, report: byte, i: nat)
    requires i < |slots| && slots[i][0] == 0
    ensures !Occupied(slots, report, STORE_CAPACITY, i)
  {
  }

  lemma AllBelong(slots: Slots, report: byte, start: uint16, written: seq<Sample>)
    requires Latest(slots, report, start, written)
    ensures |slots| <= STORE_CAPACITY && forall i :: 0 <= i < |slots| ==> slots[i][0] == 0 || Belongs(slots[i], report, STORE_CAPACITY, i)
  {
    hide Belongs, LastIn, InSlot;
    forall i | 0 <= i < |slots| ensures slots[i][0] == 0 || Belongs(slots[i], report, STORE_CAPACITY, i) {
      assert SlotOk(slots, report, start, |written|, i);
    }
  }

  lemma ScanEnd(slots: Slots, report: byte, start: uint16, written: seq<Sample>, newest: Option<uint16>)
    requires Latest(slots, report, start, written) && Numbered(written, start, report)
    requires NewestSoFar(slots, report, ReachFirst(start, |written|), ReachSize(|written|), |slots|, newest)
    ensures newest == if written == [] then None else Some(Wrap(start + |written| - 1))
  {
    hide Wrap, SequenceOf, Belongs, Latest, Numbered;
    if written != [] {
      NewestHeld(slots, report, start, written);
      var i := SlotOf(start, |written| - 1, STORE_CAPACITY);
      var first := ReachFirst(start, |written|);
      assert Offset(first, newest.value) == Offset(first, SequenceOf(slots[i]));
    }
  }

  /** What a boot finds under the report's name: nothing, with how creating it goes, or a file, with whether
      its header is that of this report and shape and the file closes. */
  datatype Found = Missing(creation: Creation) | Present(headerOk: bool, closes: bool)

  class StoredReport {
    const id: byte
    var ram: Report
    var collectedOrder: nat
    var intervalMs: nat
    var everyN: nat
    var pending: nat
    var open: bool
    var slots: Slots
    /** Since storing was enabled, or last failed: the samples collected, those written, and the
        first sequence. */
    ghost var since: seq<Sample>
    ghost var written: seq<Sample>
    ghost var start: uint16
    /** No storage operation has failed since the file was created. */
    ghost var clean: bool

    constructor (report: byte)
      ensures Valid() && id == report && !open
    {
      id := report;
      ram := EMPTY_REPORT.(defined := true);
      collectedOrder, intervalMs, everyN, pending, open, slots := 0, 0, 1, 0, false, [];
      since, written, start, clean := [], [], 0, true;
    }

    /** Conservation: what was written, followed by what still waits in the ring, is what was
        collected; and the file is the window of what was written. */
    ghost predicate Valid()
      reads this
    {
      && Shaped(ram) && 1 <= everyN <= HISTORY && (intervalMs != 0 <==> open)
      && (!open ==> pending == 0)
      && (open ==>
            && pending <= HISTORY && RingTail(ram, since, pending) && Numbered(since, start, id)
            && ram.sequence == Wrap(start + |since|)
            && |since| == |written| + pending && written == since[..|written|]
            && (clean ==> Latest(slots, id, start, written)))
    }

    /** A new definition discards the samples and deletes the file. */
    method Define(retrievalClass: nat)
      requires Valid() && retrievalClass <= CLASS_MAX
      modifies this
      ensures Valid() && !open && ram.held == 0 && slots == []
    {
      ram := ram.(defined := true, retrievalClass := retrievalClass, held := 0, nextSlot := 0);
      open, intervalMs, pending, slots := false, 0, 0, [];
    }

    /** `kfsw_hk_store_configure`: zero stops and keeps the file; otherwise the file starts afresh. */
    method Configure(interval: nat, period: nat, ready: bool, fits: bool, creation: Creation) returns (result: Status)
      requires Valid()
      modifies this`intervalMs, this`everyN, this`pending, this`open, this`slots, this`since, this`written, this`start, this`clean
      ensures Valid()
      ensures interval == 0 ==> !open && slots == old(slots)
      ensures result.Success? && interval > 0 ==> open && clean && since == [] && start == ram.sequence && everyN == EveryN(interval, period)
      ensures result.Success? <==> interval == 0 || (ready && fits && creation.Created? && interval >= FLOOR_MS)
      ensures result.Failure? ==> open == old(open) && pending == old(pending) && ((slots == old(slots) && clean == old(clean)) || !clean)
    {
      hide Latest, Wrap, Numbered, RingTail, EveryN;
      if interval == 0 {
        intervalMs, open, pending := 0, false, 0;
        return Success;
      }
      if !ready {
        return Failure(ENODEV);
      }
      if interval < FLOOR_MS {
        return Failure(ERANGE);
      }
      if !fits {
        return Failure(ENOSPC);
      }
      if !creation.Created? {
        if creation.Truncated? {
          slots, clean := [], false;
        }
        return Failure(EIO);
      }
      intervalMs, everyN, pending, open, slots := interval, EveryN(interval, period), 0, true, [];
      since, written, start, clean := [], [], ram.sequence, true;
      NothingStored(id, start);
      NothingSince(ram, id);
      result := Success;
    }

    /** A reboot and the restore of a saved store, `kfsw_hk_store_restore_prepare` and its commit: the RAM
        ring and what was pending are gone, and numbering goes on right after the last sequence in the file,
        so the file carries on as if nothing had happened. */
    method Restore(interval: nat, period: nat, found: Found) returns (result: Status)
      requires Valid()
      modifies this
      ensures Valid() && ram.held == 0
      ensures result.Failure? || interval == 0 ==> !open
      ensures result.Success? && interval > 0 ==> open && everyN == EveryN(interval, period)
      ensures interval > 0 && found == Present(true, true) && old(open) && old(clean) ==>
                result.Success? && clean && slots == old(slots) && written == old(written) == since
                && (written != [] ==> start == old(start)) && ram.sequence == Wrap(start + |written|)
    {
      hide Latest, Wrap, Numbered, RingTail, EveryN, Shaped;
      ghost var tracked := open && clean;
      if tracked {
        NumberedPrefix(since, start, id, |written|);
      }
      ram := EMPTY_REPORT.(defined := true);
      FreshShaped(0);
      open, intervalMs, pending := false, 0, 0;
      if interval == 0 {
        return Success;
      }
      if found.Missing? {
        if !found.creation.Created? {
          return Failure(EIO);
        }
        slots, written, start := [], [], 0;
        NothingStored(id, start);
        NothingSince(ram, id);
        Resume(interval, period, None, true);
        return Success;
      }
      if !found.headerOk {
        return Failure(EBADMSG);
      }
      var scan := RestoreScan(slots, id, start, written);
      if scan.Err? {
        return Failure(scan.error);
      }
      if !found.closes {
        return Failure(EIO);
      }
      Resume(interval, period, scan.value, tracked);
      result := Success;
    }

    /** Numbering goes on after the newest sequence found, or from zero. */
    method Resume(interval: nat, period: nat, newest: Option<uint16>, ghost tracked: bool)
      requires interval > 0 && ram == EMPTY_REPORT.(defined := true) && pending == 0
      requires tracked ==> Latest(slots, id, start, written) && Numbered(written, start, id)
                           && newest == if written == [] then None else Some(Wrap(start + |written| - 1))
      modifies this
      ensures Valid() && open && ram.held == 0 && everyN == EveryN(interval, period) && slots == old(slots)
      ensures tracked ==> clean && written == old(written) == since && (written != [] ==> start == old(start)) && ram.sequence == Wrap(start + |written|)
    {
      hide Latest, Wrap, Numbered, RingTail, EveryN, Shaped;
      ram := ram.(sequence := if newest.Some? then Wrap(newest.value + 1) else 0);
      FreshShaped(ram.sequence);
      intervalMs, everyN, open, clean := interval, EveryN(interval, period), true, tracked;
      if tracked && written != [] {
        since := written;
        WrapAdd(start + |written| - 1, 1);
        TailNone(ram, since);
      } else {
        since, written, start := [], [], ram.sequence;
        NothingSince(ram, id);
        if tracked {
          EmptyAnywhere(slots, id, old(start), start);
        }
      }
    }

    /** `kfsw_hk_collect` for this report, then the flush it ends with. */
    method Collect(body: seq<byte>, io: FlushIo) returns (stored: Status)
      requires Valid() && |body| >= FRAME_HEADER - 4
      modifies this
      ensures Valid()
      ensures open == old(open) && everyN == old(everyN)
      ensures old(open) && io == FlushOk ==> stored.Success? && pending < everyN
      ensures old(open) && (io == FlushOk || io == OpenFails) && old(pending) < HISTORY ==>
                start == old(start) && clean == old(clean) && old(written) <= written
                && since == old(since) + [Sample(old(ram).sequence, MakeFrame(id, old(ram).sequence, body))]
      ensures old(open) && io == FlushOk && old(pending) + 1 >= everyN ==> written == since && pending == 0
    {
      hide Latest, Wrap, SlotOfAge, RingTail, Numbered, MakeFrame, IsFrameOf, Pushed, Divides;
      var sample := Sample(ram.sequence, MakeFrame(id, ram.sequence, body));
      MadeFrame(id, ram.sequence, body);
      PushedOrders(ram, sample, collectedOrder + 1, 0);
      if open {
        PushKeepsTail(ram, since, pending, sample, collectedOrder + 1);
        NumberedStep(since, start, id, sample);
        WrapAdd(start + |since|, 1);
        PushedSequence(ram, sample, collectedOrder + 1);
      }
      ram := Pushed(ram, sample, collectedOrder + 1);
      collectedOrder := collectedOrder + 1;
      if !open {
        return Success;
      }
      since := since + [sample];
      stored := Flush(ram.sequence, io);
    }

    /** `kfsw_hk_store_flush`: once a batch is full, write it oldest first. */
    method Flush(nextSequence: uint16, io: FlushIo) returns (result: Status)
      requires Shaped(ram) && 1 <= everyN <= HISTORY && open && intervalMs != 0
      requires pending <= HISTORY && RingTail(ram, since, Arith.Min(pending + 1, HISTORY)) && Numbered(since, start, id)
      requires nextSequence == ram.sequence == Wrap(start + |since|)
      requires |since| == |written| + pending + 1 && written == since[..|written|]
      requires clean ==> Latest(slots, id, start, written)
      modifies this`pending, this`slots, this`written, this`since, this`start, this`clean
      ensures Valid()
      ensures io == FlushOk ==> result.Success? && pending < everyN
      ensures result.Failure? <==>
                Arith.Min(old(pending) + 1, HISTORY) >= everyN
                && (io.OpenFails? || io.CloseFails? || (io.WriteFails? && io.index < Arith.Min(old(pending) + 1, HISTORY)))
      ensures result.Failure? && io.OpenFails? ==> pending == Arith.Min(old(pending) + 1, HISTORY) && slots == old(slots)
      ensures (io == FlushOk || io == OpenFails) && old(pending) < HISTORY ==>
                clean == old(clean) && start == old(start) && since == old(since) && old(written) <= written
      ensures io == FlushOk && old(pending) + 1 >= everyN ==> written == since && pending == 0
    {
      hide Latest, Wrap, Numbered, SlotOfAge, RingTail;
      if pending == HISTORY {
        // The ring overwrote a sample that no flush had written.
        TailDrop(ram, since, HISTORY, |written| + 1);
        NumberedDrop(since, start, id, |written| + 1);
        start, since, written, clean := Wrap(start + |written| + 1), since[|written| + 1..], [], false;
      }
      pending := Arith.Min(pending + 1, HISTORY);
      if pending < everyN {
        return Success;
      }
      if io.OpenFails? {
        // Everything stays pending for the next flush.
        return Failure(EIO);
      }
      result := WriteOut(nextSequence, io);
    }

    /** The file opened: write the batch, close, and start the next one either way. */
    method WriteOut(nextSequence: uint16, io: FlushIo) returns (result: Status)
      requires Shaped(ram) && 1 <= everyN <= HISTORY && open && intervalMs != 0
      requires RingTail(ram, since, pending) && Numbered(since, start, id)
      requires nextSequence == ram.sequence == Wrap(start + |since|)
      requires |since| == |written| + pending && written == since[..|written|]
      requires clean ==> Latest(slots, id, start, written)
      modifies this`pending, this`slots, this`written, this`since, this`start, this`clean
      ensures Valid() && pending == 0
      ensures result.Success? <==> !io.CloseFails? && !(io.WriteFails? && io.index < old(pending))
      ensures io == FlushOk ==> result.Success? && clean == old(clean) && start == old(start) && since == old(since)
                                && old(written) <= written == since
    {
      hide Latest, Wrap, Numbered, SlotOfAge, RingTail;
      result := WriteBatch(nextSequence, io);
      if result.Success? && io.CloseFails? {
        result := Failure(EIO);
      }
      TailNone(ram, since);
      pending := 0;
      if result.Failure? {
        // The batch is dropped; storing goes on with the next sample.
        since, written, start, clean := [], [], ram.sequence, false;
        NothingSince(ram, id);
      }
    }

    method WriteBatch(nextSequence: uint16, io: FlushIo) returns (result: Status)
      requires Shaped(ram) && RingTail(ram, since, pending) && Numbered(since, start, id)
      requires nextSequence == Wrap(start + |since|)
      requires |since| == |written| + pending && written == since[..|written|]
      requires clean ==> Latest(slots, id, start, written)
      modifies this`slots, this`written
      ensures result.Success? ==> written == since
      ensures result.Success? && clean ==> Latest(slots, id, start, written)
      ensures result.Success? <==> !(io.WriteFails? && io.index < pending)
      ensures result.Failure? ==> |written| == |old(written)| + io.index && written == since[..|written|]
    {
      hide Latest, Wrap, Numbered, SlotOfAge;
      var first := Wrap(nextSequence - pending);
      ghost var done := |written|;
      var index := 0;
      while index < pending
        invariant io.WriteFails? ==> index <= io.index
        invariant 0 <= index <= pending && |written| == done + index && written == since[..|written|]
        invariant clean ==> Latest(slots, id, start, written)
      {
        if io == WriteFails(index) {
          return Failure(EIO);
        }
        BatchSequence(start, |since|, pending, index);
        var sequence := Wrap(first + index);
        var age := pending - 1 - index;
        AgeInRing(ram, age);
        var sample := ram.ring[SlotOfAge(ram, age)];
        WriteOne(sequence, sample);
        index := index + 1;
      }
      assert since[..|written|] == since;
      result := Success;
    }

    /** The slot is chosen by the counted sequence, which is the one inside the frame. */
    method WriteOne(sequence: uint16, sample: Sample)
      requires |written| < |since| && sample == since[|written|] && Numbered(since, start, id)
      requires sequence == Wrap(start + |written|) && written == since[..|written|]
      requires clean ==> Latest(slots, id, start, written)
      modifies this`slots, this`written
      ensures written == old(written) + [sample] && written == since[..|written|]
      ensures slots == Put(old(slots), sample.sequence % STORE_CAPACITY, sample.data)
      ensures clean ==> Latest(slots, id, start, written)
    {
      hide Latest, Put;
      if clean {
        LatestAdvances(slots, id, start, written, sample);
      }
      slots := Put(slots, sequence % STORE_CAPACITY, sample.data);
      written := written + [sample];
    }
  }

  /** End to end: at any time, the reader returns exactly the last written samples that fit, oldest
      first, as long as these are kept. */
  method ReadBack(r: StoredReport) returns (visited: seq<Frame>)
    requires r.Valid() && r.open && r.clean
    requires WindowKept(WindowFirst(r.start, |r.written|), WindowSize(|r.written|))
    ensures var w := WindowSize(|r.written|);
            |visited| == w && forall k :: 0 <= k < w ==> visited[k] == r.written[|r.written| - w + k].data
  {
    hide Window, RecordOf, SequenceOf, SampleMatches, Wrap, WindowKept, Latest, Numbered;
    ghost var w := WindowSize(|r.written|);
    ghost var first := WindowFirst(r.start, |r.written|);
    NumberedPrefix(r.since, r.start, r.id, |r.written|);
    WindowIff(r.slots, r.id, r.start, r.written);
    var reader;
    visited, reader := Walk(r.slots, r.id, STORE_CAPACITY, NO_FILTER, first, w);
    WindowVisited(r.slots, r.id, STORE_CAPACITY, first, w, w);
    forall k | 0 <= k < w ensures visited[k] == r.written[|r.written| - w + k].data {
      WindowMember(r.slots, r.id, r.start, r.written, k);
    }
  }

  lemma NumberedPrefix(since: seq<Sample>, start: uint16, report: byte, n: nat)
    requires Numbered(since, start, report) && n <= |since|
    ensures Numbered(since[..n], start, report)
  {
  }
}
