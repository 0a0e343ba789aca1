/** The journal worker, src/journal/journal.c: events queue up, and a flush writes them one by one,
    keeping the record whose write failed until it is stored. */
module Journal {
  import opened Bytes
  import opened Errors
  import opened JournalStore
  import Arith

  const QUEUE_DEPTH: Positive
  const MIN_SEVERITY: byte
  const EVENT_BOOT_READY: uint16 := 1
  const EVENT_BOOT_LASTWORDS: uint16 := 2

  /** One iteration's surroundings: the wall clock it reads and how its write goes. */
  datatype Turn = Turn(utcValid: bool, utcSeconds: int64, io: WriteIo)

  /** No write fails. */
  predicate WorkingTurns(turns: seq<Turn>) {
    forall i :: 0 <= i < |turns| ==> turns[i].io.Done?
  }

  /** Storage on which opening the journal goes through: it is there, and the journal is open already, absent,
      or a file of the right header that is not too long. */
  predicate Opens(isOpen: bool, file: Option<seq<byte>>, storageReady: bool, io: OpenIo) {
    && storageReady
    && (isOpen || (io.OpenOk? && (file.None? || (HeaderOk(file.value) && |file.value| <= SlotStart(CAPACITY)))))
  }

  /** A write to the file: which dequeued event, under which sequence. */
  datatype Attempt = Attempt(event: nat, sequence: int)

  predicate Acceptable(e: Event) {
    |e.payload| <= MAX_PAYLOAD_SIZE && e.severity <= CRITICAL && SourceKnown(e)
  }

  predicate IsBootReport(e: Event) {
    e.source == SOURCE_BOOT && (e.id == EVENT_BOOT_READY || e.id == EVENT_BOOT_LASTWORDS)
  }

  /** A boot report not seen yet, any other boot event, or an event of the configured severity. */
  predicate Wanted(e: Event, bootSeen: set<uint16>) {
    if e.source == SOURCE_BOOT then IsBootReport(e) ==> e.id !in bootSeen else e.severity >= MIN_SEVERITY
  }

  /** Which events are kept: of a known source, at most critical, with a payload that fits; of the boot source
      every one but a report of readiness or of last words that was queued before, of the others those of the
      configured severity. */
  lemma KeptMeans(e: Event, bootSeen: set<uint16>)
    ensures Acceptable(e) && Wanted(e, bootSeen) <==>
            |e.payload| <= 16 && e.severity <= 3 && 1 <= e.source <= 7
            && if e.source == 1 then !(e.id in {1, 2} && e.id in bootSeen) else e.severity >= MIN_SEVERITY
    ensures IsBootReport(e) <==> e.source == 1 && e.id in {1, 2}
  {
  }

  // ----- what the file says while `floor` is the last sequence stored -----

  /** The record `floor` is readable and nothing is newer, except possibly the one being written. */
  ghost predicate Settled(v: seq<uint64>, floor: nat, writing: bool) {
    && |v| == CAPACITY && floor < UINT64_MAX
    && (forall i :: 0 <= i < |v| ==> v[i] <= if writing then floor + 1 else floor)
    && (floor == 0 || v[SlotOf(floor)] == floor)
  }

  lemma SettledNext(v: seq<uint64>, held: nat, next: int, floor: nat, writing: bool)
    requires Settled(v, floor, writing) && IsIndex(v, held, next)
    ensures next == floor + 1 || (writing && next == floor + 2)
    ensures writing ==> Accepted(v, next, SlotOf(floor + 1), floor + 1)
  {
    if floor > 0 {
      assert v[SlotOf(floor)] < next;
    }
  }

  lemma FirstFloor(file: seq<byte>, held: nat, next: int)
    requires IsIndex(View(file), held, next) && next <= UINT64_MAX
    ensures Settled(View(file), next - 1, false)
  {
    hide Decode, RecordAt;
    var v := View(file);
    if next > 1 {
      var i :| 0 <= i < |v| && v[i] == next - 1;
      assert v[i] == SequenceAt(file, i);
    }
  }

  /** A write under `floor + 1`, whole or cut, leaves the record `floor` alone. */
  lemma WriteKeepsSettled(file: seq<byte>, file': seq<byte>, r: Record, floor: nat, writing: bool)
    requires Settled(View(file), floor, writing) && r.sequence == floor + 1
    requires Detected(file, file', SlotOf(r.sequence), r)
    ensures Settled(View(file'), floor, true)
  {
    hide Decode, RecordAt;
    ViewAfter(file, file', SlotOf(r.sequence), r);
    if floor > 0 {
      NeighboursApart(floor + 1);
    }
  }

  lemma StoredAdvances(file: seq<byte>, r: Record, floor: nat)
    requires Settled(View(file), floor, true) && r.sequence == floor + 1 < UINT64_MAX
    requires RecordAt(file, SlotOf(r.sequence)) == Some(r)
    ensures Settled(View(file), floor + 1, false)
  {
    hide Decode, RecordAt;
    assert View(file)[SlotOf(r.sequence)] == SequenceAt(file, SlotOf(r.sequence));
  }

  /** What the file holds under sequence `s`. */
  ghost function HeldUnder(file: seq<byte>, s: nat): Option<Event> {
    if !(0 < s < UINT64_MAX) then None else
    var r := RecordAt(file, SlotOf(s));
    if r.Some? && r.value.sequence == s then Some(r.value.event) else None
  }

  /** Whatever the file holds under the sequences after `base` is the event dequeued in that place. */
  ghost predicate Faithful(file: seq<byte>, base: nat, dequeued: seq<Event>) {
    forall k :: 0 <= k < |dequeued| && HeldUnder(file, base + 1 + k).Some? ==> HeldUnder(file, base + 1 + k).value == dequeued[k]
  }

  /** The next event to be dequeued has nothing under its sequence yet. */
  lemma FaithfulTake(file: seq<byte>, base: nat, dequeued: seq<Event>, e: Event)
    requires Faithful(file, base, dequeued) && Settled(View(file), base + |dequeued|, false)
    ensures Faithful(file, base, dequeued + [e])
  {
    hide Decode, RecordAt;
    var s := base + 1 + |dequeued|;
    if s < UINT64_MAX {
      assert View(file)[SlotOf(s)] == SequenceAt(file, SlotOf(s));
    }
  }

  /** A write of the last dequeued event under its sequence, whole or cut. */
  lemma FaithfulWrite(file: seq<byte>, file': seq<byte>, base: nat, dequeued: seq<Event>, r: Record)
    requires Faithful(file, base, dequeued) && |dequeued| > 0 && r.sequence == base + |dequeued| && 0 < r.sequence < UINT64_MAX
    requires r.event == dequeued[|dequeued| - 1] && Detected(file, file', SlotOf(r.sequence), r)
    ensures Faithful(file', base, dequeued)
  {
    hide Decode, RecordAt, SlotOf;
    forall k | 0 <= k < |dequeued| && HeldUnder(file', base + 1 + k).Some?
      ensures HeldUnder(file', base + 1 + k).value == dequeued[k]
    {
      var s := base + 1 + k;
      if SlotOf(s) != SlotOf(r.sequence) || RecordAt(file', SlotOf(s)) == RecordAt(file, SlotOf(s)) {
        assert HeldUnder(file', s) == HeldUnder(file, s);
      } else {
        assert RecordAt(file', SlotOf(s)) == Some(r);
      }
    }
  }

  /** While the record `floor` is readable, the file reaches up to the slot of the next one. */
  lemma NextSlotReached(file: seq<byte>, floor: nat, writing: bool)
    requires HeaderOk(file) && Settled(View(file), floor, writing)
    ensures SlotStart(SlotOf(floor + 1)) <= |file|
  {
    hide Decode, RecordAt, View, SlotOf;
    FirstSlot();
    if floor > 0 {
      FloorReached(file, floor, writing);
      NextSlotIs(floor);
    }
  }

  lemma FirstSlot()
    ensures SlotOf(1) == 0
  {
  }

  lemma NextSlotIs(floor: nat)
    requires 0 < floor < UINT64_MAX
    ensures SlotOf(floor + 1) == 0 || SlotOf(floor + 1) == SlotOf(floor) + 1
  {
    Arith.ModStep(floor - 1, CAPACITY);
  }

  lemma FloorReached(file: seq<byte>, floor: nat, writing: bool)
    requires floor > 0 && Settled(View(file), floor, writing)
    ensures SlotStart(SlotOf(floor) + 1) <= |file|
  {
    hide Decode, SlotOf;
    assert View(file)[SlotOf(floor)] == SequenceAt(file, SlotOf(floor));
  }

  /** The next record to be written passes every check of an append. */
  lemma NextIsWritable(file: seq<byte>, held: nat, next: int, floor: nat, writing: bool, r: Record)
    requires HeaderOk(file) && Settled(View(file), floor, writing) && IsIndex(View(file), held, next)
    requires Appendable(r) && r.sequence == floor + 1 < UINT64_MAX
    ensures Writable(Some(file), View(file), next, r)
  {
    hide Decode, RecordAt, SlotOf, SlotStart, Settled, IsIndex, View;
    NextSlotReached(file, floor, writing);
    SettledWriting(View(file), floor, writing);
    SettledNext(View(file), held, next, floor, true);
  }

  /** What an append under `floor` finds: its sequence is the next one, and with working storage it is taken. */
  lemma BeforeAppend(file: seq<byte>, held: nat, next: int, floor: nat, writing: bool, r: Record)
    requires HeaderOk(file) && Settled(View(file), floor, writing) && IsIndex(View(file), held, next)
    requires if writing then r.sequence == floor + 1 else r.sequence == 0
    ensures !writing ==> next == floor + 1
    ensures Settled(View(file), floor, true) && Accepted(View(file), next, SlotOf(floor + 1), floor + 1)
    ensures Appendable(r) && floor + 1 < UINT64_MAX ==> Writable(Some(file), View(file), next, r.(sequence := floor + 1))
  {
    hide Decode, RecordAt, SlotOf, SlotStart, Settled, IsIndex, View, Accepted;
    SettledNext(View(file), held, next, floor, writing);
    SettledWriting(View(file), floor, writing);
    SettledNext(View(file), held, next, floor, true);
    if Appendable(r) && floor + 1 < UINT64_MAX {
      NextIsWritable(file, held, next, floor, writing, r.(sequence := floor + 1));
    }
  }

  /** What a write of the last dequeued event leaves, whole or cut. */
  lemma AfterAppend(file: seq<byte>, file': seq<byte>, base: nat, dequeued: seq<Event>, r: Record, stored: bool)
    requires |dequeued| > 0 && r.sequence == base + |dequeued| && 0 < r.sequence < UINT64_MAX
    requires Settled(View(file), base + |dequeued| - 1, true) && Faithful(file, base, dequeued)
    requires r.event == dequeued[|dequeued| - 1] && Detected(file, file', SlotOf(r.sequence), r)
    requires stored ==> RecordAt(file', SlotOf(r.sequence)) == Some(r)
    ensures Settled(View(file'), if stored then base + |dequeued| else base + |dequeued| - 1, !stored) && Faithful(file', base, dequeued)
  {
    hide Decode, RecordAt, SlotOf, Settled, View, Faithful, Detected;
    WriteKeepsSettled(file, file', r, base + |dequeued| - 1, true);
    FaithfulWrite(file, file', base, dequeued, r);
    if stored {
      StoredAdvances(file', r, base + |dequeued| - 1);
    }
  }

  class Journal {
    const store: Store
    var queue: seq<Event>
    var pending: Option<Record>
    var boot: uint64
    var started: bool
    var bootSeen: set<uint16>
    var dropped: nat
    var errors: nat
    var lastError: Status
    /** Events taken from the queue so far, the sequence before the first of them, and every write. */
    ghost var dequeued: seq<Event>
    ghost var base: nat
    ghost var attempts: seq<Attempt>

    /** Dequeued events already stored. */
    ghost function Stored(): int
      reads this
    {
      if pending.Some? then |dequeued| - 1 else |dequeued|
    }

    /** Event number k of this run is written under `base + 1 + k` and under nothing else. */
    ghost predicate OneSequenceEach()
      reads this
    {
      forall a :: 0 <= a < |attempts| ==>
        0 <= attempts[a].event < |dequeued| && attempts[a].sequence == base + 1 + attempts[a].event
    }

    ghost predicate Writing()
      reads this
    {
      pending.Some? && pending.value.sequence != 0
    }

    ghost predicate Valid()
      reads this, store, store.sequences
    {
      && store.Valid() && boot < UINT64_MAX && (store.ready ==> boot != 0)
      && (boot == 0 ==> pending.None? && dequeued == [] && attempts == [])
      && (pending.Some? ==> |dequeued| > 0 && pending.value.event == dequeued[|dequeued| - 1]
                            && pending.value.boot == boot && Acceptable(pending.value.event))
      && (forall i :: 0 <= i < |queue| ==> Acceptable(queue[i]))
      && (boot != 0 ==>
            && store.file.Some? && HeaderOk(store.file.value)
            && Settled(View(store.file.value), base + Stored(), Writing())
            && (Writing() ==> pending.value.sequence == base + Stored() + 1)
            && OneSequenceEach() && Faithful(store.file.value, base, dequeued))
    }

    constructor (disk: Option<seq<byte>>)
      ensures Valid() && fresh(store) && fresh(store.sequences) && store.file == disk
      ensures boot == 0 && queue == [] && !started
    {
      store := new Store(disk);
      queue, pending, boot, started, bootSeen, dropped, errors, lastError := [], None, 0, false, {}, 0, 0, Success;
      dequeued, base, attempts := [], 0, [];
    }

    /** `kfsw_journal_submit`: boot reports once each, other events from the configured severity. */
    method Submit(event: Event)
      requires Valid()
      modifies this`queue, this`dropped, this`bootSeen
      ensures Valid()
      ensures queue == if Acceptable(event) && Wanted(event, old(bootSeen)) && |old(queue)| < QUEUE_DEPTH
                       then old(queue) + [event] else old(queue)
      ensures bootSeen == if IsBootReport(event) && queue != old(queue) then old(bootSeen) + {event.id} else old(bootSeen)
      ensures dropped == old(dropped) + if !Acceptable(event) || (Wanted(event, old(bootSeen)) && queue == old(queue)) then 1 else 0
    {
      hide Decode, RecordAt, HeaderOk, SlotOf, View, Settled, IsIndex;
      if !Acceptable(event) {
        dropped := dropped + 1;
        return;
      }
      var report := IsBootReport(event);
      if report && event.id in bootSeen {
        return;
      }
      if event.source != SOURCE_BOOT && event.severity < MIN_SEVERITY {
        return;
      }
      if |queue| >= QUEUE_DEPTH {
        dropped := dropped + 1;
        return;
      }
      if report {
        bootSeen := bootSeen + {event.id};
      }
      queue := queue + [event];
    }

    /** `open_store`: reopen when needed; the first success fixes this run's boot number. */
    method OpenStore(storageReady: bool, io: OpenIo) returns (result: Status)
      requires Valid()
      modifies this`boot, this`base, store, store.sequences
      ensures Valid()
      ensures result.Success? ==> store.ready && boot != 0
      ensures old(boot) != 0 ==> boot == old(boot) && base == old(base) && store.file == old(store.file)
      ensures result == Failure(EOVERFLOW) ==> old(boot) == 0 && store.file.Some? && !BootsUpTo(store.file.value, CAPACITY, UINT64_MAX - 2)
      ensures result != Failure(ESTALE)
      ensures old(store.ready) && storageReady ==> result.Success? && store.file == old(store.file)
      ensures Opens(old(store.ready), old(store.file), storageReady, io) ==> result.Success? || result == Failure(EOVERFLOW)
      ensures old(boot) == 0 && boot != 0 ==> HighestBoot(store.file.value, CAPACITY, boot - 1)
    {
      hide Decode, RecordAt, HeaderOk, SlotOf, View, Settled, BootsUpTo, HighestBoot, Acceptable, SlotStart;
      if store.ready && storageReady {
        return Success;
      }
      result := store.Open(if storageReady then io else NotReady);
      if result.Success? && boot == 0 {
        if store.highestBoot >= UINT64_MAX - 1 {
          HighestIsLeast(store.file.value, CAPACITY, store.highestBoot);
          store.ready := false;
          return Failure(EOVERFLOW);
        }
        boot := store.highestBoot + 1;
        base := store.nextSequence - 1;
        FirstFloor(store.file.value, store.held, store.nextSequence);
      }
    }

    /** The outcome kept for the status report. */
    method Report(result: Status)
      requires Valid()
      modifies this`lastError, this`errors
      ensures Valid() && lastError == result && errors == old(errors) + if result.Failure? then 1 else 0
    {
      hide Decode, RecordAt, HeaderOk, SlotOf, View, Settled, IsIndex, Faithful, Acceptable;
      lastError := result;
      if result.Failure? {
        errors := errors + 1;
      }
    }

    /** `kfsw_journal_start`: a store that does not open yet is retried by later flushes. */
    method Start(storageReady: bool, io: OpenIo) returns (result: Status)
      requires Valid()
      modifies this`started, this`boot, this`base, this`lastError, this`errors, store, store.sequences
      ensures Valid() && started
      ensures old(started) ==> result == lastError == old(lastError) && errors == old(errors) && boot == old(boot) && base == old(base)
                               && store.file == old(store.file) && store.ready == old(store.ready)
      ensures !old(started) ==> lastError == result && errors == old(errors) + if result.Failure? then 1 else 0
    {
      hide Decode, RecordAt, HeaderOk, SlotOf, View, Settled, IsIndex;
      if started {
        return lastError;
      }
      started := true;
      result := OpenStore(storageReady, io);
      Report(result);
    }

    /** `kfsw_journal_flush`: at most one queue's worth of records, stopping at the first failure. */
    method Flush(storageReady: bool, openIo: OpenIo, turns: seq<Turn>) returns (result: Status)
      requires Valid() && |turns| == QUEUE_DEPTH
      modifies this, store, store.sequences
      ensures Valid()
      ensures |old(dequeued)| <= |dequeued| && dequeued + queue == old(dequeued) + old(queue)
      ensures !started ==> result == Failure(EACCES)
      // Over working storage it succeeds: the journal opens and every write goes through, until the boot numbers
      // or the sequences run out.
      ensures started && Opens(old(store.ready), old(store.file), storageReady, openIo) && WorkingTurns(turns) ==>
                result.Success? || (old(boot) == 0 && store.file.Some? && !BootsUpTo(store.file.value, CAPACITY, UINT64_MAX - 2))
                || base + |dequeued| >= UINT64_MAX
      ensures lastError == if started then result else old(lastError)
      ensures result.Success? ==> pending.None? && (queue == [] || |dequeued| + 1 >= |old(dequeued)| + QUEUE_DEPTH)
      ensures result != Failure(ESTALE)
      ensures result == Failure(EOVERFLOW) ==> old(boot) == 0 || base + |dequeued| == UINT64_MAX
    {
      hide Decode, RecordAt, HeaderOk, SlotOf, View, Settled, IsIndex, Faithful, Acceptable, BootsUpTo, HighestBoot, SlotStart, Opens, WorkingTurns, Valid;
      if !started {
        return Failure(EACCES);
      }
      result := OpenStore(storageReady, openIo);
      if result.Success? {
        result := FlushQueue(turns);
      }
      Report(result);
    }

    /** The loop of a flush over an open store. */
    method FlushQueue(turns: seq<Turn>) returns (result: Status)
      requires Valid() && store.ready && boot != 0 && |turns| == QUEUE_DEPTH
      modifies this`queue, this`pending, this`dequeued, this`attempts, store, store.sequences
      ensures Valid()
      ensures |old(dequeued)| <= |dequeued| && dequeued + queue == old(dequeued) + old(queue)
      ensures WorkingTurns(turns) ==> result.Success? || base + |dequeued| >= UINT64_MAX
      ensures result.Success? ==> pending.None? && (queue == [] || |dequeued| + 1 >= |old(dequeued)| + QUEUE_DEPTH)
      ensures result != Failure(ESTALE)
      ensures result == Failure(EOVERFLOW) ==> base + |dequeued| == UINT64_MAX
    {
      hide Valid;
      result := Success;
      var i := 0;
      while result.Success? && i < QUEUE_DEPTH
        invariant Valid() && boot != 0 && (result.Success? ==> store.ready)
        invariant |old(dequeued)| <= |dequeued| && dequeued + queue == old(dequeued) + old(queue)
        invariant WorkingTurns(turns) ==> result.Success? || base + |dequeued| >= UINT64_MAX
        invariant result.Success? && i > 0 ==> pending.None? && |dequeued| + 1 >= |old(dequeued)| + i
        invariant result != Failure(ESTALE)
        invariant result == Failure(EOVERFLOW) ==> base + |dequeued| == UINT64_MAX
        decreases QUEUE_DEPTH - i, result.Success?
      {
        if pending.None? && queue == [] {
          break;
        }
        result := StoreNext(turns[i]);
        i := i + 1;
      }
    }

    /** One record: the pending one, or else the oldest event of the queue. */
    method StoreNext(turn: Turn) returns (result: Status)
      requires Valid() && store.ready && boot != 0 && (pending.None? ==> queue != [])
      modifies this`queue, this`pending, this`dequeued, this`attempts, store, store.sequences
      ensures Valid()
      ensures dequeued + queue == old(dequeued) + old(queue)
      ensures |dequeued| == |old(dequeued)| + if old(pending).None? then 1 else 0
      ensures result.Success? <==> pending.None?
      ensures result.Success? ==> store.ready
      ensures result != Failure(ESTALE)
      ensures result == Failure(EOVERFLOW) ==> base + |dequeued| == UINT64_MAX
      ensures turn.io.Done? && base + |dequeued| < UINT64_MAX ==> result.Success?
    {
      hide Valid, Decode, RecordAt, HeaderOk, SlotOf, View, Settled, IsIndex, Faithful, Acceptable, Holds;
      if pending.None? {
        TakeEvent(turn);
      }
      result := AppendPending(turn.io);
    }

    /** Dequeue the next event into a pending record that has no sequence yet. */
    method TakeEvent(turn: Turn)
      requires Valid() && pending.None? && queue != [] && boot != 0
      modifies this`queue, this`pending, this`dequeued
      ensures Valid() && pending.Some?
      ensures queue == old(queue)[1..] && dequeued == old(dequeued) + [old(queue)[0]]
      ensures pending == Some(Record(0, boot, if turn.utcValid then turn.utcSeconds else 0, turn.utcValid, old(queue)[0]))
      ensures dequeued + queue == old(dequeued) + old(queue) && |dequeued| == |old(dequeued)| + 1
    {
      hide Decode, RecordAt, HeaderOk, SlotOf, View, Settled, IsIndex, Faithful;
      FaithfulTake(store.file.value, base, dequeued, queue[0]);
      pending := Some(Record(0, boot, if turn.utcValid then turn.utcSeconds else 0, turn.utcValid, queue[0]));
      dequeued := dequeued + [queue[0]];
      queue := queue[1..];
    }

    method AppendPending(io: WriteIo) returns (result: Status)
      requires Valid() && pending.Some? && store.ready && boot != 0
      modifies this`pending, this`attempts, store, store.sequences
      ensures Valid()
      ensures result.Success? <==> pending.None?
      ensures result.Success? ==> store.ready
      ensures result != Failure(ESTALE)
      ensures result == Failure(EOVERFLOW) ==> base + |dequeued| == UINT64_MAX
      ensures io.Done? && base + |dequeued| < UINT64_MAX ==> result.Success?
      // What is on disk then is the pending record itself, under the sequence of its place.
      ensures result.Success? ==>
                0 < base + |dequeued| < UINT64_MAX && Holds(store.file, old(pending).value.(sequence := base + |dequeued|))
                && HeldUnder(store.file.value, base + |dequeued|) == Some(dequeued[|dequeued| - 1])
      ensures pending.Some? ==> pending.value == old(pending).value.(sequence := pending.value.sequence)
    {
      hide Decode, RecordAt, HeaderOk, SlotOf, View, Detected, Settled, IsIndex, Accepted, Faithful, Writable;
      ghost var file := store.file.value;
      ghost var floor := base + Stored();
      BeforeAppend(file, store.held, store.nextSequence, floor, Writing(), pending.value);
      var record;
      result, record := store.Append(pending.value, io);
      if record.sequence != 0 && (store.file.value != file || result.Success?) {
        AfterAppend(file, store.file.value, base, dequeued, record, result.Success?);
        attempts := attempts + [Attempt(|dequeued| - 1, record.sequence)];
      }
      pending := if result.Success? then None else Some(record);
    }
  }

  lemma SettledWriting(v: seq<uint64>, floor: nat, writing: bool)
    requires Settled(v, floor, writing)
    ensures Settled(v, floor, true)
  {
  }

  /** No dequeued event was ever written under two sequences, sequence order is queue order, and what the
      file holds under such a sequence is that event. */
  lemma StoredInQueueOrder(j: Journal, a: nat, b: nat)
    requires j.Valid() && j.boot != 0 && a < |j.attempts| && b < |j.attempts|
    ensures j.attempts[a].event == j.attempts[b].event <==> j.attempts[a].sequence == j.attempts[b].sequence
    ensures j.attempts[a].event < j.attempts[b].event <==> j.attempts[a].sequence < j.attempts[b].sequence
    ensures var held := HeldUnder(j.store.file.value, j.attempts[a].sequence); held.Some? ==> held.value == j.dequeued[j.attempts[a].event]
  {
    hide HeldUnder, Settled, View;
    assert j.attempts[a].sequence == j.base + 1 + j.attempts[a].event;
  }
}
