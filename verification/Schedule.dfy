/** Time-tagged releases, src/fbo/fbo_schedule.c: an entry is added once, then leaves the waiting state in
    exactly one way. Choosing an entry and marking it running is one step here. */
module Schedule {
  import opened Bytes
  import opened Errors
  import Arith
  import Crc

  const ENTRIES: Positive
  const BURST: Positive
  const REMOTE_COMMANDS: bool
  const LINE_MAX := 80
  const DELAY_MAX_S := 604800
  const LATENCY_MAX_S := 3600

  datatype Kind = Relative | Absolute

  /** What an upload asks for. */
  datatype Content = Content(kind: Kind, when: int64, node: uint16, line: seq<byte>)

  /** The monotonic clock in milliseconds; the wall clock in seconds, once something has set it. */
  datatype Clock = Clock(mono: int, utc: Option<int>)

  /** `due` is in monotonic milliseconds for a relative entry and in wall clock seconds otherwise. */
  datatype Entry = Entry(content: Content, due: int)

  datatype EntryStatus = Scheduled | Running | Completed | Failed | Overdue | Cancelled

  datatype Slot = Free | Used(entry: Entry, status: EntryStatus, hash: uint32, releasedUtc: int, result: Status)

  predicate Live(s: Slot) {
    s.Used? && (s.status.Scheduled? || s.status.Running?)
  }

  predicate Waiting(s: Slot) {
    s.Used? && s.status.Scheduled?
  }

  /** A slot with content `hash` that still has its release before it or is being released. */
  ghost predicate Holding(s: Slot, hash: uint32) {
    s.Used? && s.status in {Scheduled, Running} && s.hash == hash
  }

  // ----- content hash -----

  function HashBytes(c: Content): (b: seq<byte>)
    ensures |b| == 13 + |c.line|
  {
    [if c.kind.Relative? then 0 else 1] + Put64(Unsigned64(c.when)) + Put16(c.node) + Put16(0) + c.line
  }

  /** `content_hash`: the checksum of the header continued over the text. */
  function ContentHash(c: Content): uint32 {
    var header := [if c.kind.Relative? then 0 else 1] + Put64(Unsigned64(c.when)) + Put16(c.node) + Put16(0);
    Crc.Update(Crc.Checksum(header), c.line)
  }

  /** The hashed bytes tell any two contents apart, so a shared hash of different contents is a checksum
      collision and nothing else. */
  lemma HashBytesInjective(c: Content, d: Content)
    ensures ContentHash(c) == Crc.Checksum(HashBytes(c))
    ensures HashBytes(c) == HashBytes(d) ==> c == d
  {
    hide Put64, Put16, Get64, Get16, Crc.Update, Crc.Checksum;
    var header := [if c.kind.Relative? then 0 else 1] + Put64(Unsigned64(c.when)) + Put16(c.node) + Put16(0);
    Crc.UpdateConcat(header, c.line);
    assert header + c.line == HashBytes(c);
    if HashBytes(c) == HashBytes(d) {
      var b, e := HashBytes(c), HashBytes(d);
      assert b[0] == e[0];
      assert b[1..9] == Put64(Unsigned64(c.when)) && e[1..9] == Put64(Unsigned64(d.when));
      assert b[9..11] == Put16(c.node) && e[9..11] == Put16(d.node);
      assert b[13..] == c.line && e[13..] == d.line;
      SameInstant(c.when, d.when);
      assert c.node == Get16(Put16(c.node)) == Get16(Put16(d.node)) == d.node;
    }
  }

  lemma SameInstant(a: int64, b: int64)
    requires Put64(Unsigned64(a)) == Put64(Unsigned64(b))
    ensures a == b
  {
    hide Put64, Get64;
    assert Get64(Put64(Unsigned64(a))) == Get64(Put64(Unsigned64(b)));
  }

  // ----- due times -----

  /** `due_now`. */
  predicate Due(e: Entry, clock: Clock) {
    match e.content.kind
    case Relative => clock.mono >= e.due
    case Absolute => clock.utc.Some? && clock.utc.value >= e.due
  }

  /** Whole seconds past the due time. */
  function Lateness(e: Entry, clock: Clock): (s: int)
    ensures Due(e, clock) ==> s >= 0
  {
    match e.content.kind
    case Relative => (clock.mono - e.due) / 1000
    case Absolute => if clock.utc.Some? then clock.utc.value - e.due else 0
  }

  // ----- what happened, and what must stay true of it -----

  /** How an entry left the waiting state. */
  datatype Fate =
    | Released(clock: Clock, latency: nat)
    | Late(clock: Clock, latency: nat)
    | Withdrawn
    | Dropped

  /** An accepted add: its entry and the clock it was accepted at. */
  datatype Accepted = Accepted(entry: Entry, at: Clock)

  datatype Exit = Exit(id: nat, fate: Fate)

  ghost predicate Timely(e: Entry, fate: Fate) {
    match fate
    case Released(clock, latency) => Due(e, clock) && Lateness(e, clock) <= latency
    case Late(clock, latency) => Due(e, clock) && Lateness(e, clock) > latency
    case _ => true
  }

  /** Entry ids are positions in `added`. Slot `i` holds entry `ids[i]`, no two slots the same one. */
  ghost predicate Held(slots: seq<Slot>, ids: seq<nat>, added: seq<Accepted>) {
    && |slots| == |ids| == ENTRIES
    && (forall i :: 0 <= i < ENTRIES && slots[i].Used? ==> ids[i] < |added| && added[ids[i]].entry == slots[i].entry)
    && (forall i, j :: 0 <= i < j < ENTRIES && slots[i].Used? && slots[j].Used? ==> ids[i] != ids[j])
  }

  /** A waiting entry has not left before. */
  ghost predicate StillWaiting(slots: seq<Slot>, ids: seq<nat>, log: seq<Exit>) {
    |slots| == |ids| && forall i, k :: 0 <= i < |slots| && 0 <= k < |log| && Waiting(slots[i]) ==> log[k].id != ids[i]
  }

  /** No two live entries share a content hash, and each hash is that of the slot's own content. */
  ghost predicate HashesApart(slots: seq<Slot>) {
    && (forall i :: 0 <= i < |slots| && slots[i].Used? ==> slots[i].hash == ContentHash(slots[i].entry.content))
    && (forall i, j :: 0 <= i < j < |slots| && Live(slots[i]) && Live(slots[j]) ==> slots[i].hash != slots[j].hash)
  }

  /** Every entry leaves the waiting state at most once, on time if it is released, too late if it is
      marked overdue. */
  ghost predicate LogOk(log: seq<Exit>, added: seq<Accepted>) {
    && (forall k :: 0 <= k < |log| ==> log[k].id < |added| && Timely(added[log[k].id].entry, log[k].fate))
    && (forall j, k :: 0 <= j < k < |log| ==> log[j].id != log[k].id)
  }

  /** A relative entry is due its delay after it was accepted; an absolute one at the time it names, and
      was not accepted later than the latency past it. */
  ghost predicate AddedOk(added: seq<Accepted>) {
    forall k :: 0 <= k < |added| ==> DueAsAsked(added[k])
  }

  ghost predicate DueAsAsked(a: Accepted) {
    match a.entry.content.kind
    case Relative => 0 < a.entry.content.when <= DELAY_MAX_S && a.entry.due == a.at.mono + a.entry.content.when * 1000
    case Absolute => 0 < a.entry.content.when && a.entry.due == a.entry.content.when && a.at.utc.Some?
  }

  /** Only the slot in `running` runs. */
  ghost predicate OneRunning(slots: seq<Slot>, running: Option<nat>) {
    && (running.Some? ==> running.value < |slots| && slots[running.value].Used? && slots[running.value].status.Running?)
    && (forall i :: 0 <= i < |slots| && slots[i].Used? && slots[i].status.Running? ==> running == Some(i))
  }

  ghost predicate Inv(slots: seq<Slot>, ids: seq<nat>, log: seq<Exit>, added: seq<Accepted>, running: Option<nat>) {
    && Held(slots, ids, added) && StillWaiting(slots, ids, log) && HashesApart(slots)
    && LogOk(log, added) && AddedOk(added) && OneRunning(slots, running)
  }

  ghost function ReleasedIds(log: seq<Exit>): (r: seq<nat>) {
    if log == [] then [] else
    var last := log[|log| - 1];
    ReleasedIds(log[..|log| - 1]) + if last.fate.Released? then [last.id] else []
  }

  lemma ReleasedIdsAppend(log: seq<Exit>, x: Exit)
    ensures ReleasedIds(log + [x]) == ReleasedIds(log) + if x.fate.Released? then [x.id] else []
  {
    assert (log + [x])[..|log|] == log;
  }

  /** Every released id is in the log. */
  lemma {:induction false} ReleasedIdLogged(log: seq<Exit>, k: nat)
    requires k < |ReleasedIds(log)|
    ensures exists j :: 0 <= j < |log| && log[j].id == ReleasedIds(log)[k] && log[j].fate.Released?
  {
    var init, last := log[..|log| - 1], log[|log| - 1];
    if k < |ReleasedIds(init)| {
      ReleasedIdLogged(init, k);
      var j :| 0 <= j < |init| && init[j].id == ReleasedIds(init)[k] && init[j].fate.Released?;
      assert log[j] == init[j];
    } else {
      assert log[|log| - 1] == last;
    }
  }

  /** Over every run: no entry is released twice. */
  lemma {:induction false} ReleasedOnce(log: seq<Exit>, added: seq<Accepted>, j: nat, k: nat)
    requires LogOk(log, added) && j < k < |ReleasedIds(log)|
    ensures ReleasedIds(log)[j] != ReleasedIds(log)[k]
  {
    var init, last := log[..|log| - 1], log[|log| - 1];
    if k < |ReleasedIds(init)| {
      ReleasedOnce(init, added, j, k);
    } else {
      ReleasedIdLogged(init, j);
    }
  }

  /** Over every run: a release is not early, not beyond the latency, and not of an entry that was
      withdrawn, dropped or marked overdue. */
  lemma ReleaseIsTimely(log: seq<Exit>, added: seq<Accepted>, k: nat)
    requires LogOk(log, added) && AddedOk(added) && k < |log| && log[k].fate.Released?
    ensures log[k].id < |added|
    ensures var a, clock := added[log[k].id], log[k].fate.clock;
            if a.entry.content.kind.Relative? then
              a.at.mono + a.entry.content.when * 1000 <= clock.mono
              < a.at.mono + a.entry.content.when * 1000 + (log[k].fate.latency + 1) * 1000
            else
              clock.utc.Some? && a.entry.content.when <= clock.utc.value <= a.entry.content.when + log[k].fate.latency
    ensures forall j :: 0 <= j < |log| && log[j].id == log[k].id ==> j == k
  {
    var a := added[log[k].id];
    assert Timely(a.entry, log[k].fate) && DueAsAsked(a);
  }

  /** Slot `i` stops waiting in the way `fate` says. */
  lemma LeaveKeepsInv(slots: seq<Slot>, ids: seq<nat>, log: seq<Exit>, added: seq<Accepted>, running: Option<nat>,
                      i: nat, s: Slot, fate: Fate)
    requires Inv(slots, ids, log, added, running) && i < |slots| && Waiting(slots[i])
    requires Timely(slots[i].entry, fate)
    requires s.Free? || (s.Used? && s.entry == slots[i].entry && s.hash == slots[i].hash && !s.status.Scheduled?)
    requires s.Used? && s.status.Running? ==> running.None?
    ensures Inv(slots[i := s], ids, log + [Exit(ids[i], fate)], added, if s.Used? && s.status.Running? then Some(i) else running)
  {
    hide ContentHash, Timely, DueAsAsked;
    assert added[ids[i]].entry == slots[i].entry;
    var slots', log' := slots[i := s], log + [Exit(ids[i], fate)];
    assert StillWaiting(slots', ids, log') by {
      forall j, k | 0 <= j < |slots'| && 0 <= k < |log'| && Waiting(slots'[j]) ensures log'[k].id != ids[j] {
        assert j != i && slots'[j] == slots[j];
      }
    }
    assert LogOk(log', added);
  }

  /** A slot that has left may change status or be freed. */
  lemma SettleKeepsInv(slots: seq<Slot>, ids: seq<nat>, log: seq<Exit>, added: seq<Accepted>, running: Option<nat>, i: nat, s: Slot)
    requires Inv(slots, ids, log, added, running) && i < |slots| && slots[i].Used? && !Waiting(slots[i])
    requires s.Free? || (s.Used? && s.entry == slots[i].entry && s.hash == slots[i].hash && !Live(s))
    ensures Inv(slots[i := s], ids, log, added, if running == Some(i) then None else running)
  {
    hide ContentHash, LogOk, AddedOk;
  }

  /** A free slot takes a new entry whose hash no live entry has. */
  lemma AddKeepsInv(slots: seq<Slot>, ids: seq<nat>, log: seq<Exit>, added: seq<Accepted>, running: Option<nat>,
                    i: nat, a: Accepted)
    requires Inv(slots, ids, log, added, running) && i < |slots| && slots[i].Free? && DueAsAsked(a)
    requires forall j :: 0 <= j < |slots| && Live(slots[j]) ==> slots[j].hash != ContentHash(a.entry.content)
    ensures Inv(slots[i := Used(a.entry, Scheduled, ContentHash(a.entry.content), 0, Success)], ids[i := |added|], log, added + [a], running)
  {
    hide ContentHash, Timely, DueAsAsked;
  }

  // ----- the queue -----

  /** The checks `kfsw_fbo_schedule_add` makes before it looks at the queue, in its order. */
  function Refusal(c: Content, clock: Clock, latency: nat, build: Status): (r: Status) {
    if c.line == [] || |c.line| >= LINE_MAX then Failure(EINVAL)
    else if c.when <= 0 || (c.kind.Relative? && c.when > DELAY_MAX_S) then Failure(EINVAL)
    else if c.kind.Absolute? && clock.utc.None? then Failure(ENODATA)
    else if c.kind.Absolute? && clock.utc.value - c.when > latency then Failure(ETIME)
    else if !REMOTE_COMMANDS && c.node != 0 then Failure(ENOTSUP)
    else build
  }

  function EntryOf(c: Content, clock: Clock): Entry {
    Entry(c, if c.kind.Relative? then clock.mono + c.when * 1000 else c.when)
  }

  /** What may be queued: a text of 1 to 79 bytes that resolves, for a node commands can reach, either a delay of
      at most a week or an instant the set clock has not passed by more than the latency. */
  ghost predicate MayQueue(c: Content, clock: Clock, latency: nat, build: Status) {
    && build.Success? && 1 <= |c.line| < 80 && (c.node != 0 ==> REMOTE_COMMANDS)
    && if c.kind.Relative? then 1 <= c.when <= 604800
       else 1 <= c.when && clock.utc.Some? && clock.utc.value <= c.when + latency
  }

  /** Exactly those are taken. A malformed request, an unset clock and a past instant are told apart, before
      the text is resolved. */
  lemma RefusalIff(c: Content, clock: Clock, latency: nat, build: Status)
    ensures Refusal(c, clock, latency, build).Success? <==> MayQueue(c, clock, latency, build)
    ensures var sized := 1 <= |c.line| < 80 && 1 <= c.when && (c.kind.Relative? ==> c.when <= 604800);
            && (!sized ==> Refusal(c, clock, latency, build) == Failure(EINVAL))
            && (sized && c.kind.Absolute? && clock.utc.None? ==> Refusal(c, clock, latency, build) == Failure(ENODATA))
            && (sized && c.kind.Absolute? && clock.utc.Some? && clock.utc.value > c.when + latency ==>
                  Refusal(c, clock, latency, build) == Failure(ETIME))
    ensures MayQueue(c, clock, latency, Success) ==> Refusal(c, clock, latency, build) == build
    ensures MayQueue(c.(node := 0), clock, latency, Success) && c.node != 0 && !REMOTE_COMMANDS ==>
              Refusal(c, clock, latency, build) == Failure(ENOTSUP)
  {
  }

  /** When an entry accepted at `at` is due, and when it is late by more than `limit` whole seconds. */
  lemma DueMeans(c: Content, at: Clock, now: Clock, limit: nat)
    ensures var e := EntryOf(c, at);
            if c.kind.Relative? then
              && (Due(e, now) <==> now.mono - at.mono >= 1000 * c.when)
              && (Due(e, now) && Lateness(e, now) > limit <==> now.mono - at.mono >= 1000 * (c.when + limit + 1))
            else
              && (Due(e, now) <==> now.utc.Some? && now.utc.value >= c.when)
              && (Due(e, now) && Lateness(e, now) > limit <==> now.utc.Some? && now.utc.value > c.when + limit)
  {
  }

  /** An entry is never taken only to be dropped as overdue in the same moment: it is accepted exactly when a
      scan at that clock would not expire it. */
  lemma AcceptedNotOverdue(c: Content, clock: Clock, latency: nat)
    requires 1 <= |c.line| < 80 && 1 <= c.when && (c.kind.Relative? ==> c.when <= 604800)
    requires c.node != 0 ==> REMOTE_COMMANDS
    requires c.kind.Absolute? ==> clock.utc.Some?
    ensures Refusal(c, clock, latency, Success).Success? <==>
            var slot := Used(EntryOf(c, clock), Scheduled, ContentHash(c), 0, Success);
            Expired(slot, clock, latency) == slot
  {
    hide ContentHash;
    DueMeans(c, clock, clock, latency);
  }

  /** The candidate of one scan: due, within the latency, latest first, lowest slot among equals. */
  ghost predicate Best(slots: seq<Slot>, clock: Clock, latency: nat, n: nat, c: nat) {
    && c < n <= |slots| && Candidate(slots[c], clock, latency)
    && (forall j :: 0 <= j < n && Candidate(slots[j], clock, latency) ==>
          Lateness(slots[j].entry, clock) < Lateness(slots[c].entry, clock)
          || (Lateness(slots[j].entry, clock) == Lateness(slots[c].entry, clock) && c <= j))
  }

  predicate Candidate(s: Slot, clock: Clock, latency: nat) {
    Waiting(s) && Due(s.entry, clock) && Lateness(s.entry, clock) <= latency
  }

  /** Waiting past the latency turns overdue in a scan. */
  function Expired(s: Slot, clock: Clock, latency: nat): Slot {
    if Waiting(s) && Due(s.entry, clock) && Lateness(s.entry, clock) > latency
    then s.(status := Overdue, result := Failure(ETIME)) else s
  }

  /** No waiting entry is due more than `cap` seconds ago. */
  ghost predicate Capped(slots: seq<Slot>, clock: Clock, cap: int) {
    forall i :: 0 <= i < |slots| && Waiting(slots[i]) && Due(slots[i].entry, clock) ==> Lateness(slots[i].entry, clock) <= cap
  }

  /** Slots only stop waiting; none starts. */
  ghost predicate OnlyLeaves(before: seq<Slot>, after: seq<Slot>) {
    |before| == |after| && forall i :: 0 <= i < |after| && Waiting(after[i]) ==> after[i] == before[i]
  }

  /** How many of the first `n` slots a clear frees. */
  function Droppable(slots: seq<Slot>, n: nat): nat {
    if n == 0 then 0
    else Droppable(slots, n - 1) + if n <= |slots| && slots[n - 1].Used? && !slots[n - 1].status.Running? then 1 else 0
  }

  /** They are the slots in use but for a release in flight. */
  lemma {:induction false} DroppableCounts(slots: seq<Slot>, n: nat)
    requires n <= |slots|
    ensures Droppable(slots, n) == |set i | 0 <= i < n && slots[i].Used? && slots[i].status != Running|
  {
    if n > 0 {
      DroppableCounts(slots, n - 1);
      var fewer := set i | 0 <= i < n - 1 && slots[i].Used? && slots[i].status != Running;
      var more := set i | 0 <= i < n && slots[i].Used? && slots[i].status != Running;
      assert more == if slots[n - 1].Used? && slots[n - 1].status != Running then fewer + {n - 1} else fewer;
    }
  }

  class Queue {
    var slots: seq<Slot>
    var latency: nat
    var releases: uint32
    ghost var ids: seq<nat>
    ghost var log: seq<Exit>
    ghost var added: seq<Accepted>
    /** The entry the release thread is running. */
    ghost var running: Option<nat>

    ghost predicate Valid()
      reads this
    {
      Inv(slots, ids, log, added, running) && releases == Arith.Min(|ReleasedIds(log)|, UINT32_MAX)
    }

    constructor (latencyS: nat)
      ensures Valid() && running == None && log == [] && added == []
    {
      slots := seq(ENTRIES, _ => Free);
      latency, releases := latencyS, 0;
      ids, log, added, running := seq(ENTRIES, _ => 0), [], [], None;
    }

    /** `kfsw_fbo_schedule_set_latency_s`, given the floor the command timeout sets. */
    method SetLatency(seconds: nat, floor: nat) returns (result: Status)
      requires Valid()
      modifies this`latency
      ensures Valid()
      ensures result == if floor <= seconds <= 3600 then Success else Failure(ERANGE)
      ensures latency == if result.Success? then seconds else old(latency)
    {
      if seconds < floor || seconds > LATENCY_MAX_S {
        return Failure(ERANGE);
      }
      latency := seconds;
      result := Success;
    }

    /** `kfsw_fbo_schedule_add`. `build` is what resolving the command text said. A content already live
        is refused and its slot reported; a new one takes the first free slot. */
    method Add(c: Content, clock: Clock, build: Status) returns (result: Status, index: nat)
      requires Valid()
      modifies this`slots, this`ids, this`added
      ensures Valid() && old(added) <= added
      ensures Refusal(c, clock, latency, build).Failure? ==> result == Refusal(c, clock, latency, build)
      ensures Refusal(c, clock, latency, build).Success? ==>
                (result == Failure(EEXIST) <==> exists j :: 0 <= j < ENTRIES && Holding(old(slots)[j], ContentHash(c)))
                && (result.Failure? && result != Failure(EEXIST) ==>
                      result == Failure(ENOSPC) && forall j :: 0 <= j < ENTRIES ==> old(slots)[j].Used?)
      ensures result == Failure(EEXIST) && Refusal(c, clock, latency, build).Success? ==>
                index < ENTRIES && Holding(slots[index], ContentHash(c))
      ensures result.Failure? ==> slots == old(slots) && ids == old(ids) && added == old(added)
      ensures result.Success? ==>
                index < ENTRIES && old(slots)[index].Free? && (forall j :: 0 <= j < index ==> old(slots)[j].Used?)
                && slots == old(slots)[index := Used(EntryOf(c, clock), Scheduled, ContentHash(c), 0, Success)]
                && ids == old(ids)[index := |old(added)|] && added == old(added) + [Accepted(EntryOf(c, clock), clock)]
    {
      hide ContentHash, Held, StillWaiting, HashesApart, LogOk, AddedOk, OneRunning;
      HeldSizes(slots, ids, added);
      index := 0;
      var refused := Refusal(c, clock, latency, build);
      if refused.Failure? {
        return refused, 0;
      }
      var hash := ContentHash(c);
      var free: nat := ENTRIES;
      for slot := 0 to ENTRIES
        invariant free <= ENTRIES && (free < ENTRIES ==> free < slot && slots[free].Free?)
        invariant forall j :: 0 <= j < slot && j < free ==> slots[j].Used?
        invariant forall j :: 0 <= j < slot ==> !(Live(slots[j]) && slots[j].hash == hash)
      {
        if Live(slots[slot]) && slots[slot].hash == hash {
          return Failure(EEXIST), slot;
        }
        if slots[slot].Free? && free == ENTRIES {
          free := slot;
        }
      }
      if free == ENTRIES {
        return Failure(ENOSPC), 0;
      }
      ghost var accepted := Accepted(EntryOf(c, clock), clock);
      AddKeepsInv(slots, ids, log, added, running, free, accepted);
      slots := slots[free := Used(EntryOf(c, clock), Scheduled, hash, 0, Success)];
      ids := ids[free := |added|];
      added := added + [accepted];
      return Success, free;
    }

    /** `kfsw_fbo_schedule_cancel`: only a waiting entry can be withdrawn. */
    method Cancel(index: nat) returns (result: Status)
      requires Valid()
      modifies this`slots, this`log
      ensures Valid() && OnlyLeaves(old(slots), slots) && ReleasedIds(log) == ReleasedIds(old(log))
      ensures result == if index >= ENTRIES || old(slots)[index].Free? then Failure(ENOENT)
                        else if !old(slots)[index].status.Scheduled? then Failure(EALREADY) else Success
      ensures result.Failure? ==> slots == old(slots) && log == old(log)
      ensures result.Success? ==> slots == old(slots)[index := old(slots)[index].(status := Cancelled)]
                                  && log == old(log) + [Exit(ids[index], Withdrawn)]
    {
      hide Held, StillWaiting, HashesApart, LogOk, AddedOk, OneRunning, ReleasedIds;
      HeldSizes(slots, ids, added);
      if index >= ENTRIES || slots[index].Free? {
        return Failure(ENOENT);
      }
      if !slots[index].status.Scheduled? {
        return Failure(EALREADY);
      }
      var s := slots[index].(status := Cancelled);
      LeaveKeepsInv(slots, ids, log, added, running, index, s, Withdrawn);
      ReleasedIdsAppend(log, Exit(ids[index], Withdrawn));
      slots := slots[index := s];
      log := log + [Exit(ids[index], Withdrawn)];
      result := Success;
    }

    /** One slot of `kfsw_fbo_schedule_clear`. */
    method ClearSlot(i: nat) returns (dropped: bool)
      requires Valid() && i < ENTRIES
      modifies this`slots, this`log
      ensures Valid() && ReleasedIds(log) == ReleasedIds(old(log))
      ensures dropped <==> old(slots)[i].Used? && !old(slots)[i].status.Running?
      ensures slots == if dropped then old(slots)[i := Free] else old(slots)
    {
      hide Held, StillWaiting, HashesApart, LogOk, AddedOk, OneRunning, ReleasedIds;
      HeldSizes(slots, ids, added);
      if slots[i].Free? || slots[i].status.Running? {
        return false;
      }
      NotTheRunning(slots, running, i);
      if slots[i].status.Scheduled? {
        LeaveKeepsInv(slots, ids, log, added, running, i, Free, Dropped);
        ReleasedIdsAppend(log, Exit(ids[i], Dropped));
        log := log + [Exit(ids[i], Dropped)];
      } else {
        SettleKeepsInv(slots, ids, log, added, running, i, Free);
      }
      slots := slots[i := Free];
      dropped := true;
    }

    /** `kfsw_fbo_schedule_clear`: everything but a release in flight. */
    method Clear() returns (dropped: nat)
      requires Valid()
      modifies this`slots, this`log
      ensures Valid() && OnlyLeaves(old(slots), slots) && ReleasedIds(log) == ReleasedIds(old(log))
      ensures forall i :: 0 <= i < ENTRIES ==>
                slots[i] == if old(slots)[i].Used? && old(slots)[i].status.Running? then old(slots)[i] else Free
      ensures dropped == Droppable(old(slots), ENTRIES)
    {
      hide Inv, ReleasedIds;
      dropped := 0;
      ghost var before := slots;
      InvSizes(slots, ids, log, added, running);
      for i := 0 to ENTRIES
        invariant Valid() && dropped == Droppable(before, i) && |slots| == ENTRIES && ReleasedIds(log) == ReleasedIds(old(log))
        invariant forall j :: 0 <= j < i ==> slots[j] == if before[j].Used? && before[j].status.Running? then before[j] else Free
        invariant forall j :: i <= j < ENTRIES ==> slots[j] == before[j]
      {
        var d := ClearSlot(i);
        if d {
          dropped := dropped + 1;
        }
      }
    }

    /** One slot of the scan in `sweep`: too late turns overdue. */
    method Expire(i: nat, clock: Clock) returns (candidate: bool)
      requires Valid() && i < ENTRIES
      modifies this`slots, this`log
      ensures Valid() && ReleasedIds(log) == ReleasedIds(old(log))
      ensures slots == old(slots)[i := Expired(old(slots)[i], clock, latency)]
      ensures candidate <==> Candidate(old(slots)[i], clock, latency)
    {
      hide Held, StillWaiting, HashesApart, LogOk, AddedOk, OneRunning, ReleasedIds, Due, Lateness;
      HeldSizes(slots, ids, added);
      if !Waiting(slots[i]) || !Due(slots[i].entry, clock) {
        return false;
      }
      if Lateness(slots[i].entry, clock) > latency {
        var s := Expired(slots[i], clock, latency);
        LeaveKeepsInv(slots, ids, log, added, running, i, s, Late(clock, latency));
        ReleasedIdsAppend(log, Exit(ids[i], Late(clock, latency)));
        slots := slots[i := s];
        log := log + [Exit(ids[i], Late(clock, latency))];
        return false;
      }
      candidate := true;
    }

    /** The locked scan of `sweep` and the marking that opens `release`, as one step: everything too late
        turns overdue and the most overdue of the rest starts to run. */
    method Select(clock: Clock) returns (chosen: Option<nat>)
      requires Valid() && running.None?
      modifies this`slots, this`log, this`running, this`releases
      ensures Valid() && running == chosen
      ensures chosen.None? ==>
                ReleasedIds(log) == ReleasedIds(old(log)) && (forall i :: 0 <= i < ENTRIES ==>
                  slots[i] == Expired(old(slots)[i], clock, latency) && !Candidate(old(slots)[i], clock, latency))
      ensures chosen.Some? ==>
                Best(old(slots), clock, latency, ENTRIES, chosen.value)
                && ReleasedIds(log) == ReleasedIds(old(log)) + [ids[chosen.value]]
                && slots[chosen.value] == old(slots)[chosen.value].(status := Running,
                                            releasedUtc := if clock.utc.Some? then clock.utc.value else 0)
                && forall i :: 0 <= i < ENTRIES && i != chosen.value ==> slots[i] == Expired(old(slots)[i], clock, latency)
    {
      hide Inv, ReleasedIds, Due, Lateness;
      ghost var before := slots;
      InvSizes(slots, ids, log, added, running);
      chosen := None;
      var earliest := 0;
      for i := 0 to ENTRIES
        invariant Valid() && running.None? && |slots| == ENTRIES && ReleasedIds(log) == ReleasedIds(old(log))
        invariant forall j :: 0 <= j < i ==> slots[j] == Expired(before[j], clock, latency)
        invariant forall j :: i <= j < ENTRIES ==> slots[j] == before[j]
        invariant chosen.None? ==> forall j :: 0 <= j < i ==> !Candidate(before[j], clock, latency)
        invariant chosen.Some? ==> Best(before, clock, latency, i, chosen.value) && earliest == Lateness(before[chosen.value].entry, clock)
      {
        var ready := Expire(i, clock);
        if ready && (chosen.None? || Lateness(slots[i].entry, clock) > earliest) {
          chosen := Some(i);
          earliest := Lateness(slots[i].entry, clock);
        }
      }
      if chosen.Some? {
        Mark(chosen.value, clock);
      }
    }

    /** The first locked section of `release`. */
    method Mark(i: nat, clock: Clock)
      requires Valid() && running.None? && i < ENTRIES && Candidate(slots[i], clock, latency)
      modifies this`slots, this`log, this`running, this`releases
      ensures Valid() && running == Some(i)
      ensures slots == old(slots)[i := old(slots)[i].(status := Running, releasedUtc := if clock.utc.Some? then clock.utc.value else 0)]
      ensures log == old(log) + [Exit(ids[i], Released(clock, latency))]
      ensures ReleasedIds(log) == ReleasedIds(old(log)) + [ids[i]]
    {
      hide Held, StillWaiting, HashesApart, LogOk, AddedOk, OneRunning, ReleasedIds, Due, Lateness;
      HeldSizes(slots, ids, added);
      var s := slots[i].(status := Running, releasedUtc := if clock.utc.Some? then clock.utc.value else 0);
      LeaveKeepsInv(slots, ids, log, added, running, i, s, Released(clock, latency));
      ReleasedIdsAppend(log, Exit(ids[i], Released(clock, latency)));
      slots := slots[i := s];
      log := log + [Exit(ids[i], Released(clock, latency))];
      running := Some(i);
      if releases < UINT32_MAX {
        releases := releases as int + 1;
      }
    }

    /** The second locked section of `release`: the slot still holds the entry that was started. */
    method Complete(i: nat, result: Status, commandOk: bool)
      requires Valid() && running == Some(i)
      modifies this`slots, this`running
      ensures Valid() && running == None && OnlyLeaves(old(slots), slots)
      ensures i < ENTRIES && old(slots)[i].Used? && old(slots)[i].status.Running?
      ensures slots == old(slots)[i := old(slots)[i].(result := result,
                                         status := if result.Success? && commandOk then Completed else Failed)]
    {
      hide Held, StillWaiting, HashesApart, LogOk, AddedOk, ReleasedIds;
      HeldSizes(slots, ids, added);
      var s := slots[i].(result := result, status := if result.Success? && commandOk then Completed else Failed);
      SettleKeepsInv(slots, ids, log, added, running, i, s);
      slots := slots[i := s];
      running := None;
    }
  }

  // ----- a sweep among other callers -----

  /** What another thread may do while a released command runs. */
  datatype Action = AddAction(content: Content, at: Clock, build: Status) | CancelAction(index: nat) | ClearAction | LatencyAction(seconds: nat, floor: nat)

  method Act(q: Queue, a: Action)
    requires q.Valid()
    modifies q`slots, q`log, q`ids, q`added, q`latency
    ensures q.Valid() && ReleasedIds(q.log) == ReleasedIds(old(q.log)) && old(q.added) <= q.added
    ensures !a.AddAction? ==> OnlyLeaves(old(q.slots), q.slots)
  {
    match a {
      case AddAction(content, at, build) => var _, _ := q.Add(content, at, build);
      case CancelAction(index) => var _ := q.Cancel(index);
      case ClearAction => var _ := q.Clear();
      case LatencyAction(seconds, floor) => var _ := q.SetLatency(seconds, floor);
    }
  }

  predicate NoAdds(actions: seq<Action>) {
    forall k :: 0 <= k < |actions| ==> !actions[k].AddAction?
  }

  method ActAll(q: Queue, actions: seq<Action>)
    requires q.Valid()
    modifies q`slots, q`log, q`ids, q`added, q`latency
    ensures q.Valid() && ReleasedIds(q.log) == ReleasedIds(old(q.log)) && old(q.added) <= q.added
    ensures NoAdds(actions) ==> OnlyLeaves(old(q.slots), q.slots)
  {
    hide ReleasedIds, Inv, OnlyLeaves;
    OnlyLeavesReflexive(q.slots);
    ghost var before := q.slots;
    for k := 0 to |actions|
      invariant q.Valid() && ReleasedIds(q.log) == ReleasedIds(old(q.log)) && old(q.added) <= q.added
      invariant NoAdds(actions[..k]) ==> OnlyLeaves(before, q.slots)
    {
      ghost var mid := q.slots;
      Act(q, actions[k]);
      if NoAdds(actions[..k + 1]) {
        assert actions[..k + 1][k] == actions[k] && NoAdds(actions[..k]) by {
          assert forall i :: 0 <= i < k ==> actions[..k][i] == actions[..k + 1][i];
        }
        OnlyLeavesTransitive(before, mid, q.slots);
      }
    }
    assert actions[..|actions|] == actions;
  }

  /** How a command's run ended, and what happened to the queue meanwhile. */
  datatype Run = Run(actions: seq<Action>, result: Status, commandOk: bool)

  ghost predicate NonIncreasing(added: seq<Accepted>, ids: seq<nat>, clock: Clock) {
    && (forall k :: 0 <= k < |ids| ==> ids[k] < |added|)
    && (forall j, k :: 0 <= j < k < |ids| ==> Lateness(added[ids[j]].entry, clock) >= Lateness(added[ids[k]].entry, clock))
  }

  ghost predicate QuietRuns(runs: seq<Run>) {
    forall k :: 0 <= k < |runs| ==> NoAdds(runs[k].actions)
  }

  /** `sweep`, with other callers acting while each release runs. It releases at most a burst, the most
      overdue first when nothing is added meanwhile, and stops short of the burst only when nothing that is
      due at its clock reading still waits. */
  method Sweep(q: Queue, clock: Clock, runs: seq<Run>) returns (released: nat, ghost sent: seq<nat>)
    requires q.Valid() && q.running.None? && |runs| == BURST
    modifies q
    ensures q.Valid() && q.running.None? && old(q.added) <= q.added
    ensures released == |sent| <= BURST && ReleasedIds(q.log) == ReleasedIds(old(q.log)) + sent
    ensures QuietRuns(runs) ==> NonIncreasing(q.added, sent, clock)
    ensures released < BURST ==> forall i :: 0 <= i < |q.slots| && Waiting(q.slots[i]) ==> !Due(q.slots[i].entry, clock)
  {
    hide Inv, ReleasedIds, Due, Lateness, NonIncreasing, OnlyLeaves;
    released, sent := 0, [];
    NonIncreasingEmpty(q.added, clock);
    ghost var cap: Option<int> := None;
    while released < BURST
      invariant q.Valid() && q.running.None? && old(q.added) <= q.added
      invariant released == |sent| <= BURST && ReleasedIds(q.log) == ReleasedIds(old(q.log)) + sent
      invariant QuietRuns(runs) ==> NonIncreasing(q.added, sent, clock)
      invariant cap.None? <==> sent == []
      invariant QuietRuns(runs) && cap.Some? ==> Capped(q.slots, clock, cap.value) && LastIs(q.added, sent, clock, cap.value)
    {
      ghost var before := q.slots;
      InvSizes(q.slots, q.ids, q.log, q.added, q.running);
      var chosen := q.Select(clock);
      InvSizes(q.slots, q.ids, q.log, q.added, q.running);
      if chosen.None? {
        NothingDue(before, q.slots, clock, q.latency);
        return;
      }
      ghost var late := Lateness(before[chosen.value].entry, clock);
      ghost var id := q.ids[chosen.value];
      Chosen(before, q.slots, q.ids, q.log, q.added, clock, q.latency, chosen.value);
      ghost var marked, addedThen := q.slots, q.added;
      ActAll(q, runs[released].actions);
      ghost var acted := q.slots;
      q.Complete(chosen.value, runs[released].result, runs[released].commandOk);
      if QuietRuns(runs) {
        LeavesKeepCap(marked, acted, clock, late);
        LeavesKeepCap(acted, q.slots, clock, late);
        if cap.Some? {
          assert late <= cap.value;
        }
        NonIncreasingGrows(addedThen, q.added, sent, id, clock, cap, late);
      }
      cap := Some(late);
      sent := sent + [id];
      released := released + 1;
    }
  }

  ghost predicate LastIs(added: seq<Accepted>, ids: seq<nat>, clock: Clock, late: int) {
    ids != [] && ids[|ids| - 1] < |added| && Lateness(added[ids[|ids| - 1]].entry, clock) == late
  }

  lemma NonIncreasingEmpty(added: seq<Accepted>, clock: Clock)
    ensures NonIncreasing(added, [], clock)
  {
  }

  lemma NonIncreasingGrows(added: seq<Accepted>, more: seq<Accepted>, ids: seq<nat>, id: nat, clock: Clock, cap: Option<int>, late: int)
    requires NonIncreasing(added, ids, clock) && added <= more && id < |added| && Lateness(added[id].entry, clock) == late
    requires cap.None? <==> ids == []
    requires cap.Some? ==> LastIs(added, ids, clock, cap.value) && late <= cap.value
    ensures NonIncreasing(more, ids + [id], clock) && LastIs(more, ids + [id], clock, late)
  {
    hide Lateness;
  }

  /** After a scan that chose nothing, nothing waiting is due. */
  lemma NothingDue(before: seq<Slot>, after: seq<Slot>, clock: Clock, latency: nat)
    requires |before| == |after| && forall i :: 0 <= i < |after| ==>
               after[i] == Expired(before[i], clock, latency) && !Candidate(before[i], clock, latency)
    ensures forall i :: 0 <= i < |after| && Waiting(after[i]) ==> !Due(after[i].entry, clock)
  {
    hide Due, Lateness;
  }

  /** The chosen entry is the one in its slot, and nothing still waiting is later than it. */
  lemma Chosen(before: seq<Slot>, after: seq<Slot>, ids: seq<nat>, log: seq<Exit>, added: seq<Accepted>, clock: Clock, latency: nat, c: nat)
    requires Inv(after, ids, log, added, Some(c)) && Best(before, clock, latency, ENTRIES, c)
    requires |before| == |after| && after[c].Used? && after[c].entry == before[c].entry && !Waiting(after[c])
    requires forall i :: 0 <= i < ENTRIES && i != c ==> after[i] == Expired(before[i], clock, latency)
    ensures Capped(after, clock, Lateness(before[c].entry, clock))
    ensures ids[c] < |added| && added[ids[c]].entry == before[c].entry
    ensures forall cap :: Capped(before, clock, cap) ==> Lateness(before[c].entry, clock) <= cap
  {
    hide Due, Lateness, LogOk, HashesApart, StillWaiting;
  }

  lemma LeavesKeepCap(before: seq<Slot>, after: seq<Slot>, clock: Clock, cap: int)
    requires OnlyLeaves(before, after) && Capped(before, clock, cap)
    ensures Capped(after, clock, cap)
  {
    hide Due, Lateness;
  }

  lemma OnlyLeavesReflexive(s: seq<Slot>)
    ensures OnlyLeaves(s, s)
  {
  }

  lemma OnlyLeavesTransitive(a: seq<Slot>, b: seq<Slot>, c: seq<Slot>)
    requires OnlyLeaves(a, b) && OnlyLeaves(b, c)
    ensures OnlyLeaves(a, c)
  {
  }

  /** Adding again what is still live changes nothing and names the same slot. */
  method AddTwice(q: Queue, c: Content, clock: Clock, later: Clock, build: Status) returns (first: Status, second: Status)
    requires q.Valid()
    requires Refusal(c, later, q.latency, build).Success?
    modifies q
    ensures q.Valid()
    ensures first.Success? ==> second == Failure(EEXIST) && |q.added| == |old(q.added)| + 1
  {
    hide Inv, ContentHash, Refusal;
    var i, j;
    InvSizes(q.slots, q.ids, q.log, q.added, q.running);
    first, i := q.Add(c, clock, build);
    if first.Success? {
      assert Live(q.slots[i]) && q.slots[i].hash == ContentHash(c);
    }
    second, j := q.Add(c, later, build);
  }

  lemma HeldSizes(slots: seq<Slot>, ids: seq<nat>, added: seq<Accepted>)
    requires Held(slots, ids, added)
    ensures |slots| == |ids| == ENTRIES
  {
  }

  lemma InvSizes(slots: seq<Slot>, ids: seq<nat>, log: seq<Exit>, added: seq<Accepted>, running: Option<nat>)
    requires Inv(slots, ids, log, added, running)
    ensures |slots| == |ids| == ENTRIES
  {
  }

  lemma NotTheRunning(slots: seq<Slot>, running: Option<nat>, i: nat)
    requires OneRunning(slots, running) && i < |slots| && (slots[i].Free? || !slots[i].status.Running?)
    ensures running != Some(i)
  {
  }
}
