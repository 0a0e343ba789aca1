/** Periodic collection, the schedule part of src/hk/hk.c and the loop of src/hk/hk_thread.c: due times
    on a lattice, advanced past each completion without a catch-up burst. */
module HkSchedule {
  import opened Bytes
  import opened Errors
  import opened HkConfig
  import Arith

  const PERIOD_FLOOR_MS: nat

  datatype Entry = Entry(defined: bool, periodMs: uint32, nextUptime: int, revision: nat)
  datatype Due = Due(revision: nat, uptime: int, periodMs: Positive)

  /** Lattice slots that passed while one collection ran. */
  function Missed(due: int, period: Positive, now: int): (n: nat)
    requires now >= due
    ensures due + n * period <= now < due + n * period + period
  {
    assert now - due == ((now - due) / period) * period + (now - due) % period;
    (now - due) / period
  }

  /** `kfsw_hk_next_due`, for a completion at or after the due time: the first lattice point past it. */
  function NextDue(due: int, period: Positive, now: int): (next: int)
    requires now >= due
    ensures now < next <= now + period
    ensures next == due + (Missed(due, period, now) + 1) * period
  {
    var q := Missed(due, period, now);
    assert (q + 1) * period == q * period + period;
    due + ((now - due) / period + 1) * period
  }

  /** Since a schedule was last set: its first due time, and what has been counted for it. */
  datatype Epoch = Epoch(anchor: int, passed: nat, attempts: nat, missed: nat)

  /** The collection taken from this schedule and not overtaken by a change to it. */
  ghost function Pending(running: Option<(nat, Due)>, i: nat, revision: nat): Option<Due> {
    if running.Some? && running.value.0 == i && running.value.1.revision == revision then Some(running.value.1) else None
  }

  /** An active schedule is on its lattice, and each slot it passed was an attempt or a miss; while its
      collection runs, the slot being collected is the one counted ahead. */
  ghost predicate OnLattice(e: Entry, p: Epoch, pending: Option<Due>, enabled: bool) {
    && (e.defined && e.periodMs != 0 ==> e.nextUptime == p.anchor + p.passed * e.periodMs)
    && p.attempts + p.missed == p.passed + (if pending.Some? then 1 else 0)
    && (pending.Some? ==> e.defined && enabled && e.periodMs == pending.value.periodMs && e.nextUptime == pending.value.uptime)
  }

  ghost predicate AllOnLattice(entries: seq<Entry>, epochs: seq<Epoch>, running: Option<(nat, Due)>, enabled: bool) {
    && |entries| == REPORTS == |epochs|
    && (running.Some? ==> running.value.0 < REPORTS && running.value.1.revision <= entries[running.value.0].revision)
    && forall i :: 0 <= i < REPORTS ==> OnLattice(entries[i], epochs[i], Pending(running, i, entries[i].revision), enabled)
  }

  /** A schedule starting anew. */
  ghost function Anew(nextUptime: int): Epoch {
    Epoch(nextUptime, 0, 0, 0)
  }

  /** What a completed collection adds to its epoch. */
  ghost function Advanced(p: Epoch, missed: nat): Epoch {
    p.(passed := p.passed + missed + 1, missed := p.missed + missed)
  }

  lemma AdvanceKeeps(e: Entry, p: Epoch, due: Due, now: int)
    requires OnLattice(e, p, Some(due), true) && now >= due.uptime
    ensures OnLattice(e.(nextUptime := NextDue(due.uptime, due.periodMs, now)),
                      Advanced(p, Missed(due.uptime, due.periodMs, now)), None, true)
  {
    var m := Missed(due.uptime, due.periodMs, now);
    assert (p.passed + (m + 1)) * due.periodMs == p.passed * due.periodMs + (m + 1) * due.periodMs;
  }

  class Schedule {
    var entries: seq<Entry>
    var enabled: bool
    /** Set up and not in the middle of a restore. */
    var ready: bool
    var scheduledAttempts: uint32
    var missedSlots: uint32
    ghost var epochs: seq<Epoch>
    ghost var attemptsTotal: nat
    ghost var missedTotal: nat
    /** The collection the one collector thread is in, if any. */
    ghost var running: Option<(nat, Due)>

    /** The counters are the true totals, wrapped and saturated. */
    ghost predicate Valid()
      reads this
    {
      && AllOnLattice(entries, epochs, running, enabled)
      && scheduledAttempts == attemptsTotal % 0x1_0000_0000
      && missedSlots == Arith.Min(missedTotal, UINT32_MAX)
    }

    constructor ()
      ensures Valid() && running == None && !ready
    {
      entries := seq(REPORTS, _ => Entry(false, 0, 0, 0));
      enabled, ready, scheduledAttempts, missedSlots := true, false, 0, 0;
      epochs := seq(REPORTS, _ => Anew(0));
      attemptsTotal, missedTotal, running := 0, 0, None;
    }

    /** Readiness: false while a saved configuration is being restored. */
    method SetReady(value: bool)
      requires Valid()
      modifies this`ready
      ensures Valid() && ready == value
    {
      ready := value;
    }

    /** A definition, clear, restore or new period: a new revision and a new lattice. */
    method Reconfigure(i: nat, defined: bool, periodMs: uint32, nextUptime: int)
      requires Valid() && i < REPORTS
      modifies this`entries, this`epochs
      ensures Valid()
      ensures entries == old(entries)[i := Entry(defined, periodMs, nextUptime, old(entries)[i].revision + 1)]
      ensures epochs == old(epochs)[i := Anew(nextUptime)]
      ensures Pending(running, i, entries[i].revision) == None
    {
      entries := entries[i := Entry(defined, periodMs, nextUptime, entries[i].revision + 1)];
      epochs := epochs[i := Anew(nextUptime)];
    }

    /** The schedule part of `define_impl`, for a definition already accepted. */
    method Define(i: nat, now: int)
      requires Valid() && i < REPORTS
      modifies this`entries, this`epochs
      ensures Valid()
      ensures entries == old(entries)[i := Entry(true, old(entries)[i].periodMs, now + old(entries)[i].periodMs, old(entries)[i].revision + 1)]
      ensures epochs == old(epochs)[i := Anew(now + old(entries)[i].periodMs)]
    {
      Reconfigure(i, true, entries[i].periodMs, now + entries[i].periodMs);
    }

    /** The schedule part of `clear_impl`. */
    method Clear(i: nat)
      requires Valid() && i < REPORTS
      modifies this`entries, this`epochs
      ensures Valid()
      ensures entries == old(entries)[i := Entry(false, 0, 0, old(entries)[i].revision + 1)]
      ensures epochs == old(epochs)[i := Anew(0)]
    {
      Reconfigure(i, false, 0, 0);
    }

    /** `set_period_impl`. */
    method SetPeriod(i: nat, periodMs: uint32, now: int) returns (result: Status)
      requires Valid()
      modifies this`entries, this`epochs
      ensures Valid()
      ensures result.Success? <==> i < REPORTS && (periodMs == 0 || periodMs >= PERIOD_FLOOR_MS) && old(entries)[i].defined
      ensures result.Failure? ==> entries == old(entries) && epochs == old(epochs)
      ensures result.Success? ==>
                entries == old(entries)[i := Entry(true, periodMs, if periodMs == 0 then 0 else now + periodMs, old(entries)[i].revision + 1)]
                && epochs == old(epochs)[i := Anew(if periodMs == 0 then 0 else now + periodMs)]
    {
      if i >= REPORTS {
        return Failure(EINVAL);
      }
      if periodMs != 0 && periodMs < PERIOD_FLOOR_MS {
        return Failure(ERANGE);
      }
      if !entries[i].defined {
        return Failure(ENOENT);
      }
      Reconfigure(i, true, periodMs, if periodMs == 0 then 0 else now + periodMs);
      result := Success;
    }

    /** `kfsw_hk_set_enabled`: a change gives every schedule a new revision and leaves its due time. */
    method SetEnabled(value: bool)
      requires Valid()
      modifies this`enabled, this`epochs, this`entries
      ensures Valid() && enabled == value
      ensures value == old(enabled) ==> entries == old(entries) && epochs == old(epochs)
      ensures value != old(enabled) ==> |entries| == |old(entries)| && forall i :: 0 <= i < REPORTS ==>
                entries[i] == old(entries)[i].(revision := old(entries)[i].revision + 1)
    {
      if enabled == value {
        return;
      }
      var before := entries;
      for k := 0 to REPORTS
        invariant |entries| == REPORTS
        invariant forall j :: 0 <= j < k ==> entries[j] == before[j].(revision := before[j].revision + 1)
        invariant forall j :: k <= j < REPORTS ==> entries[j] == before[j]
      {
        entries := entries[k := entries[k].(revision := entries[k].revision + 1)];
      }
      enabled := value;
      epochs := seq(REPORTS, i requires 0 <= i < |before| => Anew(before[i].nextUptime));
    }

    /** `kfsw_hk_schedule_take`. */
    method Take(i: nat, now: int) returns (due: Option<Due>)
      requires Valid() && running.None?
      modifies this`scheduledAttempts, this`epochs, this`running, this`attemptsTotal
      ensures Valid()
      ensures due.Some? <==> ready && enabled && i < REPORTS && entries[i].defined && entries[i].periodMs != 0 && now >= entries[i].nextUptime
      ensures due.Some? ==> running == Some((i, due.value)) && due.value.uptime == entries[i].nextUptime
                            && due.value.periodMs == entries[i].periodMs && due.value.revision == entries[i].revision
                            && attemptsTotal == old(attemptsTotal) + 1
                            && epochs == old(epochs)[i := old(epochs)[i].(attempts := old(epochs)[i].attempts + 1)]
      ensures due.None? ==> running == None && epochs == old(epochs) && attemptsTotal == old(attemptsTotal)
    {
      if !ready || !enabled || i >= REPORTS || !entries[i].defined || entries[i].periodMs == 0 || now < entries[i].nextUptime {
        return None;
      }
      var d := Due(entries[i].revision, entries[i].nextUptime, entries[i].periodMs);
      scheduledAttempts := (scheduledAttempts as int + 1) % 0x1_0000_0000;
      attemptsTotal := attemptsTotal + 1;
      running := Some((i, d));
      epochs := epochs[i := epochs[i].(attempts := epochs[i].attempts + 1)];
      due := Some(d);
    }

    /** `kfsw_hk_schedule_finish`: advance the schedule the attempt was taken from, and only if nothing
        changed it meanwhile. */
    method Finish(i: nat, due: Due, now: int)
      requires Valid() && running == Some((i, due))
      modifies this`missedSlots, this`missedTotal, this`epochs, this`running, this`entries
      ensures Valid() && running == None
      ensures missedTotal == old(missedTotal) + Missed(due.uptime, due.periodMs, Arith.Max(now, due.uptime))
      ensures old(entries)[i].revision != due.revision ==> entries == old(entries) && epochs == old(epochs)
      ensures old(entries)[i].revision == due.revision ==>
                entries == old(entries)[i := old(entries)[i].(nextUptime := NextDue(due.uptime, due.periodMs, Arith.Max(now, due.uptime)))]
                && epochs == old(epochs)[i := Advanced(old(epochs)[i], Missed(due.uptime, due.periodMs, Arith.Max(now, due.uptime)))]
    {
      var completion := Arith.Max(now, due.uptime);
      var missed := (completion - due.uptime) / due.periodMs;
      assert missed == Missed(due.uptime, due.periodMs, completion);
      missedSlots := missedSlots as int + Arith.Min(missed, UINT32_MAX - missedSlots);
      missedTotal := missedTotal + missed;
      running := None;
      Move(i, due, completion);
    }

    /** The guarded update inside `kfsw_hk_schedule_finish`. */
    method Move(i: nat, due: Due, completion: int)
      requires running == None && AllOnLattice(entries, epochs, Some((i, due)), enabled) && completion >= due.uptime
      modifies this`epochs, this`entries
      ensures AllOnLattice(entries, epochs, running, enabled)
      ensures old(entries)[i].revision != due.revision ==> entries == old(entries) && epochs == old(epochs)
      ensures old(entries)[i].revision == due.revision ==>
                entries == old(entries)[i := old(entries)[i].(nextUptime := NextDue(due.uptime, due.periodMs, completion))]
                && epochs == old(epochs)[i := Advanced(old(epochs)[i], Missed(due.uptime, due.periodMs, completion))]
    {
      hide NextDue, Missed, Advanced, OnLattice;
      LatticeAt(entries, epochs, Some((i, due)), enabled, i);
      ghost var entriesBefore, epochsBefore := entries, epochs;
      if enabled && entries[i].defined && entries[i].periodMs != 0 && entries[i].revision == due.revision {
        AdvanceKeeps(entries[i], epochs[i], due, completion);
        entries := entries[i := entries[i].(nextUptime := NextDue(due.uptime, due.periodMs, completion))];
        epochs := epochs[i := Advanced(epochs[i], Missed(due.uptime, due.periodMs, completion))];
      }
      forall j | 0 <= j < REPORTS ensures OnLattice(entries[j], epochs[j], Pending(running, j, entries[j].revision), enabled) {
        assert OnLattice(entriesBefore[j], epochsBefore[j], Pending(Some((i, due)), j, entriesBefore[j].revision), enabled);
      }
    }
  }

  lemma LatticeAt(entries: seq<Entry>, epochs: seq<Epoch>, running: Option<(nat, Due)>, enabled: bool, i: nat)
    requires AllOnLattice(entries, epochs, running, enabled) && i < REPORTS
    ensures OnLattice(entries[i], epochs[i], Pending(running, i, entries[i].revision), enabled)
    ensures Pending(running, i, entries[i].revision).Some? ==> entries[i].defined && enabled && entries[i].periodMs != 0
  {
  }

  /** A change that lands while a report is collected: a period, a definition, a clear, the enable switch,
      or the start or end of a restore. */
  datatype Change =
    | Period(index: nat, periodMs: uint32, now: int)
    | Redefine(index: nat, at: int)
    | Drop(index: nat)
    | Enable(value: bool)
    | Restoring(finished: bool)

  /** What a change makes of the schedules. */
  function ChangedBy(entries: seq<Entry>, enabled: bool, c: Change): (r: seq<Entry>)
    requires |entries| == REPORTS
    ensures |r| == REPORTS
  {
    match c
    case Period(i, periodMs, now) =>
      if i < REPORTS && (periodMs == 0 || periodMs >= PERIOD_FLOOR_MS) && entries[i].defined
      then entries[i := Entry(true, periodMs, if periodMs == 0 then 0 else now + periodMs, entries[i].revision + 1)] else entries
    case Redefine(i, at) =>
      if i < REPORTS then entries[i := Entry(true, entries[i].periodMs, at + entries[i].periodMs, entries[i].revision + 1)] else entries
    case Drop(i) => if i < REPORTS then entries[i := Entry(false, 0, 0, entries[i].revision + 1)] else entries
    case Enable(value) => if value != enabled then Revised(entries) else entries
    case Restoring(_) => entries
  }

  function Revised(entries: seq<Entry>): (r: seq<Entry>)
    ensures |r| == |entries|
  {
    seq(|entries|, i requires 0 <= i < |entries| => entries[i].(revision := entries[i].revision + 1))
  }

  function EnabledBy(enabled: bool, changes: seq<Change>): bool {
    if changes == [] then enabled
    else match changes[|changes| - 1] { case Enable(value) => value case _ => EnabledBy(enabled, changes[..|changes| - 1]) }
  }

  function ChangedByAll(entries: seq<Entry>, enabled: bool, changes: seq<Change>): (r: seq<Entry>)
    requires |entries| == REPORTS
    ensures |r| == REPORTS
  {
    if changes == [] then entries else
    var earlier := changes[..|changes| - 1];
    ChangedBy(ChangedByAll(entries, enabled, earlier), EnabledBy(enabled, earlier), changes[|changes| - 1])
  }

  method Apply(s: Schedule, c: Change)
    requires s.Valid()
    modifies s`entries, s`epochs, s`enabled, s`ready
    ensures s.Valid()
    ensures s.entries == ChangedBy(old(s.entries), old(s.enabled), c) && s.enabled == EnabledBy(old(s.enabled), [c])
    ensures forall i :: 0 <= i < REPORTS ==> SameOrNewer(old(s.entries)[i], old(s.epochs)[i], s.entries[i], s.epochs[i])
  {
    match c {
      case Period(i, periodMs, now) => var _ := s.SetPeriod(i, periodMs, now);
      case Redefine(i, now) => if i < REPORTS { s.Define(i, now); }
      case Drop(i) => if i < REPORTS { s.Clear(i); }
      case Enable(value) => s.SetEnabled(value);
      case Restoring(finished) => s.SetReady(finished);
    }
  }

  /** Either nothing happened to a schedule or it has a later revision. */
  ghost predicate SameOrNewer(e: Entry, p: Epoch, f: Entry, q: Epoch) {
    f.revision > e.revision || (f == e && p == q)
  }

  /** One report's turn in the collector thread's loop, with any changes landing during the collection.
      Unchanged meanwhile, the due time moves strictly past completion by at most one period; changed
      meanwhile, the changes stand, and they stand for every other report either way. */
  method CollectorTurn(s: Schedule, i: nat, start: int, changes: seq<Change>, completion: int) returns (taken: bool)
    requires s.Valid() && s.running.None?
    modifies s
    ensures s.Valid() && s.running.None?
    ensures taken ==> i < REPORTS && old(s.entries)[i].nextUptime <= start
    ensures taken ==>
              var after := ChangedByAll(old(s.entries), old(s.enabled), changes);
              s.entries == if after[i].revision == old(s.entries)[i].revision
                           then after[i := after[i].(nextUptime := s.entries[i].nextUptime)] else after
    ensures taken && s.entries[i].revision == old(s.entries)[i].revision ==>
              Arith.Max(completion, old(s.entries)[i].nextUptime) < s.entries[i].nextUptime
              <= Arith.Max(completion, old(s.entries)[i].nextUptime) + s.entries[i].periodMs
              && s.epochs[i].attempts == old(s.epochs)[i].attempts + 1 && s.epochs[i].anchor == old(s.epochs)[i].anchor
              && s.epochs[i].attempts + s.epochs[i].missed == s.epochs[i].passed
    ensures !taken ==> s.entries == old(s.entries)
  {
    hide ChangedBy;
    var due := s.Take(i, start);
    taken := due.Some?;
    if taken {
      ghost var e, p := s.entries[i], s.epochs[i];
      for k := 0 to |changes|
        invariant s.Valid() && s.running == Some((i, due.value))
        invariant SameOrNewer(e, p, s.entries[i], s.epochs[i])
        invariant s.entries == ChangedByAll(old(s.entries), old(s.enabled), changes[..k])
        invariant s.enabled == EnabledBy(old(s.enabled), changes[..k])
      {
        Apply(s, changes[k]);
        assert changes[..k + 1][..k] == changes[..k];
      }
      assert changes[..|changes|] == changes;
      s.Finish(i, due.value, completion);
      LatticeAt(s.entries, s.epochs, s.running, s.enabled, i);
    }
  }

  /** While a schedule is not reconfigured its due times stay congruent modulo the period, and
      attempts plus misses is the number of lattice slots passed. */
  lemma LatticeCounts(entries: seq<Entry>, epochs: seq<Epoch>, enabled: bool, i: nat)
    requires AllOnLattice(entries, epochs, None, enabled) && i < REPORTS && entries[i].defined && entries[i].periodMs != 0
    ensures entries[i].nextUptime - epochs[i].anchor == (epochs[i].attempts + epochs[i].missed) * entries[i].periodMs
    ensures entries[i].nextUptime % entries[i].periodMs == epochs[i].anchor % entries[i].periodMs
  {
    LatticeAt(entries, epochs, None, enabled, i);
    var p, a, n := entries[i].periodMs, epochs[i].anchor, epochs[i].passed;
    var q, m := a / p, a % p;
    assert a == q * p + m;
    assert a + n * p == (q + n) * p + m by {
      assert (q + n) * p == q * p + n * p;
    }
    Arith.DivModUnique(a + n * p, p, q + n, m);
  }
}
