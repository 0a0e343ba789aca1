/** Table loads, reverts and dumps, src/table/table.c, over the parameter registry. */
module Table {
  import opened Bytes
  import opened Errors
  import Crc
  import opened Registry
  import opened TableFile

  // ----- what a file asks of the registry -----

  /** One value bound for one parameter. */
  datatype Assignment = Assignment(entry: Entry, value: Value)

  predicate Distinct(es: seq<FileEntry>) {
    forall j, k :: 0 <= j < k < |es| ==> es[j].offset != es[k].offset
  }

  /** The checks `check_entries` makes of one entry of a file of `count`, after the duplicate check. */
  function CheckEntry(entries: seq<Entry>, table: byte, count: nat, fe: FileEntry): (r: Result<Assignment>)
    requires TABLE_FIRST <= table <= TABLE_LAST
  {
    match Lookup(entries, WireId(table, fe.offset))
    case None => Err(ENXIO)
    case Some(e) =>
      if e.readOnly then Err(EROFS)
      else if e.fallible && count != 1 then Err(ENOTSUP)
      else match WireDecode(e, fe.code, fe.value) { case Err(error) => Err(error) case Ok(v) => Ok(Assignment(e, v)) }
  }

  /** The parameter an entry of a file names. */
  ghost predicate Named(table: byte, fe: FileEntry, e: Entry) {
    e.id == table as int * 0x100 + fe.offset
  }

  /** What one entry of a file of `count` must be: it names a registered parameter, not read-only, alone in
      the file if that may refuse, with the parameter's own code and the bytes of a value it accepts. */
  ghost predicate Fitting(entries: seq<Entry>, table: byte, count: nat, fe: FileEntry, i: nat, v: Value) {
    && i < |entries| && Named(table, fe, entries[i]) && !entries[i].readOnly && (entries[i].fallible ==> count == 1)
    && WireTypeOf(entries[i]).Some? && fe.code == WireTypeOf(entries[i]).value.code && Formed(v)
    && Validate(entries[i], v).Success? && WireBytes(v) == fe.value
  }

  /** The checks of one entry pass exactly on a fitting one, and then say which parameter and value. */
  lemma CheckEntryIff(entries: seq<Entry>, table: byte, count: nat, fe: FileEntry, i: nat, v: Value)
    requires Registered(entries) && TABLE_FIRST <= table <= TABLE_LAST && i < |entries| && Named(table, fe, entries[i])
    ensures CheckEntry(entries, table, count, fe) == Ok(Assignment(entries[i], v)) <==> Fitting(entries, table, count, fe, i, v)
    ensures CheckEntry(entries, table, count, fe).Ok? ==> CheckEntry(entries, table, count, fe).value.entry == entries[i]
  {
    hide WireTypeOf, WireBytes, Validate, Formed, WireDecode;
    LookupUnique(entries, i);
    DecodeIff(entries[i], fe.code, fe.value, v);
  }

  /** Why an entry is refused, after the entries before it: a repeated offset, then one that names nothing,
      then a read-only parameter, then one that may refuse among others. */
  ghost predicate Reason(entries: seq<Entry>, table: byte, count: nat, earlier: seq<byte>, fe: FileEntry, error: Errno) {
    && (fe.offset in earlier ==> error == EEXIST)
    && (fe.offset !in earlier && (forall i :: 0 <= i < |entries| ==> !Named(table, fe, entries[i])) ==> error == ENXIO)
    && (forall i :: 0 <= i < |entries| && Named(table, fe, entries[i]) && fe.offset !in earlier ==>
          && (entries[i].readOnly ==> error == EROFS)
          && (!entries[i].readOnly && entries[i].fallible && count != 1 ==> error == ENOTSUP))
  }

  lemma ReasonOf(entries: seq<Entry>, table: byte, count: nat, fe: FileEntry)
    requires Registered(entries) && TABLE_FIRST <= table <= TABLE_LAST && CheckEntry(entries, table, count, fe).Err?
    ensures Reason(entries, table, count, [], fe, CheckEntry(entries, table, count, fe).error)
  {
    hide WireDecode, EntryOk;
    forall i | 0 <= i < |entries| && Named(table, fe, entries[i]) ensures Lookup(entries, WireId(table, fe.offset)) == Some(entries[i]) {
      LookupUnique(entries, i);
    }
  }

  predicate Acceptable(entries: seq<Entry>, table: byte, es: seq<FileEntry>) {
    TABLE_FIRST <= table <= TABLE_LAST && Distinct(es)
    && forall k :: 0 <= k < |es| ==> CheckEntry(entries, table, |es|, es[k]).Ok?
  }

  /** The assignments an acceptable file stands for. */
  function PlanOf(entries: seq<Entry>, table: byte, es: seq<FileEntry>): (plan: seq<Assignment>)
    requires Acceptable(entries, table, es)
    ensures |plan| == |es|
  {
    seq(|es|, k requires 0 <= k < |es| => CheckEntry(entries, table, |es|, es[k]).value)
  }

  /** An image that is well formed and every entry of which the registry takes. */
  predicate Loadable(entries: seq<Entry>, image: seq<byte>) {
    HEADER_SIZE <= |image| <= MaxBytes() && Contents(image).Some?
    && Acceptable(entries, Contents(image).value.0, Contents(image).value.1)
  }

  function Plan(entries: seq<Entry>, image: seq<byte>): seq<Assignment>
    requires Loadable(entries, image)
  {
    PlanOf(entries, Contents(image).value.0, Contents(image).value.1)
  }

  // ----- storing -----

  ghost predicate StorageOk(entries: seq<Entry>, storage: map<uint16, Cell>) {
    forall i :: 0 <= i < |entries| ==> entries[i].id in storage && CellOk(entries[i], storage[entries[i].id])
  }

  /** An assignment that may be stored. */
  ghost predicate Storable(entries: seq<Entry>, a: Assignment) {
    a.entry in entries && Formed(a.value) && Validate(a.entry, a.value).Success?
  }

  /** No parameter is assigned twice, and a parameter that may refuse is assigned alone. */
  ghost predicate PlanOk(entries: seq<Entry>, plan: seq<Assignment>) {
    && (forall k :: 0 <= k < |plan| ==> Storable(entries, plan[k]))
    && (forall j, k :: 0 <= j < k < |plan| ==> plan[j].entry.id != plan[k].entry.id)
    && (forall k :: 0 <= k < |plan| && plan[k].entry.fallible ==> |plan| == 1)
  }

  /** The value a reader of the parameter gets. */
  ghost function ReadOf(storage: map<uint16, Cell>, e: Entry): Value
    requires e.id in storage && CellOk(e, storage[e.id])
  {
    Read(e, storage[e.id])
  }

  lemma EntryStored(entries: seq<Entry>, storage: map<uint16, Cell>, e: Entry)
    requires Registered(entries) && StorageOk(entries, storage) && e in entries
    ensures EntryOk(e) && e.id in storage && CellOk(e, storage[e.id])
  {
  }

  function Applied(storage: map<uint16, Cell>, a: Assignment): map<uint16, Cell>
    requires a.entry.id in storage && EntryOk(a.entry) && CellOk(a.entry, storage[a.entry.id])
    requires Formed(a.value) && Validate(a.entry, a.value).Success?
  {
    storage[a.entry.id := Stored(a.entry, storage[a.entry.id], a.value)]
  }

  /** What every parameter reads after a plan was stored: the plan's value, else what it read before. */
  ghost predicate Took(entries: seq<Entry>, before: map<uint16, Cell>, after: map<uint16, Cell>, plan: seq<Assignment>) {
    && StorageOk(entries, after) && before.Keys == after.Keys
    && (forall k :: 0 <= k < |plan| ==> Reads(after, plan[k].entry, Canonical(plan[k].value)))
    && (forall id :: id in before && (forall k :: 0 <= k < |plan| ==> plan[k].entry.id != id) ==> after[id] == before[id])
  }

  ghost predicate Reads(storage: map<uint16, Cell>, e: Entry, v: Value) {
    e.id in storage && CellOk(e, storage[e.id]) && Read(e, storage[e.id]) == v
  }

  lemma EntryById(entries: seq<Entry>, e: Entry, f: Entry)
    requires Sorted(entries) && e in entries && f in entries && e.id == f.id
    ensures e == f
  {
    var i :| 0 <= i < |entries| && entries[i] == e;
    var j :| 0 <= j < |entries| && entries[j] == f;
  }

  lemma AppliedOk(entries: seq<Entry>, storage: map<uint16, Cell>, a: Assignment)
    requires Registered(entries) && StorageOk(entries, storage) && Storable(entries, a)
    ensures EntryOk(a.entry) && a.entry.id in storage && CellOk(a.entry, storage[a.entry.id])
    ensures StorageOk(entries, Applied(storage, a)) && Applied(storage, a).Keys == storage.Keys
    ensures Reads(Applied(storage, a), a.entry, Canonical(a.value))
  {
    hide Stored, Read, Validate, EntryOk, Formed, CellOk, Canonical;
    EntryStored(entries, storage, a.entry);
    ReadStored(a.entry, storage[a.entry.id], a.value);
    var after := Applied(storage, a);
    forall i | 0 <= i < |entries| ensures entries[i].id in after && CellOk(entries[i], after[entries[i].id]) {
      if entries[i].id == a.entry.id {
        EntryById(entries, entries[i], a.entry);
      }
    }
  }

  /** One more assignment of a plan, to a parameter not yet assigned. */
  lemma TookStep(entries: seq<Entry>, before: map<uint16, Cell>, after: map<uint16, Cell>, plan: seq<Assignment>, n: nat)
    requires Registered(entries) && PlanOk(entries, plan) && n < |plan| && Took(entries, before, after, plan[..n])
    ensures EntryOk(plan[n].entry) && plan[n].entry.id in after && CellOk(plan[n].entry, after[plan[n].entry.id])
    ensures Storable(entries, plan[n]) && Took(entries, before, Applied(after, plan[n]), plan[..n + 1])
  {
    hide Stored, Read, Validate, EntryOk, Formed, CellOk, Canonical;
    assert Storable(entries, plan[n]);
    AppliedOk(entries, after, plan[n]);
    var done := Applied(after, plan[n]);
    var longer := plan[..n + 1];
    forall k | 0 <= k < |longer| ensures Reads(done, longer[k].entry, Canonical(longer[k].value)) {
      assert longer[k] == plan[k];
      if k < n {
        assert plan[..n][k] == plan[k];
        assert plan[k].entry.id != plan[n].entry.id;
      }
    }
    forall id | id in before && (forall k :: 0 <= k < |longer| ==> longer[k].entry.id != id) ensures done[id] == before[id] {
      assert longer[n] == plan[n];
      assert forall k :: 0 <= k < n ==> plan[..n][k] == longer[k];
    }
  }

  /** What the parameters of a plan read before it. */
  ghost function Undo(entries: seq<Entry>, storage: map<uint16, Cell>, plan: seq<Assignment>): (u: seq<Assignment>)
    requires Registered(entries) && StorageOk(entries, storage) && PlanOk(entries, plan)
    ensures |u| == |plan|
  {
    seq(|plan|, k requires 0 <= k < |plan| => UndoOne(entries, storage, plan, k))
  }

  ghost function UndoOne(entries: seq<Entry>, storage: map<uint16, Cell>, plan: seq<Assignment>, k: nat): Assignment
    requires Registered(entries) && StorageOk(entries, storage) && PlanOk(entries, plan) && k < |plan|
  {
    assert Storable(entries, plan[k]);
    EntryStored(entries, storage, plan[k].entry);
    Assignment(plan[k].entry, ReadOf(storage, plan[k].entry))
  }

  /** Storing what the parameters of a plan read before it undoes it: every parameter reads as it did. */
  lemma UndoRestores(entries: seq<Entry>, before: map<uint16, Cell>, loaded: map<uint16, Cell>, after: map<uint16, Cell>, plan: seq<Assignment>)
    requires Registered(entries) && StorageOk(entries, before) && PlanOk(entries, plan)
    requires Took(entries, before, loaded, plan) && Took(entries, loaded, after, Undo(entries, before, plan))
    ensures forall i :: 0 <= i < |entries| ==> Reads(before, entries[i], Read(entries[i], before[entries[i].id]))
                                               && Reads(after, entries[i], Read(entries[i], before[entries[i].id]))
  {
    hide Stored, Read, Validate, EntryOk, Formed, CellOk, Canonical;
    var undo := Undo(entries, before, plan);
    forall i | 0 <= i < |entries| ensures Reads(before, entries[i], Read(entries[i], before[entries[i].id]))
                                          && Reads(after, entries[i], Read(entries[i], before[entries[i].id])) {
      EntryStored(entries, before, entries[i]);
      EntryStored(entries, after, entries[i]);
      if k :| 0 <= k < |plan| && plan[k].entry.id == entries[i].id {
        assert Storable(entries, plan[k]);
        EntryById(entries, plan[k].entry, entries[i]);
        assert undo[k] == UndoOne(entries, before, plan, k);
        ReadFormed(entries[i], before[entries[i].id]);
      } else {
        assert forall k :: 0 <= k < |undo| ==> undo[k].entry.id != entries[i].id by {
          forall k | 0 <= k < |undo| ensures undo[k].entry.id != entries[i].id {
            assert undo[k] == UndoOne(entries, before, plan, k);
          }
        }
      }
    }
  }

  /** An acceptable file's assignments may all be stored. */
  lemma PlanIsOk(entries: seq<Entry>, table: byte, es: seq<FileEntry>)
    requires Registered(entries) && Acceptable(entries, table, es)
    ensures PlanOk(entries, PlanOf(entries, table, es))
  {
    hide WireDecode, Validate, Formed, EntryOk;
    var plan := PlanOf(entries, table, es);
    forall k | 0 <= k < |plan| ensures Storable(entries, plan[k]) && plan[k].entry.id == WireId(table, es[k].offset)
                                       && (plan[k].entry.fallible ==> |plan| == 1) {
      assert CheckEntry(entries, table, |es|, es[k]) == Ok(plan[k]);
    }
  }

  // ----- checking a file -----

  datatype Report = Report(accepted: nat, failedEntry: nat, failedOffset: byte, reason: Status)

  ghost function Extended(es: seq<FileEntry>, rest: Option<seq<FileEntry>>): Option<seq<FileEntry>> {
    match rest
    case None => None
    case Some(tail) => Some(es + tail)
  }

  lemma ExtendedStep(image: seq<byte>, offset: nat, n: nat, es: seq<FileEntry>, e: FileEntry)
    requires offset <= |image| && n > 0 && NextEntry(image, offset) == Some(e)
    ensures Extended(es, ParseFrom(image, offset, n)) == Extended(es + [e], ParseFrom(image, After(offset, e), n - 1))
  {
    hide NextEntry;
    var rest := ParseFrom(image, After(offset, e), n - 1);
    if rest.Some? {
      assert es + ([e] + rest.value) == es + [e] + rest.value;
    }
  }

  /** One bad entry makes the file unacceptable, whatever follows it. */
  lemma BadEntry(entries: seq<Entry>, table: byte, count: nat, es: seq<FileEntry>, e: FileEntry, rest: Option<seq<FileEntry>>)
    requires TABLE_FIRST <= table <= TABLE_LAST && (rest.Some? ==> |es| + 1 + |rest.value| == count)
    requires (exists k :: 0 <= k < |es| && es[k].offset == e.offset) || CheckEntry(entries, table, count, e).Err?
    ensures var all := Extended(es + [e], rest); all.Some? ==> !Acceptable(entries, table, all.value)
  {
    hide CheckEntry;
    if rest.Some? {
      var all := es + [e] + rest.value;
      assert all[|es|] == e;
      if k :| 0 <= k < |es| && es[k].offset == e.offset {
        assert all[k] == es[k];
      }
    }
  }

  lemma {:induction false} ParseLength(image: seq<byte>, offset: nat, n: nat)
    requires offset <= |image|
    ensures ParseFrom(image, offset, n).Some? ==> |ParseFrom(image, offset, n).value| == n
  {
    var r := ParseFrom(image, offset, n);
    if r.Some? {
      ParseIff(image, offset, n, r.value);
    }
  }

  method Seen(seen: seq<byte>, offset: byte) returns (found: bool)
    ensures found <==> offset in seen
  {
    for i := 0 to |seen|
      invariant forall k :: 0 <= k < i ==> seen[k] != offset
    {
      if seen[i] == offset {
        return true;
      }
    }
    found := false;
  }

  /** The body of the loop in `check_entries`, for an entry already taken from the file. */
  method CheckOne(entries: seq<Entry>, table: byte, count: nat, seen: seq<byte>, fe: FileEntry) returns (r: Result<Assignment>)
    requires Registered(entries) && TABLE_FIRST <= table <= TABLE_LAST
    ensures r.Ok? <==> fe.offset !in seen && CheckEntry(entries, table, count, fe).Ok?
    ensures r.Ok? ==> r == CheckEntry(entries, table, count, fe)
    ensures fe.offset in seen ==> r == Err(EEXIST)
    ensures fe.offset !in seen ==> r == CheckEntry(entries, table, count, fe)
    ensures r.Err? ==> Reason(entries, table, count, seen, fe, r.error)
  {
    hide WireDecode, WireId, EntryOk;
    if CheckEntry(entries, table, count, fe).Err? {
      ReasonOf(entries, table, count, fe);
    }
    var repeated := Seen(seen, fe.offset);
    if repeated {
      return Err(EEXIST);
    }
    var found := Search(entries, WireId(table, fe.offset));
    if found.None? {
      return Err(ENXIO);
    }
    var e := found.value;
    if e.readOnly {
      return Err(EROFS);
    }
    if e.fallible && count != 1 {
      return Err(ENOTSUP);
    }
    var v := WireDecode(e, fe.code, fe.value);
    if v.Err? {
      return Err(v.error);
    }
    r := Ok(Assignment(e, v.value));
  }

  /** `check_entries`: succeeds exactly on a file that parses and is acceptable, and then yields every
      assignment of it. */
  method CheckEntries(entries: seq<Entry>, image: seq<byte>, count: nat, table: byte)
    returns (result: Status, report: Report, plan: seq<Assignment>)
    requires Registered(entries) && |image| >= HEADER_SIZE && TABLE_FIRST <= table <= TABLE_LAST
    ensures result.Success? <==> ParseFrom(image, HEADER_SIZE, count).Some? && Acceptable(entries, table, ParseFrom(image, HEADER_SIZE, count).value)
    ensures result.Success? ==> plan == PlanOf(entries, table, ParseFrom(image, HEADER_SIZE, count).value)
                                && report == Report(count, 0, 0, Success)
    ensures result.Failure? ==> result == Failure(EBADMSG) && report.reason.Failure? && report.accepted <= count
                                && report.failedEntry == if report.accepted < count then report.accepted + 1 else count
    ensures result.Failure? && ParseFrom(image, HEADER_SIZE, count).Some? && report.accepted < count ==>
              var es := ParseFrom(image, HEADER_SIZE, count).value;
              |es| == count && report.failedOffset == es[report.accepted].offset
              && Reason(entries, table, count, Offsets(es[..report.accepted]), es[report.accepted], report.reason.error)
  {
    hide CheckEntry, NextEntry, ParseFrom, Acceptable, Registered, Reason;
    ParseLength(image, HEADER_SIZE, count);
    var offset: nat, seen: seq<byte> := HEADER_SIZE, [];
    plan := [];
    report := Report(0, 0, 0, Success);
    ghost var es: seq<FileEntry> := [];
    ghost var whole := ParseFrom(image, HEADER_SIZE, count);
    assert whole.Some? ==> [] + whole.value == whole.value;
    for index := 0 to count
      invariant offset <= |image| && |es| == |plan| == |seen| == index == report.accepted
      invariant report.failedEntry == index
      invariant Extended(es, ParseFrom(image, offset, count - index)) == whole
      invariant Distinct(es) && (forall k :: 0 <= k < index ==> seen[k] == es[k].offset) && seen == Offsets(es)
      invariant forall k :: 0 <= k < index ==> CheckEntry(entries, table, count, es[k]) == Ok(plan[k])
    {
      var next := NextEntry(image, offset);
      report := report.(failedEntry := index + 1);
      if next.None? {
        NoNext(image, offset, count - index);
        report := report.(reason := Failure(EBADMSG));
        return Failure(EBADMSG), report, [];
      }
      var fe := next.value;
      report := report.(failedOffset := fe.offset);
      ExtendedStep(image, offset, count - index, es, fe);
      ParseLength(image, After(offset, fe), count - index - 1);
      var checked := CheckOne(entries, table, count, seen, fe);
      if checked.Err? {
        BadEntry(entries, table, count, es, fe, ParseFrom(image, After(offset, fe), count - index - 1));
        WholeAt(es, fe, ParseFrom(image, After(offset, fe), count - index - 1));
        report := report.(reason := Failure(checked.error));
        return Failure(EBADMSG), report, [];
      }
      DistinctGrows(es, seen, fe);
      es := es + [fe];
      seen := seen + [fe.offset];
      plan := plan + [checked.value];
      offset := After(offset, fe);
      report := report.(accepted := index + 1);
    }
    ParseEnd(image, offset);
    if offset != |image| {
      report := report.(reason := Failure(EBADMSG));
      return Failure(EBADMSG), report, [];
    }
    assert es + [] == es;
    PlanReached(entries, table, es, plan);
    return Success, Report(count, 0, 0, Success), plan;
  }

  ghost function Offsets(es: seq<FileEntry>): (r: seq<byte>)
    ensures |r| == |es|
  {
    seq(|es|, k requires 0 <= k < |es| => es[k].offset)
  }

  lemma WholeAt(es: seq<FileEntry>, fe: FileEntry, rest: Option<seq<FileEntry>>)
    ensures var whole := Extended(es + [fe], rest);
            whole.Some? ==> |whole.value| > |es| && whole.value[|es|] == fe && whole.value[..|es|] == es
  {
    if rest.Some? {
      assert (es + [fe] + rest.value)[..|es|] == es;
    }
  }

  lemma NoNext(image: seq<byte>, offset: nat, n: nat)
    requires offset <= |image| && n > 0 && NextEntry(image, offset).None?
    ensures ParseFrom(image, offset, n).None?
  {
  }

  lemma ParseEnd(image: seq<byte>, offset: nat)
    requires offset <= |image|
    ensures ParseFrom(image, offset, 0) == if offset == |image| then Some([]) else None
  {
  }

  lemma DistinctGrows(es: seq<FileEntry>, seen: seq<byte>, fe: FileEntry)
    requires Distinct(es) && |seen| == |es| && (forall k :: 0 <= k < |es| ==> seen[k] == es[k].offset) && fe.offset !in seen
    ensures Distinct(es + [fe])
  {
    forall k | 0 <= k < |es| ensures es[k].offset != fe.offset {
      assert seen[k] in seen;
    }
  }

  lemma PlanReached(entries: seq<Entry>, table: byte, es: seq<FileEntry>, plan: seq<Assignment>)
    requires TABLE_FIRST <= table <= TABLE_LAST && Distinct(es) && |plan| == |es|
    requires forall k :: 0 <= k < |es| ==> CheckEntry(entries, table, |es|, es[k]) == Ok(plan[k])
    ensures Acceptable(entries, table, es) && plan == PlanOf(entries, table, es)
  {
    hide CheckEntry;
  }

  // ----- the service -----

  datatype Saved = Saved(id: uint16, value: Value)

  datatype LoadState = Empty | Loaded | Reverted

  /** The one assignment whose parameter may still refuse it. */
  predicate Refusable(plan: seq<Assignment>) {
    |plan| == 1 && plan[0].entry.fallible
  }

  ghost predicate SavedKnown(entries: seq<Entry>, saved: seq<Saved>) {
    && (forall k :: 0 <= k < |saved| ==> Lookup(entries, saved[k].id).Some? && Formed(saved[k].value))
    && (forall j, k :: 0 <= j < k < |saved| ==> saved[j].id != saved[k].id)
    && (forall k :: 0 <= k < |saved| && Lookup(entries, saved[k].id).value.fallible ==> |saved| == 1)
  }

  /** What a revert stores. */
  ghost function SavedPlan(entries: seq<Entry>, saved: seq<Saved>): (plan: seq<Assignment>)
    requires SavedKnown(entries, saved)
    ensures |plan| == |saved|
  {
    seq(|saved|, k requires 0 <= k < |saved| => Assignment(Lookup(entries, saved[k].id).value, saved[k].value))
  }

  /** Every saved value still passes its parameter's own check. */
  ghost predicate SavedAccepted(entries: seq<Entry>, saved: seq<Saved>) {
    SavedKnown(entries, saved)
    && forall k :: 0 <= k < |saved| ==> Validate(Lookup(entries, saved[k].id).value, saved[k].value).Success?
  }

  lemma SavedPlanOk(entries: seq<Entry>, saved: seq<Saved>)
    requires SavedAccepted(entries, saved)
    ensures PlanOk(entries, SavedPlan(entries, saved))
  {
    hide Validate, Formed;
    var plan := SavedPlan(entries, saved);
    forall k | 0 <= k < |plan| ensures Storable(entries, plan[k]) && plan[k].entry.id == saved[k].id {
    }
  }

  /** Saving what a plan replaces is saving its undo. */
  lemma UndoSaved(entries: seq<Entry>, storage: map<uint16, Cell>, plan: seq<Assignment>, saved: seq<Saved>)
    requires Registered(entries) && StorageOk(entries, storage) && PlanOk(entries, plan) && |saved| == |plan|
    requires forall k :: 0 <= k < |plan| ==> saved[k].id == plan[k].entry.id && Reads(storage, plan[k].entry, saved[k].value)
    ensures SavedKnown(entries, saved) && SavedPlan(entries, saved) == Undo(entries, storage, plan)
  {
    hide Validate, Formed, Read, EntryOk, CellOk, Canonical;
    forall k | 0 <= k < |plan| ensures Lookup(entries, saved[k].id) == Some(plan[k].entry) && Formed(saved[k].value)
                                       && UndoOne(entries, storage, plan, k) == Assignment(plan[k].entry, saved[k].value) {
      assert Storable(entries, plan[k]);
      EntryStored(entries, storage, plan[k].entry);
      var i :| 0 <= i < |entries| && entries[i] == plan[k].entry;
      LookupUnique(entries, i);
      ReadFormed(plan[k].entry, storage[plan[k].entry.id]);
    }
  }

  class Tables {
    const entries: seq<Entry>
    var storage: map<uint16, Cell>
    var saved: seq<Saved>
    var state: LoadState

    ghost predicate Valid()
      reads this
    {
      Registered(entries) && StorageOk(entries, storage) && SavedKnown(entries, saved)
    }

    /** Over a finished registration and the variables behind it. */
    constructor (registered: seq<Entry>, cells: map<uint16, Cell>)
      requires Registered(registered) && StorageOk(registered, cells)
      ensures Valid() && entries == registered && storage == cells && saved == [] && state == Empty
    {
      entries, storage, saved, state := registered, cells, [], Empty;
    }

    /** The storing pass of a load or a revert. `answer` is what a fallible parameter's hook says. All of
        the plan is stored, or none of it. */
    method StoreAll(plan: seq<Assignment>, answer: Status) returns (result: Status)
      requires Registered(entries) && StorageOk(entries, storage) && PlanOk(entries, plan)
      modifies this`storage
      ensures StorageOk(entries, storage)
      ensures result == if Refusable(plan) then answer else Success
      ensures result.Success? ==> Took(entries, old(storage), storage, plan)
      ensures result.Failure? ==> storage == old(storage)
    {
      hide Took, Validate, Formed, Read, EntryOk, CellOk, Applied;
      ghost var before := storage;
      TookNothing(entries, storage);
      assert plan[..0] == [];
      for k := 0 to |plan|
        invariant StorageOk(entries, storage) && Took(entries, before, storage, plan[..k])
        invariant k > 0 && Refusable(plan) ==> answer.Success?
        invariant k == 0 ==> storage == before
      {
        if plan[k].entry.fallible && answer.Failure? {
          return answer;
        }
        TookStep(entries, before, storage, plan, k);
        AppliedOk(entries, storage, plan[k]);
        storage := Applied(storage, plan[k]);
      }
      assert plan[..|plan|] == plan;
      result := Success;
    }

    /** `kfsw_table_load`, given what reading the file gave. Either every entry of it is stored and the
        values it replaced are kept for a revert, or nothing changes. */
    method Load(file: Result<seq<byte>>, answer: Status) returns (result: Status, report: Report)
      requires Valid()
      modifies this`storage, this`saved, this`state
      ensures Valid()
      ensures result.Success? <==>
                file.Ok? && Loadable(entries, file.value) && (Refusable(Plan(entries, file.value)) ==> answer.Success?)
      ensures result.Success? ==>
                PlanOk(entries, Plan(entries, file.value)) && Plan(entries, file.value) != []
                && Took(entries, old(storage), storage, Plan(entries, file.value))
                && SavedPlan(entries, saved) == Undo(entries, old(storage), Plan(entries, file.value))
                && state == Loaded
      ensures result.Failure? ==> storage == old(storage) && saved == old(saved) && state == old(state)
      // In terms of the file: each entry of it fits a parameter, which then reads its value; no other
      // parameter changes, a read-only one least of all.
      ensures result.Success? ==>
                HEADER_SIZE <= |file.value| && Contents(file.value).Some?
                && EntriesStored(entries, Contents(file.value).value.0, Contents(file.value).value.1, storage)
      ensures result.Success? ==> forall i :: 0 <= i < |entries| && entries[i].readOnly ==> SameCell(entries[i].id, old(storage), storage)
      // A refused entry is reported with the reason it has.
      ensures file.Ok? && HEADER_SIZE <= |file.value| <= MaxBytes() && Contents(file.value).Some? && result.Failure?
              && report.accepted < |Contents(file.value).value.1| ==>
                var (table, es) := Contents(file.value).value;
                report.reason.Failure? && Reason(entries, table, |es|, Offsets(es[..report.accepted]), es[report.accepted], report.reason.error)
      // The refusal of a parameter that may refuse is passed on.
      ensures file.Ok? && Loadable(entries, file.value) && result.Failure? ==>
                result == report.reason == answer && report.failedEntry == 1 && report.failedOffset == Plan(entries, file.value)[0].entry.offset
    {
      hide Took, Validate, Formed, Read, EntryOk, CellOk, Acceptable, PlanOk, SavedKnown, ParseFrom, ReadHeader, StorageOk, Registered, Reason, EntriesStored;
      report := Report(0, 0, 0, Success);
      var plan;
      result, report, plan := Examine(entries, file);
      if result.Failure? {
        return;
      }
      PlanIsOk(entries, Contents(file.value).value.0, Contents(file.value).value.1);
      var pending := ReadAll(plan);
      ghost var before := storage;
      result := StoreAll(plan, answer);
      if result.Failure? {
        report := report.(failedEntry := 1, failedOffset := plan[0].entry.offset, reason := result);
        return;
      }
      StoredMeans(entries, Contents(file.value).value.0, Contents(file.value).value.1, before, storage);
      saved := pending;
      state := Loaded;
    }

    /** The reading pass of a load. */
    method ReadAll(plan: seq<Assignment>) returns (pending: seq<Saved>)
      requires Registered(entries) && StorageOk(entries, storage) && PlanOk(entries, plan)
      ensures SavedKnown(entries, pending) && SavedPlan(entries, pending) == Undo(entries, storage, plan)
    {
      hide Validate, Formed, Read, EntryOk, CellOk;
      pending := [];
      for k := 0 to |plan|
        invariant |pending| == k
        invariant forall j :: 0 <= j < k ==> pending[j].id == plan[j].entry.id && Reads(storage, plan[j].entry, pending[j].value)
      {
        assert Storable(entries, plan[k]);
        EntryStored(entries, storage, plan[k].entry);
        pending := pending + [Saved(plan[k].entry.id, Read(plan[k].entry, storage[plan[k].entry.id]))];
      }
      UndoSaved(entries, storage, plan, pending);
    }

    /** `kfsw_table_revert`: every saved value is stored, or nothing changes and the revert can be asked
        for again. */
    method Revert(answer: Status) returns (result: Status)
      requires Valid()
      modifies this`storage, this`saved, this`state
      ensures Valid()
      ensures result.Success? <==>
                old(state) == Loaded && old(saved) != [] && SavedAccepted(entries, old(saved))
                && (Refusable(SavedPlan(entries, old(saved))) ==> answer.Success?)
      ensures result.Success? ==> Took(entries, old(storage), storage, SavedPlan(entries, old(saved))) && saved == [] && state == Reverted
      ensures result.Failure? ==> storage == old(storage) && saved == old(saved) && state == old(state)
    {
      hide Took, Validate, Formed, Read, EntryOk, CellOk, PlanOk, StorageOk, Registered;
      if state != Loaded || saved == [] {
        return Failure(ENOENT);
      }
      var plan;
      result, plan := CheckSaved();
      if result.Failure? {
        return;
      }
      SavedPlanOk(entries, saved);
      result := StoreAll(plan, answer);
      if result.Success? {
        saved := [];
        state := Reverted;
      }
    }

    /** The checking pass of a revert. */
    method CheckSaved() returns (result: Status, plan: seq<Assignment>)
      requires Valid()
      ensures result.Success? <==> SavedAccepted(entries, saved)
      ensures result.Success? ==> plan == SavedPlan(entries, saved)
    {
      hide Validate, Formed, EntryOk, StorageOk, Sorted;
      plan := [];
      for k := 0 to |saved|
        invariant |plan| == k
        invariant forall j :: 0 <= j < k ==> plan[j] == Assignment(Lookup(entries, saved[j].id).value, saved[j].value)
                                             && Validate(plan[j].entry, saved[j].value).Success?
      {
        var found := Search(entries, saved[k].id);
        if found.None? {
          return Failure(ENOENT), [];
        }
        if found.value.fallible && |saved| != 1 {
          return Failure(ENOTSUP), [];
        }
        result := Validate(found.value, saved[k].value);
        if result.Failure? {
          return result, [];
        }
        plan := plan + [Assignment(found.value, saved[k].value)];
      }
      result := Success;
    }

    /** The image `kfsw_table_dump` builds. It is refused only for a table out of range, with nothing to
        dump, or with more than a file carries: the buffer never runs out first. */
    method Dump(table: byte) returns (image: Result<seq<byte>>, ghost es: seq<FileEntry>)
      requires Valid()
      ensures image.Err? ==> image.error == if !(TABLE_FIRST <= table <= TABLE_LAST) then EINVAL
                                            else if DumpList(entries, table, |entries|) == [] then ENOENT else E2BIG
      ensures image.Ok? <==> TABLE_FIRST <= table <= TABLE_LAST && 1 <= |DumpList(entries, table, |entries|)| <= MAX_ENTRIES
      ensures image.Ok? ==> FileEntriesOf(entries, storage, DumpList(entries, table, |entries|), es) && AllSized(es)
                            && 1 <= |es| <= MAX_ENTRIES && image.value == FileBytes(table, es)
    {
      hide Dumped, WireTypeOf, DumpEntry, EntryOk, CellOk, DumpList, FileBytes, SavedKnown, AllSized, Payload;
      es := [];
      if !(TABLE_FIRST <= table <= TABLE_LAST) {
        return Err(EINVAL), es;
      }
      var body: seq<byte>, count := [], 0;
      DumpNothing(entries, table);
      for index := 0 to |entries|
        invariant count == |es| <= MAX_ENTRIES && AllSized(es) && body == Payload(es)
        invariant FileEntriesOf(entries, storage, DumpList(entries, table, index), es)
      {
        var e := entries[index];
        EntryStored(entries, storage, e);
        DumpListStep(entries, table, index);
        if Dumped(e, table) {
          if count == MAX_ENTRIES {
            DumpListGrows(entries, table, index + 1, |entries|);
            return Err(E2BIG), es;
          }
          DumpedType(e, table);
          var offset := HEADER_SIZE + |body|;
          var value := Encode(e, storage[e.id], MaxBytes() - offset - ENTRY_HEADER_SIZE);
          ghost var fe := DumpEntry(e, storage[e.id]);
          RoomForOne(es, fe);
          if value.Err? {
            return Err(E2BIG), es;
          }
          body := body + DumpedBytes(e, storage[e.id], value.value);
          EntryAppended(es, fe);
          es := es + [fe];
          count := count + 1;
        }
      }
      if count == 0 {
        return Err(ENOENT), es;
      }
      return Ok(Finished(table, count, body, es)), es;
    }
  }

  /** The entry header and value as the dump loop lays them down. */
  function DumpedBytes(e: Entry, c: Cell, value: seq<byte>): (b: seq<byte>)
    requires EntryOk(e) && CellOk(e, c) && WireTypeOf(e).Some? && value == DumpEntry(e, c).value
    ensures b == EntryBytes(DumpEntry(e, c))
  {
    [e.offset, WireTypeOf(e).value.code] + Put16(|value|) + value
  }

  /** The header written last, over the payload. */
  function Finished(table: byte, count: nat, body: seq<byte>, ghost es: seq<FileEntry>): (b: seq<byte>)
    requires AllSized(es) && 1 <= |es| == count <= MAX_ENTRIES && body == Payload(es)
    ensures b == FileBytes(table, es)
  {
    PayloadFits(es);
    var blank := HeaderFields(table, count, |body|, 0) + body;
    HeaderFields(table, count, |body|, Crc.Checksum(blank)) + body
  }

  lemma DumpNothing(entries: seq<Entry>, table: byte)
    ensures DumpList(entries, table, 0) == [] && AllSized([]) && Payload([]) == []
  {
  }

  lemma DumpListStep(entries: seq<Entry>, table: byte, n: nat)
    requires n < |entries|
    ensures DumpList(entries, table, n + 1) == DumpList(entries, table, n) + if Dumped(entries[n], table) then [entries[n]] else []
  {
  }

  lemma {:induction false} DumpListGrows(entries: seq<Entry>, table: byte, m: nat, n: nat)
    requires m <= n <= |entries|
    ensures |DumpList(entries, table, m)| <= |DumpList(entries, table, n)|
  {
    if m < n {
      DumpListGrows(entries, table, m, n - 1);
    }
  }

  lemma DumpedType(e: Entry, table: byte)
    requires Dumped(e, table)
    ensures WireTypeOf(e).Some?
  {
  }

  /** A file with room in its count has room in its bytes. */
  lemma RoomForOne(es: seq<FileEntry>, fe: FileEntry)
    requires AllSized(es) && Sized(fe) && |es| < MAX_ENTRIES
    ensures |fe.value| <= MaxBytes() - (HEADER_SIZE + |Payload(es)|) - ENTRY_HEADER_SIZE
  {
    hide Payload, EntryBytes;
    PayloadAppend(es, fe);
    PayloadFits(es + [fe]);
  }

  lemma EntryAppended(es: seq<FileEntry>, fe: FileEntry)
    requires AllSized(es) && Sized(fe)
    ensures AllSized(es + [fe]) && Payload(es + [fe]) == Payload(es) + EntryBytes(fe)
  {
    PayloadAppend(es, fe);
  }

  ghost predicate SameCell(id: uint16, before: map<uint16, Cell>, after: map<uint16, Cell>) {
    id in before && id in after && after[id] == before[id]
  }

  /** Every entry of a file fits a parameter, and that parameter reads its value. */
  ghost predicate EntriesStored(entries: seq<Entry>, table: byte, es: seq<FileEntry>, storage: map<uint16, Cell>) {
    forall k :: 0 <= k < |es| ==> IsStored(entries, table, |es|, es[k], storage)
  }

  ghost predicate IsStored(entries: seq<Entry>, table: byte, count: nat, fe: FileEntry, storage: map<uint16, Cell>) {
    exists i: nat, v: Value :: Fitting(entries, table, count, fe, i, v) && Reads(storage, entries[i], Canonical(v))
  }

  /** Storing the plan of an acceptable file, in terms of the file. */
  lemma StoredMeans(entries: seq<Entry>, table: byte, es: seq<FileEntry>, before: map<uint16, Cell>, after: map<uint16, Cell>)
    requires Registered(entries) && Acceptable(entries, table, es) && StorageOk(entries, before)
    requires Took(entries, before, after, PlanOf(entries, table, es))
    ensures EntriesStored(entries, table, es, after)
    ensures forall i :: 0 <= i < |entries| && entries[i].readOnly ==> SameCell(entries[i].id, before, after)
  {
    hide Validate, Formed, Read, EntryOk, CellOk, Canonical, CheckEntry, WireTypeOf, WireBytes;
    var plan := PlanOf(entries, table, es);
    forall k | 0 <= k < |es|
      ensures IsStored(entries, table, |es|, es[k], after)
      ensures !plan[k].entry.readOnly && plan[k].entry in entries
    {
      assert CheckEntry(entries, table, |es|, es[k]) == Ok(plan[k]);
      var i := NamedAt(entries, table, |es|, es[k]);
      CheckEntryIff(entries, table, |es|, es[k], i, plan[k].value);
      assert Fitting(entries, table, |es|, es[k], i, plan[k].value) && Reads(after, entries[i], Canonical(plan[k].value));
    }
    forall i | 0 <= i < |entries| && entries[i].readOnly ensures SameCell(entries[i].id, before, after) {
      forall k | 0 <= k < |plan| ensures plan[k].entry.id != entries[i].id {
        IdsApart(entries, plan[k].entry, entries[i]);
      }
    }
  }

  lemma IdsApart(entries: seq<Entry>, e: Entry, f: Entry)
    requires Sorted(entries) && e in entries && f in entries && e != f
    ensures e.id != f.id
  {
    if e.id == f.id {
      EntryById(entries, e, f);
    }
  }

  lemma NamedAt(entries: seq<Entry>, table: byte, count: nat, fe: FileEntry) returns (i: nat)
    requires TABLE_FIRST <= table <= TABLE_LAST && CheckEntry(entries, table, count, fe).Ok?
    ensures i < |entries| && Named(table, fe, entries[i])
  {
    hide WireDecode;
    var e := Lookup(entries, WireId(table, fe.offset)).value;
    i :| 0 <= i < |entries| && entries[i] == e;
  }

  lemma TookNothing(entries: seq<Entry>, storage: map<uint16, Cell>)
    requires StorageOk(entries, storage)
    ensures Took(entries, storage, storage, [])
  {
  }

  /** `examine`: the size limits of `read_image`, the header, then the entries. */
  method Examine(entries: seq<Entry>, file: Result<seq<byte>>) returns (result: Status, report: Report, plan: seq<Assignment>)
    requires Registered(entries)
    ensures result.Success? <==> file.Ok? && Loadable(entries, file.value)
    ensures result.Success? ==> plan == Plan(entries, file.value) && plan != []
    ensures file.Ok? && |file.value| < HEADER_SIZE ==> result == Failure(EBADMSG)
    ensures file.Ok? && |file.value| > MaxBytes() ==> result == Failure(EFBIG)
    ensures file.Err? ==> result == Failure(file.error)
    ensures file.Ok? && HEADER_SIZE <= |file.value| <= MaxBytes() ==>
              result == if ReadHeader(file.value).Err? then Failure(ReadHeader(file.value).error)
                        else if Loadable(entries, file.value) then Success else Failure(EBADMSG)
    ensures result.Success? ==> report.accepted == |Contents(file.value).value.1|
    ensures file.Ok? && HEADER_SIZE <= |file.value| <= MaxBytes() && Contents(file.value).Some? && result.Failure?
            && report.accepted < |Contents(file.value).value.1| ==>
              var (table, es) := Contents(file.value).value;
              report.reason.Failure? && Reason(entries, table, |es|, Offsets(es[..report.accepted]), es[report.accepted], report.reason.error)
  {
    hide Acceptable, ParseFrom, ReadHeader, Registered, MaxBytes, Reason;
    report := Report(0, 0, 0, Success);
    AtLeastHeader();
    if file.Err? {
      return Failure(file.error), report.(reason := Failure(file.error)), [];
    }
    var image := file.value;
    if |image| < HEADER_SIZE {
      return Failure(EBADMSG), report.(reason := Failure(EBADMSG)), [];
    }
    if |image| > MaxBytes() {
      return Failure(EFBIG), report.(reason := Failure(EFBIG)), [];
    }
    var header := ReadHeader(image);
    if header.Err? {
      return Failure(header.error), report.(reason := Failure(header.error)), [];
    }
    ParseLength(image, HEADER_SIZE, header.value.count);
    result, report, plan := CheckEntries(entries, image, header.value.count, header.value.table);
  }

  lemma AtLeastHeader()
    ensures MaxBytes() >= HEADER_SIZE
  {
  }

  /** What every parameter of the plan reads is a value it would accept. */
  ghost predicate UndoAccepted(entries: seq<Entry>, storage: map<uint16, Cell>, plan: seq<Assignment>) {
    Registered(entries) && StorageOk(entries, storage) && PlanOk(entries, plan)
    && forall k :: 0 <= k < |plan| ==> Validate(plan[k].entry, UndoOne(entries, storage, plan, k).value).Success?
  }

  lemma SavedIsUndo(entries: seq<Entry>, storage: map<uint16, Cell>, plan: seq<Assignment>, saved: seq<Saved>)
    requires Registered(entries) && StorageOk(entries, storage) && PlanOk(entries, plan) && SavedKnown(entries, saved)
    requires SavedPlan(entries, saved) == Undo(entries, storage, plan)
    ensures SavedAccepted(entries, saved) <==> UndoAccepted(entries, storage, plan)
    ensures |saved| == |plan| && (Refusable(SavedPlan(entries, saved)) <==> Refusable(plan))
  {
    hide Validate, Formed, StorageOk, Registered, PlanOk, Lookup, Read, CellOk;
    assert |saved| == |SavedPlan(entries, saved)| == |plan|;
    forall k | 0 <= k < |plan| ensures UndoOne(entries, storage, plan, k) == Assignment(Lookup(entries, saved[k].id).value, saved[k].value) && UndoOne(entries, storage, plan, k).entry == plan[k].entry {
      assert SavedPlan(entries, saved)[k] == Undo(entries, storage, plan)[k];
    }
  }

  /** A revert right after a load puts back what every parameter read before it. */
  method LoadThenRevert(t: Tables, file: Result<seq<byte>>, loadAnswer: Status, revertAnswer: Status) returns (loaded: Status, reverted: Status)
    requires t.Valid()
    modifies t
    ensures t.Valid()
    ensures loaded.Success? && reverted.Success? ==>
              forall i :: 0 <= i < |t.entries| ==> ReadsSame(old(t.storage), t.storage, t.entries[i])
    ensures loaded.Success? ==>
              file.Ok? && Loadable(t.entries, file.value)
              && (reverted.Success? <==> UndoAccepted(t.entries, old(t.storage), Plan(t.entries, file.value))
                                         && (Refusable(Plan(t.entries, file.value)) ==> revertAnswer.Success?))
    ensures loaded.Failure? ==> reverted == Failure(ENOENT) && t.storage == old(t.storage) && t.saved == old(t.saved)
  {
    hide Took, Validate, Formed, Read, EntryOk, CellOk, PlanOk, StorageOk, Registered, Loadable, Plan, SavedKnown, Undo, SavedPlan;
    var report;
    ghost var before := t.storage;
    loaded, report := t.Load(file, loadAnswer);
    if loaded.Failure? {
      return loaded, Failure(ENOENT);
    }
    ghost var plan, middle := Plan(t.entries, file.value), t.storage;
    SavedIsUndo(t.entries, before, plan, t.saved);
    reverted := t.Revert(revertAnswer);
    if reverted.Success? {
      UndoRestores(t.entries, before, middle, t.storage, plan);
    }
  }

  ghost predicate ReadsSame(before: map<uint16, Cell>, after: map<uint16, Cell>, e: Entry) {
    e.id in before && e.id in after && CellOk(e, before[e.id]) && CellOk(e, after[e.id])
    && Read(e, after[e.id]) == Read(e, before[e.id])
  }

  // ----- dumping -----

  /** Whether a dump of the table carries this parameter. */
  predicate Dumped(e: Entry, table: byte) {
    e.table == table && !e.readOnly && WireTypeOf(e).Some?
  }

  /** The file entry of a parameter's current value. */
  function DumpEntry(e: Entry, c: Cell): (fe: FileEntry)
    requires EntryOk(e) && CellOk(e, c) && WireTypeOf(e).Some?
    ensures Sized(fe)
  {
    ReadFormed(e, c);
    FileEntry(e.offset, WireTypeOf(e).value.code, WireBytes(Read(e, c)))
  }

  /** `kfsw_param_wire_encode` into a buffer with so much room left. */
  function Encode(e: Entry, c: Cell, room: int): (r: Result<seq<byte>>)
    requires EntryOk(e) && CellOk(e, c) && WireTypeOf(e).Some?
  {
    var value := DumpEntry(e, c).value;
    if room < |value| then Err(ENOSPC) else Ok(value)
  }

  /** The dumped parameters among the first `n`, in registry order. */
  function DumpList(entries: seq<Entry>, table: byte, n: nat): (es: seq<Entry>)
    requires n <= |entries|
  {
    if n == 0 then [] else
    DumpList(entries, table, n - 1) + if Dumped(entries[n - 1], table) then [entries[n - 1]] else []
  }

  lemma {:induction false} DumpListMembers(entries: seq<Entry>, table: byte, n: nat, k: nat)
    requires n <= |entries| && k < |DumpList(entries, table, n)|
    ensures Dumped(DumpList(entries, table, n)[k], table)
    ensures exists i :: 0 <= i < n && entries[i] == DumpList(entries, table, n)[k]
  {
    hide Dumped;
    if k < |DumpList(entries, table, n - 1)| {
      DumpListMembers(entries, table, n - 1, k);
    }
  }

  /** A dump carries exactly the parameters of the table that a load may write and a file can carry. */
  lemma {:induction false} DumpListIff(entries: seq<Entry>, table: byte, n: nat, i: nat)
    requires n <= |entries| && i < n && Sorted(entries)
    ensures entries[i] in DumpList(entries, table, n) <==>
            entries[i].table == table && !entries[i].readOnly && entries[i].kind !in {I8, U64, I64, X64, DOUBLE, INVALID}
  {
    WireCodes(entries[i], entries[i]);
    hide WireTypeOf;
    if i < n - 1 {
      DumpListIff(entries, table, n - 1, i);
      assert entries[i].id < entries[n - 1].id;
    } else if entries[i] in DumpList(entries, table, n - 1) {
      var k :| 0 <= k < |DumpList(entries, table, n - 1)| && DumpList(entries, table, n - 1)[k] == entries[i];
      DumpListMembers(entries, table, n - 1, k);
    }
  }

  /** No two dumped parameters share an offset. */
  lemma {:induction false} DumpListDistinct(entries: seq<Entry>, table: byte, n: nat, j: nat, k: nat)
    requires Registered(entries) && n <= |entries| && j < k < |DumpList(entries, table, n)|
    ensures DumpList(entries, table, n)[j].offset != DumpList(entries, table, n)[k].offset
  {
    hide WireTypeOf, EntryOk;
    if k < |DumpList(entries, table, n - 1)| {
      DumpListDistinct(entries, table, n - 1, j, k);
    } else {
      DumpListMembers(entries, table, n - 1, j);
      var i :| 0 <= i < n - 1 && entries[i] == DumpList(entries, table, n - 1)[j];
      assert entries[i].id < entries[n - 1].id && EntryOk(entries[i]) && EntryOk(entries[n - 1]);
      OffsetsDiffer(entries[i], entries[n - 1]);
    }
  }

  lemma OffsetsDiffer(e: Entry, f: Entry)
    requires EntryOk(e) && EntryOk(f) && e.table == f.table && e.id != f.id
    ensures e.offset != f.offset
  {
  }

  ghost predicate FileEntriesOf(entries: seq<Entry>, storage: map<uint16, Cell>, list: seq<Entry>, es: seq<FileEntry>) {
    |es| == |list| && forall k :: 0 <= k < |es| ==> IsDumpOf(storage, list[k], es[k])
  }

  ghost predicate IsDumpOf(storage: map<uint16, Cell>, e: Entry, fe: FileEntry) {
    EntryOk(e) && e.id in storage && CellOk(e, storage[e.id]) && WireTypeOf(e).Some? && fe == DumpEntry(e, storage[e.id])
  }

  /** Every dumped value passes its own parameter's check, and one that may be refused is dumped alone. */
  ghost predicate Reloadable(storage: map<uint16, Cell>, list: seq<Entry>) {
    forall k :: 0 <= k < |list| ==>
      list[k].id in storage && CellOk(list[k], storage[list[k].id])
      && Validate(list[k], Read(list[k], storage[list[k].id])).Success? && (list[k].fallible ==> |list| == 1)
  }

  /** One dumped value is taken back exactly when its parameter accepts it; the value is then the one read. */
  lemma DumpEntryChecks(entries: seq<Entry>, storage: map<uint16, Cell>, table: byte, count: nat, i: nat)
    requires Registered(entries) && StorageOk(entries, storage) && i < |entries| && Dumped(entries[i], table) && TABLE_FIRST <= table <= TABLE_LAST
    ensures EntryOk(entries[i]) && CellOk(entries[i], storage[entries[i].id])
    ensures var e, c := entries[i], storage[entries[i].id];
            CheckEntry(entries, table, count, DumpEntry(e, c)).Ok? <==> Validate(e, Read(e, c)).Success? && (e.fallible ==> count == 1)
    ensures var e, c := entries[i], storage[entries[i].id];
            var r := CheckEntry(entries, table, count, DumpEntry(e, c));
            r.Ok? ==> r.value == Assignment(e, Read(e, c))
  {
    hide Validate, WireTypeOf, WireDecode, Read, CellOk, Formed, WireBytes;
    var e := entries[i];
    EntryStored(entries, storage, e);
    var c := storage[e.id];
    ReadFormed(e, c);
    LookupUnique(entries, i);
    var fe := DumpEntry(e, c);
    DecodeIff(e, fe.code, fe.value, Read(e, c));
    if WireDecode(e, fe.code, fe.value).Ok? {
      OnlyItsOwn(e, c, fe.code, fe.value);
    }
  }

  lemma OnlyItsOwn(e: Entry, c: Cell, code: byte, value: seq<byte>)
    requires EntryOk(e) && CellOk(e, c) && WireTypeOf(e).Some? && DumpEntry(e, c).value == value && WireDecode(e, code, value).Ok?
    ensures WireDecode(e, code, value).value == Read(e, c)
  {
    hide Validate;
    ReadFormed(e, c);
    DecodeIff(e, code, value, WireDecode(e, code, value).value);
    SameBytes(e.kind, WireDecode(e, code, value).value, Read(e, c));
  }

  /** A value of a known type is determined by its bytes. */
  lemma SameBytes(t: Type, v: Value, w: Value)
    requires TypeMatches(t, v) && TypeMatches(t, w) && Formed(v) && Formed(w) && (v.Scalar? ==> ScalarSize(v.kind) in {1, 2, 4})
    requires WireBytes(v) == WireBytes(w)
    ensures v == w
  {
    if v.Scalar? {
      hide Put16, Put32, Get16, Get32;
      if ScalarSize(v.kind) == 2 {
        assert Get16(Put16(v.bits)) == Get16(Put16(w.bits));
      } else if ScalarSize(v.kind) == 4 {
        assert Get32(Put32(v.bits)) == Get32(Put32(w.bits));
      }
    }
  }

  /** A dumped file is acceptable exactly when its values are reloadable, and then asks for exactly the
      values the parameters had. */
  lemma DumpAcceptable(entries: seq<Entry>, storage: map<uint16, Cell>, table: byte, es: seq<FileEntry>)
    requires Registered(entries) && StorageOk(entries, storage) && TABLE_FIRST <= table <= TABLE_LAST
    requires FileEntriesOf(entries, storage, DumpList(entries, table, |entries|), es)
    ensures Acceptable(entries, table, es) <==> Reloadable(storage, DumpList(entries, table, |entries|))
    ensures Acceptable(entries, table, es) ==>
              forall k :: 0 <= k < |es| ==> PlanOf(entries, table, es)[k].entry == DumpList(entries, table, |entries|)[k]
                                            && Reads(storage, PlanOf(entries, table, es)[k].entry, PlanOf(entries, table, es)[k].value)
  {
    hide Validate, WireTypeOf, WireDecode, Read, CellOk, EntryOk, CheckEntry, DumpEntry, DumpList, Registered, StorageOk, Dumped;
    var list := DumpList(entries, table, |entries|);
    assert Distinct(es) by {
      forall j, k | 0 <= j < k < |es| ensures es[j].offset != es[k].offset {
        DumpListDistinct(entries, table, |entries|, j, k);
        DumpOffset(storage, list[j], es[j]);
        DumpOffset(storage, list[k], es[k]);
      }
    }
    forall k | 0 <= k < |es|
      ensures CellOk(list[k], storage[list[k].id])
      ensures CheckEntry(entries, table, |es|, es[k]).Ok? <==>
              Validate(list[k], Read(list[k], storage[list[k].id])).Success? && (list[k].fallible ==> |list| == 1)
      ensures var r := CheckEntry(entries, table, |es|, es[k]);
              r.Ok? ==> r.value == Assignment(list[k], Read(list[k], storage[list[k].id]))
    {
      assert IsDumpOf(storage, list[k], es[k]);
      DumpListMembers(entries, table, |entries|, k);
      var i :| 0 <= i < |entries| && entries[i] == list[k];
      DumpEntryChecks(entries, storage, table, |es|, i);
    }
  }

  lemma DumpOffset(storage: map<uint16, Cell>, e: Entry, fe: FileEntry)
    requires IsDumpOf(storage, e, fe)
    ensures fe.offset == e.offset
  {
  }

  /** A dump that is loaded back changes what no parameter reads, and is taken exactly when its values are
      reloadable and the one parameter that may refuse does not. */
  method DumpThenLoad(t: Tables, table: byte, answer: Status) returns (dumped: Result<seq<byte>>, loaded: Status)
    requires t.Valid()
    modifies t
    ensures t.Valid()
    ensures dumped.Err? ==> t.storage == old(t.storage)
    ensures dumped.Ok? ==>
              (loaded.Success? <==>
                 Reloadable(old(t.storage), DumpList(t.entries, table, |t.entries|))
                 && (RefusableList(DumpList(t.entries, table, |t.entries|)) ==> answer.Success?))
    ensures forall i :: 0 <= i < |t.entries| ==> ReadsSame(old(t.storage), t.storage, t.entries[i])
  {
    hide Took, Read, EntryOk, CellOk, PlanOk, StorageOk, Registered, Acceptable, SavedKnown, DumpList,
         FileBytes, ParseFrom, ReadHeader, FileEntriesOf, Reloadable, Canonical, Contents;
    ghost var es;
    ghost var before := t.storage;
    SameReads(t.entries, before);
    dumped, es := t.Dump(table);
    if dumped.Err? {
      return dumped, Failure(dumped.error);
    }
    ghost var list := DumpList(t.entries, table, |t.entries|);
    FileRoundTrip(table, es);
    DumpAcceptable(t.entries, before, table, es);
    ListLength(t.entries, before, list, es);
    var report;
    loaded, report := t.Load(dumped, answer);
    if loaded.Success? {
      IdentityPlan(t.entries, before, t.storage, Plan(t.entries, dumped.value));
    }
  }

  predicate RefusableList(list: seq<Entry>) {
    |list| == 1 && list[0].fallible
  }

  lemma ListLength(entries: seq<Entry>, storage: map<uint16, Cell>, list: seq<Entry>, es: seq<FileEntry>)
    requires FileEntriesOf(entries, storage, list, es)
    ensures |es| == |list|
  {
  }

  lemma SameReads(entries: seq<Entry>, storage: map<uint16, Cell>)
    requires StorageOk(entries, storage)
    ensures forall i :: 0 <= i < |entries| ==> ReadsSame(storage, storage, entries[i])
  {
    hide Read, CellOk;
  }

  /** Storing what is already read changes no reading. */
  lemma IdentityPlan(entries: seq<Entry>, before: map<uint16, Cell>, after: map<uint16, Cell>, plan: seq<Assignment>)
    requires Registered(entries) && StorageOk(entries, before) && PlanOk(entries, plan) && Took(entries, before, after, plan)
    requires forall k :: 0 <= k < |plan| ==> Reads(before, plan[k].entry, plan[k].value)
    ensures forall i :: 0 <= i < |entries| ==> ReadsSame(before, after, entries[i])
  {
    hide Read, CellOk, Validate, Formed, EntryOk, Canonical;
    forall i | 0 <= i < |entries| ensures ReadsSame(before, after, entries[i]) {
      EntryStored(entries, before, entries[i]);
      EntryStored(entries, after, entries[i]);
      if k :| 0 <= k < |plan| && plan[k].entry.id == entries[i].id {
        assert Storable(entries, plan[k]);
        EntryById(entries, plan[k].entry, entries[i]);
        ReadFormed(entries[i], before[entries[i].id]);
      }
    }
  }
}
