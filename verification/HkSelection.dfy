/** The merge behind a selective read, src/hk/hk_selection.c, over the report rings of src/hk/hk.c. */
module HkSelection {
  import opened Bytes
  import opened Errors
  import opened HkConfig
  import opened HkRing
  import Sets

  // ----- one class -----

  /** The held samples of class `cls` in the first `n` reports. */
  ghost function ClassItems(reports: seq<Report>, cls: nat, n: nat): (s: set<Item>)
    ensures forall x :: x in s <==> IsItem(reports, x) && x.report < n && ClassOf(reports, x) == cls
  {
    set i, a | 0 <= i < |reports| && i < n && 0 <= a < reports[i].held && IsItem(reports, Item(i, a)) && reports[i].retrievalClass == cls :: Item(i, a)
  }

  ghost function Column(i: int, n: nat): (s: set<Item>)
    ensures forall x :: x in s <==> x.report == i && 0 <= x.age < n
    ensures |s| == n
  {
    if n == 0 then {} else Column(i, n - 1) + {Item(i, n - 1)}
  }

  /** `available` adds the depth of each report of the class. */
  lemma ClassItemsStep(reports: seq<Report>, cls: nat, n: nat)
    requires n < |reports| && Shaped(reports[n])
    ensures |ClassItems(reports, cls, n + 1)|
         == |ClassItems(reports, cls, n)| + if OfClass(reports[n], cls) then reports[n].held else 0
  {
    if OfClass(reports[n], cls) {
      assert ClassItems(reports, cls, n + 1) == ClassItems(reports, cls, n) + Column(n, reports[n].held);
    } else {
      assert ClassItems(reports, cls, n + 1) == ClassItems(reports, cls, n);
    }
  }

  /** Selected samples of the classes below `cls`. */
  ghost function Lower(reports: seq<Report>, mask: bv8, cls: nat): set<Item> {
    set x | x in Selected(reports, mask) && ClassOf(reports, x) < cls
  }

  lemma LowerStep(reports: seq<Report>, mask: bv8, cls: nat)
    requires cls <= CLASS_MAX
    ensures |Lower(reports, mask, cls + 1)|
         == |Lower(reports, mask, cls)| + if InMask(mask, cls) then |ClassItems(reports, cls, |reports|)| else 0
  {
    var items := ClassItems(reports, cls, |reports|);
    if InMask(mask, cls) {
      assert Lower(reports, mask, cls + 1) == Lower(reports, mask, cls) + items;
      assert Lower(reports, mask, cls) !! items;
    } else {
      assert Lower(reports, mask, cls + 1) == Lower(reports, mask, cls);
    }
  }

  lemma LowerAll(reports: seq<Report>, mask: bv8)
    requires forall i :: 0 <= i < |reports| ==> Shaped(reports[i])
    ensures Lower(reports, mask, CLASS_MAX + 1) == Selected(reports, mask) && Lower(reports, mask, 0) == {}
  {
  }

  // ----- the merge inside a class -----

  /** The samples a merge has passed: the youngest `ages[i]` of each report of the class. */
  ghost function Taken(reports: seq<Report>, cls: nat, ages: seq<nat>): (s: set<Item>)
    requires |ages| == |reports|
    ensures forall x :: x in s <==> x in ClassItems(reports, cls, |reports|) && x.age < ages[x.report]
  {
    set x | x in ClassItems(reports, cls, |reports|) && x.age < ages[x.report]
  }

  /** After `position` steps exactly the `position` newest samples of the class are passed. */
  ghost predicate Merged(reports: seq<Report>, cls: nat, ages: seq<nat>, position: nat) {
    && |ages| == |reports| && |Taken(reports, cls, ages)| == position
    && (forall x, y :: x in Taken(reports, cls, ages) && y in ClassItems(reports, cls, |reports|) && y !in Taken(reports, cls, ages) ==>
          ItemOrder(reports, x) > ItemOrder(reports, y))
  }

  /** The head of report `i`: its youngest sample not passed yet. */
  ghost predicate IsHead(reports: seq<Report>, cls: nat, ages: seq<nat>, i: nat) {
    i < |reports| == |ages| && Shaped(reports[i]) && OfClass(reports[i], cls) && ages[i] < reports[i].held
  }

  /** `chosen` is the newest head among the first `n` reports. */
  ghost predicate NewestHead(reports: seq<Report>, cls: nat, ages: seq<nat>, n: nat, chosen: nat) {
    && chosen < n && IsHead(reports, cls, ages, chosen)
    && forall i :: 0 <= i < n && IsHead(reports, cls, ages, i) ==>
         OrderOf(reports[i], ages[i]) <= OrderOf(reports[chosen], ages[chosen])
  }

  lemma HeadExists(reports: seq<Report>, cls: nat, ages: seq<nat>, position: nat) returns (i: nat)
    requires Merged(reports, cls, ages, position) && position < |ClassItems(reports, cls, |reports|)|
    ensures IsHead(reports, cls, ages, i)
  {
    var items := ClassItems(reports, cls, |reports|);
    var taken := Taken(reports, cls, ages);
    if items <= taken {
      Sets.SubsetSize(items, taken);
    }
    var x :| x in items && x !in taken;
    i := x.report;
  }

  /** The newest head is newer than every other sample not passed. */
  lemma ChosenIsNewest(reports: seq<Report>, counter: nat, cls: nat, ages: seq<nat>, chosen: nat, y: Item)
    requires RingsInv(reports, counter) && NewestHead(reports, cls, ages, |reports|, chosen)
    requires y in ClassItems(reports, cls, |reports|) && y.age >= ages[y.report] && y != Item(chosen, ages[chosen])
    ensures OrderOf(reports[chosen], ages[chosen]) > ItemOrder(reports, y)
  {
    var i := y.report;
    assert IsHead(reports, cls, ages, i);
    assert Ordered(reports[i], counter);
    if y.age > ages[i] {
      assert OrderOf(reports[i], ages[i]) > OrderOf(reports[i], y.age);
    } else if i != chosen {
      var j, k := if i < chosen then i else chosen, if i < chosen then chosen else i;
      assert Apart(reports[j], reports[k]);
    }
  }

  lemma MergeStep(reports: seq<Report>, counter: nat, cls: nat, ages: seq<nat>, position: nat, chosen: nat)
    requires RingsInv(reports, counter) && Merged(reports, cls, ages, position)
    requires NewestHead(reports, cls, ages, |reports|, chosen)
    ensures Merged(reports, cls, ages[chosen := ages[chosen] + 1], position + 1)
  {
    var ages' := ages[chosen := ages[chosen] + 1];
    var c := Item(chosen, ages[chosen]);
    TakenGrows(reports, cls, ages, chosen);
    forall x, y | x in Taken(reports, cls, ages') && y in ClassItems(reports, cls, |reports|) && y !in Taken(reports, cls, ages')
      ensures ItemOrder(reports, x) > ItemOrder(reports, y)
    {
      hide RingsInv, OrderOf;
      assert y !in Taken(reports, cls, ages) && y != c;
      if x == c {
        ChosenIsNewest(reports, counter, cls, ages, chosen, y);
      } else {
        assert x in Taken(reports, cls, ages);
      }
    }
  }

  lemma TakenGrows(reports: seq<Report>, cls: nat, ages: seq<nat>, chosen: nat)
    requires IsHead(reports, cls, ages, chosen)
    ensures var c := Item(chosen, ages[chosen]);
            c !in Taken(reports, cls, ages) && c in ClassItems(reports, cls, |reports|)
            && Taken(reports, cls, ages[chosen := ages[chosen] + 1]) == Taken(reports, cls, ages) + {c}
  {
    hide OrderOf;
    var c := Item(chosen, ages[chosen]);
    assert IsItem(reports, c);
  }

  /** What precedes the chosen head: all lower classes, and what the merge has passed. */
  lemma ChosenIsAt(reports: seq<Report>, counter: nat, mask: bv8, cls: nat, ages: seq<nat>, position: nat, chosen: nat)
    requires RingsInv(reports, counter) && cls <= CLASS_MAX && InMask(mask, cls) && Merged(reports, cls, ages, position)
    requires NewestHead(reports, cls, ages, |reports|, chosen)
    ensures IsAt(reports, mask, |Lower(reports, mask, cls)| + position, Item(chosen, ages[chosen]))
  {
    var c := Item(chosen, ages[chosen]);
    var items := ClassItems(reports, cls, |reports|);
    var taken := Taken(reports, cls, ages);
    var lower := Lower(reports, mask, cls);
    assert c in items;
    forall y ensures y in Preceding(reports, mask, c) <==> y in lower + taken {
      if y in items && y !in taken && y != c {
        ChosenIsNewest(reports, counter, cls, ages, chosen, y);
      }
    }
    assert Preceding(reports, mask, c) == lower + taken;
    assert lower !! taken;
  }

  class Housekeeping {
    const reports: array<Report>
    var collectedOrder: nat
    var overwritten: nat
    var failures: nat

    ghost predicate Valid()
      reads this, reports
    {
      RingsInv(reports[..], collectedOrder)
    }

    constructor ()
      ensures Valid() && fresh(reports)
    {
      reports := new Report[REPORTS](_ => EMPTY_REPORT);
      collectedOrder, overwritten, failures := 0, 0, 0;
      new;
      assert forall i :: 0 <= i < |reports[..]| ==> reports[..][i] == EMPTY_REPORT;
      EmptyOrdered(EMPTY_REPORT, 0, EMPTY_REPORT);
    }

    /** `define_impl`: a new definition discards the old samples, an empty one clears the report. `prepared`
        is what checking the entries said. */
    method Define(i: nat, retrievalClass: nat, count: nat, prepared: Status) returns (result: Status)
      requires Valid()
      modifies reports
      ensures Valid()
      ensures result == if retrievalClass > CLASS_MAX then Failure(ERANGE) else if i >= reports.Length then Failure(EINVAL)
                        else if count == 0 then Success else if count > ENTRIES then Failure(E2BIG) else prepared
      ensures result.Success? ==> reports[..] == old(reports[..])[i := if count == 0 then EMPTY_REPORT else
                old(reports[i]).(defined := true, retrievalClass := retrievalClass, held := 0, nextSlot := 0)]
      ensures result.Failure? ==> reports[..] == old(reports[..])
    {
      if retrievalClass > CLASS_MAX {
        return Failure(ERANGE);
      }
      if i >= reports.Length {
        return Failure(EINVAL);
      }
      if count == 0 {
        result := Clear(i);
        return;
      }
      if count > ENTRIES {
        return Failure(E2BIG);
      }
      if prepared.Failure? {
        return prepared;
      }
      Replace(i, reports[i].(defined := true, retrievalClass := retrievalClass, held := 0, nextSlot := 0));
      result := Success;
    }

    /** `clear_impl`. */
    method Clear(i: nat) returns (result: Status)
      requires Valid()
      modifies reports
      ensures Valid()
      ensures result.Success? <==> i < reports.Length
      ensures reports[..] == if i < reports.Length then old(reports[..])[i := EMPTY_REPORT] else old(reports[..])
    {
      if i >= reports.Length {
        return Failure(EINVAL);
      }
      Replace(i, EMPTY_REPORT);
      result := Success;
    }

    method Replace(i: nat, r: Report)
      requires Valid() && i < reports.Length && Shaped(r) && r.held == 0
      modifies reports
      ensures Valid() && reports[..] == old(reports[..])[i := r]
    {
      ghost var before := reports[..];
      forall j | 0 <= j < |before| ensures Ordered(r, collectedOrder) && Apart(r, before[j]) && Apart(before[j], r) {
        assert Ordered(before[j], collectedOrder);
        EmptyOrdered(r, collectedOrder, before[j]);
      }
      ReplaceReport(before, collectedOrder, i, r, collectedOrder);
      reports[i] := r;
      assert reports[..] == before[i := r];
    }

    /** `kfsw_hk_collect`: a frame that was collected whole, and not overtaken by a redefinition, enters the
        ring; anything else leaves it. */
    method Collect(i: nat, collected: Result<seq<byte>>, overtaken: bool) returns (result: Status)
      requires Valid()
      modifies this`collectedOrder, this`overwritten, this`failures, reports
      ensures Valid()
      ensures result == if i >= reports.Length then Failure(EINVAL) else if !old(reports[i]).defined then Failure(ENOENT)
                        else if overtaken then Failure(EAGAIN) else if collected.Err? then Failure(collected.error) else Success
      ensures result.Success? ==>
                reports[..] == old(reports[..])[i := Pushed(old(reports[i]), Sample(old(reports[i]).sequence, collected.value), old(collectedOrder) + 1)]
      ensures result.Failure? ==> reports[..] == old(reports[..])
      ensures failures == old(failures) + if i < reports.Length && old(reports[i]).defined && result.Failure? then 1 else 0
      ensures overwritten == old(overwritten) + if result.Success? && old(reports[i]).held == HISTORY then 1 else 0
      ensures collectedOrder == old(collectedOrder) + if result.Success? then 1 else 0
    {
      if i >= reports.Length {
        return Failure(EINVAL);
      }
      ghost var before := reports[..];
      var r := reports[i];
      assert r == before[i] && Ordered(r, collectedOrder);
      if !r.defined {
        return Failure(ENOENT);
      }
      if overtaken || collected.Err? {
        failures := failures + 1;
        return Failure(if overtaken then EAGAIN else collected.error);
      }
      if r.held == HISTORY {
        overwritten := overwritten + 1;
      }
      var sample := Sample(r.sequence, collected.value);
      var p := Pushed(r, sample, collectedOrder + 1);
      PushKeepsOrdered(r, sample, collectedOrder);
      forall j | 0 <= j < |before| && j != i ensures Apart(p, before[j]) && Apart(before[j], p) {
        ApartBoth(before, collectedOrder, i, j);
        PushKeepsApart(r, sample, collectedOrder, before[j]);
      }
      ReplaceReport(before, collectedOrder, i, p, collectedOrder + 1);
      collectedOrder := collectedOrder + 1;
      reports[i] := p;
      assert reports[..] == before[i := p];
      result := Success;
    }

    /** `kfsw_hk_get`: the sample of an age. */
    method Get(i: nat, age: nat) returns (result: Result<Sample>)
      requires Valid()
      ensures i >= reports.Length ==> result == Err(EINVAL)
      ensures i < reports.Length ==>
                result == if age >= reports[i].held then Err(ENOENT) else Ok(reports[i].ring[SlotOfAge(reports[i], age)])
    {
      if i >= reports.Length {
        return Err(EINVAL);
      }
      assert reports[i] == reports[..][i] && Ordered(reports[i], collectedOrder);
      if age >= reports[i].held {
        return Err(ENOENT);
      }
      result := Ok(reports[i].ring[SlotOfAge(reports[i], age)]);
    }

    /** The youngest sample of class `cls` that the merge has not passed. */
    method NewestOf(cls: nat, ages: seq<nat>, ghost position: nat) returns (chosen: nat)
      requires Valid() && cls <= CLASS_MAX && Merged(reports[..], cls, ages, position)
      requires position < |ClassItems(reports[..], cls, |reports[..]|)|
      ensures NewestHead(reports[..], cls, ages, |reports[..]|, chosen)
    {
      hide ClassItems, Apart;
      ghost var view := reports[..];
      var newest := 0;
      chosen := 0;
      for i := 0 to reports.Length
        invariant newest == 0 ==> forall j :: 0 <= j < i ==> !IsHead(view, cls, ages, j)
        invariant newest > 0 ==> NewestHead(view, cls, ages, i, chosen) && newest == OrderOf(view[chosen], ages[chosen])
      {
        var r := reports[i];
        assert r == view[i] && Ordered(r, collectedOrder);
        if r.defined && r.retrievalClass == cls && ages[i] < r.held {
          assert IsHead(view, cls, ages, i) && 0 < OrderOf(r, ages[i]);
          var slot := SlotOfAge(r, ages[i]);
          if r.order[slot] > newest {
            newest, chosen := r.order[slot], i;
          }
        }
      }
      ghost var some := HeadExists(view, cls, ages, position);
    }

    /** `kfsw_hk_get_selected`: sample number `index` of the selected classes. */
    method GetSelected(mask: bv8, index: nat) returns (result: Result<Sample>, ghost at: Item)
      requires Valid()
      ensures result.Ok? <==> index < |Selected(reports[..], mask)|
      ensures result.Err? ==> result.error == ENOENT
      ensures result.Ok? ==> IsAt(reports[..], mask, index, at)
      ensures result.Ok? ==> result.value == reports[at.report].ring[SlotOfAge(reports[at.report], at.age)]
    {
      hide Selected, Lower, ClassItems, IsAt, InMask;
      ghost var view := reports[..];
      LowerAll(view, mask);
      at := Item(0, 0);
      var rest := index;
      var cls := 0;
      while cls <= CLASS_MAX
        invariant 0 <= cls <= CLASS_MAX + 1 && 0 <= rest && rest + |Lower(view, mask, cls)| == index
      {
        LowerStep(view, mask, cls);
        if InMask(mask, cls) {
          var available := Available(cls);
          if rest < available {
            var sample;
            sample, at := MergeTo(mask, cls, rest);
            LowerMonotone(view, mask, cls + 1);
            return Ok(sample), at;
          }
          rest := rest - available;
        }
        cls := cls + 1;
      }
      result := Err(ENOENT);
    }

    method Available(cls: nat) returns (available: nat)
      requires Valid()
      ensures available == |ClassItems(reports[..], cls, |reports[..]|)|
      ensures available < 0x1_0000
    {
      ghost var view := reports[..];
      available := 0;
      assert ClassItems(view, cls, 0) == {};
      for i := 0 to reports.Length
        invariant available == |ClassItems(view, cls, i)| && available <= i * 256
      {
        assert reports[i] == view[i] && Ordered(view[i], collectedOrder);
        ClassItemsStep(view, cls, i);
        if reports[i].defined && reports[i].retrievalClass == cls {
          available := available + reports[i].held;
        }
      }
    }

    /** The merge loop within a class. */
    method MergeTo(mask: bv8, cls: nat, index: nat) returns (sample: Sample, ghost at: Item)
      requires Valid() && cls <= CLASS_MAX && InMask(mask, cls) && index < |ClassItems(reports[..], cls, |reports[..]|)|
      ensures IsAt(reports[..], mask, |Lower(reports[..], mask, cls)| + index, at)
      ensures sample == reports[at.report].ring[SlotOfAge(reports[at.report], at.age)]
    {
      ghost var view := reports[..];
      var ages: seq<nat> := seq(reports.Length, _ => 0);
      assert Taken(view, cls, ages) == {};
      var position := 0;
      while position < index
        invariant position <= index && Merged(view, cls, ages, position)
      {
        var passed := NewestOf(cls, ages, position);
        MergeStep(view, collectedOrder, cls, ages, position, passed);
        ages := ages[passed := ages[passed] + 1];
        position := position + 1;
      }
      var chosen := NewestOf(cls, ages, position);
      ChosenIsAt(view, collectedOrder, mask, cls, ages, position, chosen);
      at := Item(chosen, ages[chosen]);
      assert reports[chosen] == view[chosen] && Shaped(view[chosen]);
      sample := reports[chosen].ring[SlotOfAge(reports[chosen], ages[chosen])];
    }
  }

  lemma LowerMonotone(reports: seq<Report>, mask: bv8, cls: nat)
    ensures |Lower(reports, mask, cls)| <= |Selected(reports, mask)|
  {
    Sets.SubsetSize(Lower(reports, mask, cls), Selected(reports, mask));
  }

  lemma ApartBoth(reports: seq<Report>, counter: nat, i: nat, j: nat)
    requires RingsInv(reports, counter) && i < |reports| && j < |reports| && i != j
    ensures Apart(reports[i], reports[j])
  {
    var lo, hi := if i < j then i else j, if i < j then j else i;
    assert Apart(reports[lo], reports[hi]);
  }
}
