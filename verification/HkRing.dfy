/** Housekeeping sizes, within the ranges their Kconfig entries allow. */
module HkConfig {
  type ReportLimit = n: nat | 1 <= n <= 16 witness 1
  type HistoryLimit = n: nat | 1 <= n <= 256 witness 1
  type StoreLimit = n: nat | 8 <= n <= 8192 witness 8
  type EntriesLimit = n: nat | 1 <= n <= 64 witness 1
  type SampleLimit = n: nat | 32 <= n <= 240 witness 32

  const REPORTS: ReportLimit
  const HISTORY: HistoryLimit
  const STORE_CAPACITY: StoreLimit
  const ENTRIES: EntriesLimit
  const SAMPLE_BYTES: SampleLimit
}

/** Housekeeping samples in RAM, src/hk/hk.c and src/hk/hk_selection.c: a ring per report, and the
    merged newest-first view across the reports of the selected classes. */
module HkRing {
  import opened Bytes
  import opened Errors
  import opened HkConfig
  import Arith
  import Sets

  const CLASS_MAX := 7

  /** `sequence` is the one inside the frame. */
  datatype Sample = Sample(sequence: uint16, data: seq<byte>)

  datatype Report = Report(
    defined: bool, retrievalClass: nat, held: nat, nextSlot: nat, sequence: uint16,
    ring: seq<Sample>, order: seq<nat>)

  const EMPTY_SAMPLE := Sample(0, [])
  const EMPTY_REPORT := Report(false, 0, 0, 0, 0, seq(HISTORY, _ => EMPTY_SAMPLE), seq(HISTORY, _ => 0))

  /** The newest sample is one slot before `nextSlot`; age counts backwards. */
  function SlotOfAge(r: Report, age: nat): int {
    (r.nextSlot + HISTORY - 1 - age) % HISTORY
  }

  ghost predicate Shaped(r: Report) {
    |r.ring| == HISTORY && |r.order| == HISTORY && r.held <= HISTORY && r.nextSlot < HISTORY && r.retrievalClass <= CLASS_MAX
  }

  /** Collection order of the sample of an age. */
  ghost function OrderOf(r: Report, age: nat): nat
    requires Shaped(r) && age < HISTORY
  {
    r.order[SlotOfAge(r, age)]
  }

  /** Within a ring, younger means collected later; every order is one the counter has passed. */
  ghost predicate Ordered(r: Report, counter: nat) {
    Shaped(r)
    && (forall a :: 0 <= a < r.held ==> 0 < OrderOf(r, a) <= counter)
    && (forall a, b :: 0 <= a < b < r.held ==> OrderOf(r, a) > OrderOf(r, b))
  }

  /** Two reports never hold the same order. */
  ghost predicate Apart(r: Report, s: Report) {
    Shaped(r) && Shaped(s) && forall a, b :: 0 <= a < r.held && 0 <= b < s.held ==> OrderOf(r, a) != OrderOf(s, b)
  }

  ghost predicate RingsInv(reports: seq<Report>, counter: nat) {
    && |reports| == REPORTS
    && (forall i :: 0 <= i < |reports| ==> Ordered(reports[i], counter))
    && (forall i, j :: 0 <= i < j < |reports| ==> Apart(reports[i], reports[j]))
  }

  // ----- collecting -----

  /** The ring update of `kfsw_hk_collect`. */
  function Pushed(r: Report, sample: Sample, order: nat): Report
    requires r.nextSlot < |r.ring| == |r.order|
  {
    r.(held := if r.held == HISTORY then HISTORY else r.held + 1,
       ring := r.ring[r.nextSlot := sample], order := r.order[r.nextSlot := order],
       nextSlot := (r.nextSlot + 1) % HISTORY, sequence := (r.sequence + 1) % 0x1_0000)
  }

  /** A push makes every held sample one older and keeps its slot. */
  lemma PushedSlots(r: Report, sample: Sample, order: nat, age: nat)
    requires Shaped(r) && age < HISTORY
    ensures Shaped(Pushed(r, sample, order))
    ensures age == 0 ==> SlotOfAge(Pushed(r, sample, order), age) == r.nextSlot
    ensures age > 0 ==> SlotOfAge(Pushed(r, sample, order), age) == SlotOfAge(r, age - 1) != r.nextSlot
  {
    var next := (r.nextSlot + 1) % HISTORY;
    Arith.ModStep(r.nextSlot, HISTORY);
    Arith.DivModUnique(r.nextSlot, HISTORY, 0, r.nextSlot);
    if age == 0 {
      SlotValue(next, 0);
    } else {
      SlotValue(next, age);
      SlotValue(r.nextSlot, age - 1);
    }
  }

  /** The slot of an age without the modulus. */
  lemma SlotValue(next: nat, age: nat)
    requires next < HISTORY && age < HISTORY
    ensures (next + HISTORY - 1 - age) % HISTORY == if age < next then next - 1 - age else next + HISTORY - 1 - age
  {
    if age < next {
      Arith.DivModUnique(next + HISTORY - 1 - age, HISTORY, 1, next - 1 - age);
    } else {
      Arith.DivModUnique(next + HISTORY - 1 - age, HISTORY, 0, next + HISTORY - 1 - age);
    }
  }

  lemma PushedOrders(r: Report, sample: Sample, order: nat, age: nat)
    requires Shaped(r) && age < HISTORY
    ensures var p := Pushed(r, sample, order);
            Shaped(p) && OrderOf(p, age) == (if age == 0 then order else OrderOf(r, age - 1))
            && p.ring[SlotOfAge(p, age)] == (if age == 0 then sample else r.ring[SlotOfAge(r, age - 1)])
  {
    PushedSlots(r, sample, order, age);
  }

  lemma PushKeepsOrdered(r: Report, sample: Sample, counter: nat)
    requires Ordered(r, counter)
    ensures Ordered(Pushed(r, sample, counter + 1), counter + 1)
  {
    var p := Pushed(r, sample, counter + 1);
    forall a | 0 <= a < HISTORY
      ensures Shaped(p) && OrderOf(p, a) == if a == 0 then counter + 1 else OrderOf(r, a - 1)
    {
      PushedOrders(r, sample, counter + 1, a);
    }
  }

  lemma PushKeepsApart(r: Report, sample: Sample, counter: nat, s: Report)
    requires Ordered(r, counter) && Ordered(s, counter) && Apart(r, s)
    ensures Apart(Pushed(r, sample, counter + 1), s) && Apart(s, Pushed(r, sample, counter + 1))
  {
    var p := Pushed(r, sample, counter + 1);
    forall a | 0 <= a < HISTORY
      ensures Shaped(p) && OrderOf(p, a) == if a == 0 then counter + 1 else OrderOf(r, a - 1)
    {
      PushedOrders(r, sample, counter + 1, a);
    }
  }

  lemma EmptyOrdered(r: Report, counter: nat, s: Report)
    requires Shaped(r) && r.held == 0 && Shaped(s)
    ensures Ordered(r, counter) && Apart(r, s) && Apart(s, r)
  {
  }

  /** Replacing one report keeps the invariant when the new one is in order and apart from the rest. */
  lemma ReplaceReport(reports: seq<Report>, counter: nat, i: nat, r: Report, counter': nat)
    requires RingsInv(reports, counter) && i < |reports| && counter <= counter' && Ordered(r, counter')
    requires forall j :: 0 <= j < |reports| && j != i ==> Apart(r, reports[j]) && Apart(reports[j], r)
    ensures RingsInv(reports[i := r], counter')
  {
  }

  // ----- what is selected, and in which order -----

  /** One held sample: its report and its age there. */
  datatype Item = Item(report: int, age: int)

  predicate InMask(mask: bv8, cls: nat)
    requires cls <= CLASS_MAX
  {
    (mask >> cls) & 1 != 0
  }

  /** Bit `c` of a mask selects class `c` and no other, and a mask selects what its parts select. */
  lemma MaskBits(a: bv8, b: bv8, c: nat, cls: nat)
    requires c <= CLASS_MAX && cls <= CLASS_MAX
    ensures InMask((1 as bv8) << c, cls) <==> cls == c
    ensures !InMask(0, cls) && InMask(0xFF, cls)
    ensures InMask(a | b, cls) <==> InMask(a, cls) || InMask(b, cls)
  {
    assert cls == 0 || cls == 1 || cls == 2 || cls == 3 || cls == 4 || cls == 5 || cls == 6 || cls == 7;
    assert c == 0 || c == 1 || c == 2 || c == 3 || c == 4 || c == 5 || c == 6 || c == 7;
  }

  predicate OfClass(r: Report, cls: nat) {
    r.defined && r.retrievalClass == cls
  }

  ghost predicate IsItem(reports: seq<Report>, x: Item) {
    0 <= x.report < |reports| && Shaped(reports[x.report]) && reports[x.report].defined && 0 <= x.age < reports[x.report].held
  }

  ghost function ClassOf(reports: seq<Report>, x: Item): nat
    requires IsItem(reports, x)
  {
    reports[x.report].retrievalClass
  }

  ghost function ItemOrder(reports: seq<Report>, x: Item): nat
    requires IsItem(reports, x)
  {
    OrderOf(reports[x.report], x.age)
  }

  /** All held samples of defined reports in selected classes. */
  ghost function Selected(reports: seq<Report>, mask: bv8): (s: set<Item>)
    ensures forall x :: x in s <==> IsItem(reports, x) && InMask(mask, ClassOf(reports, x))
  {
    set i, a | 0 <= i < |reports| && 0 <= a < reports[i].held && IsItem(reports, Item(i, a)) && InMask(mask, reports[i].retrievalClass) :: Item(i, a)
  }

  /** Class ascending, then collection order descending. */
  ghost predicate Before(reports: seq<Report>, x: Item, y: Item) {
    IsItem(reports, x) && IsItem(reports, y)
    && (ClassOf(reports, x) < ClassOf(reports, y)
        || (ClassOf(reports, x) == ClassOf(reports, y) && ItemOrder(reports, x) > ItemOrder(reports, y)))
  }

  ghost function Preceding(reports: seq<Report>, mask: bv8, x: Item): (s: set<Item>)
  {
    set y | y in Selected(reports, mask) && Before(reports, y, x)
  }

  /** `x` is number `index` of the selected samples in that order. */
  ghost predicate IsAt(reports: seq<Report>, mask: bv8, index: nat, x: Item) {
    x in Selected(reports, mask) && |Preceding(reports, mask, x)| == index
  }

  /** The order is total, so an index names at most one sample, and only indices in range do. */
  lemma IndexUnique(reports: seq<Report>, counter: nat, mask: bv8, index: nat, x: Item, y: Item)
    requires RingsInv(reports, counter) && IsAt(reports, mask, index, x) && IsAt(reports, mask, index, y)
    ensures x == y && index < |Selected(reports, mask)|
  {
    if x != y {
      ItemsComparable(reports, counter, x, y);
      if Before(reports, x, y) {
        PrecedingGrows(reports, counter, mask, x, y);
      } else {
        PrecedingGrows(reports, counter, mask, y, x);
      }
    }
    var p := Preceding(reports, mask, x);
    assert x !in p;
    Sets.SubsetSize(p + {x}, Selected(reports, mask));
  }

  /** The list an index counts along: every held sample of a selected class of a defined report, classes
      upwards, and within a class the later collected first. */
  lemma IndexMeans(reports: seq<Report>, counter: nat, mask: bv8, i: nat, j: nat, x: Item, y: Item)
    requires RingsInv(reports, counter) && IsAt(reports, mask, i, x) && IsAt(reports, mask, j, y) && i < j
    ensures 0 <= x.report < |reports| && 0 <= x.age < reports[x.report].held && reports[x.report].defined
            && 0 <= y.report < |reports| && 0 <= y.age < reports[y.report].held && reports[y.report].defined
    ensures reports[x.report].retrievalClass <= CLASS_MAX && InMask(mask, reports[x.report].retrievalClass)
    ensures reports[x.report].retrievalClass < reports[y.report].retrievalClass
            || (reports[x.report].retrievalClass == reports[y.report].retrievalClass
                && reports[x.report].order[SlotOfAge(reports[x.report], x.age)] > reports[y.report].order[SlotOfAge(reports[y.report], y.age)])
  {
    hide InMask;
    ItemsComparable(reports, counter, x, y);
    if Before(reports, y, x) {
      PrecedingGrows(reports, counter, mask, y, x);
    }
  }

  lemma ItemsComparable(reports: seq<Report>, counter: nat, x: Item, y: Item)
    requires RingsInv(reports, counter) && IsItem(reports, x) && IsItem(reports, y) && x != y
    ensures Before(reports, x, y) || Before(reports, y, x)
  {
    if x.report != y.report {
      var i, j := if x.report < y.report then x.report else y.report, if x.report < y.report then y.report else x.report;
      assert Apart(reports[i], reports[j]);
    } else {
      var r := reports[x.report];
      assert Ordered(r, counter);
      assert x.age < y.age ==> OrderOf(r, x.age) > OrderOf(r, y.age);
      assert y.age < x.age ==> OrderOf(r, y.age) > OrderOf(r, x.age);
    }
  }

  lemma PrecedingGrows(reports: seq<Report>, counter: nat, mask: bv8, x: Item, y: Item)
    requires x in Selected(reports, mask) && Before(reports, x, y)
    ensures |Preceding(reports, mask, x)| < |Preceding(reports, mask, y)|
  {
    var p := Preceding(reports, mask, x);
    assert x !in p;
    Sets.SubsetSize(p + {x}, Preceding(reports, mask, y));
  }
}
