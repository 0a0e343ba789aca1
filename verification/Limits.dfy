/** Limit rules, src/limits/limits.c: a dwell counter and a latch per rule decide when a crossing
    releases its action. The two fields are proved to carry exactly what the history of sweeps asks. */
module Limits {
  import opened Bytes
  import opened Errors
  import Arith
  import Sets
  import Schedule

  const MAX_RULES: Positive

  // ----- comparing a reading with its bound -----

  datatype Type = U8 | U16 | U32 | U64 | I8 | I16 | I32 | I64 | X8 | X16 | X32 | X64 | FLOAT | DOUBLE

  datatype Float = NaN | Number(value: real)

  datatype Wide = Unsigned(u: uint64) | Signed(i: int64) | Floating(f: Float)

  /** What the bits of a float stand for is left open. */
  const FLOAT_OF_BITS: uint32 -> Float
  const DOUBLE_OF_BITS: uint64 -> Float

  function Bits(t: Type): (n: nat) {
    match t
    case U8 | X8 | I8 => 8
    case U16 | X16 | I16 => 16
    case U32 | X32 | I32 | FLOAT => 32
    case U64 | X64 | I64 | DOUBLE => 64
  }

  function Modulus(t: Type): (m: Positive)
    ensures m <= 0x1_0000_0000_0000_0000
  {
    match Bits(t)
    case 8 => 0x100
    case 16 => 0x1_0000
    case 32 => 0x1_0000_0000
    case _ => 0x1_0000_0000_0000_0000
  }

  predicate SignedType(t: Type) {
    t in {I8, I16, I32, I64}
  }

  /** `widen`: the low bits of the scalar union, read as the parameter's type. */
  function Widen(t: Type, scalar: uint64): (w: Wide) {
    var low := scalar % Modulus(t);
    if t == FLOAT then Floating(FLOAT_OF_BITS(low))
    else if t == DOUBLE then Floating(DOUBLE_OF_BITS(low))
    else if SignedType(t) then Signed(if low < Modulus(t) / 2 then low else low - Modulus(t))
    else Unsigned(low)
  }

  datatype Ordering = Less | Equal | Greater | Unordered

  function Compare(a: real, b: real): Ordering {
    if a > b then Greater else if a < b then Less else Equal
  }

  /** `order`, of two values widened from one type. */
  function Order(t: Type, a: uint64, b: uint64): (o: Ordering) {
    match (Widen(t, a), Widen(t, b))
    case (Unsigned(x), Unsigned(y)) => Compare(x as real, y as real)
    case (Signed(x), Signed(y)) => Compare(x as real, y as real)
    case (Floating(Number(x)), Floating(Number(y))) => Compare(x, y)
    case _ => Unordered
  }

  datatype Cmp = GT | GE | LT | LE | EQ | NE

  function Holds(cmp: Cmp, o: Ordering): bool {
    o != Unordered &&
    match cmp
    case GT => o == Greater
    case GE => o != Less
    case LT => o == Less
    case LE => o != Greater
    case EQ => o == Equal
    case NE => o != Equal
  }

  /** The comparison the operator wrote. */
  predicate Relation(cmp: Cmp, a: int, b: int) {
    match cmp
    case GT => a > b
    case GE => a >= b
    case LT => a < b
    case LE => a <= b
    case EQ => a == b
    case NE => a != b
  }

  /** The scalar holding an integer: its two's complement in the type's width. */
  function Scalar(t: Type, v: int): uint64 {
    v % Modulus(t)
  }

  predicate Fits(t: Type, v: int) {
    if SignedType(t) then -(Modulus(t) / 2) <= v < Modulus(t) / 2
    else t != FLOAT && t != DOUBLE && 0 <= v < Modulus(t)
  }

  /** The integers a type holds. */
  lemma FitsMeans(t: Type, v: int)
    ensures Fits(t, v) <==>
            match t
            case U8 | X8 => 0 <= v <= 255
            case U16 | X16 => 0 <= v <= 65535
            case U32 | X32 => 0 <= v <= 4294967295
            case U64 | X64 => 0 <= v <= 18446744073709551615
            case I8 => -128 <= v <= 127
            case I16 => -32768 <= v <= 32767
            case I32 => -2147483648 <= v <= 2147483647
            case I64 => -9223372036854775808 <= v <= 9223372036854775807
            case FLOAT | DOUBLE => false
  {
  }

  lemma ScalarWidens(t: Type, v: int)
    requires Fits(t, v)
    ensures Widen(t, Scalar(t, v)) == if SignedType(t) then Signed(v) else Unsigned(v)
  {
    var m := Modulus(t);
    if v >= 0 {
      Arith.DivModUnique(v, m, 0, v);
    } else {
      Arith.DivModUnique(v, m, -1, v + m);
    }
  }

  /** An integer rule compares the two numbers, at every width and sign. */
  lemma HoldsIsRelation(t: Type, cmp: Cmp, v: int, bound: int)
    requires Fits(t, v) && Fits(t, bound)
    ensures Holds(cmp, Order(t, Scalar(t, v), Scalar(t, bound))) <==> Relation(cmp, v, bound)
  {
    hide Scalar, Widen, Fits, Modulus;
    ScalarWidens(t, v);
    ScalarWidens(t, bound);
  }

  /** A reading that cannot be ordered holds for no comparison, not even "not equal". */
  lemma UnorderedNeverHolds(t: Type, cmp: Cmp, a: uint64, b: uint64)
    requires Widen(t, a) == Floating(NaN) || Widen(t, b) == Floating(NaN)
    ensures !Holds(cmp, Order(t, a, b))
  {
  }

  // ----- the automaton and the history it answers to -----

  /** How the scheduler answered the attempt to add the action. */
  datatype Answer = Added | AlreadyWaiting | Refused

  /** One sweep as one rule saw it. A holding reading carries the answer an attempt would get. */
  datatype Event = Disabled | Unread | NotHolding | Holding(answer: Answer)

  datatype State = State(streak: byte, latched: bool)

  predicate Ready(dwell: byte, s: State) {
    !s.latched && s.streak >= dwell
  }

  function Counted(s: State): State {
    s.(streak := if s.streak < UINT8_MAX then s.streak as int + 1 else UINT8_MAX)
  }

  /** One sweep over one rule: the disabled branch of `kfsw_limits_sweep`, else `evaluate`. */
  function Step(dwell: byte, s: State, e: Event): State {
    match e
    case Disabled => s.(streak := 0)
    case Unread => s
    case NotHolding => State(0, false)
    case Holding(answer) =>
      var c := Counted(s);
      if Ready(dwell, c) then c.(latched := !answer.Refused?) else c
  }

  const INITIAL := State(0, false)

  function StateAt(dwell: byte, t: seq<Event>, n: nat): State
    requires n <= |t|
  {
    if n == 0 then INITIAL else Step(dwell, StateAt(dwell, t, n - 1), t[n - 1])
  }

  /** No false reading and no disabled sweep strictly between. */
  ghost predicate Unbroken(t: seq<Event>, j: int, n: int) {
    forall m :: j < m < n && 0 <= m < |t| ==> !t[m].NotHolding? && !t[m].Disabled?
  }

  ghost predicate NoFalse(t: seq<Event>, j: int, n: int) {
    forall m :: j < m < n && 0 <= m < |t| ==> !t[m].NotHolding?
  }

  /** The holding readings since the last false reading or disabled sweep. */
  ghost function HoldingRun(t: seq<Event>, n: nat): set<nat> {
    set j: nat | j < n && j < |t| && t[j].Holding? && Unbroken(t, j, n)
  }

  /** What the rules promise, without the counter or the latch: the sweep at `k` attempts the action. */
  ghost predicate Attempts(dwell: byte, t: seq<Event>, k: nat)
    decreases k, 0
  {
    && k < |t| && t[k].Holding?
    && |HoldingRun(t, k + 1)| >= dwell
    && forall j: nat :: j < k && NoFalse(t, j, k) ==> !Releases(dwell, t, j)
  }

  ghost predicate Releases(dwell: byte, t: seq<Event>, k: nat)
    decreases k, 1
  {
    k < |t| && t[k].Holding? && !t[k].answer.Refused? && Attempts(dwell, t, k)
  }

  /** A successful release since the last false reading. */
  ghost predicate Released(dwell: byte, t: seq<Event>, n: nat) {
    exists j: nat :: j < n && NoFalse(t, j, n) && Releases(dwell, t, j)
  }

  lemma HoldingRunStep(t: seq<Event>, n: nat)
    requires n < |t|
    ensures HoldingRun(t, n + 1) ==
            match t[n] {
              case Holding(_) => HoldingRun(t, n) + {n}
              case Unread => HoldingRun(t, n)
              case _ => {}
            }
  {
    forall j: nat | j < n ensures Unbroken(t, j, n + 1) <==> Unbroken(t, j, n) && !t[n].NotHolding? && !t[n].Disabled? {
    }
  }

  lemma ReleasedStep(dwell: byte, t: seq<Event>, n: nat)
    requires n < |t|
    ensures Released(dwell, t, n + 1) <==> (!t[n].NotHolding? && (Released(dwell, t, n) || Releases(dwell, t, n)))
  {
    hide Attempts;
    forall j: nat | j < n ensures NoFalse(t, j, n + 1) <==> NoFalse(t, j, n) && !t[n].NotHolding? {
    }
    if !t[n].NotHolding? && Releases(dwell, t, n) {
      assert NoFalse(t, n, n + 1);
    }
    if Released(dwell, t, n + 1) && !Releases(dwell, t, n) {
      var j: nat :| j < n + 1 && NoFalse(t, j, n + 1) && Releases(dwell, t, j);
      assert j < n && NoFalse(t, j, n);
    }
  }

  /** The counter is the length of the holding run, as far as a byte can count, and the latch is
      "released since the last false reading". */
  lemma {:induction false} StateMeaning(dwell: byte, t: seq<Event>, n: nat)
    requires n <= |t| && dwell >= 1
    ensures var s := StateAt(dwell, t, n);
            s.streak == (if |HoldingRun(t, n)| < UINT8_MAX then |HoldingRun(t, n)| else UINT8_MAX)
            && (s.latched <==> Released(dwell, t, n))
  {
    if n == 0 {
      assert HoldingRun(t, 0) == {};
    } else {
      StateMeaning(dwell, t, n - 1);
      HoldingRunStep(t, n - 1);
      ReleasedStep(dwell, t, n - 1);
      if t[n - 1].Holding? {
        AttemptMeaning(dwell, t, n - 1, StateAt(dwell, t, n - 1));
      }
    }
  }

  lemma AttemptMeaning(dwell: byte, t: seq<Event>, n: nat, s: State)
    requires n < |t| && dwell >= 1 && t[n].Holding?
    requires s.streak == if |HoldingRun(t, n)| < UINT8_MAX then |HoldingRun(t, n)| else UINT8_MAX
    requires s.latched <==> Released(dwell, t, n)
    ensures Ready(dwell, Counted(s)) <==> Attempts(dwell, t, n)
    ensures |HoldingRun(t, n + 1)| == |HoldingRun(t, n)| + 1
  {
    HoldingRunStep(t, n);
    assert n !in HoldingRun(t, n);
  }

  /** The automaton attempts a release exactly when the history asks for one; saturation at 255 never
      suppresses one. */
  lemma AttemptsExactly(dwell: byte, t: seq<Event>, k: nat)
    requires k < |t| && dwell >= 1 && t[k].Holding?
    ensures Ready(dwell, Counted(StateAt(dwell, t, k))) <==> Attempts(dwell, t, k)
  {
    StateMeaning(dwell, t, k);
    AttemptMeaning(dwell, t, k, StateAt(dwell, t, k));
  }

  /** The automaton, at the sweep `k`, releases with success: the counter is up and the latch is down. */
  predicate Fires(dwell: byte, t: seq<Event>, k: nat) {
    k < |t| && t[k].Holding? && !t[k].answer.Refused? && Ready(dwell, Counted(StateAt(dwell, t, k)))
  }

  /** Between two successful releases of the automaton lies a false reading: at most one per crossing. */
  lemma OneReleasePerCrossing(dwell: byte, t: seq<Event>, j: nat, k: nat)
    requires dwell >= 1 && j < k && Fires(dwell, t, j) && Fires(dwell, t, k)
    ensures exists m :: j < m < k && t[m].NotHolding?
  {
    AttemptsExactly(dwell, t, j);
    AttemptsExactly(dwell, t, k);
    assert Releases(dwell, t, j) && !NoFalse(t, j, k);
  }

  /** A refused action is attempted again at the next holding reading, until it is accepted. */
  lemma RefusedIsRetried(dwell: byte, t: seq<Event>, j: nat, k: nat)
    requires j < k < |t| && Attempts(dwell, t, j) && t[j].answer.Refused?
    requires t[k].Holding? && forall m :: j < m < k ==> t[m].Unread?
    ensures Attempts(dwell, t, k)
  {
    RunGrows(t, j + 1, k + 1);
    Sets.SubsetSize(HoldingRun(t, j + 1), HoldingRun(t, k + 1));
    forall i: nat | i < k && NoFalse(t, i, k) ensures !Releases(dwell, t, i) {
      assert i < j ==> NoFalse(t, i, j);
      assert i > j ==> t[i].Unread?;
    }
  }

  lemma RunGrows(t: seq<Event>, a: nat, b: nat)
    requires a <= b <= |t| && forall m :: a <= m < b ==> !t[m].NotHolding? && !t[m].Disabled?
    ensures HoldingRun(t, a) <= HoldingRun(t, b)
  {
    forall i: nat | i < a && Unbroken(t, i, a) ensures Unbroken(t, i, b) {
    }
  }

  lemma {:induction false} StateAtPrefix(dwell: byte, t: seq<Event>, e: Event, n: nat)
    requires n <= |t|
    ensures StateAt(dwell, t + [e], n) == StateAt(dwell, t, n)
  {
    if n > 0 {
      StateAtPrefix(dwell, t, e, n - 1);
    }
  }

  // ----- the service -----

  datatype Rule = Rule(paramType: Type, cmp: Cmp, bound: uint64, dwell: byte, state: State)

  predicate Loadable(r: Rule) {
    r.dwell >= 1 && r.state == INITIAL
  }

  /** A parameter read: a scalar or an error. */
  type Reading = Result<uint64>

  function EventOf(r: Rule, reading: Reading, answer: Answer): Event {
    match reading
    case Err(_) => Unread
    case Ok(v) => if Holds(r.cmp, Order(r.paramType, v, r.bound)) then Holding(answer) else NotHolding
  }

  /** What one sweep says of an integer rule: the reading against the bound, as the operator wrote it. */
  lemma IntegerRule(t: Type, cmp: Cmp, v: int, bound: int, dwell: byte, state: State, answer: Answer)
    requires Fits(t, v) && Fits(t, bound)
    ensures EventOf(Rule(t, cmp, Scalar(t, bound), dwell, state), Ok(Scalar(t, v)), answer)
         == if Relation(cmp, v, bound) then Holding(answer) else NotHolding
  {
    hide Scalar, Order, Fits;
    HoldsIsRelation(t, cmp, v, bound);
  }

  /** The comparison the operator wrote, over the numbers that floats stand for. */
  predicate RealRelation(cmp: Cmp, a: real, b: real) {
    match cmp
    case GT => a > b
    case GE => a >= b
    case LT => a < b
    case LE => a <= b
    case EQ => a == b
    case NE => a != b
  }

  /** And of a float rule: the same over the numbers its bits stand for, and nothing holds of a NaN. */
  lemma FloatRule(cmp: Cmp, v: uint32, bound: uint32, wide: uint64, wideBound: uint64, dwell: byte, state: State, answer: Answer)
    ensures FLOAT_OF_BITS(v).Number? && FLOAT_OF_BITS(bound).Number? ==>
              EventOf(Rule(FLOAT, cmp, bound, dwell, state), Ok(v), answer)
              == if RealRelation(cmp, FLOAT_OF_BITS(v).value, FLOAT_OF_BITS(bound).value) then Holding(answer) else NotHolding
    ensures DOUBLE_OF_BITS(wide).Number? && DOUBLE_OF_BITS(wideBound).Number? ==>
              EventOf(Rule(DOUBLE, cmp, wideBound, dwell, state), Ok(wide), answer)
              == if RealRelation(cmp, DOUBLE_OF_BITS(wide).value, DOUBLE_OF_BITS(wideBound).value) then Holding(answer) else NotHolding
    ensures FLOAT_OF_BITS(v).NaN? || FLOAT_OF_BITS(bound).NaN? ==> EventOf(Rule(FLOAT, cmp, bound, dwell, state), Ok(v), answer) == NotHolding
    ensures DOUBLE_OF_BITS(wide).NaN? || DOUBLE_OF_BITS(wideBound).NaN? ==> EventOf(Rule(DOUBLE, cmp, wideBound, dwell, state), Ok(wide), answer) == NotHolding
  {
    Arith.DivModUnique(v, 0x1_0000_0000, 0, v);
    Arith.DivModUnique(bound, 0x1_0000_0000, 0, bound);
    Arith.DivModUnique(wide, 0x1_0000_0000_0000_0000, 0, wide);
    Arith.DivModUnique(wideBound, 0x1_0000_0000_0000_0000, 0, wideBound);
  }

  function Saturating(counter: uint32): (c: uint32)
    ensures c == Arith.Min(counter as int + 1, 0xFFFF_FFFF)
  {
    if counter < UINT32_MAX then counter as int + 1 else UINT32_MAX
  }

  ghost predicate Follows(r: Rule, t: seq<Event>) {
    r.dwell >= 1 && r.state == StateAt(r.dwell, t, |t|)
  }

  const RELEASE_DELAY_S := 1

  function ActionContent(node: uint16, action: seq<byte>): Schedule.Content {
    Schedule.Content(Schedule.Relative, RELEASE_DELAY_S, node, action)
  }

  predicate LiveWith(s: Schedule.Slot, content: Schedule.Content) {
    Schedule.Live(s) && s.hash == Schedule.ContentHash(content)
  }

  /** `release`: hand the action to the time-tagged queue. Accepted means that the action is live in the
      queue, either newly, due one delay from now, or as the identical entry that was waiting already.
      Resolving a command never fails with the code that means "already there". */
  method Release(q: Schedule.Queue, node: uint16, action: seq<byte>, clock: Schedule.Clock, build: Status) returns (answer: Answer)
    requires q.Valid() && build != Failure(EEXIST)
    modifies q
    ensures q.Valid()
    ensures answer.Added? <==> q.added != old(q.added)
    ensures answer.Added? ==>
              q.added == old(q.added) + [Schedule.Accepted(Schedule.Entry(Schedule.Content(Schedule.Relative, 1, node, action), clock.mono + 1000), clock)]
    ensures !answer.Refused? <==>
              Schedule.Refusal(Schedule.Content(Schedule.Relative, 1, node, action), clock, q.latency, build).Success?
              && exists j :: 0 <= j < |q.slots| && LiveWith(q.slots[j], Schedule.Content(Schedule.Relative, 1, node, action))
  {
    hide Schedule.Inv, Schedule.ContentHash;
    Schedule.InvSizes(q.slots, q.ids, q.log, q.added, q.running);
    var content := ActionContent(node, action);
    var result, index := q.Add(content, clock, build);
    Schedule.InvSizes(q.slots, q.ids, q.log, q.added, q.running);
    if result.Success? {
      assert LiveWith(q.slots[index], content);
      return Added;
    }
    answer := if result == Failure(EEXIST) then AlreadyWaiting else Refused;
  }

  class Service {
    var rules: seq<Rule>
    var enabled: bool
    var sweeps: uint32
    var fires: uint32
    var failures: uint32
    /** Per rule, every sweep since its rule set was loaded. */
    ghost var histories: seq<seq<Event>>

    ghost predicate Valid()
      reads this
    {
      |rules| == |histories| <= MAX_RULES && forall i :: 0 <= i < |rules| ==> Follows(rules[i], histories[i])
    }

    constructor ()
      ensures Valid() && rules == []
    {
      rules, enabled, sweeps, fires, failures := [], true, 0, 0, 0;
      histories := [];
    }

    /** `kfsw_limits_load`, given what parsing the file said: a whole new rule set or no change. */
    method Load(parsed: Result<seq<Rule>>) returns (result: Status)
      requires Valid()
      requires parsed.Ok? ==> forall i :: 0 <= i < |parsed.value| ==> Loadable(parsed.value[i])
      modifies this`rules, this`histories
      ensures Valid()
      ensures result.Success? <==> parsed.Ok? && |parsed.value| <= MAX_RULES
      ensures result.Success? ==> rules == parsed.value && histories == seq(|rules|, _ => [])
      ensures result.Failure? ==> rules == old(rules) && histories == old(histories)
    {
      match parsed {
        case Err(e) => return Failure(e);
        case Ok(staged) =>
          if |staged| > MAX_RULES {
            return Failure(EINVAL);
          }
          rules := staged;
          histories := seq(|staged|, _ => []);
          result := Success;
      }
    }

    /** `evaluate` of one rule, with the scheduler's answer to an attempt. */
    method Evaluate(i: nat, reading: Reading, answer: Answer) returns (attempted: bool)
      requires Valid() && i < |rules|
      modifies this`rules, this`histories, this`fires, this`failures
      ensures Valid()
      ensures histories == old(histories)[i := old(histories)[i] + [EventOf(old(rules)[i], reading, answer)]]
      ensures |rules| == |old(rules)| && rules == old(rules)[i := old(rules)[i].(state := rules[i].state)]
      ensures attempted <==> Attempts(rules[i].dwell, histories[i], |old(histories)[i]|)
      ensures fires == if attempted && answer.Added? then Saturating(old(fires)) else old(fires)
      ensures failures == if reading.Err? || (attempted && answer.Refused?) then Saturating(old(failures)) else old(failures)
    {
      hide Attempts, Holds, Order;
      var rule := rules[i];
      ghost var e, t := EventOf(rule, reading, answer), histories[i];
      ghost var t' := t + [e];
      StateAtPrefix(rule.dwell, t, e, |t|);
      attempted := false;
      histories := histories[i := t'];
      assert t'[|t|] == e;
      if reading.Err? {
        NoAttempt(rule.dwell, t', |t|);
        failures := Saturating(failures);
        return;
      }
      if !Holds(rule.cmp, Order(rule.paramType, reading.value, rule.bound)) {
        NoAttempt(rule.dwell, t', |t|);
        rules := rules[i := rule.(state := State(0, false))];
        return;
      }
      AttemptsExactly(rule.dwell, t', |t|);
      var counted := Counted(rule.state);
      rules := rules[i := rule.(state := counted)];
      if Ready(rule.dwell, counted) {
        attempted := true;
        rules := rules[i := rule.(state := counted.(latched := !answer.Refused?))];
        if answer.Added? {
          fires := Saturating(fires);
        } else if answer.Refused? {
          failures := Saturating(failures);
        }
      }
    }

    /** `kfsw_limits_sweep`: a rule's action is attempted exactly when that rule's own history asks for
        it, whatever the other rules do. */
    method Sweep(readings: seq<Reading>, answers: seq<Answer>) returns (attempted: Result<seq<bool>>)
      requires Valid() && |readings| == |answers| == |rules|
      modifies this
      ensures Valid() && |rules| == |old(rules)| && enabled == old(enabled)
      ensures forall i :: 0 <= i < |rules| ==> rules[i] == old(rules)[i].(state := rules[i].state)
      ensures forall i :: 0 <= i < |rules| ==>
                histories[i] == old(histories)[i] + [if enabled then EventOf(old(rules)[i], readings[i], answers[i]) else Disabled]
      ensures attempted.Ok? <==> enabled
      ensures enabled ==> |attempted.value| == |rules| && sweeps == Saturating(old(sweeps))
                          && forall i :: 0 <= i < |rules| ==>
                               (attempted.value[i] <==> Attempts(rules[i].dwell, histories[i], |old(histories)[i]|))
      ensures !enabled ==> attempted == Err(EACCES) && sweeps == old(sweeps) && fires == old(fires)
    {
      hide Attempts, EventOf, Step, StateAt;
      ghost var rules0, histories0 := rules, histories;
      if !enabled {
        BreakRuns();
        return Err(EACCES);
      }
      var done := [];
      for i := 0 to |rules|
        invariant Valid() && |rules| == |rules0| && |done| == i && enabled && sweeps == old(sweeps)
        invariant forall j :: 0 <= j < |rules| ==> rules[j] == rules0[j].(state := rules[j].state)
        invariant forall j :: i <= j < |rules| ==> rules[j] == rules0[j] && histories[j] == histories0[j]
        invariant forall j :: 0 <= j < i ==> histories[j] == histories0[j] + [EventOf(rules0[j], readings[j], answers[j])]
        invariant forall j :: 0 <= j < i ==> (done[j] <==> Attempts(rules[j].dwell, histories[j], |histories0[j]|))
      {
        var tried := Evaluate(i, readings[i], answers[i]);
        done := done + [tried];
      }
      sweeps := Saturating(sweeps);
      attempted := Ok(done);
    }

    /** A disabled sweep breaks every run and leaves every latch. */
    method BreakRuns()
      requires Valid()
      modifies this`rules, this`histories
      ensures Valid() && |rules| == |old(rules)|
      ensures forall i :: 0 <= i < |rules| ==> rules[i] == old(rules)[i].(state := State(0, old(rules)[i].state.latched))
      ensures forall i :: 0 <= i < |rules| ==> histories[i] == old(histories)[i] + [Disabled]
    {
      ghost var rules0, histories0 := rules, histories;
      for i := 0 to |rules|
        invariant |rules| == |rules0|
        invariant forall j :: 0 <= j < i ==> rules[j] == rules0[j].(state := State(0, rules0[j].state.latched))
        invariant forall j :: i <= j < |rules| ==> rules[j] == rules0[j]
      {
        rules := rules[i := rules[i].(state := rules[i].state.(streak := 0))];
      }
      histories := seq(|rules|, i requires 0 <= i < |histories0| => histories0[i] + [Disabled]);
      forall i | 0 <= i < |rules| ensures Follows(rules[i], histories[i]) {
        assert Follows(rules0[i], histories0[i]);
        StateAtPrefix(rules0[i].dwell, histories0[i], Disabled, |histories0[i]|);
      }
    }
  }

  lemma NoAttempt(dwell: byte, t: seq<Event>, k: nat)
    requires k < |t| && !t[k].Holding?
    ensures !Attempts(dwell, t, k)
  {
  }
}
