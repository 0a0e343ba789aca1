/** The parameter registry, src/parameter/parameter.c, and the form its values take in a file,
    src/parameter/param_wire.c. */
module Registry {
  import opened Bytes
  import opened Errors
  import Arith

  const MAX_DEFINITIONS: Positive
  const FLOAT_SUPPORT: bool
  const MAX_TABLES: Positive
  const NAME_MAX := 32
  const TABLE_FIRST := 1
  const TABLE_LAST := 99

  /** Within the range its Kconfig entry allows. */
  type StringLimit = n: nat | 8 <= n <= 256 witness 8
  const STRING_MAX: StringLimit

  datatype Type = U8 | U16 | U32 | U64 | I8 | I16 | I32 | I64 | X8 | X16 | X32 | X64 | FLOAT | DOUBLE | STRING | DATA | INVALID

  /** A typed value. A scalar is its bits, a text its bytes with the terminator. */
  datatype Value = Scalar(kind: Type, bits: uint64) | Text(chars: seq<byte>) | Data(bytes: seq<byte>)

  /** What a registered validator says of a value. Validators are numbered; what each accepts is open. */
  const VALIDATORS: (nat, Value) -> Status

  /** The variable behind a parameter. */
  datatype Cell = Number(bits: uint64) | Raw(bytes: seq<byte>)

  datatype Definition = Definition(
    table: byte, offset: byte, kind: Type, capacity: nat, name: seq<byte>, readOnly: bool,
    fallible: bool, validator: Option<nat>, defaultBits: uint64, defaultBytes: seq<byte>)

  /** `fallible` marks a parameter with an `apply` hook, which may refuse a value when it is stored. */
  datatype Entry = Entry(
    id: uint16, table: byte, offset: byte, kind: Type, arraySize: nat, name: seq<byte>, readOnly: bool,
    fallible: bool, validator: Option<nat>)

  function ScalarSize(t: Type): (n: nat) {
    match t
    case U8 | I8 | X8 => 1
    case U16 | I16 | X16 => 2
    case U32 | I32 | X32 | FLOAT => 4
    case U64 | I64 | X64 | DOUBLE => 8
    case STRING | DATA | INVALID => 0
  }

  /** One more than the largest bit pattern of a scalar. */
  function ScalarLimit(t: Type): (n: nat) {
    match ScalarSize(t)
    case 1 => 0x100
    case 2 => 0x1_0000
    case 4 => 0x1_0000_0000
    case 8 => 0x1_0000_0000_0000_0000
    case _ => 0
  }

  function Capacity(e: Entry): nat {
    if e.kind == STRING || e.kind == DATA then e.arraySize else ScalarSize(e.kind)
  }

  function WireId(table: byte, offset: byte): (id: uint16)
    requires table <= TABLE_LAST
    ensures id / 0x100 == table && id % 0x100 == offset
  {
    (table as int) * 0x100 + offset
  }

  /** What registration guarantees of an entry. */
  predicate EntryOk(e: Entry) {
    && TABLE_FIRST <= e.table <= TABLE_LAST && e.id == WireId(e.table, e.offset)
    && 1 <= Capacity(e) && e.arraySize <= STRING_MAX && (e.kind == STRING ==> e.arraySize >= 2)
    && (e.fallible ==> e.kind != STRING && e.kind != DATA)
  }

  predicate Sorted(entries: seq<Entry>) {
    forall i, j :: 0 <= i < j < |entries| ==> entries[i].id < entries[j].id
  }

  predicate Registered(entries: seq<Entry>) {
    Sorted(entries) && forall i :: 0 <= i < |entries| ==> EntryOk(entries[i])
  }

  // ----- text -----

  /** The bytes of a C string before its terminator, or all of them when there is none. */
  function CString(b: seq<byte>): (s: seq<byte>)
    ensures |s| <= |b| && s == b[..|s|] && 0 !in s && (|s| < |b| ==> b[|s|] == 0)
  {
    if b == [] || b[0] == 0 then [] else
    var rest := CString(b[1..]);
    assert b[..|rest| + 1] == [b[0]] + b[1..][..|rest|];
    [b[0]] + rest
  }

  lemma CStringUnique(b: seq<byte>, s: seq<byte>)
    requires s <= b && 0 !in s && (|s| < |b| ==> b[|s|] == 0)
    ensures CString(b) == s
  {
    var c := CString(b);
    assert |c| == |s| by {
      assert forall i :: 0 <= i < |s| ==> b[i] == s[i] && s[i] in s;
      assert forall i :: 0 <= i < |c| ==> b[i] == c[i] && c[i] in c;
    }
  }

  /** What `copy_text` copies, without the terminator it adds. */
  function Copied(destinationSize: Positive, source: seq<byte>, sourceSize: nat): (s: seq<byte>)
    ensures |s| < destinationSize && |s| <= sourceSize && 0 !in s
  {
    CString(source)[..Arith.Min(|CString(source)|, Arith.Min(sourceSize, destinationSize - 1))]
  }

  // ----- reading, checking and storing one value -----

  /** A cell has the shape of its entry's variable. */
  predicate CellOk(e: Entry, c: Cell) {
    if e.kind == STRING || e.kind == DATA then c.Raw? && |c.bytes| == e.arraySize
    else c.Number? && c.bits < ScalarLimit(e.kind)
  }

  /** `kfsw_param_read_stored_entry`. */
  function Read(e: Entry, c: Cell): (v: Value)
    requires CellOk(e, c)
  {
    if e.kind == STRING then Text(Copied(STRING_MAX, c.bytes, e.arraySize) + [0])
    else if e.kind == DATA then Data(c.bytes)
    else Scalar(e.kind, c.bits)
  }

  predicate TypeMatches(t: Type, v: Value) {
    match v
    case Text(_) => t == STRING
    case Data(_) => t == DATA
    case Scalar(k, _) => t == k && t != STRING && t != DATA
  }

  /** The value as the entry's validator and every later reader see it: a text ends at its first NUL. */
  function Canonical(v: Value): Value {
    if v.Text? then Text(CString(v.chars) + [0]) else v
  }

  function Validator(e: Entry, v: Value): Status {
    if e.validator.None? then Success else VALIDATORS(e.validator.value, Canonical(v))
  }

  /** `kfsw_param_validate_entry`. */
  function Validate(e: Entry, v: Value): Status {
    if Capacity(e) == 0 then Failure(ENOTSUP)
    else if !TypeMatches(e.kind, v) then Failure(EMSGSIZE)
    else if v.Text? && (|v.chars| == 0 || |v.chars| > e.arraySize) then Failure(EMSGSIZE)
    else if v.Data? && |v.bytes| != e.arraySize then Failure(EMSGSIZE)
    else Validator(e, v)
  }

  /** What a parameter accepts: a value of its own type; a text that fits with its terminator and whose
      characters, up to the first NUL, pass the validator; an array of exactly its size that does; a number
      that does. */
  lemma ValidateMeans(e: Entry, v: Value)
    requires EntryOk(e)
    ensures v.Text? ==> (Validate(e, v).Success? <==>
              e.kind == STRING && 1 <= |v.chars| <= e.arraySize
              && (e.validator.Some? ==> VALIDATORS(e.validator.value, Text(CString(v.chars) + [0])).Success?))
    ensures v.Data? ==> (Validate(e, v).Success? <==>
              e.kind == DATA && |v.bytes| == e.arraySize && (e.validator.Some? ==> VALIDATORS(e.validator.value, v).Success?))
    ensures v.Scalar? ==> (Validate(e, v).Success? <==>
              e.kind == v.kind && e.kind != STRING && e.kind != DATA && (e.validator.Some? ==> VALIDATORS(e.validator.value, v).Success?))
    // A validator's own refusal is the one reported.
    ensures v.Scalar? && e.kind == v.kind && e.kind != STRING && e.kind != DATA && e.validator.Some? ==>
              Validate(e, v) == VALIDATORS(e.validator.value, v)
  {
  }

  /** A text carries its terminator and a scalar fits its width. */
  predicate Formed(v: Value) {
    (v.Text? ==> v.chars != [] && v.chars[|v.chars| - 1] == 0) && (v.Scalar? ==> v.bits < ScalarLimit(v.kind))
  }

  /** The cell after `kfsw_param_wire_apply` stores a value in it. Bytes past a text's terminator stay. */
  function Stored(e: Entry, c: Cell, v: Value): (r: Cell)
    requires EntryOk(e) && CellOk(e, c) && TypeMatches(e.kind, v) && Formed(v)
    requires v.Data? ==> |v.bytes| == e.arraySize
    ensures CellOk(e, r)
  {
    match v
    case Text(chars) =>
      var s := Copied(e.arraySize, chars, e.arraySize);
      Raw(s + [0] + c.bytes[|s| + 1..])
    case Data(bytes) => Raw(bytes)
    case Scalar(_, bits) => Number(bits)
  }

  lemma ReadFormed(e: Entry, c: Cell)
    requires EntryOk(e) && CellOk(e, c)
    ensures Formed(Read(e, c)) && TypeMatches(e.kind, Read(e, c)) && Canonical(Read(e, c)) == Read(e, c)
    ensures Read(e, c).Data? ==> |Read(e, c).bytes| == e.arraySize
    ensures Read(e, c).Text? ==> |Read(e, c).chars| <= STRING_MAX
  {
    if e.kind == STRING {
      var s := Copied(STRING_MAX, c.bytes, e.arraySize);
      CStringUnique(s + [0], s);
    }
  }

  /** Storing a checked value makes it the one read back. */
  lemma ReadStored(e: Entry, c: Cell, v: Value)
    requires EntryOk(e) && CellOk(e, c) && Formed(v) && Validate(e, v).Success?
    ensures Read(e, Stored(e, c, v)) == Canonical(v)
  {
    if v.Text? {
      var s := CString(v.chars);
      assert s <= v.chars && |s| < |v.chars|;
      assert Copied(e.arraySize, v.chars, e.arraySize) == s;
      var raw := s + [0] + c.bytes[|s| + 1..];
      CStringUnique(raw, s);
    }
  }

  /** What storing a checked text leaves in its variable: the text up to and with its first NUL, and the
      old bytes after it. */
  lemma StoredBytes(e: Entry, c: Cell, v: Value)
    requires EntryOk(e) && CellOk(e, c) && Formed(v) && Validate(e, v).Success? && v.Text?
    ensures |Canonical(v).chars| <= e.arraySize
    ensures Stored(e, c, v) == Raw(Canonical(v).chars + c.bytes[|Canonical(v).chars|..])
  {
    var s := CString(v.chars);
    assert Copied(e.arraySize, v.chars, e.arraySize) == s;
  }

  /** Putting back what a parameter read before a value was stored restores its readings always, and its
      variable byte for byte exactly unless it is a text that was not terminated, or whose replacement was
      longer and different from the bytes it overwrote after the old terminator. */
  lemma RawRestoredIff(e: Entry, c: Cell, v: Value)
    requires EntryOk(e) && CellOk(e, c) && Formed(v) && Validate(e, v).Success? && Validate(e, Read(e, c)).Success? && Formed(Read(e, c))
    ensures Stored(e, Stored(e, c, v), Read(e, c)) == c <==> e.kind != STRING || (0 in c.bytes && TailKept(c.bytes, Read(e, c).chars, Canonical(v).chars))
  {
    TextOnly(e, v);
    if e.kind == STRING {
      TextRestoredIff(e, c, v);
    }
  }

  lemma TextRestoredIff(e: Entry, c: Cell, v: Value)
    requires EntryOk(e) && CellOk(e, c) && Formed(v) && Validate(e, v).Success? && Validate(e, Read(e, c)).Success? && Formed(Read(e, c))
    requires e.kind == STRING && v.Text?
    ensures Stored(e, Stored(e, c, v), Read(e, c)) == c <==> 0 in c.bytes && TailKept(c.bytes, Read(e, c).chars, Canonical(v).chars)
  {
    ReadFormed(e, c);
    StoredBytes(e, c, v);
    var loaded, was, now := Stored(e, c, v), Read(e, c), Canonical(v).chars;
    StoredBytes(e, loaded, was);
    Terminated(e, c);
    hide Validate, EntryOk, Read, Stored, Canonical, Formed;
    SplitEqual(was.chars, loaded.bytes[|was.chars|..], c.bytes);
    TailRestored(c.bytes, now, |was.chars|);
  }

  lemma SplitEqual(a: seq<byte>, b: seq<byte>, all: seq<byte>)
    requires |a| + |b| == |all|
    ensures a + b == all <==> a == all[..|a|] && b == all[|a|..]
  {
    assert all == all[..|a|] + all[|a|..];
    assert (a + b)[..|a|] == a && (a + b)[|a|..] == b;
  }

  /** The bytes a longer text wrote past the old one are the ones that were there. */
  predicate TailKept(bytes: seq<byte>, was: seq<byte>, now: seq<byte>) {
    |now| <= |was| || (|now| <= |bytes| && bytes[|was|..|now|] == now[|was|..])
  }

  lemma TailRestored(bytes: seq<byte>, now: seq<byte>, n: nat)
    requires n <= |bytes| && |now| <= |bytes|
    ensures (now + bytes[|now|..])[n..] == bytes[n..] <==> |now| <= n || bytes[n..|now|] == now[n..]
  {
    var loaded := now + bytes[|now|..];
    if |now| <= n {
      assert loaded[n..] == bytes[n..];
    } else {
      assert loaded[n..] == now[n..] + bytes[|now|..];
      assert bytes[n..] == bytes[n..|now|] + bytes[|now|..];
      assert (now[n..] + bytes[|now|..])[..|now| - n] == now[n..];
      assert (bytes[n..|now|] + bytes[|now|..])[..|now| - n] == bytes[n..|now|];
    }
  }

  lemma TextOnly(e: Entry, v: Value)
    requires Validate(e, v).Success?
    ensures TypeMatches(e.kind, v) && (v.Data? ==> |v.bytes| == e.arraySize)
  {
  }

  /** A text variable that is read whole begins with what is read exactly when it is terminated. */
  lemma Terminated(e: Entry, c: Cell)
    requires e.kind == STRING && CellOk(e, c) && 1 <= e.arraySize <= STRING_MAX && |Read(e, c).chars| <= e.arraySize
    ensures Read(e, c).chars == c.bytes[..|Read(e, c).chars|] <==> 0 in c.bytes
  {
    var s := CString(c.bytes);
    var t := Copied(STRING_MAX, c.bytes, e.arraySize);
    if 0 in c.bytes {
      assert |s| < |c.bytes| && t == s;
      assert c.bytes[..|s| + 1] == s + [0];
    } else {
      assert (t + [0])[|t|] == 0 && c.bytes[..|t| + 1][|t|] in c.bytes;
    }
  }

  // ----- registration -----

  /** Whether `add_definition` finds the definition's own default unacceptable. */
  predicate RefusesOwnDefault(d: Definition) {
    match d.kind
    case DATA => d.validator.Some? && VALIDATORS(d.validator.value, Data(d.defaultBytes)) != Success
    case STRING =>
      var text := Copied(STRING_MAX, d.defaultBytes, STRING_MAX - 1);
      |text| >= d.capacity || (d.validator.Some? && VALIDATORS(d.validator.value, Text(text + [0])) != Success)
    case _ => d.validator.Some? && VALIDATORS(d.validator.value, Scalar(d.kind, d.defaultBits)) != Success
  }

  /** The checks before `add_definition` looks at the other entries, in its order. */
  function Problem(d: Definition, count: nat, tableKnown: bool): Status {
    if d.name == [] then Failure(EINVAL)
    else if d.fallible && (d.kind == STRING || d.kind == DATA) then Failure(EINVAL)
    else if d.kind == DATA && (d.capacity == 0 || d.capacity > STRING_MAX) then Failure(EINVAL)
    else if d.kind == STRING && (d.capacity < 2 || d.capacity > STRING_MAX) then Failure(EINVAL)
    else if !FLOAT_SUPPORT && (d.kind == FLOAT || d.kind == DOUBLE) then Failure(ENOTSUP)
    else if d.kind == INVALID then Failure(EINVAL)
    else if |d.name| > NAME_MAX then Failure(ENAMETOOLONG)
    else if count >= MAX_DEFINITIONS then Failure(ENOSPC)
    else if !tableKnown then Failure(ENOENT)
    else if RefusesOwnDefault(d) then Failure(ERANGE)
    else Success
  }

  /** A definition in itself acceptable: a name of 1 to 32 characters, a supported type with a usable
      capacity, an apply hook only on a scalar, room left, and a default that passes its own validator. */
  ghost predicate Registrable(d: Definition, count: nat) {
    && 1 <= |d.name| <= 32 && count < MAX_DEFINITIONS && d.kind != INVALID
    && (d.kind == STRING ==> 2 <= d.capacity <= STRING_MAX && !d.fallible)
    && (d.kind == DATA ==> 1 <= d.capacity <= STRING_MAX && !d.fallible)
    && (d.kind == FLOAT || d.kind == DOUBLE ==> FLOAT_SUPPORT)
    && (d.kind == DATA && d.validator.Some? ==> VALIDATORS(d.validator.value, Data(d.defaultBytes)).Success?)
    && (d.kind == STRING ==> DefaultText(d) + 1 <= d.capacity)
    && (d.kind == STRING && d.validator.Some? ==>
          VALIDATORS(d.validator.value, Text(CString(d.defaultBytes)[..DefaultText(d)] + [0])).Success?)
    && (d.kind != STRING && d.kind != DATA && d.validator.Some? ==> VALIDATORS(d.validator.value, Scalar(d.kind, d.defaultBits)).Success?)
  }

  /** The characters of a default text that fit the largest text. */
  ghost function DefaultText(d: Definition): (n: nat)
    ensures n <= |CString(d.defaultBytes)|
  {
    Arith.Min(|CString(d.defaultBytes)|, STRING_MAX - 1)
  }

  /** The checks of `add_definition` refuse exactly what is not registrable, in a known table. */
  lemma ProblemIff(d: Definition, count: nat, tableKnown: bool)
    ensures Problem(d, count, tableKnown).Success? <==> Registrable(d, count) && tableKnown
  {
    assert Copied(STRING_MAX, d.defaultBytes, STRING_MAX - 1) == CString(d.defaultBytes)[..DefaultText(d)];
  }

  /** The entry of an accepted definition. */
  lemma EntryIs(d: Definition)
    requires d.table <= TABLE_LAST
    ensures var e := EntryFor(d);
            e.id == d.table as int * 0x100 + d.offset && e.table == d.table && e.offset == d.offset && e.kind == d.kind && e.name == d.name
            && e.readOnly == d.readOnly && e.fallible == d.fallible && e.validator == d.validator
            && (d.kind == STRING || d.kind == DATA ==> Capacity(e) == d.capacity)
            && (d.kind != STRING && d.kind != DATA ==> Power256(Capacity(e)) == if d.kind == INVALID then 1 else ScalarLimit(d.kind))
  {
    assert forall n :: 1 <= n <= 8 ==> Power256(n) == 0x100 * Power256(n - 1);
  }

  function EntryFor(d: Definition): (e: Entry)
    requires d.table <= TABLE_LAST
  {
    Entry(WireId(d.table, d.offset), d.table, d.offset, d.kind,
          if d.kind == STRING || d.kind == DATA then d.capacity else 1, d.name, d.readOnly, d.fallible, d.validator)
  }

  /** The entry with an id, by looking at each in turn. */
  function Lookup(entries: seq<Entry>, id: uint16): (r: Option<Entry>)
    ensures r.Some? ==> r.value in entries && r.value.id == id
    ensures r.None? ==> forall i :: 0 <= i < |entries| ==> entries[i].id != id
  {
    if entries == [] then None else if entries[0].id == id then Some(entries[0]) else Lookup(entries[1..], id)
  }

  /** Ids being distinct, any entry with the id is the one found. */
  lemma LookupUnique(entries: seq<Entry>, i: nat)
    requires Sorted(entries) && i < |entries|
    ensures Lookup(entries, entries[i].id) == Some(entries[i])
  {
    var r := Lookup(entries, entries[i].id);
    assert r.Some?;
    var j :| 0 <= j < |entries| && entries[j] == r.value;
  }

  // ----- tables -----

  datatype TableInfo = TableInfo(id: byte, name: seq<byte>, count: nat)

  predicate HasTable(tables: seq<TableInfo>, table: byte) {
    exists k :: 0 <= k < |tables| && tables[k].id == table
  }

  /** How many of the entries belong to a table. */
  function CountOf(entries: seq<Entry>, table: byte): nat {
    if entries == [] then 0
    else CountOf(entries[..|entries| - 1], table) + if entries[|entries| - 1].table == table then 1 else 0
  }

  lemma {:induction false} CountConcat(a: seq<Entry>, b: seq<Entry>, table: byte)
    ensures CountOf(a + b, table) == CountOf(a, table) + CountOf(b, table)
    decreases b
  {
    if b == [] {
      assert a + b == a;
    } else {
      var init := b[..|b| - 1];
      assert (a + b)[..|a + b| - 1] == a + init;
      CountConcat(a, init, table);
    }
  }

  lemma CountInserted(entries: seq<Entry>, e: Entry, at: nat, table: byte)
    requires at <= |entries|
    ensures CountOf(entries[..at] + [e] + entries[at..], table) == CountOf(entries, table) + if e.table == table then 1 else 0
  {
    assert entries == entries[..at] + entries[at..];
    CountConcat(entries[..at], entries[at..], table);
    CountConcat(entries[..at] + [e], entries[at..], table);
    CountConcat(entries[..at], [e], table);
    assert [e][..0] == [];
  }

  lemma {:induction false} CountNone(entries: seq<Entry>, table: byte)
    requires forall i :: 0 <= i < |entries| ==> entries[i].table != table
    ensures CountOf(entries, table) == 0
  {
    if entries != [] {
      CountNone(entries[..|entries| - 1], table);
    }
  }

  /** Tables are in band and strictly sorted, each counts its entries, and every entry has its table. */
  ghost predicate TablesOk(tables: seq<TableInfo>, entries: seq<Entry>) {
    && |tables| <= MAX_TABLES
    && (forall k :: 0 <= k < |tables| ==> TABLE_FIRST <= tables[k].id <= TABLE_LAST && tables[k].count == CountOf(entries, tables[k].id))
    && (forall j, k :: 0 <= j < k < |tables| ==> tables[j].id < tables[k].id)
    && (forall i :: 0 <= i < |entries| ==> HasTable(tables, entries[i].table))
  }

  lemma TableInserted(tables: seq<TableInfo>, entries: seq<Entry>, t: TableInfo, at: nat)
    requires TablesOk(tables, entries) && |tables| < MAX_TABLES && at <= |tables|
    requires TABLE_FIRST <= t.id <= TABLE_LAST && t.count == 0 && !HasTable(tables, t.id)
    requires (forall j :: 0 <= j < at ==> tables[j].id < t.id) && (at < |tables| ==> tables[at].id > t.id)
    ensures TablesOk(tables[..at] + [t] + tables[at..], entries)
  {
    hide CountOf;
    var all := tables[..at] + [t] + tables[at..];
    CountNone(entries, t.id);
    TablePlaces(tables, t, at, all);
    forall i | 0 <= i < |entries| ensures HasTable(all, entries[i].table) {
      assert HasTable(tables, entries[i].table);
      var k :| 0 <= k < |tables| && tables[k].id == entries[i].table;
      assert all[if k < at then k else k + 1] == tables[k];
    }
  }

  lemma TablePlaces(tables: seq<TableInfo>, t: TableInfo, at: nat, all: seq<TableInfo>)
    requires at <= |tables| && all == tables[..at] + [t] + tables[at..]
    requires forall j, k :: 0 <= j < k < |tables| ==> tables[j].id < tables[k].id
    requires (forall j :: 0 <= j < at ==> tables[j].id < t.id) && (at < |tables| ==> tables[at].id > t.id)
    ensures forall k :: 0 <= k < |all| ==> all[k] == t || (0 <= PlaceBefore(k, at) < |tables| && all[k] == tables[PlaceBefore(k, at)])
    ensures forall j, k :: 0 <= j < k < |all| ==> all[j].id < all[k].id
  {
    forall k | 0 <= k < |all|
      ensures k != at ==> 0 <= PlaceBefore(k, at) < |tables| && all[k] == tables[PlaceBefore(k, at)]
      ensures k > at ==> all[k].id > t.id
    {
      if k > at {
        assert tables[at].id <= tables[k - 1].id;
      }
    }
  }

  /** Where an element after an insertion was before it. */
  function PlaceBefore(k: int, at: nat): int {
    if k < at then k else k - 1
  }

  lemma EntryCounted(tables: seq<TableInfo>, entries: seq<Entry>, e: Entry, at: nat, k: nat)
    requires TablesOk(tables, entries) && at <= |entries| && k < |tables| && tables[k].id == e.table
    ensures TablesOk(tables[k := tables[k].(count := tables[k].count + 1)], entries[..at] + [e] + entries[at..])
  {
    var all, updated := entries[..at] + [e] + entries[at..], tables[k := tables[k].(count := tables[k].count + 1)];
    forall j | 0 <= j < |updated| ensures updated[j].count == CountOf(all, updated[j].id) {
      CountInserted(entries, e, at, updated[j].id);
    }
    forall i | 0 <= i < |all| ensures HasTable(updated, all[i].table) {
      if i == at {
        assert updated[k].id == all[i].table;
      } else {
        var was := entries[if i < at then i else i - 1];
        assert all[i] == was && HasTable(tables, was.table);
        var j :| 0 <= j < |tables| && tables[j].id == was.table;
        assert updated[j].id == was.table;
      }
    }
  }

  class Parameters {
    var entries: seq<Entry>
    var tables: seq<TableInfo>

    ghost predicate Valid()
      reads this
    {
      Registered(entries) && |entries| <= MAX_DEFINITIONS && TablesOk(tables, entries)
    }

    constructor ()
      ensures Valid() && entries == [] && tables == []
    {
      entries, tables := [], [];
    }

    /** `find_table`. */
    method FindTable(table: byte) returns (found: Option<nat>)
      ensures found.Some? ==> found.value < |tables| && tables[found.value].id == table
      ensures found.None? <==> !HasTable(tables, table)
    {
      for k := 0 to |tables|
        invariant forall j :: 0 <= j < k ==> tables[j].id != table
      {
        if tables[k].id == table {
          return Some(k);
        }
      }
      found := None;
    }

    /** `add_table`: every refusal in its order, or inserted where the ids stay strictly sorted. */
    method AddTable(table: byte, name: seq<byte>) returns (result: Status)
      requires Valid()
      modifies this`tables
      ensures Valid()
      ensures result == if name == [] || |name| > NAME_MAX || !(TABLE_FIRST <= table <= TABLE_LAST) then Failure(EINVAL)
                        else if HasTable(old(tables), table) then Failure(EEXIST)
                        else if |old(tables)| >= MAX_TABLES then Failure(ENOSPC) else Success
      ensures result.Failure? ==> tables == old(tables)
      ensures result.Success? ==> multiset(tables) == multiset(old(tables)) + multiset{TableInfo(table, name, 0)}
    {
      hide Registered;
      if name == [] || |name| > NAME_MAX || !(TABLE_FIRST <= table <= TABLE_LAST) {
        return Failure(EINVAL);
      }
      var found := FindTable(table);
      if found.Some? {
        return Failure(EEXIST);
      }
      if |tables| >= MAX_TABLES {
        return Failure(ENOSPC);
      }
      var at: nat := 0;
      while at < |tables| && tables[at].id < table
        invariant at <= |tables| && forall j :: 0 <= j < at ==> tables[j].id < table
      {
        at := at + 1;
      }
      assert at < |tables| ==> tables[at].id != table;
      TableInserted(tables, entries, TableInfo(table, name, 0), at);
      InsertedMultiset(tables, TableInfo(table, name, 0), at);
      tables := tables[..at] + [TableInfo(table, name, 0)] + tables[at..];
      result := Success;
    }

    /** `add_definition`: refused whole, or inserted where the ids stay strictly sorted and counted in its
        table. */
    method AddDefinition(d: Definition) returns (result: Status)
      requires Valid()
      modifies this`entries, this`tables
      ensures Valid()
      ensures Problem(d, |old(entries)|, HasTable(old(tables), d.table)).Failure? ==>
                result == Problem(d, |old(entries)|, HasTable(old(tables), d.table))
      ensures Problem(d, |old(entries)|, HasTable(old(tables), d.table)).Success? ==>
                d.table <= TABLE_LAST
                && (result == Failure(EEXIST) <==>
                      exists i :: 0 <= i < |old(entries)| && (old(entries)[i].id == WireId(d.table, d.offset) || old(entries)[i].name == d.name))
                && (result.Failure? ==> result == Failure(EEXIST))
      ensures result.Failure? ==> entries == old(entries) && tables == old(tables)
      ensures result.Success? ==> d.table <= TABLE_LAST && multiset(entries) == multiset(old(entries)) + multiset{EntryFor(d)}
      ensures result.Success? ==> Registrable(d, |old(entries)|) && HasTable(old(tables), d.table)
      ensures Registrable(d, |old(entries)|) && HasTable(old(tables), d.table)
              && (forall i :: 0 <= i < |old(entries)| ==> old(entries)[i].name != d.name && old(entries)[i].id != d.table as int * 0x100 + d.offset) ==>
                result.Success?
    {
      hide Problem, EntryOk, EntryFor, TablesOk, Registrable;
      var table := FindTable(d.table);
      ProblemIff(d, |entries|, table.Some?);
      var problem := Problem(d, |entries|, table.Some?);
      if problem.Failure? {
        return problem;
      }
      ProblemFree(d, entries, tables);
      var e := EntryFor(d);
      var insertAt: nat := |entries|;
      for i := 0 to |entries|
        invariant insertAt == |entries| || (insertAt < i && entries[insertAt].id > e.id)
        invariant forall j :: 0 <= j < i ==> entries[j].id != e.id && entries[j].name != d.name
        invariant forall j :: 0 <= j < i && j < insertAt ==> entries[j].id < e.id
      {
        if entries[i].id == e.id || entries[i].name == d.name {
          return Failure(EEXIST);
        }
        if insertAt == |entries| && entries[i].id > e.id {
          insertAt := i;
        }
      }
      InsertKeeps(entries, e, insertAt);
      InsertedMultiset(entries, e, insertAt);
      EntryCounted(tables, entries, e, insertAt, table.value);
      entries := entries[..insertAt] + [e] + entries[insertAt..];
      tables := tables[table.value := tables[table.value].(count := tables[table.value].count + 1)];
      result := Success;
    }

    /** `kfsw_param_find_id`: binary search finds what looking at each entry would. */
    method FindId(id: uint16) returns (found: Option<Entry>)
      requires Valid()
      ensures found == Lookup(entries, id)
    {
      found := Search(entries, id);
    }
  }

  method Search(entries: seq<Entry>, id: uint16) returns (found: Option<Entry>)
    requires Sorted(entries)
    ensures found == Lookup(entries, id)
  {
    var low, high := 0, |entries|;
    while low < high
      invariant 0 <= low <= high <= |entries|
      invariant forall i :: 0 <= i < low ==> entries[i].id < id
      invariant forall i :: high <= i < |entries| ==> entries[i].id > id
    {
      var middle := low + (high - low) / 2;
      if entries[middle].id == id {
        LookupUnique(entries, middle);
        return Some(entries[middle]);
      }
      if entries[middle].id < id {
        low := middle + 1;
      } else {
        high := middle;
      }
    }
    found := None;
  }

  lemma ProblemFree(d: Definition, entries: seq<Entry>, tables: seq<TableInfo>)
    requires Problem(d, |entries|, HasTable(tables, d.table)).Success? && TablesOk(tables, entries)
    ensures HasTable(tables, d.table) && d.table <= TABLE_LAST && |entries| < MAX_DEFINITIONS
    ensures EntryOk(EntryFor(d)) && EntryFor(d).id == WireId(d.table, d.offset) && EntryFor(d).table == d.table
  {
    hide RefusesOwnDefault, WireId, CountOf;
  }

  lemma InsertKeeps(entries: seq<Entry>, e: Entry, at: nat)
    requires Registered(entries) && EntryOk(e) && at <= |entries|
    requires forall j :: 0 <= j < at ==> entries[j].id < e.id
    requires at < |entries| ==> entries[at].id > e.id
    ensures Registered(entries[..at] + [e] + entries[at..])
  {
    hide EntryOk, Sorted;
    InsertedSorted(entries, e, at, entries[..at] + [e] + entries[at..]);
  }

  lemma InsertedMultiset<T>(items: seq<T>, x: T, at: nat)
    requires at <= |items|
    ensures multiset(items[..at] + [x] + items[at..]) == multiset(items) + multiset{x}
  {
    assert items == items[..at] + items[at..];
  }

  function ItemOf(entries: seq<Entry>, e: Entry, at: nat, i: nat): Entry
    requires at <= |entries| && i <= |entries|
  {
    if i < at then entries[i] else if i == at then e else entries[i - 1]
  }

  lemma InsertedSorted(entries: seq<Entry>, e: Entry, at: nat, all: seq<Entry>)
    requires Sorted(entries) && at <= |entries| && |all| == |entries| + 1
    requires forall j :: 0 <= j < at ==> entries[j].id < e.id
    requires at < |entries| ==> entries[at].id > e.id
    requires forall i :: 0 <= i < |all| ==> all[i] == ItemOf(entries, e, at, i)
    ensures Sorted(all)
  {
    forall i, j | 0 <= i < j < |all| ensures all[i].id < all[j].id {
      var a, b := if i < at then i else i - 1, if j < at then j else j - 1;
      if i != at && j != at {
        assert entries[a].id < entries[b].id;
      } else if i == at {
        assert entries[at].id <= entries[b].id;
      }
    }
  }

  // ----- the file form of a value -----

  datatype WireType = WireType(code: byte, size: nat)

  /** `kfsw_param_wire_type_of`; size zero means "as long as the text is". */
  function WireTypeOf(e: Entry): Option<WireType> {
    match e.kind
    case U8 | X8 => Some(WireType(1, 1))
    case U16 | X16 => Some(WireType(5, 2))
    case I16 => Some(WireType(6, 2))
    case U32 | X32 => Some(WireType(2, 4))
    case I32 => Some(WireType(3, 4))
    case FLOAT => Some(WireType(4, 4))
    case DATA => Some(WireType(8, e.arraySize))
    case STRING => Some(WireType(7, 0))
    case _ => None
  }

  /** The codes of the file format. Hexadecimal types share those of their unsigned twins, every other type
      has its own, and the size is the one of the scalar. */
  lemma WireCodes(e: Entry, f: Entry)
    ensures WireTypeOf(e).Some? <==> e.kind !in {I8, U64, I64, X64, DOUBLE, INVALID}
    ensures WireTypeOf(e).Some? && WireTypeOf(f).Some? ==>
              (WireTypeOf(e).value.code == WireTypeOf(f).value.code <==> Twin(e.kind) == Twin(f.kind))
    ensures WireTypeOf(e).Some? && e.kind != STRING && e.kind != DATA ==>
              WireTypeOf(e).value.size == ScalarSize(e.kind) && ScalarLimit(e.kind) == Power256(ScalarSize(e.kind))
    ensures WireTypeOf(e).Some? ==> CODES[WireTypeOf(e).value.code - 1..WireTypeOf(e).value.code] == [Twin(e.kind)]
  {
    assert forall n :: 1 <= n <= 4 ==> Power256(n) == 0x100 * Power256(n - 1);
  }

  /** `enum kfsw_param_wire_type`, from code 1 on. */
  const CODES: seq<Type> := [U8, U32, I32, FLOAT, U16, I16, STRING, DATA]

  function Twin(t: Type): Type {
    match t
    case X8 => U8
    case X16 => U16
    case X32 => U32
    case _ => t
  }

  function Power256(n: nat): nat {
    if n == 0 then 1 else 0x100 * Power256(n - 1)
  }

  /** The bytes `kfsw_param_wire_encode` writes for a value. */
  function WireBytes(v: Value): (b: seq<byte>)
    requires Formed(v) && (v.Scalar? ==> ScalarSize(v.kind) in {1, 2, 4})
  {
    match v
    case Text(chars) => chars
    case Data(bytes) => bytes
    case Scalar(k, bits) =>
      if ScalarSize(k) == 1 then [bits] else if ScalarSize(k) == 2 then Put16(bits) else Put32(bits)
  }

  /** The value half of `kfsw_param_wire_decode`, before the parameter's own check. */
  function WireValue(e: Entry, code: byte, value: seq<byte>): (r: Result<Value>)
    ensures r.Ok? ==> Formed(r.value) && TypeMatches(e.kind, r.value) && (r.value.Data? ==> |r.value.bytes| == e.arraySize)
  {
    match WireTypeOf(e)
    case None => Err(ENOTSUP)
    case Some(WireType(expected, size)) =>
      if code != expected then Err(EBADMSG)
      else if size != 0 && |value| != size then Err(EBADMSG)
      else if e.kind == DATA then
        if |value| == 0 || |value| != e.arraySize || |value| > STRING_MAX then Err(EBADMSG) else Ok(Data(value))
      else if e.kind == STRING then
        if |value| == 0 || |value| > STRING_MAX || value[|value| - 1] != 0 then Err(EBADMSG) else Ok(Text(value))
      else if size == 1 then Ok(Scalar(e.kind, value[0]))
      else if size == 2 then Ok(Scalar(e.kind, Get16(value)))
      else Ok(Scalar(e.kind, Get32(value)))
  }

  /** `kfsw_param_wire_decode`. */
  function WireDecode(e: Entry, code: byte, value: seq<byte>): (r: Result<Value>)
    ensures r.Ok? ==> Formed(r.value) && Validate(e, r.value).Success?
  {
    match WireValue(e, code, value)
    case Err(error) => Err(error)
    case Ok(v) => match Validate(e, v) { case Failure(error) => Err(error) case Success => Ok(v) }
  }

  /** What a decode accepts, in terms of the value: the entry's own wire code, the value's own bytes,
      and a value the entry accepts. Decoding inverts encoding, and only encodings decode. */
  lemma DecodeIff(e: Entry, code: byte, value: seq<byte>, v: Value)
    requires EntryOk(e)
    ensures WireDecode(e, code, value) == Ok(v) <==>
            WireTypeOf(e).Some? && code == WireTypeOf(e).value.code && Formed(v) && Validate(e, v).Success? && WireBytes(v) == value
  {
    hide Validator;
    var t := WireTypeOf(e);
    if t.Some? && t.value.size == 2 && e.kind != DATA && |value| == 2 {
      PutGet16(value);
    }
    if t.Some? && t.value.size == 4 && e.kind != DATA && |value| == 4 {
      PutGet32(value);
    }
  }
}
