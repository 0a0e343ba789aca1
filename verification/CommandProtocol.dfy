/** The command wire codec, src/command/command_protocol.c: a 12-byte header (20 in version 2),
    then a bounded payload. A request payload is a list of typed arguments. */
module CommandProtocol {
  import opened Bytes
  import opened Errors

  const HEADER_SIZE := 12
  const RETRY_HEADER_SIZE := 20
  const MAX_PAYLOAD_SIZE := 192
  const MAX_ARGS := 4
  const MAX_TEXT_SIZE := 64

  const OP_REQUEST: byte := 1
  const OP_RESULT: byte := 2
  const OP_PREPARE: byte := 3
  const OP_TICKET: byte := 4
  const OP_EXECUTE: byte := 5

  /** `payload_size` is the length of `payload`. */
  datatype Message = Message(
    version: byte, token: uint64, opcode: byte, status: byte, argCount: byte,
    commandId: uint16, requestId: uint16, payload: seq<byte>)

  // ----- message header -----

  /** Version zero selects legacy version 1 when encoding. */
  function WireVersion(m: Message): (v: byte) {
    if m.version == 0 then 1 else m.version
  }

  function HeaderSize(version: byte): (n: nat)
    ensures n == HEADER_SIZE || n == RETRY_HEADER_SIZE
  {
    if version == 2 then RETRY_HEADER_SIZE else HEADER_SIZE
  }

  function Header(m: Message): (h: seq<byte>)
    requires |m.payload| <= MAX_PAYLOAD_SIZE
    ensures |h| == HeaderSize(WireVersion(m))
  {
    [WireVersion(m), m.opcode, m.status, m.argCount]
    + Put16(m.commandId) + Put16(m.requestId) + Put16(|m.payload|) + [0, 0]
    + if WireVersion(m) == 2 then Put64(m.token) else []
  }

  function Encode(m: Message, capacity: nat): (r: Result<seq<byte>>) {
    if |m.payload| > MAX_PAYLOAD_SIZE || m.argCount > MAX_ARGS then Err(EINVAL)
    else if WireVersion(m) != 1 && WireVersion(m) != 2 then Err(EPROTONOSUPPORT)
    else if HeaderSize(WireVersion(m)) + |m.payload| > capacity then Err(EMSGSIZE)
    else Ok(Header(m) + m.payload)
  }

  predicate OpcodeKnown(version: byte, opcode: byte) {
    OP_REQUEST <= opcode <= if version == 2 then OP_EXECUTE else OP_RESULT
  }

  function Decode(b: seq<byte>): (r: Result<Message>) {
    if |b| < HEADER_SIZE then Err(EMSGSIZE)
    else if b[0] != 1 && b[0] != 2 then Err(EPROTONOSUPPORT)
    else if |b| < HeaderSize(b[0]) then Err(EMSGSIZE)
    else if b[10] != 0 || b[11] != 0 then Err(EBADMSG)
    else if !OpcodeKnown(b[0], b[1]) then Err(ENOTSUP)
    else if b[3] > MAX_ARGS then Err(E2BIG)
    else if Get16(b[8..10]) > MAX_PAYLOAD_SIZE then Err(EMSGSIZE)
    else if HeaderSize(b[0]) + Get16(b[8..10]) != |b| then Err(EMSGSIZE)
    else Ok(Message(b[0], if b[0] == 2 then Get64(b[12..20]) else 0, b[1], b[2], b[3],
                    Get16(b[4..6]), Get16(b[6..8]), b[HeaderSize(b[0])..]))
  }

  /** A message is encoded exactly when its version is known, its payload and argument count are within
      bounds and the whole fits, and then takes the header of its version and its payload. */
  lemma EncodeIff(m: Message, capacity: nat)
    ensures Encode(m, capacity).Ok? <==>
            m.version <= 2 && |m.payload| <= 192 && m.argCount <= 4 && (if m.version == 2 then 20 else 12) + |m.payload| <= capacity
    ensures Encode(m, capacity).Ok? ==> |Encode(m, capacity).value| == (if m.version == 2 then 20 else 12) + |m.payload|
    ensures |m.payload| > 192 || m.argCount > 4 ==> Encode(m, capacity) == Err(EINVAL)
    ensures |m.payload| <= 192 && m.argCount <= 4 && m.version > 2 ==> Encode(m, capacity) == Err(EPROTONOSUPPORT)
  {
  }

  /** Where each field lies in an encoded message. */
  lemma WireLayout(m: Message, capacity: nat)
    requires Encode(m, capacity).Ok?
    ensures var b, size := Encode(m, capacity).value, if m.version == 2 then 20 else 12;
            && |b| == size + |m.payload| && b[0] == (if m.version == 2 then 2 else 1)
            && b[1] == m.opcode && b[2] == m.status && b[3] == m.argCount
            && Get16(b[4..6]) == m.commandId && Get16(b[6..8]) == m.requestId && Get16(b[8..10]) == |m.payload|
            && b[10] == b[11] == 0 && (m.version == 2 ==> Get64(b[12..20]) == m.token) && b[size..] == m.payload
  {
    var b := Encode(m, capacity).value;
    assert b[4..6] == Put16(m.commandId) && b[6..8] == Put16(m.requestId) && b[8..10] == Put16(|m.payload|);
    if m.version == 2 {
      assert b[12..20] == Put64(m.token);
    }
  }

  /** Every encoding is accepted back with every field intact, the version spelled out and no token in
      version 1, unless the opcode was unknown to the version: the encoder does not check it, the decoder
      refuses it. */
  lemma DecodeEncode(m: Message, capacity: nat)
    requires Encode(m, capacity).Ok?
    ensures Decode(Encode(m, capacity).value)
         == if 1 <= m.opcode <= (if m.version == 2 then 5 else 2)
            then Ok(m.(version := if m.version == 2 then 2 else 1, token := if m.version == 2 then m.token else 0))
            else Err(ENOTSUP)
  {
    var b := Encode(m, capacity).value;
    assert b[4..6] == Put16(m.commandId);
    assert b[6..8] == Put16(m.requestId);
    assert b[8..10] == Put16(|m.payload|);
    assert b[HeaderSize(b[0])..] == m.payload;
    if b[0] == 2 {
      assert b[12..20] == Put64(m.token);
    }
  }

  /** Re-encoding any accepted buffer reproduces it byte for byte. */
  lemma EncodeDecode(b: seq<byte>, capacity: nat)
    requires Decode(b).Ok? && |b| <= capacity
    ensures Encode(Decode(b).value, capacity) == Ok(b)
  {
    var m := Decode(b).value;
    PutGet16(b[4..6]);
    PutGet16(b[6..8]);
    PutGet16(b[8..10]);
    var h := HeaderSize(b[0]);
    if b[0] == 2 {
      PutGet64(b[12..20]);
    }
    assert Header(m) == b[..h];
    assert b == b[..h] + b[h..];
  }

  // ----- argument payload -----

  /** A C string: the bytes before its terminator. */
  type CString = s: seq<byte> | 0 !in s

  datatype Arg = U32(u: uint32) | I32(i: int32) | Text(text: CString)

  const TYPE_U32: byte := 1
  const TYPE_I32: byte := 2
  const TYPE_TEXT: byte := 3

  predicate Fits(a: Arg) {
    a.Text? ==> |a.text| <= MAX_TEXT_SIZE
  }

  function TypeCode(a: Arg): byte {
    match a
    case U32(_) => TYPE_U32
    case I32(_) => TYPE_I32
    case Text(_) => TYPE_TEXT
  }

  function Value(a: Arg): (v: seq<byte>)
    ensures !a.Text? ==> |v| == 4
  {
    match a
    case U32(u) => Put32(u)
    case I32(i) => Put32(Unsigned32(i))
    case Text(t) => t
  }

  /** One entry: type, size, value. */
  function Entry(a: Arg): (e: seq<byte>)
    requires Fits(a)
    ensures |e| == 3 + |Value(a)|
  {
    [TypeCode(a)] + Put16(|Value(a)|) + Value(a)
  }

  ghost predicate AllFit(args: seq<Arg>) {
    forall i :: 0 <= i < |args| ==> Fits(args[i])
  }

  function Entries(args: seq<Arg>): (p: seq<byte>)
    requires AllFit(args)
  {
    if args == [] then [] else Entries(args[..|args| - 1]) + Entry(args[|args| - 1])
  }

  lemma {:induction false} EntriesPrefix(args: seq<Arg>, n: nat)
    requires AllFit(args) && n <= |args|
    ensures Entries(args[..n]) <= Entries(args)
    decreases |args|
  {
    if n == |args| {
      assert args[..n] == args;
    } else {
      EntriesPrefix(args[..|args| - 1], n);
      assert args[..|args| - 1][..n] == args[..n];
    }
  }

  /** `args` is the argument list that `payload` spells with exactly `count` entries. */
  ghost predicate Spells(args: seq<Arg>, payload: seq<byte>, count: nat) {
    |args| == count && AllFit(args) && Entries(args) == payload
  }

  /** `a` is encoded in `payload` at `offset`. */
  ghost predicate EntryAt(payload: seq<byte>, offset: nat, a: Arg) {
    Fits(a) && offset + |Entry(a)| <= |payload| && payload[offset..offset + |Entry(a)|] == Entry(a)
  }

  lemma SliceAfter(p: seq<byte>, a: seq<byte>, e: seq<byte>)
    requires a + e <= p
    ensures |a| + |e| <= |p| && p[|a|..|a| + |e|] == e
  {
  }

  /** The entry after the first `n` arguments sits where their encodings end. */
  lemma NextEntry(args: seq<Arg>, payload: seq<byte>, n: nat)
    requires Spells(args, payload, |args|) && n < |args|
    ensures EntryAt(payload, |Entries(args[..n])|, args[n])
  {
    hide Entry, Value;
    EntriesPrefix(args, n + 1);
    assert args[..n + 1][..n] == args[..n];
    SliceAfter(payload, Entries(args[..n]), Entry(args[n]));
  }

  method EncodeArgs(args: seq<Arg>, capacity: nat) returns (r: Result<seq<byte>>)
    ensures r.Ok? <==> |args| <= MAX_ARGS && AllFit(args) && |Entries(args)| <= capacity
    ensures r.Ok? ==> r.value == Entries(args)
    ensures |args| > MAX_ARGS ==> r == Err(E2BIG)
  {
    hide Entry, Value;
    if |args| > MAX_ARGS {
      return Err(E2BIG);
    }
    var payload: seq<byte> := [];
    var index := 0;
    while index < |args|
      invariant 0 <= index <= |args|
      invariant AllFit(args[..index])
      invariant payload == Entries(args[..index]) && |payload| <= capacity
    {
      if args[index].Text? && |args[index].text| > MAX_TEXT_SIZE {
        return Err(ENAMETOOLONG);
      }
      assert args[..index + 1][..index] == args[..index];
      if |payload| + 3 + |Value(args[index])| > capacity {
        if AllFit(args) {
          EntriesPrefix(args, index + 1);
        }
        return Err(EMSGSIZE);
      }
      payload := payload + Entry(args[index]);
      index := index + 1;
    }
    assert args[..|args|] == args;
    r := Ok(payload);
  }

  method DecodeArgs(payload: seq<byte>, count: nat, maxArgs: nat) returns (r: Result<seq<Arg>>)
    ensures r.Ok? ==> count <= maxArgs && Spells(r.value, payload, count)
    ensures count <= maxArgs ==> forall args :: Spells(args, payload, count) ==> r == Ok(args)
    ensures count > maxArgs ==> r == Err(E2BIG)
  {
    hide Spells, Entries, EntryAt, DecodeEntry, Value, Entry, Forced;
    if count > maxArgs {
      return Err(E2BIG);
    }
    var args: seq<Arg> := [];
    var offset: nat := 0;
    ForcedStart(payload, count);
    while |args| < count
      invariant |args| <= count && AllFit(args)
      invariant offset <= |payload| && Entries(args) == payload[..offset]
      invariant Forced(payload, count, args)
    {
      var entry := DecodeEntry(payload, offset);
      if entry.Err? {
        Blocked(payload, count, args, offset);
        return Err(entry.error);
      }
      var a := entry.value;
      DecodeEntryIff(payload, offset, a);
      EntriesGrow(payload, args, offset, a);
      ForcedStep(payload, count, args, offset, a);
      args := args + [a];
      offset := offset + 3 + |Value(a)|;
    }
    ForcedEnd(payload, count, args);
    if offset != |payload| {
      return Err(EMSGSIZE);
    }
    r := Ok(args);
  }

  /** Every list that spells the payload starts with `args`. */
  ghost predicate Forced(payload: seq<byte>, count: nat, args: seq<Arg>) {
    |args| <= count && forall w :: Spells(w, payload, count) ==> w[..|args|] == args
  }

  lemma ForcedStart(payload: seq<byte>, count: nat)
    ensures Forced(payload, count, []) && Entries([]) == payload[..0]
  {
  }

  lemma EntriesGrow(payload: seq<byte>, args: seq<Arg>, offset: nat, a: Arg)
    requires AllFit(args) && offset <= |payload| && Entries(args) == payload[..offset] && EntryAt(payload, offset, a)
    ensures offset + 3 + |Value(a)| <= |payload| && AllFit(args + [a])
    ensures Entries(args + [a]) == payload[..offset + 3 + |Value(a)|]
  {
    hide Entry, Value;
    var end := offset + |Entry(a)|;
    assert (args + [a])[..|args|] == args;
    assert payload[..offset] + payload[offset..end] == payload[..end];
  }

  /** Where the decoder stands, every list still possible has its next entry. */
  lemma NextOf(payload: seq<byte>, count: nat, args: seq<Arg>, offset: nat, w: seq<Arg>)
    requires AllFit(args) && offset <= |payload| && Entries(args) == payload[..offset] && |args| < count
    requires Forced(payload, count, args) && Spells(w, payload, count)
    ensures EntryAt(payload, offset, w[|args|]) && w[..|args|] == args
  {
    hide Entry, Value, EntryAt, Entries;
    NextEntry(w, payload, |args|);
    assert |Entries(args)| == offset;
  }

  lemma ForcedStep(payload: seq<byte>, count: nat, args: seq<Arg>, offset: nat, a: Arg)
    requires AllFit(args) && offset <= |payload| && Entries(args) == payload[..offset] && |args| < count
    requires Forced(payload, count, args) && EntryAt(payload, offset, a)
    ensures Forced(payload, count, args + [a])
  {
    hide Entry, Value, EntryAt, Entries, Fits;
    forall w | Spells(w, payload, count) ensures w[..|args| + 1] == args + [a] {
      NextOf(payload, count, args, offset, w);
      EntryUnique(payload, offset, a, w[|args|]);
      assert w[..|args| + 1] == w[..|args|] + [w[|args|]];
    }
  }

  lemma Blocked(payload: seq<byte>, count: nat, args: seq<Arg>, offset: nat)
    requires AllFit(args) && offset <= |payload| && Entries(args) == payload[..offset] && |args| < count
    requires Forced(payload, count, args) && DecodeEntry(payload, offset).Err?
    ensures forall w :: !Spells(w, payload, count)
  {
    hide Entry, Value, EntryAt, Entries, DecodeEntry;
    forall w | Spells(w, payload, count) ensures false {
      NextOf(payload, count, args, offset, w);
      DecodeEntryIff(payload, offset, w[|args|]);
    }
  }

  /** A list of full length either spells the payload or nothing does. */
  lemma ForcedEnd(payload: seq<byte>, count: nat, args: seq<Arg>)
    requires |args| == count && AllFit(args) && Forced(payload, count, args)
    ensures Spells(args, payload, count) <==> Entries(args) == payload
    ensures forall w :: Spells(w, payload, count) ==> w == args
    ensures |Entries(args)| != |payload| ==> !Spells(args, payload, count)
    ensures forall n :: 0 <= n <= |payload| && Entries(args) == payload[..n] ==> (n == |payload| <==> Entries(args) == payload)
  {
    forall w | Spells(w, payload, count) ensures w == args {
      assert w[..count] == w;
    }
  }

  /** The loop body of the decoder: one entry at `offset`. */
  function DecodeEntry(payload: seq<byte>, offset: nat): (r: Result<Arg>) {
    if offset + 3 > |payload| then Err(EMSGSIZE)
    else
      var size := Get16(payload[offset + 1..offset + 3]);
      if offset + 3 + size > |payload| then Err(EMSGSIZE)
      else DecodeValue(payload[offset], payload[offset + 3..offset + 3 + size])
  }

  function DecodeValue(code: byte, value: seq<byte>): (r: Result<Arg>) {
    if code == TYPE_U32 then
      if |value| != 4 then Err(EBADMSG) else Ok(U32(Get32(value)))
    else if code == TYPE_I32 then
      if |value| != 4 then Err(EBADMSG) else Ok(I32(Signed32(Get32(value))))
    else if code == TYPE_TEXT then
      if |value| > MAX_TEXT_SIZE then Err(EMSGSIZE)
      else if 0 in value then Err(EBADMSG)
      else Ok(Text(value))
    else Err(ENOTSUP)
  }

  lemma DecodeValueIff(code: byte, value: seq<byte>, a: Arg)
    ensures DecodeValue(code, value) == Ok(a) <==> Fits(a) && code == TypeCode(a) && value == Value(a)
  {
    hide Put32, Get32, Signed32, Unsigned32;
    if |value| == 4 {
      PutGet32(value);
    }
    if a.I32? {
      assert Signed32(Unsigned32(a.i)) == a.i by {
        SignedUnsigned(a.i);
      }
    }
  }

  lemma SignedUnsigned(i: int32)
    ensures Signed32(Unsigned32(i)) == i
  {
  }

  /** The decoder finds an entry exactly where one is encoded. */
  lemma DecodeEntryIff(payload: seq<byte>, offset: nat, a: Arg)
    requires offset <= |payload|
    ensures DecodeEntry(payload, offset) == Ok(a) <==> EntryAt(payload, offset, a)
  {
    hide DecodeValue, Value, TypeCode, Put16, Get16;
    if EntryAt(payload, offset, a) {
      EntryShape(payload, offset, a);
      DecodeValueIff(payload[offset], Value(a), a);
    }
    if DecodeEntry(payload, offset) == Ok(a) {
      var size := Get16(payload[offset + 1..offset + 3]);
      DecodeValueIff(payload[offset], payload[offset + 3..offset + 3 + size], a);
      EntryFromParts(payload, offset, size, a);
    }
  }

  lemma SubSlice(p: seq<byte>, offset: nat, size: nat, i: nat, j: nat)
    requires offset + size <= |p| && i <= j <= size
    ensures p[offset..offset + size][i..j] == p[offset + i..offset + j]
  {
    var a, b := p[offset..offset + size][i..j], p[offset + i..offset + j];
    forall k | 0 <= k < |a| ensures a[k] == b[k] {
      assert a[k] == p[offset..offset + size][i + k];
    }
  }

  /** Reading the parts of an encoded entry back. */
  lemma EntryShape(payload: seq<byte>, offset: nat, a: Arg)
    requires offset <= |payload| && EntryAt(payload, offset, a)
    ensures offset + 3 + |Value(a)| <= |payload| && payload[offset] == TypeCode(a)
    ensures Get16(payload[offset + 1..offset + 3]) == |Value(a)|
    ensures payload[offset + 3..offset + 3 + |Value(a)|] == Value(a)
  {
    hide Value, TypeCode, Put16, Get16;
    var e := Entry(a);
    var part := payload[offset..offset + |e|];
    assert part == e;
    assert payload[offset] == part[0] && e[1..3] == Put16(|Value(a)|) && e[3..] == Value(a);
    SubSlice(payload, offset, |e|, 1, 3);
    SubSlice(payload, offset, |e|, 3, |e|);
  }

  /** An entry is its three parts, so decoded parts re-encode to the same bytes. */
  lemma EntryFromParts(payload: seq<byte>, offset: nat, size: nat, a: Arg)
    requires offset + 3 + size <= |payload| && size == Get16(payload[offset + 1..offset + 3])
    requires Fits(a) && payload[offset] == TypeCode(a) && payload[offset + 3..offset + 3 + size] == Value(a)
    ensures EntryAt(payload, offset, a)
  {
    hide Value, TypeCode, Put16, Get16;
    PutGet16(payload[offset + 1..offset + 3]);
    assert payload[offset..offset + 3 + size]
        == [payload[offset]] + payload[offset + 1..offset + 3] + payload[offset + 3..offset + 3 + size];
  }

  /** Two entries at one place are the same entry. */
  lemma EntryUnique(payload: seq<byte>, offset: nat, a: Arg, b: Arg)
    requires offset <= |payload| && EntryAt(payload, offset, a) && EntryAt(payload, offset, b)
    ensures a == b
  {
    hide EntryAt, DecodeEntry;
    DecodeEntryIff(payload, offset, a);
    DecodeEntryIff(payload, offset, b);
  }

  /** Argument lists and accepted payloads are in bijection. */
  lemma ArgumentsUnique(a: seq<Arg>, b: seq<Arg>, payload: seq<byte>, count: nat)
    requires Spells(a, payload, count) && Spells(b, payload, count)
    ensures a == b
  {
    UniquePrefix(a, b, payload, count, count);
    assert a[..count] == a && b[..count] == b;
  }

  lemma {:induction false} UniquePrefix(a: seq<Arg>, b: seq<Arg>, payload: seq<byte>, count: nat, n: nat)
    requires Spells(a, payload, count) && Spells(b, payload, count) && n <= count
    ensures a[..n] == b[..n]
  {
    hide Entry, Value, Entries;
    if n > 0 {
      UniquePrefix(a, b, payload, count, n - 1);
      NextEntry(a, payload, n - 1);
      NextEntry(b, payload, n - 1);
      EntryUnique(payload, |Entries(a[..n - 1])|, a[n - 1], b[n - 1]);
      assert a[..n] == a[..n - 1] + [a[n - 1]];
      assert b[..n] == b[..n - 1] + [b[n - 1]];
    }
  }
}
