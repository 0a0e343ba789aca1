/** The stop-and-wait upload, src/fwu/fwu_lite_protocol.c and src/fwu/fwu_lite_csp.c: numbered,
    checksummed blocks over a link that loses, repeats, delays and reorders them. */
module FirmwareLite {
  import opened Bytes
  import opened Errors
  import opened Firmware
  import Arith
  import Crc

  const BLOCK_SIZE: BlockSize
  /** Within the range its Kconfig entry allows. */
  type BlockSize = n: nat | 16 <= n <= 512 witness 16
  /** A block number has 16 bits. */
  const BLOCK_NUMBERS := 0x1_0000

  const HEADER_SIZE := 12
  const OP_BEGIN: byte := 1
  const OP_BLOCK: byte := 2
  const OP_STATUS: byte := 3
  const OP_VERIFY: byte := 4
  const OP_START_FLASHING: byte := 5
  const OP_ABORT: byte := 6

  const STATUS_OK: byte := 0
  const STATUS_INVALID: byte := 1
  const STATUS_OUT_OF_ORDER: byte := 2
  const STATUS_BAD_BLOCK: byte := 3
  const STATUS_BAD_IMAGE: byte := 4
  const STATUS_TOO_LARGE: byte := 5
  const STATUS_BUSY: byte := 6
  const STATUS_FAILED: byte := 7

  datatype Message = Message(opcode: byte, status: byte, blockIndex: uint16, argument: uint32, extra: uint32, data: seq<byte>)

  // ----- codec -----

  function Encode(m: Message, capacity: nat): (r: Result<seq<byte>>) {
    if |m.data| > BLOCK_SIZE || HEADER_SIZE + |m.data| > capacity then Err(EMSGSIZE)
    else Ok([m.opcode, m.status] + Put16(m.blockIndex) + Put32(m.argument) + Put32(m.extra) + m.data)
  }

  /** The payload size is cut to 16 bits before it is checked. */
  function Decode(b: seq<byte>): (r: Result<Message>) {
    if |b| < HEADER_SIZE then Err(EBADMSG)
    else if !(OP_BEGIN <= b[0] <= OP_ABORT) then Err(EBADMSG)
    else
      var size := (|b| - HEADER_SIZE) % 0x1_0000;
      if size > BLOCK_SIZE then Err(EMSGSIZE)
      else Ok(Message(b[0], b[1], Get16(b[2..4]), Get32(b[4..8]), Get32(b[8..12]), b[12..12 + size]))
  }

  /** Where each field lies in an encoded message, and when there is none. */
  lemma WireLayout(m: Message, capacity: nat)
    ensures Encode(m, capacity) == Err(EMSGSIZE) || Encode(m, capacity).Ok?
    ensures Encode(m, capacity).Ok? <==> |m.data| <= BLOCK_SIZE && 12 + |m.data| <= capacity
    ensures Encode(m, capacity).Ok? ==>
              var b := Encode(m, capacity).value;
              && |b| == 12 + |m.data| && b[0] == m.opcode && b[1] == m.status
              && Get16(b[2..4]) == m.blockIndex && Get32(b[4..8]) == m.argument && Get32(b[8..12]) == m.extra && b[12..] == m.data
  {
    if Encode(m, capacity).Ok? {
      var b := Encode(m, capacity).value;
      assert b[2..4] == Put16(m.blockIndex) && b[4..8] == Put32(m.argument) && b[8..12] == Put32(m.extra);
    }
  }

  /** Which buffers are accepted: the payload length counts only in its low 16 bits. */
  lemma DecodeIff(b: seq<byte>)
    ensures Decode(b).Ok? <==> |b| >= 12 && 1 <= b[0] <= 6 && (|b| - 12) % 65536 <= BLOCK_SIZE
    ensures Decode(b) == Err(EMSGSIZE) <==> |b| >= 12 && 1 <= b[0] <= 6 && (|b| - 12) % 65536 > BLOCK_SIZE
  {
  }

  lemma DecodeEncode(m: Message, capacity: nat)
    requires Encode(m, capacity).Ok?
    ensures Decode(Encode(m, capacity).value) == if OP_BEGIN <= m.opcode <= OP_ABORT then Ok(m) else Err(EBADMSG)
  {
    var b := Encode(m, capacity).value;
    assert b[2..4] == Put16(m.blockIndex) && b[4..8] == Put32(m.argument) && b[8..12] == Put32(m.extra);
    assert (|b| - HEADER_SIZE) % 0x1_0000 == |m.data|;
    assert b[12..12 + |m.data|] == m.data;
  }

  /** Re-encoding an accepted buffer gives it back exactly when its payload length fits 16 bits. */
  lemma EncodeDecode(b: seq<byte>, capacity: nat)
    requires Decode(b).Ok? && |b| <= capacity
    ensures Encode(Decode(b).value, capacity) == Ok(b) <==> |b| - HEADER_SIZE < 0x1_0000
  {
    if |b| - HEADER_SIZE < 0x1_0000 {
      PutGet16(b[2..4]);
      PutGet32(b[4..8]);
      PutGet32(b[8..12]);
      assert (|b| - HEADER_SIZE) % 0x1_0000 == |b| - HEADER_SIZE;
      assert b[12..12 + (|b| - HEADER_SIZE)] == b[12..];
      assert b == [b[0], b[1]] + b[2..4] + b[4..8] + b[8..12] + b[12..];
    }
  }

  // ----- the node -----

  function StatusFor(result: Status): byte {
    match result
    case Success => STATUS_OK
    case Failure(EBUSY) => STATUS_BUSY
    case Failure(EFBIG) => STATUS_TOO_LARGE
    case Failure(ESPIPE) => STATUS_OUT_OF_ORDER
    case Failure(EILSEQ) => STATUS_BAD_IMAGE
    case Failure(EINVAL) => STATUS_INVALID
    case Failure(EAGAIN) => STATUS_INVALID
    case Failure(_) => STATUS_FAILED
  }

  /** What a block is answered with. */
  function BlockStatus(state: State, received: nat, total: nat, request: Message, writes: bool): byte {
    if request.data == [] || state != Receiving then STATUS_INVALID
    else if request.blockIndex != received / BLOCK_SIZE then STATUS_OUT_OF_ORDER
    else if received + |request.data| < total && |request.data| != BLOCK_SIZE then STATUS_INVALID
    else if Crc.Checksum(request.data) != request.argument then STATUS_BAD_BLOCK
    else if received + |request.data| > total then STATUS_TOO_LARGE
    else if writes then STATUS_OK else STATUS_FAILED
  }

  /** A block is stored exactly when it is the one expected, full unless it ends the image, matches its checksum,
      fits and is written; otherwise the first of these that fails is told. */
  lemma BlockStatusIff(state: State, received: nat, total: nat, request: Message, writes: bool)
    ensures var status, after := BlockStatus(state, received, total, request, writes), received + |request.data|;
            var placed := state == Receiving && request.data != [] && request.blockIndex == received / BLOCK_SIZE;
            var shaped := placed && (|request.data| == BLOCK_SIZE || after >= total);
            var sound := shaped && request.argument == Crc.Checksum(request.data);
            && (status == 0 <==> sound && after <= total && writes)
            && (status == 2 <==> state == Receiving && request.data != [] && request.blockIndex != received / BLOCK_SIZE)
            && (status == 3 <==> shaped && !sound)
            && (status == 5 <==> sound && after > total)
            && (status == 7 <==> sound && after <= total && !writes)
            && (status == 1 <==> state != Receiving || request.data == [] || (placed && !shaped))
  {
  }

  /** `handle_block`: in order, full unless last, checksummed; then an ordinary write. */
  method HandleBlock(node: Update, request: Message, flash: Flash) returns (status: byte)
    requires node.Valid()
    modifies node
    ensures node.Valid() && node.readers == old(node.readers)
    ensures node.total == old(node.total) && node.expectedCrc == old(node.expectedCrc)
    ensures status == BlockStatus(old(node.state), old(node.received), old(node.total), request, flash.write)
    ensures status == STATUS_OK ==>
              && old(node.state) == Receiving && node.state == Receiving
              && request.blockIndex == old(node.received) / BLOCK_SIZE
              && (old(node.received) + |request.data| < node.total ==> |request.data| == BLOCK_SIZE)
              && node.Accepted() == old(node.Accepted()) + request.data && node.received == old(node.received) + |request.data|
    ensures status != STATUS_OK ==>
              node.state == Failed || node.Unchanged(old(node.state), old(node.slot), old(node.buffer), old(node.received), old(node.total), old(node.expectedCrc))
    ensures status == STATUS_OUT_OF_ORDER ==> node.state == old(node.state) == Receiving && node.received == old(node.received)
  {
    if request.data == [] {
      return STATUS_INVALID;
    }
    if node.state != Receiving {
      return STATUS_INVALID;
    }
    if request.blockIndex != node.received / BLOCK_SIZE {
      return STATUS_OUT_OF_ORDER;
    }
    if node.received + |request.data| < node.total && |request.data| != BLOCK_SIZE {
      return STATUS_INVALID;
    }
    if Crc.Checksum(request.data) != request.argument {
      return STATUS_BAD_BLOCK;
    }
    var result := node.Write(node.received, request.data, flash);
    status := StatusFor(result);
  }

  /** What a block does to a transfer, by the status it is answered with: the expected one is appended, an
      unexpected one changes nothing, and none takes anything back. */
  predicate BlockMoves(state: State, received: nat, request: Message, status: byte, state': State, received': nat) {
    && (state' == Receiving ==> state == Receiving && received' >= received)
    && (status == STATUS_OK ==> state' == Receiving && received' == received + |request.data| && request.blockIndex == received / BLOCK_SIZE)
    && (status == STATUS_OUT_OF_ORDER ==> state' == Receiving && received' == received)
  }

  /** A block from the sender of `image` keeps what the node holds a beginning of the image. */
  method HandleImageBlock(node: Update, request: Message, flash: Flash, ghost image: seq<byte>) returns (status: byte)
    requires node.Valid()
    modifies node
    ensures node.Valid() && node.readers == old(node.readers)
    ensures FromSender(request, image) && request.opcode == OP_BLOCK && old(Holds(node, image)) ==> Holds(node, image)
    ensures status == BlockStatus(old(node.state), old(node.received), old(node.total), request, flash.write)
    ensures old(Holds(node, image)) && status != STATUS_OK ==> Holds(node, image)
    ensures BlockMoves(old(node.state), old(node.received), request, status, node.state, node.received)
  {
    hide Boundary, BlockMessage, Block, BlockStatus;
    ghost var before := node.received;
    ghost var holding := Holds(node, image) && FromSender(request, image) && request.opcode == OP_BLOCK;
    status := HandleBlock(node, request, flash);
    if holding && status == STATUS_OK {
      NextBlock(image, before, request);
    }
  }

  /** `handle_verify` and `handle_start_flashing`: what passes is the image itself. */
  method HandleVerify(node: Update, flash: Flash, flashing: bool, ghost image: seq<byte>) returns (status: byte)
    requires node.Valid()
    modifies node
    ensures node.Valid() && node.readers == old(node.readers)
    ensures old(Holds(node, image)) ==> Holds(node, image)
    ensures !flashing && status == STATUS_OK ==> node.state == Verified
    ensures !flashing && old(node.state) == Receiving && old(Holds(node, image)) && old(node.received) == |image| && flash.flush ==>
              status == STATUS_OK
    ensures flashing && status == STATUS_OK ==> node.state == Ready && node.swapScheduled
    ensures var verified := VerifyStatus(old(node.state), old(node.received), old(node.total), old(node.actualCrc) == old(node.expectedCrc), flash.flush);
            status == if flashing && node.readers > 0 then STATUS_BUSY else if !flashing || verified != STATUS_OK then verified
                      else if flash.upgrade && flash.swapScheduled then STATUS_OK else STATUS_FAILED
  {
    hide Boundary;
    assert image[..|image|] == image;
    var result;
    if flashing {
      result := node.Finish(flash);
    } else {
      result := node.Verify(flash);
    }
    status := StatusFor(result);
  }

  method HandleBegin(node: Update, request: Message, flash: Flash, ghost image: seq<byte>) returns (status: byte)
    requires node.Valid()
    modifies node
    ensures node.Valid() && node.readers == old(node.readers)
    ensures FromSender(request, image) && request.opcode == OP_BEGIN && (old(Holds(node, image)) || status == STATUS_OK) ==> Holds(node, image)
    ensures status == STATUS_OK ==> node.state == Receiving && node.received == 0 && node.total == request.argument
    ensures status == if request.argument == 0 then STATUS_INVALID else if request.argument > node.maxImage then STATUS_TOO_LARGE
                      else if old(node.state) == Receiving || node.readers > 0 || flash.needsRevert then STATUS_BUSY
                      else if flash.erase && flash.open && flash.init then STATUS_OK else STATUS_FAILED
  {
    hide BlockMessage, Block;
    assert image[..0] == [];
    var result := node.Begin(request.argument, request.extra, flash);
    status := StatusFor(result);
  }

  /** What a verification is answered with, from the state it meets. */
  function VerifyStatus(state: State, received: nat, total: nat, crcMatches: bool, flushes: bool): byte {
    if state == Verified then STATUS_OK
    else if state != Receiving || received != total then STATUS_INVALID
    else if !crcMatches then STATUS_BAD_IMAGE
    else if flushes then STATUS_OK else STATUS_FAILED
  }

  /** `kfsw_fwu_lite_handle`; the reply always describes the state after the request. */
  method Handle(node: Update, request: Message, flash: Flash, ghost image: seq<byte>) returns (reply: Message)
    requires node.Valid()
    modifies node
    ensures node.Valid() && node.readers == old(node.readers)
    ensures reply.opcode == request.opcode && reply.data == []
    ensures reply.blockIndex == (node.received / BLOCK_SIZE) % BLOCK_NUMBERS
    ensures FromSender(request, image) && old(Holds(node, image)) ==> Holds(node, image)
    ensures FromSender(request, image) && request.opcode == OP_BEGIN && reply.status == STATUS_OK ==> Holds(node, image)
    ensures request.opcode == OP_VERIFY && reply.status == STATUS_OK ==> node.state == Verified
    ensures request.opcode == OP_BLOCK ==> reply.status == BlockStatus(old(node.state), old(node.received), old(node.total), request, flash.write)
    ensures request.opcode == OP_BLOCK ==> BlockMoves(old(node.state), old(node.received), request, reply.status, node.state, node.received)
    ensures request.opcode == OP_BLOCK && old(Holds(node, image)) && reply.status != STATUS_OK ==> Holds(node, image)
    ensures reply.argument == node.actualCrc && reply.extra == node.received
    ensures request.opcode == OP_BEGIN && reply.status == STATUS_OK ==> node.state == Receiving && node.received == 0 && node.total == request.argument
    ensures request.opcode == OP_BEGIN ==>
              reply.status == if request.argument == 0 then STATUS_INVALID else if request.argument > node.maxImage then STATUS_TOO_LARGE
                              else if old(node.state) == Receiving || node.readers > 0 || flash.needsRevert then STATUS_BUSY
                              else if flash.erase && flash.open && flash.init then STATUS_OK else STATUS_FAILED
    ensures request.opcode == OP_STATUS ==> reply.status == STATUS_OK && unchanged(node)
    ensures request.opcode == OP_VERIFY ==>
              reply.status == VerifyStatus(old(node.state), old(node.received), old(node.total), old(node.actualCrc) == old(node.expectedCrc), flash.flush)
    ensures request.opcode == OP_START_FLASHING ==>
              reply.status == if node.readers > 0 then STATUS_BUSY
                              else if VerifyStatus(old(node.state), old(node.received), old(node.total), old(node.actualCrc) == old(node.expectedCrc), flash.flush) != STATUS_OK
                              then VerifyStatus(old(node.state), old(node.received), old(node.total), old(node.actualCrc) == old(node.expectedCrc), flash.flush)
                              else if flash.upgrade && flash.swapScheduled then STATUS_OK else STATUS_FAILED
    ensures request.opcode == OP_START_FLASHING && reply.status == STATUS_OK ==> node.state == Ready && node.swapScheduled
    ensures request.opcode == OP_ABORT ==>
              reply.status == if node.readers > 0 || flash.needsRevert then STATUS_BUSY else if flash.erase then STATUS_OK else STATUS_FAILED
    ensures request.opcode == OP_ABORT && reply.status == STATUS_OK ==> node.state == Idle && node.slot == []
    ensures !(OP_BEGIN <= request.opcode <= OP_ABORT) ==> reply.status == STATUS_INVALID && unchanged(node)
    ensures request.opcode == OP_VERIFY && old(node.state) == Receiving && old(Holds(node, image)) && old(node.received) == |image| && flash.flush ==>
              reply.status == STATUS_OK
  {
    hide BlockMessage, Block, Boundary, BlockStatus, BlockMoves;
    var status: byte := STATUS_OK;
    if request.opcode == OP_BEGIN {
      status := HandleBegin(node, request, flash, image);
    } else if request.opcode == OP_BLOCK {
      status := HandleImageBlock(node, request, flash, image);
    } else if request.opcode == OP_STATUS {
    } else if request.opcode == OP_VERIFY {
      status := HandleVerify(node, flash, false, image);
    } else if request.opcode == OP_START_FLASHING {
      status := HandleVerify(node, flash, true, image);
    } else if request.opcode == OP_ABORT {
      var result := node.Abort(flash);
      status := StatusFor(result);
    } else {
      status := STATUS_INVALID;
    }
    reply := Message(request.opcode, status, (node.received / BLOCK_SIZE) % BLOCK_NUMBERS, node.actualCrc, node.received, []);
  }

  // ----- one sender of one image -----

  function BlockStart(i: nat): nat {
    i * BLOCK_SIZE
  }

  /** The `i`-th block of the image: full, or the rest of it. */
  function Block(image: seq<byte>, i: nat): seq<byte>
    requires BlockStart(i) <= |image|
  {
    if BlockStart(i) + BLOCK_SIZE < |image| then image[BlockStart(i)..BlockStart(i) + BLOCK_SIZE] else image[BlockStart(i)..]
  }

  /** The message of the `i`-th block; its number has 16 bits. */
  function BlockMessage(image: seq<byte>, i: nat): Message
    requires BlockStart(i) <= |image|
  {
    Message(OP_BLOCK, 0, i % BLOCK_NUMBERS, Crc.Checksum(Block(image, i)), 0, Block(image, i))
  }

  /** A request the sender of `image` may have put on the link, at any time. */
  ghost predicate FromSender(request: Message, image: seq<byte>) {
    && |image| < 0x1_0000_0000
    && (request.opcode == OP_BEGIN ==> request.argument == |image| && request.extra == Crc.Checksum(image))
    && (request.opcode == OP_BLOCK ==>
          BlockStart(request.blockIndex) < |image| && request == BlockMessage(image, request.blockIndex))
  }

  /** A block boundary, or the end. */
  predicate Boundary(received: nat, size: nat) {
    received % BLOCK_SIZE == 0 || received == size
  }

  /** What the node has accepted is the beginning of the image, up to a block boundary or its end. */
  ghost predicate Holds(node: Update, image: seq<byte>)
    reads node
  {
    && (node.state == Receiving ==>
          && node.total == |image| && node.expectedCrc == Crc.Checksum(image)
          && node.received <= |image| && node.received <= BlockStart(BLOCK_NUMBERS) && node.Accepted() == image[..node.received]
          && Boundary(node.received, |image|))
    && (node.state == Verified || node.state == Ready ==> node.slot == image)
  }

  /** A block with the expected number continues what is held, or lies past the end. */
  lemma NextBlock(image: seq<byte>, received: nat, request: Message)
    requires FromSender(request, image) && request.opcode == OP_BLOCK && received <= |image|
    requires Boundary(received, |image|)
    requires request.blockIndex == received / BLOCK_SIZE
    ensures received + |request.data| <= |image| ==>
              && image[..received] + request.data == image[..received + |request.data|]
              && Boundary(received + |request.data|, |image|) && received + |request.data| <= BlockStart(BLOCK_NUMBERS)
  {
    var i := request.blockIndex;
    Arith.DivModUnique(i, BLOCK_NUMBERS, 0, i);
    assert request.data == Block(image, i);
    if received == BlockStart(i) {
      BlockContinues(image, i);
    } else {
      NotAtBlock(image, received, i);
    }
  }

  lemma BlockContinues(image: seq<byte>, i: nat)
    requires BlockStart(i) < |image| && i < BLOCK_NUMBERS
    ensures var next := BlockStart(i) + |Block(image, i)|;
            image[..BlockStart(i)] + Block(image, i) == image[..next] && Boundary(next, |image|) && next <= BlockStart(BLOCK_NUMBERS)
  {
    NextStart(i);
    Arith.Monotone(i + 1, BLOCK_NUMBERS, BLOCK_SIZE);
    if BlockStart(i) + BLOCK_SIZE < |image| {
      Arith.DivModUnique(BlockStart(i + 1), BLOCK_SIZE, i + 1, 0);
    }
  }

  /** Between two starts the node can only be at the end of the image, inside its last block. */
  lemma NotAtBlock(image: seq<byte>, received: nat, i: nat)
    requires BlockStart(i) < |image| && Boundary(received, |image|) && received / BLOCK_SIZE == i && received != BlockStart(i)
    ensures received + |Block(image, i)| > |image|
  {
    assert received == i * BLOCK_SIZE + received % BLOCK_SIZE;
  }

  /** How one exchange goes: blocks delivered again meanwhile, then the request and its reply. */
  datatype Link = Link(repeats: seq<(nat, Flash)>, requestArrives: bool, replyArrives: bool, flash: Flash)

  function LinkAt(links: seq<Link>, i: nat): Link {
    if i < |links| then links[i] else Link([], false, false, Flash(false, [], false, false, false, 0, false, false, false, false))
  }

  /** Nothing is lost or repeated, and the flash works. */
  predicate Good(l: Link) {
    l.repeats == [] && l.requestArrives && l.replyArrives && l.flash.erase && l.flash.open && l.flash.init
    && l.flash.write && l.flash.flush && !l.flash.needsRevert
  }

  /** A block and its reply both get through to working flash. */
  predicate Through(l: Link) {
    l.repeats == [] && l.requestArrives && l.replyArrives && l.flash.write
  }

  /** A send of a block is lost, on its way there or, for a full block, on the way back. */
  predicate Lost(l: Link, full: bool) {
    l.repeats == [] && !(l.requestArrives && l.replyArrives) && l.flash.write && (full || !l.requestArrives)
  }

  /** How many sends are lost before one is not. */
  function Losses(links: seq<Link>, full: bool): (n: nat)
    ensures n <= |links|
  {
    if links == [] || !Lost(links[0], full) then 0 else 1 + Losses(links[1..], full)
  }

  /** The losses counted are exactly those before the first send that is not lost. */
  lemma {:induction false} LossesAre(links: seq<Link>, full: bool)
    ensures forall j :: 0 <= j < Losses(links, full) ==> Lost(links[j], full)
    ensures Losses(links, full) < |links| ==> !Lost(links[Losses(links, full)], full)
  {
    hide Lost;
    if links != [] && Lost(links[0], full) {
      LossesAre(links[1..], full);
    }
  }

  /** One block loses no more sends than it has retries. */
  predicate Carried(links: seq<Link>, full: bool, retries: nat) {
    Losses(links, full) <= retries && Losses(links, full) < |links| && Through(links[Losses(links, full)])
  }

  /** Every block from number `index` on loses no more sends than it has retries, and the VERIFY none. */
  predicate Bearable(links: seq<Link>, image: seq<byte>, index: nat, retries: nat)
    decreases |image| - BlockStart(index)
  {
    if BlockStart(index) >= |image| then links != [] && Good(links[0])
    else
      NextStart(index);
      var full := |Block(image, index)| == BLOCK_SIZE;
      Carried(links, full, retries) && Bearable(links[Losses(links, full) + 1..], image, index + 1, retries)
  }

  /** How many sends the blocks from number `index` on lose in all. */
  function TotalLosses(links: seq<Link>, image: seq<byte>, index: nat): nat
    decreases |image| - BlockStart(index)
  {
    if BlockStart(index) >= |image| then 0
    else
      NextStart(index);
      var n := Losses(links, |Block(image, index)| == BLOCK_SIZE);
      if n >= |links| then n else n + TotalLosses(links[n + 1..], image, index + 1)
  }

  /** With nothing lost every link bears the upload, and no send is repeated. */
  lemma {:induction false} NothingLost(links: seq<Link>, image: seq<byte>, index: nat, retries: nat)
    requires (forall i :: 0 <= i < |links| ==> Good(links[i])) && index <= Blocks(image) && |links| > Blocks(image) - index
    ensures Bearable(links, image, index, retries) && TotalLosses(links, image, index) == 0
    decreases |image| - BlockStart(index)
  {
    hide Block;
    if BlockStart(index) < |image| {
      NextStart(index);
      BlockWithin(image, index);
      NothingLost(links[1..], image, index + 1, retries);
    }
  }

  lemma NextStart(index: nat)
    ensures BlockStart(index + 1) == BlockStart(index) + BLOCK_SIZE
  {
    assert (index + 1) * BLOCK_SIZE == index * BLOCK_SIZE + BLOCK_SIZE;
  }

  /** What the resend of a block is answered with when the block was stored and its reply lost: a full
      block is recognised and the sender moves on, a short last one is refused for good. */
  lemma ResendAnswered(image: seq<byte>, i: nat, writes: bool)
    requires BlockStart(i) < |image| && i < BLOCK_NUMBERS
    ensures var received := BlockStart(i) + |Block(image, i)|;
            var status := BlockStatus(Receiving, received, |image|, BlockMessage(image, i), writes);
            if |Block(image, i)| == BLOCK_SIZE then status == STATUS_OUT_OF_ORDER && received / BLOCK_SIZE == i + 1
            else status == STATUS_TOO_LARGE && received == |image|
  {
    var received := BlockStart(i) + |Block(image, i)|;
    Arith.DivModUnique(i, BLOCK_NUMBERS, 0, i);
    if |Block(image, i)| == BLOCK_SIZE {
      NextStart(i);
      Arith.DivModUnique(received, BLOCK_SIZE, i + 1, 0);
    } else {
      Arith.DivModUnique(received, BLOCK_SIZE, i, |Block(image, i)|);
    }
  }

  /** The block the node waits for is accepted when the flash works. */
  lemma FirstSendTaken(image: seq<byte>, i: nat)
    requires BlockStart(i) < |image| && i < BLOCK_NUMBERS
    ensures BlockStatus(Receiving, BlockStart(i), |image|, BlockMessage(image, i), true) == STATUS_OK
  {
    Arith.DivModUnique(i, BLOCK_NUMBERS, 0, i);
    Arith.DivModUnique(BlockStart(i), BLOCK_SIZE, i, 0);
  }

  /** The node has all that was sent before block `index`. */
  ghost predicate Ahead(node: Update, image: seq<byte>, index: nat)
    reads node
  {
    node.state == Receiving ==> node.received >= Arith.Min(BlockStart(index), |image|)
  }

  /** The node has as many blocks as a 16-bit number can ask for. */
  ghost predicate Full(node: Update)
    reads node
  {
    node.state == Receiving ==> node.received >= BlockStart(BLOCK_NUMBERS)
  }

  /** A full node takes no block any more. */
  lemma FullRefuses(received: nat, total: nat, request: Message, writes: bool)
    requires received >= BlockStart(BLOCK_NUMBERS)
    ensures BlockStatus(Receiving, received, total, request, writes) != STATUS_OK
  {
    var q := received / BLOCK_SIZE;
    assert received == q * BLOCK_SIZE + received % BLOCK_SIZE;
    NextStart(q);
    if q < BLOCK_NUMBERS {
      Arith.Monotone(q + 1, BLOCK_NUMBERS, BLOCK_SIZE);
    }
  }

  /** A reply that lets the sender move on from block `index` means the node has that block, and such a reply
      never comes to a block past the 16-bit numbers. `before` is what the node had received. */
  lemma MovedOn(received: nat, image: seq<byte>, index: nat, request: Message, ok: bool, before: nat)
    requires BlockStart(index) < |image| && request == BlockMessage(image, index)
    requires before <= received <= |image| && received <= BlockStart(BLOCK_NUMBERS) && before >= Arith.Min(BlockStart(index), |image|)
    requires ok ==> before + |request.data| == received && request.blockIndex == before / BLOCK_SIZE
    requires !ok ==> received == before && (received / BLOCK_SIZE) % BLOCK_NUMBERS == (index + 1) % BLOCK_NUMBERS
    ensures received >= Arith.Min(BlockStart(index + 1), |image|) && index < BLOCK_NUMBERS
  {
    hide Block;
    if index >= BLOCK_NUMBERS {
      Arith.Monotone(BLOCK_NUMBERS, index, BLOCK_SIZE);
      PastNumbers(received, index, request, ok, before);
    } else if ok {
      BlockWithin(image, index);
    } else {
      OrderMeans(received, index);
    }
  }

  /** Past the numbers the node is full, so the block is refused, and the number it asks for is not the next. */
  lemma PastNumbers(received: nat, index: nat, request: Message, ok: bool, before: nat)
    requires BlockStart(index) <= before <= received <= BlockStart(BLOCK_NUMBERS)
    requires ok ==> request.blockIndex == before / BLOCK_SIZE
    requires !ok ==> (received / BLOCK_SIZE) % BLOCK_NUMBERS == (index + 1) % BLOCK_NUMBERS
    ensures index < BLOCK_NUMBERS
  {
    if index >= BLOCK_NUMBERS {
      Arith.Monotone(BLOCK_NUMBERS, index, BLOCK_SIZE);
      Arith.DivModUnique(BlockStart(BLOCK_NUMBERS), BLOCK_SIZE, BLOCK_NUMBERS, 0);
      NextStart(BLOCK_NUMBERS);
      NotNext(index);
      if index > BLOCK_NUMBERS {
        Arith.Monotone(BLOCK_NUMBERS + 1, index, BLOCK_SIZE);
      }
    }
  }

  /** Asked for the next block, having had at least this one's start, the node has this one. */
  lemma OrderMeans(received: nat, index: nat)
    requires received >= BlockStart(index) && index < BLOCK_NUMBERS && received <= BlockStart(BLOCK_NUMBERS)
    requires (received / BLOCK_SIZE) % BLOCK_NUMBERS == (index + 1) % BLOCK_NUMBERS
    ensures received >= BlockStart(index + 1)
  {
    var q := received / BLOCK_SIZE;
    assert received == q * BLOCK_SIZE + received % BLOCK_SIZE;
    NextStart(q);
    if q < index {
      Arith.Monotone(q + 1, index, BLOCK_SIZE);
    } else if q == index {
      NotNext(index);
    } else {
      Arith.Monotone(index + 1, q, BLOCK_SIZE);
    }
  }

  lemma NotNext(x: nat)
    ensures x % BLOCK_NUMBERS != (x + 1) % BLOCK_NUMBERS
  {
    Arith.ModStep(x, BLOCK_NUMBERS);
  }

  /** After one send of a block. Past the last resend its result stands. */
  datatype Verdict = MoveOn | Resend(result: Refusal) | GiveUp

  type Refusal = r: Status | r.Failure? witness Failure(EIO)

  class Sender {
    const node: Update
    const retries: nat
    var links: seq<Link>
    var blockSends: nat
    var resent: nat

    constructor (target: Update, limit: nat, plan: seq<Link>)
      ensures node == target && retries == limit && links == plan && blockSends == 0 && resent == 0
    {
      node, retries, links, blockSends, resent := target, limit, plan, 0, 0;
    }

    /** Blocks of the image delivered again. */
    method Repeat(repeats: seq<(nat, Flash)>, image: seq<byte>)
      requires node.Valid() && Holds(node, image) && |image| < 0x1_0000_0000
      modifies node
      ensures node.Valid() && Holds(node, image)
      ensures node.readers == old(node.readers)
      ensures node.state == Receiving ==> old(node.state) == Receiving && node.received >= old(node.received)
      ensures repeats == [] ==> node.state == old(node.state) && node.received == old(node.received) && node.total == old(node.total)
    {
      hide BlockStatus, Boundary, Block, Holds;
      for i := 0 to |repeats|
        invariant node.Valid() && Holds(node, image) && node.readers == old(node.readers)
        invariant node.state == Receiving ==> old(node.state) == Receiving && node.received >= old(node.received)
        invariant i == 0 ==> node.state == old(node.state) && node.received == old(node.received) && node.total == old(node.total)
      {
        var (block, flash) := repeats[i];
        if block < BLOCK_NUMBERS && BlockStart(block) < |image| {
          Arith.DivModUnique(block, BLOCK_NUMBERS, 0, block);
          var _ := Handle(node, BlockMessage(image, block), flash, image);
        }
      }
    }

    /** Send one message and wait: the outstanding reply, or nothing. */
    method Exchange(request: Message, image: seq<byte>) returns (result: Status, reply: Message, ghost before: nat)
      requires node.Valid() && |image| < 0x1_0000_0000
      requires FromSender(request, image) || (request.opcode == OP_BLOCK && Full(node))
      requires request.opcode == OP_BEGIN || Holds(node, image)
      modifies this`links, node
      ensures node.Valid() && node.readers == old(node.readers)
      ensures links == if old(links) == [] then [] else old(links)[1..]
      ensures result == if LinkAt(old(links), 0).requestArrives && LinkAt(old(links), 0).replyArrives then Success else Failure(ETIMEDOUT)
      ensures request.opcode != OP_BEGIN ==> Holds(node, image)
      ensures result.Success? && request.opcode == OP_BEGIN && reply.status == STATUS_OK ==> Holds(node, image) && node.state == Receiving && node.received == 0
      ensures result.Success? && request.opcode == OP_VERIFY && reply.status == STATUS_OK ==> node.state == Verified
      ensures result.Success? ==> reply.opcode == request.opcode && reply.blockIndex == (node.received / BLOCK_SIZE) % BLOCK_NUMBERS
      // Whatever is repeated meanwhile, a block takes nothing back, and its reply is about what was there.
      ensures request.opcode == OP_BLOCK && node.state == Receiving ==> old(node.state) == Receiving && node.received >= old(node.received)
      ensures result.Success? && request.opcode == OP_BLOCK ==>
                Answered(before, request, reply.status, node.state, node.received) && (node.state == Receiving ==> before >= old(node.received))
      // With nothing repeated, what the request meets is what was there.
      ensures Calm(old(links)) && request.opcode == OP_BEGIN && Good(LinkAt(old(links), 0)) ==>
                (reply.status == STATUS_OK <==> 0 < |image| <= node.maxImage && old(node.state) != Receiving && node.readers == 0)
      ensures Calm(old(links)) && request.opcode == OP_BLOCK && !LinkAt(old(links), 0).requestArrives ==>
                node.state == old(node.state) && node.received == old(node.received)
      ensures Calm(old(links)) && request.opcode == OP_BLOCK && LinkAt(old(links), 0).requestArrives ==>
                reply.status == BlockStatus(old(node.state), old(node.received), old(node.total), request, LinkAt(old(links), 0).flash.write)
                && BlockMoves(old(node.state), old(node.received), request, reply.status, node.state, node.received)
      ensures Calm(old(links)) && request.opcode == OP_VERIFY && Good(LinkAt(old(links), 0)) && old(node.state) == Receiving && old(node.received) == |image| ==>
                reply.status == STATUS_OK
    {
      hide BlockStatus, Boundary, Block, BlockMessage, Holds;
      var link := LinkAt(links, 0);
      links := if links == [] then [] else links[1..];
      reply := Message(request.opcode, STATUS_FAILED, 0, 0, 0, []);
      if request.opcode != OP_BEGIN {
        Repeat(link.repeats, image);
      }
      before := 0;
      if link.requestArrives {
        before := node.received;
        if request.opcode == OP_BLOCK && node.state == Receiving && Full(node) {
          FullRefuses(node.received, node.total, request, link.flash.write);
        }
        NotReceivingRefuses(node.state, node.received, node.total, request, link.flash.write);
        reply := Handle(node, request, link.flash, image);
        assert request.opcode == OP_BLOCK ==> Answered(before, request, reply.status, node.state, node.received);
      }
      result := if link.requestArrives && link.replyArrives then Success else Failure(ETIMEDOUT);
    }

    /** The node waits for block `index`, or has it already and the sender does not know. */
    ghost predicate AtBlock(image: seq<byte>, index: nat)
      requires BlockStart(index) < |image|
      reads this, node
    {
      node.state == Receiving && index < BLOCK_NUMBERS
      && (node.received == BlockStart(index) || (|Block(image, index)| == BLOCK_SIZE && node.received == BlockStart(index) + BLOCK_SIZE))
    }

    /** What the node would answer the block with now. */
    ghost function AnswerTo(image: seq<byte>, index: nat): byte
      requires BlockStart(index) < |image|
      reads this, node
    {
      BlockStatus(node.state, node.received, node.total, BlockMessage(image, index), LinkAt(links, 0).flash.write)
    }

    /** The block gets there and is refused for good. */
    ghost predicate Refused(image: seq<byte>, index: nat)
      requires BlockStart(index) < |image|
      reads this, node
    {
      Calm(links) && Arrives(LinkAt(links, 0)) && AnswerTo(image, index) !in {0, 2, 3}
    }

    /** One send of one block, and what the sender makes of the answer. */
    method TryBlock(image: seq<byte>, index: nat) returns (verdict: Verdict)
      requires node.Valid() && Holds(node, image) && |image| < 0x1_0000_0000
      requires BlockStart(index) < |image| && Ahead(node, image, index)
      modifies this`links, this`blockSends, node
      ensures node.Valid() && Holds(node, image) && node.readers == old(node.readers) && Ahead(node, image, index)
      ensures blockSends == old(blockSends) + 1 && links == if old(links) == [] then [] else old(links)[1..]
      ensures verdict.MoveOn? ==> Ahead(node, image, index + 1) && index < BLOCK_NUMBERS
      ensures old(AtBlock(image, index)) && Lost(LinkAt(old(links), 0), |Block(image, index)| == BLOCK_SIZE) ==>
                verdict.Resend? && AtBlock(image, index)
      ensures old(AtBlock(image, index)) && Through(LinkAt(old(links), 0)) ==>
                verdict.MoveOn? && node.state == Receiving && node.received == BlockStart(index) + |Block(image, index)|
      ensures !Arrives(LinkAt(old(links), 0)) ==> verdict == Resend(Failure(ETIMEDOUT))
      ensures Calm(old(links)) && Arrives(LinkAt(old(links), 0)) ==>
                var status := old(AnswerTo(image, index));
                && (verdict.MoveOn? <==> status == 0 || (status == 2 && (old(node.received) / BLOCK_SIZE) % 0x1_0000 == (index + 1) % 0x1_0000))
                && (verdict.GiveUp? <==> status !in {0, 2, 3})
    {
      hide BlockStatus, Boundary, Holds, Block;
      SenderOrFull(node, image, index);
      if AtBlock(image, index) {
        Expected(node, image, index);
      }
      var request := BlockMessage(image, index);
      var result, reply, before := Exchange(request, image);
      blockSends := blockSends + 1;
      if result.Failure? {
        return Resend(result);
      }
      if reply.status == STATUS_OK || (reply.status == STATUS_OUT_OF_ORDER && reply.blockIndex == (index + 1) % BLOCK_NUMBERS) {
        HeldWithin(node, image);
        MovedOn(node.received, image, index, request, reply.status == STATUS_OK, before);
        return MoveOn;
      }
      if reply.status != STATUS_BAD_BLOCK && reply.status != STATUS_OUT_OF_ORDER {
        return GiveUp;
      }
      verdict := Resend(Failure(EIO));
    }

    /** The resend loop of one block. */
    method SendBlock(image: seq<byte>, index: nat) returns (result: Status)
      requires node.Valid() && Holds(node, image) && |image| < 0x1_0000_0000
      requires BlockStart(index) < |image| && Ahead(node, image, index)
      modifies this`links, this`blockSends, this`resent, node
      ensures node.Valid() && Holds(node, image) && node.readers == old(node.readers)
      ensures result.Success? ==> Ahead(node, image, index + 1) && index < BLOCK_NUMBERS
      ensures blockSends <= old(blockSends) + retries + 1
      ensures resent - old(resent) <= blockSends - old(blockSends)
      ensures old(AtBlock(image, index)) && Carried(old(links), |Block(image, index)| == BLOCK_SIZE, retries) ==>
                result.Success? && node.state == Receiving && node.received == BlockStart(index) + |Block(image, index)|
                && links == old(links)[Losses(old(links), |Block(image, index)| == BLOCK_SIZE) + 1..]
                && resent == old(resent) + Losses(old(links), |Block(image, index)| == BLOCK_SIZE)
                && blockSends == old(blockSends) + resent - old(resent) + 1
      // A refusal that no resend can change is not resent.
      ensures old(Refused(image, index)) ==> result == Failure(EIO) && blockSends == old(blockSends) + 1
    {
      hide Boundary, Holds, Block, Losses, Ahead, Lost, Through, BlockStatus, BlockMessage;
      ghost var full := |Block(image, index)| == BLOCK_SIZE;
      ghost var losses := Losses(links, full);
      ghost var carried := AtBlock(image, index) && Carried(links, full, retries);
      assert links[0..] == links;
      var attempt := 0;
      while true
        invariant node.Valid() && Holds(node, image) && Ahead(node, image, index) && node.readers == old(node.readers)
        invariant attempt <= retries && blockSends == old(blockSends) + attempt && resent == old(resent) + attempt
        invariant attempt == 0 ==> Refused(image, index) == old(Refused(image, index))
        invariant attempt > 0 ==> !old(Refused(image, index))
        invariant carried ==> attempt <= losses && links == old(links)[attempt..] && AtBlock(image, index)
        decreases retries - attempt
      {
        if carried {
          CarriedStep(old(links), full, retries, attempt);
        }
        var verdict := TryBlock(image, index);
        if verdict.MoveOn? {
          return Success;
        }
        if verdict.GiveUp? {
          return Failure(EIO);
        }
        attempt, resent := attempt + 1, resent + 1;
        if attempt > retries {
          return verdict.result;
        }
      }
    }

    /** `kfsw_fwu_lite_send_file`: BEGIN, every block in turn, VERIFY. Success means the node holds the
        verified image; effort is bounded either way. An image with more blocks than 16 bits can number
        never gets through; any other does when no block loses more sends than it has retries, a short
        last one no reply. */
    method SendFile(image: seq<byte>) returns (result: Status)
      requires node.Valid() && |image| < 0x1_0000_0000
      modifies this`links, this`blockSends, this`resent, node
      ensures node.Valid()
      ensures result.Success? ==> node.state == Verified && node.slot == image
      ensures blockSends - old(blockSends) <= Budget(Blocks(image), retries)
      ensures |image| > BlockStart(BLOCK_NUMBERS) ==> result.Failure?
      ensures 0 < |image| <= BlockStart(BLOCK_NUMBERS) && |image| <= node.maxImage && old(node.state) != Receiving && old(node.readers) == 0
              && old(links) != [] && Good(old(links)[0]) && Bearable(old(links)[1..], image, 0, retries) ==>
                result.Success? && resent - old(resent) == TotalLosses(old(links)[1..], image, 0)
                && blockSends - old(blockSends) == Blocks(image) + resent - old(resent)
    {
      hide Boundary, Block, Budget, Blocks, BlockStatus, Bearable, Holds, FromSender, TotalLosses;
      if image == [] {
        return Failure(EINVAL);
      }
      ghost var borne := |image| <= BlockStart(BLOCK_NUMBERS) && |image| <= node.maxImage && node.state != Receiving && node.readers == 0
                         && links != [] && Good(links[0]) && Bearable(links[1..], image, 0, retries);
      var reply;
      ghost var met;
      OwnRequests(image);
      result, reply, met := Exchange(Message(OP_BEGIN, 0, 0, |image|, Crc.Checksum(image), []), image);
      if result.Success? && reply.status != STATUS_OK {
        result := Failure(EIO);
      }
      if result.Failure? {
        NoBudget(image, retries);
        return;
      }
      result := SendBlocks(image);
      if result.Success? {
        AllSent(links, image, Blocks(image), retries);
        result, reply, met := Exchange(Message(OP_VERIFY, 0, 0, 0, 0, []), image);
        HeldVerified(node, image);
        if result.Success? && reply.status != STATUS_OK {
          result := Failure(EILSEQ);
        }
      }
    }

    /** The block loop. */
    method SendBlocks(image: seq<byte>) returns (result: Status)
      requires node.Valid() && Holds(node, image) && 0 < |image| < 0x1_0000_0000
      modifies this`links, this`blockSends, this`resent, node
      ensures node.Valid() && node.readers == old(node.readers) && Holds(node, image)
      ensures blockSends - old(blockSends) <= Budget(Blocks(image), retries)
      ensures |image| > BlockStart(BLOCK_NUMBERS) ==> result.Failure?
      ensures |image| <= BlockStart(BLOCK_NUMBERS) && old(node.state) == Receiving && old(node.received) == 0 && Bearable(old(links), image, 0, retries) ==>
                result.Success? && node.state == Receiving && node.received == |image| && Bearable(links, image, Blocks(image), retries)
                && resent - old(resent) == TotalLosses(old(links), image, 0) && blockSends - old(blockSends) == Blocks(image) + resent - old(resent)
    {
      hide Boundary, Block, Budget, Blocks, Bearable, Holds, TotalLosses;
      ghost var borne := |image| <= BlockStart(BLOCK_NUMBERS) && node.state == Receiving && node.received == 0 && Bearable(links, image, 0, retries);
      result := Success;
      var sent, index := 0, 0;
      NoBudget(image, retries);
      while result.Success? && sent < |image|
        invariant node.Valid() && Holds(node, image) && node.readers == old(node.readers)
        invariant 0 <= index <= Blocks(image) && 0 <= sent <= |image|
        invariant result.Success? ==> sent == Arith.Min(BlockStart(index), |image|) && index <= BLOCK_NUMBERS && Ahead(node, image, index)
        invariant blockSends - old(blockSends) <= Budget(index, retries)
        invariant borne ==> result.Success? && node.state == Receiving && node.received == sent && Bearable(links, image, index, retries)
                            && resent - old(resent) + TotalLosses(links, image, index) == TotalLosses(old(links), image, 0)
                            && blockSends - old(blockSends) == index + resent - old(resent)
        decreases |image| - sent, result.Success?
      {
        BlockWithin(image, index);
        BudgetStep(index, retries);
        if borne {
          NumberFits(image, index);
          BearableStep(links, image, index, retries);
        }
        result := SendBlock(image, index);
        if result.Success? {
          sent := sent + |Block(image, index)|;
        }
        index := index + 1;
      }
      BudgetGrows(index, Blocks(image), retries);
      if result.Success? {
        Arith.Monotone(index, BLOCK_NUMBERS, BLOCK_SIZE);
        BlocksReached(image, index);
        NoneLeft(links, image, index);
      }
    }
  }

  lemma NoneLeft(links: seq<Link>, image: seq<byte>, index: nat)
    requires BlockStart(index) >= |image|
    ensures TotalLosses(links, image, index) == 0
  {
  }

  lemma BearableStep(links: seq<Link>, image: seq<byte>, index: nat, retries: nat)
    requires Bearable(links, image, index, retries) && BlockStart(index) < |image|
    ensures var full := |Block(image, index)| == BLOCK_SIZE;
            Carried(links, full, retries) && Bearable(links[Losses(links, full) + 1..], image, index + 1, retries)
            && TotalLosses(links, image, index) == Losses(links, full) + TotalLosses(links[Losses(links, full) + 1..], image, index + 1)
  {
    hide Losses;
  }

  /** Once everything is sent, what is left of a bearable link is the VERIFY. */
  lemma AllSent(links: seq<Link>, image: seq<byte>, index: nat, retries: nat)
    requires index == Blocks(image)
    ensures Bearable(links, image, index, retries) ==> links != [] && Good(links[0]) && LinkAt(links, 0) == links[0] && Calm(links)
  {
    var x := |image| + BLOCK_SIZE - 1;
    assert x == (x / BLOCK_SIZE) * BLOCK_SIZE + x % BLOCK_SIZE;
  }

  /** The number of blocks is the first whose start is not inside the image. */
  lemma BlocksReached(image: seq<byte>, index: nat)
    requires BlockStart(index) >= |image| && index <= Blocks(image)
    ensures index == Blocks(image)
  {
    var x := |image| + BLOCK_SIZE - 1;
    var q := x / BLOCK_SIZE;
    assert x == q * BLOCK_SIZE + x % BLOCK_SIZE;
    if index < q {
      NextStart(index);
      Arith.Monotone(index + 1, q, BLOCK_SIZE);
    }
  }

  lemma HeldVerified(node: Update, image: seq<byte>)
    requires Holds(node, image)
    ensures node.state == Verified ==> node.slot == image
  {
  }

  lemma OwnRequests(image: seq<byte>)
    requires |image| < 0x1_0000_0000
    ensures FromSender(Message(OP_BEGIN, 0, 0, |image|, Crc.Checksum(image), []), image) && FromSender(Message(OP_VERIFY, 0, 0, 0, 0, []), image)
  {
    hide BlockMessage, Crc.Checksum;
  }

  lemma NoBudget(image: seq<byte>, retries: nat)
    ensures Budget(0, retries) == 0 <= Budget(Blocks(image), retries)
  {
  }

  /** The next exchange has nothing repeated in it. */
  predicate Arrives(l: Link) {
    l.requestArrives && l.replyArrives
  }

  predicate Calm(links: seq<Link>) {
    LinkAt(links, 0).repeats == []
  }

  /** A block met a node that had received `before`. */
  predicate Answered(before: nat, request: Message, status: byte, state: State, received: nat) {
    && (status == STATUS_OK ==> state == Receiving && received == before + |request.data| && request.blockIndex == before / BLOCK_SIZE)
    && (status == STATUS_OUT_OF_ORDER ==> state == Receiving && received == before)
  }

  lemma NotReceivingRefuses(state: State, received: nat, total: nat, request: Message, writes: bool)
    ensures state != Receiving ==> BlockStatus(state, received, total, request, writes) != STATUS_OK
  {
  }

  /** A block whose number fits is an ordinary request; past that the node is full. */
  lemma SenderOrFull(node: Update, image: seq<byte>, index: nat)
    requires Holds(node, image) && Ahead(node, image, index) && BlockStart(index) < |image| < 0x1_0000_0000
    ensures if index < BLOCK_NUMBERS then FromSender(BlockMessage(image, index), image) else Full(node)
  {
    hide Boundary, Block;
    if index < BLOCK_NUMBERS {
      Arith.DivModUnique(index, BLOCK_NUMBERS, 0, index);
    } else {
      Arith.Monotone(BLOCK_NUMBERS, index, BLOCK_SIZE);
    }
  }

  lemma HeldWithin(node: Update, image: seq<byte>)
    requires Holds(node, image) && node.state == Receiving
    ensures node.received <= |image| && node.received <= BlockStart(BLOCK_NUMBERS) && node.total == |image|
  {
  }

  lemma CarriedStep(links: seq<Link>, full: bool, retries: nat, attempt: nat)
    requires Carried(links, full, retries) && attempt <= Losses(links, full)
    ensures attempt < |links| && links[attempt..] != [] && links[attempt..][0] == links[attempt] && links[attempt..][1..] == links[attempt + 1..]
    ensures LinkAt(links[attempt..], 0) == links[attempt]
    ensures if attempt < Losses(links, full) then attempt < retries && Lost(links[attempt], full) else Through(links[attempt])
  {
    if attempt < Losses(links, full) {
      LossesAre(links, full);
    }
  }

  /** What the node answers to block `index`, before it has it and after. */
  lemma Expected(node: Update, image: seq<byte>, index: nat)
    requires Holds(node, image) && node.state == Receiving && BlockStart(index) < |image| && index < BLOCK_NUMBERS
    requires node.received == BlockStart(index) || (|Block(image, index)| == BLOCK_SIZE && node.received == BlockStart(index) + BLOCK_SIZE)
    ensures BlockStatus(node.state, node.received, node.total, BlockMessage(image, index), true)
         == if node.received == BlockStart(index) then STATUS_OK else STATUS_OUT_OF_ORDER
    ensures node.received != BlockStart(index) ==> node.received / BLOCK_SIZE == index + 1
    ensures |BlockMessage(image, index).data| == |Block(image, index)|
  {
    hide Boundary, BlockStatus;
    FirstSendTaken(image, index);
    ResendAnswered(image, index, true);
  }

  lemma NumberFits(image: seq<byte>, index: nat)
    requires BlockStart(index) < |image| <= BlockStart(BLOCK_NUMBERS)
    ensures index < BLOCK_NUMBERS
  {
    if index >= BLOCK_NUMBERS {
      Arith.Monotone(BLOCK_NUMBERS, index, BLOCK_SIZE);
    }
  }

  function Blocks(image: seq<byte>): nat {
    (|image| + BLOCK_SIZE - 1) / BLOCK_SIZE
  }

  /** Sends allowed for a number of blocks. */
  function Budget(blocks: nat, retries: nat): nat {
    blocks * (retries + 1)
  }

  lemma BudgetStep(blocks: nat, retries: nat)
    ensures Budget(blocks + 1, retries) == Budget(blocks, retries) + retries + 1
  {
  }

  lemma BudgetGrows(a: nat, b: nat, retries: nat)
    requires a <= b
    ensures Budget(a, retries) <= Budget(b, retries)
  {
    Arith.Monotone(a, b, retries + 1);
  }

  /** A block that starts inside the image is one of its blocks, and the next one starts where it ends. */
  lemma BlockWithin(image: seq<byte>, i: nat)
    requires BlockStart(i) < |image|
    ensures i < Blocks(image) && |Block(image, i)| > 0
    ensures BlockStart(i) + |Block(image, i)| == Arith.Min(BlockStart(i + 1), |image|)
  {
    var x := |image| + BLOCK_SIZE - 1;
    var q := x / BLOCK_SIZE;
    assert x == q * BLOCK_SIZE + x % BLOCK_SIZE;
    if q <= i {
      Arith.Monotone(q, i, BLOCK_SIZE);
    }
    NextStart(i);
  }
}
