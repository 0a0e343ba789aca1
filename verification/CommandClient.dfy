/** The two-phase retrying client of src/command/command_csp.c over a network that loses, repeats,
    delays and reorders messages, against the ticket cache of the server. */
module CommandClient {
  import opened Bytes
  import opened Errors
  import opened CommandProtocol
  import opened CommandRetry
  import Arith

  const MAX_DETAIL_SIZE := 96
  const ATTEMPTS := 3

  datatype Packet = Packet(source: uint16, request: Message)

  /** A reply travels back on the connection that carried the packet it answers. */
  datatype Reply = Reply(to: Packet, message: Message)

  /** `send_result`. */
  function ReplyMessage(request: Message, token: uint64, result: CommandResult): Message {
    Message(request.version, token, if request.opcode == OP_PREPARE then OP_TICKET else OP_RESULT,
            result.status, 0, request.commandId, request.requestId, result.detail)
  }

  /** The checks of `receive_result` on a version 2 exchange. */
  predicate Accepts(request: Message, response: Message) {
    && response.version == request.version
    && response.opcode == (if request.opcode == OP_PREPARE then OP_TICKET else OP_RESULT)
    && response.commandId == request.commandId && response.requestId == request.requestId
    && response.argCount == 0 && response.status <= STATUS_UNAVAILABLE
    && response.token != 0
    && (request.opcode == OP_EXECUTE ==> response.token == request.token)
  }

  function Truncated(detail: seq<byte>): seq<byte> {
    if |detail| < MAX_DETAIL_SIZE then detail else detail[..MAX_DETAIL_SIZE - 1]
  }

  /** How one exchange goes: what the network delivers meanwhile, and how the wait ends. */
  datatype Ending = Refused | NoBuffer | Silence | Garbled | Answered(response: Message)
  datatype Plan = Plan(traffic: seq<Event>, ending: Ending)

  function PlanAt(plans: seq<Plan>, i: nat): Plan {
    if i < |plans| then plans[i] else Plan([], Silence)
  }

  /** Try number `j` of the phase whose plans begin at `first`. */
  function Try(plans: seq<Plan>, first: nat, j: nat): (plan: Plan)
    ensures first + j < |plans| ==> plan == plans[first + j]
  {
    PlanAt(plans, first + j)
  }

  // ----- what holds of the whole system -----

  /** The invocation `nonce` executes `ticket`, which the server issued for it. */
  ghost predicate Chosen(h: Server, me: uint16, chosen: map<uint64, uint64>, nonce: uint64, ticket: uint64) {
    nonce in chosen && chosen[nonce] == ticket
    && ticket in h.issued && h.issued[ticket].source == me && h.issued[ticket].nonce == nonce
  }

  /** The handler ran the request of `p` under its ticket and reported `status` and `detail`. */
  ghost predicate RanFor(h: Server, p: Packet, result: CommandResult) {
    exists k :: 0 <= k < |h.log| && h.log[k].entry.ticket == p.request.token && h.log[k].entry.result == result
                && h.log[k].entry.source == p.source && Matches(h.log[k].entry, p.request)
  }

  ghost predicate ReplyTrue(h: Server, r: Reply) {
    && (r.to.request.opcode == OP_PREPARE && r.message.status == STATUS_OK ==>
          r.message.token in h.issued && h.issued[r.message.token].source == r.to.source
          && h.issued[r.message.token].nonce == r.to.request.token)
    && (r.to.request.opcode == OP_EXECUTE && r.message.status == STATUS_OK ==>
          RanFor(h, r.to, CommandResult(STATUS_OK, r.message.payload)))
  }

  ghost predicate SystemInv(h: Server, me: uint16, sent: set<Packet>, replies: set<Reply>, chosen: map<uint64, uint64>) {
    && Inv(h)
    && (forall n :: n in chosen ==> Chosen(h, me, chosen, n, chosen[n]))
    && (forall p :: p in sent && p.source == me && p.request.opcode == OP_EXECUTE ==>
          exists n :: Chosen(h, me, chosen, n, p.request.token))
    && (forall r :: r in replies ==> ReplyTrue(h, r))
    && (forall k :: 0 <= k < |h.log| && h.log[k].entry.source == me ==>
          Chosen(h, me, chosen, h.log[k].entry.nonce, h.log[k].entry.ticket))
  }

  // ----- exchanges that go well -----

  /** What the server sends back for a delivery. */
  ghost function ReplyTo(h: Server, d: Delivery): Message {
    ReplyMessage(d.request, ServedBy(h, d).token, ServedBy(h, d).result)
  }

  /** A version 2 request of either phase. */
  predicate Phase(request: Message) {
    request.version == 2 && request.token != 0 && request.status == 0 && |request.payload| <= 192
    && (request.opcode == 3 || request.opcode == 5)
  }

  /** The request gets to the server, once and alone, and the answer gets back. */
  ghost predicate Answers(h: Server, me: uint16, request: Message, plan: Plan) {
    && |plan.traffic| == 1 && plan.traffic[0].Deliver? && plan.traffic[0].d.source == me && plan.traffic[0].d.request == request
    && Legal(h, plan.traffic[0])
    && plan.ending == Answered(ReplyTo(h, plan.traffic[0].d))
  }

  /** The request or its answer is lost, and nothing else happens meanwhile. */
  predicate Lost(plan: Plan) {
    plan.traffic == [] && (plan.ending.Silence? || plan.ending.Refused?)
  }

  /** After some lost tries, fewer than there are attempts, one is answered. */
  ghost predicate AnsweredAfter(h: Server, me: uint16, request: Message, plans: seq<Plan>, first: nat, lost: nat) {
    lost < ATTEMPTS && (forall j :: 0 <= j < lost ==> Lost(Try(plans, first, j))) && Answers(h, me, request, Try(plans, first, lost))
  }

  /** The delivery that an answered try makes. */
  ghost function DeliveryOf(plans: seq<Plan>, first: nat, lost: nat): Delivery {
    var traffic := Try(plans, first, lost).traffic;
    if |traffic| == 1 && traffic[0].Deliver? then traffic[0].d
    else Delivery(0, Message(0, 0, 0, 0, 0, 0, 0, []), 0, 0, CommandResult(STATUS_UNAVAILABLE, []))
  }

  /** Both phases are answered in time, after at most two losses each, by a server that has a slot free, a
      ticket to give and no live ticket of this nonce. */
  ghost predicate GoesWell(h: Server, me: uint16, prepare: Message, plans: seq<Plan>, a: nat, b: nat) {
    && AnsweredAfter(h, me, prepare, plans, 0, a)
    && DeliveryOf(plans, 0, a).newTicket != 0
    && (exists i :: 0 <= i < |h.entries| && (h.entries[i].ticket == 0 || h.entries[i].expires <= DeliveryOf(plans, 0, a).now))
    && (forall i :: 0 <= i < |h.entries| && h.entries[i].source == me && h.entries[i].nonce == prepare.token ==>
          h.entries[i].ticket == 0 || h.entries[i].expires <= DeliveryOf(plans, 0, a).now)
    && AnsweredAfter(Receive(h, DeliveryOf(plans, 0, a)), me, prepare.(opcode := 5, token := DeliveryOf(plans, 0, a).newTicket), plans, 3, b)
    && DeliveryOf(plans, 3, b).now < DeliveryOf(plans, 0, a).now + RETRY_WINDOW_MS
  }

  /** A network that loses the first `a` sends of the one phase and the first `b` of the other, and no more. */
  function LosingPlans(first: Plan, second: Plan, a: nat, b: nat): (plans: seq<Plan>) {
    seq(6, i requires 0 <= i < 6 => if i == a then first else if i == 3 + b then second else Plan([], Silence))
  }

  /** Such a network lets the invocation go well, whatever the server went through before, as long as it has a
      slot free and the execution arrives inside the ticket's life. */
  lemma LosingGoesWell(h: Server, d: Delivery, d2: Delivery, a: nat, b: nat)
    requires a < 3 && b < 3 && d.newTicket != 0 && d.newTicket !in h.issued && d.now >= h.clock
    requires d2.source == d.source && d2.request == d.request.(opcode := 5, token := d.newTicket)
    requires d.now <= d2.now < d.now + RETRY_WINDOW_MS && d2.newTicket !in Receive(h, d).issued
    requires exists i :: 0 <= i < |h.entries| && (h.entries[i].ticket == 0 || h.entries[i].expires <= d.now)
    requires forall i :: 0 <= i < |h.entries| && h.entries[i].source == d.source && h.entries[i].nonce == d.request.token ==>
               h.entries[i].ticket == 0 || h.entries[i].expires <= d.now
    ensures var first := Plan([Deliver(d)], Answered(ReplyTo(h, d)));
            var second := Plan([Deliver(d2)], Answered(ReplyTo(Receive(h, d), d2)));
            GoesWell(h, d.source, d.request, LosingPlans(first, second, a, b), a, b)
  {
    hide Dispatch;
    var first := Plan([Deliver(d)], Answered(ReplyTo(h, d)));
    var second := Plan([Deliver(d2)], Answered(ReplyTo(Receive(h, d), d2)));
    var plans := LosingPlans(first, second, a, b);
    assert Try(plans, 0, a) == first && Try(plans, 3, b) == second;
    assert forall j :: 0 <= j < a ==> Lost(Try(plans, 0, j));
    assert forall j :: 0 <= j < b ==> Lost(Try(plans, 3, j));
  }

  /** What the two answers say then: a ticket, and what the handler reports. */
  lemma BothPhasesAnswered(h: Server, me: uint16, prepare: Message, args: seq<Arg>, plans: seq<Plan>, a: nat, b: nat)
    requires Inv(h) && LiveDistinct(h) && GoesWell(h, me, prepare, plans, a, b)
    requires Phase(prepare) && prepare.opcode == 3 && Spells(args, prepare.payload, prepare.argCount) && prepare.argCount <= 4
    ensures TwoAnswers(h, me, prepare, plans, a, b)
  {
    hide Dispatch, Inv, Spells, LiveDistinct;
    var d, d2 := DeliveryOf(plans, 0, a), DeliveryOf(plans, 3, b);
    assert Decodable(prepare.payload, prepare.argCount);
    NewPrepareAnswered(h, d);
    TicketLives(h, d, d2);
  }

  ghost predicate TwoAnswers(h: Server, me: uint16, prepare: Message, plans: seq<Plan>, a: nat, b: nat) {
    var d, d2 := DeliveryOf(plans, 0, a), DeliveryOf(plans, 3, b);
    && AnsweredAfter(h, me, prepare, plans, 0, a) && d.newTicket != 0
    && ServedBy(h, d).token == d.newTicket && ServedBy(h, d).result.status == STATUS_OK
    && AnsweredAfter(Receive(h, d), me, prepare.(opcode := 5, token := d.newTicket), plans, 3, b)
    && ServedBy(Receive(h, d), d2).result == d2.handler
  }

  lemma PhaseFacts(request: Message, args: seq<Arg>)
    requires request.version == 2 && request.token != 0 && request.status == 0 && request.opcode == 3
    requires |args| <= 4 && AllFit(args) && request.argCount == |args| && request.payload == Entries(args) && |request.payload| <= 192
    ensures Phase(request) && Spells(args, request.payload, request.argCount)
    ensures forall t: uint64 :: t != 0 ==> Phase(request.(opcode := 5, token := t))
  {
    hide Entries;
  }

  /** The client accepts every true answer, and of any other message only one of the same version, command
      and request, the kind its phase waits for, with a token that is its own in the second phase. */
  lemma AcceptsExactly(h: Server, d: Delivery, response: Message)
    requires Inv(h) && Phase(d.request) && Legal(h, Deliver(d))
    ensures Accepts(d.request, ReplyTo(h, d))
    ensures Accepts(d.request, response) <==>
              && response.version == 2 && response.opcode == (if d.request.opcode == 3 then 4 else 2)
              && response.commandId == d.request.commandId && response.requestId == d.request.requestId
              && response.argCount == 0 && response.status <= 6 && response.token != 0
              && (d.request.opcode == 5 ==> response.token == d.request.token)
  {
    var i := DispatchMoves(h, d);
    if ServedBy(h, d).effect.Reissued? {
      assert Cached(h, i);
    }
  }

  /** The history of `h` continued: nothing issued or executed is forgotten. */
  ghost predicate Continues(h: Server, h': Server) {
    h.log <= h'.log && forall t :: t in h.issued ==> t in h'.issued && h'.issued[t] == h.issued[t]
  }

  lemma ReceiveContinues(h: Server, d: Delivery)
    requires Inv(h) && Legal(h, Deliver(d))
    ensures Continues(h, Receive(h, d))
  {
    var i := DispatchMoves(h, d);
  }

  lemma ReplyStaysTrue(h: Server, h': Server, r: Reply)
    requires Continues(h, h') && ReplyTrue(h, r)
    ensures ReplyTrue(h', r)
  {
    if r.to.request.opcode == OP_EXECUTE && r.message.status == STATUS_OK {
      var k :| 0 <= k < |h.log| && h.log[k].entry.ticket == r.to.request.token
               && h.log[k].entry.result == CommandResult(STATUS_OK, r.message.payload)
               && h.log[k].entry.source == r.to.source && Matches(h.log[k].entry, r.to.request);
      assert h'.log[k] == h.log[k];
    }
  }

  /** What the server sends for a delivery is true of the history that includes it. */
  lemma FreshReplyTrue(h: Server, d: Delivery)
    requires Inv(h) && Legal(h, Deliver(d))
    ensures var r := ServedBy(h, d);
            ReplyTrue(Receive(h, d), Reply(Packet(d.source, d.request), ReplyMessage(d.request, r.token, r.result)))
  {
    var r := ServedBy(h, d);
    var i := DispatchMoves(h, d);
    var h' := Receive(h, d);
    match r.effect {
      case Refused => RefusedIsNotOk(h, d);
      case Reissued => assert Recorded(h, h.entries[i]);
      case Issued(e) =>
      case Executed(e) => assert h'.log[|h.log|].entry == e;
      case Replayed(e) =>
        assert Cached(h, i) && Ran(h.log, e.ticket, e.result);
        var k :| 0 <= k < |h.log| && h.log[k].entry.ticket == e.ticket && h.log[k].entry.result == e.result;
        assert Recorded(h, e) && Recorded(h, h.log[k].entry);
    }
  }

  lemma RefusedIsNotOk(h: Server, d: Delivery)
    requires Inv(h) && ServedBy(h, d).effect.Refused?
    ensures ServedBy(h, d).result.status != STATUS_OK
  {
  }

  /** The server's new execution, if any, belongs to the ticket the invocation chose. */
  lemma ExecutionIsChosen(h: Server, me: uint16, sent: set<Packet>, replies: set<Reply>, chosen: map<uint64, uint64>, d: Delivery)
    requires SystemInv(h, me, sent, replies, chosen) && Legal(h, Deliver(d))
    requires d.source == me ==> Packet(me, d.request) in sent
    ensures var e := ServedBy(h, d).effect;
            e.Executed? && e.entry.source == me ==> Chosen(h, me, chosen, e.entry.nonce, e.entry.ticket)
  {
    var i := DispatchMoves(h, d);
    var r := ServedBy(h, d);
    if r.effect.Executed? && r.effect.entry.source == me {
      assert Recorded(h, h.entries[i]);
      var n :| Chosen(h, me, chosen, n, d.request.token);
    }
  }

  /** A possible delivery: of a packet this client sent, or of anything from another node. */
  lemma DeliveryKeepsSystemInv(h: Server, me: uint16, sent: set<Packet>, replies: set<Reply>, chosen: map<uint64, uint64>, d: Delivery)
    requires SystemInv(h, me, sent, replies, chosen) && Legal(h, Deliver(d))
    requires d.source == me ==> Packet(me, d.request) in sent
    ensures var r := ServedBy(h, d);
            var reply := Reply(Packet(d.source, d.request), ReplyMessage(d.request, r.token, r.result));
            SystemInv(Receive(h, d), me, sent, replies + {reply}, chosen)
  {
    var h' := Receive(h, d);
    ReceiveKeepsInv(h, d);
    ReceiveContinues(h, d);
    FreshReplyTrue(h, d);
    ExecutionIsChosen(h, me, sent, replies, chosen, d);
    HistoryGrows(h, h', me, sent, replies, chosen);
  }

  lemma HistoryGrows(h: Server, h': Server, me: uint16, sent: set<Packet>, replies: set<Reply>, chosen: map<uint64, uint64>)
    requires SystemInv(h, me, sent, replies, chosen) && Continues(h, h')
    ensures forall n :: n in chosen ==> Chosen(h', me, chosen, n, chosen[n])
    ensures forall p :: p in sent && p.source == me && p.request.opcode == OP_EXECUTE ==>
              exists n :: Chosen(h', me, chosen, n, p.request.token)
    ensures forall r :: r in replies ==> ReplyTrue(h', r)
    ensures forall k :: 0 <= k < |h.log| && h'.log[k].entry.source == me ==>
              Chosen(h', me, chosen, h'.log[k].entry.nonce, h'.log[k].entry.ticket)
  {
    assert forall n, t :: Chosen(h, me, chosen, n, t) ==> Chosen(h', me, chosen, n, t);
    forall r | r in replies ensures ReplyTrue(h', r) {
      ReplyStaysTrue(h, h', r);
    }
    assert forall k :: 0 <= k < |h.log| ==> h'.log[k] == h.log[k];
  }

  lemma ChosenGrows(h: Server, me: uint16, sent: set<Packet>, replies: set<Reply>, chosen: map<uint64, uint64>, chosen': map<uint64, uint64>)
    requires SystemInv(h, me, sent, replies, chosen)
    requires forall n :: n in chosen ==> n in chosen' && chosen'[n] == chosen[n]
    requires forall n :: n in chosen' ==> Chosen(h, me, chosen', n, chosen'[n]) || n in chosen
    ensures SystemInv(h, me, sent, replies, chosen')
  {
    assert forall n, t :: Chosen(h, me, chosen, n, t) ==> Chosen(h, me, chosen', n, t);
  }

  /** An invocation is named by its nonce. */
  ghost predicate ByInvocation(x: Execution, me: uint16, nonce: uint64) {
    x.entry.source == me && x.entry.nonce == nonce
  }

  /** One ticketed invocation runs the remote handler at most once. */
  lemma InvocationRunsAtMostOnce(h: Server, me: uint16, sent: set<Packet>, replies: set<Reply>, chosen: map<uint64, uint64>, nonce: uint64)
    requires SystemInv(h, me, sent, replies, chosen)
    ensures forall j, k :: 0 <= j < k < |h.log| ==>
              !(ByInvocation(h.log[j], me, nonce) && ByInvocation(h.log[k], me, nonce))
  {
    forall j, k | 0 <= j < k < |h.log| && ByInvocation(h.log[j], me, nonce)
      ensures !ByInvocation(h.log[k], me, nonce)
    {
      assert Chosen(h, me, chosen, nonce, h.log[j].entry.ticket);
      assert h.log[k].entry.source == me ==> Chosen(h, me, chosen, h.log[k].entry.nonce, h.log[k].entry.ticket);
    }
  }

  /** The invocation was executed exactly once: that run was of `commandId` on `args` and reported OK with
      this detail. */
  ghost predicate Reported(h: Server, me: uint16, nonce: uint64, commandId: uint16, args: seq<Arg>, result: CommandResult) {
    exists k :: 0 <= k < |h.log| && ByInvocation(h.log[k], me, nonce)
                && h.log[k].entry.command == commandId
                && Spells(args, h.log[k].entry.payload, h.log[k].entry.count)
                && h.log[k].entry.result.status == STATUS_OK
                && result.detail == Truncated(h.log[k].entry.result.detail)
                && forall j :: 0 <= j < |h.log| && ByInvocation(h.log[j], me, nonce) ==> j == k
  }

  lemma RanIsReported(h: Server, me: uint16, sent: set<Packet>, replies: set<Reply>, chosen: map<uint64, uint64>,
                      request: Message, nonce: uint64, args: seq<Arg>, result: CommandResult, detail: seq<byte>)
    requires SystemInv(h, me, sent, replies, chosen) && Chosen(h, me, chosen, nonce, request.token)
    requires RanFor(h, Packet(me, request), CommandResult(STATUS_OK, detail)) && result.detail == Truncated(detail)
    requires Spells(args, request.payload, request.argCount)
    ensures Reported(h, me, nonce, request.commandId, args, result)
  {
    var k :| 0 <= k < |h.log| && h.log[k].entry.ticket == request.token
             && h.log[k].entry.result == CommandResult(STATUS_OK, detail)
             && h.log[k].entry.source == me && Matches(h.log[k].entry, request);
    hide EntriesInv, CompleteInv, ReplyTrue, Spells;
    assert Recorded(h, h.log[k].entry);
    assert ByInvocation(h.log[k], me, nonce);
    InvocationRunsAtMostOnce(h, me, sent, replies, chosen, nonce);
  }

  /** A result as the client keeps it: the detail cut to its buffer. */
  function Received(r: CommandResult): CommandResult {
    CommandResult(r.status, if |r.detail| <= 95 then r.detail else r.detail[..95])
  }

  lemma LostEnds(plan: Plan)
    ensures Lost(plan) ==> plan.ending.Silence? || plan.ending.Refused?
  {
  }

  lemma AnswerMeans(h: Server, me: uint16, request: Message, plan: Plan)
    ensures Answers(h, me, request, plan) ==>
              |plan.traffic| == 1 && plan.traffic[0].Deliver? && plan.ending == Answered(ReplyTo(h, plan.traffic[0].d))
              && plan.ending.response.token == ServedBy(h, plan.traffic[0].d).token
              && plan.ending.response.status == ServedBy(h, plan.traffic[0].d).result.status
              && plan.ending.response.payload == ServedBy(h, plan.traffic[0].d).result.detail
  {
    hide Dispatch;
  }

  // ----- the running system -----

  /** The server's cache, the packets in flight and the client's node. Messages already sent may be
      delivered any number of times, at any later moment, or never. */
  class System {
    const me: uint16
    const cache: RetryCache
    var clock: int
    var tickets: set<uint64>
    var sent: set<Packet>
    var replies: set<Reply>
    var sends: nat
    var nextRequestId: uint16
    ghost var history: Server
    ghost var chosen: map<uint64, uint64>

    ghost predicate Valid()
      reads this, cache.entries
    {
      && history.entries == cache.entries[..] && history.clock == clock && tickets == history.issued.Keys
      && SystemInv(history, me, sent, replies, chosen) && LiveDistinct(history)
    }

    constructor (node: uint16, uptime: int)
      ensures Valid() && fresh(cache) && fresh(cache.entries)
      ensures me == node && chosen == map[] && history.log == []
    {
      me := node;
      var c := new RetryCache();
      cache := c;
      clock, tickets, sent, replies, sends, nextRequestId := uptime, {}, {}, {}, 0, 0;
      history, chosen := Cold(uptime), map[];
      new;
      ColdInv(uptime);
      assert cache.entries[..] == history.entries;
    }

    /** The server meets one event of the network; impossible ones do not happen. */
    method Step(event: Event)
      requires Valid()
      modifies this`clock, this`tickets, this`replies, this`history, cache.entries
      ensures Valid() && old(replies) <= replies && Continues(old(history), history)
      ensures event.Deliver? && event.d.source == me && Packet(me, event.d.request) !in sent ==> history == old(history)
      ensures event.Deliver? && event.d.source == me && Packet(me, event.d.request) in sent && Legal(old(history), event) ==>
                history == Receive(old(history), event.d) && Reply(Packet(me, event.d.request), ReplyTo(old(history), event.d)) in replies
    {
      hide Dispatch, LogInv, CompleteInv, ReplyTrue, Chosen, LiveDistinct;
      match event {
        case Deliver(d) =>
          if d.now < clock || d.newTicket in tickets || (d.source == me && Packet(me, d.request) !in sent) {
            return;
          }
          DeliveryKeepsSystemInv(history, me, sent, replies, chosen, d);
          EventKeepsLiveDistinct(history, event);
          ReceiveContinues(history, d);
          var token, result, effect := cache.Serve(d.source, d.request, d.newTicket, d.now, d.handler);
          assert ServedBy(history, d) == Served(cache.entries[..], token, result, effect);
          history := Receive(history, d);
          clock := d.now;
          if effect.Issued? {
            tickets := tickets + {effect.entry.ticket};
          }
          replies := replies + {Reply(Packet(d.source, d.request), ReplyMessage(d.request, token, result))};
        case Reboot(uptime) =>
          EventKeepsInv(history, event);
          EventKeepsLiveDistinct(history, event);
          HistoryGrows(history, After(history, event), me, sent, replies, chosen);
          cache.Reset();
          history := After(history, event);
          clock := uptime;
          assert cache.entries[..] == history.entries;
      }
    }

    /** One request on one connection: send, let the network act, wait for an answer. */
    method Exchange(request: Message, plan: Plan) returns (outcome: Status, token: uint64, result: CommandResult)
      requires Valid()
      requires request.opcode == OP_EXECUTE ==> exists n :: Chosen(history, me, chosen, n, request.token)
      modifies this`clock, this`tickets, this`replies, this`history, this`sent, this`sends, cache.entries
      ensures Valid() && Continues(old(history), history)
      ensures sends == old(sends) + if plan.ending.Refused? || plan.ending.NoBuffer? then 0 else 1
      ensures outcome == match plan.ending {
                case Refused => Failure(ECONNREFUSED)
                case NoBuffer => Failure(ENOMEM)
                case Silence => Failure(ETIMEDOUT)
                case Garbled => Failure(EBADMSG)
                case Answered(response) =>
                  if Reply(Packet(me, request), response) !in replies then Failure(ETIMEDOUT)
                  else if Accepts(request, response) then Success else Failure(EBADMSG)
              }
      ensures outcome.Success? ==>
                token == plan.ending.response.token && result.status == plan.ending.response.status
                && result.detail == plan.ending.response.payload[..Arith.Min(|plan.ending.response.payload|, 95)]
      ensures Lost(plan) ==> history == old(history)
      ensures Answers(old(history), me, request, plan) ==> history == Receive(old(history), plan.traffic[0].d)
      ensures Answers(old(history), me, request, plan) && Phase(request) ==> outcome.Success?
      ensures outcome.Success? && request.opcode == OP_PREPARE && result.status == STATUS_OK ==>
                token in history.issued && history.issued[token].source == me && history.issued[token].nonce == request.token
      ensures outcome.Success? && request.opcode == OP_EXECUTE && result.status == STATUS_OK ==>
                exists detail :: RanFor(history, Packet(me, request), CommandResult(STATUS_OK, detail))
                                 && result.detail == Truncated(detail)
    {
      hide Inv, LiveDistinct, Chosen, Receive, Dispatch, RanFor;
      token, result := 0, CommandResult(STATUS_UNAVAILABLE, []);
      if plan.ending.Refused? {
        return Failure(ECONNREFUSED), token, result;
      }
      if plan.ending.NoBuffer? {
        return Failure(ENOMEM), token, result;
      }
      if Answers(history, me, request, plan) && Phase(request) {
        AcceptsExactly(history, plan.traffic[0].d, ReplyTo(history, plan.traffic[0].d));
      }
      sent := sent + {Packet(me, request)};
      sends := sends + 1;
      for i := 0 to |plan.traffic|
        invariant Valid() && Continues(old(history), history)
        invariant sends == old(sends) + 1 && Packet(me, request) in sent
        invariant i == 0 ==> history == old(history)
        invariant i == 1 && Answers(old(history), me, request, plan) ==>
                    history == Receive(old(history), plan.traffic[0].d) && Reply(Packet(me, request), ReplyTo(old(history), plan.traffic[0].d)) in replies
      {
        Step(plan.traffic[i]);
      }
      if plan.ending.Garbled? {
        return Failure(EBADMSG), token, result;
      }
      if plan.ending.Silence? || Reply(Packet(me, request), plan.ending.response) !in replies {
        return Failure(ETIMEDOUT), token, result;
      }
      var response := plan.ending.response;
      assert ReplyTrue(history, Reply(Packet(me, request), response));
      if !Accepts(request, response) {
        return Failure(EBADMSG), token, result;
      }
      token := response.token;
      result := CommandResult(response.status, Truncated(response.payload));
      outcome := Success;
    }

    /** The attempt loop: repeat an exchange while it times out or is refused. */
    method ExchangeWithRetry(request: Message, plans: seq<Plan>, first: nat)
      returns (outcome: Status, token: uint64, result: CommandResult, ghost tries: nat)
      requires Valid()
      requires request.opcode == OP_EXECUTE ==> exists n :: Chosen(history, me, chosen, n, request.token)
      modifies this`clock, this`tickets, this`replies, this`history, this`sent, this`sends, cache.entries
      ensures Valid() && Continues(old(history), history)
      ensures 1 <= tries <= 3 && sends <= old(sends) + tries
      // It stops before the third try only on an answer, and a lost try is followed by another.
      ensures tries < 3 ==> outcome != Failure(ETIMEDOUT) && outcome != Failure(ECONNREFUSED)
      ensures Lost(Try(plans, first, 0)) ==> tries >= 2
      ensures Lost(Try(plans, first, 0)) && Lost(Try(plans, first, 1)) ==> tries == 3
      ensures forall lost: nat :: Phase(request) && AnsweredAfter(old(history), me, request, plans, first, lost) ==>
                outcome.Success? && history == Receive(old(history), DeliveryOf(plans, first, lost))
                && token == ServedBy(old(history), DeliveryOf(plans, first, lost)).token
                && result == Received(ServedBy(old(history), DeliveryOf(plans, first, lost)).result)
      ensures outcome.Success? && request.opcode == OP_PREPARE && result.status == STATUS_OK ==>
                token in history.issued && history.issued[token].source == me && history.issued[token].nonce == request.token
      ensures outcome.Success? && request.opcode == OP_EXECUTE && result.status == STATUS_OK ==>
                exists detail :: RanFor(history, Packet(me, request), CommandResult(STATUS_OK, detail))
                                 && result.detail == Truncated(detail)
    {
      hide Inv, LiveDistinct, Receive, Dispatch, RanFor, Answers, Lost;
      var attempt := 0;
      tries := 0;
      outcome, token, result := Failure(ETIMEDOUT), 0, CommandResult(STATUS_UNAVAILABLE, []);
      while attempt < ATTEMPTS
        invariant 0 <= attempt <= ATTEMPTS && tries == attempt
        invariant Valid() && Continues(old(history), history)
        invariant sends <= old(sends) + attempt
        invariant outcome.Failure?
        invariant forall lost: nat :: Phase(request) && AnsweredAfter(old(history), me, request, plans, first, lost) ==>
                    attempt <= lost && history == old(history)
      {
        LostEnds(Try(plans, first, attempt));
        outcome, token, result := Exchange(request, PlanAt(plans, first + attempt));
        tries := tries + 1;
        AnswerMeans(old(history), me, request, Try(plans, first, attempt));
        if outcome != Failure(ETIMEDOUT) && outcome != Failure(ECONNREFUSED) {
          return;
        }
        attempt := attempt + 1;
      }
    }

    /** `kfsw_command_invoke_remote_retry`: PREPARE until answered, then EXECUTE the ticket. */
    method InvokeRemoteRetry(commandId: uint16, args: seq<Arg>, nonce: uint64, plans: seq<Plan>)
      returns (outcome: Status, result: CommandResult)
      requires Valid() && nonce !in chosen
      modifies this`clock, this`tickets, this`replies, this`history, this`sent, this`sends, this`nextRequestId,
               this`chosen, cache.entries
      ensures Valid() && Continues(old(history), history)
      ensures forall n :: n in old(chosen) ==> n in chosen && chosen[n] == old(chosen)[n]
      ensures forall n :: n in chosen ==> n in old(chosen) || n == nonce
      ensures sends <= old(sends) + 2 * ATTEMPTS
      ensures outcome.Success? && result.status == STATUS_OK ==>
                Reported(history, me, nonce, commandId, args, result)
      ensures |args| > 4 || !AllFit(args) || |Entries(args)| > 192 ==> outcome.Failure? && sends == old(sends)
      ensures |args| <= 4 && AllFit(args) && |Entries(args)| <= 192 && nonce != 0 ==>
                var prepare := Message(2, nonce, 3, 0, |args|, commandId, (old(nextRequestId) + 1) % 0x1_0000, Entries(args));
                forall a: nat, b: nat :: GoesWell(old(history), me, prepare, plans, a, b) ==>
                  outcome.Success? && result == Received(DeliveryOf(plans, 3, b).handler)
    {
      hide Inv, LiveDistinct, Receive, Dispatch, RanFor, GoesWell, AnsweredAfter, AllFit, Entries, DeliveryOf;
      result := CommandResult(STATUS_UNAVAILABLE, []);
      var payload := EncodeArgs(args, MAX_PAYLOAD_SIZE);
      if payload.Err? {
        return Failure(payload.error), result;
      }
      nextRequestId := (nextRequestId + 1) % 0x1_0000;
      if nonce == 0 {
        return Failure(EIO), result;
      }
      var request := Message(2, nonce, OP_PREPARE, 0, |args|, commandId, nextRequestId, payload.value);
      var token;
      ghost var tries, prepare := 0, request;
      PhaseFacts(prepare, args);
      forall a: nat, b: nat | GoesWell(history, me, prepare, plans, a, b) ensures TwoAnswers(history, me, prepare, plans, a, b) {
        BothPhasesAnswered(history, me, prepare, args, plans, a, b);
      }
      outcome, token, result, tries := ExchangeWithRetry(request, plans, 0);
      if outcome.Failure? || result.status != STATUS_OK {
        return;
      }
      request := request.(opcode := OP_EXECUTE, token := token);
      chosen := chosen[nonce := token];
      assert Chosen(history, me, chosen, nonce, token);
      ChosenGrows(history, me, sent, replies, old(chosen), chosen);
      outcome, token, result, tries := ExchangeWithRetry(request, plans, ATTEMPTS);
      if outcome.Success? && result.status == STATUS_OK {
        ghost var detail :| RanFor(history, Packet(me, request), CommandResult(STATUS_OK, detail))
                            && result.detail == Truncated(detail);
        RanIsReported(history, me, sent, replies, chosen, request, nonce, args, result, detail);
      }
    }
  }
}
