/** The expiring ticket cache of the command server, src/command/command_retry.c. A client PREPAREs
    under a nonce, receives a ticket, and EXECUTEs the ticket; the cache makes repeats harmless. */
module CommandRetry {
  import opened Bytes
  import opened CommandProtocol

  const RETRY_SLOTS: Positive
  const RETRY_WINDOW_MS: Positive

  /** `enum kfsw_command_status`. */
  type CommandStatus = n: int | 0 <= n <= 6

  const STATUS_OK: CommandStatus := 0
  const STATUS_INVALID_ARGUMENT: CommandStatus := 2
  const STATUS_BUSY: CommandStatus := 4
  const STATUS_UNAVAILABLE: CommandStatus := 6

  /** `struct kfsw_command_result`: a status and its detail text. */
  datatype CommandResult = CommandResult(status: CommandStatus, detail: seq<byte>)

  datatype Ticket = Ticket(
    nonce: uint64, ticket: uint64, expires: int, source: uint16, command: uint16, request: uint16,
    count: byte, payload: seq<byte>, complete: bool, result: CommandResult)

  const EMPTY_TICKET := Ticket(0, 0, 0, 0, 0, 0, 0, [], false, CommandResult(STATUS_OK, []))
  const UNKNOWN_TICKET: seq<byte>  // the text that an unknown ticket is answered with

  /** What a request did to the server. */
  datatype Effect = Refused | Issued(entry: Ticket) | Reissued | Executed(entry: Ticket) | Replayed(entry: Ticket)

  datatype Served = Served(entries: seq<Ticket>, token: uint64, result: CommandResult, effect: Effect)

  predicate Free(e: Ticket, now: int) {
    e.ticket == 0 || now >= e.expires
  }

  predicate Matches(e: Ticket, request: Message) {
    e.command == request.commandId && e.request == request.requestId
    && e.count == request.argCount && e.payload == request.payload
  }

  predicate Addressed(e: Ticket, source: uint16, request: Message, now: int) {
    !Free(e, now) && e.source == source
    && if request.opcode == OP_PREPARE then e.nonce == request.token
       else request.opcode == OP_EXECUTE && e.ticket == request.token
  }

  predicate WellFormed(request: Message) {
    request.version == 2 && request.token != 0 && request.status == 0
    && |request.payload| <= MAX_PAYLOAD_SIZE
    && (request.opcode == OP_PREPARE || request.opcode == OP_EXECUTE)
  }

  ghost predicate Decodable(payload: seq<byte>, count: nat) {
    count <= MAX_ARGS && exists args :: Spells(args, payload, count)
  }

  /** The first free slot among the first `n`, or the slot count. */
  function FirstFree(entries: seq<Ticket>, now: int, n: nat): (f: nat)
    requires n <= |entries|
    ensures f == |entries| || f < n
    ensures f < n ==> Free(entries[f], now)
    ensures forall i :: 0 <= i < n && i < f ==> !Free(entries[i], now)
  {
    if n == 0 then |entries|
    else
      var f := FirstFree(entries, now, n - 1);
      if f == |entries| && Free(entries[n - 1], now) then n - 1 else f
  }

  /** The last live entry the request addresses among the first `n`, or -1. */
  function LastAddressed(entries: seq<Ticket>, source: uint16, request: Message, now: int, n: nat): (a: int)
    requires n <= |entries|
    ensures -1 <= a < n
    ensures a >= 0 ==> Addressed(entries[a], source, request, now)
    ensures forall i :: a < i < n ==> !Addressed(entries[i], source, request, now)
  {
    if n == 0 then -1
    else if Addressed(entries[n - 1], source, request, now) then n - 1
    else LastAddressed(entries, source, request, now, n - 1)
  }

  predicate Collides(entries: seq<Ticket>, newTicket: uint64, now: int) {
    exists i :: 0 <= i < |entries| && !Free(entries[i], now) && entries[i].ticket == newTicket
  }

  function NewEntry(source: uint16, request: Message, newTicket: uint64, now: int): Ticket {
    Ticket(request.token, newTicket, now + RETRY_WINDOW_MS, source, request.commandId, request.requestId,
           request.argCount, request.payload, false, EMPTY_TICKET.result)
  }

  /** One request. `handler` is what the command would report if it runs. */
  ghost function Dispatch(entries: seq<Ticket>, source: uint16, request: Message, newTicket: uint64, now: int,
                          handler: CommandResult): Served
  {
    var refuse := (status: CommandStatus) => Served(entries, request.token, CommandResult(status, []), Refused);
    if !WellFormed(request) then refuse(STATUS_INVALID_ARGUMENT)
    else
      var found := LastAddressed(entries, source, request, now, |entries|);
      var free := FirstFree(entries, now, |entries|);
      if found >= 0 then
        var e := entries[found];
        if !Matches(e, request) then refuse(STATUS_INVALID_ARGUMENT)
        else if request.opcode == OP_PREPARE then
          Served(entries, e.ticket, CommandResult(STATUS_OK, []), Reissued)
        else if e.complete then Served(entries, e.ticket, e.result, Replayed(e))
        else
          var ran := Decodable(request.payload, request.argCount);
          var result := if ran then handler else CommandResult(STATUS_INVALID_ARGUMENT, []);
          var done := e.(complete := true, result := result);
          Served(entries[found := done], e.ticket, result, if ran then Executed(done) else Replayed(done))
      else if request.opcode == OP_EXECUTE then
        Served(entries, request.token, CommandResult(STATUS_UNAVAILABLE, UNKNOWN_TICKET), Refused)
      else if free == |entries| then refuse(STATUS_BUSY)
      else if newTicket == 0 || Collides(entries, newTicket, now) then refuse(STATUS_UNAVAILABLE)
      else if !Decodable(request.payload, request.argCount) then refuse(STATUS_INVALID_ARGUMENT)
      else
        var e := NewEntry(source, request, newTicket, now);
        Served(entries[free := e], newTicket, CommandResult(STATUS_OK, []), Issued(e))
  }

  /** The cache as the command server owns it; one request at a time. */
  class RetryCache {
    const entries: array<Ticket>

    constructor ()
      ensures fresh(entries) && entries.Length == RETRY_SLOTS
      ensures forall i :: 0 <= i < entries.Length ==> entries[i] == EMPTY_TICKET
    {
      entries := new Ticket[RETRY_SLOTS](_ => EMPTY_TICKET);
    }

    /** A reset: the cache lives in RAM. */
    method Reset()
      modifies entries
      ensures forall i :: 0 <= i < entries.Length ==> entries[i] == EMPTY_TICKET
    {
      for i := 0 to entries.Length
        invariant forall j :: 0 <= j < i ==> entries[j] == EMPTY_TICKET
      {
        entries[i] := EMPTY_TICKET;
      }
    }

    method Serve(source: uint16, request: Message, newTicket: uint64, now: int, handler: CommandResult)
      returns (token: uint64, result: CommandResult, effect: Effect)
      modifies entries
      ensures Served(entries[..], token, result, effect)
           == Dispatch(old(entries[..]), source, request, newTicket, now, handler)
    {
      token := request.token;
      effect := Refused;
      if !WellFormed(request) {
        result := CommandResult(STATUS_INVALID_ARGUMENT, []);
        return;
      }
      ghost var before := entries[..];
      var entry := -1;
      var free := entries.Length;
      var collision := false;
      for i := 0 to entries.Length
        invariant entries[..] == before
        invariant entry == LastAddressed(before, source, request, now, i)
        invariant free == FirstFree(before, now, i)
        invariant collision <==> exists j :: 0 <= j < i && !Free(before[j], now) && before[j].ticket == newTicket
      {
        assert entries[i] == before[i];
        if Free(entries[i], now) {
          if free == entries.Length {
            free := i;
          }
        } else {
          collision := collision || entries[i].ticket == newTicket;
          if Addressed(entries[i], source, request, now) {
            entry := i;
          }
        }
      }
      if entry >= 0 {
        var e := entries[entry];
        assert e == before[entry];
        if !Matches(e, request) {
          result := CommandResult(STATUS_INVALID_ARGUMENT, []);
          return;
        }
        token := e.ticket;
        if request.opcode == OP_PREPARE {
          result, effect := CommandResult(STATUS_OK, []), Reissued;
          return;
        }
        if e.complete {
          result, effect := e.result, Replayed(e);
          return;
        }
        var args := DecodeArgs(request.payload, request.argCount, MAX_ARGS);
        result := if args.Ok? then handler else CommandResult(STATUS_INVALID_ARGUMENT, []);
        var done := e.(complete := true, result := result);
        effect := if args.Ok? then Executed(done) else Replayed(done);
        entries[entry] := done;
        assert entries[..] == before[entry := done];
        return;
      }
      if request.opcode == OP_EXECUTE {
        result := CommandResult(STATUS_UNAVAILABLE, UNKNOWN_TICKET);
        return;
      }
      if free == entries.Length {
        result := CommandResult(STATUS_BUSY, []);
        return;
      }
      if newTicket == 0 || collision {
        result := CommandResult(STATUS_UNAVAILABLE, []);
        return;
      }
      var args := DecodeArgs(request.payload, request.argCount, MAX_ARGS);
      if args.Err? {
        result := CommandResult(STATUS_INVALID_ARGUMENT, []);
        return;
      }
      var e := NewEntry(source, request, newTicket, now);
      entries[free] := e;
      assert entries[..] == before[free := e];
      token, result, effect := newTicket, CommandResult(STATUS_OK, []), Issued(e);
    }
  }

  // ----- whole runs -----

  /** One handler execution, and one answer given from a ticket's result. */
  datatype Execution = Execution(entry: Ticket)
  datatype Answer = Answer(ticket: uint64, result: CommandResult)

  /** The server with its history: every ticket ever issued, every execution and every answer. */
  datatype Server = Server(entries: seq<Ticket>, clock: int, issued: map<uint64, Ticket>,
                           log: seq<Execution>, answers: seq<Answer>)

  /** Any request from anywhere, with the clock reading and random ticket that meet it. */
  datatype Delivery = Delivery(source: uint16, request: Message, newTicket: uint64, now: int, handler: CommandResult)

  datatype Event = Deliver(d: Delivery) | Reboot(uptime: int)

  ghost function Cold(uptime: int): Server {
    Server(seq(RETRY_SLOTS, _ => EMPTY_TICKET), uptime, map[], [], [])
  }

  /** A random ticket is never one already issued; the clock only runs backwards across a reboot. */
  ghost predicate Legal(s: Server, e: Event) {
    e.Deliver? ==> e.d.now >= s.clock && e.d.newTicket !in s.issued
  }

  ghost function ServedBy(s: Server, d: Delivery): Served {
    Dispatch(s.entries, d.source, d.request, d.newTicket, d.now, d.handler)
  }

  ghost function Receive(s: Server, d: Delivery): Server {
    var r := ServedBy(s, d);
    var s' := s.(entries := r.entries, clock := d.now);
    match r.effect
    case Refused => s'
    case Reissued => s'
    case Issued(e) => s'.(issued := s.issued[e.ticket := e])
    case Executed(e) => s'.(log := s.log + [Execution(e)], answers := s.answers + [Answer(e.ticket, e.result)])
    case Replayed(e) => s'.(answers := s.answers + [Answer(e.ticket, e.result)])
  }

  ghost function After(s: Server, e: Event): Server {
    match e
    case Deliver(d) => Receive(s, d)
    case Reboot(uptime) => s.(entries := Cold(uptime).entries, clock := uptime)
  }

  /** Reachable from `s` by legal events. */
  ghost function Run(s: Server, events: seq<Event>): Server {
    if events == [] then s else After(Run(s, events[..|events| - 1]), events[|events| - 1])
  }

  /** A run takes its events one after the other. */
  lemma RunStep(s: Server, events: seq<Event>, e: Event)
    ensures Run(s, []) == s && Run(s, events + [e]) == After(Run(s, events), e)
  {
    hide After;
    assert (events + [e])[..|events|] == events;
  }

  ghost predicate LegalRun(s: Server, events: seq<Event>) {
    forall k :: 0 <= k < |events| ==> Legal(Run(s, events[..k]), events[k])
  }

  predicate SameCommand(a: Ticket, b: Ticket) {
    a == b.(complete := a.complete, result := a.result)
  }

  /** `e` was issued as the history says. */
  ghost predicate Recorded(s: Server, e: Ticket) {
    e.ticket in s.issued && SameCommand(e, s.issued[e.ticket])
  }

  ghost predicate Cached(s: Server, i: int) {
    0 <= i < |s.entries| && s.entries[i].ticket != 0
  }

  ghost predicate Ran(log: seq<Execution>, ticket: uint64, result: CommandResult) {
    exists k :: 0 <= k < |log| && log[k].entry.ticket == ticket && log[k].entry.result == result
  }

  /** Every cached entry was issued, carries arguments that decode, and holds its ticket alone. */
  ghost predicate EntriesInv(s: Server) {
    && |s.entries| == RETRY_SLOTS && 0 !in s.issued
    && (forall i :: Cached(s, i) ==> Recorded(s, s.entries[i]))
    && (forall i :: Cached(s, i) ==> Decodable(s.entries[i].payload, s.entries[i].count))
    && (forall i, j :: Cached(s, i) && Cached(s, j) && i != j ==> s.entries[i].ticket != s.entries[j].ticket)
  }

  /** Executions are of issued tickets, each ticket at most once. */
  ghost predicate LogInv(s: Server) {
    && (forall k :: 0 <= k < |s.log| ==> Recorded(s, s.log[k].entry))
    && (forall j, k :: 0 <= j < k < |s.log| ==> s.log[j].entry.ticket != s.log[k].entry.ticket)
  }

  /** A cached entry is complete exactly when it ran, and then holds the result of that run. */
  ghost predicate CompleteInv(s: Server) {
    && (forall i, k :: Cached(s, i) && 0 <= k < |s.log| && s.entries[i].ticket == s.log[k].entry.ticket ==>
          s.entries[i].complete)
    && (forall i :: Cached(s, i) && s.entries[i].complete ==> Ran(s.log, s.entries[i].ticket, s.entries[i].result))
  }

  ghost predicate Inv(s: Server) {
    && EntriesInv(s) && LogInv(s) && CompleteInv(s)
    && (forall a :: 0 <= a < |s.answers| ==> Ran(s.log, s.answers[a].ticket, s.answers[a].result))
  }

  /** Live tickets, and live (source, nonce) pairs, are each held by one slot only. */
  ghost predicate LiveDistinct(s: Server) {
    forall i, j :: 0 <= i < |s.entries| && 0 <= j < |s.entries| && i != j
                   && !Free(s.entries[i], s.clock) && !Free(s.entries[j], s.clock) ==>
      s.entries[i].ticket != s.entries[j].ticket
      && (s.entries[i].source, s.entries[i].nonce) != (s.entries[j].source, s.entries[j].nonce)
  }

  /** What each effect does to the slots; `i` is the slot it concerns. */
  ghost predicate Moved(s: Server, d: Delivery, r: Served, i: int) {
    match r.effect
    case Refused => r.entries == s.entries
    case Reissued =>
      && r.entries == s.entries && Cached(s, i) && d.request.opcode == OP_PREPARE
      && r.token == s.entries[i].ticket && s.entries[i].source == d.source && s.entries[i].nonce == d.request.token
      && Matches(s.entries[i], d.request)
    case Issued(e) =>
      && 0 <= i < |s.entries| && Free(s.entries[i], d.now) && r.entries == s.entries[i := e]
      && d.request.opcode == OP_PREPARE
      && e == NewEntry(d.source, d.request, d.newTicket, d.now) && e.ticket != 0 && r.token == e.ticket
      && Decodable(e.payload, e.count)
      && (forall j :: 0 <= j < |s.entries| && !Free(s.entries[j], d.now) ==>
            (s.entries[j].source, s.entries[j].nonce) != (e.source, e.nonce))
    case Executed(e) =>
      && Cached(s, i) && !s.entries[i].complete && e.complete && SameCommand(e, s.entries[i])
      && r.entries == s.entries[i := e] && r.token == e.ticket && r.result == e.result
      && d.request.opcode == OP_EXECUTE && e.ticket == d.request.token && e.source == d.source
      && Matches(e, d.request) && e.result == d.handler
    case Replayed(e) =>
      && Cached(s, i) && s.entries[i] == e && e.complete && r.entries == s.entries
      && d.request.opcode == OP_EXECUTE && r.token == e.ticket == d.request.token && r.result == e.result
      && e.source == d.source && Matches(e, d.request)
  }

  lemma DispatchMoves(s: Server, d: Delivery) returns (i: int)
    requires EntriesInv(s)
    ensures Moved(s, d, ServedBy(s, d), i)
  {
    var found := LastAddressed(s.entries, d.source, d.request, d.now, |s.entries|);
    i := if found >= 0 then found else FirstFree(s.entries, d.now, |s.entries|);
    if found >= 0 && WellFormed(d.request) {
      assert Cached(s, found);
    }
  }

  lemma ReceiveKeepsInv(s: Server, d: Delivery)
    requires Inv(s) && Legal(s, Deliver(d))
    ensures Inv(Receive(s, d))
  {
    hide Dispatch;
    var r := ServedBy(s, d);
    var i := DispatchMoves(s, d);
    match r.effect {
      case Refused =>
      case Reissued =>
      case Issued(e) => IssueKeepsInv(s, Receive(s, d), e, i);
      case Executed(e) => ExecuteKeepsInv(s, Receive(s, d), e, i);
      case Replayed(e) => assert Ran(s.log, e.ticket, e.result);
    }
  }

  lemma IssueKeepsInv(s: Server, s': Server, e: Ticket, i: int)
    requires Inv(s) && 0 <= i < |s.entries| && e.ticket != 0 && e.ticket !in s.issued && !e.complete
    requires Decodable(e.payload, e.count)
    requires s' == s.(entries := s.entries[i := e], clock := s'.clock, issued := s.issued[e.ticket := e])
    ensures Inv(s')
  {
    forall j | Cached(s', j) && j != i
      ensures Cached(s, j) && s'.entries[j] == s.entries[j] && s'.entries[j].ticket != e.ticket
    {
      assert Cached(s, j) && Recorded(s, s.entries[j]);
    }
    assert forall k :: 0 <= k < |s.log| ==> Recorded(s, s.log[k].entry) && s.log[k].entry.ticket != e.ticket;
  }

  /** `s'` is `s` after the entry in slot `i` ran and became `e`. */
  ghost predicate ExecutedIn(s: Server, s': Server, e: Ticket, i: int) {
    && Cached(s, i) && !s.entries[i].complete && e.complete && SameCommand(e, s.entries[i])
    && s' == s.(entries := s.entries[i := e], clock := s'.clock, log := s.log + [Execution(e)],
                answers := s.answers + [Answer(e.ticket, e.result)])
  }

  lemma RanGrows(s: Server, s': Server, e: Ticket, i: int)
    requires ExecutedIn(s, s', e, i)
    ensures Ran(s'.log, e.ticket, e.result)
    ensures forall t, v :: Ran(s.log, t, v) ==> Ran(s'.log, t, v)
  {
    assert s'.log[|s.log|].entry == e;
    forall t, v | Ran(s.log, t, v) ensures Ran(s'.log, t, v) {
      var k :| 0 <= k < |s.log| && s.log[k].entry.ticket == t && s.log[k].entry.result == v;
      assert s'.log[k] == s.log[k];
    }
  }

  lemma ExecuteKeepsLog(s: Server, s': Server, e: Ticket, i: int)
    requires Inv(s) && ExecutedIn(s, s', e, i)
    ensures EntriesInv(s') && LogInv(s')
  {
    assert Recorded(s, s.entries[i]);
    assert forall j :: Cached(s', j) <==> Cached(s, j);
    // The entry was not complete, so its ticket is in no earlier execution.
    assert forall k :: 0 <= k < |s.log| ==> s.log[k].entry.ticket != e.ticket && s'.log[k] == s.log[k];
  }

  lemma ExecuteKeepsInv(s: Server, s': Server, e: Ticket, i: int)
    requires Inv(s) && ExecutedIn(s, s', e, i)
    ensures Inv(s')
  {
    ExecuteKeepsLog(s, s', e, i);
    RanGrows(s, s', e, i);
    forall j, k | Cached(s', j) && 0 <= k < |s'.log| && s'.entries[j].ticket == s'.log[k].entry.ticket
      ensures s'.entries[j].complete
    {
      if j != i {
        assert Cached(s, j) && s.entries[j].ticket != e.ticket;
        assert k < |s.log| && s'.log[k] == s.log[k];
      }
    }
    forall j | Cached(s', j) && s'.entries[j].complete
      ensures Ran(s'.log, s'.entries[j].ticket, s'.entries[j].result)
    {
      if j != i {
        assert Cached(s, j) && Ran(s.log, s.entries[j].ticket, s.entries[j].result);
      }
    }
  }

  lemma EventKeepsInv(s: Server, e: Event)
    requires Inv(s) && Legal(s, e)
    ensures Inv(After(s, e))
  {
    match e {
      case Deliver(d) => ReceiveKeepsInv(s, d);
      case Reboot(uptime) =>
        var s' := After(s, e);
        assert forall i :: 0 <= i < |s'.entries| ==> s'.entries[i] == EMPTY_TICKET;
        assert forall i :: !Cached(s', i);
    }
  }

  lemma EventKeepsLiveDistinct(s: Server, e: Event)
    requires Inv(s) && LiveDistinct(s) && Legal(s, e)
    ensures LiveDistinct(After(s, e))
  {
    if e.Deliver? {
      var s' := After(s, e);
      var i := DispatchMoves(s, e.d);
      forall j | 0 <= j < |s.entries| && !Free(s.entries[j], s'.clock)
        ensures !Free(s.entries[j], s.clock) && Cached(s, j) && Recorded(s, s.entries[j])
      {
        assert Cached(s, j);
      }
      if ServedBy(s, e.d).effect.Executed? {
        assert s'.entries[i].expires == s.entries[i].expires;
      }
    }
  }

  lemma ColdInv(uptime: int)
    ensures Inv(Cold(uptime)) && LiveDistinct(Cold(uptime))
  {
    var s := Cold(uptime);
    assert forall i :: 0 <= i < |s.entries| ==> s.entries[i] == EMPTY_TICKET;
  }

  lemma {:induction false} RunKeepsInv(uptime: int, events: seq<Event>)
    requires LegalRun(Cold(uptime), events)
    ensures Inv(Run(Cold(uptime), events)) && LiveDistinct(Run(Cold(uptime), events))
  {
    if events == [] {
      ColdInv(uptime);
    } else {
      var init := events[..|events| - 1];
      forall k | 0 <= k < |init| ensures Legal(Run(Cold(uptime), init[..k]), init[k]) {
        assert init[..k] == events[..k];
      }
      RunKeepsInv(uptime, init);
      EventKeepsInv(Run(Cold(uptime), init), events[|events| - 1]);
      EventKeepsLiveDistinct(Run(Cold(uptime), init), events[|events| - 1]);
    }
  }

  /** No ticket ran twice, and every answer repeats the result of the one run of its ticket. */
  ghost predicate AtMostOnce(s: Server) {
    && (forall j, k :: 0 <= j < k < |s.log| ==> s.log[j].entry.ticket != s.log[k].entry.ticket)
    && (forall a :: 0 <= a < |s.answers| ==> Ran(s.log, s.answers[a].ticket, s.answers[a].result))
    && (forall a, b :: 0 <= a < b < |s.answers| && s.answers[a].ticket == s.answers[b].ticket ==>
          s.answers[a].result == s.answers[b].result)
  }

  lemma InvAtMostOnce(s: Server)
    requires Inv(s)
    ensures AtMostOnce(s)
  {
    forall a, b | 0 <= a < b < |s.answers| && s.answers[a].ticket == s.answers[b].ticket
      ensures s.answers[a].result == s.answers[b].result
    {
      RanUnique(s, s.answers[a].ticket, s.answers[a].result, s.answers[b].result);
    }
  }

  lemma RanUnique(s: Server, ticket: uint64, v: CommandResult, w: CommandResult)
    requires LogInv(s) && Ran(s.log, ticket, v) && Ran(s.log, ticket, w)
    ensures v == w
  {
    var j :| 0 <= j < |s.log| && s.log[j].entry.ticket == ticket && s.log[j].entry.result == v;
    var k :| 0 <= k < |s.log| && s.log[k].entry.ticket == ticket && s.log[k].entry.result == w;
    assert j == k;
  }

  /** Whatever arrives, in whatever order and however often, across reboots: a ticket runs its
      handler at most once, every EXECUTE answered for it carries that run's result, and live
      tickets and live (source, nonce) pairs stay distinct. */
  lemma TicketRunsAtMostOnce(uptime: int, events: seq<Event>)
    requires LegalRun(Cold(uptime), events)
    ensures AtMostOnce(Run(Cold(uptime), events)) && LiveDistinct(Run(Cold(uptime), events))
  {
    RunKeepsInv(uptime, events);
    InvAtMostOnce(Run(Cold(uptime), events));
  }

  /** A request for entry `i` from the node it was issued to, while it lives. */
  ghost predicate Asks(s: Server, d: Delivery, i: nat, opcode: byte) {
    && i < |s.entries| && !Free(s.entries[i], d.now) && WellFormed(d.request) && d.request.opcode == opcode
    && Addressed(s.entries[i], d.source, d.request, d.now) && Matches(s.entries[i], d.request)
  }

  /** The live entry a request addresses is the one the scan ends with. */
  lemma AddressedIsFound(s: Server, d: Delivery, i: nat, opcode: byte)
    requires Inv(s) && LiveDistinct(s) && Legal(s, Deliver(d)) && Asks(s, d, i, opcode)
    ensures LastAddressed(s.entries, d.source, d.request, d.now, |s.entries|) == i
  {
    hide Inv;
    var a := LastAddressed(s.entries, d.source, d.request, d.now, |s.entries|);
    assert a >= i && Addressed(s.entries[a], d.source, d.request, d.now);
  }

  /** While a ticket lives, its EXECUTE runs the handler the first time, and afterwards repeats that
      run's result without running it. */
  lemma LiveExecuteAnswered(s: Server, d: Delivery, i: nat)
    requires Inv(s) && LiveDistinct(s) && Legal(s, Deliver(d)) && Asks(s, d, i, OP_EXECUTE)
    ensures var e, r := s.entries[i], ServedBy(s, d);
            r.token == e.ticket
            && if e.complete then r.effect == Replayed(e) && r.result == e.result
               else r.effect == Executed(e.(complete := true, result := d.handler)) && r.result == d.handler
  {
    AddressedIsFound(s, d, i, OP_EXECUTE);
    assert Cached(s, i) && Decodable(s.entries[i].payload, s.entries[i].count);
  }

  /** A repeated PREPARE is given the ticket it was given before. */
  lemma RepeatedPrepareAnswered(s: Server, d: Delivery, i: nat)
    requires Inv(s) && LiveDistinct(s) && Legal(s, Deliver(d)) && Asks(s, d, i, OP_PREPARE)
    ensures var r := ServedBy(s, d);
            r.token == s.entries[i].ticket && r.result.status == STATUS_OK && r.effect.Reissued? && r.entries == s.entries
  {
    AddressedIsFound(s, d, i, OP_PREPARE);
  }

  /** A PREPARE under a new nonce is given a ticket exactly when a slot is free, the random source worked
      and the arguments decode: a fresh ticket never collides. */
  lemma NewPrepareAnswered(s: Server, d: Delivery)
    requires Inv(s) && Legal(s, Deliver(d)) && WellFormed(d.request) && d.request.opcode == OP_PREPARE
    requires forall i :: 0 <= i < |s.entries| ==> !Addressed(s.entries[i], d.source, d.request, d.now)
    ensures ServedBy(s, d).effect.Issued? <==>
            (exists i :: 0 <= i < |s.entries| && Free(s.entries[i], d.now)) && d.newTicket != 0
            && Decodable(d.request.payload, d.request.argCount)
  {
    forall i | 0 <= i < |s.entries| && !Free(s.entries[i], d.now) ensures s.entries[i].ticket != d.newTicket {
      assert Cached(s, i) && Recorded(s, s.entries[i]);
    }
    assert !Collides(s.entries, d.newTicket, d.now);
    var f := FirstFree(s.entries, d.now, |s.entries|);
    assert f < |s.entries| <==> exists i :: 0 <= i < |s.entries| && Free(s.entries[i], d.now);
  }

  /** `d2` asks for what `d` prepared: the same node, command, request, arguments. */
  ghost predicate SameRequest(d: Delivery, d2: Delivery) {
    && d2.source == d.source && d2.request.commandId == d.request.commandId && d2.request.requestId == d.request.requestId
    && d2.request.argCount == d.request.argCount && d2.request.payload == d.request.payload
  }

  /** A version 2 request with a token and no status. */
  ghost predicate Ticketed(d: Delivery, opcode: byte, token: uint64) {
    d.request.version == 2 && d.request.status == 0 && d.request.opcode == opcode && d.request.token == token
  }

  /** Inside the window after it was issued a ticket's EXECUTE runs the handler; from the end of the window on
      it is refused as unknown, whatever happened to the slot; and inside it a repeat of the PREPARE is given
      the same ticket. */
  lemma TicketLives(s: Server, d: Delivery, d2: Delivery)
    requires Inv(s) && LiveDistinct(s) && Legal(s, Deliver(d)) && ServedBy(s, d).effect.Issued?
    requires d.now <= d2.now && d2.newTicket !in Receive(s, d).issued && SameRequest(d, d2)
    ensures d.newTicket != 0 && ServedBy(s, d).token == d.newTicket && ServedBy(s, d).result.status == STATUS_OK
    ensures Ticketed(d2, OP_EXECUTE, d.newTicket) && d2.now < d.now + RETRY_WINDOW_MS ==>
              ServedBy(Receive(s, d), d2).effect.Executed? && ServedBy(Receive(s, d), d2).result == d2.handler
              && ServedBy(Receive(s, d), d2).token == d.newTicket
    ensures Ticketed(d2, OP_EXECUTE, d.newTicket) && d2.now >= d.now + RETRY_WINDOW_MS ==>
              ServedBy(Receive(s, d), d2).effect.Refused? && ServedBy(Receive(s, d), d2).result.status == STATUS_UNAVAILABLE
    ensures Ticketed(d2, OP_PREPARE, d.request.token) && d2.now < d.now + RETRY_WINDOW_MS ==>
              ServedBy(Receive(s, d), d2).effect.Reissued? && ServedBy(Receive(s, d), d2).token == d.newTicket
              && ServedBy(Receive(s, d), d2).result.status == STATUS_OK
  {
    var s' := Receive(s, d);
    var i := DispatchMoves(s, d);
    ReceiveKeepsInv(s, d);
    EventKeepsLiveDistinct(s, Deliver(d));
    assert s'.entries[i].ticket == d.newTicket && s'.entries[i].expires == d.now + RETRY_WINDOW_MS;
    if Ticketed(d2, OP_EXECUTE, d.newTicket) && d2.now < d.now + RETRY_WINDOW_MS {
      LiveExecuteAnswered(s', d2, i);
    }
    if Ticketed(d2, OP_EXECUTE, d.newTicket) && d2.now >= d.now + RETRY_WINDOW_MS {
      forall j | 0 <= j < |s'.entries| ensures !Addressed(s'.entries[j], d2.source, d2.request, d2.now) {
        assert Cached(s', i);
        assert Cached(s', j) && j != i ==> s'.entries[j].ticket != s'.entries[i].ticket;
      }
    }
    if Ticketed(d2, OP_PREPARE, d.request.token) && d2.now < d.now + RETRY_WINDOW_MS {
      RepeatedPrepareAnswered(s', d2, i);
    }
  }

  /** A live ticket answers only the node and the very request it was issued for: from another node it is
      unknown, and with any field different it is refused, without running anything. */
  lemma OthersRefused(s: Server, d: Delivery, i: nat)
    requires Inv(s) && LiveDistinct(s) && Legal(s, Deliver(d)) && i < |s.entries| && s.entries[i].ticket != 0 && d.now < s.entries[i].expires
    requires Ticketed(d, OP_EXECUTE, s.entries[i].ticket) && |d.request.payload| <= 192
    ensures d.source != s.entries[i].source ==>
              ServedBy(s, d).effect.Refused? && ServedBy(s, d).result.status == STATUS_UNAVAILABLE && ServedBy(s, d).entries == s.entries
    ensures d.source == s.entries[i].source
            && (d.request.commandId != s.entries[i].command || d.request.requestId != s.entries[i].request
                || d.request.argCount != s.entries[i].count || d.request.payload != s.entries[i].payload) ==>
              ServedBy(s, d).effect.Refused? && ServedBy(s, d).result.status == STATUS_INVALID_ARGUMENT && ServedBy(s, d).entries == s.entries
  {
    assert Cached(s, i);
    forall j | 0 <= j < |s.entries| && Addressed(s.entries[j], d.source, d.request, d.now) ensures j == i {
      assert Cached(s, j);
    }
  }

  /** What is refused before the cache is looked at: anything but a version 2 PREPARE or EXECUTE with a token,
      no status and a payload within bounds. */
  lemma MalformedRefused(s: Server, d: Delivery)
    requires d.request.version != 2 || d.request.token == 0 || d.request.status != 0 || |d.request.payload| > 192
             || (d.request.opcode != 3 && d.request.opcode != 5)
    ensures ServedBy(s, d) == Served(s.entries, d.request.token, CommandResult(2, []), Refused)
  {
  }

  /** With every slot live and none of them this nonce's, a PREPARE is told to come back. */
  lemma FullIsBusy(s: Server, d: Delivery)
    requires Ticketed(d, OP_PREPARE, d.request.token) && d.request.token != 0 && |d.request.payload| <= 192
    requires forall i :: 0 <= i < |s.entries| ==> s.entries[i].ticket != 0 && d.now < s.entries[i].expires
                                                  && (s.entries[i].source != d.source || s.entries[i].nonce != d.request.token)
    ensures ServedBy(s, d) == Served(s.entries, d.request.token, CommandResult(4, []), Refused)
  {
  }
}
