/** The fleet polling client: one request in flight, retried verbatim until it is answered. */
module FleetClient {
  import opened Prelude
  import opened FleetWire

  datatype ClientError =
    | Configuration
    | RedirectRefused
    | ResponseTooLarge
    | Transport
    | Protocol
    | PayloadTooLarge
    | IdentityRejected
    | SessionFenced
    | Retryable

  /** The polling state as a value. */
  datatype Client = Client(
    process_instance_id: Uuid,
    session: Option<Session>,
    next_sequence: u64,
    pending: Option<PollRequest>
  )

  function NewClient(process: Uuid): Client { Client(process, None, 1, None) }

  function NewRequest(s: Client, capacity: RunnerCapacity, id: Uuid): PollRequest {
    PollRequest(ProtocolRange(FLEET_PROTOCOL_V1, FLEET_PROTOCOL_V1), s.process_instance_id, s.session, id,
                s.next_sequence, capacity, [], [], [], [])
  }

  /** Builds the pending request unless one is already waiting for its answer. */
  function Prepare(s: Client, capacity: RunnerCapacity, id: Uuid): Result<Client, ClientError> {
    if s.pending.Some? then Ok(s)
    else if RequestFault(NewRequest(s, capacity, id)).Some? then Err(Protocol)
    else Ok(s.(pending := Some(NewRequest(s, capacity, id))))
  }

  /** Whether a response answers the pending request. */
  predicate Answers(response: PollResponse, pending: PollRequest) {
    && ResponseFault(response).None?
    && response.request_id == pending.request_id
    && response.accepted_sequence == pending.sequence
    && pending.protocol.min_version <= response.protocol_version <= pending.protocol.max_version
    && (pending.session.Some? ==>
          && response.session.session_id == pending.session.value.session_id
          && response.session.generation >= pending.session.value.generation)
    && forall i :: 0 <= i < |response.leases| ==> response.leases[i].contract in pending.supported_contracts
  }

  function Apply(s: Client, response: PollResponse): Result<Client, ClientError> {
    if s.pending.None? || !Answers(response, s.pending.value) || s.pending.value.sequence == U64_MAX then
      Err(Protocol)
    else
      Ok(Client(s.process_instance_id, Some(response.session), s.pending.value.sequence + 1, None))
  }

  // ---------------------------------------------------------------- one iteration

  /** What the supervisor and the network do during one iteration.  `Cancelled` is a shutdown while
      the answer is awaited. */
  datatype Reply = Answer(r: Result<PollResponse, ClientError>) | Cancelled

  datatype Input = Input(snapshot: Option<RunnerCapacity>, request_id: Uuid, reply: Reply, jitter: Factor)

  /** Jitter, in per cent. */
  type Factor = n: int | 80 <= n <= 120 witness 100

  datatype Iteration = Retry(snapshot_failed: bool) | Wait(ms: u32) | Stop

  datatype Polled = Polled(client: Client, outcome: Iteration, sent: Option<Sent>)

  /** A request handed to the transport, and the response that was accepted for it, if any. */
  datatype Sent = Sent(request: PollRequest, response: Option<PollResponse>) {
    predicate accepted() { response.Some? }
  }

  predicate Terminal(e: ClientError) {
    e.PayloadTooLarge? || e.Protocol? || e.IdentityRejected? || e.SessionFenced?
  }

  function Exchange(s: Client, reply: Reply): Polled
    requires s.pending.Some?
  {
    var request := s.pending.value;
    match reply
    case Cancelled => Polled(s, Stop, Some(Sent(request, None)))
    case Answer(Err(e)) => Polled(s, if Terminal(e) then Stop else Retry(false), Some(Sent(request, None)))
    case Answer(Ok(response)) =>
      match Apply(s, response)
      case Ok(s') => Polled(s', Wait(response.poll_after_ms), Some(Sent(request, Some(response))))
      case Err(_) => Polled(s, Stop, Some(Sent(request, None)))
  }

  /** A capacity snapshot counts only when it validates. */
  predicate SnapshotOk(snapshot: Option<RunnerCapacity>) {
    snapshot.Some? && CapacityFault(snapshot.value).None?
  }

  function Poll(s: Client, i: Input): Polled {
    if s.pending.Some? then Exchange(s, i.reply)
    else if !SnapshotOk(i.snapshot) then Polled(s, Retry(true), None)
    else match Prepare(s, i.snapshot.value, i.request_id)
         case Err(_) => Polled(s, Stop, None)
         case Ok(s') => Exchange(s', i.reply)
  }

  class FleetLoopState {
    const process_instance_id: Uuid
    var session: Option<Session>
    var next_sequence: u64
    var pending: Option<PollRequest>

    function State(): Client
      reads this
    {
      Client(process_instance_id, session, next_sequence, pending)
    }

    constructor (process: Uuid)
      ensures State() == NewClient(process)
    {
      process_instance_id := process;
      session := None;
      next_sequence := 1;
      pending := None;
    }

    method PreparePending(capacity: RunnerCapacity, id: Uuid) returns (r: Result<PollRequest, ClientError>)
      modifies this
      ensures match Prepare(old(State()), capacity, id)
              case Ok(s) => State() == s && s.pending.Some? && r == Ok(s.pending.value)
              case Err(e) => State() == old(State()) && r == Err(e)
    {
      if pending.None? {
        var request := PollRequest(
          ProtocolRange(FLEET_PROTOCOL_V1, FLEET_PROTOCOL_V1), process_instance_id, session, id,
          next_sequence, capacity, [], [], [], []);
        var fault := ValidateRequest(request);
        if fault.Some? {
          return Err(Protocol);
        }
        pending := Some(request);
      }
      r := Ok(pending.value);
    }

    /** Accepts a response and moves on, or changes nothing. */
    method ApplyResponse(response: PollResponse) returns (r: Result<(), ClientError>)
      modifies this
      ensures match Apply(old(State()), response)
              case Ok(s) => State() == s && r == Ok(())
              case Err(e) => State() == old(State()) && r == Err(e)
    {
      if pending.None? || !Answers(response, pending.value) {
        return Err(Protocol);
      }
      var sequence := pending.value.sequence;
      if sequence == U64_MAX {
        return Err(Protocol);
      }
      session := Some(response.session);
      next_sequence := sequence + 1;
      pending := None;
      r := Ok(());
    }

    method PollIteration(i: Input) returns (outcome: Iteration, sent: Option<Sent>)
      modifies this
      ensures Polled(State(), outcome, sent) == Poll(old(State()), i)
      ensures Inv(old(State())) ==> Iterates(old(State()), i, Polled(State(), outcome, sent))
    {
      ghost var before := State();
      if Inv(before) {
        PollIterates(before, i);
      }
      hide Iterates, Inv;
      if pending.None? {
        if !SnapshotOk(i.snapshot) {
          return Retry(true), None;
        }
        var prepared := PreparePending(i.snapshot.value, i.request_id);
        if prepared.Err? {
          return Stop, None;
        }
      }
      var request := pending.value;
      match i.reply {
        case Cancelled =>
          return Stop, Some(Sent(request, None));
        case Answer(Ok(response)) =>
          var applied := ApplyResponse(response);
          if applied.Ok? {
            return Wait(response.poll_after_ms), Some(Sent(request, Some(response)));
          }
          return Stop, Some(Sent(request, None));
        case Answer(Err(e)) =>
          return (if Terminal(e) then Stop else Retry(false)), Some(Sent(request, None));
      }
    }
  }

  // ---------------------------------------------------------------- the invariant

  /** No session exactly before the first acceptance; a pending request mirrors the state it was
      built from, is valid, and offers no contracts. */
  ghost predicate Inv(s: Client) {
    && s.next_sequence >= 1
    && (s.session.None? <==> s.next_sequence == 1)
    && (s.session.Some? ==> s.session.value.generation > 0)
    && (s.pending.Some? ==> Mirrors(s.pending.value, s))
  }

  ghost predicate Mirrors(r: PollRequest, s: Client) {
    r == NewRequest(s, r.capacity, r.request_id) && CapacityFault(r.capacity).None?
  }

  /** In a consistent state a valid snapshot always yields a valid request, and nothing else does. */
  lemma RequestsAlwaysBuild(s: Client, capacity: RunnerCapacity, id: Uuid)
    requires Inv(s)
    ensures RequestFault(NewRequest(s, capacity, id)).None? <==> CapacityFault(capacity).None?
    ensures CapacityFault(capacity).None? ==> Prepare(s, capacity, id).Ok?
  {
    var r := NewRequest(s, capacity, id);
    assert Attempts(r) == [];
    assert AttemptsFault(Attempts(r), {}).None?;
    assert ContractsFault(r.supported_contracts).None?;
  }

  /** The session only ever moves forward: never lost, same identity, generation not lower. */
  ghost predicate SessionAdvances(a: Option<Session>, b: Option<Session>) {
    a.Some? ==> b.Some? && b.value.session_id == a.value.session_id && b.value.generation >= a.value.generation
  }

  lemma ExchangeKeepsInv(s: Client, reply: Reply)
    requires Inv(s) && s.pending.Some?
    ensures var p := Exchange(s, reply);
            && Inv(p.client)
            && SessionAdvances(s.session, p.client.session)
            && p.client.process_instance_id == s.process_instance_id
            && p.sent.Some? && p.sent.value.request == s.pending.value
            && (p.sent.value.accepted() <==> p.outcome.Wait?)
            && (p.sent.value.accepted() ==> p.client.next_sequence == s.next_sequence + 1 && p.client.pending.None?)
            && (!p.sent.value.accepted() ==> p.client == s)
            && (p.outcome.Wait? ==> p.sent.value.response.value.poll_after_ms == p.outcome.ms)
  {
  }

  lemma PollKeepsInv(s: Client, i: Input)
    requires Inv(s)
    ensures var p := Poll(s, i);
            && Inv(p.client)
            && SessionAdvances(s.session, p.client.session)
            && p.client.process_instance_id == s.process_instance_id
  {
    if s.pending.None? && SnapshotOk(i.snapshot) {
      RequestsAlwaysBuild(s, i.snapshot.value, i.request_id);
      ExchangeKeepsInv(Prepare(s, i.snapshot.value, i.request_id).value, i.reply);
    } else if s.pending.Some? {
      ExchangeKeepsInv(s, i.reply);
    }
  }

  /** What an accepted response can carry: the answered request's identifiers, a live delay, and no
      leases, since no contract was offered. */
  lemma AcceptedResponses(s: Client, response: PollResponse)
    requires Inv(s) && Apply(s, response).Ok?
    ensures response.leases == []
    ensures response.protocol_version == 1
    ensures response.request_id == s.pending.value.request_id && response.accepted_sequence == s.next_sequence
    ensures 5_000 <= response.poll_after_ms <= 60_000
  {
  }

  // ---------------------------------------------------------------- the iteration, written out

  /** When a response is accepted for a request of this client. */
  ghost predicate Acceptable(response: PollResponse, request: PollRequest) {
    && ValidResponse(response)
    && response.request_id == request.request_id
    && response.accepted_sequence == request.sequence
    && response.protocol_version == 1
    && response.leases == []
    && (request.session.Some? ==>
          && response.session.session_id == request.session.value.session_id
          && response.session.generation >= request.session.value.generation)
    && request.sequence < 0xFFFF_FFFF_FFFF_FFFF
  }

  /** The errors that end the loop, and the errors after which the same request is sent again. */
  predicate EndsLoop(e: ClientError) { e in {PayloadTooLarge, Protocol, IdentityRejected, SessionFenced} }

  predicate SendsAgain(e: ClientError) {
    e in {Retryable, Configuration, RedirectRefused, ResponseTooLarge, Transport}
  }

  /** The request that an iteration sends: the pending one, or a new one about a valid snapshot. */
  ghost predicate Sends(s: Client, i: Input, request: PollRequest) {
    match s.pending
    case Some(pending) => request == pending
    case None =>
      && i.snapshot.Some? && ValidCapacity(i.snapshot.value)
      && request == PollRequest(ProtocolRange(1, 1), s.process_instance_id, s.session, i.request_id,
                                s.next_sequence, i.snapshot.value, [], [], [], [])
  }

  /** What one iteration does, for every reply. */
  ghost predicate Iterates(s: Client, i: Input, p: Polled) {
    match p.sent
    case None =>
      && s.pending.None? && (i.snapshot.None? || !ValidCapacity(i.snapshot.value))
      && p.outcome == Retry(true) && p.client == s
    case Some(Sent(request, accepted)) =>
      && Sends(s, i, request)
      && (p.outcome.Stop? <==>
            || i.reply.Cancelled?
            || (i.reply.Answer? && i.reply.r.Err? && EndsLoop(i.reply.r.error))
            || (i.reply.Answer? && i.reply.r.Ok? && !Acceptable(i.reply.r.value, request)))
      && (p.outcome == Retry(false) <==> i.reply.Answer? && i.reply.r.Err? && SendsAgain(i.reply.r.error))
      && (p.outcome.Wait? <==> i.reply.Answer? && i.reply.r.Ok? && Acceptable(i.reply.r.value, request))
      && (p.outcome.Wait? ==>
            && p.outcome.ms == i.reply.r.value.poll_after_ms
            && accepted == Some(i.reply.r.value)
            && p.client == Client(s.process_instance_id, Some(i.reply.r.value.session), request.sequence + 1, None))
      && (!p.outcome.Wait? ==> accepted == None && p.client == s.(pending := Some(request)))
  }

  lemma AcceptableIff(s: Client, response: PollResponse)
    requires Inv(s) && s.pending.Some?
    ensures Apply(s, response).Ok? <==> Acceptable(response, s.pending.value)
  {
    hide ResponseFault, ValidResponse;
    ResponseAcceptedIffValid(response);
    if response.leases != [] {
      assert response.leases[0].contract !in s.pending.value.supported_contracts;
    }
  }

  lemma ExchangeIterates(s: Client, i: Input, from: Client)
    requires Inv(from) && Inv(s) && s.pending.Some? && s == from.(pending := s.pending)
    requires Sends(from, i, s.pending.value)
    ensures Iterates(from, i, Exchange(s, i.reply))
  {
    hide Acceptable;
    if i.reply.Answer? && i.reply.r.Ok? {
      AcceptableIff(s, i.reply.r.value);
    }
  }

  /** Every iteration from a consistent state: whether it sends, what it sends, and exactly when it stops, sends
      again or waits. */
  lemma PollIterates(s: Client, i: Input)
    requires Inv(s)
    ensures Iterates(s, i, Poll(s, i))
  {
    hide Iterates, Exchange, ValidCapacity, CapacityFault;
    if s.pending.Some? {
      ExchangeIterates(s, i, s);
    } else {
      if i.snapshot.Some? {
        CapacityAcceptedIffValid(i.snapshot.value);
        RequestsAlwaysBuild(s, i.snapshot.value, i.request_id);
      }
      if SnapshotOk(i.snapshot) {
        ExchangeIterates(Prepare(s, i.snapshot.value, i.request_id).value, i, s);
      } else {
        Deferred(s, i);
      }
    }
  }

  lemma Deferred(s: Client, i: Input)
    requires s.pending.None? && (i.snapshot.None? || !ValidCapacity(i.snapshot.value))
    ensures Iterates(s, i, Polled(s, Retry(true), None))
  {
  }

  /** The loop stops exactly on shutdown while an answer is awaited, on one of four errors, and on a response
      that is not acceptable for the request sent. */
  lemma StopsIff(s: Client, i: Input)
    requires Inv(s)
    ensures Poll(s, i).outcome.Stop? <==>
            && (s.pending.Some? || (i.snapshot.Some? && ValidCapacity(i.snapshot.value)))
            && (|| i.reply.Cancelled?
                || (i.reply.Answer? && i.reply.r.Err? && EndsLoop(i.reply.r.error))
                || (i.reply.Answer? && i.reply.r.Ok? && Poll(s, i).sent.Some? &&
                    !Acceptable(i.reply.r.value, Poll(s, i).sent.value.request)))
  {
    hide Poll, Acceptable, ValidCapacity;
    PollIterates(s, i);
  }
}
