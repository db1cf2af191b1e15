/** The keep-alive loop of an inspected connection: one decision, one audit record and at
    most one upstream contact per request, and never a parse in the middle of a body. */
module Inspect {
  import opened Text
  import opened Engine

  const DRAIN_LIMIT: nat := 1_048_576

  /** A request body: its length, and where reading it breaks off, if it does. */
  datatype Body = NoBody | Body(length: nat, failsAt: Option<nat>)

  datatype Incoming = Incoming(request: Request, absolute: bool, close: bool, body: Body)

  /** What an authorized request meets: a usable upstream profile, a target that parses, and
      then a response, or none if the round trip fails; the response may switch protocols, may
      not reach the client, and may ask to close. */
  datatype Attempt = Attempt(transport: bool, parses: bool, response: Option<Response>)

  datatype Response = Response(switching: bool, relayed: bool, close: bool)

  datatype Outcome = Allow | DenyPolicy | ErrorUpstream

  datatype Event =
    | Parsed(k: nat)
    | Audited(k: nat, outcome: Outcome)
    | Contacted(k: nat, upstream: Bytes)
    | Refusal(k: nat, written: bool)

  function BodyLength(b: Body): nat {
    if b.NoBody? then 0 else b.length
  }

  /** drain answers true exactly for these bodies. */
  predicate Drainable(b: Body) {
    b.NoBody? || (b.length <= DRAIN_LIMIT && b.failsAt.None?)
  }

  predicate WellFormedBody(b: Body) {
    b.Body? && b.failsAt.Some? ==> b.failsAt.value <= b.length
  }

  // ----- the client side of the connection -----

  /** The inspected byte stream: requests one after the other, of which `heads` have been
      parsed; unread is what is left on the wire of the last one's body, and ended whether its
      end has been seen - which may turn out to be an error behind the last byte. */
  class Wire {
    const requests: seq<Incoming>
    const breaks: nat -> bool
    const pieces: nat -> nat
    var heads: nat
    var unread: nat
    var ended: bool
    var turn: nat

    ghost predicate Valid()
      reads this
    {
      && heads <= |requests|
      && (forall k :: 0 <= k < |requests| ==> WellFormedBody(requests[k].body))
      && unread <= (if heads == 0 then 0 else BodyLength(requests[heads - 1].body))
      && (ended ==> unread == 0)
    }

    ghost predicate AtBoundary()
      reads this
    {
      ended
    }

    constructor (requests: seq<Incoming>, breaks: nat -> bool, pieces: nat -> nat)
      requires forall k :: 0 <= k < |requests| ==> WellFormedBody(requests[k].body)
      ensures Valid() && AtBoundary() && heads == 0 && this.requests == requests && this.breaks == breaks
    {
      this.requests, this.breaks, this.pieces := requests, breaks, pieces;
      heads, unread, ended, turn := 0, 0, true, 0;
    }

    /** readBumpedRequest.  Only asked for at a request boundary: anywhere else it would read
        body bytes as a request line. */
    method ReadRequest() returns (got: Option<Incoming>)
      requires Valid() && AtBoundary()
      modifies this
      ensures Valid()
      ensures got.None? <==> old(heads) == |requests| || breaks(old(heads)) || requests[old(heads)].absolute
      ensures heads == if old(heads) == |requests| || breaks(old(heads)) then old(heads) else old(heads) + 1
      ensures got.Some? ==> got.value == requests[old(heads)] && JustParsed(got.value)
    {
      if heads == |requests| || breaks(heads) {
        return None;
      }
      var req := requests[heads];
      heads := heads + 1;
      unread, ended := BodyLength(req.body), req.body.NoBody?;
      if req.absolute {
        return None;
      }
      return Some(req);
    }

    /** The request's head has been read and nothing of its body. */
    ghost predicate JustParsed(req: Incoming)
      reads this
    {
      unread == BodyLength(req.body) && (ended <==> req.body.NoBody?)
    }

    /** Reading the body of the last request: up to max bytes, then its end or its error. */
    method ReadBody(max: nat) returns (n: nat, failed: bool)
      requires Valid() && heads > 0 && max > 0 && requests[heads - 1].body.Body?
      modifies `unread, `ended, `turn
      ensures Valid()
      ensures n <= max && n <= Readable(requests[heads - 1].body, old(unread)) && unread == old(unread) - n
      ensures n == 0 ==> Readable(requests[heads - 1].body, old(unread)) == 0
      ensures failed <==> n == 0 && FailsHere(requests[heads - 1].body, unread)
      ensures ended <==> old(ended) || (n == 0 && !failed)
    {
      var body := requests[heads - 1].body;
      var left := Readable(body, unread);
      var want := pieces(turn);
      turn := turn + 1;
      n := if left <= max then left else max;
      n := if 0 < want < n then want else n;
      unread := unread - n;
      failed := n == 0 && FailsHere(body, unread);
      if n == 0 && !failed {
        ended := true;
      }
    }

    /** The transport reads the whole body of a request it forwards. */
    method BodyForwarded()
      requires Valid()
      modifies `unread, `ended
      ensures Valid() && AtBoundary()
    {
      unread, ended := 0, true;
    }
  }

  /** How many bytes of the body can still be read when this many are left on the wire. */
  function Readable(b: Body, unread: nat): (n: nat)
    ensures n <= unread
  {
    if b.NoBody? || b.failsAt.None? then unread
    else
      var done := b.length - unread;
      if b.failsAt.value <= done then 0
      else if b.failsAt.value - done <= unread then b.failsAt.value - done
      else unread
  }

  /** Reading on from here gives the body's error instead of its end. */
  predicate FailsHere(b: Body, unread: nat) {
    b.Body? && b.failsAt.Some? && b.failsAt.value <= b.length - unread
  }

  /** drain: discard at most one byte more than the limit, and say whether that was all. */
  method Drain(wire: Wire) returns (drained: bool)
    requires wire.Valid() && wire.heads > 0 && wire.JustParsed(wire.requests[wire.heads - 1])
    modifies wire`unread, wire`ended, wire`turn
    ensures wire.Valid()
    ensures drained <==> Drainable(wire.requests[wire.heads - 1].body)
    ensures var body := wire.requests[wire.heads - 1].body;
            drained <==> body.NoBody? || (body.length <= 0x10_0000 && body.failsAt.None?)
    ensures drained ==> wire.AtBoundary()
  {
    var body := wire.requests[wire.heads - 1].body;
    if body.NoBody? {
      return true;
    }
    var total := 0;
    while total < DRAIN_LIMIT + 1 && !wire.ended
      invariant wire.Valid() && total <= DRAIN_LIMIT + 1 && total + wire.unread == body.length
      invariant body.failsAt.Some? ==> total <= body.failsAt.value && !wire.ended
      decreases DRAIN_LIMIT + 1 - total, if wire.ended then 0 else 1
    {
      var n, failed := wire.ReadBody(DRAIN_LIMIT + 1 - total);
      total := total + n;
      if failed {
        return false;
      }
    }
    return total <= DRAIN_LIMIT;
  }

  // ----- the trace -----

  /** What the engine may answer to each request on this connection. */
  ghost predicate Answered(dec: ConnectDecision, reqs: seq<Incoming>, k: nat, r: RequestDecision) {
    k < |reqs| && RequestAnswer(r, Some(dec), reqs[k].request)
  }

  type Answers = (nat, RequestDecision) -> bool

  ghost function EngineAnswers(dec: ConnectDecision, reqs: seq<Incoming>): Answers {
    (k: nat, r) => Answered(dec, reqs, k, r)
  }

  /** The events of one request, for the answer it got. */
  ghost predicate IsBlock(block: seq<Event>, r: RequestDecision, k: nat) {
    if !r.allowed then
      exists written :: block == [Parsed(k), Audited(k, DenyPolicy), Refusal(k, written)]
    else
      || block == [Parsed(k), Audited(k, ErrorUpstream)]
      || block == [Parsed(k), Contacted(k, r.upstream), Audited(k, ErrorUpstream)]
      || block == [Parsed(k), Contacted(k, r.upstream), Audited(k, Allow)]
  }

  /** Whether the loop may go round again: after a refusal only if it was written, the client
      did not ask to close and the body could be drained; otherwise only after a success. */
  ghost predicate GoesOn(block: seq<Event>, r: RequestDecision, k: nat, req: Incoming) {
    && !req.close
    && if !r.allowed then Drainable(req.body) && block == [Parsed(k), Audited(k, DenyPolicy), Refusal(k, true)]
       else block == [Parsed(k), Contacted(k, r.upstream), Audited(k, Allow)]
  }

  /** forwardBumped gets a response back to the client, and the upstream does not ask to close. */
  predicate StaysUsable(attempt: Attempt) {
    && attempt.transport && attempt.parses && attempt.response.Some?
    && var resp := attempt.response.value; !resp.switching && resp.relayed && !resp.close
  }

  /** The reasons the loop has to end after a request. */
  predicate HasToStop(req: Incoming, r: RequestDecision, attempt: Attempt, writable: bool) {
    req.close || if r.allowed then !StaysUsable(attempt) else !writable || !Drainable(req.body)
  }

  ghost predicate BlockFor(answers: Answers, reqs: seq<Incoming>, k: nat, block: seq<Event>, more: bool) {
    k < |reqs| && exists r :: answers(k, r) && IsBlock(block, r, k) && (more ==> GoesOn(block, r, k, reqs[k]))
  }

  /** A run of the loop: one block per request parsed, in order, all but the last going on. */
  ghost predicate IsTrace(answers: Answers, reqs: seq<Incoming>, blocks: seq<seq<Event>>) {
    && |blocks| <= |reqs|
    && forall k :: 0 <= k < |blocks| ==> BlockFor(answers, reqs, k, blocks[k], k < |blocks| - 1)
  }

  /** The run ended because the next request could not be read, or was read and refused for
      its absolute form, or because the last one had to be the last; nothing more was read. */
  ghost predicate EndsRightly(answers: Answers, requests: seq<Incoming>, breaks: nat -> bool, heads: nat, served: nat,
                              attempts: nat -> Attempt, writable: nat -> bool) {
    || (heads == served && (served >= |requests| || breaks(served)))
    || (heads == served + 1 && served < |requests| && requests[served].absolute)
    || (heads == served > 0 && HadToStop(answers, requests, served - 1, attempts(served - 1), writable(served - 1)))
  }

  ghost predicate HadToStop(answers: Answers, reqs: seq<Incoming>, k: nat, attempt: Attempt, writable: bool) {
    k < |reqs| && exists r :: answers(k, r) && HasToStop(reqs[k], r, attempt, writable)
  }

  /** forwardBumped: the upstream is contacted once the profile and the target are found
      good; the connection is kept exactly after a response that leaves it usable. */
  method ForwardBumped(wire: Wire, k: nat, req: Incoming, rdec: RequestDecision, attempt: Attempt)
    returns (events: seq<Event>, keepAlive: bool, failed: bool)
    requires wire.Valid() && wire.heads > 0
    modifies wire`unread, wire`ended
    ensures wire.Valid()
    ensures events == if attempt.transport && attempt.parses then [Contacted(k, rdec.upstream)] else []
    ensures keepAlive <==> StaysUsable(attempt) && !req.close
    ensures keepAlive <==>
            && attempt.transport && attempt.parses && attempt.response.Some?
            && !attempt.response.value.switching && attempt.response.value.relayed
            && !attempt.response.value.close && !req.close
    ensures keepAlive ==> wire.AtBoundary()
    ensures events == [] ==> failed
    ensures failed ==> !keepAlive
  {
    if !attempt.transport {
      return [], false, true;
    }
    if !attempt.parses {
      return [], false, true;
    }
    events := [Contacted(k, rdec.upstream)];
    if attempt.response.None? {
      return events, false, true;
    }
    wire.BodyForwarded();
    var resp := attempt.response.value;
    if resp.switching {
      return events, false, !resp.relayed;
    }
    if !resp.relayed {
      return events, false, true;
    }
    return events, !resp.close && !req.close, false;
  }

  /** The loop body once the request is parsed and decided. */
  method ServeOne(wire: Wire, k: nat, req: Incoming, rdec: RequestDecision, attempt: Attempt, writable: bool)
    returns (block: seq<Event>, more: bool)
    requires wire.Valid() && wire.heads == k + 1 && req == wire.requests[k] && wire.JustParsed(req)
    modifies wire`unread, wire`ended, wire`turn
    ensures wire.Valid()
    ensures IsBlock(block, rdec, k)
    ensures more ==> GoesOn(block, rdec, k, req) && wire.AtBoundary()
    ensures more <==> !HasToStop(req, rdec, attempt, writable)
  {
    if !rdec.allowed {
      var drained := Drain(wire);
      block := [Parsed(k), Audited(k, DenyPolicy), Refusal(k, writable)];
      if !writable {
        return block, false;
      }
      return block, !(req.close || !drained);
    }
    var contact, keepAlive, failed := ForwardBumped(wire, k, req, rdec, attempt);
    if failed {
      return [Parsed(k)] + contact + [Audited(k, ErrorUpstream)], false;
    }
    return [Parsed(k)] + contact + [Audited(k, Allow)], keepAlive;
  }

  method Decide(dec: ConnectDecision, reqs: seq<Incoming>, k: nat) returns (rdec: RequestDecision)
    requires k < |reqs|
    ensures Answered(dec, reqs, k, rdec)
  {
    rdec := AuthorizeRequest(Some(dec), reqs[k].request);
  }

  /** One request, once parsed: decided by the engine and served. */
  method ServeParsed(dec: ConnectDecision, wire: Wire, k: nat, attempt: Attempt, writable: bool, ghost answers: Answers)
    returns (block: seq<Event>, more: bool)
    requires wire.Valid() && wire.heads == k + 1 && wire.JustParsed(wire.requests[k])
    requires forall k: nat, r {:trigger Answered(dec, wire.requests, k, r)} ::
               answers(k, r) <==> Answered(dec, wire.requests, k, r)
    modifies wire`unread, wire`ended, wire`turn
    ensures wire.Valid() && (more ==> wire.AtBoundary())
    ensures BlockFor(answers, wire.requests, k, block, more)
    ensures !more ==> HadToStop(answers, wire.requests, k, attempt, writable)
  {
    var rdec := Decide(dec, wire.requests, k);
    block, more := ServeOne(wire, k, wire.requests[k], rdec, attempt, writable);
    assert answers(k, rdec);
  }

  /** serveBumped.  attempts and writable are the environment's choices: what each authorized
      request meets, and whether each refusal can be written back.  Every parse happens at a
      request boundary: that is what ReadRequest requires. */
  method ServeBumped(dec: ConnectDecision, wire: Wire, attempts: nat -> Attempt, writable: nat -> bool)
    returns (log: seq<Event>, ghost blocks: seq<seq<Event>>)
    requires wire.Valid() && wire.AtBoundary() && wire.heads == 0
    modifies wire
    ensures log == Flatten(blocks)
    ensures IsTrace(EngineAnswers(dec, wire.requests), wire.requests, blocks)
    ensures EndsRightly(EngineAnswers(dec, wire.requests), wire.requests, wire.breaks, wire.heads, |blocks|,
                        attempts, writable)
  {
    log, blocks := ServeLoop(dec, wire, attempts, writable, EngineAnswers(dec, wire.requests));
  }

  method ServeLoop(dec: ConnectDecision, wire: Wire, attempts: nat -> Attempt, writable: nat -> bool,
                   ghost answers: Answers)
    returns (log: seq<Event>, ghost blocks: seq<seq<Event>>)
    requires wire.Valid() && wire.AtBoundary() && wire.heads == 0
    requires forall k: nat, r {:trigger Answered(dec, wire.requests, k, r)} ::
               answers(k, r) <==> Answered(dec, wire.requests, k, r)
    modifies wire
    ensures log == Flatten(blocks)
    ensures IsTrace(answers, wire.requests, blocks)
    ensures EndsRightly(answers, wire.requests, wire.breaks, wire.heads, |blocks|, attempts, writable)
  {
    log, blocks := [], [];
    while true
      invariant wire.Valid() && wire.AtBoundary() && wire.heads == |blocks|
      invariant forall k :: 0 <= k < |blocks| ==> BlockFor(answers, wire.requests, k, blocks[k], true)
      invariant log == Flatten(blocks)
      decreases |wire.requests| - |blocks|
    {
      var k := wire.heads;
      var got := wire.ReadRequest();
      if got.None? {
        return;
      }
      var block, more := ServeParsed(dec, wire, k, attempts(k), writable(k), answers);
      FlattenSnoc(blocks, block);
      log := log + block;
      blocks := blocks + [block];
      if !more {
        return;
      }
    }
  }

  // ----- what every trace satisfies -----

  function Audits(log: seq<Event>, k: nat): nat {
    if log == [] then 0 else (if log[0].Audited? && log[0].k == k then 1 else 0) + Audits(log[1..], k)
  }

  function Contacts(log: seq<Event>, k: nat): nat {
    if log == [] then 0 else (if log[0].Contacted? && log[0].k == k then 1 else 0) + Contacts(log[1..], k)
  }

  lemma {:induction false} CountsAppend(a: seq<Event>, b: seq<Event>, k: nat)
    ensures Audits(a + b, k) == Audits(a, k) + Audits(b, k)
    ensures Contacts(a + b, k) == Contacts(a, k) + Contacts(b, k)
  {
    if a == [] {
      assert a + b == b;
    } else {
      assert (a + b)[1..] == a[1..] + b;
      CountsAppend(a[1..], b, k);
    }
  }

  lemma CountsOf(e: Event, rest: seq<Event>, k: nat)
    ensures Audits([e] + rest, k) == (if e.Audited? && e.k == k then 1 else 0) + Audits(rest, k)
    ensures Contacts([e] + rest, k) == (if e.Contacted? && e.k == k then 1 else 0) + Contacts(rest, k)
  {
  }

  lemma BlockCounts(block: seq<Event>, r: RequestDecision, j: nat, k: nat)
    requires IsBlock(block, r, j)
    ensures Audits(block, k) == if j == k then 1 else 0
    ensures Contacts(block, k) <= (if j == k && r.allowed then 1 else 0)
  {
    assert block == [block[0]] + block[1..] && block[1..] == [block[1]] + block[2..];
    CountsOf(block[0], block[1..], k);
    CountsOf(block[1], block[2..], k);
    if |block| == 3 {
      assert block[2..] == [block[2]] + [];
      CountsOf(block[2], [], k);
    }
  }

  lemma LastBlock(blocks: seq<seq<Event>>)
    requires blocks != []
    ensures Flatten(blocks) == Flatten(blocks[..|blocks| - 1]) + blocks[|blocks| - 1]
  {
    var last := |blocks| - 1;
    assert blocks == blocks[..last] + [blocks[last]];
    FlattenSnoc(blocks[..last], blocks[last]);
  }

  lemma {:induction false} TraceCounts(answers: Answers, reqs: seq<Incoming>, blocks: seq<seq<Event>>, k: nat)
    requires forall j :: 0 <= j < |blocks| ==> BlockFor(answers, reqs, j, blocks[j], false)
    ensures Audits(Flatten(blocks), k) == if k < |blocks| then 1 else 0
    ensures Contacts(Flatten(blocks), k) <= if k < |blocks| then 1 else 0
    decreases |blocks|
  {
    if blocks != [] {
      var last := |blocks| - 1;
      LastBlock(blocks);
      TraceCounts(answers, reqs, blocks[..last], k);
      CountsAppend(Flatten(blocks[..last]), blocks[last], k);
      var r :| answers(last, r) && IsBlock(blocks[last], r, last);
      BlockCounts(blocks[last], r, last, k);
    }
  }

  /** Every request parsed leaves exactly one audit record, and contacts upstream at most once. */
  lemma OneAuditPerRequest(answers: Answers, reqs: seq<Incoming>, blocks: seq<seq<Event>>, k: nat)
    requires IsTrace(answers, reqs, blocks)
    ensures Audits(Flatten(blocks), k) == if k < |blocks| then 1 else 0
    ensures Contacts(Flatten(blocks), k) <= if k < |blocks| then 1 else 0
  {
    forall j | 0 <= j < |blocks| ensures BlockFor(answers, reqs, j, blocks[j], false) {
      assert BlockFor(answers, reqs, j, blocks[j], j < |blocks| - 1);
    }
    TraceCounts(answers, reqs, blocks, k);
  }

  /** Upstream is only ever contacted for a request that was allowed, through the upstream of
      the decision that allowed it, and after it was parsed. */
  lemma {:induction false} ContactsAreAllowed(answers: Answers, reqs: seq<Incoming>, blocks: seq<seq<Event>>, i: nat)
    requires forall j :: 0 <= j < |blocks| ==> BlockFor(answers, reqs, j, blocks[j], false)
    requires i < |Flatten(blocks)| && Flatten(blocks)[i].Contacted?
    ensures var e := Flatten(blocks)[i];
            && (exists r :: answers(e.k, r) && r.allowed && r.upstream == e.upstream)
            && i > 0 && Flatten(blocks)[i - 1] == Parsed(e.k)
    decreases |blocks|
  {
    assert blocks != [];
    var last := |blocks| - 1;
    var front := Flatten(blocks[..last]);
    LastBlock(blocks);
    if i < |front| {
      ContactsAreAllowed(answers, reqs, blocks[..last], i);
    } else {
      var r :| answers(last, r) && IsBlock(blocks[last], r, last);
      assert Flatten(blocks)[i] == blocks[last][i - |front|];
      assert i - |front| > 0 ==> Flatten(blocks)[i - 1] == blocks[last][i - |front| - 1];
    }
  }
}
