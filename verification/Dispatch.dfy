// Dispatching one callback with retries (dispatchgateway/remote.go) to a receiver over a
// network that loses, delays and repeats requests and loses replies.
module Dispatch {
  import opened Text
  import opened Digest
  import opened Replay

  const POST := "POST"
  const ACCEPT_PATH := "/dispatch/executions"

  datatype Config = Config(runtimeId: string, maxAttempts: int)

  datatype Receipt = Receipt(executionId: string, id: string, status: string)

  // What comes back from one call: nothing, or the response to one of the arrivals, with the
  // receipt read from it.
  datatype Reply = Lost | Response(arrival: nat, status: int, receipt: Option<Receipt>)

  // What arrives at the receiver between one call and the next, where None is a copy of the
  // dispatch's own call and Some is a request from elsewhere; what comes back; and whether the
  // caller gives up while waiting for the next attempt.
  datatype Fate = Fate(traffic: seq<Option<Identity>>, reply: Reply, cancelled: bool)

  datatype Error =
    | ConfigInvalid
    | AuthenticationFailed
    | Invalid
    | ResponseInvalid
    | Transport
    | HttpStatus(status: int)
    | Cancelled

  // NewRemote: the configuration is normalised, and refused without a runtime.
  function NewRemote(config: Config): (r: Result<Config, Error>)
    ensures r.Ok? <==> !Blank(config.runtimeId)
    ensures r.Ok? ==> r.value.maxAttempts >= 1 && (config.maxAttempts < 1 ==> r.value.maxAttempts == 3)
    ensures r.Ok? && config.maxAttempts >= 1 ==> r.value.maxAttempts == config.maxAttempts
  {
    if TrimSpace(config.runtimeId) == "" then Err(ConfigInvalid)
    else Ok(Config(TrimSpace(config.runtimeId), if config.maxAttempts <= 0 then 3 else config.maxAttempts))
  }

  // Request.Validate
  predicate ValidFor(r: Request, runtimeId: string) {
    !Blank(runtimeId) && TrimSpace(r.runtimeId) == runtimeId &&
    !Blank(r.executionId) && !Blank(r.definitionKey) && !Blank(r.idempotencyKey) && ValidTarget(r.target)
  }

  function Signed(config: Config, r: Request): SignedRequest {
    SignedRequest(POST, ACCEPT_PATH, config.runtimeId, r.idempotencyKey)
  }

  // A request for the configured runtime that is valid and can be signed.
  predicate Sendable(config: Config, runtimeId: string, r: Request) {
    TrimSpace(runtimeId) == config.runtimeId && ValidFor(r, runtimeId) && ValidRequest(Signed(config, r))
  }

  // What is sent is a POST to the fixed path in the name of the runtime, under the request's key.
  // Since these are well formed, a request is sendable exactly when it names the runtime, its
  // execution and its definition, has a valid target, and a key that is not padded, of 1 to 191
  // characters.
  lemma SendableExactly(config: Config, runtimeId: string, r: Request)
    ensures Signed(config, r) == SignedRequest("POST", "/dispatch/executions", config.runtimeId, r.idempotencyKey)
    ensures Sendable(config, runtimeId, r) <==>
            config.runtimeId == runtimeId == TrimSpace(r.runtimeId) != "" &&
            TrimSpace(r.executionId) != "" && TrimSpace(r.definitionKey) != "" && ValidTarget(r.target) &&
            r.idempotencyKey == TrimSpace(r.idempotencyKey) && 1 <= |r.idempotencyKey| <= 191
  {
    hide TrimSpace, ValidTarget, CleanPath, UpperCase;
    TrimSpaceIsIdempotent(r.runtimeId);
    FixedRequestIsTight();
  }

  lemma FixedRequestIsTight()
    ensures Tight("POST") && UpperCase("POST")
    ensures Tight("/dispatch/executions") && CleanPath("/dispatch/executions")
    ensures '?' !in "/dispatch/executions" && '#' !in "/dispatch/executions"
  {
    hide Tight, CleanPath, UpperCase;
    PostIsTight();
    PathIsTight();
    CleanPathExactly("dispatch", "executions");
    CleanPathExactly("executions", "");
    PathJoined();
  }

  lemma PostIsTight()
    ensures Tight("POST") && UpperCase("POST")
  {
    hide TrimSpace;
    TrimmedIsFixed("POST");
  }

  lemma PathIsTight()
    ensures Tight("/dispatch/executions")
  {
    hide TrimSpace;
    TrimmedIsFixed("/dispatch/executions");
  }

  lemma PathJoined()
    ensures "/" + "dispatch" + "/" + "executions" == "/dispatch/executions"
  {
  }

  // The outcome of one call: an error with its retry classification, or a receipt.
  function CallError(reply: Reply): Option<(Error, bool)> {
    match reply
    case Lost => Some((Transport, true))
    case Response(_, status, receipt) =>
      if status < 200 || 300 <= status then Some((HttpStatus(status), status == 429 || 500 <= status))
      else if receipt.None? then Some((ResponseInvalid, false))
      else None
  }

  predicate Retryable(reply: Reply) {
    CallError(reply).Some? && CallError(reply).value.1
  }

  // The result of a call that ends the dispatch.
  function Final(request: Request, reply: Reply): Result<Receipt, Error> {
    if CallError(reply).Some? then Err(CallError(reply).value.0)
    else
      var receipt := reply.receipt.value;
      if receipt.executionId != request.executionId || Blank(receipt.id) || Blank(receipt.status)
      then Err(ResponseInvalid) else Ok(receipt)
  }

  // The number of calls a dispatch makes when the network behaves as given: it goes on only
  // after a retryable outcome, with attempts left, and if the caller has not given up.
  function Calls(network: seq<Fate>, maxAttempts: int): (n: nat)
    requires 1 <= maxAttempts <= |network|
    ensures 1 <= n <= maxAttempts
    ensures forall i :: 0 <= i < n - 1 ==> Retryable(network[i].reply) && !network[i].cancelled
    ensures n == maxAttempts || !Retryable(network[n - 1].reply) || network[n - 1].cancelled
    decreases maxAttempts
  {
    if maxAttempts == 1 || !Retryable(network[0].reply) || network[0].cancelled then 1
    else 1 + Calls(network[1..], maxAttempts - 1)
  }

  // What the dispatch returns when the network behaves as given.
  function Outcome(request: Request, network: seq<Fate>, maxAttempts: int): Result<Receipt, Error>
    requires 1 <= maxAttempts <= |network|
  {
    var n := Calls(network, maxAttempts);
    if n < maxAttempts && Retryable(network[n - 1].reply) then Err(Cancelled) else Final(request, network[n - 1].reply)
  }

  // A call is followed by another exactly after a lost reply, a 429 or a status from 500 on, while
  // attempts are left and the caller has not given up.
  lemma {:induction false} RetriedExactly(network: seq<Fate>, maxAttempts: int)
    requires 1 <= maxAttempts <= |network|
    ensures var n := Calls(network, maxAttempts);
            (forall i | 0 <= i < n - 1 ::
               !network[i].cancelled &&
               (network[i].reply.Lost? || network[i].reply.status == 429 || network[i].reply.status >= 500)) &&
            (n < maxAttempts && !network[n - 1].cancelled ==>
               network[n - 1].reply.Response? &&
               network[n - 1].reply.status != 429 && network[n - 1].reply.status < 500)
  {
    var n := Calls(network, maxAttempts);
    forall i | 0 <= i < n - 1
      ensures !network[i].cancelled &&
              (network[i].reply.Lost? || network[i].reply.status == 429 || network[i].reply.status >= 500)
    {
      assert Retryable(network[i].reply);
    }
  }

  // What is reported of the last call: the end of a wait, a lost reply, the status of an
  // unsuccessful response, and otherwise the receipt if it belongs to the request.
  lemma OutcomeExactly(request: Request, network: seq<Fate>, maxAttempts: int)
    requires 1 <= maxAttempts <= |network|
    ensures var n := Calls(network, maxAttempts);
            var reply := network[n - 1].reply;
            var r := Outcome(request, network, maxAttempts);
            if n < maxAttempts && network[n - 1].cancelled &&
               (reply.Lost? || reply.status == 429 || reply.status >= 500) then r == Err(Cancelled)
            else if reply.Lost? then r == Err(Transport)
            else if reply.status < 200 || reply.status > 299 then r == Err(HttpStatus(reply.status))
            else if reply.receipt.Some? && reply.receipt.value.executionId == request.executionId &&
                    !Blank(reply.receipt.value.id) && !Blank(reply.receipt.value.status)
            then r == Ok(reply.receipt.value)
            else r == Err(ResponseInvalid)
  {
    hide TrimSpace, Calls;
    var n := Calls(network, maxAttempts);
    assert n == maxAttempts || !Retryable(network[n - 1].reply) || network[n - 1].cancelled;
  }

  // The requests that make up some traffic.
  function Delivered(id: Identity, traffic: seq<Option<Identity>>): seq<Identity> {
    seq(|traffic|, i requires 0 <= i < |traffic| => if traffic[i].None? then id else traffic[i].value)
  }

  // All that arrives at the receiver during the first n calls.
  function Arrivals(id: Identity, network: seq<Fate>, n: nat): seq<Identity>
    requires n <= |network|
  {
    if n == 0 then [] else Arrivals(id, network, n - 1) + Delivered(id, network[n - 1].traffic)
  }

  // NewRemote and Remote.Dispatch. Every call carries the same identity, so the receiver is
  // changed as by arrivals of it among the other traffic; nothing is sent for a request that
  // cannot be signed.
  method Dispatch(config: Config, runtimeId: string, request: Request, receiver: Receiver, network: seq<Fate>)
    returns (result: Result<Receipt, Error>, calls: nat)
    requires NewRemote(config).Ok? ==> NewRemote(config).value.maxAttempts <= |network|
    modifies receiver
    ensures NewRemote(config).Err? ==> result == Err(ConfigInvalid)
    ensures NewRemote(config).Ok? ==>
              var remote := NewRemote(config).value;
              if TrimSpace(runtimeId) != remote.runtimeId then result == Err(AuthenticationFailed)
              else if !Sendable(remote, runtimeId, request) then result == Err(Invalid)
              else
                var id := NewCallbackRequestIdentity(request, Signed(remote, request)).value;
                calls == Calls(network, remote.maxAttempts) &&
                receiver.claims == ReceivedAll(old(receiver.claims), Arrivals(id, network, calls)) &&
                result == Outcome(request, network, remote.maxAttempts)
    ensures NewRemote(config).Err? || !Sendable(NewRemote(config).value, runtimeId, request) ==>
              calls == 0 && receiver.claims == old(receiver.claims)
  {
    hide TrimSpace, ValidFor, ValidRequest, Received, Final, Calls, NewRemote;
    calls := 0;
    var created := NewRemote(config);
    if created.Err? { return Err(ConfigInvalid), 0; }
    var remote := created.value;
    if TrimSpace(runtimeId) != remote.runtimeId { return Err(AuthenticationFailed), 0; }
    if !ValidFor(request, runtimeId) { return Err(Invalid), 0; }
    if !ValidRequest(Signed(remote, request)) { return Err(Invalid), 0; }
    var id := NewCallbackRequestIdentity(request, Signed(remote, request)).value;
    for attempt := 1 to remote.maxAttempts + 1
      invariant calls == attempt - 1
      invariant receiver.claims == ReceivedAll(old(receiver.claims), Arrivals(id, network, calls))
      invariant forall i :: 0 <= i < calls ==> Retryable(network[i].reply) && !network[i].cancelled
      invariant calls < remote.maxAttempts
    {
      Transmit(receiver, id, network[attempt - 1].traffic, old(receiver.claims), Arrivals(id, network, calls));
      calls := attempt;
      var reply := network[attempt - 1].reply;
      var failure := CallError(reply);
      if failure.None? || !failure.value.1 || attempt == remote.maxAttempts {
        CallsAre(network, remote.maxAttempts, calls);
        return Final(request, reply), calls;
      }
      if network[attempt - 1].cancelled {
        CallsAre(network, remote.maxAttempts, calls);
        return Err(Cancelled), calls;
      }
    }
    assert false;
  }

  lemma {:induction false} CallsAre(network: seq<Fate>, maxAttempts: int, n: nat)
    requires 1 <= n <= maxAttempts <= |network|
    requires forall i :: 0 <= i < n - 1 ==> Retryable(network[i].reply) && !network[i].cancelled
    requires n == maxAttempts || !Retryable(network[n - 1].reply) || network[n - 1].cancelled
    ensures Calls(network, maxAttempts) == n
    decreases n
  {
    hide Retryable;
    if n > 1 {
      CallsAre(network[1..], maxAttempts - 1, n - 1);
    }
  }

  // The traffic of one call reaches the receiver, one request after the other.
  method Transmit(receiver: Receiver, id: Identity, traffic: seq<Option<Identity>>,
                  ghost before: Claims, ghost arrived: seq<Identity>)
    requires receiver.claims == ReceivedAll(before, arrived)
    modifies receiver
    ensures receiver.claims == ReceivedAll(before, arrived + Delivered(id, traffic))
  {
    hide Received, Decide, ValidIdentity;
    assert arrived + Delivered(id, traffic[..0]) == arrived;
    for n := 0 to |traffic|
      invariant receiver.claims == ReceivedAll(before, arrived + Delivered(id, traffic[..n]))
    {
      var incoming := if traffic[n].None? then id else traffic[n].value;
      var _ := receiver.Receive(incoming);
      var all := arrived + Delivered(id, traffic[..n + 1]);
      assert all[..|all| - 1] == arrived + Delivered(id, traffic[..n]) && all[|all| - 1] == incoming;
    }
    assert traffic[..|traffic|] == traffic;
  }

  // ---------- end to end ----------

  // Among whatever else arrives before, between and after, all the copies that a dispatch
  // leaves behind amount to at most one claim: the first of them claims the free scope, and
  // every other one is an exact replay or, if other content holds the scope, a conflict.
  lemma DispatchClaimsOnce(claims: Claims, arrivals: seq<Identity>, id: Identity)
    requires Consistent(claims) && ValidIdentity(id)
    ensures var scope := ScopeOf(id);
            var store := ReceivedAll(claims, arrivals);
            ClaimsGiven(claims, arrivals, scope) <= 1 &&
            (id in arrivals ==>
               scope in store &&
               Decide(store, id) == if store[scope].body == id.body then Ok(Exact) else Err(IdempotencyConflict))
  {
    hide ValidIdentity, ReceivedAll, ClaimsGiven, Decide;
    ClaimsAreSafe(claims, arrivals, ScopeOf(id));
    DecisionExactly(claims, arrivals, id);
    if id in arrivals {
      var i :| 0 <= i < |arrivals| && arrivals[i] == id;
    }
  }

  // A receiver that answers as documented: a response answers a copy of the call; it reports
  // success only if that copy was accepted, and 409 only if it conflicted.
  ghost predicate Honest(claims: Claims, id: Identity, arrived: seq<Identity>, fate: Fate) {
    fate.reply.Response? ==>
      var k := fate.reply.arrival;
      k < |fate.traffic| && fate.traffic[k].None? &&
      var decision := Decide(ReceivedAll(claims, arrived + Delivered(id, fate.traffic[..k])), id);
      (200 <= fate.reply.status < 300 ==> decision.Ok?) &&
      (fate.reply.status == 409 ==> decision == Err(IdempotencyConflict))
  }

  // What a dispatch may conclude from its result, whatever else has arrived meanwhile and
  // arrives later: after a receipt the scope is claimed, for ever, with the body that was sent,
  // and after a 409 with another one.
  lemma ResultIsKept(claims: Claims, request: Request, id: Identity, network: seq<Fate>, maxAttempts: int,
                     later: seq<Identity>)
    requires Consistent(claims) && ValidIdentity(id) && 1 <= maxAttempts <= |network|
    requires forall i :: 0 <= i < |network| ==> Honest(claims, id, Arrivals(id, network, i), network[i])
    ensures var store := ReceivedAll(claims, Arrivals(id, network, Calls(network, maxAttempts)) + later);
            var scope := ScopeOf(id);
            var outcome := Outcome(request, network, maxAttempts);
            (outcome.Ok? ==> scope in store && store[scope].body == id.body) &&
            (outcome == Err(HttpStatus(409)) ==> scope in store && store[scope].body != id.body)
  {
    hide ValidIdentity, ReceivedAll, Decide, Calls, Arrivals, Delivered;
    var n := Calls(network, maxAttempts);
    var fate := network[n - 1];
    var outcome := Outcome(request, network, maxAttempts);
    if outcome.Ok? || outcome == Err(HttpStatus(409)) {
      assert Honest(claims, id, Arrivals(id, network, n - 1), fate);
      var before := Arrivals(id, network, n - 1) + Delivered(id, fate.traffic[..fate.reply.arrival]);
      var rest := ArrivalsAround(id, network, n, fate.reply.arrival);
      assert Arrivals(id, network, n) + later == before + ([id] + rest + later);
      ReceivedInTwo(claims, before, [id] + rest + later);
      AnsweredIsKept(claims, before, id, rest + later);
      assert [id] + rest + later == [id] + (rest + later);
    }
  }

  // The arrivals of the first n calls, split at a copy during the last of them.
  lemma ArrivalsAround(id: Identity, network: seq<Fate>, n: nat, k: nat) returns (rest: seq<Identity>)
    requires 1 <= n <= |network| && k < |network[n - 1].traffic| && network[n - 1].traffic[k].None?
    ensures Arrivals(id, network, n) ==
            Arrivals(id, network, n - 1) + Delivered(id, network[n - 1].traffic[..k]) + [id] + rest
  {
    var traffic := network[n - 1].traffic;
    rest := Delivered(id, traffic[k + 1..]);
    assert Delivered(id, traffic) == Delivered(id, traffic[..k]) + [id] + rest;
  }

  // An arrival that was accepted, or conflicted, settles its scope for all that follows.
  lemma AnsweredIsKept(claims: Claims, before: seq<Identity>, id: Identity, after: seq<Identity>)
    requires Consistent(claims) && ValidIdentity(id)
    ensures var decision := Decide(ReceivedAll(claims, before), id);
            var store := ReceivedAll(ReceivedAll(claims, before), [id] + after);
            var scope := ScopeOf(id);
            scope in store &&
            (decision.Ok? ==> store[scope].body == id.body) &&
            (decision == Err(IdempotencyConflict) ==> store[scope].body != id.body)
  {
    hide ValidIdentity, ReceivedAll;
    var store := ReceivedAll(claims, before);
    ClaimsAreSafe(claims, before, ScopeOf(id));
    DecisionExactly(claims, before, id);
    ReceivedInTwo(store, [id], after);
    ReceivedOne(store, id);
    ReceiveStep(store, id);
    ClaimsAreSafe(Received(store, id), after, ScopeOf(id));
  }

  lemma ReceivedOne(claims: Claims, id: Identity)
    ensures ReceivedAll(claims, [id]) == Received(claims, id)
  {
    assert [id][..0] == [];
  }
}
