// The receiver of callbacks: one claim per scoped key, decided by EvaluateCallbackReplay
// (dispatchgateway/signature.go). A body is taken as what its bytes encode, its SHA-256 as
// collision free.
module Replay {
  import opened Text
  import opened Digest

  datatype Request = Request(
    runtimeId: string, executionId: string, definitionKey: string, idempotencyKey: string,
    target: Target, dueAt: int)

  datatype SignedRequest = SignedRequest(httpMethod: string, path: string, runtimeId: string, idempotencyKey: string)

  // ---------- request validation ----------

  // The parts of a path between its slashes.
  function Segments(s: string): seq<string> {
    if s == [] then [""]
    else
      var rest := Segments(s[1..]);
      if s[0] == '/' then [""] + rest else [[s[0]] + rest[0]] + rest[1..]
  }

  // path.Clean leaves a rooted path as it is.
  predicate CleanPath(p: string) {
    p == "/" ||
    (p != "" && p[0] == '/' && forall i :: 0 <= i < |Segments(p[1..])| ==> Segments(p[1..])[i] !in {"", ".", ".."})
  }

  predicate UpperCase(s: string) {
    forall i :: 0 <= i < |s| ==> !('a' <= s[i] <= 'z')
  }

  predicate Tight(s: string) {
    !Blank(s) && TrimSpace(s) == s
  }

  // SignedRequest.Validate
  predicate ValidRequest(r: SignedRequest) {
    Tight(r.httpMethod) && UpperCase(r.httpMethod) &&
    Tight(r.path) && CleanPath(r.path) && '?' !in r.path && '#' !in r.path &&
    Tight(r.runtimeId) && Tight(r.idempotencyKey) && |r.idempotencyKey| <= 191
  }

  lemma {:induction false} Unsegmented(s: string)
    requires '/' !in s
    ensures Segments(s) == [s]
  {
    if s != [] {
      Unsegmented(s[1..]);
      assert [s[0]] + s[1..] == s;
    }
  }

  lemma {:induction false} Segmented(a: string, b: string)
    requires '/' !in a
    ensures Segments(a + "/" + b) == [a] + Segments(b)
  {
    var s := a + "/" + b;
    if a == [] {
      assert s[1..] == b;
    } else {
      assert s[1..] == a[1..] + "/" + b;
      Segmented(a[1..], b);
      assert [a[0]] + a[1..] == a;
    }
  }

  // Which paths are clean, segment by segment: rooted ones without an empty segment, even at
  // the end, and without a dot or two dots; and the root itself.
  lemma CleanPathExactly(a: string, b: string)
    requires '/' !in a
    ensures CleanPath("/" + a) <==> a !in {".", ".."}
    ensures CleanPath("/" + a + "/" + b) <==> a !in {"", ".", ".."} && b != "" && CleanPath("/" + b)
    ensures CleanPath(b) ==> b != "" && b[0] == '/'
  {
    hide Segments;
    var p := "/" + a + "/" + b;
    assert ("/" + a)[1..] == a && p[1..] == a + "/" + b && ("/" + b)[1..] == b;
    Unsegmented(a);
    Segmented(a, b);
    Unsegmented("");
    var all := Segments(a + "/" + b);
    assert all[0] == a && forall i :: 0 <= i < |Segments(b)| ==> all[i + 1] == Segments(b)[i];
    if b == "" {
      assert Segments(b) == [""] && all[1] == "";
    }
  }

  // No lower-case letter, by code point.
  lemma UpperCaseExactly(s: string)
    ensures UpperCase(s) <==> forall c :: c in s ==> c as int < 97 || 122 < c as int
  {
    assert forall i :: 0 <= i < |s| ==> s[i] in s;
  }

  // What validation decides, field by field, from any valid request.
  lemma RequestFields(r: SignedRequest, text: string)
    requires ValidRequest(r)
    ensures ValidRequest(r.(httpMethod := text)) <==>
              text != "" && TrimSpace(text) == text && forall c :: c in text ==> c as int < 97 || 122 < c as int
    ensures ValidRequest(r.(path := text)) <==>
              TrimSpace(text) == text && CleanPath(text) && '?' !in text && '#' !in text
    ensures ValidRequest(r.(runtimeId := text)) <==> text != "" && TrimSpace(text) == text
    ensures ValidRequest(r.(idempotencyKey := text)) <==> TrimSpace(text) == text && 1 <= |text| <= 191
  {
    UpperCaseExactly(text);
    CleanPathExactly("", text);
    hide TrimSpace, CleanPath, UpperCase;
  }

  // ---------- the receiver's decision ----------

  datatype Identity = Identity(
    httpMethod: string, path: string, runtimeId: string, idempotencyKey: string, body: Sha256<Request>)

  datatype Fault = RequestInvalid | IdempotencyConflict

  datatype Disposition = Claim | Exact

  // hex.DecodeString takes digits of either case.
  predicate ValidBodyHash(h: Sha256<Request>) {
    h.Sha256? || (|h.text| == 64 && forall i :: 0 <= i < 64 ==> IsHexDigit(h.text[i]) || 'A' <= h.text[i] <= 'F')
  }

  predicate ValidIdentity(i: Identity) {
    ValidRequest(SignedRequest(i.httpMethod, i.path, i.runtimeId, i.idempotencyKey)) && ValidBodyHash(i.body)
  }

  function NewCallbackRequestIdentity(body: Request, r: SignedRequest): Result<Identity, Fault> {
    if ValidRequest(r) then Ok(Identity(r.httpMethod, r.path, r.runtimeId, r.idempotencyKey, Sha256(body)))
    else Err(RequestInvalid)
  }

  function EvaluateCallbackReplay(current: Option<Identity>, incoming: Identity): Result<Disposition, Fault> {
    if !ValidIdentity(incoming) then Err(RequestInvalid)
    else if current.None? then Ok(Claim)
    else if !ValidIdentity(current.value) then Err(RequestInvalid)
    else if current.value.httpMethod != incoming.httpMethod || current.value.path != incoming.path ||
            current.value.runtimeId != incoming.runtimeId || current.value.idempotencyKey != incoming.idempotencyKey
    then Err(RequestInvalid)
    else if current.value.body != incoming.body then Err(IdempotencyConflict)
    else Ok(Exact)
  }

  // A hash given as text has 64 hexadecimal digits of either case.
  lemma BodyHashExactly(text: string)
    ensures ValidBodyHash(Hex(text)) <==>
              |text| == 64 && forall c :: c in text ==> c in "0123456789abcdefABCDEF"
  {
    forall c ensures IsHexDigit(c) || 'A' <= c <= 'F' <==> c in "0123456789abcdefABCDEF" {
      AnyHexDigitExactly(c);
    }
    hide IsHexDigit;
    assert forall i :: 0 <= i < |text| ==> text[i] in text;
  }

  lemma AnyHexDigitExactly(c: char)
    ensures IsHexDigit(c) || 'A' <= c <= 'F' <==> c in "0123456789abcdefABCDEF"
  {
    if IsHexDigit(c) || 'A' <= c <= 'F' {
      var k := if c <= '9' then c as int - '0' as int
               else if c <= 'F' then c as int - 'A' as int + 16 else c as int - 'a' as int + 10;
      assert "0123456789abcdefABCDEF"[k] == c;
    }
  }

  // An identity is made exactly of a valid request, is valid then, and determines the request
  // and its body.
  lemma IdentityExactly(body: Request, r: SignedRequest, body': Request, r': SignedRequest)
    ensures NewCallbackRequestIdentity(body, r).Ok? <==> ValidRequest(r)
    ensures ValidRequest(r) ==>
              var i := NewCallbackRequestIdentity(body, r).value;
              ValidIdentity(i) && (forall h :: ValidIdentity(i.(body := h)) <==> ValidBodyHash(h)) &&
              (NewCallbackRequestIdentity(body', r') == Ok(i) <==> body' == body && r' == r)
    ensures !ValidRequest(r) ==>
              NewCallbackRequestIdentity(body, r) == Err(RequestInvalid) &&
              forall h :: !ValidIdentity(Identity(r.httpMethod, r.path, r.runtimeId, r.idempotencyKey, h))
  {
    hide ValidRequest;
  }

  // ---------- the receiver's store ----------

  // Claims are kept by runtime, method, path and idempotency key.
  datatype Scope = Scope(runtimeId: string, httpMethod: string, path: string, idempotencyKey: string)

  type Claims = map<Scope, Identity>

  function ScopeOf(i: Identity): Scope {
    Scope(i.runtimeId, i.httpMethod, i.path, i.idempotencyKey)
  }

  function Lookup(claims: Claims, scope: Scope): Option<Identity> {
    if scope in claims then Some(claims[scope]) else None
  }

  function Decide(claims: Claims, incoming: Identity): Result<Disposition, Fault> {
    EvaluateCallbackReplay(Lookup(claims, ScopeOf(incoming)), incoming)
  }

  function Received(claims: Claims, incoming: Identity): Claims {
    if Decide(claims, incoming) == Ok(Claim) then claims[ScopeOf(incoming) := incoming] else claims
  }

  // The decision for every pair: nothing but a valid request is claimed, and a stored identity
  // is comparable when it is valid and has the same scope; then it is either the very one
  // received or in conflict with it.
  lemma EvaluateExactly(current: Option<Identity>, incoming: Identity)
    ensures EvaluateCallbackReplay(current, incoming) ==
              if !ValidIdentity(incoming) then Err(RequestInvalid)
              else if current == None then Ok(Claim)
              else if current == Some(incoming) then Ok(Exact)
              else if ValidIdentity(current.value) && ScopeOf(current.value) == ScopeOf(incoming)
              then Err(IdempotencyConflict) else Err(RequestInvalid)
    ensures current.Some? ==>
              (current.value.(body := incoming.body) == incoming <==> ScopeOf(current.value) == ScopeOf(incoming))
  {
    hide ValidIdentity;
  }

  // A whole run: requests in whatever order and number the network delivers them.
  function ReceivedAll(claims: Claims, arrivals: seq<Identity>): Claims {
    if arrivals == [] then claims
    else Received(ReceivedAll(claims, arrivals[..|arrivals| - 1]), arrivals[|arrivals| - 1])
  }

  lemma {:induction false} ReceivedInTwo(claims: Claims, first: seq<Identity>, second: seq<Identity>)
    ensures ReceivedAll(claims, first + second) == ReceivedAll(ReceivedAll(claims, first), second)
    decreases |second|
  {
    hide Received;
    if second == [] {
      assert first + second == first;
    } else {
      var all, front := first + second, second[..|second| - 1];
      assert all[..|all| - 1] == first + front && all[|all| - 1] == second[|second| - 1];
      ReceivedInTwo(claims, first, front);
    }
  }

  // How many of the arrivals were given a claim on a scope.
  function ClaimsGiven(claims: Claims, arrivals: seq<Identity>, scope: Scope): nat {
    if arrivals == [] then 0
    else
      var front, last := arrivals[..|arrivals| - 1], arrivals[|arrivals| - 1];
      ClaimsGiven(claims, front, scope) +
      if ScopeOf(last) == scope && Decide(ReceivedAll(claims, front), last) == Ok(Claim) then 1 else 0
  }

  ghost predicate Consistent(claims: Claims) {
    forall scope :: scope in claims ==> ValidIdentity(claims[scope]) && ScopeOf(claims[scope]) == scope
  }

  // In every run, from any consistent store: a claim, once given, keeps its identity and so
  // its body for ever; a scope is claimed at most once, and not at all if it already was; and
  // a scope is claimed as soon as a valid request for it has arrived.
  lemma {:induction false} ClaimsAreSafe(claims: Claims, arrivals: seq<Identity>, scope: Scope)
    requires Consistent(claims)
    ensures var after := ReceivedAll(claims, arrivals);
            Consistent(after) &&
            (scope in claims ==> scope in after && after[scope] == claims[scope]) &&
            ClaimsGiven(claims, arrivals, scope) ==
              (if scope in after then 1 else 0) - (if scope in claims then 1 else 0) &&
            (scope in after <==> scope in claims || Arrived(arrivals, scope))
    decreases |arrivals|
  {
    hide ValidIdentity;
    if arrivals != [] {
      var front, last := arrivals[..|arrivals| - 1], arrivals[|arrivals| - 1];
      ClaimsAreSafe(claims, front, scope);
      ClaimsAreSafe(claims, front, ScopeOf(last));
      ReceiveStep(ReceivedAll(claims, front), last);
      ArrivedStep(arrivals, scope);
    }
  }

  ghost predicate Arrived(arrivals: seq<Identity>, scope: Scope) {
    exists i :: 0 <= i < |arrivals| && ValidIdentity(arrivals[i]) && ScopeOf(arrivals[i]) == scope
  }

  lemma ArrivedStep(arrivals: seq<Identity>, scope: Scope)
    requires arrivals != []
    ensures var front, last := arrivals[..|arrivals| - 1], arrivals[|arrivals| - 1];
            Arrived(arrivals, scope) <==> Arrived(front, scope) || (ValidIdentity(last) && ScopeOf(last) == scope)
  {
    hide ValidIdentity;
    var front, last := arrivals[..|arrivals| - 1], |arrivals| - 1;
    assert forall i :: 0 <= i < last ==> front[i] == arrivals[i];
    if Arrived(front, scope) {
      var i :| 0 <= i < |front| && ValidIdentity(front[i]) && ScopeOf(front[i]) == scope;
      assert arrivals[i] == front[i];
    }
    if ValidIdentity(arrivals[last]) && ScopeOf(arrivals[last]) == scope {
      assert Arrived(arrivals, scope);
    }
  }

  // One arrival: a valid request on a free scope, and nothing else, adds a claim.
  lemma ReceiveStep(claims: Claims, incoming: Identity)
    requires Consistent(claims)
    ensures Consistent(Received(claims, incoming))
    ensures Decide(claims, incoming) == Ok(Claim) <==> ValidIdentity(incoming) && ScopeOf(incoming) !in claims
  {
    hide ValidIdentity;
  }

  // Whatever arrived before, a valid request is then a claim on a free scope, an exact replay
  // of the claimed body, or a conflict with it; never anything else.
  lemma DecisionExactly(claims: Claims, arrivals: seq<Identity>, incoming: Identity)
    requires Consistent(claims) && ValidIdentity(incoming)
    ensures var after := ReceivedAll(claims, arrivals);
            var scope := ScopeOf(incoming);
            Decide(after, incoming) ==
              if scope !in after then Ok(Claim)
              else if after[scope].body == incoming.body then Ok(Exact)
              else Err(IdempotencyConflict)
  {
    hide ValidIdentity, ReceivedAll;
    ClaimsAreSafe(claims, arrivals, ScopeOf(incoming));
  }

  // Repeating an arrival later in the run changes nothing and is answered as a replay of the
  // claim if its body is the claimed one.
  lemma RetryReplays(claims: Claims, arrivals: seq<Identity>, i: int)
    requires Consistent(claims) && 0 <= i < |arrivals| && ValidIdentity(arrivals[i])
    ensures var after := ReceivedAll(claims, arrivals);
            var scope := ScopeOf(arrivals[i]);
            scope in after && Received(after, arrivals[i]) == after &&
            (Decide(after, arrivals[i]) == Ok(Exact) <==> after[scope].body == arrivals[i].body)
  {
    hide ValidIdentity, ReceivedAll;
    ClaimsAreSafe(claims, arrivals, ScopeOf(arrivals[i]));
    DecisionExactly(claims, arrivals, arrivals[i]);
  }

  class Receiver {
    var claims: Claims

    constructor ()
      ensures claims == map[]
    {
      claims := map[];
    }

    // One arrival at the receiver. A claim is given exactly to a valid request on a free
    // scope, and only then is the store changed, in that scope alone; a claimed scope keeps
    // its identity, and a replay is exact only if the claimed body is the one received.
    method Receive(incoming: Identity) returns (r: Result<Disposition, Fault>)
      modifies this
      ensures var scope := ScopeOf(incoming);
              (r == Ok(Claim) <==> ValidIdentity(incoming) && scope !in old(claims)) &&
              claims.Keys == old(claims).Keys + (if r == Ok(Claim) then {scope} else {}) &&
              (r == Ok(Claim) ==> claims[scope] == incoming) &&
              (forall other :: other in old(claims) ==> claims[other] == old(claims)[other])
      ensures Consistent(old(claims)) ==>
                Consistent(claims) &&
                (r == Ok(Exact) <==> ValidIdentity(incoming) && ScopeOf(incoming) in old(claims) &&
                                     old(claims)[ScopeOf(incoming)].body == incoming.body)
      ensures r == Decide(old(claims), incoming) && claims == Received(old(claims), incoming)
    {
      hide ValidIdentity;
      var scope := ScopeOf(incoming);
      r := EvaluateCallbackReplay(if scope in claims then Some(claims[scope]) else None, incoming);
      if r == Ok(Claim) {
        claims := claims[scope := incoming];
      }
    }
  }
}
