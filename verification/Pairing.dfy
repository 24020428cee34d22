/** `ControlPlanePairingRegistry` of crates/app/src/control_plane.rs: devices
    request pairing, an operator approves or rejects, and approved devices
    connect with the token they were issued. The token hash is a parameter;
    persistence is an outcome the caller supplies with each operation. */
module Pairing {
  import opened Text
  import opened Results

  datatype Status = Pending | Approved | Rejected

  /** What makes two pairing requests the same request. */
  datatype Key = Key(deviceId: string, publicKey: string, role: string, scopes: set<string>)

  datatype Request = Request(
    id: string, key: Key, clientId: string, status: Status, requestedAt: nat,
    resolvedAt: Option<nat>, tokenId: Option<string>, deviceToken: Option<string>)

  datatype Device = Device(key: Key, tokenId: string, tokenHash: string, approvedAt: nat)

  datatype State = State(nonce: nat, requests: map<string, Request>, approved: map<string, Device>)

  datatype Op =
    | Connect(deviceId: string, clientId: string, publicKey: string, role: string, scopes: set<string>,
              token: Option<string>, random: nat)
    | Resolve(requestId: string, approve: bool, random1: nat, random2: nat)

  datatype Reply =
    | Authorized
    | DeviceTokenRequired
    | DeviceTokenInvalid
    | PairingRequired(request: Request, created: bool)
    | Resolved(resolution: Option<Request>)
    | MissingField(name: string)
    | PersistFailed

  const REQUEST_PREFIX: string := "pair-"
  const TOKEN_ID_PREFIX: string := "cpdt-"
  const TOKEN_PREFIX: string := "cpd-"

  // ---------------------------------------------------------------- operations

  function TrimmedScopes(scopes: set<string>): set<string> {
    set s | s in scopes && Trim(s) != "" :: Trim(s)
  }

  function PresentedToken(token: Option<string>): Option<string> {
    match token
    case None => None
    case Some(t) => if Trim(t) == "" then None else Some(Trim(t))
  }

  function KeyOf(op: Op): Key
    requires op.Connect?
  {
    Key(Trim(op.deviceId), Trim(op.publicKey), Trim(op.role), TrimmedScopes(op.scopes))
  }

  predicate PendingFor(requests: map<string, Request>, id: string, key: Key) {
    id in requests && requests[id].status == Pending && requests[id].key == key
  }

  ghost predicate HasPending(requests: map<string, Request>, key: Key) {
    exists id :: id in requests && PendingFor(requests, id, key)
  }

  ghost function SomePending(requests: map<string, Request>, key: Key): (id: string)
    requires HasPending(requests, key)
    ensures PendingFor(requests, id, key)
  {
    var id :| id in requests && PendingFor(requests, id, key);
    id
  }

  /** The approved device may skip pairing: same key and role, no new scope. */
  predicate Covers(device: Device, key: Key) {
    device.key.publicKey == key.publicKey && device.key.role == key.role && key.scopes <= device.key.scopes
  }

  function MissingConnectField(op: Op): Option<string>
    requires op.Connect?
  {
    if Trim(op.deviceId) == "" then Some("device_id")
    else if Trim(op.clientId) == "" then Some("client_id")
    else if Trim(op.publicKey) == "" then Some("public_key")
    else if Trim(op.role) == "" then Some("role")
    else None
  }

  function NewRequest(s: State, op: Op, now: nat): Request
    requires op.Connect?
  {
    Request(IssuedId(REQUEST_PREFIX, s.nonce + 1, op.random), KeyOf(op), Trim(op.clientId), Pending, now, None, None, None)
  }

  /** `evaluate_connect` */
  ghost function ConnectStep(hash: string -> string, s: State, op: Op, now: nat, persists: bool): (State, Reply)
    requires op.Connect?
  {
    var key := KeyOf(op);
    if MissingConnectField(op).Some? then (s, MissingField(MissingConnectField(op).value))
    else if key.deviceId in s.approved && Covers(s.approved[key.deviceId], key) then
      match PresentedToken(op.token)
      case None => (s, DeviceTokenRequired)
      case Some(t) => (s, if hash(t) == s.approved[key.deviceId].tokenHash then Authorized else DeviceTokenInvalid)
    else if HasPending(s.requests, key) then
      (s, PairingRequired(s.requests[SomePending(s.requests, key)], false))
    else
      var request := NewRequest(s, op, now);
      if !persists then (s.(nonce := s.nonce + 1), PersistFailed)
      else (s.(nonce := s.nonce + 1, requests := s.requests[request.id := request]), PairingRequired(request, true))
  }

  function ApprovedRequest(r: Request, tokenId: string, token: string, now: nat): Request {
    r.(status := Approved, resolvedAt := Some(now), tokenId := Some(tokenId), deviceToken := Some(token))
  }

  lemma ApprovedKeepsKey(r: Request, tokenId: string, token: string, now: nat)
    ensures ApprovedRequest(r, tokenId, token, now).key == r.key
  {
  }

  function RejectedRequest(r: Request, now: nat): Request {
    r.(status := Rejected, resolvedAt := Some(now), tokenId := None, deviceToken := None)
  }

  /** `resolve_request` */
  function ResolveStep(hash: string -> string, s: State, op: Op, now: nat, persists: bool): (State, Reply)
    requires op.Resolve?
  {
    var id := Trim(op.requestId);
    if id == "" then (s, MissingField("pairing_request_id"))
    else if id !in s.requests then (s, Resolved(None))
    else if s.requests[id].status != Pending then (s, Resolved(Some(s.requests[id])))
    else if op.approve then
      var tokenId := IssuedId(TOKEN_ID_PREFIX, s.nonce + 1, op.random1);
      var token := IssuedId(TOKEN_PREFIX, s.nonce + 2, op.random2);
      if !persists then (s.(nonce := s.nonce + 2), PersistFailed)
      else
        var r := ApprovedRequest(s.requests[id], tokenId, token, now);
        (State(s.nonce + 2, s.requests[id := r],
               s.approved[r.key.deviceId := Device(r.key, tokenId, hash(token), now)]),
         Resolved(Some(r)))
    else if !persists then (s, PersistFailed)
    else
      var r := RejectedRequest(s.requests[id], now);
      (s.(requests := s.requests[id := r]), Resolved(Some(r)))
  }

  datatype Attempt = Attempt(op: Op, at: nat, persists: bool)

  ghost function Step(hash: string -> string, s: State, t: Attempt): (State, Reply) {
    if t.op.Connect? then ConnectStep(hash, s, t.op, t.at, t.persists)
    else ResolveStep(hash, s, t.op, t.at, t.persists)
  }

  ghost function After(hash: string -> string, s: State, run: seq<Attempt>): State
    decreases |run|
  {
    if run == [] then s else After(hash, Step(hash, s, run[0]).0, run[1..])
  }

  const EMPTY: State := State(0, map[], map[])

  // ----------------------------------------------------------------- invariant

  ghost predicate IssuedBy(id: string, nonce: nat) {
    exists n: nat, r: nat :: n <= nonce && id == IssuedId(REQUEST_PREFIX, n, r)
  }

  /** Requests are stored under their own freshly issued ids, and no two
      pending requests ask for the same thing. */
  ghost predicate StateOk(s: State) {
    && (forall id :: id in s.requests ==> s.requests[id].id == id && IssuedBy(id, s.nonce))
    && (forall a, b, key :: PendingFor(s.requests, a, key) && PendingFor(s.requests, b, key) ==> a == b)
  }

  lemma FreshRequestId(nonce: nat, random: nat)
    ensures IssuedBy(IssuedId(REQUEST_PREFIX, nonce + 1, random), nonce + 1)
    ensures !IssuedBy(IssuedId(REQUEST_PREFIX, nonce + 1, random), nonce)
  {
    var id := IssuedId(REQUEST_PREFIX, nonce + 1, random);
    if IssuedBy(id, nonce) {
      var n: nat, r: nat :| n <= nonce && id == IssuedId(REQUEST_PREFIX, n, r);
      IssuedIdFresh(REQUEST_PREFIX, nonce + 1, random, n, r);
    }
  }

  lemma IssuedGrows(id: string, nonce: nat, more: nat)
    requires IssuedBy(id, nonce) && nonce <= more
    ensures IssuedBy(id, more)
  {
    var n: nat, r: nat :| n <= nonce && id == IssuedId(REQUEST_PREFIX, n, r);
  }

  /** A request that has left the pending state never changes again. */
  ghost predicate Settled(before: State, after: State) {
    forall id :: id in before.requests ==>
      && id in after.requests
      && (before.requests[id].status != Pending ==> after.requests[id] == before.requests[id])
      && after.requests[id].key == before.requests[id].key
  }

  lemma ConnectKeeps(hash: string -> string, s: State, op: Op, now: nat, persists: bool)
    requires StateOk(s) && op.Connect?
    ensures var t := ConnectStep(hash, s, op, now, persists).0;
      StateOk(t) && Settled(s, t) && t.approved == s.approved
  {
    hide StateOk, Settled, Trim, TrimmedScopes, NewRequest, Covers, PresentedToken, MissingConnectField, HasPending;
    var t := ConnectStep(hash, s, op, now, persists).0;
    NonceGrows(s, t.nonce);
    if t.requests != s.requests {
      AddedKeeps(s, op, now);
    }
  }

  lemma NonceGrows(s: State, nonce: nat)
    requires StateOk(s) && nonce >= s.nonce
    ensures StateOk(s.(nonce := nonce)) && Settled(s, s.(nonce := nonce)) && Settled(s, s)
  {
    hide IssuedBy;
    forall id | id in s.requests ensures IssuedBy(id, nonce) {
      IssuedGrows(id, s.nonce, nonce);
    }
  }

  lemma AddedKeeps(s: State, op: Op, now: nat)
    requires StateOk(s) && op.Connect? && !HasPending(s.requests, KeyOf(op))
    ensures var r := NewRequest(s, op, now);
      var t := s.(nonce := s.nonce + 1, requests := s.requests[r.id := r]);
      StateOk(t) && Settled(s, t)
  {
    hide IssuedBy, IssuedId, Trim, TrimmedScopes;
    var request := NewRequest(s, op, now);
    var t := s.(nonce := s.nonce + 1, requests := s.requests[request.id := request]);
    FreshRequestId(s.nonce, op.random);
    NonceGrows(s, s.nonce + 1);
    assert request.id !in s.requests;
    forall a, b, key | PendingFor(t.requests, a, key) && PendingFor(t.requests, b, key) ensures a == b {
      assert a != request.id ==> PendingFor(s.requests, a, key);
      assert b != request.id ==> PendingFor(s.requests, b, key);
    }
  }

  lemma ResolveKeeps(hash: string -> string, s: State, op: Op, now: nat, persists: bool)
    requires StateOk(s) && op.Resolve?
    ensures var t := ResolveStep(hash, s, op, now, persists).0;
      StateOk(t) && Settled(s, t)
  {
    hide IssuedBy, IssuedId, Trim;
    var t := ResolveStep(hash, s, op, now, persists).0;
    forall id | id in s.requests ensures IssuedBy(id, t.nonce) {
      IssuedGrows(id, s.nonce, t.nonce);
    }
    forall a, key | PendingFor(t.requests, a, key) ensures PendingFor(s.requests, a, key) {
    }
  }

  lemma StepKeeps(hash: string -> string, s: State, t: Attempt)
    requires StateOk(s)
    ensures StateOk(Step(hash, s, t).0) && Settled(s, Step(hash, s, t).0)
  {
    hide StateOk, Settled, ConnectStep, ResolveStep;
    if t.op.Connect? {
      ConnectKeeps(hash, s, t.op, t.at, t.persists);
    } else {
      ResolveKeeps(hash, s, t.op, t.at, t.persists);
    }
  }

  /** On every run: no two pending requests share device, key, role and
      scopes, and a status leaves `Pending` at most once. */
  lemma {:induction false} RunKeeps(hash: string -> string, s: State, run: seq<Attempt>)
    requires StateOk(s)
    ensures StateOk(After(hash, s, run)) && Settled(s, After(hash, s, run))
    decreases |run|
  {
    if run == [] {
    } else {
      StepKeeps(hash, s, run[0]);
      hide Step;
      var t := Step(hash, s, run[0]).0;
      RunKeeps(hash, t, run[1..]);
    }
  }

  /** A failed persist changes neither map; ids it used up are not reused. */
  lemma FailedPersist(hash: string -> string, s: State, t: Attempt)
    requires Step(hash, s, t).1 == PersistFailed
    ensures var after := Step(hash, s, t).0;
      after.requests == s.requests && after.approved == s.approved && after.nonce >= s.nonce && !t.persists
  {
    hide Trim, IssuedId, TrimmedScopes;
  }

  // ------------------------------------------------------------- authorisation

  datatype Approval = Approval(key: Key, token: string)

  /** The operation decides on a request that is pending, and the decision is
      stored. */
  predicate Decides(s: State, t: Attempt) {
    && t.op.Resolve? && t.persists && Trim(t.op.requestId) != "" && Trim(t.op.requestId) in s.requests
    && s.requests[Trim(t.op.requestId)].status == Pending
  }

  /** What the operator decided: to approve the request in hand, with the next
      token of the registry, or nothing. */
  function Granted(s: State, t: Attempt): Option<Approval> {
    if Decides(s, t) && t.op.approve
    then Some(Approval(s.requests[Trim(t.op.requestId)].key, IssuedId(TOKEN_PREFIX, s.nonce + 2, t.op.random2)))
    else None
  }

  /** A decision is carried out as it was made: an approved request is answered
      with the token, and the device is stored under the hash of that token; a
      rejected one gets no token and leaves the devices alone. The rest of the
      request stays. */
  lemma DecisionMeaning(hash: string -> string, s: State, t: Attempt)
    requires Decides(s, t)
    ensures var (next, reply) := Step(hash, s, t);
      var id := Trim(t.op.requestId);
      var was := s.requests[id];
      && reply.Resolved? && reply.resolution.Some?
      && var r := reply.resolution.value;
      && next.requests == s.requests[id := r] && next.nonce == s.nonce + (if t.op.approve then 2 else 0)
      && (t.op.approve ==>
            && r.tokenId == Some(IssuedId("cpdt-", s.nonce + 1, t.op.random1))
            && r.deviceToken == Some(IssuedId("cpd-", s.nonce + 2, t.op.random2))
            && r == Request(was.id, was.key, was.clientId, Approved, was.requestedAt, Some(t.at), r.tokenId, r.deviceToken)
            && next.approved == s.approved[was.key.deviceId :=
                                           Device(was.key, r.tokenId.value, hash(r.deviceToken.value), t.at)]
            && Granted(s, t) == Some(Approval(was.key, r.deviceToken.value)))
      && (!t.op.approve ==>
            && r == Request(was.id, was.key, was.clientId, Rejected, was.requestedAt, Some(t.at), None, None)
            && next.approved == s.approved)
  {
    hide Trim, IssuedId;
  }

  /** What decides nothing changes nothing: no request of that name, one that is
      settled, and a decision that could not be stored. */
  lemma NoDecision(hash: string -> string, s: State, t: Attempt)
    requires t.op.Resolve? && !Decides(s, t)
    ensures var (next, reply) := Step(hash, s, t);
      var id := Trim(t.op.requestId);
      && next.requests == s.requests && next.approved == s.approved
      && next.nonce == s.nonce + (if reply == PersistFailed && t.op.approve then 2 else 0)
      && reply == if id == "" then MissingField("pairing_request_id")
                  else if id !in s.requests then Resolved(None)
                  else if s.requests[id].status == Pending then PersistFailed
                  else Resolved(Some(s.requests[id]))
  {
    hide Trim, IssuedId;
  }

  // ---------------------------------------------------------------- connections

  /** The device is approved with this key and role, for every scope asked for. */
  ghost predicate Approves(s: State, op: Op)
    requires op.Connect?
  {
    && Trim(op.deviceId) in s.approved
    && var key := s.approved[Trim(op.deviceId)].key;
    && key.publicKey == Trim(op.publicKey) && key.role == Trim(op.role)
    && forall x :: x in op.scopes ==> Trim(x) == "" || Trim(x) in key.scopes
  }

  /** The request asks for what the connection asks for. */
  ghost predicate Asks(r: Request, op: Op)
    requires op.Connect?
  {
    && r.key.deviceId == Trim(op.deviceId) && r.key.publicKey == Trim(op.publicKey) && r.key.role == Trim(op.role)
    && forall x :: x in r.key.scopes <==> x != "" && exists y :: y in op.scopes && Trim(y) == x
  }

  ghost predicate NamesAll(op: Op)
    requires op.Connect?
  {
    Trim(op.deviceId) != "" && Trim(op.clientId) != "" && Trim(op.publicKey) != "" && Trim(op.role) != ""
  }

  lemma TrimmedScopesMeaning(scopes: set<string>, other: set<string>)
    ensures forall x :: x in TrimmedScopes(scopes) <==> x != "" && exists y :: y in scopes && Trim(y) == x
    ensures TrimmedScopes(scopes) <= other <==> forall x :: x in scopes ==> Trim(x) == "" || Trim(x) in other
  {
    hide Trim;
    forall x | x in scopes ensures Trim(x) == "" || Trim(x) in TrimmedScopes(scopes) {
    }
  }

  /** The answer to a connection of a device that is approved for it. */
  lemma ApprovedConnect(hash: string -> string, s: State, t: Attempt)
    requires t.op.Connect? && NamesAll(t.op) && Approves(s, t.op)
    ensures var hashed := s.approved[Trim(t.op.deviceId)].tokenHash;
      Step(hash, s, t) ==
      (s, if t.op.token.None? || Trim(t.op.token.value) == "" then DeviceTokenRequired
          else if hash(Trim(t.op.token.value)) == hashed then Authorized else DeviceTokenInvalid)
  {
    hide Trim, TrimmedScopes, IssuedId;
    var d := Trim(t.op.deviceId);
    TrimmedScopesMeaning(t.op.scopes, s.approved[d].key.scopes);
  }

  /** A connection that names too little is told the first field it lacks. */
  lemma IncompleteConnect(hash: string -> string, s: State, t: Attempt)
    requires t.op.Connect? && !NamesAll(t.op)
    ensures Step(hash, s, t) ==
      (s, MissingField(if Trim(t.op.deviceId) == "" then "device_id" else if Trim(t.op.clientId) == "" then "client_id"
                       else if Trim(t.op.publicKey) == "" then "public_key" else "role"))
  {
    hide Trim, TrimmedScopes, IssuedId;
  }

  /** Every other connection is answered with the one pending request that asks
      for the same: the one it finds, or a new one of its own. */
  lemma PairingConnect(hash: string -> string, s: State, t: Attempt)
    requires t.op.Connect? && NamesAll(t.op) && !Approves(s, t.op) && StateOk(s)
    ensures var (next, reply) := Step(hash, s, t);
      var found := exists id :: id in s.requests && s.requests[id].status == Pending && Asks(s.requests[id], t.op);
      && next.approved == s.approved && next.nonce == s.nonce + (if found then 0 else 1)
      && (found || !t.persists ==> next.requests == s.requests)
      && (!found && !t.persists ==> reply == PersistFailed)
      && (found || t.persists ==>
            && reply.PairingRequired? && reply.created == !found
            && var r := reply.request;
            && r.id in next.requests && next.requests[r.id] == r && r.status == Pending && Asks(r, t.op)
            && (!found ==>
                  && r.id == IssuedId("pair-", s.nonce + 1, t.op.random) && r.id !in s.requests
                  && next.requests == s.requests[r.id := r]
                  && r == Request(r.id, r.key, Trim(t.op.clientId), Pending, t.at, None, None, None)))
  {
    hide Trim, TrimmedScopes, IssuedId, IssuedBy;
    var d := Trim(t.op.deviceId);
    if d in s.approved {
      TrimmedScopesMeaning(t.op.scopes, s.approved[d].key.scopes);
    }
    forall id | id in s.requests ensures Asks(s.requests[id], t.op) <==> s.requests[id].key == KeyOf(t.op) {
      AsksMeaning(s.requests[id], t.op);
    }
    AsksMeaning(NewRequest(s, t.op, t.at), t.op);
    FreshRequestId(s.nonce, t.op.random);
    var found := exists id :: id in s.requests && s.requests[id].status == Pending && Asks(s.requests[id], t.op);
    if HasPending(s.requests, KeyOf(t.op)) {
      var id := SomePending(s.requests, KeyOf(t.op));
      assert found;
    }
  }

  lemma AsksMeaning(r: Request, op: Op)
    requires op.Connect?
    ensures Asks(r, op) <==> r.key == KeyOf(op)
  {
    hide Trim, TrimmedScopes;
    TrimmedScopesMeaning(op.scopes, {});
    if Asks(r, op) {
      assert r.key.scopes == TrimmedScopes(op.scopes);
    }
  }

  ghost function Approvals(hash: string -> string, s: State, run: seq<Attempt>): seq<Approval>
    decreases |run|
  {
    if run == [] then []
    else
      (match Granted(s, run[0]) case None => [] case Some(a) => [a])
      + Approvals(hash, Step(hash, s, run[0]).0, run[1..])
  }

  function Latest(history: seq<Approval>, deviceId: string): Option<Approval> {
    if history == [] then None
    else if history[|history| - 1].key.deviceId == deviceId then Some(history[|history| - 1])
    else Latest(history[..|history| - 1], deviceId)
  }

  /** The device table is the latest approval of each device. */
  ghost predicate Reflects(hash: string -> string, approved: map<string, Device>, history: seq<Approval>) {
    forall d :: match Latest(history, d)
      case None => d !in approved
      case Some(a) => d in approved && approved[d].key == a.key && approved[d].tokenHash == hash(a.token)
  }

  lemma StepReflects(hash: string -> string, s: State, t: Attempt, history: seq<Approval>)
    requires StateOk(s) && Reflects(hash, s.approved, history)
    ensures Reflects(hash, Step(hash, s, t).0.approved,
      history + (match Granted(s, t) case None => [] case Some(a) => [a]))
  {
    hide Trim, IssuedId, IssuedBy, TrimmedScopes;
    if t.op.Connect? {
      ConnectKeeps(hash, s, t.op, t.at, t.persists);
      assert Granted(s, t) == None;
      assert history + [] == history;
    } else {
      ResolveReflects(hash, s, t, history);
    }
  }

  lemma ResolveReflects(hash: string -> string, s: State, t: Attempt, history: seq<Approval>)
    requires StateOk(s) && Reflects(hash, s.approved, history) && t.op.Resolve?
    ensures Reflects(hash, Step(hash, s, t).0.approved,
      history + (match Granted(s, t) case None => [] case Some(a) => [a]))
  {
    hide Trim, IssuedId, IssuedBy;
    var next := Step(hash, s, t).0;
    match Granted(s, t) {
      case None =>
        assert next.approved == s.approved;
        assert history + [] == history;
      case Some(a) =>
        var longer := history + [a];
        assert longer[..|longer| - 1] == history;
        assert next.approved.Keys == s.approved.Keys + {a.key.deviceId};
        forall d ensures Latest(longer, d) == if d == a.key.deviceId then Some(a) else Latest(history, d) {
        }
    }
  }

  lemma {:induction false} RunReflects(hash: string -> string, s: State, run: seq<Attempt>, history: seq<Approval>)
    requires StateOk(s) && Reflects(hash, s.approved, history)
    ensures Reflects(hash, After(hash, s, run).approved, history + Approvals(hash, s, run))
    decreases |run|
  {
    hide Reflects, StateOk, Granted;
    if run == [] {
      assert history + Approvals(hash, s, run) == history;
    } else {
      var more := match Granted(s, run[0]) case None => [] case Some(a) => [a];
      StepReflects(hash, s, run[0], history);
      StepKeeps(hash, s, run[0]);
      hide Step;
      var t := Step(hash, s, run[0]).0;
      RunReflects(hash, t, run[1..], history + more);
      assert history + more + Approvals(hash, t, run[1..]) == history + (more + Approvals(hash, t, run[1..]));
    }
  }

  /** The connection names every required field, and the latest approval of
      its device has the same key and role, covers the requested scopes and
      issued a token with the hash of the presented one. */
  ghost predicate Entitled(hash: string -> string, history: seq<Approval>, op: Op)
    requires op.Connect?
  {
    && Trim(op.clientId) != "" && Trim(op.deviceId) != "" && Trim(op.publicKey) != "" && Trim(op.role) != ""
    && match Latest(history, Trim(op.deviceId))
       case None => false
       case Some(a) =>
         && a.key.publicKey == Trim(op.publicKey) && a.key.role == Trim(op.role)
         && (forall x :: x in op.scopes ==> Trim(x) == "" || Trim(x) in a.key.scopes)
         && op.token.Some? && Trim(op.token.value) != "" && hash(Trim(op.token.value)) == hash(a.token)
  }

  /** Over every run from an empty registry, a connection is authorized exactly
      when the latest approval of its device entitles it. */
  lemma AuthorizedExactlyWhen(hash: string -> string, run: seq<Attempt>, t: Attempt)
    requires t.op.Connect?
    ensures Step(hash, After(hash, EMPTY, run), t).1 == Authorized <==>
      Entitled(hash, Approvals(hash, EMPTY, run), t.op)
  {
    var history := Approvals(hash, EMPTY, run);
    RunReflects(hash, EMPTY, run, []);
    assert [] + history == history;
    AuthorizedInState(hash, After(hash, EMPTY, run), t, history);
  }

  lemma AuthorizedInState(hash: string -> string, s: State, t: Attempt, history: seq<Approval>)
    requires t.op.Connect? && Reflects(hash, s.approved, history)
    ensures Step(hash, s, t).1 == Authorized <==> Entitled(hash, history, t.op)
  {
    hide Trim, Latest, IssuedId, TrimmedScopes;
    var d := Trim(t.op.deviceId);
    if d in s.approved {
      TrimmedScopesMeaning(t.op.scopes, s.approved[d].key.scopes);
    }
    assert match Latest(history, d)
      case None => d !in s.approved
      case Some(a) => d in s.approved && s.approved[d].key == a.key && s.approved[d].tokenHash == hash(a.token);
  }

  // ------------------------------------------------------------- superseded tokens

  ghost predicate IssuedTokens(history: seq<Approval>, nonce: nat) {
    && (forall i :: 0 <= i < |history| ==> IssuedToken(history[i].token, nonce))
    && (forall i, j :: 0 <= i < j < |history| ==> history[i].token != history[j].token)
  }

  ghost predicate IssuedToken(token: string, nonce: nat) {
    exists n: nat, r: nat :: n <= nonce && token == IssuedId(TOKEN_PREFIX, n, r)
  }

  lemma FreshToken(nonce: nat, random: nat)
    ensures IssuedToken(IssuedId(TOKEN_PREFIX, nonce + 2, random), nonce + 2)
    ensures !IssuedToken(IssuedId(TOKEN_PREFIX, nonce + 2, random), nonce)
  {
    var token := IssuedId(TOKEN_PREFIX, nonce + 2, random);
    if IssuedToken(token, nonce) {
      var n: nat, r: nat :| n <= nonce && token == IssuedId(TOKEN_PREFIX, n, r);
      IssuedIdFresh(TOKEN_PREFIX, nonce + 2, random, n, r);
    }
  }

  lemma IssuedTokenGrows(token: string, nonce: nat, more: nat)
    requires IssuedToken(token, nonce) && nonce <= more
    ensures IssuedToken(token, more)
  {
    var n: nat, r: nat :| n <= nonce && token == IssuedId(TOKEN_PREFIX, n, r);
  }

  lemma StepTokens(hash: string -> string, s: State, t: Attempt, history: seq<Approval>)
    requires StateOk(s) && IssuedTokens(history, s.nonce)
    ensures IssuedTokens(history + (match Granted(s, t) case None => [] case Some(a) => [a]),
      Step(hash, s, t).0.nonce)
  {
    hide Trim, IssuedId, IssuedToken, TrimmedScopes, IssuedBy;
    var next := Step(hash, s, t).0;
    assert s.nonce <= next.nonce;
    forall i | 0 <= i < |history| ensures IssuedToken(history[i].token, next.nonce) {
      IssuedTokenGrows(history[i].token, s.nonce, next.nonce);
    }
    if t.op.Resolve? {
      FreshToken(s.nonce, t.op.random2);
    }
  }

  lemma {:induction false} RunTokens(hash: string -> string, s: State, run: seq<Attempt>, history: seq<Approval>)
    requires StateOk(s) && IssuedTokens(history, s.nonce)
    ensures IssuedTokens(history + Approvals(hash, s, run), After(hash, s, run).nonce)
    decreases |run|
  {
    hide IssuedTokens, Granted, StateOk, Settled;
    if run == [] {
      assert history + Approvals(hash, s, run) == history;
    } else {
      var more := match Granted(s, run[0]) case None => [] case Some(a) => [a];
      StepTokens(hash, s, run[0], history);
      StepKeeps(hash, s, run[0]);
      hide Step;
      var t := Step(hash, s, run[0]).0;
      RunTokens(hash, t, run[1..], history + more);
      assert history + more + Approvals(hash, t, run[1..]) == history + (more + Approvals(hash, t, run[1..]));
    }
  }

  /** Every approval issues a new token, so with a collision-free hash a token
      that a later approval of the same device has replaced never authorizes
      anything again. */
  lemma SupersededToken(hash: string -> string, run: seq<Attempt>, t: Attempt, i: nat, j: nat)
    requires forall x, y :: hash(x) == hash(y) ==> x == y
    requires i < j < |Approvals(hash, EMPTY, run)|
    requires Approvals(hash, EMPTY, run)[i].key.deviceId == Approvals(hash, EMPTY, run)[j].key.deviceId
    requires t.op.Connect? && t.op.token.Some? && Trim(t.op.token.value) == Approvals(hash, EMPTY, run)[i].token
    ensures Step(hash, After(hash, EMPTY, run), t).1 != Authorized
  {
    hide *;
    var history := Approvals(hash, EMPTY, run);
    AuthorizedExactlyWhen(hash, run, t);
    TokensFromEmpty(hash, run);
    SupersededIsNotEntitled(hash, history, After(hash, EMPTY, run).nonce, t.op, i, j);
  }

  lemma TokensFromEmpty(hash: string -> string, run: seq<Attempt>)
    ensures IssuedTokens(Approvals(hash, EMPTY, run), After(hash, EMPTY, run).nonce)
  {
    RunTokens(hash, EMPTY, run, []);
    hide *;
    assert [] + Approvals(hash, EMPTY, run) == Approvals(hash, EMPTY, run);
  }

  lemma SupersededIsNotEntitled(hash: string -> string, history: seq<Approval>, nonce: nat, op: Op, i: nat, j: nat)
    requires forall x, y :: hash(x) == hash(y) ==> x == y
    requires IssuedTokens(history, nonce) && i < j < |history| && history[i].key.deviceId == history[j].key.deviceId
    requires op.Connect? && op.token.Some? && Trim(op.token.value) == history[i].token
    ensures !Entitled(hash, history, op)
  {
    hide Trim, IssuedToken, TrimmedScopes, Latest;
    var n := LatestIsLast(history, Trim(op.deviceId));
    assert n != i;
    assert n >= 0 ==> history[n].token != history[i].token;
  }

  /** The position of a device's latest approval, or -1. */
  lemma {:induction false} LatestIsLast(history: seq<Approval>, deviceId: string) returns (n: int)
    ensures -1 <= n < |history|
    ensures Latest(history, deviceId) == if n < 0 then None else Some(history[n])
    ensures n >= 0 ==> history[n].key.deviceId == deviceId
    ensures forall j :: n < j < |history| ==> history[j].key.deviceId != deviceId
  {
    if history == [] {
      n := -1;
    } else if history[|history| - 1].key.deviceId == deviceId {
      n := |history| - 1;
    } else {
      n := LatestIsLast(history[..|history| - 1], deviceId);
    }
  }

  // ------------------------------------------------------------------ registry

  class PairingRegistry {
    const hash: string -> string
    var nonce: nat
    var requests: map<string, Request>
    var approved: map<string, Device>

    ghost function Value(): State reads this {
      State(nonce, requests, approved)
    }

    ghost predicate Valid() reads this {
      StateOk(Value())
    }

    constructor (hash: string -> string)
      ensures Valid() && Value() == EMPTY && this.hash == hash
    {
      this.hash := hash;
      nonce := 0;
      requests := map[];
      approved := map[];
    }

    method FindPending(key: Key) returns (found: Option<Request>)
      requires Valid()
      ensures found.None? ==> !HasPending(requests, key)
      ensures found.Some? ==> HasPending(requests, key) && found.value == requests[SomePending(requests, key)]
    {
      var todo := requests.Keys;
      while todo != {}
        invariant todo <= requests.Keys
        invariant forall id :: id in requests && id !in todo ==> !PendingFor(requests, id, key)
        decreases |todo|
      {
        var id :| id in todo;
        if PendingFor(requests, id, key) {
          assert PendingFor(Value().requests, SomePending(requests, key), key);
          return Some(requests[id]);
        }
        todo := todo - {id};
      }
      found := None;
    }

    method EvaluateConnect(deviceId: string, clientId: string, publicKey: string, role: string, scopes: set<string>,
                           token: Option<string>, random: nat, now: nat, persists: bool) returns (reply: Reply)
      requires Valid()
      modifies this`nonce, this`requests
      ensures Valid()
      ensures (Value(), reply) ==
        ConnectStep(hash, old(Value()), Connect(deviceId, clientId, publicKey, role, scopes, token, random), now, persists)
    {
      hide StateOk, Settled, Trim, IssuedId, TrimmedScopes, HasPending, PendingFor, IssuedBy;
      ghost var op := Connect(deviceId, clientId, publicKey, role, scopes, token, random);
      ConnectKeeps(hash, Value(), op, now, persists);
      var device, client, keyText, roleText := Trim(deviceId), Trim(clientId), Trim(publicKey), Trim(role);
      if device == "" {
        return MissingField("device_id");
      }
      if client == "" {
        return MissingField("client_id");
      }
      if keyText == "" {
        return MissingField("public_key");
      }
      if roleText == "" {
        return MissingField("role");
      }
      var key := Key(device, keyText, roleText, TrimmedScopes(scopes));
      var presented := PresentedToken(token);
      if device in approved && Covers(approved[device], key) {
        if presented.None? {
          return DeviceTokenRequired;
        }
        if hash(presented.value) == approved[device].tokenHash {
          return Authorized;
        }
        return DeviceTokenInvalid;
      }
      var existing := FindPending(key);
      if existing.Some? {
        return PairingRequired(existing.value, false);
      }
      nonce := nonce + 1;
      var request := Request(IssuedId(REQUEST_PREFIX, nonce, random), key, client, Pending, now, None, None, None);
      if !persists {
        return PersistFailed;
      }
      requests := requests[request.id := request];
      reply := PairingRequired(request, true);
    }

    method ResolveRequest(requestId: string, approve: bool, random1: nat, random2: nat, now: nat, persists: bool)
      returns (reply: Reply)
      requires Valid()
      modifies this
      ensures Valid()
      ensures (Value(), reply) == ResolveStep(hash, old(Value()), Resolve(requestId, approve, random1, random2), now, persists)
      ensures persists && Trim(requestId) != "" && Trim(requestId) in old(requests) &&
              old(requests)[Trim(requestId)].status == Pending ==>
        && reply.Resolved? && reply.resolution.Some?
        && var r := reply.resolution.value;
        && requests == old(requests)[Trim(requestId) := r]
        && r.status == (if approve then Approved else Rejected) && r.deviceToken.Some? == r.tokenId.Some? == approve
        && (approve ==> r.key.deviceId in approved && approved[r.key.deviceId].tokenHash == hash(r.deviceToken.value))
        && (!approve ==> approved == old(approved))
    {
      hide StateOk, Settled, Trim, IssuedId, ApprovedRequest, RejectedRequest, IssuedBy, PendingFor;
      ResolveKeeps(hash, Value(), Resolve(requestId, approve, random1, random2), now, persists);
      if Decides(Value(), Attempt(Resolve(requestId, approve, random1, random2), now, persists)) {
        DecisionMeaning(hash, Value(), Attempt(Resolve(requestId, approve, random1, random2), now, persists));
      }
      var id := Trim(requestId);
      if id == "" {
        return MissingField("pairing_request_id");
      }
      if id !in requests {
        return Resolved(None);
      }
      if requests[id].status != Pending {
        return Resolved(Some(requests[id]));
      }
      if approve {
        reply := ApprovePending(id, random1, random2, now, persists);
      } else {
        reply := RejectPending(id, now, persists);
      }
    }

    method ApprovePending(id: string, random1: nat, random2: nat, now: nat, persists: bool) returns (reply: Reply)
      requires id in requests
      modifies this
      ensures nonce == old(nonce) + 2
      ensures !persists ==> reply == PersistFailed && requests == old(requests) && approved == old(approved)
      ensures persists ==>
        var tokenId, token := IssuedId(TOKEN_ID_PREFIX, nonce - 1, random1), IssuedId(TOKEN_PREFIX, nonce, random2);
        var record := ApprovedRequest(old(requests)[id], tokenId, token, now);
        && requests == old(requests)[id := record]
        && approved == old(approved)[record.key.deviceId := Device(record.key, tokenId, hash(token), now)]
        && reply == Resolved(Some(record))
    {
      hide *;
      var record := requests[id];
      var tokenId := IssuedId(TOKEN_ID_PREFIX, nonce + 1, random1);
      var token := IssuedId(TOKEN_PREFIX, nonce + 2, random2);
      nonce := nonce + 2;
      if !persists {
        return PersistFailed;
      }
      var device := record.key.deviceId;
      approved := approved[device := Device(record.key, tokenId, hash(token), now)];
      var updated := ApprovedRequest(record, tokenId, token, now);
      ApprovedKeepsKey(record, tokenId, token, now);
      requests := requests[id := updated];
      reply := Resolved(Some(updated));
    }

    method RejectPending(id: string, now: nat, persists: bool) returns (reply: Reply)
      requires id in requests
      modifies this`requests
      ensures !persists ==> reply == PersistFailed && requests == old(requests)
      ensures persists ==>
        && requests == old(requests)[id := RejectedRequest(old(requests)[id], now)]
        && reply == Resolved(Some(requests[id]))
    {
      var record := RejectedRequest(requests[id], now);
      if !persists {
        return PersistFailed;
      }
      requests := requests[id := record];
      reply := Resolved(Some(record));
    }
  }
}
