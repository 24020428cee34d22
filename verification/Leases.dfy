/** `ControlPlaneConnectionRegistry` of crates/app/src/control_plane.rs:
    connection leases that expire, are purged lazily, acknowledge sequence
    numbers and can be snapshotted and restored. */
module Leases {
  import opened Text
  import opened Results
  import opened Clock

  datatype Principal = Principal(
    connectionId: string, clientId: string, role: string, scopes: set<string>, deviceId: Option<string>)

  datatype Record = Record(principal: Principal, issuedAt: nat, expiresAt: nat, acked: Option<nat>)

  datatype Lease = Lease(token: string, principal: Principal, issuedAt: nat, expiresAt: nat, acked: Option<nat>)

  type Connections = map<string, Record>

  datatype State = State(nonce: nat, connections: Connections)

  datatype Op =
    | Issue(principal: Principal, ttl: nat, random: nat)
    | Resolve(token: string)
    | Acknowledge(token: string, number: nat)
    | Revoke(token: string)
    | Snapshot
    | Restore(leases: seq<Lease>)

  datatype Reply =
    | Issued(lease: Lease)
    | Found(lookup: Option<Lease>)
    | Revoked(removed: bool)
    | Listed(leases: seq<Lease>)
    | Restored(count: nat)

  const TOKEN_PREFIX: string := "cpt-"

  function LeaseOf(token: string, record: Record): Lease {
    Lease(token, record.principal, record.issuedAt, record.expiresAt, record.acked)
  }

  function RecordOf(lease: Lease): Record {
    Record(lease.principal, lease.issuedAt, lease.expiresAt, lease.acked)
  }

  function Purged(m: Connections, now: nat): Connections {
    map t | t in m && m[t].expiresAt > now :: m[t]
  }

  function NewRecord(principal: Principal, ttl: nat, now: nat): Record {
    Record(principal, now, SaturatingAdd(now, if ttl < 1 then 1 else ttl), None)
  }

  function AckedWith(record: Record, number: nat): Record {
    record.(acked := Some(if record.acked.Some? && record.acked.value > number then record.acked.value else number))
  }

  /** Leases by token, in token order. */
  ghost function Listing(m: Connections): (ls: seq<Lease>) {
    var keys := SortedKeys(m.Keys);
    SortedKeysMeaning(m.Keys);
    seq(|keys|, i requires 0 <= i < |keys| => assert keys[i] in keys; LeaseOf(keys[i], m[keys[i]]))
  }

  /** The unexpired leases of a list, later entries winning. */
  function Loaded(leases: seq<Lease>, now: nat): Connections {
    if leases == [] then map[]
    else
      var last := leases[|leases| - 1];
      var before := Loaded(leases[..|leases| - 1], now);
      if last.expiresAt <= now then before else before[last.token := RecordOf(last)]
  }

  function LiveCount(leases: seq<Lease>, now: nat): nat {
    if leases == [] then 0
    else LiveCount(leases[..|leases| - 1], now) + (if leases[|leases| - 1].expiresAt <= now then 0 else 1)
  }

  // ------------------------------------------------------- the lazy registry

  /** What the code does: most operations first drop every expired lease, but
      `revoke`, issuing and lookups of a blank token do not. */
  ghost function Step(s: State, op: Op, now: nat): (State, Reply) {
    match op
    case Issue(principal, ttl, random) =>
      var token := IssuedId(TOKEN_PREFIX, s.nonce + 1, random);
      var record := NewRecord(principal, ttl, now);
      (State(s.nonce + 1, s.connections[token := record]), Issued(LeaseOf(token, record)))
    case Resolve(raw) =>
      var token := Trim(raw);
      if token == "" then (s, Found(None))
      else
        var live := Purged(s.connections, now);
        (s.(connections := live), Found(if token in live then Some(LeaseOf(token, live[token])) else None))
    case Acknowledge(raw, number) =>
      var token := Trim(raw);
      if token == "" then (s, Found(None))
      else
        var live := Purged(s.connections, now);
        if token !in live then (s.(connections := live), Found(None))
        else
          var record := AckedWith(live[token], number);
          (s.(connections := live[token := record]), Found(Some(LeaseOf(token, record))))
    case Revoke(raw) =>
      var token := Trim(raw);
      if token == "" then (s, Revoked(false))
      else (s.(connections := s.connections - {token}), Revoked(token in s.connections))
    case Snapshot =>
      var live := Purged(s.connections, now);
      (s.(connections := live), Listed(Listing(live)))
    case Restore(leases) =>
      (s.(connections := Loaded(leases, now)), Restored(LiveCount(leases, now)))
  }

  // -------------------------------------------- a registry that never purges

  predicate Live(m: Connections, token: string, now: nat) {
    token in m && m[token].expiresAt > now
  }

  /** The reference: nothing is ever dropped for having expired; expiry is
      checked on every read. */
  ghost function KeepStep(s: State, op: Op, now: nat): (State, Reply) {
    match op
    case Issue(principal, ttl, random) =>
      var token := IssuedId(TOKEN_PREFIX, s.nonce + 1, random);
      var record := NewRecord(principal, ttl, now);
      (State(s.nonce + 1, s.connections[token := record]), Issued(LeaseOf(token, record)))
    case Resolve(raw) =>
      var token := Trim(raw);
      (s, Found(if token != "" && Live(s.connections, token, now) then Some(LeaseOf(token, s.connections[token])) else None))
    case Acknowledge(raw, number) =>
      var token := Trim(raw);
      if token != "" && Live(s.connections, token, now) then
        var record := AckedWith(s.connections[token], number);
        (s.(connections := s.connections[token := record]), Found(Some(LeaseOf(token, record))))
      else (s, Found(None))
    case Revoke(raw) =>
      var token := Trim(raw);
      if token == "" then (s, Revoked(false))
      else (s.(connections := s.connections - {token}), Revoked(Live(s.connections, token, now)))
    case Snapshot => (s, Listed(Listing(Purged(s.connections, now))))
    case Restore(leases) =>
      (s.(connections := Loaded(leases, now)), Restored(LiveCount(leases, now)))
  }

  /** `a` holds a part of `b`, and everything in `b` not expired by `clock`. */
  ghost predicate HoldsLive(a: Connections, b: Connections, clock: nat) {
    && (forall t :: t in a ==> t in b && a[t] == b[t])
    && (forall t :: t in b && b[t].expiresAt > clock ==> t in a)
  }

  ghost predicate Tracks(lazy: State, keep: State, clock: nat) {
    lazy.nonce == keep.nonce && HoldsLive(lazy.connections, keep.connections, clock)
  }

  /** The lazy registry still holds an expired lease under the token. */
  predicate Stale(s: State, raw: string, now: nat) {
    Trim(raw) != "" && Trim(raw) in s.connections && s.connections[Trim(raw)].expiresAt <= now
  }

  lemma LivePurged(a: Connections, b: Connections, clock: nat, now: nat)
    requires HoldsLive(a, b, clock) && clock <= now
    ensures Purged(a, now) == Purged(b, now)
  {
    assert Purged(a, now).Keys == Purged(b, now).Keys;
  }

  /** One step: the answers agree, except that `revoke` reports success for an
      expired lease exactly while it has not been purged yet. */
  lemma StepAgrees(lazy: State, keep: State, clock: nat, op: Op, now: nat)
    requires Tracks(lazy, keep, clock) && clock <= now
    ensures Tracks(Step(lazy, op, now).0, KeepStep(keep, op, now).0, now)
    ensures Step(lazy, op, now).1 == KeepStep(keep, op, now).1 <==> !(op.Revoke? && Stale(lazy, op.token, now))
  {
    hide Step, KeepStep, Tracks, Stale;
    StepTracks(lazy, keep, clock, op, now);
    StepReplies(lazy, keep, clock, op, now);
  }

  lemma StepTracks(lazy: State, keep: State, clock: nat, op: Op, now: nat)
    requires Tracks(lazy, keep, clock) && clock <= now
    ensures Tracks(Step(lazy, op, now).0, KeepStep(keep, op, now).0, now)
  {
    hide Trim, IssuedId, Listing, Loaded, LiveCount, LeaseOf, AckedWith, NewRecord;
  }

  lemma StepReplies(lazy: State, keep: State, clock: nat, op: Op, now: nat)
    requires Tracks(lazy, keep, clock) && clock <= now
    ensures Step(lazy, op, now).1 == KeepStep(keep, op, now).1 <==> !(op.Revoke? && Stale(lazy, op.token, now))
  {
    hide Trim, IssuedId, Listing, Loaded, LiveCount, LeaseOf, AckedWith, NewRecord;
    LivePurged(lazy.connections, keep.connections, clock, now);
  }

  ghost function Replies(s: State, run: seq<Timed<Op>>): seq<Reply>
    decreases |run|
  {
    if run == [] then []
    else [Step(s, run[0].op, run[0].at).1] + Replies(Step(s, run[0].op, run[0].at).0, run[1..])
  }

  ghost function End(s: State, run: seq<Timed<Op>>): State
    decreases |run|
  {
    if run == [] then s else End(Step(s, run[0].op, run[0].at).0, run[1..])
  }

  ghost function KeepReplies(s: State, run: seq<Timed<Op>>): seq<Reply>
    decreases |run|
  {
    if run == [] then []
    else [KeepStep(s, run[0].op, run[0].at).1] + KeepReplies(KeepStep(s, run[0].op, run[0].at).0, run[1..])
  }

  /** No revocation hits a lease that expired but was not purged yet. */
  ghost predicate NoStaleRevoke(s: State, run: seq<Timed<Op>>)
    decreases |run|
  {
    run == [] || (
      && !(run[0].op.Revoke? && Stale(s, run[0].op.token, run[0].at))
      && NoStaleRevoke(Step(s, run[0].op, run[0].at).0, run[1..]))
  }

  /** Under a non-decreasing clock the lazily purged registry answers exactly
      like one that never purges and checks expiry on read, on every run in
      which no revocation names an expired lease still lying around; and on
      no other run. */
  lemma {:induction false} LazyIsInvisible(lazy: State, keep: State, run: seq<Timed<Op>>, clock: nat)
    requires Tracks(lazy, keep, clock) && Monotone(run, clock)
    ensures Replies(lazy, run) == KeepReplies(keep, run) <==> NoStaleRevoke(lazy, run)
    decreases |run|
  {
    hide Step, KeepStep, Tracks, Stale;
    if run == [] {
    } else {
      var op, at := run[0].op, run[0].at;
      StepAgrees(lazy, keep, clock, op, at);
      var l, k := Step(lazy, op, at), KeepStep(keep, op, at);
      LazyIsInvisible(l.0, k.0, run[1..], at);
      ConsEqual(l.1, Replies(l.0, run[1..]), k.1, KeepReplies(k.0, run[1..]));
    }
  }

  lemma ConsEqual<T>(a: T, xs: seq<T>, b: T, ys: seq<T>)
    ensures [a] + xs == [b] + ys <==> a == b && xs == ys
  {
    assert ([a] + xs)[1..] == xs && ([b] + ys)[1..] == ys;
    assert ([a] + xs)[0] == a && ([b] + ys)[0] == b;
  }

  /** The clock condition is needed: after a purge at time 5 a lookup dated 3
      no longer finds a lease that was still valid then. */
  lemma BackwardClockShows(p: Principal)
    ensures
      var s := State(0, map["t" := Record(p, 0, 5, None)]);
      var run := [Timed(Resolve("t"), 5), Timed(Resolve("t"), 3)];
      Replies(s, run) == [Found(None), Found(None)]
      && KeepReplies(s, run) == [Found(None), Found(Some(Lease("t", p, 0, 5, None)))]
  {
    var s := State(0, map["t" := Record(p, 0, 5, None)]);
    var run := [Timed(Resolve("t"), 5), Timed(Resolve("t"), 3)];
    assert Trim("t") == "t" by {
      TrimOf("", "t", "");
      assert "" + "t" + "" == "t";
    }
    var e := Step(s, Resolve("t"), 5).0;
    assert e.connections == map[];
    assert run[1..] == [run[1]] && run[1..][1..] == [];
    assert Replies(e, run[1..]) == [Found(None)] + [];
    assert KeepReplies(s, run[1..]) == [Found(Some(Lease("t", p, 0, 5, None)))] + [];
  }

  /** The condition on revocations is needed: a lease issued for one millisecond
      and revoked after it expired, with nothing asked in between. */
  lemma StaleRevokeShows(p: Principal, random: nat)
    ensures
      var token := IssuedId(TOKEN_PREFIX, 1, random);
      var run := [Timed(Issue(p, 1, random), 0), Timed(Revoke(token), 1)];
      var lease := Lease(token, p, 0, 1, None);
      && Monotone(run, 0)
      && Replies(State(0, map[]), run) == [Issued(lease), Revoked(true)]
      && KeepReplies(State(0, map[]), run) == [Issued(lease), Revoked(false)]
  {
    var token := IssuedId(TOKEN_PREFIX, 1, random);
    hide Trim, IssuedId, Monotone;
    IssuedIdTrimmed(TOKEN_PREFIX, 1, random);
    var run := [Timed(Issue(p, 1, random), 0), Timed(Revoke(token), 1)];
    var s := State(1, map[token := Record(p, 0, 1, None)]);
    assert Step(State(0, map[]), run[0].op, 0).0 == s && KeepStep(State(0, map[]), run[0].op, 0).0 == s;
    assert run[1..] == [run[1]] && run[1..][1..] == [];
    assert Replies(s, run[1..]) == [Revoked(true)] + [];
    assert KeepReplies(s, run[1..]) == [Revoked(false)] + [];
    InTurn(run[0], run[1]);
  }

  lemma InTurn(a: Timed<Op>, b: Timed<Op>)
    requires a.at <= b.at
    ensures Monotone([a, b], 0)
  {
    assert [a, b][1..] == [b] && [b][1..] == [];
  }

  // ----------------------------------------------------------- acknowledgement

  /** The run neither restores a snapshot nor issues `t` anew. */
  ghost predicate LeavesAlone(s: State, run: seq<Timed<Op>>, t: string)
    decreases |run|
  {
    run == [] || (
      && !run[0].op.Restore?
      && (run[0].op.Issue? ==> IssuedId(TOKEN_PREFIX, s.nonce + 1, run[0].op.random) != t)
      && LeavesAlone(Step(s, run[0].op, run[0].at).0, run[1..], t))
  }

  /** The operation acknowledges on `t` and is answered with its lease. */
  ghost predicate Acknowledges(s: State, timed: Timed<Op>, t: string) {
    && timed.op.Acknowledge? && Trim(timed.op.token) == t
    && Step(s, timed.op, timed.at).1 != Found(None)
  }

  /** The numbers of the acknowledgements on `t` that were answered with it. */
  ghost function Acknowledged(s: State, run: seq<Timed<Op>>, t: string): set<nat>
    decreases |run|
  {
    if run == [] then {}
    else
      (if Acknowledges(s, run[0], t) then {run[0].op.number} else {})
      + Acknowledged(Step(s, run[0].op, run[0].at).0, run[1..], t)
  }

  function Greatest(r: Option<nat>, n: nat): Option<nat> {
    if r.Some? && r.value > n then r else Some(n)
  }

  ghost predicate IsMaximum(r: Option<nat>, start: Option<nat>, numbers: set<nat>) {
    match r
    case None => start == None && numbers == {}
    case Some(m) =>
      && (start == Some(m) || m in numbers)
      && (start.Some? ==> start.value <= m)
      && (forall n :: n in numbers ==> n <= m)
  }

  /** While a lease is stored and no snapshot is restored, its `acknowledged_seq`
      is the maximum of the value it had and of everything acknowledged on it
      since, in whatever order the acknowledgements came and whatever the clock
      does. After a restore the same holds from the restored value on. */
  lemma {:induction false} AckIsMaximum(s: State, run: seq<Timed<Op>>, t: string)
    requires t in s.connections && LeavesAlone(s, run, t) && t in End(s, run).connections
    ensures IsMaximum(End(s, run).connections[t].acked, s.connections[t].acked, Acknowledged(s, run, t))
    decreases |run|
  {
    if run == [] {
    } else {
      AckStep(s, run[0], t);
      hide Step, Acknowledges;
      var next := Step(s, run[0].op, run[0].at).0;
      if t in next.connections {
        AckIsMaximum(next, run[1..], t);
      } else {
        GoneStaysGone(next, run[1..], t);
      }
    }
  }

  lemma AckStep(s: State, timed: Timed<Op>, t: string)
    requires LeavesAlone(s, [timed], t)
    ensures var next := Step(s, timed.op, timed.at).0;
      && (t in next.connections ==> t in s.connections)
      && (t in s.connections && t in next.connections ==>
           next.connections[t].acked ==
           if Acknowledges(s, timed, t) then Greatest(s.connections[t].acked, timed.op.number)
           else s.connections[t].acked)
  {
    hide Trim, IssuedId, Listing, Loaded;
  }

  lemma {:induction false} GoneStaysGone(s: State, run: seq<Timed<Op>>, t: string)
    requires t !in s.connections && LeavesAlone(s, run, t)
    ensures t !in End(s, run).connections
    decreases |run|
  {
    if run == [] {
    } else {
      AckStep(s, run[0], t);
      hide Step;
      GoneStaysGone(Step(s, run[0].op, run[0].at).0, run[1..], t);
    }
  }

  // ------------------------------------------------------------------ time to live

  /** The run neither restores a snapshot nor issues or revokes `t`. */
  ghost predicate Undisturbed(s: State, run: seq<Timed<Op>>, t: string) {
    LeavesAlone(s, run, t) && forall i :: 0 <= i < |run| && run[i].op.Revoke? ==> Trim(run[i].op.token) != t
  }

  lemma StepHolds(s: State, timed: Timed<Op>, t: string)
    requires t in s.connections && !timed.op.Restore?
    requires timed.op.Issue? ==> IssuedId(TOKEN_PREFIX, s.nonce + 1, timed.op.random) != t
    requires timed.op.Revoke? ==> Trim(timed.op.token) != t
    ensures var next := Step(s, timed.op, timed.at).0;
      && (timed.at < s.connections[t].expiresAt ==> t in next.connections)
      && (t in next.connections ==> next.connections[t] == s.connections[t].(acked := next.connections[t].acked))
  {
    hide Trim, IssuedId, Listing, Loaded, LiveCount, LeaseOf, NewRecord;
  }

  /** If nothing in between is later than the lookup, a stored lease that is left
      undisturbed is found exactly before it expires. */
  lemma {:induction false} FoundUntilExpiry(s: State, run: seq<Timed<Op>>, raw: string, at: nat)
    requires Trim(raw) != "" && Trim(raw) in s.connections && Undisturbed(s, run, Trim(raw))
    requires forall i :: 0 <= i < |run| ==> run[i].at <= at
    ensures var r, was := Step(End(s, run), Resolve(raw), at).1, s.connections[Trim(raw)];
      && r.Found? && (r.lookup.Some? <==> at < was.expiresAt)
      && (r.lookup.Some? ==>
            r.lookup.value == Lease(Trim(raw), was.principal, was.issuedAt, was.expiresAt, r.lookup.value.acked))
    decreases |run|
  {
    hide Trim;
    var t := Trim(raw);
    if run == [] {
    } else {
      StepHolds(s, run[0], t);
      hide Step;
      var next := Step(s, run[0].op, run[0].at).0;
      assert forall i :: 0 <= i < |run| - 1 ==> run[1..][i] == run[i + 1];
      if t in next.connections {
        FoundUntilExpiry(next, run[1..], raw, at);
      } else {
        GoneStaysGone(next, run[1..], t);
        NotFound(End(s, run), raw, at);
      }
    }
  }

  lemma NotFound(s: State, raw: string, at: nat)
    requires Trim(raw) !in s.connections
    ensures Step(s, Resolve(raw), at).1 == Found(None)
  {
    hide Trim;
  }

  /** A lease lasts for its time to live, which is at least a millisecond and does
      not go past the largest 64-bit number: left undisturbed, it is found by a
      lookup no earlier than what happened before exactly during that time. */
  lemma IssuedLeaseLives(s: State, principal: Principal, ttl: nat, random: nat, now: nat,
                         run: seq<Timed<Op>>, raw: string, at: nat)
    requires Trim(raw) == IssuedId(TOKEN_PREFIX, s.nonce + 1, random)
    requires Undisturbed(Step(s, Issue(principal, ttl, random), now).0, run, Trim(raw))
    requires forall i :: 0 <= i < |run| ==> run[i].at <= at
    ensures var r := Step(End(Step(s, Issue(principal, ttl, random), now).0, run), Resolve(raw), at).1;
      && r.Found?
      && (r.lookup.Some? <==> (at < now + ttl || at < now + 1) && at < 0xFFFF_FFFF_FFFF_FFFF)
      && (r.lookup.Some? ==> r.lookup.value.principal == principal && r.lookup.value.issuedAt == now)
  {
    hide IssuedId, Trim, Undisturbed, End, LeavesAlone;
    IssuedIdTrimmed(TOKEN_PREFIX, s.nonce + 1, random);
    FoundUntilExpiry(Step(s, Issue(principal, ttl, random), now).0, run, raw, at);
  }

  // ------------------------------------------------------- snapshot and restore

  ghost predicate LoadsAt(ls: seq<Lease>, now: nat, t: string, i: nat) {
    i < |ls| && ls[i].token == t && ls[i].expiresAt > now
  }

  lemma {:induction false} LoadedListing(ls: seq<Lease>, now: nat, t: string)
    requires forall i, j :: 0 <= i < j < |ls| ==> ls[i].token != ls[j].token
    ensures t in Loaded(ls, now) <==> exists i: nat :: LoadsAt(ls, now, t, i)
    ensures forall i: nat :: LoadsAt(ls, now, t, i) && t in Loaded(ls, now) ==> Loaded(ls, now)[t] == RecordOf(ls[i])
  {
    if ls == [] {
    } else {
      var n := |ls| - 1;
      LoadedListing(ls[..n], now, t);
      forall i: nat | i < n ensures LoadsAt(ls[..n], now, t, i) == LoadsAt(ls, now, t, i) {
      }
      assert forall i: nat :: LoadsAt(ls, now, t, i) ==> i < n || i == n;
      assert LoadsAt(ls, now, t, n) <==> ls[n].token == t && ls[n].expiresAt > now;
    }
  }

  /** The last unexpired lease of the token. */
  ghost predicate LastLive(ls: seq<Lease>, now: nat, t: string, i: int) {
    && 0 <= i < |ls| && ls[i].token == t && now < ls[i].expiresAt
    && forall j :: i < j < |ls| && ls[j].token == t ==> ls[j].expiresAt <= now
  }

  /** Loading keeps the last unexpired lease of each token, and counts all that
      have not expired. */
  lemma {:induction false} LoadedMeaning(ls: seq<Lease>, now: nat, t: string)
    ensures t in Loaded(ls, now) <==> exists i :: LastLive(ls, now, t, i)
    ensures forall i :: LastLive(ls, now, t, i) && t in Loaded(ls, now) ==>
      Loaded(ls, now)[t] == Record(ls[i].principal, ls[i].issuedAt, ls[i].expiresAt, ls[i].acked)
  {
    if ls == [] {
    } else {
      var n := |ls| - 1;
      var before := ls[..n];
      LoadedMeaning(before, now, t);
      var here := ls[n].token == t && now < ls[n].expiresAt;
      assert here ==> LastLive(ls, now, t, n);
      forall i ensures LastLive(ls, now, t, i) <==> if here then i == n else LastLive(before, now, t, i) {
        assert 0 <= i < n ==> before[i] == ls[i];
      }
    }
  }

  ghost function LiveAt(ls: seq<Lease>, now: nat): set<int> {
    set i | 0 <= i < |ls| && now < ls[i].expiresAt
  }

  lemma {:induction false} LiveCountMeaning(ls: seq<Lease>, now: nat)
    ensures LiveCount(ls, now) == |LiveAt(ls, now)|
  {
    if ls == [] {
      assert LiveAt(ls, now) == {};
    } else {
      var n := |ls| - 1;
      LiveCountMeaning(ls[..n], now);
      assert LiveAt(ls, now) == LiveAt(ls[..n], now) + if now < ls[n].expiresAt then {n} else {};
    }
  }

  lemma ListingAt(m: Connections, i: nat)
    requires i < |SortedKeys(m.Keys)|
    ensures |Listing(m)| == |SortedKeys(m.Keys)| && SortedKeys(m.Keys)[i] in m
    ensures Listing(m)[i] == LeaseOf(SortedKeys(m.Keys)[i], m[SortedKeys(m.Keys)[i]])
  {
    SortedKeysMeaning(m.Keys);
    assert SortedKeys(m.Keys)[i] in SortedKeys(m.Keys);
  }

  lemma ListingMeaning(m: Connections)
    ensures var ls := Listing(m);
      && |ls| == |m|
      && (forall i, j :: 0 <= i < j < |ls| ==> ls[i].token != ls[j].token && Leq(ls[i].token, ls[j].token))
      && (forall i :: 0 <= i < |ls| ==> ls[i].token in m && ls[i] == LeaseOf(ls[i].token, m[ls[i].token]))
      && (forall t :: t in m ==> exists i :: 0 <= i < |ls| && ls[i].token == t)
  {
    SortedKeysMeaning(m.Keys);
    var keys := SortedKeys(m.Keys);
    var ls := Listing(m);
    assert |ls| == |keys|;
    hide Listing, SortedKeys, Leq;
    forall i | 0 <= i < |ls| ensures keys[i] in m && ls[i] == LeaseOf(keys[i], m[keys[i]]) {
      ListingAt(m, i);
    }
    assert forall i, j :: 0 <= i < j < |ls| ==> keys[i] != keys[j] && Leq(keys[i], keys[j]);
    forall t | t in m ensures exists i :: 0 <= i < |ls| && ls[i].token == t {
      var i :| 0 <= i < |keys| && keys[i] == t;
      assert ls[i].token == t;
    }
  }

  /** Loading a listing gives back the unexpired part of what was listed. */
  lemma ListingRoundTrip(m: Connections, now: nat)
    ensures Loaded(Listing(m), now) == Purged(m, now)
  {
    hide Listing, Loaded, Leq;
    ListingMeaning(m);
    var ls := Listing(m);
    var a, b := Loaded(ls, now), Purged(m, now);
    forall t ensures t in a <==> t in b
      ensures t in a && t in b ==> a[t] == b[t]
    {
      LoadedListing(ls, now, t);
      if i :| 0 <= i < |ls| && ls[i].token == t {
        assert LoadsAt(ls, now, t, i) <==> ls[i].expiresAt > now;
      }
    }
    assert a.Keys == b.Keys;
  }

  /** The token is stored on one side only. */
  predicate Splits(a: State, b: State, raw: string) {
    Trim(raw) != "" && (Trim(raw) in a.connections) != (Trim(raw) in b.connections)
  }

  /** No revocation names a token that only one side still stores. */
  ghost predicate NoSplitRevoke(a: State, b: State, run: seq<Timed<Op>>)
    decreases |run|
  {
    run == [] || (
      && !(run[0].op.Revoke? && Splits(a, b, run[0].op.token))
      && NoSplitRevoke(Step(a, run[0].op, run[0].at).0, Step(b, run[0].op, run[0].at).0, run[1..]))
  }

  ghost predicate NoIssue(run: seq<Timed<Op>>) {
    forall i :: 0 <= i < |run| ==> !run[i].op.Issue?
  }

  lemma PairStep(a: State, b: State, clock: nat, op: Op, now: nat)
    requires HoldsLive(a.connections, b.connections, clock) && clock <= now
    requires a.nonce == b.nonce || !op.Issue?
    ensures var (x, y) := (Step(a, op, now), Step(b, op, now));
      && HoldsLive(x.0.connections, y.0.connections, now)
      && (x.1 == y.1 <==> !(op.Revoke? && Splits(a, b, op.token)))
      && x.0.nonce - a.nonce == y.0.nonce - b.nonce
  {
    hide Trim, IssuedId, Listing, Loaded, LiveCount, LeaseOf, AckedWith, NewRecord;
    LivePurged(a.connections, b.connections, clock, now);
  }

  lemma IssuesDiffer(a: State, b: State, op: Op, now: nat)
    requires a.nonce != b.nonce && op.Issue?
    ensures Step(a, op, now).1 != Step(b, op, now).1
  {
    hide IssuedId;
    if IssuedId(TOKEN_PREFIX, a.nonce + 1, op.random) == IssuedId(TOKEN_PREFIX, b.nonce + 1, op.random) {
      IssuedIdFresh(TOKEN_PREFIX, a.nonce + 1, op.random, b.nonce + 1, op.random);
    }
  }

  /** Two registries that agree on live leases answer a run alike exactly when
      no revocation meets a lease only one of them still stores, and nothing is
      issued unless their counters agree. */
  lemma {:induction false} PairAgrees(a: State, b: State, run: seq<Timed<Op>>, clock: nat)
    requires HoldsLive(a.connections, b.connections, clock) && Monotone(run, clock)
    ensures Replies(a, run) == Replies(b, run) <==> NoSplitRevoke(a, b, run) && (a.nonce == b.nonce || NoIssue(run))
    decreases |run|
  {
    hide Step, HoldsLive, Splits;
    if run == [] {
    } else {
      var op, at := run[0].op, run[0].at;
      var x, y := Step(a, op, at), Step(b, op, at);
      ConsEqual(x.1, Replies(x.0, run[1..]), y.1, Replies(y.0, run[1..]));
      if a.nonce != b.nonce && op.Issue? {
        IssuesDiffer(a, b, op, at);
      } else {
        PairStep(a, b, clock, op, at);
        PairAgrees(x.0, y.0, run[1..], at);
        NoIssueCons(run);
      }
    }
  }

  lemma NoIssueCons(run: seq<Timed<Op>>)
    requires run != []
    ensures NoIssue(run) <==> !run[0].op.Issue? && NoIssue(run[1..])
  {
    assert forall i :: 0 < i < |run| ==> run[i] == run[1..][i - 1];
  }

  lemma SnapshotHoldsLive(s: State, taken: nat, restored: nat)
    requires taken <= restored
    ensures var snap := Step(s, Snapshot, taken);
      && snap.1.Listed?
      && Loaded(snap.1.leases, restored) == Purged(s.connections, restored)
      && HoldsLive(Purged(s.connections, restored), snap.0.connections, restored)
  {
    var live := Purged(s.connections, taken);
    ListingRoundTrip(live, restored);
    assert Purged(live, restored) == Purged(s.connections, restored);
  }

  /** After restoring its own snapshot a registry holds its unexpired leases, and
      it answers every later run like one that was never restored exactly when
      no revocation names a lease that the restore dropped as expired and the
      other side has not purged yet. */
  lemma OwnSnapshotInvisible(s: State, taken: nat, restored: nat, run: seq<Timed<Op>>)
    requires taken <= restored && Monotone(run, restored)
    ensures
      var snap := Step(s, Snapshot, taken);
      var back := Step(snap.0, Restore(snap.1.leases), restored).0;
      && back.connections == Purged(s.connections, restored)
      && (Replies(back, run) == Replies(snap.0, run) <==> NoSplitRevoke(back, snap.0, run))
  {
    hide HoldsLive, Listing, Loaded;
    SnapshotHoldsLive(s, taken, restored);
    var snap := Step(s, Snapshot, taken);
    PairAgrees(Step(snap.0, Restore(snap.1.leases), restored).0, snap.0, run, restored);
  }

  /** Restored into a new registry, whose counter is zero, the answers agree
      exactly when also nothing is issued, unless nothing ever was. */
  lemma RestartInvisible(s: State, taken: nat, restored: nat, run: seq<Timed<Op>>)
    requires taken <= restored && Monotone(run, restored)
    ensures
      var snap := Step(s, Snapshot, taken);
      var back := Step(State(0, map[]), Restore(snap.1.leases), restored).0;
      && back == State(0, Purged(s.connections, restored))
      && (Replies(back, run) == Replies(snap.0, run) <==>
           NoSplitRevoke(back, snap.0, run) && (s.nonce == 0 || NoIssue(run)))
  {
    hide HoldsLive, Listing, Loaded;
    SnapshotHoldsLive(s, taken, restored);
    var snap := Step(s, Snapshot, taken);
    PairAgrees(Step(State(0, map[]), Restore(snap.1.leases), restored).0, snap.0, run, restored);
  }

  /** The condition is needed: a lease that expires at 5 is in the snapshot taken
      at 0, is dropped by a restore at 10, and is revoked then. */
  lemma SplitRevokeShows(p: Principal)
    ensures
      var s := State(0, map["t" := Record(p, 0, 5, None)]);
      var snap := Step(s, Snapshot, 0);
      var back := Step(snap.0, Restore(snap.1.leases), 10).0;
      var run := [Timed(Revoke("t"), 10)];
      Replies(back, run) == [Revoked(false)] && Replies(snap.0, run) == [Revoked(true)]
  {
    hide Listing, Loaded, Trim;
    var s := State(0, map["t" := Record(p, 0, 5, None)]);
    SnapshotHoldsLive(s, 0, 10);
    var run := [Timed(Revoke("t"), 10)];
    TrimOf("", "t", "");
    assert "" + "t" + "" == "t";
    assert run[1..] == [];
    assert Purged(s.connections, 0) == s.connections && Purged(s.connections, 10) == map[];
    assert [Revoked(false)] + [] == [Revoked(false)] && [Revoked(true)] + [] == [Revoked(true)];
  }

  /** A restore also brings back the acknowledged number of its snapshot, however
      far acknowledgement has come since. */
  lemma RestoreForgets(s: State, raw: string, number: nat, now: nat)
    requires Trim(raw) != "" && Live(s.connections, Trim(raw), now)
    ensures
      var t := Trim(raw);
      var snap := Step(s, Snapshot, now);
      var acked := Step(snap.0, Acknowledge(raw, number), now).0;
      var back := Step(acked, Restore(snap.1.leases), now).0;
      && t in acked.connections && acked.connections[t].acked == Greatest(s.connections[t].acked, number)
      && back.connections == snap.0.connections
      && t in back.connections && back.connections[t].acked == s.connections[t].acked
  {
    hide Listing, Loaded, Trim;
    ListingRoundTrip(Purged(s.connections, now), now);
  }

  // -------------------------------------------------------------- fresh tokens

  /** Every stored token was issued under a counter value already used. */
  ghost predicate TokensIssued(s: State) {
    forall t :: t in s.connections ==> exists n: nat, r: nat :: n <= s.nonce && t == IssuedId(TOKEN_PREFIX, n, r)
  }

  /** From an empty registry on, the counter is ahead of all tokens as long as it
      is kept, and what is issued is a token not in use. */
  lemma IssuedIsFresh(s: State, op: Op, now: nat)
    requires TokensIssued(s) && !op.Restore?
    ensures TokensIssued(Step(s, op, now).0) && CounterAhead(s)
    ensures op.Issue? ==> Step(s, op, now).1.lease.token !in s.connections
  {
    hide Trim, IssuedId, Listing;
    forall n: nat, r: nat | IssuedId(TOKEN_PREFIX, n, r) in s.connections ensures n <= s.nonce {
      var m: nat, q: nat :| m <= s.nonce && IssuedId(TOKEN_PREFIX, n, r) == IssuedId(TOKEN_PREFIX, m, q);
      IssuedIdFresh(TOKEN_PREFIX, n, r, m, q);
    }
  }

  /** No stored token has the form of one still to be issued. */
  ghost predicate CounterAhead(s: State) {
    forall n: nat, r: nat :: IssuedId(TOKEN_PREFIX, n, r) in s.connections ==> n <= s.nonce
  }

  ghost predicate NoRestore(run: seq<Timed<Op>>) {
    forall i :: 0 <= i < |run| ==> !run[i].op.Restore?
  }

  /** Every token is unused when it is issued. */
  ghost predicate IssuesFresh(s: State, run: seq<Timed<Op>>)
    decreases |run|
  {
    run == [] || (
      && (run[0].op.Issue? ==> IssuedId(TOKEN_PREFIX, s.nonce + 1, run[0].op.random) !in s.connections)
      && IssuesFresh(Step(s, run[0].op, run[0].at).0, run[1..]))
  }

  lemma StepKeepsAhead(s: State, op: Op, now: nat)
    requires CounterAhead(s) && !op.Restore?
    ensures CounterAhead(Step(s, op, now).0)
  {
    hide Trim, IssuedId, Listing;
    var t := Step(s, op, now).0;
    forall n: nat, r: nat | IssuedId(TOKEN_PREFIX, n, r) in t.connections ensures n <= t.nonce {
      if op.Issue? && IssuedId(TOKEN_PREFIX, n, r) == IssuedId(TOKEN_PREFIX, s.nonce + 1, op.random) {
        IssuedIdFresh(TOKEN_PREFIX, n, r, s.nonce + 1, op.random);
      }
    }
  }

  lemma {:induction false} AheadIsFresh(s: State, run: seq<Timed<Op>>)
    requires CounterAhead(s) && NoRestore(run)
    ensures IssuesFresh(s, run)
    decreases |run|
  {
    hide Step, IssuedId;
    if run == [] {
    } else {
      StepKeepsAhead(s, run[0].op, run[0].at);
      assert forall i :: 0 <= i < |run| - 1 ==> run[1..][i] == run[i + 1];
      AheadIsFresh(Step(s, run[0].op, run[0].at).0, run[1..]);
    }
  }

  /** Issuing with random part `r` until the counter reaches `n` meets the
      stored token of that form. */
  lemma {:induction false} BehindReissues(s: State, p: Principal, n: nat, r: nat) returns (run: seq<Timed<Op>>)
    requires IssuedId(TOKEN_PREFIX, n, r) in s.connections && n > s.nonce
    ensures NoRestore(run) && !IssuesFresh(s, run)
    decreases n - s.nonce
  {
    hide IssuedId;
    var first := Timed(Op.Issue(p, 1, r), 0);
    if n == s.nonce + 1 {
      run := [first];
    } else {
      var rest := BehindReissues(Step(s, first.op, 0).0, p, n, r);
      run := [first] + rest;
      assert run[1..] == rest;
    }
  }

  /** On all runs without a restore every issued token is unused at its issue,
      whatever the random parts, exactly when no stored token has the form of a
      token still to come. */
  lemma FreshExactlyWhen(s: State, p: Principal)
    ensures (forall run :: NoRestore(run) ==> IssuesFresh(s, run)) <==> CounterAhead(s)
  {
    hide IssuesFresh, NoRestore, IssuedId;
    if CounterAhead(s) {
      forall run | NoRestore(run) ensures IssuesFresh(s, run) {
        AheadIsFresh(s, run);
      }
    } else {
      var n: nat, r: nat :| IssuedId(TOKEN_PREFIX, n, r) in s.connections && n > s.nonce;
      var run := BehindReissues(s, p, n, r);
    }
  }

  /** After a restart that restores leases, that is when none of them has a token
      that a registry issued. */
  lemma RestartFreshExactlyWhen(s: State, taken: nat, restored: nat, p: Principal)
    requires taken <= restored
    ensures
      var snap := Step(s, Snapshot, taken);
      var back := Step(State(0, map[]), Restore(snap.1.leases), restored).0;
      (forall run :: NoRestore(run) ==> IssuesFresh(back, run)) <==>
      forall n: nat, r: nat :: n >= 1 ==> IssuedId(TOKEN_PREFIX, n, r) !in Purged(s.connections, restored)
  {
    hide HoldsLive, Listing, Loaded, IssuesFresh, NoRestore, IssuedId;
    SnapshotHoldsLive(s, taken, restored);
    FreshExactlyWhen(State(0, Purged(s.connections, restored)), p);
  }

  /** A restart loses the counter, and then only the random part keeps tokens
      apart: the first token issued replaces the lease that was issued first
      if that is still live and the random parts coincide. */
  lemma RestartReissues(p: Principal, q: Principal, ttl: nat, random: nat, now: nat)
    requires now < U64_MAX
    ensures
      var first := Step(State(0, map[]), Issue(p, ttl, random), now);
      var snap := Step(first.0, Snapshot, now);
      var back := Step(State(0, map[]), Restore(snap.1.leases), now).0;
      var again := Step(back, Issue(q, ttl, random), now);
      && first.1.lease.token in back.connections && back.connections[first.1.lease.token].principal == p
      && again.1.lease.token == first.1.lease.token
      && again.0.connections[first.1.lease.token].principal == q
  {
    hide IssuedId, Listing, Loaded;
    SnapshotHoldsLive(Step(State(0, map[]), Issue(p, ttl, random), now).0, now, now);
  }

  // ------------------------------------------------------------------ registry

  method ListConnections(m: Connections) returns (leases: seq<Lease>)
    ensures leases == Listing(m)
  {
    var keys := KeysInOrder(m.Keys);
    leases := [];
    assert |Listing(m)| == |keys|;
    hide Listing, SortedKeys;
    for i := 0 to |keys|
      invariant leases == Listing(m)[..i]
    {
      ListingAt(m, i);
      leases := leases + [LeaseOf(keys[i], m[keys[i]])];
    }
  }

  class ConnectionRegistry {
    var nonce: nat
    var connections: Connections

    ghost function Value(): State reads this {
      State(nonce, connections)
    }

    constructor ()
      ensures Value() == State(0, map[])
    {
      nonce := 0;
      connections := map[];
    }

    method Issue(principal: Principal, ttl: nat, random: nat, now: nat) returns (lease: Lease)
      modifies this
      ensures (Value(), Issued(lease)) == Step(old(Value()), Op.Issue(principal, ttl, random), now)
      ensures lease.token == IssuedId("cpt-", old(nonce) + 1, random)
      ensures lease.principal == principal && lease.issuedAt == now && lease.acked == None
      ensures var end := now + (if ttl > 1 then ttl else 1);
        lease.expiresAt == if end > 0xFFFF_FFFF_FFFF_FFFF then 0xFFFF_FFFF_FFFF_FFFF else end
      ensures connections ==
        old(connections)[lease.token := Record(lease.principal, lease.issuedAt, lease.expiresAt, lease.acked)]
    {
      nonce := nonce + 1;
      var token := IssuedId(TOKEN_PREFIX, nonce, random);
      var record := NewRecord(principal, ttl, now);
      connections := connections[token := record];
      lease := LeaseOf(token, record);
    }

    method Resolve(token: string, now: nat) returns (r: Option<Lease>)
      modifies this`connections
      ensures (Value(), Found(r)) == Step(old(Value()), Op.Resolve(token), now)
      ensures r.Some? <==> Trim(token) != "" && Trim(token) in old(connections) && now < old(connections)[Trim(token)].expiresAt
      ensures r.Some? ==>
        var record := old(connections)[Trim(token)];
        r.value == Lease(Trim(token), record.principal, record.issuedAt, record.expiresAt, record.acked)
      ensures forall t :: t in connections <==>
        t in old(connections) && (Trim(token) == "" || now < old(connections)[t].expiresAt)
      ensures forall t :: t in connections ==> connections[t] == old(connections)[t]
    {
      var trimmed := Trim(token);
      if trimmed == "" {
        return None;
      }
      connections := Purged(connections, now);
      r := if trimmed in connections then Some(LeaseOf(trimmed, connections[trimmed])) else None;
    }

    method AcknowledgeSeq(token: string, number: nat, now: nat) returns (r: Option<Lease>)
      modifies this`connections
      ensures (Value(), Found(r)) == Step(old(Value()), Acknowledge(token, number), now)
      ensures r.Some? <==> Trim(token) != "" && Trim(token) in old(connections) && now < old(connections)[Trim(token)].expiresAt
      ensures r.Some? ==>
        var was := old(connections)[Trim(token)];
        && r.value == Lease(Trim(token), was.principal, was.issuedAt, was.expiresAt, r.value.acked)
        && r.value.acked == Greatest(was.acked, number)
        && Trim(token) in connections
        && connections[Trim(token)] == Record(was.principal, was.issuedAt, was.expiresAt, r.value.acked)
      ensures forall t :: t in connections <==>
        t in old(connections) && (Trim(token) == "" || now < old(connections)[t].expiresAt)
      ensures forall t :: t in connections && t != Trim(token) ==> connections[t] == old(connections)[t]
    {
      var trimmed := Trim(token);
      if trimmed == "" {
        return None;
      }
      connections := Purged(connections, now);
      if trimmed !in connections {
        return None;
      }
      var record := AckedWith(connections[trimmed], number);
      connections := connections[trimmed := record];
      r := Some(LeaseOf(trimmed, record));
    }

    method Revoke(token: string, ghost now: nat) returns (removed: bool)
      modifies this`connections
      ensures (Value(), Revoked(removed)) == Step(old(Value()), Op.Revoke(token), now)
      ensures removed <==> Trim(token) != "" && Trim(token) in old(connections)
      ensures connections == if removed then old(connections) - {Trim(token)} else old(connections)
    {
      var trimmed := Trim(token);
      if trimmed == "" {
        return false;
      }
      removed := trimmed in connections;
      connections := connections - {trimmed};
    }

    method SnapshotLeases(now: nat) returns (leases: seq<Lease>)
      modifies this`connections
      ensures (Value(), Listed(leases)) == Step(old(Value()), Snapshot, now)
      ensures forall t :: t in connections <==> t in old(connections) && now < old(connections)[t].expiresAt
      ensures forall t :: t in connections ==> connections[t] == old(connections)[t]
      ensures forall l :: l in leases <==>
        l.token in connections && connections[l.token] == Record(l.principal, l.issuedAt, l.expiresAt, l.acked)
      ensures forall i, j :: 0 <= i < j < |leases| ==> leases[i].token != leases[j].token && Leq(leases[i].token, leases[j].token)
    {
      connections := Purged(connections, now);
      leases := ListConnections(connections);
      hide Listing, Leq;
      ListingMeaning(connections);
    }

    method RestoreLeases(leases: seq<Lease>, now: nat) returns (restored: nat)
      modifies this`connections
      ensures (Value(), Restored(restored)) == Step(old(Value()), Restore(leases), now)
      ensures restored == |set i | 0 <= i < |leases| && now < leases[i].expiresAt|
      ensures forall t :: t in connections <==> exists i :: LastLive(leases, now, t, i)
      ensures forall t, i :: LastLive(leases, now, t, i) && t in connections ==>
        connections[t] == Record(leases[i].principal, leases[i].issuedAt, leases[i].expiresAt, leases[i].acked)
    {
      connections := map[];
      restored := 0;
      for i := 0 to |leases|
        invariant connections == Loaded(leases[..i], now) && restored == LiveCount(leases[..i], now)
      {
        assert leases[..i + 1][..i] == leases[..i];
        if leases[i].expiresAt > now {
          connections := connections[leases[i].token := RecordOf(leases[i])];
          restored := restored + 1;
        }
      }
      assert leases[..|leases|] == leases;
      LiveCountMeaning(leases, now);
      assert LiveAt(leases, now) == set i | 0 <= i < |leases| && now < leases[i].expiresAt;
      forall t {
        LoadedMeaning(leases, now, t);
      }
    }
  }
}
