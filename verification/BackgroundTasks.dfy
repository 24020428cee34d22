/** `load_background_task_candidates` of crates/app/src/control_plane.rs: one
    candidate per task, the newest, in display order. */
module BackgroundTasks {
  import opened Text
  import opened Results
  import opened Ordering

  datatype Candidate = Candidate(taskId: string, ownerId: string, updatedAt: int, view: string)

  /** What building a candidate from one session gave. */
  datatype Built = Skipped | Failed(error: string) | Found(candidate: Candidate)

  /** `background_task_candidate_cmp_desc` is not greater: newest first, then
      by task id, then by owner. The view does not take part. */
  predicate NoLater(a: Candidate, b: Candidate) {
    || a.updatedAt > b.updatedAt
    || (a.updatedAt == b.updatedAt && a.taskId != b.taskId && Leq(a.taskId, b.taskId))
    || (a.updatedAt == b.updatedAt && a.taskId == b.taskId && Leq(a.ownerId, b.ownerId))
  }

  predicate Newer(a: Candidate, b: Candidate) {
    !NoLater(b, a)
  }

  lemma NoLaterOrder()
    ensures TotalPreorder(NoLater)
  {
    hide Leq;
    StringOrder();
    forall a, b, c | NoLater(a, b) && NoLater(b, c) ensures NoLater(a, c) {
      NoLaterTransitive(a, b, c);
    }
  }

  lemma NoLaterTransitive(a: Candidate, b: Candidate, c: Candidate)
    requires NoLater(a, b) && NoLater(b, c)
    ensures NoLater(a, c)
  {
    hide Leq;
    StringOrder();
    assert a.taskId != b.taskId && b.taskId != c.taskId && a.taskId == c.taskId ==>
      !(Leq(a.taskId, b.taskId) && Leq(b.taskId, c.taskId));
  }

  // ------------------------------------------------------------ deduplication

  /** The map after going through `cs`: a candidate replaces the one held for
      its task only if it is strictly newer. */
  function Winners(cs: seq<Candidate>): map<string, Candidate> {
    if cs == [] then map[]
    else
      var c := cs[|cs| - 1];
      var m := Winners(cs[..|cs| - 1]);
      if c.taskId !in m || Newer(c, m[c.taskId]) then m[c.taskId := c] else m
  }

  ghost predicate NewestOf(cs: seq<Candidate>, c: Candidate) {
    c in cs && forall d :: d in cs && d.taskId == c.taskId ==> NoLater(c, d)
  }

  lemma {:induction false} WinnersMeaning(cs: seq<Candidate>)
    ensures forall c :: c in cs ==> c.taskId in Winners(cs)
    ensures forall t :: t in Winners(cs) ==> Winners(cs)[t].taskId == t && NewestOf(cs, Winners(cs)[t])
  {
    hide NoLater;
    NoLaterOrder();
    if cs == [] {
    } else {
      var n := |cs| - 1;
      var before := cs[..n];
      WinnersMeaning(before);
      assert cs == before + [cs[n]];
      assert forall c :: c in cs <==> c in before || c == cs[n];
    }
  }

  ghost function Output(cs: seq<Candidate>): seq<Candidate> {
    Sort(Values(Winners(cs)), NoLater)
  }

  /** A map's values in key order. */
  ghost function Values(m: map<string, Candidate>): seq<Candidate> {
    var keys := SortedKeys(m.Keys);
    SortedKeysMeaning(m.Keys);
    seq(|keys|, i requires 0 <= i < |keys| => assert keys[i] in keys; m[keys[i]])
  }

  lemma ValueAt(m: map<string, Candidate>, i: nat)
    requires i < |SortedKeys(m.Keys)|
    ensures |Values(m)| == |SortedKeys(m.Keys)| && SortedKeys(m.Keys)[i] in m
    ensures Values(m)[i] == m[SortedKeys(m.Keys)[i]]
  {
    SortedKeysMeaning(m.Keys);
    assert SortedKeys(m.Keys)[i] in SortedKeys(m.Keys);
  }

  lemma ValuesMeaning(m: map<string, Candidate>)
    requires forall t :: t in m ==> m[t].taskId == t
    ensures forall c :: c in Values(m) <==> c.taskId in m && m[c.taskId] == c
    ensures forall i, j :: 0 <= i < j < |Values(m)| ==> Values(m)[i].taskId != Values(m)[j].taskId
  {
    hide Leq, SortedKeys, Values;
    SortedKeysMeaning(m.Keys);
    var keys, vs := SortedKeys(m.Keys), Values(m);
    SameLength(m);
    forall i | 0 <= i < |vs| ensures keys[i] in m && vs[i] == m[keys[i]] {
      ValueAt(m, i);
    }
    forall c: Candidate | c.taskId in m && m[c.taskId] == c ensures c in vs {
      var i :| 0 <= i < |keys| && keys[i] == c.taskId;
      assert vs[i] == c;
    }
  }

  lemma SameLength(m: map<string, Candidate>)
    ensures |Values(m)| == |SortedKeys(m.Keys)|
  {
  }

  /** What the listing promises: sorted, one entry for each task, each entry
      the newest of its task's candidates. */
  ghost predicate Deduplicated(cs: seq<Candidate>, out: seq<Candidate>) {
    && Sorted(out, NoLater)
    && (forall i, j :: 0 <= i < j < |out| ==> out[i].taskId != out[j].taskId)
    && (forall c :: c in out ==> NewestOf(cs, c))
    && (forall d :: d in cs ==> exists c :: c in out && c.taskId == d.taskId)
  }

  lemma OutputDeduplicated(cs: seq<Candidate>)
    ensures Deduplicated(cs, Output(cs))
    ensures forall c :: c in Output(cs) <==> c.taskId in Winners(cs) && Winners(cs)[c.taskId] == c
  {
    hide NoLater, Values, Winners, NewestOf;
    WinnersMeaning(cs);
    var m := Winners(cs);
    ValuesMeaning(m);
    NoLaterOrder();
    SortSorted(Values(m), NoLater);
    TaskIdsDistinct(Values(m), Output(cs));
    forall d | d in cs ensures exists c :: c in Output(cs) && c.taskId == d.taskId {
      assert m[d.taskId] in Output(cs);
    }
  }

  lemma TaskIdsDistinct(xs: seq<Candidate>, ys: seq<Candidate>)
    requires multiset(xs) == multiset(ys)
    requires forall i, j :: 0 <= i < j < |xs| ==> xs[i].taskId != xs[j].taskId
    ensures forall i, j :: 0 <= i < j < |ys| ==> ys[i].taskId != ys[j].taskId
  {
    SameElements(xs, ys);
    assert Distinct(xs);
    SameDistinct(xs, ys);
    forall i, j | 0 <= i < j < |ys| ensures ys[i].taskId != ys[j].taskId {
      assert ys[i] in xs && ys[j] in xs && ys[i] != ys[j];
    }
  }

  // ------------------------------------------------------- order independence

  /** Two different candidates of one task are both its newest. */
  ghost predicate NewestTie(cs: seq<Candidate>, c: Candidate, d: Candidate) {
    c != d && c.taskId == d.taskId && NewestOf(cs, c) && NewestOf(cs, d)
  }

  ghost predicate Untied(cs: seq<Candidate>) {
    forall c, d :: c in cs && d in cs ==> !NewestTie(cs, c, d)
  }

  ghost predicate DistinctOwners(cs: seq<Candidate>) {
    forall i, j :: 0 <= i < j < |cs| ==> cs[i].ownerId != cs[j].ownerId
  }

  lemma DistinctOwnersUntied(cs: seq<Candidate>)
    requires DistinctOwners(cs)
    ensures Untied(cs)
  {
    forall c, d | c in cs && d in cs ensures !NewestTie(cs, c, d) {
      StringOrder();
      assert NewestTie(cs, c, d) ==> NoLater(c, d) && NoLater(d, c);
      assert c != d ==> c.ownerId != d.ownerId;
    }
  }

  lemma NewestOfPermuted(cs: seq<Candidate>, ds: seq<Candidate>, c: Candidate)
    requires multiset(cs) == multiset(ds)
    ensures NewestOf(cs, c) <==> NewestOf(ds, c)
  {
    SameElements(cs, ds);
  }

  /** Without a tie for newest there is one possible listing. */
  lemma UntiedUnique(cs: seq<Candidate>, ds: seq<Candidate>, a: seq<Candidate>, b: seq<Candidate>)
    requires multiset(cs) == multiset(ds) && Untied(cs)
    requires Deduplicated(cs, a) && Deduplicated(ds, b)
    ensures a == b
  {
    hide NoLater, Deduplicated, Untied;
    NewestTiePermuted(cs, ds);
    forall c ensures c in a <==> c in b {
      ListedElsewhere(cs, ds, a, b, c);
      ListedElsewhere(ds, cs, b, a, c);
    }
    EntriesInOrder(cs, a);
    EntriesInOrder(ds, b);
    StrictlySortedUnique(a, b, NoLater);
  }

  lemma EntriesInOrder(cs: seq<Candidate>, a: seq<Candidate>)
    requires Deduplicated(cs, a)
    ensures Sorted(a, NoLater) && Distinct(a)
    ensures forall x, y :: x in a && y in a && NoLater(x, y) && NoLater(y, x) ==> x == y
  {
    hide NoLater, NewestOf;
    forall x, y | x in a && y in a && NoLater(x, y) && NoLater(y, x) ensures x == y {
      SameTask(x, y);
    }
  }

  lemma EntryFor(ds: seq<Candidate>, b: seq<Candidate>, d: Candidate) returns (e: Candidate)
    requires Deduplicated(ds, b) && d in ds
    ensures e in b && e.taskId == d.taskId && NewestOf(ds, e)
  {
    hide NoLater, Sorted, NewestOf;
    e :| e in b && e.taskId == d.taskId;
  }

  lemma EntryIsNewest(cs: seq<Candidate>, a: seq<Candidate>, c: Candidate)
    requires Deduplicated(cs, a) && c in a
    ensures NewestOf(cs, c) && c in cs
  {
  }

  lemma SameTask(x: Candidate, y: Candidate)
    requires NoLater(x, y) && NoLater(y, x)
    ensures x.taskId == y.taskId
  {
    StringOrder();
  }

  lemma NewestTiePermuted(cs: seq<Candidate>, ds: seq<Candidate>)
    requires multiset(cs) == multiset(ds) && Untied(cs)
    ensures Untied(ds)
  {
    hide NewestOf;
    SameElements(cs, ds);
    forall c, d | c in ds && d in ds ensures !NewestTie(ds, c, d) {
      NewestOfPermuted(cs, ds, c);
      NewestOfPermuted(cs, ds, d);
    }
  }

  lemma ListedElsewhere(cs: seq<Candidate>, ds: seq<Candidate>, a: seq<Candidate>, b: seq<Candidate>, c: Candidate)
    requires multiset(cs) == multiset(ds) && Untied(cs)
    requires Deduplicated(cs, a) && Deduplicated(ds, b)
    ensures c in a ==> c in b
  {
    hide NoLater, Deduplicated, NewestOf, Sorted;
    if c in a {
      EntryIsNewest(cs, a, c);
      SameElements(cs, ds);
      var e := EntryFor(ds, b, c);
      NewestOfPermuted(cs, ds, e);
      EntryIsNewest(ds, b, e);
      assert !NewestTie(cs, c, e);
    }
  }

  /** Moving a newest candidate to the front makes it the winner. */
  lemma {:induction false} FrontWins(c: Candidate, rest: seq<Candidate>)
    requires NewestOf([c] + rest, c)
    ensures c.taskId in Winners([c] + rest) && Winners([c] + rest)[c.taskId] == c
    decreases |rest|
  {
    hide NoLater;
    NoLaterOrder();
    var all := [c] + rest;
    var n := |all| - 1;
    if rest == [] {
      assert all[..n] == [] && all[n] == c;
    } else {
      var before := rest[..|rest| - 1];
      assert all[..n] == [c] + before && all[n] == rest[|rest| - 1];
      assert forall d :: d in [c] + before ==> d in all;
      assert all[n] in all;
      FrontWins(c, before);
    }
  }

  lemma ToFront(cs: seq<Candidate>, c: Candidate) returns (rest: seq<Candidate>)
    requires c in cs
    ensures multiset([c] + rest) == multiset(cs)
  {
    var i :| 0 <= i < |cs| && cs[i] == c;
    rest := cs[..i] + cs[i + 1..];
    assert cs == cs[..i] + [c] + cs[i + 1..];
  }

  /** The listing does not depend on the order of the sessions. */
  ghost predicate OrderIndependent(cs: seq<Candidate>) {
    forall ds :: multiset(ds) == multiset(cs) ==> Output(ds) == Output(cs)
  }

  lemma TieShows(cs: seq<Candidate>, c: Candidate, d: Candidate)
    requires c in cs && d in cs && NewestTie(cs, c, d)
    ensures !OrderIndependent(cs)
  {
    hide NewestOf, Output, Winners;
    var rc := ToFront(cs, c);
    var rd := ToFront(cs, d);
    NewestOfPermuted(cs, [c] + rc, c);
    NewestOfPermuted(cs, [d] + rd, d);
    FrontWins(c, rc);
    FrontWins(d, rd);
    OutputDeduplicated([c] + rc);
    OutputDeduplicated([d] + rd);
    assert c in Output([c] + rc) && c !in Output([d] + rd);
  }

  /** The listing is the same for every order of the input sessions exactly
      when no two different candidates tie for the newest of a task; distinct
      owner ids are enough for that. */
  lemma OrderIndependence(cs: seq<Candidate>)
    ensures OrderIndependent(cs) <==> Untied(cs)
    ensures DistinctOwners(cs) ==> OrderIndependent(cs)
  {
    hide NewestTie, NewestOf, Output, Deduplicated;
    if DistinctOwners(cs) {
      DistinctOwnersUntied(cs);
    }
    if Untied(cs) {
      forall ds | multiset(ds) == multiset(cs) ensures Output(ds) == Output(cs) {
        OutputDeduplicated(cs);
        OutputDeduplicated(ds);
        UntiedUnique(cs, ds, Output(cs), Output(ds));
      }
    } else {
      var c, d :| c in cs && d in cs && NewestTie(cs, c, d);
      TieShows(cs, c, d);
    }
  }

  // ---------------------------------------------------------------- the method

  /** The candidates the sessions gave, in session order. */
  function Candidates(sessions: seq<Built>): seq<Candidate> {
    if sessions == [] then []
    else
      var last := sessions[|sessions| - 1];
      Candidates(sessions[..|sessions| - 1]) + (if last.Found? then [last.candidate] else [])
  }

  ghost predicate FirstFailure(sessions: seq<Built>, i: int, error: string) {
    0 <= i < |sessions| && sessions[i] == Failed(error) && forall j :: 0 <= j < i ==> !sessions[j].Failed?
  }

  lemma CandidatesStep(sessions: seq<Built>, i: nat)
    requires i < |sessions|
    ensures Candidates(sessions[..i + 1]) ==
      if sessions[i].Found? then Candidates(sessions[..i]) + [sessions[i].candidate] else Candidates(sessions[..i])
  {
    assert sessions[..i + 1][..i] == sessions[..i];
  }

  lemma WinnersStep(cs: seq<Candidate>, c: Candidate)
    ensures Winners(cs + [c]) ==
      if c.taskId !in Winners(cs) || Newer(c, Winners(cs)[c.taskId]) then Winners(cs)[c.taskId := c] else Winners(cs)
  {
    assert (cs + [c])[..|cs|] == cs;
  }

  lemma {:induction false} CandidatesMeaning(sessions: seq<Built>, d: Candidate)
    ensures d in Candidates(sessions) <==> Found(d) in sessions
  {
    if sessions == [] {
    } else {
      var n := |sessions| - 1;
      CandidatesMeaning(sessions[..n], d);
      assert sessions == sessions[..n] + [sessions[n]];
    }
  }

  ghost predicate Listed(out: seq<Candidate>, taskId: string) {
    exists c :: c in out && c.taskId == taskId
  }

  /** The listing in terms of sessions, times and names: of each task the candidate
      updated last, of those updated together the one whose owner comes first;
      tasks updated last come first, those updated together by name. */
  lemma NewestFirst(sessions: seq<Built>, out: seq<Candidate>)
    requires Deduplicated(Candidates(sessions), out)
    ensures forall c :: c in out ==> Found(c) in sessions
    ensures forall d :: Found(d) in sessions ==> Listed(out, d.taskId)
    ensures forall c, d :: c in out && Found(d) in sessions && d.taskId == c.taskId ==>
      c.updatedAt > d.updatedAt || (c.updatedAt == d.updatedAt && Leq(c.ownerId, d.ownerId))
    ensures forall i, j :: 0 <= i < j < |out| ==>
      && out[i].taskId != out[j].taskId && out[i].updatedAt >= out[j].updatedAt
      && (out[i].updatedAt == out[j].updatedAt ==> Leq(out[i].taskId, out[j].taskId))
  {
    hide Leq, Candidates, NoLater;
    forall d ensures d in Candidates(sessions) <==> Found(d) in sessions {
      CandidatesMeaning(sessions, d);
    }
    NoLaterMeaning();
  }

  lemma NoLaterMeaning()
    ensures forall a, b :: NoLater(a, b) ==>
      && a.updatedAt >= b.updatedAt
      && (a.updatedAt == b.updatedAt && a.taskId != b.taskId ==> Leq(a.taskId, b.taskId))
      && (a.updatedAt == b.updatedAt && a.taskId == b.taskId ==> Leq(a.ownerId, b.ownerId))
  {
    hide Leq;
  }

  method LoadBackgroundTaskCandidates(sessions: seq<Built>) returns (r: Result<seq<Candidate>, string>)
    ensures r.Err? <==> exists i :: 0 <= i < |sessions| && sessions[i].Failed?
    ensures r.Err? ==> exists i :: FirstFailure(sessions, i, r.error)
    ensures r.Ok? ==> r.value == Output(Candidates(sessions)) && Deduplicated(Candidates(sessions), r.value)
    ensures r.Ok? ==>
      && (forall c :: c in r.value ==> Found(c) in sessions)
      && (forall d :: Found(d) in sessions ==> Listed(r.value, d.taskId))
      && (forall c, d :: c in r.value && Found(d) in sessions && d.taskId == c.taskId ==>
            c.updatedAt > d.updatedAt || (c.updatedAt == d.updatedAt && Leq(c.ownerId, d.ownerId)))
      && (forall i, j :: 0 <= i < j < |r.value| ==>
            && r.value[i].taskId != r.value[j].taskId && r.value[i].updatedAt >= r.value[j].updatedAt
            && (r.value[i].updatedAt == r.value[j].updatedAt ==> Leq(r.value[i].taskId, r.value[j].taskId)))
  {
    hide NoLater, Deduplicated, Output, Leq, Winners, Candidates, Newer;
    EmptyStart();
    assert sessions[..0] == [];
    var byId: map<string, Candidate> := map[];
    for i := 0 to |sessions|
      invariant forall j :: 0 <= j < i ==> !sessions[j].Failed?
      invariant byId == Winners(Candidates(sessions[..i]))
    {
      CandidatesStep(sessions, i);
      match sessions[i] {
        case Skipped =>
        case Failed(error) =>
          assert FirstFailure(sessions, i, error);
          return Err(error);
        case Found(candidate) =>
          WinnersStep(Candidates(sessions[..i]), candidate);
          if candidate.taskId !in byId || Newer(candidate, byId[candidate.taskId]) {
            byId := byId[candidate.taskId := candidate];
          }
      }
    }
    assert sessions[..|sessions|] == sessions;
    var listed := IntoValues(byId);
    OutputDeduplicated(Candidates(sessions));
    OutputIs(Candidates(sessions));
    NewestFirst(sessions, Output(Candidates(sessions)));
    r := Ok(Sort(listed, NoLater));
  }

  lemma EmptyStart()
    ensures Winners(Candidates([])) == map[]
  {
  }

  lemma OutputIs(cs: seq<Candidate>)
    ensures Output(cs) == Sort(Values(Winners(cs)), NoLater)
  {
  }

  method IntoValues(m: map<string, Candidate>) returns (vs: seq<Candidate>)
    ensures vs == Values(m)
  {
    hide Values, SortedKeys, Leq;
    var keys := KeysInOrder(m.Keys);
    vs := [];
    SameLength(m);
    for i := 0 to |keys|
      invariant vs == Values(m)[..i]
    {
      ValueAt(m, i);
      vs := vs + [m[keys[i]]];
    }
  }
}
