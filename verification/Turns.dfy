/** `ControlPlaneTurnRegistry` of crates/app/src/control_plane.rs: a bounded
    event window per turn, terminal turns that refuse further events, paging
    by cursor, and pruning of the oldest terminal turns. */
module Turns {
  import opened Text
  import opened Results
  import opened Ordering
  import opened Sequences
  import opened Retention

  const TERMINAL_RETENTION: nat := 256

  datatype Status = Running | Completed | Failed | Cancelled

  predicate IsTerminal(s: Status) {
    s != Running
  }

  datatype Payload =
    | RuntimeEvent(value: string)
    | TurnCompleted(outputText: string, stopReason: Option<string>, usage: Option<string>)
    | TurnFailed(error: string)

  datatype Event = Event(turnId: string, sessionId: string, number: nat, terminal: bool, payload: Payload)

  datatype Snapshot = Snapshot(
    turnId: string, sessionId: string, status: Status,
    submittedAt: nat, completedAt: Option<nat>, eventCount: nat,
    outputText: Option<string>, stopReason: Option<string>, usage: Option<string>, error: Option<string>)

  datatype Record = Record(snapshot: Snapshot, recent: seq<Event>, nextNumber: nat)

  datatype TurnError = NotFound(turnId: string) | AlreadyTerminal(turnId: string)

  // -------------------------------------------------------------- event window

  /** Events are numbered from one without gaps, belong to the turn, and only
      the last one may be terminal. */
  ghost predicate LogOk(snapshot: Snapshot, log: seq<Event>) {
    forall i :: 0 <= i < |log| ==>
      && log[i].number == i + 1
      && log[i].turnId == snapshot.turnId && log[i].sessionId == snapshot.sessionId
      && (log[i].terminal ==> i == |log| - 1)
  }

  ghost predicate RecordOk(record: Record, log: seq<Event>) {
    && LogOk(record.snapshot, log)
    && record.recent == Window(log)
    && record.nextNumber == |log| + 1
    && record.snapshot.eventCount == |log|
    && (IsTerminal(record.snapshot.status) <==> log != [] && log[|log| - 1].terminal)
    && (record.snapshot.completedAt.Some? <==> IsTerminal(record.snapshot.status))
  }

  function NextEvent(record: Record, terminal: bool, payload: Payload): Event {
    Event(record.snapshot.turnId, record.snapshot.sessionId, record.nextNumber, terminal, payload)
  }

  function Pushed(record: Record, event: Event): Record {
    record.(
      snapshot := record.snapshot.(eventCount := record.snapshot.eventCount + 1),
      recent := Window(record.recent + [event]),
      nextNumber := record.nextNumber + 1)
  }

  /** `push_event_locked` */
  method PushEventLocked(record: Record, terminal: bool, payload: Payload) returns (updated: Record, event: Event)
    ensures event == NextEvent(record, terminal, payload)
    ensures updated == Pushed(record, event)
  {
    event := NextEvent(record, terminal, payload);
    var recent := record.recent + [event];
    ghost var all := recent;
    while |recent| > EVENT_LIMIT
      invariant |recent| <= |all| && recent == all[|all| - |recent|..]
      invariant |all| > EVENT_LIMIT ==> |recent| >= EVENT_LIMIT
      invariant |all| <= EVENT_LIMIT ==> recent == all
    {
      recent := recent[1..];
    }
    updated := record.(
      snapshot := record.snapshot.(eventCount := record.snapshot.eventCount + 1),
      recent := recent,
      nextNumber := record.nextNumber + 1);
  }

  /** Pushing keeps a record in step with its full log. */
  lemma PushedOk(record: Record, log: seq<Event>, event: Event)
    requires RecordOk(record, log) && !IsTerminal(record.snapshot.status)
    requires event == NextEvent(record, event.terminal, event.payload)
    ensures LogOk(record.snapshot, log + [event])
    ensures Pushed(record, event).recent == Window(log + [event])
    ensures Pushed(record, event).nextNumber == |log + [event]| + 1
    ensures Pushed(record, event).snapshot.eventCount == |log + [event]|
    ensures !event.terminal ==> RecordOk(Pushed(record, event), log + [event])
  {
    WindowSnoc(log, event);
  }

  // -------------------------------------------------------------------- paging

  /** The first `n` events numbered above `after`. */
  function Page(events: seq<Event>, after: nat, n: nat): seq<Event> {
    if events == [] || n == 0 then []
    else if events[0].number > after then [events[0]] + Page(events[1..], after, n - 1)
    else Page(events[1..], after, n)
  }

  ghost predicate Numbered(events: seq<Event>, from: nat) {
    forall i :: 0 <= i < |events| ==> events[i].number == from + i
  }

  lemma {:induction false} PageTake(events: seq<Event>, after: nat, n: nat)
    requires forall i :: 0 <= i < |events| ==> events[i].number > after
    ensures Page(events, after, n) == events[..Least(n, |events|)]
  {
    if events == [] || n == 0 {
    } else {
      PageTake(events[1..], after, n - 1);
    }
  }

  lemma {:induction false} PageSkip(events: seq<Event>, k: nat, after: nat, n: nat)
    requires k <= |events| && forall i :: 0 <= i < k ==> events[i].number <= after
    ensures Page(events, after, n) == Page(events[k..], after, n)
  {
    if k > 0 {
      PageSkip(events[1..], k - 1, after, n);
      assert events[1..][k - 1..] == events[k..];
    } else {
      assert events[0..] == events;
    }
  }

  /** How many of the events numbered from `from` a cursor has passed. */
  function Passed(count: nat, from: nat, after: nat): (a: nat)
    ensures a <= count
  {
    if after < from then 0 else Least(after - from + 1, count)
  }

  /** A page of consecutively numbered events is a slice of them. */
  lemma PageOfRun(events: seq<Event>, from: nat, after: nat, n: nat)
    requires Numbered(events, from)
    ensures var a := Passed(|events|, from, after);
      Page(events, after, n) == events[a..][..Least(n, |events| - a)]
  {
    var a := Passed(|events|, from, after);
    PageSkip(events, a, after, n);
    PageTake(events[a..], after, n);
  }

  /** Where a cursor starts reading in a full log of length `total`: at the
      cursor, unless it has fallen out of the window or is beyond the end. */
  function ReadStart(total: nat, cursor: nat): nat {
    if total > cursor + EVENT_LIMIT then total - EVENT_LIMIT else Least(cursor, total)
  }

  /** A page taken from the window is a contiguous slice of the full log; it is
      empty for a cursor at or beyond the newest event. */
  lemma PageOfWindow(snapshot: Snapshot, log: seq<Event>, cursor: nat, n: nat)
    requires LogOk(snapshot, log)
    ensures var start := ReadStart(|log|, cursor);
      Page(Window(log), cursor, n) == log[start..][..Least(n, |log| - start)]
  {
    NumberedWindow(snapshot, log);
    StartInWindow(log, cursor);
    hide *;
    var lost := Lost(log);
    PageOfRun(log[lost..], lost + 1, cursor, n);
    DropDrop(log, lost, Passed(|log| - lost, lost + 1, cursor));
  }

  lemma StartInWindow(log: seq<Event>, cursor: nat)
    ensures Lost(log) + Passed(|log| - Lost(log), Lost(log) + 1, cursor) == ReadStart(|log|, cursor)
  {
  }

  lemma NumberedWindow(snapshot: Snapshot, log: seq<Event>)
    requires LogOk(snapshot, log)
    ensures Window(log) == log[Lost(log)..] && Numbered(log[Lost(log)..], Lost(log) + 1)
  {
  }

  // ------------------------------------------------------ a reader and its log

  datatype Step = Push(terminal: bool, payload: Payload) | Poll(limit: nat)

  /** One turn, everything ever pushed to it, and a reader that moves its
      cursor to the number of the last event it was given. */
  datatype Reading = Reading(record: Record, log: seq<Event>, cursor: nat, seen: seq<Event>)

  function Fresh(turnId: string, sessionId: string, now: nat): Record {
    Record(Snapshot(turnId, sessionId, Running, now, None, 0, None, None, None, None), [], 1)
  }

  function PushStep(r: Reading, terminal: bool, payload: Payload): Reading {
    if IsTerminal(r.record.snapshot.status) then r
    else
      var event := NextEvent(r.record, terminal, payload);
      var finished := if terminal
        then r.record.(snapshot := r.record.snapshot.(status := Completed, completedAt := Some(0)))
        else r.record;
      r.(record := Pushed(finished, event), log := r.log + [event])
  }

  function PollStep(r: Reading, limit: nat): Reading {
    var page := Page(r.record.recent, r.cursor, Clamp(limit, 1, EVENT_LIMIT));
    if page == [] then r
    else r.(cursor := page[|page| - 1].number, seen := r.seen + page)
  }

  function Take(r: Reading, step: Step): Reading {
    match step
    case Push(terminal, payload) => PushStep(r, terminal, payload)
    case Poll(limit) => PollStep(r, limit)
  }

  function Run(r: Reading, steps: seq<Step>): Reading
    decreases |steps|
  {
    if steps == [] then r else Run(Take(r, steps[0]), steps[1..])
  }

  /** Whenever the reader polls, at most 256 events are waiting for it. */
  ghost predicate KeepsUp(r: Reading, steps: seq<Step>)
    decreases |steps|
  {
    steps == [] || (
      && (steps[0].Poll? ==> |r.log| <= r.cursor + EVENT_LIMIT)
      && KeepsUp(Take(r, steps[0]), steps[1..]))
  }

  ghost predicate ReadingOk(r: Reading) {
    RecordOk(r.record, r.log) && r.cursor <= |r.log|
  }

  ghost predicate InStep(r: Reading) {
    r.cursor == |r.seen| && r.seen <= r.log
  }

  /** An event was seen at a position other than its own. */
  ghost predicate HasGap(r: Reading) {
    exists i :: 0 <= i < |r.seen| && r.seen[i].number != i + 1
  }

  lemma PushKeeps(r: Reading, terminal: bool, payload: Payload)
    requires ReadingOk(r)
    ensures var r' := PushStep(r, terminal, payload);
      && ReadingOk(r') && r'.seen == r.seen && r'.cursor == r.cursor
      && r'.log == if IsTerminal(r.record.snapshot.status) then r.log
                   else r.log + [Event(r.record.snapshot.turnId, r.record.snapshot.sessionId, |r.log| + 1, terminal, payload)]
  {
    if !IsTerminal(r.record.snapshot.status) {
      WindowSnoc(r.log, NextEvent(r.record, terminal, payload));
    }
  }

  function PollStart(r: Reading): nat {
    ReadStart(|r.log|, r.cursor)
  }

  lemma PollPage(r: Reading, limit: nat) returns (page: seq<Event>)
    requires ReadingOk(r)
    ensures page == Page(r.record.recent, r.cursor, Clamp(limit, 1, EVENT_LIMIT))
    ensures |page| <= |r.log| - PollStart(r) && page == r.log[PollStart(r)..][..|page|]
    ensures page == [] <==> PollStart(r) == |r.log|
    ensures forall i :: 0 <= i < |page| ==> page[i].number == PollStart(r) + i + 1
  {
    page := Page(r.record.recent, r.cursor, Clamp(limit, 1, EVENT_LIMIT));
    PageOfWindow(r.record.snapshot, r.log, r.cursor, Clamp(limit, 1, EVENT_LIMIT));
    hide Page, Window, Clamp;
    assert forall i :: 0 <= i < |page| ==> page[i] == r.log[PollStart(r) + i];
  }

  lemma PollKeeps(r: Reading, limit: nat)
    requires ReadingOk(r)
    ensures var r' := PollStep(r, limit);
      && ReadingOk(r') && r'.log == r.log && r'.record == r.record
      && r.seen <= r'.seen
      && (InStep(r) && |r.log| <= r.cursor + EVENT_LIMIT ==> InStep(r'))
      && (InStep(r) && |r.log| > r.cursor + EVENT_LIMIT ==> HasGap(r'))
  {
    var page := PollPage(r, limit);
    hide RecordOk, Page, Window, Clamp;
    var r' := PollStep(r, limit);
    if page != [] {
      assert r'.seen[|r.seen|] == page[0];
      assert r'.cursor == PollStart(r) + |page|;
    }
  }

  /** For every interleaving of pushes and polls, what the reader has seen is
      a gap-free, duplicate-free prefix of the turn's log exactly when it
      never fell more than 256 events behind at a poll. */
  lemma {:induction false} ReaderSeesPrefix(r: Reading, steps: seq<Step>)
    requires ReadingOk(r) && InStep(r)
    ensures var end := Run(r, steps);
      && ReadingOk(end)
      && (end.seen <= end.log <==> KeepsUp(r, steps))
      && (KeepsUp(r, steps) ==> end.cursor == |end.seen|)
    decreases |steps|
  {
    hide RecordOk, PushStep, PollStep, LogOk, Page, Window;
    if steps == [] {
    } else {
      var r' := Take(r, steps[0]);
      match steps[0] {
        case Push(terminal, payload) => PushKeeps(r, terminal, payload);
        case Poll(limit) => PollKeeps(r, limit);
      }
      if steps[0].Poll? && |r.log| > r.cursor + EVENT_LIMIT {
        GapStays(r', steps[1..]);
      } else {
        ReaderSeesPrefix(r', steps[1..]);
      }
    }
  }

  lemma {:induction false} GapStays(r: Reading, steps: seq<Step>)
    requires ReadingOk(r) && HasGap(r)
    ensures ReadingOk(Run(r, steps)) && HasGap(Run(r, steps))
    ensures !(Run(r, steps).seen <= Run(r, steps).log)
    decreases |steps|
  {
    var i :| 0 <= i < |r.seen| && r.seen[i].number != i + 1;
    hide RecordOk, PushStep, PollStep, LogOk, Page, Window;
    if steps == [] {
    } else {
      var r' := Take(r, steps[0]);
      match steps[0] {
        case Push(terminal, payload) => PushKeeps(r, terminal, payload);
        case Poll(limit) => PollKeeps(r, limit);
      }
      assert r'.seen[i] == r.seen[i];
      GapStays(r', steps[1..]);
    }
  }

  // ------------------------------------------------------------------- pruning

  datatype Candidate = Candidate(completedAt: nat, submittedAt: nat, turnId: string)

  function CandidateOf(id: string, record: Record): Candidate {
    var s := record.snapshot;
    Candidate(if s.completedAt.Some? then s.completedAt.value else s.submittedAt, s.submittedAt, id)
  }

  predicate Earlier(a: Candidate, b: Candidate) {
    || a.completedAt < b.completedAt
    || (a.completedAt == b.completedAt && a.submittedAt < b.submittedAt)
    || (a.completedAt == b.completedAt && a.submittedAt == b.submittedAt && Leq(a.turnId, b.turnId))
  }

  lemma EarlierOrder()
    ensures TotalPreorder(Earlier) && Antisymmetric(Earlier)
  {
    forall a, b ensures Earlier(a, b) || Earlier(b, a) {
      LeqTotal(a.turnId, b.turnId);
    }
    forall a, b, c | Earlier(a, b) && Earlier(b, c) ensures Earlier(a, c) {
      if Leq(a.turnId, b.turnId) && Leq(b.turnId, c.turnId) {
        LeqTransitive(a.turnId, b.turnId, c.turnId);
      }
    }
    forall a, b | Earlier(a, b) && Earlier(b, a) ensures a == b {
      if Leq(a.turnId, b.turnId) && Leq(b.turnId, a.turnId) {
        LeqAntisymmetric(a.turnId, b.turnId);
      }
    }
  }

  type Turns = map<string, Record>

  function TerminalIds(turns: Turns): set<string> {
    set id | id in turns && IsTerminal(turns[id].snapshot.status)
  }

  /** `a` comes strictly before `b` in (completed, submitted, id) order. */
  ghost predicate Precedes(turns: Turns, a: string, b: string)
    requires a in turns && b in turns
  {
    a != b && Earlier(CandidateOf(a, turns[a]), CandidateOf(b, turns[b]))
  }

  ghost function LaterTerminals(turns: Turns, id: string): set<string>
    requires id in turns
  {
    set t | t in TerminalIds(turns) && Precedes(turns, id, t)
  }

  /** What pruning promises: running turns stay, at most 256 terminal turns
      stay and no fewer than necessary, and every turn that goes precedes every
      terminal turn that stays. */
  ghost predicate Pruned(before: Turns, after: Turns) {
    && after.Keys <= before.Keys
    && (forall id :: id in after ==> after[id] == before[id])
    && (forall id :: id in before && id !in after ==> id in TerminalIds(before))
    && |TerminalIds(after)| ==
         (if |TerminalIds(before)| <= TERMINAL_RETENTION then |TerminalIds(before)| else TERMINAL_RETENTION)
    && (forall gone, kept :: gone in before && gone !in after && kept in TerminalIds(after) ==>
          Precedes(before, gone, kept))
  }

  /** In terms of the snapshots: a turn that goes completed no later than one that
      stays; completed together, it was submitted no later; submitted together,
      its id comes first. */
  lemma OldestGo(before: Turns, after: Turns, gone: string, kept: string)
    requires Pruned(before, after)
    requires gone in before && gone !in after && kept in after && after[kept].snapshot.status != Running
    requires before[gone].snapshot.completedAt.Some? && after[kept].snapshot.completedAt.Some?
    ensures before[gone].snapshot.status != Running
    ensures var g, k := before[gone].snapshot, after[kept].snapshot;
      && g.completedAt.value <= k.completedAt.value
      && (g.completedAt == k.completedAt ==> g.submittedAt <= k.submittedAt)
      && (g.completedAt == k.completedAt && g.submittedAt == k.submittedAt ==> Leq(gone, kept))
  {
    assert kept in TerminalIds(after);
    assert Precedes(before, gone, kept);
  }

  /** A terminal turn survives exactly when fewer than 256 terminal turns come
      after it: the survivors are the latest ones. */
  lemma SurvivorsAreLatest(before: Turns, after: Turns, id: string)
    requires Pruned(before, after) && id in TerminalIds(before)
    ensures id in after <==> |LaterTerminals(before, id)| < TERMINAL_RETENTION
  {
    var later := LaterTerminals(before, id);
    EarlierOrder();
    if id in after {
      forall t | t in later ensures t in TerminalIds(after) {
        assert t !in after ==> Precedes(before, t, id);
      }
      SubsetSize(later + {id}, TerminalIds(after));
      assert |later + {id}| == |later| + 1;
    } else {
      forall k | k in TerminalIds(after) ensures k in later {
        assert Precedes(before, id, k);
      }
      SubsetSize(TerminalIds(after), later);
      SubsetSize(TerminalIds(after) + {id}, TerminalIds(before));
    }
  }

  /** So pruning has one possible outcome. */
  lemma PrunedUnique(before: Turns, a: Turns, b: Turns)
    requires Pruned(before, a) && Pruned(before, b)
    ensures a == b
  {
    forall id | id in before ensures id in a <==> id in b {
      if id in TerminalIds(before) {
        SurvivorsAreLatest(before, a, id);
        SurvivorsAreLatest(before, b, id);
      }
    }
    assert a.Keys == b.Keys;
  }

  ghost predicate CandidatesOf(cs: seq<Candidate>, turns: Turns, ids: set<string>) {
    && ids <= turns.Keys
    && (forall i :: 0 <= i < |cs| ==> cs[i].turnId in ids && cs[i] == CandidateOf(cs[i].turnId, turns[cs[i].turnId]))
    && (forall i, j :: 0 <= i < j < |cs| ==> cs[i].turnId != cs[j].turnId)
    && |cs| == |ids|
  }

  ghost function IdsOf(cs: seq<Candidate>): set<string> {
    set i | 0 <= i < |cs| :: cs[i].turnId
  }

  lemma {:induction false} IdsSize(cs: seq<Candidate>)
    requires forall i, j :: 0 <= i < j < |cs| ==> cs[i].turnId != cs[j].turnId
    ensures |IdsOf(cs)| == |cs|
  {
    if cs == [] {
    } else {
      var last := |cs| - 1;
      IdsSize(cs[..last]);
      assert IdsOf(cs) == IdsOf(cs[..last]) + {cs[last].turnId};
    }
  }

  method CollectCandidates(turns: Turns) returns (cs: seq<Candidate>)
    ensures CandidatesOf(cs, turns, TerminalIds(turns))
  {
    hide CandidatesOf, CandidateOf, IsTerminal;
    cs := [];
    var todo := TerminalIds(turns);
    ghost var done: set<string> := {};
    NoCandidates(turns);
    while todo != {}
      invariant done + todo == TerminalIds(turns) && done !! todo
      invariant CandidatesOf(cs, turns, done)
      decreases |todo|
    {
      var id :| id in todo;
      OneMoreCandidate(cs, turns, done, id);
      cs := cs + [CandidateOf(id, turns[id])];
      todo, done := todo - {id}, done + {id};
    }
    assert done == TerminalIds(turns);
  }

  lemma NoCandidates(turns: Turns)
    ensures CandidatesOf([], turns, {})
  {
  }

  lemma OneMoreCandidate(cs: seq<Candidate>, turns: Turns, ids: set<string>, id: string)
    requires CandidatesOf(cs, turns, ids) && id in turns && id !in ids
    ensures CandidatesOf(cs + [CandidateOf(id, turns[id])], turns, ids + {id})
  {
    assert CandidateOf(id, turns[id]).turnId == id;
    hide CandidateOf;
    assert |ids + {id}| == |ids| + 1;
  }

  lemma SortedCandidates(cs: seq<Candidate>, turns: Turns, ids: set<string>)
    requires CandidatesOf(cs, turns, ids)
    ensures CandidatesOf(Sort(cs, Earlier), turns, ids)
    ensures Sorted(Sort(cs, Earlier), Earlier)
  {
    EarlierOrder();
    SortSorted(cs, Earlier);
    var ss := Sort(cs, Earlier);
    forall i | 0 <= i < |ss| ensures ss[i] in cs {
    }
    assert Distinct(cs);
    SameDistinct(cs, ss);
  }

  /** `prune_terminal_turns_locked` */
  method PruneTerminalTurns(turns: Turns) returns (kept: Turns)
    ensures Pruned(turns, kept)
  {
    hide CandidatesOf, Sorted, Pruned, Sort;
    var terminalCount := |TerminalIds(turns)|;
    if terminalCount <= TERMINAL_RETENTION {
      NothingPruned(turns);
      return turns;
    }
    var overflow := terminalCount - TERMINAL_RETENTION;
    var candidates := CollectCandidates(turns);
    SortedCandidates(candidates, turns, TerminalIds(turns));
    candidates := Sort(candidates, Earlier);
    CandidateCount(candidates, turns, TerminalIds(turns));
    kept := turns;
    for i := 0 to overflow
      invariant kept == turns - IdsOf(candidates[..i])
    {
      kept := kept - {candidates[i].turnId};
      assert IdsOf(candidates[..i + 1]) == IdsOf(candidates[..i]) + {candidates[i].turnId};
    }
    PrunedByPrefix(turns, candidates, overflow);
  }

  lemma NothingPruned(turns: Turns)
    requires |TerminalIds(turns)| <= TERMINAL_RETENTION
    ensures Pruned(turns, turns)
  {
  }

  lemma CandidateCount(cs: seq<Candidate>, turns: Turns, ids: set<string>)
    requires CandidatesOf(cs, turns, ids)
    ensures |cs| == |ids|
  {
  }

  lemma PrunedByPrefix(turns: Turns, cs: seq<Candidate>, overflow: nat)
    requires CandidatesOf(cs, turns, TerminalIds(turns)) && Sorted(cs, Earlier)
    requires |cs| == overflow + TERMINAL_RETENTION
    ensures Pruned(turns, turns - IdsOf(cs[..overflow]))
  {
    var gone := IdsOf(cs[..overflow]);
    GoneIds(turns, cs, overflow);
    var kept := turns - gone;
    hide CandidatesOf, Sorted;
    assert TerminalIds(kept) == TerminalIds(turns) - gone;
    assert |TerminalIds(kept)| == |TerminalIds(turns)| - |gone|;
    forall g, k | g in turns && g !in kept && k in TerminalIds(kept) ensures Precedes(turns, g, k) {
      GoneFirst(turns, cs, overflow, g, k);
    }
  }

  lemma GoneIds(turns: Turns, cs: seq<Candidate>, overflow: nat)
    requires CandidatesOf(cs, turns, TerminalIds(turns)) && overflow <= |cs|
    ensures IdsOf(cs) == TerminalIds(turns)
    ensures IdsOf(cs[..overflow]) <= TerminalIds(turns) && |IdsOf(cs[..overflow])| == overflow
  {
    IdsSize(cs);
    IdsSize(cs[..overflow]);
    SubsetSize(IdsOf(cs), TerminalIds(turns));
  }

  lemma GoneFirst(turns: Turns, cs: seq<Candidate>, overflow: nat, g: string, k: string)
    requires CandidatesOf(cs, turns, TerminalIds(turns)) && Sorted(cs, Earlier) && overflow <= |cs|
    requires g in IdsOf(cs[..overflow]) && k in TerminalIds(turns) && k !in IdsOf(cs[..overflow])
    ensures Precedes(turns, g, k)
  {
    GoneIds(turns, cs, overflow);
    var i :| 0 <= i < overflow && cs[..overflow][i].turnId == g;
    var j :| 0 <= j < |cs| && cs[j].turnId == k;
    assert forall n :: 0 <= n < overflow ==> cs[n].turnId in IdsOf(cs[..overflow]) by {
      forall n | 0 <= n < overflow ensures cs[n].turnId in IdsOf(cs[..overflow]) {
        assert cs[..overflow][n] == cs[n];
      }
    }
    assert Earlier(cs[i], cs[j]);
  }

  // ------------------------------------------------------------------ registry

  const TURN_PREFIX: string := "cpt-turn-"

  ghost predicate IssuedUpTo(ids: set<string>, nonce: nat) {
    forall id :: id in ids ==> exists n: nat, r: nat :: 1 <= n <= nonce && id == IssuedId(TURN_PREFIX, n, r)
  }

  lemma FreshTurnId(ids: set<string>, nonce: nat, random: nat)
    requires IssuedUpTo(ids, nonce)
    ensures IssuedId(TURN_PREFIX, nonce + 1, random) !in ids
    ensures IssuedUpTo(ids + {IssuedId(TURN_PREFIX, nonce + 1, random)}, nonce + 1)
  {
    var id := IssuedId(TURN_PREFIX, nonce + 1, random);
    if id in ids {
      var n: nat, r: nat :| 1 <= n <= nonce && id == IssuedId(TURN_PREFIX, n, r);
      IssuedIdFresh(TURN_PREFIX, nonce + 1, random, n, r);
    }
    forall x | x in ids + {id}
      ensures exists n: nat, r: nat :: 1 <= n <= nonce + 1 && x == IssuedId(TURN_PREFIX, n, r)
    {
      if x in ids {
        var n: nat, r: nat :| 1 <= n <= nonce && x == IssuedId(TURN_PREFIX, n, r);
      }
    }
  }

  function Finished(record: Record, status: Status, now: nat, payload: Payload): Record {
    var done := record.snapshot.(
      status := status,
      completedAt := Some(now),
      outputText := if payload.TurnCompleted? then Some(payload.outputText) else None,
      stopReason := if payload.TurnCompleted? then payload.stopReason else None,
      usage := if payload.TurnCompleted? then payload.usage else None,
      error := if payload.TurnFailed? then Some(payload.error) else None);
    Pushed(record.(snapshot := done), NextEvent(record, true, payload))
  }

  type Logs = map<string, seq<Event>>

  /** The registry invariant: every retained record is in step with its full
      log, and at most 256 terminal turns are retained. */
  ghost predicate RegistryOk(turns: Turns, logs: Logs) {
    && turns.Keys <= logs.Keys
    && (forall id :: id in turns ==> TurnOk(id, turns[id], logs[id]))
    && |TerminalIds(turns)| <= TERMINAL_RETENTION
  }

  ghost predicate TurnOk(id: string, record: Record, log: seq<Event>) {
    record.snapshot.turnId == id && RecordOk(record, log)
  }

  lemma LogKnown(turns: Turns, logs: Logs, id: string)
    requires RegistryOk(turns, logs)
    ensures id in turns ==> id in logs
  {
  }

  /** An event of a registered turn, field by field. */
  lemma EventFields(turns: Turns, logs: Logs, id: string, terminal: bool, payload: Payload)
    requires RegistryOk(turns, logs) && id in turns
    ensures NextEvent(turns[id], terminal, payload) ==
            Event(id, turns[id].snapshot.sessionId, |logs[id]| + 1, terminal, payload)
    ensures Pushed(turns[id], NextEvent(turns[id], terminal, payload)).snapshot ==
            turns[id].snapshot.(eventCount := |logs[id]| + 1)
  {
    assert TurnOk(id, turns[id], logs[id]);
  }

  /** What a completion stores, field by field. */
  lemma FinishedFields(turns: Turns, logs: Logs, id: string, status: Status, now: nat, payload: Payload)
    requires RegistryOk(turns, logs) && id in turns
    ensures var was := turns[id].snapshot;
      Finished(turns[id], status, now, payload).snapshot ==
      Snapshot(id, was.sessionId, status, was.submittedAt, Some(now), |logs[id]| + 1,
               if payload.TurnCompleted? then Some(payload.outputText) else None,
               if payload.TurnCompleted? then payload.stopReason else None,
               if payload.TurnCompleted? then payload.usage else None,
               if payload.TurnFailed? then Some(payload.error) else None)
  {
    assert TurnOk(id, turns[id], logs[id]);
  }

  lemma KeptAsBefore(before: Turns, after: Turns, id: string)
    requires Pruned(before, after) && id in after
    ensures id in before && after[id] == before[id]
  {
  }

  lemma IssueKeeps(turns: Turns, logs: Logs, record: Record)
    requires RegistryOk(turns, logs) && record.snapshot.turnId !in logs
    requires record == Fresh(record.snapshot.turnId, record.snapshot.sessionId, record.snapshot.submittedAt)
    ensures RegistryOk(turns[record.snapshot.turnId := record], logs[record.snapshot.turnId := []])
  {
    var id := record.snapshot.turnId;
    var turns' := turns[id := record];
    assert TurnOk(id, record, []);
    hide TurnOk;
    assert TerminalIds(turns') == TerminalIds(turns);
  }

  lemma PushKeepsRegistry(turns: Turns, logs: Logs, id: string, event: Event)
    requires RegistryOk(turns, logs) && id in turns && !IsTerminal(turns[id].snapshot.status)
    requires event == NextEvent(turns[id], false, event.payload)
    ensures RegistryOk(turns[id := Pushed(turns[id], event)], logs[id := logs[id] + [event]])
    ensures event.number == |logs[id]| + 1
  {
    var pushed := Pushed(turns[id], event);
    assert TurnOk(id, turns[id], logs[id]);
    PushedOk(turns[id], logs[id], event);
    assert TurnOk(id, pushed, logs[id] + [event]);
    assert pushed.snapshot.status == turns[id].snapshot.status;
    hide TurnOk, Pushed;
    var turns' := turns[id := pushed];
    assert TerminalIds(turns') == TerminalIds(turns);
  }

  lemma ConcludeKeeps(turns: Turns, logs: Logs, id: string, status: Status, now: nat, payload: Payload, kept: Turns)
    requires RegistryOk(turns, logs) && id in turns && !IsTerminal(turns[id].snapshot.status) && IsTerminal(status)
    requires Pruned(turns[id := Finished(turns[id], status, now, payload)], kept)
    ensures RegistryOk(kept, logs[id := logs[id] + [NextEvent(turns[id], true, payload)]])
    ensures NextEvent(turns[id], true, payload).number == |logs[id]| + 1
  {
    var event := NextEvent(turns[id], true, payload);
    assert TurnOk(id, turns[id], logs[id]);
    FinishedOk(turns[id], logs[id], status, now, payload);
    assert TurnOk(id, Finished(turns[id], status, now, payload), logs[id] + [event]);
    hide TurnOk, Finished;
  }

  lemma FinishedOk(record: Record, log: seq<Event>, status: Status, now: nat, payload: Payload)
    requires RecordOk(record, log) && !IsTerminal(record.snapshot.status) && IsTerminal(status)
    ensures RecordOk(Finished(record, status, now, payload), log + [NextEvent(record, true, payload)])
    ensures Finished(record, status, now, payload).snapshot.turnId == record.snapshot.turnId
  {
    PushedOk(record, log, NextEvent(record, true, payload));
  }

  /** A snapshot tells whether the log holds a terminal event. */
  lemma SnapshotMeaning(record: Record, log: seq<Event>)
    requires RecordOk(record, log)
    ensures IsTerminal(record.snapshot.status) <==> exists i :: 0 <= i < |log| && log[i].terminal
  {
  }

  class TurnRegistry {
    var nonce: nat
    var turns: Turns
    /** Everything ever pushed to each turn, pruned turns included. */
    ghost var logs: Logs

    ghost predicate Valid() reads this {
      RegistryOk(turns, logs) && IssuedUpTo(logs.Keys, nonce)
    }

    constructor ()
      ensures Valid() && turns == map[] && logs == map[]
    {
      nonce := 0;
      turns := map[];
      logs := map[];
    }

    method IssueTurn(sessionId: string, now: nat, random: nat) returns (snapshot: Snapshot)
      requires Valid()
      modifies this
      ensures Valid()
      ensures snapshot == Snapshot(snapshot.turnId, sessionId, Running, now, None, 0, None, None, None, None)
      ensures snapshot.turnId == IssuedId("cpt-turn-", old(nonce) + 1, random) && snapshot.turnId !in old(logs)
      ensures turns == old(turns)[snapshot.turnId := Record(snapshot, [], 1)]
      ensures logs == old(logs)[snapshot.turnId := []]
    {
      hide RegistryOk, IssuedUpTo, IssuedId;
      FreshTurnId(logs.Keys, nonce, random);
      nonce := nonce + 1;
      var turnId := IssuedId(TURN_PREFIX, nonce, random);
      var record := Fresh(turnId, sessionId, now);
      IssueKeeps(turns, logs, record);
      turns := turns[turnId := record];
      logs := logs[turnId := []];
      assert logs.Keys == old(logs.Keys) + {turnId};
      snapshot := record.snapshot;
    }

    method ReadTurn(turnId: string) returns (r: Option<Snapshot>)
      requires Valid()
      ensures r == if turnId in turns then Some(turns[turnId].snapshot) else None
      ensures r.Some? ==>
        && turnId in logs && r.value.turnId == turnId && r.value.eventCount == |logs[turnId]|
        && (IsTerminal(r.value.status) <==> exists i :: 0 <= i < |logs[turnId]| && logs[turnId][i].terminal)
        && (r.value.completedAt.Some? <==> IsTerminal(r.value.status))
    {
      hide Window, TerminalIds, IssuedUpTo;
      if turnId in turns {
        LogKnown(turns, logs, turnId);
        assert TurnOk(turnId, turns[turnId], logs[turnId]);
        SnapshotMeaning(turns[turnId], logs[turnId]);
      }
      r := if turnId in turns then Some(turns[turnId].snapshot) else None;
    }

    /** A page is read from the retained window of the full log. */
    method RecentEventsAfter(turnId: string, after: nat, limit: nat) returns (r: Result<seq<Event>, TurnError>)
      requires Valid()
      ensures turnId !in turns ==> r == Err(NotFound(turnId))
      ensures turnId in turns ==> r == Ok(Page(Window(logs[turnId]), after, Clamp(limit, 1, EVENT_LIMIT)))
    {
      if turnId !in turns {
        return Err(NotFound(turnId));
      }
      r := Ok(Page(turns[turnId].recent, after, Clamp(limit, 1, EVENT_LIMIT)));
    }

    /** When an operation on a turn is refused, nothing changes; it is refused
        exactly for unknown and for terminal turns. */
    twostate predicate Refused(turnId: string, new r: Result<Event, TurnError>) reads this {
      && (turnId !in old(turns) ==> r == Err(NotFound(turnId)))
      && (turnId in old(turns) && IsTerminal(old(turns)[turnId].snapshot.status) ==> r == Err(AlreadyTerminal(turnId)))
      && (turnId in old(turns) && !IsTerminal(old(turns)[turnId].snapshot.status) ==> r.Ok?)
      && (r.Err? ==> turns == old(turns) && logs == old(logs))
    }

    /** The turn becomes terminal with one last event, then the registry is
        pruned; every other turn is untouched unless pruned. */
    twostate predicate Concluded(turnId: string, status: Status, now: nat, new payload: Payload, new event: Event)
      requires turnId in old(turns) && turnId in old(logs)
      reads this
    {
      && event == Event(turnId, old(turns)[turnId].snapshot.sessionId, |old(logs)[turnId]| + 1, true, payload)
      && logs == old(logs)[turnId := old(logs)[turnId] + [event]]
      && Pruned(old(turns)[turnId := Finished(old(turns)[turnId], status, now, payload)], turns)
    }

    method RecordRuntimeEvent(turnId: string, value: string) returns (r: Result<Event, TurnError>)
      requires Valid()
      modifies this`turns, this`logs
      ensures Valid()
      ensures Refused(turnId, r)
      ensures r.Ok? ==>
        && turnId in old(turns) && turnId in old(logs)
        && r.value ==
           Event(turnId, old(turns)[turnId].snapshot.sessionId, |old(logs)[turnId]| + 1, false, RuntimeEvent(value))
        && logs == old(logs)[turnId := old(logs)[turnId] + [r.value]]
        && turnId in turns && turns == old(turns)[turnId := turns[turnId]]
        && turns[turnId].snapshot == old(turns)[turnId].snapshot.(eventCount := |old(logs)[turnId]| + 1)
    {
      hide RegistryOk, IssuedUpTo, Pruned, Window, TerminalIds, Leq, Trim;
      if turnId !in turns {
        return Err(NotFound(turnId));
      }
      LogKnown(turns, logs, turnId);
      var record := turns[turnId];
      if IsTerminal(record.snapshot.status) {
        return Err(AlreadyTerminal(turnId));
      }
      var updated, event := PushEventLocked(record, false, RuntimeEvent(value));
      PushKeepsRegistry(turns, logs, turnId, event);
      EventFields(turns, logs, turnId, false, RuntimeEvent(value));
      turns := turns[turnId := updated];
      logs := logs[turnId := logs[turnId] + [event]];
      assert logs.Keys == old(logs).Keys;
      r := Ok(event);
    }

    method CompleteSuccess(turnId: string, outputText: string, stopReason: Option<string>, usage: Option<string>, now: nat)
      returns (r: Result<Event, TurnError>)
      requires Valid()
      modifies this`turns, this`logs
      ensures Valid()
      ensures Refused(turnId, r)
      ensures r.Ok? ==>
        && turnId in old(turns) && turnId in old(logs)
        && Concluded(turnId, if stopReason == Some("cancelled") then Cancelled else Completed, now,
             TurnCompleted(outputText, stopReason, usage), r.value)
        && (turnId in turns ==>
              var was := old(turns)[turnId].snapshot;
              turns[turnId].snapshot ==
              Snapshot(turnId, was.sessionId, if stopReason == Some("cancelled") then Cancelled else Completed,
                       was.submittedAt, Some(now), |old(logs)[turnId]| + 1, Some(outputText), stopReason, usage, None))
    {
      var status := if stopReason == Some("cancelled") then Cancelled else Completed;
      r := Conclude(turnId, status, now, TurnCompleted(outputText, stopReason, usage));
    }

    method CompleteFailure(turnId: string, error: string, now: nat) returns (r: Result<Event, TurnError>)
      requires Valid()
      modifies this`turns, this`logs
      ensures Valid()
      ensures Refused(turnId, r)
      ensures r.Ok? ==>
        && turnId in old(turns) && turnId in old(logs)
        && Concluded(turnId, Failed, now, TurnFailed(error), r.value)
        && (turnId in turns ==>
              var was := old(turns)[turnId].snapshot;
              turns[turnId].snapshot ==
              Snapshot(turnId, was.sessionId, Failed, was.submittedAt, Some(now), |old(logs)[turnId]| + 1,
                       None, None, None, Some(error)))
    {
      r := Conclude(turnId, Failed, now, TurnFailed(error));
    }

    /** The part the two completions share. */
    method Conclude(turnId: string, status: Status, now: nat, payload: Payload) returns (r: Result<Event, TurnError>)
      requires Valid() && IsTerminal(status)
      modifies this`turns, this`logs
      ensures Valid()
      ensures Refused(turnId, r)
      ensures r.Ok? ==>
        && turnId in old(turns) && turnId in old(logs) && Concluded(turnId, status, now, payload, r.value)
        && (turnId in turns ==>
              var was := old(turns)[turnId].snapshot;
              turns[turnId].snapshot ==
              Snapshot(turnId, was.sessionId, status, was.submittedAt, Some(now), |old(logs)[turnId]| + 1,
                       if payload.TurnCompleted? then Some(payload.outputText) else None,
                       if payload.TurnCompleted? then payload.stopReason else None,
                       if payload.TurnCompleted? then payload.usage else None,
                       if payload.TurnFailed? then Some(payload.error) else None))
    {
      hide RegistryOk, IssuedUpTo, Pruned, Window, TerminalIds, Leq, Trim;
      if turnId !in turns {
        return Err(NotFound(turnId));
      }
      LogKnown(turns, logs, turnId);
      var record := turns[turnId];
      if IsTerminal(record.snapshot.status) {
        return Err(AlreadyTerminal(turnId));
      }
      var done := record.(snapshot := record.snapshot.(
        status := status, completedAt := Some(now),
        outputText := if payload.TurnCompleted? then Some(payload.outputText) else None,
        stopReason := if payload.TurnCompleted? then payload.stopReason else None,
        usage := if payload.TurnCompleted? then payload.usage else None,
        error := if payload.TurnFailed? then Some(payload.error) else None));
      var updated, event := PushEventLocked(done, true, payload);
      assert event == NextEvent(record, true, payload);
      assert updated == Finished(record, status, now, payload);
      var kept := PruneTerminalTurns(turns[turnId := updated]);
      ConcludeKeeps(turns, logs, turnId, status, now, payload, kept);
      EventFields(turns, logs, turnId, true, payload);
      FinishedFields(turns, logs, turnId, status, now, payload);
      if turnId in kept {
        KeptAsBefore(turns[turnId := updated], kept, turnId);
      }
      turns := kept;
      logs := logs[turnId := logs[turnId] + [event]];
      assert logs.Keys == old(logs).Keys;
      r := Ok(event);
    }
  }

  /** A completion can prune the very turn it completes. That happens exactly when
      256 terminal turns are retained and the turn, completed now, comes before
      all of them in (completed, submitted, id) order. */
  lemma CompletedTurnMayGo(turns: Turns, logs: Logs, id: string, status: Status, now: nat, payload: Payload, kept: Turns)
    requires RegistryOk(turns, logs)
    requires id in turns && !IsTerminal(turns[id].snapshot.status) && IsTerminal(status)
    requires Pruned(turns[id := Finished(turns[id], status, now, payload)], kept)
    ensures id !in kept <==>
      && |TerminalIds(turns)| == TERMINAL_RETENTION
      && forall t :: t in TerminalIds(turns) ==>
           Earlier(Candidate(now, turns[id].snapshot.submittedAt, id), CandidateOf(t, turns[t]))
  {
    hide Pruned, Earlier, RegistryOk, Pushed;
    BoundedTerminals(turns, logs);
    var before := turns[id := Finished(turns[id], status, now, payload)];
    FinishedCandidate(turns, logs, id, status, now, payload);
    assert TerminalIds(before) == TerminalIds(turns) + {id};
    if |TerminalIds(turns)| < TERMINAL_RETENTION {
      NoTerminalGoes(before, kept);
    } else {
      LastTerminalGoes(before, kept, id);
    }
  }

  lemma BoundedTerminals(turns: Turns, logs: Logs)
    requires RegistryOk(turns, logs)
    ensures |TerminalIds(turns)| <= TERMINAL_RETENTION
  {
  }

  lemma NoTerminalGoes(before: Turns, after: Turns)
    requires Pruned(before, after) && |TerminalIds(before)| <= TERMINAL_RETENTION
    ensures TerminalIds(before) <= after.Keys
  {
    SubsetSize(TerminalIds(after), TerminalIds(before));
  }

  lemma FinishedCandidate(turns: Turns, logs: Logs, id: string, status: Status, now: nat, payload: Payload)
    requires RegistryOk(turns, logs) && id in turns
    ensures var done := Finished(turns[id], status, now, payload);
      && CandidateOf(id, done) == Candidate(now, turns[id].snapshot.submittedAt, id)
      && done.snapshot.status == status
  {
  }

  lemma LastTerminalGoes(before: Turns, after: Turns, id: string)
    requires Pruned(before, after) && id in TerminalIds(before)
    requires |TerminalIds(before)| == TERMINAL_RETENTION + 1
    ensures id !in after <==> forall t :: t in TerminalIds(before) && t != id ==> Precedes(before, id, t)
  {
    SurvivorsAreLatest(before, after, id);
    var others := TerminalIds(before) - {id};
    assert |others| == TERMINAL_RETENTION;
    SubsetSize(LaterTerminals(before, id), others);
    if forall t :: t in TerminalIds(before) && t != id ==> Precedes(before, id, t) {
      assert LaterTerminals(before, id) == others;
    }
    if id !in after {
      forall t | t in TerminalIds(before) && t != id ensures Precedes(before, id, t) {
        assert t in others && others == LaterTerminals(before, id);
      }
    }
  }

  // ----------------------------------------------------- a registry that shows it

  function IdAt(n: nat): string {
    IssuedId(TURN_PREFIX, n, 0)
  }

  /** A turn submitted at 1 that failed at 2. */
  function FailedTurn(n: nat): Record {
    Finished(Fresh(IdAt(n), "default", 1), Failed, 2, TurnFailed("error"))
  }

  function FailedLog(n: nat): seq<Event> {
    [NextEvent(Fresh(IdAt(n), "default", 1), true, TurnFailed("error"))]
  }

  /** Turns 2 to n + 1 failed; turn 1 runs since time 0. */
  function Crowd(n: nat): Turns {
    if n == 0 then map[IdAt(1) := Fresh(IdAt(1), "default", 0)]
    else Crowd(n - 1)[IdAt(n + 1) := FailedTurn(n + 1)]
  }

  ghost function CrowdLogs(n: nat): Logs {
    if n == 0 then map[IdAt(1) := []] else CrowdLogs(n - 1)[IdAt(n + 1) := FailedLog(n + 1)]
  }

  ghost predicate IsCrowd(turns: Turns, logs: Logs, n: nat) {
    && turns.Keys == logs.Keys
    && (forall id :: id in turns ==> TurnOk(id, turns[id], logs[id]))
    && IssuedUpTo(logs.Keys, n + 1)
    && IdAt(1) in turns && turns[IdAt(1)] == Fresh(IdAt(1), "default", 0)
    && |TerminalIds(turns)| == n
    && (forall t :: t in TerminalIds(turns) ==>
         turns[t].snapshot.completedAt == Some(2) && turns[t].snapshot.submittedAt == 1)
  }

  lemma FirstOfCrowd()
    ensures IsCrowd(Crowd(0), CrowdLogs(0), 0)
  {
    hide IssuedId;
    assert TerminalIds(Crowd(0)) == {};
  }

  lemma FailedTurnOk(n: nat)
    ensures TurnOk(IdAt(n), FailedTurn(n), FailedLog(n))
    ensures var s := FailedTurn(n).snapshot; s.status == Failed && s.completedAt == Some(2) && s.submittedAt == 1
  {
    hide IssuedId;
  }

  lemma {:induction false} CrowdMeaning(n: nat)
    ensures IsCrowd(Crowd(n), CrowdLogs(n), n)
  {
    if n == 0 {
      FirstOfCrowd();
    } else {
      CrowdMeaning(n - 1);
      CrowdGrows(Crowd(n - 1), CrowdLogs(n - 1), n - 1);
    }
  }

  lemma CrowdGrows(turns: Turns, logs: Logs, n: nat)
    requires IsCrowd(turns, logs, n)
    ensures IsCrowd(turns[IdAt(n + 2) := FailedTurn(n + 2)], logs[IdAt(n + 2) := FailedLog(n + 2)], n + 1)
  {
    hide IssuedId, IdAt, FailedTurn, FailedLog, TurnOk, IssuedUpTo, TerminalIds;
    NextId(logs.Keys, n);
    FailedTurnOk(n + 2);
    var id := IdAt(n + 2);
    var turns', logs' := turns[id := FailedTurn(n + 2)], logs[id := FailedLog(n + 2)];
    assert logs'.Keys == logs.Keys + {id};
    OneMoreTerminal(turns, id, FailedTurn(n + 2));
  }

  lemma OneMoreTerminal(turns: Turns, id: string, record: Record)
    requires id !in turns && IsTerminal(record.snapshot.status)
    ensures TerminalIds(turns[id := record]) == TerminalIds(turns) + {id}
    ensures |TerminalIds(turns[id := record])| == |TerminalIds(turns)| + 1
    ensures TerminalIds(turns) <= turns.Keys
  {
  }

  lemma NextId(ids: set<string>, n: nat)
    requires IssuedUpTo(ids, n + 1)
    ensures IdAt(n + 2) !in ids && IssuedUpTo(ids + {IdAt(n + 2)}, n + 2)
  {
    hide IssuedId, IssuedUpTo;
    FreshTurnId(ids, n + 1, 0);
  }

  /** It does happen: turn 1, the first submitted, completes in the millisecond
      in which 256 others did, and goes at once. */
  lemma FirstTurnGoes(payload: Payload, kept: Turns)
    requires Pruned(Crowd(256)[IdAt(1) := Finished(Fresh(IdAt(1), "default", 0), Completed, 2, payload)], kept)
    ensures RegistryOk(Crowd(256), CrowdLogs(256)) && IssuedUpTo(CrowdLogs(256).Keys, 257)
    ensures IdAt(1) in Crowd(256) && Crowd(256)[IdAt(1)].snapshot.status == Running
    ensures IdAt(1) !in kept
  {
    hide IssuedId, IdAt, Crowd, CrowdLogs, TurnOk, Finished, Pruned, IssuedUpTo;
    CrowdMeaning(256);
    CompletedTurnMayGo(Crowd(256), CrowdLogs(256), IdAt(1), Completed, 2, payload, kept);
  }
}
