/** Readers of the event bus that follow it by cursor: they poll
    `recent_events_after` and move the cursor to the number of the last event
    they were given. */
module BusReader {
  import opened Sequences
  import opened Retention
  import opened EventBus

  datatype Reader = Reader(includeTargeted: bool, cursor: nat, seen: seq<Event>)

  function Start(includeTargeted: bool): Reader {
    Reader(includeTargeted, 0, [])
  }

  function Polled(log: seq<Event>, r: Reader, limit: nat): Reader {
    var page := PageAfter(Window(log), r.cursor, Clamp(limit, 1, EVENT_LIMIT), r.includeTargeted);
    if page == [] then r else r.(cursor := page[|page| - 1].number, seen := r.seen + page)
  }

  /** A schedule interleaves the steps of a run with polls. */
  datatype Move = Bus(step: Step) | Poll(limit: nat)

  /** The moves are the given steps with polls in between. The reader polls when
      it can take the retention lock, and before more than 256 events wait. */
  ghost predicate Schedule(s: State, r: Reader, steps: seq<Step>, moves: seq<Move>)
    decreases |moves|
  {
    if moves == [] then steps == []
    else
      match moves[0]
      case Bus(step) =>
        && steps != [] && steps[0] == step && Enabled(s, step)
        && Schedule(Next(s, step), r, steps[1..], moves[1..])
      case Poll(limit) =>
        && !s.locked && |s.published| <= r.cursor + EVENT_LIMIT
        && Schedule(s, Polled(s.published, r, limit), steps, moves[1..])
  }

  ghost function Outcome(s: State, r: Reader, steps: seq<Step>, moves: seq<Move>): Reader
    requires Schedule(s, r, steps, moves)
    decreases |moves|
  {
    if moves == [] then r
    else
      match moves[0]
      case Bus(step) => Outcome(Next(s, step), r, steps[1..], moves[1..])
      case Poll(limit) => Outcome(s, Polled(s.published, r, limit), steps, moves[1..])
  }

  function ShownOf(events: seq<Event>, includeTargeted: bool): seq<Event> {
    if events == [] then []
    else (if Shown(events[0], includeTargeted) then [events[0]] else []) + ShownOf(events[1..], includeTargeted)
  }

  /** The reader has seen exactly what it may see of the log up to its cursor:
      nothing is missing, nothing is repeated. */
  ghost predicate InStep(r: Reader, log: seq<Event>) {
    r.cursor <= |log| && r.seen == ShownOf(log[..r.cursor], r.includeTargeted)
  }

  // -------------------------------------------------------------------- polling

  lemma {:induction false} ShownAppend(a: seq<Event>, b: seq<Event>, includeTargeted: bool)
    ensures ShownOf(a + b, includeTargeted) == ShownOf(a, includeTargeted) + ShownOf(b, includeTargeted)
  {
    if a == [] {
      assert a + b == b;
    } else {
      hide Shown;
      assert (a + b)[1..] == a[1..] + b;
      ShownAppend(a[1..], b, includeTargeted);
    }
  }

  lemma {:induction false} ShownAll(events: seq<Event>)
    ensures ShownOf(events, true) == events
  {
    if events == [] {
    } else {
      ShownAll(events[1..]);
    }
  }

  lemma {:induction false} SkipPassed(events: seq<Event>, k: nat, after: nat, n: nat, includeTargeted: bool)
    requires k <= |events| && forall i :: 0 <= i < k ==> events[i].number <= after
    ensures PageAfter(events, after, n, includeTargeted) == PageAfter(events[k..], after, n, includeTargeted)
  {
    if k == 0 {
      assert events[0..] == events;
    } else if n > 0 {
      SkipPassed(events[1..], k - 1, after, n, includeTargeted);
      assert events[1..][k - 1..] == events[k..];
    }
  }

  lemma ShownPrefix(events: seq<Event>, m: nat, includeTargeted: bool)
    requires m < |events|
    ensures ShownOf(events[..m + 1], includeTargeted) ==
      (if Shown(events[0], includeTargeted) then [events[0]] else []) + ShownOf(events[1..][..m], includeTargeted)
  {
    assert events[..m + 1][1..] == events[1..][..m];
  }

  /** From unread events a page takes what is shown of a prefix that ends with
      the last event of the page. */
  lemma {:induction false} TakeShown(events: seq<Event>, after: nat, n: nat, includeTargeted: bool) returns (m: nat)
    requires forall i :: 0 <= i < |events| ==> events[i].number > after
    ensures m <= |events|
    ensures var page := PageAfter(events, after, n, includeTargeted);
      && page == ShownOf(events[..m], includeTargeted)
      && (m == 0 <==> page == []) && (m > 0 ==> page[|page| - 1] == events[m - 1])
  {
    hide PageAfter, ShownOf;
    NothingTaken(events, after, n, includeTargeted);
    if events == [] || n == 0 {
      m := 0;
      assert events[..0] == [];
    } else {
      var shown := Shown(events[0], includeTargeted);
      var rest := TakeShown(events[1..], after, if shown then n - 1 else n, includeTargeted);
      PageUnread(events, after, n, includeTargeted);
      ShownPrefix(events, rest, includeTargeted);
      m := if shown || rest > 0 then rest + 1 else 0;
      assert events[..0] == [];
    }
  }

  lemma NothingTaken(events: seq<Event>, after: nat, n: nat, includeTargeted: bool)
    ensures events == [] || n == 0 ==> PageAfter(events, after, n, includeTargeted) == []
    ensures ShownOf([], includeTargeted) == []
  {
  }

  lemma PageUnread(events: seq<Event>, after: nat, n: nat, includeTargeted: bool)
    requires events != [] && n > 0 && events[0].number > after
    ensures PageAfter(events, after, n, includeTargeted) ==
      if Shown(events[0], includeTargeted) then [events[0]] + PageAfter(events[1..], after, n - 1, includeTargeted)
      else PageAfter(events[1..], after, n, includeTargeted)
  {
  }

  lemma UnreadPage(log: seq<Event>, r: Reader, n: nat)
    requires r.cursor <= |log| <= r.cursor + EVENT_LIMIT
    requires forall i :: 0 <= i < r.cursor ==> log[i].number <= r.cursor
    ensures PageAfter(Window(log), r.cursor, n, r.includeTargeted) ==
            PageAfter(log[r.cursor..], r.cursor, n, r.includeTargeted)
  {
    hide PageAfter, Window;
    WindowIsTail(log);
    var lost := Lost(log);
    SkipPassed(log[lost..], r.cursor - lost, r.cursor, n, r.includeTargeted);
    DropDrop(log, lost, r.cursor - lost);
  }

  lemma PollInStep(log: seq<Event>, r: Reader, limit: nat)
    requires InOrder(log) && InStep(r, log) && |log| <= r.cursor + EVENT_LIMIT
    ensures InStep(Polled(log, r, limit), log)
  {
    hide PageAfter, ShownOf, Window;
    var n := Clamp(limit, 1, EVENT_LIMIT);
    UnreadPage(log, r, n);
    var unread := log[r.cursor..];
    var m := TakeShown(unread, r.cursor, n, r.includeTargeted);
    if PageAfter(unread, r.cursor, n, r.includeTargeted) != [] {
      assert log[..r.cursor + m] == log[..r.cursor] + unread[..m];
      ShownAppend(log[..r.cursor], unread[..m], r.includeTargeted);
      assert unread[m - 1] == log[r.cursor + m - 1];
    }
  }

  // --------------------------------------------------------- ordered publication

  /** What a poll can have found so far: the event under publication is not
      visible before the lock is released. */
  function Visible(s: State): seq<Event> {
    if s.locked && s.published != [] then s.published[..|s.published| - 1] else s.published
  }

  lemma {:induction false} VisibleGrows(s: State, steps: seq<Step>)
    requires IsRun(s, steps)
    ensures Visible(s) <= Visible(End(s, steps)) && s.published <= End(s, steps).published
    decreases |steps|
  {
    if steps == [] {
    } else {
      VisibleStep(s, steps[0]);
      hide Enabled, Next, Visible;
      VisibleGrows(Next(s, steps[0]), steps[1..]);
    }
  }

  lemma VisibleStep(s: State, step: Step)
    requires Enabled(s, step)
    ensures Visible(s) <= Visible(Next(s, step)) && s.published <= Next(s, step).published
    ensures !step.NotifyWaiters? ==> Visible(Next(s, step)) == Visible(s)
    ensures step.NotifyWaiters? ==> Visible(Next(s, step)) == s.published
  {
  }

  lemma {:induction false} ScheduleInStep(s: State, r: Reader, steps: seq<Step>, moves: seq<Move>)
    requires Schedule(s, r, steps, moves) && IsRun(s, steps)
    requires InOrder(Visible(End(s, steps))) && InStep(r, s.published)
    ensures InStep(Outcome(s, r, steps, moves), End(s, steps).published)
    decreases |moves|
  {
    hide Enabled, Next, Polled, ShownOf;
    if moves == [] {
    } else {
      match moves[0]
      case Bus(step) =>
        VisibleStep(s, step);
        var t := Next(s, step);
        assert s.published[..r.cursor] == t.published[..r.cursor];
        ScheduleInStep(t, r, steps[1..], moves[1..]);
      case Poll(limit) =>
        VisibleGrows(s, steps);
        assert InOrder(s.published);
        PollInStep(s.published, r, limit);
        ScheduleInStep(s, Polled(s.published, r, limit), steps, moves[1..]);
    }
  }

  // ------------------------------------------------------ disorder and its price

  /** A reader that polled whenever it could and has seen everything visible. */
  ghost predicate Attentive(s: State, r: Reader) {
    && r.includeTargeted && r.cursor == |Visible(s)| && r.seen == Visible(s)
    && InOrder(Visible(s))
    && (s.locked && s.published != [] ==> s.published[|s.published| - 1].number >= |s.published|)
  }

  function Buses(steps: seq<Step>): seq<Move> {
    if steps == [] then [] else [Bus(steps[0])] + Buses(steps[1..])
  }

  lemma {:induction false} NoMorePolls(s: State, r: Reader, steps: seq<Step>)
    requires IsRun(s, steps)
    ensures Schedule(s, r, steps, Buses(steps)) && Outcome(s, r, steps, Buses(steps)) == r
    decreases |steps|
  {
    hide Enabled, Next;
    if steps == [] {
    } else {
      assert Buses(steps)[1..] == Buses(steps[1..]);
      NoMorePolls(Next(s, steps[0]), r, steps[1..]);
    }
  }

  lemma ThenBus(s: State, r: Reader, steps: seq<Step>, moves: seq<Move>)
    requires IsRun(s, steps) && steps != [] && Schedule(Next(s, steps[0]), r, steps[1..], moves)
    ensures Schedule(s, r, steps, [Bus(steps[0])] + moves)
    ensures Outcome(s, r, steps, [Bus(steps[0])] + moves) == Outcome(Next(s, steps[0]), r, steps[1..], moves)
  {
    hide Enabled, Next;
    assert ([Bus(steps[0])] + moves)[1..] == moves;
  }

  lemma ThenPoll(s: State, r: Reader, steps: seq<Step>, moves: seq<Move>, limit: nat)
    requires !s.locked && |s.published| <= r.cursor + EVENT_LIMIT
    requires Schedule(s, Polled(s.published, r, limit), steps, moves)
    ensures Schedule(s, r, steps, [Poll(limit)] + moves)
    ensures Outcome(s, r, steps, [Poll(limit)] + moves) == Outcome(s, Polled(s.published, r, limit), steps, moves)
  {
    hide Polled;
    assert ([Poll(limit)] + moves)[1..] == moves;
  }

  /** A poll right after a publication gives just the event published. */
  lemma AttentivePoll(s: State, r: Reader, step: Step)
    requires Attentive(s, r) && step.NotifyWaiters? && Enabled(s, step)
    ensures var log := s.published;
      && r.cursor <= |log| <= r.cursor + 1
      && Polled(log, r, EVENT_LIMIT) ==
         if |log| == r.cursor then r else r.(cursor := log[|log| - 1].number, seen := log)
  {
    hide PageAfter, Window;
    var log := s.published;
    UnreadPage(log, r, EVENT_LIMIT);
    if |log| > r.cursor {
      var last := log[r.cursor];
      assert log[r.cursor..] == [last];
      assert r.seen + [last] == log;
      SinglePage(last, r.cursor);
    } else {
      assert log[r.cursor..] == [];
      NothingTaken([], r.cursor, EVENT_LIMIT, true);
    }
  }

  lemma SinglePage(e: Event, after: nat)
    requires e.number > after
    ensures PageAfter([e], after, EVENT_LIMIT, true) == [e]
  {
  }

  lemma AttentiveStep(s: State, r: Reader, step: Step)
    requires Attentive(s, r) && NumbersOk(s) && Enabled(s, step) && !step.NotifyWaiters?
    ensures Attentive(Next(s, step), r)
  {
    VisibleStep(s, step);
    if step.Publish? {
      NoEarlierNumber(s, step);
    }
  }

  /** When the visible log of a run is not in order, polling after every
      publication up to the first one out of order puts a reader out of step. */
  lemma {:induction false} DisorderShows(s: State, r: Reader, steps: seq<Step>) returns (moves: seq<Move>)
    requires IsRun(s, steps) && NumbersOk(s) && Attentive(s, r) && !InOrder(Visible(End(s, steps)))
    ensures Schedule(s, r, steps, moves)
    ensures !InStep(Outcome(s, r, steps, moves), End(s, steps).published)
    decreases |steps|
  {
    hide NumbersOk, Enabled, Next, Polled, Schedule, Outcome, Visible, InOrder;
    AttentiveInOrder(s, r);
    var step, rest := steps[0], steps[1..];
    var t := Next(s, step);
    StepKeepsNumbers(s, step);
    if !step.NotifyWaiters? {
      AttentiveStep(s, r, step);
      moves := DisorderShows(t, r, rest);
    } else {
      AttentivePoll(s, r, step);
      var r' := Polled(s.published, r, EVENT_LIMIT);
      Unlocked(s, step);
      if InOrder(Visible(t)) {
        StillAttentive(s, r, step);
        moves := DisorderShows(t, r', rest);
      } else {
        moves := Buses(rest);
        NoMorePolls(t, r', rest);
        OutOfStep(s, r, step, End(t, rest).published);
      }
      ThenPoll(t, r, rest, moves, EVENT_LIMIT);
      moves := [Poll(EVENT_LIMIT)] + moves;
    }
    ThenBus(s, r, steps, moves);
    moves := [Bus(step)] + moves;
  }

  lemma AttentiveInOrder(s: State, r: Reader)
    requires Attentive(s, r)
    ensures InOrder(Visible(s))
  {
  }

  lemma Unlocked(s: State, step: Step)
    requires step.NotifyWaiters? && Enabled(s, step)
    ensures var t := Next(s, step);
      !t.locked && t.published == s.published == Visible(t)
  {
  }

  lemma StillAttentive(s: State, r: Reader, step: Step)
    requires Attentive(s, r) && step.NotifyWaiters? && Enabled(s, step) && InOrder(s.published)
    ensures Attentive(Next(s, step), Polled(s.published, r, EVENT_LIMIT))
  {
    hide Polled;
    AttentivePoll(s, r, step);
  }

  lemma OutOfStep(s: State, r: Reader, step: Step, log: seq<Event>)
    requires Attentive(s, r) && step.NotifyWaiters? && Enabled(s, step) && !InOrder(s.published)
    ensures !InStep(Polled(s.published, r, EVENT_LIMIT), log)
  {
    hide Polled, ShownOf;
    AttentivePoll(s, r, step);
    var r' := Polled(s.published, r, EVENT_LIMIT);
    assert r'.cursor > |r'.seen|;
    if r'.cursor <= |log| {
      ShownAll(log[..r'.cursor]);
    }
  }

  // ----------------------------------------------------------------- the theorem

  ghost predicate AlwaysInStep(s: State, r: Reader, steps: seq<Step>)
    requires IsRun(s, steps)
  {
    forall moves :: Schedule(s, r, steps, moves) ==> InStep(Outcome(s, r, steps, moves), End(s, steps).published)
  }

  /** On every run of the bus, a reader of all events that stays within 256
      events is in step with the log under every polling schedule exactly when
      the events were made visible in the order of their numbers. */
  lemma ReaderSeesLog(s: State, steps: seq<Step>)
    requires Initial(s) && IsRun(s, steps)
    ensures AlwaysInStep(s, Start(true), steps) <==> InOrder(Visible(End(s, steps)))
    ensures !End(s, steps).locked ==> (AlwaysInStep(s, Start(true), steps) <==> AlwaysOldest(s, steps))
  {
    hide NumbersOk, Schedule, Outcome, InStep, AlwaysOldest;
    InitialNumbers(s);
    OrderedPublication(s, steps);
    if InOrder(Visible(End(s, steps))) {
      OrderSuffices(s, true, steps);
    } else {
      var moves := DisorderShows(s, Start(true), steps);
    }
  }

  /** Ordered publication keeps every reader in step, also one that is shown the
      untargeted events only. */
  lemma OrderSuffices(s: State, includeTargeted: bool, steps: seq<Step>)
    requires Initial(s) && IsRun(s, steps) && InOrder(Visible(End(s, steps)))
    ensures AlwaysInStep(s, Start(includeTargeted), steps)
  {
    hide Schedule, Outcome;
    forall moves | Schedule(s, Start(includeTargeted), steps, moves)
      ensures InStep(Outcome(s, Start(includeTargeted), steps, moves), End(s, steps).published)
    {
      ScheduleInStep(s, Start(includeTargeted), steps, moves);
    }
  }

  ghost predicate NotSeen(r: Reader, number: nat) {
    forall i :: 0 <= i < |r.seen| ==> r.seen[i].number != number
  }

  /** An event that is published after the cursor has passed its number is never
      seen, whatever happens next. */
  lemma {:induction false} PassedIsLost(s: State, r: Reader, steps: seq<Step>, moves: seq<Move>, number: nat)
    requires Schedule(s, r, steps, moves) && number <= r.cursor && NotSeen(r, number)
    ensures NotSeen(Outcome(s, r, steps, moves), number)
    decreases |moves|
  {
    hide Enabled, Next, Polled;
    if moves == [] {
    } else {
      match moves[0]
      case Bus(step) => PassedIsLost(Next(s, step), r, steps[1..], moves[1..], number);
      case Poll(limit) =>
        PollGoesForward(s.published, r, limit, number);
        PassedIsLost(s, Polled(s.published, r, limit), steps, moves[1..], number);
    }
  }

  lemma PollGoesForward(log: seq<Event>, r: Reader, limit: nat, number: nat)
    requires number <= r.cursor && NotSeen(r, number)
    ensures r.cursor <= Polled(log, r, limit).cursor && NotSeen(Polled(log, r, limit), number)
  {
    hide PageAfter, Window;
    var page := PageAfter(Window(log), r.cursor, Clamp(limit, 1, EVENT_LIMIT), r.includeTargeted);
    PageAwaited(Window(log), r.cursor, Clamp(limit, 1, EVENT_LIMIT), r.includeTargeted);
    assert forall i :: 0 <= i < |page| ==> page[i] in page;
  }
}
