/** The event stream of crates/daemon/src/control_plane_server/events.rs: a
    subscriber takes live events from a broadcast channel, starts with one page
    of the retained events, and reads another page when it has lagged behind. */
module BusSubscriber {
  import opened Sequences
  import opened Retention
  import opened EventBus
  import opened BusReader

  const DEFAULT_LIMIT: nat := 50
  const CHANNEL_CAPACITY: nat := 256

  /** `position` is the place of the next live event in the log; `cursor` is
      `last_seq`. */
  datatype Subscriber = Subscriber(
    includeTargeted: bool, start: nat, cursor: nat, position: nat, loaded: bool, pending: seq<Event>, seen: seq<Event>)

  /** `subscribe`, before the retained events are read. */
  function Subscribed(log: seq<Event>, after: nat, includeTargeted: bool): Subscriber {
    Subscriber(includeTargeted, after, after, |log|, false, [], [])
  }

  function Refill(log: seq<Event>, r: Subscriber): seq<Event> {
    PageAfter(Window(log), r.cursor, Clamp(DEFAULT_LIMIT, 1, EVENT_LIMIT), r.includeTargeted)
  }

  function Loaded(log: seq<Event>, r: Subscriber): Subscriber {
    r.(loaded := true, pending := Refill(log, r))
  }

  /** The next receive finds that the channel has dropped events. */
  predicate Lags(log: seq<Event>, r: Subscriber) {
    r.pending == [] && |log| > r.position + CHANNEL_CAPACITY
  }

  /** One turn of `next_control_plane_sse_item` and of its receive loop. */
  function Taken(log: seq<Event>, r: Subscriber): Subscriber
    requires r.pending != [] || r.position < |log|
  {
    if r.pending != [] then
      r.(pending := r.pending[1..], cursor := r.pending[0].number, seen := r.seen + [r.pending[0]])
    else if Lags(log, r) then
      r.(position := |log| - CHANNEL_CAPACITY, pending := Refill(log, r))
    else
      var event := log[r.position];
      if !Shown(event, r.includeTargeted) || event.number <= r.cursor then r.(position := r.position + 1)
      else r.(position := r.position + 1, cursor := event.number, seen := r.seen + [event])
  }

  /** No event is shown between two places of the log. */
  ghost predicate NothingShown(log: seq<Event>, from: nat, to: nat, includeTargeted: bool) {
    forall i :: from <= i < to && i < |log| ==> !Shown(log[i], includeTargeted)
  }

  /** What the channel dropped holds nothing the subscriber still waits for. */
  ghost predicate DropsNothing(log: seq<Event>, r: Subscriber) {
    NothingShown(log, Greater(r.cursor, r.position), |log| - Least(CHANNEL_CAPACITY, |log|), r.includeTargeted)
  }

  /** What has left the window since the subscriber subscribed holds nothing it
      waits for. */
  ghost predicate LeavesNothing(log: seq<Event>, r: Subscriber) {
    NothingShown(log, Greater(r.cursor, r.position - Least(EVENT_LIMIT, r.position)), Lost(log), r.includeTargeted)
  }

  datatype Move = BusStep(step: Step) | Load | Take

  /** The steps of a run with the subscriber's moves in between. It loads once,
      before a further event it waits for leaves the window; it takes events
      before the channel drops one it waits for. Pages are read when the lock is
      free. */
  ghost predicate Schedule(s: State, r: Subscriber, steps: seq<Step>, moves: seq<Move>)
    decreases |moves|
  {
    if moves == [] then steps == []
    else
      match moves[0]
      case BusStep(step) =>
        && steps != [] && steps[0] == step && Enabled(s, step)
        && Schedule(Next(s, step), r, steps[1..], moves[1..])
      case Load =>
        && !r.loaded && !s.locked && LeavesNothing(s.published, r)
        && Schedule(s, Loaded(s.published, r), steps, moves[1..])
      case Take =>
        && r.loaded && (r.pending != [] || r.position < |s.published|)
        && (Lags(s.published, r) ==> !s.locked && DropsNothing(s.published, r))
        && Schedule(s, Taken(s.published, r), steps, moves[1..])
  }

  ghost function Outcome(s: State, r: Subscriber, steps: seq<Step>, moves: seq<Move>): Subscriber
    requires Schedule(s, r, steps, moves)
    decreases |moves|
  {
    if moves == [] then r
    else
      match moves[0]
      case BusStep(step) => Outcome(Next(s, step), r, steps[1..], moves[1..])
      case Load => Outcome(s, Loaded(s.published, r), steps, moves[1..])
      case Take => Outcome(s, Taken(s.published, r), steps, moves[1..])
  }

  /** It asked for events the log has not reached yet, and has been given none. */
  ghost predicate Ahead(r: Subscriber, log: seq<Event>) {
    r.start == r.cursor > |log| && r.seen == []
  }

  /** The subscriber has been given exactly what it may see of the log between
      its start and its cursor. */
  ghost predicate InStep(r: Subscriber, log: seq<Event>) {
    || Ahead(r, log)
    || (r.start <= r.cursor <= |log| && r.seen == ShownOf(log[r.start..r.cursor], r.includeTargeted))
  }

  // ---------------------------------------------------------------- shown events

  lemma {:induction false} NoneShown(events: seq<Event>, includeTargeted: bool)
    ensures ShownOf(events, includeTargeted) == [] <==> forall i :: 0 <= i < |events| ==> !Shown(events[i], includeTargeted)
  {
    if events == [] {
    } else {
      hide Shown;
      NoneShown(events[1..], includeTargeted);
      assert forall i :: 0 < i < |events| ==> events[i] == events[1..][i - 1];
      assert forall i :: 0 <= i < |events| - 1 ==> events[1..][i] == events[i + 1];
    }
  }

  lemma NothingBetween(log: seq<Event>, a: nat, b: nat, includeTargeted: bool)
    requires a <= b <= |log|
    ensures ShownOf(log[a..b], includeTargeted) == [] <==> NothingShown(log, a, b, includeTargeted)
  {
    hide Shown, ShownOf;
    NoneShown(log[a..b], includeTargeted);
    assert forall i :: 0 <= i < b - a ==> log[a..b][i] == log[a + i];
    assert forall i :: a <= i < b ==> log[i] == log[a..b][i - a];
  }

  lemma SomeShown(log: seq<Event>, from: nat, to: nat, includeTargeted: bool) returns (n: nat)
    requires to <= |log| && !NothingShown(log, from, to, includeTargeted)
    ensures from < n <= to && Shown(log[n - 1], includeTargeted)
  {
    var i: nat :| from <= i < to && Shown(log[i], includeTargeted);
    n := i + 1;
  }

  lemma ShownSplit(log: seq<Event>, a: nat, b: nat, c: nat, includeTargeted: bool)
    requires a <= b <= c <= |log|
    ensures ShownOf(log[a..c], includeTargeted) ==
      ShownOf(log[a..b], includeTargeted) + ShownOf(log[b..c], includeTargeted)
  {
    assert log[a..c] == log[a..b] + log[b..c];
    ShownAppend(log[a..b], log[b..c], includeTargeted);
  }

  /** Shown events are events of the part, by number. */
  lemma {:induction false} ShownNumbers(log: seq<Event>, a: nat, b: nat, includeTargeted: bool, n: nat)
    requires InOrder(log) && a <= b <= |log|
    ensures (exists e :: e in ShownOf(log[a..b], includeTargeted) && e.number == n) <==>
      a < n <= b && Shown(log[n - 1], includeTargeted)
    decreases b - a
  {
    hide Shown, ShownOf;
    if a == b {
      assert log[a..b] == [];
      NoneShown([], includeTargeted);
    } else {
      ShownNumbers(log, a + 1, b, includeTargeted, n);
      ShownFirst(log, a, b, includeTargeted);
      var rest := ShownOf(log[a + 1..b], includeTargeted);
      assert forall e :: e in ShownOf(log[a..b], includeTargeted) <==>
        (Shown(log[a], includeTargeted) && e == log[a]) || e in rest;
    }
  }

  lemma ShownFirst(log: seq<Event>, a: nat, b: nat, includeTargeted: bool)
    requires a < b <= |log|
    ensures ShownOf(log[a..b], includeTargeted) ==
      (if Shown(log[a], includeTargeted) then [log[a]] else []) + ShownOf(log[a + 1..b], includeTargeted)
  {
    assert log[a..b][1..] == log[a + 1..b] && log[a..b][0] == log[a];
  }

  /** Where the first shown event stands. */
  lemma {:induction false} FirstShown(events: seq<Event>, includeTargeted: bool) returns (m: nat)
    requires ShownOf(events, includeTargeted) != []
    ensures m < |events| && events[m] == ShownOf(events, includeTargeted)[0]
    ensures ShownOf(events[..m + 1], includeTargeted) == [events[m]]
    ensures ShownOf(events[m + 1..], includeTargeted) == ShownOf(events, includeTargeted)[1..]
  {
    if Shown(events[0], includeTargeted) {
      m := 0;
      assert events[..1][1..] == [];
    } else {
      var rest := FirstShown(events[1..], includeTargeted);
      m := rest + 1;
      assert events[..m + 1][1..] == events[1..][..rest + 1];
      assert events[m + 1..] == events[1..][rest + 1..];
    }
  }

  /** A page of unread events is as long as it may be and as there are. */
  lemma {:induction false} PageLength(events: seq<Event>, after: nat, n: nat, includeTargeted: bool)
    requires forall i :: 0 <= i < |events| ==> events[i].number > after
    ensures |PageAfter(events, after, n, includeTargeted)| == Least(n, |ShownOf(events, includeTargeted)|)
  {
    if events == [] || n == 0 {
    } else {
      PageLength(events[1..], after, n - 1, includeTargeted);
      PageLength(events[1..], after, n, includeTargeted);
    }
  }

  /** The first place a page can take an event from. */
  function PageStart(log: seq<Event>, cursor: nat): nat {
    Greater(cursor, Lost(log))
  }

  lemma WindowPage(log: seq<Event>, cursor: nat, n: nat, includeTargeted: bool)
    requires InOrder(log) && cursor <= |log|
    ensures PageAfter(Window(log), cursor, n, includeTargeted) ==
            PageAfter(log[PageStart(log, cursor)..], cursor, n, includeTargeted)
  {
    hide PageAfter, Window;
    WindowIsTail(log);
    var lost := Lost(log);
    if cursor > lost {
      SkipPassed(log[lost..], cursor - lost, cursor, n, includeTargeted);
      DropDrop(log, lost, cursor - lost);
    }
  }

  /** A refill is what is shown of the log from the page's start up to some place;
      if it is not full, nothing more is shown. */
  lemma RefillMeaning(log: seq<Event>, r: Subscriber) returns (upTo: nat)
    requires InOrder(log) && r.cursor <= |log|
    ensures PageStart(log, r.cursor) <= upTo <= |log|
    ensures Refill(log, r) == ShownOf(log[PageStart(log, r.cursor)..upTo], r.includeTargeted)
    ensures |Refill(log, r)| == Least(DEFAULT_LIMIT, |ShownOf(log[PageStart(log, r.cursor)..], r.includeTargeted)|)
    ensures |Refill(log, r)| < DEFAULT_LIMIT ==> NothingShown(log, upTo, |log|, r.includeTargeted)
  {
    hide PageAfter, ShownOf, Window, NothingShown;
    var c := PageStart(log, r.cursor);
    WindowPage(log, r.cursor, DEFAULT_LIMIT, r.includeTargeted);
    var m := TakeShown(log[c..], r.cursor, DEFAULT_LIMIT, r.includeTargeted);
    PageLength(log[c..], r.cursor, DEFAULT_LIMIT, r.includeTargeted);
    upTo := c + m;
    assert log[c..][..m] == log[c..upTo] && log[c..|log|] == log[c..];
    ShownSplit(log, c, upTo, |log|, r.includeTargeted);
    NothingBetween(log, upTo, |log|, r.includeTargeted);
  }

  // ------------------------------------------------------------ ordered publication

  /** `pending` is what is shown of the log up to `upTo`, and nothing between
      there and the next live event is shown. */
  ghost predicate Covers(r: Subscriber, log: seq<Event>, upTo: nat) {
    && r.cursor <= upTo <= |log| && r.position <= |log|
    && r.pending == ShownOf(log[r.cursor..upTo], r.includeTargeted)
    && NothingShown(log, upTo, r.position, r.includeTargeted)
  }

  ghost predicate OnTrack(r: Subscriber, log: seq<Event>) {
    InStep(r, log) && r.loaded && exists upTo: nat :: Covers(r, log, upTo)
  }

  lemma PopOnTrack(log: seq<Event>, r: Subscriber)
    requires InOrder(log) && OnTrack(r, log) && r.pending != []
    ensures OnTrack(Taken(log, r), log)
  {
    hide ShownOf, Shown, NothingShown;
    var upTo: nat :| Covers(r, log, upTo);
    var a := r.cursor;
    var m := FirstShown(log[a..upTo], r.includeTargeted);
    var b := a + m + 1;
    var r' := Taken(log, r);
    assert log[a..upTo][m] == log[a + m];
    assert r'.cursor == b;
    assert log[a..upTo][..m + 1] == log[a..b] && log[a..upTo][m + 1..] == log[b..upTo];
    ShownSplit(log, r.start, a, b, r.includeTargeted);
    assert Covers(r', log, upTo);
  }

  lemma EmptyPending(log: seq<Event>, r: Subscriber)
    requires OnTrack(r, log) && r.pending == []
    ensures NothingShown(log, r.cursor, r.position, r.includeTargeted)
  {
    hide ShownOf, Shown;
    var upTo: nat :| Covers(r, log, upTo);
    NothingBetween(log, r.cursor, upTo, r.includeTargeted);
  }

  lemma ReceiveOnTrack(log: seq<Event>, r: Subscriber)
    requires InOrder(log) && OnTrack(r, log) && r.pending == []
    requires r.position < |log| && !Lags(log, r)
    ensures OnTrack(Taken(log, r), log)
  {
    hide ShownOf, Shown;
    EmptyPending(log, r);
    var a, b := r.cursor, r.position + 1;
    var r' := Taken(log, r);
    assert log[a..a] == [] && log[b..b] == [];
    NoneShown([], r.includeTargeted);
    if r'.cursor == a {
      assert Covers(r', log, a);
    } else {
      LastShown(log, a, r.position, r.includeTargeted);
      ShownSplit(log, r.start, a, b, r.includeTargeted);
      assert Covers(r', log, b);
    }
  }

  lemma LastShown(log: seq<Event>, a: nat, n: nat, includeTargeted: bool)
    requires a <= n < |log| && Shown(log[n], includeTargeted) && NothingShown(log, a, n, includeTargeted)
    ensures ShownOf(log[a..n + 1], includeTargeted) == [log[n]]
  {
    hide ShownOf, Shown;
    NothingBetween(log, a, n, includeTargeted);
    ShownSplit(log, a, n, n + 1, includeTargeted);
    ShownFirst(log, n, n + 1, includeTargeted);
    assert log[n + 1..n + 1] == [];
    NoneShown([], includeTargeted);
  }

  /** A lag that drops nothing awaited: the refill and the live events from the
      oldest one still in the channel make up for it. */
  lemma LagOnTrack(log: seq<Event>, r: Subscriber)
    requires InOrder(log) && OnTrack(r, log) && Lags(log, r) && DropsNothing(log, r)
    ensures OnTrack(Taken(log, r), log)
  {
    hide ShownOf, Shown, Refill;
    EmptyPending(log, r);
    var c := PageStart(log, r.cursor);
    var upTo := RefillMeaning(log, r);
    assert NothingShown(log, r.cursor, c, r.includeTargeted);
    NothingBetween(log, r.cursor, c, r.includeTargeted);
    ShownSplit(log, r.cursor, c, upTo, r.includeTargeted);
    assert Covers(Taken(log, r), log, upTo);
  }

  /** What a new subscriber waits for is still retained, and fits one page. */
  ghost predicate Served(log: seq<Event>, after: nat, includeTargeted: bool) {
    && NothingShown(log, after, Lost(log), includeTargeted)
    && |ShownOf(log[Least(after, |log|)..], includeTargeted)| <= DEFAULT_LIMIT
  }

  lemma AheadServed(log: seq<Event>, after: nat, includeTargeted: bool)
    requires after >= |log|
    ensures Served(log, after, includeTargeted)
  {
    assert log[|log|..] == [];
  }

  lemma LoadOnTrack(log: seq<Event>, at: nat, r: Subscriber)
    requires InOrder(log) && at <= |log| && r.cursor <= |log|
    requires r == Subscribed(log[..at], r.cursor, r.includeTargeted) && Served(log[..at], r.cursor, r.includeTargeted)
    requires LeavesNothing(log, r)
    ensures OnTrack(Loaded(log, r), log)
  {
    hide ShownOf, Shown, Refill;
    var inc := r.includeTargeted;
    var c := PageStart(log, r.cursor);
    var upTo := RefillMeaning(log, r);
    var r' := Loaded(log, r);
    assert NothingShown(log, r.cursor, c, inc) by {
      assert forall i :: 0 <= i < at ==> log[..at][i] == log[i];
    }
    NothingBetween(log, r.cursor, c, inc);
    ShownSplit(log, r.cursor, c, upTo, inc);
    assert log[r.cursor..r.cursor] == [];
    NoneShown([], inc);
    if upTo < at && |r'.pending| == DEFAULT_LIMIT {
      assert log[..at][r.cursor..] == log[r.cursor..at];
      ShownSplit(log, r.cursor, upTo, at, inc);
      NothingBetween(log, upTo, at, inc);
    }
    assert Covers(r', log, upTo);
  }

  /** A subscriber that has not loaded since it subscribed at place `at`. */
  ghost predicate Waits(r: Subscriber, log: seq<Event>, at: nat) {
    && at <= |log|
    && r == Subscribed(log[..at], r.cursor, r.includeTargeted) && Served(log[..at], r.cursor, r.includeTargeted)
  }

  /** A subscriber that has loaded nothing, since it is ahead of the log. */
  ghost predicate Early(r: Subscriber, log: seq<Event>) {
    r.loaded && Ahead(r, log) && r.pending == [] && r.position <= |log|
  }

  ghost predicate Fine(r: Subscriber, log: seq<Event>, at: nat) {
    if r.loaded then OnTrack(r, log) || Early(r, log) else Waits(r, log, at)
  }

  lemma CatchUp(log: seq<Event>, r: Subscriber)
    requires r.loaded && r.start == r.cursor <= |log| && r.seen == [] && r.pending == [] && r.position <= r.cursor
    ensures OnTrack(r, log)
  {
    hide Shown;
    assert log[r.cursor..r.cursor] == [];
    assert Covers(r, log, r.cursor);
  }

  lemma GrowFine(log: seq<Event>, more: seq<Event>, r: Subscriber, at: nat)
    requires Fine(r, log, at) && log <= more
    ensures Fine(r, more, at)
  {
    hide ShownOf, Shown, Served;
    if Early(r, log) {
      if r.cursor <= |more| {
        CatchUp(more, r);
      }
    } else if r.loaded {
      assert log[r.start..r.cursor] == more[r.start..r.cursor];
      var upTo: nat :| Covers(r, log, upTo);
      assert log[r.cursor..upTo] == more[r.cursor..upTo];
      assert Covers(r, more, upTo);
    } else {
      assert log[..at] == more[..at];
    }
  }

  lemma FineInStep(log: seq<Event>, r: Subscriber, at: nat)
    requires Fine(r, log, at)
    ensures InStep(r, log)
  {
    if !r.loaded && r.cursor <= |log| {
      assert log[r.cursor..r.cursor] == [];
    }
  }

  lemma NothingToRefill(log: seq<Event>, r: Subscriber)
    requires InOrder(log) && r.cursor > |log|
    ensures Refill(log, r) == []
  {
    hide PageAfter, Window;
    WindowIsTail(log);
    PageNonempty(Window(log), r.cursor, DEFAULT_LIMIT, r.includeTargeted);
  }

  lemma LoadFine(log: seq<Event>, r: Subscriber, at: nat)
    requires InOrder(log) && Fine(r, log, at) && !r.loaded
    requires LeavesNothing(log, r)
    ensures Fine(Loaded(log, r), log, at)
  {
    hide Served, Refill, OnTrack, LeavesNothing;
    if r.cursor <= |log| {
      LoadOnTrack(log, at, r);
    } else {
      NothingToRefill(log, r);
    }
  }

  lemma TakeFine(log: seq<Event>, r: Subscriber, at: nat)
    requires InOrder(log) && Fine(r, log, at) && r.loaded && (r.pending != [] || r.position < |log|)
    requires Lags(log, r) ==> DropsNothing(log, r)
    ensures Fine(Taken(log, r), log, at)
  {
    hide OnTrack, DropsNothing, Refill;
    if Early(r, log) {
      NothingToRefill(log, r);
    } else if r.pending != [] {
      PopOnTrack(log, r);
    } else if Lags(log, r) {
      LagOnTrack(log, r);
    } else {
      ReceiveOnTrack(log, r);
    }
  }

  lemma {:induction false} ScheduleFine(s: State, r: Subscriber, steps: seq<Step>, moves: seq<Move>, at: nat)
    requires Schedule(s, r, steps, moves) && IsRun(s, steps)
    requires InOrder(End(s, steps).published) && Fine(r, s.published, at)
    ensures Fine(Outcome(s, r, steps, moves), End(s, steps).published, at)
    decreases |moves|
  {
    hide Enabled, Next, Taken, Loaded, Fine, DropsNothing, Lags;
    if moves == [] {
    } else {
      VisibleGrows(s, steps);
      assert InOrder(s.published);
      match moves[0]
      case BusStep(step) =>
        VisibleStep(s, step);
        GrowFine(s.published, Next(s, step).published, r, at);
        ScheduleFine(Next(s, step), r, steps[1..], moves[1..], at);
      case Load =>
        LoadFine(s.published, r, at);
        ScheduleFine(s, Loaded(s.published, r), steps, moves[1..], at);
      case Take =>
        TakeFine(s.published, r, at);
        ScheduleFine(s, Taken(s.published, r), steps, moves[1..], at);
    }
  }

  // ------------------------------------------------------------------ lost events

  /** Event `n` should have been given, but was not and is not pending. */
  ghost predicate Misses(r: Subscriber, log: seq<Event>, n: nat) {
    && r.loaded && r.start < n <= r.position <= |log| && Shown(log[n - 1], r.includeTargeted)
    && r.cursor <= |log| && (forall e :: e in r.seen ==> e.number != n)
    && (forall e :: e in r.pending ==> e.number != n && e.number <= |log|)
  }

  lemma MissesIsOffTrack(r: Subscriber, log: seq<Event>, n: nat)
    requires InOrder(log) && Misses(r, log, n)
    ensures !OnTrack(r, log) && (r.cursor >= n ==> !InStep(r, log))
  {
    hide ShownOf, Shown;
    if InStep(r, log) {
      ShownNumbers(log, r.start, r.cursor, r.includeTargeted, n);
    }
    forall upTo: nat | Covers(r, log, upTo) ensures r.cursor >= n {
      ShownNumbers(log, r.cursor, upTo, r.includeTargeted, n);
    }
  }

  lemma RefillNumbers(log: seq<Event>, r: Subscriber, e: Event)
    requires InOrder(log) && r.cursor <= |log| && e in Refill(log, r)
    ensures e.number > r.cursor && Lost(log) < e.number <= |log|
  {
    hide ShownOf, Shown;
    var upTo := RefillMeaning(log, r);
    ShownNumbers(log, PageStart(log, r.cursor), upTo, r.includeTargeted, e.number);
  }

  lemma TakeMisses(log: seq<Event>, r: Subscriber, n: nat)
    requires InOrder(log) && Misses(r, log, n) && (r.pending != [] || r.position < |log|)
    ensures Misses(Taken(log, r), log, n)
  {
    hide Shown, Refill;
    var r' := Taken(log, r);
    if r.pending != [] {
      assert forall e :: e in r'.pending || e == r.pending[0] ==> e in r.pending;
    } else if Lags(log, r) {
      forall e | e in r'.pending ensures e.number != n && e.number <= |log| {
        RefillNumbers(log, r, e);
      }
    } else {
      assert log[r.position].number == r.position + 1;
    }
  }

  /** A lag costs an event exactly when the channel dropped one that the
      subscriber still waits for. */
  lemma LagCostsExactlyWhen(log: seq<Event>, r: Subscriber)
    requires InOrder(log) && OnTrack(r, log) && Lags(log, r)
    ensures OnTrack(Taken(log, r), log) <==> DropsNothing(log, r)
    ensures !DropsNothing(log, r) ==> exists n: nat :: Misses(Taken(log, r), log, n)
  {
    hide Refill, ShownOf;
    if DropsNothing(log, r) {
      LagOnTrack(log, r);
    } else {
      var w := |log| - CHANNEL_CAPACITY;
      var n := SomeShown(log, Greater(r.cursor, r.position), w, r.includeTargeted);
      SeenNumbers(log, r);
      forall e | e in Refill(log, r) ensures e.number != n && e.number <= |log| {
        RefillNumbers(log, r, e);
      }
      assert Misses(Taken(log, r), log, n);
      MissesIsOffTrack(Taken(log, r), log, n);
    }
  }

  lemma SeenNumbers(log: seq<Event>, r: Subscriber)
    requires InOrder(log) && InStep(r, log)
    ensures forall e :: e in r.seen ==> e.number <= r.cursor
  {
    hide ShownOf, Shown;
    forall e | e in r.seen ensures e.number <= r.cursor {
      ShownNumbers(log, r.start, r.cursor, r.includeTargeted, e.number);
    }
  }

  // ------------------------------------------------------- composing schedules

  lemma ThenBus(s: State, r: Subscriber, steps: seq<Step>, moves: seq<Move>)
    requires IsRun(s, steps) && steps != [] && Schedule(Next(s, steps[0]), r, steps[1..], moves)
    ensures Schedule(s, r, steps, [BusStep(steps[0])] + moves)
    ensures Outcome(s, r, steps, [BusStep(steps[0])] + moves) == Outcome(Next(s, steps[0]), r, steps[1..], moves)
  {
    hide Enabled, Next;
    assert ([BusStep(steps[0])] + moves)[1..] == moves;
  }

  lemma ThenTake(s: State, r: Subscriber, steps: seq<Step>, moves: seq<Move>)
    requires r.loaded && (r.pending != [] || r.position < |s.published|) && !Lags(s.published, r)
    requires Schedule(s, Taken(s.published, r), steps, moves)
    ensures Schedule(s, r, steps, [Take] + moves)
    ensures Outcome(s, r, steps, [Take] + moves) == Outcome(s, Taken(s.published, r), steps, moves)
  {
    hide Taken, Lags, DropsNothing;
    assert ([Take] + moves)[1..] == moves;
  }

  lemma ThenLoad(s: State, r: Subscriber, steps: seq<Step>, moves: seq<Move>)
    requires !r.loaded && !s.locked && LeavesNothing(s.published, r)
    requires Schedule(s, Loaded(s.published, r), steps, moves)
    ensures Schedule(s, r, steps, [Load] + moves)
    ensures Outcome(s, r, steps, [Load] + moves) == Outcome(s, Loaded(s.published, r), steps, moves)
  {
    hide Loaded, LeavesNothing;
    assert ([Load] + moves)[1..] == moves;
  }

  /** All pending events given. */
  function Drained(r: Subscriber): Subscriber {
    if r.pending == [] then r
    else r.(pending := [], cursor := r.pending[|r.pending| - 1].number, seen := r.seen + r.pending)
  }

  lemma {:induction false} ThenDrain(s: State, r: Subscriber, steps: seq<Step>, moves: seq<Move>) returns (all: seq<Move>)
    requires r.loaded && Schedule(s, Drained(r), steps, moves)
    ensures Schedule(s, r, steps, all) && Outcome(s, r, steps, all) == Outcome(s, Drained(r), steps, moves)
    decreases |r.pending|
  {
    hide Schedule, Outcome;
    if r.pending == [] {
      all := moves;
    } else {
      var r' := Taken(s.published, r);
      assert r.seen + r.pending == r.seen + [r.pending[0]] + r.pending[1..];
      assert r'.pending == [] ==> r.pending == [r.pending[0]];
      assert Drained(r') == Drained(r);
      var rest := ThenDrain(s, r', steps, moves);
      ThenTake(s, r, steps, rest);
      all := [Take] + rest;
    }
  }

  /** Nothing is pending, every event sent so far has been taken, and the cursor
      is behind none of those that are shown from place `from` on. */
  ghost predicate Follows(r: Subscriber, log: seq<Event>, from: nat) {
    && r.loaded && r.pending == [] && r.position == |log|
    && forall i :: from <= i < |log| && Shown(log[i], r.includeTargeted) ==> log[i].number <= r.cursor
  }

  /** Take every event as it is sent. */
  function Attentive(steps: seq<Step>): seq<Move> {
    if steps == [] then []
    else [BusStep(steps[0])] + (if steps[0].Publish? then [Take] else []) + Attentive(steps[1..])
  }

  lemma OtherStep(s: State, step: Step)
    requires Enabled(s, step)
    ensures !step.Publish? ==> Next(s, step).published == s.published
    ensures step.Publish? ==>
      |Next(s, step).published| == |s.published| + 1 && Next(s, step).published[..|s.published|] == s.published
  {
  }

  lemma TakeFollows(log: seq<Event>, more: seq<Event>, r: Subscriber, from: nat)
    requires Follows(r, log, from) && |more| == |log| + 1 && more[..|log|] == log
    ensures r.loaded && r.position < |more| && !Lags(more, r) && Follows(Taken(more, r), more, from)
  {
    hide Shown, Refill;
    assert forall i :: 0 <= i < |log| ==> more[i] == log[i];
  }

  lemma ThenBusTake(s: State, r: Subscriber, steps: seq<Step>, moves: seq<Move>)
    requires IsRun(s, steps) && steps != [] && r.loaded
    requires var log := Next(s, steps[0]).published;
      && r.position < |log| && !Lags(log, r)
      && Schedule(Next(s, steps[0]), Taken(log, r), steps[1..], moves)
    ensures var t := Next(s, steps[0]);
      && Schedule(s, r, steps, [BusStep(steps[0]), Take] + moves)
      && Outcome(s, r, steps, [BusStep(steps[0]), Take] + moves) == Outcome(t, Taken(t.published, r), steps[1..], moves)
  {
    hide Enabled, Next, Schedule, Outcome, Taken, Lags;
    ThenTake(Next(s, steps[0]), r, steps[1..], moves);
    ThenBus(s, r, steps, [Take] + moves);
    assert [BusStep(steps[0])] + ([Take] + moves) == [BusStep(steps[0]), Take] + moves;
  }

  lemma {:induction false} Follow(s: State, r: Subscriber, steps: seq<Step>, from: nat)
    requires IsRun(s, steps) && Follows(r, s.published, from)
    ensures Schedule(s, r, steps, Attentive(steps))
    ensures Follows(Outcome(s, r, steps, Attentive(steps)), End(s, steps).published, from)
    decreases |steps|
  {
    hide Enabled, Next, Schedule, Outcome, Follows, Taken, Lags;
    if steps == [] {
      FollowNothing(s, r);
    } else {
      var step, rest := steps[0], steps[1..];
      var t := Next(s, step);
      OtherStep(s, step);
      if step.Publish? {
        TakeFollows(s.published, t.published, r, from);
        Follow(t, Taken(t.published, r), rest, from);
        ThenBusTake(s, r, steps, Attentive(rest));
        assert Attentive(steps) == [BusStep(step), Take] + Attentive(rest);
      } else {
        Follow(t, r, rest, from);
        ThenBus(s, r, steps, Attentive(rest));
        assert Attentive(steps) == [BusStep(step)] + Attentive(rest);
      }
    }
  }

  lemma FollowNothing(s: State, r: Subscriber)
    ensures Schedule(s, r, [], []) && Outcome(s, r, [], []) == r
  {
  }

  // -------------------------------------------------------- events never given

  /** No later move gives a missed event. */
  lemma {:induction false} MissedForGood(s: State, r: Subscriber, steps: seq<Step>, moves: seq<Move>, n: nat)
    requires Schedule(s, r, steps, moves) && IsRun(s, steps) && InOrder(End(s, steps).published)
    requires Misses(r, s.published, n)
    ensures Misses(Outcome(s, r, steps, moves), End(s, steps).published, n)
    decreases |moves|
  {
    hide Enabled, Next, Taken, Loaded, DropsNothing, Lags, Misses;
    if moves == [] {
    } else {
      VisibleGrows(s, steps);
      assert InOrder(s.published);
      match moves[0]
      case BusStep(step) =>
        VisibleStep(s, step);
        GrowMisses(s.published, Next(s, step).published, r, n);
        MissedForGood(Next(s, step), r, steps[1..], moves[1..], n);
      case Load =>
        NotTwice(s.published, r, n);
      case Take =>
        TakeMisses(s.published, r, n);
        MissedForGood(s, Taken(s.published, r), steps, moves[1..], n);
    }
  }

  lemma NotTwice(log: seq<Event>, r: Subscriber, n: nat)
    requires Misses(r, log, n)
    ensures r.loaded
  {
  }

  lemma GrowMisses(log: seq<Event>, more: seq<Event>, r: Subscriber, n: nat)
    requires Misses(r, log, n) && log <= more
    ensures Misses(r, more, n)
  {
    hide Shown;
    assert log[n - 1] == more[n - 1];
  }

  /** A subscriber that is not served misses an event behind its first page. */
  lemma LeftBehind(log: seq<Event>, r: Subscriber) returns (n: nat)
    requires InOrder(log) && r == Subscribed(log, r.cursor, r.includeTargeted)
    requires !Served(log, r.cursor, r.includeTargeted)
    ensures Misses(Drained(Loaded(log, r)), log, n)
  {
    hide ShownOf, Shown, NothingShown, Refill, Misses, Drained, Loaded, Served;
    if r.cursor > |log| {
      AheadServed(log, r.cursor, r.includeTargeted);
    }
    var inc := r.includeTargeted;
    var upTo := RefillMeaning(log, r);
    if !NothingShown(log, r.cursor, Lost(log), inc) {
      n := SomeShown(log, r.cursor, Lost(log), inc);
    } else {
      BehindFullPage(log, r, upTo);
      n := SomeShown(log, upTo, |log|, inc);
    }
    forall e | e in Refill(log, r) ensures e.number != n && e.number <= |log| {
      RefillNumbers(log, r, e);
      ShownNumbers(log, PageStart(log, r.cursor), upTo, inc, e.number);
    }
    PageMisses(log, r, n);
  }

  lemma PageMisses(log: seq<Event>, r: Subscriber, n: nat)
    requires r.cursor < n <= |log| && r == Subscribed(log, r.cursor, r.includeTargeted)
    requires Shown(log[n - 1], r.includeTargeted)
    requires forall e :: e in Refill(log, r) ==> e.number != n && e.number <= |log|
    ensures Misses(Drained(Loaded(log, r)), log, n)
  {
    hide Shown, Refill;
  }

  lemma BehindFullPage(log: seq<Event>, r: Subscriber, upTo: nat)
    requires r.cursor <= |log| && PageStart(log, r.cursor) <= upTo <= |log|
    requires |Refill(log, r)| == Least(DEFAULT_LIMIT, |ShownOf(log[PageStart(log, r.cursor)..], r.includeTargeted)|)
    requires Refill(log, r) == ShownOf(log[PageStart(log, r.cursor)..upTo], r.includeTargeted)
    requires NothingShown(log, r.cursor, Lost(log), r.includeTargeted)
    requires !Served(log, r.cursor, r.includeTargeted)
    ensures !NothingShown(log, upTo, |log|, r.includeTargeted)
  {
    hide ShownOf, Shown, Refill;
    var inc := r.includeTargeted;
    var c := PageStart(log, r.cursor);
    assert log[r.cursor..|log|] == log[r.cursor..] && log[c..|log|] == log[c..];
    NothingBetween(log, r.cursor, c, inc);
    ShownSplit(log, r.cursor, c, |log|, inc);
    ShownSplit(log, c, upTo, |log|, inc);
    NothingBetween(log, upTo, |log|, inc);
  }

  /** Some event shown to the subscriber is published during the run. */
  ghost predicate ShowsMore(s: State, steps: seq<Step>, includeTargeted: bool)
    requires IsRun(s, steps)
  {
    !NothingShown(End(s, steps).published, |s.published|, |End(s, steps).published|, includeTargeted)
  }

  /** Load as soon as the lock is free, take the whole page, then take every
      event as it is sent: the first event shown live is past the missed one. */
  lemma {:induction false} LateMissed(s: State, r: Subscriber, steps: seq<Step>) returns (moves: seq<Move>)
    requires IsRun(s, steps) && InOrder(End(s, steps).published) && ShowsMore(s, steps, r.includeTargeted)
    requires r == Subscribed(s.published, r.cursor, r.includeTargeted)
    requires !Served(s.published, r.cursor, r.includeTargeted)
    ensures Schedule(s, r, steps, moves)
    ensures !InStep(Outcome(s, r, steps, moves), End(s, steps).published)
    decreases |steps|
  {
    hide Enabled, Next, Schedule, Outcome, Served, InStep, Misses, Loaded, Drained, NothingShown;
    if s.locked {
      LockedStep(s, steps, r.includeTargeted);
      moves := LateMissed(Next(s, steps[0]), r, steps[1..]);
      ThenBus(s, r, steps, moves);
      moves := [BusStep(steps[0])] + moves;
    } else {
      VisibleGrows(s, steps);
      var n := LeftBehind(s.published, r);
      var loaded := Loaded(s.published, r);
      PageTaken(s, r);
      FollowMisses(s, Drained(loaded), steps, n);
      moves := ThenDrain(s, loaded, steps, Attentive(steps));
      ThenLoad(s, r, steps, moves);
      moves := [Load] + moves;
    }
  }

  lemma LockedStep(s: State, steps: seq<Step>, includeTargeted: bool)
    requires IsRun(s, steps) && s.locked && ShowsMore(s, steps, includeTargeted)
    ensures steps != [] && Next(s, steps[0]).published == s.published
    ensures ShowsMore(Next(s, steps[0]), steps[1..], includeTargeted)
  {
    hide Shown;
  }

  lemma PageTaken(s: State, r: Subscriber)
    requires r == Subscribed(s.published, r.cursor, r.includeTargeted)
    ensures LeavesNothing(s.published, r) && Loaded(s.published, r).loaded
    ensures Follows(Drained(Loaded(s.published, r)), s.published, |s.published|)
    ensures Drained(Loaded(s.published, r)).includeTargeted == r.includeTargeted
  {
    hide Shown, Refill;
  }

  lemma FollowMisses(s: State, r: Subscriber, steps: seq<Step>, n: nat)
    requires IsRun(s, steps) && InOrder(End(s, steps).published) && ShowsMore(s, steps, r.includeTargeted)
    requires Misses(r, s.published, n) && Follows(r, s.published, |s.published|)
    ensures Schedule(s, r, steps, Attentive(steps))
    ensures !InStep(Outcome(s, r, steps, Attentive(steps)), End(s, steps).published)
  {
    hide Shown, Schedule, Outcome, InStep, IsRun, End;
    var from, log := |s.published|, End(s, steps).published;
    Follow(s, r, steps, from);
    MissedForGood(s, r, steps, Attentive(steps), n);
    var r' := Outcome(s, r, steps, Attentive(steps));
    SameAudience(s, r, steps, Attentive(steps));
    var i :| from <= i < |log| && Shown(log[i], r.includeTargeted);
    MissesIsOffTrack(r', log, n);
  }

  lemma {:induction false} SameAudience(s: State, r: Subscriber, steps: seq<Step>, moves: seq<Move>)
    requires Schedule(s, r, steps, moves)
    ensures Outcome(s, r, steps, moves).includeTargeted == r.includeTargeted
    decreases |moves|
  {
    hide Enabled, Next, Refill, Lags, DropsNothing, LeavesNothing;
    if moves == [] {
    } else {
      match moves[0]
      case BusStep(step) => SameAudience(Next(s, step), r, steps[1..], moves[1..]);
      case Load => SameAudience(s, Loaded(s.published, r), steps, moves[1..]);
      case Take => SameAudience(s, Taken(s.published, r), steps, moves[1..]);
    }
  }

  // ---------------------------------------------------------------------- disorder

  /** It has been given every event so far. */
  ghost predicate UpToDate(r: Subscriber, log: seq<Event>) {
    && r.loaded && r.includeTargeted && r.start == 0 && r.pending == []
    && InOrder(log) && r.seen == log && r.position == r.cursor == |log|
  }

  function Buses(steps: seq<Step>): seq<Move> {
    if steps == [] then [] else [BusStep(steps[0])] + Buses(steps[1..])
  }

  lemma {:induction false} NoMoreMoves(s: State, r: Subscriber, steps: seq<Step>)
    requires IsRun(s, steps)
    ensures Schedule(s, r, steps, Buses(steps)) && Outcome(s, r, steps, Buses(steps)) == r
    decreases |steps|
  {
    hide Enabled, Next;
    if steps == [] {
    } else {
      assert Buses(steps)[1..] == Buses(steps[1..]);
      NoMoreMoves(Next(s, steps[0]), r, steps[1..]);
    }
  }

  lemma PublishedNext(s: State, r: Subscriber, step: Step)
    requires UpToDate(r, s.published) && NumbersOk(s) && Enabled(s, step) && step.Publish?
    ensures var log := Next(s, step).published;
      && |log| == |s.published| + 1 && log[..|s.published|] == s.published && !Lags(log, r)
      && Taken(log, r) == r.(position := |log|, cursor := log[|log| - 1].number, seen := log)
      && log[|log| - 1].number >= |log|
  {
    hide Refill;
    NoEarlierNumber(s, step);
    var log := Next(s, step).published;
    assert r.seen + [log[|log| - 1]] == log;
  }

  lemma LastDecides(log: seq<Event>)
    requires log != [] && InOrder(log[..|log| - 1])
    ensures InOrder(log) <==> log[|log| - 1].number == |log|
  {
    assert forall i :: 0 <= i < |log| - 1 ==> log[i] == log[..|log| - 1][i];
  }

  lemma {:induction false} DisorderMissed(s: State, r: Subscriber, steps: seq<Step>) returns (moves: seq<Move>)
    requires IsRun(s, steps) && NumbersOk(s) && UpToDate(r, s.published) && !InOrder(End(s, steps).published)
    ensures Schedule(s, r, steps, moves)
    ensures !InStep(Outcome(s, r, steps, moves), End(s, steps).published)
    decreases |steps|
  {
    hide NumbersOk, Enabled, Next, Taken, Lags, Schedule, Outcome, ShownOf;
    var step, rest := steps[0], steps[1..];
    var t := Next(s, step);
    StepKeepsNumbers(s, step);
    if !step.Publish? {
      OtherStep(s, step);
      moves := DisorderMissed(t, r, rest);
    } else {
      PublishedNext(s, r, step);
      LastDecides(t.published);
      var r' := Taken(t.published, r);
      if InOrder(t.published) {
        moves := DisorderMissed(t, r', rest);
      } else {
        moves := Buses(rest);
        NoMoreMoves(t, r', rest);
        var log := End(t, rest).published;
        if r'.cursor <= |log| {
          ShownAll(log[0..r'.cursor]);
        }
      }
      ThenTake(t, r, rest, moves);
      moves := [Take] + moves;
    }
    ThenBus(s, r, steps, moves);
    moves := [BusStep(step)] + moves;
  }

  // ------------------------------------------------------------------ the theorems

  ghost predicate AlwaysInStep(s: State, r: Subscriber, steps: seq<Step>)
    requires IsRun(s, steps)
  {
    forall moves :: Schedule(s, r, steps, moves) ==> InStep(Outcome(s, r, steps, moves), End(s, steps).published)
  }

  /** Ordered publication keeps a subscriber in step, whenever it subscribes and
      from whatever cursor, if what it waits for then is still retained and fits
      one page. */
  lemma OrderSuffices(s: State, after: nat, includeTargeted: bool, steps: seq<Step>)
    requires IsRun(s, steps) && InOrder(End(s, steps).published)
    requires Served(s.published, after, includeTargeted)
    ensures AlwaysInStep(s, Subscribed(s.published, after, includeTargeted), steps)
  {
    hide Schedule, Outcome, InStep, Served, OnTrack;
    var r := Subscribed(s.published, after, includeTargeted);
    var at := |s.published|;
    assert s.published[..at] == s.published;
    forall moves | Schedule(s, r, steps, moves)
      ensures InStep(Outcome(s, r, steps, moves), End(s, steps).published)
    {
      ScheduleFine(s, r, steps, moves, at);
      FineInStep(End(s, steps).published, Outcome(s, r, steps, moves), at);
    }
  }

  /** And only then, as soon as a later event is shown to it: of a run that
      publishes in order, a subscriber is in step under every schedule exactly
      when every event it waits for at the start is retained, and they are no
      more than 50. */
  lemma InStepExactlyWhen(s: State, after: nat, includeTargeted: bool, steps: seq<Step>)
    requires IsRun(s, steps) && InOrder(End(s, steps).published)
    requires ShowsMore(s, steps, includeTargeted)
    ensures AlwaysInStep(s, Subscribed(s.published, after, includeTargeted), steps) <==>
            Served(s.published, after, includeTargeted)
  {
    hide Schedule, Outcome, InStep, Served, ShowsMore;
    if Served(s.published, after, includeTargeted) {
      OrderSuffices(s, after, includeTargeted, steps);
    } else {
      var moves := LateMissed(s, Subscribed(s.published, after, includeTargeted), steps);
    }
  }

  /** On every run of the bus, a subscriber to all events from the start that
      loads and takes events in time is in step exactly when every publication
      was of the oldest outstanding number. */
  lemma SubscriberSeesLog(s: State, steps: seq<Step>)
    requires Initial(s) && IsRun(s, steps)
    ensures AlwaysInStep(s, Subscribed([], 0, true), steps) <==> AlwaysOldest(s, steps)
  {
    hide NumbersOk, Schedule, Outcome, InStep, AlwaysOldest, Loaded;
    InitialNumbers(s);
    OrderedPublication(s, steps);
    var r := Subscribed([], 0, true);
    if AlwaysOldest(s, steps) {
      NothingAwaited();
      OrderSuffices(s, 0, true, steps);
    } else {
      EmptyLoad(r);
      var moves := DisorderMissed(s, Loaded([], r), steps);
      ThenLoad(s, r, steps, moves);
    }
  }

  lemma EmptyLoad(r: Subscriber)
    ensures Loaded([], r) == r.(loaded := true, pending := [])
  {
  }

  lemma NothingAwaited()
    ensures Served([], 0, true)
  {
  }

  // ------------------------------------------------------------------- the witness

  function Plain(number: nat): Event {
    Event(PresenceChanged, number, Version(number, 0, 0, 0, 0), "", false)
  }

  /** A bus that has published `n` events and is about to publish one more. */
  function After(n: nat): State {
    State(n + 1, n, false, seq(n, i requires 0 <= i < n => Plain(i + 1)), [Allocated(n + 1)], [])
  }

  function PublishPlain(n: nat): Step {
    Publish(0, PresenceChanged, Version(n, 0, 0, 0, 0), "", false)
  }

  /** With 51 events published and retained, a subscriber from the start, which
      the request's default cursor is, is given events 1 to 50, then event 52. */
  lemma FiftyFirstIsMissed() returns (moves: seq<Move>)
    ensures var s, r, steps := After(51), Subscribed(After(51).published, 0, true), [PublishPlain(52)];
      && IsRun(s, steps) && InOrder(End(s, steps).published) && Window(s.published) == s.published
      && Schedule(s, r, steps, moves)
      && Outcome(s, r, steps, moves).seen == s.published[..50] + [Plain(52)]
  {
    hide ShownOf, Schedule, Outcome, PageAfter;
    var s, r, steps := After(51), Subscribed(After(51).published, 0, true), [PublishPlain(52)];
    var loaded := Loaded(s.published, r);
    var upTo := RefillMeaning(s.published, r);
    assert s.published[0..] == s.published && s.published[0..upTo] == s.published[..upTo];
    ShownAll(s.published);
    ShownAll(s.published[..upTo]);
    var drained := Drained(loaded);
    assert steps[1..] == [] && [BusStep(steps[0]), Take] + [] == [BusStep(steps[0]), Take];
    var t := Next(s, steps[0]);
    assert t.published == s.published + [Plain(52)];
    FollowNothing(t, Taken(t.published, drained));
    ThenBusTake(s, drained, steps, []);
    moves := ThenDrain(s, loaded, steps, [BusStep(steps[0]), Take]);
    PageTaken(s, r);
    ThenLoad(s, r, steps, moves);
    moves := [Load] + moves;
  }
}
