/** `ControlPlaneManager` of crates/app/src/control_plane.rs: the event bus.
    The class records events as one atomic step each; the protocol below it
    interleaves any number of recorders and waiters at the granularity of the
    individual atomics, the retention lock and `Notify`. */
module EventBus {
  import opened Sequences
  import opened Retention

  datatype Lane = Presence | Health | Sessions | Approvals | Acp

  datatype Kind =
    | PresenceChanged | HealthChanged | SessionChanged | SessionMessage
    | ApprovalRequested | ApprovalResolved | PairingRequested | PairingResolved
    | AcpSessionChanged | AcpTurnEvent

  datatype Version = Version(presence: nat, health: nat, sessions: nat, approvals: nat, acp: nat)

  datatype Event = Event(kind: Kind, number: nat, version: Version, payload: string, targeted: bool)

  function Bump(v: Version, lane: Lane): Version {
    match lane
    case Presence => v.(presence := v.presence + 1)
    case Health => v.(health := v.health + 1)
    case Sessions => v.(sessions := v.sessions + 1)
    case Approvals => v.(approvals := v.approvals + 1)
    case Acp => v.(acp := v.acp + 1)
  }

  function Total(v: Version): nat {
    v.presence + v.health + v.sessions + v.approvals + v.acp
  }

  predicate NoOlder(a: Version, b: Version) {
    && a.presence <= b.presence && a.health <= b.health && a.sessions <= b.sessions
    && a.approvals <= b.approvals && a.acp <= b.acp
  }

  // ------------------------------------------------------------------- reading

  predicate Shown(event: Event, includeTargeted: bool) {
    includeTargeted || !event.targeted
  }

  predicate Awaited(event: Event, after: nat, includeTargeted: bool) {
    Shown(event, includeTargeted) && event.number > after
  }

  /** `recent_events_after`: the first `n` awaited events. */
  function PageAfter(events: seq<Event>, after: nat, n: nat, includeTargeted: bool): seq<Event> {
    if events == [] || n == 0 then []
    else if Awaited(events[0], after, includeTargeted) then
      [events[0]] + PageAfter(events[1..], after, n - 1, includeTargeted)
    else PageAfter(events[1..], after, n, includeTargeted)
  }

  ghost predicate HasAwaited(events: seq<Event>, after: nat, includeTargeted: bool) {
    exists i :: 0 <= i < |events| && Awaited(events[i], after, includeTargeted)
  }

  /** A page is empty exactly when nothing awaited is retained. */
  lemma {:induction false} PageNonempty(events: seq<Event>, after: nat, n: nat, includeTargeted: bool)
    requires n > 0
    ensures PageAfter(events, after, n, includeTargeted) != [] <==> HasAwaited(events, after, includeTargeted)
  {
    if events != [] && !Awaited(events[0], after, includeTargeted) {
      PageNonempty(events[1..], after, n, includeTargeted);
      if HasAwaited(events, after, includeTargeted) {
        var i :| 0 <= i < |events| && Awaited(events[i], after, includeTargeted);
        assert events[1..][i - 1] == events[i];
      }
      if HasAwaited(events[1..], after, includeTargeted) {
        var i :| 0 <= i < |events[1..]| && Awaited(events[1..][i], after, includeTargeted);
        assert events[i + 1] == events[1..][i];
      }
    }
  }

  /** A page of events in number order: unread events, targeted ones only on
      demand, in order; what is left out comes after a full page. */
  lemma {:induction false} PageMeaning(events: seq<Event>, after: nat, n: nat, includeTargeted: bool)
    requires forall i, j :: 0 <= i < j < |events| ==> events[i].number < events[j].number
    ensures var page := PageAfter(events, after, n, includeTargeted);
      && |page| <= n
      && (forall e :: e in page ==> e in events && e.number > after && (e.targeted ==> includeTargeted))
      && (forall i, j :: 0 <= i < j < |page| ==> page[i].number < page[j].number)
      && (forall e :: e in events && e.number > after && (e.targeted ==> includeTargeted) && e !in page ==>
            |page| == n && forall g :: g in page ==> g.number < e.number)
    decreases |events|
  {
    if events == [] || n == 0 {
    } else {
      var taken := Awaited(events[0], after, includeTargeted);
      var rest := events[1..];
      PageMeaning(rest, after, if taken then n - 1 else n, includeTargeted);
      var page := PageAfter(events, after, n, includeTargeted);
      assert forall e :: e in events <==> e == events[0] || e in rest;
      assert forall e :: e in rest ==> events[0].number < e.number;
    }
  }

  // ------------------------------------------------------------------- the bus

  datatype Counts = Counts(presence: nat, sessions: nat, pendingApprovals: nat, acpSessions: nat)

  /** Events are numbered without gaps; each bumps exactly one lane, so its
      version adds up to its number and versions never go back. */
  ghost predicate LogOk(log: seq<Event>) {
    && (forall i :: 0 <= i < |log| ==> log[i].number == i + 1 && Total(log[i].version) == i + 1)
    && (forall i, j :: 0 <= i < j < |log| ==> NoOlder(log[i].version, log[j].version))
  }

  ghost predicate BusOk(sequence: nat, version: Version, recent: seq<Event>, log: seq<Event>) {
    && LogOk(log)
    && sequence == |log| == Total(version)
    && recent == Window(log)
    && (forall i :: 0 <= i < |log| ==> NoOlder(log[i].version, version))
  }

  lemma RecordKeeps(sequence: nat, version: Version, recent: seq<Event>, log: seq<Event>, lane: Lane, event: Event)
    requires BusOk(sequence, version, recent, log)
    requires event.number == sequence + 1 && event.version == Bump(version, lane)
    ensures BusOk(sequence + 1, Bump(version, lane), Window(recent + [event]), log + [event])
  {
    WindowSnoc(log, event);
    hide Window;
    assert NoOlder(version, event.version);
  }

  lemma EmptyBusOk()
    ensures BusOk(0, Version(0, 0, 0, 0, 0), [], [])
  {
  }

  class Manager {
    var sequence: nat
    var version: Version
    var counts: Counts
    var runtimeReady: bool
    var recent: seq<Event>
    ghost var log: seq<Event>

    ghost predicate Valid() reads this {
      BusOk(sequence, version, recent, log)
    }

    constructor ()
      ensures Valid() && log == [] && !runtimeReady && counts == Counts(0, 0, 0, 0)
    {
      sequence := 0;
      version := Version(0, 0, 0, 0, 0);
      counts := Counts(0, 0, 0, 0);
      runtimeReady := false;
      recent := [];
      log := [];
      new;
      hide BusOk;
      EmptyBusOk();
    }

    method RecordEvent(lane: Lane, kind: Kind, payload: string, targeted: bool) returns (event: Event)
      requires Valid()
      modifies this`sequence, this`version, this`recent, this`log
      ensures Valid()
      ensures event == Event(kind, |old(log)| + 1, Bump(old(version), lane), payload, targeted)
      ensures version == event.version
      ensures version.presence == old(version).presence + (if lane.Presence? then 1 else 0)
      ensures version.health == old(version).health + (if lane.Health? then 1 else 0)
      ensures version.sessions == old(version).sessions + (if lane.Sessions? then 1 else 0)
      ensures version.approvals == old(version).approvals + (if lane.Approvals? then 1 else 0)
      ensures version.acp == old(version).acp + (if lane.Acp? then 1 else 0)
      ensures log == old(log) + [event]
    {
      hide LogOk;
      version := Bump(version, lane);
      sequence := sequence + 1;
      event := Event(kind, sequence, version, payload, targeted);
      RecordKeeps(old(sequence), old(version), recent, log, lane, event);
      PushRecentEvent(event);
      log := log + [event];
    }

    /** `push_recent_event` */
    method PushRecentEvent(event: Event)
      modifies this`recent
      ensures old(|recent|) <= EVENT_LIMIT ==> recent == Window(old(recent) + [event])
    {
      recent := recent + [event];
      ghost var all := recent;
      while |recent| > EVENT_LIMIT
        invariant |recent| <= |all| && recent == all[|all| - |recent|..]
        invariant |all| > EVENT_LIMIT ==> |recent| >= EVENT_LIMIT
        invariant |all| <= EVENT_LIMIT ==> recent == all
      {
        recent := recent[1..];
      }
    }

    method RecordPresenceChanged(count: nat, payload: string) returns (event: Event)
      requires Valid()
      modifies this
      ensures Valid()
      ensures event == Event(PresenceChanged, |old(log)| + 1, Bump(old(version), Presence), payload, false)
      ensures log == old(log) + [event]
      ensures version == event.version == old(version).(presence := old(version).presence + 1)
      ensures counts == old(counts).(presence := count) && runtimeReady == old(runtimeReady)
    {
      counts := counts.(presence := count);
      event := RecordEvent(Presence, PresenceChanged, payload, false);
    }

    method RecentEventsAfter(after: nat, limit: nat, includeTargeted: bool) returns (events: seq<Event>)
      requires Valid()
      ensures events == PageAfter(Window(log), after, Clamp(limit, 1, EVENT_LIMIT), includeTargeted)
      ensures |events| <= Clamp(limit, 1, EVENT_LIMIT)
      ensures forall e :: e in events ==> e in Window(log) && e.number > after && (e.targeted ==> includeTargeted)
      ensures forall i, j :: 0 <= i < j < |events| ==> events[i].number < events[j].number
      ensures forall e :: e in Window(log) && e.number > after && (e.targeted ==> includeTargeted) && e !in events ==>
        |events| == Clamp(limit, 1, EVENT_LIMIT) && forall g :: g in events ==> g.number < e.number
    {
      PageMeaning(recent, after, Clamp(limit, 1, EVENT_LIMIT), includeTargeted);
      events := PageAfter(recent, after, Clamp(limit, 1, EVENT_LIMIT), includeTargeted);
    }
  }

  // ------------------------------------------------- recorders and waiters

  /** A recorder takes its number, then publishes under the retention lock and
      notifies before the lock is released. */
  datatype Recorder = Idle | Allocated(number: nat) | Publishing

  /** Where a waiter stands in `wait_for_recent_events`. */
  datatype Pc =
    | Top
    | Armed(gen: nat)
    | Parked(gen: nat)
    | Delivered(events: seq<Event>)
    | TimedOut

  datatype Waiter = Waiter(after: nat, limit: nat, includeTargeted: bool, pc: Pc)

  datatype State = State(
    taken: nat, generation: nat, locked: bool,
    published: seq<Event>, recorders: seq<Recorder>, waiters: seq<Waiter>)

  datatype Step =
    | Allocate(r: nat)
    | Publish(r: nat, kind: Kind, version: Version, payload: string, targeted: bool)
    | NotifyWaiters(r: nat)
    | Arm(w: nat)
    | Look(w: nat, expired: bool)
    | Wake(w: nat)
    | Expire(w: nat)

  predicate Enabled(s: State, step: Step) {
    match step
    case Allocate(r) => r < |s.recorders| && s.recorders[r].Idle?
    case Publish(r, _, _, _, _) => r < |s.recorders| && s.recorders[r].Allocated? && !s.locked
    case NotifyWaiters(r) => r < |s.recorders| && s.recorders[r].Publishing?
    case Arm(w) => w < |s.waiters| && s.waiters[w].pc.Top?
    case Look(w, _) => w < |s.waiters| && s.waiters[w].pc.Armed? && !s.locked
    case Wake(w) => w < |s.waiters| && s.waiters[w].pc.Parked? && s.waiters[w].pc.gen < s.generation
    case Expire(w) => w < |s.waiters| && s.waiters[w].pc.Parked?
  }

  function MoveTo(s: State, w: nat, pc: Pc): State
    requires w < |s.waiters|
  {
    s.(waiters := s.waiters[w := s.waiters[w].(pc := pc)])
  }

  function WaiterPage(s: State, w: nat): seq<Event>
    requires w < |s.waiters|
  {
    var me := s.waiters[w];
    PageAfter(Window(s.published), me.after, Clamp(me.limit, 1, EVENT_LIMIT), me.includeTargeted)
  }

  function Next(s: State, step: Step): State
    requires Enabled(s, step)
  {
    match step
    case Allocate(r) =>
      s.(taken := s.taken + 1, recorders := s.recorders[r := Allocated(s.taken + 1)])
    case Publish(r, kind, version, payload, targeted) =>
      s.(locked := true,
         published := s.published + [Event(kind, s.recorders[r].number, version, payload, targeted)],
         recorders := s.recorders[r := Publishing])
    case NotifyWaiters(r) =>
      s.(locked := false, generation := s.generation + 1, recorders := s.recorders[r := Idle])
    case Arm(w) => MoveTo(s, w, Armed(s.generation))
    case Look(w, expired) =>
      var page := WaiterPage(s, w);
      MoveTo(s, w, if page != [] then Delivered(page) else if expired then TimedOut else Parked(s.waiters[w].pc.gen))
    case Wake(w) => MoveTo(s, w, Top)
    case Expire(w) => MoveTo(s, w, TimedOut)
  }

  ghost predicate Initial(s: State) {
    && s.taken == 0 && !s.locked && s.published == []
    && (forall r :: 0 <= r < |s.recorders| ==> s.recorders[r] == Idle)
    && (forall w :: 0 <= w < |s.waiters| ==> s.waiters[w].pc == Top)
  }

  ghost predicate IsRun(s: State, steps: seq<Step>)
    decreases |steps|
  {
    steps == [] || (Enabled(s, steps[0]) && IsRun(Next(s, steps[0]), steps[1..]))
  }

  ghost function End(s: State, steps: seq<Step>): State
    requires IsRun(s, steps)
    decreases |steps|
  {
    if steps == [] then s else End(Next(s, steps[0]), steps[1..])
  }

  // ---------------------------------------------------------- no lost wake-up

  ghost predicate HasMatch(s: State, me: Waiter) {
    HasAwaited(Window(s.published), me.after, me.includeTargeted)
  }

  ghost predicate WaiterOk(s: State, me: Waiter) {
    match me.pc
    case Armed(g) => g <= s.generation
    case Parked(g) => g <= s.generation && (g == s.generation && HasMatch(s, me) ==> s.locked)
    case Delivered(events) => events != [] && forall e :: e in events ==> Awaited(e, me.after, me.includeTargeted)
    case _ => true
  }

  ghost predicate WaitersOk(s: State) {
    forall w :: 0 <= w < |s.waiters| ==> WaiterOk(s, s.waiters[w])
  }

  lemma {:induction false} PageAwaited(events: seq<Event>, after: nat, n: nat, includeTargeted: bool)
    ensures forall e :: e in PageAfter(events, after, n, includeTargeted) ==> Awaited(e, after, includeTargeted)
  {
    if events == [] || n == 0 {
    } else {
      PageAwaited(events[1..], after, n - 1, includeTargeted);
      PageAwaited(events[1..], after, n, includeTargeted);
    }
  }

  lemma StepKeepsWaiters(s: State, step: Step)
    requires WaitersOk(s) && Enabled(s, step)
    ensures WaitersOk(Next(s, step))
  {
    hide HasAwaited, PageAfter, Window;
    var t := Next(s, step);
    if step.Look? {
      var me := s.waiters[step.w];
      PageNonempty(Window(s.published), me.after, Clamp(me.limit, 1, EVENT_LIMIT), me.includeTargeted);
      PageAwaited(Window(s.published), me.after, Clamp(me.limit, 1, EVENT_LIMIT), me.includeTargeted);
      assert WaiterOk(s, me);
    }
    forall w | 0 <= w < |t.waiters| ensures WaiterOk(t, t.waiters[w]) {
      assert WaiterOk(s, s.waiters[w]);
    }
  }

  lemma {:induction false} RunKeepsWaiters(s: State, steps: seq<Step>)
    requires WaitersOk(s) && IsRun(s, steps)
    ensures WaitersOk(End(s, steps))
    decreases |steps|
  {
    hide WaitersOk, Enabled, Next;
    if steps == [] {
    } else {
      StepKeepsWaiters(s, steps[0]);
      RunKeepsWaiters(Next(s, steps[0]), steps[1..]);
    }
  }

  /** No lost wake-up: whenever the retention lock is free, a waiter blocked on
      an unsignalled future has no awaited event retained. What a waiter
      returns is never empty and holds awaited events only. */
  lemma NoLostWakeup(s: State, steps: seq<Step>, w: nat)
    requires Initial(s) && IsRun(s, steps) && w < |End(s, steps).waiters|
    ensures var e := End(s, steps);
      var me := e.waiters[w];
      && (me.pc.Parked? && me.pc.gen >= e.generation && HasMatch(e, me) ==> e.locked)
      && (me.pc.Delivered? ==> me.pc.events != [] && forall x :: x in me.pc.events ==> Awaited(x, me.after, me.includeTargeted))
  {
    RunKeepsWaiters(s, steps);
    assert WaiterOk(End(s, steps), End(s, steps).waiters[w]);
  }

  /** The steps that take a waiter which is still waiting to its delivery. */
  function WayOut(pc: Pc, w: nat): seq<Step> {
    match pc
    case Top => [Arm(w), Look(w, false)]
    case Armed(_) => [Look(w, false)]
    case Parked(_) => [Wake(w), Arm(w), Look(w, false)]
    case _ => []
  }

  /** And it can go on: with the lock free and an awaited event retained, a
      waiting waiter's own next steps are enabled and deliver the page. */
  lemma WaiterDelivers(s: State, w: nat)
    requires WaitersOk(s) && !s.locked && w < |s.waiters| && HasMatch(s, s.waiters[w])
    requires !s.waiters[w].pc.TimedOut? && !s.waiters[w].pc.Delivered?
    ensures var steps := WayOut(s.waiters[w].pc, w);
      && IsRun(s, steps) && w < |End(s, steps).waiters|
      && End(s, steps).waiters[w].pc == Delivered(WaiterPage(s, w))
    decreases WayOutLength(s.waiters[w].pc)
  {
    hide HasAwaited, PageAfter, Window;
    var me := s.waiters[w];
    var steps := WayOut(me.pc, w);
    assert WaiterOk(s, me);
    PageNonempty(Window(s.published), me.after, Clamp(me.limit, 1, EVENT_LIMIT), me.includeTargeted);
    assert Enabled(s, steps[0]);
    var t := Next(s, steps[0]);
    if !me.pc.Armed? {
      StepKeepsWaiters(s, steps[0]);
      assert steps[1..] == WayOut(t.waiters[w].pc, w);
      WaiterDelivers(t, w);
    } else {
      assert steps[1..] == [];
    }
  }

  function WayOutLength(pc: Pc): nat {
    match pc
    case Top => 2
    case Armed(_) => 1
    case Parked(_) => 3
    case _ => 0
  }

  // ------------------------------------------------- order of publication

  /** Each published number is the position of its event. */
  ghost predicate InOrder(log: seq<Event>) {
    forall i :: 0 <= i < |log| ==> log[i].number == i + 1
  }

  ghost predicate Outstanding(s: State, n: nat) {
    exists r :: 0 <= r < |s.recorders| && s.recorders[r] == Allocated(n)
  }

  ghost predicate PublishedNumber(s: State, n: nat) {
    exists i :: 0 <= i < |s.published| && s.published[i].number == n
  }

  /** Every number handed out is held by one recorder or published. */
  ghost predicate NumbersOk(s: State) {
    && (forall r :: 0 <= r < |s.recorders| && s.recorders[r].Allocated? ==>
          1 <= s.recorders[r].number <= s.taken && !PublishedNumber(s, s.recorders[r].number))
    && (forall n :: 1 <= n <= s.taken ==> Outstanding(s, n) || PublishedNumber(s, n))
    && (forall i :: 0 <= i < |s.published| ==> s.published[i].number <= s.taken)
    && (forall r, q :: 0 <= r < q < |s.recorders| && s.recorders[r].Allocated? ==> s.recorders[r] != s.recorders[q])
  }

  /** The recorder publishes the smallest number still outstanding. */
  ghost predicate PublishesOldest(s: State, step: Step)
    requires Enabled(s, step)
  {
    step.Publish? ==> forall n: nat :: n < s.recorders[step.r].number ==> !Outstanding(s, n)
  }

  ghost predicate AlwaysOldest(s: State, steps: seq<Step>)
    requires IsRun(s, steps)
    decreases |steps|
  {
    steps == [] || (PublishesOldest(s, steps[0]) && AlwaysOldest(Next(s, steps[0]), steps[1..]))
  }

  lemma NumbersAllocate(s: State, r: nat)
    requires NumbersOk(s) && Enabled(s, Allocate(r))
    ensures NumbersOk(Next(s, Allocate(r)))
  {
    var t := Next(s, Allocate(r));
    assert t.recorders[r] == Allocated(s.taken + 1);
    forall n | 1 <= n <= t.taken ensures Outstanding(t, n) || PublishedNumber(t, n) {
      if n <= s.taken && Outstanding(s, n) {
        var q :| 0 <= q < |s.recorders| && s.recorders[q] == Allocated(n);
        assert t.recorders[q] == Allocated(n);
      }
    }
  }

  lemma NumbersPublish(s: State, step: Step)
    requires NumbersOk(s) && step.Publish? && Enabled(s, step)
    ensures NumbersOk(Next(s, step))
  {
    var t := Next(s, step);
    var k := s.recorders[step.r].number;
    assert t.published[|s.published|].number == k;
    forall n | PublishedNumber(t, n) ensures n == k || PublishedNumber(s, n) {
      var i :| 0 <= i < |t.published| && t.published[i].number == n;
      assert i < |s.published| ==> s.published[i].number == n;
    }
    forall n | PublishedNumber(s, n) ensures PublishedNumber(t, n) {
      var i :| 0 <= i < |s.published| && s.published[i].number == n;
      assert t.published[i].number == n;
    }
    forall n | 1 <= n <= t.taken ensures Outstanding(t, n) || PublishedNumber(t, n) {
      if Outstanding(s, n) {
        var q :| 0 <= q < |s.recorders| && s.recorders[q] == Allocated(n);
        assert q != step.r ==> t.recorders[q] == Allocated(n);
      }
    }
  }

  lemma NumbersOther(s: State, step: Step)
    requires NumbersOk(s) && Enabled(s, step) && !step.Allocate? && !step.Publish?
    ensures NumbersOk(Next(s, step))
  {
    var t := Next(s, step);
    assert t.published == s.published && t.taken == s.taken;
    forall n | Outstanding(s, n) ensures Outstanding(t, n) {
      var q :| 0 <= q < |s.recorders| && s.recorders[q] == Allocated(n);
      assert t.recorders[q] == Allocated(n);
    }
    forall n ensures PublishedNumber(t, n) == PublishedNumber(s, n) {
    }
  }

  lemma StepKeepsNumbers(s: State, step: Step)
    requires NumbersOk(s) && Enabled(s, step)
    ensures NumbersOk(Next(s, step))
  {
    match step
    case Allocate(r) => NumbersAllocate(s, r);
    case Publish(_, _, _, _, _) => NumbersPublish(s, step);
    case _ => NumbersOther(s, step);
  }

  /** After an ordered log comes its next number or a later one. */
  lemma NoEarlierNumber(s: State, step: Step)
    requires NumbersOk(s) && Enabled(s, step) && step.Publish? && InOrder(s.published)
    ensures s.recorders[step.r].number > |s.published|
  {
    forall n: nat | 1 <= n <= |s.published| ensures PublishedNumber(s, n) {
      assert s.published[n - 1].number == n;
    }
    assert !PublishedNumber(s, s.recorders[step.r].number);
  }

  lemma PublishInOrder(s: State, step: Step)
    requires NumbersOk(s) && Enabled(s, step) && InOrder(s.published)
    ensures InOrder(Next(s, step).published) <==> PublishesOldest(s, step)
  {
    if step.Publish? {
      var k := s.recorders[step.r].number;
      var n := |s.published| + 1;
      var t := Next(s, step);
      assert t.published[|s.published|].number == k;
      NoEarlierNumber(s, step);
      assert !PublishedNumber(s, n);
      assert Outstanding(s, n);
      forall m: nat | m < n ensures !Outstanding(s, m) {
        if m > 0 {
          assert s.published[m - 1].number == m;
          assert PublishedNumber(s, m);
        }
      }
    }
  }

  lemma {:induction false} DisorderStays(s: State, steps: seq<Step>)
    requires IsRun(s, steps) && !InOrder(s.published)
    ensures !InOrder(End(s, steps).published)
    decreases |steps|
  {
    if steps == [] {
    } else {
      var t := Next(s, steps[0]);
      var i :| 0 <= i < |s.published| && s.published[i].number != i + 1;
      assert t.published[i] == s.published[i];
      DisorderStays(t, steps[1..]);
    }
  }

  lemma {:induction false} OrderedFrom(s: State, steps: seq<Step>)
    requires IsRun(s, steps) && NumbersOk(s) && InOrder(s.published)
    ensures InOrder(End(s, steps).published) <==> AlwaysOldest(s, steps)
    decreases |steps|
  {
    hide NumbersOk, Enabled, Next, PublishesOldest;
    if steps == [] {
    } else {
      var t := Next(s, steps[0]);
      StepKeepsNumbers(s, steps[0]);
      PublishInOrder(s, steps[0]);
      if InOrder(t.published) {
        OrderedFrom(t, steps[1..]);
      } else {
        DisorderStays(t, steps[1..]);
      }
    }
  }

  /** Numbers are taken before the retention lock, so they can be published out
      of order. On every run of any number of recorders, the log is numbered by
      position exactly when every publication was of the oldest outstanding
      number. */
  lemma OrderedPublication(s: State, steps: seq<Step>)
    requires Initial(s) && IsRun(s, steps)
    ensures InOrder(End(s, steps).published) <==> AlwaysOldest(s, steps)
  {
    InitialNumbers(s);
    OrderedFrom(s, steps);
  }

  lemma InitialNumbers(s: State)
    requires Initial(s)
    ensures NumbersOk(s) && InOrder(s.published)
  {
  }

  lemma RunCons(s: State, step: Step, rest: seq<Step>)
    requires Enabled(s, step) && IsRun(Next(s, step), rest)
    ensures IsRun(s, [step] + rest) && End(s, [step] + rest) == End(Next(s, step), rest)
  {
    assert ([step] + rest)[1..] == rest;
  }

  lemma RunPair(s: State, a: Step, b: Step)
    requires Enabled(s, a) && Enabled(Next(s, a), b)
    ensures IsRun(s, [a, b]) && End(s, [a, b]) == Next(Next(s, a), b)
  {
    RunCons(Next(s, a), b, []);
    RunCons(s, a, [b]);
    assert [a] + [b] == [a, b] && [b] + [] == [b];
  }

  /** What disorder costs: when event 2 is published before event 1, a reader
      that polls in between and moves its cursor to the last number it saw
      never gets event 1. */
  lemma LateEventIsMissed(v1: Version, v2: Version, n: nat)
    requires n >= 1
    ensures
      var s := State(0, 0, false, [], [Idle, Idle], []);
      var take := [Allocate(0), Allocate(1)];
      var early := [Publish(1, HealthChanged, v2, "", false), NotifyWaiters(1)];
      var late := [Publish(0, HealthChanged, v1, "", false), NotifyWaiters(0)];
      var e1, e2 := Event(HealthChanged, 1, v1, "", false), Event(HealthChanged, 2, v2, "", false);
      && Initial(s) && IsRun(s, take) && IsRun(End(s, take), early) && IsRun(End(End(s, take), early), late)
      && PageAfter(Window(End(End(s, take), early).published), 0, n, true) == [e2]
      && End(End(End(s, take), early), late).published == [e2, e1]
      && PageAfter(Window([e2, e1]), e2.number, n, true) == []
  {
    var s0 := State(0, 0, false, [], [Idle, Idle], []);
    var e1, e2 := Event(HealthChanged, 1, v1, "", false), Event(HealthChanged, 2, v2, "", false);
    RunPair(s0, Allocate(0), Allocate(1));
    var s2 := State(2, 0, false, [], [Allocated(1), Allocated(2)], []);
    assert End(s0, [Allocate(0), Allocate(1)]) == s2;
    var p2 := Publish(1, HealthChanged, v2, "", false);
    RunPair(s2, p2, NotifyWaiters(1));
    var s4 := State(2, 1, false, [e2], [Allocated(1), Idle], []);
    assert End(s2, [p2, NotifyWaiters(1)]) == s4;
    RunPair(s4, Publish(0, HealthChanged, v1, "", false), NotifyWaiters(0));
    assert [e2][1..] == [];
    PageNonempty([e2, e1], 2, n, true);
  }
}
