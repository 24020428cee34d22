/** `ConcurrentCliShutdown` of crates/app/src/chat.rs: any number of tasks
    request shutdown by storing a flag and then waking the waiters, while any
    number of tasks wait for the flag. `Notify` is a generation counter: a
    `notified()` future made at generation `g` is signalled once the counter
    has moved past `g`. Every atomic access is one step. */
module ShutdownSignal {

  datatype Requester = Idle | Stored | Done

  /** Where a waiter stands in `wait`. */
  datatype Waiter =
    | Start                  // before the first check
    | Top                    // at the check that opens the loop
    | Unarmed                // about to create the future
    | Armed(gen: nat)        // future created, second check to come
    | Parked(gen: nat)       // awaiting the future
    | Returned

  datatype State = State(requested: bool, generation: nat, requesters: seq<Requester>, waiters: seq<Waiter>)

  datatype Step =
    | Store(r: nat)
    | NotifyWaiters(r: nat)
    | Check(w: nat)
    | Arm(w: nat)
    | Wake(w: nat)

  predicate Enabled(s: State, step: Step) {
    match step
    case Store(r) => r < |s.requesters| && s.requesters[r] == Idle
    case NotifyWaiters(r) => r < |s.requesters| && s.requesters[r] == Stored
    case Check(w) => w < |s.waiters| && (s.waiters[w].Start? || s.waiters[w].Top? || s.waiters[w].Armed?)
    case Arm(w) => w < |s.waiters| && s.waiters[w].Unarmed?
    case Wake(w) => w < |s.waiters| && s.waiters[w].Parked? && s.waiters[w].gen < s.generation
  }

  function AfterCheck(pc: Waiter, requested: bool): Waiter {
    if requested then Returned
    else
      match pc
      case Start => Top
      case Top => Unarmed
      case Armed(g) => Parked(g)
      case other => other
  }

  function Next(s: State, step: Step): State
    requires Enabled(s, step)
  {
    match step
    case Store(r) => s.(requested := true, requesters := s.requesters[r := Stored])
    case NotifyWaiters(r) => s.(generation := s.generation + 1, requesters := s.requesters[r := Done])
    case Check(w) => s.(waiters := s.waiters[w := AfterCheck(s.waiters[w], s.requested)])
    case Arm(w) => s.(waiters := s.waiters[w := Armed(s.generation)])
    case Wake(w) => s.(waiters := s.waiters[w := Top])
  }

  ghost predicate Initial(s: State) {
    && !s.requested
    && (forall r :: 0 <= r < |s.requesters| ==> s.requesters[r] == Idle)
    && (forall w :: 0 <= w < |s.waiters| ==> s.waiters[w] == Start)
  }

  ghost predicate IsRun(s: State, steps: seq<Step>)
    decreases |steps|
  {
    steps == [] || (Enabled(s, steps[0]) && IsRun(Next(s, steps[0]), steps[1..]))
  }

  ghost function End(s: State, steps: seq<Step>): State
    requires IsRun(s, steps)
    decreases |steps|
  {
    if steps == [] then s else End(Next(s, steps[0]), steps[1..])
  }

  // -------------------------------------------------------------------- safety

  ghost predicate SomeoneStored(s: State) {
    exists r :: 0 <= r < |s.requesters| && s.requesters[r] == Stored
  }

  ghost predicate SomeoneRequested(s: State) {
    exists r :: 0 <= r < |s.requesters| && s.requesters[r] != Idle
  }

  ghost predicate WaiterOk(s: State, pc: Waiter) {
    match pc
    case Armed(g) => g <= s.generation
    case Parked(g) => g <= s.generation && (g == s.generation && s.requested ==> SomeoneStored(s))
    case Returned => s.requested
    case _ => true
  }

  ghost predicate Invariant(s: State) {
    && (s.requested <==> SomeoneRequested(s))
    && (forall w :: 0 <= w < |s.waiters| ==> WaiterOk(s, s.waiters[w]))
  }

  lemma StepKeepsInvariant(s: State, step: Step)
    requires Invariant(s) && Enabled(s, step)
    ensures Invariant(Next(s, step))
  {
    var t := Next(s, step);
    match step {
      case Store(r) =>
        assert t.requesters[r] == Stored;
      case NotifyWaiters(r) =>
        assert s.requesters[r] != Idle && t.requesters[r] == Done;
      case Check(w) =>
        assert SomeoneRequested(t) == SomeoneRequested(s) && SomeoneStored(t) == SomeoneStored(s);
      case Arm(w) =>
        assert SomeoneRequested(t) == SomeoneRequested(s) && SomeoneStored(t) == SomeoneStored(s);
      case Wake(w) =>
        assert SomeoneRequested(t) == SomeoneRequested(s) && SomeoneStored(t) == SomeoneStored(s);
    }
  }

  lemma {:induction false} RunKeepsInvariant(s: State, steps: seq<Step>)
    requires Invariant(s) && IsRun(s, steps)
    ensures Invariant(End(s, steps))
    decreases |steps|
  {
    if steps == [] {
    } else {
      StepKeepsInvariant(s, steps[0]);
      RunKeepsInvariant(Next(s, steps[0]), steps[1..]);
    }
  }

  /** No lost wake-up: in every reachable state a waiter blocked on an
      unsignalled future means that shutdown was not requested, or that some
      requester has stored the flag and has yet to notify. And `wait` has
      returned only after a request. */
  lemma NoLostWakeup(s: State, steps: seq<Step>, w: nat)
    requires Initial(s) && IsRun(s, steps) && w < |End(s, steps).waiters|
    ensures var e := End(s, steps);
      && (e.waiters[w].Parked? && e.waiters[w].gen >= e.generation ==> !e.requested || SomeoneStored(e))
      && (e.waiters[w].Returned? ==> SomeoneRequested(e))
  {
    RunKeepsInvariant(s, steps);
    assert WaiterOk(End(s, steps), End(s, steps).waiters[w]);
  }

  // ------------------------------------------------------------------ progress

  /** Shutdown was requested and every requester has finished. */
  ghost predicate Settled(s: State) {
    s.requested && !SomeoneStored(s)
  }

  function Rank(pc: Waiter): nat {
    match pc
    case Returned => 0
    case Parked(_) => 2
    case Unarmed => 2
    case _ => 1
  }

  function TotalRank(ws: seq<Waiter>): nat {
    if ws == [] then 0 else TotalRank(ws[..|ws| - 1]) + Rank(ws[|ws| - 1])
  }

  lemma {:induction false} TotalRankUpdate(ws: seq<Waiter>, w: nat, pc: Waiter)
    requires w < |ws|
    ensures TotalRank(ws[w := pc]) == TotalRank(ws) - Rank(ws[w]) + Rank(pc)
  {
    var n := |ws| - 1;
    if w < n {
      TotalRankUpdate(ws[..n], w, pc);
      assert ws[w := pc][..n] == ws[..n][w := pc];
    } else {
      assert ws[w := pc][..n] == ws[..n];
    }
  }

  predicate WaiterStep(step: Step) {
    step.Check? || step.Arm? || step.Wake?
  }

  /** The step a waiter that has not returned can take. */
  function OwnStep(s: State, w: nat): Step
    requires w < |s.waiters|
  {
    match s.waiters[w]
    case Unarmed => Arm(w)
    case Parked(_) => Wake(w)
    case _ => Check(w)
  }

  lemma SettledStep(s: State, step: Step)
    requires Invariant(s) && Settled(s) && Enabled(s, step) && WaiterStep(step)
    ensures Settled(Next(s, step)) && Invariant(Next(s, step))
    ensures TotalRank(Next(s, step).waiters) < TotalRank(s.waiters)
  {
    StepKeepsInvariant(s, step);
    var t := Next(s, step);
    assert t.requesters == s.requesters;
    match step
    case Check(w) => TotalRankUpdate(s.waiters, w, Returned);
    case Arm(w) => TotalRankUpdate(s.waiters, w, Armed(s.generation));
    case Wake(w) => TotalRankUpdate(s.waiters, w, Top);
  }

  /** Once a shutdown request is complete every waiter gets out: no waiter is
      stuck, and any schedule of waiter steps ends after at most as many steps
      as the waiters' ranks add up to, with every waiter returned. */
  lemma {:induction false} EveryWaiterReturns(s: State, steps: seq<Step>)
    requires Invariant(s) && Settled(s) && IsRun(s, steps)
    requires forall i :: 0 <= i < |steps| ==> WaiterStep(steps[i])
    ensures |steps| <= TotalRank(s.waiters)
    ensures |End(s, steps).waiters| == |s.waiters|
    ensures forall w :: 0 <= w < |s.waiters| && !End(s, steps).waiters[w].Returned? ==>
      Enabled(End(s, steps), OwnStep(End(s, steps), w))
    decreases |steps|
  {
    if steps == [] {
      forall w | 0 <= w < |s.waiters| && !s.waiters[w].Returned?
        ensures Enabled(s, OwnStep(s, w))
      {
        assert WaiterOk(s, s.waiters[w]);
      }
    } else {
      SettledStep(s, steps[0]);
      EveryWaiterReturns(Next(s, steps[0]), steps[1..]);
    }
  }

  /** A waiter that is alone and finds no request looks twice, creates its future,
      looks once more and then waits for it; a wake-up sends it back to look. */
  lemma UndisturbedWait(s: State, w: nat)
    requires w < |s.waiters| && s.waiters[w] == Start && !s.requested
    ensures var steps := [Check(w), Check(w), Arm(w), Check(w)];
      IsRun(s, steps) && End(s, steps) == s.(waiters := s.waiters[w := Parked(s.generation)])
  {
    OneStep(s, Check(w), [Check(w), Arm(w), Check(w)]);
    var s1 := Next(s, Check(w));
    OneStep(s1, Check(w), [Arm(w), Check(w)]);
    var s2 := Next(s1, Check(w));
    OneStep(s2, Arm(w), [Check(w)]);
    var s3 := Next(s2, Arm(w));
    OneStep(s3, Check(w), []);
  }

  /** A request sets the flag and then signals every future created before; only
      then has it finished. */
  lemma UndisturbedRequest(s: State, r: nat)
    requires r < |s.requesters| && s.requesters[r] == Idle
    ensures var steps := [Store(r), NotifyWaiters(r)];
      && IsRun(s, steps) && Next(s, Store(r)).generation == s.generation
      && End(s, steps) == s.(requested := true, generation := s.generation + 1, requesters := s.requesters[r := Done])
  {
    OneStep(s, Store(r), [NotifyWaiters(r)]);
    OneStep(Next(s, Store(r)), NotifyWaiters(r), []);
  }

  lemma OneStep(s: State, step: Step, rest: seq<Step>)
    requires Enabled(s, step)
    ensures IsRun(s, [step] + rest) <==> IsRun(Next(s, step), rest)
    ensures IsRun(Next(s, step), rest) ==> End(s, [step] + rest) == End(Next(s, step), rest)
  {
    hide Enabled, Next;
    assert ([step] + rest)[1..] == rest;
  }
}
