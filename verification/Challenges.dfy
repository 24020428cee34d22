/** `ControlPlaneChallengeRegistry` of crates/app/src/control_plane.rs:
    one-shot nonces with a time to live. */
module Challenges {
  import opened Text
  import opened Results
  import opened Clock

  datatype Challenge = Challenge(nonce: string, issuedAt: nat, expiresAt: nat)

  datatype State = State(counter: nat, challenges: map<string, Challenge>)

  datatype Op = Issue(ttl: nat, random: nat) | Consume(nonce: string)

  datatype Reply = Issued(challenge: Challenge) | Consumed(taken: Option<Challenge>)

  const NONCE_PREFIX: string := "cpc-"

  function NewChallenge(counter: nat, ttl: nat, random: nat, now: nat): Challenge {
    Challenge(IssuedId(NONCE_PREFIX, counter, random), now, SaturatingAdd(now, if ttl < 1 then 1 else ttl))
  }

  function Unexpired(m: map<string, Challenge>, now: nat): map<string, Challenge> {
    map n | n in m && m[n].expiresAt > now :: m[n]
  }

  /** The registry as coded: consuming purges, looks up and removes. */
  function Step(s: State, op: Op, now: nat): (State, Reply) {
    match op
    case Issue(ttl, random) =>
      var c := NewChallenge(s.counter + 1, ttl, random, now);
      (State(s.counter + 1, s.challenges[c.nonce := c]), Issued(c))
    case Consume(raw) =>
      var nonce := Trim(raw);
      if nonce == "" then (s, Consumed(None))
      else
        var live := Unexpired(s.challenges, now);
        (s.(challenges := live - {nonce}), Consumed(if nonce in live then Some(live[nonce]) else None))
  }

  function After(s: State, run: seq<Timed<Op>>): State
    decreases |run|
  {
    if run == [] then s else After(Step(s, run[0].op, run[0].at).0, run[1..])
  }

  /** The answer to the operation at position `i`. */
  function ReplyAt(s: State, run: seq<Timed<Op>>, i: nat): Reply
    requires i < |run|
    decreases i
  {
    if i == 0 then Step(s, run[0].op, run[0].at).1
    else ReplyAt(Step(s, run[0].op, run[0].at).0, run[1..], i - 1)
  }

  /** Position `i` issued the challenge. */
  ghost predicate IssuedAt(s: State, run: seq<Timed<Op>>, i: nat, c: Challenge) {
    i < |run| && ReplyAt(s, run, i) == Issued(c)
  }

  /** Position `i` handed the challenge out. */
  ghost predicate TakenAt(s: State, run: seq<Timed<Op>>, i: nat, c: Challenge) {
    i < |run| && ReplyAt(s, run, i) == Consumed(Some(c))
  }

  // -------------------------------------------------------------- at most once

  /** The nonce was issued by this registry, earlier. */
  ghost predicate Old(nonce: string, counter: nat) {
    exists n: nat, r: nat :: n <= counter && nonce == IssuedId(NONCE_PREFIX, n, r)
  }

  ghost predicate StateOk(s: State) {
    forall n :: n in s.challenges ==> Old(n, s.counter) && s.challenges[n].nonce == n
  }

  lemma OldIsNotFresh(nonce: string, counter: nat, random: nat)
    requires Old(nonce, counter)
    ensures nonce != IssuedId(NONCE_PREFIX, counter + 1, random)
  {
    var n: nat, r: nat :| n <= counter && nonce == IssuedId(NONCE_PREFIX, n, r);
    if nonce == IssuedId(NONCE_PREFIX, counter + 1, random) {
      IssuedIdFresh(NONCE_PREFIX, counter + 1, random, n, r);
    }
  }

  lemma OldGrows(nonce: string, counter: nat)
    requires Old(nonce, counter)
    ensures Old(nonce, counter + 1)
  {
    var n: nat, r: nat :| n <= counter && nonce == IssuedId(NONCE_PREFIX, n, r);
  }

  lemma StepKeepsOk(s: State, op: Op, now: nat)
    requires StateOk(s)
    ensures StateOk(Step(s, op, now).0)
    ensures forall n :: Old(n, s.counter) ==> Old(n, Step(s, op, now).0.counter)
    ensures forall n :: Old(n, s.counter) && n !in s.challenges ==> n !in Step(s, op, now).0.challenges
  {
    hide IssuedId, Trim, Old;
    forall n | Old(n, s.counter) ensures Old(n, s.counter + 1) {
      OldGrows(n, s.counter);
    }
    if op.Issue? {
      NewIsOld(s.counter + 1, op.ttl, op.random, now);
      forall n | Old(n, s.counter) ensures n != NewChallenge(s.counter + 1, op.ttl, op.random, now).nonce {
        OldIsNotFresh(n, s.counter, op.random);
      }
    }
  }

  lemma NewIsOld(counter: nat, ttl: nat, random: nat, now: nat)
    ensures Old(NewChallenge(counter, ttl, random, now).nonce, counter)
  {
  }

  lemma {:induction false} GoneStaysGone(s: State, run: seq<Timed<Op>>, nonce: string, i: nat)
    requires StateOk(s) && Old(nonce, s.counter) && nonce !in s.challenges && i < |run|
    ensures forall c: Challenge :: c.nonce == nonce ==> !TakenAt(s, run, i, c) && !IssuedAt(s, run, i, c)
    decreases i
  {
    hide Old, IssuedId, Trim;
    var op, at := run[0].op, run[0].at;
    StepKeepsOk(s, op, at);
    if i == 0 {
      if op.Issue? {
        OldIsNotFresh(nonce, s.counter, op.random);
      }
    } else {
      hide Step;
      var t := Step(s, op, at).0;
      GoneStaysGone(t, run[1..], nonce, i - 1);
      forall c: Challenge | c.nonce == nonce ensures !TakenAt(s, run, i, c) && !IssuedAt(s, run, i, c) {
        assert TakenAt(s, run, i, c) == TakenAt(t, run[1..], i - 1, c);
        assert IssuedAt(s, run, i, c) == IssuedAt(t, run[1..], i - 1, c);
      }
    }
  }

  lemma StepTakes(s: State, op: Op, now: nat, c: Challenge)
    requires StateOk(s) && Step(s, op, now).1 == Consumed(Some(c))
    ensures now < c.expiresAt && c.nonce in s.challenges && s.challenges[c.nonce] == c
    ensures c.nonce !in Step(s, op, now).0.challenges
    ensures op.Consume? && Trim(op.nonce) == c.nonce && Old(c.nonce, s.counter)
  {
    hide Trim;
  }

  /** Each nonce is handed out at most once and only before it expires, on
      every run and whatever the clock does. */
  lemma {:induction false} AtMostOnce(s: State, run: seq<Timed<Op>>, i: nat, j: nat, c: Challenge, d: Challenge)
    requires StateOk(s) && i < j
    requires TakenAt(s, run, i, c) && TakenAt(s, run, j, d)
    ensures c.nonce != d.nonce
    ensures run[i].at < c.expiresAt && run[j].at < d.expiresAt
    decreases i
  {
    hide Old, Trim, IssuedId;
    var op, at := run[0].op, run[0].at;
    StepKeepsOk(s, op, at);
    if i == 0 {
      StepTakes(s, op, at, c);
      hide Step;
      var t := Step(s, op, at).0;
      assert TakenAt(t, run[1..], j - 1, d);
      GoneStaysGone(t, run[1..], c.nonce, j - 1);
      TakenBeforeExpiry(t, run[1..], j - 1, d);
    } else {
      hide Step;
      var t := Step(s, op, at).0;
      assert TakenAt(t, run[1..], i - 1, c) && TakenAt(t, run[1..], j - 1, d);
      AtMostOnce(t, run[1..], i - 1, j - 1, c, d);
    }
  }

  lemma {:induction false} TakenBeforeExpiry(s: State, run: seq<Timed<Op>>, i: nat, c: Challenge)
    requires StateOk(s) && TakenAt(s, run, i, c)
    ensures run[i].at < c.expiresAt
    decreases i
  {
    hide Old, Trim, IssuedId;
    var op, at := run[0].op, run[0].at;
    StepKeepsOk(s, op, at);
    if i == 0 {
      StepTakes(s, op, at, c);
    } else {
      hide Step;
      assert TakenAt(Step(s, op, at).0, run[1..], i - 1, c);
      TakenBeforeExpiry(Step(s, op, at).0, run[1..], i - 1, c);
    }
  }

  // ------------------------------------------------------------- exactly when

  /** No operation before position `j` consumes the nonce. */
  ghost predicate Unclaimed(run: seq<Timed<Op>>, nonce: string, j: nat) {
    forall i :: 0 <= i < j && i < |run| ==> !(run[i].op.Consume? && Trim(run[i].op.nonce) == nonce)
  }

  /** Under a non-decreasing clock a retained challenge is handed out by the
      first operation that names it exactly when that comes before expiry: no
      other operation, and no purge, can lose it earlier. */
  lemma {:induction false} FirstClaimTakes(s: State, run: seq<Timed<Op>>, j: nat, c: Challenge, clock: nat)
    requires StateOk(s) && Monotone(run, clock) && j < |run|
    requires c.nonce in s.challenges && s.challenges[c.nonce] == c && c.nonce != ""
    requires Unclaimed(run, c.nonce, j) && run[j].op.Consume? && Trim(run[j].op.nonce) == c.nonce
    ensures ReplyAt(s, run, j) == Consumed(if run[j].at < c.expiresAt then Some(c) else None)
    decreases j
  {
    hide Old, Trim, IssuedId;
    var op, at := run[0].op, run[0].at;
    StepKeepsOk(s, op, at);
    if j == 0 {
    } else {
      var t := Step(s, op, at).0;
      var rest := run[1..];
      assert Unclaimed(rest, c.nonce, j - 1) by {
        forall i | 0 <= i < j - 1 && i < |rest| ensures !(rest[i].op.Consume? && Trim(rest[i].op.nonce) == c.nonce) {
          assert rest[i] == run[i + 1];
        }
      }
      OldIsNotFreshFor(s, op, c.nonce);
      if c.nonce in t.challenges {
        FirstClaimTakes(t, rest, j - 1, c, at);
      } else {
        assert at >= c.expiresAt;
        MonotoneLater(rest, at, j - 1);
        GoneStaysGone(t, rest, c.nonce, j - 1);
        ReplyIsAnswer(t, rest, j - 1);
      }
    }
  }

  lemma OldIsNotFreshFor(s: State, op: Op, nonce: string)
    requires StateOk(s) && nonce in s.challenges
    ensures op.Issue? ==> nonce != IssuedId(NONCE_PREFIX, s.counter + 1, op.random)
  {
    if op.Issue? {
      OldIsNotFresh(nonce, s.counter, op.random);
    }
  }

  lemma {:induction false} MonotoneLater(run: seq<Timed<Op>>, clock: nat, i: nat)
    requires Monotone(run, clock) && i < |run|
    ensures clock <= run[i].at
    decreases i
  {
    if i == 0 {
    } else {
      MonotoneLater(run[1..], run[0].at, i - 1);
    }
  }

  /** A consumption answers with a challenge of the name it asked for, or none. */
  lemma {:induction false} ReplyIsAnswer(s: State, run: seq<Timed<Op>>, i: nat)
    requires StateOk(s) && i < |run| && run[i].op.Consume?
    ensures ReplyAt(s, run, i) == Consumed(None) ||
      exists c :: TakenAt(s, run, i, c) && c.nonce == Trim(run[i].op.nonce)
    decreases i
  {
    hide Old, Trim, IssuedId;
    StepKeepsOk(s, run[0].op, run[0].at);
    if i == 0 {
      var reply := ReplyAt(s, run, 0);
      if reply != Consumed(None) {
        assert TakenAt(s, run, 0, reply.taken.value);
      }
    } else {
      hide Step;
      var t := Step(s, run[0].op, run[0].at).0;
      ReplyIsAnswer(t, run[1..], i - 1);
      if c :| TakenAt(t, run[1..], i - 1, c) && c.nonce == Trim(run[i].op.nonce) {
        assert TakenAt(s, run, i, c);
      }
    }
  }

  /** Every issued nonce can be claimed: it is not blank, trimming leaves it
      alone, and nothing retained has the same name. */
  lemma IssuedIsClaimable(s: State, ttl: nat, random: nat, now: nat)
    requires StateOk(s)
    ensures var c := NewChallenge(s.counter + 1, ttl, random, now);
      && c.nonce != "" && Trim(c.nonce) == c.nonce && c.nonce !in s.challenges
      && Step(s, Issue(ttl, random), now).0.challenges == s.challenges[c.nonce := c]
  {
    hide IssuedId, Trim, Old;
    IssuedIdTrimmed(NONCE_PREFIX, s.counter + 1, random);
    var c := NewChallenge(s.counter + 1, ttl, random, now);
    forall n | n in s.challenges ensures n != c.nonce {
      OldIsNotFresh(n, s.counter, random);
    }
  }

  /** A challenge lasts for its time to live, which is at least a millisecond and
      does not go past the largest 64-bit number: issued at `now`, it is handed out
      by the first operation that names it exactly when that comes in time. */
  lemma ClaimedInTime(s: State, ttl: nat, random: nat, now: nat, run: seq<Timed<Op>>, j: nat)
    requires StateOk(s) && Monotone(run, now) && j < |run|
    requires var nonce := IssuedId(NONCE_PREFIX, s.counter + 1, random);
      Unclaimed(run, nonce, j) && run[j].op.Consume? && Trim(run[j].op.nonce) == nonce
    ensures var reply, at := ReplyAt(Step(s, Issue(ttl, random), now).0, run, j), run[j].at;
      && reply.Consumed?
      && (reply.taken.Some? <==> (at < now + ttl || at < now + 1) && at < 0xFFFF_FFFF_FFFF_FFFF)
      && (reply.taken.Some? ==>
            reply.taken.value.issuedAt == now && reply.taken.value.nonce == IssuedId(NONCE_PREFIX, s.counter + 1, random))
  {
    hide IssuedId, Trim, StateOk, ReplyAt, Unclaimed, Monotone;
    StepKeepsOk(s, Issue(ttl, random), now);
    IssuedIsClaimable(s, ttl, random, now);
    var c := NewChallenge(s.counter + 1, ttl, random, now);
    FirstClaimTakes(Step(s, Issue(ttl, random), now).0, run, j, c, now);
  }

  class ChallengeRegistry {
    var counter: nat
    var challenges: map<string, Challenge>

    ghost function Value(): State reads this {
      State(counter, challenges)
    }

    ghost predicate Valid() reads this {
      StateOk(Value())
    }

    constructor ()
      ensures Valid() && Value() == State(0, map[])
    {
      counter := 0;
      challenges := map[];
    }

    method Issue(ttl: nat, random: nat, now: nat) returns (challenge: Challenge)
      requires Valid()
      modifies this
      ensures Valid()
      ensures (Value(), Issued(challenge)) == Step(old(Value()), Op.Issue(ttl, random), now)
      ensures challenge.nonce !in old(challenges) && challenges == old(challenges)[challenge.nonce := challenge]
      ensures challenge.nonce == IssuedId("cpc-", old(counter) + 1, random) && challenge.issuedAt == now
      ensures var end := now + (if ttl > 1 then ttl else 1);
        challenge.expiresAt == if end > 0xFFFF_FFFF_FFFF_FFFF then 0xFFFF_FFFF_FFFF_FFFF else end
    {
      hide IssuedId, Trim, StateOk;
      StepKeepsOk(Value(), Op.Issue(ttl, random), now);
      IssuedIsClaimable(Value(), ttl, random, now);
      counter := counter + 1;
      challenge := NewChallenge(counter, ttl, random, now);
      challenges := challenges[challenge.nonce := challenge];
    }

    method Consume(nonce: string, now: nat) returns (taken: Option<Challenge>)
      requires Valid()
      modifies this`challenges
      ensures Valid()
      ensures (Value(), Consumed(taken)) == Step(old(Value()), Op.Consume(nonce), now)
      ensures taken.Some? <==> Trim(nonce) != "" && Trim(nonce) in old(challenges) && now < old(challenges)[Trim(nonce)].expiresAt
      ensures taken.Some? ==> taken.value == old(challenges)[Trim(nonce)]
      ensures forall n :: n in challenges <==>
        n in old(challenges) && (Trim(nonce) == "" || (n != Trim(nonce) && now < old(challenges)[n].expiresAt))
      ensures forall n :: n in challenges ==> challenges[n] == old(challenges)[n]
    {
      StepKeepsOk(Value(), Op.Consume(nonce), now);
      var trimmed := Trim(nonce);
      if trimmed == "" {
        return None;
      }
      challenges := Unexpired(challenges, now);
      taken := if trimmed in challenges then Some(challenges[trimmed]) else None;
      challenges := challenges - {trimmed};
    }
  }
}
