/**
 The permission cache of one user (auth/perm_resolver.go): a Redis entry with a five-minute lifetime, filled
 by single-flighted resolutions in any number of processes, and invalidated by deletes that may get lost.
 */
module PermCache {
  import opened Wrappers

  type Perms = seq<string>

  /** Milliseconds. */
  const TTL: nat := 300_000

  /** An answer of the auth service: its text, its version, and the instant it was given. */
  datatype Answer = Answer(perms: Perms, version: nat, asOf: int)

  datatype Entry = Entry(answer: Answer, expires: int)

  /** How far the one flight of a process got; `Holds` has the result its waiters will get. */
  datatype Phase = Started | Rechecked | Resolved(answer: Answer) | Holds(answer: Answer)

  datatype Flight = Flight(start: int, phase: Phase)

  datatype Served = Served(answer: Answer, time: int)

  /**
   `log` is history: what the auth service answers, and since when, from version 0 on. `served` is what callers
   got.
   */
  datatype State = State(
    now: int, log: seq<(Perms, int)>, cache: Option<Entry>, flights: map<nat, Flight>, served: seq<Served>)

  datatype Action =
    | Tick(d: nat)
    | Change(perms: Perms)
    | Delete
    | Evict
    | ReadHit
    | Start(p: nat)
    | RecheckHit(p: nat)
    | RecheckMiss(p: nat)
    | Resolve(p: nat)
    | ResolveFails(p: nat)
    | Fill(p: nat)
    | SkipFill(p: nat)
    | Finish(p: nat)

  /** Redis still answers with the entry. */
  predicate Readable(s: State) {
    s.cache.Some? && s.now <= s.cache.value.expires
  }

  /** No flight has lasted longer than `bound` after `d` more. */
  predicate FlightsWithin(s: State, d: nat, bound: nat) {
    forall p :: p in s.flights ==> s.now + d <= s.flights[p].start + bound
  }

  /**
   When an action can happen. A read or delete that Redis did not answer is a miss, respectively no step at
   all; a flight lasts at most `bound`.
   */
  predicate Enabled(s: State, a: Action, bound: nat) {
    match a
    case Tick(d) => FlightsWithin(s, d, bound)
    case Change(_) => true
    case Delete => true
    case Evict => true
    case ReadHit => Readable(s)
    case Start(p) => p !in s.flights
    case RecheckHit(p) => Readable(s) && p in s.flights && s.flights[p].phase.Started?
    case RecheckMiss(p) => p in s.flights && s.flights[p].phase.Started?
    case Resolve(p) => p in s.flights && s.flights[p].phase.Rechecked?
    case ResolveFails(p) => p in s.flights && s.flights[p].phase.Rechecked?
    case Fill(p) => p in s.flights && s.flights[p].phase.Resolved? && s.flights[p].phase.answer.perms != []
    case SkipFill(p) => p in s.flights && s.flights[p].phase.Resolved?
    case Finish(p) => p in s.flights && s.flights[p].phase.Holds?
  }

  function At(s: State, p: nat, phase: Phase): (s': State)
    requires p in s.flights
  {
    s.(flights := s.flights[p := s.flights[p].(phase := phase)])
  }

  function Current(s: State): (a: Answer)
    requires s.log != []
  {
    Answer(s.log[|s.log| - 1].0, |s.log| - 1, s.now)
  }

  function Apply(s: State, a: Action, bound: nat): (s': State)
    requires Enabled(s, a, bound) && s.log != []
    ensures s'.log != []
  {
    match a
    case Tick(d) => s.(now := s.now + d)
    case Change(perms) => s.(log := s.log + [(perms, s.now)])
    case Delete => s.(cache := None)
    case Evict => s.(cache := None)
    case ReadHit => s.(served := s.served + [Served(s.cache.value.answer, s.now)])
    case Start(p) => s.(flights := s.flights[p := Flight(s.now, Started)])
    case RecheckHit(p) => At(s, p, Holds(s.cache.value.answer))
    case RecheckMiss(p) => At(s, p, Rechecked)
    case Resolve(p) => At(s, p, Resolved(Current(s)))
    case ResolveFails(p) => s.(flights := s.flights - {p})
    case Fill(p) =>
      var answer := s.flights[p].phase.answer;
      At(s, p, Holds(answer)).(cache := Some(Entry(answer, s.now + TTL)))
    case SkipFill(p) => At(s, p, Holds(s.flights[p].phase.answer))
    case Finish(p) => s.(served := s.served + [Served(s.flights[p].phase.answer, s.now)], flights := s.flights - {p})
  }

  function Step(s: State, a: Action, bound: nat): (s': State)
    requires s.log != []
    ensures s'.log != []
  {
    if Enabled(s, a, bound) then Apply(s, a, bound) else s
  }

  /** Runs attempted actions of any number of processes, in the order they happened. */
  function Play(s: State, trace: seq<Action>, bound: nat): (s': State)
    requires s.log != []
    ensures s'.log != []
  {
    if trace == [] then s else Step(Play(s, trace[..|trace| - 1], bound), trace[|trace| - 1], bound)
  }

  lemma PlayOne(s: State, trace: seq<Action>, a: Action, bound: nat)
    requires s.log != []
    ensures Play(s, trace + [a], bound) == Step(Play(s, trace, bound), a, bound)
  {
    assert (trace + [a])[..|trace|] == trace;
  }

  lemma {:induction false} PlayAppend(s: State, a: seq<Action>, b: seq<Action>, bound: nat)
    requires s.log != []
    ensures Play(s, a + b, bound) == Play(Play(s, a, bound), b, bound)
    decreases |b|
  {
    if b == [] {
      assert a + b == a;
    } else {
      assert (a + b)[..|a + b| - 1] == a + b[..|b| - 1];
      PlayAppend(s, a, b[..|b| - 1], bound);
    }
  }

  /** Nothing cached, no flight, and the auth service answering `perms` since time 0. */
  function Init(perms: Perms): (s: State) {
    State(0, [(perms, 0)], None, map[], [])
  }

  // ---------------------------------------------------------------- bounded staleness

  /** `a` is what the auth service answered at the instant `a.asOf`. */
  ghost predicate Genuine(s: State, a: Answer) {
    && a.version < |s.log| && s.log[a.version].0 == a.perms
    && s.log[a.version].1 <= a.asOf <= s.now
    && (a.version + 1 < |s.log| ==> a.asOf <= s.log[a.version + 1].1)
  }

  ghost predicate LogInv(s: State) {
    s.log != [] && forall i :: 0 <= i < |s.log| ==> s.log[i].1 <= s.now
  }

  ghost predicate CacheInv(s: State, bound: nat) {
    s.cache.Some? ==>
      && Genuine(s, s.cache.value.answer) && s.cache.value.answer.perms != []
      && s.cache.value.expires <= s.now + TTL
      && s.cache.value.expires <= s.cache.value.answer.asOf + bound + TTL
  }

  /**
   A resolved answer is no older than the flight; a held one was read from a living entry during the flight, or
   resolved in it.
   */
  ghost predicate FlightInv(s: State, f: Flight, bound: nat) {
    && f.start <= s.now <= f.start + bound
    && (f.phase.Resolved? ==> Genuine(s, f.phase.answer) && f.start <= f.phase.answer.asOf)
    && (f.phase.Holds? ==> Genuine(s, f.phase.answer) && f.start <= f.phase.answer.asOf + bound + TTL)
  }

  ghost predicate ServedInv(s: State, v: Served, bound: nat) {
    Genuine(s, v.answer) && v.time <= s.now && v.time - v.answer.asOf <= TTL + 2 * bound
  }

  ghost predicate Inv(s: State, bound: nat) {
    && LogInv(s) && CacheInv(s, bound)
    && (forall p :: p in s.flights ==> FlightInv(s, s.flights[p], bound))
    && (forall v :: v in s.served ==> ServedInv(s, v, bound))
  }

  lemma StepKeepsGenuine(s: State, a: Action, bound: nat, x: Answer)
    requires LogInv(s) && Genuine(s, x) && Enabled(s, a, bound)
    ensures LogInv(Apply(s, a, bound)) && Genuine(Apply(s, a, bound), x)
  {
  }

  lemma StepKeepsCache(s: State, a: Action, bound: nat)
    requires Inv(s, bound) && Enabled(s, a, bound)
    ensures LogInv(Apply(s, a, bound)) && CacheInv(Apply(s, a, bound), bound)
  {
    if s.cache.Some? {
      StepKeepsGenuine(s, a, bound, s.cache.value.answer);
    }
    if a.Fill? {
      assert FlightInv(s, s.flights[a.p], bound);
    }
  }

  lemma StepKeepsFlight(s: State, a: Action, bound: nat, p: nat)
    requires Inv(s, bound) && Enabled(s, a, bound) && p in Apply(s, a, bound).flights
    ensures FlightInv(Apply(s, a, bound), Apply(s, a, bound).flights[p], bound)
  {
    if p in s.flights {
      assert FlightInv(s, s.flights[p], bound);
    }
  }

  lemma StepKeepsServed(s: State, a: Action, bound: nat, v: Served)
    requires Inv(s, bound) && Enabled(s, a, bound) && v in Apply(s, a, bound).served
    ensures ServedInv(Apply(s, a, bound), v, bound)
  {
    if v in s.served {
      StepKeepsGenuine(s, a, bound, v.answer);
    } else if a.Finish? {
      assert FlightInv(s, s.flights[a.p], bound);
    }
  }

  lemma StepKeepsInv(s: State, a: Action, bound: nat)
    requires Inv(s, bound) && Enabled(s, a, bound)
    ensures Inv(Apply(s, a, bound), bound)
  {
    StepKeepsCache(s, a, bound);
    forall p | p in Apply(s, a, bound).flights
      ensures FlightInv(Apply(s, a, bound), Apply(s, a, bound).flights[p], bound)
    {
      StepKeepsFlight(s, a, bound, p);
    }
    forall v | v in Apply(s, a, bound).served ensures ServedInv(Apply(s, a, bound), v, bound) {
      StepKeepsServed(s, a, bound, v);
    }
  }

  lemma {:induction false} PlayKeepsInv(s: State, trace: seq<Action>, bound: nat)
    requires Inv(s, bound)
    ensures Inv(Play(s, trace, bound), bound)
    decreases |trace|
  {
    if trace != [] {
      var before := Play(s, trace[..|trace| - 1], bound);
      PlayKeepsInv(s, trace[..|trace| - 1], bound);
      if Enabled(before, trace[|trace| - 1], bound) {
        StepKeepsInv(before, trace[|trace| - 1], bound);
      }
    }
  }

  /**
   Whatever gets lost: a list of permissions a caller gets was the auth service's answer at an instant at most
   one lifetime and two flights ago; an empty list is never cached.
   */
  lemma StalenessBounded(perms: Perms, trace: seq<Action>, bound: nat)
    ensures var s := Play(Init(perms), trace, bound);
      && (forall v :: v in s.served ==> Genuine(s, v.answer) && 0 <= v.time - v.answer.asOf <= 300_000 + 2 * bound)
      && (s.cache.Some? ==> s.cache.value.answer.perms != [])
  {
    PlayKeepsInv(Init(perms), trace, bound);
    ServedLater(perms, trace, bound);
  }

  ghost predicate NoForesight(s: State) {
    && (s.cache.Some? ==> s.cache.value.answer.asOf <= s.now)
    && (forall p :: p in s.flights && s.flights[p].phase.Resolved? ==> s.flights[p].phase.answer.asOf <= s.now)
    && (forall p :: p in s.flights && s.flights[p].phase.Holds? ==> s.flights[p].phase.answer.asOf <= s.now)
    && (forall v :: v in s.served ==> v.answer.asOf <= v.time)
  }

  lemma {:induction false} ServedLater(perms: Perms, trace: seq<Action>, bound: nat)
    ensures NoForesight(Play(Init(perms), trace, bound))
    decreases |trace|
  {
    if trace != [] {
      var before := Play(Init(perms), trace[..|trace| - 1], bound);
      ServedLater(perms, trace[..|trace| - 1], bound);
      if Enabled(before, trace[|trace| - 1], bound) {
        StepHasNoForesight(before, trace[|trace| - 1], bound);
      }
    }
  }

  lemma StepHasNoForesight(s: State, a: Action, bound: nat)
    requires s.log != [] && NoForesight(s) && Enabled(s, a, bound)
    ensures NoForesight(Apply(s, a, bound))
  {
    var s' := Apply(s, a, bound);
    forall p | p in s'.flights && (s'.flights[p].phase.Resolved? || s'.flights[p].phase.Holds?)
      ensures s'.flights[p].phase.answer.asOf <= s'.now
    {
      assert p in s.flights;
    }
  }

  /** The bound is reached: an answer that changed at once is still served, one lifetime and two flights later. */
  lemma StalenessIsTight(perms: Perms, newPerms: Perms, bound: nat) returns (trace: seq<Action>)
    requires perms != []
    ensures var s := Play(Init(perms), trace, bound);
      && s.log == [(perms, 0), (newPerms, 0)]
      && s.served != [] && s.served[|s.served| - 1] == Served(Answer(perms, 0, 0), 300_000 + 2 * bound)
  {
    var s0 := Init(perms);
    var ask := [Start(0), RecheckMiss(0), Resolve(0), Change(newPerms)];
    var store := [Tick(bound), Fill(0), Finish(0)];
    var reread := [Tick(TTL), Start(1), RecheckHit(1)];
    var answer := Answer(perms, 0, 0);
    Asking(s0, perms, newPerms, bound, ask);
    var s1 := Play(s0, ask, bound);
    Storing(s1, answer, bound, store);
    var s2 := Play(s1, store, bound);
    Rereading(s2, answer, bound, reread);
    var s3 := Play(s2, reread, bound);
    Handing(s3, answer, bound, [Tick(bound), Finish(1)]);
    trace := ask + (store + (reread + [Tick(bound), Finish(1)]));
    PlayAppend(s0, ask, store + (reread + [Tick(bound), Finish(1)]), bound);
    PlayAppend(s1, store, reread + [Tick(bound), Finish(1)], bound);
    PlayAppend(s2, reread, [Tick(bound), Finish(1)], bound);
  }

  lemma Asking(s: State, perms: Perms, newPerms: Perms, bound: nat, trace: seq<Action>)
    requires s == Init(perms) && trace == [Start(0), RecheckMiss(0), Resolve(0), Change(newPerms)]
    ensures Play(s, trace, bound)
         == State(0, [(perms, 0), (newPerms, 0)], None, map[0 := Flight(0, Resolved(Answer(perms, 0, 0)))], [])
  {
    assert [] + [Start(0)] == trace[..1];
    PlayOne(s, [], Start(0), bound);
    PlayOne(s, trace[..1], RecheckMiss(0), bound);
    assert trace[..1] + [RecheckMiss(0)] == trace[..2];
    PlayOne(s, trace[..2], Resolve(0), bound);
    assert trace[..2] + [Resolve(0)] == trace[..3];
    PlayOne(s, trace[..3], Change(newPerms), bound);
    assert trace[..3] + [Change(newPerms)] == trace;
  }

  lemma Storing(s: State, answer: Answer, bound: nat, trace: seq<Action>)
    requires s.log != [] && s.now == 0 && s.flights == map[0 := Flight(0, Resolved(answer))] && answer.perms != []
    requires trace == [Tick(bound), Fill(0), Finish(0)]
    ensures var s' := Play(s, trace, bound);
      s'.log == s.log && s'.now == bound && s'.flights == map[] && s'.cache == Some(Entry(answer, bound + TTL))
  {
    assert [] + [Tick(bound)] == trace[..1];
    PlayOne(s, [], Tick(bound), bound);
    PlayOne(s, trace[..1], Fill(0), bound);
    assert trace[..1] + [Fill(0)] == trace[..2];
    PlayOne(s, trace[..2], Finish(0), bound);
    assert trace[..2] + [Finish(0)] == trace;
  }

  lemma Rereading(s: State, answer: Answer, bound: nat, trace: seq<Action>)
    requires s.log != [] && s.now == bound && s.flights == map[] && s.cache == Some(Entry(answer, bound + TTL))
    requires trace == [Tick(TTL), Start(1), RecheckHit(1)]
    ensures var s' := Play(s, trace, bound);
      s'.log == s.log && s'.now == bound + TTL && s'.flights == map[1 := Flight(bound + TTL, Holds(answer))]
  {
    assert [] + [Tick(TTL)] == trace[..1];
    PlayOne(s, [], Tick(TTL), bound);
    PlayOne(s, trace[..1], Start(1), bound);
    assert trace[..1] + [Start(1)] == trace[..2];
    PlayOne(s, trace[..2], RecheckHit(1), bound);
    assert trace[..2] + [RecheckHit(1)] == trace;
  }

  lemma Handing(s: State, answer: Answer, bound: nat, trace: seq<Action>)
    requires s.log != [] && s.now == bound + TTL && s.flights == map[1 := Flight(bound + TTL, Holds(answer))]
    requires trace == [Tick(bound), Finish(1)]
    ensures var s' := Play(s, trace, bound);
      s'.log == s.log && s'.served == s.served + [Served(answer, TTL + 2 * bound)]
  {
    assert [] + [Tick(bound)] == trace[..1];
    PlayOne(s, [], Tick(bound), bound);
    PlayOne(s, trace[..1], Finish(1), bound);
    assert trace[..1] + [Finish(1)] == trace;
  }

  // ---------------------------------------------------------------- invalidation

  /** The flight of `p` already has an answer older than version `v`. */
  predicate HoldsOlder(s: State, p: nat, v: nat) {
    && p in s.flights && (s.flights[p].phase.Resolved? || s.flights[p].phase.Holds?)
    && s.flights[p].phase.answer.version < v
  }

  /** Nothing older than version `v` is on its way to anybody. */
  ghost predicate Purged(s: State, v: nat) {
    && v < |s.log|
    && (s.cache.Some? ==> s.cache.value.answer.version >= v)
    && forall p :: !HoldsOlder(s, p, v)
  }

  /** What is served from `s` on is of version `v` or later. */
  ghost predicate ServesSince(s: State, s': State, v: nat) {
    |s.served| <= |s'.served| && forall k :: |s.served| <= k < |s'.served| ==> s'.served[k].answer.version >= v
  }

  lemma StepKeepsPurged(s: State, a: Action, bound: nat, v: nat)
    requires Purged(s, v) && Enabled(s, a, bound)
    ensures Purged(Apply(s, a, bound), v) && ServesSince(s, Apply(s, a, bound), v)
  {
    var s' := Apply(s, a, bound);
    forall p ensures !HoldsOlder(s', p, v) {
      assert !HoldsOlder(s, p, v);
    }
    assert a.Fill? || a.Finish? ==> !HoldsOlder(s, a.p, v);
  }

  lemma {:induction false} PurgedServesNew(s: State, trace: seq<Action>, bound: nat, v: nat)
    requires Purged(s, v)
    ensures Purged(Play(s, trace, bound), v) && ServesSince(s, Play(s, trace, bound), v)
    decreases |trace|
  {
    if trace != [] {
      var before := Play(s, trace[..|trace| - 1], bound);
      PurgedServesNew(s, trace[..|trace| - 1], bound, v);
      if Enabled(before, trace[|trace| - 1], bound) {
        StepKeepsPurged(before, trace[|trace| - 1], bound, v);
      }
    }
  }

  /** A flight that holds an old answer can hand it out. */
  lemma OldAnswerEscapes(s: State, p: nat, v: nat, bound: nat) returns (trace: seq<Action>)
    requires s.log != [] && HoldsOlder(s, p, v)
    ensures !ServesSince(s, Play(s, trace, bound), v)
  {
    trace := [Finish(p)];
    if s.flights[p].phase.Resolved? {
      trace := [SkipFill(p)] + trace;
      PlayAppend(s, [SkipFill(p)], [Finish(p)], bound);
      PlaySingle(s, SkipFill(p), bound);
      HeldIsServed(Step(s, SkipFill(p), bound), p, bound);
    } else {
      HeldIsServed(s, p, bound);
    }
    assert Play(s, trace, bound).served[|s.served|].answer.version < v;
  }

  lemma PlaySingle(s: State, a: Action, bound: nat)
    requires s.log != []
    ensures Play(s, [a], bound) == Step(s, a, bound)
  {
    assert [a][..0] == [];
  }

  lemma HeldIsServed(s: State, p: nat, bound: nat)
    requires s.log != [] && p in s.flights && s.flights[p].phase.Holds?
    ensures Play(s, [Finish(p)], bound).served == s.served + [Served(s.flights[p].phase.answer, s.now)]
  {
    PlaySingle(s, Finish(p), bound);
  }

  /**
   A delete that reached Redis after a permission write is effective, in every continuation, exactly when no
   flight, in whatever process, has already resolved or read the answer from before the write. Flights that
   have not got that far do no harm.
   */
  lemma InvalidationEffectiveIff(s: State, bound: nat)
    requires s.log != []
    ensures var v, s' := |s.log| - 1, Apply(s, Delete, bound);
      (forall trace :: ServesSince(s', Play(s', trace, bound), v)) <==> (forall p :: !HoldsOlder(s, p, v))
  {
    var v, s' := |s.log| - 1, Apply(s, Delete, bound);
    if forall p :: !HoldsOlder(s, p, v) {
      forall p ensures !HoldsOlder(s', p, v) { assert !HoldsOlder(s, p, v); }
      forall trace ensures ServesSince(s', Play(s', trace, bound), v) {
        PurgedServesNew(s', trace, bound, v);
      }
    } else {
      var p :| HoldsOlder(s, p, v);
      var trace := OldAnswerEscapes(s', p, v, bound);
      assert !ServesSince(s', Play(s', trace, bound), v);
    }
  }

  // ---------------------------------------------------------------- GetUserPerms

  predicate OfFlight(a: Action, p: nat) {
    && (a.Start? || a.RecheckHit? || a.RecheckMiss? || a.Resolve? || a.ResolveFails?
        || a.Fill? || a.SkipFill? || a.Finish?)
    && a.p == p
  }

  predicate EndsFlight(a: Action, p: nat) {
    a == Finish(p) || a == ResolveFails(p)
  }

  /** A flight is out until it ends. */
  lemma {:induction false} StillOut(s: State, trace: seq<Action>, p: nat, bound: nat)
    requires s.log != [] && p in s.flights && forall a :: a in trace ==> !EndsFlight(a, p)
    ensures p in Play(s, trace, bound).flights
    decreases |trace|
  {
    if trace != [] {
      assert trace[|trace| - 1] in trace;
      StillOut(s, trace[..|trace| - 1], p, bound);
    }
  }

  /** Others can end or change a process's flight no more than they can begin one. */
  lemma {:induction false} OthersKeepFlight(s: State, trace: seq<Action>, p: nat, bound: nat)
    requires s.log != [] && forall a :: a in trace ==> !OfFlight(a, p)
    ensures var s' := Play(s, trace, bound);
      (p in s'.flights <==> p in s.flights) && (p in s.flights ==> s'.flights[p] == s.flights[p])
    decreases |trace|
  {
    if trace != [] {
      assert trace[|trace| - 1] in trace;
      OthersKeepFlight(s, trace[..|trace| - 1], p, bound);
      OtherKeepsFlight(Play(s, trace[..|trace| - 1], bound), trace[|trace| - 1], p, bound);
    }
  }

  lemma OtherKeepsFlight(s: State, a: Action, p: nat, bound: nat)
    requires s.log != [] && !OfFlight(a, p)
    ensures p in Step(s, a, bound).flights <==> p in s.flights
    ensures p in s.flights ==> Step(s, a, bound).flights[p] == s.flights[p]
  {
  }

  /**
   How a flight that a caller joined goes on: what happens until it ends, and its end, None while it is still
   out.
   */
  datatype Landing = Landing(rest: seq<Action>, end: Option<Action>)

  ghost predicate Lands(s: State, p: nat, landing: Landing, bound: nat)
    requires s.log != []
  {
    && (forall a :: a in landing.rest ==> !EndsFlight(a, p))
    && (landing.end.Some? ==> EndsFlight(landing.end.value, p)
                              && Enabled(Play(s, landing.rest, bound), landing.end.value, bound))
  }

  /** What a caller has: a list, an error, or nothing yet. */
  datatype Outcome = Got(perms: Perms) | Failed | Waiting

  /** Which of the calls fail: the two reads, the resolution, the write. */
  datatype Faults = Faults(read: bool, recheck: bool, resolve: bool, write: bool)

  /** Redis, the auth service and the processes, in the state their history led to. */
  class World {
    const perms: Perms
    const bound: nat
    ghost var history: seq<Action>
    var state: State

    ghost predicate Valid()
      reads this
    {
      state == Play(Init(perms), history, bound)
    }

    constructor (perms: Perms, bound: nat)
      ensures Valid() && history == [] && this.perms == perms && this.bound == bound
    {
      this.perms, this.bound, history, state := perms, bound, [], Init(perms);
    }

    /** The others act. */
    method Yield(others: seq<Action>)
      requires Valid()
      modifies this
      ensures Valid() && history == old(history) + others && state == Play(old(state), others, bound)
    {
      PlayAppend(Init(perms), history, others, bound);
      state, history := Play(state, others, bound), history + others;
    }

    method Do(a: Action)
      requires Valid() && Enabled(state, a, bound)
      modifies this
      ensures Valid() && history == old(history) + [a] && state == Apply(old(state), a, bound)
    {
      PlayOne(Init(perms), history, a, bound);
      state, history := Apply(state, a, bound), history + [a];
    }

    /** `perms` is what a caller just got, an answer of the auth service from no longer ago than the bound. */
    ghost predicate JustServed(perms: Perms)
      reads this
    {
      exists v :: v in state.served && v.answer.perms == perms && v.time == state.now
                  && Genuine(state, v.answer) && v.time - v.answer.asOf <= TTL + 2 * bound
    }

    /** A read after `others` gives nothing. */
    predicate Missed(s: State, others: seq<Action>, fault: bool)
      requires s.log != []
    {
      !Readable(Play(s, others, bound)) || fault
    }

    /**
     `GetUserPerms` of a caller in process `p`; the others act before each of its steps, and if a flight of the
     process is out when it gets there, it joins that one. A list it gets was the auth service's answer no longer
     ago than the bound, an error means that a resolution failed, and it waits only while a flight is out.
     */
    method GetUserPerms(p: nat, faults: Faults, others: seq<seq<Action>>, landing: Landing) returns (r: Outcome)
      requires Valid() && |others| == 6
      requires forall k, a :: 2 <= k < 6 && a in others[k] ==> !OfFlight(a, p)
      requires var s := Play(Play(state, others[0], bound), others[1], bound);
        p in s.flights ==> Lands(s, p, landing, bound)
      modifies this
      ensures Valid()
      ensures r.Got? ==> JustServed(r.perms)
      ensures r.Failed? ==> history != [] && history[|history| - 1] == ResolveFails(p)
      ensures r.Waiting? ==> landing.end.None? && p in state.flights
      ensures !Missed(old(state), others[0], faults.read) ==>
        && r == Got(Play(old(state), others[0], bound).cache.value.answer.perms)
        && history == old(history) + others[0] + [ReadHit]
      ensures var s := Play(Play(old(state), others[0], bound), others[1], bound);
        && (Missed(old(state), others[0], faults.read) && p in s.flights ==>
              (r.Waiting? <==> landing.end.None?) && (r.Failed? <==> landing.end == Some(ResolveFails(p))))
        && (Missed(old(state), others[0], faults.read) && p !in s.flights ==>
              !r.Waiting? && (r.Failed? ==> faults.resolve)
              && old(history) + others[0] + others[1] + [Start(p)] <= history)
    {
      Yield(others[0]);
      if Readable(state) && !faults.read {
        var got := state.cache.value.answer.perms;
        Do(ReadHit);
        Prove(state.served[|state.served| - 1]);
        return Got(got);
      }
      Yield(others[1]);
      r := JoinOrLead(p, faults, others[2..], landing);
    }

    /** `singleflight.Group.Do`. */
    method JoinOrLead(p: nat, faults: Faults, others: seq<seq<Action>>, landing: Landing) returns (r: Outcome)
      requires Valid() && |others| == 4 && forall k, a :: 0 <= k < 4 && a in others[k] ==> !OfFlight(a, p)
      requires p in state.flights ==> Lands(state, p, landing, bound)
      modifies this
      ensures Valid() && old(history) <= history
      ensures r.Got? ==> JustServed(r.perms)
      ensures r.Failed? ==> history != [] && history[|history| - 1] == ResolveFails(p)
      ensures r.Waiting? ==> landing.end.None? && p in state.flights
      ensures p in old(state).flights ==>
        (r.Waiting? <==> landing.end.None?) && (r.Failed? <==> landing.end == Some(ResolveFails(p)))
      ensures p !in old(state).flights ==>
        !r.Waiting? && (r.Failed? ==> faults.resolve) && old(history) + [Start(p)] <= history
    {
      if p in state.flights {
        r := Join(p, landing);
      } else {
        Do(Start(p));
        r := Fly(p, faults, others);
      }
    }

    /** What singleflight does for a caller that finds a flight out. */
    method Join(p: nat, landing: Landing) returns (r: Outcome)
      requires Valid() && p in state.flights && Lands(state, p, landing, bound)
      modifies this
      ensures Valid()
      ensures r.Got? ==> JustServed(r.perms)
      ensures r.Failed? ==> history != [] && history[|history| - 1] == ResolveFails(p)
      ensures r.Waiting? ==> landing.end.None? && p in state.flights
      ensures (r.Waiting? <==> landing.end.None?) && (r.Failed? <==> landing.end == Some(ResolveFails(p)))
      ensures old(history) <= history
    {
      StillOut(state, landing.rest, p, bound);
      Yield(landing.rest);
      if landing.end.None? {
        return Waiting;
      }
      if landing.end.value.ResolveFails? {
        Do(landing.end.value);
        return Failed;
      }
      var got := state.flights[p].phase.answer.perms;
      Do(Finish(p));
      Prove(state.served[|state.served| - 1]);
      return Got(got);
    }

    ghost method Prove(v: Served)
      requires Valid() && v in state.served
      ensures Genuine(state, v.answer) && v.time - v.answer.asOf <= TTL + 2 * bound
    {
      PlayKeepsInv(Init(perms), history, bound);
    }

    /** The others act; they leave the flight of `p` as it is. */
    method YieldInFlight(p: nat, others: seq<Action>)
      requires Valid() && p in state.flights && forall a :: a in others ==> !OfFlight(a, p)
      modifies this
      ensures Valid() && history == old(history) + others && state == Play(old(state), others, bound)
      ensures p in state.flights && state.flights[p] == old(state).flights[p]
    {
      OthersKeepFlight(state, others, p, bound);
      Yield(others);
    }

    /** The history of a resolution that gave `perms`, cached unless they are empty or the write failed. */
    predicate Asked(p: nat, before: seq<Action>, others: seq<seq<Action>>, perms: Perms, faults: Faults,
                    after: seq<Action>)
      requires |others| >= 2
    {
      var fill := if perms != [] && !faults.write then Fill(p) else SkipFill(p);
      after == before + others[0] + [Resolve(p)] + others[1] + [fill]
    }

    /** Resolves and caches an answer, unless the auth service fails. */
    method Ask(p: nat, faults: Faults, others: seq<seq<Action>>) returns (ok: bool)
      requires Valid() && p in state.flights && state.flights[p].phase == Rechecked
      requires |others| == 2 && forall k, a :: 0 <= k < 2 && a in others[k] ==> !OfFlight(a, p)
      modifies this
      ensures Valid() && ok == !faults.resolve
      ensures ok ==> p in state.flights && state.flights[p].phase.Holds?
      ensures !ok ==> p !in state.flights && history == old(history) + others[0] + [ResolveFails(p)]
      ensures ok ==> state.flights[p].phase.answer == Current(Play(old(state), others[0], bound))
      ensures ok ==> Asked(p, old(history), others, state.flights[p].phase.answer.perms, faults, history)
    {
      YieldInFlight(p, others[0]);
      if faults.resolve {
        Do(ResolveFails(p));
        return false;
      }
      Do(Resolve(p));
      YieldInFlight(p, others[1]);
      if |state.flights[p].phase.answer.perms| > 0 && !faults.write {
        Do(Fill(p));
      } else {
        Do(SkipFill(p));
      }
      return true;
    }

    /** The waiters, leader included, get what the flight holds. */
    method Land(p: nat, others: seq<Action>) returns (perms: Perms)
      requires Valid() && p in state.flights && state.flights[p].phase.Holds?
      requires forall a :: a in others ==> !OfFlight(a, p)
      modifies this
      ensures Valid() && p !in state.flights && JustServed(perms)
      ensures perms == old(state).flights[p].phase.answer.perms
      ensures history == old(history) + others + [Finish(p)]
    {
      YieldInFlight(p, others);
      perms := state.flights[p].phase.answer.perms;
      Do(Finish(p));
      Prove(state.served[|state.served| - 1]);
    }

    /** The rest of the closure after the re-check found nothing. */
    method AskAndLand(p: nat, faults: Faults, others: seq<seq<Action>>) returns (r: Outcome)
      requires Valid() && p in state.flights && state.flights[p].phase == Rechecked
      requires |others| == 3 && forall k, a :: 0 <= k < 3 && a in others[k] ==> !OfFlight(a, p)
      modifies this
      ensures Valid() && p !in state.flights && !r.Waiting? && (r.Failed? <==> faults.resolve)
      ensures r.Failed? ==> history == old(history) + others[0] + [ResolveFails(p)]
      ensures r.Got? ==> JustServed(r.perms) && r.perms == Current(Play(old(state), others[0], bound)).perms
      ensures r.Got? ==> exists h :: Asked(p, old(history), others[..2], r.perms, faults, h)
                                     && history == h + others[2] + [Finish(p)]
    {
      var resolved := Ask(p, faults, others[..2]);
      if !resolved {
        return Failed;
      }
      ghost var h := history;
      var perms := Land(p, others[2]);
      assert Asked(p, old(history), others[..2], perms, faults, h);
      return Got(perms);
    }

    /** The closure run by singleflight. */
    method Fly(p: nat, faults: Faults, others: seq<seq<Action>>) returns (r: Outcome)
      requires Valid() && p in state.flights && state.flights[p].phase == Started
      requires |others| == 4 && forall k, a :: 0 <= k < 4 && a in others[k] ==> !OfFlight(a, p)
      modifies this
      ensures Valid() && p !in state.flights && !r.Waiting? && old(history) <= history
      ensures r.Got? ==> JustServed(r.perms)
      ensures r.Failed? ==> faults.resolve && history != [] && history[|history| - 1] == ResolveFails(p)
      ensures Missed(old(state), others[0], faults.recheck) ==> (r.Failed? <==> faults.resolve)
      ensures !Missed(old(state), others[0], faults.recheck) ==>
        && r == Got(Play(old(state), others[0], bound).cache.value.answer.perms)
        && history == old(history) + others[0] + [RecheckHit(p)] + others[3] + [Finish(p)]
      ensures Missed(old(state), others[0], faults.recheck) && r.Got? ==>
        exists h :: Asked(p, old(history) + others[0] + [RecheckMiss(p)], others[1..3], r.perms, faults, h)
                    && history == h + others[3] + [Finish(p)]
    {
      YieldInFlight(p, others[0]);
      if Readable(state) && !faults.recheck {
        Do(RecheckHit(p));
        var perms := Land(p, others[3]);
        return Got(perms);
      }
      Do(RecheckMiss(p));
      assert others[1..][..2] == others[1..3];
      r := AskAndLand(p, faults, others[1..]);
    }
  }

  // ---------------------------------------------------------------- keys

  function CacheKey(user: string): (key: string) {
    "user_perms:" + user
  }

  function ScopedKey(company: string, key: string): (scoped: string) {
    if company == "" then key else company + ":" + key
  }

  /** `key` is one of the two keys of one of the users. */
  ghost predicate Names(key: string, company: string, users: seq<string>) {
    exists u :: u in users
      && (key == "user_perms:" + u || (company != "" && key == company + ":" + ("user_perms:" + u)))
  }

  /** Both key shapes of every user, in order; without an acting company, the canonical ones only. */
  method PermCacheKeys(company: string, users: seq<string>) returns (keys: seq<string>)
    ensures forall k :: k in keys <==> Names(k, company, users)
    ensures |keys| == if company == "" then |users| else 2 * |users|
  {
    keys := [];
    for i := 0 to |users|
      invariant forall k :: k in keys <==> Names(k, company, users[..i])
      invariant |keys| == if company == "" then i else 2 * i
    {
      var key := CacheKey(users[i]);
      assert users[..i + 1] == users[..i] + [users[i]];
      keys := keys + [key];
      if company != "" {
        keys := keys + [ScopedKey(company, key)];
      }
    }
    assert users[..|users|] == users;
  }

  /** Deleting a user's keys deletes no other user's: a canonical key belongs to one user only. */
  lemma KeysTellUsersApart(u: string, v: string, company: string)
    requires CacheKey(u) == CacheKey(v) || ScopedKey(company, CacheKey(u)) == ScopedKey(company, CacheKey(v))
    ensures u == v
  {
    assert CacheKey(u)[11..] == u && CacheKey(v)[11..] == v;
    if company != "" {
      assert ScopedKey(company, CacheKey(u))[|company| + 1..] == CacheKey(u);
      assert ScopedKey(company, CacheKey(v))[|company| + 1..] == CacheKey(v);
    }
  }
}
