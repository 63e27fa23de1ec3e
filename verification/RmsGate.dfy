/**
 The policy-gate client (rmsgate/client.go, processes.go): on a failed evaluation it answers by the process's
 fail mode, and after five failures it stays away from the service for two seconds.
 */
module RmsGate {
  import opened Wrappers

  const THRESHOLD: nat := 5
  /** Nanoseconds. */
  const COOLDOWN: nat := 2_000_000_000

  // ---------------------------------------------------------------- verdicts

  type Mode = nat
  const FAIL_CLOSED: Mode := 0
  const FAIL_OPEN: Mode := 1

  datatype ProcessDef = ProcessDef(process: string, mode: Mode)

  datatype Decision = Decision(allow: bool, reasons: seq<string>, steps: seq<string>, failedOpen: bool)

  /** The last definition of each process. */
  function Registered(defs: seq<ProcessDef>): (m: map<string, ProcessDef>) {
    if defs == [] then map[] else Registered(defs[..|defs| - 1])[defs[|defs| - 1].process := defs[|defs| - 1]]
  }

  method NewRegistry(defs: seq<ProcessDef>) returns (m: map<string, ProcessDef>)
    ensures m == Registered(defs)
  {
    m := map[];
    for i := 0 to |defs|
      invariant m == Registered(defs[..i])
    {
      assert defs[..i + 1][..i] == defs[..i];
      m := m[defs[i].process := defs[i]];
    }
    assert defs[..|defs|] == defs;
  }

  function ModeOf(registry: Option<map<string, ProcessDef>>, process: string): (mode: Mode) {
    if registry.None? || process !in registry.value then FAIL_CLOSED else registry.value[process].mode
  }

  /** Definition `i` is the last one of the process. */
  ghost predicate IsLast(defs: seq<ProcessDef>, process: string, i: nat) {
    i < |defs| && defs[i].process == process && forall j :: i < j < |defs| ==> defs[j].process != process
  }

  lemma {:induction false} LastDefinitionCounts(defs: seq<ProcessDef>, process: string)
    ensures process in Registered(defs) ==>
        exists i: nat :: IsLast(defs, process, i) && Registered(defs)[process] == defs[i]
    ensures process !in Registered(defs) ==> forall i: nat :: !IsLast(defs, process, i)
    decreases |defs|
  {
    if defs != [] {
      var init, n := defs[..|defs| - 1], |defs| - 1;
      LastDefinitionCounts(init, process);
      forall i: nat ensures IsLast(defs, process, i) <==>
          (if defs[n].process == process then i == n else IsLast(init, process, i)) {
        assert forall j :: 0 <= j < n ==> init[j] == defs[j];
      }
      assert defs[n].process == process ==> IsLast(defs, process, n);
    }
  }

  function FailDecision(registry: Option<map<string, ProcessDef>>, process: string, reason: string): (d: Decision) {
    var mode := ModeOf(registry, process);
    Decision(mode == FAIL_OPEN, ["rmsgate: " + reason + " (" +
        (if mode == FAIL_OPEN then "fail-open" else "fail-closed") + ")"],
             [], true)
  }

  /**
   Without an answer from the gate, a request passes exactly when there is a registry and its last definition of
   the process says fail-open; the verdict says so.
   */
  lemma FailsOpenIff(defs: Option<seq<ProcessDef>>, process: string, reason: string)
    ensures var registry := match defs case None => None case Some(ds) => Some(Registered(ds));
      var d := FailDecision(registry, process, reason);
      && d.failedOpen && d.steps == []
      && (d.allow <==> defs.Some? && exists i: nat :: IsLast(defs.value, process, i) && defs.value[i].mode == 1)
      && d.reasons == ["rmsgate: " + reason + (if d.allow then " (fail-open)" else " (fail-closed)")]
  {
    if defs.Some? { LastDefinitionCounts(defs.value, process); }
    assert ("rmsgate: " + reason + " (") + "fail-open" + ")" == "rmsgate: " + reason + " (fail-open)";
    assert ("rmsgate: " + reason + " (") + "fail-closed" + ")" == "rmsgate: " + reason + " (fail-closed)";
  }

  // ---------------------------------------------------------------- sequential calls

  /** The two atomics. */
  datatype Gate = Gate(failures: int, openUntil: int)

  /** A call by the clock: when it looked at the circuit, started its evaluation and ended it. */
  datatype Call = Call(check: nat, start: nat, end: nat)

  predicate Skips(g: Gate, check: nat) {
    g.openUntil > 0 && check < g.openUntil
  }

  /** The gate after a call whose evaluation fails. */
  function Fail(g: Gate, c: Call): (g': Gate) {
    if Skips(g, c.check) then g
    else if g.failures + 1 >= THRESHOLD then Gate(0, c.end + COOLDOWN)
    else Gate(g.failures + 1, g.openUntil)
  }

  function FailAll(g: Gate, calls: seq<Call>): (g': Gate) {
    if calls == [] then g else Fail(FailAll(g, calls[..|calls| - 1]), calls[|calls| - 1])
  }

  /** How often the circuit opened. */
  function Openings(g: Gate, calls: seq<Call>): (n: nat) {
    if calls == [] then 0
    else
      var before, c := FailAll(g, calls[..|calls| - 1]), calls[|calls| - 1];
      Openings(g, calls[..|calls| - 1]) + (if !Skips(before, c.check) && before.failures + 1 >= THRESHOLD then 1 else 0)
  }

  /** An evaluation that took place: its start, and how often the circuit had opened before. */
  datatype Evaluation = Evaluation(start: nat, round: nat)

  function Evaluations(g: Gate, calls: seq<Call>): (es: seq<Evaluation>) {
    if calls == [] then []
    else
      var init, c := calls[..|calls| - 1], calls[|calls| - 1];
      Evaluations(g, init) + (if Skips(FailAll(g, init), c.check) then [] else [Evaluation(c.start, Openings(g, init))])
  }

  /** One caller after the other. */
  ghost predicate Sequential(calls: seq<Call>) {
    && (forall i :: 0 <= i < |calls| ==> calls[i].check <= calls[i].start <= calls[i].end)
    && (forall i, j :: 0 <= i < j < |calls| ==> calls[i].end <= calls[j].check)
  }

  function InRound(es: seq<Evaluation>, k: nat): (n: nat) {
    if es == [] then 0 else InRound(es[..|es| - 1], k) + (if es[|es| - 1].round == k then 1 else 0)
  }

  lemma InRoundOne(es: seq<Evaluation>, e: Evaluation, k: nat)
    ensures InRound(es + [e], k) == InRound(es, k) + (if e.round == k then 1 else 0)
  {
    assert (es + [e])[..|es|] == es;
  }

  /** Failures below the threshold stay there, and count the evaluations of the current round. */
  lemma {:induction false} RoundsAreShort(g: Gate, calls: seq<Call>, k: nat)
    requires 0 <= g.failures < THRESHOLD
    ensures 0 <= FailAll(g, calls).failures < THRESHOLD
    ensures InRound(Evaluations(g, calls), k) <= THRESHOLD
    ensures k == Openings(g, calls) ==> InRound(Evaluations(g, calls), k) <= FailAll(g, calls).failures
    ensures k > Openings(g, calls) ==> InRound(Evaluations(g, calls), k) == 0
    decreases |calls|
  {
    if calls != [] {
      var init, c := calls[..|calls| - 1], calls[|calls| - 1];
      RoundsAreShort(g, init, k);
      assert Evaluations(g, init) + [] == Evaluations(g, init);
      InRoundOne(Evaluations(g, init), Evaluation(c.start, Openings(g, init)), k);
    }
  }

  /** Rounds are at least a cooldown apart. */
  ghost predicate Apart(es: seq<Evaluation>) {
    forall i, j :: 0 <= i < j < |es| ==>
      es[i].start <= es[j].start && (es[i].round == es[j].round || es[i].start + COOLDOWN <= es[j].start)
  }

  /** What is known of past evaluations before a call at or after `now`. */
  ghost predicate Behind(es: seq<Evaluation>, round: nat, openUntil: int, now: int) {
    forall i :: 0 <= i < |es| ==>
      es[i].start <= now && es[i].round <= round && (es[i].round < round ==> es[i].start + COOLDOWN <= openUntil)
  }

  lemma {:induction false} RoundsAreApart(g: Gate, calls: seq<Call>)
    requires Sequential(calls) && 0 <= g.failures < THRESHOLD
    ensures Apart(Evaluations(g, calls))
    ensures Behind(Evaluations(g, calls), Openings(g, calls), FailAll(g, calls).openUntil,
                   if calls == [] then 0 else calls[|calls| - 1].end)
    decreases |calls|
  {
    if calls != [] {
      var init, c := calls[..|calls| - 1], calls[|calls| - 1];
      RoundsAreApart(g, init);
      var lastEnd := if init == [] then 0 else init[|init| - 1].end;
      RoundStep(Evaluations(g, init), Openings(g, init), FailAll(g, init), c, lastEnd);
    }
  }

  lemma RoundStep(es: seq<Evaluation>, round: nat, g: Gate, c: Call, now: int)
    requires Apart(es) && Behind(es, round, g.openUntil, now) && now <= c.check <= c.start <= c.end
    ensures Behind(es, round, g.openUntil, c.end)
    ensures !Skips(g, c.check) ==>
      Apart(es + [Evaluation(c.start, round)]) && Behind(es + [Evaluation(c.start, round)], round, g.openUntil, c.end)
      && Behind(es + [Evaluation(c.start, round)], round + 1, c.end + COOLDOWN, c.end)
  {
  }

  function StartsIn(es: seq<Evaluation>, from: int, to: int): (n: nat) {
    if es == [] then 0 else StartsIn(es[..|es| - 1], from, to) + (if from <= es[|es| - 1].start < to then 1 else 0)
  }

  lemma {:induction false} OneRoundOnly(es: seq<Evaluation>, from: int, to: int, k: nat)
    requires forall e :: e in es && from <= e.start < to ==> e.round == k
    ensures StartsIn(es, from, to) <= InRound(es, k)
    decreases |es|
  {
    if es != [] { OneRoundOnly(es[..|es| - 1], from, to, k); }
  }

  lemma {:induction false} NoStarts(es: seq<Evaluation>, from: int, to: int)
    requires forall e :: e in es ==> !(from <= e.start < to)
    ensures StartsIn(es, from, to) == 0
    decreases |es|
  {
    if es != [] { NoStarts(es[..|es| - 1], from, to); }
  }

  /** While the service is down, one caller after the other, at most five evaluations start in any two seconds. */
  lemma FewEvaluations(g: Gate, calls: seq<Call>, from: int)
    requires Sequential(calls) && 0 <= g.failures < THRESHOLD
    ensures StartsIn(Evaluations(g, calls), from, from + 2_000_000_000) <= 5
  {
    var es := Evaluations(g, calls);
    RoundsAreApart(g, calls);
    if e :| e in es && from <= e.start < from + COOLDOWN {
      SameRound(es, from, e);
      OneRoundOnly(es, from, from + COOLDOWN, e.round);
      RoundsAreShort(g, calls, e.round);
    } else {
      NoStarts(es, from, from + COOLDOWN);
    }
  }

  lemma SameRound(es: seq<Evaluation>, from: int, e: Evaluation)
    requires Apart(es) && e in es && from <= e.start < from + COOLDOWN
    ensures forall d :: d in es && from <= d.start < from + COOLDOWN ==> d.round == e.round
  {
    var i :| 0 <= i < |es| && es[i] == e;
    forall d | d in es && from <= d.start < from + COOLDOWN ensures d.round == e.round {
      var j :| 0 <= j < |es| && es[j] == d;
      assert j < i || i < j || i == j;
    }
  }

  /** The client, called by one goroutine at a time. */
  class Client {
    var failures: int
    var openUntil: int
    const registry: Option<map<string, ProcessDef>>

    ghost function State(): (g: Gate)
      reads this
    {
      Gate(failures, openUntil)
    }

    constructor (registry: Option<map<string, ProcessDef>>)
      ensures this.registry == registry && State() == Gate(0, 0)
    {
      this.registry, failures, openUntil := registry, 0, 0;
    }

    /** `outcome` is what the evaluation gave, if there was one: a decision, or the text of an error. */
    method Decide(process: string, c: Call, outcome: Result<Decision, string>) returns (d: Decision)
      modifies this
      ensures Skips(old(State()), c.check) ==>
        State() == old(State()) && d == FailDecision(registry, process, "gate circuit open")
      ensures !Skips(old(State()), c.check) && outcome.Err? ==>
        State() == Fail(old(State()), c) && d == FailDecision(registry, process, "gate unavailable: " + outcome.error)
      ensures !Skips(old(State()), c.check) && outcome.Ok? ==>
        State() == Gate(0, old(openUntil)) && d == outcome.value
      ensures old(openUntil) > 0 && c.check < old(openUntil) ==>
        failures == old(failures) && openUntil == old(openUntil) && d.failedOpen
      ensures !(old(openUntil) > 0 && c.check < old(openUntil)) && outcome.Err? && old(failures) >= 4 ==>
        failures == 0 && openUntil == c.end + 2_000_000_000 && d.failedOpen
      ensures !(old(openUntil) > 0 && c.check < old(openUntil)) && outcome.Err? && old(failures) < 4 ==>
        failures == old(failures) + 1 && openUntil == old(openUntil) && d.failedOpen
      ensures !(old(openUntil) > 0 && c.check < old(openUntil)) && outcome.Ok? ==>
        failures == 0 && openUntil == old(openUntil) && d == outcome.value
    {
      var until := openUntil;
      if until > 0 && c.check < until {
        return FailDecision(registry, process, "gate circuit open");
      }
      match outcome {
        case Err(error) =>
          failures := failures + 1;
          if failures >= THRESHOLD {
            openUntil := c.end + COOLDOWN;
            failures := 0;
          }
          return FailDecision(registry, process, "gate unavailable: " + error);
        case Ok(decision) =>
          failures := 0;
          return decision;
      }
    }
  }

  // ---------------------------------------------------------------- concurrent calls

  /** How far a call got. Each step reads or writes one atomic, or the clock. */
  datatype Phase =
    | Loaded(until: int)
    | Evaluating
    | Failed
    | Added(n: int, at: nat)
    | Timed(until: int, at: nat)
    | Opened
    | Succeeded

  /** History: an increment and the value it returned, a reset, an opening by the call whose increment is event `at`. */
  datatype Event = Add(c: nat, n: int) | Reset(c: nat) | Open(c: nat, at: nat)

  datatype Shared = Shared(now: nat, gate: Gate, calls: map<nat, Phase>, history: seq<Event>)

  datatype Action =
    | Tick(d: nat)
    | Load(c: nat)
    | Check(c: nat)
    | Return(c: nat, ok: bool)
    | Increment(c: nat)
    | Judge(c: nat)
    | StoreOpen(c: nat)
    | StoreZero(c: nat)

  /** Two's complement of 32 bits. */
  function Wrap32(x: int): (w: int) {
    (x + 0x8000_0000) % 0x1_0000_0000 - 0x8000_0000
  }

  predicate Enabled(s: Shared, a: Action) {
    match a
    case Tick(_) => true
    case Load(c) => c !in s.calls
    case Check(c) => c in s.calls && s.calls[c].Loaded?
    case Return(c, _) => c in s.calls && s.calls[c].Evaluating?
    case Increment(c) => c in s.calls && s.calls[c].Failed?
    case Judge(c) => c in s.calls && s.calls[c].Added?
    case StoreOpen(c) => c in s.calls && s.calls[c].Timed?
    case StoreZero(c) => c in s.calls && (s.calls[c].Opened? || s.calls[c].Succeeded?)
  }

  /** `Judge` compares the result of the increment, and reads the clock if it reached the threshold. */
  function Apply(s: Shared, a: Action): (s': Shared)
    requires Enabled(s, a)
  {
    match a
    case Tick(d) => s.(now := s.now + d)
    case Load(c) => s.(calls := s.calls[c := Loaded(s.gate.openUntil)])
    case Check(c) =>
      var until := s.calls[c].until;
      if until > 0 && s.now < until then s.(calls := s.calls - {c}) else s.(calls := s.calls[c := Evaluating])
    case Return(c, ok) => s.(calls := s.calls[c := if ok then Succeeded else Failed])
    case Increment(c) =>
      var n := Wrap32(s.gate.failures + 1);
      s.(gate := s.gate.(failures := n), calls := s.calls[c := Added(n, |s.history|)],
         history := s.history + [Add(c, n)])
    case Judge(c) =>
      var phase := s.calls[c];
      if phase.n >= THRESHOLD then s.(calls := s.calls[c := Timed(s.now + COOLDOWN, phase.at)])
      else s.(calls := s.calls - {c})
    case StoreOpen(c) =>
      var phase := s.calls[c];
      s.(gate := s.gate.(openUntil := phase.until), calls := s.calls[c := Opened],
         history := s.history + [Open(c, phase.at)])
    case StoreZero(c) => s.(gate := s.gate.(failures := 0), calls := s.calls - {c}, history := s.history + [Reset(c)])
  }

  function Step(s: Shared, a: Action): (s': Shared) {
    if Enabled(s, a) then Apply(s, a) else s
  }

  function Play(s: Shared, trace: seq<Action>): (s': Shared) {
    if trace == [] then s else Step(Play(s, trace[..|trace| - 1]), trace[|trace| - 1])
  }

  const INIT := Shared(0, Gate(0, 0), map[], [])

  /** Increments since the last reset. */
  function SinceReset(history: seq<Event>): (n: nat) {
    if history == [] then 0
    else match history[|history| - 1]
      case Add(_, _) => 1 + SinceReset(history[..|history| - 1])
      case Reset(_) => 0
      case Open(_, _) => SinceReset(history[..|history| - 1])
  }

  /** Event `at` is an increment by `c` that saw the threshold reached since the last reset. */
  ghost predicate SawThreshold(history: seq<Event>, c: nat, at: nat) {
    at < |history| && history[at].Add? && history[at].c == c && history[at].n >= 5
    && SinceReset(history[..at + 1]) >= 5
  }

  ghost predicate SawIncrement(history: seq<Event>, c: nat, n: int, at: nat) {
    at < |history| && history[at] == Add(c, n) && (n >= THRESHOLD ==> SawThreshold(history, c, at))
  }

  ghost predicate Inv(s: Shared) {
    && s.gate.failures == Wrap32(SinceReset(s.history))
    && (forall c :: c in s.calls && s.calls[c].Added? ==> SawIncrement(s.history, c, s.calls[c].n, s.calls[c].at))
    && (forall c :: c in s.calls && s.calls[c].Timed? ==> SawThreshold(s.history, c, s.calls[c].at))
    && (forall k :: 0 <= k < |s.history| && s.history[k].Open? ==>
        SawThreshold(s.history[..k], s.history[k].c, s.history[k].at))
  }

  lemma MoreHistory(history: seq<Event>, e: Event, c: nat, at: nat)
    requires SawThreshold(history, c, at)
    ensures SawThreshold(history + [e], c, at)
  {
    assert (history + [e])[..at + 1] == history[..at + 1];
  }

  /** A small count that reached the threshold after wrapping is a count at the threshold or beyond. */
  lemma WrapReaches(count: nat)
    ensures Wrap32(count) >= THRESHOLD ==> count >= THRESHOLD
    ensures Wrap32(Wrap32(count) + 1) == Wrap32(count + 1)
  {
    Wrap32Adds(count, 1);
  }

  lemma Wrap32Adds(x: int, y: int)
    ensures Wrap32(Wrap32(x) + y) == Wrap32(x + y)
  {
    var q := (x + 0x8000_0000) / 0x1_0000_0000;
    assert Wrap32(x) == x - q * 0x1_0000_0000;
    Shifted(x + y + 0x8000_0000, q);
  }

  lemma Shifted(x: int, q: int)
    ensures (x - q * 0x1_0000_0000) % 0x1_0000_0000 == x % 0x1_0000_0000
  {
  }

  lemma IncrementKeepsInv(s: Shared, c: nat)
    requires Inv(s) && Enabled(s, Increment(c))
    ensures Inv(Apply(s, Increment(c)))
  {
    var s' := Apply(s, Increment(c));
    var n, at := s'.calls[c].n, |s.history|;
    assert s'.history[..at] == s.history && s'.history[..at + 1] == s'.history;
    WrapReaches(SinceReset(s.history));
    WrapReaches(SinceReset(s'.history));
    HistoryKeepsCalls(s, s', Add(c, n), c);
  }

  /** Appending an event leaves what is recorded of the other calls, and of past openings, as it was. */
  lemma HistoryKeepsCalls(s: Shared, s': Shared, e: Event, c: nat)
    requires Inv(s) && s'.history == s.history + [e]
    requires forall d :: d in s'.calls && d != c ==> d in s.calls && s'.calls[d] == s.calls[d]
    ensures forall d :: d in s'.calls && d != c && s'.calls[d].Added? ==>
        SawIncrement(s'.history, d, s'.calls[d].n, s'.calls[d].at)
    ensures forall d :: d in s'.calls && d != c && s'.calls[d].Timed? ==> SawThreshold(s'.history, d, s'.calls[d].at)
    ensures forall k :: 0 <= k < |s.history| && s'.history[k].Open? ==>
      SawThreshold(s'.history[..k], s'.history[k].c, s'.history[k].at)
  {
    forall d | d in s'.calls && d != c && s'.calls[d].Added?
      ensures SawIncrement(s'.history, d, s'.calls[d].n, s'.calls[d].at)
    {
      assert SawIncrement(s.history, d, s.calls[d].n, s.calls[d].at);
      if s.calls[d].n >= THRESHOLD { MoreHistory(s.history, e, d, s.calls[d].at); }
    }
    forall d | d in s'.calls && d != c && s'.calls[d].Timed? ensures SawThreshold(s'.history, d, s'.calls[d].at) {
      MoreHistory(s.history, e, d, s.calls[d].at);
    }
    forall k | 0 <= k < |s.history| && s'.history[k].Open?
      ensures SawThreshold(s'.history[..k], s'.history[k].c, s'.history[k].at)
    {
      assert s'.history[..k] == s.history[..k];
    }
  }

  lemma StoreOpenKeepsInv(s: Shared, c: nat)
    requires Inv(s) && Enabled(s, StoreOpen(c))
    ensures Inv(Apply(s, StoreOpen(c)))
  {
    var s' := Apply(s, StoreOpen(c));
    assert s'.history[..|s.history|] == s.history;
    HistoryKeepsCalls(s, s', s'.history[|s.history|], c);
  }

  lemma StoreZeroKeepsInv(s: Shared, c: nat)
    requires Inv(s) && Enabled(s, StoreZero(c))
    ensures Inv(Apply(s, StoreZero(c)))
  {
    var s' := Apply(s, StoreZero(c));
    assert s'.history[..|s.history|] == s.history;
    HistoryKeepsCalls(s, s', Reset(c), c);
  }

  lemma StepKeepsInv(s: Shared, a: Action)
    requires Inv(s) && Enabled(s, a)
    ensures Inv(Apply(s, a))
  {
    match a
    case Increment(c) => IncrementKeepsInv(s, c);
    case StoreOpen(c) => StoreOpenKeepsInv(s, c);
    case StoreZero(c) => StoreZeroKeepsInv(s, c);
    case _ =>
  }

  lemma {:induction false} PlayKeepsInv(trace: seq<Action>)
    ensures Inv(Play(INIT, trace))
    decreases |trace|
  {
    if trace != [] {
      var before := Play(INIT, trace[..|trace| - 1]);
      PlayKeepsInv(trace[..|trace| - 1]);
      if Enabled(before, trace[|trace| - 1]) {
        StepKeepsInv(before, trace[|trace| - 1]);
      }
    }
  }

  /**
   However calls interleave, the circuit is opened only by a call whose own increment came at least fifth since
   the failures were last reset.
   */
  lemma OpenedOnlyAtThreshold(trace: seq<Action>)
    ensures var h := Play(INIT, trace).history;
      forall k :: 0 <= k < |h| && h[k].Open? ==> SawThreshold(h[..k], h[k].c, h[k].at)
  {
    PlayKeepsInv(trace);
  }

  /**
   Concurrent callers are not held to five evaluations: any number of them can be evaluating before the first
   failure counts.
   */
  lemma {:induction false} ConcurrentEvaluations(n: nat) returns (trace: seq<Action>)
    ensures var s := Play(INIT, trace);
      && s.now == 0 && s.gate == Gate(0, 0)
      && (forall c: nat :: c < n ==> c in s.calls && s.calls[c].Evaluating?) && forall c :: c in s.calls ==> c < n
    decreases n
  {
    if n == 0 {
      trace := [];
    } else {
      var before := ConcurrentEvaluations(n - 1);
      var s := Play(INIT, before);
      PlayOne(INIT, before, Load(n - 1));
      PlayOne(INIT, before + [Load(n - 1)], Check(n - 1));
      OneMoreEvaluating(s, n - 1);
      trace := before + [Load(n - 1)] + [Check(n - 1)];
    }
  }

  lemma OneMoreEvaluating(s: Shared, c: nat)
    requires c !in s.calls && s.gate.openUntil == 0
    ensures Step(Step(s, Load(c)), Check(c)) == s.(calls := s.calls[c := Evaluating])
  {
    assert s.calls[c := Loaded(0)][c := Evaluating] == s.calls[c := Evaluating];
  }

  lemma PlayOne(s: Shared, trace: seq<Action>, a: Action)
    ensures Play(s, trace + [a]) == Step(Play(s, trace), a)
  {
    assert (trace + [a])[..|trace|] == trace;
  }

  /**
   A call undisturbed by others does to the atomics what the sequential client does; steps of branches not taken
   fall flat.
   */
  lemma UndisturbedCall(s: Shared, c: nat, d: nat)
    requires c !in s.calls && 0 <= s.gate.failures < THRESHOLD
    ensures var s' :=
      Play(s, [Load(c), Check(c), Tick(d), Return(c, false), Increment(c), Judge(c), StoreOpen(c), StoreZero(c)]);
      s'.gate == Fail(s.gate, Call(s.now, s.now, s.now + d)) && s'.calls == s.calls && s'.now == s.now + d
  {
    var t := [Load(c), Check(c), Tick(d), Return(c, false)];
    Attempt(s, c, d, t);
    var s1 := Play(s, t);
    PlayOne(s, t, Increment(c));
    PlayOne(s, t + [Increment(c)], Judge(c));
    PlayOne(s, t + [Increment(c)] + [Judge(c)], StoreOpen(c));
    PlayOne(s, t + [Increment(c)] + [Judge(c)] + [StoreOpen(c)], StoreZero(c));
    assert t + [Increment(c)] + [Judge(c)] + [StoreOpen(c)] + [StoreZero(c)]
        == [Load(c), Check(c), Tick(d), Return(c, false), Increment(c), Judge(c), StoreOpen(c), StoreZero(c)];
    Settles(s1, c);
    assert s.calls - {c} == s.calls;
  }

  lemma Attempt(s: Shared, c: nat, d: nat, trace: seq<Action>)
    requires c !in s.calls && trace == [Load(c), Check(c), Tick(d), Return(c, false)]
    ensures var s' := Play(s, trace);
      && s'.gate == s.gate && s'.now == s.now + d
      && s'.calls == if Skips(s.gate, s.now) then s.calls else s.calls[c := Failed]
  {
    assert [] + [Load(c)] == trace[..1];
    PlayOne(s, [], Load(c));
    PlayOne(s, trace[..1], Check(c));
    assert trace[..1] + [Check(c)] == trace[..2];
    PlayOne(s, trace[..2], Tick(d));
    assert trace[..2] + [Tick(d)] == trace[..3];
    PlayOne(s, trace[..3], Return(c, false));
    assert trace[..3] + [Return(c, false)] == trace;
    assert s.calls[c := Loaded(s.gate.openUntil)] - {c} == s.calls;
  }

  /** The steps after a failed evaluation. */
  lemma Settles(s: Shared, c: nat)
    requires 0 <= s.gate.failures < THRESHOLD && (c in s.calls ==> s.calls[c] == Failed)
    ensures var s' := Step(Step(Step(Step(s, Increment(c)), Judge(c)), StoreOpen(c)), StoreZero(c));
      && s'.now == s.now && s'.calls == s.calls - {c}
      && s'.gate == if c !in s.calls then s.gate
                    else if s.gate.failures + 1 >= THRESHOLD then Gate(0, s.now + COOLDOWN)
                    else Gate(s.gate.failures + 1, s.gate.openUntil)
  {
    assert Wrap32(s.gate.failures + 1) == s.gate.failures + 1;
    var s1 := Step(s, Increment(c));
    var s2 := Step(s1, Judge(c));
    assert c in s.calls ==> s1.calls[c].Added? && s1.calls[c].n == s.gate.failures + 1;
  }
}
