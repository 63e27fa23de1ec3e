/**
 The order in which the outbox relays (eventlog/outbox) write events. The message key is meant to keep an
 entity's events in order; this module says for which ways of running relays and transactions it does.
 */
module OutboxOrder {
  import opened Transactions
  import opened OutboxRelay

  /**
   How the outbox is run: whether a relay may fetch while another has its transaction open, whether a failing
   or late write may leave any part of its batch on the log rather than an initial run of it, whether an event may
   be committed when a younger one of its entity is already on its way, and the batch size.
   */
  datatype Policy = Policy(overlap: bool, partial: bool, late: bool, limit: nat)

  ghost predicate Follows(p: Policy, s: State, trace: seq<Action>)
    decreases |trace|
  {
    trace == [] ||
    (Follows(p, s, trace[..|trace| - 1]) && Permits(p, Play(s, trace[..|trace| - 1]), trace[|trace| - 1]))
  }

  ghost predicate Permits(p: Policy, s: State, a: Action) {
    && (a.Fetch? ==> a.limit == p.limit && (p.overlap || s.relays == map[]))
    && (a.WriteSome? ==> p.partial || InitialRun(a.part))
    && (a.LateWrite? ==> p.partial || a.i == 0)
    && (a.CommitTx? && a.tx in s.txs ==> p.late || forall row :: row in s.txs[a.tx] ==> !Overtaken(s, row))
  }

  predicate InitialRun(part: seq<nat>) {
    forall k :: 0 <= k < |part| ==> part[k] == k
  }

  /** The time is later than that of `a`, and the key is its entity's, or any if `all`. */
  predicate Younger(all: bool, a: Row, key: string, time: int) {
    (all || key == a.entityId) && time > a.createdAt
  }

  predicate YoungerEntry(all: bool, a: Row, e: Entry) {
    Younger(all, a, e.message.key, e.message.time)
  }

  /** None of the rows is younger than `a`. */
  ghost predicate NoYounger(all: bool, a: Row, rows: seq<Row>) {
    forall i :: 0 <= i < |rows| ==> !Younger(all, a, rows[i].entityId, rows[i].createdAt)
  }

  /** A younger event of the entity is in Kafka, in a batch still to be written, or in a write in flight. */
  ghost predicate Overtaken(s: State, a: Row) {
    || (exists k :: 0 <= k < |s.kafka| && YoungerEntry(false, a, s.kafka[k]))
    || (exists r :: r in s.relays && !s.relays[r].attempted && !NoYounger(false, a, s.relays[r].rows))
    || (exists k :: 0 <= k < |s.adrift| && !NoYounger(false, a, s.adrift[k]))
  }

  /** No relay is at work, no write is in flight, and `a` waits to be sent. */
  ghost predicate Waiting(s: State, a: Row) {
    s.relays == map[] && s.adrift == [] && a.id in s.table && s.table[a.id] == a && a.status == PENDING
  }

  /** Since the log was `from` long, `a` was written. */
  ghost predicate Sent(from: nat, log: seq<Entry>, a: Row) {
    exists j :: from <= j < |log| && log[j].id == a.id
  }

  /** Since the log was `from` long, every record of a younger event, of its entity or any, came after one of `a`. */
  ghost predicate Ordered(all: bool, from: nat, log: seq<Entry>, a: Row) {
    forall k :: from <= k < |log| && YoungerEntry(all, a, log[k]) ==> Sent(from, log[..k], a)
  }

  ghost predicate Sorted(rows: seq<Row>) {
    forall i, j :: 0 <= i < j < |rows| ==> rows[i].createdAt <= rows[j].createdAt
  }

  /** Written from the front, the rows keep the order of `a`. */
  ghost predicate Safe(all: bool, rows: seq<Row>, a: Row) {
    Sorted(rows) && (a in rows || NoYounger(all, a, rows))
  }

  /** An open batch that has not sent `a`: it cannot delete it, and what it may still send keeps the order. */
  ghost predicate Harmless(all: bool, batch: Batch, a: Row) {
    (batch.published ==> a !in batch.rows) && (!batch.attempted ==> Safe(all, batch.rows, a))
  }

  /** What the steps keep until `a` is sent. */
  ghost predicate StillWaiting(all: bool, from: nat, s: State, a: Row) {
    && a.id in s.table && s.table[a.id] == a
    && (forall k :: from <= k < |s.kafka| ==> !YoungerEntry(all, a, s.kafka[k]))
    && (forall r :: r in s.relays ==> Harmless(all, s.relays[r], a))
    && (forall k :: 0 <= k < |s.adrift| ==> Safe(all, s.adrift[k], a))
  }

  ghost predicate InOrder(all: bool, from: nat, s: State, a: Row) {
    && from <= |s.kafka| && Ordered(all, from, s.kafka, a)
    && (Sent(from, s.kafka, a) || StillWaiting(all, from, s, a))
  }

  predicate TakesTurns(p: Policy) {
    !p.overlap && (!p.partial || p.limit <= 1)
  }

  predicate Keeps(p: Policy) {
    TakesTurns(p) && !p.late
  }

  // ---------------------------------------------------------------- order is kept

  /** Records that follow a record of `a` are in order, whatever they are. */
  lemma SentStaysInOrder(all: bool, from: nat, log: seq<Entry>, es: seq<Entry>, a: Row)
    requires Ordered(all, from, log, a) && Sent(from, log, a)
    ensures Ordered(all, from, log + es, a) && Sent(from, log + es, a)
  {
    var j :| from <= j < |log| && log[j].id == a.id;
    assert (log + es)[j] == log[j];
    forall k | from <= k < |log + es| && YoungerEntry(all, a, (log + es)[k])
      ensures Sent(from, (log + es)[..k], a)
    {
      if k < |log| {
        assert (log + es)[..k] == log[..k];
      } else {
        assert (log + es)[..k][j] == log[j];
      }
    }
  }

  /** `es` holds no event younger than `a` before the first record of `a`. */
  ghost predicate YoungerAfter(all: bool, es: seq<Entry>, a: Row) {
    forall i :: 0 <= i < |es| && YoungerEntry(all, a, es[i]) ==> exists j :: 0 <= j < i && es[j].id == a.id
  }

  lemma WriteInOrder(all: bool, from: nat, log: seq<Entry>, es: seq<Entry>, a: Row)
    requires from <= |log| && forall k :: from <= k < |log| ==> !YoungerEntry(all, a, log[k])
    requires YoungerAfter(all, es, a)
    ensures Ordered(all, from, log + es, a)
    ensures !Sent(from, log + es, a) ==>
      forall k :: from <= k < |log + es| ==> !YoungerEntry(all, a, (log + es)[k])
  {
    forall k | from <= k < |log + es| && YoungerEntry(all, a, (log + es)[k])
      ensures Sent(from, (log + es)[..k], a) && Sent(from, log + es, a)
    {
      var i := k - |log|;
      assert es[i] == (log + es)[k];
      var j :| 0 <= j < i && es[j].id == a.id;
      assert (log + es)[..k][|log| + j] == es[j] == (log + es)[|log| + j];
    }
  }

  /** The records of an initial run of safe rows keep the order. */
  lemma RunYoungerAfter(all: bool, rows: seq<Row>, es: seq<Entry>, a: Row)
    requires Safe(all, rows, a) && |es| <= |rows|
    requires forall i :: 0 <= i < |es| ==> es[i] == EntryOf(rows[i])
    ensures YoungerAfter(all, es, a)
  {
    forall i | 0 <= i < |es| && YoungerEntry(all, a, es[i])
      ensures exists j :: 0 <= j < i && es[j].id == a.id
    {
      assert Younger(all, a, rows[i].entityId, rows[i].createdAt);
      var j :| 0 <= j < |rows| && rows[j] == a;
      assert j < i;
      assert es[j].id == a.id;
    }
  }

  lemma WriteKeepsOrder(all: bool, from: nat, s: State, r: nat, es: seq<Entry>, published: bool, a: Row)
    requires InOrder(all, from, s, a) && r in s.relays && !s.relays[r].attempted && |es| <= |s.relays[r].rows|
    requires forall i :: 0 <= i < |es| ==> es[i] == EntryOf(s.relays[r].rows[i])
    requires published ==> |es| == |s.relays[r].rows|
    ensures InOrder(all, from, AfterWrite(s, r, es, published), a)
  {
    var s' := AfterWrite(s, r, es, published);
    if Sent(from, s.kafka, a) {
      SentStaysInOrder(all, from, s.kafka, es, a);
    } else {
      RunYoungerAfter(all, s.relays[r].rows, es, a);
      WriteInOrder(all, from, s.kafka, es, a);
      if published && a in s.relays[r].rows {
        var i :| 0 <= i < |es| && s.relays[r].rows[i] == a;
        assert s'.kafka[|s.kafka| + i] == es[i];
      } else if !Sent(from, s'.kafka, a) {
        assert forall q :: q in s'.relays ==> Harmless(all, s'.relays[q], a);
      }
    }
  }

  lemma LateWriteKeepsOrder(all: bool, from: nat, s: State, k: nat, a: Row)
    requires InOrder(all, from, s, a) && Enabled(s, LateWrite(k, 0))
    ensures InOrder(all, from, Apply(s, LateWrite(k, 0)), a)
  {
    var rows, s' := s.adrift[k], Apply(s, LateWrite(k, 0));
    var es := [EntryOf(rows[0])];
    if Sent(from, s.kafka, a) {
      SentStaysInOrder(all, from, s.kafka, es, a);
    } else {
      RunYoungerAfter(all, rows, es, a);
      WriteInOrder(all, from, s.kafka, es, a);
      if !Sent(from, s'.kafka, a) {
        assert s'.kafka[|s.kafka|] == es[0] && rows[0] != a;
        RestIsSafe(all, rows, a);
      }
    }
  }

  lemma RestIsSafe(all: bool, rows: seq<Row>, a: Row)
    requires rows != [] && rows[0] != a && Safe(all, rows, a)
    ensures Safe(all, Dropped(rows, 0), a)
  {
    var rest := Dropped(rows, 0);
    DroppedSorted(rows, 0);
    assert forall i :: 0 <= i < |rest| ==> rest[i] == rows[i + 1];
    if a in rows {
      var i :| 0 <= i < |rows| && rows[i] == a;
      assert rest[i - 1] == a;
    }
  }

  lemma FetchKeepsOrder(all: bool, from: nat, s: State, r: nat, limit: nat, rows: seq<Row>, a: Row)
    requires InOrder(all, from, s, a) && s.relays == map[] && IsBatch(s, limit, rows) && a.status == PENDING
    ensures InOrder(all, from, Apply(s, Fetch(r, limit, rows)), a)
  {
    if !Sent(from, s.kafka, a) {
      assert Eligible(s, a);
      assert Harmless(all, Batch(rows, false, false, false), a);
    }
  }

  lemma CutOffKeepsOrder(all: bool, from: nat, s: State, r: nat, a: Row)
    requires InOrder(all, from, s, a) && Enabled(s, CutOff(r))
    ensures InOrder(all, from, Apply(s, CutOff(r)), a)
  {
    if !Sent(from, s.kafka, a) {
      assert Harmless(all, s.relays[r], a);
    }
  }

  lemma CommitRelayKeepsOrder(all: bool, from: nat, s: State, r: nat, a: Row)
    requires InOrder(all, from, s, a) && LocksHold(s) && Enabled(s, CommitRelay(r))
    ensures InOrder(all, from, Apply(s, CommitRelay(r)), a)
  {
    if !Sent(from, s.kafka, a) {
      HeldRow(s, r, a);
    }
  }

  lemma HeldRow(s: State, r: nat, a: Row)
    requires LocksHold(s) && r in s.relays && a.id in s.table && s.table[a.id] == a
    ensures a.id in Ids(s.relays[r].rows) ==> a in s.relays[r].rows
  {
    forall row | row in s.relays[r].rows && row.id == a.id ensures row == a {
      assert s.table[row.id] == row;
    }
  }

  lemma CommitTxKeepsOrder(all: bool, from: nat, s: State, t: nat, a: Row)
    requires InOrder(all, from, s, a) && Isolated(s) && OnlyCommitted(s) && t in s.txs
    ensures InOrder(all, from, Apply(s, CommitTx(t)), a)
  {
    RowMapIs(s.txs[t]);
    assert a.id in s.table ==> a.id in s.committed && a.id !in Ids(s.txs[t]);
  }

  lemma WriteAllKeepsOrder(all: bool, from: nat, s: State, r: nat, a: Row)
    requires LocksHold(s) && InOrder(all, from, s, a) && r in s.relays && !s.relays[r].attempted
    ensures InOrder(all, from, Apply(s, WriteAll(r)), a)
  {
    AllWritable(s, r);
    WriteKeepsOrder(all, from, s, r, Entries(s.relays[r].rows), true, a);
  }

  lemma WriteSomeKeepsOrder(all: bool, p: Policy, from: nat, s: State, r: nat, part: seq<nat>, a: Row)
    requires TakesTurns(p) && LocksHold(s) && InOrder(all, from, s, a) && Enabled(s, WriteSome(r, part))
    requires |s.relays[r].rows| <= p.limit && (p.partial || InitialRun(part))
    ensures InOrder(all, from, Apply(s, WriteSome(r, part)), a)
  {
    SomeWritable(s, r, part);
    PartIsInitial(p, s.relays[r].rows, part);
    WriteKeepsOrder(all, from, s, r, Picked(s.relays[r].rows, part), false, a);
  }

  /** Every batch that is or was open is sorted and within the limit. */
  ghost predicate Within(limit: nat, s: State) {
    && (forall r :: r in s.relays ==> Sorted(s.relays[r].rows) && |s.relays[r].rows| <= limit)
    && (forall k :: 0 <= k < |s.adrift| ==> Sorted(s.adrift[k]) && |s.adrift[k]| <= limit)
  }

  lemma StepKeepsOrder(all: bool, p: Policy, from: nat, s: State, step: Action, a: Row)
    requires TakesTurns(p) && Permits(p, s, step) && Enabled(s, step) && a.status == PENDING
    requires Isolated(s) && LocksHold(s) && OnlyCommitted(s) && InOrder(all, from, s, a) && Within(p.limit, s)
    ensures InOrder(all, from, Apply(s, step), a)
  {
    match step
    case Fetch(r, limit, rows) => FetchKeepsOrder(all, from, s, r, limit, rows, a);
    case WriteAll(r) => WriteAllKeepsOrder(all, from, s, r, a);
    case WriteSome(r, part) => WriteSomeKeepsOrder(all, p, from, s, r, part, a);
    case CommitRelay(r) => CommitRelayKeepsOrder(all, from, s, r, a);
    case CommitTx(t) => CommitTxKeepsOrder(all, from, s, t, a);
    case CutOff(r) => CutOffKeepsOrder(all, from, s, r, a);
    case LateWrite(k, i) => LateWriteKeepsOrder(all, from, s, k, a);
    case _ => OtherStepKeepsOrder(all, from, s, step, a);
  }

  lemma StepKeepsWithin(p: Policy, s: State, step: Action)
    requires Permits(p, s, step) && Enabled(s, step) && Within(p.limit, s)
    ensures Within(p.limit, Apply(s, step))
  {
    if step.LateWrite? {
      DroppedSorted(s.adrift[step.write], step.i);
    }
  }

  lemma DroppedSorted(rows: seq<Row>, i: nat)
    requires Sorted(rows) && i < |rows|
    ensures Sorted(Dropped(rows, i)) && |Dropped(rows, i)| < |rows|
  {
    var rest := Dropped(rows, i);
    assert forall k :: 0 <= k < |rest| ==> rest[k] == if k < i then rows[k] else rows[k + 1];
  }

  /** A batch of one row has initial runs only. */
  lemma PartIsInitial(p: Policy, rows: seq<Row>, part: seq<nat>)
    requires TakesTurns(p) && |rows| <= p.limit && (p.partial || InitialRun(part))
    requires forall k :: 0 <= k < |part| ==> part[k] < |rows|
    requires forall k, l :: 0 <= k < l < |part| ==> part[k] != part[l]
    ensures |Picked(rows, part)| <= |rows| && forall i :: 0 <= i < |part| ==> Picked(rows, part)[i] == EntryOf(rows[i])
  {
    assert InitialRun(part) && part != [] ==> part[|part| - 1] == |part| - 1;
    assert |part| > 1 ==> part[0] != part[1];
    if p.partial && |part| > 1 {
      assert false;
    }
  }

  predicate SameWork(x: Batch, y: Batch) {
    x.rows == y.rows && x.attempted == y.attempted && x.published == y.published
  }

  lemma OtherStepKeepsOrder(all: bool, from: nat, s: State, step: Action, a: Row)
    requires step.Begin? || step.InsertRow? || step.UndoRows? || step.AbortTx? || step.DeleteRows? || step.AbortRelay?
    requires Enabled(s, step) && InOrder(all, from, s, a)
    ensures InOrder(all, from, Apply(s, step), a)
  {
    var s' := Apply(s, step);
    assert s'.kafka == s.kafka && s'.table == s.table && s'.adrift == s.adrift;
    assert forall r :: r in s'.relays ==> r in s.relays && SameWork(s'.relays[r], s.relays[r]);
  }

  /**
   Where relays take turns and a failing or late write leaves at most an initial run of its batch, no younger event
   of any entity overtakes a waiting one, through any crashes, cut-off sessions and retries: from any state a run
   reaches, every new record of a younger event comes after a new record of the older one.
   */
  lemma {:induction false} TakingTurnsKeepsOrder(p: Policy, s: State, a: Row, trace: seq<Action>)
    requires TakesTurns(p) && Inv(s) && Waiting(s, a) && Follows(p, s, trace)
    ensures InOrder(true, |s.kafka|, Play(s, trace), a) && Within(p.limit, Play(s, trace))
    decreases |trace|
  {
    if trace != [] {
      var before := Play(s, trace[..|trace| - 1]);
      TakingTurnsKeepsOrder(p, s, a, trace[..|trace| - 1]);
      PlayKeepsInv(s, trace[..|trace| - 1]);
      if Enabled(before, trace[|trace| - 1]) {
        StepKeepsOrder(true, p, |s.kafka|, before, trace[|trace| - 1], a);
        StepKeepsWithin(p, before, trace[|trace| - 1]);
      }
    }
  }

  // ---------------------------------------------------------------- every event of every run

  /** An event that is committed before any younger one of its entity is on its way starts out in order. */
  lemma CommittedInOrder(p: Policy, s: State, t: nat, a: Row)
    requires Inv(s) && Within(p.limit, s) && t in s.txs && a in s.txs[t] && !Overtaken(s, a)
    ensures InOrder(false, 0, Apply(s, CommitTx(t)), a)
  {
    var s' := Apply(s, CommitTx(t));
    RowMapIs(s.txs[t]);
    assert a.id in Ids(s.txs[t]) && a.id !in s.committed;
    assert s'.table[a.id] == a;
    NothingYoungerWaits(s, s', p.limit, a);
  }

  lemma NothingYoungerWaits(s: State, s': State, limit: nat, a: Row)
    requires LocksHold(s) && Within(limit, s) && !Overtaken(s, a) && a.id !in s.table
    requires s'.relays == s.relays && s'.kafka == s.kafka && s'.adrift == s.adrift
    requires a.id in s'.table && s'.table[a.id] == a
    ensures InOrder(false, 0, s', a)
  {
    forall r | r in s.relays ensures Harmless(false, s.relays[r], a) {
      assert a in s.relays[r].rows ==> a.id in s.table;
    }
    forall k | 0 <= k < |s.adrift| ensures Safe(false, s.adrift[k], a) {
    }
    forall k | 0 <= k < |s.kafka| ensures !YoungerEntry(false, a, s.kafka[k]) {
    }
  }

  /** Every committed event that is to be sent is in order. */
  ghost predicate AllInOrder(s: State) {
    forall id :: id in s.committed && s.committed[id].status == PENDING ==> InOrder(false, 0, s, s.committed[id])
  }

  lemma StepKeepsAllInOrder(p: Policy, s: State, step: Action)
    requires Keeps(p) && Permits(p, s, step) && Enabled(s, step) && Inv(s) && Within(p.limit, s) && AllInOrder(s)
    ensures AllInOrder(Apply(s, step))
  {
    var s' := Apply(s, step);
    forall id | id in s'.committed && s'.committed[id].status == PENDING
      ensures InOrder(false, 0, s', s'.committed[id])
    {
      StepGrows(s, step);
      if id in s.committed {
        StepKeepsOrder(false, p, 0, s, step, s.committed[id]);
      } else {
        var a := CommittedNow(s, step, id);
        CommittedInOrder(p, s, step.tx, a);
      }
    }
  }

  lemma CommittedNow(s: State, step: Action, id: string) returns (a: Row)
    requires Isolated(s) && Enabled(s, step) && id !in s.committed && id in Apply(s, step).committed
    ensures step.CommitTx? && a in s.txs[step.tx] && Apply(s, step).committed[id] == a
  {
    RowMapIs(s.txs[step.tx]);
    a :| a in s.txs[step.tx] && a.id == id;
  }

  lemma {:induction false} RunsKeepOrder(p: Policy, trace: seq<Action>)
    requires Keeps(p) && Follows(p, INIT, trace)
    ensures AllInOrder(Play(INIT, trace)) && Within(p.limit, Play(INIT, trace))
    decreases |trace|
  {
    if trace != [] {
      var before := Play(INIT, trace[..|trace| - 1]);
      RunsKeepOrder(p, trace[..|trace| - 1]);
      PlayKeepsInv(INIT, trace[..|trace| - 1]);
      if Enabled(before, trace[|trace| - 1]) {
        StepKeepsAllInOrder(p, before, trace[|trace| - 1]);
        StepKeepsWithin(p, before, trace[|trace| - 1]);
      }
    }
  }

  /** Along a run from the empty outbox, no younger event of its entity was written before `a`. */
  ghost predicate NotOvertaken(p: Policy, trace: seq<Action>, a: Row) {
    var s := Play(INIT, trace);
    Follows(p, INIT, trace) && a.id in s.committed && s.committed[a.id] == a && a.status == PENDING ==>
      Ordered(false, 0, s.kafka, a)
  }

  ghost predicate KeepsEntityOrder(p: Policy) {
    forall trace, a :: NotOvertaken(p, trace, a)
  }

  /**
   Exactly which policies keep the events of an entity in order, every event of every run: relays take turns, with
   either all-or-prefix writes or batches of one row, and no event is committed once a younger one is on its way.
   */
  lemma KeepsEntityOrderIff(p: Policy)
    requires p.limit > 0
    ensures KeepsEntityOrder(p) <==> Keeps(p)
  {
    if Keeps(p) {
      forall trace, a ensures NotOvertaken(p, trace, a) {
        if Follows(p, INIT, trace) { RunsKeepOrder(p, trace); }
      }
    } else {
      var a := Row("1", "e", "t", "", "", PENDING, 1);
      var b := Row("2", "e", "t", "", "", PENDING, 2);
      var trace := if p.overlap then Overlapping(p.limit, a, b)
                   else if p.late then Belated(p.limit, a, b) else Torn(p.limit, a, b);
      if p.overlap {
        OverlapInverts(p, a, b);
      } else if p.late {
        LateCommitInverts(p, a, b);
      } else {
        PartialInverts(p, a, b);
      }
      assert !NotOvertaken(p, trace, a);
    }
  }

  // ---------------------------------------------------------------- order is lost

  /** A run the policy permits in which `b` is in Kafka and the older `a`, committed, is not. */
  ghost predicate Inverts(p: Policy, trace: seq<Action>, a: Row, b: Row) {
    var s := Play(INIT, trace);
    && Follows(p, INIT, trace) && s.kafka == [EntryOf(b)] && !Ordered(false, 0, s.kafka, a)
    && a.id in s.committed && s.committed[a.id] == a && a.id in s.table && s.table[a.id] == a
  }

  /** A business transaction that commits one or two rows. */
  function Committing(rows: seq<Row>): (trace: seq<Action>)
    requires 1 <= |rows| <= 2
  {
    if |rows| == 1 then [Begin(0), InsertRow(0, rows[0]), CommitTx(0)]
    else [Begin(0), InsertRow(0, rows[0]), InsertRow(0, rows[1]), CommitTx(0)]
  }

  /** Relay 1 has fetched `a` when `b` is committed, and relay 2 fetches and writes `b` first. */
  function Overtaking(limit: nat, a: Row, b: Row): (trace: seq<Action>) {
    [Fetch(1, limit, [a])] + (Committing([b]) + [Fetch(2, limit, [b]), WriteAll(2)])
  }

  function Overlapping(limit: nat, a: Row, b: Row): (trace: seq<Action>) {
    Committing([a]) + Overtaking(limit, a, b)
  }

  /** Of a batch of two only the second is written before the connection fails. */
  function Torn(limit: nat, a: Row, b: Row): (trace: seq<Action>) {
    Committing([a, b]) + [Fetch(1, limit, [a, b]), WriteSome(1, [1])]
  }

  /** `a` is inserted first and committed when the only relay has fetched `b`. */
  function Belated(limit: nat, a: Row, b: Row): (trace: seq<Action>) {
    [Begin(1), InsertRow(1, a)] + (Committing([b]) + [Fetch(1, limit, [b]), CommitTx(1), WriteAll(1)])
  }

  predicate Successive(a: Row, b: Row) {
    a.id != b.id && a.entityId == b.entityId && a.status == b.status == PENDING && a.createdAt < b.createdAt
  }

  lemma NotInOrder(a: Row, b: Row, log: seq<Entry>)
    requires Successive(a, b) && log == [EntryOf(b)]
    ensures !Ordered(false, 0, log, a)
  {
    assert YoungerEntry(false, a, log[0]) && log[..0] == [];
  }

  lemma {:induction false} FollowsAppend(p: Policy, s: State, x: seq<Action>, y: seq<Action>)
    requires Follows(p, s, x) && Follows(p, Play(s, x), y)
    ensures Follows(p, s, x + y)
    decreases |y|
  {
    if y == [] {
      assert x + y == x;
    } else {
      assert (x + y)[..|x + y| - 1] == x + y[..|y| - 1];
      FollowsAppend(p, s, x, y[..|y| - 1]);
      PlayAppend(s, x, y[..|y| - 1]);
    }
  }

  lemma FollowsFirst(p: Policy, s: State, a: Action, rest: seq<Action>)
    requires Permits(p, s, a) && Follows(p, OutboxRelay.Step(s, a), rest)
    ensures Follows(p, s, [a] + rest)
  {
    FollowsOne(p, s, a);
    FollowsAppend(p, s, [a], rest);
  }

  lemma FollowsOne(p: Policy, s: State, a: Action)
    requires Permits(p, s, a)
    ensures Follows(p, s, [a]) && Play(s, [a]) == OutboxRelay.Step(s, a)
  {
    assert [a][..0] == [];
    assert Follows(p, s, [a][..0]) && Play(s, [a][..0]) == s;
  }

  lemma InsertNext(s: State, rows: seq<Row>, row: Row)
    requires 0 !in s.txs && FreshId(s, row.id) && row.id !in Ids(rows)
    ensures OutboxRelay.Step(s.(txs := s.txs[0 := rows]), InsertRow(0, row)) == s.(txs := s.txs[0 := rows + [row]])
  {
    assert s.txs[0 := rows][0 := rows + [row]] == s.txs[0 := rows + [row]];
  }

  lemma BeginAndInsert(s: State, row: Row)
    requires 0 !in s.txs && FreshId(s, row.id)
    ensures OutboxRelay.Step(OutboxRelay.Step(s, Begin(0)), InsertRow(0, row)) == s.(txs := s.txs[0 := [row]])
  {
    InsertNext(s, [], row);
    assert [] + [row] == [row];
  }

  /** The state after a business transaction committed `rows`. */
  function WithRows(s: State, rows: seq<Row>): (s': State) {
    s.(table := s.table + RowMap(rows), committed := s.committed + RowMap(rows))
  }

  lemma CommitOpen(s: State, rows: seq<Row>)
    requires 0 !in s.txs
    ensures OutboxRelay.Step(s.(txs := s.txs[0 := rows]), CommitTx(0)) == WithRows(s, rows)
  {
    assert s.txs[0 := rows] - {0} == s.txs;
  }

  lemma CommitOne(s: State, row: Row)
    requires 0 !in s.txs && FreshId(s, row.id)
    ensures Play(s, Committing([row])) == WithRows(s, [row])
  {
    BeginAndInsert(s, row);
    CommitOpen(s, [row]);
    PlayThree(s, Begin(0), InsertRow(0, row), CommitTx(0));
  }

  lemma OneRow(a: Row)
    ensures RowMap([a]) == map[a.id := a]
  {
  }

  lemma FetchOne(s: State, r: nat, limit: nat, a: Row)
    requires s.relays == map[] && s.table == map[a.id := a] && a.status == PENDING && limit > 0
    ensures OutboxRelay.Step(s, Fetch(r, limit, [a])) == s.(relays := map[r := Batch([a], false, false, false)])
  {
    assert Eligible(s, a);
  }

  lemma SameOvertaken(s: State, s': State, a: Row)
    requires s'.kafka == s.kafka && s'.relays == s.relays && s'.adrift == s.adrift
    ensures Overtaken(s', a) <==> Overtaken(s, a)
  {
  }

  /** A transaction whose rows come in time is always permitted. */
  lemma CommitIsPermitted(p: Policy, s: State, rows: seq<Row>)
    requires forall row :: row in rows ==> !Overtaken(s, row)
    ensures Permits(p, s.(txs := s.txs[0 := rows]), CommitTx(0))
  {
    forall row | row in rows ensures !Overtaken(s.(txs := s.txs[0 := rows]), row) {
      SameOvertaken(s, s.(txs := s.txs[0 := rows]), row);
    }
  }

  lemma CommittingOneFollows(p: Policy, s: State, row: Row)
    requires 0 !in s.txs && FreshId(s, row.id) && !Overtaken(s, row)
    ensures Follows(p, s, Committing([row]))
  {
    BeginAndInsert(s, row);
    CommitIsPermitted(p, s, [row]);
    FollowsThree(p, s, Begin(0), InsertRow(0, row), CommitTx(0));
  }

  lemma NothingOvertakes(s: State, a: Row)
    requires s.kafka == [] && s.relays == map[] && s.adrift == []
    ensures !Overtaken(s, a)
  {
  }

  /** What one relay has locked, the next relay skips. */
  lemma SecondWritesFirst(s: State, limit: nat, a: Row, b: Row)
    requires Successive(a, b) && limit > 0 && s.relays == map[1 := Batch([a], false, false, false)]
    requires s.table == map[a.id := a, b.id := b]
    ensures var s' := Play(s, [Fetch(2, limit, [b]), WriteAll(2)]);
      s'.kafka == s.kafka + [EntryOf(b)] && s'.table == s.table && s'.committed == s.committed
  {
    var fetched := s.(relays := s.relays[2 := Batch([b], false, false, false)]);
    SkipsLocked(s, limit, a, b);
    assert OutboxRelay.Step(s, Fetch(2, limit, [b])) == fetched;
    PlayTwo(s, Fetch(2, limit, [b]), WriteAll(2));
    WritesOne(fetched, 2, b);
  }

  lemma WritesOne(s: State, r: nat, b: Row)
    requires r in s.relays && s.relays[r] == Batch([b], false, false, false)
    ensures OutboxRelay.Step(s, WriteAll(r))
         == s.(kafka := s.kafka + [EntryOf(b)], relays := s.relays[r := Batch([b], true, true, false)])
  {
    assert Entries([b]) == [EntryOf(b)];
  }

  lemma SkipsLocked(s: State, limit: nat, a: Row, b: Row)
    requires Successive(a, b) && limit > 0 && s.relays == map[1 := Batch([a], false, false, false)]
    requires s.table == map[a.id := a, b.id := b]
    ensures IsBatch(s, limit, [b])
  {
    assert a in s.relays[1].rows && Locked(s, a.id);
    assert Ids([a]) == {a.id};
    assert Eligible(s, b);
  }

  lemma PlayTwo(s: State, a: Action, b: Action)
    ensures Play(s, [a, b]) == OutboxRelay.Step(OutboxRelay.Step(s, a), b)
  {
    assert [a, b][..1] == [a] && [a][..0] == [];
    assert Play(s, [a]) == OutboxRelay.Step(s, a);
  }

  lemma OverlapInverts(p: Policy, a: Row, b: Row)
    requires p.overlap && p.limit > 0 && Successive(a, b)
    ensures Inverts(p, Overlapping(p.limit, a, b), a, b)
  {
    var s := WithRows(INIT, [a]);
    CommitOne(INIT, a);
    OneRow(a);
    NothingOvertakes(INIT, a);
    CommittingOneFollows(p, INIT, a);
    Overtakes(p, s, a, b);
    FollowsAppend(p, INIT, Committing([a]), Overtaking(p.limit, a, b));
    PlayAppend(INIT, Committing([a]), Overtaking(p.limit, a, b));
    NotInOrder(a, b, [EntryOf(b)]);
  }

  /** Without any failure: `b` is committed while the first relay works on `a`, and is written first. */
  lemma Overtakes(p: Policy, s: State, a: Row, b: Row)
    requires p.overlap && p.limit > 0 && Successive(a, b)
    requires s == INIT.(table := map[a.id := a], committed := s.committed)
    requires FreshId(s, b.id) && a.id in s.committed && s.committed[a.id] == a
    ensures Follows(p, s, Overtaking(p.limit, a, b))
    ensures var s' := Play(s, Overtaking(p.limit, a, b));
      && s'.kafka == [EntryOf(b)] && a.id in s'.table && s'.table[a.id] == a
      && a.id in s'.committed && s'.committed[a.id] == a
  {
    var locked := s.(relays := map[1 := Batch([a], false, false, false)]);
    var rest := [Fetch(2, p.limit, [b]), WriteAll(2)];
    FetchOne(s, 1, p.limit, a);
    CommitsBeside(p, locked, a, b);
    var both := WithRows(locked, [b]);
    SecondWritesFirst(both, p.limit, a, b);
    FollowsTwo(p, both, Fetch(2, p.limit, [b]), WriteAll(2));
    Chained(p, s, Fetch(1, p.limit, [a]), Committing([b]), rest);
  }

  /** `b` may be committed while a relay works on the older `a`. */
  lemma CommitsBeside(p: Policy, s: State, a: Row, b: Row)
    requires Successive(a, b) && s.kafka == [] && s.adrift == [] && s.txs == map[] && FreshId(s, b.id)
    requires s.relays == map[1 := Batch([a], false, false, false)] && s.table == map[a.id := a]
    ensures Follows(p, s, Committing([b])) && Play(s, Committing([b])) == WithRows(s, [b])
    ensures WithRows(s, [b]).table == map[a.id := a, b.id := b]
    ensures a.id in s.committed ==> a.id in WithRows(s, [b]).committed
    ensures a.id in s.committed ==> WithRows(s, [b]).committed[a.id] == s.committed[a.id]
  {
    CommitOne(s, b);
    OneRow(b);
    assert !Overtaken(s, b);
    CommittingOneFollows(p, s, b);
  }

  lemma Chained(p: Policy, s: State, first: Action, middle: seq<Action>, rest: seq<Action>)
    requires Permits(p, s, first) && Follows(p, OutboxRelay.Step(s, first), middle)
    requires Follows(p, Play(OutboxRelay.Step(s, first), middle), rest)
    ensures Follows(p, s, [first] + (middle + rest))
    ensures Play(s, [first] + (middle + rest)) == Play(Play(OutboxRelay.Step(s, first), middle), rest)
  {
    FollowsAppend(p, OutboxRelay.Step(s, first), middle, rest);
    PlayAppend(OutboxRelay.Step(s, first), middle, rest);
    FollowsFirst(p, s, first, middle + rest);
    PlayFirst(s, first, middle + rest);
  }

  lemma CommitTwo(s: State, a: Row, b: Row)
    requires 0 !in s.txs && FreshId(s, a.id) && FreshId(s, b.id) && a.id != b.id
    ensures Play(s, Committing([a, b])) == WithRows(s, [a, b])
  {
    BeginAndInsert(s, a);
    InsertNext(s, [a], b);
    CommitOpen(s, [a, b]);
    PlayFour(s, Begin(0), InsertRow(0, a), InsertRow(0, b), CommitTx(0));
    assert [a] + [b] == [a, b];
  }

  lemma PlayFour(s: State, a: Action, b: Action, c: Action, d: Action)
    ensures Play(s, [a, b, c, d])
         == OutboxRelay.Step(OutboxRelay.Step(OutboxRelay.Step(OutboxRelay.Step(s, a), b), c), d)
  {
    assert [a, b, c, d] == [a] + [b, c, d];
    PlayFirst(s, a, [b, c, d]);
    PlayThree(OutboxRelay.Step(s, a), b, c, d);
  }

  lemma TwoRows(a: Row, b: Row)
    ensures RowMap([a, b]) == map[a.id := a][b.id := b]
  {
    OneRow(a);
    assert [a, b][..1] == [a];
  }

  lemma PartialInverts(p: Policy, a: Row, b: Row)
    requires p.partial && p.limit > 1 && Successive(a, b)
    ensures Inverts(p, Torn(p.limit, a, b), a, b)
  {
    var s := WithRows(INIT, [a, b]);
    var rest := [Fetch(1, p.limit, [a, b]), WriteSome(1, [1])];
    CommitTwo(INIT, a, b);
    TwoRows(a, b);
    CommittingTwoFollows(p, INIT, a, b);
    WritesSecondOnly(p, s, a, b);
    FollowsAppend(p, INIT, Committing([a, b]), rest);
    PlayAppend(INIT, Committing([a, b]), rest);
    NotInOrder(a, b, [EntryOf(b)]);
  }

  lemma CommittingTwoFollows(p: Policy, s: State, a: Row, b: Row)
    requires s == INIT && a.id != b.id
    ensures Follows(p, s, Committing([a, b]))
  {
    BeginAndInsert(s, a);
    InsertNext(s, [a], b);
    assert [a] + [b] == [a, b];
    NothingOvertakes(s, a);
    NothingOvertakes(s, b);
    CommitIsPermitted(p, s, [a, b]);
    FollowsFour(p, s, Begin(0), InsertRow(0, a), InsertRow(0, b), CommitTx(0));
  }

  lemma FollowsFour(p: Policy, s: State, a: Action, b: Action, c: Action, d: Action)
    requires (a.Begin? || a.InsertRow?) && (b.Begin? || b.InsertRow?) && (c.Begin? || c.InsertRow?)
    requires Permits(p, OutboxRelay.Step(OutboxRelay.Step(OutboxRelay.Step(s, a), b), c), d)
    ensures Follows(p, s, [a, b, c, d])
  {
    FollowsThree(p, OutboxRelay.Step(s, a), b, c, d);
    FollowsFirst(p, s, a, [b, c, d]);
    assert [a] + [b, c, d] == [a, b, c, d];
  }

  lemma FollowsThree(p: Policy, s: State, a: Action, b: Action, c: Action)
    requires (a.Begin? || a.InsertRow?) && (b.Begin? || b.InsertRow?)
    requires Permits(p, OutboxRelay.Step(OutboxRelay.Step(s, a), b), c)
    ensures Follows(p, s, [a, b, c])
  {
    FollowsTwo(p, OutboxRelay.Step(s, a), b, c);
    FollowsFirst(p, s, a, [b, c]);
    assert [a] + [b, c] == [a, b, c];
  }

  lemma FetchTwo(s: State, r: nat, limit: nat, a: Row, b: Row)
    requires Successive(a, b) && limit > 1 && s.relays == map[] && s.table == map[a.id := a, b.id := b]
    ensures OutboxRelay.Step(s, Fetch(r, limit, [a, b])) == s.(relays := map[r := Batch([a, b], false, false, false)])
  {
    assert Eligible(s, a) && Eligible(s, b);
  }

  lemma WritesSecondOnly(p: Policy, s: State, a: Row, b: Row)
    requires p.partial && p.limit > 1 && Successive(a, b)
    requires s.relays == map[] && s.table == map[a.id := a, b.id := b]
    ensures var trace := [Fetch(1, p.limit, [a, b]), WriteSome(1, [1])];
      && Follows(p, s, trace) && Play(s, trace).kafka == s.kafka + [EntryOf(b)]
      && Play(s, trace).table == s.table && Play(s, trace).committed == s.committed
  {
    var fetch, write := Fetch(1, p.limit, [a, b]), WriteSome(1, [1]);
    FetchTwo(s, 1, p.limit, a, b);
    FollowsTwo(p, s, fetch, write);
    var fetched := s.(relays := map[1 := Batch([a, b], false, false, false)]);
    assert Apply(fetched, write).kafka == s.kafka + Picked([a, b], [1]);
    assert Picked([a, b], [1]) == [EntryOf(b)];
  }

  lemma FollowsTwo(p: Policy, s: State, a: Action, b: Action)
    requires Permits(p, s, a) && Permits(p, OutboxRelay.Step(s, a), b)
    ensures Follows(p, s, [a, b]) && Play(s, [a, b]) == OutboxRelay.Step(OutboxRelay.Step(s, a), b)
  {
    assert [a, b][..1] == [a] && [a][..0] == [];
    assert Follows(p, s, [a][..0]) && Play(s, [a][..0]) == s;
    assert Follows(p, s, [a]) && Play(s, [a]) == OutboxRelay.Step(s, a);
  }

  /** With one relay and without any failure: the older event is committed too late. */
  lemma LateCommitInverts(p: Policy, a: Row, b: Row)
    requires p.late && p.limit > 0 && Successive(a, b)
    ensures Inverts(p, Belated(p.limit, a, b), a, b)
  {
    var s := INIT.(txs := map[1 := [a]]);
    var s' := WithRows(s, [b]);
    var own, rest := Committing([b]), [Fetch(1, p.limit, [b]), CommitTx(1), WriteAll(1)];
    InsertsOlder(p, a);
    CommitOne(s, b);
    OneRow(b);
    NothingOvertakes(s, b);
    CommittingOneFollows(p, s, b);
    CommitsTooLate(p, s', a, b);
    FollowsAppend(p, s, own, rest);
    PlayAppend(s, own, rest);
    FollowsAppend(p, INIT, [Begin(1), InsertRow(1, a)], own + rest);
    PlayAppend(INIT, [Begin(1), InsertRow(1, a)], own + rest);
    NotInOrder(a, b, [EntryOf(b)]);
  }

  lemma InsertsOlder(p: Policy, a: Row)
    ensures Follows(p, INIT, [Begin(1), InsertRow(1, a)])
    ensures Play(INIT, [Begin(1), InsertRow(1, a)]) == INIT.(txs := map[1 := [a]])
  {
    FollowsTwo(p, INIT, Begin(1), InsertRow(1, a));
    assert OutboxRelay.Step(INIT, Begin(1)) == INIT.(txs := map[1 := []]);
    assert [] + [a] == [a];
  }

  lemma CommitsTooLate(p: Policy, s: State, a: Row, b: Row)
    requires p.late && p.limit > 0 && Successive(a, b)
    requires s == INIT.(txs := map[1 := [a]], table := map[b.id := b], committed := map[b.id := b])
    ensures var trace := [Fetch(1, p.limit, [b]), CommitTx(1), WriteAll(1)];
      && Follows(p, s, trace) && Play(s, trace).kafka == [EntryOf(b)]
      && Play(s, trace).table == map[b.id := b][a.id := a] && Play(s, trace).committed == map[b.id := b][a.id := a]
  {
    var fetched := s.(relays := map[1 := Batch([b], false, false, false)]);
    var both := map[b.id := b][a.id := a];
    var committed := fetched.(txs := map[], table := both, committed := both);
    FetchOne(s, 1, p.limit, b);
    OneRow(a);
    assert OutboxRelay.Step(fetched, CommitTx(1)) == committed;
    WritesOne(committed, 1, b);
    FollowsTwo(p, fetched, CommitTx(1), WriteAll(1));
    FollowsFirst(p, s, Fetch(1, p.limit, [b]), [CommitTx(1), WriteAll(1)]);
    PlayFirst(s, Fetch(1, p.limit, [b]), [CommitTx(1), WriteAll(1)]);
    assert [Fetch(1, p.limit, [b])] + [CommitTx(1), WriteAll(1)] == [Fetch(1, p.limit, [b]), CommitTx(1), WriteAll(1)];
  }
}
