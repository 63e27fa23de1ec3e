/**
 The relaying half of the transactional outbox (eventlog/outbox): business transactions commit rows
 into outbox_events, any number of relays lock batches with FOR UPDATE SKIP LOCKED, write them to
 Kafka and delete them, all inside one transaction each. Everything may interleave, roll back or
 crash between any two steps.
 */
module OutboxRelay {
  import opened Wrappers
  import opened Transactions

  datatype Message = Message(topic: string, key: string, value: string, time: int)

  /** A Kafka record together with the id of the row it was made from. */
  datatype Entry = Entry(id: string, message: Message)

  /** The open transaction of one relay: the rows it locked and how far `ProcessBatch` got. */
  datatype Batch = Batch(rows: seq<Row>, attempted: bool, published: bool, deleted: bool)

  /**
   The database, Kafka and the processes. `adrift` are the writes still in flight of relays whose database
   session was cut off, with the rows not yet on the log. The last three fields are history: every row that was ever
   committed, every row that was rolled back, with its business transaction or to a savepoint inside it,
   and the id sets of relay batches that ended in rollback.
   */
  datatype State = State(
    table: map<string, Row>,
    txs: map<nat, seq<Row>>,
    relays: map<nat, Batch>,
    adrift: seq<seq<Row>>,
    kafka: seq<Entry>,
    committed: map<string, Row>,
    discarded: set<string>,
    rolledBack: seq<set<string>>)

  datatype Action =
    | Begin(tx: nat)
    | InsertRow(tx: nat, row: Row)
    | UndoRows(tx: nat, keep: nat)
    | CommitTx(tx: nat)
    | AbortTx(tx: nat)
    | Fetch(relay: nat, limit: nat, rows: seq<Row>)
    | WriteAll(relay: nat)
    | WriteSome(relay: nat, part: seq<nat>)
    | DeleteRows(relay: nat)
    | CommitRelay(relay: nat)
    | AbortRelay(relay: nat)
    | CutOff(relay: nat)
    | LateWrite(write: nat, i: nat)

  const INIT: State := State(map[], map[], map[], [], [], map[], {}, [])

  const PENDING := "PENDING"

  /** The message a row is published as; an empty topic falls back to the entity type. */
  function MessageOf(row: Row): (m: Message) {
    Message(if row.topic == "" then row.entityType else row.topic, row.entityId, row.payload, row.createdAt)
  }

  function EntryOf(row: Row): (e: Entry) {
    Entry(row.id, MessageOf(row))
  }

  function Entries(rows: seq<Row>): (es: seq<Entry>)
    ensures |es| == |rows|
  {
    seq(|rows|, i requires 0 <= i < |rows| => EntryOf(rows[i]))
  }

  /** The records of the rows picked out by `part`, in that order. */
  function Picked(rows: seq<Row>, part: seq<nat>): (es: seq<Entry>)
    requires forall k :: 0 <= k < |part| ==> part[k] < |rows|
    ensures |es| == |part|
  {
    seq(|part|, k requires 0 <= k < |part| => EntryOf(rows[part[k]]))
  }

  function Ids(rows: seq<Row>): (ids: set<string>) {
    set r | r in rows :: r.id
  }

  ghost predicate DistinctIds(rows: seq<Row>) {
    forall i, j :: 0 <= i < j < |rows| ==> rows[i].id != rows[j].id
  }

  ghost predicate Locked(s: State, id: string) {
    exists r :: r in s.relays && id in Ids(s.relays[r].rows)
  }

  ghost predicate Eligible(s: State, row: Row) {
    row.id in s.table && s.table[row.id] == row && row.status == PENDING && !Locked(s, row.id)
  }

  /**
   What FOR UPDATE SKIP LOCKED ... ORDER BY created_at LIMIT n may answer: distinct unlocked pending
   rows, oldest first, at most n of them, and nothing eligible left out that the limit had room for or
   that is older than the last one taken.
   */
  ghost predicate IsBatch(s: State, limit: nat, rows: seq<Row>) {
    && |rows| <= limit
    && DistinctIds(rows)
    && (forall i :: 0 <= i < |rows| ==> Eligible(s, rows[i]))
    && (forall i, j :: 0 <= i < j < |rows| ==> rows[i].createdAt <= rows[j].createdAt)
    && (forall row :: Eligible(s, row) && row !in rows ==>
          |rows| == limit && forall i :: 0 <= i < |rows| ==> rows[i].createdAt <= row.createdAt)
  }

  ghost predicate FreshId(s: State, id: string) {
    && id !in s.committed && id !in s.discarded
    && forall t :: t in s.txs ==> id !in Ids(s.txs[t])
  }

  /** When an action can happen. Only `Fetch`, the writes and the commit constrain a relay's order. */
  ghost predicate Enabled(s: State, a: Action) {
    match a
    case Begin(t) => t !in s.txs
    case InsertRow(t, row) => t in s.txs && FreshId(s, row.id)
    case UndoRows(t, keep) => t in s.txs && keep <= |s.txs[t]|
    case CommitTx(t) => t in s.txs
    case AbortTx(t) => t in s.txs
    case Fetch(r, limit, rows) => r !in s.relays && IsBatch(s, limit, rows)
    case WriteAll(r) => r in s.relays && !s.relays[r].attempted
    case WriteSome(r, part) => r in s.relays && !s.relays[r].attempted
      && (forall k :: 0 <= k < |part| ==> part[k] < |s.relays[r].rows|)
      && (forall k, l :: 0 <= k < l < |part| ==> part[k] != part[l])
    case DeleteRows(r) => r in s.relays && s.relays[r].published && !s.relays[r].deleted
    case CommitRelay(r) => r in s.relays && (s.relays[r].rows == [] || s.relays[r].deleted)
    case AbortRelay(r) => r in s.relays
    case CutOff(r) => r in s.relays && !s.relays[r].attempted
    case LateWrite(k, i) => k < |s.adrift| && i < |s.adrift[k]|
  }

  /** The rows but row `i`. */
  function Dropped(rows: seq<Row>, i: nat): (rest: seq<Row>)
    requires i < |rows|
  {
    rows[..i] + rows[i + 1..]
  }

  function RowMap(rows: seq<Row>): (m: map<string, Row>) {
    if rows == [] then map[] else RowMap(rows[..|rows| - 1])[rows[|rows| - 1].id := rows[|rows| - 1]]
  }

  /** The effect of an action that can happen. */
  ghost function Apply(s: State, a: Action): (s': State)
    requires Enabled(s, a)
  {
    match a
    case Begin(t) => s.(txs := s.txs[t := []])
    case InsertRow(t, row) => s.(txs := s.txs[t := s.txs[t] + [row]])
    case UndoRows(t, keep) => s.(txs := s.txs[t := s.txs[t][..keep]], discarded := s.discarded + Ids(s.txs[t][keep..]))
    case CommitTx(t) => s.(table := s.table + RowMap(s.txs[t]),
                           committed := s.committed + RowMap(s.txs[t]), txs := s.txs - {t})
    case AbortTx(t) => s.(discarded := s.discarded + Ids(s.txs[t]), txs := s.txs - {t})
    case Fetch(r, _, rows) => s.(relays := s.relays[r := Batch(rows, false, false, false)])
    case WriteAll(r) => s.(kafka := s.kafka + Entries(s.relays[r].rows),
                           relays := s.relays[r := s.relays[r].(attempted := true, published := true)])
    case WriteSome(r, part) => s.(kafka := s.kafka + Picked(s.relays[r].rows, part),
                                  relays := s.relays[r := s.relays[r].(attempted := true)])
    case DeleteRows(r) => s.(relays := s.relays[r := s.relays[r].(deleted := true)])
    case CommitRelay(r) => s.(table := s.table - Ids(s.relays[r].rows), relays := s.relays - {r})
    case AbortRelay(r) => s.(rolledBack := s.rolledBack + [Ids(s.relays[r].rows)], relays := s.relays - {r})
    case CutOff(r) => s.(rolledBack := s.rolledBack + [Ids(s.relays[r].rows)], relays := s.relays - {r},
                         adrift := s.adrift + [s.relays[r].rows])
    case LateWrite(k, i) => s.(kafka := s.kafka + [EntryOf(s.adrift[k][i])],
                               adrift := s.adrift[k := Dropped(s.adrift[k], i)])
  }

  /** An attempted action: one that cannot happen has no effect. */
  ghost function Step(s: State, a: Action): (s': State) {
    if Enabled(s, a) then Apply(s, a) else s
  }

  /** Runs a list of attempted actions of any number of processes, in the order they happened. */
  ghost function Play(s: State, trace: seq<Action>): (s': State) {
    if trace == [] then s else Step(Play(s, trace[..|trace| - 1]), trace[|trace| - 1])
  }

  /** How many records of the log were made from row `id`. */
  function Copies(log: seq<Entry>, id: string): (n: nat) {
    if log == [] then 0
    else Copies(log[..|log| - 1], id) + (if log[|log| - 1].id == id then 1 else 0)
  }

  /** How many rolled-back relay batches contained row `id`. */
  function Rollbacks(batches: seq<set<string>>, id: string): (n: nat) {
    if batches == [] then 0
    else Rollbacks(batches[..|batches| - 1], id) + (if id in batches[|batches| - 1] then 1 else 0)
  }

  /** How many writes still in flight hold row `id`. */
  function InFlight(writes: seq<seq<Row>>, id: string): (n: nat) {
    if writes == [] then 0
    else InFlight(writes[..|writes| - 1], id) + (if id in Ids(writes[|writes| - 1]) then 1 else 0)
  }

  /** The records made from row `id`, and those that may still arrive after their relay was cut off. */
  function Owed(s: State, id: string): (n: nat) {
    Copies(s.kafka, id) + InFlight(s.adrift, id)
  }

  // ---------------------------------------------------------------- invariant

  /** Rows of open transactions, committed rows and discarded rows never share an id. */
  ghost predicate Isolated(s: State) {
    && s.committed.Keys !! s.discarded
    && (forall t :: t in s.txs ==>
          DistinctIds(s.txs[t]) && Ids(s.txs[t]) !! s.committed.Keys && Ids(s.txs[t]) !! s.discarded)
    && (forall t, u :: t in s.txs && u in s.txs && t != u ==> Ids(s.txs[t]) !! Ids(s.txs[u]))
  }

  /** A relay's locked rows are in the table, and no two relays lock the same row. */
  ghost predicate LocksHold(s: State) {
    && (forall r :: r in s.relays ==> DistinctIds(s.relays[r].rows))
    && (forall r, row :: r in s.relays && row in s.relays[r].rows ==> row.id in s.table && s.table[row.id] == row)
    && (forall r, q :: r in s.relays && q in s.relays && r != q ==> Ids(s.relays[r].rows) !! Ids(s.relays[q].rows))
    && (forall r :: r in s.relays ==>
          (s.relays[r].deleted ==> s.relays[r].published) && (s.relays[r].published ==> s.relays[r].attempted))
  }

  /** The table holds committed rows, and Kafka holds exactly the messages of committed rows. */
  ghost predicate OnlyCommitted(s: State) {
    && (forall id :: id in s.table ==> id in s.committed && s.committed[id] == s.table[id] && s.table[id].id == id)
    && (forall id :: id in s.committed ==> s.committed[id].id == id)
    && (forall k :: 0 <= k < |s.kafka| ==>
          s.kafka[k].id in s.committed && s.kafka[k] == EntryOf(s.committed[s.kafka[k].id]))
  }

  /** Nothing committed is lost: a row leaves the table only after it reached Kafka. */
  ghost predicate NothingLost(s: State) {
    && (forall id :: id in s.committed && id !in s.table ==> Copies(s.kafka, id) >= 1)
    && (forall r, id :: r in s.relays && s.relays[r].published && id in Ids(s.relays[r].rows) ==>
          Copies(s.kafka, id) >= 1)
  }

  /** Some relay holds the row and has already tried to write its batch. */
  ghost predicate Attempting(s: State, id: string) {
    exists r :: r in s.relays && s.relays[r].attempted && id in Ids(s.relays[r].rows)
  }

  /** Duplicates are paid for by rollbacks: at most one copy beyond the rolled-back batches of a row. */
  ghost predicate CopiesBounded(s: State) {
    && (forall id :: Owed(s, id) <= Rollbacks(s.rolledBack, id) + 1)
    && (forall id :: id in s.table && Owed(s, id) > Rollbacks(s.rolledBack, id) ==> Attempting(s, id))
    && (forall id :: id !in s.committed ==> Owed(s, id) == 0)
  }

  /** Writes in flight hold committed rows. */
  ghost predicate AdriftCommitted(s: State) {
    forall k :: 0 <= k < |s.adrift| ==> DistinctIds(s.adrift[k]) && AllCommitted(s, s.adrift[k])
  }

  ghost predicate AllCommitted(s: State, rows: seq<Row>) {
    forall row :: row in rows ==> row.id in s.committed && s.committed[row.id] == row
  }

  ghost predicate Inv(s: State) {
    && Isolated(s) && LocksHold(s) && OnlyCommitted(s) && AdriftCommitted(s)
    && NothingLost(s) && CopiesBounded(s)
  }

  // ---------------------------------------------------------------- counting

  lemma {:induction false} CopiesAppend(log: seq<Entry>, more: seq<Entry>, id: string)
    ensures Copies(log + more, id) == Copies(log, id) + Copies(more, id)
    decreases |more|
  {
    if more == [] {
      assert log + more == log;
    } else {
      assert (log + more)[..|log + more| - 1] == log + more[..|more| - 1];
      CopiesAppend(log, more[..|more| - 1], id);
    }
  }

  /** A list of records with distinct ids holds each id at most once. */
  lemma {:induction false} CopiesOfDistinct(es: seq<Entry>, id: string)
    requires forall i, j :: 0 <= i < j < |es| ==> es[i].id != es[j].id
    ensures Copies(es, id) == if exists i :: 0 <= i < |es| && es[i].id == id then 1 else 0
    decreases |es|
  {
    if es != [] {
      var init, last := es[..|es| - 1], es[|es| - 1];
      CopiesOfDistinct(init, id);
      if last.id == id {
        assert forall i :: 0 <= i < |init| ==> init[i].id != es[|es| - 1].id;
      } else if exists i :: 0 <= i < |es| && es[i].id == id {
        var i :| 0 <= i < |es| && es[i].id == id;
        assert init[i].id == id;
      } else {
        assert forall i :: 0 <= i < |init| ==> init[i] == es[i];
      }
    }
  }

  lemma {:induction false} SomeCopy(log: seq<Entry>, id: string) returns (k: nat)
    requires Copies(log, id) >= 1
    ensures k < |log| && log[k].id == id
    decreases |log|
  {
    if log[|log| - 1].id == id { k := |log| - 1; } else { k := SomeCopy(log[..|log| - 1], id); }
  }

  lemma {:induction false} RowMapKeys(rows: seq<Row>)
    ensures RowMap(rows).Keys == Ids(rows)
    decreases |rows|
  {
    if rows != [] {
      var init, last := rows[..|rows| - 1], rows[|rows| - 1];
      RowMapKeys(init);
      assert rows == init + [last];
    }
  }

  lemma {:induction false} RowMapAt(rows: seq<Row>, i: nat)
    requires DistinctIds(rows) && i < |rows|
    ensures rows[i].id in RowMap(rows) && RowMap(rows)[rows[i].id] == rows[i]
    decreases |rows|
  {
    if i < |rows| - 1 {
      RowMapAt(rows[..|rows| - 1], i);
    }
  }

  lemma RowMapIs(rows: seq<Row>)
    requires DistinctIds(rows)
    ensures RowMap(rows).Keys == Ids(rows)
    ensures forall row :: row in rows ==> RowMap(rows)[row.id] == row
  {
    RowMapKeys(rows);
    forall row | row in rows ensures RowMap(rows)[row.id] == row {
      var i :| 0 <= i < |rows| && rows[i] == row;
      RowMapAt(rows, i);
    }
  }

  // ---------------------------------------------------------------- preservation

  /** The log and the batch after a write attempt that put `es` on the log. */
  function AfterWrite(s: State, r: nat, es: seq<Entry>, published: bool): (s': State)
    requires r in s.relays
  {
    s.(kafka := s.kafka + es, relays := s.relays[r := s.relays[r].(attempted := true, published := published)])
  }

  /** `es` is what a write attempt of batch `r` may put on the log: each row at most once. */
  ghost predicate Writable(s: State, r: nat, es: seq<Entry>, published: bool)
    requires r in s.relays
  {
    && !s.relays[r].attempted
    && (forall i, j :: 0 <= i < j < |es| ==> es[i].id != es[j].id)
    && (forall i :: 0 <= i < |es| ==>
          es[i].id in Ids(s.relays[r].rows) && es[i].id in s.table && es[i] == EntryOf(s.table[es[i].id]))
    && (published ==> forall id :: id in Ids(s.relays[r].rows) ==> exists i :: 0 <= i < |es| && es[i].id == id)
  }

  lemma CopiesAfterWrite(s: State, r: nat, es: seq<Entry>, published: bool, id: string)
    requires r in s.relays && Writable(s, r, es, published)
    ensures Copies(s.kafka, id) <= Copies(s.kafka + es, id)
            <= Copies(s.kafka, id) + (if id in Ids(s.relays[r].rows) then 1 else 0)
    ensures published && id in Ids(s.relays[r].rows) ==> Copies(s.kafka + es, id) >= 1
  {
    CopiesAppend(s.kafka, es, id);
    CopiesOfDistinct(es, id);
  }

  lemma WriteKeepsLocks(s: State, r: nat, es: seq<Entry>, published: bool)
    requires LocksHold(s) && r in s.relays && Writable(s, r, es, published)
    ensures LocksHold(AfterWrite(s, r, es, published))
  {
    var s' := AfterWrite(s, r, es, published);
    assert forall q :: q in s'.relays ==> q in s.relays && s'.relays[q].rows == s.relays[q].rows;
  }

  lemma WriteKeepsOnlyCommitted(s: State, r: nat, es: seq<Entry>, published: bool)
    requires OnlyCommitted(s) && r in s.relays && Writable(s, r, es, published)
    ensures OnlyCommitted(AfterWrite(s, r, es, published))
  {
    var s' := AfterWrite(s, r, es, published);
    assert forall k :: 0 <= k < |s'.kafka| ==> s'.kafka[k] == if k < |s.kafka| then s.kafka[k] else es[k - |s.kafka|];
  }

  lemma WriteKeepsNothingLost(s: State, r: nat, es: seq<Entry>, published: bool)
    requires NothingLost(s) && r in s.relays && Writable(s, r, es, published)
    ensures NothingLost(AfterWrite(s, r, es, published))
  {
    var s' := AfterWrite(s, r, es, published);
    forall id
      ensures Copies(s'.kafka, id) >= Copies(s.kafka, id)
      ensures published && id in Ids(s.relays[r].rows) ==> Copies(s'.kafka, id) >= 1
    {
      CopiesAfterWrite(s, r, es, published, id);
    }
  }

  lemma WriteKeepsCopiesBounded(s: State, r: nat, es: seq<Entry>, published: bool)
    requires LocksHold(s) && CopiesBounded(s) && r in s.relays && Writable(s, r, es, published)
    requires forall id :: id in s.table ==> id in s.committed
    ensures CopiesBounded(AfterWrite(s, r, es, published))
  {
    var s' := AfterWrite(s, r, es, published);
    forall id
      ensures Owed(s', id) <= Rollbacks(s.rolledBack, id) + 1
      ensures id in s.table && Owed(s', id) > Rollbacks(s.rolledBack, id) ==> Attempting(s', id)
      ensures id !in s.committed ==> Owed(s', id) == 0
    {
      CopiesAfterWrite(s, r, es, published, id);
      if id in Ids(s.relays[r].rows) {
        NotYetWritten(s, r, id);
        assert r in s'.relays && s'.relays[r].attempted && id in Ids(s'.relays[r].rows);
      } else if id in s.table && Owed(s', id) > Rollbacks(s.rolledBack, id) {
        AttemptsRemain(s, r, es, published, id);
      }
    }
  }

  lemma AttemptsRemain(s: State, r: nat, es: seq<Entry>, published: bool, id: string)
    requires r in s.relays && Attempting(s, id)
    ensures Attempting(AfterWrite(s, r, es, published), id)
  {
    var s' := AfterWrite(s, r, es, published);
    var q :| q in s.relays && s.relays[q].attempted && id in Ids(s.relays[q].rows);
    assert q in s'.relays && s'.relays[q].attempted && id in Ids(s'.relays[q].rows);
  }

  lemma WriteKeepsInv(s: State, r: nat, es: seq<Entry>, published: bool)
    requires Inv(s) && r in s.relays && Writable(s, r, es, published)
    ensures Inv(AfterWrite(s, r, es, published))
  {
    WriteKeepsLocks(s, r, es, published);
    WriteKeepsOnlyCommitted(s, r, es, published);
    WriteKeepsNothingLost(s, r, es, published);
    WriteKeepsCopiesBounded(s, r, es, published);
  }

  /** Before a batch is written, its rows have no more copies than rolled-back batches. */
  lemma NotYetWritten(s: State, r: nat, id: string)
    requires LocksHold(s) && CopiesBounded(s) && r in s.relays && !s.relays[r].attempted && id in Ids(s.relays[r].rows)
    ensures id in s.table && Owed(s, id) <= Rollbacks(s.rolledBack, id)
  {
    var row :| row in s.relays[r].rows && row.id == id;
    assert !Attempting(s, id);
  }

  lemma CommitTxKeepsInv(s: State, t: nat)
    requires Inv(s) && t in s.txs
    ensures Inv(Apply(s, CommitTx(t)))
  {
    CommitTxAddsRows(s, t);
    CommitTxKeepsCounts(s, t, Apply(s, CommitTx(t)));
    StepGrows(s, CommitTx(t));
    AdriftStaysCommitted(s, Apply(s, CommitTx(t)));
  }

  lemma CommitTxKeepsCounts(s: State, t: nat, s': State)
    requires Isolated(s) && NothingLost(s) && CopiesBounded(s) && t in s.txs
    requires s'.relays == s.relays && s'.kafka == s.kafka && s'.adrift == s.adrift && s'.rolledBack == s.rolledBack
    requires s'.committed.Keys == s.committed.Keys + Ids(s.txs[t]) && s'.table.Keys == s.table.Keys + Ids(s.txs[t])
    ensures NothingLost(s') && CopiesBounded(s')
  {
    forall id ensures Owed(s', id) == Owed(s, id) && (Attempting(s, id) ==> Attempting(s', id)) {
    }
    forall id | id in s'.table && Owed(s', id) > Rollbacks(s'.rolledBack, id) ensures Attempting(s', id) {
      assert id !in Ids(s.txs[t]);
    }
  }

  lemma AdriftStaysCommitted(s: State, s': State)
    requires AdriftCommitted(s) && s'.adrift == s.adrift
    requires forall id :: id in s.committed ==> id in s'.committed && s'.committed[id] == s.committed[id]
    ensures AdriftCommitted(s')
  {
    assert forall k :: 0 <= k < |s.adrift| ==> AllCommitted(s, s.adrift[k]);
  }

  lemma CommitTxAddsRows(s: State, t: nat)
    requires Isolated(s) && OnlyCommitted(s) && LocksHold(s) && t in s.txs
    ensures var s' := Apply(s, CommitTx(t));
      && s'.committed.Keys == s.committed.Keys + Ids(s.txs[t])
      && s'.table.Keys == s.table.Keys + Ids(s.txs[t])
      && Isolated(s') && OnlyCommitted(s') && LocksHold(s')
  {
    RowMapIs(s.txs[t]);
    forall id | id in Ids(s.txs[t]) ensures RowMap(s.txs[t])[id].id == id {
      var row :| row in s.txs[t] && row.id == id;
    }
    NewRowsAreCommitted(s, t, RowMap(s.txs[t]));
    NewRowsKeepLocks(s, Apply(s, CommitTx(t)), RowMap(s.txs[t]));
  }

  lemma NewRowsAreCommitted(s: State, t: nat, rows: map<string, Row>)
    requires Isolated(s) && OnlyCommitted(s) && t in s.txs && rows.Keys == Ids(s.txs[t])
    requires forall id :: id in rows ==> rows[id].id == id
    ensures var s' := s.(table := s.table + rows, committed := s.committed + rows, txs := s.txs - {t});
      Isolated(s') && OnlyCommitted(s')
  {
    var s' := s.(table := s.table + rows, committed := s.committed + rows, txs := s.txs - {t});
    NewRowsIsolated(s, t, s');
    NewRowsOnlyCommitted(s, s', rows);
  }

  lemma NewRowsIsolated(s: State, t: nat, s': State)
    requires Isolated(s) && t in s.txs && s'.txs == s.txs - {t} && s'.discarded == s.discarded
    requires s'.committed.Keys == s.committed.Keys + Ids(s.txs[t])
    ensures Isolated(s')
  {
    assert forall u :: u in s'.txs ==> u in s.txs && s'.txs[u] == s.txs[u] && Ids(s.txs[u]) !! Ids(s.txs[t]);
  }

  lemma NewRowsOnlyCommitted(s: State, s': State, rows: map<string, Row>)
    requires OnlyCommitted(s) && s'.kafka == s.kafka && rows.Keys !! s.committed.Keys
    requires s'.table == s.table + rows && s'.committed == s.committed + rows
    requires forall id :: id in rows ==> rows[id].id == id
    ensures OnlyCommitted(s')
  {
  }

  lemma NewRowsKeepLocks(s: State, s': State, rows: map<string, Row>)
    requires LocksHold(s) && s.table.Keys !! rows.Keys && s'.table == s.table + rows && s'.relays == s.relays
    ensures LocksHold(s')
  {
  }

  lemma CommitRelayKeepsLocks(s: State, r: nat)
    requires LocksHold(s) && r in s.relays
    ensures LocksHold(s.(table := s.table - Ids(s.relays[r].rows), relays := s.relays - {r}))
  {
    var s' := s.(table := s.table - Ids(s.relays[r].rows), relays := s.relays - {r});
    forall q, row | q in s'.relays && row in s'.relays[q].rows
      ensures row.id in s'.table && s'.table[row.id] == row
    {
      assert row.id in Ids(s.relays[q].rows);
      assert Ids(s.relays[q].rows) !! Ids(s.relays[r].rows);
    }
  }

  /** Rows another relay attempted to write are still attempted when `r` is gone. */
  lemma StillAttempting(s: State, s': State, r: nat, id: string)
    requires Attempting(s, id) && s'.relays == s.relays - {r}
    requires r in s.relays ==> id !in Ids(s.relays[r].rows)
    ensures Attempting(s', id)
  {
    var q :| q in s.relays && s.relays[q].attempted && id in Ids(s.relays[q].rows);
    assert q in s'.relays;
  }

  lemma CommitRelayKeepsCounts(s: State, r: nat)
    requires CopiesBounded(s) && r in s.relays
    ensures CopiesBounded(s.(table := s.table - Ids(s.relays[r].rows), relays := s.relays - {r}))
  {
    var s' := s.(table := s.table - Ids(s.relays[r].rows), relays := s.relays - {r});
    forall id | id in s'.table && Owed(s', id) > Rollbacks(s'.rolledBack, id)
      ensures Attempting(s', id)
    {
      StillAttempting(s, s', r, id);
    }
  }

  lemma CommitRelayKeepsNothingLost(s: State, r: nat)
    requires NothingLost(s) && r in s.relays && (s.relays[r].rows == [] || s.relays[r].published)
    ensures NothingLost(s.(table := s.table - Ids(s.relays[r].rows), relays := s.relays - {r}))
  {
  }

  lemma CommitRelayKeepsInv(s: State, r: nat)
    requires Inv(s) && Enabled(s, CommitRelay(r))
    ensures Inv(Apply(s, CommitRelay(r)))
  {
    CommitRelayKeepsLocks(s, r);
    CommitRelayKeepsCounts(s, r);
    CommitRelayKeepsNothingLost(s, r);
    SameRecords(s, Apply(s, CommitRelay(r)));
    AdriftStaysCommitted(s, Apply(s, CommitRelay(r)));
  }

  lemma AbortRelayKeepsLocks(s: State, r: nat)
    requires LocksHold(s) && r in s.relays
    ensures LocksHold(Apply(s, AbortRelay(r)))
  {
  }

  lemma AbortRelayKeepsCounts(s: State, r: nat)
    requires CopiesBounded(s) && r in s.relays
    ensures CopiesBounded(Apply(s, AbortRelay(r)))
  {
    var s' := Apply(s, AbortRelay(r));
    var ids := Ids(s.relays[r].rows);
    assert s'.rolledBack[..|s'.rolledBack| - 1] == s.rolledBack;
    assert forall id :: Rollbacks(s'.rolledBack, id) == Rollbacks(s.rolledBack, id) + (if id in ids then 1 else 0);
    forall id | id in s'.table && Owed(s', id) > Rollbacks(s'.rolledBack, id)
      ensures Attempting(s', id)
    {
      StillAttempting(s, s', r, id);
    }
  }

  lemma AbortRelayKeepsInv(s: State, r: nat)
    requires Inv(s) && r in s.relays
    ensures Inv(Apply(s, AbortRelay(r)))
  {
    AbortRelayKeepsLocks(s, r);
    AbortRelayKeepsCounts(s, r);
  }

  /** A session cut off before its write ended has not been counted yet; its rollback pays for the late copies. */
  lemma CutOffKeepsCounts(s: State, r: nat)
    requires LocksHold(s) && CopiesBounded(s) && Enabled(s, CutOff(r))
    requires forall id :: id in s.table ==> id in s.committed
    ensures CopiesBounded(Apply(s, CutOff(r)))
  {
    var s' := Apply(s, CutOff(r));
    var ids := Ids(s.relays[r].rows);
    assert s'.rolledBack[..|s'.rolledBack| - 1] == s.rolledBack && s'.adrift[..|s'.adrift| - 1] == s.adrift;
    forall id
      ensures Rollbacks(s'.rolledBack, id) == Rollbacks(s.rolledBack, id) + (if id in ids then 1 else 0)
      ensures Owed(s', id) == Owed(s, id) + (if id in ids then 1 else 0)
      ensures id in ids ==> id in s.table && Owed(s, id) <= Rollbacks(s.rolledBack, id)
    {
      if id in ids { NotYetWritten(s, r, id); }
    }
    forall id | id in s'.table && Owed(s', id) > Rollbacks(s'.rolledBack, id) ensures Attempting(s', id) {
      StillAttempting(s, s', r, id);
    }
  }

  lemma CutOffKeepsAdrift(s: State, r: nat)
    requires LocksHold(s) && OnlyCommitted(s) && AdriftCommitted(s) && r in s.relays
    ensures AdriftCommitted(Apply(s, AbortRelay(r)).(adrift := s.adrift + [s.relays[r].rows]))
  {
    assert AllCommitted(s, s.relays[r].rows);
  }

  lemma CutOffKeepsInv(s: State, r: nat)
    requires Inv(s) && Enabled(s, CutOff(r))
    ensures Inv(Apply(s, CutOff(r)))
  {
    var s' := Apply(s, CutOff(r));
    AbortRelayKeepsLocks(s, r);
    CutOffKeepsAdrift(s, r);
    CutOffKeepsCounts(s, r);
    SameRecords(s, s');
    GoneKeepsNothingLost(s, s');
    SameLocks(Apply(s, AbortRelay(r)), s');
  }

  lemma GoneKeepsNothingLost(s: State, s': State)
    requires NothingLost(s) && s'.committed == s.committed && s'.table == s.table && s'.kafka == s.kafka
    requires forall q :: q in s'.relays ==> q in s.relays && s'.relays[q] == s.relays[q]
    ensures NothingLost(s')
  {
  }

  lemma SameLocks(s: State, s': State)
    requires LocksHold(s) && s'.relays == s.relays && s'.table == s.table
    ensures LocksHold(s')
  {
  }

  /** Steps of relays that neither commit nor write. */
  lemma SameRecords(s: State, s': State)
    requires Isolated(s) && OnlyCommitted(s)
    requires s'.txs == s.txs && s'.discarded == s.discarded && s'.committed == s.committed && s'.kafka == s.kafka
    requires forall id :: id in s'.table ==> id in s.table && s'.table[id] == s.table[id]
    ensures Isolated(s') && OnlyCommitted(s')
  {
  }

  lemma IdsWithout(rows: seq<Row>, i: nat)
    requires i < |rows| && DistinctIds(rows)
    ensures DistinctIds(Dropped(rows, i)) && Ids(Dropped(rows, i)) == Ids(rows) - {rows[i].id}
    ensures forall row :: row in Dropped(rows, i) ==> row in rows
  {
    assert rows == rows[..i] + [rows[i]] + rows[i + 1..];
  }

  lemma {:induction false} InFlightChanged(writes: seq<seq<Row>>, k: nat, rows: seq<Row>, id: string)
    requires k < |writes|
    ensures InFlight(writes[k := rows], id) + (if id in Ids(writes[k]) then 1 else 0)
         == InFlight(writes, id) + (if id in Ids(rows) then 1 else 0)
    decreases |writes|
  {
    var n := |writes| - 1;
    if k < n {
      InFlightChanged(writes[..n], k, rows, id);
      assert writes[k := rows][..n] == writes[..n][k := rows];
    } else {
      assert writes[k := rows][..n] == writes[..n];
    }
  }

  /** What arrives late was owed already. */
  lemma LateWriteOwesTheSame(s: State, k: nat, i: nat, id: string)
    requires AdriftCommitted(s) && Enabled(s, LateWrite(k, i))
    ensures Owed(Apply(s, LateWrite(k, i)), id) == Owed(s, id)
    ensures Copies(Apply(s, LateWrite(k, i)).kafka, id) >= Copies(s.kafka, id)
  {
    var rows := s.adrift[k];
    IdsWithout(rows, i);
    InFlightChanged(s.adrift, k, Dropped(rows, i), id);
    assert (s.kafka + [EntryOf(rows[i])])[..|s.kafka|] == s.kafka;
    assert rows[i].id in Ids(rows);
  }

  lemma LateWriteKeepsCounts(s: State, k: nat, i: nat)
    requires AdriftCommitted(s) && NothingLost(s) && CopiesBounded(s) && Enabled(s, LateWrite(k, i))
    ensures NothingLost(Apply(s, LateWrite(k, i))) && CopiesBounded(Apply(s, LateWrite(k, i)))
  {
    var s' := Apply(s, LateWrite(k, i));
    forall id ensures Owed(s', id) == Owed(s, id) && Copies(s'.kafka, id) >= Copies(s.kafka, id) {
      LateWriteOwesTheSame(s, k, i, id);
    }
    assert forall id :: Attempting(s, id) ==> Attempting(s', id);
  }

  lemma LateWriteKeepsCommitted(s: State, k: nat, i: nat)
    requires OnlyCommitted(s) && AdriftCommitted(s) && Enabled(s, LateWrite(k, i))
    ensures OnlyCommitted(Apply(s, LateWrite(k, i))) && AdriftCommitted(Apply(s, LateWrite(k, i)))
  {
    var s', rows := Apply(s, LateWrite(k, i)), s.adrift[k];
    IdsWithout(rows, i);
    assert rows[i] in rows && AllCommitted(s, rows);
    assert forall j :: 0 <= j < |s'.kafka| ==> s'.kafka[j] == if j < |s.kafka| then s.kafka[j] else EntryOf(rows[i]);
    assert AllCommitted(s', Dropped(rows, i));
    forall j | 0 <= j < |s'.adrift| ensures DistinctIds(s'.adrift[j]) && AllCommitted(s', s'.adrift[j]) {
      assert j != k ==> s'.adrift[j] == s.adrift[j] && AllCommitted(s, s.adrift[j]);
    }
  }

  lemma LateWriteKeepsInv(s: State, k: nat, i: nat)
    requires Inv(s) && Enabled(s, LateWrite(k, i))
    ensures Inv(Apply(s, LateWrite(k, i)))
  {
    LateWriteKeepsCommitted(s, k, i);
    LateWriteKeepsCounts(s, k, i);
  }

  lemma FetchKeepsLocks(s: State, r: nat, rows: seq<Row>)
    requires LocksHold(s) && r !in s.relays && DistinctIds(rows) && forall row :: row in rows ==> Eligible(s, row)
    ensures LocksHold(s.(relays := s.relays[r := Batch(rows, false, false, false)]))
  {
    forall q, id | q in s.relays && id in Ids(s.relays[q].rows)
      ensures id !in Ids(rows)
    {
      assert Locked(s, id);
    }
  }

  /** Steps that only add a fresh batch or mark one deleted do not disturb the counts. */
  lemma SameAttemptsKeepCounts(s: State, s': State)
    requires NothingLost(s) && CopiesBounded(s)
    requires s' == s.(relays := s'.relays)
    requires forall q :: q in s.relays ==> q in s'.relays && s'.relays[q].rows == s.relays[q].rows
                                           && s'.relays[q].attempted == s.relays[q].attempted
    requires forall q :: q in s'.relays && s'.relays[q].published ==> q in s.relays && s.relays[q].published
    ensures NothingLost(s') && CopiesBounded(s')
  {
    forall id | Attempting(s, id) ensures Attempting(s', id) {
      var q :| q in s.relays && s.relays[q].attempted && id in Ids(s.relays[q].rows);
      assert q in s'.relays && s'.relays[q].attempted;
    }
  }

  lemma BatchIsEligible(s: State, limit: nat, rows: seq<Row>)
    requires IsBatch(s, limit, rows)
    ensures DistinctIds(rows) && forall row :: row in rows ==> Eligible(s, row)
  {
  }

  lemma FetchKeepsInv(s: State, r: nat, limit: nat, rows: seq<Row>)
    requires Inv(s) && Enabled(s, Fetch(r, limit, rows))
    ensures Inv(Apply(s, Fetch(r, limit, rows)))
  {
    var s' := Apply(s, Fetch(r, limit, rows));
    BatchIsEligible(s, limit, rows);
    FetchKeepsLocks(s, r, rows);
    SameAttemptsKeepCounts(s, s');
    SameRecords(s, s');
    AdriftStaysCommitted(s, s');
  }

  lemma DeleteRowsKeepsLocks(s: State, r: nat)
    requires LocksHold(s) && Enabled(s, DeleteRows(r))
    ensures LocksHold(Apply(s, DeleteRows(r)))
  {
    var s' := Apply(s, DeleteRows(r));
    assert forall q :: q in s'.relays ==> q in s.relays && s'.relays[q].rows == s.relays[q].rows;
  }

  lemma DeleteRowsKeepsInv(s: State, r: nat)
    requires Inv(s) && Enabled(s, DeleteRows(r))
    ensures Inv(Apply(s, DeleteRows(r)))
  {
    DeleteRowsKeepsLocks(s, r);
    SameAttemptsKeepCounts(s, Apply(s, DeleteRows(r)));
  }

  /** Steps that concern open business transactions only. */
  lemma TxStepKeepsInv(s: State, a: Action)
    requires Inv(s) && Enabled(s, a) && (a.Begin? || a.InsertRow? || a.UndoRows? || a.AbortTx?)
    ensures Inv(Apply(s, a))
  {
    var s' := Apply(s, a);
    SameRelaysKeepInv(s, s');
    match a
    case Begin(t) =>
    case InsertRow(t, row) => InsertRowKeepsIsolated(s, t, row);
    case UndoRows(t, keep) => UndoRowsKeepsIsolated(s, t, keep);
    case AbortTx(t) =>
  }

  lemma SameRelaysKeepInv(s: State, s': State)
    requires LocksHold(s) && OnlyCommitted(s) && AdriftCommitted(s) && NothingLost(s) && CopiesBounded(s)
    requires s' == s.(txs := s'.txs, discarded := s'.discarded)
    ensures LocksHold(s') && OnlyCommitted(s') && AdriftCommitted(s') && NothingLost(s') && CopiesBounded(s')
  {
    assert forall id :: Attempting(s, id) ==> Attempting(s', id);
  }

  lemma InsertRowKeepsIsolated(s: State, t: nat, row: Row)
    requires Isolated(s) && t in s.txs && FreshId(s, row.id)
    ensures Isolated(Apply(s, InsertRow(t, row)))
  {
    var rows := s.txs[t];
    assert Ids(rows + [row]) == Ids(rows) + {row.id};
    assert forall i :: 0 <= i < |rows| ==> rows[i].id in Ids(rows);
    assert DistinctIds(rows + [row]);
  }

  lemma UndoRowsKeepsIsolated(s: State, t: nat, keep: nat)
    requires Isolated(s) && t in s.txs && keep <= |s.txs[t]|
    ensures Isolated(Apply(s, UndoRows(t, keep)))
  {
    var rows := s.txs[t];
    SplitIds(rows, keep);
    assert DistinctIds(rows[..keep]);
  }

  lemma SplitIds(rows: seq<Row>, keep: nat)
    requires keep <= |rows| && DistinctIds(rows)
    ensures Ids(rows[..keep]) + Ids(rows[keep..]) == Ids(rows) && Ids(rows[..keep]) !! Ids(rows[keep..])
  {
    assert rows[..keep] + rows[keep..] == rows;
    forall i, j | 0 <= i < keep && 0 <= j < |rows| - keep ensures rows[..keep][i].id != rows[keep..][j].id {
      assert rows[i].id != rows[keep + j].id;
    }
  }

  lemma StepKeepsInv(s: State, a: Action)
    requires Inv(s) && Enabled(s, a)
    ensures Inv(Apply(s, a))
  {
    match a
    case CommitTx(t) => CommitTxKeepsInv(s, t);
    case Fetch(r, limit, rows) => FetchKeepsInv(s, r, limit, rows);
    case WriteAll(r) =>
      AllWritable(s, r);
      WriteKeepsInv(s, r, Entries(s.relays[r].rows), true);
    case WriteSome(r, part) =>
      SomeWritable(s, r, part);
      WriteKeepsInv(s, r, Picked(s.relays[r].rows, part), false);
    case DeleteRows(r) => DeleteRowsKeepsInv(s, r);
    case CommitRelay(r) => CommitRelayKeepsInv(s, r);
    case AbortRelay(r) => AbortRelayKeepsInv(s, r);
    case CutOff(r) => CutOffKeepsInv(s, r);
    case LateWrite(k, i) => LateWriteKeepsInv(s, k, i);
    case _ => TxStepKeepsInv(s, a);
  }

  lemma AllWritable(s: State, r: nat)
    requires LocksHold(s) && r in s.relays && !s.relays[r].attempted
    ensures Writable(s, r, Entries(s.relays[r].rows), true)
    ensures !s.relays[r].published && AfterWrite(s, r, Entries(s.relays[r].rows), true) == Apply(s, WriteAll(r))
  {
    var rows := s.relays[r].rows;
    var es := Entries(rows);
    assert forall i :: 0 <= i < |es| ==> rows[i] in rows && es[i] == EntryOf(rows[i]);
    forall id | id in Ids(rows) ensures exists i :: 0 <= i < |es| && es[i].id == id {
      var i :| 0 <= i < |rows| && rows[i].id == id;
      assert es[i].id == id;
    }
  }

  lemma SomeWritable(s: State, r: nat, part: seq<nat>)
    requires LocksHold(s) && Enabled(s, WriteSome(r, part))
    ensures Writable(s, r, Picked(s.relays[r].rows, part), false)
    ensures AfterWrite(s, r, Picked(s.relays[r].rows, part), false) == Apply(s, WriteSome(r, part))
  {
    var rows := s.relays[r].rows;
    var es := Picked(rows, part);
    assert forall k :: 0 <= k < |es| ==> rows[part[k]] in rows && es[k] == EntryOf(rows[part[k]]);
    forall i, j | 0 <= i < j < |part| ensures es[i].id != es[j].id {
      assert part[i] < part[j] || part[j] < part[i];
    }
  }

  lemma {:induction false} PlayKeepsInv(s: State, trace: seq<Action>)
    requires Inv(s)
    ensures Inv(Play(s, trace))
    decreases |trace|
  {
    if trace != [] {
      var before := Play(s, trace[..|trace| - 1]);
      PlayKeepsInv(s, trace[..|trace| - 1]);
      if Enabled(before, trace[|trace| - 1]) {
        StepKeepsInv(before, trace[|trace| - 1]);
      }
    }
  }

  // ---------------------------------------------------------------- safety of every run

  /**
   At-least-once and only-committed, in every state any run reaches: a committed row is in the table or
   in Kafka; a Kafka record carries the message of a committed row, hence of no transaction that rolled
   back or is still open.
   */
  lemma OutboxSafety(trace: seq<Action>)
    ensures var s := Play(INIT, trace);
      && (forall id :: id in s.committed ==> id in s.table || Copies(s.kafka, id) >= 1)
      && (forall e :: e in s.kafka ==> e.id in s.committed && e.message == MessageOf(s.committed[e.id]))
      && (forall e :: e in s.kafka ==> e.id !in s.discarded)
      && (forall e, t :: e in s.kafka && t in s.txs ==> e.id !in Ids(s.txs[t]))
  {
    PlayKeepsInv(INIT, trace);
  }

  /**
   No two relays ever hold the same row, and duplicates are bounded by the rollbacks of the row's batches. Records
   that arrive after their relay's session was cut off are among the counted ones: the rollback of that session
   pays for them, so they need no allowance of their own.
   */
  lemma DuplicatesAreRollbacks(trace: seq<Action>)
    ensures var s := Play(INIT, trace);
      && (forall r, q :: r in s.relays && q in s.relays && r != q ==> Ids(s.relays[r].rows) !! Ids(s.relays[q].rows))
      && (forall id :: Copies(s.kafka, id) + InFlight(s.adrift, id) <= Rollbacks(s.rolledBack, id) + 1)
  {
    PlayKeepsInv(INIT, trace);
  }

  /**
   What is on the log, in every state any run reaches: each record carries the payload, the entity and the time of
   its row, on the row's topic or, if that is empty, on the one named like the entity's type. So no record has an
   empty topic unless its row has neither.
   */
  lemma RecordsAreTheirRows(trace: seq<Action>)
    ensures var s := Play(INIT, trace);
      forall e :: e in s.kafka ==>
        && e.id in s.committed && s.committed[e.id].id == e.id
        && e.message.value == s.committed[e.id].payload
        && e.message.key == s.committed[e.id].entityId
        && e.message.time == s.committed[e.id].createdAt
        && (s.committed[e.id].topic != "" ==> e.message.topic == s.committed[e.id].topic)
        && (s.committed[e.id].topic == "" ==> e.message.topic == s.committed[e.id].entityType)
        && (s.committed[e.id].entityType != "" ==> e.message.topic != "")
  {
    PlayKeepsInv(INIT, trace);
  }

  /** Only rows that wait to be sent are ever worked on or written. */
  ghost predicate PendingWork(s: State) {
    && (forall r, row :: r in s.relays && row in s.relays[r].rows ==> row.status == "PENDING")
    && (forall k, row :: 0 <= k < |s.adrift| && row in s.adrift[k] ==> row.status == "PENDING")
    && (forall e :: e in s.kafka && e.id in s.committed ==> s.committed[e.id].status == "PENDING")
  }

  lemma WriteKeepsPendingWork(s: State, s': State, es: seq<Entry>)
    requires PendingWork(s) && s'.kafka == s.kafka + es && s'.committed == s.committed
    requires forall r :: r in s'.relays ==> r in s.relays && s'.relays[r].rows == s.relays[r].rows
    requires |s'.adrift| == |s.adrift|
    requires forall k, row :: 0 <= k < |s'.adrift| && row in s'.adrift[k] ==> row in s.adrift[k]
    requires forall e :: e in es ==> e.id in s.committed && s.committed[e.id].status == "PENDING"
    ensures PendingWork(s')
  {
  }

  /** What a relay holds is committed as it holds it. */
  lemma HeldIsCommitted(s: State, r: nat, id: string)
    requires LocksHold(s) && OnlyCommitted(s) && PendingWork(s) && r in s.relays && id in Ids(s.relays[r].rows)
    ensures id in s.committed && s.committed[id].status == "PENDING"
  {
    var row :| row in s.relays[r].rows && row.id == id;
    assert s.table[row.id] == row;
  }

  lemma RelayWriteKeepsPendingWork(s: State, r: nat, es: seq<Entry>, published: bool)
    requires LocksHold(s) && OnlyCommitted(s) && PendingWork(s) && r in s.relays && Writable(s, r, es, published)
    ensures PendingWork(AfterWrite(s, r, es, published))
  {
    forall e | e in es ensures e.id in s.committed && s.committed[e.id].status == "PENDING" {
      HeldIsCommitted(s, r, e.id);
    }
    WriteKeepsPendingWork(s, AfterWrite(s, r, es, published), es);
  }

  lemma LateWriteKeepsPendingWork(s: State, k: nat, i: nat)
    requires AdriftCommitted(s) && PendingWork(s) && Enabled(s, LateWrite(k, i))
    ensures PendingWork(Apply(s, LateWrite(k, i)))
  {
    var s' := Apply(s, LateWrite(k, i));
    IdsWithout(s.adrift[k], i);
    assert s.adrift[k][i] in s.adrift[k] && AllCommitted(s, s.adrift[k]);
    WriteKeepsPendingWork(s, s', [EntryOf(s.adrift[k][i])]);
  }

  lemma CommitKeepsPendingWork(s: State, s': State)
    requires OnlyCommitted(s) && PendingWork(s)
    requires s'.relays == s.relays && s'.adrift == s.adrift && s'.kafka == s.kafka
    requires forall id :: id in s.committed ==> id in s'.committed && s'.committed[id] == s.committed[id]
    ensures PendingWork(s')
  {
    forall e | e in s'.kafka ensures e.id in s.committed {
      var k :| 0 <= k < |s.kafka| && s.kafka[k] == e;
    }
  }

  lemma StepKeepsPendingWork(s: State, a: Action)
    requires Inv(s) && PendingWork(s) && Enabled(s, a)
    ensures PendingWork(Apply(s, a))
  {
    match a
    case CommitTx(t) =>
      StepGrows(s, a);
      CommitKeepsPendingWork(s, Apply(s, a));
    case Fetch(r, limit, rows) => BatchIsEligible(s, limit, rows);
    case WriteAll(r) =>
      AllWritable(s, r);
      RelayWriteKeepsPendingWork(s, r, Entries(s.relays[r].rows), true);
    case WriteSome(r, part) =>
      SomeWritable(s, r, part);
      RelayWriteKeepsPendingWork(s, r, Picked(s.relays[r].rows, part), false);
    case LateWrite(k, i) => LateWriteKeepsPendingWork(s, k, i);
    case _ =>
  }

  /** No row is sent unless it was committed with the status that asks for it. */
  lemma {:induction false} OnlyPendingIsSent(trace: seq<Action>)
    ensures PendingWork(Play(INIT, trace))
    decreases |trace|
  {
    if trace != [] {
      var before := Play(INIT, trace[..|trace| - 1]);
      OnlyPendingIsSent(trace[..|trace| - 1]);
      PlayKeepsInv(INIT, trace[..|trace| - 1]);
      if Enabled(before, trace[|trace| - 1]) {
        StepKeepsPendingWork(before, trace[|trace| - 1]);
      }
    }
  }

  /** Commits are permanent: rows and records are never taken back, so the guarantees above outlive any future. */
  lemma {:induction false} HistoryGrows(s: State, trace: seq<Action>)
    requires Inv(s)
    ensures var s' := Play(s, trace);
      && s.kafka <= s'.kafka
      && (forall id :: id in s.committed ==> id in s'.committed && s'.committed[id] == s.committed[id])
    decreases |trace|
  {
    if trace != [] {
      var before := Play(s, trace[..|trace| - 1]);
      HistoryGrows(s, trace[..|trace| - 1]);
      PlayKeepsInv(s, trace[..|trace| - 1]);
      if Enabled(before, trace[|trace| - 1]) {
        StepGrows(before, trace[|trace| - 1]);
      }
    }
  }

  lemma StepGrows(s: State, a: Action)
    requires Isolated(s) && Enabled(s, a)
    ensures s.kafka <= Apply(s, a).kafka
    ensures forall id :: id in s.committed ==>
        id in Apply(s, a).committed && Apply(s, a).committed[id] == s.committed[id]
  {
    if a.CommitTx? {
      RowMapIs(s.txs[a.tx]);
    }
  }

  /** Once committed, a row is in the table or its message is in Kafka, in every future of every run. */
  lemma CommittedForever(s: State, row: Row, trace: seq<Action>)
    requires Inv(s) && row.id in s.committed && s.committed[row.id] == row
    ensures var s' := Play(s, trace);
      (row.id in s'.table && s'.table[row.id] == row) || EntryOf(row) in s'.kafka
  {
    var s' := Play(s, trace);
    HistoryGrows(s, trace);
    PlayKeepsInv(s, trace);
    if row.id !in s'.table {
      var k := SomeCopy(s'.kafka, row.id);
    }
  }

  lemma CommitTxCommits(s: State, t: nat, row: Row)
    requires Inv(s) && t in s.txs && row in s.txs[t]
    ensures var s' := Step(s, CommitTx(t)); Inv(s') && row.id in s'.committed && s'.committed[row.id] == row
  {
    RowMapIs(s.txs[t]);
    StepKeepsInv(s, CommitTx(t));
  }

  // ---------------------------------------------------------------- draining

  /** The answer of FetchPendingBatch over the rows `ids` of the table: repeatedly the oldest one. */
  lemma BatchExists(s: State, ids: set<string>, limit: nat) returns (rows: seq<Row>)
    requires OnlyCommitted(s) && ids <= s.table.Keys
    requires forall id :: id in ids ==> Eligible(s, s.table[id])
    ensures |rows| <= limit && DistinctIds(rows)
    ensures forall row :: row in rows ==> row.id in ids && s.table[row.id] == row
    ensures forall i, j :: 0 <= i < j < |rows| ==> rows[i].createdAt <= rows[j].createdAt
    ensures forall id :: id in ids && s.table[id] !in rows ==>
              |rows| == limit && forall i :: 0 <= i < |rows| ==> rows[i].createdAt <= s.table[id].createdAt
    decreases limit
  {
    if limit == 0 || ids == {} {
      rows := [];
    } else {
      var oldest := OldestOf(s, ids);
      var rest := BatchExists(s, ids - {oldest}, limit - 1);
      rows := [s.table[oldest]] + rest;
      assert forall i :: 0 <= i < |rest| ==> rest[i] in rest;
      forall id | id in ids && s.table[id] !in rows
        ensures |rows| == limit && forall i :: 0 <= i < |rows| ==> rows[i].createdAt <= s.table[id].createdAt
      {
        assert rows[0] in rows;
        assert id in ids - {oldest};
        assert s.table[id] !in rest;
      }
    }
  }

  lemma OldestOf(s: State, ids: set<string>) returns (oldest: string)
    requires ids != {} && ids <= s.table.Keys
    ensures oldest in ids
    ensures forall id :: id in ids ==> s.table[oldest].createdAt <= s.table[id].createdAt
    decreases |ids|
  {
    oldest :| oldest in ids;
    if ids != {oldest} {
      assert ids == (ids - {oldest}) + {oldest};
      var other := OldestOf(s, ids - {oldest});
      if s.table[other].createdAt < s.table[oldest].createdAt {
        oldest := other;
      }
    }
  }

  /** One undisturbed `ProcessBatch`; an empty batch is not written. */
  function CleanBatch(r: nat, limit: nat, rows: seq<Row>): (trace: seq<Action>) {
    if rows == [] then [Fetch(r, limit, rows), CommitRelay(r)]
    else [Fetch(r, limit, rows), WriteAll(r), DeleteRows(r), CommitRelay(r)]
  }

  lemma {:induction false} PlayAppend(s: State, a: seq<Action>, b: seq<Action>)
    ensures Play(s, a + b) == Play(Play(s, a), b)
    decreases |b|
  {
    if b == [] {
      assert a + b == a;
    } else {
      assert (a + b)[..|a + b| - 1] == a + b[..|b| - 1];
      PlayAppend(s, a, b[..|b| - 1]);
    }
  }

  lemma PlayOne(s: State, trace: seq<Action>, a: Action)
    ensures Play(s, trace + [a]) == Step(Play(s, trace), a)
  {
    assert (trace + [a])[..|trace|] == trace;
  }

  lemma PlayFirst(s: State, a: Action, rest: seq<Action>)
    ensures Play(s, [a] + rest) == Play(Step(s, a), rest)
  {
    PlayAppend(s, [a], rest);
    assert [a][..0] == [];
  }

  lemma CleanBatchRemoves(s: State, r: nat, limit: nat, rows: seq<Row>)
    requires s.relays == map[] && IsBatch(s, limit, rows)
    ensures var s' := Play(s, CleanBatch(r, limit, rows));
      s'.relays == map[] && s'.table == s.table - Ids(rows) && s'.committed == s.committed
  {
    var fetched := s.(relays := map[r := Batch(rows, false, false, false)]);
    assert Step(s, Fetch(r, limit, rows)) == fetched;
    var rest := CleanBatch(r, limit, rows)[1..];
    assert CleanBatch(r, limit, rows) == [Fetch(r, limit, rows)] + rest;
    PlayFirst(s, Fetch(r, limit, rows), rest);
    if rows == [] {
      PlayFirst(fetched, CommitRelay(r), []);
      assert rest == [CommitRelay(r)] + [];
      AfterDelete(fetched, r);
    } else {
      assert rest == [WriteAll(r), DeleteRows(r), CommitRelay(r)];
      AfterFetch(fetched, r, rows);
    }
  }

  lemma AfterFetch(s: State, r: nat, rows: seq<Row>)
    requires s.relays == map[r := Batch(rows, false, false, false)]
    ensures var s' := Play(s, [WriteAll(r), DeleteRows(r), CommitRelay(r)]);
      s'.relays == map[] && s'.table == s.table - Ids(rows) && s'.committed == s.committed
  {
    var written := s.(relays := map[r := Batch(rows, true, true, false)], kafka := s.kafka + Entries(rows));
    var deleted := written.(relays := map[r := Batch(rows, true, true, true)]);
    assert Apply(s, WriteAll(r)) == written;
    AfterWritten(written, r, rows);
    PlayThree(s, WriteAll(r), DeleteRows(r), CommitRelay(r));
    AfterDelete(deleted, r);
  }

  lemma AfterWritten(s: State, r: nat, rows: seq<Row>)
    requires s.relays == map[r := Batch(rows, true, true, false)]
    ensures Step(s, DeleteRows(r)) == s.(relays := map[r := Batch(rows, true, true, true)])
  {
  }

  lemma PlayThree(s: State, a: Action, b: Action, c: Action)
    ensures Play(s, [a, b, c]) == Step(Step(Step(s, a), b), c)
  {
    assert [a, b, c] == [a] + ([b] + ([c] + []));
    PlayFirst(s, a, [b] + ([c] + []));
    PlayFirst(Step(s, a), b, [c] + []);
    PlayFirst(Step(Step(s, a), b), c, []);
  }

  lemma AfterDelete(s: State, r: nat)
    requires s.relays.Keys == {r} && (s.relays[r].rows == [] || s.relays[r].deleted)
    ensures var s' := Step(s, CommitRelay(r));
      s'.relays == map[] && s'.table == s.table - Ids(s.relays[r].rows) && s'.committed == s.committed
  {
  }

  /** One undisturbed poll: who polled, with which limit, and what the SELECT answered. */
  datatype Poll = Poll(relay: nat, limit: nat, rows: seq<Row>)

  function Batches(polls: seq<Poll>): (trace: seq<Action>) {
    if polls == [] then [] else CleanBatch(polls[0].relay, polls[0].limit, polls[0].rows) + Batches(polls[1..])
  }

  /** Every SELECT answers as the database may, one poll after the other. */
  ghost predicate Legal(s: State, polls: seq<Poll>)
    decreases |polls|
  {
    polls == [] ||
    (IsBatch(s, polls[0].limit, polls[0].rows) && Legal(Play(s, Batches(polls[..1])), polls[1..]))
  }

  function Limits(polls: seq<Poll>): (n: nat) {
    if polls == [] then 0 else polls[0].limit + Limits(polls[1..])
  }

  /** No relay holds a lock and every row waits to be sent. */
  ghost predicate Quiet(s: State) {
    s.relays == map[] && forall id :: id in s.table ==> s.table[id].status == PENDING
  }

  /**
   Progress, whatever happened before: once no relay holds locks, polls of any relays with any limits and any
   answers SELECT may give take as many rows out of the table as their limits add up to, until it is empty.
   */
  lemma {:induction false} PollingRemoves(s: State, polls: seq<Poll>)
    requires Inv(s) && Quiet(s) && Legal(s, polls)
    ensures var s' := Play(s, Batches(polls));
      && Inv(s') && Quiet(s') && s'.committed == s.committed
      && |s'.table| == (if |s.table| <= Limits(polls) then 0 else |s.table| - Limits(polls))
    decreases |polls|
  {
    if polls != [] {
      var first, rest := polls[0], polls[1..];
      var batch := CleanBatch(first.relay, first.limit, first.rows);
      assert polls[..1] == [first];
      PollOnce(s, first);
      PollingRemoves(Play(s, batch), rest);
      PlayAppend(s, batch, Batches(rest));
    }
  }

  lemma PollOnce(s: State, poll: Poll)
    requires Inv(s) && Quiet(s) && IsBatch(s, poll.limit, poll.rows)
    ensures Batches([poll]) == CleanBatch(poll.relay, poll.limit, poll.rows)
    ensures var s' := Play(s, Batches([poll]));
      && Inv(s') && Quiet(s') && s'.committed == s.committed
      && |s'.table| == (if |s.table| <= poll.limit then 0 else |s.table| - poll.limit)
  {
    var batch := CleanBatch(poll.relay, poll.limit, poll.rows);
    assert Batches([poll][1..]) == [];
    assert batch + [] == batch;
    CleanBatchRemoves(s, poll.relay, poll.limit, poll.rows);
    PlayKeepsInv(s, batch);
    BatchSize(s, poll.limit, poll.rows);
    SizeWithout(s.table, Ids(poll.rows));
  }

  /** In a quiet state a batch is as large as its limit and the table allow. */
  lemma BatchSize(s: State, limit: nat, rows: seq<Row>)
    requires OnlyCommitted(s) && Quiet(s) && IsBatch(s, limit, rows)
    ensures Ids(rows) <= s.table.Keys && |Ids(rows)| == |rows| <= limit
    ensures |rows| < limit ==> Ids(rows) == s.table.Keys
  {
    IdsOfDistinct(rows);
    forall id | id in Ids(rows) ensures id in s.table {
      var i :| 0 <= i < |rows| && rows[i].id == id;
      assert Eligible(s, rows[i]);
    }
    if |rows| < limit {
      forall id | id in s.table ensures id in Ids(rows) {
        assert Eligible(s, s.table[id]);
      }
    }
  }

  lemma {:induction false} IdsOfDistinct(rows: seq<Row>)
    requires DistinctIds(rows)
    ensures |Ids(rows)| == |rows|
    decreases |rows|
  {
    if rows != [] {
      var init, last := rows[..|rows| - 1], rows[|rows| - 1];
      IdsOfDistinct(init);
      assert rows == init + [last];
      assert Ids(rows) == Ids(init) + {last.id};
      assert last.id !in Ids(init);
    }
  }

  lemma SizeWithout(m: map<string, Row>, ids: set<string>)
    requires ids <= m.Keys
    ensures |m - ids| == |m| - |ids|
  {
    assert (m - ids).Keys == m.Keys - ids;
    assert |m.Keys| == |m| && |(m - ids).Keys| == |m - ids|;
    assert m.Keys == (m.Keys - ids) + ids;
  }

  /** Such polls empty the table exactly if their limits cover it, and then every committed row is in Kafka. */
  lemma PollingDrainsIff(s: State, polls: seq<Poll>)
    requires Inv(s) && Quiet(s) && Legal(s, polls)
    ensures var s' := Play(s, Batches(polls));
      && (s'.table == map[] <==> Limits(polls) >= |s.table|)
      && (s'.table == map[] ==> forall id :: id in s.committed ==> Copies(s'.kafka, id) >= 1)
  {
    PollingRemoves(s, polls);
  }

  /** There is always something the SELECT may answer. */
  lemma NextPoll(s: State, limit: nat) returns (rows: seq<Row>)
    requires Inv(s) && Quiet(s)
    ensures IsBatch(s, limit, rows)
  {
    rows := BatchExists(s, s.table.Keys, limit);
    assert forall i :: 0 <= i < |rows| ==> rows[i] in rows;
  }

  /** So no relay gets stuck: whoever polls, and with whatever limits, there are legal answers to all of it. */
  lemma {:induction false} LegalPollsExist(s: State, asked: seq<(nat, nat)>) returns (polls: seq<Poll>)
    requires Inv(s) && Quiet(s)
    ensures Legal(s, polls) && |polls| == |asked|
    ensures forall i :: 0 <= i < |asked| ==> polls[i].relay == asked[i].0 && polls[i].limit == asked[i].1
    decreases |asked|
  {
    polls := [];
    if asked != [] {
      var first, s' := PollNext(s, asked[0].0, asked[0].1);
      var rest := LegalPollsExist(s', asked[1..]);
      polls := [first] + rest;
      LegalFirst(s, first, rest);
      assert forall i :: 0 < i < |polls| ==> polls[i] == rest[i - 1] && asked[i] == asked[1..][i - 1];
    }
  }

  lemma PollNext(s: State, relay: nat, limit: nat) returns (poll: Poll, s': State)
    requires Inv(s) && Quiet(s)
    ensures poll.relay == relay && poll.limit == limit && IsBatch(s, limit, poll.rows)
    ensures s' == Play(s, Batches([poll])) && Inv(s') && Quiet(s')
  {
    var rows := NextPoll(s, limit);
    poll := Poll(relay, limit, rows);
    PollOnce(s, poll);
    s' := Play(s, Batches([poll]));
  }

  lemma LegalFirst(s: State, first: Poll, rest: seq<Poll>)
    requires IsBatch(s, first.limit, first.rows) && Legal(Play(s, Batches([first])), rest)
    ensures Legal(s, [first] + rest)
  {
    assert ([first] + rest)[..1] == [first] && ([first] + rest)[1..] == rest;
  }

  // ---------------------------------------------------------------- ProcessBatch

  predicate OfRelay(a: Action, r: nat) {
    && (a.Fetch? || a.WriteAll? || a.WriteSome? || a.DeleteRows? || a.CommitRelay? || a.AbortRelay? || a.CutOff?)
    && a.relay == r
  }

  /** Other processes can neither touch a relay's open transaction nor open one in its name. */
  lemma {:induction false} OthersKeepBatch(s: State, trace: seq<Action>, r: nat)
    requires forall a :: a in trace ==> !OfRelay(a, r)
    ensures r in Play(s, trace).relays <==> r in s.relays
    ensures r in s.relays ==> Play(s, trace).relays[r] == s.relays[r]
    decreases |trace|
  {
    if trace != [] {
      assert trace[|trace| - 1] in trace;
      OthersKeepBatch(s, trace[..|trace| - 1], r);
      OtherKeepsBatch(Play(s, trace[..|trace| - 1]), trace[|trace| - 1], r);
    }
  }

  lemma OtherKeepsBatch(s: State, a: Action, r: nat)
    requires !OfRelay(a, r)
    ensures r in Step(s, a).relays <==> r in s.relays
    ensures r in s.relays ==> Step(s, a).relays[r] == s.relays[r]
  {
  }

  /**
   What the network did to `WriteMessages`: all written, an error after an arbitrary part, or the database
   session was gone before it ended, so that its records may still arrive.
   */
  datatype WriteOutcome = AllWritten | Failed(part: seq<nat>) | SessionLost

  /** The database and Kafka, shared by all processes, in the state its history of actions led to. */
  class World {
    ghost var history: seq<Action>
    ghost var state: State

    ghost predicate Valid()
      reads this
    {
      state == Play(INIT, history)
    }

    constructor ()
      ensures Valid() && history == []
    {
      history, state := [], INIT;
    }

    /** The other processes act, then relay `r` takes its own step `a`. */
    ghost method Advance(others: seq<Action>, a: Action, r: nat)
      requires Valid() && (forall o :: o in others ==> !OfRelay(o, r)) && Enabled(Play(state, others), a)
      modifies this
      ensures Valid() && history == old(history) + (others + [a])
      ensures Inv(Play(old(state), others)) && state == Apply(Play(old(state), others), a)
    {
      PlayKeepsInv(INIT, history);
      PlayKeepsInv(state, others);
      PlayAppend(INIT, history, others + [a]);
      PlayAppend(state, others, [a]);
      assert [a][..0] == [];
      state, history := Play(state, others + [a]), history + (others + [a]);
    }

    ghost method Select(others: seq<Action>, r: nat, limit: nat, rows: seq<Row>)
      requires Valid() && (forall o :: o in others ==> !OfRelay(o, r)) && r !in state.relays
      requires IsBatch(Play(state, others), limit, rows)
      modifies this
      ensures Valid() && history == old(history) + (others + [Fetch(r, limit, rows)])
      ensures r in state.relays && state.relays[r] == Batch(rows, false, false, false)
    {
      OthersKeepBatch(state, others, r);
      Advance(others, Fetch(r, limit, rows), r);
    }

    ghost method Write(others: seq<Action>, r: nat, messages: seq<Message>, ids: seq<string>, outcome: WriteOutcome)
      requires Valid() && (forall o :: o in others ==> !OfRelay(o, r)) && r in state.relays
      requires !state.relays[r].attempted
      requires MadeFrom(state.relays[r].rows, messages, ids) && PartOf(outcome, state.relays[r].rows)
      requires !outcome.SessionLost?
      modifies this
      ensures Valid() && history == old(history) + (others + [WriteAction(r, outcome)])
      ensures r in state.relays
      ensures state.relays[r] == old(state).relays[r].(attempted := true, published := outcome.AllWritten?)
    {
      PlayKeepsInv(INIT, history);
      OthersKeepBatch(state, others, r);
      Advance(others, WriteAction(r, outcome), r);
    }

    /** The session of `r` ends while its write is in flight. */
    ghost method Cut(others: seq<Action>, r: nat)
      requires Valid() && (forall o :: o in others ==> !OfRelay(o, r)) && r in state.relays
      requires !state.relays[r].attempted
      modifies this
      ensures Valid() && history == old(history) + (others + [CutOff(r)]) && r !in state.relays
      ensures old(state).relays[r].rows in state.adrift
      ensures forall row :: row in old(state).relays[r].rows ==> row.id in state.table && state.table[row.id] == row
    {
      OthersKeepBatch(state, others, r);
      Advance(others, CutOff(r), r);
      assert state.adrift[|state.adrift| - 1] == old(state).relays[r].rows;
    }

    ghost method Delete(others: seq<Action>, r: nat, ids: seq<string>)
      requires Valid() && (forall o :: o in others ==> !OfRelay(o, r))
      requires r in state.relays && state.relays[r].published && !state.relays[r].deleted
      requires |ids| == |state.relays[r].rows| && forall i :: 0 <= i < |ids| ==> ids[i] == state.relays[r].rows[i].id
      modifies this
      ensures Valid() && history == old(history) + (others + [DeleteRows(r)])
      ensures r in state.relays && state.relays[r] == old(state).relays[r].(deleted := true)
    {
      OthersKeepBatch(state, others, r);
      Advance(others, DeleteRows(r), r);
    }

    ghost method Commit(others: seq<Action>, r: nat)
      requires Valid() && (forall o :: o in others ==> !OfRelay(o, r))
      requires r in state.relays && (state.relays[r].rows == [] || state.relays[r].deleted)
      modifies this
      ensures Valid() && history == old(history) + (others + [CommitRelay(r)]) && r !in state.relays
      ensures forall id :: id in Ids(old(state).relays[r].rows) ==> id !in state.table && Copies(state.kafka, id) >= 1
    {
      OthersKeepBatch(state, others, r);
      Advance(others, CommitRelay(r), r);
    }

    ghost method Rollback(others: seq<Action>, r: nat)
      requires Valid() && (forall o :: o in others ==> !OfRelay(o, r)) && r in state.relays
      modifies this
      ensures Valid() && history == old(history) + (others + [AbortRelay(r)]) && r !in state.relays
      ensures forall row :: row in old(state).relays[r].rows ==> row.id in state.table && state.table[row.id] == row
    {
      OthersKeepBatch(state, others, r);
      Advance(others, AbortRelay(r), r);
    }
  }

  ghost predicate PartOf(outcome: WriteOutcome, rows: seq<Row>) {
    outcome.Failed? ==>
      && (forall k :: 0 <= k < |outcome.part| ==> outcome.part[k] < |rows|)
      && (forall k, l :: 0 <= k < l < |outcome.part| ==> outcome.part[k] != outcome.part[l])
  }

  function WriteAction(r: nat, outcome: WriteOutcome): (a: Action) {
    match outcome case AllWritten => WriteAll(r) case Failed(part) => WriteSome(r, part) case SessionLost => CutOff(r)
  }

  /** One message and one id to delete for each row of a batch, in batch order. */
  ghost predicate MadeFrom(rows: seq<Row>, messages: seq<Message>, ids: seq<string>) {
    |messages| == |ids| == |rows| && forall i :: 0 <= i < |rows| ==> Entries(rows)[i] == Entry(ids[i], messages[i])
  }

  method Prepare(rows: seq<Row>) returns (messages: seq<Message>, ids: seq<string>)
    ensures MadeFrom(rows, messages, ids)
    ensures |messages| == |ids| == |rows|
    ensures forall i :: 0 <= i < |rows| ==>
      && ids[i] == rows[i].id && messages[i].value == rows[i].payload
      && messages[i].key == rows[i].entityId && messages[i].time == rows[i].createdAt
      && messages[i].topic == if rows[i].topic == "" then rows[i].entityType else rows[i].topic
  {
    messages, ids := [], [];
    for i := 0 to |rows|
      invariant |messages| == |ids| == i
      invariant forall k :: 0 <= k < i ==> EntryOf(rows[k]) == Entry(ids[k], messages[k])
    {
      var topic := rows[i].topic;
      if topic == "" {
        topic := rows[i].entityType;
      }
      messages := messages + [Message(topic, rows[i].entityId, rows[i].payload, rows[i].createdAt)];
      ids := ids + [rows[i].id];
    }
  }

  /** The steps `ProcessBatch` takes itself, given the outcomes of its calls. */
  ghost function Script(r: nat, limit: nat, rows: seq<Row>, write: WriteOutcome, deleteOk: bool,
                        commit: Fault): (own: seq<Action>) {
    if rows == [] then [Fetch(r, limit, rows)] + [Settle(r, commit)]
    else [Fetch(r, limit, rows)] + Rest(r, write, deleteOk, commit)
  }

  ghost function Rest(r: nat, write: WriteOutcome, deleteOk: bool, commit: Fault): (own: seq<Action>) {
    if write.SessionLost? then [CutOff(r)]
    else if write.Failed? || !deleteOk then [WriteAction(r, write), AbortRelay(r)]
    else [WriteAction(r, write), DeleteRows(r), Settle(r, commit)]
  }

  /** History `h` after the steps `own`, each preceded by the next list of the others' actions. */
  ghost function Interleave(h: seq<Action>, others: seq<seq<Action>>, own: seq<Action>): (h': seq<Action>)
    requires |others| >= |own|
  {
    if own == [] then h
    else Interleave(h, others, own[..|own| - 1]) + (others[|own| - 1] + [own[|own| - 1]])
  }

  lemma InterleaveOne(h: seq<Action>, others: seq<seq<Action>>, own: seq<Action>, a: Action)
    requires |others| > |own|
    ensures Interleave(h, others, own + [a]) == Interleave(h, others, own) + (others[|own|] + [a])
  {
    assert (own + [a])[..|own|] == own;
  }

  /**
   `ProcessBatch` of relay `r`. `answer` is what the SELECT returned (None for an error), and the other
   arguments are the outcomes of the later calls; before each of its own steps the other processes perform
   the actions of the next list in `others`. Returns whether the Go function returned nil: then every row
   of the batch is in Kafka and gone from the table. On an error each row is still there when the transaction
   ends, unless the COMMIT went through and only its answer was lost.
   */
  method ProcessBatch(w: World, r: nat, limit: nat, answer: Option<seq<Row>>, write: WriteOutcome, deleteOk: bool,
                      commit: Fault, ghost others: seq<seq<Action>>)
    returns (ok: bool)
    requires w.Valid() && r !in w.state.relays
    requires |others| == 4 && forall k, a :: 0 <= k < 4 && a in others[k] ==> !OfRelay(a, r)
    requires answer.Some? ==> IsBatch(Play(w.state, others[0]), limit, answer.value) && PartOf(write, answer.value)
    modifies w
    ensures w.Valid() && r !in w.state.relays
    ensures ok <==> answer.Some? && commit.Delivered? && (answer.value == [] || (write.AllWritten? && deleteOk))
    ensures w.history == Interleave(old(w.history), others,
              if answer.None? then [] else Script(r, limit, answer.value, write, deleteOk, commit))
    ensures ok ==> forall id :: id in Ids(answer.value) ==> id !in w.state.table && Copies(w.state.kafka, id) >= 1
    ensures answer.Some? && !ok && !commit.Lost? ==>
      forall row :: row in answer.value ==> row.id in w.state.table && w.state.table[row.id] == row
  {
    if answer.None? {
      return false;
    }
    var rows := answer.value;
    ghost var h := w.history;
    InterleaveOne(h, others, [], Fetch(r, limit, rows));
    w.Select(others[0], r, limit, rows);
    if |rows| == 0 {
      ok := Finish(w, r, commit, h, [Fetch(r, limit, rows)], others);
      return;
    }
    ok := PublishAndDelete(w, r, rows, write, deleteOk, commit, h, [Fetch(r, limit, rows)], others);
  }

  /** The rest of `ProcessBatch`, for a batch that is not empty. */
  method PublishAndDelete(w: World, r: nat, rows: seq<Row>, write: WriteOutcome, deleteOk: bool, commit: Fault,
                          ghost h: seq<Action>, ghost own: seq<Action>, ghost others: seq<seq<Action>>)
    returns (ok: bool)
    requires w.Valid() && r in w.state.relays && w.state.relays[r] == Batch(rows, false, false, false)
    requires PartOf(write, rows)
    requires |own| == 1 && |others| == 4 && forall k, a :: 0 <= k < 4 && a in others[k] ==> !OfRelay(a, r)
    requires w.history == Interleave(h, others, own)
    modifies w
    ensures w.Valid() && r !in w.state.relays
    ensures ok <==> commit.Delivered? && write.AllWritten? && deleteOk
    ensures w.history == Interleave(h, others, own + Rest(r, write, deleteOk, commit))
    ensures ok ==> forall id :: id in Ids(rows) ==> id !in w.state.table && Copies(w.state.kafka, id) >= 1
    ensures !ok && !commit.Lost? ==>
      forall row :: row in rows ==> row.id in w.state.table && w.state.table[row.id] == row
  {
    var messages, ids := Prepare(rows);
    ghost var own1 := own + [WriteAction(r, write)];
    InterleaveOne(h, others, own, WriteAction(r, write));
    if write.SessionLost? {
      w.Cut(others[1], r);
      assert own1 == own + Rest(r, write, deleteOk, commit);
      return false;
    }
    w.Write(others[1], r, messages, ids, write);
    if write.Failed? || !deleteOk {
      InterleaveOne(h, others, own1, AbortRelay(r));
      w.Rollback(others[2], r);
      assert own1 + [AbortRelay(r)] == own + Rest(r, write, deleteOk, commit);
      return false;
    }
    InterleaveOne(h, others, own1, DeleteRows(r));
    w.Delete(others[2], r, ids);
    ok := Finish(w, r, commit, h, own1 + [DeleteRows(r)], others);
    assert own1 + [DeleteRows(r)] + [Settle(r, commit)] == own + Rest(r, write, deleteOk, commit);
  }

  /** COMMIT, or the rollback that follows when it is refused or never sent. */
  function Settle(r: nat, commit: Fault): (a: Action) {
    if commit.Delivered? || commit.Lost? then CommitRelay(r) else AbortRelay(r)
  }

  method Finish(w: World, r: nat, commit: Fault, ghost h: seq<Action>, ghost own: seq<Action>,
                ghost others: seq<seq<Action>>)
    returns (ok: bool)
    requires w.Valid() && r in w.state.relays && (w.state.relays[r].rows == [] || w.state.relays[r].deleted)
    requires |own| < |others| && (forall a :: a in others[|own|] ==> !OfRelay(a, r))
    requires w.history == Interleave(h, others, own)
    modifies w
    ensures w.Valid() && r !in w.state.relays && ok == commit.Delivered?
    ensures w.history == Interleave(h, others, own + [Settle(r, commit)])
    ensures ok ==>
      forall id :: id in Ids(old(w.state).relays[r].rows) ==> id !in w.state.table && Copies(w.state.kafka, id) >= 1
    ensures !ok && !commit.Lost? ==>
      forall row :: row in old(w.state).relays[r].rows ==> row.id in w.state.table && w.state.table[row.id] == row
  {
    InterleaveOne(h, others, own, Settle(r, commit));
    if commit.Delivered? || commit.Lost? {
      w.Commit(others[|own|], r);
    } else {
      w.Rollback(others[|own|], r);
    }
    return commit.Delivered?;
  }
}
