/**
 The two halves of the outbox put together: a session's transaction (tmsdb/gorm_tm.go), as the relays
 (eventlog/outbox) see it among everything else that happens to the database.
 */
module Delivery {
  import opened Wrappers
  import opened Transactions
  import opened OutboxRelay

  /** The outbox rows among the writes of a transaction. */
  function RowsOf(ws: seq<Write>): (rows: seq<Row>) {
    if ws == [] then []
    else RowsOf(ws[..|ws| - 1]) + (if ws[|ws| - 1].Outbox? then [ws[|ws| - 1].row] else [])
  }

  predicate OfTx(a: Action, t: nat) {
    (a.Begin? || a.InsertRow? || a.UndoRows? || a.CommitTx? || a.AbortTx?) && a.tx == t
  }

  /** What one step of a session does to the outbox rows of its transaction `t`. */
  function StepActions(t: nat, tx: Tx, step: Transactions.Step): (own: seq<Action>) {
    Change(t, RowsOf(tx.writes), RowsOf(After(tx, step).writes))
  }

  function Change(t: nat, was: seq<Row>, now: seq<Row>): (own: seq<Action>) {
    if |now| < |was| then [UndoRows(t, |now|)]
    else if |now| > |was| then [InsertRow(t, now[|now| - 1])]
    else []
  }

  function BodyActions(t: nat, tx: Tx, flat: seq<Transactions.Step>): (own: seq<Action>)
    decreases |flat|
  {
    if flat == [] then [] else StepActions(t, tx, flat[0]) + BodyActions(t, After(tx, flat[0]), flat[1..])
  }

  /** What the outermost `WithTransaction` does to the outbox from BEGIN to its end. */
  function SessionActions(t: nat, body: seq<Transactions.Step>, failed: bool, commit: Fault): (own: seq<Action>) {
    [Begin(t)] + BodyActions(t, FRESH, Flatten(body)) + [Settling(t, body, failed, commit)]
  }

  function Settling(t: nat, body: seq<Transactions.Step>, failed: bool, commit: Fault): (last: Action) {
    if Commits(Run(FRESH, body), failed, commit) then CommitTx(t) else AbortTx(t)
  }

  /** In the run `trace` from `s`, whatever else happens, transaction `t` takes exactly the steps `own`. */
  ghost predicate Performs(s: State, trace: seq<Action>, t: nat, own: seq<Action>)
    decreases |trace|
  {
    if trace == [] then own == [] else
    var earlier, last := trace[..|trace| - 1], trace[|trace| - 1];
    if OfTx(last, t) then
      && own != [] && own[|own| - 1] == last
      && Enabled(Play(s, earlier), last) && Performs(s, earlier, t, own[..|own| - 1])
    else Performs(s, earlier, t, own)
  }

  /** The rows transaction `t` holds after its own steps, None when it is not open. */
  function Held(own: seq<Action>): (rows: Option<seq<Row>>) {
    if own == [] then None else
    var earlier := Held(own[..|own| - 1]);
    match own[|own| - 1]
    case Begin(_) => Some([])
    case InsertRow(_, row) => (match earlier case Some(rows) => Some(rows + [row]) case None => None)
    case UndoRows(_, keep) =>
      (match earlier case Some(rows) => if keep <= |rows| then Some(rows[..keep]) else None case None => None)
    case _ => None
  }

  /** Nobody else touches the rows of an open transaction. */
  lemma {:induction false} PerformedIsHeld(s: State, trace: seq<Action>, t: nat, own: seq<Action>)
    requires t !in s.txs && Performs(s, trace, t, own)
    ensures (if t in Play(s, trace).txs then Some(Play(s, trace).txs[t]) else None) == Held(own)
    decreases |trace|
  {
    if trace != [] {
      var earlier, last := trace[..|trace| - 1], trace[|trace| - 1];
      if OfTx(last, t) {
        PerformedIsHeld(s, earlier, t, own[..|own| - 1]);
      } else {
        PerformedIsHeld(s, earlier, t, own);
        OtherKeepsTx(Play(s, earlier), last, t);
      }
    }
  }

  lemma OtherKeepsTx(s: State, a: Action, t: nat)
    requires !OfTx(a, t)
    ensures t in OutboxRelay.Step(s, a).txs <==> t in s.txs
    ensures t in s.txs ==> OutboxRelay.Step(s, a).txs[t] == s.txs[t]
  {
  }

  // ---------------------------------------------------------------- the rows of a body

  /** A step adds one write, or cuts writes off the end, or leaves them. */
  lemma StepWrites(tx: Tx, step: Transactions.Step)
    requires !step.Nested?
    ensures var w := After(tx, step).writes;
      (w != [] && w[..|w| - 1] == tx.writes) || (|w| <= |tx.writes| && w == tx.writes[..|w|])
  {
    if step.Emit? {
      PublishWrites(tx, step.row, step.faults);
    } else {
      ExecWrites(tx, step.stmt, step.fault);
    }
  }

  lemma ExecWrites(tx: Tx, stmt: Stmt, fault: Fault)
    ensures var w := Exec(tx, stmt, fault).0.writes;
      (w != [] && w[..|w| - 1] == tx.writes) || (|w| <= |tx.writes| && w == tx.writes[..|w|])
  {
    assert stmt.Insert? ==> (tx.writes + [stmt.w])[..|tx.writes|] == tx.writes;
  }

  lemma {:induction false} RowsOfPrefix(ws: seq<Write>, n: nat)
    requires n <= |ws|
    ensures |RowsOf(ws[..n])| <= |RowsOf(ws)| && RowsOf(ws[..n]) == RowsOf(ws)[..|RowsOf(ws[..n])|]
    decreases |ws|
  {
    if n < |ws| {
      RowsOfPrefix(ws[..|ws| - 1], n);
      assert ws[..|ws| - 1][..n] == ws[..n];
    } else {
      assert ws[..n] == ws;
    }
  }

  lemma {:induction false} RowsOfHas(ws: seq<Write>, p: nat)
    requires p < |ws| && ws[p].Outbox?
    ensures ws[p].row in RowsOf(ws)
    decreases |ws|
  {
    if p < |ws| - 1 {
      RowsOfHas(ws[..|ws| - 1], p);
    }
  }

  lemma HeldOne(own: seq<Action>, a: Action)
    ensures (own + [a])[..|own + [a]| - 1] == own && (own + [a])[|own + [a]| - 1] == a
  {
  }

  /** The rows differ by rows cut off the end, or by one added. */
  predicate OneStep(was: seq<Row>, now: seq<Row>) {
    (|now| <= |was| && now == was[..|now|]) || (|now| == |was| + 1 && now[..|was|] == was)
  }

  lemma StepRows(tx: Tx, step: Transactions.Step)
    requires !step.Nested?
    ensures OneStep(RowsOf(tx.writes), RowsOf(After(tx, step).writes))
  {
    var w := After(tx, step).writes;
    StepWrites(tx, step);
    if |w| <= |tx.writes| {
      RowsOfPrefix(tx.writes, |w|);
    } else {
      assert RowsOf(w) == RowsOf(tx.writes) + (if w[|w| - 1].Outbox? then [w[|w| - 1].row] else []);
    }
  }

  lemma ChangeHolds(t: nat, was: seq<Row>, now: seq<Row>, own: seq<Action>)
    requires OneStep(was, now) && Held(own) == Some(was)
    ensures Held(own + Change(t, was, now)) == Some(now)
  {
    if |now| < |was| {
      HeldOne(own, UndoRows(t, |now|));
    } else if |now| > |was| {
      HeldOne(own, InsertRow(t, now[|now| - 1]));
      assert now == was + [now[|now| - 1]];
    } else {
      assert now == was && own + [] == own;
    }
  }

  lemma Regrouped(a: seq<Action>, b: seq<Action>, c: seq<Action>)
    ensures a + (b + c) == (a + b) + c
  {
  }

  lemma {:induction false} BodyHolds(t: nat, tx: Tx, flat: seq<Transactions.Step>, own: seq<Action>)
    requires (forall s :: s in flat ==> !s.Nested?) && Held(own) == Some(RowsOf(tx.writes))
    ensures Held(own + BodyActions(t, tx, flat)) == Some(RowsOf(Run(tx, flat).writes))
    decreases |flat|
  {
    if flat == [] {
      assert own + [] == own;
    } else {
      assert flat[0] in flat;
      var next := After(tx, flat[0]);
      var first, rest := StepActions(t, tx, flat[0]), BodyActions(t, next, flat[1..]);
      StepRows(tx, flat[0]);
      ChangeHolds(t, RowsOf(tx.writes), RowsOf(next.writes), own);
      BodyHolds(t, next, flat[1..], own + first);
      Regrouped(own, first, rest);
    }
  }

  // ---------------------------------------------------------------- the end of a session

  /**
   The state in which a session that took exactly its steps is about to settle: transaction `t` holds the
   outbox rows of its writes, and the last step of the session is still to come.
   */
  lemma {:induction false} BeforeSettling(s: State, trace: seq<Action>, t: nat, own: seq<Action>, last: Action)
    returns (cut: nat)
    requires Performs(s, trace, t, own + [last])
    ensures cut < |trace| && trace[cut] == last && Performs(s, trace[..cut], t, own)
    ensures Enabled(Play(s, trace[..cut]), last)
    decreases |trace|
  {
    HeldOne(own, last);
    var earlier := trace[..|trace| - 1];
    if OfTx(trace[|trace| - 1], t) {
      cut := |trace| - 1;
    } else {
      cut := BeforeSettling(s, earlier, t, own, last);
      assert earlier[..cut] == trace[..cut];
    }
  }

  /** The row is in the outbox table or its message is in Kafka. */
  ghost predicate TableOrKafka(s: State, row: Row) {
    (row.id in s.table && s.table[row.id] == row) || EntryOf(row) in s.kafka
  }

  /** The rows a transaction is to leave in the outbox. */
  lemma SessionHolds(s: State, trace: seq<Action>, t: nat, body: seq<Transactions.Step>)
    requires t !in s.txs && Performs(s, trace, t, [Begin(t)] + BodyActions(t, FRESH, Flatten(body)))
    ensures t in Play(s, trace).txs && Play(s, trace).txs[t] == RowsOf(Run(FRESH, body).writes)
  {
    NestingIsInlining(FRESH, body);
    assert Held([Begin(t)]) == Some([]);
    BodyHolds(t, FRESH, Flatten(body), [Begin(t)]);
    PerformedIsHeld(s, trace, t, [Begin(t)] + BodyActions(t, FRESH, Flatten(body)));
  }

  /**
   A `WithTransaction` call among any other activity, from any state a run reaches: if it commits, each of its
   outbox rows is in the table or in Kafka from then on; if not, none of them ever gets to Kafka.
   */
  lemma SessionSettles(s: State, trace: seq<Action>, t: nat, body: seq<Transactions.Step>,
                       failed: bool, commit: Fault, row: Row)
    requires Inv(s) && t !in s.txs && Performs(s, trace, t, SessionActions(t, body, failed, commit))
    requires row in RowsOf(Run(FRESH, body).writes)
    ensures var s' := Play(s, trace);
      if Commits(Run(FRESH, body), failed, commit)
      then TableOrKafka(s', row) && row.id in s'.committed && s'.committed[row.id] == row
      else Copies(s'.kafka, row.id) == 0
  {
    var last := Settling(t, body, failed, commit);
    var cut := BeforeSettling(s, trace, t, [Begin(t)] + BodyActions(t, FRESH, Flatten(body)), last);
    SessionHolds(s, trace[..cut], t, body);
    PlayKeepsInv(s, trace[..cut]);
    PlaySplit(s, trace, cut);
    AfterSettling(Play(s, trace[..cut]), t, last, trace[cut + 1..], row);
  }

  lemma PlaySplit(s: State, trace: seq<Action>, cut: nat)
    requires cut < |trace|
    ensures Play(s, trace) == Play(Play(s, trace[..cut]), [trace[cut]] + trace[cut + 1..])
  {
    assert trace == trace[..cut] + ([trace[cut]] + trace[cut + 1..]);
    PlayAppend(s, trace[..cut], [trace[cut]] + trace[cut + 1..]);
  }

  lemma AfterSettling(s: State, t: nat, last: Action, future: seq<Action>, row: Row)
    requires Inv(s) && t in s.txs && row in s.txs[t] && (last == CommitTx(t) || last == AbortTx(t))
    ensures var s' := Play(s, [last] + future);
      if last.CommitTx?
      then TableOrKafka(s', row) && row.id in s'.committed && s'.committed[row.id] == row
      else Copies(s'.kafka, row.id) == 0
  {
    PlayFirst(s, last, future);
    if last.CommitTx? {
      CommitTxCommits(s, t, row);
      CommittedForever(OutboxRelay.Step(s, last), row, future);
      HistoryGrows(OutboxRelay.Step(s, last), future);
    } else {
      StepKeepsInv(s, last);
      DiscardedForever(Apply(s, last), row.id, future);
    }
  }

  lemma DiscardedForever(s: State, id: string, trace: seq<Action>)
    requires Inv(s) && id in s.discarded
    ensures Copies(Play(s, trace).kafka, id) == 0
  {
    PlayKeepsInv(s, trace);
    StaysDiscarded(s, id, trace);
  }

  lemma {:induction false} StaysDiscarded(s: State, id: string, trace: seq<Action>)
    requires id in s.discarded
    ensures id in Play(s, trace).discarded
    decreases |trace|
  {
    if trace != [] {
      StaysDiscarded(s, id, trace[..|trace| - 1]);
      StepKeepsDiscarded(Play(s, trace[..|trace| - 1]), trace[|trace| - 1], id);
    }
  }

  lemma StepKeepsDiscarded(s: State, a: Action, id: string)
    requires id in s.discarded
    ensures id in OutboxRelay.Step(s, a).discarded
  {
  }
}
