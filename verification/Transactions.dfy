/**
 The event-publishing half of the transactional outbox (tmsdb/gorm_tm.go): a Postgres transaction
 with a stack of named savepoints, the re-entrant `WithTransaction`, and `writeEvent`.
 */
module Transactions {
  import opened Wrappers

  /** A row of outbox_events. Identifiers are the printed form of the UUIDs. */
  datatype Row = Row(id: string, entityId: string, entityType: string, topic: string,
                     payload: string, status: string, createdAt: int)

  /** What an INSERT leaves behind: business data of the caller, or an outbox row. */
  datatype Write = Business(data: string) | Outbox(row: Row)

  /** A savepoint remembers how many writes preceded it. Names need not be unique. */
  datatype Savepoint = Savepoint(name: string, mark: nat)

  datatype Tx = Tx(writes: seq<Write>, savepoints: seq<Savepoint>, aborted: bool)

  datatype Stmt = SetSavepoint(name: string) | Insert(w: Write) | RollbackTo(name: string) | Release(name: string)

  /**
   How a statement fares on its way: `Delivered` is executed and answered, `NotSent` never reaches the
   server, `Lost` is executed but its answer is lost, and `Rejected` is refused by the server, which
   aborts the transaction. The client sees an error in the last three cases.
   */
  datatype Fault = Delivered | NotSent | Lost | Rejected

  /** Index of the innermost savepoint called `name`, or -1. */
  function Innermost(savepoints: seq<Savepoint>, name: string): (i: int)
    ensures -1 <= i < |savepoints|
    ensures i >= 0 ==> savepoints[i].name == name
    ensures forall j :: i < j < |savepoints| ==> savepoints[j].name != name
  {
    if savepoints == [] then -1
    else if savepoints[|savepoints| - 1].name == name then |savepoints| - 1
    else Innermost(savepoints[..|savepoints| - 1], name)
  }

  /** Every savepoint marks a point inside the writes, older ones at or before younger ones. */
  ghost predicate Valid(tx: Tx) {
    && (forall i :: 0 <= i < |tx.savepoints| ==> tx.savepoints[i].mark <= |tx.writes|)
    && (forall i, j :: 0 <= i < j < |tx.savepoints| ==> tx.savepoints[i].mark <= tx.savepoints[j].mark)
  }

  /** The server's answer to a statement: the new transaction state, or None when it raises an error. */
  function Serve(tx: Tx, stmt: Stmt): (r: Option<Tx>) {
    match stmt
    case SetSavepoint(name) =>
      if tx.aborted then None
      else Some(tx.(savepoints := tx.savepoints + [Savepoint(name, |tx.writes|)]))
    case Insert(w) =>
      if tx.aborted then None else Some(tx.(writes := tx.writes + [w]))
    case RollbackTo(name) =>
      var i := Innermost(tx.savepoints, name);
      if i < 0 || tx.savepoints[i].mark > |tx.writes| then None
      else Some(Tx(tx.writes[..tx.savepoints[i].mark], tx.savepoints[..i + 1], false))
    case Release(name) =>
      var i := Innermost(tx.savepoints, name);
      if tx.aborted || i < 0 then None else Some(tx.(savepoints := tx.savepoints[..i]))
  }

  /** State after a statement under a fault, and whether the client saw it succeed. */
  function Exec(tx: Tx, stmt: Stmt, fault: Fault): (r: (Tx, bool)) {
    var served := match Serve(tx, stmt) case Some(t) => t case None => tx.(aborted := true);
    match fault
    case Delivered => (served, Serve(tx, stmt).Some?)
    case NotSent => (tx, false)
    case Lost => (served, false)
    case Rejected => (tx.(aborted := true), false)
  }

  /** In a valid transaction the server can roll back to a savepoint exactly if there is one of that name. */
  lemma RollbackServedIff(tx: Tx, name: string)
    requires Valid(tx)
    ensures Serve(tx, RollbackTo(name)).Some? <==> exists i :: 0 <= i < |tx.savepoints| && tx.savepoints[i].name == name
  {
    var i := Innermost(tx.savepoints, name);
    assert i >= 0 ==> tx.savepoints[i].name == name;
  }

  lemma ExecKeepsValid(tx: Tx, stmt: Stmt, fault: Fault)
    requires Valid(tx)
    ensures Valid(Exec(tx, stmt, fault).0)
  {
  }

  const PUBLISH_SP := "publish_sp"

  /** One fault per statement `writeEvent` may issue. */
  datatype EventFaults = EventFaults(savepoint: Fault, insert: Fault, rollback: Fault, release: Fault)

  /** `writeEvent` inside a transaction: final state, and whether it returned nil. */
  function Publish(tx: Tx, row: Row, f: EventFaults): (r: (Tx, bool)) {
    var (t1, saved) := Exec(tx, SetSavepoint(PUBLISH_SP), f.savepoint);
    if !saved then (t1, false) else
    var (t2, inserted) := Exec(t1, Insert(Outbox(row)), f.insert);
    if inserted then (Exec(t2, Release(PUBLISH_SP), f.release).0, true) else
    var (t3, rolledBack) := Exec(t2, RollbackTo(PUBLISH_SP), f.rollback);
    if !rolledBack then (t3, false) else
    (Exec(t3, Release(PUBLISH_SP), f.release).0, true)
  }

  /** `tx` with the fence `writeEvent` puts up before its INSERT. */
  function Fenced(tx: Tx): (t: Tx) {
    Tx(tx.writes, tx.savepoints + [Savepoint(PUBLISH_SP, |tx.writes|)], false)
  }

  /** Whatever happened since, and whatever savepoints leaked earlier, the fence is the one that answers. */
  lemma FenceAnswers(tx: Tx, ws: seq<Write>, aborted: bool)
    ensures var t := Tx(tx.writes + ws, Fenced(tx).savepoints, aborted);
      && Serve(t, RollbackTo(PUBLISH_SP)) == Some(Fenced(tx))
      && (!aborted ==> Serve(t, Release(PUBLISH_SP)) == Some(Tx(tx.writes + ws, tx.savepoints, false)))
  {
    var t := Tx(tx.writes + ws, Fenced(tx).savepoints, aborted);
    var n := |tx.savepoints|;
    assert t.savepoints[n].name == PUBLISH_SP;
    assert t.savepoints[..n] == tx.savepoints && t.savepoints[..n + 1] == t.savepoints;
    assert t.writes[..|tx.writes|] == tx.writes;
  }

  lemma RollbackFence(tx: Tx, ws: seq<Write>, aborted: bool, f: Fault)
    ensures var r := Exec(Tx(tx.writes + ws, Fenced(tx).savepoints, aborted), RollbackTo(PUBLISH_SP), f);
      r.1 ==> r.0 == Tx(tx.writes + [], Fenced(tx).savepoints, false)
  {
    FenceAnswers(tx, ws, aborted);
    assert tx.writes + [] == tx.writes;
  }

  lemma ReleaseFence(tx: Tx, ws: seq<Write>, f: Fault)
    ensures Exec(Tx(tx.writes + ws, Fenced(tx).savepoints, false), Release(PUBLISH_SP), f).0
         == Tx(tx.writes + ws, if f.Delivered? || f.Lost? then tx.savepoints else Fenced(tx).savepoints, f.Rejected?)
  {
    FenceAnswers(tx, ws, false);
  }

  /**
   The contract of publishing, from any transaction state: any depth of savepoints, leaked ones of the
   same name included. When it returns nil the transaction was healthy, earlier writes and savepoints
   are untouched, and the row was added exactly when the INSERT was answered. The transaction is left
   un-aborted exactly when the server did not refuse the RELEASE, and the savepoint leaks exactly when
   the RELEASE did not take effect.
   */
  lemma PublishContract(tx: Tx, row: Row, f: EventFaults)
    requires Publish(tx, row, f).1
    ensures !tx.aborted
    ensures Publish(tx, row, f).0.writes == tx.writes + (if f.insert.Delivered? then [Outbox(row)] else [])
    ensures Publish(tx, row, f).0.aborted <==> f.release.Rejected?
    ensures Publish(tx, row, f).0.savepoints ==
            if f.release.Delivered? || f.release.Lost? then tx.savepoints else Fenced(tx).savepoints
  {
    assert Exec(tx, SetSavepoint(PUBLISH_SP), f.savepoint) == (Fenced(tx), true);
    var (t2, inserted) := Exec(Fenced(tx), Insert(Outbox(row)), f.insert);
    var ws := if f.insert.Delivered? || f.insert.Lost? then [Outbox(row)] else [];
    assert t2 == Tx(tx.writes + ws, Fenced(tx).savepoints, f.insert.Rejected?) && inserted == f.insert.Delivered?;
    if inserted {
      ReleaseFence(tx, ws, f.release);
    } else {
      RollbackFence(tx, ws, f.insert.Rejected?, f.rollback);
      ReleaseFence(tx, [], f.release);
      var undone := Tx(tx.writes + [], Fenced(tx).savepoints, false);
      assert Publish(tx, row, f).0 == Exec(undone, Release(PUBLISH_SP), f.release).0;
    }
  }

  lemma PublishKeepsValid(tx: Tx, row: Row, f: EventFaults)
    requires Valid(tx)
    ensures Valid(Publish(tx, row, f).0)
  {
    var (t1, saved) := Exec(tx, SetSavepoint(PUBLISH_SP), f.savepoint);
    ExecKeepsValid(tx, SetSavepoint(PUBLISH_SP), f.savepoint);
    if saved {
      var (t2, inserted) := Exec(t1, Insert(Outbox(row)), f.insert);
      ExecKeepsValid(t1, Insert(Outbox(row)), f.insert);
      ExecKeepsValid(t2, Release(PUBLISH_SP), f.release);
      ExecKeepsValid(t2, RollbackTo(PUBLISH_SP), f.rollback);
      ExecKeepsValid(Exec(t2, RollbackTo(PUBLISH_SP), f.rollback).0, Release(PUBLISH_SP), f.release);
    }
  }

  /**
   When `writeEvent` returns an error it still never removes or reorders an earlier write; the row can
   be left behind only by an INSERT whose answer was lost and whose undoing failed too.
   */
  lemma FailedPublishKeepsWrites(tx: Tx, row: Row, f: EventFaults)
    requires !Publish(tx, row, f).1
    ensures Publish(tx, row, f).0.writes == tx.writes ||
            (Publish(tx, row, f).0.writes == tx.writes + [Outbox(row)] && f.insert.Lost? && !f.rollback.Delivered?)
  {
    if Exec(tx, SetSavepoint(PUBLISH_SP), f.savepoint).1 {
      var t2 := Exec(Fenced(tx), Insert(Outbox(row)), f.insert).0;
      var ws := if f.insert.Delivered? || f.insert.Lost? then [Outbox(row)] else [];
      assert t2 == Tx(tx.writes + ws, Fenced(tx).savepoints, f.insert.Rejected?);
      FenceAnswers(tx, ws, f.insert.Rejected?);
      assert tx.writes + [] == tx.writes;
    }
  }

  /** An aborted transaction serves nothing but a rollback to a savepoint. */
  lemma AbortedRefuses(tx: Tx, stmt: Stmt, fault: Fault)
    requires tx.aborted && !stmt.RollbackTo?
    ensures Exec(tx, stmt, fault) == (tx, false)
  {
    assert tx.(aborted := true) == tx;
  }

  /** What goes wrong for good in a publish: the server refused a statement and no rollback to the fence followed. */
  predicate Dooms(f: EventFaults) {
    || f.savepoint.Rejected?
    || (f.savepoint.Delivered? && f.insert.Delivered? && f.release.Rejected?)
    || (f.savepoint.Delivered? && !f.insert.Delivered? && f.rollback.Rejected?)
    || (f.savepoint.Delivered? && f.insert.Rejected? && f.rollback.NotSent?)
    || (f.savepoint.Delivered? && !f.insert.Delivered? && f.rollback.Delivered? && f.release.Rejected?)
  }

  /** A publish that gets its savepoint and fails to insert leaves what the rollback and the release made of it. */
  lemma AfterFailedInsert(tx: Tx, row: Row, f: EventFaults)
    requires !tx.aborted && f.savepoint.Delivered? && !f.insert.Delivered?
    ensures Publish(tx, row, f).1 == f.rollback.Delivered?
    ensures Publish(tx, row, f).0.aborted <==> Dooms(f)
    ensures !f.rollback.Delivered? ==> Publish(tx, row, f).0.savepoints == Fenced(tx).savepoints
  {
    assert Exec(tx, SetSavepoint(PUBLISH_SP), f.savepoint) == (Fenced(tx), true);
    var ws := if f.insert.Lost? then [Outbox(row)] else [];
    assert Exec(Fenced(tx), Insert(Outbox(row)), f.insert)
        == (Tx(tx.writes + ws, Fenced(tx).savepoints, f.insert.Rejected?), false) by {
      assert tx.writes + [] == tx.writes;
    }
    FenceAnswers(tx, ws, f.insert.Rejected?);
    RollbackFence(tx, ws, f.insert.Rejected?, f.rollback);
    ReleaseFence(tx, [], f.release);
  }

  /** Exactly when a publish leaves a healthy transaction aborted, whatever it returned. */
  lemma PublishAbortsIff(tx: Tx, row: Row, f: EventFaults)
    ensures Publish(tx, row, f).0.aborted <==> tx.aborted || Dooms(f)
    ensures tx.aborted ==> Publish(tx, row, f) == (tx, false)
  {
    if tx.aborted {
      AbortedRefuses(tx, SetSavepoint(PUBLISH_SP), f.savepoint);
    } else if f.savepoint.Delivered? && f.insert.Delivered? {
      assert Exec(tx, SetSavepoint(PUBLISH_SP), f.savepoint) == (Fenced(tx), true);
      ReleaseFence(tx, [Outbox(row)], f.release);
    } else if f.savepoint.Delivered? {
      AfterFailedInsert(tx, row, f);
    }
  }

  /**
   What a publish that returned an error leaves behind in a healthy transaction: it is aborted exactly if the
   server refused the savepoint, the rollback, or the INSERT without hearing of the rollback; and the savepoint
   leaks exactly if the server set it.
   */
  lemma FailedPublishLeaves(tx: Tx, row: Row, f: EventFaults)
    requires !tx.aborted && !Publish(tx, row, f).1
    ensures Publish(tx, row, f).0.aborted <==>
      || f.savepoint.Rejected?
      || (f.savepoint.Delivered? && (f.rollback.Rejected? || (f.insert.Rejected? && f.rollback.NotSent?)))
    ensures Publish(tx, row, f).0.savepoints ==
            if f.savepoint.Delivered? || f.savepoint.Lost? then Fenced(tx).savepoints else tx.savepoints
  {
    if f.savepoint.Delivered? {
      assert Exec(tx, SetSavepoint(PUBLISH_SP), f.savepoint) == (Fenced(tx), true);
      AfterFailedInsert(tx, row, f);
    }
  }

  /**
   What a function run under `WithTransaction` does, as executed: statements of its own, publishes, and
   nested `WithTransaction` calls with the verdict (`failed`) their function returned.
   */
  datatype Step =
    | Do(stmt: Stmt, fault: Fault)
    | Emit(row: Row, faults: EventFaults)
    | Nested(body: seq<Step>, failed: bool)

  /** Steps executed on the transaction found in the context; a nested call runs inside it (no BEGIN). */
  function Run(tx: Tx, steps: seq<Step>): (t: Tx)
    decreases steps
  {
    if steps == [] then tx else Run(After(tx, steps[0]), steps[1..])
  }

  function After(tx: Tx, step: Step): (t: Tx)
    decreases step
  {
    match step
    case Do(stmt, fault) => Exec(tx, stmt, fault).0
    case Emit(row, faults) => Publish(tx, row, faults).0
    case Nested(body, _) => Run(tx, body)
  }

  const FRESH: Tx := Tx([], [], false)

  /**
   The outermost `WithTransaction`: BEGIN, run, then COMMIT when the function returned nil and ROLLBACK
   otherwise. Committing an aborted transaction rolls it back. Gives the committed table and whether the
   caller saw nil; a COMMIT whose answer is lost takes effect behind an error.
   */
  function Transact(table: seq<Write>, body: seq<Step>, failed: bool, commit: Fault): (r: (seq<Write>, bool)) {
    Finish(table, Run(FRESH, body), failed, commit)
  }

  function Finish(table: seq<Write>, tx: Tx, failed: bool, commit: Fault): (r: (seq<Write>, bool)) {
    (if Commits(tx, failed, commit) then table + tx.writes else table, Commits(tx, failed, commit) && commit.Delivered?)
  }

  /** The transaction takes effect. */
  predicate Commits(tx: Tx, failed: bool, commit: Fault) {
    !failed && !tx.aborted && (commit.Delivered? || commit.Lost?)
  }

  /** The statements and publishes of a body with every nested call spliced in place. */
  function Flatten(steps: seq<Step>): (flat: seq<Step>)
    ensures forall s :: s in flat ==> !s.Nested?
    decreases steps
  {
    if steps == [] then []
    else (match steps[0] case Nested(body, _) => Flatten(body) case s => [s]) + Flatten(steps[1..])
  }

  lemma {:induction false} RunAppend(tx: Tx, a: seq<Step>, b: seq<Step>)
    ensures Run(tx, a + b) == Run(Run(tx, a), b)
    decreases |a|
  {
    if a == [] {
      assert a + b == b;
    } else {
      assert (a + b)[1..] == a[1..] + b;
      RunAppend(After(tx, a[0]), a[1..], b);
    }
  }

  /** Re-entrancy: at any depth, a nested `WithTransaction` is the same as running its body in line. */
  lemma {:induction false} NestingIsInlining(tx: Tx, steps: seq<Step>)
    ensures Run(tx, steps) == Run(tx, Flatten(steps))
    decreases steps
  {
    if steps != [] {
      var head := match steps[0] case Nested(body, _) => Flatten(body) case s => [s];
      if steps[0].Nested? {
        NestingIsInlining(tx, steps[0].body);
      }
      RunAppend(tx, head, Flatten(steps[1..]));
      NestingIsInlining(Run(tx, head), steps[1..]);
    }
  }

  lemma {:induction false} FlatRunKeepsValid(tx: Tx, flat: seq<Step>)
    requires Valid(tx) && forall s :: s in flat ==> !s.Nested?
    ensures Valid(Run(tx, flat))
    decreases |flat|
  {
    if flat != [] {
      assert flat[0] in flat;
      match flat[0] {
        case Do(stmt, fault) => ExecKeepsValid(tx, stmt, fault);
        case Emit(row, faults) => PublishKeepsValid(tx, row, faults);
      }
      FlatRunKeepsValid(After(tx, flat[0]), flat[1..]);
    }
  }

  /**
   In every state any body reaches, under any faults, the savepoints mark points inside the writes in order, so
   a ROLLBACK TO fails at the server exactly when no savepoint has the name.
   */
  lemma ReachedIsValid(body: seq<Step>, name: string)
    ensures var tx := Run(FRESH, body);
      && Valid(tx)
      && (Serve(tx, RollbackTo(name)).Some? <==> exists i :: 0 <= i < |tx.savepoints| && tx.savepoints[i].name == name)
  {
    NestingIsInlining(FRESH, body);
    FlatRunKeepsValid(FRESH, Flatten(body));
    RollbackServedIff(Run(FRESH, body), name);
  }

  // ---------------------------------------------------------------- what stays written

  /** Publishing adds its row at the end or nothing, whatever goes wrong. */
  lemma PublishWrites(tx: Tx, row: Row, f: EventFaults)
    ensures Publish(tx, row, f).0.writes == tx.writes || Publish(tx, row, f).0.writes == tx.writes + [Outbox(row)]
  {
    if Publish(tx, row, f).1 {
      PublishContract(tx, row, f);
      assert tx.writes + [] == tx.writes;
    } else {
      FailedPublishKeepsWrites(tx, row, f);
    }
  }

  /** The step makes the server roll back to a savepoint that stood before write `p`. */
  predicate RollsBackPast(tx: Tx, step: Step, p: nat) {
    && step.Do? && step.stmt.RollbackTo? && (step.fault.Delivered? || step.fault.Lost?)
    && Serve(tx, step.stmt).Some? && tx.savepoints[Innermost(tx.savepoints, step.stmt.name)].mark <= p
  }

  /** Some step of the run does. */
  predicate Undone(tx: Tx, flat: seq<Step>, p: nat)
    decreases |flat|
  {
    flat != [] && (RollsBackPast(tx, flat[0], p) || Undone(After(tx, flat[0]), flat[1..], p))
  }

  /** Any other step leaves the writes up to `p` in place. */
  lemma StepKeepsWrite(tx: Tx, step: Step, p: nat)
    requires p < |tx.writes| && !step.Nested? && !RollsBackPast(tx, step, p)
    ensures p < |After(tx, step).writes| && After(tx, step).writes[..p + 1] == tx.writes[..p + 1]
  {
    if step.Emit? {
      PublishWrites(tx, step.row, step.faults);
      assert (tx.writes + [Outbox(step.row)])[..p + 1] == tx.writes[..p + 1];
    } else if step.stmt.Insert? {
      assert (tx.writes + [step.stmt.w])[..p + 1] == tx.writes[..p + 1];
    }
  }

  lemma {:induction false} KeptUnlessUndone(tx: Tx, flat: seq<Step>, p: nat)
    requires p < |tx.writes| && !Undone(tx, flat, p) && forall s :: s in flat ==> !s.Nested?
    ensures p < |Run(tx, flat).writes| && Run(tx, flat).writes[..p + 1] == tx.writes[..p + 1]
    decreases |flat|
  {
    if flat != [] {
      assert flat[0] in flat;
      StepKeepsWrite(tx, flat[0], p);
      KeptUnlessUndone(After(tx, flat[0]), flat[1..], p);
    }
  }

  /** The step inserts `w` itself. */
  predicate Inserts(step: Step, w: Write) {
    (step.Do? && step.stmt == Insert(w)) || (step.Emit? && Outbox(step.row) == w)
  }

  lemma StepDoesNotBring(tx: Tx, step: Step, w: Write)
    requires !step.Nested? && !Inserts(step, w)
    ensures w in After(tx, step).writes ==> w in tx.writes
  {
    if step.Emit? {
      PublishWrites(tx, step.row, step.faults);
    }
  }

  lemma {:induction false} DoesNotReturn(tx: Tx, flat: seq<Step>, w: Write)
    requires w !in tx.writes && forall s :: s in flat ==> !s.Nested? && !Inserts(s, w)
    ensures w !in Run(tx, flat).writes
    decreases |flat|
  {
    if flat != [] {
      assert flat[0] in flat;
      StepDoesNotBring(tx, flat[0], w);
      DoesNotReturn(After(tx, flat[0]), flat[1..], w);
    }
  }

  lemma RollbackRemoves(tx: Tx, step: Step, p: nat, w: Write)
    requires p < |tx.writes| && RollsBackPast(tx, step, p) && w !in tx.writes[..p]
    ensures w !in After(tx, step).writes
  {
    var mark := tx.savepoints[Innermost(tx.savepoints, step.stmt.name)].mark;
    assert After(tx, step).writes == tx.writes[..mark];
    assert forall k :: 0 <= k < mark ==> tx.writes[k] == tx.writes[..p][k];
  }

  lemma {:induction false} GoneIfUndone(tx: Tx, flat: seq<Step>, p: nat, w: Write)
    requires p < |tx.writes| && Undone(tx, flat, p) && w !in tx.writes[..p]
    requires forall s :: s in flat ==> !s.Nested? && !Inserts(s, w)
    ensures w !in Run(tx, flat).writes
    decreases |flat|
  {
    assert flat[0] in flat;
    var next := After(tx, flat[0]);
    if RollsBackPast(tx, flat[0], p) {
      RollbackRemoves(tx, flat[0], p, w);
      DoesNotReturn(next, flat[1..], w);
    } else {
      StepKeepsWrite(tx, flat[0], p);
      assert next.writes[..p] == tx.writes[..p + 1][..p] == tx.writes[..p];
      GoneIfUndone(next, flat[1..], p, w);
    }
  }

  /**
   Exactly when a write stays: unless the rest of the body, at any depth of nesting, rolls back to a savepoint
   that stood before it.
   */
  lemma KeptIff(tx: Tx, rest: seq<Step>, p: nat)
    requires p < |tx.writes| && tx.writes[p] !in tx.writes[..p]
    requires forall s :: s in Flatten(rest) ==> !Inserts(s, tx.writes[p])
    ensures tx.writes[p] in Run(tx, rest).writes <==> !Undone(tx, Flatten(rest), p)
  {
    NestingIsInlining(tx, rest);
    if Undone(tx, Flatten(rest), p) {
      GoneIfUndone(tx, Flatten(rest), p, tx.writes[p]);
    } else {
      KeptUnlessUndone(tx, Flatten(rest), p);
      assert Run(tx, Flatten(rest)).writes[..p + 1][p] == tx.writes[..p + 1][p];
    }
  }

  /** Without savepoint statements of its own, a body undoes nothing. */
  lemma {:induction false} InsertsUndoNothing(tx: Tx, flat: seq<Step>, p: nat)
    requires InsertsOnly(flat)
    ensures !Undone(tx, flat, p)
    decreases |flat|
  {
    if flat != [] {
      assert flat[0] in flat;
      InsertsUndoNothing(After(tx, flat[0]), flat[1..], p);
    }
  }

  /**
   A published row is committed with the transaction: whatever ran before and after the publish, if it returned
   nil with its INSERT answered, nothing after it rolls back past it, and the transaction commits.
   */
  lemma PublishedIsCommitted(table: seq<Write>, before: seq<Step>, row: Row, f: EventFaults, after: seq<Step>,
                             failed: bool, commit: Fault)
    requires var tx := Run(FRESH, before);
      Publish(tx, row, f).1 && f.insert.Delivered? && !Undone(Publish(tx, row, f).0, Flatten(after), |tx.writes|)
    requires Commits(Run(FRESH, before + [Emit(row, f)] + after), failed, commit)
    ensures Outbox(row) in Transact(table, before + [Emit(row, f)] + after, failed, commit).0
  {
    var tx := Run(FRESH, before);
    var sent := Publish(tx, row, f).0;
    PublishContract(tx, row, f);
    RunThrough(before, Emit(row, f), after);
    NestingIsInlining(sent, after);
    KeptUnlessUndone(sent, Flatten(after), |tx.writes|);
    var w := Run(sent, after).writes;
    assert w[|tx.writes|] == w[..|tx.writes| + 1][|tx.writes|] == Outbox(row);
  }

  lemma RunThrough(before: seq<Step>, step: Step, after: seq<Step>)
    ensures Run(FRESH, before + [step] + after) == Run(After(Run(FRESH, before), step), after)
  {
    RunAppend(FRESH, before + [step], after);
    RunAppend(FRESH, before, [step]);
    assert Run(Run(FRESH, before), [step]) == Run(After(Run(FRESH, before), step), []);
  }

  /** A body that never touches savepoints itself: its own statements are INSERTs. */
  ghost predicate InsertsOnly(flat: seq<Step>) {
    forall s :: s in flat ==> s.Emit? || (s.Do? && s.stmt.Insert?)
  }

  /** The write one step is meant to leave: an applied INSERT or, if asked for, a published row. */
  function Effect(s: Step, events: bool): (ws: seq<Write>) {
    match s
    case Do(Insert(w), f) => if f.Delivered? || f.Lost? then [w] else []
    case Emit(row, f) => if events && f.insert.Delivered? then [Outbox(row)] else []
    case _ => []
  }

  function Effects(flat: seq<Step>, events: bool): (ws: seq<Write>) {
    if flat == [] then [] else Effect(flat[0], events) + Effects(flat[1..], events)
  }

  /** Publishes all returned nil. */
  predicate AllNil(tx: Tx, flat: seq<Step>)
    decreases |flat|
  {
    flat == [] ||
    ((flat[0].Emit? ==> Publish(tx, flat[0].row, flat[0].faults).1) && AllNil(After(tx, flat[0]), flat[1..]))
  }

  lemma {:induction false} AbortedStaysAborted(tx: Tx, flat: seq<Step>)
    requires tx.aborted && InsertsOnly(flat)
    ensures Run(tx, flat).aborted
    decreases |flat|
  {
    if flat != [] {
      assert flat[0] in flat;
      assert InsertsOnly(flat[1..]);
      AbortedStaysAborted(After(tx, flat[0]), flat[1..]);
    }
  }

  /** A statement of the caller's, or a publish, that a transaction of plain inserts does not survive. */
  predicate Fatal(step: Step) {
    (step.Do? && step.fault.Rejected?) || (step.Emit? && Dooms(step.faults))
  }

  /** Exactly when a body of inserts and publishes ends aborted: when the server refused one of them for good. */
  lemma {:induction false} AbortedIff(tx: Tx, flat: seq<Step>)
    requires InsertsOnly(flat)
    ensures Run(tx, flat).aborted <==> tx.aborted || exists s :: s in flat && Fatal(s)
    decreases |flat|
  {
    if flat != [] {
      assert flat == [flat[0]] + flat[1..];
      assert flat[0] in flat && InsertsOnly(flat[1..]);
      StepAbortsIff(tx, flat[0]);
      AbortedIff(After(tx, flat[0]), flat[1..]);
    }
  }

  lemma StepAbortsIff(tx: Tx, step: Step)
    requires step.Emit? || (step.Do? && step.stmt.Insert?)
    ensures After(tx, step).aborted <==> tx.aborted || Fatal(step)
  {
    if step.Emit? {
      PublishAbortsIff(tx, step.row, step.faults);
    } else if tx.aborted {
      AbortedRefuses(tx, step.stmt, step.fault);
    }
  }

  /**
   A whole transaction of inserts and publishes, from the fates of its statements: it takes effect if and only if
   its function returned nil, no refusal was fatal and the COMMIT took effect; otherwise the table is as before
   and the caller hears of an error. Behind an effect the caller sees nil if and only if the COMMIT was answered.
   */
  lemma TransactIff(table: seq<Write>, body: seq<Step>, failed: bool, commit: Fault)
    requires InsertsOnly(Flatten(body))
    ensures var r := Transact(table, body, failed, commit);
      if failed || commit.NotSent? || commit.Rejected? || (exists s :: s in Flatten(body) && Fatal(s))
      then r == (table, false)
      else r == (table + Run(FRESH, body).writes, commit.Delivered?)
  {
    NestingIsInlining(FRESH, body);
    AbortedIff(FRESH, Flatten(body));
  }

  /**
   Publishing never costs the caller business data: if the publishes of a run returned nil and the run
   ends un-aborted, the transaction holds every applied write of the run in order, and nothing else. The
   business writes are the ones the same run would leave without its publishes.
   */
  lemma {:induction false} RunLeavesEffects(tx: Tx, flat: seq<Step>)
    requires InsertsOnly(flat) && AllNil(tx, flat) && !Run(tx, flat).aborted
    ensures Run(tx, flat).writes == tx.writes + Effects(flat, true)
    decreases |flat|
  {
    if flat != [] {
      assert flat[0] in flat;
      var next := After(tx, flat[0]);
      HealthySoFar(tx, flat);
      StepLeavesEffect(tx, flat[0]);
      RunLeavesEffects(next, flat[1..]);
    }
  }

  /** A run that ends un-aborted was never aborted. */
  lemma HealthySoFar(tx: Tx, flat: seq<Step>)
    requires InsertsOnly(flat) && flat != [] && !Run(tx, flat).aborted
    ensures !tx.aborted && !After(tx, flat[0]).aborted && InsertsOnly(flat[1..])
  {
    if tx.aborted { AbortedStaysAborted(tx, flat); }
    if After(tx, flat[0]).aborted { AbortedStaysAborted(After(tx, flat[0]), flat[1..]); }
  }

  lemma StepLeavesEffect(tx: Tx, step: Step)
    requires step.Emit? || (step.Do? && step.stmt.Insert?)
    requires !tx.aborted && !After(tx, step).aborted && (step.Emit? ==> Publish(tx, step.row, step.faults).1)
    ensures After(tx, step).writes == tx.writes + Effect(step, true)
  {
    if step.Emit? { PublishContract(tx, step.row, step.faults); }
  }

  function BusinessOf(ws: seq<Write>): (bs: seq<Write>) {
    if ws == [] then [] else (if ws[0].Business? then [ws[0]] else []) + BusinessOf(ws[1..])
  }

  lemma {:induction false} BusinessAppend(a: seq<Write>, b: seq<Write>)
    ensures BusinessOf(a + b) == BusinessOf(a) + BusinessOf(b)
    decreases |a|
  {
    if a == [] {
      assert a + b == b;
    } else {
      assert (a + b)[1..] == a[1..] + b && (a + b)[0] == a[0];
      BusinessAppend(a[1..], b);
      Regroup(if a[0].Business? then [a[0]] else [], BusinessOf(a[1..]), BusinessOf(b));
    }
  }

  /** Of the business data nothing is lost and nothing added, even where callers ignored publish errors. */
  lemma {:induction false} RunKeepsBusinessData(tx: Tx, flat: seq<Step>)
    requires InsertsOnly(flat) && !Run(tx, flat).aborted
    ensures BusinessOf(Run(tx, flat).writes) == BusinessOf(tx.writes) + BusinessOf(Effects(flat, false))
    decreases |flat|
  {
    if flat == [] {
      assert BusinessOf(tx.writes) + [] == BusinessOf(tx.writes);
    } else {
      assert flat[0] in flat;
      var next, effect, rest := After(tx, flat[0]), Effect(flat[0], false), Effects(flat[1..], false);
      assert Run(tx, flat) == Run(next, flat[1..]) && Effects(flat, false) == effect + rest;
      HealthySoFar(tx, flat);
      StepKeepsBusinessData(tx, flat[0]);
      RunKeepsBusinessData(next, flat[1..]);
      BusinessAppend(effect, rest);
      Regroup(BusinessOf(tx.writes), BusinessOf(effect), BusinessOf(rest));
    }
  }

  lemma Regroup(a: seq<Write>, b: seq<Write>, c: seq<Write>)
    ensures (a + b) + c == a + (b + c)
  {
  }

  lemma StepKeepsBusinessData(tx: Tx, step: Step)
    requires step.Emit? || (step.Do? && step.stmt.Insert?)
    requires !tx.aborted && !After(tx, step).aborted
    ensures BusinessOf(After(tx, step).writes) == BusinessOf(tx.writes) + BusinessOf(Effect(step, false))
  {
    if step.Emit? {
      PublishWrites(tx, step.row, step.faults);
      BusinessAppend(tx.writes, [Outbox(step.row)]);
      assert BusinessOf([Outbox(step.row)]) == [];
    } else {
      assert After(tx, step).writes == tx.writes + Effect(step, false);
      BusinessAppend(tx.writes, Effect(step, false));
    }
  }

  /**
   The guarantee for a whole, possibly nested, transaction, whether or not its publishes returned nil: all of its
   business data or none of it, and behind a nil never none.
   */
  lemma CommittedTransactionKeepsBusinessData(table: seq<Write>, body: seq<Step>, failed: bool, commit: Fault)
    requires InsertsOnly(Flatten(body))
    ensures var r := Transact(table, body, failed, commit);
      if Commits(Run(FRESH, body), failed, commit)
      then table <= r.0 && BusinessOf(r.0) == BusinessOf(table) + BusinessOf(Effects(Flatten(body), false))
      else r.0 == table && !r.1
  {
    NestingIsInlining(FRESH, body);
    if !Run(FRESH, body).aborted {
      RunKeepsBusinessData(FRESH, Flatten(body));
      BusinessAppend(table, Run(FRESH, body).writes);
      assert [] + BusinessOf(Effects(Flatten(body), false)) == BusinessOf(Effects(Flatten(body), false));
    }
  }

  /** If its publishes all returned nil, the committed table holds exactly the effects, in order. */
  lemma CommittedTransactionIsItsEffects(table: seq<Write>, body: seq<Step>, failed: bool, commit: Fault)
    requires InsertsOnly(Flatten(body)) && AllNil(FRESH, Flatten(body)) && Commits(Run(FRESH, body), failed, commit)
    ensures Transact(table, body, failed, commit).0 == table + Effects(Flatten(body), true)
  {
    NestingIsInlining(FRESH, body);
    RunLeavesEffects(FRESH, Flatten(body));
    assert [] + Effects(Flatten(body), true) == Effects(Flatten(body), true);
  }

  /**
   "If fn returns an error, Rollback occurs" holds of the outermost call only. What a nested call wrote
   survives exactly when the outermost call commits, whatever the nested function returned: its verdict
   has no influence on the table.
   */
  lemma NestedVerdictIsIgnored(table: seq<Write>, before: seq<Step>, body: seq<Step>, after: seq<Step>,
                               failed: bool, commit: Fault, verdict: bool)
    ensures Transact(table, before + [Nested(body, verdict)] + after, failed, commit)
         == Transact(table, before + body + after, failed, commit)
  {
    RunAppend(FRESH, before + [Nested(body, verdict)], after);
    RunAppend(FRESH, before, [Nested(body, verdict)]);
    RunAppend(FRESH, before + body, after);
    RunAppend(FRESH, before, body);
    var tx := Run(FRESH, before);
    assert Run(tx, [Nested(body, verdict)]) == Run(After(tx, Nested(body, verdict)), []);
  }

  lemma FailedNestedCallCanCommit()
    ensures var w := Business("x");
      Transact([], [Nested([Do(Insert(w), Delivered)], true)], false, Delivered) == ([w], true)
  {
    var w := Business("x");
    var step := Do(Insert(w), Delivered);
    assert After(FRESH, step) == Tx([w], [], false);
    assert Run(FRESH, [step]) == Run(After(FRESH, step), []);
    assert Run(FRESH, [Nested([step], true)]) == Run(After(FRESH, Nested([step], true)), []);
  }

  /** The database as one session knows it: what is committed, and the transaction on its context. */
  datatype Db = Db(committed: seq<Write>, tx: Option<Tx>)

  /** Rows a query of the session sees: its own uncommitted ones and the committed ones. */
  function Seen(db: Db): (ws: seq<Write>)
    ensures forall w :: w in ws <==>
      w in db.committed || (db.tx.Some? && !db.tx.value.aborted && w in db.tx.value.writes)
  {
    db.committed + (if db.tx.Some? && !db.tx.value.aborted then db.tx.value.writes else [])
  }

  /** `writeEvent`: a plain INSERT outside a transaction, the savepoint protocol inside one. */
  function EventWritten(db: Db, row: Row, f: EventFaults): (r: (Db, bool)) {
    match db.tx
    case None =>
      (if f.insert.Delivered? || f.insert.Lost? then db.(committed := db.committed + [Outbox(row)]) else db,
       f.insert.Delivered?)
    case Some(tx) => (db.(tx := Some(Publish(tx, row, f).0)), Publish(tx, row, f).1)
  }

  /** A database session: the committed outbox and business rows, and the transaction on the context. */
  class Session {
    var committed: seq<Write>
    var tx: Option<Tx>

    constructor ()
      ensures committed == [] && tx == None
    {
      committed, tx := [], None;
    }

    function State(): (db: Db)
      reads this
    {
      Db(committed, tx)
    }

    method Execute(stmt: Stmt, fault: Fault) returns (ok: bool)
      requires tx.Some?
      modifies this`tx
      ensures tx == Some(Exec(old(tx.value), stmt, fault).0)
      ensures ok == Exec(old(tx.value), stmt, fault).1
      ensures fault.Rejected? ==> !ok && tx == Some(old(tx.value).(aborted := true))
      ensures fault.NotSent? ==> !ok && tx == old(tx)
      ensures old(tx.value).aborted && !stmt.RollbackTo? ==> !ok && tx == old(tx)
      ensures !old(tx.value).aborted && stmt.Insert? && (fault.Delivered? || fault.Lost?) ==>
        ok == fault.Delivered? && tx == Some(old(tx.value).(writes := old(tx.value).writes + [stmt.w]))
    {
      if tx.value.aborted && !stmt.RollbackTo? { AbortedRefuses(tx.value, stmt, fault); }
      var (t, success) := Exec(tx.value, stmt, fault);
      tx, ok := Some(t), success;
    }

    /**
     `writeEvent`. Outside a transaction the row is a plain INSERT; inside one it is fenced by a
     savepoint and a failed INSERT is swallowed. Returns whether the Go function returned nil.
     */
    method WriteEvent(row: Row, f: EventFaults) returns (ok: bool)
      modifies this
      ensures (State(), ok) == EventWritten(old(State()), row, f)
      ensures old(tx).None? ==>
        && tx == None && ok == f.insert.Delivered?
        && committed == old(committed) + (if f.insert.Delivered? || f.insert.Lost? then [Outbox(row)] else [])
      ensures old(tx).Some? ==> tx.Some? && committed == old(committed)
      ensures old(tx).Some? ==> (tx.value.aborted <==> old(tx.value).aborted || Dooms(f))
      ensures old(tx).Some? && ok ==>
        && !old(tx.value).aborted
        && tx.value.writes == old(tx.value).writes + (if f.insert.Delivered? then [Outbox(row)] else [])
        && (tx.value.aborted <==> f.release.Rejected?)
    {
      if tx.None? {
        if f.insert.Delivered? || f.insert.Lost? {
          committed := committed + [Outbox(row)];
        }
        return f.insert.Delivered?;
      }
      if Publish(tx.value, row, f).1 { PublishContract(tx.value, row, f); }
      PublishAbortsIff(tx.value, row, f);
      var saved := Execute(SetSavepoint(PUBLISH_SP), f.savepoint);
      if !saved {
        return false;
      }
      var inserted := Execute(Insert(Outbox(row)), f.insert);
      if !inserted {
        var rolledBack := Execute(RollbackTo(PUBLISH_SP), f.rollback);
        if !rolledBack {
          return false;
        }
        var _ := Execute(Release(PUBLISH_SP), f.release);
        return true;
      }
      var _ := Execute(Release(PUBLISH_SP), f.release);
      return true;
    }

    /** Runs the body of a transaction on the one in the context, statement by statement. */
    method RunBody(steps: seq<Step>)
      requires tx.Some?
      modifies this
      ensures committed == old(committed) && tx == Some(Run(old(tx.value), steps))
      decreases steps, 0
    {
      var i := 0;
      while i < |steps|
        invariant 0 <= i <= |steps| && committed == old(committed) && tx.Some?
        invariant Run(tx.value, steps[i..]) == Run(old(tx.value), steps)
      {
        match steps[i] {
          case Do(stmt, fault) => var _ := Execute(stmt, fault);
          case Emit(row, faults) => var _ := WriteEvent(row, faults);
          case Nested(body, failed) => var _ := WithTransaction(body, failed, Delivered);
        }
        assert steps[i..][1..] == steps[i + 1..];
        i := i + 1;
      }
      assert steps[|steps|..] == [];
    }

    /** `WithTransaction`: joins the transaction on the context, or opens one and settles it. */
    method WithTransaction(body: seq<Step>, failed: bool, commit: Fault) returns (ok: bool)
      modifies this
      ensures old(tx).Some? ==> committed == old(committed) && tx == Some(Run(old(tx.value), body)) && ok == !failed
      ensures old(tx).None? ==> tx == None && (committed, ok) == Transact(old(committed), body, failed, commit)
      decreases body, 1
    {
      if tx.Some? {
        RunBody(body);
        return !failed;
      }
      tx := Some(FRESH);
      RunBody(body);
      committed, ok := Finish(committed, tx.value, failed, commit).0, Finish(committed, tx.value, failed, commit).1;
      tx := None;
    }
  }
}
