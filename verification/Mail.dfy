/**
 Guaranteed mail (mail/mail.go): `SendWithOptions` publishes through the outbox and, when asked to,
 re-reads the row so that an event dropped by the non-fatal `writeEvent` becomes an error.
 */
module Mail {
  import opened Wrappers
  import opened Transactions
  import OutboxRelay
  import Delivery

  const TOPIC := "emails"
  const MAX_INLINE_ATTACHMENT_BYTES := 0x10_0000

  datatype Link = Link(entityType: string, entityId: string)

  datatype Attachment = Attachment(filename: string, fileId: Option<string>, contentLength: nat)

  /** An empty `id` stands for uuid.Nil. */
  datatype Message = Message(id: string, to: seq<string>, subject: string, html: string, text: string,
                             links: seq<Link>, attachments: seq<Attachment>, companyId: Option<string>, payload: string)

  datatype Error = Invalid | NoCompany | PublishFailed | VerifyFailed | Dropped

  /** `Message.validate`. */
  predicate Valid(m: Message) {
    && m.to != [] && (forall i :: 0 <= i < |m.to| ==> m.to[i] != "")
    && m.subject != "" && (m.html != "" || m.text != "")
    && (forall i :: 0 <= i < |m.links| ==> m.links[i].entityType != "" && m.links[i].entityId != "")
    && (forall i :: 0 <= i < |m.attachments| ==>
          && m.attachments[i].filename != ""
          && (m.attachments[i].fileId.Some? || m.attachments[i].contentLength > 0)
          && m.attachments[i].contentLength <= MAX_INLINE_ATTACHMENT_BYTES)
  }

  /** `OutboxEventExists` over the rows the query sees. */
  predicate EventExists(ws: seq<Write>, id: string) {
    exists i :: 0 <= i < |ws| && ws[i].Outbox? && ws[i].row.entityId == id
  }

  /** The outbox row of a message; the relay falls back to the entity type, so `topic` stays empty. */
  function RowOf(rowId: string, m: Message, now: int): (r: Row) {
    Row(rowId, m.id, TOPIC, "", m.payload, "PENDING", now)
  }

  /**
   One call of `SendWithOptions`: its message, the generated UUIDs, the clock, the company of the actor, and the
   fate of its statements. `verify` is None without a verifier, else the fate of the verifying query.
   */
  datatype Call = Call(m: Message, newId: string, rowId: string, now: int, actorCompany: Option<string>,
                       guaranteed: bool, verify: Option<Fault>, faults: EventFaults)

  function IdOf(c: Call): (id: string) {
    if c.m.id == "" then c.newId else c.m.id
  }

  function RowFor(c: Call): (r: Row) {
    RowOf(c.rowId, c.m.(id := IdOf(c)), c.now)
  }

  predicate Complete(c: Call) {
    Valid(c.m) && (c.m.companyId.Some? || c.actorCompany.Some?)
  }

  predicate Healthy(db: Db) {
    db.tx.Some? ==> !db.tx.value.aborted
  }

  /** What `SendWithOptions` makes of the database, and its answer. */
  function Send(db: Db, c: Call): (r: (Db, Result<string, Error>)) {
    if !Valid(c.m) then (db, Err(Invalid))
    else if !Complete(c) then (db, Err(NoCompany))
    else
      var (written, published) := EventWritten(db, RowFor(c), c.faults);
      (written, if published then Verified(written, c) else Err(PublishFailed))
  }

  /** The answer once the event is published, after the verifying query if there is one. */
  function Verified(db: Db, c: Call): (r: Result<string, Error>) {
    if !c.guaranteed || c.verify.None? then Ok(IdOf(c))
    else if !c.verify.value.Delivered? || !Healthy(db) then Err(VerifyFailed)
    else if EventExists(Seen(db), IdOf(c)) then Ok(IdOf(c))
    else Err(Dropped)
  }

  /** A guaranteed call that verified its event and returned an id. */
  predicate Guaranteed(db: Db, c: Call) {
    c.guaranteed && c.verify.Some? && Send(db, c).1.Ok?
  }

  /** A publish that returned nil shows what was there before, and the row if its INSERT was answered. */
  lemma PublishedShows(db: Db, row: Row, f: EventFaults)
    requires EventWritten(db, row, f).1 && Healthy(EventWritten(db, row, f).0)
    ensures Healthy(db)
    ensures Seen(EventWritten(db, row, f).0) == Seen(db) + (if f.insert.Delivered? then [Outbox(row)] else [])
  {
    if db.tx.Some? {
      PublishContract(db.tx.value, row, f);
    }
  }

  lemma ExistsAppend(ws: seq<Write>, more: seq<Write>, id: string)
    ensures EventExists(ws + more, id) <==> EventExists(ws, id) || EventExists(more, id)
  {
    if EventExists(ws, id) {
      var i :| 0 <= i < |ws| && ws[i].Outbox? && ws[i].row.entityId == id;
      assert (ws + more)[i] == ws[i];
    }
    if EventExists(more, id) {
      var i :| 0 <= i < |more| && more[i].Outbox? && more[i].row.entityId == id;
      assert (ws + more)[|ws| + i] == more[i];
    }
  }

  /**
   Exactly when a guaranteed call returns its id: the message is complete, the publish returned nil and left the
   session healthy, the verifying query was answered, and the event was inserted or its id was there before.
   */
  lemma GuaranteedIff(db: Db, c: Call)
    requires c.guaranteed && c.verify.Some?
    ensures var (written, published) := EventWritten(db, RowFor(c), c.faults);
      Send(db, c).1.Ok? <==>
        && Complete(c) && published && Healthy(written) && c.verify.value.Delivered?
        && (c.faults.insert.Delivered? || EventExists(Seen(db), IdOf(c)))
    ensures Send(db, c).1.Ok? ==> Send(db, c).1.value == IdOf(c) && EventExists(Seen(Send(db, c).0), IdOf(c))
  {
    var (written, published) := EventWritten(db, RowFor(c), c.faults);
    if published && Healthy(written) {
      var more := if c.faults.insert.Delivered? then [Outbox(RowFor(c))] else [];
      PublishedShows(db, RowFor(c), c.faults);
      ExistsAppend(Seen(db), more, IdOf(c));
      assert more != [] ==> more[0].row.entityId == IdOf(c);
    }
  }

  /** Without the guarantee a call returns its id exactly if its message is complete and the publish returned nil. */
  lemma PlainIff(db: Db, c: Call)
    ensures !c.guaranteed || c.verify.None? ==>
      (Send(db, c).1.Ok? <==> Complete(c) && EventWritten(db, RowFor(c), c.faults).1)
    ensures Send(db, c).1.Ok? ==> Send(db, c).1.value == if c.m.id == "" then c.newId else c.m.id
  {
  }

  /**
   What is refused before anything is published: a mail without recipients, subject or body, with an empty
   recipient, an unnamed link, an unnamed or empty attachment or one of more than one MiB; then one of no company.
   */
  lemma RefusedIff(db: Db, c: Call)
    ensures Send(db, c).1 == Err(Invalid) <==>
      || c.m.to == [] || "" in c.m.to || c.m.subject == "" || (c.m.html == "" && c.m.text == "")
      || (exists l :: l in c.m.links && (l.entityType == "" || l.entityId == ""))
      || (exists a :: a in c.m.attachments && (a.filename == "" || (a.fileId.None? && a.contentLength == 0)
                                               || a.contentLength > 1_048_576))
    ensures Send(db, c).1 == Err(NoCompany) <==> Valid(c.m) && c.m.companyId.None? && c.actorCompany.None?
    ensures Send(db, c).1 == Err(Invalid) || Send(db, c).1 == Err(NoCompany) ==> Send(db, c).0 == db
  {
    if Valid(c.m) {
      forall l | l in c.m.links ensures l.entityType != "" && l.entityId != "" {
        var i :| 0 <= i < |c.m.links| && c.m.links[i] == l;
      }
      forall a | a in c.m.attachments
        ensures a.filename != "" && (a.fileId.Some? || a.contentLength > 0) && a.contentLength <= 1_048_576
      {
        var i :| 0 <= i < |c.m.attachments| && c.m.attachments[i] == a;
      }
    }
  }

  /**
   The guarantee is per id, not per call: when the INSERT was dropped behind a nil, the verifying query notices
   exactly if the id has no row yet. A caller that reuses an id gets a success for an event that is gone.
   */
  lemma DropIsReportedIff(db: Db, c: Call)
    requires c.guaranteed && c.verify == Some(Delivered) && Complete(c) && !c.faults.insert.Delivered?
    requires EventWritten(db, RowFor(c), c.faults).1 && Healthy(EventWritten(db, RowFor(c), c.faults).0)
    ensures Send(db, c).1 == if EventExists(Seen(db), IdOf(c)) then Ok(IdOf(c)) else Err(Dropped)
    ensures Seen(Send(db, c).0) == Seen(db)
  {
    PublishedShows(db, RowFor(c), c.faults);
    assert Seen(db) + [] == Seen(db);
  }

  /**
   `SendWithOptions`. A guaranteed call returns an id exactly under the conditions of `GuaranteedIff`, and a
   dropped event goes unnoticed exactly if its id was visible before. Earlier writes of the caller stay in
   every case.
   */
  method SendWithOptions(s: Session, c: Call) returns (r: Result<string, Error>)
    requires c.newId != ""
    modifies s
    ensures (s.State(), r) == Send(old(s.State()), c)
    ensures r.Ok? ==> Complete(c) && r.value == (if c.m.id == "" then c.newId else c.m.id) != ""
    ensures !Valid(c.m) ==> r == Err(Invalid) && s.State() == old(s.State())
    ensures r.Ok? && c.guaranteed && c.verify.Some? ==> EventExists(Seen(s.State()), r.value)
    ensures r.Ok? && c.guaranteed && c.verify.Some? && !EventExists(old(Seen(s.State())), r.value) ==>
              Seen(s.State()) == old(Seen(s.State())) + [Outbox(RowFor(c))]
    ensures EventWritten(old(s.State()), RowFor(c), c.faults).1 && Healthy(s.State()) && !c.faults.insert.Delivered?
            && Complete(c) && c.guaranteed && c.verify == Some(Delivered) ==>
              (r.Ok? <==> EventExists(old(Seen(s.State())), IdOf(c)))
    ensures r == Err(Dropped) ==> c.guaranteed && c.verify.Some? && !c.faults.insert.Delivered?
    ensures old(s.tx).Some? ==>
              s.tx.Some? && s.committed == old(s.committed) && old(s.tx.value).writes <= s.tx.value.writes
    ensures old(s.tx).None? ==> s.tx.None? && old(s.committed) <= s.committed
  {
    ghost var before := s.State();
    EarlierWritesStay(before, c);
    PlainIff(before, c);
    if c.guaranteed && c.verify.Some? { GuaranteedIff(before, c); }
    if EventWritten(before, RowFor(c), c.faults).1 && Healthy(EventWritten(before, RowFor(c), c.faults).0) {
      PublishedShows(before, RowFor(c), c.faults);
    }
    if !Valid(c.m) {
      return Err(Invalid);
    }
    var id := IdOf(c);
    if c.m.companyId.None? && c.actorCompany.None? {
      return Err(NoCompany);
    }
    var published := s.WriteEvent(RowFor(c), c.faults);
    if !published {
      return Err(PublishFailed);
    }
    if c.guaranteed && c.verify.Some? {
      if !c.verify.value.Delivered? || !Healthy(s.State()) {
        return Err(VerifyFailed);
      }
      var found := EventExists(Seen(s.State()), id);
      if !found {
        return Err(Dropped);
      }
    }
    return Ok(id);
  }

  /** Whatever becomes of a call, nothing written before it is taken back. */
  lemma EarlierWritesStay(db: Db, c: Call)
    ensures db.tx.Some? ==>
      && Send(db, c).0.tx.Some? && Send(db, c).0.committed == db.committed
      && db.tx.value.writes <= Send(db, c).0.tx.value.writes
    ensures db.tx.None? ==> Send(db, c).0.tx.None? && db.committed <= Send(db, c).0.committed
  {
    if db.tx.Some? { PublishWrites(db.tx.value, RowFor(c), c.faults); }
  }

  // ---------------------------------------------------------------- end to end

  /** The body of a transaction that sends `c` after `before`, and goes on with `after`. */
  function Sending(before: seq<Step>, c: Call, after: seq<Step>): (body: seq<Step>) {
    before + [Emit(RowFor(c), c.faults)] + after
  }

  /** What the call leaves of the transaction it ran in. */
  function Sent(before: seq<Step>, c: Call): (tx: Tx) {
    Publish(Run(FRESH, before), RowFor(c), c.faults).0
  }

  /**
   A new id that a guaranteed call returned names a row the transaction commits exactly if the transaction
   commits at all and nothing after the call rolls back to a savepoint set before it.
   */
  lemma GuaranteedRowIsCommittedIff(seen: seq<Write>, before: seq<Step>, c: Call, after: seq<Step>,
                                    table: seq<Write>, failed: bool, commit: Fault)
    requires var db := Db(seen, Some(Run(FRESH, before)));
      Guaranteed(db, c) && !EventExists(Seen(db), IdOf(c))
    requires Outbox(RowFor(c)) !in table && forall s :: s in Flatten(after) ==> !Inserts(s, Outbox(RowFor(c)))
    ensures var body := Sending(before, c, after);
      Outbox(RowFor(c)) in Transact(table, body, failed, commit).0 <==>
        && Commits(Run(FRESH, body), failed, commit)
        && !Undone(Sent(before, c), Flatten(after), |Run(FRESH, before).writes|)
  {
    var tx, row := Run(FRESH, before), RowFor(c);
    var db := Db(seen, Some(tx));
    GuaranteedIff(db, c);
    PublishContract(tx, row, c.faults);
    RunThrough(before, Emit(row, c.faults), after);
    NotThereBefore(db, row);
    assert Sent(before, c).writes[..|tx.writes|] == tx.writes;
    KeptIff(Sent(before, c), after, |tx.writes|);
  }

  lemma NotThereBefore(db: Db, row: Row)
    requires db.tx.Some? && !db.tx.value.aborted && !EventExists(Seen(db), row.entityId)
    ensures Outbox(row) !in db.tx.value.writes
  {
    if Outbox(row) in db.tx.value.writes {
      OwnRowIsSeen(db, row);
    }
  }

  lemma OwnRowIsSeen(db: Db, row: Row)
    requires db.tx.Some? && !db.tx.value.aborted && Outbox(row) in db.tx.value.writes
    ensures EventExists(Seen(db), row.entityId)
  {
    var i :| 0 <= i < |db.tx.value.writes| && db.tx.value.writes[i] == Outbox(row);
    assert Seen(db)[|db.committed| + i] == Outbox(row);
  }

  /** An outbox row for `id`. */
  predicate Names(w: Write, id: string) {
    w.Outbox? && w.row.entityId == id
  }

  /** Some row for `id` in the transaction survives the rest of its body. */
  ghost predicate Survives(tx: Tx, rest: seq<Step>, id: string) {
    exists p :: 0 <= p < |tx.writes| && Names(tx.writes[p], id) && !Undone(tx, Flatten(rest), p)
  }

  /** The rows a query saw committed are committed in the database the relays work on. */
  ghost predicate SawCommitted(seen: seq<Write>, s: OutboxRelay.State) {
    forall row :: Outbox(row) in seen ==> row.id in s.committed && s.committed[row.id] == row
  }

  /**
   The promise behind Guaranteed, end to end. A guaranteed call returned an id in a transaction that commits,
   among any other activity of sessions and relays. If nothing after the call undid the row it saw, then from the
   commit on, in every state, a row for that id is in the outbox table or its message, keyed by the id, is in
   Kafka.
   */
  lemma GuaranteedMailIsNeverLost(s: OutboxRelay.State, trace: seq<OutboxRelay.Action>, t: nat, seen: seq<Write>,
                                  before: seq<Step>, c: Call, after: seq<Step>, failed: bool, commit: Fault)
    returns (row: Row)
    requires Guaranteed(Db(seen, Some(Run(FRESH, before))), c)
    requires SawCommitted(seen, OutboxRelay.Play(s, trace))
    requires EventExists(seen, IdOf(c)) || Survives(Sent(before, c), after, IdOf(c))
    requires OutboxRelay.Inv(s) && t !in s.txs && Commits(Run(FRESH, Sending(before, c, after)), failed, commit)
    requires Delivery.Performs(s, trace, t, Delivery.SessionActions(t, Sending(before, c, after), failed, commit))
    ensures Send(Db(seen, Some(Run(FRESH, before))), c).1 == Ok(row.entityId)
    ensures Delivery.TableOrKafka(OutboxRelay.Play(s, trace), row) && OutboxRelay.MessageOf(row).key == row.entityId
  {
    var body := Sending(before, c, after);
    GuaranteedIff(Db(seen, Some(Run(FRESH, before))), c);
    if EventExists(seen, IdOf(c)) {
      var i :| 0 <= i < |seen| && seen[i].Outbox? && seen[i].row.entityId == IdOf(c);
      row := seen[i].row;
      assert seen[i] == Outbox(row);
      OutboxRelay.PlayKeepsInv(s, trace);
      OutboxRelay.CommittedForever(OutboxRelay.Play(s, trace), row, []);
    } else {
      row := SurvivingRow(before, c, after);
      Delivery.SessionSettles(s, trace, t, body, failed, commit, row);
    }
  }

  lemma SurvivingRow(before: seq<Step>, c: Call, after: seq<Step>) returns (row: Row)
    requires Survives(Sent(before, c), after, IdOf(c))
    ensures row.entityId == IdOf(c) && row in Delivery.RowsOf(Run(FRESH, Sending(before, c, after)).writes)
  {
    var tx := Sent(before, c);
    var p :| 0 <= p < |tx.writes| && Names(tx.writes[p], IdOf(c)) && !Undone(tx, Flatten(after), p);
    row := tx.writes[p].row;
    RunThrough(before, Emit(RowFor(c), c.faults), after);
    NestingIsInlining(tx, after);
    KeptUnlessUndone(tx, Flatten(after), p);
    var w := Run(tx, after).writes;
    assert w[p] == w[..p + 1][p] == tx.writes[..p + 1][p] == Outbox(row);
    Delivery.RowsOfHas(w, p);
  }

  /** Everything in the table waits to be sent, but perhaps row `id`, and no relay holds a lock. */
  ghost predicate QuietBut(s: OutboxRelay.State, id: string) {
    s.relays == map[] && forall i :: i in s.table && i != id ==> s.table[i].status == "PENDING"
  }

  /**
   And it is sent. Take any state after the commit of a guaranteed call with a new id whose row was not undone, in
   which no relay holds a lock and the other rows wait: legal polls whose limits cover the table put a record on
   the log with the topic "emails", the returned id as its key, and the payload and time of the call.
   */
  lemma GuaranteedMailIsSent(s: OutboxRelay.State, trace: seq<OutboxRelay.Action>, t: nat, seen: seq<Write>,
                             before: seq<Step>, c: Call, after: seq<Step>, failed: bool, commit: Fault,
                             polls: seq<OutboxRelay.Poll>)
    requires Guaranteed(Db(seen, Some(Run(FRESH, before))), c)
    requires !EventExists(Seen(Db(seen, Some(Run(FRESH, before)))), IdOf(c))
    requires !Undone(Sent(before, c), Flatten(after), |Run(FRESH, before).writes|)
    requires OutboxRelay.Inv(s) && t !in s.txs && Commits(Run(FRESH, Sending(before, c, after)), failed, commit)
    requires Delivery.Performs(s, trace, t, Delivery.SessionActions(t, Sending(before, c, after), failed, commit))
    requires var s' := OutboxRelay.Play(s, trace);
      QuietBut(s', c.rowId) && OutboxRelay.Legal(s', polls) && OutboxRelay.Limits(polls) >= |s'.table|
    ensures var sent := OutboxRelay.Play(OutboxRelay.Play(s, trace), OutboxRelay.Batches(polls));
      exists e :: e in sent.kafka && e.id == c.rowId &&
        e.message == OutboxRelay.Message("emails", Send(Db(seen, Some(Run(FRESH, before))), c).1.value,
                                         c.m.payload, c.now)
  {
    var row, s' := RowFor(c), OutboxRelay.Play(s, trace);
    OwnRowSurvives(seen, before, c, after);
    Delivery.SessionSettles(s, trace, t, Sending(before, c, after), failed, commit, row);
    GuaranteedIff(Db(seen, Some(Run(FRESH, before))), c);
    OutboxRelay.PlayKeepsInv(s, trace);
    RowIsSent(s', row, polls);
  }

  lemma OwnRowSurvives(seen: seq<Write>, before: seq<Step>, c: Call, after: seq<Step>)
    requires Guaranteed(Db(seen, Some(Run(FRESH, before))), c)
    requires !EventExists(Seen(Db(seen, Some(Run(FRESH, before)))), IdOf(c))
    requires !Undone(Sent(before, c), Flatten(after), |Run(FRESH, before).writes|)
    ensures RowFor(c) in Delivery.RowsOf(Run(FRESH, Sending(before, c, after)).writes)
  {
    var tx, row := Run(FRESH, before), RowFor(c);
    var sent, p := Sent(before, c), |tx.writes|;
    GuaranteedIff(Db(seen, Some(tx)), c);
    PublishContract(tx, row, c.faults);
    RunThrough(before, Emit(row, c.faults), after);
    NestingIsInlining(sent, after);
    KeptUnlessUndone(sent, Flatten(after), p);
    var w := Run(sent, after).writes;
    assert w[p] == w[..p + 1][p] == sent.writes[..p + 1][p] == Outbox(row);
    Delivery.RowsOfHas(w, p);
  }

  /** A committed row that waits to be sent is sent by polls that cover the table. */
  lemma RowIsSent(s: OutboxRelay.State, row: Row, polls: seq<OutboxRelay.Poll>)
    requires OutboxRelay.Inv(s) && row.id in s.committed && s.committed[row.id] == row && row.status == "PENDING"
    requires QuietBut(s, row.id) && OutboxRelay.Legal(s, polls) && OutboxRelay.Limits(polls) >= |s.table|
    ensures OutboxRelay.EntryOf(row) in OutboxRelay.Play(s, OutboxRelay.Batches(polls)).kafka
  {
    assert row.id in s.table ==> s.table[row.id] == row;
    OutboxRelay.PollingDrainsIff(s, polls);
    OutboxRelay.CommittedForever(s, row, OutboxRelay.Batches(polls));
  }

  /** Without savepoint statements of the caller after the call, nothing more has to be asked. */
  lemma PlainBodiesKeepMail(seen: seq<Write>, before: seq<Step>, c: Call, after: seq<Step>)
    requires Guaranteed(Db(seen, Some(Run(FRESH, before))), c) && InsertsOnly(Flatten(after))
    ensures EventExists(seen, IdOf(c)) || Survives(Sent(before, c), after, IdOf(c))
  {
    var tx := Sent(before, c);
    GuaranteedIff(Db(seen, Some(Run(FRESH, before))), c);
    ExistsAppend(seen, tx.writes, IdOf(c));
    if !EventExists(seen, IdOf(c)) {
      var p :| 0 <= p < |tx.writes| && tx.writes[p].Outbox? && tx.writes[p].row.entityId == IdOf(c);
      InsertsUndoNothing(tx, Flatten(after), p);
      assert Names(tx.writes[p], IdOf(c));
    }
  }

  /** Outside a transaction the INSERT is a transaction of its own. */
  lemma MailOutsideIsNeverLost(s: OutboxRelay.State, trace: seq<OutboxRelay.Action>, t: nat, seen: seq<Write>, c: Call)
    requires Guaranteed(Db(seen, None), c) && OutboxRelay.Inv(s) && t !in s.txs
    requires var alone := [Do(Insert(Outbox(RowFor(c))), c.faults.insert)];
      Delivery.Performs(s, trace, t, Delivery.SessionActions(t, alone, false, Delivered))
    ensures Send(Db(seen, None), c).1 == Ok(RowFor(c).entityId)
    ensures Delivery.TableOrKafka(OutboxRelay.Play(s, trace), RowFor(c))
  {
    var step := Do(Insert(Outbox(RowFor(c))), c.faults.insert);
    GuaranteedIff(Db(seen, None), c);
    assert After(FRESH, step).writes == [Outbox(RowFor(c))];
    assert Run(FRESH, [step]) == Run(After(FRESH, step), []);
    Delivery.RowsOfHas([Outbox(RowFor(c))], 0);
    Delivery.SessionSettles(s, trace, t, [step], false, Delivered, RowFor(c));
  }
}
