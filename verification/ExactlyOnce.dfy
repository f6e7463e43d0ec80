/** The idempotency table over whole runs: one execution per key, and replays that always find their result. */
module ExactlyOnce {
  import opened Prelude
  import opened Ledger
  import opened Documents
  import opened Posting
  import opened Invariants

  predicate IsTransaction(req: Request) {
    req.Post? || req.Reverse?
  }

  /** The posting body runs and its effect is committed. */
  predicate Executes(db: Db, req: Request) {
    IsTransaction(req) && PlanOf(db, req).Execute?
  }

  /** How often a run executes a posting body under one idempotency key. */
  function Executions(p: Policy, db: Db, reqs: seq<Request>, ik: IdemKey): nat {
    if reqs == [] then 0
    else
      var last := reqs[|reqs| - 1];
      Executions(p, db, reqs[..|reqs| - 1], ik) +
      (if Executes(Run(p, db, reqs[..|reqs| - 1]), last) && IdemKeyOf(last) == ik then 1 else 0)
  }

  /** The table changes only by an execution, which inserts its own missing key and nothing else. */
  lemma TableStep(p: Policy, db: Db, req: Request)
    ensures Next(p, db, req).table ==
      if Executes(db, req)
      then db.table[IdemKeyOf(req) := Entry(PayloadOf(req), Target(db, PlanOf(db, req).writes))]
      else db.table
    ensures Executes(db, req) ==> IdemKeyOf(req) !in db.table
  {
    hide Next, PlanOf;
    if !IsTransaction(req) {
      DirectKeepsTable(p, db, req);
    } else {
      TransactionStep(p, db, req);
      if PlanOf(db, req).Execute? {
        PlanShape(db, req, PlanOf(db, req).writes);
      }
    }
  }

  /** An entry of the table is never changed and never removed. */
  lemma {:induction false} EntriesAreForever(p: Policy, db: Db, reqs: seq<Request>, ik: IdemKey)
    requires ik in db.table
    ensures ik in Run(p, db, reqs).table && Run(p, db, reqs).table[ik] == db.table[ik]
  {
    if reqs != [] {
      EntriesAreForever(p, db, reqs[..|reqs| - 1], ik);
      TableStep(p, Run(p, db, reqs[..|reqs| - 1]), reqs[|reqs| - 1]);
    }
  }

  /** Over any run a body is executed under a key once if the key is new and ends up in the table, and never otherwise. */
  lemma {:induction false} ExecutedOnce(p: Policy, db: Db, reqs: seq<Request>, ik: IdemKey)
    ensures Executions(p, db, reqs, ik) == if ik !in db.table && ik in Run(p, db, reqs).table then 1 else 0
  {
    if reqs != [] {
      var front, last := reqs[..|reqs| - 1], reqs[|reqs| - 1];
      ExecutedOnce(p, db, front, ik);
      TableStep(p, Run(p, db, front), last);
      if ik in db.table {
        EntriesAreForever(p, db, front, ik);
        EntriesAreForever(p, db, reqs, ik);
      }
    }
  }

  /** How a key that is already in the table is answered: with the recorded reference, or by a refusal; never with a change. */
  lemma KnownKeyAnswer(p: Policy, db: Db, req: Request)
    requires TableOk(db) && IsTransaction(req) && IdemKeyOf(req) in db.table
    ensures Handle(p, db, req) ==
      if db.table[IdemKeyOf(req)].payload == PayloadOf(req)
      then Done(db, db.table[IdemKeyOf(req)].ref)
      else Failed(KeyConflict)
    ensures Next(p, db, req) == db
  {
    assert EntryOk(db.docs, IdemKeyOf(req), db.table[IdemKeyOf(req)]);
  }

  lemma NewKeyExecutes(db: Db, req: Request)
    requires IsTransaction(req)
    ensures IdemKeyOf(req) !in db.table ==> !PlanOf(db, req).Replay?
  {
    hide ApplyAll, Sort, MovesOf, Written, StampLines, NegatedLines;
  }

  /** An accepted post or reversal is recorded, and the answer is the recorded reference to a posted document. */
  lemma SuccessIsRecorded(p: Policy, db: Db, req: Request)
    requires Inv(p, db) && IsTransaction(req) && Handle(p, db, req).Done?
    ensures
      var db', ref := Next(p, db, req), Handle(p, db, req).ref;
      && IdemKeyOf(req) in db'.table
      && db'.table[IdemKeyOf(req)] == Entry(PayloadOf(req), ref)
      && ref < |db'.docs| && db'.docs[ref].status == Posted
      && (if req.Post? then ref == req.id else db'.docs[ref].reversalOf == Some(req.id))
  {
    StepKeepsInv(p, db, req);
    TransactionStep(p, db, req);
    NewKeyExecutes(db, req);
    hide Handle, PlanOf;
    if IdemKeyOf(req) in db.table {
      KnownKeyAnswer(p, db, req);
      assert EntryOk(db.docs, IdemKeyOf(req), db.table[IdemKeyOf(req)]);
    } else {
      var db' := Next(p, db, req);
      PlanShape(db, req, PlanOf(db, req).writes);
      assert EntryOk(db'.docs, IdemKeyOf(req), db'.table[IdemKeyOf(req)]);
    }
  }

  /**
   * Resending: once a post or reversal has succeeded, the same request is answered with the same
   * reference at any later time and changes nothing, and the same key with another payload is
   * refused and changes nothing.
   */
  lemma ResendingIsHarmless(p: Policy, db: Db, req: Request, later: seq<Request>, again: Request)
    requires Inv(p, db) && IsTransaction(req) && Handle(p, db, req).Done?
    requires IsTransaction(again) && IdemKeyOf(again) == IdemKeyOf(req)
    ensures
      var now := Run(p, Next(p, db, req), later);
      && Handle(p, now, again) ==
         (if PayloadOf(again) == PayloadOf(req) then Done(now, Handle(p, db, req).ref) else Failed(KeyConflict))
      && Next(p, now, again) == now
  {
    SuccessIsRecorded(p, db, req);
    StepKeepsInv(p, db, req);
    EntriesAreForever(p, Next(p, db, req), later, IdemKeyOf(req));
    RunKeepsInv(p, Next(p, db, req), later);
    KnownKeyAnswer(p, Run(p, Next(p, db, req), later), again);
  }

  // ---------------------------------------------------------------- one posting per document

  /** How often a run executes the posting body of one document, under whatever keys. */
  function Postings(p: Policy, db: Db, reqs: seq<Request>, id: nat): nat {
    if reqs == [] then 0
    else
      var last := reqs[|reqs| - 1];
      Postings(p, db, reqs[..|reqs| - 1], id) +
      (if last.Post? && last.id == id && Executes(Run(p, db, reqs[..|reqs| - 1]), last) then 1 else 0)
  }

  predicate IsPosted(db: Db, id: nat) {
    id < |db.docs| && db.docs[id].status == Posted
  }

  /**
   * A document is posted at most once, even under different keys: in any run from the empty store
   * the body runs once if the document is now posted and is no reversal, and never otherwise; and
   * its rows are in the ledger exactly once if it is posted and not at all otherwise.
   */
  lemma {:induction false} PostedOnce(p: Policy, reqs: seq<Request>, id: nat)
    ensures var db := Run(p, EMPTY, reqs);
      && Postings(p, EMPTY, reqs, id) == (if IsPosted(db, id) && db.docs[id].reversalOf.None? then 1 else 0)
      && RowsOf(db.ledger, Document(id)) ==
         (if IsPosted(db, id) then PostedRows(Sort(Moves(db.docs[id])), Document(id)) else [])
  {
    EmptyInv(p);
    RunKeepsInv(p, EMPTY, reqs);
    assert RowsOf(Run(p, EMPTY, reqs).ledger, Document(id)) == DueRows(Run(p, EMPTY, reqs).docs, id);
    if reqs != [] {
      var front, last := reqs[..|reqs| - 1], reqs[|reqs| - 1];
      PostedOnce(p, front, id);
      RunKeepsInv(p, EMPTY, front);
      PostingStep(p, Run(p, EMPTY, front), last, id);
    }
  }

  lemma PostingStep(p: Policy, db: Db, req: Request, id: nat)
    requires DocsOk(p, db)
    ensures var db' := Next(p, db, req);
      if req.Post? && req.id == id && Executes(db, req)
      then !IsPosted(db, id) && IsPosted(db', id) && db'.docs[id].reversalOf.None?
      else (IsPosted(db', id) && db'.docs[id].reversalOf.None?) == (IsPosted(db, id) && db.docs[id].reversalOf.None?)
  {
    hide PlanOf, Handle, ApplyAll, Sort, MovesOf, NegatedLines, StampLines;
    var db' := Next(p, db, req);
    if IsTransaction(req) {
      TransactionStep(p, db, req);
      if Executes(db, req) {
        PlanShape(db, req, PlanOf(db, req).writes);
      }
    }
    if id < |db.docs| {
      EveryDocStep(p, db, req, id);
      assert db.docs[id].reversalOf.Some? ==> ReversalOk(db.docs, id);
    } else if id < |db'.docs| {
      AddedDocOk(p, db, req, id);
    }
  }
}
