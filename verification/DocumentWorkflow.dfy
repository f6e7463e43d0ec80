/** Approving and rejecting, which adjustments and counts share. */
module DocumentWorkflow {
  import opened Prelude
  import opened Ledger
  import opened Documents
  import opened Posting
  import opened Promises
  import opened Sessions
  import opened Invariants

  lemma KeepsInv(p: Policy, db: Db, req: Request)
    ensures Inv(p, db) ==> Inv(p, Next(p, db, req))
  {
    if Inv(p, db) {
      StepKeepsInv(p, db, req);
    }
  }

  /** A rejected document stays rejected, and so never gets a ledger row. */
  lemma {:induction false} RejectedForever(p: Policy, db: Db, later: seq<Request>, id: nat)
    requires Inv(p, db) && id < |db.docs| && db.docs[id].status == Rejected
    ensures id < |Run(p, db, later).docs| && Run(p, db, later).docs[id].status == Rejected
    ensures RowsOf(Run(p, db, later).ledger, Document(id)) == []
  {
    RunKeepsInv(p, db, later);
    if later != [] {
      var before := Run(p, db, later[..|later| - 1]);
      RejectedForever(p, db, later[..|later| - 1], id);
      EveryDocStep(p, before, later[|later| - 1], id);
    }
    hide Next, Handle;
    assert RowsOf(Run(p, db, later).ledger, Document(id)) == DueRows(Run(p, db, later).docs, id);
  }

  /** A submitted document is approved unless the policy bars its creator; nothing but its workflow fields changes. */
  method ApproveDocument(p: Policy, s: Session, kind: Kind, org: nat, actor: nat, id: nat) returns (r: Result<nat, Error>)
    modifies s`docs
    ensures CarriesOrKeeps(Handle(p, old(s.View()), Approve(kind, org, actor, id)), r, old(s.View()), s.View())
    ensures r == if !Has(old(s.View()), kind, org, id) then Err(NotFound)
                 else if Barred(p, kind, old(s.docs)[id], actor) then Err(Forbidden)
                 else if old(s.docs)[id].status != Submitted then Err(BusinessRule)
                 else Ok(id)
    ensures r.Ok? ==> IsApproved(old(s.View()), s.View(), actor, id)
    ensures Inv(p, old(s.View())) ==> Inv(p, s.View())
  {
    KeepsInv(p, s.View(), Approve(kind, org, actor, id));
    ApproveAnswer(p, s.View(), kind, org, actor, id);
    hide Inv;
    if !Owns(s.View(), kind, org, id) {
      return Err(NotFound);
    }
    var doc := s.docs[id];
    if SelfApprovalBarred(p, kind) && doc.createdBy == actor {
      return Err(Forbidden);
    }
    if !CanTransition(doc.status, Approved) {
      return Err(BusinessRule);
    }
    doc := doc.(status := Approved, approvedBy := Some(actor), version := doc.version + 1);
    s.SaveDoc(id, doc);
    return Ok(id);
  }

  /** A submitted document is rejected; nothing but its workflow fields changes, and it never moves stock. */
  method RejectDocument(p: Policy, s: Session, kind: Kind, org: nat, actor: nat, id: nat) returns (r: Result<nat, Error>)
    modifies s`docs
    ensures CarriesOrKeeps(Handle(p, old(s.View()), Reject(kind, org, actor, id)), r, old(s.View()), s.View())
    ensures r == if !Has(old(s.View()), kind, org, id) then Err(NotFound)
                 else if old(s.docs)[id].status != Submitted then Err(BusinessRule)
                 else Ok(id)
    ensures r.Ok? ==> IsRejected(old(s.View()), s.View(), actor, id)
    ensures r.Ok? && Inv(p, old(s.View())) ==> forall later :: RowsOf(Run(p, s.View(), later).ledger, Document(id)) == []
    ensures Inv(p, old(s.View())) ==> Inv(p, s.View())
  {
    KeepsInv(p, s.View(), Reject(kind, org, actor, id));
    RejectAnswer(p, s.View(), kind, org, actor, id);
    hide Inv, Run;
    if !Owns(s.View(), kind, org, id) {
      return Err(NotFound);
    }
    var doc := s.docs[id];
    if !CanTransition(doc.status, Rejected) {
      return Err(BusinessRule);
    }
    doc := doc.(status := Rejected, rejectedBy := Some(actor), version := doc.version + 1);
    s.SaveDoc(id, doc);
    if Inv(p, old(s.View())) {
      forall later ensures RowsOf(Run(p, s.View(), later).ledger, Document(id)) == [] {
        RejectedForever(p, s.View(), later, id);
      }
    }
    return Ok(id);
  }
}
