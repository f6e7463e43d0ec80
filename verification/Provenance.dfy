/** Where a document comes from: statements about whole runs of requests, starting from the empty store. */
module Provenance {
  import opened Prelude
  import opened Ledger
  import opened Documents
  import opened Posting
  import opened Invariants
  import DecimalSums
  import DecimalText

  /** The state before request number `n` of the run. */
  function At(p: Policy, reqs: seq<Request>, n: nat): Db
    requires n <= |reqs|
  {
    Run(p, EMPTY, reqs[..n])
  }

  lemma AtNext(p: Policy, reqs: seq<Request>, n: nat)
    requires n < |reqs|
    ensures At(p, reqs, n + 1) == Next(p, At(p, reqs, n), reqs[n])
  {
    assert reqs[..n + 1][..n] == reqs[..n];
  }

  /** Statuses only ever descend, and documents are never removed. */
  lemma {:induction false} StatusDescends(p: Policy, reqs: seq<Request>, id: nat, n: nat, m: nat)
    requires n <= m <= |reqs| && id < |At(p, reqs, n).docs|
    ensures id < |At(p, reqs, m).docs|
    ensures Rank(At(p, reqs, m).docs[id].status) <= Rank(At(p, reqs, n).docs[id].status)
    ensures At(p, reqs, n).docs[id].status == Rejected ==> At(p, reqs, m).docs[id] == At(p, reqs, n).docs[id]
    decreases m - n
  {
    if n < m {
      AtNext(p, reqs, n);
      EveryDocStep(p, At(p, reqs, n), reqs[n], id);
      StatusDescends(p, reqs, id, n + 1, m);
    }
  }

  /** A step never touches a document's origin, and changes what it posts only while it is a draft. */
  lemma StatusStep(p: Policy, db: Db, req: Request, id: nat)
    requires id < |db.docs|
    ensures id < |Next(p, db, req).docs|
    ensures SameOrigin(db.docs[id], Next(p, db, req).docs[id])
    ensures db.docs[id].status != Draft ==> SameEffects(db.docs[id], Next(p, db, req).docs[id])
  {
    EveryDocStep(p, db, req, id);
  }

  /** A document that did not start as a reversal reached its status by a step, and what it posts has not changed since. */
  lemma {:induction false} Entered(p: Policy, reqs: seq<Request>, m: nat, id: nat) returns (n: nat)
    requires m <= |reqs| && id < |At(p, reqs, m).docs|
    requires At(p, reqs, m).docs[id].reversalOf.None? && At(p, reqs, m).docs[id].status != Draft
    ensures n < m && id < |At(p, reqs, n).docs| && id < |At(p, reqs, n + 1).docs|
    ensures At(p, reqs, n).docs[id].status != At(p, reqs, m).docs[id].status
    ensures At(p, reqs, n + 1).docs[id].status == At(p, reqs, m).docs[id].status
    ensures SameEffects(At(p, reqs, n + 1).docs[id], At(p, reqs, m).docs[id])
    ensures SameOrigin(At(p, reqs, n).docs[id], At(p, reqs, m).docs[id])
    decreases m
  {
    hide Next;
    assert reqs[..0] == [];
    AtNext(p, reqs, m - 1);
    var db, req := At(p, reqs, m - 1), reqs[m - 1];
    if id >= |db.docs| {
      AddedStatus(p, db, req, id);
      assert false;
    }
    StatusStep(p, db, req, id);
    if db.docs[id].status == At(p, reqs, m).docs[id].status {
      n := Entered(p, reqs, m - 1, id);
      SameEffectsTrans(At(p, reqs, n + 1).docs[id], db.docs[id], At(p, reqs, m).docs[id]);
    } else {
      n := m - 1;
    }
  }

  lemma SameEffectsTrans(a: Doc, b: Doc, c: Doc)
    requires SameEffects(a, b) && SameEffects(b, c)
    ensures SameEffects(a, c)
  {
  }

  /** A new document is a draft unless it is a reversal. */
  lemma AddedStatus(p: Policy, db: Db, req: Request, id: nat)
    requires |db.docs| <= id < |Next(p, db, req).docs|
    ensures Next(p, db, req).docs[id].version == 0
    ensures Next(p, db, req).docs[id].status == Draft || Next(p, db, req).docs[id].reversalOf.Some?
  {
    hide Next, PlanOf, ReversalOf, LinesOf, Material;
    AddedShape(p, db, req, id);
    if req.Reverse? {
      ReversalFields(db.balances, req.id, db.docs[req.id], req.actor);
    }
  }

  lemma ReversalFields(b: Ledger.Balances, id: nat, d: Doc, actor: nat)
    ensures ReversalOf(b, id, d, actor).version == 0 && ReversalOf(b, id, d, actor).reversalOf == Some(id)
  {
  }

  /** Request `n` of the run takes document `id` from one status to another. */
  predicate Enters(p: Policy, reqs: seq<Request>, id: nat, n: nat, from: Status, to: Status) {
    && n < |reqs|
    && id < |At(p, reqs, n).docs| && At(p, reqs, n).docs[id].status == from
    && id < |At(p, reqs, n + 1).docs| && At(p, reqs, n + 1).docs[id].status == to
  }

  /** Requests `a`, `b` and `c` are the submission, the approval and the posting that led to `d`. */
  predicate PostedBy(p: Policy, reqs: seq<Request>, id: nat, d: Doc, a: nat, b: nat, c: nat) {
    && a < b < c < |reqs|
    && Enters(p, reqs, id, a, Draft, Submitted)
    && Enters(p, reqs, id, b, Submitted, Approved)
    && Enters(p, reqs, id, c, Approved, Posted)
    && reqs[a].Submit? && reqs[a].id == id && reqs[a].kind == d.kind
    && reqs[b].Approve? && reqs[b].id == id
    && (SelfApprovalBarred(p, d.kind) ==> reqs[b].actor != d.createdBy)
    && reqs[c].Post? && reqs[c].id == id
    && SameEffects(At(p, reqs, a + 1).docs[id], d)
  }

  /** Which request is behind a status change. */
  lemma StatusCause(p: Policy, reqs: seq<Request>, id: nat, n: nat)
    requires n < |reqs| && id < |At(p, reqs, n).docs|
    ensures id < |At(p, reqs, n + 1).docs|
    ensures
      var d, e, req := At(p, reqs, n).docs[id], At(p, reqs, n + 1).docs[id], reqs[n];
      && SameOrigin(d, e)
      && (d.status != Draft ==> SameEffects(d, e))
      && (d.status != e.status ==>
        match e.status
        case Submitted => d.status == Draft && req.Submit? && req.id == id && req.kind == d.kind
        case Approved =>
          && d.status == Submitted && req.Approve? && req.id == id
          && (SelfApprovalBarred(p, d.kind) ==> req.actor != d.createdBy)
        case Rejected => d.status == Submitted && req.Reject? && req.id == id
        case Posted => d.status == Approved && req.Post? && req.id == id
        case _ => false)
  {
    AtNext(p, reqs, n);
    EveryDocStep(p, At(p, reqs, n), reqs[n], id);
    StatusStep(p, At(p, reqs, n), reqs[n], id);
  }

  /**
   * The history behind a posted document that is not a reversal: it was submitted, then approved,
   * then posted, each by a request on that document; the approver was not the creator if the policy
   * bars that; the quantities posted are those fixed at submission; and it was never rejected.
   */
  lemma PostedDocumentsWereApproved(p: Policy, reqs: seq<Request>, id: nat)
    requires id < |At(p, reqs, |reqs|).docs|
    requires At(p, reqs, |reqs|).docs[id].status == Posted && At(p, reqs, |reqs|).docs[id].reversalOf.None?
    ensures exists a, b, c :: PostedBy(p, reqs, id, At(p, reqs, |reqs|).docs[id], a, b, c)
    ensures forall n: nat :: n <= |reqs| && id < |At(p, reqs, n).docs| ==> At(p, reqs, n).docs[id].status != Rejected
  {
    forall n: nat | n <= |reqs| && id < |At(p, reqs, n).docs|
      ensures At(p, reqs, n).docs[id].status != Rejected
    {
      StatusDescends(p, reqs, id, n, |reqs|);
    }
    var c := Entered(p, reqs, |reqs|, id);
    StatusCause(p, reqs, id, c);
    var b := Entered(p, reqs, c, id);
    StatusCause(p, reqs, id, b);
    var a := Entered(p, reqs, b, id);
    StatusCause(p, reqs, id, a);
    SameEffectsTrans(At(p, reqs, a + 1).docs[id], At(p, reqs, b).docs[id], At(p, reqs, b + 1).docs[id]);
    SameEffectsTrans(At(p, reqs, a + 1).docs[id], At(p, reqs, b + 1).docs[id], At(p, reqs, c).docs[id]);
    SameEffectsTrans(At(p, reqs, a + 1).docs[id], At(p, reqs, c).docs[id], At(p, reqs, c + 1).docs[id]);
    SameEffectsTrans(At(p, reqs, a + 1).docs[id], At(p, reqs, c + 1).docs[id], At(p, reqs, |reqs|).docs[id]);
    assert PostedBy(p, reqs, id, At(p, reqs, |reqs|).docs[id], a, b, c);
  }

  // ---------------------------------------------------------------- versions, termination, rejection

  /** Request `req` counts as a version step of document `id`. */
  predicate VersionStep(p: Policy, db: Db, req: Request, id: nat) {
    && id < |db.docs|
    && Handle(p, db, req).Done?
    && match req
       case UpdateAdjustment(_, _, i, _) => i == id
       case UpdateCount(_, _, i, _) => i == id
       case Submit(_, _, _, i) => i == id
       case Approve(_, _, _, i) => i == id
       case Reject(_, _, _, i) => i == id
       case Post(_, _, _, i, _) => i == id && PlanOf(db, req).Execute?
       case _ => false
  }

  function VersionSteps(p: Policy, reqs: seq<Request>, id: nat): nat {
    if reqs == [] then 0
    else
      VersionSteps(p, reqs[..|reqs| - 1], id) +
      (if VersionStep(p, Run(p, EMPTY, reqs[..|reqs| - 1]), reqs[|reqs| - 1], id) then 1 else 0)
  }

  /** `version` is the number of accepted updates, submissions, approvals, rejections and postings. */
  lemma {:induction false} VersionCountsSteps(p: Policy, reqs: seq<Request>, id: nat)
    ensures var docs := Run(p, EMPTY, reqs).docs;
      VersionSteps(p, reqs, id) == if id < |docs| then docs[id].version else 0
  {
    if reqs != [] {
      var front, req := reqs[..|reqs| - 1], reqs[|reqs| - 1];
      VersionCountsSteps(p, front, id);
      var db := Run(p, EMPTY, front);
      EmptyInv(p);
      RunKeepsInv(p, EMPTY, front);
      if id < |db.docs| {
        EveryDocStep(p, db, req, id);
        OneVersionStep(p, db, req, id);
      } else if id < |Next(p, db, req).docs| {
        AddedStatus(p, db, req, id);
      }
    }
  }

  lemma OneVersionStep(p: Policy, db: Db, req: Request, id: nat)
    requires id < |db.docs|
    ensures id < |Next(p, db, req).docs|
    ensures Next(p, db, req).docs[id].version == db.docs[id].version + if VersionStep(p, db, req, id) then 1 else 0
  {
    hide Next, VersionStep;
    if req.Post? || req.Reverse? {
      TransactionVersionStep(p, db, req, id);
    } else {
      DirectVersionStep(p, db, req, id);
    }
  }

  lemma DirectVersionStep(p: Policy, db: Db, req: Request, id: nat)
    requires id < |db.docs| && !req.Post? && !req.Reverse?
    ensures id < |Next(p, db, req).docs|
    ensures Next(p, db, req).docs[id].version == db.docs[id].version + if VersionStep(p, db, req, id) then 1 else 0
  {
    hide EnterCounts, LinesOf, ItemsAccepted, Material, ApplyAll, Sort, AllCounted, PostedRows;
  }

  lemma TransactionVersionStep(p: Policy, db: Db, req: Request, id: nat)
    requires id < |db.docs| && (req.Post? || req.Reverse?)
    ensures id < |Next(p, db, req).docs|
    ensures Next(p, db, req).docs[id].version == db.docs[id].version + if VersionStep(p, db, req, id) then 1 else 0
  {
    hide PlanOf, Handle, Next, StampLines, NegatedLines, ReversalOf, VersionStep, Moves, ApplyAll, Sort;
    VersionedTransaction(p, db, req, id);
    TransactionStep(p, db, req);
    if PlanOf(db, req).Execute? {
      PlanShape(db, req, PlanOf(db, req).writes);
    }
  }

  /** Of the transactions, only a posting that is carried out, and no replay, counts. */
  lemma VersionedTransaction(p: Policy, db: Db, req: Request, id: nat)
    requires id < |db.docs| && (req.Post? || req.Reverse?)
    ensures VersionStep(p, db, req, id) <==> req.Post? && req.id == id && PlanOf(db, req).Execute?
  {
    hide PlanOf, Handle;
    TransactionStep(p, db, req);
  }

  function StatusSteps(p: Policy, reqs: seq<Request>, id: nat): nat {
    if reqs == [] then 0
    else
      var db, db' := Run(p, EMPTY, reqs[..|reqs| - 1]), Run(p, EMPTY, reqs);
      StatusSteps(p, reqs[..|reqs| - 1], id) +
      (if id < |db.docs| && id < |db'.docs| && db'.docs[id].status != db.docs[id].status then 1 else 0)
  }

  /** However long the run, a document takes at most three status steps, and `Reversed` is never reached. */
  lemma {:induction false} FewStatusSteps(p: Policy, reqs: seq<Request>, id: nat)
    ensures var docs := Run(p, EMPTY, reqs).docs;
      if id < |docs| then StatusSteps(p, reqs, id) + Rank(docs[id].status) <= 4 && StatusSteps(p, reqs, id) <= 3 && docs[id].status != Reversed
      else StatusSteps(p, reqs, id) == 0
  {
    if reqs != [] {
      var front, req := reqs[..|reqs| - 1], reqs[|reqs| - 1];
      FewStatusSteps(p, front, id);
      EmptyInv(p);
      RunKeepsInv(p, EMPTY, front);
      hide Next, Rank, Inv;
      RankStep(p, Run(p, EMPTY, front), req, id);
      assert Run(p, EMPTY, reqs) == Next(p, Run(p, EMPTY, front), req);
    }
  }

  /** A step keeps a document's status or lowers its rank from two or more, and a new document is not yet reversed. */
  lemma RankStep(p: Policy, db: Db, req: Request, id: nat)
    requires Inv(p, db)
    ensures id < |db.docs| ==>
      var d, docs := db.docs[id], Next(p, db, req).docs;
      id < |docs| && docs[id].status != Reversed && (docs[id].status == d.status || (Rank(docs[id].status) < Rank(d.status) && 2 <= Rank(d.status)))
    ensures |db.docs| <= id < |Next(p, db, req).docs| ==>
      Rank(Next(p, db, req).docs[id].status) <= 4 && Next(p, db, req).docs[id].status != Reversed
  {
    hide Next, PlanOf, Material, EnterCounts, LinesOf, ItemsAccepted, ReversalOf;
    if id < |db.docs| {
      EveryDocStep(p, db, req, id);
      assert DocOk(p, db.ledger, db.docs[id]);
    } else if id < |Next(p, db, req).docs| {
      AddedDocOk(p, db, req, id);
    }
  }

  /** A rejected document has not moved stock, and never will. */
  lemma RejectedNeverMoves(p: Policy, reqs: seq<Request>, id: nat, n: nat, m: nat)
    requires n <= m <= |reqs| && id < |At(p, reqs, n).docs| && At(p, reqs, n).docs[id].status == Rejected
    ensures RowsOf(At(p, reqs, m).ledger, Document(id)) == []
  {
    StatusDescends(p, reqs, id, n, m);
    EmptyInv(p);
    RunKeepsInv(p, EMPTY, reqs[..m]);
    assert RowsOf(At(p, reqs, m).ledger, Document(id)) == DueRows(At(p, reqs, m).docs, id);
  }

  /**
   * The material flag: in every reachable state an adjustment, reversal or not, carries the flag its
   * lines give. For a threshold of at most ten to the digits kept, that is exactly whether its
   * absolute quantities truly sum to the threshold, and so always when some key's net change does.
   */
  lemma MaterialFlag(p: Policy, reqs: seq<Request>, id: nat, k: Key)
    requires id < |Run(p, EMPTY, reqs).docs| && Run(p, EMPTY, reqs).docs[id].kind == Adjustment
    ensures var d := Run(p, EMPTY, reqs).docs[id];
      && (d.elevated <==> Material(p, d.lines))
      && (p.digits >= 1 && p.threshold <= DecimalText.Pow10(p.digits) ==>
          && (d.elevated <==> Magnitude(d.lines) >= p.threshold)
          && (Abs(DocNet(d, k)) >= p.threshold ==> d.elevated))
  {
    EmptyInv(p);
    RunKeepsInv(p, EMPTY, reqs);
    var db := Run(p, EMPTY, reqs);
    hide Run, DecimalText.Pow10;
    assert DocOk(p, db.ledger, db.docs[id]);
    NetWithinMagnitude(db.docs[id], db.docs[id].lines, k);
    if p.digits >= 1 && p.threshold <= DecimalText.Pow10(p.digits) {
      DecimalSums.FlagFold(db.docs[id].lines, p.digits, p.threshold);
    }
  }
}
