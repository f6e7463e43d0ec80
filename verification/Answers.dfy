/** How posting and reversing answer, in every state and for every request. */
module Answers {
  import opened Prelude
  import opened Ledger
  import opened Documents
  import opened Posting
  import opened Promises
  import opened Sessions

  lemma {:induction false} RowsNameTheirRef(ms: seq<Movement>, ref: Ref)
    ensures forall r :: r in PostedRows(ms, ref) ==> r.ref == ref && r.quantity != 0
  {
    if ms != [] {
      RowsNameTheirRef(ms[..|ms| - 1], ref);
    }
  }

  /** An accepted batch of a document's movements is in the balances and in the ledger. */
  lemma BatchMovesStock(before: Db, after: Db, d: Doc, ref: nat)
    requires ApplyAll(before.balances, Moves(d)).Applied?
    requires after.balances == ApplyAll(before.balances, Moves(d)).balances
    requires after.ledger == before.ledger + PostedRows(Sort(Moves(d)), Document(ref))
    ensures StockMoved(before, after, d, ref)
  {
    hide ApplyAll, Sort, PostedRows, NetRows, DocNet, Moves, OnKey, Net;
    var rows := PostedRows(Sort(Moves(d)), Document(ref));
    ApplyAllEffect(before.balances, Moves(d));
    RowsNameTheirRef(Sort(Moves(d)), Document(ref));
    SortingIsHarmless(before.balances, Moves(d));
    assert after.ledger[..|before.ledger|] == before.ledger && after.ledger[|before.ledger|..] == rows;
    forall k ensures Net(Moves(d), k) == DocNet(d, k) && NetRows(rows, k) == DocNet(d, k) {
      NetOfMoves(d, k);
      PostedRowsMeaning(Sort(Moves(d)), Document(ref), k);
    }
  }

  lemma NetOfMoves(d: Doc, k: Key)
    ensures Net(Moves(d), k) == DocNet(d, k)
  {
    MovesNet(d, d.lines, k);
  }

  lemma PayableIffApplied(b: Balances, d: Doc)
    ensures Payable(b, d) <==> ApplyAll(b, Moves(d)).Applied?
  {
    ApplyAllMeaning(b, Moves(d));
  }

  /** Other modules' movements are accepted exactly when every key can afford them; their rows name no document. */
  lemma OtherMovementsAnswer(p: Policy, db: Db, ms: seq<Movement>)
    ensures var out := Handle(p, db, OtherMovements(ms));
      if exists k :: !Affordable(OnHand(db.balances, k), OnKey(ms, k)) then out == Failed(InsufficientStock)
      else
        && out.Done? && out.db == db.(balances := out.db.balances, ledger := out.db.ledger)
        && (forall k :: OnHand(out.db.balances, k) == OnHand(db.balances, k) + Net(ms, k))
        && |db.ledger| <= |out.db.ledger| && out.db.ledger[..|db.ledger|] == db.ledger
        && (forall k :: NetRows(out.db.ledger[|db.ledger|..], k) == Net(ms, k))
        && forall r :: r in out.db.ledger[|db.ledger|..] ==> r.ref == External && r.quantity != 0
  {
    SortingIsHarmless(db.balances, ms);
    ApplyAllMeaning(db.balances, ms);
    hide ApplyAll, Sort, PostedRows, NetRows;
    if forall k :: Affordable(OnHand(db.balances, k), OnKey(ms, k)) {
      var out := Handle(p, db, OtherMovements(ms));
      RowsNameTheirRef(Sort(ms), External);
      assert out.db.ledger[|db.ledger|..] == PostedRows(Sort(ms), External);
      forall k ensures NetRows(out.db.ledger[|db.ledger|..], k) == Net(ms, k) {
        PostedRowsMeaning(Sort(ms), External, k);
      }
    }
  }

  /** A known key is answered from the table; otherwise an approved document is posted if every key can afford it. */
  lemma PostAnswer(p: Policy, db: Db, kind: Kind, org: nat, actor: nat, id: nat, key: string)
    ensures var out := Handle(p, db, Post(kind, org, actor, id, key));
      var ik, payload := IdemKey(org, PostScope(kind), key), PostPayload(id);
      if key == "" then out == Failed(KeyRequired)
      else if ik in db.table then
        if db.table[ik].payload != payload then out == Failed(KeyConflict)
        else if Has(db, kind, org, db.table[ik].ref) then out == Done(db, db.table[ik].ref)
        else out == Failed(NotFound)
      else if !Has(db, kind, org, id) then out == Failed(NotFound)
      else if db.docs[id].status != Approved then out == Failed(BusinessRule)
      else if !Payable(db.balances, db.docs[id]) then out == Failed(InsufficientStock)
      else out.Done? && out.ref == id && IsPosted(db, out.db, actor, id) && OnlyRecorded(db, out.db, ik, Entry(payload, id))
  {
    var req := Post(kind, org, actor, id, key);
    var ik := IdemKey(org, PostScope(kind), key);
    if key != "" && ik !in db.table {
      PostOutcome(db, req);
      if Has(db, kind, org, id) && db.docs[id].status == Approved {
        PayableIffApplied(db.balances, db.docs[id]);
        if Payable(db.balances, db.docs[id]) {
          PostDone(p, db, req);
        }
      }
    }
  }

  lemma TransactionIs(p: Policy, db: Db, req: Request)
    requires req.Post? || req.Reverse?
    ensures Handle(p, db, req) == Transact(db, req)
  {
    hide PlanOf, ApplyWrites;
  }

  lemma PostDone(p: Policy, db: Db, req: Request)
    requires req.Post? && req.key != "" && IdemKeyOf(req) !in db.table && Has(db, req.kind, req.org, req.id)
    requires db.docs[req.id].status == Approved && ApplyAll(db.balances, Moves(db.docs[req.id])).Applied?
    ensures var out := Handle(p, db, req);
      && out.Done? && out.ref == req.id && IsPosted(db, out.db, req.actor, req.id)
      && OnlyRecorded(db, out.db, IdemKey(req.org, PostScope(req.kind), req.key), Entry(PostPayload(req.id), req.id))
  {
    PostOutcome(db, req);
    TransactionIs(p, db, req);
    hide Handle, Transact, ApplyAll, Sort, PostedRows, MovesOf, StockMoved, StampLines;
    var d := db.docs[req.id];
    StampLinesAt(db.balances, d, d.lines);
    BatchMovesStock(db, Handle(p, db, req).db, d, req.id);
  }

  /** A known key is answered from the table; otherwise a posted document is reversed if every key can afford that. */
  lemma ReverseAnswer(p: Policy, db: Db, kind: Kind, org: nat, actor: nat, id: nat, reason: string, key: string)
    ensures var out := Handle(p, db, Reverse(kind, org, actor, id, reason, key));
      var ik, payload := IdemKey(org, ReverseScope(kind), key), ReversePayload(id, reason);
      if key == "" then out == Failed(KeyRequired)
      else if ik in db.table then
        if db.table[ik].payload != payload then out == Failed(KeyConflict)
        else if Has(db, kind, org, db.table[ik].ref) then out == Done(db, db.table[ik].ref)
        else out == Failed(NotFound)
      else if !Has(db, kind, org, id) then out == Failed(NotFound)
      else if db.docs[id].status != Posted then out == Failed(BusinessRule)
      else if !Payable(db.balances, ReversalOf(db.balances, id, db.docs[id], actor)) then out == Failed(InsufficientStock)
      else
        && out.Done? && out.ref == |db.docs| && IsReversed(db, out.db, actor, id, out.ref)
        && OnlyRecorded(db, out.db, ik, Entry(payload, out.ref))
  {
    var req := Reverse(kind, org, actor, id, reason, key);
    var ik := IdemKey(org, ReverseScope(kind), key);
    if key != "" && ik !in db.table {
      ReverseOutcome(db, req);
      if Has(db, kind, org, id) && db.docs[id].status == Posted {
        PayableIffApplied(db.balances, ReversalOf(db.balances, id, db.docs[id], actor));
        if Payable(db.balances, ReversalOf(db.balances, id, db.docs[id], actor)) {
          ReverseDone(p, db, req);
        }
      }
    }
  }

  /** The reversal as its creation makes it. */
  lemma ReversalLines(b: Balances, id: nat, d: Doc, actor: nat)
    ensures var r := ReversalOf(b, id, d, actor);
      && r == Doc(d.kind, d.org, d.warehouse, Posted, r.lines, d.elevated, Some(id), actor, None, None, None, Some(actor), None, 0)
      && LinesReversed(d.lines, r.lines)
      && (forall n :: 0 <= n < |r.lines| && r.lines[n].AdjustmentLine? ==>
          && r.lines[n].prior == Some(OnHand(b, KeyOf(r, r.lines[n])))
          && r.lines[n].resulting == Some(OnHand(b, KeyOf(r, r.lines[n])) + r.lines[n].delta))
      && (forall k :: DocNet(r, k) == 0 - DocNet(d, k))
  {
    hide StampLines, NegatedLines, LineNet, Magnitude;
    var r := ReversalOf(b, id, d, actor);
    NegatedLinesAt(d.lines);
    StampLinesAt(b, r.(lines := NegatedLines(d.lines)), NegatedLines(d.lines));
    OppositeLines(r, d, r.lines, d.lines);
  }

  lemma ReversalWritten(before: Db, after: Db, id: nat, actor: nat)
    requires id < |before.docs|
    requires
      var rev := ReversalOf(before.balances, id, before.docs[id], actor);
      && ApplyAll(before.balances, Moves(rev)).Applied?
      && after.docs == before.docs[id := before.docs[id].(reversedBy := Some(actor))] + [rev]
      && after.balances == ApplyAll(before.balances, Moves(rev)).balances
      && after.ledger == before.ledger + PostedRows(Sort(Moves(rev)), Document(|before.docs|))
    ensures IsReversed(before, after, actor, id, |before.docs|)
  {
    hide ApplyAll, Sort, PostedRows, MovesOf, StockMoved, LinesReversed, DocNet, ReversalOf, KeyOf;
    ReversalLines(before.balances, id, before.docs[id], actor);
    BatchMovesStock(before, after, ReversalOf(before.balances, id, before.docs[id], actor), |before.docs|);
  }

  lemma ReverseDone(p: Policy, db: Db, req: Request)
    requires req.Reverse? && req.key != "" && IdemKeyOf(req) !in db.table && Has(db, req.kind, req.org, req.id)
    requires db.docs[req.id].status == Posted
    requires ApplyAll(db.balances, Moves(ReversalOf(db.balances, req.id, db.docs[req.id], req.actor))).Applied?
    ensures var out := Handle(p, db, req);
      && out.Done? && out.ref == |db.docs| && IsReversed(db, out.db, req.actor, req.id, out.ref)
      && OnlyRecorded(db, out.db, IdemKey(req.org, ReverseScope(req.kind), req.key), Entry(ReversePayload(req.id, req.reason), out.ref))
  {
    hide Handle, Transact, ApplyAll, Sort, PostedRows, MovesOf, ReversalOf, IsReversed;
    ReverseOutcome(db, req);
    TransactionIs(p, db, req);
    ReversalWritten(db, Handle(p, db, req).db, req.id, req.actor);
  }
}
