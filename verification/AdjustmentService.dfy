/** The stock adjustment operations, proved against the functions of `Posting`. */
module AdjustmentService {
  import opened Prelude
  import opened Ledger
  import opened Documents
  import opened Posting
  import opened Promises
  import opened Sessions
  import opened Invariants
  import opened DocumentWorkflow
  import Idempotency
  import LedgerService

  /**
   * A new adjustment is a draft of version zero with the lines asked for, flagged when they are
   * material; no document there was before, no stock and no ledger row is touched.
   */
  method CreateStockAdjustment(p: Policy, s: Session, org: nat, actor: nat, warehouse: nat, items: seq<Item>)
    returns (r: Result<nat, Error>)
    modifies s`docs
    ensures CarriesOrKeeps(Handle(p, old(s.View()), CreateAdjustment(org, actor, warehouse, items)), r, old(s.View()), s.View())
    ensures r.Ok? <==> Warehouse(org, warehouse) in s.masters && ItemsRight(s.masters, org, warehouse, items)
    ensures r.Err? ==> r == Err(Validation)
    ensures r.Ok? ==> AdjustmentCreated(p, old(s.View()), s.View(), r.value, org, actor, warehouse, items)
    ensures Inv(p, old(s.View())) ==> Inv(p, s.View())
  {
    KeepsInv(p, s.View(), CreateAdjustment(org, actor, warehouse, items));
    CreateAdjustmentAnswer(p, s.View(), org, actor, warehouse, items);
    hide Inv, Material;
    if Warehouse(org, warehouse) !in s.masters || !ItemsAccepted(s.masters, org, warehouse, items) {
      return Err(Validation);
    }
    var id := s.InsertDoc(NewAdjustment(p, org, actor, warehouse, LinesOf(items)));
    return Ok(id);
  }

  /**
   * Only a draft can be edited, and only by replacing its lines, flag and version; the flag then is
   * that of the new lines.
   */
  method UpdateStockAdjustment(p: Policy, s: Session, org: nat, actor: nat, id: nat, newItems: Option<seq<Item>>)
    returns (r: Result<nat, Error>)
    modifies s`docs
    ensures CarriesOrKeeps(Handle(p, old(s.View()), UpdateAdjustment(org, actor, id, newItems)), r, old(s.View()), s.View())
    ensures r == if !Has(old(s.View()), Adjustment, org, id) then Err(NotFound)
                 else if old(s.docs)[id].status != Draft then Err(Validation)
                 else if newItems.Some? && !ItemsRight(s.masters, org, old(s.docs)[id].warehouse, newItems.value) then Err(Validation)
                 else Ok(id)
    ensures r.Ok? ==> AdjustmentEdited(p, old(s.View()), s.View(), id, newItems)
    ensures Inv(p, old(s.View())) ==> Inv(p, s.View())
  {
    KeepsInv(p, s.View(), UpdateAdjustment(org, actor, id, newItems));
    UpdateAdjustmentAnswer(p, s.View(), org, actor, id, newItems);
    hide Inv, Material;
    if !Owns(s.View(), Adjustment, org, id) {
      return Err(NotFound);
    }
    var doc := s.docs[id];
    if doc.status != Draft {
      return Err(Validation);
    }
    if newItems.Some? {
      if !ItemsAccepted(s.masters, org, doc.warehouse, newItems.value) {
        return Err(Validation);
      }
      doc := doc.(lines := LinesOf(newItems.value));
      doc := doc.(elevated := Material(p, doc.lines));
    }
    doc := doc.(version := doc.version + 1);
    s.SaveDoc(id, doc);
    return Ok(id);
  }

  /** Exactly drafts can be submitted; what they would post stays as it is. */
  method SubmitStockAdjustment(p: Policy, s: Session, org: nat, actor: nat, id: nat) returns (r: Result<nat, Error>)
    modifies s`docs
    ensures CarriesOrKeeps(Handle(p, old(s.View()), Submit(Adjustment, org, actor, id)), r, old(s.View()), s.View())
    ensures r == if !Has(old(s.View()), Adjustment, org, id) then Err(NotFound)
                 else if old(s.docs)[id].status != Draft then Err(BusinessRule)
                 else Ok(id)
    ensures r.Ok? ==> IsSubmitted(old(s.View()), s.View(), actor, id) && SameEffects(old(s.docs)[id], s.docs[id])
    ensures Inv(p, old(s.View())) ==> Inv(p, s.View())
  {
    KeepsInv(p, s.View(), Submit(Adjustment, org, actor, id));
    SubmitAnswer(p, s.View(), Adjustment, org, actor, id);
    hide Inv;
    if !Owns(s.View(), Adjustment, org, id) {
      return Err(NotFound);
    }
    var doc := s.docs[id];
    if !CanTransition(doc.status, Submitted) {
      return Err(BusinessRule);
    }
    doc := doc.(status := Submitted, submittedBy := Some(actor), version := doc.version + 1);
    s.SaveDoc(id, doc);
    return Ok(id);
  }

  method ApproveStockAdjustment(p: Policy, s: Session, org: nat, actor: nat, id: nat) returns (r: Result<nat, Error>)
    modifies s`docs
    ensures CarriesOrKeeps(Handle(p, old(s.View()), Approve(Adjustment, org, actor, id)), r, old(s.View()), s.View())
    ensures r == if !Has(old(s.View()), Adjustment, org, id) then Err(NotFound)
                 else if p.adjustmentSelfApprovalBarred && old(s.docs)[id].createdBy == actor then Err(Forbidden)
                 else if old(s.docs)[id].status != Submitted then Err(BusinessRule)
                 else Ok(id)
    ensures r.Ok? ==> IsApproved(old(s.View()), s.View(), actor, id)
    ensures Inv(p, old(s.View())) ==> Inv(p, s.View())
  {
    r := ApproveDocument(p, s, Adjustment, org, actor, id);
  }

  method RejectStockAdjustment(p: Policy, s: Session, org: nat, actor: nat, id: nat) returns (r: Result<nat, Error>)
    modifies s`docs
    ensures CarriesOrKeeps(Handle(p, old(s.View()), Reject(Adjustment, org, actor, id)), r, old(s.View()), s.View())
    ensures r == if !Has(old(s.View()), Adjustment, org, id) then Err(NotFound)
                 else if old(s.docs)[id].status != Submitted then Err(BusinessRule)
                 else Ok(id)
    ensures r.Ok? ==> IsRejected(old(s.View()), s.View(), actor, id)
    ensures r.Ok? && Inv(p, old(s.View())) ==> forall later :: RowsOf(Run(p, s.View(), later).ledger, Document(id)) == []
    ensures Inv(p, old(s.View())) ==> Inv(p, s.View())
  {
    r := RejectDocument(p, s, Adjustment, org, actor, id);
  }

  /** The loop shared by posting and reversing: stamps each line and collects its movement. */
  method StampAndCollect(s: Session, d: Doc) returns (doc: Doc, movements: seq<Movement>)
    requires d.kind == Adjustment && TypedDoc(d)
    ensures doc == d.(lines := StampLines(s.balances, d, d.lines))
    ensures movements == MovesOf(d, d.lines)
  {
    hide StampLines, MovesOf;
    doc, movements := d, [];
    NothingDone(s.balances, d);
    for i := 0 to |d.lines|
      invariant |doc.lines| == |d.lines| && doc == d.(lines := doc.lines)
      invariant doc.lines[..i] == StampLines(s.balances, d, d.lines[..i])
      invariant doc.lines[i..] == d.lines[i..]
      invariant movements == MovesOf(d, d.lines[..i])
    {
      var item := doc.lines[i];
      assert item == d.lines[i];
      var key := Key(doc.org, doc.warehouse, item.place.location, item.place.product, item.place.lot, item.state);
      var prior := if key in s.balances then s.balances[key] else 0;
      item := item.(prior := Some(prior), resulting := Some(prior + item.delta));
      OneMoreLine(s.balances, d, i);
      ghost var done := doc.lines[..i];
      doc := doc.(lines := doc.lines[i := item]);
      assert doc.lines[..i + 1] == done + [item];
      movements := movements + [Movement(key, item.delta, false)];
    }
    assert d.lines[..|d.lines|] == d.lines;
    assert doc.lines[..|d.lines|] == doc.lines;
  }

  lemma NothingDone(b: Balances, d: Doc)
    ensures StampLines(b, d, []) == [] && MovesOf(d, []) == []
  {
  }

  lemma OneMoreLine(b: Balances, d: Doc, i: nat)
    requires i < |d.lines| && d.lines[i].AdjustmentLine?
    ensures StampLines(b, d, d.lines[..i + 1]) == StampLines(b, d, d.lines[..i]) + [Stamp(b, d, d.lines[i])]
    ensures MovesOf(d, d.lines[..i + 1]) == MovesOf(d, d.lines[..i]) + [Movement(KeyOf(d, d.lines[i]), Effect(d.lines[i]), false)]
  {
    assert d.lines[..i + 1][..i] == d.lines[..i];
  }

  /** The posting body, for a key that has no result yet. */
  method ExecutePost(s: Session, org: nat, actor: nat, id: nat, key: string) returns (r: Result<nat, Error>)
    requires Typed(s.View()) && IdemKey(org, PostScope(Adjustment), key) !in s.table && key != ""
    modifies s
    ensures
      var db := old(s.View());
      r == if !Owns(db, Adjustment, org, id) then Err(NotFound)
           else if db.docs[id].status != Approved then Err(BusinessRule)
           else if ApplyAll(db.balances, Moves(db.docs[id])).Insufficient? then Err(InsufficientStock)
           else Ok(id)
    ensures r.Ok? ==>
      var db := old(s.View());
      && s.docs == db.docs[id := PostedDoc(db.balances, db.docs[id], actor)]
      && s.balances == ApplyAll(db.balances, Moves(db.docs[id])).balances
      && s.ledger == db.ledger + PostedRows(Sort(Moves(db.docs[id])), Document(id))
      && s.table == db.table[IdemKey(org, PostScope(Adjustment), key) := Entry(PostPayload(id), id)]
      && s.pending == db.pending && s.masters == db.masters
  {
    hide StampLines, MovesOf, ApplyAll, Sort, PostedRows;
    if !Owns(s.View(), Adjustment, org, id) {
      return Err(NotFound);
    }
    if !CanTransition(s.docs[id].status, Posted) {
      return Err(BusinessRule);
    }
    var doc, movements := StampAndCollect(s, s.docs[id]);
    var ok := LedgerService.PostStockMovements(s, movements, Document(id));
    if !ok {
      return Err(InsufficientStock);
    }
    doc := doc.(status := Posted, postedBy := Some(actor), version := doc.version + 1);
    s.SaveDoc(id, doc);
    Idempotency.Record(s, IdemKey(org, PostScope(Adjustment), key), PostPayload(id), id);
    return Ok(id);
  }

  method PostStockAdjustment(s: Session, org: nat, actor: nat, id: nat, key: string) returns (r: Result<nat, Error>)
    requires Typed(s.View())
    modifies s
    ensures Carries(Transact(old(s.View()), Post(Adjustment, org, actor, id, key)), r, s.View())
  {
    var found := Idempotency.Look(s, IdemKey(org, PostScope(Adjustment), key), PostPayload(id));
    match found {
      case Err(error) => return Err(error);
      case Ok(Some(ref)) =>
        if !Owns(s.View(), Adjustment, org, ref) {
          return Err(NotFound);
        }
        return Ok(ref);
      case Ok(None) =>
        PostOutcome(s.View(), Post(Adjustment, org, actor, id, key));
        r := ExecutePost(s, org, actor, id, key);
    }
  }

  /** Inserts the linked document, stamps its lines and collects its movements. */
  method CreateReversal(s: Session, id: nat, original: Doc, actor: nat) returns (ref: nat, movements: seq<Movement>)
    requires original.kind == Adjustment && TypedDoc(original)
    modifies s`docs
    ensures ref == |old(s.docs)| && s.docs == old(s.docs) + [ReversalOf(s.balances, id, original, actor)]
    ensures movements == Moves(ReversalOf(s.balances, id, original, actor))
  {
    NegatedLinesAt(original.lines);
    var reversal := Doc(Adjustment, original.org, original.warehouse, Posted, NegatedLines(original.lines), original.elevated,
                        Some(id), actor, None, None, None, Some(actor), None, 0);
    SameMovesStamped(s.balances, reversal);
    ref := s.InsertDoc(reversal);
    reversal, movements := StampAndCollect(s, reversal);
    s.SaveDoc(ref, reversal);
  }

  /** The reversal body, for a key that has no result yet. */
  method ExecuteReverse(s: Session, org: nat, actor: nat, id: nat, reason: string, key: string)
    returns (r: Result<nat, Error>)
    requires Typed(s.View()) && IdemKey(org, ReverseScope(Adjustment), key) !in s.table && key != ""
    modifies s
    ensures
      var db := old(s.View());
      r == if !Owns(db, Adjustment, org, id) then Err(NotFound)
           else if db.docs[id].status != Posted then Err(BusinessRule)
           else if ApplyAll(db.balances, Moves(ReversalOf(db.balances, id, db.docs[id], actor))).Insufficient? then Err(InsufficientStock)
           else Ok(|db.docs|)
    ensures r.Ok? ==>
      var db := old(s.View());
      var rev := ReversalOf(db.balances, id, db.docs[id], actor);
      && s.docs == db.docs[id := db.docs[id].(reversedBy := Some(actor))] + [rev]
      && s.balances == ApplyAll(db.balances, Moves(rev)).balances
      && s.ledger == db.ledger + PostedRows(Sort(Moves(rev)), Document(|db.docs|))
      && s.table == db.table[IdemKey(org, ReverseScope(Adjustment), key) := Entry(ReversePayload(id, reason), |db.docs|)]
      && s.pending == db.pending && s.masters == db.masters
  {
    hide Moves, ReversalOf, PostedRows, Sort, ApplyAll;
    if !Owns(s.View(), Adjustment, org, id) {
      return Err(NotFound);
    }
    var original := s.docs[id];
    if original.status != Posted {
      return Err(BusinessRule);
    }
    var ref, movements := CreateReversal(s, id, original, actor);
    var ok := LedgerService.PostStockMovements(s, movements, Document(ref));
    if !ok {
      return Err(InsufficientStock);
    }
    original := original.(reversedBy := Some(actor));
    ghost var rev := s.docs[ref];
    s.SaveDoc(id, original);
    assert s.docs == old(s.docs)[id := original] + [rev];
    Idempotency.Record(s, IdemKey(org, ReverseScope(Adjustment), key), ReversePayload(id, reason), ref);
    return Ok(ref);
  }

  method ReverseStockAdjustment(s: Session, org: nat, actor: nat, id: nat, reason: string, key: string)
    returns (r: Result<nat, Error>)
    requires Typed(s.View())
    modifies s
    ensures Carries(Transact(old(s.View()), Reverse(Adjustment, org, actor, id, reason, key)), r, s.View())
  {
    var found := Idempotency.Look(s, IdemKey(org, ReverseScope(Adjustment), key), ReversePayload(id, reason));
    match found {
      case Err(error) => return Err(error);
      case Ok(Some(ref)) =>
        if !Owns(s.View(), Adjustment, org, ref) {
          return Err(NotFound);
        }
        return Ok(ref);
      case Ok(None) =>
        ReverseOutcome(s.View(), Reverse(Adjustment, org, actor, id, reason, key));
        r := ExecuteReverse(s, org, actor, id, reason, key);
    }
  }

  lemma SameMovesStamped(b: Balances, d: Doc)
    ensures Moves(d.(lines := StampLines(b, d, d.lines))) == Moves(d)
  {
    StampLinesAt(b, d, d.lines);
    SameLinesSameMoves(d.(lines := StampLines(b, d, d.lines)), d, StampLines(b, d, d.lines), d.lines);
  }
}
