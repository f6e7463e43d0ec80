/**
 * What the operations promise their callers, in terms of the stored state alone: which requests are
 * accepted, how the others are refused, and what an accepted one changes. None of the definitions
 * here is used to carry out a request.
 */
module Promises {
  import opened Prelude
  import opened Ledger
  import opened Documents
  import opened Posting

  // ---------------------------------------------------------------- common notions

  predicate Has(db: Db, kind: Kind, org: nat, id: nat) {
    id < |db.docs| && db.docs[id].org == org && db.docs[id].kind == kind
  }

  /** Exactly one document has changed, and nothing else at all. */
  predicate OnlyDocChanged(before: Db, after: Db, id: nat) {
    && id < |before.docs| && |after.docs| == |before.docs|
    && after == before.(docs := before.docs[id := after.docs[id]])
  }

  /** Exactly one document has been added, and nothing else has changed. */
  predicate OnlyDocAdded(before: Db, after: Db, id: nat) {
    && id == |before.docs| && |after.docs| == id + 1
    && after == before.(docs := before.docs + [after.docs[id]])
  }

  /** A document nobody has worked on yet. */
  predicate FreshDraft(d: Doc, kind: Kind, org: nat, actor: nat, warehouse: nat) {
    && d.kind == kind && d.org == org && d.createdBy == actor && d.warehouse == warehouse
    && d.status == Draft && d.version == 0 && d.reversalOf == None
    && d.submittedBy == None && d.approvedBy == None && d.rejectedBy == None && d.postedBy == None && d.reversedBy == None
  }

  // ---------------------------------------------------------------- creating and editing adjustments

  /** One to two hundred lines, none of quantity zero, each naming master data that is there. */
  predicate ItemsRight(masters: set<Master>, org: nat, warehouse: nat, items: seq<Item>) {
    && 1 <= |items| <= 200
    && forall i :: 0 <= i < |items| ==>
      && items[i].delta != 0
      && Product(org, items[i].place.product) in masters
      && Location(org, warehouse, items[i].place.location) in masters
      && (items[i].place.lot.Some? ==> Lot(org, items[i].place.lot.value) in masters)
  }

  /** The lines hold what the items ask for, where they ask for it, with nothing stamped yet. */
  predicate LinesAsAsked(lines: seq<Line>, items: seq<Item>) {
    && |lines| == |items|
    && forall i :: 0 <= i < |items| ==>
      lines[i] == AdjustmentLine(Place(items[i].place.location, items[i].place.product, items[i].place.lot),
                                 items[i].state, items[i].delta, None, None)
  }

  /** The balance row an adjustment line is about. */
  predicate LineKeysRight(d: Doc) {
    forall i :: 0 <= i < |d.lines| && d.lines[i].AdjustmentLine? ==>
      KeyOf(d, d.lines[i]) == Key(d.org, d.warehouse, d.lines[i].place.location, d.lines[i].place.product, d.lines[i].place.lot, d.lines[i].state)
  }

  predicate AdjustmentCreated(p: Policy, before: Db, after: Db, id: nat, org: nat, actor: nat, warehouse: nat, items: seq<Item>) {
    && OnlyDocAdded(before, after, id)
    && FreshDraft(after.docs[id], Adjustment, org, actor, warehouse)
    && LinesAsAsked(after.docs[id].lines, items) && LineKeysRight(after.docs[id])
    && (after.docs[id].elevated <==> Material(p, after.docs[id].lines))
  }

  lemma CreateAdjustmentAnswer(p: Policy, db: Db, org: nat, actor: nat, warehouse: nat, items: seq<Item>)
    ensures var out := Handle(p, db, CreateAdjustment(org, actor, warehouse, items));
      if Warehouse(org, warehouse) in db.masters && ItemsRight(db.masters, org, warehouse, items)
      then out.Done? && AdjustmentCreated(p, db, out.db, out.ref, org, actor, warehouse, items)
      else out == Failed(Validation)
  {
    hide Material;
  }

  predicate AdjustmentEdited(p: Policy, before: Db, after: Db, id: nat, newItems: Option<seq<Item>>) {
    && OnlyDocChanged(before, after, id)
    && var d, e := before.docs[id], after.docs[id];
       && e == d.(lines := e.lines, elevated := e.elevated, version := d.version + 1)
       && (if newItems.None? then e.lines == d.lines && e.elevated == d.elevated
           else LinesAsAsked(e.lines, newItems.value) && LineKeysRight(e) && (e.elevated <==> Material(p, e.lines)))
  }

  lemma UpdateAdjustmentAnswer(p: Policy, db: Db, org: nat, actor: nat, id: nat, newItems: Option<seq<Item>>)
    ensures var out := Handle(p, db, UpdateAdjustment(org, actor, id, newItems));
      if !Has(db, Adjustment, org, id) then out == Failed(NotFound)
      else if db.docs[id].status != Draft || (newItems.Some? && !ItemsRight(db.masters, org, db.docs[id].warehouse, newItems.value))
      then out == Failed(Validation)
      else out.Done? && out.ref == id && AdjustmentEdited(p, db, out.db, id, newItems)
  {
    hide Material;
  }

  // ---------------------------------------------------------------- creating and editing counts

  /** One to five hundred selectors, each naming master data that is there. */
  predicate SelectorsRight(masters: set<Master>, org: nat, warehouse: nat, selectors: seq<Place>) {
    && 1 <= |selectors| <= 500
    && forall i :: 0 <= i < |selectors| ==>
      && Product(org, selectors[i].product) in masters
      && Location(org, warehouse, selectors[i].location) in masters
      && (selectors[i].lot.Some? ==> Lot(org, selectors[i].lot.value) in masters)
  }

  lemma OpenCountAnswer(p: Policy, db: Db, org: nat, actor: nat, warehouse: nat, selectors: seq<Place>)
    ensures Handle(p, db, OpenCount(org, actor, warehouse, selectors)) ==
      if Warehouse(org, warehouse) in db.masters && SelectorsRight(db.masters, org, warehouse, selectors)
      then Done(db.(pending := db.pending + [Pending(org, actor, warehouse, selectors, [])]), |db.pending|)
      else Failed(Validation)
  {
  }

  /** Line `n` of a count as read from state `at`: its own selector, and the available stock there, not counted yet. */
  predicate LineRead(l: Line, at: Db, org: nat, warehouse: nat, selector: Place) {
    l == CountLine(selector, OnHand(at.balances, Key(org, warehouse, selector.location, selector.product, selector.lot, Available)),
                   None, None, |at.ledger|)
  }

  lemma SnapshotLineAnswer(p: Policy, db: Db, c: nat)
    ensures var out := Handle(p, db, SnapshotLine(c));
      if c < |db.pending| && |db.pending[c].lines| < |db.pending[c].selectors|
      then
        && out.Done? && |out.db.pending| == |db.pending|
        && out.db == db.(pending := db.pending[c := db.pending[c].(lines := out.db.pending[c].lines)])
        && |out.db.pending[c].lines| == |db.pending[c].lines| + 1
        && out.db.pending[c].lines[..|db.pending[c].lines|] == db.pending[c].lines
        && LineRead(out.db.pending[c].lines[|db.pending[c].lines|], db, db.pending[c].org, db.pending[c].warehouse,
                    db.pending[c].selectors[|db.pending[c].lines|])
      else out == Failed(Validation)
  {
  }

  predicate CountCreated(before: Db, after: Db, id: nat, org: nat, actor: nat, warehouse: nat, lines: seq<Line>) {
    && OnlyDocAdded(before, after, id)
    && FreshDraft(after.docs[id], Count, org, actor, warehouse)
    && after.docs[id].lines == lines && !after.docs[id].elevated
  }

  lemma SaveCountAnswer(p: Policy, db: Db, c: nat)
    ensures var out := Handle(p, db, SaveCount(c));
      if c < |db.pending| && |db.pending[c].lines| == |db.pending[c].selectors|
      then out.Done? &&
        CountCreated(db, out.db, out.ref, db.pending[c].org, db.pending[c].actor, db.pending[c].warehouse, db.pending[c].lines)
      else out == Failed(Validation)
  {
  }

  /** Each line has the quantity of its last entry, and nothing else of the document but its version changes. */
  predicate CountsEntered(before: Db, after: Db, id: nat, entries: Option<seq<CountEntry>>) {
    && OnlyDocChanged(before, after, id)
    && var d, e := before.docs[id], after.docs[id];
       && e == d.(lines := e.lines, version := d.version + 1) && |e.lines| == |d.lines|
       && forall n :: 0 <= n < |d.lines| ==>
          if entries.None? then e.lines[n] == d.lines[n] else Entered(d.lines[n], e.lines[n], LastEntry(entries.value, n))
  }

  predicate EntriesRight(lines: seq<Line>, entries: Option<seq<CountEntry>>) {
    entries.Some? ==> forall e :: e in entries.value ==> e.counted >= 0 && 1 <= e.lineNumber <= |lines| && lines[e.lineNumber - 1].CountLine?
  }

  lemma UpdateCountAnswer(p: Policy, db: Db, org: nat, actor: nat, id: nat, entries: Option<seq<CountEntry>>)
    ensures var out := Handle(p, db, UpdateCount(org, actor, id, entries));
      if !Has(db, Count, org, id) then out == Failed(NotFound)
      else if db.docs[id].status != Draft || !EntriesRight(db.docs[id].lines, entries) then out == Failed(Validation)
      else out.Done? && out.ref == id && CountsEntered(db, out.db, id, entries)
  {
    if Has(db, Count, org, id) && entries.Some? {
      EnterCountsMeaning(db.docs[id].lines, entries.value);
      assert EntriesRight(db.docs[id].lines, entries) <==> forall e :: e in entries.value ==> Enterable(db.docs[id].lines, e);
    }
  }

  // ---------------------------------------------------------------- submitting, approving, rejecting

  predicate EveryLineCounted(lines: seq<Line>) {
    forall n :: 0 <= n < |lines| && lines[n].CountLine? ==> lines[n].counted.Some?
  }

  /** The lines as submission fixes them: an adjustment's stay, a count's get counted less system. */
  predicate LinesFixed(kind: Kind, before: seq<Line>, after: seq<Line>) {
    && |after| == |before|
    && forall n :: 0 <= n < |before| ==>
      after[n] == if kind.Count? && before[n].CountLine? && before[n].counted.Some?
                  then before[n].(variance := Some(before[n].counted.value - before[n].system)) else before[n]
  }

  predicate IsSubmitted(before: Db, after: Db, actor: nat, id: nat) {
    && OnlyDocChanged(before, after, id)
    && var d, e := before.docs[id], after.docs[id];
       && e == d.(status := Submitted, submittedBy := Some(actor), lines := e.lines, version := d.version + 1)
       && LinesFixed(d.kind, d.lines, e.lines)
  }

  lemma SubmitAnswer(p: Policy, db: Db, kind: Kind, org: nat, actor: nat, id: nat)
    ensures var out := Handle(p, db, Submit(kind, org, actor, id));
      if !Has(db, kind, org, id) then out == Failed(NotFound)
      else if db.docs[id].status != Draft then out == Failed(BusinessRule)
      else if kind.Count? && !EveryLineCounted(db.docs[id].lines) then out == Failed(Validation)
      else out.Done? && out.ref == id && IsSubmitted(db, out.db, actor, id)
  {
  }

  /** The creator may not approve, by the policy for the kind of document. */
  predicate Barred(p: Policy, kind: Kind, d: Doc, actor: nat) {
    && d.createdBy == actor
    && (kind.Adjustment? ==> p.adjustmentSelfApprovalBarred)
    && (kind.Count? ==> p.countSelfApprovalBarred)
  }

  predicate IsApproved(before: Db, after: Db, actor: nat, id: nat) {
    && OnlyDocChanged(before, after, id)
    && after.docs[id] == before.docs[id].(status := Approved, approvedBy := Some(actor), version := before.docs[id].version + 1)
  }

  lemma ApproveAnswer(p: Policy, db: Db, kind: Kind, org: nat, actor: nat, id: nat)
    ensures var out := Handle(p, db, Approve(kind, org, actor, id));
      if !Has(db, kind, org, id) then out == Failed(NotFound)
      else if Barred(p, kind, db.docs[id], actor) then out == Failed(Forbidden)
      else if db.docs[id].status != Submitted then out == Failed(BusinessRule)
      else out.Done? && out.ref == id && IsApproved(db, out.db, actor, id)
  {
  }

  predicate IsRejected(before: Db, after: Db, actor: nat, id: nat) {
    && OnlyDocChanged(before, after, id)
    && after.docs[id] == before.docs[id].(status := Rejected, rejectedBy := Some(actor), version := before.docs[id].version + 1)
  }

  lemma RejectAnswer(p: Policy, db: Db, kind: Kind, org: nat, actor: nat, id: nat)
    ensures var out := Handle(p, db, Reject(kind, org, actor, id));
      if !Has(db, kind, org, id) then out == Failed(NotFound)
      else if db.docs[id].status != Submitted then out == Failed(BusinessRule)
      else out.Done? && out.ref == id && IsRejected(db, out.db, actor, id)
  {
  }

  // ---------------------------------------------------------------- posting and reversing

  /** Every key can afford what a document would move on it. */
  ghost predicate Payable(b: Balances, d: Doc) {
    forall k :: Affordable(OnHand(b, k), OnKey(Moves(d), k))
  }

  /** The lines after posting: an adjustment's are stamped with the balance before and that plus the delta. */
  predicate LinesStamped(b: Balances, d: Doc, before: seq<Line>, after: seq<Line>) {
    && |after| == |before|
    && forall n :: 0 <= n < |before| ==>
      after[n] == if before[n].CountLine? then before[n]
                  else before[n].(prior := Some(OnHand(b, KeyOf(d, before[n]))),
                                  resulting := Some(OnHand(b, KeyOf(d, before[n])) + before[n].delta))
  }

  /** The movements of `d` are in the balances and, as rows naming document `ref`, in the ledger. */
  ghost predicate StockMoved(before: Db, after: Db, d: Doc, ref: nat) {
    && (forall k :: OnHand(after.balances, k) == OnHand(before.balances, k) + DocNet(d, k))
    && |before.ledger| <= |after.ledger| && after.ledger[..|before.ledger|] == before.ledger
    && (forall k :: NetRows(after.ledger[|before.ledger|..], k) == DocNet(d, k))
    && forall r :: r in after.ledger[|before.ledger|..] ==> r.ref == Document(ref) && r.quantity != 0
  }

  ghost predicate IsPosted(before: Db, after: Db, actor: nat, id: nat) {
    && id < |before.docs| && |after.docs| == |before.docs|
    && after.docs == before.docs[id := after.docs[id]]
    && var d, e := before.docs[id], after.docs[id];
       && e == d.(status := Posted, lines := e.lines, postedBy := Some(actor), version := d.version + 1)
       && LinesStamped(before.balances, d, d.lines, e.lines)
       && StockMoved(before, after, d, id)
  }

  /** The lines of a reversal: every quantity negated in place; a count's keep what was read and counted. */
  predicate LinesReversed(before: seq<Line>, after: seq<Line>) {
    && |after| == |before|
    && forall n :: 0 <= n < |before| ==>
      && after[n].place == before[n].place
      && (if before[n].AdjustmentLine?
          then after[n].AdjustmentLine? && after[n].state == before[n].state && after[n].delta == 0 - before[n].delta
          else && after[n].CountLine? && after[n].system == before[n].system && after[n].counted == before[n].counted
               && after[n].variance == Some(0 - (if before[n].variance.Some? then before[n].variance.value else 0)))
  }

  ghost predicate IsReversed(before: Db, after: Db, actor: nat, id: nat, ref: nat) {
    && id < |before.docs| && ref == |before.docs| && |after.docs| == ref + 1
    && after.docs[..ref] == before.docs[id := before.docs[id].(reversedBy := Some(actor))]
    && var d, r := before.docs[id], after.docs[ref];
       && r == Doc(d.kind, d.org, d.warehouse, Posted, r.lines, d.elevated, Some(id), actor, None, None, None, Some(actor), None, 0)
       && LinesReversed(d.lines, r.lines)
       && (forall n :: 0 <= n < |r.lines| && r.lines[n].AdjustmentLine? ==>
           && r.lines[n].prior == Some(OnHand(before.balances, KeyOf(r, r.lines[n])))
           && r.lines[n].resulting == Some(OnHand(before.balances, KeyOf(r, r.lines[n])) + r.lines[n].delta))
       && StockMoved(before, after, r, ref)
       && forall k :: DocNet(r, k) == 0 - DocNet(d, k)
  }

  /** The table has grown by exactly this entry, and nothing but documents, balances, ledger and table has changed. */
  predicate OnlyRecorded(before: Db, after: Db, ik: IdemKey, e: Entry) {
    && ik !in before.table && after.table == before.table[ik := e]
    && after.pending == before.pending && after.masters == before.masters
  }
}
