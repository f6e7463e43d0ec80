/** What holds in every reachable state, and why every request keeps it. */
module Invariants {
  import opened Prelude
  import opened Ledger
  import opened Documents
  import opened Posting
  import DecimalSums

  // ---------------------------------------------------------------- the invariant

  /** A count line's system quantity is what the ledger said its key held when the line was read. */
  predicate SnapshotOk(ledger: seq<Row>, key: Key, l: Line) {
    l.CountLine? ==>
      && l.readAt <= |ledger|
      && l.system == NetRows(ledger[..l.readAt], key)
      && (l.counted.Some? ==> l.counted.value >= 0)
  }

  predicate LineOk(ledger: seq<Row>, d: Doc, l: Line) {
    && l.AdjustmentLine? == d.kind.Adjustment?
    && (l.AdjustmentLine? ==> l.delta != 0)
    && SnapshotOk(ledger, KeyOf(d, l), l)
  }

  /** A document that came through the workflow, judged by its own fields. */
  predicate WorkflowOk(p: Policy, d: Doc) {
    && (d.submittedBy.Some? <==> !d.status.Draft?)
    && (d.rejectedBy.Some? <==> d.status.Rejected?)
    && (d.postedBy.Some? <==> d.status.Posted?)
    && (d.approvedBy.Some? <==> d.status.Approved? || d.status.Posted?)
    && (d.approvedBy.Some? && SelfApprovalBarred(p, d.kind) ==> d.approvedBy.value != d.createdBy)
    && (d.kind.Count? ==> forall n :: 0 <= n < |d.lines| ==>
        if d.status.Draft? then d.lines[n].CountLine? && d.lines[n].variance == None
        else VarianceFixed(d.lines[n]))
  }

  predicate VarianceFixed(l: Line) {
    l.CountLine? && l.counted.Some? && l.variance == Some(l.counted.value - l.system)
  }

  /** A reversal is linked to an earlier posted document and posts the opposite of each of its lines. */
  predicate ReversalOk(docs: seq<Doc>, i: nat)
    requires i < |docs| && docs[i].reversalOf.Some?
  {
    var d := docs[i];
    var j := d.reversalOf.value;
    && j < i
    && d.status == Posted && docs[j].status == Posted && d.version == 0
    && d.kind == docs[j].kind && d.org == docs[j].org && d.warehouse == docs[j].warehouse
    && d.elevated == docs[j].elevated
    && |d.lines| == |docs[j].lines|
    && forall n :: 0 <= n < |d.lines| ==> Opposite(d, d.lines[n], docs[j], docs[j].lines[n])
  }

  predicate Opposite(d: Doc, l: Line, e: Doc, m: Line) {
    KeyOf(d, l) == KeyOf(e, m) && Effect(l) == -Effect(m) && l.CountLine? == m.CountLine?
  }

  predicate DocOk(p: Policy, ledger: seq<Row>, d: Doc) {
    && d.status != Reversed
    && |d.lines| >= 1
    && LinesOk(ledger, d)
    && d.elevated == (d.kind.Adjustment? && Material(p, d.lines))
    && (d.reversalOf.None? ==> WorkflowOk(p, d))
  }

  predicate LinesOk(ledger: seq<Row>, d: Doc) {
    forall n :: 0 <= n < |d.lines| ==> LineOk(ledger, d, d.lines[n])
  }

  predicate PendingOk(ledger: seq<Row>, c: Pending) {
    && |c.lines| <= |c.selectors| && |c.selectors| >= 1
    && forall n :: 0 <= n < |c.lines| ==>
      && LineOk(ledger, NewCount(c), c.lines[n]) && c.lines[n].CountLine? && c.lines[n].variance == None
      && c.lines[n].place == c.selectors[n]
  }

  ghost predicate DocsOk(p: Policy, db: Db) {
    && (forall i :: 0 <= i < |db.docs| ==> DocOk(p, db.ledger, db.docs[i]))
    && (forall i :: 0 <= i < |db.docs| && db.docs[i].reversalOf.Some? ==> ReversalOk(db.docs, i))
    && (forall c :: 0 <= c < |db.pending| ==> PendingOk(db.ledger, db.pending[c]))
  }

  /** Reconciliation: every balance is the sum of its ledger rows. */
  ghost predicate Reconciled(db: Db) {
    forall k :: OnHand(db.balances, k) == NetRows(db.ledger, k)
  }

  /** The rows a document is answerable for: one batch once it is posted, none otherwise. */
  function DueRows(docs: seq<Doc>, id: nat): seq<Row> {
    if id < |docs| && docs[id].status == Posted then PostedRows(Sort(Moves(docs[id])), Document(id)) else []
  }

  /** Every document's rows are in the ledger exactly once if it is posted, and not at all otherwise. */
  ghost predicate Attributed(db: Db) {
    forall id: nat :: RowsOf(db.ledger, Document(id)) == DueRows(db.docs, id)
  }

  predicate EntryOk(docs: seq<Doc>, ik: IdemKey, e: Entry) {
    && ik.key != ""
    && e.ref < |docs|
    && docs[e.ref].status == Posted && docs[e.ref].org == ik.org && docs[e.ref].kind == ik.scope.kind
    && (match ik.scope
        case PostScope(_) => e.payload == PostPayload(e.ref)
        case ReverseScope(_) => e.payload.ReversePayload? && docs[e.ref].reversalOf == Some(e.payload.id))
  }

  ghost predicate TableOk(db: Db) {
    forall ik :: ik in db.table ==> EntryOk(db.docs, ik, db.table[ik])
  }

  ghost predicate Inv(p: Policy, db: Db) {
    DocsOk(p, db) && Reconciled(db) && Attributed(db) && TableOk(db)
  }

  // ---------------------------------------------------------------- documents and pending counts

  lemma SnapshotsSurvive(ledger: seq<Row>, rows: seq<Row>, key: Key, l: Line)
    requires SnapshotOk(ledger, key, l)
    ensures SnapshotOk(ledger + rows, key, l)
  {
    if l.CountLine? {
      assert (ledger + rows)[..l.readAt] == ledger[..l.readAt];
    }
  }

  lemma LinesSurvive(ledger: seq<Row>, rows: seq<Row>, d: Doc)
    requires LinesOk(ledger, d)
    ensures LinesOk(ledger + rows, d)
  {
    forall n | 0 <= n < |d.lines| ensures LineOk(ledger + rows, d, d.lines[n]) {
      SnapshotsSurvive(ledger, rows, KeyOf(d, d.lines[n]), d.lines[n]);
    }
  }

  /** An accepted post or reversal: what its plan is, spelled out. */
  lemma PlanShape(db: Db, req: Request, w: Writes)
    requires (req.Post? || req.Reverse?) && PlanOf(db, req) == Execute(w)
    ensures w.id == req.id && Owns(db, req.kind, req.org, req.id) && IdemKeyOf(req) !in db.table
    ensures w.ik == IdemKeyOf(req) && w.payload == PayloadOf(req) && req.key != ""
    ensures ApplyAll(db.balances, w.moved).Applied?
    ensures db.balances + w.balances == ApplyAll(db.balances, w.moved).balances
    ensures req.Post? ==>
      && db.docs[w.id].status == Approved && w.created.None?
      && w.doc == PostedDoc(db.balances, db.docs[w.id], req.actor)
      && w.moved == Sort(Moves(db.docs[w.id]))
    ensures req.Reverse? ==>
      && db.docs[w.id].status == Posted
      && w.doc == db.docs[w.id].(reversedBy := Some(req.actor))
      && w.created == Some(ReversalOf(db.balances, w.id, db.docs[w.id], req.actor))
      && w.moved == Sort(Moves(w.created.value))
  {
    WrittenIsAll(db.balances, w.moved);
  }

  /** The reversal document as its creation makes it: the same document with every line's effect negated. */
  lemma ReversalShape(ledger: seq<Row>, b: Balances, id: nat, d: Doc, actor: nat)
    requires LinesOk(ledger, d)
    ensures var r := ReversalOf(b, id, d, actor);
      && LinesOk(ledger, r)
      && |r.lines| == |d.lines|
      && (forall n :: 0 <= n < |d.lines| ==> Opposite(r, r.lines[n], d, d.lines[n]))
      && Magnitude(r.lines) == Magnitude(d.lines)
      && (forall digits: nat :: DecimalSums.RoundedMagnitude(r.lines, digits) == DecimalSums.RoundedMagnitude(d.lines, digits))
      && (forall k :: DocNet(r, k) == -DocNet(d, k))
  {
    hide Magnitude, LineNet, NegatedLines, StampLines, DecimalSums.RoundedMagnitude;
    var r := ReversalOf(b, id, d, actor);
    NegatedLinesAt(d.lines);
    StampLinesAt(b, r.(lines := NegatedLines(d.lines)), NegatedLines(d.lines));
    forall n | 0 <= n < |r.lines| ensures LineOk(ledger, r, r.lines[n]) && Opposite(r, r.lines[n], d, d.lines[n]) {
      assert LineOk(ledger, d, d.lines[n]);
      var stamped := Stamp(b, r.(lines := NegatedLines(d.lines)), NegatedLine(d.lines[n]));
      assert r.lines[n] == stamped;
      ReversedLineOk(ledger, b, r.(lines := NegatedLines(d.lines)), r, d, d.lines[n]);
    }
    hide LineOk, LinesOk;
    OppositeLines(r, d, r.lines, d.lines);
    forall digits: nat ensures DecimalSums.RoundedMagnitude(r.lines, digits) == DecimalSums.RoundedMagnitude(d.lines, digits) {
      DecimalSums.SameSizesSameSums(r.lines, d.lines, digits);
    }
  }

  lemma ReversedLineOk(ledger: seq<Row>, b: Balances, blank: Doc, r: Doc, d: Doc, l: Line)
    requires LineOk(ledger, d, l) && r.kind == d.kind == blank.kind && r.org == d.org == blank.org && r.warehouse == d.warehouse == blank.warehouse
    ensures var m := Stamp(b, blank, NegatedLine(l));
      LineOk(ledger, r, m) && Opposite(r, m, d, l)
  {
  }

  lemma {:induction false} EnterCountsOk(ledger: seq<Row>, d: Doc, lines: seq<Line>, entries: seq<CountEntry>)
    requires EnterCounts(lines, entries).Some?
    requires forall n :: 0 <= n < |lines| ==> UncommittedLineOk(ledger, d, lines[n])
    ensures |EnterCounts(lines, entries).value| == |lines|
    ensures forall n :: 0 <= n < |lines| ==> UncommittedLineOk(ledger, d, EnterCounts(lines, entries).value[n])
  {
    if entries != [] {
      EnterCountsOk(ledger, d, lines, entries[..|entries| - 1]);
    }
  }

  predicate UncommittedLineOk(ledger: seq<Row>, d: Doc, l: Line) {
    LineOk(ledger, d, l) && l.CountLine? && l.variance == None
  }

  lemma EditedAdjustmentOk(p: Policy, ledger: seq<Row>, d: Doc, items: seq<Item>, masters: set<Master>)
    requires DocOk(p, ledger, d) && d.kind.Adjustment? && d.status == Draft && d.reversalOf.None?
    requires ItemsAccepted(masters, d.org, d.warehouse, items)
    ensures var lines := LinesOf(items);
      DocOk(p, ledger, d.(lines := lines, elevated := Material(p, lines), version := d.version + 1))
  {
    var lines := LinesOf(items);
    var e := d.(lines := lines, elevated := Material(p, lines), version := d.version + 1);
    assert WorkflowOk(p, e);
    assert forall n :: 0 <= n < |lines| ==> items[n].delta != 0;
    assert LinesOk(ledger, e);
  }

  lemma EditedCountOk(p: Policy, ledger: seq<Row>, d: Doc, entries: seq<CountEntry>)
    requires DocOk(p, ledger, d) && d.kind.Count? && d.status == Draft && d.reversalOf.None?
    requires EnterCounts(d.lines, entries).Some?
    ensures DocOk(p, ledger, d.(lines := EnterCounts(d.lines, entries).value, version := d.version + 1))
  {
    var e := d.(lines := EnterCounts(d.lines, entries).value, version := d.version + 1);
    assert WorkflowOk(p, d);
    forall n | 0 <= n < |d.lines| ensures UncommittedLineOk(ledger, d, d.lines[n]) {
      assert LineOk(ledger, d, d.lines[n]);
    }
    EnterCountsOk(ledger, d, d.lines, entries);
    forall n | 0 <= n < |e.lines| ensures LineOk(ledger, e, e.lines[n]) && e.lines[n].CountLine? && e.lines[n].variance == None {
      assert UncommittedLineOk(ledger, d, e.lines[n]);
    }
  }

  lemma EditedDocOk(p: Policy, db: Db, req: Request)
    requires req.UpdateAdjustment? || req.UpdateCount?
    requires req.id < |db.docs| && db.docs[req.id].reversalOf.None? && DocOk(p, db.ledger, db.docs[req.id])
    requires Handle(p, db, req).Done?
    ensures DocOk(p, db.ledger, Next(p, db, req).docs[req.id])
  {
    var d := db.docs[req.id];
    if req.UpdateAdjustment? && req.newItems.Some? {
      EditedAdjustmentOk(p, db.ledger, d, req.newItems.value, db.masters);
    } else if req.UpdateCount? && req.entries.Some? {
      EditedCountOk(p, db.ledger, d, req.entries.value);
    } else {
      LinesOkOfSame(db.ledger, d, Next(p, db, req).docs[req.id]);
    }
  }

  lemma SubmittedDocOk(p: Policy, ledger: seq<Row>, d: Doc, e: Doc)
    requires DocOk(p, ledger, d) && d.status == Draft && (d.kind.Count? ==> AllCounted(d.lines)) && d.reversalOf.None?
    requires exists actor: nat :: e == d.(status := Submitted, submittedBy := Some(actor), version := e.version,
      lines := if d.kind.Count? then WithVariances(d.lines) else d.lines)
    ensures DocOk(p, ledger, e)
  {
    if d.kind.Count? {
      forall n | 0 <= n < |e.lines| ensures LineOk(ledger, e, e.lines[n]) && VarianceFixed(e.lines[n]) {
        assert LineOk(ledger, d, d.lines[n]);
        assert e.lines[n] == WithVariance(d.lines[n]);
      }
    } else {
      forall n | 0 <= n < |e.lines| ensures LineOk(ledger, e, e.lines[n]) {
        assert LineOk(ledger, d, d.lines[n]);
      }
    }
  }

  lemma PostedDocOk(p: Policy, ledger: seq<Row>, b: Balances, d: Doc, actor: nat)
    requires DocOk(p, ledger, d) && d.status == Approved
    ensures DocOk(p, ledger, PostedDoc(b, d, actor))
  {
    var e := PostedDoc(b, d, actor);
    StampLinesAt(b, d, d.lines);
    forall n | 0 <= n < |e.lines|
      ensures LineOk(ledger, e, e.lines[n]) && Effect(e.lines[n]) == Effect(d.lines[n])
    {
      assert LineOk(ledger, d, d.lines[n]);
      StampedLineOk(ledger, b, d, e, d.lines[n]);
    }
    DecimalSums.SameSizesSameSums(d.lines, e.lines, p.digits);
    if d.kind.Count? {
      StampedCountLines(ledger, b, d);
    }
  }

  lemma StampedLineOk(ledger: seq<Row>, b: Balances, d: Doc, e: Doc, l: Line)
    requires LineOk(ledger, d, l) && e.kind == d.kind && e.org == d.org && e.warehouse == d.warehouse
    ensures LineOk(ledger, e, Stamp(b, d, l)) && Effect(Stamp(b, d, l)) == Effect(l)
  {
  }

  lemma StampedCountLines(ledger: seq<Row>, b: Balances, d: Doc)
    requires d.kind.Count? && LinesOk(ledger, d)
    ensures StampLines(b, d, d.lines) == d.lines
  {
    StampLinesAt(b, d, d.lines);
    forall n | 0 <= n < |d.lines| ensures Stamp(b, d, d.lines[n]) == d.lines[n] {
      assert LineOk(ledger, d, d.lines[n]);
    }
  }

  /** A posted document only ever gets a new `reversedBy`. */
  lemma PostedStays(p: Policy, db: Db, req: Request, id: nat)
    requires id < |db.docs| && db.docs[id].status == Posted
    ensures Next(p, db, req).docs[id] == db.docs[id].(reversedBy := Next(p, db, req).docs[id].reversedBy)
    ensures Moves(Next(p, db, req).docs[id]) == Moves(db.docs[id])
  {
    EveryDocStep(p, db, req, id);
    var d, e := db.docs[id], Next(p, db, req).docs[id];
    SameLinesSameMoves(d, e, d.lines, e.lines);
  }

  /** The links of existing reversals survive every request. */
  lemma LinkSurvives(p: Policy, db: Db, req: Request, i: nat)
    requires i < |db.docs| && db.docs[i].reversalOf.Some? && ReversalOk(db.docs, i)
    ensures Next(p, db, req).docs[i].reversalOf == db.docs[i].reversalOf
    ensures |db.docs| <= |Next(p, db, req).docs| && ReversalOk(Next(p, db, req).docs, i)
  {
    EveryDocStep(p, db, req, i);
    PostedStays(p, db, req, i);
    PostedStays(p, db, req, db.docs[i].reversalOf.value);
    var docs, docs', j := db.docs, Next(p, db, req).docs, db.docs[i].reversalOf.value;
    forall n | 0 <= n < |docs[i].lines| ensures Opposite(docs'[i], docs'[i].lines[n], docs'[j], docs'[j].lines[n]) {
      assert Opposite(docs[i], docs[i].lines[n], docs[j], docs[j].lines[n]);
    }
  }

  /** Every existing document stays well formed. */
  lemma DocSurvives(p: Policy, db: Db, req: Request, i: nat)
    requires DocsOk(p, db) && i < |db.docs|
    ensures |db.docs| <= |Next(p, db, req).docs| && DocOk(p, db.ledger, Next(p, db, req).docs[i])
  {
    hide Handle, PlanOf, EnterCounts, LinesOf, Material, LinesOk, StampLines;
    EveryDocStep(p, db, req, i);
    if req.Post? {
      TransactionStep(p, db, req);
    }
    var d, e := db.docs[i], Next(p, db, req).docs[i];
    assert DocOk(p, db.ledger, d);
    if e != d {
      if d.reversalOf.Some? {
        assert ReversalOk(db.docs, i);
      }
      if IsEdit(req, i) {
        EditedDocOk(p, db, req);
      } else if req.Submit? {
        SubmittedDocOk(p, db.ledger, d, e);
      } else if req.Post? {
        PlanShape(db, req, PlanOf(db, req).writes);
        PostedDocOk(p, db.ledger, db.balances, d, req.actor);
      } else {
        LinesOkOfSame(db.ledger, d, e);
      }
    }
  }

  lemma LinesOkOfSame(ledger: seq<Row>, d: Doc, e: Doc)
    requires LinesOk(ledger, d) && e.lines == d.lines && e.kind == d.kind && e.org == d.org && e.warehouse == d.warehouse
    ensures LinesOk(ledger, e)
  {
    forall n | 0 <= n < |e.lines| ensures LineOk(ledger, e, e.lines[n]) {
      assert LineOk(ledger, d, d.lines[n]);
    }
  }

  // ---------------------------------------------------------------- new documents and pending counts

  lemma NewAdjustmentOk(p: Policy, ledger: seq<Row>, org: nat, actor: nat, warehouse: nat, items: seq<Item>, masters: set<Master>)
    requires ItemsAccepted(masters, org, warehouse, items)
    ensures DocOk(p, ledger, NewAdjustment(p, org, actor, warehouse, LinesOf(items)))
  {
    assert forall n :: 0 <= n < |items| ==> items[n].delta != 0;
  }

  lemma NewCountOk(p: Policy, ledger: seq<Row>, c: Pending)
    requires PendingOk(ledger, c) && |c.lines| == |c.selectors|
    ensures DocOk(p, ledger, NewCount(c))
  {
    var d := NewCount(c);
    forall n | 0 <= n < |d.lines| ensures LineOk(ledger, d, d.lines[n]) && d.lines[n].CountLine? && d.lines[n].variance == None {
      assert UncommittedLineOk(ledger, NewCount(c), c.lines[n]);
    }
  }

  /** All ways in which request `req` can add document `d`. */
  predicate AddedBy(p: Policy, db: Db, req: Request, d: Doc) {
    || (&& req.CreateAdjustment? && ItemsAccepted(db.masters, req.org, req.warehouse, req.items)
        && d == NewAdjustment(p, req.org, req.actor, req.warehouse, LinesOf(req.items)))
    || (&& req.SaveCount? && req.pendingId < |db.pending|
        && |db.pending[req.pendingId].lines| == |db.pending[req.pendingId].selectors|
        && d == NewCount(db.pending[req.pendingId]))
    || (&& req.Reverse? && PlanOf(db, req).Execute? && req.id < |db.docs| && db.docs[req.id].status == Posted
        && d == ReversalOf(db.balances, req.id, db.docs[req.id], req.actor))
  }

  /** A request adds at most one document, in one of those ways. */
  lemma AddedShape(p: Policy, db: Db, req: Request, i: nat)
    requires |db.docs| <= i < |Next(p, db, req).docs|
    ensures i == |db.docs| && |Next(p, db, req).docs| == i + 1 && AddedBy(p, db, req, Next(p, db, req).docs[i])
  {
    hide ApplyAll, Sort, PostedRows, ItemsAccepted, AllCounted, EnterCounts, Material, MovesOf, StampLines, NegatedLines;
    if (req.Post? || req.Reverse?) && PlanOf(db, req).Execute? {
      PlanShape(db, req, PlanOf(db, req).writes);
    }
  }

  lemma AddedOk(p: Policy, db: Db, req: Request, d: Doc)
    requires DocsOk(p, db) && AddedBy(p, db, req, d)
    ensures DocOk(p, db.ledger, d)
  {
    if req.CreateAdjustment? {
      NewAdjustmentOk(p, db.ledger, req.org, req.actor, req.warehouse, req.items, db.masters);
    } else if req.SaveCount? {
      NewCountOk(p, db.ledger, db.pending[req.pendingId]);
    } else {
      assert DocOk(p, db.ledger, db.docs[req.id]);
      ReversalShape(db.ledger, db.balances, req.id, db.docs[req.id], req.actor);
    }
  }

  lemma NewLinkOk(p: Policy, db: Db, docs': seq<Doc>, req: Request)
    requires req.Reverse? && req.id < |db.docs| && db.docs[req.id].status == Posted && LinesOk(db.ledger, db.docs[req.id])
    requires |docs'| == |db.docs| + 1
    requires docs'[req.id] == db.docs[req.id].(reversedBy := docs'[req.id].reversedBy)
    requires docs'[|db.docs|] == ReversalOf(db.balances, req.id, db.docs[req.id], req.actor)
    ensures ReversalOk(docs', |db.docs|)
  {
    var d, r := db.docs[req.id], docs'[|db.docs|];
    ReversalShape(db.ledger, db.balances, req.id, d, req.actor);
    forall n | 0 <= n < |r.lines| ensures Opposite(r, r.lines[n], docs'[req.id], docs'[req.id].lines[n]) {
      assert Opposite(r, r.lines[n], d, d.lines[n]);
    }
  }

  /** A document that a request adds is well formed, and linked properly if it is a reversal. */
  lemma AddedDocOk(p: Policy, db: Db, req: Request, i: nat)
    requires DocsOk(p, db) && |db.docs| <= i < |Next(p, db, req).docs|
    ensures i == |db.docs| && AddedBy(p, db, req, Next(p, db, req).docs[i])
    ensures DocOk(p, db.ledger, Next(p, db, req).docs[i])
    ensures Next(p, db, req).docs[i].reversalOf.Some? ==> ReversalOk(Next(p, db, req).docs, i)
  {
    hide Next, PlanOf, ReversalOf, LinesOf, Material;
    AddedShape(p, db, req, i);
    AddedOk(p, db, req, Next(p, db, req).docs[i]);
    if req.Reverse? {
      assert DocOk(p, db.ledger, db.docs[req.id]);
      PostedStays(p, db, req, req.id);
      NewLinkOk(p, db, Next(p, db, req).docs, req);
    }
  }

  lemma SnapshotLineOk(p: Policy, db: Db, c: Pending)
    requires Reconciled(db) && PendingOk(db.ledger, c) && |c.lines| < |c.selectors|
    ensures PendingOk(db.ledger, c.(lines := c.lines + [SnapshotOf(db, c)]))
  {
    var c' := c.(lines := c.lines + [SnapshotOf(db, c)]);
    var l := SnapshotOf(db, c);
    assert db.ledger[..|db.ledger|] == db.ledger;
    assert OnHand(db.balances, KeyOf(NewCount(c'), l)) == NetRows(db.ledger, KeyOf(NewCount(c'), l));
    forall n | 0 <= n < |c'.lines| ensures UncommittedLineOk(db.ledger, NewCount(c'), c'.lines[n]) {
      if n < |c.lines| {
        assert LineOk(db.ledger, NewCount(c), c.lines[n]);
      }
    }
    assert forall n :: 0 <= n < |c'.lines| ==> UncommittedLineOk(db.ledger, NewCount(c'), c'.lines[n]);
  }

  lemma PendingSurvives(p: Policy, db: Db, req: Request, c: nat)
    requires DocsOk(p, db) && Reconciled(db) && c < |Next(p, db, req).pending|
    ensures PendingOk(db.ledger, Next(p, db, req).pending[c])
  {
    if req.SnapshotLine? && req.pendingId == c && Handle(p, db, req).Done? {
      SnapshotLineOk(p, db, db.pending[c]);
    }
  }

  // ---------------------------------------------------------------- the ledger

  /** The rows a request appends. */
  function NewRows(p: Policy, db: Db, req: Request): seq<Row> {
    match Handle(p, db, req)
    case Failed(_) => []
    case Done(_, _) =>
      if req.OtherMovements? then PostedRows(Sort(req.movements), External)
      else if (req.Post? || req.Reverse?) && PlanOf(db, req).Execute? then
        var w := PlanOf(db, req).writes;
        PostedRows(w.moved, Document(Target(db, w)))
      else []
  }

  lemma BatchMovesItsRows(b: Balances, ms: seq<Movement>, ref: Ref)
    requires ApplyAll(b, ms).Applied?
    ensures forall k :: OnHand(ApplyAll(b, ms).balances, k) == OnHand(b, k) + NetRows(PostedRows(ms, ref), k)
  {
    ApplyAllMeaning(b, ms);
    forall k ensures OnHand(ApplyAll(b, ms).balances, k) == OnHand(b, k) + NetRows(PostedRows(ms, ref), k) {
      PostedRowsMeaning(ms, ref, k);
    }
  }

  lemma BalanceStep(p: Policy, db: Db, req: Request)
    ensures forall k :: OnHand(Next(p, db, req).balances, k) ==
                        OnHand(db.balances, k) + NetRows(NewRows(p, db, req), k)
  {
    hide PlanOf, ApplyAll, Sort, PostedRows, ItemsAccepted, EnterCounts, Material;
    if req.OtherMovements? {
      if Handle(p, db, req).Done? {
        BatchMovesItsRows(db.balances, Sort(req.movements), External);
      }
    } else if req.Post? || req.Reverse? {
      TransactionStep(p, db, req);
      if PlanOf(db, req).Execute? {
        var w := PlanOf(db, req).writes;
        PlanShape(db, req, w);
        BatchMovesItsRows(db.balances, w.moved, Document(Target(db, w)));
      }
    }
  }

  lemma LedgerGrows(p: Policy, db: Db, req: Request)
    ensures Next(p, db, req).ledger == db.ledger + NewRows(p, db, req)
  {
    hide ApplyAll, Sort, PostedRows, ItemsAccepted, AllCounted, EnterCounts, Material, PlanOf;
    assert db.ledger + [] == db.ledger;
  }

  /** The ledger is append-only, and the balances follow it. */
  lemma LedgerStep(p: Policy, db: Db, req: Request)
    requires Reconciled(db)
    ensures Next(p, db, req).ledger == db.ledger + NewRows(p, db, req)
    ensures Reconciled(Next(p, db, req))
  {
    LedgerGrows(p, db, req);
    BalanceStep(p, db, req);
    hide Next, NewRows;
    var db', rows := Next(p, db, req), NewRows(p, db, req);
    forall k ensures OnHand(db'.balances, k) == NetRows(db'.ledger, k) {
      NetRowsAppend(db.ledger, rows, k);
    }
  }

  /** The request is an execution whose rows go to document `id`. */
  predicate MovesFor(db: Db, req: Request, id: nat) {
    (req.Post? || req.Reverse?) && PlanOf(db, req).Execute? && Target(db, PlanOf(db, req).writes) == id
  }

  /** An execution posts the rows its target document is due. */
  lemma ExecutionPostsDueRows(p: Policy, db: Db, req: Request, id: nat)
    requires MovesFor(db, req, id)
    ensures DueRows(db.docs, id) == []
    ensures DueRows(Next(p, db, req).docs, id) == NewRows(p, db, req)
  {
    hide PlanOf, Handle, ApplyAll, Sort, MovesOf, StampLines, NegatedLines;
    TransactionStep(p, db, req);
    PlanShape(db, req, PlanOf(db, req).writes);
    if req.Post? {
      PostedDocSteps(db.balances, db.docs[id], req.actor);
    }
  }

  /** Nothing else changes what an existing document is due. */
  lemma DueRowsStay(p: Policy, db: Db, req: Request, id: nat)
    requires id < |db.docs| && !MovesFor(db, req, id)
    ensures DueRows(Next(p, db, req).docs, id) == DueRows(db.docs, id)
  {
    EveryDocStep(p, db, req, id);
    if db.docs[id].status == Posted {
      PostedStays(p, db, req, id);
    } else if req.Post? && PlanOf(db, req).Execute? {
      PlanShape(db, req, PlanOf(db, req).writes);
    }
  }

  /** Each document's rows change exactly when its status becomes `Posted`. */
  lemma DueRowsStep(p: Policy, db: Db, req: Request, id: nat)
    ensures DueRows(Next(p, db, req).docs, id) == DueRows(db.docs, id) + RowsOf(NewRows(p, db, req), Document(id))
  {
    hide Next, NewRows, PlanOf, ApplyAll, Sort, MovesOf, PostedRows, RowsOf, MovesFor;
    RowsOfNew(p, db, req, id);
    if MovesFor(db, req, id) {
      ExecutionPostsDueRows(p, db, req, id);
    } else if id < |db.docs| {
      DueRowsStay(p, db, req, id);
    } else if id < |Next(p, db, req).docs| {
      AddedIsNotDue(p, db, req, id);
    }
  }

  lemma AddedIsNotDue(p: Policy, db: Db, req: Request, id: nat)
    requires |db.docs| <= id < |Next(p, db, req).docs| && !MovesFor(db, req, id)
    ensures DueRows(Next(p, db, req).docs, id) == []
  {
    hide ApplyAll, Sort, MovesOf, PostedRows, Material;
    AddedShape(p, db, req, id);
  }

  lemma RowsOfNew(p: Policy, db: Db, req: Request, id: nat)
    ensures RowsOf(NewRows(p, db, req), Document(id)) == if MovesFor(db, req, id) then NewRows(p, db, req) else []
  {
    var k := Key(0, 0, 0, 0, None, Available);
    if req.OtherMovements? {
      PostedRowsMeaning(Sort(req.movements), External, k);
    } else if (req.Post? || req.Reverse?) && PlanOf(db, req).Execute? {
      var w := PlanOf(db, req).writes;
      PostedRowsMeaning(w.moved, Document(Target(db, w)), k);
    }
  }

  // ---------------------------------------------------------------- the idempotency table

  lemma EntriesSurvive(p: Policy, db: Db, req: Request, ik: IdemKey, e: Entry)
    requires EntryOk(db.docs, ik, e)
    ensures EntryOk(Next(p, db, req).docs, ik, e)
  {
    PostedStays(p, db, req, e.ref);
    EveryDocStep(p, db, req, e.ref);
  }

  lemma NewEntryOk(db: Db, req: Request)
    requires (req.Post? || req.Reverse?) && PlanOf(db, req).Execute?
    ensures var w := PlanOf(db, req).writes;
      && ApplyWrites(db, w).table == db.table[w.ik := Entry(w.payload, Target(db, w))]
      && EntryOk(ApplyWrites(db, w).docs, w.ik, Entry(w.payload, Target(db, w)))
  {
    PlanShape(db, req, PlanOf(db, req).writes);
  }

  lemma TableStep(p: Policy, db: Db, req: Request)
    requires TableOk(db)
    ensures TableOk(Next(p, db, req))
  {
    var db' := Next(p, db, req);
    forall ik | ik in db'.table ensures EntryOk(db'.docs, ik, db'.table[ik]) {
      if ik in db.table && db'.table[ik] == db.table[ik] {
        EntriesSurvive(p, db, req, ik, db.table[ik]);
      } else {
        NewEntryOk(db, req);
      }
    }
  }

  // ---------------------------------------------------------------- the invariant is inductive

  lemma DocsStep(p: Policy, db: Db, req: Request)
    requires DocsOk(p, db) && Reconciled(db)
    ensures DocsOk(p, Next(p, db, req))
  {
    var db', rows := Next(p, db, req), NewRows(p, db, req);
    LedgerStep(p, db, req);
    forall i | 0 <= i < |db'.docs|
      ensures DocOk(p, db'.ledger, db'.docs[i])
      ensures db'.docs[i].reversalOf.Some? ==> ReversalOk(db'.docs, i)
    {
      if i < |db.docs| {
        DocSurvives(p, db, req, i);
        EveryDocStep(p, db, req, i);
        if db.docs[i].reversalOf.Some? {
          LinkSurvives(p, db, req, i);
        }
      } else {
        AddedDocOk(p, db, req, i);
      }
      LinesSurvive(db.ledger, rows, db'.docs[i]);
    }
    forall c | 0 <= c < |db'.pending| ensures PendingOk(db'.ledger, db'.pending[c]) {
      PendingSurvives(p, db, req, c);
      var pending := db'.pending[c];
      LinesSurvive(db.ledger, rows, NewCount(pending));
      forall n | 0 <= n < |pending.lines|
        ensures LineOk(db'.ledger, NewCount(pending), pending.lines[n]) && pending.lines[n].CountLine? && pending.lines[n].variance == None
      {
        assert LineOk(db'.ledger, NewCount(pending), NewCount(pending).lines[n]);
      }
    }
  }

  /** Every request keeps the invariant. */
  lemma StepKeepsInv(p: Policy, db: Db, req: Request)
    requires Inv(p, db)
    ensures Inv(p, Next(p, db, req))
  {
    DocsStep(p, db, req);
    LedgerStep(p, db, req);
    TableStep(p, db, req);
    var db' := Next(p, db, req);
    forall id: nat ensures RowsOf(db'.ledger, Document(id)) == DueRows(db'.docs, id) {
      DueRowsStep(p, db, req, id);
      RowsOfAppend(db.ledger, NewRows(p, db, req), Document(id));
    }
  }

  lemma EmptyInv(p: Policy)
    ensures Inv(p, EMPTY)
  {
  }

  /** Every state reachable from one that satisfies the invariant satisfies it. */
  lemma {:induction false} RunKeepsInv(p: Policy, db: Db, reqs: seq<Request>)
    requires Inv(p, db)
    ensures Inv(p, Run(p, db, reqs))
  {
    if reqs != [] {
      RunKeepsInv(p, db, reqs[..|reqs| - 1]);
      StepKeepsInv(p, Run(p, db, reqs[..|reqs| - 1]), reqs[|reqs| - 1]);
    }
  }
}
