/** Organizations are kept apart: what one organization asks for never touches another's stock or documents. */
module Organizations {
  import opened Prelude
  import opened Ledger
  import opened Documents
  import opened Posting
  import opened Invariants

  function DocsFor(docs: seq<Doc>, org: nat): seq<(nat, Doc)> {
    if docs == [] then []
    else
      var n := |docs| - 1;
      DocsFor(docs[..n], org) + (if docs[n].org == org then [(n, docs[n])] else [])
  }

  function RowsFor(rows: seq<Row>, org: nat): seq<Row> {
    if rows == [] then []
    else RowsFor(rows[..|rows| - 1], org) + (if rows[|rows| - 1].key.org == org then [rows[|rows| - 1]] else [])
  }

  function BalancesFor(b: Balances, org: nat): Balances {
    map k | k in b && k.org == org :: b[k]
  }

  function TableFor(table: map<IdemKey, Entry>, org: nat): map<IdemKey, Entry> {
    map ik | ik in table && ik.org == org :: table[ik]
  }

  /** Everything of an organization: its documents with their identifiers, balances, ledger rows and idempotency entries. */
  datatype Part = Part(docs: seq<(nat, Doc)>, balances: Balances, rows: seq<Row>, table: map<IdemKey, Entry>)

  function PartOf(db: Db, org: nat): Part {
    Part(DocsFor(db.docs, org), BalancesFor(db.balances, org), RowsFor(db.ledger, org), TableFor(db.table, org))
  }

  /** The request is made on behalf of organizations other than `org`. */
  predicate OnBehalfOfOthers(db: Db, req: Request, org: nat) {
    match req
    case CreateAdjustment(o, _, _, _) => o != org
    case UpdateAdjustment(o, _, _, _) => o != org
    case OpenCount(o, _, _, _) => o != org
    case SnapshotLine(c) => true
    case SaveCount(c) => c < |db.pending| ==> db.pending[c].org != org
    case UpdateCount(o, _, _, _) => o != org
    case Submit(_, o, _, _) => o != org
    case Approve(_, o, _, _) => o != org
    case Reject(_, o, _, _) => o != org
    case Post(_, o, _, _, _) => o != org
    case Reverse(_, o, _, _, _, _) => o != org
    case OtherMovements(ms) => forall m :: m in ms ==> m.key.org != org
    case SetMasters(_) => true
  }

  // ---------------------------------------------------------------- documents

  lemma {:induction false} DocsForReplace(docs: seq<Doc>, id: nat, d: Doc, org: nat)
    requires id < |docs| && docs[id].org != org && d.org != org
    ensures DocsFor(docs[id := d], org) == DocsFor(docs, org)
  {
    var n := |docs| - 1;
    if id < n {
      assert docs[id := d][..n] == docs[..n][id := d];
      DocsForReplace(docs[..n], id, d, org);
    } else {
      assert docs[id := d][..n] == docs[..n];
    }
  }

  lemma DocsForAppend(docs: seq<Doc>, d: Doc, org: nat)
    ensures d.org != org ==> DocsFor(docs + [d], org) == DocsFor(docs, org)
  {
    assert (docs + [d])[..|docs|] == docs;
  }

  // ---------------------------------------------------------------- batches

  lemma {:induction false} RowsForPosted(rows: seq<Row>, ms: seq<Movement>, ref: Ref, org: nat)
    requires forall m :: m in ms ==> m.key.org != org
    ensures RowsFor(rows + PostedRows(ms, ref), org) == RowsFor(rows, org)
  {
    if ms == [] {
      assert rows + [] == rows;
    } else {
      var front, m := ms[..|ms| - 1], ms[|ms| - 1];
      RowsForPosted(rows, front, ref, org);
      assert m in ms;
      var before, all := rows + PostedRows(front, ref), rows + PostedRows(ms, ref);
      if m.quantity == 0 {
        assert all == before;
      } else {
        assert all == before + [Row(m.key, m.quantity, ref)];
        assert all[..|all| - 1] == before;
      }
    }
  }

  lemma {:induction false} BatchLeavesOthers(b: Balances, ms: seq<Movement>, org: nat)
    requires ApplyAll(b, ms).Applied?
    requires forall m :: m in ms ==> m.key.org != org
    ensures BalancesFor(ApplyAll(b, ms).balances, org) == BalancesFor(b, org)
  {
    if ms != [] {
      assert ms[|ms| - 1] in ms;
      BatchLeavesOthers(b, ms[..|ms| - 1], org);
    }
  }

  lemma {:induction false} MovesStayInside(d: Doc, lines: seq<Line>)
    ensures forall m :: m in MovesOf(d, lines) ==> m.key.org == d.org
  {
    if lines != [] {
      MovesStayInside(d, lines[..|lines| - 1]);
    }
  }

  lemma {:induction false} SortedMembers(ms: seq<Movement>)
    ensures forall m :: m in Sort(ms) <==> m in ms
  {
    if ms != [] {
      assert ms == ms[..|ms| - 1] + [ms[|ms| - 1]];
      SortedMembers(ms[..|ms| - 1]);
    }
  }

  // ---------------------------------------------------------------- one request

  /** What a transaction moves and which documents it writes lie inside its own organization. */
  lemma TransactionStaysInside(db: Db, req: Request, w: Writes)
    requires (req.Post? || req.Reverse?) && PlanOf(db, req) == Execute(w)
    ensures w.id < |db.docs| && db.docs[w.id].org == w.doc.org == w.ik.org == req.org
    ensures w.created.Some? ==> w.created.value.org == req.org
    ensures forall m :: m in w.moved ==> m.key.org == req.org
    ensures ApplyAll(db.balances, w.moved).Applied?
    ensures db.balances + w.balances == ApplyAll(db.balances, w.moved).balances
  {
    PlanShape(db, req, w);
    hide PlanOf, MovesOf, Sort, ApplyAll, StampLines, NegatedLines;
    var d := if req.Post? then db.docs[w.id] else w.created.value;
    MovesStayInside(d, d.lines);
    SortedMembers(Moves(d));
  }

  lemma WritesLeaveOthers(db: Db, w: Writes, own: nat, org: nat)
    requires own != org && w.id < |db.docs| && db.docs[w.id].org == w.doc.org == w.ik.org == own
    requires w.created.Some? ==> w.created.value.org == own
    requires forall m :: m in w.moved ==> m.key.org == own
    requires ApplyAll(db.balances, w.moved).Applied?
    requires db.balances + w.balances == ApplyAll(db.balances, w.moved).balances
    ensures PartOf(ApplyWrites(db, w), org) == PartOf(db, org)
  {
    hide ApplyAll, PostedRows, DocsFor, RowsFor;
    BatchLeavesOthers(db.balances, w.moved, org);
    RowsForPosted(db.ledger, w.moved, Document(Target(db, w)), org);
    DocsForReplace(db.docs, w.id, w.doc, org);
    var docs := db.docs[w.id := w.doc];
    if w.created.Some? {
      DocsForAppend(docs, w.created.value, org);
    } else {
      assert docs + [] == docs;
    }
    assert TableFor(ApplyWrites(db, w).table, org) == TableFor(db.table, org);
  }

  lemma OthersLeaveDocs(p: Policy, db: Db, req: Request, org: nat)
    requires OnBehalfOfOthers(db, req, org) && !req.Post? && !req.Reverse?
    ensures DocsFor(Next(p, db, req).docs, org) == DocsFor(db.docs, org)
    ensures Next(p, db, req).table == db.table
    ensures !req.OtherMovements? ==> Next(p, db, req).balances == db.balances && Next(p, db, req).ledger == db.ledger
  {
    hide EnterCounts, ItemsAccepted, Material, AllCounted, DocsFor, ApplyAll, Sort, PostedRows;
    var docs := Next(p, db, req).docs;
    if |docs| > |db.docs| {
      assert docs == db.docs + [docs[|db.docs|]];
      DocsForAppend(db.docs, docs[|db.docs|], org);
    } else if docs != db.docs {
      assert req.UpdateAdjustment? || req.UpdateCount? || req.Submit? || req.Approve? || req.Reject?;
      assert docs == db.docs[req.id := docs[req.id]];
      DocsForReplace(db.docs, req.id, docs[req.id], org);
    }
  }

  /** A request on behalf of others leaves everything of the organization as it was. */
  lemma OthersChangeNothing(p: Policy, db: Db, req: Request, org: nat)
    requires OnBehalfOfOthers(db, req, org)
    ensures PartOf(Next(p, db, req), org) == PartOf(db, org)
  {
    if req.Post? || req.Reverse? {
      hide PlanOf, Handle, ApplyWrites;
      TransactionStep(p, db, req);
      if PlanOf(db, req).Execute? {
        var w := PlanOf(db, req).writes;
        TransactionStaysInside(db, req, w);
        WritesLeaveOthers(db, w, req.org, org);
      }
    } else {
      OthersLeaveDocs(p, db, req, org);
      if req.OtherMovements? && Handle(p, db, req).Done? {
        SortedMembers(req.movements);
        BatchLeavesOthers(db.balances, Sort(req.movements), org);
        RowsForPosted(db.ledger, Sort(req.movements), External, org);
      }
    }
  }

  /** No run of requests on behalf of others, however long, changes anything of an organization. */
  lemma {:induction false} RunsOfOthersChangeNothing(p: Policy, db: Db, reqs: seq<Request>, org: nat)
    requires forall n :: 0 <= n < |reqs| ==> OnBehalfOfOthers(Run(p, db, reqs[..n]), reqs[n], org)
    ensures PartOf(Run(p, db, reqs), org) == PartOf(db, org)
  {
    if reqs != [] {
      var front := reqs[..|reqs| - 1];
      forall n | 0 <= n < |front| ensures OnBehalfOfOthers(Run(p, db, front[..n]), front[n], org) {
        assert front[..n] == reqs[..n];
      }
      RunsOfOthersChangeNothing(p, db, front, org);
      OthersChangeNothing(p, Run(p, db, front), reqs[|reqs| - 1], org);
    }
  }
}
