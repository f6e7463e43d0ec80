/** What the balances mean: agreement with the document history, guarded stock, stamped quantities, counted stock. */
module Balances {
  import opened Prelude
  import opened Ledger
  import opened Documents
  import opened Posting
  import opened Invariants

  // ---------------------------------------------------------------- agreement with document history

  /** What the posted documents among `docs` put on a key. */
  function PostedNet(docs: seq<Doc>, k: Key): int {
    if docs == [] then 0
    else
      var d := docs[|docs| - 1];
      PostedNet(docs[..|docs| - 1], k) + (if d.status == Posted then DocNet(d, k) else 0)
  }

  /** What the rows of documents 0 to n-1 put on a key. */
  function NetUpTo(rows: seq<Row>, n: nat, k: Key): int {
    if n == 0 then 0 else NetUpTo(rows, n - 1, k) + NetRows(RowsOf(rows, Document(n - 1)), k)
  }

  lemma {:induction false} NetUpToStep(rows: seq<Row>, n: nat, k: Key)
    requires rows != []
    ensures var last := rows[|rows| - 1];
      NetUpTo(rows, n, k) == NetUpTo(rows[..|rows| - 1], n, k) +
        (if last.ref.Document? && last.ref.id < n && last.key == k then last.quantity else 0)
  {
    if n > 0 {
      NetUpToStep(rows, n - 1, k);
      RowsOfNetStep(rows, Document(n - 1), k);
    }
  }

  lemma RowsOfNetStep(rows: seq<Row>, ref: Ref, k: Key)
    requires rows != []
    ensures var last := rows[|rows| - 1];
      NetRows(RowsOf(rows, ref), k) == NetRows(RowsOf(rows[..|rows| - 1], ref), k) +
        (if last.ref == ref && last.key == k then last.quantity else 0)
  {
    var last := rows[|rows| - 1];
    var extra := if last.ref == ref then [last] else [];
    NetRowsAppend(RowsOf(rows[..|rows| - 1], ref), extra, k);
    assert extra != [] ==> extra[..0] == [];
  }

  lemma {:induction false} RowsPartition(rows: seq<Row>, n: nat, k: Key)
    requires forall r :: r in rows && r.ref.Document? ==> r.ref.id < n
    ensures NetRows(rows, k) == NetRows(RowsOf(rows, External), k) + NetUpTo(rows, n, k)
  {
    if rows == [] {
      NothingUpTo(n, k);
    } else {
      var last := rows[|rows| - 1];
      assert last in rows;
      RowsPartition(rows[..|rows| - 1], n, k);
      NetUpToStep(rows, n, k);
      RowsOfNetStep(rows, External, k);
    }
  }

  lemma {:induction false} NothingUpTo(n: nat, k: Key)
    ensures NetUpTo([], n, k) == 0
  {
    if n > 0 {
      NothingUpTo(n - 1, k);
    }
  }

  lemma {:induction false} RowsOfMember(rows: seq<Row>, r: Row)
    requires r in rows
    ensures r in RowsOf(rows, r.ref)
  {
    if rows[|rows| - 1] != r {
      RowsOfMember(rows[..|rows| - 1], r);
    }
  }

  lemma DueNet(docs: seq<Doc>, id: nat, k: Key)
    requires id < |docs|
    ensures NetRows(DueRows(docs, id), k) == if docs[id].status == Posted then DocNet(docs[id], k) else 0
  {
    var d := docs[id];
    PostedRowsMeaning(Sort(Moves(d)), Document(id), k);
    SortingIsHarmless(map[], Moves(d));
    MovesNet(d, d.lines, k);
  }

  lemma {:induction false} PostedNetIsDue(rows: seq<Row>, docs: seq<Doc>, n: nat, k: Key)
    requires n <= |docs|
    requires forall id: nat :: RowsOf(rows, Document(id)) == DueRows(docs, id)
    ensures NetUpTo(rows, n, k) == PostedNet(docs[..n], k)
  {
    hide DueRows, DocNet, NetRows, RowsOf;
    if n > 0 {
      PostedNetIsDue(rows, docs, n - 1, k);
      DueNet(docs, n - 1, k);
      assert docs[..n][..n - 1] == docs[..n - 1];
    }
  }

  /**
   * In every reachable state a balance is what other modules moved onto its key plus the line
   * quantities of exactly the posted documents, reversals included.
   */
  lemma BalanceAgreement(p: Policy, db: Db, k: Key)
    requires Inv(p, db)
    ensures OnHand(db.balances, k) == NetRows(RowsOf(db.ledger, External), k) + PostedNet(db.docs, k)
  {
    forall r | r in db.ledger && r.ref.Document? ensures r.ref.id < |db.docs| {
      RowsOfMember(db.ledger, r);
      assert RowsOf(db.ledger, Document(r.ref.id)) == DueRows(db.docs, r.ref.id);
    }
    RowsPartition(db.ledger, |db.docs|, k);
    PostedNetIsDue(db.ledger, db.docs, |db.docs|, k);
    assert db.docs[..|db.docs|] == db.docs;
  }

  // ---------------------------------------------------------------- stock never goes below zero

  /** Nothing in the batch bypasses the guard on key `k`. */
  predicate BatchGuardedOn(ms: seq<Movement>, k: Key) {
    forall m :: m in ms && m.key == k ==> !m.allowNegative
  }

  lemma BatchKeepsNonNegative(b: Balances, ms: seq<Movement>, k: Key)
    requires OnHand(b, k) >= 0 && ApplyAll(b, Sort(ms)).Applied? && BatchGuardedOn(ms, k)
    ensures OnHand(ApplyAll(b, Sort(ms)).balances, k) >= 0
  {
    SortingIsHarmless(b, ms);
    ApplyAllMeaning(b, ms);
    TouchedByKey(ms, k);
    GuardKeepsNonNegative(OnHand(b, k), OnKey(ms, k));
  }

  predicate GuardedRequest(req: Request, k: Key) {
    req.OtherMovements? ==> BatchGuardedOn(req.movements, k)
  }

  lemma NonNegativeStep(p: Policy, db: Db, req: Request, k: Key)
    requires OnHand(db.balances, k) >= 0 && GuardedRequest(req, k)
    ensures OnHand(Next(p, db, req).balances, k) >= 0
  {
    hide PlanOf, ApplyAll, Sort, PostedRows, MovesOf, StampLines, EnterCounts, ItemsAccepted, Material;
    if req.OtherMovements? {
      if Handle(p, db, req).Done? {
        BatchKeepsNonNegative(db.balances, req.movements, k);
      }
    } else if req.Post? || req.Reverse? {
      TransactionStep(p, db, req);
      hide Handle, Next;
      if PlanOf(db, req).Execute? {
        var w := PlanOf(db, req).writes;
        PlanShape(db, req, w);
        var d := if req.Post? then db.docs[w.id] else w.created.value;
        MovesGuarded(d, d.lines);
        BatchKeepsNonNegative(db.balances, Moves(d), k);
      }
    }
  }

  /** A key on which nothing bypasses the guard never holds less than zero, whatever is posted, counted or reversed. */
  lemma {:induction false} NeverNegative(p: Policy, reqs: seq<Request>, k: Key)
    requires forall i :: 0 <= i < |reqs| ==> GuardedRequest(reqs[i], k)
    ensures OnHand(Run(p, EMPTY, reqs).balances, k) >= 0
  {
    if reqs != [] {
      NeverNegative(p, reqs[..|reqs| - 1], k);
      NonNegativeStep(p, Run(p, EMPTY, reqs[..|reqs| - 1]), reqs[|reqs| - 1], k);
    }
  }

  // ---------------------------------------------------------------- prior and resulting quantities

  /** The effects of all lines but line `n` on its key. */
  function OtherLines(d: Doc, lines: seq<Line>, n: nat): int
    requires n < |lines|
  {
    LineNet(d, lines, KeyOf(d, lines[n])) - Effect(lines[n])
  }

  predicate DistinctKeys(d: Doc, lines: seq<Line>) {
    forall i, j :: 0 <= i < j < |lines| ==> KeyOf(d, lines[i]) != KeyOf(d, lines[j])
  }

  lemma {:induction false} AbsentKey(d: Doc, lines: seq<Line>, k: Key)
    requires forall i :: 0 <= i < |lines| ==> KeyOf(d, lines[i]) != k
    ensures LineNet(d, lines, k) == 0
  {
    if lines != [] {
      AbsentKey(d, lines[..|lines| - 1], k);
    }
  }

  lemma {:induction false} DistinctMeansAlone(d: Doc, lines: seq<Line>, n: nat)
    requires n < |lines| && DistinctKeys(d, lines)
    ensures OtherLines(d, lines, n) == 0
  {
    if n == |lines| - 1 {
      AbsentKey(d, lines[..n], KeyOf(d, lines[n]));
    } else {
      DistinctMeansAlone(d, lines[..|lines| - 1], n);
      assert KeyOf(d, lines[n]) != KeyOf(d, lines[|lines| - 1]);
    }
  }

  /** The document that a post or reversal moves stock for. */
  function MovedDoc(db: Db, req: Request): Doc
    requires (req.Post? || req.Reverse?) && PlanOf(db, req).Execute?
  {
    var w := PlanOf(db, req).writes;
    if req.Post? then w.doc else w.created.value
  }

  /** The balances a post or reversal leaves. */
  function BalancesAfter(db: Db, req: Request): Balances
    requires (req.Post? || req.Reverse?) && PlanOf(db, req).Execute?
  {
    db.balances + PlanOf(db, req).writes.balances
  }

  /** A posting moves every key by exactly what the document's lines say. */
  lemma PostingMovesLines(db: Db, req: Request, k: Key)
    requires (req.Post? || req.Reverse?) && PlanOf(db, req).Execute?
    ensures OnHand(BalancesAfter(db, req), k) == OnHand(db.balances, k) + DocNet(MovedDoc(db, req), k)
  {
    var w := PlanOf(db, req).writes;
    PlanShape(db, req, w);
    ApplyAllEffect(db.balances, w.moved);
    var d := if req.Post? then db.docs[w.id] else w.created.value;
    SortingIsHarmless(db.balances, Moves(d));
    if req.Post? {
      PostedDocSteps(db.balances, d, req.actor);
    }
    MovesNet(d, d.lines, k);
    assert OnHand(ApplyAll(db.balances, w.moved).balances, k) == OnHand(db.balances, k) + Net(w.moved, k);
  }

  lemma StampedLine(b: Balances, d: Doc, e: Doc, n: nat)
    requires e.org == d.org && e.warehouse == d.warehouse && e.lines == StampLines(b, d, d.lines)
    requires n < |e.lines| && e.lines[n].AdjustmentLine?
    ensures
      var prior := OnHand(b, KeyOf(e, e.lines[n]));
      e.lines[n].prior == Some(prior) && e.lines[n].resulting == Some(prior + e.lines[n].delta)
  {
    StampLinesAt(b, d, d.lines);
  }

  /** Each adjustment line is stamped with the balance read before the batch. */
  lemma LinesAreStamped(db: Db, req: Request, n: nat)
    requires (req.Post? || req.Reverse?) && PlanOf(db, req).Execute?
    requires n < |MovedDoc(db, req).lines| && MovedDoc(db, req).lines[n].AdjustmentLine?
    ensures
      var d := MovedDoc(db, req);
      var prior := OnHand(db.balances, KeyOf(d, d.lines[n]));
      d.lines[n].prior == Some(prior) && d.lines[n].resulting == Some(prior + d.lines[n].delta)
  {
    hide PlanOf, ApplyAll, Sort, MovesOf, Effect, StampLines, NegatedLines;
    var w := PlanOf(db, req).writes;
    PlanShape(db, req, w);
    var d := db.docs[w.id];
    if req.Post? {
      StampedLine(db.balances, d, w.doc, n);
    } else {
      StampedLine(db.balances, w.created.value.(lines := NegatedLines(d.lines)), w.created.value, n);
    }
  }

  /**
   * The quantities stamped on an adjustment line: `prior` is the balance before the batch, and
   * `resulting` misses the balance after it by exactly what the other lines put on the same key.
   * So it is right precisely when those cancel, in particular when no key repeats.
   */
  lemma StampedQuantities(db: Db, req: Request, n: nat)
    requires (req.Post? || req.Reverse?) && PlanOf(db, req).Execute?
    requires n < |MovedDoc(db, req).lines| && MovedDoc(db, req).lines[n].AdjustmentLine?
    ensures
      var d := MovedDoc(db, req);
      var after := OnHand(BalancesAfter(db, req), KeyOf(d, d.lines[n]));
      && d.lines[n].prior == Some(OnHand(db.balances, KeyOf(d, d.lines[n])))
      && d.lines[n].resulting.Some?
      && after == d.lines[n].resulting.value + OtherLines(d, d.lines, n)
      && (DistinctKeys(d, d.lines) ==> d.lines[n].resulting == Some(after))
  {
    hide PlanOf, BalancesAfter, MovedDoc;
    var d := MovedDoc(db, req);
    PostingMovesLines(db, req, KeyOf(d, d.lines[n]));
    LinesAreStamped(db, req, n);
    if DistinctKeys(d, d.lines) {
      DistinctMeansAlone(d, d.lines, n);
    }
  }

  // ---------------------------------------------------------------- counted stock

  /** Posting a count: the net movement on line `n`'s key since its system quantity was read. */
  function MovedSince(db: Db, d: Doc, n: nat): int
    requires n < |d.lines| && d.lines[n].CountLine? && d.lines[n].readAt <= |db.ledger|
  {
    NetRows(db.ledger[d.lines[n].readAt..], KeyOf(d, d.lines[n]))
  }

  /** What the lines of an approved count say about the ledger. */
  lemma ApprovedLine(p: Policy, db: Db, id: nat, n: nat)
    requires DocsOk(p, db) && id < |db.docs| && db.docs[id].kind.Count? && db.docs[id].status == Approved
    requires n < |db.docs[id].lines|
    ensures
      var l := db.docs[id].lines[n];
      && VarianceFixed(l) && l.counted.value >= 0 && l.readAt <= |db.ledger|
      && l.system == NetRows(db.ledger[..l.readAt], KeyOf(db.docs[id], l))
  {
    var d := db.docs[id];
    assert DocOk(p, db.ledger, d) && LineOk(db.ledger, d, d.lines[n]);
    assert d.reversalOf.Some? ==> ReversalOk(db.docs, id);
  }

  /** The ledger since a line was read is the ledger now less the ledger then. */
  lemma MovedSinceIsDifference(db: Db, d: Doc, n: nat)
    requires n < |d.lines| && d.lines[n].CountLine? && d.lines[n].readAt <= |db.ledger|
    ensures NetRows(db.ledger, KeyOf(d, d.lines[n])) ==
            NetRows(db.ledger[..d.lines[n].readAt], KeyOf(d, d.lines[n])) + MovedSince(db, d, n)
  {
    var at := d.lines[n].readAt;
    assert db.ledger == db.ledger[..at] + db.ledger[at..];
    NetRowsAppend(db.ledger[..at], db.ledger[at..], KeyOf(d, d.lines[n]));
  }

  /**
   * After posting a count, a counted key holds the counted quantity, plus whatever moved on it
   * since its line was read, plus the variances of any other line on the same key. So when no key
   * repeats it holds counted plus moved, and the counted quantity itself if nothing moved.
   */
  lemma CountedStock(p: Policy, db: Db, req: Request, n: nat)
    requires Inv(p, db) && req.Post? && req.kind.Count? && PlanOf(db, req).Execute?
    requires n < |db.docs[req.id].lines|
    ensures
      var d := db.docs[req.id];
      var l := d.lines[n];
      var after := OnHand(Next(p, db, req).balances, KeyOf(d, l));
      && l.CountLine? && l.counted.Some? && l.counted.value >= 0 && l.readAt <= |db.ledger|
      && after == l.counted.value + MovedSince(db, d, n) + OtherLines(d, d.lines, n)
      && (DistinctKeys(d, d.lines) ==> after == l.counted.value + MovedSince(db, d, n))
  {
    hide PlanOf, Handle, ApplyAll, Sort, PostedRows, MovesOf, StampLines;
    PlanShape(db, req, PlanOf(db, req).writes);
    TransactionStep(p, db, req);
    var d := db.docs[req.id];
    ApprovedLine(p, db, req.id, n);
    MovedSinceIsDifference(db, d, n);
    PostingMovesLines(db, req, KeyOf(d, d.lines[n]));
    PostedDocSteps(db.balances, d, req.actor);
    assert OnHand(db.balances, KeyOf(d, d.lines[n])) == NetRows(db.ledger, KeyOf(d, d.lines[n]));
    if DistinctKeys(d, d.lines) {
      DistinctMeansAlone(d, d.lines, n);
    }
  }
}
