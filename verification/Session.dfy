/** The collections as mutable state: the committed store, or the working copy inside a transaction session. */
module Sessions {
  import opened Prelude
  import opened Ledger
  import opened Documents
  import opened Posting

  class Session {
    var docs: seq<Doc>
    var pending: seq<Pending>
    var masters: set<Master>
    var balances: Balances
    var ledger: seq<Row>
    var table: map<IdemKey, Entry>

    /** The state as one value. */
    function View(): Db
      reads this
    {
      Db(docs, pending, masters, balances, ledger, table)
    }

    constructor (db: Db)
      ensures View() == db
    {
      docs, pending, masters := db.docs, db.pending, db.masters;
      balances, ledger, table := db.balances, db.ledger, db.table;
    }

    /** Replaces the whole state, as a commit or the requests of other clients do. */
    method Become(db: Db)
      modifies this
      ensures View() == db
    {
      docs, pending, masters := db.docs, db.pending, db.masters;
      balances, ledger, table := db.balances, db.ledger, db.table;
    }

    /** Saves a loaded document. */
    method SaveDoc(id: nat, d: Doc)
      requires id < |docs|
      modifies this`docs
      ensures docs == old(docs)[id := d]
    {
      docs := docs[id := d];
    }

    method InsertDoc(d: Doc) returns (id: nat)
      modifies this`docs
      ensures docs == old(docs) + [d] && id == |old(docs)|
    {
      id := |docs|;
      docs := docs + [d];
    }
  }

  /** The adjustment collection holds adjustment lines only, the count collection count lines only. */
  predicate Typed(db: Db) {
    forall i :: 0 <= i < |db.docs| ==> TypedDoc(db.docs[i])
  }

  predicate TypedDoc(d: Doc) {
    (d.kind.Count? ==> !d.elevated) && forall n :: 0 <= n < |d.lines| ==> d.lines[n].AdjustmentLine? == d.kind.Adjustment?
  }

  /** What an operation in a transaction session must amount to; after an error the session is discarded. */
  ghost predicate Carries(outcome: Outcome, r: Result<nat, Error>, view: Db) {
    match outcome
    case Done(db, ref) => r == Ok(ref) && view == db
    case Failed(error) => r == Err(error)
  }

  /** The same for an operation outside a transaction, which must leave the state alone when it fails. */
  ghost predicate CarriesOrKeeps(outcome: Outcome, r: Result<nat, Error>, before: Db, view: Db) {
    Carries(outcome, r, view) && (outcome.Failed? ==> view == before)
  }

  /** The plan of a post under a fresh key, spelled out field by field. */
  lemma PostOutcome(db: Db, req: Request)
    requires req.Post? && req.key != "" && IdemKeyOf(req) !in db.table
    ensures !Owns(db, req.kind, req.org, req.id) ==> Transact(db, req) == Failed(NotFound)
    ensures Owns(db, req.kind, req.org, req.id) ==>
      var d := db.docs[req.id];
      Transact(db, req) ==
        if d.status != Approved then Failed(BusinessRule)
        else if ApplyAll(db.balances, Moves(d)).Insufficient? then Failed(InsufficientStock)
        else
          Done(Db(db.docs[req.id := PostedDoc(db.balances, d, req.actor)], db.pending, db.masters,
                  ApplyAll(db.balances, Moves(d)).balances,
                  db.ledger + PostedRows(Sort(Moves(d)), Document(req.id)),
                  db.table[IdemKeyOf(req) := Entry(PayloadOf(req), req.id)]), req.id)
  {
    if Owns(db, req.kind, req.org, req.id) && db.docs[req.id].status == Approved {
      var d := db.docs[req.id];
      BatchOutcome(db.balances, Moves(d));
      if ApplyAll(db.balances, Moves(d)).Applied? {
        var w := Writes(req.id, PostedDoc(db.balances, d, req.actor), None, Written(db.balances, Sort(Moves(d))),
                        Sort(Moves(d)), IdemKeyOf(req), PayloadOf(req));
        assert PlanOf(db, req) == Execute(w);
        var docs := db.docs[w.id := w.doc];
        assert docs + [] == docs;
      }
    }
  }

  /** What the sorted batch and the rows it writes amount to. */
  lemma BatchOutcome(b: Balances, ms: seq<Movement>)
    ensures ApplyAll(b, Sort(ms)) == ApplyAll(b, ms)
    ensures ApplyAll(b, ms).Applied? ==> b + Written(b, Sort(ms)) == ApplyAll(b, ms).balances
  {
    SortingIsHarmless(b, ms);
    if ApplyAll(b, ms).Applied? {
      WrittenIsAll(b, Sort(ms));
    }
  }

  /** The plan of a reversal under a fresh key, spelled out field by field. */
  lemma ReverseOutcome(db: Db, req: Request)
    requires req.Reverse? && req.key != "" && IdemKeyOf(req) !in db.table
    ensures !Owns(db, req.kind, req.org, req.id) ==> Transact(db, req) == Failed(NotFound)
    ensures Owns(db, req.kind, req.org, req.id) ==>
      var d := db.docs[req.id];
      var rev := ReversalOf(db.balances, req.id, d, req.actor);
      Transact(db, req) ==
        if d.status != Posted then Failed(BusinessRule)
        else if ApplyAll(db.balances, Moves(rev)).Insufficient? then Failed(InsufficientStock)
        else
          Done(Db(db.docs[req.id := d.(reversedBy := Some(req.actor))] + [rev], db.pending, db.masters,
                  ApplyAll(db.balances, Moves(rev)).balances,
                  db.ledger + PostedRows(Sort(Moves(rev)), Document(|db.docs|)),
                  db.table[IdemKeyOf(req) := Entry(PayloadOf(req), |db.docs|)]), |db.docs|)
  {
    if Owns(db, req.kind, req.org, req.id) && db.docs[req.id].status == Posted {
      var rev := ReversalOf(db.balances, req.id, db.docs[req.id], req.actor);
      BatchOutcome(db.balances, Moves(rev));
    }
  }
}
