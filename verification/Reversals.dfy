/** The algebra of reversals. */
module Reversals {
  import opened Prelude
  import opened Ledger
  import opened Documents
  import opened Posting
  import opened Invariants
  import opened Balances

  /** How many reversal links lead from document `i` to the document it ultimately undoes or restores. */
  function Depth(docs: seq<Doc>, i: nat): nat
    requires i < |docs|
    decreases i
  {
    match docs[i].reversalOf
    case None => 0
    case Some(j) => if j < i then 1 + Depth(docs, j) else 0
  }

  function Root(docs: seq<Doc>, i: nat): (r: nat)
    requires i < |docs|
    ensures r <= i
    decreases i
  {
    match docs[i].reversalOf
    case None => i
    case Some(j) => if j < i then Root(docs, j) else i
  }

  /** A quantity after `depth` negations. */
  function Negated(x: int, depth: nat): int {
    if depth % 2 == 0 then x else -x
  }

  /** Line by line, `d` has the effects of `e` at the same keys, negated `depth` times. */
  predicate NegatedLinesOf(d: Doc, e: Doc, depth: nat) {
    && |d.lines| == |e.lines|
    && forall n :: 0 <= n < |d.lines| ==>
      KeyOf(d, d.lines[n]) == KeyOf(e, e.lines[n]) && Effect(d.lines[n]) == Negated(Effect(e.lines[n]), depth)
  }

  lemma OneMoreNegation(d: Doc, e: Doc, root: Doc, depth: nat)
    requires |d.lines| == |e.lines|
    requires forall n :: 0 <= n < |d.lines| ==> Opposite(d, d.lines[n], e, e.lines[n])
    requires NegatedLinesOf(e, root, depth)
    ensures NegatedLinesOf(d, root, depth + 1)
  {
    forall n | 0 <= n < |d.lines|
      ensures KeyOf(d, d.lines[n]) == KeyOf(root, root.lines[n]) && Effect(d.lines[n]) == Negated(Effect(root.lines[n]), depth + 1)
    {
      assert Opposite(d, d.lines[n], e, e.lines[n]);
    }
  }

  /**
   * Reversal links form a forest over earlier documents: following them ends at a document that is
   * no reversal, and line by line a document's effect is its root's, negated once per link.
   */
  lemma {:induction false} LineSigns(p: Policy, db: Db, i: nat)
    requires DocsOk(p, db) && i < |db.docs|
    ensures db.docs[Root(db.docs, i)].reversalOf.None?
    ensures Root(db.docs, i) != i ==> db.docs[Root(db.docs, i)].status == Posted && db.docs[i].status == Posted
    ensures db.docs[i].elevated == db.docs[Root(db.docs, i)].elevated
    ensures NegatedLinesOf(db.docs[i], db.docs[Root(db.docs, i)], Depth(db.docs, i))
    decreases i
  {
    hide KeyOf, Effect, DocOk, Opposite;
    if db.docs[i].reversalOf.Some? {
      var j := db.docs[i].reversalOf.value;
      assert ReversalOk(db.docs, i);
      LineSigns(p, db, j);
      assert Root(db.docs, i) == Root(db.docs, j) && Depth(db.docs, i) == Depth(db.docs, j) + 1;
      OneMoreNegation(db.docs[i], db.docs[j], db.docs[Root(db.docs, i)], Depth(db.docs, j));
    }
  }

  /** A reversal puts on every key the opposite of what the reversed document put there. */
  lemma ReverserNet(docs: seq<Doc>, i: nat, k: Key)
    requires i < |docs| && docs[i].reversalOf.Some? && ReversalOk(docs, i)
    ensures DocNet(docs[i], k) == -DocNet(docs[docs[i].reversalOf.value], k)
  {
    var d, e := docs[i], docs[docs[i].reversalOf.value];
    forall n | 0 <= n < |d.lines| ensures KeyOf(d, d.lines[n]) == KeyOf(e, e.lines[n]) && Effect(d.lines[n]) == -Effect(e.lines[n]) {
      assert Opposite(d, d.lines[n], e, e.lines[n]);
    }
    OppositeLines(d, e, d.lines, e.lines);
  }

  /** An accepted reversal takes back, on every key, exactly what the reversed document put there. */
  lemma ReversalTakesBack(p: Policy, db: Db, req: Request)
    requires DocsOk(p, db) && req.Reverse? && PlanOf(db, req).Execute?
    ensures req.id < |db.docs|
    ensures forall k :: OnHand(Next(p, db, req).balances, k) == OnHand(db.balances, k) - DocNet(db.docs[req.id], k)
  {
    hide PlanOf, Handle, ReversalOf, Opposite, DocNet, NetRows;
    var w := PlanOf(db, req).writes;
    PlanShape(db, req, w);
    TransactionStep(p, db, req);
    var d := db.docs[req.id];
    assert LinesOk(db.ledger, d) by {
      assert DocOk(p, db.ledger, d);
    }
    ReversalShape(db.ledger, db.balances, req.id, d, req.actor);
    forall k ensures OnHand(BalancesAfter(db, req), k) == OnHand(db.balances, k) - DocNet(d, k) {
      PostingMovesLines(db, req, k);
      assert DocNet(MovedDoc(db, req), k) == -DocNet(d, k);
    }
  }

  /** What an accepted reversal adds and changes among the documents. */
  predicate ReversalRecorded(before: seq<Doc>, after: seq<Doc>, id: nat, actor: nat)
    requires id < |before|
  {
    && |after| == |before| + 1
    && after[..|before|] == before[id := before[id].(reversedBy := Some(actor))]
    && var r := after[|before|];
       && r.reversalOf == Some(id) && r.status == Posted && r.version == 0
       && r.createdBy == actor && r.postedBy == Some(actor)
       && r.kind == before[id].kind && r.org == before[id].org && r.warehouse == before[id].warehouse
       && r.elevated == before[id].elevated
       && NegatedLinesOf(r, before[id], 1)
  }

  lemma NewReversal(p: Policy, db: Db, id: nat, actor: nat)
    requires DocsOk(p, db) && id < |db.docs|
    ensures NegatedLinesOf(ReversalOf(db.balances, id, db.docs[id], actor), db.docs[id], 1)
  {
    hide ReversalOf, Opposite, NegatedLinesOf, LinesOk, Magnitude, DocNet;
    var d := db.docs[id];
    assert LinesOk(db.ledger, d) by {
      assert DocOk(p, db.ledger, d);
    }
    ReversalShape(db.ledger, db.balances, id, d, actor);
    OppositeIsNegated(ReversalOf(db.balances, id, d, actor), d);
  }

  lemma OppositeIsNegated(r: Doc, d: Doc)
    requires |r.lines| == |d.lines|
    requires forall n :: 0 <= n < |d.lines| ==> Opposite(r, r.lines[n], d, d.lines[n])
    ensures NegatedLinesOf(r, d, 1)
  {
    forall n | 0 <= n < |d.lines|
      ensures KeyOf(r, r.lines[n]) == KeyOf(d, d.lines[n]) && Effect(r.lines[n]) == Negated(Effect(d.lines[n]), 1)
    {
      assert Opposite(r, r.lines[n], d, d.lines[n]);
    }
  }

  lemma ReversalDocument(p: Policy, db: Db, req: Request)
    requires DocsOk(p, db) && req.Reverse? && PlanOf(db, req).Execute?
    ensures req.id < |db.docs| && ReversalRecorded(db.docs, Next(p, db, req).docs, req.id, req.actor)
  {
    hide PlanOf, Handle, Next, DocsOk, NegatedLinesOf, NegatedLines, StampLines;
    var w := PlanOf(db, req).writes;
    PlanShape(db, req, w);
    TransactionStep(p, db, req);
    NewReversal(p, db, req.id, req.actor);
    var after := Next(p, db, req).docs;
    assert after == db.docs[req.id := w.doc] + [w.created.value];
    assert after[|db.docs|] == ReversalOf(db.balances, req.id, db.docs[req.id], req.actor);
  }

  /** An accepted posting puts the document's quantities on every key. */
  lemma PostingAdds(p: Policy, db: Db, req: Request)
    requires req.Post? && PlanOf(db, req).Execute?
    ensures req.id < |Next(p, db, req).docs| && Next(p, db, req).docs[req.id].status == Posted
    ensures forall k :: OnHand(Next(p, db, req).balances, k) == OnHand(db.balances, k) + DocNet(Next(p, db, req).docs[req.id], k)
  {
    hide PlanOf, Handle, Next, DocNet, StampLines;
    PlanShape(db, req, PlanOf(db, req).writes);
    TransactionStep(p, db, req);
    forall k ensures OnHand(BalancesAfter(db, req), k) == OnHand(db.balances, k) + DocNet(MovedDoc(db, req), k) {
      PostingMovesLines(db, req, k);
    }
  }

  /**
   * Whatever happens between a posting and its reversal, the reversal undoes the posting: together
   * they leave every balance where the requests in between alone would have moved it.
   */
  lemma PostThenReverse(p: Policy, db: Db, post: Request, between: seq<Request>, reverse: Request, k: Key)
    requires Inv(p, db) && post.Post? && reverse.Reverse? && reverse.id == post.id
    requires PlanOf(db, post).Execute?
    ensures
      var posted := Next(p, db, post);
      var before := Run(p, posted, between);
      PlanOf(before, reverse).Execute? ==>
        OnHand(Next(p, before, reverse).balances, k) - OnHand(before.balances, k) == OnHand(db.balances, k) - OnHand(posted.balances, k)
  {
    hide Handle, Transact, PlanOf;
    var posted := Next(p, db, post);
    if PlanOf(db, post).Execute? && PlanOf(Run(p, posted, between), reverse).Execute? {
      StepKeepsInv(p, db, post);
      RunKeepsInv(p, posted, between);
      PostingAdds(p, db, post);
      PostedNetStays(p, posted, between, post.id);
      ReversalTakesBack(p, Run(p, posted, between), reverse);
    }
  }

  /** What a posted document puts on a key never changes afterwards. */
  lemma {:induction false} PostedNetStays(p: Policy, db: Db, reqs: seq<Request>, id: nat)
    requires id < |db.docs| && db.docs[id].status == Posted
    ensures id < |Run(p, db, reqs).docs| && Run(p, db, reqs).docs[id].status == Posted
    ensures Run(p, db, reqs).docs[id] == db.docs[id].(reversedBy := Run(p, db, reqs).docs[id].reversedBy)
    ensures forall k :: DocNet(Run(p, db, reqs).docs[id], k) == DocNet(db.docs[id], k)
  {
    if reqs != [] {
      var front := Run(p, db, reqs[..|reqs| - 1]);
      PostedNetStays(p, db, reqs[..|reqs| - 1], id);
      EveryDocStep(p, front, reqs[|reqs| - 1], id);
      PostedStays(p, front, reqs[|reqs| - 1], id);
      var d, e := front.docs[id], Run(p, db, reqs).docs[id];
      forall k ensures DocNet(e, k) == DocNet(d, k) {
        MovesNet(d, d.lines, k);
        MovesNet(e, e.lines, k);
      }
    }
  }

  // ---------------------------------------------------------------- several reversals of one document

  /** The direct reversals of document `i` among the first `m` documents. */
  function Reversers(docs: seq<Doc>, i: nat, m: nat): nat
    requires m <= |docs|
  {
    if m == 0 then 0
    else Reversers(docs, i, m - 1) + (if docs[m - 1].reversalOf == Some(i) then 1 else 0)
  }

  predicate InFamily(docs: seq<Doc>, i: nat, j: nat)
    requires j < |docs|
  {
    j == i || docs[j].reversalOf == Some(i)
  }

  /** What the posted documents outside the family of `i` (itself and its direct reversals) put on a key. */
  function OutsideNet(docs: seq<Doc>, i: nat, m: nat, k: Key): int
    requires m <= |docs|
  {
    if m == 0 then 0
    else
      OutsideNet(docs, i, m - 1, k) +
      (if docs[m - 1].status == Posted && !InFamily(docs, i, m - 1) then DocNet(docs[m - 1], k) else 0)
  }

  /** Document `j` is a posted direct reversal of an earlier document, with the opposite net on key `k`. */
  predicate ReversalNet(docs: seq<Doc>, j: nat, k: Key)
    requires j < |docs|
  {
    docs[j].reversalOf.Some? ==>
      && docs[j].reversalOf.value < j
      && docs[j].status == Posted
      && DocNet(docs[j], k) == -DocNet(docs[docs[j].reversalOf.value], k)
  }

  lemma ReversalNets(p: Policy, db: Db, k: Key)
    requires DocsOk(p, db)
    ensures forall j :: 0 <= j < |db.docs| ==> ReversalNet(db.docs, j, k)
  {
    forall j | 0 <= j < |db.docs| && db.docs[j].reversalOf.Some? ensures ReversalNet(db.docs, j, k) {
      assert ReversalOk(db.docs, j);
      ReverserNet(db.docs, j, k);
    }
  }

  lemma AddTimes(c: int, d: int, x: int)
    ensures (c + d) * x == c * x + d * x
  {
  }

  lemma {:induction false} FamilyNet(docs: seq<Doc>, i: nat, m: nat, k: Key)
    requires i < |docs| && m <= |docs| && docs[i].status == Posted
    requires forall j :: 0 <= j < |docs| ==> ReversalNet(docs, j, k)
    ensures PostedNet(docs[..m], k) ==
      OutsideNet(docs, i, m, k) + ((if i < m then 1 else 0) - Reversers(docs, i, m)) * DocNet(docs[i], k)
  {
    if m > 0 {
      FamilyNet(docs, i, m - 1, k);
      assert docs[..m][..m - 1] == docs[..m - 1];
      assert ReversalNet(docs, m - 1, k);
      var c := (if i < m - 1 then 1 else 0) - Reversers(docs, i, m - 1);
      if docs[m - 1].reversalOf == Some(i) {
        AddTimes(c, -1, DocNet(docs[i], k));
      } else if m - 1 == i {
        AddTimes(c, 1, DocNet(docs[i], k));
      }
    }
  }

  /**
   * A posted document with r direct reversals stands in every balance with (1 - r) times its own
   * quantity; one reversal cancels it, a second one overshoots.
   */
  lemma BalanceWithReversals(p: Policy, db: Db, i: nat, k: Key)
    requires Inv(p, db) && i < |db.docs| && db.docs[i].status == Posted
    ensures OnHand(db.balances, k) ==
      NetRows(RowsOf(db.ledger, External), k) + OutsideNet(db.docs, i, |db.docs|, k) +
      (1 - Reversers(db.docs, i, |db.docs|)) * DocNet(db.docs[i], k)
  {
    BalanceAgreement(p, db, k);
    FamilyTotal(p, db, i, k);
  }

  lemma FamilyTotal(p: Policy, db: Db, i: nat, k: Key)
    requires DocsOk(p, db) && i < |db.docs| && db.docs[i].status == Posted
    ensures PostedNet(db.docs, k) ==
      OutsideNet(db.docs, i, |db.docs|, k) + (1 - Reversers(db.docs, i, |db.docs|)) * DocNet(db.docs[i], k)
  {
    ReversalNets(p, db, k);
    FamilyNet(db.docs, i, |db.docs|, k);
    assert db.docs[..|db.docs|] == db.docs;
  }

  /**
   * Exactly when a reversal under a fresh key is accepted: the document is posted and every key can
   * afford the negated movements. Whether it has been reversed before plays no part.
   */
  lemma ReversalAccepted(db: Db, req: Request)
    requires req.Reverse? && req.key != "" && IdemKeyOf(req) !in db.table
    ensures PlanOf(db, req).Execute? <==>
      && Owns(db, req.kind, req.org, req.id)
      && db.docs[req.id].status == Posted
      && forall k :: Affordable(OnHand(db.balances, k), OnKey(Moves(ReversalOf(db.balances, req.id, db.docs[req.id], req.actor)), k))
    ensures forall actor: Option<nat> :: req.id < |db.docs| ==>
      PlanOf(db.(docs := db.docs[req.id := db.docs[req.id].(reversedBy := actor)]), req).Execute? == PlanOf(db, req).Execute?
  {
    if Owns(db, req.kind, req.org, req.id) {
      var r := ReversalOf(db.balances, req.id, db.docs[req.id], req.actor);
      SortingIsHarmless(db.balances, Moves(r));
      ApplyAllMeaning(db.balances, Moves(r));
    }
  }
}
