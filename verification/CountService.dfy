/** The stock count operations, proved against the functions of `Posting`. */
module CountService {
  import opened Prelude
  import opened Ledger
  import opened Documents
  import opened Posting
  import opened Promises
  import opened Sessions
  import opened Invariants
  import opened DocumentWorkflow
  import Idempotency
  import LedgerService

  // ---------------------------------------------------------------- creating a count

  /** A client's requests that leave the count being read, number `c`, alone. */
  predicate LeavesAlone(reqs: seq<Request>, c: nat) {
    forall i :: 0 <= i < |reqs| ==> !(reqs[i].SnapshotLine? && reqs[i].pendingId == c)
  }

  /** Opening a count, then reading `n` lines with other clients' requests before each. */
  function ReadingScript(open: Request, c: nat, between: seq<seq<Request>>, n: nat): seq<Request>
    requires n <= |between|
  {
    if n == 0 then [open] else ReadingScript(open, c, between, n - 1) + between[n - 1] + [SnapshotLine(c)]
  }

  lemma {:induction false} OthersLeaveItAlone(p: Policy, db: Db, reqs: seq<Request>, c: nat)
    requires c < |db.pending| && LeavesAlone(reqs, c)
    ensures c < |Run(p, db, reqs).pending| && Run(p, db, reqs).pending[c] == db.pending[c]
  {
    if reqs != [] {
      OthersLeaveItAlone(p, db, reqs[..|reqs| - 1], c);
    }
  }

  lemma RunSnapshot(p: Policy, db: Db, reqs: seq<Request>, others: seq<Request>, c: nat)
    ensures Run(p, db, reqs + others + [SnapshotLine(c)]) == Next(p, Run(p, Run(p, db, reqs), others), SnapshotLine(c))
  {
    RunAppend(p, db, reqs, others);
    assert (reqs + others + [SnapshotLine(c)])[..|reqs + others|] == reqs + others;
  }

  /** Reads the balance of the next line, after other clients' requests. */
  method ReadLine(p: Policy, s: Session, c: nat, others: seq<Request>)
    requires c < |s.pending| && |s.pending[c].lines| < |s.pending[c].selectors| && LeavesAlone(others, c)
    modifies s
    ensures s.View() == Next(p, Run(p, old(s.View()), others), SnapshotLine(c))
    ensures c < |s.pending| && |s.pending[c].lines| == |old(s.pending[c].lines)| + 1
    ensures s.pending[c] == old(s.pending[c]).(lines := s.pending[c].lines)
    ensures var count, n := old(s.pending[c]), |old(s.pending[c]).lines|;
      && s.pending[c].lines[..n] == count.lines
      && LineRead(s.pending[c].lines[n], Run(p, old(s.View()), others), count.org, count.warehouse, count.selectors[n])
  {
    OthersLeaveItAlone(p, s.View(), others, c);
    s.Become(Run(p, s.View(), others));
    var count := s.pending[c];
    var selector := count.selectors[|count.lines|];
    var key := Key(count.org, count.warehouse, selector.location, selector.product, selector.lot, Available);
    var system := if key in s.balances then s.balances[key] else 0;
    var item := CountLine(selector, system, None, None, |s.ledger|);
    s.pending := s.pending[c := count.(lines := count.lines + [item])];
  }

  lemma SaveOutcome(p: Policy, db: Db, c: nat)
    requires c < |db.pending| && |db.pending[c].lines| == |db.pending[c].selectors|
    ensures Handle(p, db, SaveCount(c)) == Done(db.(docs := db.docs + [NewCount(db.pending[c])]), |db.docs|)
  {
  }

  lemma RunOne(p: Policy, db: Db, req: Request)
    ensures Run(p, db, [req]) == Next(p, db, req)
  {
    assert [req][..0] == [];
  }

  lemma OpenedBy(p: Policy, db: Db, open: Request)
    requires open.OpenCount? && Handle(p, db, open).Done?
    ensures Next(p, db, open) == Handle(p, db, open).db
  {
  }

  /** The state that line `n` is read from: the lines before it are read, and other clients' requests have run. */
  function ReadState(p: Policy, db: Db, open: Request, c: nat, between: seq<seq<Request>>, n: nat): Db
    requires n < |between|
  {
    Run(p, db, ReadingScript(open, c, between, n) + between[n])
  }

  /** Each line is its own selector, with the stock that was there when it was read. */
  predicate AllRead(p: Policy, db: Db, open: Request, c: nat, between: seq<seq<Request>>, selectors: seq<Place>, lines: seq<Line>)
    requires open.OpenCount? && |lines| <= |selectors| <= |between|
  {
    forall n :: 0 <= n < |lines| ==> LineRead(lines[n], ReadState(p, db, open, c, between, n), open.org, open.warehouse, selectors[n])
  }

  /** The loop over the selectors. */
  method ReadLines(p: Policy, s: Session, c: nat, between: seq<seq<Request>>, ghost db: Db, ghost open: Request)
    requires open.OpenCount? && s.View() == Run(p, db, [open])
    requires c < |s.pending| && s.pending[c] == Pending(open.org, open.actor, open.warehouse, open.selectors, [])
    requires |open.selectors| <= |between| && forall i :: 0 <= i < |between| ==> LeavesAlone(between[i], c)
    modifies s
    ensures s.View() == Run(p, db, ReadingScript(open, c, between, |open.selectors|))
    ensures c < |s.pending| && |s.pending[c].lines| == |open.selectors|
    ensures s.pending[c] == Pending(open.org, open.actor, open.warehouse, open.selectors, s.pending[c].lines)
    ensures AllRead(p, db, open, c, between, open.selectors, s.pending[c].lines)
  {
    hide Handle, Transact, PlanOf, Run, LineRead;
    var selectors := s.pending[c].selectors;
    for i := 0 to |selectors|
      invariant c < |s.pending| && |s.pending[c].lines| == i
      invariant s.pending[c] == Pending(open.org, open.actor, open.warehouse, selectors, s.pending[c].lines)
      invariant AllRead(p, db, open, c, between, selectors, s.pending[c].lines)
      invariant s.View() == Run(p, db, ReadingScript(open, c, between, i))
    {
      RunSnapshot(p, db, ReadingScript(open, c, between, i), between[i], c);
      RunAppend(p, db, ReadingScript(open, c, between, i), between[i]);
      ReadLine(p, s, c, between[i]);
    }
  }

  /**
   * Creates a count. Each line's system quantity is read by its own query, and other clients'
   * requests run before each of them and before the count is saved; the outcome is that of the
   * atomic steps in that order. The new count is a draft with one line per selector, in order, each
   * with the available stock its own read found.
   */
  method CreateStockCount(p: Policy, s: Session, org: nat, actor: nat, warehouse: nat, selectors: seq<Place>,
                          between: seq<seq<Request>>)
    returns (r: Result<nat, Error>)
    requires |between| == |selectors| + 1
    requires forall i :: 0 <= i < |between| ==> LeavesAlone(between[i], |s.pending|)
    modifies s
    ensures r.Ok? <==> Warehouse(org, warehouse) in old(s.masters) && SelectorsRight(old(s.masters), org, warehouse, selectors)
    ensures r.Err? ==> r == Err(Validation) && s.View() == old(s.View())
    ensures r.Ok? ==>
      var open, c := OpenCount(org, actor, warehouse, selectors), |old(s.pending)|;
      var ready := ReadState(p, old(s.View()), open, c, between, |selectors|);
      && s.View() == Next(p, ready, SaveCount(c))
      && OnlyDocAdded(ready, s.View(), r.value)
      && FreshDraft(s.docs[r.value], Count, org, actor, warehouse)
      && |s.docs[r.value].lines| == |selectors|
      && AllRead(p, old(s.View()), open, c, between, selectors, s.docs[r.value].lines)
  {
    hide Handle, Transact, PlanOf, Run, AllRead, SelectorsRight, NewCount, ReadingScript;
    ghost var db, open := s.View(), OpenCount(org, actor, warehouse, selectors);
    var begun := OpenStockCount(p, s, org, actor, warehouse, selectors);
    if begun.Err? {
      return Err(begun.error);
    }
    var c := begun.value;
    RunOne(p, db, open);
    OpenedBy(p, db, open);
    ReadLines(p, s, c, between, db, open);
    OthersLeaveItAlone(p, s.View(), between[|selectors|], c);
    RunAppend(p, db, ReadingScript(open, c, between, |selectors|), between[|selectors|]);
    s.Become(Run(p, s.View(), between[|selectors|]));
    SaveOutcome(p, s.View(), c);
    SaveCountAnswer(p, s.View(), c);
    var id := s.InsertDoc(NewCount(s.pending[c]));
    return Ok(id);
  }

  /** Checks the warehouse and the selectors; the count then has no line yet. */
  method OpenStockCount(p: Policy, s: Session, org: nat, actor: nat, warehouse: nat, selectors: seq<Place>)
    returns (r: Result<nat, Error>)
    modifies s`pending
    ensures CarriesOrKeeps(Handle(p, old(s.View()), OpenCount(org, actor, warehouse, selectors)), r, old(s.View()), s.View())
    ensures r.Ok? <==> Warehouse(org, warehouse) in s.masters && SelectorsRight(s.masters, org, warehouse, selectors)
    ensures r.Err? ==> r == Err(Validation)
    ensures r.Ok? ==> r.value == |old(s.pending)| && s.pending == old(s.pending) + [Pending(org, actor, warehouse, selectors, [])]
  {
    OpenCountAnswer(p, s.View(), org, actor, warehouse, selectors);
    if Warehouse(org, warehouse) !in s.masters || !(1 <= |selectors| <= MAX_COUNT_LINES) {
      return Err(Validation);
    }
    if exists i :: 0 <= i < |selectors| && !PlaceKnown(s.masters, org, warehouse, selectors[i]) {
      return Err(Validation);
    }
    var c := |s.pending|;
    s.pending := s.pending + [Pending(org, actor, warehouse, selectors, [])];
    return Ok(c);
  }

  // ---------------------------------------------------------------- entering and submitting counts

  /** Only drafts can be counted; every entry must name a line and count no less than zero, and each line gets its last entry. */
  method UpdateStockCount(p: Policy, s: Session, org: nat, actor: nat, id: nat, entries: Option<seq<CountEntry>>)
    returns (r: Result<nat, Error>)
    modifies s`docs
    ensures CarriesOrKeeps(Handle(p, old(s.View()), UpdateCount(org, actor, id, entries)), r, old(s.View()), s.View())
    ensures r == if !Has(old(s.View()), Count, org, id) then Err(NotFound)
                 else if old(s.docs)[id].status != Draft || !EntriesRight(old(s.docs)[id].lines, entries) then Err(Validation)
                 else Ok(id)
    ensures r.Ok? ==> CountsEntered(old(s.View()), s.View(), id, entries)
    ensures Inv(p, old(s.View())) ==> Inv(p, s.View())
  {
    KeepsInv(p, s.View(), UpdateCount(org, actor, id, entries));
    UpdateCountAnswer(p, s.View(), org, actor, id, entries);
    hide Inv;
    if !Owns(s.View(), Count, org, id) {
      return Err(NotFound);
    }
    var doc := s.docs[id];
    if doc.status != Draft {
      return Err(Validation);
    }
    if entries.Some? {
      var lines := WriteEntries(doc.lines, entries.value);
      if lines.None? {
        return Err(Validation);
      }
      doc := doc.(lines := lines.value);
    }
    doc := doc.(version := doc.version + 1);
    s.SaveDoc(id, doc);
    return Ok(id);
  }

  /** Writes the counted quantities into the lines, in order; stops at the first entry it must refuse. */
  method WriteEntries(lines: seq<Line>, entries: seq<CountEntry>) returns (r: Option<seq<Line>>)
    ensures r == EnterCounts(lines, entries)
  {
    var now := lines;
    var i := 0;
    while i < |entries|
      invariant 0 <= i <= |entries|
      invariant EnterCounts(lines, entries[..i]) == Some(now)
    {
      var e := entries[i];
      assert entries[..i + 1][..i] == entries[..i];
      i := i + 1;
      if e.counted < 0 || !(1 <= e.lineNumber <= |now|) || !now[e.lineNumber - 1].CountLine? {
        RefusedEntry(lines, entries, i);
        return None;
      }
      now := now[e.lineNumber - 1 := now[e.lineNumber - 1].(counted := Some(e.counted))];
    }
    assert entries[..|entries|] == entries;
    return Some(now);
  }

  lemma {:induction false} RefusedEntry(lines: seq<Line>, entries: seq<CountEntry>, i: nat)
    requires i <= |entries| && EnterCounts(lines, entries[..i]).None?
    ensures EnterCounts(lines, entries).None?
  {
    if i == |entries| {
      assert entries[..i] == entries;
    } else {
      assert entries[..|entries| - 1][..i] == entries[..i];
      RefusedEntry(lines, entries[..|entries| - 1], i);
    }
  }

  /** Exactly drafts whose every line is counted, be it as zero, can be submitted; each variance is then counted less system. */
  method SubmitStockCount(p: Policy, s: Session, org: nat, actor: nat, id: nat) returns (r: Result<nat, Error>)
    requires Typed(s.View())
    modifies s`docs
    ensures CarriesOrKeeps(Handle(p, old(s.View()), Submit(Count, org, actor, id)), r, old(s.View()), s.View())
    ensures r == if !Has(old(s.View()), Count, org, id) then Err(NotFound)
                 else if old(s.docs)[id].status != Draft then Err(BusinessRule)
                 else if exists n :: 0 <= n < |old(s.docs)[id].lines| && old(s.docs)[id].lines[n].counted.None? then Err(Validation)
                 else Ok(id)
    ensures r.Ok? ==> IsSubmitted(old(s.View()), s.View(), actor, id)
    ensures Inv(p, old(s.View())) ==> Inv(p, s.View())
  {
    KeepsInv(p, s.View(), Submit(Count, org, actor, id));
    SubmitAnswer(p, s.View(), Count, org, actor, id);
    hide Inv;
    if !Owns(s.View(), Count, org, id) {
      return Err(NotFound);
    }
    var doc := s.docs[id];
    if !CanTransition(doc.status, Submitted) {
      return Err(BusinessRule);
    }
    var lines := FixVariances(doc);
    if lines.None? {
      return Err(Validation);
    }
    doc := doc.(status := Submitted, lines := lines.value, submittedBy := Some(actor), version := doc.version + 1);
    s.SaveDoc(id, doc);
    return Ok(id);
  }

  /** The submission loop: every line must have been counted, and its variance becomes counted less system. */
  method FixVariances(d: Doc) returns (r: Option<seq<Line>>)
    requires d.kind == Count && TypedDoc(d)
    ensures r == if AllCounted(d.lines) then Some(WithVariances(d.lines)) else None
  {
    var lines := d.lines;
    for i := 0 to |d.lines|
      invariant |lines| == |d.lines|
      invariant forall n :: 0 <= n < i ==> d.lines[n].counted.Some? && lines[n] == WithVariance(d.lines[n])
      invariant forall n :: i <= n < |lines| ==> lines[n] == d.lines[n]
    {
      var item := lines[i];
      if item.counted.None? {
        return None;
      }
      lines := lines[i := item.(variance := Some(item.counted.value - item.system))];
    }
    assert lines == WithVariances(d.lines);
    return Some(lines);
  }

  method ApproveStockCount(p: Policy, s: Session, org: nat, actor: nat, id: nat) returns (r: Result<nat, Error>)
    modifies s`docs
    ensures CarriesOrKeeps(Handle(p, old(s.View()), Approve(Count, org, actor, id)), r, old(s.View()), s.View())
    ensures r == if !Has(old(s.View()), Count, org, id) then Err(NotFound)
                 else if p.countSelfApprovalBarred && old(s.docs)[id].createdBy == actor then Err(Forbidden)
                 else if old(s.docs)[id].status != Submitted then Err(BusinessRule)
                 else Ok(id)
    ensures r.Ok? ==> IsApproved(old(s.View()), s.View(), actor, id)
    ensures Inv(p, old(s.View())) ==> Inv(p, s.View())
  {
    r := ApproveDocument(p, s, Count, org, actor, id);
  }

  method RejectStockCount(p: Policy, s: Session, org: nat, actor: nat, id: nat) returns (r: Result<nat, Error>)
    modifies s`docs
    ensures CarriesOrKeeps(Handle(p, old(s.View()), Reject(Count, org, actor, id)), r, old(s.View()), s.View())
    ensures r == if !Has(old(s.View()), Count, org, id) then Err(NotFound)
                 else if old(s.docs)[id].status != Submitted then Err(BusinessRule)
                 else Ok(id)
    ensures r.Ok? ==> IsRejected(old(s.View()), s.View(), actor, id)
    ensures r.Ok? && Inv(p, old(s.View())) ==> forall later :: RowsOf(Run(p, s.View(), later).ledger, Document(id)) == []
    ensures Inv(p, old(s.View())) ==> Inv(p, s.View())
  {
    r := RejectDocument(p, s, Count, org, actor, id);
  }

  // ---------------------------------------------------------------- posting and reversing

  /** The loop shared by posting and reversing: lines without a variance, or with variance zero, move nothing. */
  method CollectMovements(d: Doc) returns (movements: seq<Movement>)
    requires d.kind == Count && TypedDoc(d)
    ensures movements == Moves(d)
  {
    movements := [];
    var i := 0;
    while i < |d.lines|
      invariant 0 <= i <= |d.lines|
      invariant movements == MovesOf(d, d.lines[..i])
    {
      var item := d.lines[i];
      assert d.lines[..i + 1][..i] == d.lines[..i];
      i := i + 1;
      if item.variance.None? {
        continue;
      }
      if item.variance.value == 0 {
        continue;
      }
      var key := Key(d.org, d.warehouse, item.place.location, item.place.product, item.place.lot, Available);
      movements := movements + [Movement(key, item.variance.value, false)];
    }
    assert d.lines[..|d.lines|] == d.lines;
  }

  /** Posting nothing is left out altogether. */
  method PostIfAny(s: Session, movements: seq<Movement>, ref: Ref) returns (ok: bool)
    modifies s`balances, s`ledger
    ensures ok == ApplyAll(old(s.balances), movements).Applied?
    ensures ok ==> s.balances == ApplyAll(old(s.balances), movements).balances
    ensures ok ==> s.ledger == old(s.ledger) + PostedRows(Sort(movements), ref)
  {
    if |movements| > 0 {
      ok := LedgerService.PostStockMovements(s, movements, ref);
    } else {
      ok := true;
    }
  }

  /** Count lines carry no prior or resulting quantity: stamping leaves them as they are. */
  lemma {:induction false} CountsAreNotStamped(b: Balances, d: Doc, lines: seq<Line>)
    requires forall n :: 0 <= n < |lines| ==> lines[n].CountLine?
    ensures StampLines(b, d, lines) == lines
  {
    if lines != [] {
      CountsAreNotStamped(b, d, lines[..|lines| - 1]);
    }
  }

  /** The posting body, for a key that has no result yet. */
  method ExecutePost(s: Session, org: nat, actor: nat, id: nat, key: string) returns (r: Result<nat, Error>)
    requires Typed(s.View()) && IdemKey(org, PostScope(Count), key) !in s.table && key != ""
    modifies s
    ensures
      var db := old(s.View());
      r == if !Owns(db, Count, org, id) then Err(NotFound)
           else if db.docs[id].status != Approved then Err(BusinessRule)
           else if ApplyAll(db.balances, Moves(db.docs[id])).Insufficient? then Err(InsufficientStock)
           else Ok(id)
    ensures r.Ok? ==>
      var db := old(s.View());
      && s.docs == db.docs[id := PostedDoc(db.balances, db.docs[id], actor)]
      && s.balances == ApplyAll(db.balances, Moves(db.docs[id])).balances
      && s.ledger == db.ledger + PostedRows(Sort(Moves(db.docs[id])), Document(id))
      && s.table == db.table[IdemKey(org, PostScope(Count), key) := Entry(PostPayload(id), id)]
      && s.pending == db.pending && s.masters == db.masters
  {
    hide Moves, StampLines, ApplyAll, Sort, PostedRows;
    if !Owns(s.View(), Count, org, id) {
      return Err(NotFound);
    }
    var doc := s.docs[id];
    if !CanTransition(doc.status, Posted) {
      return Err(BusinessRule);
    }
    CountsAreNotStamped(s.balances, doc, doc.lines);
    var movements := CollectMovements(doc);
    var ok := PostIfAny(s, movements, Document(id));
    if !ok {
      return Err(InsufficientStock);
    }
    doc := doc.(status := Posted, postedBy := Some(actor), version := doc.version + 1);
    s.SaveDoc(id, doc);
    Idempotency.Record(s, IdemKey(org, PostScope(Count), key), PostPayload(id), id);
    return Ok(id);
  }

  method PostStockCount(s: Session, org: nat, actor: nat, id: nat, key: string) returns (r: Result<nat, Error>)
    requires Typed(s.View())
    modifies s
    ensures Carries(Transact(old(s.View()), Post(Count, org, actor, id, key)), r, s.View())
  {
    var found := Idempotency.Look(s, IdemKey(org, PostScope(Count), key), PostPayload(id));
    match found {
      case Err(error) => return Err(error);
      case Ok(Some(ref)) =>
        if !Owns(s.View(), Count, org, ref) {
          return Err(NotFound);
        }
        return Ok(ref);
      case Ok(None) =>
        PostOutcome(s.View(), Post(Count, org, actor, id, key));
        r := ExecutePost(s, org, actor, id, key);
    }
  }

  /** Inserts the linked document and collects its movements. */
  method CreateReversal(s: Session, id: nat, original: Doc, actor: nat) returns (ref: nat, movements: seq<Movement>)
    requires original.kind == Count && TypedDoc(original) && !original.elevated
    modifies s`docs
    ensures ref == |old(s.docs)| && s.docs == old(s.docs) + [ReversalOf(s.balances, id, original, actor)]
    ensures movements == Moves(ReversalOf(s.balances, id, original, actor))
  {
    NegatedLinesAt(original.lines);
    var reversal := Doc(Count, original.org, original.warehouse, Posted, NegatedLines(original.lines), false,
                        Some(id), actor, None, None, None, Some(actor), None, 0);
    CountsAreNotStamped(s.balances, reversal, reversal.lines);
    ref := s.InsertDoc(reversal);
    movements := CollectMovements(reversal);
  }

  /** The reversal body, for a key that has no result yet. */
  method ExecuteReverse(s: Session, org: nat, actor: nat, id: nat, reason: string, key: string)
    returns (r: Result<nat, Error>)
    requires Typed(s.View()) && IdemKey(org, ReverseScope(Count), key) !in s.table && key != ""
    modifies s
    ensures
      var db := old(s.View());
      r == if !Owns(db, Count, org, id) then Err(NotFound)
           else if db.docs[id].status != Posted then Err(BusinessRule)
           else if ApplyAll(db.balances, Moves(ReversalOf(db.balances, id, db.docs[id], actor))).Insufficient? then Err(InsufficientStock)
           else Ok(|db.docs|)
    ensures r.Ok? ==>
      var db := old(s.View());
      var rev := ReversalOf(db.balances, id, db.docs[id], actor);
      && s.docs == db.docs[id := db.docs[id].(reversedBy := Some(actor))] + [rev]
      && s.balances == ApplyAll(db.balances, Moves(rev)).balances
      && s.ledger == db.ledger + PostedRows(Sort(Moves(rev)), Document(|db.docs|))
      && s.table == db.table[IdemKey(org, ReverseScope(Count), key) := Entry(ReversePayload(id, reason), |db.docs|)]
      && s.pending == db.pending && s.masters == db.masters
  {
    hide Moves, ReversalOf, PostedRows, Sort, ApplyAll;
    if !Owns(s.View(), Count, org, id) {
      return Err(NotFound);
    }
    var original := s.docs[id];
    if original.status != Posted {
      return Err(BusinessRule);
    }
    var ref, movements := CreateReversal(s, id, original, actor);
    var ok := PostIfAny(s, movements, Document(ref));
    if !ok {
      return Err(InsufficientStock);
    }
    original := original.(reversedBy := Some(actor));
    ghost var rev := s.docs[ref];
    s.SaveDoc(id, original);
    assert s.docs == old(s.docs)[id := original] + [rev];
    Idempotency.Record(s, IdemKey(org, ReverseScope(Count), key), ReversePayload(id, reason), ref);
    return Ok(ref);
  }

  method ReverseStockCount(s: Session, org: nat, actor: nat, id: nat, reason: string, key: string)
    returns (r: Result<nat, Error>)
    requires Typed(s.View())
    modifies s
    ensures Carries(Transact(old(s.View()), Reverse(Count, org, actor, id, reason, key)), r, s.View())
  {
    var found := Idempotency.Look(s, IdemKey(org, ReverseScope(Count), key), ReversePayload(id, reason));
    match found {
      case Err(error) => return Err(error);
      case Ok(Some(ref)) =>
        if !Owns(s.View(), Count, org, ref) {
          return Err(NotFound);
        }
        return Ok(ref);
      case Ok(None) =>
        ReverseOutcome(s.View(), Reverse(Count, org, actor, id, reason, key));
        r := ExecuteReverse(s, org, actor, id, reason, key);
    }
  }
}
