/**
 * The stored state and, as functions on it, what each operation of the adjustment and count
 * services does. The imperative services are proved against these functions, and the run-level
 * results are proved about them.
 */
module Posting {
  import opened Prelude
  import opened Ledger
  import opened Documents
  import DecimalSums

  // ---------------------------------------------------------------- stored state

  datatype Scope = PostScope(kind: Kind) | ReverseScope(kind: Kind)

  /** The unique index of the idempotency table. */
  datatype IdemKey = IdemKey(org: nat, scope: Scope, key: string)

  /** The request payload; its hash is taken to be injective, so the payload itself is stored. */
  datatype Payload = PostPayload(id: nat) | ReversePayload(id: nat, reason: string)

  datatype Entry = Entry(payload: Payload, ref: nat)

  /** A stock count whose lines are still being read from the balances, one by one. */
  datatype Pending = Pending(org: nat, actor: nat, warehouse: nat, selectors: seq<Place>, lines: seq<Line>)

  /** Master data that is present and not archived. */
  datatype Master =
    | Warehouse(org: nat, id: nat)
    | Product(org: nat, id: nat)
    | Location(org: nat, warehouse: nat, id: nat)
    | Lot(org: nat, id: nat)

  /** A document's identifier is its position; documents are never removed. */
  datatype Db = Db(
    docs: seq<Doc>,
    pending: seq<Pending>,
    masters: set<Master>,
    balances: Balances,
    ledger: seq<Row>,
    table: map<IdemKey, Entry>)

  const EMPTY := Db([], [], {}, map[], [], map[])

  /** Configuration that stays fixed during a run; `digits` is the decimal library's precision. */
  datatype Policy = Policy(adjustmentSelfApprovalBarred: bool, countSelfApprovalBarred: bool, threshold: nat, digits: nat)

  /** The material flag: the sum of absolute quantities, rounded after every addition, reaches the threshold. */
  predicate Material(p: Policy, lines: seq<Line>) {
    DecimalSums.RoundedMagnitude(lines, p.digits) >= p.threshold
  }

  predicate SelfApprovalBarred(p: Policy, kind: Kind) {
    if kind.Adjustment? then p.adjustmentSelfApprovalBarred else p.countSelfApprovalBarred
  }

  // ---------------------------------------------------------------- requests and answers

  datatype Item = Item(place: Place, state: StockState, delta: int)

  datatype CountEntry = CountEntry(lineNumber: int, counted: int)

  datatype Request =
    | CreateAdjustment(org: nat, actor: nat, warehouse: nat, items: seq<Item>)
    | UpdateAdjustment(org: nat, actor: nat, id: nat, newItems: Option<seq<Item>>)
    | OpenCount(org: nat, actor: nat, warehouse: nat, selectors: seq<Place>)
    | SnapshotLine(pendingId: nat)
    | SaveCount(pendingId: nat)
    | UpdateCount(org: nat, actor: nat, id: nat, entries: Option<seq<CountEntry>>)
    | Submit(kind: Kind, org: nat, actor: nat, id: nat)
    | Approve(kind: Kind, org: nat, actor: nat, id: nat)
    | Reject(kind: Kind, org: nat, actor: nat, id: nat)
    | Post(kind: Kind, org: nat, actor: nat, id: nat, key: string)
    | Reverse(kind: Kind, org: nat, actor: nat, id: nat, reason: string, key: string)
    | OtherMovements(movements: seq<Movement>)
    | SetMasters(masters: set<Master>)

  datatype Error = Validation | NotFound | Forbidden | BusinessRule | InsufficientStock | KeyRequired | KeyConflict

  datatype Outcome = Done(db: Db, ref: nat) | Failed(error: Error)

  predicate Owns(db: Db, kind: Kind, org: nat, id: nat) {
    id < |db.docs| && db.docs[id].kind == kind && db.docs[id].org == org
  }

  // ---------------------------------------------------------------- creating and editing

  const MAX_ADJUSTMENT_LINES: nat := 200
  const MAX_COUNT_LINES: nat := 500

  predicate PlaceKnown(masters: set<Master>, org: nat, warehouse: nat, place: Place) {
    && Product(org, place.product) in masters
    && Location(org, warehouse, place.location) in masters
    && (place.lot.Some? ==> Lot(org, place.lot.value) in masters)
  }

  /** The accepted line lists: 1 to 200 lines, no zero delta, everything they name known. */
  predicate ItemsAccepted(masters: set<Master>, org: nat, warehouse: nat, items: seq<Item>) {
    && 1 <= |items| <= MAX_ADJUSTMENT_LINES
    && forall i :: 0 <= i < |items| ==> items[i].delta != 0 && PlaceKnown(masters, org, warehouse, items[i].place)
  }

  function LinesOf(items: seq<Item>): (lines: seq<Line>)
    ensures |lines| == |items|
    ensures forall i :: 0 <= i < |items| ==>
      lines[i] == AdjustmentLine(items[i].place, items[i].state, items[i].delta, None, None)
  {
    seq(|items|, i requires 0 <= i < |items| =>
      AdjustmentLine(items[i].place, items[i].state, items[i].delta, None, None))
  }

  function NewAdjustment(p: Policy, org: nat, actor: nat, warehouse: nat, lines: seq<Line>): Doc {
    Doc(Adjustment, org, warehouse, Draft, lines, Material(p, lines),
        None, actor, None, None, None, None, None, 0)
  }

  function NewCount(c: Pending): Doc {
    Doc(Count, c.org, c.warehouse, Draft, c.lines, false, None, c.actor, None, None, None, None, None, 0)
  }

  function SnapshotOf(db: Db, c: Pending): Line
    requires |c.lines| < |c.selectors|
  {
    var place := c.selectors[|c.lines|];
    var key := Key(c.org, c.warehouse, place.location, place.product, place.lot, Available);
    CountLine(place, OnHand(db.balances, key), None, None, |db.ledger|)
  }

  /** Entries are applied in order; one naming no line, or counting below zero, refuses them all. */
  function EnterCounts(lines: seq<Line>, entries: seq<CountEntry>): Option<seq<Line>> {
    if entries == [] then Some(lines)
    else
      var e := entries[|entries| - 1];
      match EnterCounts(lines, entries[..|entries| - 1])
      case None => None
      case Some(done) =>
        if e.counted >= 0 && 1 <= e.lineNumber <= |done| && done[e.lineNumber - 1].CountLine?
        then Some(done[e.lineNumber - 1 := done[e.lineNumber - 1].(counted := Some(e.counted))])
        else None
  }

  /** What the last entry for line `n` (counting from zero) says. */
  function LastEntry(entries: seq<CountEntry>, n: nat): Option<int> {
    if entries == [] then None
    else
      var e := entries[|entries| - 1];
      if e.lineNumber == n + 1 then Some(e.counted) else LastEntry(entries[..|entries| - 1], n)
  }

  predicate Enterable(lines: seq<Line>, e: CountEntry) {
    e.counted >= 0 && 1 <= e.lineNumber <= |lines| && lines[e.lineNumber - 1].CountLine?
  }

  predicate Entered(before: Line, after: Line, entry: Option<int>) {
    if entry.Some? then before.CountLine? && after == before.(counted := entry) else after == before
  }

  /**
   * Entries are accepted exactly when each of them names a line and counts no less than zero; each
   * line then has the quantity of its last entry, and nothing else changes.
   */
  lemma {:induction false} EnterCountsMeaning(lines: seq<Line>, entries: seq<CountEntry>)
    ensures EnterCounts(lines, entries).Some? <==> forall e :: e in entries ==> Enterable(lines, e)
    ensures EnterCounts(lines, entries).Some? ==>
      && |EnterCounts(lines, entries).value| == |lines|
      && forall n :: 0 <= n < |lines| ==> Entered(lines[n], EnterCounts(lines, entries).value[n], LastEntry(entries, n))
  {
    if entries != [] {
      var front, e := entries[..|entries| - 1], entries[|entries| - 1];
      EnterCountsMeaning(lines, front);
      assert entries == front + [e];
      if EnterCounts(lines, front).Some? {
        var done := EnterCounts(lines, front).value;
        assert forall n :: 0 <= n < |lines| ==> Entered(lines[n], done[n], LastEntry(front, n));
        assert EnterCounts(lines, entries).Some? <==> Enterable(lines, e);
      }
    }
  }

  /** Submitting a count fixes each line's variance; it is refused while a line is uncounted. */
  predicate AllCounted(lines: seq<Line>) {
    forall n :: 0 <= n < |lines| && lines[n].CountLine? ==> lines[n].counted.Some?
  }

  function WithVariance(l: Line): Line {
    if l.CountLine? && l.counted.Some? then l.(variance := Some(l.counted.value - l.system)) else l
  }

  function WithVariances(lines: seq<Line>): (r: seq<Line>)
    ensures |r| == |lines|
    ensures forall n :: 0 <= n < |lines| ==> r[n] == WithVariance(lines[n])
  {
    seq(|lines|, n requires 0 <= n < |lines| => WithVariance(lines[n]))
  }

  function Append(db: Db, d: Doc): Outcome {
    Done(db.(docs := db.docs + [d]), |db.docs|)
  }

  function Save(db: Db, id: nat, d: Doc): Outcome
    requires id < |db.docs|
  {
    Done(db.(docs := db.docs[id := d]), id)
  }

  // ---------------------------------------------------------------- posting and reversing

  /**
   * What a post or reverse transaction decides from the state it reads: refuse, answer with an
   * earlier result, or make the writes listed.
   */
  datatype Plan = Refuse(error: Error) | Replay(ref: nat) | Execute(writes: Writes)

  /**
   * `doc` replaces document `id`; `created` is inserted; `balances` are the rewritten balance rows;
   * `moved` become ledger rows; and the idempotency entry is inserted under `ik`.
   */
  datatype Writes = Writes(
    id: nat,
    doc: Doc,
    created: Option<Doc>,
    balances: Balances,
    moved: seq<Movement>,
    ik: IdemKey,
    payload: Payload)

  function IdemKeyOf(req: Request): IdemKey
    requires req.Post? || req.Reverse?
  {
    IdemKey(req.org, if req.Post? then PostScope(req.kind) else ReverseScope(req.kind), req.key)
  }

  function PayloadOf(req: Request): Payload
    requires req.Post? || req.Reverse?
  {
    if req.Post? then PostPayload(req.id) else ReversePayload(req.id, req.reason)
  }

  function PostedDoc(b: Balances, d: Doc, actor: nat): Doc {
    d.(status := Posted, lines := StampLines(b, d, d.lines), postedBy := Some(actor), version := d.version + 1)
  }

  function PlanPost(db: Db, req: Request): Plan
    requires req.Post? && req.id < |db.docs|
  {
    var d := db.docs[req.id];
    if !CanTransition(d.status, Posted) then Refuse(BusinessRule)
    else
      var moves := Sort(Moves(d));
      if ApplyAll(db.balances, moves).Insufficient? then Refuse(InsufficientStock)
      else
        Execute(Writes(req.id, PostedDoc(db.balances, d, req.actor), None, Written(db.balances, moves), moves,
                       IdemKeyOf(req), PayloadOf(req)))
  }

  /** The linked document a reversal creates, posted from the start. */
  function ReversalOf(b: Balances, id: nat, d: Doc, actor: nat): Doc {
    var r := Doc(d.kind, d.org, d.warehouse, Posted, NegatedLines(d.lines), d.elevated,
                 Some(id), actor, None, None, None, Some(actor), None, 0);
    r.(lines := StampLines(b, r, r.lines))
  }

  function PlanReverse(db: Db, req: Request): Plan
    requires req.Reverse? && req.id < |db.docs|
  {
    var d := db.docs[req.id];
    if d.status != Posted then Refuse(BusinessRule)
    else
      var r := ReversalOf(db.balances, req.id, d, req.actor);
      var moves := Sort(Moves(r));
      if ApplyAll(db.balances, moves).Insufficient? then Refuse(InsufficientStock)
      else
        Execute(Writes(req.id, d.(reversedBy := Some(req.actor)), Some(r), Written(db.balances, moves), moves,
                       IdemKeyOf(req), PayloadOf(req)))
  }

  function PlanOf(db: Db, req: Request): Plan
    requires req.Post? || req.Reverse?
  {
    if req.key == "" then Refuse(KeyRequired)
    else if IdemKeyOf(req) in db.table then
      var e := db.table[IdemKeyOf(req)];
      if e.payload != PayloadOf(req) then Refuse(KeyConflict)
      else if Owns(db, req.kind, req.org, e.ref) then Replay(e.ref)
      else Refuse(NotFound)
    else if !Owns(db, req.kind, req.org, req.id) then Refuse(NotFound)
    else if req.Post? then PlanPost(db, req)
    else PlanReverse(db, req)
  }

  /** The document the ledger rows and the idempotency entry name. */
  function Target(db: Db, w: Writes): nat {
    if w.created.Some? then |db.docs| else w.id
  }

  function ApplyWrites(db: Db, w: Writes): Db
    requires w.id < |db.docs|
  {
    db.(docs := db.docs[w.id := w.doc] + (if w.created.Some? then [w.created.value] else []),
        balances := db.balances + w.balances,
        ledger := db.ledger + PostedRows(w.moved, Document(Target(db, w))),
        table := db.table[w.ik := Entry(w.payload, Target(db, w))])
  }

  function Transact(db: Db, req: Request): Outcome
    requires req.Post? || req.Reverse?
  {
    match PlanOf(db, req)
    case Refuse(error) => Failed(error)
    case Replay(ref) => Done(db, ref)
    case Execute(w) => Done(ApplyWrites(db, w), Target(db, w))
  }

  // ---------------------------------------------------------------- all requests

  function Handle(p: Policy, db: Db, req: Request): Outcome {
    match req
    case CreateAdjustment(org, actor, warehouse, items) =>
      if Warehouse(org, warehouse) in db.masters && ItemsAccepted(db.masters, org, warehouse, items)
      then Append(db, NewAdjustment(p, org, actor, warehouse, LinesOf(items)))
      else Failed(Validation)
    case UpdateAdjustment(org, actor, id, newItems) =>
      if !Owns(db, Adjustment, org, id) then Failed(NotFound)
      else
        var d := db.docs[id];
        if d.status != Draft then Failed(Validation)
        else if newItems.None? then Save(db, id, d.(version := d.version + 1))
        else if !ItemsAccepted(db.masters, org, d.warehouse, newItems.value) then Failed(Validation)
        else
          var lines := LinesOf(newItems.value);
          Save(db, id, d.(lines := lines, elevated := Material(p, lines), version := d.version + 1))
    case OpenCount(org, actor, warehouse, selectors) =>
      if && Warehouse(org, warehouse) in db.masters
         && 1 <= |selectors| <= MAX_COUNT_LINES
         && forall i :: 0 <= i < |selectors| ==> PlaceKnown(db.masters, org, warehouse, selectors[i])
      then Done(db.(pending := db.pending + [Pending(org, actor, warehouse, selectors, [])]), |db.pending|)
      else Failed(Validation)
    case SnapshotLine(c) =>
      if c < |db.pending| && |db.pending[c].lines| < |db.pending[c].selectors|
      then
        var pending := db.pending[c];
        Done(db.(pending := db.pending[c := pending.(lines := pending.lines + [SnapshotOf(db, pending)])]), c)
      else Failed(Validation)
    case SaveCount(c) =>
      if c < |db.pending| && |db.pending[c].lines| == |db.pending[c].selectors|
      then Append(db, NewCount(db.pending[c]))
      else Failed(Validation)
    case UpdateCount(org, actor, id, entries) =>
      if !Owns(db, Count, org, id) then Failed(NotFound)
      else
        var d := db.docs[id];
        if d.status != Draft then Failed(Validation)
        else if entries.None? then Save(db, id, d.(version := d.version + 1))
        else
          (match EnterCounts(d.lines, entries.value)
           case None => Failed(Validation)
           case Some(lines) => Save(db, id, d.(lines := lines, version := d.version + 1)))
    case Submit(kind, org, actor, id) =>
      if !Owns(db, kind, org, id) then Failed(NotFound)
      else
        var d := db.docs[id];
        if !CanTransition(d.status, Submitted) then Failed(BusinessRule)
        else if kind.Count? && !AllCounted(d.lines) then Failed(Validation)
        else
          var lines := if kind.Count? then WithVariances(d.lines) else d.lines;
          Save(db, id, d.(status := Submitted, lines := lines, submittedBy := Some(actor), version := d.version + 1))
    case Approve(kind, org, actor, id) =>
      if !Owns(db, kind, org, id) then Failed(NotFound)
      else
        var d := db.docs[id];
        if SelfApprovalBarred(p, kind) && d.createdBy == actor then Failed(Forbidden)
        else if !CanTransition(d.status, Approved) then Failed(BusinessRule)
        else Save(db, id, d.(status := Approved, approvedBy := Some(actor), version := d.version + 1))
    case Reject(kind, org, actor, id) =>
      if !Owns(db, kind, org, id) then Failed(NotFound)
      else
        var d := db.docs[id];
        if !CanTransition(d.status, Rejected) then Failed(BusinessRule)
        else Save(db, id, d.(status := Rejected, rejectedBy := Some(actor), version := d.version + 1))
    case Post(_, _, _, _, _) => Transact(db, req)
    case Reverse(_, _, _, _, _, _) => Transact(db, req)
    case OtherMovements(movements) =>
      var moves := Sort(movements);
      (match ApplyAll(db.balances, moves)
       case Insufficient => Failed(InsufficientStock)
       case Applied(b) => Done(db.(balances := b, ledger := db.ledger + PostedRows(moves, External)), 0))
    case SetMasters(masters) => Done(db.(masters := masters), 0)
  }

  /** A refused request leaves no trace. */
  function Next(p: Policy, db: Db, req: Request): Db {
    match Handle(p, db, req)
    case Done(db', _) => db'
    case Failed(_) => db
  }

  /** The state after a run of requests, each one atomic. */
  function Run(p: Policy, db: Db, reqs: seq<Request>): Db {
    if reqs == [] then db else Next(p, Run(p, db, reqs[..|reqs| - 1]), reqs[|reqs| - 1])
  }

  lemma {:induction false} RunAppend(p: Policy, db: Db, a: seq<Request>, b: seq<Request>)
    ensures Run(p, db, a + b) == Run(p, Run(p, db, a), b)
  {
    if b == [] {
      assert a + b == a;
    } else {
      RunAppend(p, db, a, b[..|b| - 1]);
      assert (a + b)[..|a + b| - 1] == a + b[..|b| - 1];
    }
  }

  // ---------------------------------------------------------------- how one document can change

  /** Replacing the lines by lines that post the same quantities at the same places. */
  predicate SameEffects(d: Doc, e: Doc) {
    && d.kind == e.kind && d.org == e.org && d.warehouse == e.warehouse && |d.lines| == |e.lines|
    && forall n :: 0 <= n < |d.lines| ==>
      && KeyOf(d, d.lines[n]) == KeyOf(e, e.lines[n])
      && Effect(d.lines[n]) == Effect(e.lines[n])
      && d.lines[n].CountLine? == e.lines[n].CountLine?
  }

  /** The fields no operation ever writes after creation. */
  predicate SameOrigin(d: Doc, e: Doc) {
    d.kind == e.kind && d.org == e.org && d.warehouse == e.warehouse && d.createdBy == e.createdBy &&
    d.reversalOf == e.reversalOf
  }

  predicate IsEdit(req: Request, id: nat) {
    (req.UpdateAdjustment? || req.UpdateCount?) && req.id == id
  }

  /** All ways in which request `req` can change document `id` from `d` to `e`. */
  predicate DocStep(p: Policy, req: Request, id: nat, d: Doc, e: Doc) {
    || e == d
    || (SameOrigin(d, e) && e.version == d.version + 1 && (
        || (&& IsEdit(req, id) && d.status == Draft
            && e == d.(lines := e.lines, elevated := e.elevated, version := e.version))
        || (&& req.Submit? && req.id == id && req.kind == d.kind && d.status == Draft
            && (d.kind.Count? ==> AllCounted(d.lines))
            && e == d.(status := Submitted, submittedBy := Some(req.actor), version := e.version,
                       lines := if d.kind.Count? then WithVariances(d.lines) else d.lines))
        || (&& req.Approve? && req.id == id && d.status == Submitted
            && (SelfApprovalBarred(p, d.kind) ==> req.actor != d.createdBy)
            && e == d.(status := Approved, approvedBy := Some(req.actor), version := e.version))
        || (&& req.Reject? && req.id == id && d.status == Submitted
            && e == d.(status := Rejected, rejectedBy := Some(req.actor), version := e.version))
        || (&& req.Post? && req.id == id && d.status == Approved && SameEffects(d, e)
            && e == d.(status := Posted, lines := e.lines, postedBy := Some(req.actor), version := e.version))))
    || (&& req.Reverse? && req.id == id && d.status == Posted
        && e == d.(reversedBy := Some(req.actor)))
  }

  lemma PostedDocSteps(b: Balances, d: Doc, actor: nat)
    ensures SameEffects(d, PostedDoc(b, d, actor))
    ensures Moves(PostedDoc(b, d, actor)) == Moves(d)
    ensures forall k :: DocNet(PostedDoc(b, d, actor), k) == DocNet(d, k)
  {
    StampLinesAt(b, d, d.lines);
    var e := PostedDoc(b, d, actor);
    SameLinesSameMoves(d, e, d.lines, e.lines);
    forall k ensures DocNet(e, k) == DocNet(d, k) {
      MovesNet(d, d.lines, k);
      MovesNet(e, e.lines, k);
    }
  }

  lemma PostDocStep(p: Policy, db: Db, req: Request, id: nat)
    requires id < |db.docs| && req.Post? && PlanOf(db, req).Execute?
    ensures |db.docs| <= |ApplyWrites(db, PlanOf(db, req).writes).docs|
    ensures DocStep(p, req, id, db.docs[id], ApplyWrites(db, PlanOf(db, req).writes).docs[id])
  {
    PostedDocSteps(db.balances, db.docs[req.id], req.actor);
    assert PlanOf(db, req).writes.doc == PostedDoc(db.balances, db.docs[req.id], req.actor);
  }

  lemma ReverseDocStep(p: Policy, db: Db, req: Request, id: nat)
    requires id < |db.docs| && req.Reverse? && PlanOf(db, req).Execute?
    ensures |db.docs| <= |ApplyWrites(db, PlanOf(db, req).writes).docs|
    ensures DocStep(p, req, id, db.docs[id], ApplyWrites(db, PlanOf(db, req).writes).docs[id])
  {
    assert PlanOf(db, req).writes.doc == db.docs[req.id].(reversedBy := Some(req.actor));
  }

  /** A transaction makes the writes of its plan, or none. */
  lemma TransactionStep(p: Policy, db: Db, req: Request)
    requires req.Post? || req.Reverse?
    ensures PlanOf(db, req).Execute? ==>
      var w := PlanOf(db, req).writes;
      w.id < |db.docs| && Handle(p, db, req) == Done(ApplyWrites(db, w), Target(db, w)) && Next(p, db, req) == ApplyWrites(db, w)
    ensures !PlanOf(db, req).Execute? ==> Next(p, db, req) == db
    ensures PlanOf(db, req).Replay? ==> Handle(p, db, req) == Done(db, PlanOf(db, req).ref)
    ensures PlanOf(db, req).Refuse? ==> Handle(p, db, req) == Failed(PlanOf(db, req).error)
  {
    hide ApplyAll, Sort, MovesOf, Written, StampLines, NegatedLines, PostedRows;
    assert Handle(p, db, req) == Transact(db, req);
  }

  /** The other requests leave the idempotency table alone. */
  lemma DirectKeepsTable(p: Policy, db: Db, req: Request)
    requires !req.Post? && !req.Reverse?
    ensures Next(p, db, req).table == db.table
  {
    hide ApplyAll, Sort, PostedRows, ItemsAccepted, AllCounted, EnterCounts, Material, LinesOf;
  }

  lemma EditStep(p: Policy, db: Db, req: Request, id: nat)
    requires (req.UpdateAdjustment? || req.UpdateCount?) && id < |db.docs|
    ensures |db.docs| <= |Next(p, db, req).docs|
    ensures DocStep(p, req, id, db.docs[id], Next(p, db, req).docs[id])
  {
    hide ApplyAll, Sort, PostedRows, ItemsAccepted, AllCounted, EnterCounts, Material, LinesOf;
  }

  lemma WorkflowStep(p: Policy, db: Db, req: Request, id: nat)
    requires !req.Post? && !req.Reverse? && !req.UpdateAdjustment? && !req.UpdateCount? && id < |db.docs|
    ensures |db.docs| <= |Next(p, db, req).docs|
    ensures DocStep(p, req, id, db.docs[id], Next(p, db, req).docs[id])
  {
    hide ApplyAll, Sort, PostedRows, ItemsAccepted, AllCounted, EnterCounts, Material, LinesOf;
  }

  /** No request changes an existing document in any other way, and none removes one. */
  lemma EveryDocStep(p: Policy, db: Db, req: Request, id: nat)
    requires id < |db.docs|
    ensures |db.docs| <= |Next(p, db, req).docs|
    ensures DocStep(p, req, id, db.docs[id], Next(p, db, req).docs[id])
  {
    hide Handle, Next, PlanOf, ApplyWrites;
    if req.UpdateAdjustment? || req.UpdateCount? {
      EditStep(p, db, req, id);
    } else if !req.Post? && !req.Reverse? {
      WorkflowStep(p, db, req, id);
    } else {
      TransactionStep(p, db, req);
      if PlanOf(db, req).Execute? {
        if req.Post? {
          PostDocStep(p, db, req, id);
        } else {
          ReverseDocStep(p, db, req, id);
        }
      }
    }
  }
}
