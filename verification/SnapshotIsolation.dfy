/**
 * Concurrent transactions. Each post or reversal reads a snapshot taken when it began and commits
 * later; in between, other transactions commit and the non-transactional handlers run. A commit
 * is refused if something it writes has changed since the snapshot, or if its idempotency key has
 * been inserted meanwhile. What changed is judged by value here, which lets more commits through
 * than the database does, so the results below hold for the stricter check as well.
 */
module SnapshotIsolation {
  import opened Prelude
  import opened Ledger
  import opened Documents
  import opened Posting
  import opened Invariants
  import opened ExactlyOnce

  datatype Txn = Txn(req: Request, snapshot: Db)

  /** The committed state, the transactions in progress, and what each finished transaction answered. */
  datatype World = World(db: Db, open: map<nat, Txn>, answers: map<nat, Answer>)

  datatype Answer = Answer(req: Request, ref: nat)

  /** `Direct` is any request that is one atomic step; `Begin`, `Commit` and `Abort` are the steps of a transaction. */
  datatype Step = Direct(req: Request) | Begin(txn: nat, req: Request) | Commit(txn: nat) | Abort(txn: nat)

  predicate SameRow(b: Balances, c: Balances, k: Key) {
    (k in b <==> k in c) && OnHand(b, k) == OnHand(c, k)
  }

  /** First committer wins, on the documents and balance rows written and on the unique index. */
  predicate NoConflict(snapshot: Db, db: Db, w: Writes) {
    && w.id < |snapshot.docs| && w.id < |db.docs| && db.docs[w.id] == snapshot.docs[w.id]
    && (forall k :: k in w.balances ==> SameRow(snapshot.balances, db.balances, k))
    && w.ik !in db.table
  }

  function CommitOf(world: World, t: nat): World
    requires t in world.open && IsTransaction(world.open[t].req)
  {
    var txn := world.open[t];
    var rest := world.open - {t};
    match PlanOf(txn.snapshot, txn.req)
    case Refuse(_) => world.(open := rest)
    case Replay(ref) => world.(open := rest, answers := world.answers[t := Answer(txn.req, ref)])
    case Execute(w) =>
      if NoConflict(txn.snapshot, world.db, w)
      then World(ApplyWrites(world.db, w), rest, world.answers[t := Answer(txn.req, Target(world.db, w))])
      else world.(open := rest)
  }

  /** A step that does not fit the world it is tried in changes nothing; transaction numbers are not reused. */
  function StepOf(p: Policy, world: World, step: Step): World {
    match step
    case Direct(req) => if IsTransaction(req) then world else world.(db := Next(p, world.db, req))
    case Begin(t, req) =>
      if t in world.open || t in world.answers || !IsTransaction(req) then world
      else world.(open := world.open[t := Txn(req, world.db)])
    case Commit(t) => if t in world.open && IsTransaction(world.open[t].req) then CommitOf(world, t) else world
    case Abort(t) => world.(open := world.open - {t})
  }

  function Steps(p: Policy, world: World, steps: seq<Step>): World {
    if steps == [] then world
    else StepOf(p, Steps(p, world, steps[..|steps| - 1]), steps[|steps| - 1])
  }

  const START := World(EMPTY, map[], map[])

  // ---------------------------------------------------------------- a commit is an atomic step

  /** The lines of the document a plan moves stock for have their keys among the rows the plan writes. */
  lemma {:induction false} LineKeysTouched(d: Doc, lines: seq<Line>, n: nat)
    requires n < |lines| && lines[n].AdjustmentLine? && lines[n].delta != 0
    ensures KeyOf(d, lines[n]) in Touched(MovesOf(d, lines))
  {
    var l := lines[|lines| - 1];
    var rest, ms := MovesOf(d, lines[..|lines| - 1]), MovesOf(d, lines);
    if n == |lines| - 1 {
      assert Movement(KeyOf(d, l), Effect(l), false) in ms;
    } else {
      LineKeysTouched(d, lines[..|lines| - 1], n);
      assert Touched(rest) <= Touched(ms);
    }
  }

  /** Stamping reads the balances of touched keys only, as long as no delta is zero. */
  lemma {:induction false} StampDependsOnTouched(b: Balances, c: Balances, d: Doc, lines: seq<Line>)
    requires forall n :: 0 <= n < |lines| && lines[n].AdjustmentLine? ==> OnHand(b, KeyOf(d, lines[n])) == OnHand(c, KeyOf(d, lines[n]))
    ensures StampLines(b, d, lines) == StampLines(c, d, lines)
  {
    if lines != [] {
      StampDependsOnTouched(b, c, d, lines[..|lines| - 1]);
    }
  }

  /** Agreement on the rows a document touches carries over to everything computed from them. */
  lemma SameWrites(b: Balances, c: Balances, d: Doc)
    requires forall n :: 0 <= n < |d.lines| && d.lines[n].AdjustmentLine? ==> d.lines[n].delta != 0
    requires forall k :: k in Touched(Sort(Moves(d))) ==> SameRow(b, c, k)
    ensures StampLines(b, d, d.lines) == StampLines(c, d, d.lines)
    ensures ApplyAll(b, Sort(Moves(d))).Applied? <==> ApplyAll(c, Sort(Moves(d))).Applied?
    ensures ApplyAll(b, Sort(Moves(d))).Applied? ==> Written(b, Sort(Moves(d))) == Written(c, Sort(Moves(d)))
  {
    SortingIsHarmless(b, Moves(d));
    forall n | 0 <= n < |d.lines| && d.lines[n].AdjustmentLine?
      ensures OnHand(b, KeyOf(d, d.lines[n])) == OnHand(c, KeyOf(d, d.lines[n]))
    {
      LineKeysTouched(d, d.lines, n);
    }
    StampDependsOnTouched(b, c, d, d.lines);
    WrittenDependsOnTouchedOnly(b, c, Sort(Moves(d)));
  }

  lemma PostPlanStable(snapshot: Db, db: Db, req: Request, w: Writes)
    requires req.Post? && PlanOf(snapshot, req) == Execute(w) && NoConflict(snapshot, db, w)
    requires LinesOk(snapshot.ledger, snapshot.docs[w.id])
    ensures PlanOf(db, req) == Execute(w)
  {
    PlanShape(snapshot, req, w);
    var d := snapshot.docs[w.id];
    forall n | 0 <= n < |d.lines| && d.lines[n].AdjustmentLine? ensures d.lines[n].delta != 0 {
      assert LineOk(snapshot.ledger, d, d.lines[n]);
    }
    WrittenIsAll(snapshot.balances, Sort(Moves(d)));
    SameWrites(snapshot.balances, db.balances, d);
  }

  lemma ReversePlanStable(snapshot: Db, db: Db, req: Request, w: Writes)
    requires req.Reverse? && PlanOf(snapshot, req) == Execute(w) && NoConflict(snapshot, db, w)
    requires LinesOk(snapshot.ledger, snapshot.docs[w.id])
    ensures PlanOf(db, req) == Execute(w)
  {
    PlanShape(snapshot, req, w);
    var d := snapshot.docs[w.id];
    var r := ReversalOf(snapshot.balances, w.id, d, req.actor);
    ReversalShape(snapshot.ledger, snapshot.balances, w.id, d, req.actor);
    var blank := r.(lines := NegatedLines(d.lines));
    NegatedLinesAt(d.lines);
    forall n | 0 <= n < |blank.lines| && blank.lines[n].AdjustmentLine? ensures blank.lines[n].delta != 0 {
      assert LineOk(snapshot.ledger, d, d.lines[n]);
    }
    StampLinesAt(snapshot.balances, blank, blank.lines);
    SameLinesSameMoves(blank, r, blank.lines, r.lines);
    WrittenIsAll(snapshot.balances, Sort(Moves(r)));
    SameWrites(snapshot.balances, db.balances, blank);
  }

  /**
   * A transaction that commits without conflict does to the current state exactly what the same
   * request would do as one atomic step now, with the same answer.
   */
  lemma CommitIsAtomic(p: Policy, snapshot: Db, db: Db, req: Request, w: Writes)
    requires IsTransaction(req) && DocsOk(p, snapshot)
    requires PlanOf(snapshot, req) == Execute(w) && NoConflict(snapshot, db, w)
    ensures Handle(p, db, req) == Done(ApplyWrites(db, w), Target(db, w))
  {
    assert DocOk(p, snapshot.ledger, snapshot.docs[w.id]);
    hide Handle, PlanOf, ApplyWrites;
    TransactionStep(p, db, req);
    if req.Post? {
      PostPlanStable(snapshot, db, req, w);
    } else {
      ReversePlanStable(snapshot, db, req, w);
    }
  }

  // ---------------------------------------------------------------- when a transaction commits

  /** What a transaction has to write is still as it was when it began, and its key still has no result. */
  predicate Undisturbed(snapshot: Db, db: Db, req: Request)
    requires IsTransaction(req) && PlanOf(snapshot, req).Execute?
  {
    var w := PlanOf(snapshot, req).writes;
    && w.id < |snapshot.docs| && w.id < |db.docs| && db.docs[w.id] == snapshot.docs[w.id]
    && (forall k :: k in w.balances ==> (k in snapshot.balances <==> k in db.balances) && OnHand(snapshot.balances, k) == OnHand(db.balances, k))
    && IdemKey(req.org, if req.Post? then PostScope(req.kind) else ReverseScope(req.kind), req.key) !in db.table
  }

  /** A transaction with work to do answers exactly when it was not disturbed; otherwise it leaves no trace. */
  lemma CommitsIffUndisturbed(p: Policy, world: World, t: nat)
    requires WorldInv(p, world) && t in world.open && t !in world.answers
    requires IsTransaction(world.open[t].req) && PlanOf(world.open[t].snapshot, world.open[t].req).Execute?
    ensures var txn, world' := world.open[t], StepOf(p, world, Commit(t));
      && world'.open == world.open - {t}
      && (t in world'.answers <==> Undisturbed(txn.snapshot, world.db, txn.req))
      && (if t in world'.answers then world'.db == Next(p, world.db, txn.req)
          else world'.db == world.db && world'.answers == world.answers)
  {
    hide PlanOf, ApplyWrites, Inv, Next;
    var txn := world.open[t];
    PlanShape(txn.snapshot, txn.req, PlanOf(txn.snapshot, txn.req).writes);
    CommitStepIsAtomic(p, world, t);
    UndisturbedIsNoConflict(txn.snapshot, world.db, txn.req);
    hide NoConflict, Undisturbed;
  }

  lemma UndisturbedIsNoConflict(snapshot: Db, db: Db, req: Request)
    requires IsTransaction(req) && PlanOf(snapshot, req).Execute?
    ensures Undisturbed(snapshot, db, req) <==> NoConflict(snapshot, db, PlanOf(snapshot, req).writes)
  {
    PlanShape(snapshot, req, PlanOf(snapshot, req).writes);
    hide PlanOf;
  }

  /** A transaction that is aborted leaves no trace, and never answers. */
  lemma AbortedLeavesNoTrace(p: Policy, world: World, t: nat, req: Request)
    requires IsTransaction(req) && t !in world.open && t !in world.answers
    ensures StepOf(p, StepOf(p, world, Begin(t, req)), Abort(t)) == world
    ensures StepOf(p, StepOf(p, StepOf(p, world, Begin(t, req)), Abort(t)), Commit(t)) == world
  {
    assert world.open[t := Txn(req, world.db)] - {t} == world.open;
  }

  /** A transaction that nothing comes between does and answers what the request does as one atomic step. */
  lemma AloneIsAtomic(p: Policy, world: World, t: nat, req: Request)
    requires IsTransaction(req) && t !in world.open && t !in world.answers
    ensures var world' := StepOf(p, StepOf(p, world, Begin(t, req)), Commit(t));
      && world'.db == Next(p, world.db, req)
      && world'.answers == (match Handle(p, world.db, req)
                            case Done(_, ref) => world.answers[t := Answer(req, ref)]
                            case Failed(_) => world.answers)
  {
    hide PlanOf, ApplyWrites;
    if PlanOf(world.db, req).Execute? {
      PlanShape(world.db, req, PlanOf(world.db, req).writes);
    }
    TransactionStep(p, world.db, req);
    hide Handle, Next;
    var begun := StepOf(p, world, Begin(t, req));
    assert begun == world.(open := world.open[t := Txn(req, world.db)]);
    assert StepOf(p, begun, Commit(t)) == CommitOf(begun, t);
  }

  // ---------------------------------------------------------------- every interleaving is a serial run

  /** The requests an interleaving commits, in commit order. */
  function CommitLog(p: Policy, world: World, steps: seq<Step>): seq<Request> {
    if steps == [] then []
    else
      var before := Steps(p, world, steps[..|steps| - 1]);
      CommitLog(p, world, steps[..|steps| - 1]) +
      match steps[|steps| - 1]
      case Direct(req) => if IsTransaction(req) then [] else [req]
      case Begin(_, _) => []
      case Commit(t) => if t in before.open && CommitsWork(before, t) then [before.open[t].req] else []
      case Abort(_) => []
  }

  /** Transaction `t` is about to commit an execution of its body. */
  predicate CommitsWork(world: World, t: nat)
    requires t in world.open
  {
    var txn := world.open[t];
    IsTransaction(txn.req) && PlanOf(txn.snapshot, txn.req).Execute? &&
    NoConflict(txn.snapshot, world.db, PlanOf(txn.snapshot, txn.req).writes)
  }

  ghost predicate AnswersOk(world: World) {
    forall t :: t in world.answers ==> AnswerOk(world.db, world.answers[t])
  }

  predicate AnswerOk(db: Db, a: Answer) {
    IsTransaction(a.req) && IdemKeyOf(a.req) in db.table && db.table[IdemKeyOf(a.req)] == Entry(PayloadOf(a.req), a.ref)
  }

  predicate TableWithin(earlier: Db, db: Db) {
    forall ik :: ik in earlier.table ==> ik in db.table && db.table[ik] == earlier.table[ik]
  }

  ghost predicate WorldInv(p: Policy, world: World) {
    && Inv(p, world.db)
    && SnapshotsOk(p, world)
    && AnswersOk(world)
  }

  lemma CommitStepIsAtomic(p: Policy, world: World, t: nat)
    requires SnapshotsOk(p, world) && t in world.open && IsTransaction(world.open[t].req)
    ensures CommitOf(world, t).db == if CommitsWork(world, t) then Next(p, world.db, world.open[t].req) else world.db
  {
    if CommitsWork(world, t) {
      var txn := world.open[t];
      assert ReadableSnapshot(p, txn.snapshot, world.db);
      CommitIsAtomic(p, txn.snapshot, world.db, txn.req, PlanOf(txn.snapshot, txn.req).writes);
    }
  }

  /** A step changes the committed state by at most one atomic request. */
  lemma StepIsAtomic(p: Policy, world: World, step: Step)
    requires SnapshotsOk(p, world)
    ensures StepOf(p, world, step).db == Run(p, world.db, CommitLog(p, world, [step]))
  {
    assert [step][..0] == [];
    assert Steps(p, world, []) == world;
    assert CommitLog(p, world, []) == [];
    var log := CommitLog(p, world, [step]);
    if log != [] {
      assert log[..0] == [];
    }
    if step.Commit? && step.txn in world.open && IsTransaction(world.open[step.txn].req) {
      CommitStepIsAtomic(p, world, step.txn);
    }
  }

  lemma TableGrows(p: Policy, db: Db, reqs: seq<Request>, earlier: Db)
    requires TableWithin(earlier, db)
    ensures TableWithin(earlier, Run(p, db, reqs))
  {
    forall ik | ik in earlier.table
      ensures ik in Run(p, db, reqs).table && Run(p, db, reqs).table[ik] == earlier.table[ik]
    {
      EntriesAreForever(p, db, reqs, ik);
    }
  }

  /** The answer a committing transaction gives is the one recorded under its key. */
  lemma ExecutedAnswerOk(snapshot: Db, db: Db, req: Request, w: Writes)
    requires IsTransaction(req) && PlanOf(snapshot, req) == Execute(w) && w.id < |db.docs|
    ensures AnswerOk(ApplyWrites(db, w), Answer(req, Target(db, w)))
  {
    PlanShape(snapshot, req, w);
  }

  lemma ReplayedAnswerOk(snapshot: Db, db: Db, req: Request, ref: nat)
    requires IsTransaction(req) && PlanOf(snapshot, req) == Replay(ref) && TableWithin(snapshot, db)
    ensures AnswerOk(db, Answer(req, ref))
  {
    assert IdemKeyOf(req) in snapshot.table;
  }

  lemma NewAnswerOk(world: World, t: nat)
    requires t in world.open && IsTransaction(world.open[t].req) && TableWithin(world.open[t].snapshot, world.db)
    requires t !in world.answers && t in CommitOf(world, t).answers
    ensures AnswerOk(CommitOf(world, t).db, CommitOf(world, t).answers[t])
  {
    var txn := world.open[t];
    match PlanOf(txn.snapshot, txn.req)
    case Refuse(_) =>
    case Replay(ref) => ReplayedAnswerOk(txn.snapshot, world.db, txn.req, ref);
    case Execute(w) =>
      if NoConflict(txn.snapshot, world.db, w) {
        ExecutedAnswerOk(txn.snapshot, world.db, txn.req, w);
      }
  }

  lemma OldAnswerOk(p: Policy, db: Db, log: seq<Request>, a: Answer)
    requires AnswerOk(db, a)
    ensures AnswerOk(Run(p, db, log), a)
  {
    EntriesAreForever(p, db, log, IdemKeyOf(a.req));
  }

  /** Answers once given stay; only a commit adds one, for its own transaction. */
  lemma AnswersStep(p: Policy, world: World, step: Step)
    requires step.Commit? ==> step.txn !in world.answers
    ensures forall t :: t in world.answers ==> t in StepOf(p, world, step).answers && StepOf(p, world, step).answers[t] == world.answers[t]
    ensures forall t :: t in StepOf(p, world, step).answers && t !in world.answers ==>
      && step == Commit(t) && t in world.open && IsTransaction(world.open[t].req)
      && StepOf(p, world, step) == CommitOf(world, t)
  {
  }

  ghost predicate SnapshotsOk(p: Policy, world: World) {
    forall t :: t in world.open ==> ReadableSnapshot(p, world.open[t].snapshot, world.db)
  }

  /** A snapshot is an earlier reachable state. */
  ghost predicate ReadableSnapshot(p: Policy, snapshot: Db, db: Db) {
    Inv(p, snapshot) && TableWithin(snapshot, db)
  }

  lemma StepKeepsSnapshots(p: Policy, world: World, step: Step)
    requires Inv(p, world.db) && SnapshotsOk(p, world)
    requires StepOf(p, world, step).db == Run(p, world.db, CommitLog(p, world, [step]))
    ensures SnapshotsOk(p, StepOf(p, world, step))
  {
    var world' := StepOf(p, world, step);
    OpenStep(p, world, step);
    forall t | t in world'.open ensures ReadableSnapshot(p, world'.open[t].snapshot, world'.db) {
      if t in world.open {
        SnapshotStaysReadable(p, world.open[t].snapshot, world.db, CommitLog(p, world, [step]));
      }
    }
  }

  lemma SnapshotStaysReadable(p: Policy, snapshot: Db, db: Db, log: seq<Request>)
    requires ReadableSnapshot(p, snapshot, db)
    ensures ReadableSnapshot(p, snapshot, Run(p, db, log))
  {
    TableGrows(p, db, log, snapshot);
  }

  /** Transactions in progress keep their snapshots; a new one takes the committed state. */
  lemma OpenStep(p: Policy, world: World, step: Step)
    ensures forall t :: t in StepOf(p, world, step).open ==>
      if t in world.open then StepOf(p, world, step).open[t] == world.open[t]
      else step.Begin? && StepOf(p, world, step).open[t].snapshot == world.db && StepOf(p, world, step).db == world.db
  {
  }

  lemma StepKeepsAnswers(p: Policy, world: World, step: Step)
    requires SnapshotsOk(p, world) && AnswersOk(world)
    requires step.Commit? ==> step.txn !in world.answers
    requires StepOf(p, world, step).db == Run(p, world.db, CommitLog(p, world, [step]))
    ensures AnswersOk(StepOf(p, world, step))
  {
    var world' := StepOf(p, world, step);
    AnswersStep(p, world, step);
    forall t | t in world'.answers ensures AnswerOk(world'.db, world'.answers[t]) {
      if t in world.answers {
        OldAnswerOk(p, world.db, CommitLog(p, world, [step]), world.answers[t]);
      } else {
        assert ReadableSnapshot(p, world.open[t].snapshot, world.db);
        NewAnswerOk(world, t);
      }
    }
  }

  lemma StepKeepsWorldInv(p: Policy, world: World, step: Step)
    requires WorldInv(p, world)
    requires step.Commit? ==> step.txn !in world.answers
    ensures WorldInv(p, StepOf(p, world, step))
  {
    StepIsAtomic(p, world, step);
    RunKeepsInv(p, world.db, CommitLog(p, world, [step]));
    StepKeepsSnapshots(p, world, step);
    StepKeepsAnswers(p, world, step);
  }

  /** A transaction in progress has not answered yet. */
  lemma {:induction false} OpenHasNoAnswer(p: Policy, steps: seq<Step>, t: nat)
    ensures t in Steps(p, START, steps).open ==> t !in Steps(p, START, steps).answers
  {
    if steps != [] {
      OpenHasNoAnswer(p, steps[..|steps| - 1], t);
    }
  }

  lemma {:induction false} LogAppend(p: Policy, world: World, steps: seq<Step>)
    requires steps != []
    ensures CommitLog(p, world, steps) ==
      CommitLog(p, world, steps[..|steps| - 1]) +
      CommitLog(p, Steps(p, world, steps[..|steps| - 1]), [steps[|steps| - 1]])
  {
    var before, last := Steps(p, world, steps[..|steps| - 1]), steps[|steps| - 1];
    assert [last][..0] == [];
    assert Steps(p, before, []) == before;
    assert CommitLog(p, before, []) == [];
  }

  /**
   * Every interleaving of any number of transactions and direct requests leaves the state of the
   * serial run of what it committed, in commit order; so everything proved about runs holds for
   * interleavings. Every answer given names the reference recorded under the request's key.
   */
  lemma {:induction false} EveryInterleavingIsSerial(p: Policy, steps: seq<Step>)
    ensures Steps(p, START, steps).db == Run(p, EMPTY, CommitLog(p, START, steps))
    ensures WorldInv(p, Steps(p, START, steps))
  {
    if steps == [] {
      EmptyInv(p);
    } else {
      var front, last := steps[..|steps| - 1], steps[|steps| - 1];
      var before := Steps(p, START, front);
      EveryInterleavingIsSerial(p, front);
      if last.Commit? && last.txn in before.answers {
        OpenHasNoAnswer(p, front, last.txn);
        assert StepOf(p, before, last) == before;
        LogAppend(p, START, steps);
        assert CommitLog(p, START, front) + [] == CommitLog(p, START, front);
      } else {
        StepKeepsWorldInv(p, before, last);
        StepIsAtomic(p, before, last);
        LogAppend(p, START, steps);
        RunAppend(p, EMPTY, CommitLog(p, START, front), CommitLog(p, before, [last]));
      }
    }
  }

  /**
   * No double posting under concurrency. Whatever transactions run on a document, under equal or
   * different keys, interleaved in any way, its posting body is committed at most once, a body is
   * committed at most once per key, and its rows enter the ledger once if it is posted and not at
   * all otherwise. Two transactions with the same key that both answer give the same reference.
   */
  lemma NoDoublePosting(p: Policy, steps: seq<Step>, id: nat, ik: IdemKey, t: nat, u: nat)
    ensures var answers := Steps(p, START, steps).answers;
      t in answers && u in answers && SameKey(answers[t], answers[u]) ==> answers[t].ref == answers[u].ref
    ensures var db := Steps(p, START, steps).db;
      RowsOf(db.ledger, Document(id)) == if IsPosted(db, id) then PostedRows(Sort(Moves(db.docs[id])), Document(id)) else []
    ensures Postings(p, EMPTY, CommitLog(p, START, steps), id) <= 1
    ensures Executions(p, EMPTY, CommitLog(p, START, steps), ik) == if ik in Steps(p, START, steps).db.table then 1 else 0
  {
    EveryInterleavingIsSerial(p, steps);
    PostedOnce(p, CommitLog(p, START, steps), id);
    ExecutedOnce(p, EMPTY, CommitLog(p, START, steps), ik);
  }

  predicate SameKey(a: Answer, b: Answer) {
    IsTransaction(a.req) && IsTransaction(b.req) && IdemKeyOf(a.req) == IdemKeyOf(b.req)
  }
}
