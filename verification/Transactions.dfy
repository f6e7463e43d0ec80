/** The transaction wrapper itself: a bounded loop over attempts on a store other clients use too. */
module Transactions {
  import opened Prelude
  import opened Ledger
  import opened Documents
  import opened Posting
  import opened Invariants
  import opened ExactlyOnce
  import opened RetryLoop
  import opened Sessions
  import AdjustmentService
  import CountService

  /** In every reachable state the documents have the lines of their kind. */
  lemma InvTyped(p: Policy, db: Db)
    requires DocsOk(p, db)
    ensures Typed(db)
  {
    forall i | 0 <= i < |db.docs| ensures TypedDoc(db.docs[i]) {
      assert DocOk(p, db.ledger, db.docs[i]);
      forall n | 0 <= n < |db.docs[i].lines|
        ensures db.docs[i].lines[n].AdjustmentLine? == db.docs[i].kind.Adjustment?
      {
        assert LineOk(db.ledger, db.docs[i], db.docs[i].lines[n]);
      }
    }
  }

  /** The work of a transaction: whichever of the four operations the request asks for. */
  method Work(s: Session, req: Request) returns (r: Result<nat, Error>)
    requires IsTransaction(req) && Typed(s.View())
    modifies s
    ensures Carries(Transact(old(s.View()), req), r, s.View())
  {
    match req {
      case Post(kind, org, actor, id, key) =>
        if kind == Adjustment {
          r := AdjustmentService.PostStockAdjustment(s, org, actor, id, key);
        } else {
          r := CountService.PostStockCount(s, org, actor, id, key);
        }
      case Reverse(kind, org, actor, id, reason, key) =>
        if kind == Adjustment {
          r := AdjustmentService.ReverseStockAdjustment(s, org, actor, id, reason, key);
        } else {
          r := CountService.ReverseStockCount(s, org, actor, id, reason, key);
        }
    }
  }

  /** How the commit of an attempt that did its work ends. */
  method Commit(store: Session, session: Session, ref: nat, fate: Fate) returns (reply: Reply)
    requires store != session && !fate.Abort?
    modifies store
    ensures reply == if fate.Acknowledged? then Returned(ref) else Threw(Driver({UnknownTransactionCommitResult}))
    ensures store.View() == if fate.Acknowledged? || fate.applied then session.View() else old(store.View())
  {
    if fate.Acknowledged? {
      store.Become(session.View());
      return Returned(ref);
    }
    if fate.applied {
      store.Become(session.View());
    }
    return Threw(Driver({UnknownTransactionCommitResult}));
  }

  /** One attempt: a session on a copy of the store, the work, and the commit. */
  method AttemptOnce(p: Policy, store: Session, req: Request, fate: Fate) returns (reply: Reply)
    requires IsTransaction(req) && Typed(store.View())
    modifies store
    ensures (store.View(), reply) == Attempt(p, old(store.View()), req, fate)
  {
    if fate.Abort? {
      return Threw(Driver(fate.labels));
    }
    var session := new Session(store.View());
    var r := Work(session, req);
    if r.Err? {
      return Threw(Application(r.error));
    }
    reply := Commit(store, session, r.value, fate);
  }

  /** What other clients do, then one attempt. */
  method AttemptAfterOthers(p: Policy, store: Session, req: Request, beat: Beat) returns (reply: Reply)
    requires IsTransaction(req) && Inv(p, store.View())
    modifies store
    ensures (store.View(), reply) == Attempt(p, Run(p, old(store.View()), beat.before), req, beat.fate)
    ensures Inv(p, store.View())
  {
    AttemptRecorded(p, store.View(), beat.before, req, beat.fate);
    RunKeepsInv(p, store.View(), beat.before);
    InvTyped(p, Run(p, store.View(), beat.before));
    store.Become(Run(p, store.View(), beat.before));
    reply := AttemptOnce(p, store, req, beat.fate);
  }

  /**
   * Runs the work in at most three transactions, again only after a transient error or an unknown
   * commit result. `beats(n)` says what other clients do before attempt n and how it ends.
   */
  method WithTransaction(p: Policy, store: Session, req: Request, beats: nat -> Beat) returns (reply: Reply)
    requires IsTransaction(req) && Inv(p, store.View())
    modifies store
    ensures store.View() == Call(p, old(store.View()), req, beats).db
    ensures reply == Call(p, old(store.View()), req, beats).reply
    ensures Inv(p, store.View())
  {
    hide Inv, Attempt, Run;
    ghost var outcome := Call(p, store.View(), req, beats);
    var attempt := 0;
    reply := Threw(Driver({}));
    while attempt < MAX_ATTEMPTS
      invariant 0 <= attempt < MAX_ATTEMPTS
      invariant Inv(p, store.View())
      invariant Loop(p, store.View(), req, beats, attempt, MAX_ATTEMPTS) == outcome
    {
      attempt := attempt + 1;
      reply := AttemptAfterOthers(p, store, req, beats(attempt - 1));
      if reply.Returned? {
        return reply;
      }
      if !IsRetryable(reply.failure) || attempt >= MAX_ATTEMPTS {
        return reply;
      }
    }
  }
}
