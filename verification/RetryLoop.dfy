/**
 * The bounded retry loop around a posting transaction, with commits whose acknowledgement is lost,
 * and a client that resends.
 */
module RetryLoop {
  import opened Prelude
  import opened Ledger
  import opened Documents
  import opened Posting
  import opened Invariants
  import opened ExactlyOnce

  const MAX_ATTEMPTS: nat := 3

  datatype Label = TransientTransactionError | UnknownTransactionCommitResult

  /** An application error carries no label; a driver error carries those the driver gave it. */
  datatype Failure = Application(error: Error) | Driver(labels: set<Label>)

  predicate HasErrorLabel(f: Failure, l: Label) {
    f.Driver? && l in f.labels
  }

  predicate IsRetryable(f: Failure) {
    HasErrorLabel(f, TransientTransactionError) || HasErrorLabel(f, UnknownTransactionCommitResult)
  }

  /**
   * How the driver ends one attempt: it aborts, whatever the body did; or it commits and says so;
   * or the commit's result is unknown, and it may or may not have been applied.
   */
  datatype Fate = Abort(labels: set<Label>) | Acknowledged | Unknown(applied: bool)

  /** One attempt of a call: what other clients commit before it, and how it ends. */
  datatype Beat = Beat(before: seq<Request>, fate: Fate)

  datatype Reply = Returned(ref: nat) | Threw(failure: Failure)

  datatype CallOutcome = CallOutcome(db: Db, reply: Reply, attempts: nat)

  function Attempt(p: Policy, db: Db, req: Request, fate: Fate): (Db, Reply) {
    if fate.Abort? then (db, Threw(Driver(fate.labels)))
    else
      match Handle(p, db, req)
      case Failed(error) => (db, Threw(Application(error)))
      case Done(db', ref) =>
        if fate.Acknowledged? then (db', Returned(ref))
        else (if fate.applied then db' else db, Threw(Driver({UnknownTransactionCommitResult})))
  }

  /**
   * The loop after `attempt` attempts: one more, and again after a retryable failure until the
   * counter reaches `limit`. `beats(n)` is what attempt n meets; beats have no end, the loop has.
   */
  function Loop(p: Policy, db: Db, req: Request, beats: nat -> Beat, attempt: nat, limit: nat): CallOutcome
    requires attempt < limit
    decreases limit - attempt
  {
    var (db', reply) := Attempt(p, Run(p, db, beats(attempt).before), req, beats(attempt).fate);
    if reply.Threw? && IsRetryable(reply.failure) && attempt + 1 < limit
    then Loop(p, db', req, beats, attempt + 1, limit)
    else CallOutcome(db', reply, attempt + 1)
  }

  function Call(p: Policy, db: Db, req: Request, beats: nat -> Beat): CallOutcome {
    Loop(p, db, req, beats, 0, MAX_ATTEMPTS)
  }

  /** What one attempt commits. */
  function Own(p: Policy, db: Db, req: Request, fate: Fate): seq<Request> {
    if Handle(p, db, req).Done? && (fate.Acknowledged? || (fate.Unknown? && fate.applied)) then [req] else []
  }

  lemma AttemptIsRun(p: Policy, db: Db, before: seq<Request>, req: Request, fate: Fate)
    ensures Attempt(p, Run(p, db, before), req, fate).0 ==
            Run(p, db, before + Own(p, Run(p, db, before), req, fate))
  {
    hide Handle, Run;
    RunOneMore(p, db, before, req);
    assert before + [] == before;
  }

  lemma RunOneMore(p: Policy, db: Db, reqs: seq<Request>, req: Request)
    ensures Run(p, db, reqs + [req]) == Next(p, Run(p, db, reqs), req)
  {
    hide Next;
    assert (reqs + [req])[..|reqs|] == reqs;
  }

  // ---------------------------------------------------------------- how many attempts, and which

  /** The state after `n` attempts, if attempts simply went on. */
  function AfterAttempts(p: Policy, db: Db, req: Request, beats: nat -> Beat, n: nat): Db
    decreases n, 0
  {
    if n == 0 then db else AttemptNumber(p, db, req, beats, n - 1).0
  }

  /** Attempt number `n`, counting from zero. */
  function AttemptNumber(p: Policy, db: Db, req: Request, beats: nat -> Beat, n: nat): (Db, Reply)
    decreases n, 1
  {
    Attempt(p, Run(p, AfterAttempts(p, db, req, beats, n), beats(n).before), req, beats(n).fate)
  }

  predicate WantsRetry(reply: Reply) {
    reply.Threw? && IsRetryable(reply.failure)
  }

  lemma {:induction false} LoopFrom(p: Policy, db: Db, req: Request, beats: nat -> Beat, attempt: nat, limit: nat)
    requires attempt < limit
    ensures
      var out := Loop(p, AfterAttempts(p, db, req, beats, attempt), req, beats, attempt, limit);
      && attempt < out.attempts <= limit
      && (out.db, out.reply) == AttemptNumber(p, db, req, beats, out.attempts - 1)
      && (forall n: nat :: attempt <= n < out.attempts - 1 ==> WantsRetry(AttemptNumber(p, db, req, beats, n).1))
      && (out.attempts < limit ==> !WantsRetry(out.reply))
    decreases limit - attempt
  {
    hide Attempt, Run, IsRetryable;
    if WantsRetry(AttemptNumber(p, db, req, beats, attempt).1) && attempt + 1 < limit {
      LoopFrom(p, db, req, beats, attempt + 1, limit);
    }
  }

  /**
   * A call makes at least one and at most three attempts, although the beats never end. It stops at
   * the first attempt that does not ask for a retry, or at the third, and answers what that attempt did.
   */
  lemma AttemptsBounded(p: Policy, db: Db, req: Request, beats: nat -> Beat)
    ensures
      var out := Call(p, db, req, beats);
      && 1 <= out.attempts <= MAX_ATTEMPTS
      && (out.db, out.reply) == AttemptNumber(p, db, req, beats, out.attempts - 1)
      && (forall n: nat :: n < out.attempts - 1 ==> WantsRetry(AttemptNumber(p, db, req, beats, n).1))
      && (out.attempts < MAX_ATTEMPTS ==> !WantsRetry(out.reply))
  {
    LoopFrom(p, db, req, beats, 0, MAX_ATTEMPTS);
  }

  // ---------------------------------------------------------------- retrying, in terms of fates and labels

  /** The state attempt `n` works on. */
  function MetBy(p: Policy, db: Db, req: Request, beats: nat -> Beat, n: nat): Db {
    Run(p, AfterAttempts(p, db, req, beats, n), beats(n).before)
  }

  /** Attempt `n` ends in an abort labelled transient or unknown, or its accepted work is committed without an answer. */
  predicate AsksAgain(p: Policy, db: Db, req: Request, beats: nat -> Beat, n: nat) {
    match beats(n).fate
    case Abort(labels) => TransientTransactionError in labels || UnknownTransactionCommitResult in labels
    case Acknowledged => false
    case Unknown(_) => Handle(p, MetBy(p, db, req, beats, n), req).Done?
  }

  /** What an attempt does and answers, by how the driver ends it and what the request does to the state it meets. */
  lemma AttemptMeaning(p: Policy, db: Db, req: Request, beats: nat -> Beat, n: nat)
    ensures var met, fate := MetBy(p, db, req, beats, n), beats(n).fate;
      AttemptNumber(p, db, req, beats, n) ==
        if fate.Abort? then (met, Threw(Driver(fate.labels)))
        else match Handle(p, met, req)
          case Failed(error) => (met, Threw(Application(error)))
          case Done(done, ref) =>
            if fate == Acknowledged then (done, Returned(ref))
            else if fate == Unknown(true) then (done, Threw(Driver({UnknownTransactionCommitResult})))
            else (met, Threw(Driver({UnknownTransactionCommitResult})))
    ensures WantsRetry(AttemptNumber(p, db, req, beats, n).1) <==> AsksAgain(p, db, req, beats, n)
  {
    hide Handle, Run;
  }

  /** A call goes on exactly while its attempts ask for it and fewer than three were made. */
  lemma RetriedExactly(p: Policy, db: Db, req: Request, beats: nat -> Beat, n: nat)
    requires n < 3
    ensures var out := Call(p, db, req, beats);
      && 1 <= out.attempts <= 3
      && (n < out.attempts <==> forall m: nat :: m < n ==> AsksAgain(p, db, req, beats, m))
      && (out.db, out.reply) == AttemptNumber(p, db, req, beats, out.attempts - 1)
  {
    hide AttemptNumber, Loop, AsksAgain, WantsRetry;
    AttemptsBounded(p, db, req, beats);
    var out := Call(p, db, req, beats);
    forall m: nat | m < 3 ensures WantsRetry(AttemptNumber(p, db, req, beats, m).1) <==> AsksAgain(p, db, req, beats, m) {
      AttemptMeaning(p, db, req, beats, m);
    }
    if out.attempts <= n {
      assert !AsksAgain(p, db, req, beats, out.attempts - 1);
    }
  }

  /** A call that gave up before its third attempt met an application error, or a driver error with neither label. */
  lemma GaveUpEarly(p: Policy, db: Db, req: Request, beats: nat -> Beat)
    ensures var out := Call(p, db, req, beats);
      out.attempts < 3 && out.reply.Threw? ==>
        || out.reply.failure.Application?
        || (TransientTransactionError !in out.reply.failure.labels && UnknownTransactionCommitResult !in out.reply.failure.labels)
  {
    hide Handle, Run, Loop, AttemptNumber, AsksAgain;
    AttemptsBounded(p, db, req, beats);
  }

  /** Two attempts that ask again, lost acknowledgements for instance, and one that succeeds: the call returns. */
  lemma ThirdAttemptReturns(p: Policy, db: Db, req: Request, beats: nat -> Beat)
    requires AsksAgain(p, db, req, beats, 0) && AsksAgain(p, db, req, beats, 1)
    requires beats(2).fate.Acknowledged? && Handle(p, MetBy(p, db, req, beats, 2), req).Done?
    ensures var met := MetBy(p, db, req, beats, 2);
      Call(p, db, req, beats) == CallOutcome(Handle(p, met, req).db, Returned(Handle(p, met, req).ref), 3)
  {
    hide Handle, Run, Loop, AsksAgain;
    RetriedExactly(p, db, req, beats, 2);
    AttemptMeaning(p, db, req, beats, 2);
  }

  /** Nothing after the beat of the last attempt the limit allows has any influence on a call. */
  lemma {:induction false} OnlyFirstBeatsMatter(p: Policy, db: Db, req: Request, beats: nat -> Beat, others: nat -> Beat, attempt: nat, limit: nat)
    requires attempt < limit
    requires forall n: nat :: attempt <= n < limit ==> beats(n) == others(n)
    ensures Loop(p, db, req, beats, attempt, limit) == Loop(p, db, req, others, attempt, limit)
    decreases limit - attempt
  {
    hide Attempt, Run;
    assert beats(attempt) == others(attempt);
    var (db', reply) := Attempt(p, Run(p, db, beats(attempt).before), req, beats(attempt).fate);
    if attempt + 1 < limit {
      OnlyFirstBeatsMatter(p, db', req, beats, others, attempt + 1, limit);
    }
  }

  // ---------------------------------------------------------------- what a call commits

  /** The requests the loop commits from attempt number `attempt` on, its own and those of others, in commit order. */
  function Committed(p: Policy, db: Db, req: Request, beats: nat -> Beat, attempt: nat, limit: nat): seq<Request>
    requires attempt < limit
    decreases limit - attempt
  {
    var start := Run(p, db, beats(attempt).before);
    var (db', reply) := Attempt(p, start, req, beats(attempt).fate);
    beats(attempt).before + Own(p, start, req, beats(attempt).fate) +
    (if WantsRetry(reply) && attempt + 1 < limit then Committed(p, db', req, beats, attempt + 1, limit) else [])
  }

  /** A call is nothing but the run of what it commits. */
  lemma {:induction false} CallIsRun(p: Policy, db: Db, req: Request, beats: nat -> Beat, attempt: nat, limit: nat)
    requires attempt < limit
    ensures Loop(p, db, req, beats, attempt, limit).db == Run(p, db, Committed(p, db, req, beats, attempt, limit))
    decreases limit - attempt
  {
    hide Handle, Attempt, Own, Next;
    var beat := beats(attempt);
    var start := Run(p, db, beat.before);
    var (db', reply) := Attempt(p, start, req, beat.fate);
    var now := beat.before + Own(p, start, req, beat.fate);
    AttemptIsRun(p, db, beat.before, req, beat.fate);
    if WantsRetry(reply) && attempt + 1 < limit {
      var later := Committed(p, db', req, beats, attempt + 1, limit);
      assert Committed(p, db, req, beats, attempt, limit) == now + later;
      CallIsRun(p, db', req, beats, attempt + 1, limit);
      RunAppend(p, db, now, later);
    } else {
      assert Committed(p, db, req, beats, attempt, limit) == now + [] == now;
    }
  }

  /** The table has the request's key, payload and this reference. */
  predicate Recorded(db: Db, req: Request, ref: nat)
    requires IsTransaction(req)
  {
    IdemKeyOf(req) in db.table && db.table[IdemKeyOf(req)] == Entry(PayloadOf(req), ref)
  }

  lemma AttemptRecorded(p: Policy, db: Db, before: seq<Request>, req: Request, fate: Fate)
    requires Inv(p, db) && IsTransaction(req)
    ensures var (db', reply) := Attempt(p, Run(p, db, before), req, fate);
      Inv(p, db') && (reply.Returned? ==> Recorded(db', req, reply.ref))
  {
    RunKeepsInv(p, db, before);
    StepKeepsInv(p, Run(p, db, before), req);
    if Handle(p, Run(p, db, before), req).Done? {
      SuccessIsRecorded(p, Run(p, db, before), req);
    }
  }

  /** A call that returns has its key recorded with the reference it returns. */
  lemma {:induction false} ReturnIsRecorded(p: Policy, db: Db, req: Request, beats: nat -> Beat, attempt: nat, limit: nat)
    requires Inv(p, db) && IsTransaction(req) && attempt < limit
    ensures var out := Loop(p, db, req, beats, attempt, limit);
      out.reply.Returned? ==> Recorded(out.db, req, out.reply.ref)
    decreases limit - attempt
  {
    hide Attempt, Run, Inv, Recorded, IsRetryable;
    AttemptRecorded(p, db, beats(attempt).before, req, beats(attempt).fate);
    var (db', reply) := Attempt(p, Run(p, db, beats(attempt).before), req, beats(attempt).fate);
    if WantsRetry(reply) && attempt + 1 < limit {
      ReturnIsRecorded(p, db', req, beats, attempt + 1, limit);
    }
  }

  // ---------------------------------------------------------------- a client that resends

  /** The state after a client has made one call per member of `calls`, all with the same request. */
  function Resend(p: Policy, db: Db, req: Request, calls: seq<nat -> Beat>): Db {
    if calls == [] then db
    else Call(p, Resend(p, db, req, calls[..|calls| - 1]), req, calls[|calls| - 1]).db
  }

  function ResendCommitted(p: Policy, db: Db, req: Request, calls: seq<nat -> Beat>): seq<Request> {
    if calls == [] then []
    else
      ResendCommitted(p, db, req, calls[..|calls| - 1]) +
      Committed(p, Resend(p, db, req, calls[..|calls| - 1]), req, calls[|calls| - 1], 0, MAX_ATTEMPTS)
  }

  lemma {:induction false} ResendIsRun(p: Policy, db: Db, req: Request, calls: seq<nat -> Beat>)
    ensures Resend(p, db, req, calls) == Run(p, db, ResendCommitted(p, db, req, calls))
  {
    hide Loop, Committed;
    if calls != [] {
      var front, last := calls[..|calls| - 1], calls[|calls| - 1];
      ResendIsRun(p, db, req, front);
      var mid := Resend(p, db, req, front);
      CallIsRun(p, mid, req, last, 0, MAX_ATTEMPTS);
      RunAppend(p, db, ResendCommitted(p, db, req, front), Committed(p, mid, req, last, 0, MAX_ATTEMPTS));
    }
  }

  /**
   * Exactly once under lost acknowledgements. A client calls any number of times with one request;
   * attempts abort, commit, or commit without the client learning whether they did, and other
   * clients commit in between. From a state that does not know the key, the body's effect is applied
   * at most once, and exactly once as soon as some call has returned; a call that returned has
   * recorded the reference it gave, so all of them give the same; and no call makes more than three
   * attempts.
   */
  lemma ExactlyOnceUnderRetries(p: Policy, db: Db, req: Request, calls: seq<nat -> Beat>, i: nat)
    requires Inv(p, db) && IsTransaction(req) && IdemKeyOf(req) !in db.table
    requires i < |calls|
    ensures var out := Call(p, Resend(p, db, req, calls[..i]), req, calls[i]);
      out.reply.Returned? ==> Recorded(Resend(p, db, req, calls), req, out.reply.ref)
    ensures Executions(p, db, ResendCommitted(p, db, req, calls), IdemKeyOf(req)) ==
      if IdemKeyOf(req) in Resend(p, db, req, calls).table then 1 else 0
    ensures 1 <= Call(p, Resend(p, db, req, calls[..i]), req, calls[i]).attempts <= MAX_ATTEMPTS
  {
    hide Loop, Committed, AttemptNumber, Inv;
    ResendIsRun(p, db, req, calls);
    ExecutedOnce(p, db, ResendCommitted(p, db, req, calls), IdemKeyOf(req));
    var start := Resend(p, db, req, calls[..i]);
    AttemptsBounded(p, start, req, calls[i]);
    if Call(p, start, req, calls[i]).reply.Returned? {
      ResendIsRun(p, db, req, calls[..i]);
      RunKeepsInv(p, db, ResendCommitted(p, db, req, calls[..i]));
      ReturnIsRecorded(p, start, req, calls[i], 0, MAX_ATTEMPTS);
      ResendKeepsEntry(p, db, req, calls, i);
    }
  }

  lemma {:induction false} ResendKeepsEntry(p: Policy, db: Db, req: Request, calls: seq<nat -> Beat>, i: nat)
    requires i < |calls|
    requires IsTransaction(req) && IdemKeyOf(req) in Call(p, Resend(p, db, req, calls[..i]), req, calls[i]).db.table
    ensures
      var after := Call(p, Resend(p, db, req, calls[..i]), req, calls[i]).db;
      var end := Resend(p, db, req, calls);
      IdemKeyOf(req) in end.table && end.table[IdemKeyOf(req)] == after.table[IdemKeyOf(req)]
  {
    hide Loop, Committed;
    var front, last := calls[..|calls| - 1], calls[|calls| - 1];
    if i == |calls| - 1 {
      assert calls[..i] == front;
    } else {
      assert front[..i] == calls[..i];
      ResendKeepsEntry(p, db, req, front, i);
      var mid := Resend(p, db, req, front);
      CallIsRun(p, mid, req, last, 0, MAX_ATTEMPTS);
      EntriesAreForever(p, mid, Committed(p, mid, req, last, 0, MAX_ATTEMPTS), IdemKeyOf(req));
    }
  }
}
