/** The Redis lock around scheduled jobs: a timed protocol over one shared key-value store. */
module DistributedLock {
  import opened Prelude

  // ---------------------------------------------------------------- the store

  /** A value set with a time to live; the store forgets it at `expiresAt`. */
  datatype Stored = Stored(token: nat, expiresAt: nat)

  datatype Redis = Redis(now: nat, store: map<string, Stored>)

  predicate Live(r: Redis, key: string) {
    key in r.store && r.now < r.store[key].expiresAt
  }

  /** SET key token PX ttl NX: takes effect only while no live value is there; a ttl of zero is an error. */
  function SetNxPx(r: Redis, key: string, token: nat, ttl: nat): Redis {
    if ttl == 0 || Live(r, key) then r else r.(store := r.store[key := Stored(token, r.now + ttl)])
  }

  /** The release script: deletes the key only if it still holds this token. */
  function CompareAndDelete(r: Redis, key: string, token: nat): Redis {
    if Live(r, key) && r.store[key].token == token then r.(store := r.store - {key}) else r
  }

  /** The commands clients send, and the passing of time. */
  datatype Command = Set(key: string, token: nat, ttl: nat) | Release(key: string, token: nat) | Wait(ms: nat)

  function Apply(r: Redis, c: Command): Redis {
    match c
    case Set(key, token, ttl) => SetNxPx(r, key, token, ttl)
    case Release(key, token) => CompareAndDelete(r, key, token)
    case Wait(ms) => r.(now := r.now + ms)
  }

  function ApplyCommands(r: Redis, cs: seq<Command>): Redis {
    if cs == [] then r else Apply(ApplyCommands(r, cs[..|cs| - 1]), cs[|cs| - 1])
  }

  // ---------------------------------------------------------------- lock calls over time

  /** A call of `withLock` that got the lock and has not released it. */
  datatype Hold = Hold(key: string, token: nat, acquiredAt: nat, ttl: nat, working: bool)

  /** `calls` are the calls in progress; `used` the tokens drawn so far, which are never drawn again. */
  datatype World = World(redis: Redis, calls: map<nat, Hold>, used: set<nat>)

  const START := World(Redis(0, map[]), map[], {})

  /**
   * `Call` draws a fresh token and tries to set the key; `Finish` ends the work, by a result or an
   * exception; then comes the release, which reaches the store or is lost. `AcquireLost` is a call
   * whose SET was carried out although its reply never arrived.
   */
  datatype Event =
    | Tick(ms: nat)
    | Call(id: nat, key: string, ttl: nat, token: nat)
    | AcquireLost(key: string, ttl: nat, token: nat)
    | Finish(id: nat)
    | ReleaseCall(id: nat)
    | ReleaseLost(id: nat)

  /** An event that cannot happen in `w` changes nothing. */
  function Step(w: World, e: Event): World {
    match e
    case Tick(ms) => w.(redis := Apply(w.redis, Wait(ms)))
    case Call(id, key, ttl, token) =>
      if id in w.calls || token in w.used then w
      else
        var redis := SetNxPx(w.redis, key, token, ttl);
        if ttl == 0 || Live(w.redis, key) then w.(used := w.used + {token})
        else World(redis, w.calls[id := Hold(key, token, w.redis.now, ttl, true)], w.used + {token})
    case AcquireLost(key, ttl, token) =>
      if token in w.used then w
      else w.(redis := SetNxPx(w.redis, key, token, ttl), used := w.used + {token})
    case Finish(id) =>
      if id in w.calls then w.(calls := w.calls[id := w.calls[id].(working := false)]) else w
    case ReleaseCall(id) =>
      if id in w.calls && !w.calls[id].working
      then w.(redis := CompareAndDelete(w.redis, w.calls[id].key, w.calls[id].token), calls := w.calls - {id})
      else w
    case ReleaseLost(id) =>
      if id in w.calls && !w.calls[id].working then w.(calls := w.calls - {id}) else w
  }

  function Run(es: seq<Event>): World {
    if es == [] then START else Step(Run(es[..|es| - 1]), es[|es| - 1])
  }

  /** The call's time to live has not run out. */
  predicate InTime(w: World, h: Hold) {
    w.redis.now < h.acquiredAt + h.ttl
  }

  predicate Owns(w: World, h: Hold) {
    h.key in w.redis.store && w.redis.store[h.key] == Stored(h.token, h.acquiredAt + h.ttl)
  }

  ghost predicate Inv(w: World) {
    (forall id :: id in w.calls ==> HoldOk(w, w.calls[id])) && AllApart(w)
  }

  /** The token is drawn, the time is past, and the token is stored while the call is in time. */
  predicate HoldOk(w: World, h: Hold) {
    h.token in w.used && h.ttl >= 1 && h.acquiredAt <= w.redis.now && (InTime(w, h) ==> Owns(w, h))
  }

  ghost predicate AllApart(w: World) {
    forall i, j :: i in w.calls && j in w.calls && i != j ==> Apart(w.calls[i], w.calls[j])
  }

  /** Different tokens, and under the same key one call's time to live was over before the other acquired. */
  predicate Apart(g: Hold, h: Hold) {
    && g.token != h.token
    && (g.key == h.key ==> g.acquiredAt + g.ttl <= h.acquiredAt || h.acquiredAt + h.ttl <= g.acquiredAt)
  }

  /** An event leaves a hold that stays as good as it was, whether or not its work finishes. */
  lemma HoldStaysOk(w: World, e: Event, id: nat)
    requires Inv(w) && id in w.calls && id in Step(w, e).calls
    ensures Step(w, e).calls[id] == w.calls[id].(working := Step(w, e).calls[id].working)
    ensures HoldOk(Step(w, e), Step(w, e).calls[id])
  {
    assert HoldOk(w, w.calls[id]);
    if e.ReleaseCall? && e.id in w.calls && e.id != id {
      assert Apart(w.calls[e.id], w.calls[id]);
    }
  }

  /** A new hold is stored, and begins when every other hold on its key is over. */
  lemma NewHoldOk(w: World, e: Event, id: nat)
    requires Inv(w) && id !in w.calls && id in Step(w, e).calls
    ensures HoldOk(Step(w, e), Step(w, e).calls[id])
    ensures forall j :: j in w.calls ==> j in Step(w, e).calls && Step(w, e).calls[j] == w.calls[j] && Apart(w.calls[j], Step(w, e).calls[id])
  {
    forall j | j in w.calls ensures Apart(w.calls[j], Step(w, e).calls[id]) {
      assert HoldOk(w, w.calls[j]);
    }
  }

  lemma StepKeepsInv(w: World, e: Event)
    requires Inv(w)
    ensures Inv(Step(w, e))
  {
    var w' := Step(w, e);
    forall id | id in w'.calls ensures HoldOk(w', w'.calls[id]) {
      if id in w.calls {
        HoldStaysOk(w, e, id);
      } else {
        NewHoldOk(w, e, id);
      }
    }
    forall i, j | i in w'.calls && j in w'.calls && i != j ensures Apart(w'.calls[i], w'.calls[j]) {
      if i in w.calls && j in w.calls {
        HoldStaysOk(w, e, i);
        HoldStaysOk(w, e, j);
        assert Apart(w.calls[i], w.calls[j]);
      } else if i in w.calls {
        NewHoldOk(w, e, j);
      } else {
        NewHoldOk(w, e, i);
      }
    }
  }

  /** Ownership: in every reachable state, a call that is in time and has not released is the one whose token is stored. */
  lemma {:induction false} Ownership(es: seq<Event>)
    ensures Inv(Run(es))
  {
    if es != [] {
      Ownership(es[..|es| - 1]);
      StepKeepsInv(Run(es[..|es| - 1]), es[|es| - 1]);
    }
  }

  /**
   * Mutual exclusion: whenever two calls work under the same key, the one that acquired first has
   * outlived its time to live, and did so before the other acquired.
   */
  lemma OverlapNeedsOverrun(es: seq<Event>, i: nat, j: nat)
    requires i != j && BothAtWork(Run(es), i, j)
    ensures var w := Run(es);
      || (!InTime(w, w.calls[i]) && w.calls[i].acquiredAt + w.calls[i].ttl <= w.calls[j].acquiredAt)
      || (!InTime(w, w.calls[j]) && w.calls[j].acquiredAt + w.calls[j].ttl <= w.calls[i].acquiredAt)
  {
    Ownership(es);
    var w := Run(es);
    assert Apart(w.calls[i], w.calls[j]) && HoldOk(w, w.calls[i]) && HoldOk(w, w.calls[j]);
  }

  /** In every state of the run, whoever works is in time. */
  predicate Timely(es: seq<Event>) {
    forall n :: 0 <= n <= |es| ==> AllInTime(Run(es[..n]))
  }

  predicate AllInTime(w: World) {
    forall id :: id in w.calls && w.calls[id].working ==> InTime(w, w.calls[id])
  }

  predicate Exclusive(w: World) {
    forall i, j :: i in w.calls && j in w.calls && w.calls[i].working && w.calls[j].working && w.calls[i].key == w.calls[j].key ==> i == j
  }

  /** If every call finishes within its time to live, no two ever work under the same key at once. */
  lemma NeverTwoAtWork(es: seq<Event>, n: nat)
    requires Timely(es) && n <= |es|
    ensures Exclusive(Run(es[..n]))
  {
    var w := Run(es[..n]);
    Ownership(es[..n]);
    assert AllInTime(w);
    forall i, j | i in w.calls && j in w.calls && i != j && w.calls[i].working && w.calls[j].working
      ensures w.calls[i].key != w.calls[j].key
    {
      assert Apart(w.calls[i], w.calls[j]) && HoldOk(w, w.calls[i]) && HoldOk(w, w.calls[j]);
    }
  }

  /** A call that finishes and releases in time leaves its key to the next caller at once. */
  lemma ReleasedIsFree(es: seq<Event>, i: nat, j: nat, ttl: nat, token: nat)
    requires i in Run(es).calls && InTime(Run(es), Run(es).calls[i])
    requires j != i && j !in Run(es).calls && token !in Run(es).used && ttl >= 1
    ensures var w := Run(es);
      var w' := Run(es + [Finish(i), ReleaseCall(i), Call(j, w.calls[i].key, ttl, token)]);
      && w'.calls == (w.calls - {i})[j := Hold(w.calls[i].key, token, w.redis.now, ttl, true)]
      && w'.redis.now == w.redis.now
      && w'.redis.store == w.redis.store[w.calls[i].key := Stored(token, w.redis.now + ttl)]
  {
    var w := Run(es);
    Ownership(es);
    assert HoldOk(w, w.calls[i]);
    var a, b, c := Finish(i), ReleaseCall(i), Call(j, w.calls[i].key, ttl, token);
    RunStep(es, a);
    RunStep(es + [a], b);
    RunStep(es + [a] + [b], c);
    assert es + [a, b, c] == es + [a] + [b] + [c];
    var key := w.calls[i].key;
    assert (w.redis.store - {key})[key := Stored(token, w.redis.now + ttl)] == w.redis.store[key := Stored(token, w.redis.now + ttl)];
    assert w.calls[i := w.calls[i].(working := false)] - {i} == w.calls - {i};
  }

  /** A release that is lost ends the call and leaves its token to expire: until then every caller is turned away. */
  lemma LostReleaseBlocks(es: seq<Event>, i: nat, wait: nat, j: nat, ttl: nat, token: nat)
    requires i in Run(es).calls && InTime(Run(es), Run(es).calls[i])
    requires j != i && j !in Run(es).calls && token !in Run(es).used && ttl >= 1
    ensures var w := Run(es);
      var h := w.calls[i];
      var w' := Run(es + [Finish(i), ReleaseLost(i), Tick(wait), Call(j, h.key, ttl, token)]);
      && i !in w'.calls
      && (j in w'.calls <==> h.acquiredAt + h.ttl <= w.redis.now + wait)
      && (j !in w'.calls ==> w'.redis.store == w.redis.store)
  {
    var w := Run(es);
    Ownership(es);
    assert HoldOk(w, w.calls[i]);
    var a, b, c, d := Finish(i), ReleaseLost(i), Tick(wait), Call(j, w.calls[i].key, ttl, token);
    RunStep(es, a);
    RunStep(es + [a], b);
    RunStep(es + [a] + [b], c);
    RunStep(es + [a] + [b] + [c], d);
    assert es + [a, b, c, d] == es + [a] + [b] + [c] + [d];
  }

  /** A SET that took effect without its reply arriving blocks the key for its time to live, though no call holds it. */
  lemma LostAcquireBlocks(es: seq<Event>, key: string, ttl: nat, token: nat, wait: nat, j: nat, ttl': nat, token': nat)
    requires !Live(Run(es).redis, key) && ttl >= 1 && token !in Run(es).used
    requires j !in Run(es).calls && ttl' >= 1 && token' !in Run(es).used && token' != token
    ensures var w' := Run(es + [AcquireLost(key, ttl, token), Tick(wait), Call(j, key, ttl', token')]);
      j in w'.calls <==> ttl <= wait
  {
    var a, b, c := AcquireLost(key, ttl, token), Tick(wait), Call(j, key, ttl', token');
    ThreeEvents(es, a, b, c);
    var w := Run(es);
    hide Run;
    var w1 := Step(w, a);
    assert w1.redis == Redis(w.redis.now, w.redis.store[key := Stored(token, w.redis.now + ttl)]) && w1.calls == w.calls;
    var w2 := Step(w1, b);
    assert w2.redis == Redis(w.redis.now + wait, w1.redis.store) && w2.calls == w.calls && w2.used == w.used + {token};
    assert Live(w2.redis, key) <==> wait < ttl;
  }

  lemma ThreeEvents(es: seq<Event>, a: Event, b: Event, c: Event)
    ensures Run(es + [a, b, c]) == Step(Step(Step(Run(es), a), b), c)
  {
    hide Step;
    RunStep(es, a);
    RunStep(es + [a], b);
    RunStep(es + [a] + [b], c);
    assert es + [a, b, c] == es + [a] + [b] + [c];
  }

  // ---------------------------------------------------------------- when exactly a call can be joined

  lemma RunStep(es: seq<Event>, e: Event)
    ensures Run(es + [e]) == Step(Run(es), e)
  {
    assert (es + [e])[..|es|] == es;
  }

  /** After `more`, call `i` still works on the hold it has now, and a newcomer works beside it. */
  predicate Joined(es: seq<Event>, more: seq<Event>, i: nat, j: nat) {
    && i in Run(es).calls && i in Run(es + more).calls && Run(es + more).calls[i] == Run(es).calls[i]
    && j !in Run(es).calls && BothAtWork(Run(es + more), i, j)
  }

  predicate JoinedAt(es: seq<Event>, more: seq<Event>, i: nat, j: nat, time: nat) {
    Joined(es, more, i, j) && Run(es + more).redis.now == time
  }

  lemma {:induction false} Unused(s: set<nat>) returns (n: nat)
    ensures forall m :: m in s ==> m < n
  {
    if s == {} {
      n := 0;
    } else {
      var x :| x in s;
      var below := Unused(s - {x});
      n := if below <= x then x + 1 else below;
      assert forall m :: m in s ==> m == x || m in s - {x};
    }
  }

  /** Once the stored value is waited out, a newcomer gets the lock whoever else still works. */
  lemma LetIn(es: seq<Event>, i: nat, wait: nat, rest: nat) returns (more: seq<Event>, j: nat)
    requires i in Run(es).calls && Run(es).calls[i].working
    requires !Live(Step(Run(es), Tick(wait)).redis, Run(es).calls[i].key)
    ensures JoinedAt(es, more, i, j, Run(es).redis.now + wait + rest)
  {
    var w := Run(es);
    j := Unused(w.calls.Keys);
    var token := Unused(w.used);
    var a, b, c := Tick(wait), Call(j, w.calls[i].key, 1, token), Tick(rest);
    RunStep(es, a);
    RunStep(es + [a], b);
    RunStep(es + [a] + [b], c);
    more := [a, b, c];
    assert es + more == es + [a] + [b] + [c];
  }

  /** The time to live is needed, in every run: a call that outlives it can be joined by another. */
  lemma OverrunLetsAnotherIn(es: seq<Event>, i: nat)
    requires i in Run(es).calls && Run(es).calls[i].working && !InTime(Run(es), Run(es).calls[i])
    ensures exists more, j :: Joined(es, more, i, j)
  {
    var r, key := Run(es).redis, Run(es).calls[i].key;
    var wait := if Live(r, key) then r.store[key].expiresAt - r.now else 0;
    var more, j := LetIn(es, i, wait, 0);
    assert Joined(es, more, i, j);
  }

  /** A hold is either one there was before, or was acquired since. */
  lemma {:induction false} OldOrNew(es: seq<Event>, more: seq<Event>, j: nat)
    ensures Run(es).redis.now <= Run(es + more).redis.now
    ensures j in Run(es + more).calls ==>
      j in Run(es).calls || Run(es).redis.now <= Run(es + more).calls[j].acquiredAt <= Run(es + more).redis.now
  {
    if more == [] {
      assert es + more == es;
    } else {
      var front, e := more[..|more| - 1], more[|more| - 1];
      OldOrNew(es, front, j);
      RunStep(es + front, e);
      assert es + more == es + front + [e];
    }
  }

  /**
   * The exact condition, for every call at work in time in every run: it can still be at work at some
   * time with a newcomer beside it, exactly when its time to live is over by then.
   */
  lemma JoinedExactlyAfterDeadline(es: seq<Event>, i: nat, time: nat)
    requires i in Run(es).calls && Run(es).calls[i].working && InTime(Run(es), Run(es).calls[i])
    ensures (exists more, j :: JoinedAt(es, more, i, j, time)) <==>
            Run(es).calls[i].acquiredAt + Run(es).calls[i].ttl <= time
  {
    var w := Run(es);
    var h := w.calls[i];
    Ownership(es);
    assert HoldOk(w, h);
    if h.acquiredAt + h.ttl <= time {
      var wait := h.acquiredAt + h.ttl - w.redis.now;
      var more, j := LetIn(es, i, wait, time - (h.acquiredAt + h.ttl));
      assert JoinedAt(es, more, i, j, time);
    }
    forall more, j | JoinedAt(es, more, i, j, time)
      ensures h.acquiredAt + h.ttl <= time
    {
      var w' := Run(es + more);
      Ownership(es + more);
      OldOrNew(es, more, j);
      assert HoldOk(w', w'.calls[j]) && Apart(w'.calls[i], w'.calls[j]);
    }
  }

  /** Such calls occur: a run in which a call outlives its time to live and another works beside it. */
  lemma OverrunOccurs()
    ensures exists es, i, j :: i != j && BothAtWork(Run(es), i, j)
  {
    var e := Call(0, "job", 10, 1);
    RunStep([], e);
    assert [] + [e] == [e];
    JoinedExactlyAfterDeadline([e], 0, 10);
    var more, j :| JoinedAt([e], more, 0, j, 10);
    assert BothAtWork(Run([e] + more), 0, j);
  }

  predicate BothAtWork(w: World, i: nat, j: nat) {
    i in w.calls && j in w.calls && w.calls[i].working && w.calls[j].working && w.calls[i].key == w.calls[j].key
  }

  /** A release, however late, leaves every key alone that holds another call's token. */
  lemma ReleaseSparesOthers(es: seq<Event>, id: nat, other: nat, key: string)
    requires id in Run(es).calls && !Run(es).calls[id].working
    ensures var w, w' := Run(es), Step(Run(es), ReleaseCall(id));
      && (other != id && other in w.calls && InTime(w, w.calls[other]) ==> other in w'.calls && Owns(w', w.calls[other]))
      && (key in w.redis.store && !(key in w'.redis.store && w'.redis.store[key] == w.redis.store[key]) ==>
          key == w.calls[id].key && w.redis.store[key].token == w.calls[id].token)
  {
    Ownership(es);
    var w := Run(es);
    if other in w.calls && other != id {
      assert Apart(w.calls[id], w.calls[other]) && HoldOk(w, w.calls[other]);
    }
  }

  // ---------------------------------------------------------------- the client code

  /** The store as clients see it. */
  class Server {
    var now: nat
    var store: map<string, Stored>

    constructor ()
      ensures View() == Redis(0, map[])
    {
      now, store := 0, map[];
    }

    function View(): Redis
      reads this
    {
      Redis(now, store)
    }

    /** SET PX NX: an error for a ttl of zero, otherwise whether the value was set. */
    method SetIfAbsent(key: string, token: nat, ttl: nat) returns (r: Result<bool, string>)
      modifies this`store
      ensures View() == SetNxPx(old(View()), key, token, ttl)
      ensures r.Err? <==> ttl == 0
      ensures r.Ok? ==> r.value == !Live(old(View()), key)
    {
      if ttl == 0 {
        return Err("invalid expire time");
      }
      if key in store && now < store[key].expiresAt {
        return Ok(false);
      }
      store := store[key := Stored(token, now + ttl)];
      return Ok(true);
    }

    /** The compare-and-delete script. */
    method EvalRelease(key: string, token: nat)
      modifies this`store
      ensures View() == CompareAndDelete(old(View()), key, token)
    {
      if key in store && now < store[key].expiresAt && store[key].token == token {
        store := store - {key};
      }
    }

    /** What others do while this client works. */
    method Elapse(cs: seq<Command>)
      modifies this
      ensures View() == ApplyCommands(old(View()), cs)
    {
      var r := ApplyCommands(View(), cs);
      now, store := r.now, r.store;
    }
  }

  /** What the guarded work gives back: a result or an exception, after others' commands. */
  datatype Job<T> = Job(meanwhile: seq<Command>, result: Result<T, string>)

  /** What becomes of a command: it is answered, it never reaches the store, or its reply is lost. */
  datatype Delivery = Answered | NeverSent | ReplyLost

  datatype LockOutcome<T> = NotAcquired | Returned(value: T) | Threw(error: string)

  const CONNECTION := "connection lost"

  /** Nobody else ever uses this token. */
  predicate NotUsedBy(cs: seq<Command>, token: nat) {
    forall i :: 0 <= i < |cs| && !cs[i].Wait? ==> cs[i].token != token
  }

  predicate NotStored(r: Redis, token: nat) {
    forall key :: key in r.store ==> r.store[key].token != token
  }

  method Acquire(server: Server, key: string, ttl: nat, token: nat, delivery: Delivery) returns (r: Result<bool, string>)
    modifies server`store
    ensures server.View() == if delivery.NeverSent? then old(server.View()) else SetNxPx(old(server.View()), key, token, ttl)
    ensures r.Ok? <==> delivery.Answered? && ttl > 0
    ensures r.Ok? ==> r.value == !Live(old(server.View()), key)
  {
    if delivery.NeverSent? {
      return Err(CONNECTION);
    }
    r := server.SetIfAbsent(key, token, ttl);
    if delivery.ReplyLost? {
      r := Err(CONNECTION);
    }
  }

  method Release(server: Server, key: string, token: nat, delivery: Delivery) returns (ok: bool)
    modifies server`store
    ensures server.View() == if delivery.NeverSent? then old(server.View()) else CompareAndDelete(old(server.View()), key, token)
    ensures ok <==> delivery.Answered?
  {
    if !delivery.NeverSent? {
      server.EvalRelease(key, token);
    }
    ok := delivery.Answered?;
  }

  /**
   * Runs the job under the lock, whatever becomes of the two commands. The job runs only with the
   * lock; its result or exception is passed on unless the release fails, whose error then replaces
   * it. Afterwards the token is gone, or, if a message was lost, is only where it was set and
   * expires when it would have anyway.
   */
  method WithLock<T>(server: Server, key: string, ttl: nat, token: nat, job: Job<T>, acquire: Delivery, release: Delivery)
    returns (r: LockOutcome<T>)
    requires NotUsedBy(job.meanwhile, token) && NotStored(server.View(), token)
    modifies server
    ensures
      var before, ran := old(server.View()), acquire.Answered? && ttl > 0 && !Live(old(server.View()), key);
      && (r == NotAcquired <==> acquire.Answered? && ttl > 0 && Live(before, key))
      && (ran && release.Answered? ==> r == if job.result.Ok? then Returned(job.result.value) else Threw(job.result.error))
      && (ran && !release.Answered? ==> r == Threw(CONNECTION))
      && (!ran && r != NotAcquired ==> r.Threw?)
      && (ran && !release.NeverSent? ==>
          server.View() == CompareAndDelete(ApplyCommands(SetNxPx(before, key, token, ttl), job.meanwhile), key, token))
      && (ran && release.NeverSent? ==> server.View() == ApplyCommands(SetNxPx(before, key, token, ttl), job.meanwhile))
      && (!ran ==> server.View() == if acquire.ReplyLost? then SetNxPx(before, key, token, ttl) else before)
    ensures !acquire.ReplyLost? && !release.NeverSent? ==>
      forall k :: Live(server.View(), k) ==> server.View().store[k].token != token
    ensures OnlyAt(server.View(), key, token, old(server.now) + ttl)
  {
    var acquired := Acquire(server, key, ttl, token, acquire);
    if acquired.Err? {
      return Threw(acquired.error);
    }
    if !acquired.value {
      return NotAcquired;
    }
    OthersKeepOff(server.View(), job.meanwhile, key, token, server.now + ttl);
    server.Elapse(job.meanwhile);
    var released := Release(server, key, token, release);
    if !released {
      return Threw(CONNECTION);
    }
    return if job.result.Ok? then Returned(job.result.value) else Threw(job.result.error);
  }

  /** The token is stored under no other key, and there only with this expiry. */
  predicate OnlyAt(r: Redis, key: string, token: nat, expiry: nat) {
    forall k :: k in r.store && r.store[k].token == token ==> k == key && r.store[k].expiresAt == expiry
  }

  lemma {:induction false} OthersKeepOff(r: Redis, cs: seq<Command>, key: string, token: nat, expiry: nat)
    requires OnlyAt(r, key, token, expiry) && NotUsedBy(cs, token)
    ensures OnlyAt(ApplyCommands(r, cs), key, token, expiry)
  {
    if cs != [] {
      OthersKeepOff(r, cs[..|cs| - 1], key, token, expiry);
    }
  }
}
