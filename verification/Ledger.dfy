/**
 * The stock ledger: signed movements, the balance projection they are applied to, and the
 * append-only rows they leave behind.
 *
 * A quantity is an integer number of units of 10^-P, for some number P of decimal places large
 * enough for every quantity of the run under study. Nothing here depends on P.
 */
module Ledger {
  import opened Prelude

  datatype StockState = Available | Quarantine | Damaged | Expired | InTransit

  datatype Key = Key(org: nat, warehouse: nat, location: nat, product: nat, lot: Option<nat>, state: StockState)

  datatype Movement = Movement(key: Key, quantity: int, allowNegative: bool)

  /** What a ledger row was posted for: one of the documents modelled here, or another module. */
  datatype Ref = External | Document(id: nat)

  datatype Row = Row(key: Key, quantity: int, ref: Ref)

  type Balances = map<Key, int>

  datatype Applied = Applied(balances: Balances) | Insufficient

  /** A balance that was never written counts as zero. */
  function OnHand(b: Balances, k: Key): int {
    if k in b then b[k] else 0
  }

  /** One step of the posting loop: zero quantities are skipped, only negative ones are guarded. */
  function ApplyOne(b: Balances, m: Movement): Applied {
    if m.quantity == 0 then Applied(b)
    else if m.quantity > 0 || m.allowNegative then Applied(b[m.key := OnHand(b, m.key) + m.quantity])
    else if m.key in b && b[m.key] >= -m.quantity then Applied(b[m.key := b[m.key] + m.quantity])
    else Insufficient
  }

  /** A whole batch, first movement first; one refused movement refuses the batch. */
  function ApplyAll(b: Balances, ms: seq<Movement>): Applied {
    if ms == [] then Applied(b)
    else
      match ApplyAll(b, ms[..|ms| - 1])
      case Insufficient => Insufficient
      case Applied(b') => ApplyOne(b', ms[|ms| - 1])
  }

  // ---------------------------------------------------------------- meaning of a batch, key by key

  /** The movements of a batch on one key, in batch order. */
  function OnKey(ms: seq<Movement>, k: Key): seq<Movement> {
    if ms == [] then []
    else
      var rest := OnKey(ms[..|ms| - 1], k);
      if ms[|ms| - 1].key == k then rest + [ms[|ms| - 1]] else rest
  }

  function Total(ms: seq<Movement>): int {
    if ms == [] then 0 else Total(ms[..|ms| - 1]) + ms[|ms| - 1].quantity
  }

  /** The net quantity a batch moves on a key. */
  function Net(ms: seq<Movement>, k: Key): int {
    Total(OnKey(ms, k))
  }

  /** Starting from `start`, no guarded withdrawal of `ms` ever takes the running balance below zero. */
  predicate Affordable(start: int, ms: seq<Movement>) {
    ms == [] ||
    (var front := ms[..|ms| - 1];
     var last := ms[|ms| - 1];
     Affordable(start, front) &&
     (last.quantity >= 0 || last.allowNegative || start + Total(ms) >= 0))
  }

  function Touched(ms: seq<Movement>): set<Key> {
    set m | m in ms && m.quantity != 0 :: m.key
  }

  lemma OnKeyLast(ms: seq<Movement>, k: Key)
    requires ms != []
    ensures var front, m := ms[..|ms| - 1], ms[|ms| - 1];
      && OnKey(ms, k) == OnKey(front, k) + (if m.key == k then [m] else [])
      && Net(ms, k) == Net(front, k) + (if m.key == k then m.quantity else 0)
      && (m.key == k ==> OnKey(ms, k) != [] && OnKey(ms, k)[..|OnKey(ms, k)| - 1] == OnKey(front, k))
  {
  }

  /** An accepted batch moves every key by its net quantity and writes exactly the touched keys. */
  lemma {:induction false} ApplyAllEffect(b: Balances, ms: seq<Movement>)
    requires ApplyAll(b, ms).Applied?
    ensures ApplyAll(b, ms).balances.Keys == b.Keys + Touched(ms)
    ensures forall k :: OnHand(ApplyAll(b, ms).balances, k) == OnHand(b, k) + Net(ms, k)
  {
    if ms != [] {
      var front, m := ms[..|ms| - 1], ms[|ms| - 1];
      ApplyAllEffect(b, front);
      assert Touched(ms) == Touched(front) + (if m.quantity != 0 then {m.key} else {});
      forall k ensures OnHand(ApplyAll(b, ms).balances, k) == OnHand(b, k) + Net(ms, k) {
        OnKeyLast(ms, k);
      }
    }
  }

  /** Whether the last movement of a batch is accepted is a matter of its own key. */
  lemma LastAffordable(b: Balances, ms: seq<Movement>, k: Key)
    requires ms != [] && ApplyAll(b, ms[..|ms| - 1]).Applied?
    requires Affordable(OnHand(b, k), OnKey(ms[..|ms| - 1], k))
    ensures Affordable(OnHand(b, k), OnKey(ms, k)) <==> k != ms[|ms| - 1].key || ApplyAll(b, ms).Applied?
  {
    var front, m := ms[..|ms| - 1], ms[|ms| - 1];
    ApplyAllEffect(b, front);
    OnKeyLast(ms, k);
    assert OnHand(ApplyAll(b, front).balances, k) == OnHand(b, k) + Net(front, k);
  }

  /**
   * A batch is accepted exactly when each key can afford its own movements taken alone; an accepted
   * batch moves every key by its net quantity and writes exactly the touched keys.
   */
  lemma {:induction false} ApplyAllMeaning(b: Balances, ms: seq<Movement>)
    ensures ApplyAll(b, ms).Applied? <==> forall k :: Affordable(OnHand(b, k), OnKey(ms, k))
    ensures ApplyAll(b, ms).Applied? ==>
      && ApplyAll(b, ms).balances.Keys == b.Keys + Touched(ms)
      && forall k :: OnHand(ApplyAll(b, ms).balances, k) == OnHand(b, k) + Net(ms, k)
  {
    if ApplyAll(b, ms).Applied? {
      ApplyAllEffect(b, ms);
    }
    if ms != [] {
      var front := ms[..|ms| - 1];
      ApplyAllMeaning(b, front);
      if ApplyAll(b, front).Applied? {
        forall k ensures Affordable(OnHand(b, k), OnKey(ms, k)) <==> k != ms[|ms| - 1].key || ApplyAll(b, ms).Applied? {
          LastAffordable(b, ms, k);
        }
        var last := ms[|ms| - 1].key;
        assert Affordable(OnHand(b, last), OnKey(ms, last)) <==> ApplyAll(b, ms).Applied?;
      } else {
        var k :| !Affordable(OnHand(b, k), OnKey(front, k));
        OnKeyLast(ms, k);
        assert !Affordable(OnHand(b, k), OnKey(ms, k));
      }
    }
  }

  lemma {:induction false} TouchedByKey(ms: seq<Movement>, k: Key)
    ensures k in Touched(ms) <==> exists m :: m in OnKey(ms, k) && m.quantity != 0
    ensures forall m :: m in OnKey(ms, k) <==> m in ms && m.key == k
  {
    if ms != [] {
      TouchedByKey(ms[..|ms| - 1], k);
      assert ms == ms[..|ms| - 1] + [ms[|ms| - 1]];
    }
  }

  /** Two batches with the same movements in the same order on every single key. */
  ghost predicate SameByKey(ms: seq<Movement>, ns: seq<Movement>) {
    forall k :: OnKey(ms, k) == OnKey(ns, k)
  }

  /**
   * The order between different keys decides nothing: neither whether a batch is accepted nor
   * where any balance ends up. In particular the deterministic sorting of a batch is harmless.
   */
  lemma OrderBetweenKeysIrrelevant(b: Balances, ms: seq<Movement>, ns: seq<Movement>)
    requires SameByKey(ms, ns)
    ensures ApplyAll(b, ms) == ApplyAll(b, ns)
  {
    ApplyAllMeaning(b, ms);
    ApplyAllMeaning(b, ns);
    forall k ensures k in Touched(ms) <==> k in Touched(ns) {
      TouchedByKey(ms, k);
      TouchedByKey(ns, k);
    }
    assert Touched(ms) == Touched(ns);
    if ApplyAll(b, ms).Applied? {
      SameOnHandSameBalances(ApplyAll(b, ms).balances, ApplyAll(b, ns).balances);
    }
  }

  lemma SameOnHandSameBalances(b: Balances, c: Balances)
    requires b.Keys == c.Keys
    requires forall k :: OnHand(b, k) == OnHand(c, k)
    ensures b == c
  {
    forall k | k in b ensures b[k] == c[k] {
      assert OnHand(b, k) == OnHand(c, k);
    }
  }

  /** Zero movements are no movements: leaving them out of the batch changes nothing. */
  lemma {:induction false} ZeroMovementsIrrelevant(b: Balances, ms: seq<Movement>)
    ensures ApplyAll(b, ms) == ApplyAll(b, NonZero(ms))
  {
    if ms != [] {
      ZeroMovementsIrrelevant(b, ms[..|ms| - 1]);
      var rest := NonZero(ms[..|ms| - 1]);
      if ms[|ms| - 1].quantity != 0 {
        assert (rest + [ms[|ms| - 1]])[..|rest|] == rest;
      }
    }
  }

  function NonZero(ms: seq<Movement>): seq<Movement> {
    if ms == [] then []
    else
      var rest := NonZero(ms[..|ms| - 1]);
      if ms[|ms| - 1].quantity != 0 then rest + [ms[|ms| - 1]] else rest
  }

  /** The part of the balance table a batch writes. */
  function Written(b: Balances, ms: seq<Movement>): Balances
    requires ApplyAll(b, ms).Applied?
  {
    var after := ApplyAll(b, ms).balances;
    map k | k in Touched(ms) && k in after :: after[k]
  }

  /** Writing back only the touched rows gives the same table as the sequential loop. */
  lemma WrittenIsAll(b: Balances, ms: seq<Movement>)
    requires ApplyAll(b, ms).Applied?
    ensures b + Written(b, ms) == ApplyAll(b, ms).balances
    ensures Written(b, ms).Keys == Touched(ms)
  {
    ApplyAllMeaning(b, ms);
    var after := ApplyAll(b, ms).balances;
    forall k | k in b && k !in Touched(ms) ensures after[k] == b[k] {
      TouchedByKey(ms, k);
      ZeroTotal(OnKey(ms, k));
      assert OnHand(after, k) == OnHand(b, k) + Net(ms, k);
    }
    assert b + Written(b, ms) == after;
  }

  lemma {:induction false} ZeroTotal(ms: seq<Movement>)
    requires forall m :: m in ms ==> m.quantity == 0
    ensures Total(ms) == 0
  {
    if ms != [] {
      assert ms[|ms| - 1] in ms;
      ZeroTotal(ms[..|ms| - 1]);
    }
  }

  /** Two tables that agree on the touched keys take a batch the same way. */
  lemma WrittenDependsOnTouchedOnly(b: Balances, c: Balances, ms: seq<Movement>)
    requires forall k :: k in Touched(ms) ==> OnHand(b, k) == OnHand(c, k)
    ensures ApplyAll(b, ms).Applied? <==> ApplyAll(c, ms).Applied?
    ensures ApplyAll(b, ms).Applied? ==> Written(b, ms) == Written(c, ms)
  {
    ApplyAllMeaning(b, ms);
    ApplyAllMeaning(c, ms);
    forall k ensures Affordable(OnHand(b, k), OnKey(ms, k)) <==> Affordable(OnHand(c, k), OnKey(ms, k)) {
      if k !in Touched(ms) {
        UntouchedIsAffordable(OnHand(b, k), ms, k);
        UntouchedIsAffordable(OnHand(c, k), ms, k);
      }
    }
    if ApplyAll(b, ms).Applied? {
      var b', c' := ApplyAll(b, ms).balances, ApplyAll(c, ms).balances;
      forall k | k in Touched(ms) ensures b'[k] == c'[k] {
        assert OnHand(b', k) == OnHand(b, k) + Net(ms, k);
        assert OnHand(c', k) == OnHand(c, k) + Net(ms, k);
      }
    }
  }

  lemma UntouchedIsAffordable(start: int, ms: seq<Movement>, k: Key)
    requires k !in Touched(ms)
    ensures Affordable(start, OnKey(ms, k))
  {
    TouchedByKey(ms, k);
    ZeroIsAffordable(start, OnKey(ms, k));
  }

  lemma {:induction false} ZeroIsAffordable(start: int, ms: seq<Movement>)
    requires forall m :: m in ms ==> m.quantity == 0
    ensures Affordable(start, ms)
  {
    if ms != [] {
      assert ms[|ms| - 1] in ms;
      ZeroIsAffordable(start, ms[..|ms| - 1]);
    }
  }

  /** A key that starts at or above zero stays there unless a movement bypasses the guard. */
  lemma {:induction false} GuardKeepsNonNegative(start: int, ms: seq<Movement>)
    requires start >= 0 && Affordable(start, ms)
    requires forall m :: m in ms ==> !m.allowNegative
    ensures start + Total(ms) >= 0
  {
    if ms != [] {
      assert ms[|ms| - 1] in ms;
      GuardKeepsNonNegative(start, ms[..|ms| - 1]);
    }
  }

  // ---------------------------------------------------------------- the deterministic order

  function StateRank(s: StockState): nat {
    match s
    case Available => 0
    case Quarantine => 1
    case Damaged => 2
    case Expired => 3
    case InTransit => 4
  }

  function LotRank(lot: Option<nat>): nat {
    match lot
    case None => 0
    case Some(id) => id + 1
  }

  /** Order on keys: warehouse, location, product, lot, state. */
  predicate KeyLe(a: Key, b: Key) {
    if a.warehouse != b.warehouse then a.warehouse < b.warehouse
    else if a.location != b.location then a.location < b.location
    else if a.product != b.product then a.product < b.product
    else if a.lot != b.lot then LotRank(a.lot) < LotRank(b.lot)
    else StateRank(a.state) <= StateRank(b.state)
  }

  /** The first of warehouse, location, product, lot and state that differs decides; no lot comes before every lot. */
  lemma FirstDifferenceDecides(a: Key, b: Key)
    ensures a.warehouse < b.warehouse ==> KeyLe(a, b) && !KeyLe(b, a)
    ensures a.warehouse == b.warehouse && a.location < b.location ==> KeyLe(a, b) && !KeyLe(b, a)
    ensures a.warehouse == b.warehouse && a.location == b.location && a.product < b.product ==> KeyLe(a, b) && !KeyLe(b, a)
    ensures
      && a.warehouse == b.warehouse && a.location == b.location && a.product == b.product && b.lot.Some?
      && (a.lot.None? || a.lot.value < b.lot.value)
      ==> KeyLe(a, b) && !KeyLe(b, a)
  {
  }

  /** Two different keys of one organization are ordered one way only. */
  lemma OrderedOneWay(a: Key, b: Key)
    requires a.org == b.org
    ensures KeyLe(a, b) || KeyLe(b, a)
    ensures KeyLe(a, b) && KeyLe(b, a) <==> a == b
  {
  }

  /**
   * Batches that touch the same balance rows of an organization reach them in the same order, so two
   * of them can never wait for each other.
   */
  lemma ConsistentOrder(ms: seq<Movement>, ns: seq<Movement>, i: nat, j: nat, u: nat, v: nat)
    requires i < |ms| && j < |ms| && u < |ns| && v < |ns|
    requires Sort(ms)[i].key == Sort(ns)[u].key && Sort(ms)[j].key == Sort(ns)[v].key
    requires Sort(ms)[i].key != Sort(ms)[j].key && Sort(ms)[i].key.org == Sort(ms)[j].key.org
    ensures i < j <==> u < v
  {
    var a, b := Sort(ms), Sort(ns);
    OrderedOneWay(a[i].key, a[j].key);
    hide KeyLe, Sort;
    assert i < j ==> KeyLe(a[i].key, a[j].key);
    assert j < i ==> KeyLe(a[j].key, a[i].key);
    assert u < v ==> KeyLe(b[u].key, b[v].key);
    assert v < u ==> KeyLe(b[v].key, b[u].key);
  }

  ghost predicate Sorted(ms: seq<Movement>) {
    forall i, j :: 0 <= i < j < |ms| ==> KeyLe(ms[i].key, ms[j].key)
  }

  function Insert(ms: seq<Movement>, m: Movement): (r: seq<Movement>)
    requires Sorted(ms)
    ensures Sorted(r)
    ensures |r| == |ms| + 1
    ensures forall x :: x in r <==> x in ms || x == m
  {
    if ms == [] then [m]
    else if KeyLe(ms[|ms| - 1].key, m.key) then ms + [m]
    else
      var front := ms[..|ms| - 1];
      assert ms == front + [ms[|ms| - 1]];
      var r := Insert(front, m);
      assert forall x :: x in r ==> KeyLe(x.key, ms[|ms| - 1].key);
      r + [ms[|ms| - 1]]
  }

  /** A stable sort by key. */
  function Sort(ms: seq<Movement>): (r: seq<Movement>)
    ensures Sorted(r) && |r| == |ms|
  {
    if ms == [] then [] else Insert(Sort(ms[..|ms| - 1]), ms[|ms| - 1])
  }

  lemma {:induction false} InsertKeepsKeyOrder(ms: seq<Movement>, m: Movement, k: Key)
    requires Sorted(ms)
    ensures OnKey(Insert(ms, m), k) == OnKey(ms, k) + (if m.key == k then [m] else [])
  {
    if ms != [] && !KeyLe(ms[|ms| - 1].key, m.key) {
      var front, last := ms[..|ms| - 1], ms[|ms| - 1];
      InsertKeepsKeyOrder(front, m, k);
      assert (Insert(front, m) + [last])[..|Insert(front, m)|] == Insert(front, m);
    } else {
      assert (ms + [m])[..|ms|] == ms;
    }
  }

  lemma {:induction false} SortKeepsKeyOrder(ms: seq<Movement>)
    ensures SameByKey(ms, Sort(ms))
  {
    if ms != [] {
      SortKeepsKeyOrder(ms[..|ms| - 1]);
      forall k ensures OnKey(ms, k) == OnKey(Sort(ms), k) {
        InsertKeepsKeyOrder(Sort(ms[..|ms| - 1]), ms[|ms| - 1], k);
      }
    }
  }

  /** Sorting a batch changes neither its acceptance nor its effect, nor any net quantity. */
  lemma SortingIsHarmless(b: Balances, ms: seq<Movement>)
    ensures ApplyAll(b, Sort(ms)) == ApplyAll(b, ms)
    ensures forall k :: Net(Sort(ms), k) == Net(ms, k)
    ensures Touched(Sort(ms)) == Touched(ms)
  {
    SortKeepsKeyOrder(ms);
    OrderBetweenKeysIrrelevant(b, ms, Sort(ms));
    forall k ensures k in Touched(Sort(ms)) <==> k in Touched(ms) {
      TouchedByKey(ms, k);
      TouchedByKey(Sort(ms), k);
    }
  }

  // ---------------------------------------------------------------- ledger rows

  /** The rows an accepted batch appends: one per non-zero movement, in batch order. */
  function PostedRows(ms: seq<Movement>, ref: Ref): seq<Row> {
    if ms == [] then []
    else
      var m := ms[|ms| - 1];
      PostedRows(ms[..|ms| - 1], ref) + (if m.quantity == 0 then [] else [Row(m.key, m.quantity, ref)])
  }

  /** The rows are those of the movements that are not zero, one each, in order. */
  lemma {:induction false} PostedRowsAre(ms: seq<Movement>, ref: Ref)
    ensures |PostedRows(ms, ref)| == |NonZero(ms)|
    ensures forall i :: 0 <= i < |NonZero(ms)| ==> PostedRows(ms, ref)[i] == Row(NonZero(ms)[i].key, NonZero(ms)[i].quantity, ref)
    ensures forall m :: m in NonZero(ms) <==> m in ms && m.quantity != 0
  {
    if ms != [] {
      PostedRowsAre(ms[..|ms| - 1], ref);
      assert ms == ms[..|ms| - 1] + [ms[|ms| - 1]];
    }
  }

  function NetRows(rows: seq<Row>, k: Key): int {
    if rows == [] then 0
    else NetRows(rows[..|rows| - 1], k) + (if rows[|rows| - 1].key == k then rows[|rows| - 1].quantity else 0)
  }

  function RowsOf(rows: seq<Row>, ref: Ref): seq<Row> {
    if rows == [] then []
    else RowsOf(rows[..|rows| - 1], ref) + (if rows[|rows| - 1].ref == ref then [rows[|rows| - 1]] else [])
  }

  lemma {:induction false} NetRowsAppend(a: seq<Row>, b: seq<Row>, k: Key)
    ensures NetRows(a + b, k) == NetRows(a, k) + NetRows(b, k)
  {
    if b == [] {
      assert a + b == a;
    } else {
      NetRowsAppend(a, b[..|b| - 1], k);
      assert (a + b)[..|a + b| - 1] == a + b[..|b| - 1];
    }
  }

  lemma {:induction false} RowsOfAppend(a: seq<Row>, b: seq<Row>, ref: Ref)
    ensures RowsOf(a + b, ref) == RowsOf(a, ref) + RowsOf(b, ref)
  {
    if b == [] {
      assert a + b == a;
    } else {
      RowsOfAppend(a, b[..|b| - 1], ref);
      assert (a + b)[..|a + b| - 1] == a + b[..|b| - 1];
    }
  }

  lemma {:induction false} PostedRowsMeaning(ms: seq<Movement>, ref: Ref, k: Key)
    ensures NetRows(PostedRows(ms, ref), k) == Net(ms, k)
    ensures RowsOf(PostedRows(ms, ref), ref) == PostedRows(ms, ref)
    ensures forall other :: other != ref ==> RowsOf(PostedRows(ms, ref), other) == []
  {
    if ms != [] {
      var front, m := ms[..|ms| - 1], ms[|ms| - 1];
      PostedRowsMeaning(front, ref, k);
      var rows := PostedRows(front, ref);
      if m.quantity != 0 {
        assert (rows + [Row(m.key, m.quantity, ref)])[..|rows|] == rows;
      } else {
        assert rows + [] == rows;
      }
      if m.key == k {
        assert OnKey(ms, k)[..|OnKey(ms, k)| - 1] == OnKey(front, k);
      }
    }
  }
}
