/**
 * Reserved stock: reserving and releasing over the balance rows of a product in a warehouse, and
 * what posting does to available stock, which is on-hand stock less reserved stock.
 */
module Reservations {
  import opened Prelude
  import opened Ledger
  import opened Documents
  import opened Posting
  import History = Balances

  /** The balance rows: the order they were created in, and their two quantities. */
  datatype Stock = Stock(order: seq<Key>, onHand: Balances, reserved: Balances)

  /** A stock whose rows are those of the order, each once. */
  ghost predicate Valid(s: Stock) {
    && (forall i, j :: 0 <= i < j < |s.order| ==> s.order[i] != s.order[j])
    && (forall k :: k in s.order <==> k in s.onHand)
    && s.reserved.Keys == s.onHand.Keys
  }

  function Reserved(s: Stock, k: Key): int {
    OnHand(s.reserved, k)
  }

  function AvailableOn(s: Stock, k: Key): int {
    OnHand(s.onHand, k) - Reserved(s, k)
  }

  datatype Mode = Reserving | Releasing

  predicate Concerned(k: Key, org: nat, warehouse: nat, product: nat) {
    k.org == org && k.warehouse == warehouse && k.product == product && k.state == Available
  }

  /** A release looks at rows with a reservation only. */
  predicate Chosen(s: Stock, mode: Mode, k: Key, org: nat, warehouse: nat, product: nat) {
    Concerned(k, org, warehouse, product) && (mode.Releasing? ==> Reserved(s, k) > 0)
  }

  /** The rows a reservation or release goes over, oldest first. */
  function Selected(s: Stock, mode: Mode, rows: seq<Key>, org: nat, warehouse: nat, product: nat): seq<Key> {
    if rows == [] then []
    else
      Selected(s, mode, rows[..|rows| - 1], org, warehouse, product) +
      (if Chosen(s, mode, rows[|rows| - 1], org, warehouse, product) then [rows[|rows| - 1]] else [])
  }

  /** What a row can still give: its available stock, or what is reserved on it. */
  function Room(s: Stock, mode: Mode, k: Key): int {
    if mode.Reserving? then AvailableOn(s, k) else Reserved(s, k)
  }

  function AtLeastZero(x: int): nat {
    if x < 0 then 0 else x
  }

  function Take(room: int, left: int): nat {
    if left <= 0 || room <= 0 then 0 else if room < left then room else left
  }

  datatype Spread = Spread(stock: Stock, left: int)

  function Change(s: Stock, mode: Mode, k: Key, take: nat): Stock {
    if take == 0 then s
    else s.(reserved := s.reserved[k := if mode.Reserving? then Reserved(s, k) + take else Reserved(s, k) - take])
  }

  /** The loop over the rows: each gives what it can until nothing is left to take. */
  function SpreadOver(s: Stock, mode: Mode, rows: seq<Key>, quantity: int): Spread {
    if rows == [] then Spread(s, quantity)
    else
      var before := SpreadOver(s, mode, rows[..|rows| - 1], quantity);
      var take := Take(Room(s, mode, rows[|rows| - 1]), before.left);
      Spread(Change(before.stock, mode, rows[|rows| - 1], take), before.left - take)
  }

  /** Everything the rows can give together. */
  function Capacity(s: Stock, mode: Mode, rows: seq<Key>): nat {
    if rows == [] then 0 else Capacity(s, mode, rows[..|rows| - 1]) + AtLeastZero(Room(s, mode, rows[|rows| - 1]))
  }

  function ReservedTotal(s: Stock, rows: seq<Key>): int {
    if rows == [] then 0 else ReservedTotal(s, rows[..|rows| - 1]) + Reserved(s, rows[|rows| - 1])
  }

  /** A reservation or release as a whole: nothing to do, all of it, or a refusal. */
  function Adjusted(s: Stock, mode: Mode, org: nat, warehouse: nat, product: nat, quantity: int): Option<Stock> {
    if quantity <= 0 then Some(s)
    else
      var spread := SpreadOver(s, mode, Selected(s, mode, s.order, org, warehouse, product), quantity);
      if spread.left > 0 then None else Some(spread.stock)
  }

  // ---------------------------------------------------------------- what the loop achieves

  predicate DistinctRows(rows: seq<Key>) {
    forall i, j :: 0 <= i < j < |rows| ==> rows[i] != rows[j]
  }

  /** What a row gave. */
  function Given(s: Stock, s': Stock, mode: Mode, k: Key): int {
    if mode.Reserving? then Reserved(s', k) - Reserved(s, k) else Reserved(s, k) - Reserved(s', k)
  }

  lemma {:induction false} SpreadLeft(s: Stock, mode: Mode, rows: seq<Key>, quantity: nat)
    ensures SpreadOver(s, mode, rows, quantity).left == AtLeastZero(quantity - Capacity(s, mode, rows))
    ensures SpreadOver(s, mode, rows, quantity).stock ==
            s.(reserved := SpreadOver(s, mode, rows, quantity).stock.reserved)
  {
    if rows != [] {
      SpreadLeft(s, mode, rows[..|rows| - 1], quantity);
    }
  }

  lemma {:induction false} OutsideUntouched(s: Stock, mode: Mode, rows: seq<Key>, quantity: int, k: Key)
    requires k !in rows
    ensures Reserved(SpreadOver(s, mode, rows, quantity).stock, k) == Reserved(s, k)
  {
    if rows != [] {
      OutsideUntouched(s, mode, rows[..|rows| - 1], quantity, k);
    }
  }

  /** A row gives what it can of what the rows before it have left to take. */
  lemma {:induction false} RowGives(s: Stock, mode: Mode, rows: seq<Key>, quantity: nat, i: nat)
    requires DistinctRows(rows) && i < |rows|
    ensures Given(s, SpreadOver(s, mode, rows, quantity).stock, mode, rows[i]) ==
            Take(Room(s, mode, rows[i]), SpreadOver(s, mode, rows[..i], quantity).left)
  {
    var front, last := rows[..|rows| - 1], rows[|rows| - 1];
    if i < |front| {
      RowGives(s, mode, front, quantity, i);
      assert front[..i] == rows[..i] && front[i] == rows[i];
    } else {
      assert last !in front;
      OutsideUntouched(s, mode, front, quantity, last);
    }
  }

  lemma {:induction false} CapacityGrows(s: Stock, mode: Mode, rows: seq<Key>, i: nat)
    requires i < |rows|
    ensures Capacity(s, mode, rows[..i]) + AtLeastZero(Room(s, mode, rows[i])) <= Capacity(s, mode, rows)
  {
    var front := rows[..|rows| - 1];
    if i < |front| {
      CapacityGrows(s, mode, front, i);
      assert front[..i] == rows[..i];
    }
  }

  /** A row gives no more than it can, and it gives all it can whenever a later row gives anything. */
  lemma OldestFirst(s: Stock, mode: Mode, rows: seq<Key>, quantity: nat, i: nat, j: nat)
    requires DistinctRows(rows) && i < j < |rows|
    ensures var s' := SpreadOver(s, mode, rows, quantity).stock;
      && 0 <= Given(s, s', mode, rows[i]) <= AtLeastZero(Room(s, mode, rows[i]))
      && (Given(s, s', mode, rows[j]) > 0 ==> Given(s, s', mode, rows[i]) == AtLeastZero(Room(s, mode, rows[i])))
  {
    RowGives(s, mode, rows, quantity, i);
    RowGives(s, mode, rows, quantity, j);
    SpreadLeft(s, mode, rows[..i], quantity);
    SpreadLeft(s, mode, rows[..j], quantity);
    CapacityGrows(s, mode, rows[..j], i);
    assert rows[..j][..i] == rows[..i];
  }

  lemma {:induction false} SpreadTotal(s: Stock, mode: Mode, rows: seq<Key>, all: seq<Key>, quantity: nat, n: nat)
    requires n <= |all| && DistinctRows(all) && rows == all[..n]
    ensures var spread := SpreadOver(s, mode, rows, quantity);
      ReservedTotal(spread.stock, rows) == ReservedTotal(s, rows) +
        if mode.Reserving? then quantity - spread.left else spread.left - quantity
  {
    if n > 0 {
      var front, k := all[..n - 1], all[n - 1];
      assert rows[..|rows| - 1] == front && DistinctRows(rows);
      SpreadTotal(s, mode, front, all, quantity, n - 1);
      var before, after := SpreadOver(s, mode, front, quantity), SpreadOver(s, mode, rows, quantity);
      assert k !in front;
      OutsideUntouched(s, mode, front, quantity, k);
      SameTotal(before.stock, after.stock, front);
    }
  }

  lemma {:induction false} SameTotal(s: Stock, s': Stock, rows: seq<Key>)
    requires forall i :: 0 <= i < |rows| ==> Reserved(s, rows[i]) == Reserved(s', rows[i])
    ensures ReservedTotal(s, rows) == ReservedTotal(s', rows)
  {
    if rows != [] {
      SameTotal(s, s', rows[..|rows| - 1]);
    }
  }

  lemma {:induction false} SelectedRows(s: Stock, mode: Mode, rows: seq<Key>, org: nat, warehouse: nat, product: nat)
    requires DistinctRows(rows)
    ensures var sel := Selected(s, mode, rows, org, warehouse, product);
      && DistinctRows(sel)
      && (forall k :: k in sel <==> k in rows && Chosen(s, mode, k, org, warehouse, product))
  {
    if rows != [] {
      SelectedRows(s, mode, rows[..|rows| - 1], org, warehouse, product);
      assert rows == rows[..|rows| - 1] + [rows[|rows| - 1]];
    }
  }

  // ---------------------------------------------------------------- reserving and releasing

  /** The rows of a product in a warehouse, or of those the ones with a reservation. */
  function RowsOfProduct(s: Stock, mode: Mode, org: nat, warehouse: nat, product: nat): seq<Key> {
    Selected(s, mode, s.order, org, warehouse, product)
  }

  /**
   * A reservation or release is accepted exactly when the rows can give the quantity together. Then
   * the product's reserved total moves by exactly the quantity, nothing on hand changes, other rows
   * are left alone, and no row gives more than it can.
   */
  lemma AdjustedMeaning(s: Stock, mode: Mode, org: nat, warehouse: nat, product: nat, quantity: int)
    requires Valid(s)
    ensures var rows := RowsOfProduct(s, mode, org, warehouse, product);
      var r := Adjusted(s, mode, org, warehouse, product, quantity);
      && (r.Some? <==> quantity <= Capacity(s, mode, rows))
      && (r.Some? ==>
          && Valid(r.value) && r.value.onHand == s.onHand && r.value.order == s.order
          && ReservedTotal(r.value, rows) == ReservedTotal(s, rows) +
             (if quantity <= 0 then 0 else if mode.Reserving? then quantity else -quantity)
          && (forall k :: !Concerned(k, org, warehouse, product) ==> Reserved(r.value, k) == Reserved(s, k))
          && (forall k :: 0 <= Given(s, r.value, mode, k) <= AtLeastZero(Room(s, mode, k))))
  {
    hide DistinctRows, Selected, Capacity, ReservedTotal, Given, AtLeastZero, Room, SpreadOver, Valid;
    var rows := RowsOfProduct(s, mode, org, warehouse, product);
    OrderIsDistinct(s);
    SelectedRows(s, mode, s.order, org, warehouse, product);
    if quantity > 0 {
      SpreadLeft(s, mode, rows, quantity);
      LeftOver(quantity, Capacity(s, mode, rows));
      SpreadTotal(s, mode, rows, rows, quantity, |rows|);
      SpreadRows(s, mode, rows, quantity);
      SpreadValid(s, mode, rows, quantity);
    } else {
      forall k ensures 0 <= Given(s, s, mode, k) <= AtLeastZero(Room(s, mode, k)) {
        NothingGiven(s, mode, k);
      }
    }
  }

  lemma NothingGiven(s: Stock, mode: Mode, k: Key)
    ensures Given(s, s, mode, k) == 0 <= AtLeastZero(Room(s, mode, k))
  {
  }

  lemma SpreadValid(s: Stock, mode: Mode, rows: seq<Key>, quantity: nat)
    requires Valid(s) && forall k :: k in rows ==> k in s.order
    ensures Valid(SpreadOver(s, mode, rows, quantity).stock)
  {
    SpreadLeft(s, mode, rows, quantity);
    SpreadKeys(s, mode, rows, quantity);
  }

  lemma OrderIsDistinct(s: Stock)
    requires Valid(s)
    ensures DistinctRows(s.order)
  {
  }

  lemma LeftOver(quantity: int, capacity: nat)
    ensures AtLeastZero(quantity - capacity) == if quantity > capacity then quantity - capacity else 0
  {
  }

  /** Rows outside the list keep their reservation, and every row gives between nothing and what it can. */
  lemma SpreadRows(s: Stock, mode: Mode, rows: seq<Key>, quantity: nat)
    requires DistinctRows(rows)
    ensures var s' := SpreadOver(s, mode, rows, quantity).stock;
      && (forall k :: k !in rows ==> Reserved(s', k) == Reserved(s, k))
      && (forall k :: 0 <= Given(s, s', mode, k) <= AtLeastZero(Room(s, mode, k)))
  {
    var s' := SpreadOver(s, mode, rows, quantity).stock;
    hide SpreadOver;
    forall k
      ensures k !in rows ==> Reserved(s', k) == Reserved(s, k)
      ensures 0 <= Given(s, s', mode, k) <= AtLeastZero(Room(s, mode, k))
    {
      if k in rows {
        var i :| 0 <= i < |rows| && rows[i] == k;
        RowGives(s, mode, rows, quantity, i);
      } else {
        OutsideUntouched(s, mode, rows, quantity, k);
      }
    }
  }

  lemma {:induction false} SpreadKeys(s: Stock, mode: Mode, rows: seq<Key>, quantity: int)
    requires forall k :: k in rows ==> k in s.reserved
    ensures SpreadOver(s, mode, rows, quantity).stock.reserved.Keys == s.reserved.Keys
  {
    if rows != [] {
      assert rows[|rows| - 1] in rows;
      SpreadKeys(s, mode, rows[..|rows| - 1], quantity);
    }
  }

  lemma OneMoreRow(s: Stock, rows: seq<Key>, k: Key)
    ensures ReservedTotal(s, rows + [k]) == ReservedTotal(s, rows) + Reserved(s, k)
    ensures Capacity(s, Releasing, rows + [k]) == Capacity(s, Releasing, rows) + AtLeastZero(Reserved(s, k))
    ensures rows + [] == rows
  {
    assert (rows + [k])[..|rows|] == rows;
  }

  lemma NoRows(s: Stock)
    ensures ReservedTotal(s, []) == 0 && Capacity(s, Releasing, []) == 0
  {
  }

  ghost predicate NonNegativeReserved(s: Stock) {
    forall k :: Reserved(s, k) >= 0
  }

  /** Reserved stock lies on the rows a release goes over, and is what they can give. */
  lemma {:induction false} ReleasableIsReserved(s: Stock, rows: seq<Key>, org: nat, warehouse: nat, product: nat)
    requires NonNegativeReserved(s)
    ensures var releasing := Selected(s, Releasing, rows, org, warehouse, product);
      Capacity(s, Releasing, releasing) == ReservedTotal(s, releasing) ==
      ReservedTotal(s, Selected(s, Reserving, rows, org, warehouse, product))
  {
    hide Capacity, ReservedTotal, Concerned;
    if rows == [] {
      NoRows(s);
    } else {
      var front, k := rows[..|rows| - 1], rows[|rows| - 1];
      ReleasableIsReserved(s, front, org, warehouse, product);
      OneMoreRow(s, Selected(s, Releasing, front, org, warehouse, product), k);
      OneMoreRow(s, Selected(s, Reserving, front, org, warehouse, product), k);
      assert Reserved(s, k) >= 0;
    }
  }

  /** What is reserved of a product in a warehouse. */
  function ProductReserved(s: Stock, org: nat, warehouse: nat, product: nat): int {
    ReservedTotal(s, RowsOfProduct(s, Reserving, org, warehouse, product))
  }

  lemma {:induction false} SelectedByKey(s: Stock, s': Stock, rows: seq<Key>, org: nat, warehouse: nat, product: nat)
    ensures Selected(s, Reserving, rows, org, warehouse, product) == Selected(s', Reserving, rows, org, warehouse, product)
  {
    if rows != [] {
      SelectedByKey(s, s', rows[..|rows| - 1], org, warehouse, product);
    }
  }

  /**
   * The product's reserved total is all that counts, whichever rows gave it: a release is accepted
   * exactly up to that total, and both operations move it by exactly their quantity.
   */
  lemma OnlyTheTotalCounts(s: Stock, mode: Mode, org: nat, warehouse: nat, product: nat, quantity: nat)
    requires Valid(s) && NonNegativeReserved(s)
    ensures var r := Adjusted(s, mode, org, warehouse, product, quantity);
      && (mode.Releasing? ==> (r.Some? <==> quantity <= ProductReserved(s, org, warehouse, product)))
      && (r.Some? ==>
          && NonNegativeReserved(r.value)
          && ProductReserved(r.value, org, warehouse, product) == ProductReserved(s, org, warehouse, product) +
             if mode.Reserving? then quantity else -(quantity as int))
  {
    AdjustedMeaning(s, mode, org, warehouse, product, quantity);
    ReleasableIsReserved(s, s.order, org, warehouse, product);
    var r := Adjusted(s, mode, org, warehouse, product, quantity);
    if r.Some? {
      var s' := r.value;
      forall k ensures Reserved(s', k) >= 0 {
        assert Reserved(s, k) >= 0;
        assert 0 <= Given(s, s', mode, k) <= AtLeastZero(Room(s, mode, k));
      }
      SelectedByKey(s, s', s.order, org, warehouse, product);
      if mode.Releasing? {
        UnreservedGiveNothing(s, s', org, warehouse, product, s.order);
      }
    }
  }

  /** A release moves the total over all rows of the product as it moves that over the reserved ones. */
  lemma {:induction false} UnreservedGiveNothing(s: Stock, s': Stock, org: nat, warehouse: nat, product: nat, rows: seq<Key>)
    requires NonNegativeReserved(s)
    requires forall k :: 0 <= Given(s, s', Releasing, k) <= AtLeastZero(Room(s, Releasing, k))
    ensures
      var all, some := Selected(s, Reserving, rows, org, warehouse, product), Selected(s, Releasing, rows, org, warehouse, product);
      ReservedTotal(s', all) - ReservedTotal(s, all) == ReservedTotal(s', some) - ReservedTotal(s, some)
  {
    hide ReservedTotal, Concerned;
    if rows != [] {
      var front, k := rows[..|rows| - 1], rows[|rows| - 1];
      UnreservedGiveNothing(s, s', org, warehouse, product, front);
      OneMoreRow(s, Selected(s, Releasing, front, org, warehouse, product), k);
      OneMoreRow(s, Selected(s, Reserving, front, org, warehouse, product), k);
      OneMoreRow(s', Selected(s, Releasing, front, org, warehouse, product), k);
      OneMoreRow(s', Selected(s, Reserving, front, org, warehouse, product), k);
      assert Reserved(s, k) >= 0 && 0 <= Given(s, s', Releasing, k) <= AtLeastZero(Room(s, Releasing, k));
    }
  }

  // ---------------------------------------------------------------- over all balance rows

  /** The row holds the product's available stock in the warehouse. */
  predicate HoldsProduct(k: Key, org: nat, warehouse: nat, product: nat) {
    k.state == Available && k.product == product && k.warehouse == warehouse && k.org == org
  }

  /** What the rows among `order` can give together, other rows giving nothing. */
  function Obtainable(s: Stock, mode: Mode, order: seq<Key>, org: nat, warehouse: nat, product: nat): nat {
    if order == [] then 0
    else
      var k := order[|order| - 1];
      Obtainable(s, mode, order[..|order| - 1], org, warehouse, product) +
      if !HoldsProduct(k, org, warehouse, product) then 0
      else if mode.Reserving? then AtLeastZero(OnHand(s.onHand, k) - OnHand(s.reserved, k))
      else AtLeastZero(OnHand(s.reserved, k))
  }

  /** What is reserved of the product on the rows among `order`. */
  function ReservedOf(s: Stock, order: seq<Key>, org: nat, warehouse: nat, product: nat): int {
    if order == [] then 0
    else
      var k := order[|order| - 1];
      ReservedOf(s, order[..|order| - 1], org, warehouse, product) +
      if HoldsProduct(k, org, warehouse, product) then OnHand(s.reserved, k) else 0
  }

  lemma {:induction false} SelectedCapacity(s: Stock, mode: Mode, order: seq<Key>, org: nat, warehouse: nat, product: nat)
    ensures Capacity(s, mode, Selected(s, mode, order, org, warehouse, product)) == Obtainable(s, mode, order, org, warehouse, product)
  {
    hide Capacity, Chosen, HoldsProduct, Room, AtLeastZero;
    if order == [] {
      assert Capacity(s, mode, []) == 0 by {
        NoCapacity(s, mode);
      }
    } else {
      var front, k := order[..|order| - 1], order[|order| - 1];
      SelectedCapacity(s, mode, front, org, warehouse, product);
      OneObtained(s, mode, k, org, warehouse, product);
      var a := Selected(s, mode, front, org, warehouse, product);
      CapacityAppend(s, mode, a, k);
      assert a + [] == a;
    }
  }

  lemma NoCapacity(s: Stock, mode: Mode)
    ensures Capacity(s, mode, []) == 0
  {
  }

  /** A row that is not chosen has nothing to give. */
  lemma OneObtained(s: Stock, mode: Mode, k: Key, org: nat, warehouse: nat, product: nat)
    ensures (if Chosen(s, mode, k, org, warehouse, product) then AtLeastZero(Room(s, mode, k)) else 0) ==
      if !HoldsProduct(k, org, warehouse, product) then 0
      else if mode.Reserving? then AtLeastZero(OnHand(s.onHand, k) - OnHand(s.reserved, k))
      else AtLeastZero(OnHand(s.reserved, k))
  {
  }

  lemma CapacityAppend(s: Stock, mode: Mode, rows: seq<Key>, k: Key)
    ensures Capacity(s, mode, rows + [k]) == Capacity(s, mode, rows) + AtLeastZero(Room(s, mode, k))
  {
    assert (rows + [k])[..|rows|] == rows;
  }

  lemma {:induction false} SelectedReserved(s: Stock, s': Stock, order: seq<Key>, org: nat, warehouse: nat, product: nat)
    ensures ReservedTotal(s', Selected(s, Reserving, order, org, warehouse, product)) == ReservedOf(s', order, org, warehouse, product)
  {
    hide ReservedTotal, Chosen, HoldsProduct, Capacity;
    if order == [] {
      NoRows(s');
    } else {
      var front, k := order[..|order| - 1], order[|order| - 1];
      SelectedReserved(s, s', front, org, warehouse, product);
      assert Chosen(s, Reserving, k, org, warehouse, product) <==> HoldsProduct(k, org, warehouse, product) by {
        ReservingChooses(s, k, org, warehouse, product);
      }
      OneMoreRow(s', Selected(s, Reserving, front, org, warehouse, product), k);
    }
  }

  lemma ReservingChooses(s: Stock, k: Key, org: nat, warehouse: nat, product: nat)
    ensures Chosen(s, Reserving, k, org, warehouse, product) <==> HoldsProduct(k, org, warehouse, product)
  {
  }

  lemma SelectedSums(s: Stock, s': Stock, mode: Mode, order: seq<Key>, org: nat, warehouse: nat, product: nat)
    ensures Capacity(s, mode, Selected(s, mode, order, org, warehouse, product)) == Obtainable(s, mode, order, org, warehouse, product)
    ensures ReservedTotal(s', Selected(s, Reserving, order, org, warehouse, product)) == ReservedOf(s', order, org, warehouse, product)
  {
    SelectedCapacity(s, mode, order, org, warehouse, product);
    SelectedReserved(s, s', order, org, warehouse, product);
  }

  /**
   * Accepted exactly when the rows of the product in the warehouse that are in state available can
   * give the quantity together; then what is reserved on them moves by exactly the quantity, and
   * nothing on hand and no other row changes.
   */
  lemma AcceptedExactly(s: Stock, mode: Mode, org: nat, warehouse: nat, product: nat, quantity: int)
    requires Valid(s) && NonNegativeReserved(s)
    ensures var r := Adjusted(s, mode, org, warehouse, product, quantity);
      && (r.Some? <==> quantity <= Obtainable(s, mode, s.order, org, warehouse, product))
      && (r.Some? ==>
          && r.value.onHand == s.onHand && r.value.order == s.order
          && (forall k :: !HoldsProduct(k, org, warehouse, product) ==> OnHand(r.value.reserved, k) == OnHand(s.reserved, k))
          && ReservedOf(r.value, s.order, org, warehouse, product) == ReservedOf(s, s.order, org, warehouse, product) +
             (if quantity <= 0 then 0 else if mode.Reserving? then quantity else 0 - quantity))
  {
    hide Adjusted, Obtainable, ReservedOf, Selected;
    AdjustedMeaning(s, mode, org, warehouse, product, quantity);
    SelectedSums(s, s, mode, s.order, org, warehouse, product);
    var r := Adjusted(s, mode, org, warehouse, product, quantity);
    if r.Some? {
      assert forall k :: !HoldsProduct(k, org, warehouse, product) ==> Reserved(r.value, k) == Reserved(s, k);
      SelectedSums(s, r.value, mode, s.order, org, warehouse, product);
      SelectedByKey(s, r.value, s.order, org, warehouse, product);
      if quantity > 0 {
        OnlyTheTotalCounts(s, mode, org, warehouse, product, quantity);
      } else {
        NothingToDo(s, mode, org, warehouse, product, quantity);
      }
    }
  }

  lemma NothingToDo(s: Stock, mode: Mode, org: nat, warehouse: nat, product: nat, quantity: int)
    requires quantity <= 0
    ensures Adjusted(s, mode, org, warehouse, product, quantity) == Some(s)
  {
  }

  /** Where a row of the order comes among the selected ones. */
  lemma {:induction false} SelectedAt(s: Stock, mode: Mode, order: seq<Key>, org: nat, warehouse: nat, product: nat, a: nat) returns (i: nat)
    requires a < |order| && Chosen(s, mode, order[a], org, warehouse, product)
    ensures i == |Selected(s, mode, order[..a], org, warehouse, product)|
    ensures i < |Selected(s, mode, order, org, warehouse, product)| && Selected(s, mode, order, org, warehouse, product)[i] == order[a]
  {
    var front := order[..|order| - 1];
    if a < |front| {
      assert front[..a] == order[..a];
      i := SelectedAt(s, mode, front, org, warehouse, product, a);
    } else {
      i := |Selected(s, mode, front, org, warehouse, product)|;
    }
  }

  lemma {:induction false} SelectedGrows(s: Stock, mode: Mode, order: seq<Key>, org: nat, warehouse: nat, product: nat, a: nat)
    requires a <= |order|
    ensures |Selected(s, mode, order[..a], org, warehouse, product)| <= |Selected(s, mode, order, org, warehouse, product)|
  {
    if a < |order| {
      assert order[..|order| - 1][..a] == order[..a];
      SelectedGrows(s, mode, order[..|order| - 1], org, warehouse, product, a);
    } else {
      assert order[..a] == order;
    }
  }

  /**
   * Oldest rows first: of two rows of the product in the warehouse, both in state available, the one
   * created later gives something only if the one created earlier gave all it could.
   */
  lemma OlderRowsFirst(s: Stock, mode: Mode, org: nat, warehouse: nat, product: nat, quantity: nat, a: nat, b: nat)
    requires Valid(s) && NonNegativeReserved(s) && a < b < |s.order|
    requires HoldsProduct(s.order[a], org, warehouse, product) && HoldsProduct(s.order[b], org, warehouse, product)
    requires Adjusted(s, mode, org, warehouse, product, quantity).Some?
    ensures var s' := Adjusted(s, mode, org, warehouse, product, quantity).value;
      Given(s, s', mode, s.order[b]) > 0 ==>
        Given(s, s', mode, s.order[a]) ==
          AtLeastZero(if mode.Reserving? then OnHand(s.onHand, s.order[a]) - OnHand(s.reserved, s.order[a]) else OnHand(s.reserved, s.order[a]))
  {
    var s' := Adjusted(s, mode, org, warehouse, product, quantity).value;
    var x, y := s.order[a], s.order[b];
    AdjustedMeaning(s, mode, org, warehouse, product, quantity);
    assert 0 <= Given(s, s', mode, x) <= AtLeastZero(Room(s, mode, x)) && 0 <= Given(s, s', mode, y) <= AtLeastZero(Room(s, mode, y));
    assert Reserved(s, x) >= 0 && Reserved(s, y) >= 0;
    if Given(s, s', mode, y) > 0 && Chosen(s, mode, x, org, warehouse, product) {
      assert quantity > 0;
      var i, j := SelectedInOrder(s, mode, org, warehouse, product, a, b);
      var rows := RowsOfProduct(s, mode, org, warehouse, product);
      SelectedRows(s, mode, s.order, org, warehouse, product);
      hide Selected, SpreadOver, Chosen;
      OldestFirst(s, mode, rows, quantity, i, j);
    }
  }

  lemma SelectedInOrder(s: Stock, mode: Mode, org: nat, warehouse: nat, product: nat, a: nat, b: nat) returns (i: nat, j: nat)
    requires a < b < |s.order|
    requires Chosen(s, mode, s.order[a], org, warehouse, product) && Chosen(s, mode, s.order[b], org, warehouse, product)
    ensures var rows := RowsOfProduct(s, mode, org, warehouse, product);
      i < j < |rows| && rows[i] == s.order[a] && rows[j] == s.order[b]
  {
    i := SelectedAt(s, mode, s.order, org, warehouse, product, a);
    j := SelectedAt(s, mode, s.order, org, warehouse, product, b);
    assert s.order[..a + 1][..a] == s.order[..a] && s.order[..b][..a + 1] == s.order[..a + 1];
    SelectedGrows(s, mode, s.order[..b], org, warehouse, product, a + 1);
  }

  /** Reserving and then releasing the same quantity always succeeds and restores the product's reserved total. */
  lemma ReserveThenRelease(s: Stock, org: nat, warehouse: nat, product: nat, quantity: nat)
    requires Valid(s) && NonNegativeReserved(s) && Adjusted(s, Reserving, org, warehouse, product, quantity).Some?
    requires ProductReserved(s, org, warehouse, product) >= 0
    ensures var s' := Adjusted(s, Reserving, org, warehouse, product, quantity).value;
      var r := Adjusted(s', Releasing, org, warehouse, product, quantity);
      r.Some? && ProductReserved(r.value, org, warehouse, product) == ProductReserved(s, org, warehouse, product)
  {
    AdjustedMeaning(s, Reserving, org, warehouse, product, quantity);
    OnlyTheTotalCounts(s, Reserving, org, warehouse, product, quantity);
    OnlyTheTotalCounts(Adjusted(s, Reserving, org, warehouse, product, quantity).value, Releasing, org, warehouse, product, quantity);
  }

  // ---------------------------------------------------------------- posting, and available stock

  /** One movement: a row that is created starts with nothing reserved. */
  function PostRow(s: Stock, m: Movement): Option<Stock> {
    match ApplyOne(s.onHand, m)
    case Insufficient => None
    case Applied(b) =>
      if m.key in b && m.key !in s.onHand then Some(Stock(s.order + [m.key], b, s.reserved[m.key := 0]))
      else Some(s.(onHand := b))
  }

  function PostBatch(s: Stock, ms: seq<Movement>): Option<Stock> {
    if ms == [] then Some(s)
    else
      match PostBatch(s, ms[..|ms| - 1])
      case None => None
      case Some(before) => PostRow(before, ms[|ms| - 1])
  }

  lemma {:induction false} PostBatchIs(s: Stock, ms: seq<Movement>)
    requires Valid(s)
    ensures PostBatch(s, ms).Some? <==> ApplyAll(s.onHand, ms).Applied?
    ensures PostBatch(s, ms).Some? ==>
      && Valid(PostBatch(s, ms).value)
      && PostBatch(s, ms).value.onHand == ApplyAll(s.onHand, ms).balances
      && s.order <= PostBatch(s, ms).value.order
      && forall k :: Reserved(PostBatch(s, ms).value, k) == Reserved(s, k)
  {
    if ms != [] {
      var front, last := ms[..|ms| - 1], ms[|ms| - 1];
      PostBatchIs(s, front);
      if PostBatch(s, front).Some? {
        PostRowIs(PostBatch(s, front).value, last);
        hide Valid, PostRow, ApplyOne;
      }
    }
  }

  lemma PostRowIs(s: Stock, m: Movement)
    requires Valid(s)
    ensures PostRow(s, m).Some? <==> ApplyOne(s.onHand, m).Applied?
    ensures PostRow(s, m).Some? ==>
      && Valid(PostRow(s, m).value)
      && PostRow(s, m).value.onHand == ApplyOne(s.onHand, m).balances
      && s.order <= PostRow(s, m).value.order
      && forall k :: Reserved(PostRow(s, m).value, k) == Reserved(s, k)
  {
  }

  /**
   * An accepted batch moves a key's available stock by its net quantity, so it leaves it at or above
   * zero exactly when what was on hand and the net quantity cover what is reserved. The code's guard
   * compares with the stock on hand alone.
   */
  lemma AvailableAfterPosting(s: Stock, ms: seq<Movement>, k: Key)
    requires Valid(s) && PostBatch(s, Sort(ms)).Some?
    ensures var s' := PostBatch(s, Sort(ms)).value;
      && AvailableOn(s', k) == AvailableOn(s, k) + Net(ms, k)
      && (AvailableOn(s', k) >= 0 <==> OnHand(s.onHand, k) + Net(ms, k) >= Reserved(s, k))
  {
    PostBatchIs(s, Sort(ms));
    SortingIsHarmless(s.onHand, ms);
    ApplyAllEffect(s.onHand, Sort(ms));
  }

  /** The same for the posting or reversal of a document. */
  lemma AvailableAfterDocument(p: Policy, db: Db, req: Request, reserved: Ledger.Balances, k: Key)
    requires (req.Post? || req.Reverse?) && PlanOf(db, req).Execute?
    ensures OnHand(Next(p, db, req).balances, k) - OnHand(reserved, k) >= 0 <==>
            OnHand(db.balances, k) + DocNet(History.MovedDoc(db, req), k) >= OnHand(reserved, k)
  {
    BalancesAreThose(p, db, req);
    hide PlanOf, Next, History.BalancesAfter, History.MovedDoc;
    History.PostingMovesLines(db, req, k);
  }

  lemma BalancesAreThose(p: Policy, db: Db, req: Request)
    requires (req.Post? || req.Reverse?) && PlanOf(db, req).Execute?
    ensures Next(p, db, req).balances == History.BalancesAfter(db, req)
  {
    hide PlanOf, Handle;
    TransactionStep(p, db, req);
  }

  predicate Guarded(ms: seq<Movement>) {
    forall m :: m in ms ==> !m.allowNegative
  }

  predicate KeepsAvailable(s: Stock, ms: seq<Movement>, k: Key) {
    Guarded(ms) && PostBatch(s, Sort(ms)).Some? ==> AvailableOn(PostBatch(s, Sort(ms)).value, k) >= 0
  }

  /** A key's available stock is safe from every guarded batch exactly when nothing is reserved on it. */
  lemma SafeIffUnreserved(s: Stock, k: Key)
    requires Valid(s) && Reserved(s, k) >= 0 && AvailableOn(s, k) >= 0
    ensures (forall ms :: KeepsAvailable(s, ms, k)) <==> Reserved(s, k) == 0
  {
    if Reserved(s, k) == 0 {
      forall ms ensures KeepsAvailable(s, ms, k) {
        if Guarded(ms) && PostBatch(s, Sort(ms)).Some? {
          PostBatchIs(s, Sort(ms));
          AvailableAfterPosting(s, ms, k);
          GuardedKeepsOnHand(s.onHand, ms, k);
        }
      }
    } else {
      var ms := [Movement(k, -OnHand(s.onHand, k), false)];
      assert ms[..0] == [] && Sort(ms) == ms;
      assert PostBatch(s, ms) == PostRow(s, ms[0]);
      assert !KeepsAvailable(s, ms, k);
    }
  }

  lemma GuardedKeepsOnHand(b: Ledger.Balances, ms: seq<Movement>, k: Key)
    requires OnHand(b, k) >= 0 && Guarded(ms) && ApplyAll(b, Sort(ms)).Applied?
    ensures OnHand(b, k) + Net(ms, k) >= 0
  {
    SortingIsHarmless(b, ms);
    ApplyAllMeaning(b, ms);
    TouchedByKey(ms, k);
    GuardKeepsNonNegative(OnHand(b, k), OnKey(ms, k));
  }

  // ---------------------------------------------------------------- available stock over runs

  datatype Step =
    | PostStep(movements: seq<Movement>)
    | AdjustStep(mode: Mode, org: nat, warehouse: nat, product: nat, quantity: int)

  /** A refused step changes nothing. */
  function StockStep(s: Stock, step: Step): Stock {
    var r := match step
      case PostStep(ms) => PostBatch(s, Sort(ms))
      case AdjustStep(mode, org, warehouse, product, quantity) => Adjusted(s, mode, org, warehouse, product, quantity);
    if r.Some? then r.value else s
  }

  const NOTHING := Stock([], map[], map[])

  function StockAfter(steps: seq<Step>): Stock {
    if steps == [] then NOTHING else StockStep(StockAfter(steps[..|steps| - 1]), steps[|steps| - 1])
  }

  /** The step posts a batch that is accepted although stock on hand and net quantity do not cover what is reserved. */
  predicate Dips(s: Stock, step: Step, k: Key) {
    step.PostStep? && PostBatch(s, Sort(step.movements)).Some? && OnHand(s.onHand, k) + Net(step.movements, k) < Reserved(s, k)
  }

  lemma StepKeepsStock(s: Stock, step: Step, k: Key)
    requires Valid(s) && NonNegativeReserved(s)
    ensures Valid(StockStep(s, step)) && NonNegativeReserved(StockStep(s, step))
    ensures AvailableOn(s, k) >= 0 ==> (AvailableOn(StockStep(s, step), k) >= 0 <==> !Dips(s, step, k))
  {
    match step
    case PostStep(ms) =>
      PostBatchIs(s, Sort(ms));
      if PostBatch(s, Sort(ms)).Some? {
        AvailableAfterPosting(s, ms, k);
      }
    case AdjustStep(mode, org, warehouse, product, quantity) =>
      AdjustedMeaning(s, mode, org, warehouse, product, quantity);
      var s' := StockStep(s, step);
      assert s' == s || (s'.onHand == s.onHand && 0 <= Given(s, s', mode, k) <= AtLeastZero(Room(s, mode, k)));
      assert Reserved(s, k) >= 0;
      forall l ensures Reserved(s', l) >= 0 {
        assert Reserved(s, l) >= 0;
        assert s' == s || 0 <= Given(s, s', mode, l) <= AtLeastZero(Room(s, mode, l));
      }
  }

  predicate AvailableThroughout(steps: seq<Step>, k: Key) {
    forall n :: 0 <= n <= |steps| ==> AvailableOn(StockAfter(steps[..n]), k) >= 0
  }

  predicate NeverDips(steps: seq<Step>, k: Key) {
    forall n :: 0 <= n < |steps| ==> !Dips(StockAfter(steps[..n]), steps[n], k)
  }

  lemma OneMoreStep(front: seq<Step>, last: Step, k: Key)
    ensures AvailableThroughout(front + [last], k) <==>
            AvailableThroughout(front, k) && AvailableOn(StockAfter(front + [last]), k) >= 0
    ensures NeverDips(front + [last], k) <==> NeverDips(front, k) && !Dips(StockAfter(front), last, k)
  {
    hide StockAfter, Dips, AvailableOn;
    var steps := front + [last];
    assert forall n :: 0 <= n <= |front| ==> steps[..n] == front[..n];
    assert steps[..|steps|] == steps && front[..|front|] == front && steps[|front|] == last;
    assert forall n :: 0 <= n < |front| ==> steps[n] == front[n];
  }

  lemma NoSteps(k: Key)
    ensures Valid(StockAfter([])) && NonNegativeReserved(StockAfter([]))
    ensures AvailableThroughout([], k) && NeverDips([], k)
  {
    var none: seq<Step> := [];
    assert none[..0] == none;
  }

  lemma AvailableAtEnd(steps: seq<Step>, k: Key)
    ensures AvailableThroughout(steps, k) ==> AvailableOn(StockAfter(steps), k) >= 0
  {
    assert steps[..|steps|] == steps;
  }

  /**
   * Over every run of postings, reservations and releases: what is reserved is never negative, and a
   * key's available stock stays at or above zero throughout exactly when no accepted posting dips
   * below what is reserved on it. Reservations and releases never do.
   */
  lemma {:induction false} AvailableOverRuns(steps: seq<Step>, k: Key)
    ensures Valid(StockAfter(steps)) && NonNegativeReserved(StockAfter(steps))
    ensures AvailableThroughout(steps, k) <==> NeverDips(steps, k)
  {
    hide Valid, NonNegativeReserved, Dips, AvailableOn, StockStep, StockAfter, AvailableThroughout, NeverDips;
    if steps == [] {
      NoSteps(k);
    } else {
      var front, last := steps[..|steps| - 1], steps[|steps| - 1];
      LastStep(front, last);
      AvailableOverRuns(front, k);
      assert front + [last] == steps;
      OneMoreStep(front, last, k);
      StepKeepsStock(StockAfter(front), last, k);
      AvailableAtEnd(front, k);
    }
  }

  predicate AllGuarded(steps: seq<Step>) {
    forall n :: 0 <= n < |steps| && steps[n].PostStep? ==> Guarded(steps[n].movements)
  }

  /** Dips occur: ten are received, four reserved, and eight withdrawn by a guarded movement. */
  lemma NegativeAvailableOccurs()
    ensures exists steps, k :: AllGuarded(steps) && AvailableOn(StockAfter(steps), k) < 0
  {
    var k := Key(0, 0, 0, 0, None, Available);
    var a, b, c := PostStep([Movement(k, 10, false)]), AdjustStep(Reserving, 0, 0, 0, 4), PostStep([Movement(k, -8, false)]);
    ReceiveReserveWithdraw(k, a, b, c);
    ThreeSteps(a, b, c);
    hide StockStep, StockAfter, AvailableOn;
    assert AllGuarded([a, b, c]);
    assert AvailableOn(StockAfter([a, b, c]), k) == -2;
  }

  lemma ThreeSteps(a: Step, b: Step, c: Step)
    ensures StockAfter([a, b, c]) == StockStep(StockStep(StockStep(NOTHING, a), b), c)
  {
    hide StockStep;
    LastStep([a, b], c);
    LastStep([a], b);
    LastStep([], a);
    assert [] + [a] == [a] && [a] + [b] == [a, b] && [a, b] + [c] == [a, b, c];
  }

  lemma LastStep(front: seq<Step>, last: Step)
    ensures StockAfter(front + [last]) == StockStep(StockAfter(front), last)
  {
    hide StockStep;
    assert (front + [last])[..|front|] == front;
  }

  lemma ReceiveReserveWithdraw(k: Key, a: Step, b: Step, c: Step)
    requires k == Key(0, 0, 0, 0, None, Available)
    requires a == PostStep([Movement(k, 10, false)]) && b == AdjustStep(Reserving, 0, 0, 0, 4) && c == PostStep([Movement(k, -8, false)])
    ensures AvailableOn(StockStep(StockStep(StockStep(NOTHING, a), b), c), k) == -2
  {
    var first, second := Stock([k], map[k := 10], map[k := 0]), Stock([k], map[k := 10], map[k := 4]);
    OneMovement(NOTHING, k, 10);
    OneMovement(second, k, -8);
    OneRow(first, k, 4);
    hide PostBatch, Adjusted, Sort;
    assert [] + [k] == [k];
    assert StockStep(NOTHING, a) == first;
    assert StockStep(first, b) == second;
  }

  lemma OneMovement(s: Stock, k: Key, quantity: int)
    ensures PostBatch(s, Sort([Movement(k, quantity, false)])) == PostRow(s, Movement(k, quantity, false))
  {
    var ms := [Movement(k, quantity, false)];
    assert ms[..0] == [] && Sort(ms) == ms;
  }

  lemma OneRow(s: Stock, k: Key, quantity: nat)
    requires s.order == [k] && k.state == Available && 0 < quantity <= AvailableOn(s, k)
    ensures Adjusted(s, Reserving, k.org, k.warehouse, k.product, quantity) ==
            Some(s.(reserved := s.reserved[k := Reserved(s, k) + quantity]))
  {
    assert s.order[..0] == [] && [] + [k] == [k];
    assert Selected(s, Reserving, [], k.org, k.warehouse, k.product) == [];
    assert Chosen(s, Reserving, k, k.org, k.warehouse, k.product);
    assert RowsOfProduct(s, Reserving, k.org, k.warehouse, k.product) == [k];
    assert [k][..0] == [];
    assert SpreadOver(s, Reserving, [], quantity) == Spread(s, quantity);
  }

  // ---------------------------------------------------------------- the service

  class StockBalances {
    var order: seq<Key>
    var onHand: Ledger.Balances
    var reserved: Ledger.Balances

    constructor (s: Stock)
      ensures View() == s
    {
      order, onHand, reserved := s.order, s.onHand, s.reserved;
    }

    function View(): Stock
      reads this
    {
      Stock(order, onHand, reserved)
    }

    /** The query for the rows, in creation order. */
    method FindRows(mode: Mode, org: nat, warehouse: nat, product: nat) returns (rows: seq<Key>)
      ensures rows == RowsOfProduct(View(), mode, org, warehouse, product)
    {
      rows := [];
      for i := 0 to |order|
        invariant rows == Selected(View(), mode, order[..i], org, warehouse, product)
      {
        assert order[..i + 1][..i] == order[..i];
        var k := order[i];
        if Chosen(View(), mode, k, org, warehouse, product) {
          rows := rows + [k];
        }
      }
      assert order[..|order|] == order;
    }

    /** One turn of the reservation loop, the conditional update included. */
    method ReserveRow(row: Key, remaining: int) returns (left: int)
      requires remaining > 0
      modifies this`reserved
      ensures var take := Take(Room(old(View()), Reserving, row), remaining);
        View() == Change(old(View()), Reserving, row, take) && left == remaining - take
    {
      left := remaining;
      var available := OnHand(onHand, row) - OnHand(reserved, row);
      if available <= 0 {
        return;
      }
      var take := if available < remaining then available else remaining;
      if OnHand(onHand, row) - OnHand(reserved, row) >= take {
        reserved := reserved[row := OnHand(reserved, row) + take];
        left := remaining - take;
      }
    }

    /** One turn of the release loop, the conditional update included. */
    method ReleaseRow(row: Key, remaining: int) returns (left: int)
      requires remaining > 0
      modifies this`reserved
      ensures var take := Take(Room(old(View()), Releasing, row), remaining);
        View() == Change(old(View()), Releasing, row, take) && left == remaining - take
    {
      left := remaining;
      var held := OnHand(reserved, row);
      if held <= 0 {
        return;
      }
      var take := if held < remaining then held else remaining;
      if OnHand(reserved, row) >= take {
        reserved := reserved[row := OnHand(reserved, row) - take];
        left := remaining - take;
      }
    }

    /** Refused when the rows cannot give the quantity; the session is then discarded. */
    method ReserveStock(org: nat, warehouse: nat, product: nat, quantity: int) returns (ok: bool)
      requires Valid(View())
      modifies this`reserved
      ensures ok <==> Adjusted(old(View()), Reserving, org, warehouse, product, quantity).Some?
      ensures ok ==> View() == Adjusted(old(View()), Reserving, org, warehouse, product, quantity).value
    {
      var remaining := quantity;
      if remaining <= 0 {
        return true;
      }
      var rows := FindRows(Reserving, org, warehouse, product);
      ghost var s := View();
      SelectedRows(s, Reserving, order, org, warehouse, product);
      hide Change, Take, Room, Selected, Valid, SpreadOver;
      NoSpread(s, Reserving, quantity);
      for i := 0 to |rows|
        invariant order == s.order && onHand == s.onHand
        invariant SpreadOver(s, Reserving, rows[..i], quantity) == Spread(View(), remaining)
      {
        SpreadStep(s, Reserving, rows, quantity, i);
        if remaining <= 0 {
          ExhaustedSpread(s, Reserving, rows, quantity, i);
          break;
        }
        remaining := ReserveRow(rows[i], remaining);
      }
      assert rows[..|rows|] == rows;
      ok := remaining <= 0;
    }

    /** Refused when not as much is reserved; the session is then discarded. */
    method ReleaseReservedStock(org: nat, warehouse: nat, product: nat, quantity: int) returns (ok: bool)
      requires Valid(View())
      modifies this`reserved
      ensures ok <==> Adjusted(old(View()), Releasing, org, warehouse, product, quantity).Some?
      ensures ok ==> View() == Adjusted(old(View()), Releasing, org, warehouse, product, quantity).value
    {
      var remaining := quantity;
      if remaining <= 0 {
        return true;
      }
      var rows := FindRows(Releasing, org, warehouse, product);
      ghost var s := View();
      SelectedRows(s, Releasing, order, org, warehouse, product);
      hide Change, Take, Room, Selected, Valid, SpreadOver;
      NoSpread(s, Releasing, quantity);
      for i := 0 to |rows|
        invariant order == s.order && onHand == s.onHand
        invariant SpreadOver(s, Releasing, rows[..i], quantity) == Spread(View(), remaining)
      {
        SpreadStep(s, Releasing, rows, quantity, i);
        if remaining <= 0 {
          ExhaustedSpread(s, Releasing, rows, quantity, i);
          break;
        }
        remaining := ReleaseRow(rows[i], remaining);
      }
      assert rows[..|rows|] == rows;
      ok := remaining <= 0;
    }
  }

  lemma NoSpread(s: Stock, mode: Mode, quantity: int)
    ensures SpreadOver(s, mode, [], quantity) == Spread(s, quantity)
  {
  }

  /** The room of a row is what it was before the loop, since every row is met once. */
  lemma SpreadStep(s: Stock, mode: Mode, rows: seq<Key>, quantity: int, i: nat)
    requires i < |rows| && DistinctRows(rows)
    ensures
      var before := SpreadOver(s, mode, rows[..i], quantity);
      var take := Take(Room(before.stock, mode, rows[i]), before.left);
      SpreadOver(s, mode, rows[..i + 1], quantity) == Spread(Change(before.stock, mode, rows[i], take), before.left - take)
  {
    assert rows[..i + 1][..i] == rows[..i];
    OutsideUntouched(s, mode, rows[..i], quantity, rows[i]);
    OnHandKept(s, mode, rows[..i], quantity);
  }

  lemma {:induction false} OnHandKept(s: Stock, mode: Mode, rows: seq<Key>, quantity: int)
    ensures SpreadOver(s, mode, rows, quantity).stock.onHand == s.onHand
  {
    if rows != [] {
      OnHandKept(s, mode, rows[..|rows| - 1], quantity);
    }
  }

  /** Once nothing is left to take, the remaining rows change nothing. */
  lemma {:induction false} ExhaustedSpread(s: Stock, mode: Mode, rows: seq<Key>, quantity: int, i: nat)
    requires i <= |rows| && SpreadOver(s, mode, rows[..i], quantity).left <= 0
    ensures SpreadOver(s, mode, rows, quantity) == SpreadOver(s, mode, rows[..i], quantity)
  {
    if i == |rows| {
      assert rows[..i] == rows;
    } else {
      assert rows[..|rows| - 1][..i] == rows[..i];
      ExhaustedSpread(s, mode, rows[..|rows| - 1], quantity, i);
    }
  }
}
