/** The barcode index kept by the product service. */
module ProductBarcodes {
  import opened Prelude

  datatype Product = Product(org: nat, sku: string, archived: bool, trackLots: bool, trackExpiry: bool)

  datatype BarcodeRow = BarcodeRow(org: nat, product: nat, barcode: string, isPrimary: bool)

  /** A product's identifier is its position; products are archived, never removed. */
  datatype Catalog = Catalog(products: seq<Product>, rows: seq<BarcodeRow>)

  const EMPTY := Catalog([], [])

  datatype Request =
    | Create(org: nat, sku: string, trackLots: bool, trackExpiry: bool, barcodes: seq<string>)
    | Update(org: nat, id: nat, newTrackLots: Option<bool>, newTrackExpiry: Option<bool>, newBarcodes: Option<seq<string>>)
    | Archive(org: nat, id: nat)

  datatype Error = Validation | Conflict | NotFound | DuplicateKey

  datatype Outcome = Done(catalog: Catalog, id: nat) | Failed(error: Error)

  // ---------------------------------------------------------------- the index

  predicate Distinct(barcodes: seq<string>) {
    forall i, j :: 0 <= i < j < |barcodes| ==> barcodes[i] != barcodes[j]
  }

  /** No row of another product (or of any product, for a new one) has one of the barcodes. */
  predicate Free(rows: seq<BarcodeRow>, org: nat, barcodes: seq<string>, exclude: Option<nat>) {
    forall r :: r in rows && r.org == org && r.barcode in barcodes ==> Some(r.product) == exclude
  }

  predicate Taken(rows: seq<BarcodeRow>, org: nat, barcode: string) {
    exists x :: x in rows && x.org == org && x.barcode == barcode
  }

  function Insert(rows: seq<BarcodeRow>, r: BarcodeRow): Option<seq<BarcodeRow>> {
    if Taken(rows, r.org, r.barcode) then None else Some(rows + [r])
  }

  /** Inserts one row per barcode, the first one primary; the unique index on (org, barcode) can refuse one. */
  function InsertAll(rows: seq<BarcodeRow>, org: nat, product: nat, barcodes: seq<string>): Option<seq<BarcodeRow>> {
    if barcodes == [] then Some(rows)
    else
      match InsertAll(rows, org, product, barcodes[..|barcodes| - 1])
      case None => None
      case Some(done) => Insert(done, BarcodeRow(org, product, barcodes[|barcodes| - 1], |barcodes| == 1))
  }

  /** The rows that hold a list of barcodes, in order. */
  function RowsFor(org: nat, product: nat, barcodes: seq<string>): seq<BarcodeRow> {
    if barcodes == [] then []
    else RowsFor(org, product, barcodes[..|barcodes| - 1]) + [BarcodeRow(org, product, barcodes[|barcodes| - 1], |barcodes| == 1)]
  }

  function Without(rows: seq<BarcodeRow>, product: nat): seq<BarcodeRow> {
    if rows == [] then []
    else Without(rows[..|rows| - 1], product) + (if rows[|rows| - 1].product == product then [] else [rows[|rows| - 1]])
  }

  function Of(rows: seq<BarcodeRow>, product: nat): seq<BarcodeRow> {
    if rows == [] then []
    else Of(rows[..|rows| - 1], product) + (if rows[|rows| - 1].product == product then [rows[|rows| - 1]] else [])
  }

  predicate UniqueIndex(rows: seq<BarcodeRow>) {
    forall i, j :: 0 <= i < j < |rows| ==> rows[i].org != rows[j].org || rows[i].barcode != rows[j].barcode
  }

  // ---------------------------------------------------------------- the operations

  predicate Found(c: Catalog, org: nat, id: nat) {
    id < |c.products| && c.products[id].org == org
  }

  predicate SkuTaken(products: seq<Product>, org: nat, sku: string) {
    exists p :: p in products && p.org == org && p.sku == sku
  }

  /** The checks made before the transaction, on the state they read. */
  function Refusal(seen: Catalog, req: Request): Option<Error> {
    match req
    case Create(org, sku, trackLots, trackExpiry, barcodes) =>
      if trackExpiry && !trackLots then Some(Validation)
      else if SkuTaken(seen.products, org, sku) then Some(Conflict)
      else BarcodeRefusal(seen, org, barcodes, None)
    case Update(org, id, _, _, newBarcodes) =>
      if !Found(seen, org, id) then Some(NotFound)
      else if seen.products[id].archived then Some(Validation)
      else if newBarcodes.Some? then BarcodeRefusal(seen, org, newBarcodes.value, Some(id))
      else None
    case Archive(_, _) => None
  }

  function BarcodeRefusal(seen: Catalog, org: nat, barcodes: seq<string>, exclude: Option<nat>): Option<Error> {
    if !Distinct(barcodes) then Some(Validation)
    else if !Free(seen.rows, org, barcodes, exclude) then Some(Conflict)
    else None
  }

  function WithFlags(p: Product, newTrackLots: Option<bool>, newTrackExpiry: Option<bool>): Product {
    p.(trackLots := if newTrackLots.Some? then newTrackLots.value else p.trackLots,
       trackExpiry := if newTrackExpiry.Some? then newTrackExpiry.value else p.trackExpiry)
  }

  /** The transaction, on the state it reads; the unique indexes on SKU and on barcode can still refuse. */
  function Write(now: Catalog, req: Request): Outcome {
    match req
    case Create(org, sku, trackLots, trackExpiry, barcodes) =>
      if SkuTaken(now.products, org, sku) then Failed(DuplicateKey)
      else
        (match InsertAll(now.rows, org, |now.products|, barcodes)
         case None => Failed(DuplicateKey)
         case Some(rows) =>
           Done(Catalog(now.products + [Product(org, sku, false, trackLots, trackExpiry)], rows), |now.products|))
    case Update(org, id, newTrackLots, newTrackExpiry, newBarcodes) =>
      if !Found(now, org, id) then Failed(NotFound)
      else
        var p := WithFlags(now.products[id], newTrackLots, newTrackExpiry);
        if p.trackExpiry && !p.trackLots then Failed(Validation)
        else if newBarcodes.None? then Done(now.(products := now.products[id := p]), id)
        else
          (match InsertAll(Without(now.rows, id), org, id, newBarcodes.value)
           case None => Failed(DuplicateKey)
           case Some(rows) => Done(Catalog(now.products[id := p], rows), id))
    case Archive(org, id) =>
      if !Found(now, org, id) then Failed(NotFound)
      else if now.products[id].archived then Failed(Validation)
      else Done(now.(products := now.products[id := now.products[id].(archived := true)]), id)
  }

  /**
   * The checks are made on the state `seen`, the writes on the state `now` of the transaction; in
   * between, other requests may have been carried out.
   */
  function Handle(seen: Catalog, now: Catalog, req: Request): Outcome {
    match Refusal(seen, req)
    case Some(error) => Failed(error)
    case None => Write(now, req)
  }

  /** A request together with how long ago its checks read the catalogue. */
  datatype Timed = Timed(req: Request, age: nat)

  /** All states of a run, the latest last. */
  function States(ts: seq<Timed>): (s: seq<Catalog>)
    ensures |s| == |ts| + 1
  {
    if ts == [] then [EMPTY]
    else
      var before := States(ts[..|ts| - 1]);
      var t := ts[|ts| - 1];
      before + [Next(SeenBy(before, t), before[|ts| - 1], t.req)]
  }

  /** The state a request's checks read: the current one, or an earlier one. */
  function SeenBy(states: seq<Catalog>, t: Timed): Catalog
    requires states != []
  {
    states[if t.age < |states| then |states| - 1 - t.age else 0]
  }

  function Next(seen: Catalog, now: Catalog, req: Request): Catalog {
    match Handle(seen, now, req)
    case Done(c, _) => c
    case Failed(_) => now
  }

  function Now(ts: seq<Timed>): Catalog {
    States(ts)[|ts|]
  }

  // ---------------------------------------------------------------- facts about rows

  lemma {:induction false} InsertAllIs(rows: seq<BarcodeRow>, org: nat, product: nat, barcodes: seq<string>)
    ensures InsertAll(rows, org, product, barcodes).Some? ==>
      && InsertAll(rows, org, product, barcodes).value == rows + RowsFor(org, product, barcodes)
      && (UniqueIndex(rows) ==> UniqueIndex(InsertAll(rows, org, product, barcodes).value))
  {
    if barcodes == [] {
      assert rows + [] == rows;
    } else {
      InsertAllIs(rows, org, product, barcodes[..|barcodes| - 1]);
    }
  }

  lemma {:induction false} RowsForMembers(org: nat, product: nat, barcodes: seq<string>)
    ensures |RowsFor(org, product, barcodes)| == |barcodes|
    ensures forall i :: 0 <= i < |barcodes| ==> RowsFor(org, product, barcodes)[i] == BarcodeRow(org, product, barcodes[i], i == 0)
  {
    if barcodes != [] {
      RowsForMembers(org, product, barcodes[..|barcodes| - 1]);
    }
  }

  lemma {:induction false} WithoutMembers(rows: seq<BarcodeRow>, product: nat)
    ensures forall r :: r in Without(rows, product) <==> r in rows && r.product != product
  {
    if rows != [] {
      WithoutMembers(rows[..|rows| - 1], product);
      assert rows == rows[..|rows| - 1] + [rows[|rows| - 1]];
    }
  }

  lemma {:induction false} WithoutUnique(rows: seq<BarcodeRow>, product: nat)
    requires UniqueIndex(rows)
    ensures UniqueIndex(Without(rows, product))
  {
    if rows != [] {
      var front, last := rows[..|rows| - 1], rows[|rows| - 1];
      WithoutUnique(front, product);
      WithoutMembers(front, product);
      forall r | r in Without(front, product) ensures r.org != last.org || r.barcode != last.barcode {
        assert r in front;
      }
    }
  }

  lemma {:induction false} WithoutOf(rows: seq<BarcodeRow>, product: nat, other: nat)
    ensures Of(Without(rows, product), other) == if other == product then [] else Of(rows, other)
  {
    if rows != [] {
      WithoutOf(rows[..|rows| - 1], product, other);
      var rest, last := Without(rows[..|rows| - 1], product), rows[|rows| - 1];
      if last.product != product {
        assert (rest + [last])[..|rest|] == rest;
      } else {
        assert rest + [] == rest;
        assert Of(rows[..|rows| - 1], other) + [] == Of(rows[..|rows| - 1], other);
      }
    }
  }

  lemma {:induction false} OfAppend(a: seq<BarcodeRow>, b: seq<BarcodeRow>, product: nat)
    ensures Of(a + b, product) == Of(a, product) + Of(b, product)
  {
    if b == [] {
      assert a + b == a;
    } else {
      OfAppend(a, b[..|b| - 1], product);
      assert (a + b)[..|a + b| - 1] == a + b[..|b| - 1];
    }
  }

  lemma {:induction false} OfRowsFor(org: nat, product: nat, barcodes: seq<string>, other: nat)
    ensures Of(RowsFor(org, product, barcodes), other) == if other == product then RowsFor(org, product, barcodes) else []
  {
    if barcodes != [] {
      OfRowsFor(org, product, barcodes[..|barcodes| - 1], other);
      var rows := RowsFor(org, product, barcodes);
      assert rows[..|rows| - 1] == RowsFor(org, product, barcodes[..|barcodes| - 1]);
    }
  }

  // ---------------------------------------------------------------- every run

  /** The barcode list a request brings, if it brings one. */
  function GivenList(req: Request): Option<seq<string>> {
    match req
    case Create(_, _, _, _, barcodes) => Some(barcodes)
    case Update(_, _, _, _, newBarcodes) => newBarcodes
    case Archive(_, _) => None
  }

  /** The barcode list the last accepted create or update of a product gave. */
  function LastAccepted(ts: seq<Timed>, id: nat): seq<string> {
    if ts == [] then []
    else
      var states := States(ts[..|ts| - 1]);
      var t := ts[|ts| - 1];
      var now := states[|ts| - 1];
      if Lists(SeenBy(states, t), now, t.req, id) then GivenList(t.req).value else LastAccepted(ts[..|ts| - 1], id)
  }

  /** The request is accepted and gives product `id` a new list. */
  predicate Lists(seen: Catalog, now: Catalog, req: Request, id: nat) {
    GivenList(req).Some? && Handle(seen, now, req).Done? && Handle(seen, now, req).id == id
  }

  predicate ProductOk(p: Product) {
    p.trackExpiry ==> p.trackLots
  }

  ghost predicate Inv(c: Catalog) {
    && UniqueIndex(c.rows)
    && (forall r :: r in c.rows ==> r.product < |c.products| && c.products[r.product].org == r.org)
    && (forall i :: 0 <= i < |c.products| ==> ProductOk(c.products[i]))
    && UniqueSkus(c.products)
  }

  /** The unique index on (org, SKU). */
  predicate UniqueSkus(products: seq<Product>) {
    forall i, j :: 0 <= i < j < |products| ==> products[i].org != products[j].org || products[i].sku != products[j].sku
  }

  /** The rows a request that brings a list starts from: a new product has none, an updated one loses its own. */
  function Base(now: Catalog, req: Request): seq<BarcodeRow> {
    if req.Update? then Without(now.rows, req.id) else now.rows
  }

  lemma BaseUnique(now: Catalog, req: Request)
    requires UniqueIndex(now.rows)
    ensures UniqueIndex(Base(now, req))
    ensures forall r :: r in Base(now, req) ==> r in now.rows
  {
    if req.Update? {
      WithoutUnique(now.rows, req.id);
      WithoutMembers(now.rows, req.id);
    }
  }

  lemma RowsShape(seen: Catalog, now: Catalog, req: Request)
    requires Handle(seen, now, req).Done?
    ensures
      var out := Handle(seen, now, req);
      match GivenList(req)
      case None => out.catalog.rows == now.rows
      case Some(given) =>
        && out.catalog.rows == Base(now, req) + RowsFor(req.org, out.id, given)
        && (UniqueIndex(Base(now, req)) ==> UniqueIndex(out.catalog.rows))
  {
    var out := Handle(seen, now, req);
    if GivenList(req).Some? {
      InsertAllIs(Base(now, req), req.org, out.id, GivenList(req).value);
    }
  }

  /** A request adds or replaces one product, keeps its organization, and never ends with expiry but no lots. */
  lemma ProductsShape(seen: Catalog, now: Catalog, req: Request)
    requires Handle(seen, now, req).Done? && forall i :: 0 <= i < |now.products| ==> ProductOk(now.products[i])
    ensures
      var out := Handle(seen, now, req);
      var products' := out.catalog.products;
      && |now.products| <= |products'| && out.id < |products'|
      && products'[out.id].org == req.org && ProductOk(products'[out.id])
      && (if req.Create? then out.id == |now.products| else out.id == req.id < |now.products|)
      && (forall i :: 0 <= i < |products'| && i != out.id ==> i < |now.products| && products'[i] == now.products[i])
      && (out.id < |now.products| ==> now.products[out.id].org == req.org && now.products[out.id].sku == products'[out.id].sku)
      && (req.Create? ==> !SkuTaken(now.products, req.org, products'[out.id].sku))
  {
  }

  /** Whatever the checks saw, the writes keep the index unique and every row with its own product's organization. */
  lemma StepKeepsInv(seen: Catalog, now: Catalog, req: Request)
    requires Inv(now)
    ensures Inv(Next(seen, now, req))
    ensures |now.products| <= |Next(seen, now, req).products|
  {
    if Handle(seen, now, req).Done? {
      var out := Handle(seen, now, req);
      ProductsShape(seen, now, req);
      RowsShape(seen, now, req);
      BaseUnique(now, req);
      hide Handle;
      var c := out.catalog;
      forall r | r in c.rows ensures r.product < |c.products| && c.products[r.product].org == r.org {
        if r !in now.rows {
          RowsForMembers(req.org, out.id, GivenList(req).value);
        }
      }
      forall i | 0 <= i < |c.products| ensures ProductOk(c.products[i]) {
        if i != out.id {
          assert ProductOk(now.products[i]);
        }
      }
      forall i, j | 0 <= i < j < |c.products|
        ensures c.products[i].org != c.products[j].org || c.products[i].sku != c.products[j].sku
      {
        if j == |now.products| {
          assert now.products[i] in now.products;
        }
      }
    }
  }

  lemma {:induction false} RunKeepsInv(ts: seq<Timed>)
    ensures Inv(Now(ts))
  {
    if ts != [] {
      var states := States(ts[..|ts| - 1]);
      RunKeepsInv(ts[..|ts| - 1]);
      StepKeepsInv(SeenBy(states, ts[|ts| - 1]), Now(ts[..|ts| - 1]), ts[|ts| - 1].req);
    }
  }

  /** What one request does to the rows of one product. */
  lemma RowsStep(seen: Catalog, now: Catalog, req: Request, id: nat)
    requires Inv(now)
    ensures
      var given := GivenList(req);
      var out := Handle(seen, now, req);
      Of(Next(seen, now, req).rows, id) ==
        if out.Done? && out.id == id && given.Some? then RowsFor(req.org, id, given.value) else Of(now.rows, id)
  {
    hide InsertAll, Distinct, Free, UniqueIndex, RowsFor, Of;
    var out := Handle(seen, now, req);
    if out.Done? {
      RowsShape(seen, now, req);
      ProductsShape(seen, now, req);
      hide Handle;
      if GivenList(req).Some? {
        var given := RowsFor(req.org, out.id, GivenList(req).value);
        OfAppend(Base(now, req), given, id);
        OfRowsFor(req.org, out.id, GivenList(req).value, id);
        BaseOf(now, req, out.id, id);
        assert Of(now.rows, id) + [] == Of(now.rows, id);
        assert [] + given == given;
      }
    }
  }

  /** The base holds nothing of the product the list is for, and everything of the others. */
  lemma BaseOf(now: Catalog, req: Request, target: nat, id: nat)
    requires Inv(now) && (if req.Create? then target == |now.products| else req.Update? && target == req.id)
    ensures Of(Base(now, req), id) == if id == target then [] else Of(now.rows, id)
  {
    if req.Update? {
      WithoutOf(now.rows, req.id, id);
    } else if id == target {
      NoRowsYet(now.rows, id);
    }
  }

  lemma {:induction false} NoRowsYet(rows: seq<BarcodeRow>, id: nat)
    requires forall r :: r in rows ==> r.product < id
    ensures Of(rows, id) == []
  {
    if rows != [] {
      assert rows[|rows| - 1] in rows;
      NoRowsYet(rows[..|rows| - 1], id);
    }
  }

  /**
   * Index agreement over every run, however stale the checks: a barcode belongs to at most one
   * product of an organization; a product's rows are exactly its last accepted list, the first of
   * them and no other primary; and tracking expiry implies tracking lots.
   */
  lemma {:induction false} IndexAgreement(ts: seq<Timed>, id: nat)
    ensures Inv(Now(ts))
    ensures id < |Now(ts).products| ==> Of(Now(ts).rows, id) == RowsFor(Now(ts).products[id].org, id, LastAccepted(ts, id))
    ensures id >= |Now(ts).products| ==> Of(Now(ts).rows, id) == []
  {
    hide Handle, RowsFor, Inv, Lists, GivenList, Next;
    RunKeepsInv(ts);
    if ts != [] {
      var front, t := ts[..|ts| - 1], ts[|ts| - 1];
      IndexAgreement(front, id);
      RunKeepsInv(front);
      AgreementStep(SeenBy(States(front), t), Now(front), t.req, id, LastAccepted(front, id));
    }
  }

  lemma AgreementStep(seen: Catalog, now: Catalog, req: Request, id: nat, list: seq<string>)
    requires Inv(now)
    requires id < |now.products| ==> Of(now.rows, id) == RowsFor(now.products[id].org, id, list)
    requires id >= |now.products| ==> Of(now.rows, id) == []
    ensures var c := Next(seen, now, req);
      && (id < |c.products| ==>
          Of(c.rows, id) == RowsFor(c.products[id].org, id, if Lists(seen, now, req, id) then GivenList(req).value else list))
      && (id >= |c.products| ==> Of(c.rows, id) == [])
  {
    RowsStep(seen, now, req, id);
    if Handle(seen, now, req).Done? {
      ProductsShape(seen, now, req);
      hide Handle;
    }
  }

  lemma OwnedOnce(ts: seq<Timed>, r: BarcodeRow, q: BarcodeRow)
    requires r in Now(ts).rows && q in Now(ts).rows && r.org == q.org && r.barcode == q.barcode
    ensures r == q
  {
    RunKeepsInv(ts);
    var rows := Now(ts).rows;
    var i :| 0 <= i < |rows| && rows[i] == r;
    var j :| 0 <= j < |rows| && rows[j] == q;
    if i != j {
      assert UniqueIndex(rows);
    }
  }

  // ---------------------------------------------------------------- when the checks are current

  /**
   * Checked against the current state, the barcodes are accepted exactly when they are distinct and
   * not in use by another product; the unique index then never has to refuse.
   */
  lemma {:induction false} FreshChecksSuffice(rows: seq<BarcodeRow>, org: nat, product: nat, barcodes: seq<string>)
    ensures Distinct(barcodes) && Free(rows, org, barcodes, None) <==> InsertAll(rows, org, product, barcodes).Some?
  {
    if barcodes != [] {
      var front, last := barcodes[..|barcodes| - 1], barcodes[|barcodes| - 1];
      FreshChecksSuffice(rows, org, product, front);
      assert barcodes == front + [last];
      OneMoreBarcode(rows, org, front, last);
      if InsertAll(rows, org, product, front).Some? {
        InsertAllIs(rows, org, product, front);
        TakenByFront(rows, org, product, front, last);
      }
    }
  }

  lemma OneMoreBarcode(rows: seq<BarcodeRow>, org: nat, front: seq<string>, last: string)
    ensures Distinct(front + [last]) <==> Distinct(front) && last !in front
    ensures Free(rows, org, front + [last], None) <==> Free(rows, org, front, None) && !Taken(rows, org, last)
  {
    var all := front + [last];
    assert all[..|front|] == front && all[|front|] == last;
    assert forall i :: 0 <= i < |front| ==> all[i] == front[i];
    assert Distinct(all) ==> forall i, j :: 0 <= i < j < |front| ==> all[i] != all[j];
  }

  lemma TakenByFront(rows: seq<BarcodeRow>, org: nat, product: nat, front: seq<string>, last: string)
    ensures Taken(rows + RowsFor(org, product, front), org, last) <==> Taken(rows, org, last) || last in front
  {
    RowsForMembers(org, product, front);
    var added := RowsFor(org, product, front);
    if last in front {
      var i :| 0 <= i < |front| && front[i] == last;
      assert added[i] in rows + added;
    }
    if Taken(rows, org, last) {
      var x :| x in rows && x.org == org && x.barcode == last;
      assert x in rows + added;
    }
  }

  /** An update is accepted exactly when its barcodes are distinct and free and it does not end with expiry but no lots. */
  lemma UpdateAcceptedIff(c: Catalog, req: Request)
    requires Inv(c) && req.Update? && Found(c, req.org, req.id) && !c.products[req.id].archived
    ensures var p := WithFlags(c.products[req.id], req.newTrackLots, req.newTrackExpiry);
      Handle(c, c, req).Done? <==>
        && ProductOk(p)
        && (req.newBarcodes.Some? ==>
            Distinct(req.newBarcodes.value) && Free(c.rows, req.org, req.newBarcodes.value, Some(req.id)))
  {
    if req.newBarcodes.Some? {
      WithoutMembers(c.rows, req.id);
      FreshChecksSuffice(Without(c.rows, req.id), req.org, req.id, req.newBarcodes.value);
    }
  }

  /** A product of the organization has the SKU. */
  predicate SkuInUse(c: Catalog, org: nat, sku: string) {
    exists i :: 0 <= i < |c.products| && c.products[i].org == org && c.products[i].sku == sku
  }

  /** A product of the organization, other than `except`, has one of the barcodes. */
  predicate BarcodeInUse(c: Catalog, org: nat, barcodes: seq<string>, except: Option<nat>) {
    exists i, j :: 0 <= i < |c.rows| && 0 <= j < |barcodes| && c.rows[i].org == org && c.rows[i].barcode == barcodes[j] && Some(c.rows[i].product) != except
  }

  predicate Repeats(barcodes: seq<string>) {
    exists i, j :: 0 <= i < j < |barcodes| && barcodes[i] == barcodes[j]
  }

  /** Exactly this product is added, with its barcodes in order, the first of them primary. */
  predicate ProductAdded(before: Catalog, after: Catalog, id: nat, org: nat, sku: string, trackLots: bool, trackExpiry: bool, barcodes: seq<string>) {
    && id == |before.products| && after.products == before.products + [Product(org, sku, false, trackLots, trackExpiry)]
    && RowsAdded(before.rows, after.rows, id, org, barcodes)
  }

  predicate RowsAdded(before: seq<BarcodeRow>, after: seq<BarcodeRow>, id: nat, org: nat, barcodes: seq<string>) {
    && |after| == |before| + |barcodes| && after[..|before|] == before
    && forall i :: 0 <= i < |barcodes| ==> after[|before| + i] == BarcodeRow(org, id, barcodes[i], i == 0)
  }

  lemma {:induction false} RowsForAt(org: nat, product: nat, barcodes: seq<string>)
    ensures |RowsFor(org, product, barcodes)| == |barcodes|
    ensures forall i :: 0 <= i < |barcodes| ==> RowsFor(org, product, barcodes)[i] == BarcodeRow(org, product, barcodes[i], i == 0)
  {
    if barcodes != [] {
      RowsForAt(org, product, barcodes[..|barcodes| - 1]);
    }
  }

  lemma FreeIff(c: Catalog, org: nat, barcodes: seq<string>, exclude: Option<nat>)
    ensures Free(c.rows, org, barcodes, exclude) <==> !BarcodeInUse(c, org, barcodes, exclude)
    ensures Distinct(barcodes) <==> !Repeats(barcodes)
  {
    assert forall i, j :: 0 <= i < |c.rows| && 0 <= j < |barcodes| ==> c.rows[i] in c.rows && barcodes[j] in barcodes;
    if !BarcodeInUse(c, org, barcodes, exclude) {
      forall r | r in c.rows && r.org == org && r.barcode in barcodes ensures Some(r.product) == exclude {
        var i :| 0 <= i < |c.rows| && c.rows[i] == r;
        var j :| 0 <= j < |barcodes| && barcodes[j] == r.barcode;
      }
    }
  }

  /**
   * The whole answer to a create request checked on `seen` and carried out on `now`: it is refused
   * before the transaction for expiry without lots, a SKU in use, repeated barcodes or a barcode in
   * use, in that order; refused by the indexes if SKU or barcodes have come into use since; and
   * otherwise adds exactly the product asked for.
   */
  lemma CreateAnswer(seen: Catalog, now: Catalog, org: nat, sku: string, trackLots: bool, trackExpiry: bool, barcodes: seq<string>)
    ensures var req := Create(org, sku, trackLots, trackExpiry, barcodes);
      var out := Handle(seen, now, req);
      if trackExpiry && !trackLots then out == Failed(Validation)
      else if SkuInUse(seen, org, sku) then out == Failed(Conflict)
      else if Repeats(barcodes) then out == Failed(Validation)
      else if BarcodeInUse(seen, org, barcodes, None) then out == Failed(Conflict)
      else if SkuInUse(now, org, sku) || BarcodeInUse(now, org, barcodes, None) then out == Failed(DuplicateKey)
      else out.Done? && ProductAdded(now, out.catalog, out.id, org, sku, trackLots, trackExpiry, barcodes)
  {
    hide InsertAll, Free, Distinct, RowsFor, Repeats, BarcodeInUse;
    SkuTakenIff(seen, org, sku);
    SkuTakenIff(now, org, sku);
    FreeIff(seen, org, barcodes, None);
    FreeIff(now, org, barcodes, None);
    FreshChecksSuffice(now.rows, org, |now.products|, barcodes);
    hide SkuTaken, SkuInUse;
    if InsertAll(now.rows, org, |now.products|, barcodes).Some? {
      InsertAllIs(now.rows, org, |now.products|, barcodes);
      RowsForAt(org, |now.products|, barcodes);
    }
  }

  lemma SkuTakenIff(c: Catalog, org: nat, sku: string)
    ensures SkuTaken(c.products, org, sku) <==> SkuInUse(c, org, sku)
  {
    if SkuInUse(c, org, sku) {
      var i :| 0 <= i < |c.products| && c.products[i].org == org && c.products[i].sku == sku;
      assert c.products[i] in c.products;
    }
  }

  /** The product's flags become those given, or stay; nothing else of it and no other product changes. */
  predicate ProductUpdated(before: Catalog, after: Catalog, id: nat, newTrackLots: Option<bool>, newTrackExpiry: Option<bool>) {
    && id < |before.products| && |after.products| == |before.products|
    && (forall i :: 0 <= i < |before.products| && i != id ==> after.products[i] == before.products[i])
    && var p, q := before.products[id], after.products[id];
       && q.org == p.org && q.sku == p.sku && q.archived == p.archived
       && q.trackLots == (if newTrackLots == Some(true) then true else if newTrackLots == Some(false) then false else p.trackLots)
       && q.trackExpiry == (if newTrackExpiry == Some(true) then true else if newTrackExpiry == Some(false) then false else p.trackExpiry)
  }

  /** The product would end with expiry tracking but no lot tracking. */
  predicate FlagsClash(p: Product, newTrackLots: Option<bool>, newTrackExpiry: Option<bool>) {
    && (newTrackExpiry == Some(true) || (newTrackExpiry == None && p.trackExpiry))
    && (newTrackLots == Some(false) || (newTrackLots == None && !p.trackLots))
  }

  /** The rows of other products stay in place; those of this one are the new list, if there is one. */
  ghost predicate RowsReplaced(before: Catalog, after: Catalog, id: nat, org: nat, newBarcodes: Option<seq<string>>) {
    if newBarcodes.None? then after.rows == before.rows
    else
      && (forall other :: other != id ==> Of(after.rows, other) == Of(before.rows, other))
      && RowsAdded([], Of(after.rows, id), id, org, newBarcodes.value)
  }

  /** The whole answer to an update checked on `seen` and carried out on `now`. */
  lemma UpdateAnswer(seen: Catalog, now: Catalog, org: nat, id: nat, newTrackLots: Option<bool>, newTrackExpiry: Option<bool>,
                     newBarcodes: Option<seq<string>>)
    requires Inv(now)
    ensures var out := Handle(seen, now, Update(org, id, newTrackLots, newTrackExpiry, newBarcodes));
      if !(id < |seen.products| && seen.products[id].org == org) then out == Failed(NotFound)
      else if seen.products[id].archived then out == Failed(Validation)
      else if newBarcodes.Some? && Repeats(newBarcodes.value) then out == Failed(Validation)
      else if newBarcodes.Some? && BarcodeInUse(seen, org, newBarcodes.value, Some(id)) then out == Failed(Conflict)
      else if !(id < |now.products| && now.products[id].org == org) then out == Failed(NotFound)
      else if FlagsClash(now.products[id], newTrackLots, newTrackExpiry) then out == Failed(Validation)
      else if newBarcodes.Some? && BarcodeInUse(now, org, newBarcodes.value, Some(id)) then out == Failed(DuplicateKey)
      else
        && out.Done? && out.id == id
        && ProductUpdated(now, out.catalog, id, newTrackLots, newTrackExpiry)
        && RowsReplaced(now, out.catalog, id, org, newBarcodes)
  {
    hide InsertAll, Free, Distinct, RowsFor, Of, Repeats, BarcodeInUse, Without, RowsAdded, UniqueIndex;
    if newBarcodes.Some? {
      FreeIff(seen, org, newBarcodes.value, Some(id));
      FreeIff(now, org, newBarcodes.value, Some(id));
      FreeWithout(now.rows, org, id, newBarcodes.value);
      FreshChecksSuffice(Without(now.rows, id), org, id, newBarcodes.value);
      var req := Update(org, id, newTrackLots, newTrackExpiry, newBarcodes);
      if Handle(seen, now, req).Done? {
        RowsReplacedBy(seen, now, req);
      }
    }
  }

  /** Without the product's own rows, the barcodes are free exactly when no other product has one. */
  lemma FreeWithout(rows: seq<BarcodeRow>, org: nat, id: nat, barcodes: seq<string>)
    ensures Free(Without(rows, id), org, barcodes, None) <==> Free(rows, org, barcodes, Some(id))
  {
    WithoutMembers(rows, id);
  }

  lemma RowsReplacedBy(seen: Catalog, now: Catalog, req: Request)
    requires Inv(now) && req.Update? && req.newBarcodes.Some? && Handle(seen, now, req).Done?
    ensures Handle(seen, now, req).id == req.id && RowsReplaced(now, Handle(seen, now, req).catalog, req.id, req.org, req.newBarcodes)
  {
    hide InsertAll, Free, Distinct, Of, Without, UniqueIndex;
    var after := Handle(seen, now, req).catalog;
    RowsForAt(req.org, req.id, req.newBarcodes.value);
    RowsStep(seen, now, req, req.id);
    forall other | other != req.id ensures Of(after.rows, other) == Of(now.rows, other) {
      RowsStep(seen, now, req, other);
    }
  }

  // ---------------------------------------------------------------- archived products

  predicate LeavesAlone(seen: Catalog, now: Catalog, req: Request, id: nat)
    requires id < |now.products|
  {
    && id < |Next(seen, now, req).products| && Next(seen, now, req).products[id] == now.products[id]
    && Of(Next(seen, now, req).rows, id) == Of(now.rows, id)
  }

  /** No request changes an archived product if its checks found it archived, or did not find it at all. */
  lemma ArchivedStays(seen: Catalog, now: Catalog, req: Request, id: nat)
    requires Inv(now) && id < |now.products| && now.products[id].archived
    requires id < |seen.products| ==> seen.products[id].archived
    ensures LeavesAlone(seen, now, req, id)
  {
    RowsStep(seen, now, req, id);
    if Handle(seen, now, req).Done? {
      ProductsShape(seen, now, req);
    }
  }

  /**
   * An archived product and its barcodes are safe from every request exactly when the checks read a
   * state in which the product was archived already, or did not exist yet.
   */
  lemma ArchivedSafeIff(seen: Catalog, now: Catalog, id: nat)
    requires Inv(now) && id < |now.products| && now.products[id].archived
    requires id < |seen.products| ==> seen.products[id].org == now.products[id].org
    ensures (forall req :: LeavesAlone(seen, now, req, id)) <==> (id < |seen.products| ==> seen.products[id].archived)
  {
    if id < |seen.products| && !seen.products[id].archived {
      var p := now.products[id];
      var req := Update(p.org, id, Some(!p.trackLots), Some(false), None);
      assert Handle(seen, now, req).Done?;
      assert !LeavesAlone(seen, now, req, id);
    } else {
      forall req ensures LeavesAlone(seen, now, req, id) {
        ArchivedStays(seen, now, req, id);
      }
    }
  }

  /** Products stay and keep their organization over every run. */
  lemma {:induction false} ProductsStay(ts: seq<Timed>, n: nat, id: nat)
    requires n <= |ts| && id < |States(ts)[n].products|
    ensures id < |Now(ts).products| && Now(ts).products[id].org == States(ts)[n].products[id].org
  {
    if n < |ts| {
      var front, t := ts[..|ts| - 1], ts[|ts| - 1];
      ProductsStay(front, n, id);
      RunKeepsInv(front);
      var seen := SeenBy(States(front), t);
      if Handle(seen, Now(front), t.req).Done? {
        ProductsShape(seen, Now(front), t.req);
      }
    }
  }

  /** In every run, for every age of the checks: an archived product is safe exactly when it was archived or absent by then. */
  lemma ArchivedSafeInRuns(ts: seq<Timed>, age: nat, id: nat)
    requires id < |Now(ts).products| && Now(ts).products[id].archived
    ensures var n := if age <= |ts| then |ts| - age else 0;
      (forall req :: LeavesAlone(States(ts)[n], Now(ts), req, id)) <==>
        (id < |States(ts)[n].products| ==> States(ts)[n].products[id].archived)
  {
    RunKeepsInv(ts);
    var n := if age <= |ts| then |ts| - age else 0;
    if id < |States(ts)[n].products| {
      ProductsStay(ts, n, id);
    }
    ArchivedSafeIff(States(ts)[n], Now(ts), id);
  }

  /** Such an update exists: one checked just before the product was archived and carried out just after. */
  lemma StaleUpdateOfArchived()
    ensures exists ts, id :: StaleEdit(ts, id)
  {
    ArchivedInTwoSteps();
    OneBarcode();
    NextState(OPENING, STALE);
    var ts := OPENING + [STALE];
    assert ts[..|ts| - 1] == OPENING;
    hide States, InsertAll, Of;
    assert Now(ts) == Catalog(ARCHIVED.products, [BarcodeRow(0, 0, "1", true)]);
    assert StaleEdit(ts, 0);
  }

  const CREATED := Catalog([Product(0, "sku", false, false, false)], [])
  const ARCHIVED := Catalog([Product(0, "sku", true, false, false)], [])

  /** A product is created and archived; then an update arrives whose checks were made in between. */
  const OPENING := [Timed(Create(0, "sku", false, false, []), 0), Timed(Archive(0, 0), 0)]
  const STALE := Timed(Update(0, 0, None, None, Some(["1"])), 1)

  lemma ArchivedInTwoSteps()
    ensures States(OPENING) == [EMPTY, CREATED, ARCHIVED]
  {
    CreatedThenArchived();
    hide Next;
    var create, archive := OPENING[0], OPENING[1];
    NextState([], create);
    assert [] + [create] == [create];
    assert States([]) == [EMPTY];
    assert States([create]) == [EMPTY, CREATED];
    NextState([create], archive);
    assert [create] + [archive] == OPENING;
  }

  lemma CreatedThenArchived()
    ensures Next(EMPTY, EMPTY, OPENING[0].req) == CREATED
    ensures Next(CREATED, CREATED, OPENING[1].req) == ARCHIVED
  {
    assert InsertAll([], 0, 0, []) == Some([]);
    assert EMPTY.products + CREATED.products == CREATED.products;
  }

  lemma NextState(ts: seq<Timed>, t: Timed)
    ensures States(ts + [t]) == States(ts) + [Next(SeenBy(States(ts), t), Now(ts), t.req)]
  {
    assert (ts + [t])[..|ts|] == ts;
  }

  lemma OneBarcode()
    ensures InsertAll(Without([], 0), 0, 0, ["1"]) == Some([BarcodeRow(0, 0, "1", true)])
    ensures Distinct(["1"]) && Of([], 0) == [] && Of([BarcodeRow(0, 0, "1", true)], 0) == [BarcodeRow(0, 0, "1", true)]
  {
    assert ["1"][..0] == [];
    assert InsertAll([], 0, 0, []) == Some([]);
    assert [] + [BarcodeRow(0, 0, "1", true)] == [BarcodeRow(0, 0, "1", true)];
    assert InsertAll([], 0, 0, ["1"]) == Insert([], BarcodeRow(0, 0, "1", true));
    assert [BarcodeRow(0, 0, "1", true)][..0] == [];
  }

  /** The last request of the run changed the barcodes of a product that was archived. */
  predicate StaleEdit(ts: seq<Timed>, id: nat) {
    && ts != []
    && id < |Now(ts[..|ts| - 1]).products| && Now(ts[..|ts| - 1]).products[id].archived
    && Of(Now(ts).rows, id) != Of(Now(ts[..|ts| - 1]).rows, id)
  }

  // ---------------------------------------------------------------- reading a product's barcodes

  /** A query sorted by `isPrimary` descending: some order of the product's rows with the primary ones first. */
  ghost predicate QueryResult(rows: seq<BarcodeRow>, product: nat, got: seq<BarcodeRow>) {
    && multiset(got) == multiset(Of(rows, product))
    && forall i, j :: 0 <= i < j < |got| ==> got[i].isPrimary || !got[j].isPrimary
  }

  /** However the query orders the rest, it starts with the first barcode of the last accepted list. */
  lemma QueryStartsWithPrimary(ts: seq<Timed>, id: nat, got: seq<BarcodeRow>)
    requires id < |Now(ts).products| && QueryResult(Now(ts).rows, id, got)
    ensures |got| == |LastAccepted(ts, id)|
    ensures got != [] ==> got[0].barcode == LastAccepted(ts, id)[0]
  {
    IndexAgreement(ts, id);
    var list := LastAccepted(ts, id);
    var rows := RowsFor(Now(ts).products[id].org, id, list);
    RowsForMembers(Now(ts).products[id].org, id, list);
    assert |multiset(got)| == |got| && |multiset(rows)| == |rows|;
    if got != [] {
      assert rows[0] in multiset(rows) && rows[0] in multiset(got);
      var i :| 0 <= i < |got| && got[i] == rows[0];
      assert got[0].isPrimary;
      assert got[0] in multiset(got) && got[0] in multiset(rows);
      var j :| 0 <= j < |rows| && rows[j] == got[0];
    }
  }

  // ---------------------------------------------------------------- the service

  class Catalogue {
    var products: seq<Product>
    var rows: seq<BarcodeRow>

    constructor ()
      ensures View() == EMPTY
    {
      products, rows := [], [];
    }

    function View(): Catalog
      reads this
    {
      Catalog(products, rows)
    }

    /** The availability check, made before the transaction. */
    method AssertBarcodesAvailable(org: nat, barcodes: seq<string>, exclude: Option<nat>) returns (r: Option<Error>)
      ensures r == if !Distinct(barcodes) then Some(Validation)
                   else if !Free(rows, org, barcodes, exclude) then Some(Conflict)
                   else None
    {
      if |barcodes| == 0 {
        return None;
      }
      if exists i, j :: 0 <= i < j < |barcodes| && barcodes[i] == barcodes[j] {
        return Some(Validation);
      }
      for i := 0 to |rows|
        invariant forall k :: 0 <= k < i && rows[k].org == org && rows[k].barcode in barcodes ==> Some(rows[k].product) == exclude
      {
        if rows[i].org == org && rows[i].barcode in barcodes && Some(rows[i].product) != exclude {
          assert rows[i] in rows;
          return Some(Conflict);
        }
      }
      return None;
    }

    /** The insertion loop, on the transaction's copy of the rows. */
    method InsertBarcodes(start: seq<BarcodeRow>, org: nat, product: nat, barcodes: seq<string>) returns (r: Option<seq<BarcodeRow>>)
      ensures r == InsertAll(start, org, product, barcodes)
    {
      var now := start;
      for i := 0 to |barcodes|
        invariant InsertAll(start, org, product, barcodes[..i]) == Some(now)
      {
        assert barcodes[..i + 1][..i] == barcodes[..i];
        var row := BarcodeRow(org, product, barcodes[i], i == 0);
        if Taken(now, row.org, row.barcode) {
          RefusedInsert(start, org, product, barcodes, i + 1);
          return None;
        }
        now := now + [row];
      }
      assert barcodes[..|barcodes|] == barcodes;
      return Some(now);
    }

    /** What other clients leave when the transaction begins. */
    method Become(c: Catalog)
      modifies this
      ensures View() == c
    {
      products, rows := c.products, c.rows;
    }

    /** The checks read the current state; the transaction runs on the state `meanwhile` that other clients have left by then. */
    method CreateProduct(org: nat, sku: string, trackLots: bool, trackExpiry: bool, barcodes: seq<string>, meanwhile: Catalog)
      returns (r: Result<nat, Error>)
      modifies this
      ensures Carried(old(View()), meanwhile, Create(org, sku, trackLots, trackExpiry, barcodes), r, View())
      ensures r.Ok? <==>
        && (trackExpiry ==> trackLots) && !Repeats(barcodes)
        && !SkuInUse(old(View()), org, sku) && !BarcodeInUse(old(View()), org, barcodes, None)
        && !SkuInUse(meanwhile, org, sku) && !BarcodeInUse(meanwhile, org, barcodes, None)
      ensures r.Ok? ==> ProductAdded(meanwhile, View(), r.value, org, sku, trackLots, trackExpiry, barcodes)
    {
      CreateAnswer(View(), meanwhile, org, sku, trackLots, trackExpiry, barcodes);
      hide SkuInUse, BarcodeInUse, Repeats, ProductAdded;
      if trackExpiry && !trackLots {
        return Err(Validation);
      }
      if SkuTaken(products, org, sku) {
        return Err(Conflict);
      }
      var refused := AssertBarcodesAvailable(org, barcodes, None);
      if refused.Some? {
        return Err(refused.value);
      }
      Become(meanwhile);
      if SkuTaken(products, org, sku) {
        return Err(DuplicateKey);
      }
      var id := |products|;
      var inserted := InsertBarcodes(rows, org, id, barcodes);
      if inserted.None? {
        return Err(DuplicateKey);
      }
      products := products + [Product(org, sku, false, trackLots, trackExpiry)];
      rows := inserted.value;
      return Ok(id);
    }

    method UpdateProduct(org: nat, id: nat, newTrackLots: Option<bool>, newTrackExpiry: Option<bool>, newBarcodes: Option<seq<string>>,
                         meanwhile: Catalog)
      returns (r: Result<nat, Error>)
      modifies this
      ensures Carried(old(View()), meanwhile, Update(org, id, newTrackLots, newTrackExpiry, newBarcodes), r, View())
      ensures Inv(meanwhile) ==> (r.Ok? <==>
        && id < |old(products)| && old(products)[id].org == org && !old(products)[id].archived
        && id < |meanwhile.products| && meanwhile.products[id].org == org
        && !FlagsClash(meanwhile.products[id], newTrackLots, newTrackExpiry)
        && (newBarcodes.Some? ==>
            && !Repeats(newBarcodes.value)
            && !BarcodeInUse(old(View()), org, newBarcodes.value, Some(id)) && !BarcodeInUse(meanwhile, org, newBarcodes.value, Some(id))))
      ensures r.Ok? && Inv(meanwhile) ==>
        ProductUpdated(meanwhile, View(), id, newTrackLots, newTrackExpiry) && RowsReplaced(meanwhile, View(), id, org, newBarcodes)
    {
      if Inv(meanwhile) {
        UpdateAnswer(View(), meanwhile, org, id, newTrackLots, newTrackExpiry, newBarcodes);
      }
      hide BarcodeInUse, Repeats, ProductUpdated, RowsReplaced, FlagsClash, Inv;
      if !Found(View(), org, id) {
        return Err(NotFound);
      }
      if products[id].archived {
        return Err(Validation);
      }
      if newBarcodes.Some? {
        var refused := AssertBarcodesAvailable(org, newBarcodes.value, Some(id));
        if refused.Some? {
          return Err(refused.value);
        }
      }
      Become(meanwhile);
      if !Found(View(), org, id) {
        return Err(NotFound);
      }
      var product := products[id];
      if newTrackLots.Some? {
        product := product.(trackLots := newTrackLots.value);
      }
      if newTrackExpiry.Some? {
        product := product.(trackExpiry := newTrackExpiry.value);
      }
      if product.trackExpiry && !product.trackLots {
        return Err(Validation);
      }
      if newBarcodes.Some? {
        var inserted := InsertBarcodes(Without(rows, id), org, id, newBarcodes.value);
        if inserted.None? {
          return Err(DuplicateKey);
        }
        rows := inserted.value;
      }
      products := products[id := product];
      return Ok(id);
    }

    /**
     * Archiving succeeds exactly for a product of the organization that is not archived yet; it
     * changes that one flag. From then on no request whose checks see the result changes the product.
     */
    method ArchiveProduct(org: nat, id: nat) returns (r: Result<nat, Error>)
      modifies this
      ensures r.Ok? <==> Found(old(View()), org, id) && !old(View()).products[id].archived
      ensures View() == Next(old(View()), old(View()), Archive(org, id))
      ensures r.Ok? ==>
        && rows == old(rows) && |products| == |old(products)|
        && products[id].archived
        && (forall i :: 0 <= i < |products| && i != id ==> products[i] == old(products)[i])
      ensures r.Ok? && Inv(old(View())) ==> forall req :: LeavesAlone(View(), View(), req, id)
    {
      if !Found(View(), org, id) {
        return Err(NotFound);
      }
      if products[id].archived {
        return Err(Validation);
      }
      StepKeepsInvIf(View(), Archive(org, id));
      products := products[id := products[id].(archived := true)];
      if Inv(old(View())) {
        ArchivedSafeIff(View(), View(), id);
      }
      return Ok(id);
    }
  }

  lemma StepKeepsInvIf(c: Catalog, req: Request)
    ensures Inv(c) ==> Inv(Next(c, c, req))
  {
    if Inv(c) {
      StepKeepsInv(c, c, req);
    }
  }

  /** A request carried out on `now` after checks on `seen`; a refusal leaves the state it was made on. */
  predicate Carried(seen: Catalog, now: Catalog, req: Request, r: Result<nat, Error>, after: Catalog) {
    match Handle(seen, now, req)
    case Done(c, id) => r == Ok(id) && after == c
    case Failed(error) => r == Err(error) && after == if Refusal(seen, req).Some? then seen else now
  }

  lemma {:induction false} RefusedInsert(rows: seq<BarcodeRow>, org: nat, product: nat, barcodes: seq<string>, i: nat)
    requires i <= |barcodes| && InsertAll(rows, org, product, barcodes[..i]).None?
    ensures InsertAll(rows, org, product, barcodes).None?
  {
    if i == |barcodes| {
      assert barcodes[..i] == barcodes;
    } else {
      assert barcodes[..|barcodes| - 1][..i] == barcodes[..i];
      RefusedInsert(rows, org, product, barcodes[..|barcodes| - 1], i);
    }
  }
}
