/** Stock adjustments and stock counts: lines, documents, the status table and the material flag. */
module Documents {
  import opened Prelude
  import opened Ledger

  // ---------------------------------------------------------------- status

  datatype Status = Draft | Submitted | Approved | Rejected | Posted | Reversed

  /** The transition table, the same for adjustments and counts. */
  function AllowedTransitions(from: Status): set<Status> {
    match from
    case Draft => {Submitted}
    case Submitted => {Approved, Rejected}
    case Approved => {Posted}
    case Rejected => {}
    case Posted => {Reversed}
    case Reversed => {}
  }

  predicate CanTransition(from: Status, to: Status) {
    to in AllowedTransitions(from)
  }

  /** How many status steps can still follow at most. */
  function Rank(s: Status): nat {
    match s
    case Draft => 4
    case Submitted => 3
    case Approved => 2
    case Rejected => 0
    case Posted => 1
    case Reversed => 0
  }

  /** The allowed transitions are these five; each goes strictly down, and only `Rejected` and `Reversed` are final. */
  lemma TransitionsDescend(from: Status, to: Status)
    ensures CanTransition(from, to) ==> Rank(to) < Rank(from)
    ensures Rank(from) == 0 <==> forall s :: !CanTransition(from, s)
    ensures CanTransition(from, to) <==>
      || (from == Draft && to == Submitted) || (from == Submitted && (to == Approved || to == Rejected))
      || (from == Approved && to == Posted) || (from == Posted && to == Reversed)
  {
    match from
    case Draft => assert CanTransition(Draft, Submitted);
    case Submitted => assert CanTransition(Submitted, Approved);
    case Approved => assert CanTransition(Approved, Posted);
    case Posted => assert CanTransition(Posted, Reversed);
    case Rejected =>
    case Reversed =>
  }

  // ---------------------------------------------------------------- lines

  /** Where a line's stock is, within the document's warehouse. */
  datatype Place = Place(location: nat, product: nat, lot: Option<nat>)

  /**
   * `readAt` is an auxiliary value: the length of the ledger when `system` was read from the
   * balance. The code keeps no such field; nothing in the operations depends on it.
   */
  datatype Line =
    | AdjustmentLine(place: Place, state: StockState, delta: int, prior: Option<int>, resulting: Option<int>)
    | CountLine(place: Place, system: int, counted: Option<int>, variance: Option<int>, readAt: nat)

  /** The signed quantity a line posts: the delta, or the variance once there is one. */
  function Effect(l: Line): int {
    match l
    case AdjustmentLine(_, _, delta, _, _) => delta
    case CountLine(_, _, _, variance, _) => if variance.Some? then variance.value else 0
  }

  function LineState(l: Line): StockState {
    if l.AdjustmentLine? then l.state else Available
  }

  datatype Kind = Adjustment | Count

  datatype Doc = Doc(
    kind: Kind,
    org: nat,
    warehouse: nat,
    status: Status,
    lines: seq<Line>,
    elevated: bool,
    reversalOf: Option<nat>,
    createdBy: nat,
    submittedBy: Option<nat>,
    approvedBy: Option<nat>,
    rejectedBy: Option<nat>,
    postedBy: Option<nat>,
    reversedBy: Option<nat>,
    version: nat)

  function KeyOf(d: Doc, l: Line): Key {
    Key(d.org, d.warehouse, l.place.location, l.place.product, l.place.lot, LineState(l))
  }

  /** Adjustments post every line; counts skip lines without a variance and lines whose variance is zero. */
  function MovesOf(d: Doc, lines: seq<Line>): seq<Movement> {
    if lines == [] then []
    else
      var l := lines[|lines| - 1];
      var rest := MovesOf(d, lines[..|lines| - 1]);
      if l.CountLine? && Effect(l) == 0 then rest else rest + [Movement(KeyOf(d, l), Effect(l), false)]
  }

  function Moves(d: Doc): seq<Movement> {
    MovesOf(d, d.lines)
  }

  /** The same document posting every line, zero variances included. */
  function EveryLine(d: Doc, lines: seq<Line>): seq<Movement> {
    if lines == [] then []
    else EveryLine(d, lines[..|lines| - 1]) + [Movement(KeyOf(d, lines[|lines| - 1]), Effect(lines[|lines| - 1]), false)]
  }

  function LineNet(d: Doc, lines: seq<Line>, k: Key): int {
    if lines == [] then 0
    else
      LineNet(d, lines[..|lines| - 1], k) +
      (if KeyOf(d, lines[|lines| - 1]) == k then Effect(lines[|lines| - 1]) else 0)
  }

  /** The net quantity a document's lines put on a key. */
  function DocNet(d: Doc, k: Key): int {
    LineNet(d, d.lines, k)
  }

  lemma {:induction false} MovesNet(d: Doc, lines: seq<Line>, k: Key)
    ensures Net(MovesOf(d, lines), k) == LineNet(d, lines, k)
  {
    if lines != [] {
      MovesNet(d, lines[..|lines| - 1], k);
      var ms := MovesOf(d, lines);
      if ms != [] && ms != MovesOf(d, lines[..|lines| - 1]) {
        assert ms[..|ms| - 1] == MovesOf(d, lines[..|lines| - 1]);
        assert ms[|ms| - 1].key == k ==> OnKey(ms, k)[..|OnKey(ms, k)| - 1] == OnKey(ms[..|ms| - 1], k);
      }
    }
  }

  lemma {:induction false} MovesGuarded(d: Doc, lines: seq<Line>)
    ensures forall m :: m in MovesOf(d, lines) ==> !m.allowNegative
  {
    if lines != [] {
      MovesGuarded(d, lines[..|lines| - 1]);
    }
  }

  /** The movements of a document depend on its lines' places and effects alone. */
  lemma {:induction false} SameLinesSameMoves(d: Doc, e: Doc, ls: seq<Line>, ms: seq<Line>)
    requires d.org == e.org && d.warehouse == e.warehouse
    requires |ls| == |ms|
    requires forall n :: 0 <= n < |ls| ==>
      KeyOf(d, ls[n]) == KeyOf(e, ms[n]) && Effect(ls[n]) == Effect(ms[n]) && ls[n].CountLine? == ms[n].CountLine?
    ensures MovesOf(d, ls) == MovesOf(e, ms)
  {
    if ls != [] {
      SameLinesSameMoves(d, e, ls[..|ls| - 1], ms[..|ms| - 1]);
    }
  }

  /** Skipping zero variances is a refinement of posting every line: same acceptance, same balances, same rows. */
  lemma {:induction false} SkippingZeroVariances(b: Balances, d: Doc, lines: seq<Line>, ref: Ref)
    ensures ApplyAll(b, MovesOf(d, lines)) == ApplyAll(b, EveryLine(d, lines))
    ensures PostedRows(MovesOf(d, lines), ref) == PostedRows(EveryLine(d, lines), ref)
  {
    if lines != [] {
      SkippingZeroVariances(b, d, lines[..|lines| - 1], ref);
      var ms, es := MovesOf(d, lines), EveryLine(d, lines);
      assert es[..|es| - 1] == EveryLine(d, lines[..|lines| - 1]);
      if ms != MovesOf(d, lines[..|lines| - 1]) {
        assert ms[..|ms| - 1] == MovesOf(d, lines[..|lines| - 1]);
      } else {
        assert PostedRows(ms, ref) + [] == PostedRows(ms, ref);
      }
    }
  }

  // ---------------------------------------------------------------- the material flag

  /** The sum of the lines' absolute quantities. */
  function Magnitude(lines: seq<Line>): nat {
    if lines == [] then 0 else Magnitude(lines[..|lines| - 1]) + Abs(Effect(lines[|lines| - 1]))
  }

  /** No key's net change can exceed the magnitude, so a net change of threshold size is always flagged. */
  lemma {:induction false} NetWithinMagnitude(d: Doc, lines: seq<Line>, k: Key)
    ensures Abs(LineNet(d, lines, k)) <= Magnitude(lines)
  {
    if lines != [] {
      NetWithinMagnitude(d, lines[..|lines| - 1], k);
    }
  }

  // ---------------------------------------------------------------- reversal lines

  function NegatedLine(l: Line): Line {
    match l
    case AdjustmentLine(place, state, delta, _, _) => AdjustmentLine(place, state, -delta, None, None)
    case CountLine(place, system, counted, _, readAt) => CountLine(place, system, counted, Some(-Effect(l)), readAt)
  }

  function NegatedLines(lines: seq<Line>): seq<Line> {
    if lines == [] then [] else NegatedLines(lines[..|lines| - 1]) + [NegatedLine(lines[|lines| - 1])]
  }

  lemma {:induction false} NegatedLinesAt(lines: seq<Line>)
    ensures |NegatedLines(lines)| == |lines|
    ensures forall n :: 0 <= n < |lines| ==> NegatedLines(lines)[n] == NegatedLine(lines[n])
  {
    if lines != [] {
      NegatedLinesAt(lines[..|lines| - 1]);
    }
  }

  /** Lines with opposite effects at the same places: same magnitude, opposite nets. */
  lemma {:induction false} OppositeLines(d: Doc, e: Doc, ls: seq<Line>, ms: seq<Line>)
    requires d.org == e.org && d.warehouse == e.warehouse && |ls| == |ms|
    requires forall n :: 0 <= n < |ls| ==> KeyOf(d, ls[n]) == KeyOf(e, ms[n]) && Effect(ls[n]) == -Effect(ms[n])
    ensures Magnitude(ls) == Magnitude(ms)
    ensures forall k :: LineNet(d, ls, k) == -LineNet(e, ms, k)
  {
    if ls != [] {
      OppositeLines(d, e, ls[..|ls| - 1], ms[..|ms| - 1]);
    }
  }

  // ---------------------------------------------------------------- prior and resulting quantities

  /** What posting writes into the lines: each adjustment line gets the balance before the batch and that plus its delta. */
  function Stamp(b: Balances, d: Doc, l: Line): Line {
    match l
    case AdjustmentLine(place, state, delta, _, _) =>
      var prior := OnHand(b, KeyOf(d, l));
      AdjustmentLine(place, state, delta, Some(prior), Some(prior + delta))
    case CountLine(_, _, _, _, _) => l
  }

  function StampLines(b: Balances, d: Doc, lines: seq<Line>): seq<Line> {
    if lines == [] then [] else StampLines(b, d, lines[..|lines| - 1]) + [Stamp(b, d, lines[|lines| - 1])]
  }

  lemma {:induction false} StampLinesAt(b: Balances, d: Doc, lines: seq<Line>)
    ensures |StampLines(b, d, lines)| == |lines|
    ensures forall n :: 0 <= n < |lines| ==> StampLines(b, d, lines)[n] == Stamp(b, d, lines[n])
  {
    if lines != [] {
      StampLinesAt(b, d, lines[..|lines| - 1]);
    }
  }
}
