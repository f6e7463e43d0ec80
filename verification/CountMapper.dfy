/** The number of variance lines a stock count reports, told by comparing texts. */
module CountMapper {
  import opened Prelude
  import opened Ledger
  import opened Documents
  import opened Posting
  import opened Invariants
  import DT = DecimalText
  import DecimalStorage

  /** The variance as the text it reads back as; quantities are counted in units of 10^-places. */
  function VarianceText(l: Line, places: nat): Option<string> {
    if l.CountLine? && l.variance.Some? then Some(DecimalStorage.StoredText(DT.Dec(l.variance.value, places))) else None
  }

  /** Lines whose variance is present and does not read "0". */
  function VarianceLineCount(lines: seq<Line>, places: nat): nat {
    if lines == [] then 0
    else
      VarianceLineCount(lines[..|lines| - 1], places) + (if HasVariance(lines[|lines| - 1], places) then 1 else 0)
  }

  predicate HasVariance(l: Line, places: nat) {
    var text := VarianceText(l, places);
    text.Some? && text.value != "0"
  }

  lemma ReadsAsVariance(l: Line, places: nat)
    requires l.CountLine?
    ensures HasVariance(l, places) <==> Effect(l) != 0
  {
    hide DecimalStorage.StoredText;
    if l.variance.Some? {
      DecimalStorage.StoredZeroText(DT.Dec(l.variance.value, places));
    }
  }

  lemma {:induction false} VarianceLinesAreMoves(d: Doc, lines: seq<Line>, places: nat)
    requires forall l :: l in lines ==> l.CountLine?
    ensures VarianceLineCount(lines, places) == |MovesOf(d, lines)|
  {
    hide HasVariance;
    if lines != [] {
      var front, last := lines[..|lines| - 1], lines[|lines| - 1];
      assert last in lines;
      VarianceLinesAreMoves(d, front, places);
      ReadsAsVariance(last, places);
    }
  }

  /** Every movement of quantity other than zero becomes a ledger row, whatever order the batch is sorted into. */
  lemma {:induction false} RowsPerMovement(ms: seq<Movement>, ref: Ref)
    requires forall m :: m in ms ==> m.quantity != 0
    ensures |PostedRows(ms, ref)| == |ms|
  {
    if ms != [] {
      assert ms[|ms| - 1] in ms;
      RowsPerMovement(ms[..|ms| - 1], ref);
    }
  }

  lemma {:induction false} InsertKeepsMovements(ms: seq<Movement>, m: Movement)
    requires Sorted(ms)
    ensures multiset(Insert(ms, m)) == multiset(ms) + multiset{m}
  {
    if ms != [] {
      var front, last := ms[..|ms| - 1], ms[|ms| - 1];
      InsertKeepsMovements(front, m);
      assert ms == front + [last];
    }
  }

  lemma {:induction false} SortKeepsMovements(ms: seq<Movement>)
    ensures multiset(Sort(ms)) == multiset(ms)
  {
    if ms != [] {
      assert ms == ms[..|ms| - 1] + [ms[|ms| - 1]];
      SortKeepsMovements(ms[..|ms| - 1]);
      InsertKeepsMovements(Sort(ms[..|ms| - 1]), ms[|ms| - 1]);
    }
  }

  lemma {:induction false} CountsMoveNonZero(d: Doc, lines: seq<Line>)
    requires forall l :: l in lines ==> l.CountLine?
    ensures forall m :: m in MovesOf(d, lines) ==> m.quantity != 0
  {
    if lines != [] {
      assert lines[|lines| - 1] in lines;
      CountsMoveNonZero(d, lines[..|lines| - 1]);
    }
  }

  /** In every state that keeps the invariant, a posted count reports as many variance lines as the ledger has rows for it. */
  lemma ReportedLinesArePosted(p: Policy, db: Db, id: nat, places: nat)
    requires Inv(p, db)
    requires id < |db.docs| && db.docs[id].kind.Count? && db.docs[id].status.Posted?
    ensures VarianceLineCount(db.docs[id].lines, places) == |RowsOf(db.ledger, Document(id))|
  {
    var d := db.docs[id];
    assert DocOk(p, db.ledger, d);
    forall l | l in d.lines ensures l.CountLine? {
      var n :| 0 <= n < |d.lines| && d.lines[n] == l;
      assert LineOk(db.ledger, d, d.lines[n]);
    }
    VarianceLinesAreMoves(d, d.lines, places);
    CountsMoveNonZero(d, d.lines);
    SortKeepsMovements(Moves(d));
    forall m | m in Sort(Moves(d)) ensures m.quantity != 0 {
      assert m in multiset(Sort(Moves(d)));
    }
    RowsPerMovement(Sort(Moves(d)), Document(id));
    assert |multiset(Sort(Moves(d)))| == |Sort(Moves(d))|;
    assert RowsOf(db.ledger, Document(id)) == DueRows(db.docs, id);
  }
}
