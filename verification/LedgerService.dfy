/** Posting a batch of movements: the sorted loop over ledger rows and balances. */
module LedgerService {
  import opened Prelude
  import opened Ledger
  import opened Sessions

  /** One balance update; a withdrawal needs a row that covers it unless it bypasses the guard. */
  method ApplyBalanceDelta(s: Session, m: Movement) returns (ok: bool)
    requires m.quantity != 0
    modifies s`balances
    ensures ok == ApplyOne(old(s.balances), m).Applied?
    ensures ok ==> s.balances == ApplyOne(old(s.balances), m).balances
  {
    if m.quantity > 0 || m.allowNegative {
      s.balances := s.balances[m.key := OnHand(s.balances, m.key) + m.quantity];
      return true;
    }
    if m.key !in s.balances || s.balances[m.key] < -m.quantity {
      return false;
    }
    s.balances := s.balances[m.key := s.balances[m.key] + m.quantity];
    return true;
  }

  /** One turn of the posting loop: a row and a balance update, or nothing for a zero quantity. */
  method PostOne(s: Session, m: Movement, ref: Ref) returns (ok: bool)
    modifies s`balances, s`ledger
    ensures ok == ApplyOne(old(s.balances), m).Applied?
    ensures ok ==> s.balances == ApplyOne(old(s.balances), m).balances
    ensures ok ==> s.ledger == old(s.ledger) + (if m.quantity == 0 then [] else [Row(m.key, m.quantity, ref)])
  {
    if m.quantity == 0 {
      return true;
    }
    s.ledger := s.ledger + [Row(m.key, m.quantity, ref)];
    ok := ApplyBalanceDelta(s, m);
  }

  /** Posts the batch in key order, one row and one balance update per non-zero movement. */
  method PostStockMovements(s: Session, movements: seq<Movement>, ref: Ref) returns (ok: bool)
    modifies s`balances, s`ledger
    ensures ok == ApplyAll(old(s.balances), movements).Applied?
    ensures ok ==> s.balances == ApplyAll(old(s.balances), movements).balances
    ensures ok ==> s.ledger == old(s.ledger) + PostedRows(Sort(movements), ref)
  {
    hide ApplyOne, ApplyAll, Sort, PostedRows;
    var ordered := Sort(movements);
    SortingIsHarmless(s.balances, movements);
    ghost var b, rows := s.balances, s.ledger;
    NothingPosted(b, ref);
    for i := 0 to |ordered|
      invariant ApplyAll(b, ordered[..i]) == Applied(s.balances)
      invariant s.ledger == rows + PostedRows(ordered[..i], ref)
    {
      BatchStep(b, ordered, i, ref);
      var posted := PostOne(s, ordered[i], ref);
      if !posted {
        PrefixRefused(b, ordered, i + 1);
        return false;
      }
    }
    assert ordered[..|ordered|] == ordered;
    return true;
  }

  lemma NothingPosted(b: Balances, ref: Ref)
    ensures ApplyAll(b, []) == Applied(b) && PostedRows([], ref) == []
  {
  }

  lemma BatchStep(b: Balances, ms: seq<Movement>, i: nat, ref: Ref)
    requires i < |ms| && ApplyAll(b, ms[..i]).Applied?
    ensures ApplyAll(b, ms[..i + 1]) == ApplyOne(ApplyAll(b, ms[..i]).balances, ms[i])
    ensures PostedRows(ms[..i + 1], ref) ==
            PostedRows(ms[..i], ref) + (if ms[i].quantity == 0 then [] else [Row(ms[i].key, ms[i].quantity, ref)])
  {
    assert ms[..i + 1][..i] == ms[..i];
  }

  /** A batch with a refused prefix is refused. */
  lemma {:induction false} PrefixRefused(b: Balances, ms: seq<Movement>, i: nat)
    requires i <= |ms| && ApplyAll(b, ms[..i]).Insufficient?
    ensures ApplyAll(b, ms).Insufficient?
  {
    if i == |ms| {
      assert ms[..i] == ms;
    } else {
      assert ms[..|ms| - 1][..i] == ms[..i];
      PrefixRefused(b, ms[..|ms| - 1], i);
    }
  }
}
