/** The idempotency wrapper around a posting body, split at the point where the body runs. */
module Idempotency {
  import opened Prelude
  import opened Ledger
  import opened Documents
  import opened Posting
  import opened Sessions

  /** How a table answers a key and payload: a refusal, an earlier result, or none yet. */
  function Answer(table: map<IdemKey, Entry>, ik: IdemKey, payload: Payload): Result<Option<nat>, Error> {
    if ik.key == "" then Err(KeyRequired)
    else if ik !in table then Ok(None)
    else if table[ik].payload != payload then Err(KeyConflict)
    else Ok(Some(table[ik].ref))
  }

  /** Before the body: refuse a missing key or a key used for another payload; find an earlier result. */
  method Look(s: Session, ik: IdemKey, payload: Payload) returns (r: Result<Option<nat>, Error>)
    ensures r == Answer(s.table, ik, payload)
    ensures r == Err(KeyRequired) <==> ik.key == ""
    ensures r == Err(KeyConflict) <==> ik.key != "" && ik in s.table && s.table[ik].payload != payload
    ensures r == Ok(None) <==> ik.key != "" && ik !in s.table
    ensures forall ref: nat :: r == Ok(Some(ref)) <==> ik.key != "" && ik in s.table && s.table[ik] == Entry(payload, ref)
  {
    if ik.key == "" {
      return Err(KeyRequired);
    }
    if ik in s.table {
      var existing := s.table[ik];
      if existing.payload != payload {
        return Err(KeyConflict);
      }
      return Ok(Some(existing.ref));
    }
    return Ok(None);
  }

  /**
   * After the body: insert the result; the unique index admits one entry per key. From then on the
   * same request is answered with it, the key is refused to any other payload, and every other key
   * is answered as before.
   */
  method Record(s: Session, ik: IdemKey, payload: Payload, ref: nat)
    requires ik !in s.table
    modifies s`table
    ensures s.table == old(s.table)[ik := Entry(payload, ref)]
    ensures ik.key != "" ==> Answer(s.table, ik, payload) == Ok(Some(ref))
    ensures ik.key != "" ==> forall other :: other != payload ==> Answer(s.table, ik, other) == Err(KeyConflict)
    ensures forall other, q :: other != ik ==> Answer(s.table, other, q) == Answer(old(s.table), other, q)
  {
    s.table := s.table[ik := Entry(payload, ref)];
  }
}
