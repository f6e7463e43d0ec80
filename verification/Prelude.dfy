/** Small shared datatypes, and two facts about products and quotients. */
module Prelude {
  datatype Option<+T> = None | Some(value: T)

  datatype Result<+T, +E> = Ok(value: T) | Err(error: E)

  function Abs(x: int): nat {
    if x < 0 then -x else x
  }

  lemma TimesMonotone(a: nat, b: nat, c: nat)
    requires a <= b
    ensures a * c <= b * c
  {
  }

  lemma QuotientIs(x: nat, d: nat, q: nat)
    requires d >= 1 && q * d <= x < q * d + d
    ensures x / d == q
  {
    var e, r := x / d, x % d;
    assert x == e * d + r && r < d;
    if e < q {
      TimesMonotone(e + 1, q, d);
    } else if e > q {
      TimesMonotone(q + 1, e, d);
    }
  }
}
