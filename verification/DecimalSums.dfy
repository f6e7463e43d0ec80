/**
 * Sums of decimals that keep a limited number of significant digits, as the decimal library does.
 * Amounts are natural numbers or integers of one common smallest unit; `digits` is the precision.
 */
module DecimalSums {
  import opened Prelude
  import opened Ledger
  import opened Documents
  import DT = DecimalText

  function NumDigits(m: nat): nat {
    if m == 0 then 0 else 1 + NumDigits(m / 10)
  }

  lemma {:induction false} NumDigitsBounds(m: nat)
    ensures m < DT.Pow10(NumDigits(m))
    ensures m > 0 ==> NumDigits(m) > 0 && DT.Pow10(NumDigits(m) - 1) <= m
  {
    if m > 0 {
      NumDigitsBounds(m / 10);
    }
  }

  lemma {:induction false} NumDigitsAtMost(m: nat, n: nat)
    ensures m < DT.Pow10(n) <==> NumDigits(m) <= n
  {
    NumDigitsBounds(m);
    if NumDigits(m) <= n {
      PowersGrow(NumDigits(m), n);
    } else {
      PowersGrow(n, NumDigits(m) - 1);
    }
  }

  lemma {:induction false} PowersGrow(a: nat, b: nat)
    requires a <= b
    ensures DT.Pow10(a) <= DT.Pow10(b)
  {
    if a < b {
      PowersGrow(a, b - 1);
    }
  }

  /** The weight of the last digit that is kept. */
  function Unit(m: nat, digits: nat): (u: nat)
    ensures u >= 1
  {
    if NumDigits(m) <= digits then 1 else DT.Pow10(NumDigits(m) - digits)
  }

  /** Rounded to so many significant digits, halves up. */
  function RoundNat(m: nat, digits: nat): nat {
    DT.DivHalfUp(m, Unit(m, digits)) * Unit(m, digits)
  }

  /** Halves away from zero for negative amounts. */
  function Round(n: int, digits: nat): int {
    DT.Signed(n < 0, RoundNat(Abs(n), digits))
  }

  /** The amount can be written with so many significant digits. */
  ghost predicate Representable(m: nat, digits: nat) {
    exists c: nat, e: nat :: c < DT.Pow10(digits) && WrittenAs(m, c, e)
  }

  predicate WrittenAs(m: nat, c: nat, e: nat) {
    m == c * DT.Pow10(e)
  }

  lemma NoPlaces()
    ensures DT.Pow10(0) == 1
  {
  }

  lemma MultipleIsRepresentable(m: nat, digits: nat)
    requires m % Unit(m, digits) == 0
    ensures Representable(m, digits)
  {
    hide DT.Pow10;
    NumDigitsBounds(m);
    if NumDigits(m) <= digits {
      NumDigitsAtMost(m, digits);
      assert m < DT.Pow10(digits);
      assert WrittenAs(m, m, 0) by { NoPlaces(); }
    } else {
      var e := NumDigits(m) - digits;
      DT.Pow10Add(digits, e);
      QuotientBelow(m, Unit(m, digits), DT.Pow10(digits));
      assert WrittenAs(m, m / Unit(m, digits), e);
    }
  }

  lemma RepresentableIsMultiple(m: nat, digits: nat)
    requires Representable(m, digits)
    ensures m % Unit(m, digits) == 0
  {
    hide DT.Pow10;
    if NumDigits(m) > digits {
      var c: nat, e: nat :| c < DT.Pow10(digits) && WrittenAs(m, c, e);
      var kept := NumDigits(m) - digits;
      DT.Pow10Add(digits, e);
      Larger(c, DT.Pow10(digits), DT.Pow10(e));
      NumDigitsAtMost(m, digits + e);
      assert kept <= e;
      DT.Pow10Add(e - kept, kept);
      MultipleOf(c, DT.Pow10(e - kept), DT.Pow10(kept));
    }
  }

  lemma Larger(a: nat, b: nat, c: nat)
    requires a < b && c >= 1
    ensures a * c < b * c
  {
  }

  lemma QuotientBelow(m: nat, u: nat, b: nat)
    requires u >= 1 && m < b * u
    ensures m / u < b
    ensures m % u == 0 ==> m == (m / u) * u
  {
    assert m == (m / u) * u + m % u;
    if m / u >= b {
      TimesMonotone(b, m / u, u);
    }
  }

  lemma MultipleOf(c: nat, k: nat, u: nat)
    requires u >= 1
    ensures (c * (k * u)) % u == 0
  {
    assert c * (k * u) == (c * k) * u;
    ModOfMultiple(c * k, u);
  }

  lemma {:induction false} ModOfMultiple(q: nat, u: nat)
    requires u >= 1
    ensures (q * u) % u == 0 && (q * u) / u == q
  {
    var d, r := (q * u) / u, (q * u) % u;
    assert q * u == d * u + r;
    if d < q {
      TimesMonotone(d + 1, q, u);
    } else if d > q {
      TimesMonotone(q + 1, d, u);
    }
  }

  // ---------------------------------------------------------------- when rounding changes nothing

  lemma RoundsToMultiple(m: nat, digits: nat)
    ensures RoundNat(m, digits) == m <==> m % Unit(m, digits) == 0
    ensures 2 * RoundNat(m, digits) <= 2 * m + Unit(m, digits)
    ensures 2 * m < 2 * RoundNat(m, digits) + Unit(m, digits)
  {
    var u := Unit(m, digits);
    DT.DivHalfUpIsNearest(m, u);
    ModOfMultiple(DT.DivHalfUp(m, u), u);
    if m % u == 0 {
      QuotientBelow(m, u, m + 1);
      NearestMultiple(m / u, DT.DivHalfUp(m, u), u);
    }
  }

  lemma NearestMultiple(a: nat, b: nat, u: nat)
    requires u >= 1
    requires 2 * (b * u) <= 2 * (a * u) + u && 2 * (a * u) < 2 * (b * u) + u
    ensures a == b
  {
    if a < b {
      TimesMonotone(a + 1, b, u);
    } else if b < a {
      TimesMonotone(b + 1, a, u);
    }
  }

  /** A sum or difference comes out exactly when the true result has no more digits than are kept. */
  lemma ExactIffRepresentable(n: int, digits: nat)
    ensures Round(n, digits) == n <==> Representable(Abs(n), digits)
  {
    RoundsToMultiple(Abs(n), digits);
    if Representable(Abs(n), digits) {
      RepresentableIsMultiple(Abs(n), digits);
    }
    if Abs(n) % Unit(Abs(n), digits) == 0 {
      MultipleIsRepresentable(Abs(n), digits);
    }
  }

  /** Every amount up to ten to the number of digits is kept, the bound itself included. */
  lemma SmallIsExact(n: int, digits: nat)
    requires digits >= 1 && Abs(n) <= DT.Pow10(digits)
    ensures Round(n, digits) == n
  {
    hide DT.Pow10;
    NoPlaces();
    if Abs(n) < DT.Pow10(digits) {
      assert WrittenAs(Abs(n), Abs(n), 0);
    } else {
      PowersGrow(1, digits);
      TenIsTen();
      assert WrittenAs(Abs(n), 1, digits);
    }
    ExactIffRepresentable(n, digits);
  }

  lemma TenIsTen()
    ensures DT.Pow10(1) == 10
  {
    assert DT.Pow10(0) == 1;
  }

  /** The smallest unit the amounts are counted in does not matter. */
  lemma UnitsDoNotMatter(n: int, digits: nat)
    requires digits >= 1
    ensures Round(10 * n, digits) == 10 * Round(n, digits)
  {
    hide NumDigits, Unit;
    var m := Abs(n);
    assert Abs(10 * n) == 10 * m;
    if m < DT.Pow10(digits - 1) {
      assert DT.Pow10(digits) == 10 * DT.Pow10(digits - 1);
      SmallIsExact(n, digits);
      SmallIsExact(10 * n, digits);
    } else {
      NumDigitsAtMost(m, digits - 1);
      UnitScales(m, digits);
      ScaledRounding(m, Unit(m, digits));
    }
  }

  lemma UnitScales(m: nat, digits: nat)
    requires digits >= 1 && m > 0 && NumDigits(m) >= digits
    ensures Unit(10 * m, digits) == 10 * Unit(m, digits)
  {
    assert (10 * m) / 10 == m;
    assert NumDigits(10 * m) == 1 + NumDigits(m);
    NoPlaces();
  }

  lemma ScaledRounding(m: nat, u: nat)
    requires u >= 1
    ensures DT.DivHalfUp(10 * m, 10 * u) * (10 * u) == 10 * (DT.DivHalfUp(m, u) * u)
  {
    ScaledQuotient(2 * m + u, 2 * u);
    var q := DT.DivHalfUp(m, u);
    assert 10 * (2 * m + u) == 2 * (10 * m) + 10 * u && 10 * (2 * u) == 2 * (10 * u);
    assert DT.DivHalfUp(10 * m, 10 * u) == q;
    assert q * (10 * u) == 10 * (q * u);
  }

  lemma ScaledQuotient(a: nat, b: nat)
    requires b >= 1
    ensures (10 * a) / (10 * b) == a / b
  {
    var q, r := a / b, a % b;
    assert 10 * a == q * (10 * b) + 10 * r;
    ModOfMultiple(q, 10 * b);
    QuotientIs(10 * a, 10 * b, q);
  }

  // ---------------------------------------------------------------- the material flag

  /** The fold over the lines, rounding after every addition. */
  function RoundedMagnitude(lines: seq<Line>, digits: nat): int {
    if lines == [] then 0
    else Round(RoundedMagnitude(lines[..|lines| - 1], digits) + Abs(Effect(lines[|lines| - 1])), digits)
  }

  /** The sums depend on the sizes of the quantities alone, not on their signs. */
  lemma {:induction false} SameSizesSameSums(ls: seq<Line>, ms: seq<Line>, digits: nat)
    requires |ls| == |ms| && forall n :: 0 <= n < |ls| ==> Abs(Effect(ls[n])) == Abs(Effect(ms[n]))
    ensures Magnitude(ls) == Magnitude(ms) && RoundedMagnitude(ls, digits) == RoundedMagnitude(ms, digits)
  {
    if ls != [] {
      SameSizesSameSums(ls[..|ls| - 1], ms[..|ms| - 1], digits);
    }
  }

  lemma RoundKeepsLowerBound(m: nat, digits: nat, t: nat)
    requires digits >= 1 && t <= DT.Pow10(digits)
    ensures t <= RoundNat(m, digits) <==> t <= m
  {
    hide DT.Pow10;
    if m <= DT.Pow10(digits) {
      SmallIsExact(m, digits);
    } else {
      NumDigitsAtMost(m, digits);
      NumDigitsBounds(m);
      var e := NumDigits(m) - digits;
      var u := DT.Pow10(e);
      DT.Pow10Add(digits - 1, e);
      PowersGrow(digits, digits - 1 + e);
      RoundsToMultiple(m, digits);
      var low := DT.Pow10(digits - 1);
      assert low * u <= m;
      HalfUpAtLeast(m, u, low);
      TimesMonotone(low, DT.DivHalfUp(m, u), u);
    }
  }

  lemma HalfUpAtLeast(m: nat, u: nat, q: nat)
    requires u >= 1 && q * u <= m
    ensures q <= DT.DivHalfUp(m, u)
  {
    DT.DivHalfUpIsNearest(m, u);
    if DT.DivHalfUp(m, u) < q {
      TimesMonotone(DT.DivHalfUp(m, u) + 1, q, u);
    }
  }

  /** Below the threshold nothing was rounded, and once at the threshold the rounded sum stays there. */
  lemma {:induction false} FlagFold(lines: seq<Line>, digits: nat, t: nat)
    requires digits >= 1 && t <= DT.Pow10(digits)
    ensures RoundedMagnitude(lines, digits) >= 0
    ensures t <= RoundedMagnitude(lines, digits) <==> t <= Magnitude(lines)
    ensures Magnitude(lines) < t ==> RoundedMagnitude(lines, digits) == Magnitude(lines)
  {
    if lines != [] {
      var front, last := lines[..|lines| - 1], Abs(Effect(lines[|lines| - 1]));
      FlagFold(front, digits, t);
      RoundKeepsLowerBound(RoundedMagnitude(front, digits) + last, digits, t);
      if Magnitude(lines) < t {
        SmallIsExact(Magnitude(lines), digits);
      }
    }
  }

  lemma NearMultiples(a: nat, b: nat, u: nat, m: nat)
    requires 2 * Abs(m - a * u) < u && 2 * (b * u) <= 2 * m + u && 2 * m < 2 * (b * u) + u
    ensures a == b
  {
    if a < b {
      TimesMonotone(a + 1, b, u);
    } else if b < a {
      TimesMonotone(b + 1, a, u);
    }
  }

  lemma SnapsTo(m: nat, a: nat, u: nat)
    requires u >= 1 && 2 * Abs(m - a * u) < u
    ensures DT.DivHalfUp(m, u) == a
  {
    DT.DivHalfUpIsNearest(m, u);
    NearMultiples(a, DT.DivHalfUp(m, u), u, m);
  }

  function Single(delta: int): Line {
    AdjustmentLine(Place(0, 0, None), Available, delta, None, None)
  }

  /** The lines a request may carry: at least one, at most two hundred, none of them zero. */
  predicate Requestable(lines: seq<Line>) {
    1 <= |lines| <= 200 && forall l :: l in lines ==> l.AdjustmentLine? && l.delta != 0
  }

  predicate FlagRight(lines: seq<Line>, digits: nat, t: nat) {
    t <= RoundedMagnitude(lines, digits) <==> t <= Magnitude(lines)
  }

  lemma {:induction false} AddLine(lines: seq<Line>, delta: int, digits: nat)
    ensures Magnitude(lines + [Single(delta)]) == Magnitude(lines) + Abs(delta)
    ensures RoundedMagnitude(lines + [Single(delta)], digits) == Round(RoundedMagnitude(lines, digits) + Abs(delta), digits)
  {
    assert (lines + [Single(delta)])[..|lines|] == lines;
  }

  lemma SameNumDigits(m: nat, t: nat)
    requires t > 0 && DT.Pow10(NumDigits(t) - 1) <= m <= t
    ensures NumDigits(m) == NumDigits(t)
  {
    hide DT.Pow10;
    NumDigitsBounds(t);
    NumDigitsAtMost(m, NumDigits(t) - 1);
    NumDigitsAtMost(m, NumDigits(t));
  }

  /** Cutting off the digits that are not kept leaves the number of digits as it was. */
  lemma CutKeepsLength(t: nat, digits: nat)
    requires digits >= 1 && DT.Pow10(digits) < t
    ensures NumDigits(t) > digits && DT.Pow10(NumDigits(t) - 1) <= Kept(t, digits)
  {
    hide DT.Pow10;
    NumDigitsAtMost(t, digits);
    NumDigitsBounds(t);
    DT.Pow10Add(digits - 1, NumDigits(t) - digits);
    QuotientAtLeast(t, Unit(t, digits), DT.Pow10(digits - 1));
    TimesMonotone(DT.Pow10(digits - 1), t / Unit(t, digits), Unit(t, digits));
    FloorIsMultiple(t, Unit(t, digits));
  }

  /** An amount with the digits that are not kept replaced by zeros. */
  function Kept(t: nat, digits: nat): nat {
    Floor(t, Unit(t, digits))
  }

  function Floor(t: nat, u: nat): nat
    requires u >= 1
  {
    t - t % u
  }

  lemma FloorIsMultiple(t: nat, u: nat)
    requires u >= 1
    ensures Floor(t, u) == (t / u) * u
  {
  }

  /** An addition too small for the last kept digit is lost. */
  lemma Absorbed(t: nat, digits: nat, x: nat)
    requires digits >= 1 && DT.Pow10(digits) < t
    requires Kept(t, digits) + x <= t && 2 * x < Unit(t, digits)
    ensures Round(Kept(t, digits) + x, digits) == Kept(t, digits)
  {
    hide DT.Pow10, NumDigits, Floor, DT.DivHalfUp;
    var m := Kept(t, digits) + x;
    CutKeepsLength(t, digits);
    SameNumDigits(m, t);
    assert Unit(m, digits) == Unit(t, digits);
    SnapsToFloor(m, t, Unit(t, digits));
  }

  lemma SnapsToFloor(m: nat, t: nat, u: nat)
    requires u >= 1 && Floor(t, u) <= m && 2 * (m - Floor(t, u)) < u
    ensures DT.DivHalfUp(m, u) * u == Floor(t, u)
  {
    FloorIsMultiple(t, u);
    SnapsTo(m, t / u, u);
  }

  lemma QuotientAtLeast(m: nat, u: nat, q: nat)
    requires u >= 1 && q * u <= m
    ensures q <= m / u
  {
    if m / u < q {
      TimesMonotone(m / u + 1, q, u);
    }
  }

  lemma UnitAboveBound(t: nat, digits: nat)
    requires DT.Pow10(digits) <= t
    ensures Unit(t, digits) >= 10
  {
    NumDigitsAtMost(t, digits);
    PowersGrow(1, NumDigits(t) - digits);
    TenIsTen();
  }

  predicate Lost(b: nat, x: nat, digits: nat) {
    x > 0 && Round(b + x, digits) == b
  }

  /** Lines for b and then for amounts that do not survive the rounding. */
  lemma {:induction false} AllLost(b: nat, xs: seq<nat>, digits: nat) returns (lines: seq<Line>)
    requires b > 0 && Round(b, digits) == b
    requires forall x :: x in xs ==> Lost(b, x, digits)
    ensures |lines| == 1 + |xs| && forall l :: l in lines ==> l.AdjustmentLine? && l.delta != 0
    ensures RoundedMagnitude(lines, digits) == b && Magnitude(lines) == b + Sum(xs)
  {
    hide Round;
    if xs == [] {
      lines := [] + [Single(b)];
      AddLine([], b, digits);
    } else {
      var last, rest := xs[|xs| - 1], xs[..|xs| - 1];
      assert Lost(b, last, digits) && forall x :: x in rest ==> x in xs;
      var front := AllLost(b, rest, digits);
      AddLine(front, last, digits);
      lines := front + [Single(last)];
    }
  }

  function Sum(xs: seq<nat>): nat {
    if xs == [] then 0 else Sum(xs[..|xs| - 1]) + xs[|xs| - 1]
  }

  /** Pieces, each below half a unit, that together make up the remainder. */
  lemma Pieces(r: nat, u: nat) returns (xs: seq<nat>)
    requires 0 < r < u && u >= 10
    ensures 1 <= |xs| <= 3 && Sum(xs) == r && forall x :: x in xs ==> 0 < x <= r && 2 * x < u
  {
    assert forall x :: Sum([x]) == x;
    if 2 * r < u {
      xs := [r];
    } else {
      xs := [r / 3, r / 3, r - 2 * (r / 3)];
      assert xs[..2] == [r / 3, r / 3];
      assert xs[..2][..1] == [r / 3];
    }
  }

  /** Above the bound some acceptable request of at most four lines is flagged wrongly. */
  lemma FlagFails(t: nat, digits: nat) returns (lines: seq<Line>)
    requires digits >= 1 && DT.Pow10(digits) < t
    ensures Requestable(lines) && |lines| <= 4 && !FlagRight(lines, digits, t)
  {
    hide DT.Pow10, Unit, Round, RoundedMagnitude, Magnitude, Sum, Kept;
    var u := Unit(t, digits);
    var r := t % u;
    UnitAboveBound(t, digits);
    KeptAndRest(t, digits);
    if r == 0 {
      JustBelow(t, digits);
      lines := [] + [Single(t - 1)];
      AddLine([], t - 1, digits);
      Empty(digits);
    } else {
      var xs := Pieces(r, u);
      Absorbed(t, digits, 0);
      forall x | x in xs
        ensures Lost(Kept(t, digits), x, digits)
      {
        Absorbed(t, digits, x);
      }
      lines := AllLost(Kept(t, digits), xs, digits);
    }
  }

  lemma KeptAndRest(t: nat, digits: nat)
    requires digits >= 1 && DT.Pow10(digits) < t
    ensures t == Kept(t, digits) + t % Unit(t, digits) && Kept(t, digits) > 0
  {
    hide DT.Pow10, Unit;
    CutKeepsLength(t, digits);
  }

  lemma Empty(digits: nat)
    ensures RoundedMagnitude([], digits) == 0 && Magnitude([]) == 0
  {
  }

  lemma JustBelow(t: nat, digits: nat)
    requires digits >= 1 && DT.Pow10(digits) < t && t % Unit(t, digits) == 0
    ensures Round(t - 1, digits) == t
  {
    var k := UnitDivides(t - 1, t, digits);
    UnitAboveBound(t - 1, digits);
    hide DT.Pow10, Unit, NumDigits;
    var c := Quotient(t, Unit(t, digits));
    NextMultiple(t, c, k, Unit(t - 1, digits));
  }

  lemma Quotient(t: nat, u: nat) returns (c: nat)
    requires u >= 1 && t % u == 0
    ensures t == c * u
  {
    c := t / u;
  }

  lemma UnitDivides(m: nat, t: nat, digits: nat) returns (k: nat)
    requires DT.Pow10(digits) <= m <= t
    ensures Unit(t, digits) == k * Unit(m, digits)
  {
    hide DT.Pow10;
    NumDigitsAtMost(t, digits);
    NumDigitsAtMost(m, digits);
    NumDigitsBounds(t);
    NumDigitsAtMost(m, NumDigits(t));
    var low, high := NumDigits(m) - digits, NumDigits(t) - digits;
    DT.Pow10Add(high - low, low);
    k := DT.Pow10(high - low);
  }

  lemma NextMultiple(t: nat, c: nat, k: nat, u: nat)
    requires u >= 10 && t == c * (k * u) && t > 0
    ensures DT.DivHalfUp(t - 1, u) * u == t
  {
    assert t == (c * k) * u;
    SnapsTo(t - 1, c * k, u);
  }

  /** The flag is computed correctly for every acceptable request exactly when the threshold is at most ten to the number of digits. */
  lemma FlagRightIff(t: nat, digits: nat)
    requires digits >= 1
    ensures (forall lines :: Requestable(lines) ==> FlagRight(lines, digits, t)) <==> t <= DT.Pow10(digits)
  {
    if t <= DT.Pow10(digits) {
      forall lines | Requestable(lines)
        ensures FlagRight(lines, digits, t)
      {
        FlagFold(lines, digits, t);
      }
    } else {
      var lines := FlagFails(t, digits);
      assert Requestable(lines) && !FlagRight(lines, digits, t);
    }
  }

  // ---------------------------------------------------------------- running sums

  function ExactTotal(start: int, qs: seq<int>): int {
    if qs == [] then start else ExactTotal(start, qs[..|qs| - 1]) + qs[|qs| - 1]
  }

  /** A balance or magnitude carried through additions, each of them rounded. */
  function RoundedTotal(start: int, qs: seq<int>, digits: nat): int {
    if qs == [] then start else Round(RoundedTotal(start, qs[..|qs| - 1], digits) + qs[|qs| - 1], digits)
  }

  predicate ExactSoFar(start: int, qs: seq<int>, digits: nat, i: nat)
    requires i <= |qs|
  {
    RoundedTotal(start, qs[..i], digits) == ExactTotal(start, qs[..i])
  }

  ghost predicate RepresentableSoFar(start: int, qs: seq<int>, digits: nat, i: nat)
    requires i <= |qs|
  {
    i > 0 ==> Representable(Abs(ExactTotal(start, qs[..i])), digits)
  }

  /** No step of a running sum is rounded exactly when each true partial sum fits the kept digits. */
  lemma {:induction false} ExactStepsIff(start: int, qs: seq<int>, digits: nat)
    ensures (forall i :: 0 <= i <= |qs| ==> ExactSoFar(start, qs, digits, i))
      <==> (forall i :: 0 <= i <= |qs| ==> RepresentableSoFar(start, qs, digits, i))
  {
    var n := |qs|;
    if n > 0 {
      var front := qs[..n - 1];
      ExactStepsIff(start, front, digits);
      assert forall i :: 0 <= i < n ==> front[..i] == qs[..i];
      assert qs[..n] == qs;
      assert forall i :: 0 <= i < n ==> (ExactSoFar(start, front, digits, i) <==> ExactSoFar(start, qs, digits, i));
      assert forall i :: 0 <= i < n ==> (RepresentableSoFar(start, front, digits, i) <==> RepresentableSoFar(start, qs, digits, i));
      ExactIffRepresentable(ExactTotal(start, qs), digits);
      if ExactSoFar(start, qs, digits, n - 1) {
        assert ExactSoFar(start, qs, digits, n) <==> RepresentableSoFar(start, qs, digits, n);
      }
    } else {
      assert forall i :: 0 <= i <= n ==> qs[..i] == [];
    }
  }

  lemma OneMore(n: nat, bound: nat)
    ensures n * bound + bound == (n + 1) * bound
  {
  }

  /** Sums of a bounded number of bounded lines are never rounded. */
  lemma {:induction false} BoundedSumsExact(lines: seq<Line>, digits: nat, count: nat, bound: nat)
    requires digits >= 1 && |lines| <= count && count * bound <= DT.Pow10(digits)
    requires forall l :: l in lines ==> Abs(Effect(l)) <= bound
    ensures Magnitude(lines) <= |lines| * bound
    ensures RoundedMagnitude(lines, digits) == Magnitude(lines)
  {
    hide DT.Pow10, Round;
    if lines != [] {
      var n := |lines|;
      BoundedSumsExact(lines[..n - 1], digits, count, bound);
      assert Abs(Effect(lines[n - 1])) <= bound;
      TimesMonotone(n, count, bound);
      OneMore(n - 1, bound);
      SmallIsExact(Magnitude(lines), digits);
    }
  }

  /**
   * Two hundred lines of at most 5 * 10^11 with at most six places, counted in units of 10^-6,
   * against the library's twenty digits: no line's addition rounds.
   */
  lemma LargestRequestExact(lines: seq<Line>, i: nat)
    requires Requestable(lines) && i <= |lines|
    requires forall l :: l in lines ==> Abs(Effect(l)) <= 500_000_000_000_000_000
    ensures RoundedMagnitude(lines[..i], 20) == Magnitude(lines[..i])
  {
    TwentyDigits();
    BoundedSumsExact(lines[..i], 20, 200, 500_000_000_000_000_000);
  }

  lemma TwentyDigits()
    ensures DT.Pow10(20) == 100_000_000_000_000_000_000
  {
    assert DT.Pow10(5) == 100_000 by {
      assert DT.Pow10(3) == 1_000;
    }
    DT.Pow10Add(5, 5);
    DT.Pow10Add(10, 10);
  }
}
