/** Decimal numbers as text: the accepted pattern, printing without rounding, and printing to fixed places. */
module DecimalText {
  import opened Prelude

  /** The number coef / 10^places. */
  datatype Dec = Dec(coef: int, places: nat)

  function Pow10(n: nat): (r: nat)
    ensures r >= 1
  {
    if n == 0 then 1 else 10 * Pow10(n - 1)
  }

  lemma {:induction false} Pow10Add(a: nat, b: nat)
    ensures Pow10(a + b) == Pow10(a) * Pow10(b)
  {
    if b > 0 {
      Pow10Add(a, b - 1);
      assert Pow10(a) * (10 * Pow10(b - 1)) == 10 * (Pow10(a) * Pow10(b - 1));
    }
  }

  predicate SameValue(x: Dec, y: Dec) {
    x.coef * Pow10(y.places) == y.coef * Pow10(x.places)
  }

  // ---------------------------------------------------------------- digits

  predicate IsDigit(c: char) {
    '0' <= c <= '9'
  }

  predicate AllDigits(s: string) {
    forall i :: 0 <= i < |s| ==> IsDigit(s[i])
  }

  function DigitVal(c: char): nat
    requires IsDigit(c)
  {
    c as int - '0' as int
  }

  function DigitChar(d: nat): (c: char)
    requires d < 10
    ensures IsDigit(c) && DigitVal(c) == d
  {
    ('0' as int + d) as char
  }

  function NatOf(s: string): nat
    requires AllDigits(s)
  {
    if s == "" then 0 else 10 * NatOf(s[..|s| - 1]) + DigitVal(s[|s| - 1])
  }

  /** The value of digits by position: the first of them counts ten to the number of the others. */
  lemma {:induction false} NatOfByPosition(s: string)
    requires AllDigits(s) && s != ""
    ensures NatOf(s) == (s[0] as int - '0' as int) * Pow10(|s| - 1) + NatOf(s[1..])
  {
    var front := s[..|s| - 1];
    if front == "" {
      assert s[1..] == "" && Pow10(0) == 1;
    } else {
      NatOfByPosition(front);
      assert front[1..] == s[1..][..|s[1..]| - 1];
      assert Pow10(|s| - 1) == 10 * Pow10(|front| - 1);
      TimesTen(s[0] as int - '0' as int, Pow10(|front| - 1));
    }
  }

  lemma TimesTen(d: int, p: nat)
    ensures d * (10 * p) == 10 * (d * p)
  {
  }

  function Digits(n: nat): (s: string)
    ensures s != "" && AllDigits(s) && NatOf(s) == n
    ensures n >= 1 ==> s[0] != '0'
  {
    if n < 10 then [DigitChar(n)]
    else
      var front := Digits(n / 10);
      var s := front + [DigitChar(n % 10)];
      assert s[..|s| - 1] == front;
      s
  }

  /** Leading zeros up to a width. */
  function Pad(s: string, width: nat): (r: string)
    requires AllDigits(s)
    ensures |r| >= width && |r| >= |s| && AllDigits(r) && NatOf(r) == NatOf(s)
    ensures |s| >= width ==> r == s
    ensures |s| < width ==> |r| == width
    decreases width - |s|
  {
    if |s| >= width then s
    else
      LeadingZero(s);
      Pad("0" + s, width)
  }

  lemma {:induction false} LeadingZero(s: string)
    requires AllDigits(s)
    ensures AllDigits("0" + s) && NatOf("0" + s) == NatOf(s)
  {
    if s == "" {
      assert "0" + s == "0";
      assert "0"[..0] == "";
    } else {
      LeadingZero(s[..|s| - 1]);
      assert ("0" + s)[..|s|] == "0" + s[..|s| - 1];
    }
  }

  // ---------------------------------------------------------------- the pattern

  function Sign(negative: bool): string {
    if negative then "-" else ""
  }

  function Fraction(frac: string): string {
    if frac == "" then "" else "." + frac
  }

  function Body(whole: string, frac: string): string {
    whole + Fraction(frac)
  }

  /** The text consists of an optional minus, digits, and optionally a point with more digits. */
  predicate Spells(s: string, negative: bool, whole: string, frac: string) {
    AllDigits(whole) && whole != "" && AllDigits(frac) && s == Sign(negative) + Body(whole, frac)
  }

  ghost predicate MatchesPattern(s: string) {
    exists negative, whole, frac :: Spells(s, negative, whole, frac)
  }

  function PointAt(s: string): (i: nat)
    ensures i <= |s| && (i < |s| ==> s[i] == '.') && forall j :: 0 <= j < i ==> s[j] != '.'
  {
    if s == "" then 0 else if s[0] == '.' then 0 else 1 + PointAt(s[1..])
  }

  function Signed(negative: bool, n: nat): int {
    if negative then 0 - n else n
  }

  /** Reads the part after the sign. */
  function ParseBody(body: string): Option<(nat, nat)> {
    var point := PointAt(body);
    var whole := body[..point];
    var frac := if point < |body| then body[point + 1..] else "";
    if !AllDigits(whole) || whole == "" || !AllDigits(frac) || (point < |body| && frac == "") then None
    else
      AllDigitsConcat(whole, frac);
      Some((NatOf(whole + frac), |frac|))
  }

  /** Reads a text, or refuses it. */
  function Parse(s: string): Option<Dec> {
    var negative := s != "" && s[0] == '-';
    var body := if negative then s[1..] else s;
    match ParseBody(body)
    case None => None
    case Some((n, places)) => Some(Dec(Signed(negative, n), places))
  }

  lemma AllDigitsConcat(a: string, b: string)
    requires AllDigits(a) && AllDigits(b)
    ensures AllDigits(a + b)
  {
  }

  lemma {:induction false} PointAfterDigits(whole: string, rest: string)
    requires AllDigits(whole) && (rest == "" || rest[0] == '.')
    ensures PointAt(whole + rest) == |whole|
  {
    if whole == "" {
      assert whole + rest == rest;
    } else {
      assert (whole + rest)[1..] == whole[1..] + rest;
      PointAfterDigits(whole[1..], rest);
    }
  }

  lemma ParseBodySpelled(whole: string, frac: string)
    requires AllDigits(whole) && whole != "" && AllDigits(frac)
    ensures AllDigits(whole + frac) && ParseBody(Body(whole, frac)) == Some((NatOf(whole + frac), |frac|))
  {
    var body := Body(whole, frac);
    PointAfterDigits(whole, Fraction(frac));
    assert body[..|whole|] == whole;
    if frac != "" {
      assert body[|whole| + 1..] == frac;
    }
  }

  /** What a spelled text is read as. */
  lemma ParseSpelled(s: string, negative: bool, whole: string, frac: string)
    requires Spells(s, negative, whole, frac)
    ensures AllDigits(whole + frac)
    ensures Parse(s) == Some(Dec(Signed(negative, NatOf(whole + frac)), |frac|))
  {
    ParseBodySpelled(whole, frac);
    SignSplit(negative, Body(whole, frac));
    assert Body(whole, frac)[0] == whole[0] && IsDigit(whole[0]);
  }

  lemma SignSplit(negative: bool, body: string)
    requires body != "" && body[0] != '-'
    ensures var s := Sign(negative) + body;
      s != "" && (s[0] == '-' <==> negative) && (if negative then s[1..] else s) == body
  {
    assert ("-" + body)[1..] == body;
    assert "" + body == body;
  }

  ghost predicate BodySpelled(body: string) {
    exists whole, frac :: AllDigits(whole) && whole != "" && AllDigits(frac) && body == Body(whole, frac)
  }

  lemma ParsedBodyIsSpelled(body: string)
    requires ParseBody(body).Some?
    ensures BodySpelled(body)
  {
    var point := PointAt(body);
    var whole := body[..point];
    if point < |body| {
      SplitAt(body, point);
      assert body == Body(whole, body[point + 1..]);
    } else {
      assert body == Body(whole, "");
    }
  }

  lemma SplitAt(s: string, i: nat)
    requires i < |s| && s[i] == '.'
    ensures s == s[..i] + ("." + s[i + 1..])
  {
  }

  /** The reader accepts exactly the pattern. */
  lemma ParseAcceptsPattern(s: string)
    ensures Parse(s).Some? <==> MatchesPattern(s)
  {
    hide ParseBody;
    if MatchesPattern(s) {
      var negative, whole, frac :| Spells(s, negative, whole, frac);
      ParseSpelled(s, negative, whole, frac);
    }
    if Parse(s).Some? {
      var negative := s != "" && s[0] == '-';
      var body := if negative then s[1..] else s;
      ParsedBodyIsSpelled(body);
      var whole, frac :| AllDigits(whole) && whole != "" && AllDigits(frac) && body == Body(whole, frac);
      assert Spells(s, negative, whole, frac);
    }
  }

  // ---------------------------------------------------------------- request fields

  /** White space and line ends as the language's trimming knows them. */
  predicate IsSpace(c: char) {
    || '\U{9}' <= c <= '\U{D}' || c == ' ' || c == '\U{A0}' || c == '\U{1680}' || '\U{2000}' <= c <= '\U{200A}'
    || c == '\U{2028}' || c == '\U{2029}' || c == '\U{202F}' || c == '\U{205F}' || c == '\U{3000}' || c == '\U{FEFF}'
  }

  /** The characters by their code points. */
  lemma SpacesAre(c: char)
    ensures IsSpace(c) <==>
      c as int in {9, 10, 11, 12, 13, 32, 160, 5760, 8192, 8193, 8194, 8195, 8196, 8197, 8198, 8199, 8200, 8201, 8202,
                   8232, 8233, 8239, 8287, 12288, 65279}
  {
  }

  predicate AllSpace(s: string) {
    forall i :: 0 <= i < |s| ==> IsSpace(s[i])
  }

  function TrimStart(s: string): string {
    if s != "" && IsSpace(s[0]) then TrimStart(s[1..]) else s
  }

  function TrimEnd(s: string): string {
    if s != "" && IsSpace(s[|s| - 1]) then TrimEnd(s[..|s| - 1]) else s
  }

  /** What a request field with a decimal is read as: the trimmed text, if it matches. */
  function ReadField(s: string): Option<Dec> {
    Parse(TrimEnd(TrimStart(s)))
  }

  lemma {:induction false} TrimStartIs(pre: string, rest: string)
    requires AllSpace(pre) && (rest == "" || !IsSpace(rest[0]))
    ensures TrimStart(pre + rest) == rest
  {
    if pre == "" {
      assert pre + rest == rest;
    } else {
      assert (pre + rest)[1..] == pre[1..] + rest;
      TrimStartIs(pre[1..], rest);
    }
  }

  lemma {:induction false} TrimEndIs(rest: string, post: string)
    requires AllSpace(post) && (rest == "" || !IsSpace(rest[|rest| - 1]))
    ensures TrimEnd(rest + post) == rest
  {
    if post == "" {
      assert rest + post == rest;
    } else {
      assert (rest + post)[..|rest + post| - 1] == rest + post[..|post| - 1];
      TrimEndIs(rest, post[..|post| - 1]);
    }
  }

  lemma {:induction false} TrimStartSplits(s: string) returns (pre: string)
    ensures AllSpace(pre) && s == pre + TrimStart(s)
  {
    if s != "" && IsSpace(s[0]) {
      var rest := TrimStartSplits(s[1..]);
      pre := [s[0]] + rest;
    } else {
      pre := "";
    }
  }

  lemma {:induction false} TrimEndSplits(s: string) returns (post: string)
    ensures AllSpace(post) && s == TrimEnd(s) + post
  {
    if s != "" && IsSpace(s[|s| - 1]) {
      var rest := TrimEndSplits(s[..|s| - 1]);
      post := rest + [s[|s| - 1]];
    } else {
      post := "";
    }
  }

  predicate Surrounded(s: string, pre: string, core: string, post: string) {
    s == pre + (core + post) && AllSpace(pre) && AllSpace(post)
  }

  /** A text of the pattern starts with a minus or a digit and ends with a digit. */
  lemma PatternEnds(core: string, negative: bool, whole: string, frac: string)
    requires Spells(core, negative, whole, frac)
    ensures core != "" && !IsSpace(core[0]) && !IsSpace(core[|core| - 1])
  {
    var body := Body(whole, frac);
    assert body[|body| - 1] == if frac == "" then whole[|whole| - 1] else frac[|frac| - 1];
    assert core[|core| - 1] == body[|body| - 1];
    assert core[0] == if negative then '-' else whole[0];
  }

  /** A text of the pattern is read through any white space around it. */
  lemma FieldRead(s: string, pre: string, core: string, post: string)
    requires Surrounded(s, pre, core, post) && MatchesPattern(core)
    ensures ReadField(s) == Parse(core) && Parse(core).Some?
  {
    var negative, whole, frac :| Spells(core, negative, whole, frac);
    PatternEnds(core, negative, whole, frac);
    TrimStartIs(pre, core + post);
    TrimEndIs(core, post);
    ParseAcceptsPattern(core);
  }

  /** A request field is accepted exactly when it is a text of the pattern with nothing but white space around it. */
  lemma FieldAcceptedIff(s: string)
    ensures ReadField(s).Some? <==> exists pre, core, post :: Surrounded(s, pre, core, post) && MatchesPattern(core)
  {
    var pre := TrimStartSplits(s);
    var post := TrimEndSplits(TrimStart(s));
    var core := TrimEnd(TrimStart(s));
    ParseAcceptsPattern(core);
    assert Surrounded(s, pre, core, post);
    forall p, c, q | Surrounded(s, p, c, q) && MatchesPattern(c)
      ensures ReadField(s).Some?
    {
      FieldRead(s, p, c, q);
    }
  }

  // ---------------------------------------------------------------- printing without rounding

  /** The same number without trailing zeros after the point. */
  function Normal(x: Dec): (r: Dec)
    ensures SameValue(r, x)
    ensures r.places == 0 || r.coef % 10 != 0
    ensures (r.coef < 0 <==> x.coef < 0) && (r.coef == 0 <==> x.coef == 0)
    decreases x.places
  {
    if x.places == 0 || x.coef % 10 != 0 then x
    else
      var y := Dec(x.coef / 10, x.places - 1);
      var r := Normal(y);
      assert x.coef == 10 * y.coef;
      assert r.coef * Pow10(x.places) == r.coef * (10 * Pow10(y.places)) == 10 * (r.coef * Pow10(y.places));
      assert x.coef * Pow10(r.places) == 10 * (y.coef * Pow10(r.places));
      r
  }

  /** A normal number with its sign; zero is printed without one, whatever sign it was given. */
  function Print(x: Dec): string {
    Spell(Normal(x))
  }

  function Spell(x: Dec): string {
    var (whole, frac) := Parts(x);
    Sign(x.coef < 0) + Body(whole, frac)
  }

  /** The digits before and after the point. */
  function Parts(x: Dec): (r: (string, string))
    ensures AllDigits(r.0) && r.0 != "" && AllDigits(r.1) && |r.1| == x.places
    ensures AllDigits(r.0 + r.1) && NatOf(r.0 + r.1) == Abs(x.coef)
  {
    var all := Pad(Digits(Abs(x.coef)), x.places + 1);
    var cut := |all| - x.places;
    assert all == all[..cut] + all[cut..];
    (all[..cut], all[cut..])
  }

  lemma SpellIsSpelled(x: Dec)
    ensures Spells(Spell(x), x.coef < 0, Parts(x).0, Parts(x).1)
    ensures Parse(Spell(x)) == Some(x)
  {
    var (whole, frac) := Parts(x);
    ParseSpelled(Spell(x), x.coef < 0, whole, frac);
  }

  /** Printing always yields an accepted text, and reading it back yields the same number. */
  lemma PrintRoundTrip(x: Dec)
    ensures MatchesPattern(Print(x))
    ensures Parse(Print(x)) == Some(Normal(x))
    ensures SameValue(Normal(x), x)
  {
    SpellIsSpelled(Normal(x));
    ParseAcceptsPattern(Print(x));
  }

  lemma NormalFormsAgree(x: Dec, y: Dec)
    requires SameValue(x, y) && x.places <= y.places
    requires y.places == 0 || y.coef % 10 != 0
    ensures x == y
  {
    var gap := y.places - x.places;
    Pow10Add(x.places, gap);
    assert y.coef * Pow10(x.places) == (x.coef * Pow10(gap)) * Pow10(x.places);
    CancelFactor(y.coef, x.coef * Pow10(gap), Pow10(x.places));
    TenDivides(x.coef, gap);
  }

  lemma TenDivides(c: int, n: nat)
    ensures n == 0 ==> c * Pow10(n) == c
    ensures n > 0 ==> (c * Pow10(n)) % 10 == 0
  {
    if n > 0 {
      assert c * Pow10(n) == 10 * (c * Pow10(n - 1));
    }
  }

  lemma CancelFactor(a: int, b: int, c: nat)
    requires c >= 1 && a * c == b * c
    ensures a == b
  {
    assert a < b ==> (a + 1) * c <= b * c;
    assert b < a ==> (b + 1) * c <= a * c;
  }

  lemma SameValueTrans(x: Dec, y: Dec, z: Dec)
    requires SameValue(x, y) && SameValue(y, z)
    ensures SameValue(x, z)
  {
    var px, py, pz := Pow10(x.places), Pow10(y.places), Pow10(z.places);
    hide Pow10;
    Swap(x.coef, py, pz);
    Swap(y.coef, px, pz);
    Swap(z.coef, py, px);
    CancelFactor(x.coef * pz, z.coef * px, py);
  }

  lemma Swap(a: int, b: int, c: int)
    ensures (a * b) * c == (a * c) * b
  {
  }

  /** Equal numbers have one normal form. */
  lemma SameNormalIff(x: Dec, y: Dec)
    ensures Normal(x) == Normal(y) <==> SameValue(x, y)
  {
    var n, m := Normal(x), Normal(y);
    assert SameValue(x, n) && SameValue(n, x) && SameValue(y, m) && SameValue(m, y);
    hide SameValue, Normal;
    if n == m {
      SameValueTrans(x, n, y);
    }
    if SameValue(x, y) {
      SameValueTrans(n, x, y);
      SameValueTrans(n, y, m);
      SameValueSym(n, m);
      if n.places <= m.places {
        NormalFormsAgree(n, m);
      } else {
        NormalFormsAgree(m, n);
      }
    }
  }

  lemma SameValueSym(x: Dec, y: Dec)
    ensures SameValue(x, y) <==> SameValue(y, x)
  {
  }

  /** Equal texts mean equal numbers and the other way round. */
  lemma SameTextIffSameValue(x: Dec, y: Dec)
    ensures Print(x) == Print(y) <==> SameValue(x, y)
  {
    PrintRoundTrip(x);
    PrintRoundTrip(y);
    hide Normal, Parse;
    SameNormalIff(x, y);
  }

  /** The text is "0" exactly when the number is zero, whatever places it is written with. */
  lemma ZeroText(x: Dec)
    ensures Print(x) == "0" <==> x.coef == 0
  {
    var zero := Dec(0, 0);
    assert Digits(0) == "0";
    assert Pad("0", 1) == "0";
    assert "0"[..1] == "0" && "0"[1..] == "";
    assert Parts(zero) == ("0", "");
    assert Print(zero) == "" + "0" + "" == "0";
    SameTextIffSameValue(x, zero);
    if SameValue(x, zero) {
      assert x.coef * 1 == 0;
    }
  }

  // ---------------------------------------------------------------- zero with a sign

  /** The library keeps the sign apart from the digits, so zero has two forms. */
  datatype Numeral = Numeral(negative: bool, digits: nat, places: nat)

  function Value(x: Numeral): Dec {
    Dec(Signed(x.negative, x.digits), x.places)
  }

  function Negate(x: Numeral): Numeral {
    x.(negative := !x.negative)
  }

  /** The minus sign is printed for negative numerals other than zero. */
  function ToFixed(x: Numeral): string {
    var n := Normal(Dec(x.digits, x.places));
    Sign(x.negative && x.digits != 0) + Body(Parts(n).0, Parts(n).1)
  }

  lemma {:induction false} NormalNegated(c: int, places: nat)
    ensures Normal(Dec(-c, places)) == Dec(-Normal(Dec(c, places)).coef, Normal(Dec(c, places)).places)
    decreases places
  {
    if places > 0 && c % 10 == 0 {
      assert (-c) % 10 == 0 && (-c) / 10 == -(c / 10);
      NormalNegated(c / 10, places - 1);
    } else {
      assert (-c) % 10 == 0 <==> c % 10 == 0;
    }
  }

  lemma PartsNegated(x: Dec)
    ensures Parts(Dec(-x.coef, x.places)) == Parts(x)
  {
    assert Abs(-x.coef) == Abs(x.coef);
  }

  lemma PrintsValue(x: Numeral)
    ensures ToFixed(x) == Print(Value(x))
  {
    hide Body, Parts;
    var n := Normal(Dec(x.digits, x.places));
    NormalNegated(x.digits, x.places);
    PartsNegated(n);
  }

  /** Printing a numeral prints its value; negating zero leaves the text "0". */
  lemma NegatedZeroText(x: Numeral)
    ensures ToFixed(x) == Print(Value(x))
    ensures ToFixed(x) == "0" <==> x.digits == 0
    ensures ToFixed(Negate(x)) == "0" <==> x.digits == 0
  {
    hide ToFixed, Print;
    PrintsValue(x);
    PrintsValue(Negate(x));
    ZeroText(Value(x));
    ZeroText(Value(Negate(x)));
  }

  // ---------------------------------------------------------------- printing to fixed places

  /** Division rounded half up, for natural numbers. */
  function DivHalfUp(n: nat, d: nat): nat
    requires d >= 1
  {
    (2 * n + d) / (2 * d)
  }

  /** The number rounded to `places` places, halves away from zero. */
  function RoundTo(x: Dec, places: nat): Dec {
    if x.places <= places then Dec(x.coef * Pow10(places - x.places), places)
    else
      var m := DivHalfUp(Abs(x.coef), Pow10(x.places - places));
      Dec(Signed(x.coef < 0, m), places)
  }

  /** A negative number that rounds to zero keeps its minus sign. */
  function Fixed(x: Dec, places: nat): string {
    var r := RoundTo(x, places);
    var (whole, frac) := Parts(r);
    Sign(x.coef < 0) + Body(whole, frac)
  }

  lemma DivHalfUpIsNearest(n: nat, d: nat)
    requires d >= 1
    ensures 2 * (DivHalfUp(n, d) * d) <= 2 * n + d
    ensures 2 * n < 2 * (DivHalfUp(n, d) * d) + d
  {
    var q, r := (2 * n + d) / (2 * d), (2 * n + d) % (2 * d);
    assert 2 * n + d == (2 * d) * q + r && r < 2 * d;
    assert (2 * d) * q == 2 * (q * d);
  }

  /** `y` differs from `x` by at most half a unit of y's last place: |y - x| <= 10^-y.places / 2, both sides times 10^(x.places + y.places). */
  predicate WithinHalfUnit(y: Dec, x: Dec) {
    2 * Abs(y.coef * Pow10(x.places) - x.coef * Pow10(y.places)) <= Pow10(x.places)
  }

  /** Not more than half a unit is ever taken off in magnitude, and exactly half a unit never is. */
  predicate HalvesGoAway(y: Dec, x: Dec) {
    2 * (Abs(x.coef) * Pow10(y.places)) < 2 * (Abs(y.coef) * Pow10(x.places)) + Pow10(x.places)
  }

  lemma RoundToIsNearest(x: Dec, places: nat)
    ensures RoundTo(x, places).places == places
    ensures WithinHalfUnit(RoundTo(x, places), x) && HalvesGoAway(RoundTo(x, places), x)
    ensures x.places <= places ==> SameValue(RoundTo(x, places), x)
  {
    hide Pow10;
    if x.places <= places {
      Pow10Add(places - x.places, x.places);
      Lengthened(x.coef, Pow10(places - x.places), Pow10(x.places));
    } else {
      var d := Pow10(x.places - places);
      Pow10Add(x.places - places, places);
      DivHalfUpIsNearest(Abs(x.coef), d);
      var m, n := DivHalfUp(Abs(x.coef), d), Abs(x.coef);
      ScaledBound(m, n, d, Pow10(places));
      SignedTimes(x.coef < 0, m, Pow10(x.places));
      SignedTimes(x.coef < 0, n, Pow10(places));
      SignedGap(x.coef < 0, m * Pow10(x.places), n * Pow10(places));
    }
  }

  lemma Lengthened(c: int, gap: nat, scale: nat)
    ensures (c * gap) * scale == c * (gap * scale)
    ensures Abs(c * gap) * scale == Abs(c) * (gap * scale)
  {
    assert Abs(c * gap) == Abs(c) * gap;
  }

  lemma ScaledBound(m: nat, a: nat, d: nat, scale: nat)
    requires scale >= 1 && 2 * a < 2 * (m * d) + d && 2 * (m * d) <= 2 * a + d
    ensures 2 * Abs(m * (d * scale) - a * scale) <= d * scale
    ensures 2 * (a * scale) < 2 * (m * (d * scale)) + d * scale
  {
    Associate(m, d, scale);
    UnsignedBound(m * d, a, d, scale);
  }

  lemma Associate(a: nat, b: nat, c: nat)
    ensures a * (b * c) == (a * b) * c
  {
  }

  lemma UnsignedBound(md: nat, a: nat, d: nat, scale: nat)
    requires scale >= 1 && 2 * a < 2 * md + d && 2 * md <= 2 * a + d
    ensures 2 * (md * scale) <= 2 * (a * scale) + d * scale
    ensures 2 * (a * scale) < 2 * (md * scale) + d * scale
  {
    TimesMonotone(2 * md, 2 * a + d, scale);
    TimesMonotone(2 * a + 1, 2 * md + d, scale);
    Distribute(md, a, d, scale);
  }

  lemma SignedGap(negative: bool, x: nat, y: nat)
    ensures Abs(Signed(negative, x) - Signed(negative, y)) == Abs(x - y)
  {
  }

  lemma SignedTimes(negative: bool, n: nat, k: nat)
    ensures Signed(negative, n) * k == Signed(negative, n * k)
  {
  }

  lemma Distribute(md: nat, a: nat, d: nat, scale: nat)
    ensures (2 * md) * scale == 2 * (md * scale)
    ensures (2 * a + d) * scale == 2 * (a * scale) + d * scale
    ensures (2 * a + 1) * scale == 2 * (a * scale) + scale
    ensures (2 * md + d) * scale == 2 * (md * scale) + d * scale
  {
  }

  /**
   * Fixed-place printing yields an accepted text with exactly that many places, whose number is
   * within half a unit of the last place, and is the number itself when no digit has to go. The text
   * starts with a minus exactly for negative numbers, those that round to zero included.
   */
  lemma FixedIsNearest(x: Dec, places: nat)
    ensures MatchesPattern(Fixed(x, places))
    ensures Parse(Fixed(x, places)) == Some(RoundTo(x, places))
    ensures Fixed(x, places) != "" && (Fixed(x, places)[0] == '-' <==> x.coef < 0)
    ensures RoundTo(x, places).places == places
    ensures WithinHalfUnit(RoundTo(x, places), x) && HalvesGoAway(RoundTo(x, places), x)
    ensures x.places <= places ==> SameValue(RoundTo(x, places), x)
  {
    hide Parse, Parts, RoundTo, WithinHalfUnit, HalvesGoAway;
    var r := RoundTo(x, places);
    RoundToIsNearest(x, places);
    var (whole, frac) := Parts(r);
    assert Spells(Fixed(x, places), x.coef < 0, whole, frac);
    ParseSpelled(Fixed(x, places), x.coef < 0, whole, frac);
    SignOfRounded(x, places);
    assert Body(whole, frac)[0] == whole[0] && IsDigit(whole[0]);
    SignSplit(x.coef < 0, Body(whole, frac));
  }

  lemma SignOfRounded(x: Dec, places: nat)
    ensures x.coef < 0 ==> RoundTo(x, places).coef <= 0
    ensures x.coef >= 0 ==> RoundTo(x, places).coef >= 0
  {
    if x.places <= places && x.coef < 0 {
      assert x.coef * Pow10(places - x.places) <= 0;
    }
  }
}
