/**
 * Quantities as the database stores them, and the text they read back as. A stored number keeps its
 * sign, its coefficient and its exponent, trailing zeros included; its text is the scientific string
 * of the General Decimal Arithmetic specification, which the database's decimal type prescribes.
 */
module DecimalStorage {
  import opened Prelude
  import opened DecimalText

  /** (-1)^negative * coef * 10^exponent. */
  datatype Decimal128 = Decimal128(negative: bool, coef: nat, exponent: int)

  /** Storing a plain decimal text. */
  function FromText(s: string): Option<Decimal128> {
    var negative := s != "" && s[0] == '-';
    match ParseBody(if negative then s[1..] else s)
    case None => None
    case Some((n, places)) => Some(Decimal128(negative, n, 0 - places))
  }

  /** The exponent of the first digit. */
  function Adjusted(x: Decimal128): int {
    |Digits(x.coef)| - 1 + x.exponent
  }

  /** Numbers with zeros to add on the right, or too many on the left, are written with an exponent. */
  predicate Scientific(x: Decimal128) {
    x.exponent > 0 || Adjusted(x) < -6
  }

  function ExponentText(e: int): string {
    (if e > 0 then "+" else "-") + Digits(Abs(e))
  }

  /** Reading a stored number back as text. */
  function ToText(x: Decimal128): string {
    Sign(x.negative) +
    if Scientific(x) then Mantissa(Digits(x.coef)) + ("E" + ExponentText(Adjusted(x)))
    else
      var (whole, frac) := Parts(Dec(x.coef, -x.exponent));
      Body(whole, frac)
  }

  function Mantissa(digits: string): string
    requires digits != ""
  {
    Body(digits[..1], digits[1..])
  }

  // ---------------------------------------------------------------- reading any text of a number

  function LetterAt(s: string): (i: nat)
    ensures i <= |s| && (i < |s| ==> s[i] == 'E') && forall j :: 0 <= j < i ==> s[j] != 'E'
  {
    if s == "" then 0 else if s[0] == 'E' then 0 else 1 + LetterAt(s[1..])
  }

  function ReadExponent(t: string): Option<int> {
    if |t| < 2 || (t[0] != '+' && t[0] != '-') || !AllDigits(t[1..]) then None
    else Some(Signed(t[0] == '-', NatOf(t[1..])))
  }

  /** A plain decimal text, or one followed by an exponent. */
  function Read(s: string): Option<Decimal128> {
    var i := LetterAt(s);
    if i == |s| then FromText(s)
    else
      match (FromText(s[..i]), ReadExponent(s[i + 1..]))
      case (Some(x), Some(e)) => Some(x.(exponent := x.exponent + e))
      case _ => None
  }

  // ---------------------------------------------------------------- storing

  lemma FromSpelled(s: string, negative: bool, whole: string, frac: string)
    requires Spells(s, negative, whole, frac)
    ensures AllDigits(whole + frac)
    ensures FromText(s) == Some(Decimal128(negative, NatOf(whole + frac), -|frac|))
  {
    hide NatOf, ParseBody;
    ParseBodySpelled(whole, frac);
    SignSplit(negative, Body(whole, frac));
    assert Body(whole, frac)[0] == whole[0] && IsDigit(whole[0]);
  }

  /** The number stored is the number the text says, places included; a minus sign is kept even on zero. */
  lemma StoringKeepsValue(s: string)
    ensures FromText(s).Some? <==> MatchesPattern(s)
    ensures FromText(s).Some? ==>
      var x := FromText(s).value;
      x.exponent <= 0 && Parse(s) == Some(Dec(Signed(x.negative, x.coef), -x.exponent))
  {
    ParseAcceptsPattern(s);
  }

  // ---------------------------------------------------------------- reading back

  predicate NoLetter(s: string) {
    forall i :: 0 <= i < |s| ==> s[i] != 'E'
  }

  lemma SpelledHasNoLetter(s: string, negative: bool, whole: string, frac: string)
    requires Spells(s, negative, whole, frac)
    ensures NoLetter(s)
  {
    var sign, body := Sign(negative), Body(whole, frac);
    assert forall i :: 0 <= i < |body| ==> body[i] != 'E';
    assert forall i :: 0 <= i < |s| ==> s[i] == if i < |sign| then sign[i] else body[i - |sign|];
  }

  lemma {:induction false} LetterAfter(a: string, b: string)
    requires NoLetter(a)
    ensures LetterAt(a) == |a|
    ensures LetterAt(a + ("E" + b)) == |a|
  {
    if a != "" {
      assert (a + ("E" + b))[1..] == a[1..] + ("E" + b);
      LetterAfter(a[1..], b);
    } else {
      assert a + ("E" + b) == "E" + b;
    }
  }

  lemma ExponentRead(e: int)
    requires e != 0
    ensures ReadExponent(ExponentText(e)) == Some(e)
  {
    var t := ExponentText(e);
    assert t[1..] == Digits(Abs(e));
  }

  lemma MantissaSpelled(negative: bool, coef: nat)
    ensures var d := Digits(coef);
      && Spells(Sign(negative) + Mantissa(d), negative, d[..1], d[1..])
      && FromText(Sign(negative) + Mantissa(d)) == Some(Decimal128(negative, coef, 1 - |d|))
  {
    hide FromText, Digits;
    var d := Digits(coef);
    assert d[..1] + d[1..] == d;
    FromSpelled(Sign(negative) + Mantissa(d), negative, d[..1], d[1..]);
  }

  lemma ScientificRead(x: Decimal128)
    requires Scientific(x)
    ensures Read(ToText(x)) == Some(x)
    ensures !NoLetter(ToText(x))
  {
    hide NoLetter, FromText, Digits, ReadExponent, ExponentText, Mantissa, Spells;
    var d := Digits(x.coef);
    var m, t := Sign(x.negative) + Mantissa(d), ExponentText(Adjusted(x));
    MantissaSpelled(x.negative, x.coef);
    SpelledHasNoLetter(m, x.negative, d[..1], d[1..]);
    ExponentRead(Adjusted(x));
    Joined(Sign(x.negative), Mantissa(d), t);
    hide Read;
    LetterSplits(m, t);
    ReadWithLetter(m, t);
  }

  lemma ReadWithLetter(m: string, t: string)
    requires NoLetter(m) && FromText(m).Some? && ReadExponent(t).Some?
    ensures Read(m + ("E" + t)) == Some(FromText(m).value.(exponent := FromText(m).value.exponent + ReadExponent(t).value))
  {
    hide FromText, ReadExponent, NoLetter;
    LetterAfter(m, t);
    LetterSplits(m, t);
  }

  lemma Joined(a: string, b: string, c: string)
    ensures a + (b + ("E" + c)) == (a + b) + ("E" + c)
  {
  }

  lemma LetterSplits(m: string, t: string)
    ensures var s := m + ("E" + t);
      |m| < |s| && s[..|m|] == m && s[|m| + 1..] == t && s[|m|] == 'E' && !NoLetter(s)
  {
  }

  lemma PlainRead(x: Decimal128)
    requires !Scientific(x)
    ensures Read(ToText(x)) == Some(x)
    ensures MatchesPattern(ToText(x)) && NoLetter(ToText(x))
  {
    hide NatOf, FromText, Digits, LetterAt, Parts, NoLetter;
    var (whole, frac) := Parts(Dec(x.coef, -x.exponent));
    assert Spells(ToText(x), x.negative, whole, frac);
    FromSpelled(ToText(x), x.negative, whole, frac);
    SpelledHasNoLetter(ToText(x), x.negative, whole, frac);
    LetterAfter(ToText(x), "");
  }

  /** Reading a stored number back as text and reading that text gives the stored number itself: sign, coefficient and exponent. */
  lemma TextRoundTrip(x: Decimal128)
    ensures Read(ToText(x)) == Some(x)
  {
    if Scientific(x) {
      ScientificRead(x);
    } else {
      PlainRead(x);
    }
  }

  /** So two stored numbers read back as the same text exactly when they agree in all three. */
  lemma SameStoredTextIff(x: Decimal128, y: Decimal128)
    ensures ToText(x) == ToText(y) <==> x == y
  {
    TextRoundTrip(x);
    TextRoundTrip(y);
  }

  /** Two accepted texts are stored with the same read-back text exactly when they agree in sign, digits and places: 5 and 5.00 do not. */
  lemma SameReadBackIff(s: string, t: string)
    requires Parse(s).Some? && Parse(t).Some?
    ensures FromText(s).Some? && FromText(t).Some?
    ensures ToText(FromText(s).value) == ToText(FromText(t).value) <==>
            Parse(s) == Parse(t) && FromText(s).value.negative == FromText(t).value.negative
  {
    hide FromText, Parse, ToText, MatchesPattern;
    StoringKeepsValue(s);
    StoringKeepsValue(t);
    ParseAcceptsPattern(s);
    ParseAcceptsPattern(t);
    SameStoredTextIff(FromText(s).value, FromText(t).value);
  }

  /** The text read back matches the API's pattern exactly when it is not written with an exponent. */
  lemma MatchesPatternIff(x: Decimal128)
    ensures MatchesPattern(ToText(x)) <==> x.exponent <= 0 && |Digits(x.coef)| + x.exponent >= -5
  {
    if Scientific(x) {
      ScientificRead(x);
      if MatchesPattern(ToText(x)) {
        var negative, whole, frac :| Spells(ToText(x), negative, whole, frac);
        SpelledHasNoLetter(ToText(x), negative, whole, frac);
      }
    } else {
      PlainRead(x);
    }
  }

  /** For an accepted text: it reads back within the pattern exactly when it has at most five places more than digits that count. */
  lemma AcceptedReadsBackIff(s: string)
    requires Parse(s).Some?
    ensures FromText(s).Some?
    ensures MatchesPattern(ToText(FromText(s).value)) <==> Parse(s).value.places <= |Digits(Abs(Parse(s).value.coef))| + 5
  {
    StoringKeepsValue(s);
    ParseAcceptsPattern(s);
    MatchesPatternIff(FromText(s).value);
  }

  /** Two texts the specification gives: 0.000000123 and 5000 stored as five thousands. */
  lemma SpecifiedTexts()
    ensures ToText(Decimal128(false, 123, -9)) == "1.23E-7"
    ensures ToText(Decimal128(true, 5, 3)) == "-5E+3"
  {
    assert Digits(5) == "5" && Digits(3) == "3" && Digits(7) == "7" && Digits(1) == "1";
    assert Digits(12) == "1" + "2" == "12";
    assert Digits(123) == "12" + "3" == "123";
    assert Mantissa("123") == "1" + ("." + "23") == "1.23";
    assert Mantissa("5") == "5" + "" == "5";
    assert ExponentText(-7) == "-" + "7" && ExponentText(3) == "+" + "3";
    assert Scientific(Decimal128(false, 123, -9)) && Adjusted(Decimal128(false, 123, -9)) == -7;
    assert Scientific(Decimal128(true, 5, 3)) && Adjusted(Decimal128(true, 5, 3)) == 3;
    assert "" + ("1.23" + ("E" + "-7")) == "1.23E-7";
    assert "-" + ("5" + ("E" + "+3")) == "-5E+3";
  }

  // ---------------------------------------------------------------- unchanged texts

  lemma OneMoreDigit(n: nat, v: nat)
    requires v < 10
    ensures |Digits(10 * n + v)| == if n == 0 then 1 else |Digits(n)| + 1
  {
    assert (10 * n + v) / 10 == n;
  }

  lemma {:induction false} DigitsLength(t: string)
    requires AllDigits(t) && t != ""
    ensures |Digits(NatOf(t))| <= |t|
    ensures t[0] != '0' ==> |Digits(NatOf(t))| == |t| && NatOf(t) >= 1
  {
    var front, v := t[..|t| - 1], DigitVal(t[|t| - 1]);
    assert NatOf(t) == 10 * NatOf(front) + v;
    if front != "" {
      DigitsLength(front);
      OneMoreDigit(NatOf(front), v);
    }
  }

  lemma ShorterWithoutZero(t: string)
    requires AllDigits(t) && |t| > 1 && t[0] == '0'
    ensures |Digits(NatOf(t))| < |t|
  {
    assert t == "0" + t[1..];
    LeadingZero(t[1..]);
    DigitsLength(t[1..]);
  }

  lemma {:induction false} SameLengthSameDigits(a: string, b: string)
    requires AllDigits(a) && AllDigits(b) && |a| == |b| && NatOf(a) == NatOf(b)
    ensures a == b
  {
    if a != "" {
      var m, n := a[..|a| - 1], b[..|b| - 1];
      SameLengthSameDigits(m, n);
      assert a == m + [a[|a| - 1]] && b == n + [b[|b| - 1]];
    }
  }

  /** No superfluous zero in front. */
  predicate Canonical(whole: string) {
    |whole| == 1 || (whole != "" && whole[0] != '0')
  }

  lemma PartsOfCanonical(whole: string, frac: string)
    requires AllDigits(whole) && whole != "" && AllDigits(frac)
    ensures AllDigits(whole + frac)
    ensures Canonical(whole) ==> Parts(Dec(NatOf(whole + frac), |frac|)) == (whole, frac)
    ensures !Canonical(whole) ==> |Parts(Dec(NatOf(whole + frac), |frac|)).0| < |whole|
  {
    hide NatOf, Digits, Pad;
    var t := whole + frac;
    var r := Pad(Digits(NatOf(t)), |frac| + 1);
    assert t[0] == whole[0];
    DigitsLength(t);
    if Canonical(whole) {
      SameLengthSameDigits(r, t);
      assert t[..|whole|] == whole && t[|whole|..] == frac;
    } else {
      ShorterWithoutZero(t);
    }
  }

  /** An accepted text reads back unchanged exactly when it has no superfluous zero in front and needs no exponent. */
  lemma UnchangedIff(s: string, negative: bool, whole: string, frac: string)
    requires Spells(s, negative, whole, frac)
    ensures FromText(s).Some?
    ensures ToText(FromText(s).value) == s <==> Canonical(whole) && !Scientific(FromText(s).value)
  {
    FromSpelled(s, negative, whole, frac);
    var x := FromText(s).value;
    if Scientific(x) {
      ScientificRead(x);
      SpelledHasNoLetter(s, negative, whole, frac);
    } else {
      PartsOfCanonical(whole, frac);
      var (w, f) := Parts(Dec(x.coef, -x.exponent));
      assert |ToText(x)| == |Sign(negative)| + |w| + |Fraction(f)|;
    }
  }

  // ---------------------------------------------------------------- computed quantities

  /** A computed quantity is printed without rounding and stored; this is the text it reads back as. */
  function StoredText(x: Dec): string {
    var stored := FromText(Print(x));
    if stored.Some? then ToText(stored.value) else ""
  }

  /** What is stored: the normal form. */
  function StoredForm(n: Dec): Decimal128 {
    Decimal128(n.coef < 0, Abs(n.coef), 0 - n.places)
  }

  lemma StoredTextIs(x: Dec)
    ensures FromText(Print(x)) == Some(StoredForm(Normal(x)))
    ensures StoredText(x) == ToText(StoredForm(Normal(x)))
  {
    var n := Normal(x);
    hide NatOf, FromText, Normal, Parts, ToText;
    FromSpelled(Print(x), n.coef < 0, Parts(n).0, Parts(n).1);
  }

  /** Computed quantities read back as the same text exactly when they are equal. */
  lemma SameStoredQuantityIff(x: Dec, y: Dec)
    ensures StoredText(x) == StoredText(y) <==> SameValue(x, y)
  {
    hide Normal, FromText, ToText, StoredText, SameValue;
    StoredTextIs(x);
    StoredTextIs(y);
    SameStoredTextIff(StoredForm(Normal(x)), StoredForm(Normal(y)));
    SameNormalIff(x, y);
  }

  /** The text read back is "0" exactly when the quantity is zero. */
  lemma StoredZeroText(x: Dec)
    ensures StoredText(x) == "0" <==> x.coef == 0
  {
    hide StoredText;
    ZeroReadsBack();
    SameStoredQuantityIff(x, Dec(0, 0));
    assert Pow10(0) == 1;
  }

  lemma ZeroReadsBack()
    ensures StoredText(Dec(0, 0)) == "0"
  {
    hide Print, FromText, ToText;
    ZeroText(Dec(0, 0));
    PlainZero();
  }

  lemma PlainZero()
    ensures FromText("0").Some? && ToText(FromText("0").value) == "0"
  {
    hide ToText, FromText, NatOf, Digits, Parts;
    assert "" + ("0" + "") == "0" && "0" + "" == "0" && "0"[..0] == "";
    assert Spells("0", false, "0", "");
    FromSpelled("0", false, "0", "");
    UnchangedIff("0", false, "0", "");
  }
}
