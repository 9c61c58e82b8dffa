/**
 * The two field validators of main.py: `is_valid_period` and
 * `is_valid_csv_amount`. The amount check needs Python's `float()`, which is
 * modelled on a restricted grammar of decimal literals with integer reasoning.
 */
module Validators {
  import opened Wrappers
  import opened PyStr

  // ---------------------------------------------------------------------------
  // Periods

  /** `is_valid_period`: `len(s) == 6 and s.isdigit()`. */
  predicate IsValidPeriod(s: string)
  {
    |s| == 6 && IsDigitStr(s)
  }

  /** The value of a string of decimal digits. */
  function DigitsValue(s: string): nat
    requires AllDigits(s)
  {
    if s == [] then 0 else 10 * DigitsValue(s[..|s| - 1]) + (s[|s| - 1] as int - '0' as int)
  }

  /** n written in exactly `width` decimal digits, zero-padded on the left
      (that is, n modulo 10^width). */
  function Show(n: nat, width: nat): (r: string)
    ensures |r| == width && AllDigits(r)
  {
    if width == 0 then [] else Show(n / 10, width - 1) + [('0' as int + n % 10) as char]
  }

  /** Reading a digit string and writing its value back in as many digits gives
      the string back. */
  lemma {:induction false} ShowDigitsValue(s: string)
    requires AllDigits(s)
    ensures Show(DigitsValue(s), |s|) == s
    decreases |s|
  {
    if s != [] {
      var init, last := s[..|s| - 1], s[|s| - 1];
      assert AllDigits(init);
      ShowDigitsValue(init);
      var v := DigitsValue(s);
      assert v / 10 == DigitsValue(init) && v % 10 == last as int - '0' as int;
      assert s == init + [last];
    }
  }

  /** Every valid period is a two-digit month field followed by a four-digit
      year field (MMYYYY). */
  lemma ValidPeriodIsMonthYear(s: string)
    requires IsValidPeriod(s)
    ensures AllDigits(s[..2]) && AllDigits(s[2..])
    ensures s == Show(DigitsValue(s[..2]), 2) + Show(DigitsValue(s[2..]), 4)
  {
    assert AllDigits(s[..2]) && AllDigits(s[2..]);
    ShowDigitsValue(s[..2]);
    ShowDigitsValue(s[2..]);
    assert s == s[..2] + s[2..];
  }

  /** Conversely every month number and every year number make a valid
      period: no month range is checked, so 00 and 13 pass as months. */
  lemma AnyMonthYearIsValidPeriod(month: nat, year: nat)
    ensures IsValidPeriod(Show(month, 2) + Show(year, 4))
  {
    var s := Show(month, 2) + Show(year, 4);
    assert forall i :: 0 <= i < 6 ==> s[i] == if i < 2 then Show(month, 2)[i] else Show(year, 4)[i - 2];
  }

  lemma PeriodExamples()
    ensures IsValidPeriod("012024") && IsValidPeriod("132024") && IsValidPeriod("002024")
    ensures !IsValidPeriod("12024") && !IsValidPeriod("2024-1") && !IsValidPeriod("0120245")
  {
    assert !IsDigit("2024-1"[4]);
  }

  // ---------------------------------------------------------------------------
  // Decimal literals, the part of Python's float() syntax this model covers

  /** A decimal literal: an optional sign, the digits before the point, whether
      a point is written, and the digits after it. */
  datatype Literal = Literal(sign: string, whole: string, point: bool, fraction: string)

  /** `[+-]? digits [. digits]` or `[+-]? . digits`: at least one digit, and
      fraction digits only after a point. */
  predicate WellFormed(d: Literal)
  {
    && (d.sign == "" || d.sign == "+" || d.sign == "-")
    && AllDigits(d.whole) && AllDigits(d.fraction)
    && |d.whole| + |d.fraction| > 0
    && (!d.point ==> d.fraction == "")
  }

  /** The text of a literal. */
  function Spell(d: Literal): string
  {
    d.sign + d.whole + (if d.point then "." else "") + d.fraction
  }

  /** The length of the leading `+` or `-` of s: 1 or 0. */
  function SignLength(s: string): (n: nat)
    ensures n <= |s| && (n == 1 <==> |s| > 0 && (s[0] == '+' || s[0] == '-'))
  {
    if |s| > 0 && (s[0] == '+' || s[0] == '-') then 1 else 0
  }

  /** The index of the first point in t, or |t| when there is none. */
  function FirstPoint(t: string): (k: nat)
    ensures k <= |t| && (k < |t| ==> t[k] == '.')
    ensures forall i :: 0 <= i < k ==> t[i] != '.'
  {
    if t == [] || t[0] == '.' then 0 else 1 + FirstPoint(t[1..])
  }

  /** s cut into its sign, the text before the first point after the sign,
      whether there is such a point, and the text after it; nothing is checked
      here. */
  function SplitLiteral(s: string): Literal
  {
    var p := SignLength(s);
    var k := p + FirstPoint(s[p..]);
    if k == |s| then Literal(s[..p], s[p..], false, "")
    else Literal(s[..p], s[p..k], true, s[k + 1..])
  }

  lemma SplitLiteralSpells(s: string)
    ensures Spell(SplitLiteral(s)) == s
  {
    var p := SignLength(s);
    var k := p + FirstPoint(s[p..]);
    if k == |s| {
      assert s == s[..p] + s[p..];
    } else {
      assert s[k] == s[p..][k - p] == '.';
      SplitAround(s, p, k);
    }
  }

  /** `float(s)` as far as its syntax goes: the literal s spells, or None where
      Python raises ValueError. */
  function ParseFloat(s: string): (r: Option<Literal>)
    ensures r.Some? ==> WellFormed(r.value) && Spell(r.value) == s
  {
    var d := SplitLiteral(s);
    SplitLiteralSpells(s);
    if AllDigits(d.whole) && AllDigits(d.fraction) && |d.whole| + |d.fraction| > 0 then Some(d) else None
  }

  /** A string of digits holds no point, so the first point of
      `digits + rest` is the first point of rest, shifted. */
  lemma FirstPointAfterDigits(digits: string, rest: string)
    requires AllDigits(digits) && (rest == [] || rest[0] == '.')
    ensures FirstPoint(digits + rest) == |digits|
  {
    var t := digits + rest;
    if rest != [] {
      assert t[|digits|] == '.';
    }
  }

  lemma SignLengthOfSpell(d: Literal)
    requires WellFormed(d)
    ensures SignLength(Spell(d)) == |d.sign|
  {
    var s := Spell(d);
    if d.sign != "" {
      assert s[0] == d.sign[0];
    } else if |d.whole| > 0 {
      assert s[0] == d.whole[0];
    } else {
      assert s[0] == '.';
    }
  }

  lemma SplitSpellWithPoint(d: Literal)
    requires WellFormed(d) && d.point
    ensures SplitLiteral(Spell(d)) == d
  {
    var s := Spell(d);
    SignLengthOfSpell(d);
    var p, k := |d.sign|, |d.sign| + |d.whole|;
    assert s == d.sign + (d.whole + ("." + d.fraction));
    assert s[..p] == d.sign;
    assert s[p..] == d.whole + ("." + d.fraction);
    FirstPointAfterDigits(d.whole, "." + d.fraction);
    assert s[p..k] == d.whole;
    assert s[k + 1..] == d.fraction;
  }

  lemma SplitSpellWithoutPoint(d: Literal)
    requires WellFormed(d) && !d.point
    ensures SplitLiteral(Spell(d)) == d
  {
    var s := Spell(d);
    SignLengthOfSpell(d);
    var p := |d.sign|;
    assert s == d.sign + d.whole;
    assert s[..p] == d.sign && s[p..] == d.whole;
    FirstPointAfterDigits(d.whole, "");
    assert d.whole + "" == d.whole;
  }

  /** Every well-formed literal parses back to itself: together with the
      contract of ParseFloat, the strings float() accepts here are exactly the
      spellings of well-formed literals. */
  lemma ParseSpell(d: Literal)
    requires WellFormed(d)
    ensures ParseFloat(Spell(d)) == Some(d)
  {
    if d.point {
      SplitSpellWithPoint(d);
    } else {
      SplitSpellWithoutPoint(d);
    }
  }

  // ---------------------------------------------------------------------------
  // Amounts

  predicate AllZeros(s: string)
  {
    forall i :: 0 <= i < |s| ==> s[i] == '0'
  }

  /** A digit string has value zero exactly when all its digits are 0. */
  lemma {:induction false} DigitsValueZeroIff(s: string)
    requires AllDigits(s)
    ensures DigitsValue(s) == 0 <==> AllZeros(s)
    decreases |s|
  {
    if s != [] {
      var init := s[..|s| - 1];
      DigitsValueZeroIff(init);
      if AllZeros(s) {
        assert AllZeros(init);
      }
      if AllZeros(init) && s[|s| - 1] == '0' {
        assert s == init + ['0'];
      }
    }
  }

  lemma AllDigitsConcat(a: string, b: string)
    requires AllDigits(a) && AllDigits(b)
    ensures AllDigits(a + b)
  {
  }

  /** `float(s) < 0` for the literal s spells: a minus sign in front of a
      non-zero magnitude. The magnitude times 10^|fraction| is the value of the
      digit string whole + fraction; `-0.00` reads as -0.0, which is not below zero. */
  predicate BelowZero(d: Literal)
    requires WellFormed(d)
  {
    AllDigitsConcat(d.whole, d.fraction);
    d.sign == "-" && DigitsValue(d.whole + d.fraction) > 0
  }

  /** The three endings the amount check looks for. */
  predicate HasAcceptedEnding(s: string)
  {
    EndsWith(s, ".00") || EndsWith(s, ".01") || EndsWith(s, ".99")
  }

  /** `is_valid_csv_amount`: float() accepts s (a ValueError is caught and
      gives false), the value is not below zero and s ends in one of the three
      endings. */
  predicate IsValidCsvAmount(s: string)
  {
    match ParseFloat(s)
    case None => false
    case Some(d) => !(BelowZero(d) || !HasAcceptedEnding(s))
  }

  /** The accepted amounts, described as text: an ending `.00`, `.01` or `.99`
      after an optional sign and any number of digits, where a minus sign is
      allowed only in `-0...0.00`. */
  predicate AmountShape(s: string)
  {
    && |s| >= 3
    && (s[|s| - 3..] == ".00" || s[|s| - 3..] == ".01" || s[|s| - 3..] == ".99")
    && var head := s[..|s| - 3];
       if |head| > 0 && head[0] == '-' then AllZeros(head[1..]) && s[|s| - 3..] == ".00"
       else if |head| > 0 && head[0] == '+' then AllDigits(head[1..])
       else AllDigits(head)
  }

  /** In the spelling of a well-formed literal, the only point is the one
      written between the whole and the fraction digits. */
  lemma PointPosition(d: Literal, i: nat)
    requires WellFormed(d) && i < |Spell(d)| && Spell(d)[i] == '.'
    ensures d.point && i == |d.sign| + |d.whole|
  {
  }

  /** The amount check accepts exactly the strings of AmountShape. */
  lemma AmountIffShape(s: string)
    ensures IsValidCsvAmount(s) <==> AmountShape(s)
  {
    if IsValidCsvAmount(s) {
      AmountAcceptedHasShape(s);
    }
    if AmountShape(s) {
      AmountShapeAccepted(s);
    }
  }

  /** A literal whose spelling ends in one of the three endings has a point
      and exactly two fraction digits, the ones of its ending. */
  lemma EndingIsFraction(d: Literal)
    requires WellFormed(d) && HasAcceptedEnding(Spell(d))
    ensures d.point && Spell(d) == d.sign + d.whole + "." + d.fraction
    ensures d.fraction == "00" || d.fraction == "01" || d.fraction == "99"
  {
    var s := Spell(d);
    var n := |s|;
    var ending := s[n - 3..];
    assert ending == ".00" || ending == ".01" || ending == ".99";
    assert s[n - 3] == ending[0] == '.';
    PointPosition(d, n - 3);
    assert s == (d.sign + d.whole) + "." + d.fraction;
    assert ending == "." + d.fraction;
    assert d.fraction == ending[1..];
  }

  /** A negative-signed literal that is not below zero has only zero digits. */
  lemma MinusZero(d: Literal)
    requires WellFormed(d) && d.sign == "-" && !BelowZero(d)
    ensures AllZeros(d.whole) && AllZeros(d.fraction)
  {
    var t := d.whole + d.fraction;
    AllDigitsConcat(d.whole, d.fraction);
    DigitsValueZeroIff(t);
    forall i | 0 <= i < |d.whole|
      ensures d.whole[i] == '0'
    {
      assert d.whole[i] == t[i];
    }
    forall i | 0 <= i < |d.fraction|
      ensures d.fraction[i] == '0'
    {
      assert d.fraction[i] == t[|d.whole| + i];
    }
  }

  lemma AmountAcceptedHasShape(s: string)
    requires IsValidCsvAmount(s)
    ensures AmountShape(s)
  {
    var d := ParseFloat(s).value;
    assert !BelowZero(d) && HasAcceptedEnding(s);
    LiteralHasShape(d);
  }

  lemma LiteralHasShape(d: Literal)
    requires WellFormed(d) && !BelowZero(d) && HasAcceptedEnding(Spell(d))
    ensures AmountShape(Spell(d))
  {
    EndingIsFraction(d);
    var s := Spell(d);
    var n := |s|;
    var head := s[..n - 3];
    assert head == d.sign + d.whole;
    assert s[n - 3..] == "." + d.fraction;
    if d.sign == "-" {
      MinusZero(d);
      assert head[0] == '-' && head[1..] == d.whole;
      assert d.fraction == "00";
    } else if d.sign == "+" {
      assert head[0] == '+' && head[1..] == d.whole;
    } else {
      assert head == d.whole;
      assert |head| > 0 ==> IsDigit(head[0]);
    }
  }

  /** The literal an amount of AmountShape spells. */
  function ShapeLiteral(s: string): Literal
    requires |s| >= 3
  {
    var head := s[..|s| - 3];
    var sign := if |head| > 0 && (head[0] == '-' || head[0] == '+') then head[..1] else "";
    Literal(sign, head[|sign|..], true, s[|s| - 2..])
  }

  lemma ShapeLiteralSpells(s: string)
    requires |s| >= 3 && s[|s| - 3] == '.'
    ensures Spell(ShapeLiteral(s)) == s
  {
    var d := ShapeLiteral(s);
    var head := s[..|s| - 3];
    assert s[|s| - 3..] == "." + d.fraction;
    assert head == d.sign + d.whole;
    assert s == head + s[|s| - 3..];
  }

  lemma ShapeLiteralWellFormed(s: string)
    requires AmountShape(s)
    ensures WellFormed(ShapeLiteral(s))
  {
    var d := ShapeLiteral(s);
    assert d.fraction == s[|s| - 3..][1..];
    assert AllDigits(d.fraction);
  }

  lemma ShapeLiteralNotBelowZero(s: string)
    requires AmountShape(s) && WellFormed(ShapeLiteral(s))
    ensures !BelowZero(ShapeLiteral(s))
  {
    var d := ShapeLiteral(s);
    if d.sign == "-" {
      assert d.fraction == s[|s| - 3..][1..] == "00";
      assert AllZeros(d.whole);
      AllDigitsConcat(d.whole, d.fraction);
      DigitsValueZeroIff(d.whole + d.fraction);
      assert AllZeros(d.whole + d.fraction);
    }
  }

  lemma AmountShapeAccepted(s: string)
    requires AmountShape(s)
    ensures IsValidCsvAmount(s)
  {
    assert s[|s| - 3] == s[|s| - 3..][0];
    ShapeLiteralWellFormed(s);
    ShapeLiteralSpells(s);
    ShapeLiteralNotBelowZero(s);
    ParseSpell(ShapeLiteral(s));
    assert EndsWith(s, s[|s| - 3..]);
  }

  /** Any run of digits (none, or zero, included) before `.00`, `.01` or
      `.99` is accepted. */
  lemma DigitsWithEndingAccepted(digits: string, ending: string)
    requires AllDigits(digits) && (ending == ".00" || ending == ".01" || ending == ".99")
    ensures IsValidCsvAmount(digits + ending)
  {
    var s := digits + ending;
    assert s[|s| - 3..] == ending && s[..|s| - 3] == digits;
    if |digits| > 0 {
      assert IsDigit(digits[0]);
    }
    AmountShapeAccepted(s);
  }

  /** Negative zero is not below zero, so a minus sign in front of zeros and
      `.00` is accepted. */
  lemma NegativeZeroAccepted(zeros: string)
    requires AllZeros(zeros)
    ensures IsValidCsvAmount("-" + zeros + ".00")
  {
    var s := "-" + zeros + ".00";
    assert s[|s| - 3..] == ".00" && s[..|s| - 3] == "-" + zeros;
    assert s[..|s| - 3][1..] == zeros;
    AmountShapeAccepted(s);
  }

  /** Any other pair of fraction digits is rejected, although it is two
      decimal places. */
  lemma OtherFractionRejected(digits: string, fraction: string)
    requires AllDigits(digits) && AllDigits(fraction) && |fraction| == 2
    requires fraction != "00" && fraction != "01" && fraction != "99"
    ensures !IsValidCsvAmount(digits + "." + fraction)
  {
    var s := digits + "." + fraction;
    assert s[|s| - 3..] == "." + fraction && ("." + fraction)[1..] == fraction;
    AmountIffShape(s);
  }

  /** A minus sign in front of a non-zero magnitude is rejected. */
  lemma NegativeRejected(digits: string, ending: string)
    requires AllDigits(digits) && (ending == ".00" || ending == ".01" || ending == ".99")
    requires !AllZeros(digits) || ending != ".00"
    ensures !IsValidCsvAmount("-" + digits + ending)
  {
    var s := "-" + digits + ending;
    assert s[|s| - 3..] == ending && s[..|s| - 3] == "-" + digits;
    assert s[..|s| - 3][1..] == digits;
    AmountIffShape(s);
  }

  /** An amount with two decimal places that are not one of the three endings
      is rejected. */
  lemma FiftyCentsRejected()
    ensures !IsValidCsvAmount("12.50")
  {
    AmountIffShape("12.50");
    assert "12.50"[2..] == ".50";
  }
}
