/** formatUnits: a signed big integer rendered as a fixed-point decimal with `decimals` implied fraction digits. */
module Units {
  import opened Wrappers
  import opened Decimal
  import opened JsStrings

  function Abs(v: int): nat {
    if v < 0 then -v else v
  }

  /** The magnitude's digits, left-padded with '0' to at least decimals + 1 characters. */
  function Padded(absolute: nat, decimals: nat): string {
    PadStart(NatToString(absolute), decimals + 1, '0')
  }

  /** `str.slice(0, -decimals) || "0"`. */
  function WholePart(absolute: nat, decimals: nat): string {
    var w := Slice(Padded(absolute, decimals), 0, -(decimals as int));
    if w == "" then "0" else w
  }

  /** `str.slice(-decimals)`: the last `decimals` digits, before trailing zeros are stripped. */
  function RawFraction(absolute: nat, decimals: nat): string {
    var str := Padded(absolute, decimals);
    Slice(str, -(decimals as int), |str|)
  }

  function FractionPart(absolute: nat, decimals: nat): string {
    TrimTrailingZeros(RawFraction(absolute, decimals))
  }

  /** formatUnits loses nothing: parsing its output at the same precision gives the value back. */
  function FormatUnits(value: int, decimals: nat): (r: string)
    ensures ParseUnits(r, decimals) == Some(value)
  {
    if decimals == 0 then
      IntToStringParses(value);
      IntToString(value)
    else
      var sign := Sign(value);
      var absolute := Abs(value);
      var whole := WholePart(absolute, decimals);
      var fraction := FractionPart(absolute, decimals);
      JoinedRoundTrip(absolute, decimals);
      SignedRoundTrip(value, Joined(whole, fraction), decimals);
      sign + Joined(whole, fraction)
  }

  /** The `sign` prefix of formatUnits. */
  function Sign(value: int): string {
    if value < 0 then "-" else ""
  }

  /** `fraction ? whole + "." + fraction : whole`: the point only when some fraction digit is left. */
  function Joined(whole: string, fraction: string): string {
    if fraction != "" then whole + "." + fraction else whole
  }

  /** Reads a fixed-point decimal back: an optional '-', a non-empty run of digits,
      and optionally '.' followed by at most `decimals` digits. */
  function ParseUnits(s: string, decimals: nat): Option<int> {
    if |s| > 0 && s[0] == '-' then
      match ParseMagnitude(s[1..], decimals)
      case Some(m) => Some(-(m as int))
      case None => None
    else
      match ParseMagnitude(s, decimals)
      case Some(m) => Some(m)
      case None => None
  }

  function ParseMagnitude(s: string, decimals: nat): Option<nat> {
    var k := IndexOf(s, '.');
    var whole := s[..k];
    var fraction := if k < |s| then s[k + 1..] else "";
    if whole != "" && AllDigits(whole) && AllDigits(fraction) && |fraction| <= decimals then
      Some(DigitsValue(whole) * Pow10(decimals) + DigitsValue(fraction) * Pow10(decimals - |fraction|))
    else
      None
  }

  /** Cutting a digit string `decimals` characters from its end, as `slice(0, -decimals)` and `slice(-decimals)` do. */
  lemma {:induction false} SplitFromEnd(str: string, decimals: nat)
    requires decimals > 0 && AllDigits(str) && |str| >= decimals + 1
    ensures Slice(str, 0, -(decimals as int)) == str[..|str| - decimals]
    ensures str[..|str| - decimals] != ""
    ensures Slice(str, -(decimals as int), |str|) == str[|str| - decimals..]
    ensures AllDigits(str[..|str| - decimals]) && AllDigits(str[|str| - decimals..])
    ensures DigitsValue(str[..|str| - decimals]) * Pow10(decimals) + DigitsValue(str[|str| - decimals..])
              == DigitsValue(str)
  {
    var cut := |str| - decimals;
    assert |str[..cut]| == cut;
    assert str == str[..cut] + str[cut..];
    AllDigitsSplit(str, cut);
    DigitsValueAppend(str[..cut], str[cut..]);
  }

  lemma {:induction false} PaddedDigits(absolute: nat, decimals: nat)
    ensures AllDigits(Padded(absolute, decimals)) && |Padded(absolute, decimals)| >= decimals + 1
    ensures DigitsValue(Padded(absolute, decimals)) == absolute
  {
    NatToStringValue(absolute);
    PadStartZeros(NatToString(absolute), decimals + 1);
  }

  /** Where the two slices of the padded digits fall, as plain sequence ranges. */
  lemma {:induction false} SlicePositions(absolute: nat, decimals: nat)
    requires decimals > 0
    ensures |Padded(absolute, decimals)| >= decimals + 1
    ensures WholePart(absolute, decimals)
              == Padded(absolute, decimals)[..|Padded(absolute, decimals)| - decimals]
    ensures RawFraction(absolute, decimals)
              == Padded(absolute, decimals)[|Padded(absolute, decimals)| - decimals..]
  {
    SliceCut(Padded(absolute, decimals), decimals);
  }

  /** The pieces formatUnits glues together: the padded digits split at `decimals` from the end. */
  lemma {:induction false} FormatUnitsParts(absolute: nat, decimals: nat)
    requires decimals > 0
    ensures Slice(Padded(absolute, decimals), 0, -(decimals as int)) != ""
    ensures WholePart(absolute, decimals) == Slice(Padded(absolute, decimals), 0, -(decimals as int))
    ensures AllDigits(WholePart(absolute, decimals)) && AllDigits(RawFraction(absolute, decimals))
    ensures |RawFraction(absolute, decimals)| == decimals
    ensures DigitsValue(WholePart(absolute, decimals)) * Pow10(decimals)
              + DigitsValue(RawFraction(absolute, decimals)) == absolute
  {
    var str := Padded(absolute, decimals);
    PaddedDigits(absolute, decimals);
    SplitFromEnd(str, decimals);
  }

  /** The `|| "0"` default never applies: padding to decimals + 1 always leaves a whole part. */
  lemma {:induction false} WholePartNeverDefaults(absolute: nat, decimals: nat)
    requires decimals > 0
    ensures Slice(Padded(absolute, decimals), 0, -(decimals as int)) != ""
  {
    FormatUnitsParts(absolute, decimals);
  }

  /** The fraction digits, stripped of trailing zeros, and the whole digits together give the magnitude back. */
  lemma {:induction false} FractionValue(absolute: nat, decimals: nat)
    requires decimals > 0
    ensures AllDigits(WholePart(absolute, decimals)) && AllDigits(FractionPart(absolute, decimals))
    ensures |FractionPart(absolute, decimals)| <= decimals
    ensures DigitsValue(WholePart(absolute, decimals)) * Pow10(decimals)
              + DigitsValue(FractionPart(absolute, decimals)) * Pow10(decimals - |FractionPart(absolute, decimals)|)
              == absolute
    ensures FractionPart(absolute, decimals) == "" <==> absolute % Pow10(decimals) == 0
  {
    FormatUnitsParts(absolute, decimals);
    var whole, raw := WholePart(absolute, decimals), RawFraction(absolute, decimals);
    var fraction := FractionPart(absolute, decimals);
    TrimTrailingZerosValue(raw);
    DigitsValueBound(raw);
    var w, r, f := DigitsValue(whole), DigitsValue(raw), DigitsValue(fraction);
    var p, q := Pow10(decimals), Pow10(decimals - |fraction|);
    DivModOfShifted(w, r, p);
    SplitValue(w, r, f, p, q, absolute);
  }

  lemma SplitValue(w: nat, r: nat, f: nat, p: nat, q: nat, absolute: nat)
    requires p > 0 && w * p + r == absolute && r == f * q && (w * p + r) % p == r
    ensures w * p + f * q == absolute
    ensures absolute % p == 0 <==> r == 0
  {
  }

  lemma {:induction false} ParseJoined(whole: string, fraction: string, decimals: nat)
    requires whole != "" && AllDigits(whole) && AllDigits(fraction) && |fraction| <= decimals
    ensures ParseMagnitude(Joined(whole, fraction), decimals)
              == Some(DigitsValue(whole) * Pow10(decimals) + DigitsValue(fraction) * Pow10(decimals - |fraction|))
  {
    var s := Joined(whole, fraction);
    assert forall i :: 0 <= i < |whole| ==> s[i] == whole[i];
    if fraction != "" {
      assert s[|whole|] == '.';
      assert IndexOf(s, '.') == |whole|;
      assert s[..|whole|] == whole;
      assert s[|whole| + 1..] == fraction;
    } else {
      assert IndexOf(s, '.') == |whole|;
      assert s[..|whole|] == whole;
    }
  }

  lemma {:induction false} FormatMagnitude(absolute: nat, decimals: nat)
    ensures decimals == 0 ==> FormatUnits(absolute, decimals) == Joined(NatToString(absolute), "")
    ensures decimals > 0 ==>
              FormatUnits(absolute, decimals) == Joined(WholePart(absolute, decimals), FractionPart(absolute, decimals))
  {
  }

  lemma {:induction false} JoinedRoundTrip(absolute: nat, decimals: nat)
    requires decimals > 0
    ensures ParseMagnitude(Joined(WholePart(absolute, decimals), FractionPart(absolute, decimals)), decimals)
              == Some(absolute)
  {
    var whole, fraction := WholePart(absolute, decimals), FractionPart(absolute, decimals);
    FractionValue(absolute, decimals);
    WholePartNeverDefaults(absolute, decimals);
    assert whole != "";
    ParseJoined(whole, fraction, decimals);
  }

  /** Without a sign, the text starts with a digit and parses back to the magnitude. */
  lemma {:induction false} MagnitudeRoundTrip(absolute: nat, decimals: nat)
    ensures |FormatUnits(absolute, decimals)| > 0 && IsDigit(FormatUnits(absolute, decimals)[0])
    ensures ParseMagnitude(FormatUnits(absolute, decimals), decimals) == Some(absolute)
  {
    FormatMagnitude(absolute, decimals);
    if decimals == 0 {
      NatToStringValue(absolute);
      ParseJoined(NatToString(absolute), "", decimals);
    } else {
      JoinedRoundTrip(absolute, decimals);
      FormatUnitsParts(absolute, decimals);
      var whole := WholePart(absolute, decimals);
      assert Joined(whole, FractionPart(absolute, decimals))[0] == whole[0];
    }
  }

  /** A magnitude that parses reads the same through the signed reader, and with a '-' in front reads negated. */
  lemma {:induction false} SignedRoundTrip(value: int, m: string, decimals: nat)
    requires ParseMagnitude(m, decimals) == Some(Abs(value))
    ensures ParseUnits(Sign(value) + m, decimals) == Some(value)
  {
    UnsignedStart(m, decimals);
    if value < 0 {
      var s := "-" + m;
      assert s[1..] == m;
      assert ParseUnits(s, decimals) == Some(-(Abs(value) as int));
    } else {
      assert Sign(value) + m == m;
    }
  }

  /** Text the magnitude reader accepts starts with a digit, so never with '-'. */
  lemma {:induction false} UnsignedStart(m: string, decimals: nat)
    requires ParseMagnitude(m, decimals).Some?
    ensures |m| > 0 && m[0] != '-'
  {
    var k := IndexOf(m, '.');
    assert m[..k] != "" && IsDigit(m[..k][0]);
  }

  lemma {:induction false} DigitsParse(n: nat)
    ensures ParseMagnitude(NatToString(n), 0) == Some(n)
  {
    NatToStringValue(n);
    ParseJoined(NatToString(n), "", 0);
    assert Joined(NatToString(n), "") == NatToString(n);
  }

  /** At no fraction digits the output is BigInt's own toString, which parses back. */
  lemma {:induction false} IntToStringParses(value: int)
    ensures ParseUnits(IntToString(value), 0) == Some(value)
  {
    DigitsParse(Abs(value));
    assert IntToString(value) == Sign(value) + NatToString(Abs(value));
    SignedRoundTrip(value, NatToString(Abs(value)), 0);
  }

  /** A negative value is "-" followed by the rendering of its magnitude; a non-negative one carries no sign. */
  lemma {:induction false} FormatUnitsSign(value: int, decimals: nat)
    ensures value < 0 ==> FormatUnits(value, decimals) == "-" + FormatUnits(-value, decimals)
    ensures value >= 0 ==> |FormatUnits(value, decimals)| > 0 && FormatUnits(value, decimals)[0] != '-'
  {
    if value >= 0 {
      MagnitudeRoundTrip(value, decimals);
    } else if decimals > 0 {
      FormatMagnitude(Abs(value), decimals);
      var joined := Joined(WholePart(Abs(value), decimals), FractionPart(Abs(value), decimals));
      assert FormatUnits(value, decimals) == "-" + joined;
    }
  }

  /** After the first '.', if any, come one to `decimals` digits, the last of them not '0'. */
  predicate CanonicalFraction(s: string, decimals: nat) {
    '.' in s ==>
      var k := IndexOf(s, '.');
      0 < |s| - (k + 1) <= decimals && AllDigits(s[k + 1..]) && s[|s| - 1] != '0'
  }

  lemma {:induction false} JoinedPoint(whole: string, fraction: string)
    requires AllDigits(whole)
    ensures '.' in Joined(whole, fraction) <==> fraction != ""
    ensures fraction != "" ==> IndexOf(Joined(whole, fraction), '.') == |whole|
    ensures fraction != "" ==> Joined(whole, fraction)[|whole| + 1..] == fraction
  {
    var s := Joined(whole, fraction);
    assert forall i :: 0 <= i < |whole| ==> s[i] == whole[i];
    if fraction != "" {
      assert s[|whole|] == '.';
    } else {
      assert forall i :: 0 <= i < |s| ==> IsDigit(s[i]);
    }
  }

  lemma {:induction false} JoinedFraction(absolute: nat, decimals: nat)
    requires decimals > 0
    ensures var s := Joined(WholePart(absolute, decimals), FractionPart(absolute, decimals));
      ('.' in s <==> absolute % Pow10(decimals) != 0) && CanonicalFraction(s, decimals)
  {
    FractionValue(absolute, decimals);
    var whole, fraction := WholePart(absolute, decimals), FractionPart(absolute, decimals);
    JoinedPoint(whole, fraction);
    var s := Joined(whole, fraction);
    if fraction != "" {
      assert s[|s| - 1] == fraction[|fraction| - 1];
    }
  }

  lemma {:induction false} MagnitudeFraction(absolute: nat, decimals: nat)
    ensures '.' in FormatUnits(absolute, decimals) <==> decimals > 0 && absolute % Pow10(decimals) != 0
    ensures CanonicalFraction(FormatUnits(absolute, decimals), decimals)
  {
    FormatMagnitude(absolute, decimals);
    if decimals == 0 {
      JoinedPoint(NatToString(absolute), "");
    } else {
      JoinedFraction(absolute, decimals);
    }
  }

  lemma {:induction false} SignedPoint(m: string, decimals: nat)
    requires CanonicalFraction(m, decimals)
    ensures '.' in "-" + m <==> '.' in m
    ensures CanonicalFraction("-" + m, decimals)
  {
    var s := "-" + m;
    IndexOfAfter('-', m, '.');
    if '.' in m {
      var k := IndexOf(m, '.');
      assert s[k + 2..] == m[k + 1..];
      assert s[|s| - 1] == m[|m| - 1];
    }
  }

  /** A '.' appears exactly when some of the last `decimals` digits are non-zero, and then the
      text after it is one to `decimals` digits with no trailing '0'. */
  lemma {:induction false} FormatUnitsFraction(value: int, decimals: nat)
    ensures '.' in FormatUnits(value, decimals) <==> decimals > 0 && Abs(value) % Pow10(decimals) != 0
    ensures CanonicalFraction(FormatUnits(value, decimals), decimals)
  {
    MagnitudeFraction(Abs(value), decimals);
    if value < 0 {
      FormatUnitsSign(value, decimals);
      SignedPoint(FormatUnits(Abs(value), decimals), decimals);
    }
  }

  lemma {:induction false} WholeOfShifted(n: nat, decimals: nat, absolute: nat)
    requires decimals > 0 && absolute == n * Pow10(decimals)
    ensures WholePart(absolute, decimals) == NatToString(n)
  {
    if n > 0 {
      WholeOfShiftedPositive(n, decimals, absolute);
    } else {
      assert absolute == 0;
      WholeOfZero(decimals);
    }
  }

  lemma {:induction false} WholeOfShiftedPositive(n: nat, decimals: nat, absolute: nat)
    requires decimals > 0 && n > 0 && absolute == n * Pow10(decimals)
    ensures WholePart(absolute, decimals) == NatToString(n)
  {
    SlicePositions(absolute, decimals);
    NatToStringShift(n, decimals);
    var head, digits := NatToString(n), NatToString(absolute);
    assert digits == head + Zeros(decimals);
    assert |digits| >= decimals + 1;
    assert Padded(absolute, decimals) == digits;
    assert digits[..|digits| - decimals] == head;
  }

  lemma {:induction false} WholeOfZero(decimals: nat)
    requires decimals > 0
    ensures WholePart(0, decimals) == NatToString(0)
  {
    SlicePositions(0, decimals);
    var str := Padded(0, decimals);
    assert NatToString(0) == "0";
    assert |str| == decimals + 1;
    assert str[..|str| - decimals] == [str[0]];
  }

  lemma {:induction false} FractionOfShifted(n: nat, decimals: nat, absolute: nat)
    requires decimals > 0 && absolute == n * Pow10(decimals)
    ensures FractionPart(absolute, decimals) == ""
  {
    FractionValue(absolute, decimals);
    DivModOfShifted(n, 0, Pow10(decimals));
  }

  /** A whole number of units prints as that number, with no point. */
  lemma {:induction false} FormatUnitsWhole(n: nat, decimals: nat)
    requires decimals > 0
    ensures FormatUnits(n * Pow10(decimals), decimals) == NatToString(n)
  {
    var absolute := n * Pow10(decimals);
    FormatMagnitude(absolute, decimals);
    WholeOfShifted(n, decimals, absolute);
    FractionOfShifted(n, decimals, absolute);
  }

  lemma {:induction false} PartsBelowOne(absolute: nat, decimals: nat)
    requires 0 < absolute && |NatToString(absolute)| <= decimals
    ensures WholePart(absolute, decimals) == "0"
    ensures RawFraction(absolute, decimals) == PadStart(NatToString(absolute), decimals, '0')
  {
    var str := Padded(absolute, decimals);
    PadStartOneMore(NatToString(absolute), decimals, '0');
    SlicePositions(absolute, decimals);
    assert |str| == decimals + 1;
    assert str[..1] == "0";
  }

  /** A positive amount below one unit prints as "0." and its digits left-padded to `decimals`, trailing zeros removed. */
  lemma {:induction false} FormatUnitsBelowOne(absolute: nat, decimals: nat)
    requires 0 < absolute && |NatToString(absolute)| <= decimals
    ensures FormatUnits(absolute, decimals) == "0" + "." + TrimTrailingZeros(PadStart(NatToString(absolute), decimals, '0'))
  {
    var raw := PadStart(NatToString(absolute), decimals, '0');
    var fraction := FractionPart(absolute, decimals);
    FormatMagnitude(absolute, decimals);
    PartsBelowOne(absolute, decimals);
    assert fraction == TrimTrailingZeros(raw);
    PaddedNonZero(absolute, decimals);
    assert FormatUnits(absolute, decimals) == Joined("0", fraction);
  }

  /** Left-padding a positive amount's digits keeps something to show once trailing zeros go. */
  lemma {:induction false} PaddedNonZero(absolute: nat, k: nat)
    requires 0 < absolute
    ensures TrimTrailingZeros(PadStart(NatToString(absolute), k, '0')) != ""
  {
    NatToStringValue(absolute);
    PadStartZeros(NatToString(absolute), k);
    TrimTrailingZerosValue(PadStart(NatToString(absolute), k, '0'));
  }

  lemma Pow10Of18()
    ensures Pow10(18) == 1000000000000000000
  {
    assert Pow10(9) == 1000000000;
  }

  /** The renderings at 18 decimals that the balance reader relies on. */
  lemma {:induction false} FormatUnitsExamples()
    ensures FormatUnits(0, 18) == "0"
    ensures FormatUnits(1000000000000000000, 18) == "1"
    ensures FormatUnits(1, 18) == "0.000000000000000001"
    ensures FormatUnits(123456789000000000, 18) == "0.123456789"
  {
    FormatUnitsWhole(0, 18);
    Pow10Of18();
    FormatUnitsWhole(1, 18);
    OneWeiExample();
    StrippedExample();
  }

  lemma {:induction false} OneWeiDigits()
    ensures |NatToString(1)| <= 18
    ensures "0" + "." + TrimTrailingZeros(PadStart(NatToString(1), 18, '0')) == "0.000000000000000001"
  {
    assert NatToString(1) == "1";
    assert TrimTrailingZeros("000000000000000001") == "000000000000000001";
  }

  lemma {:induction false} OneWeiExample()
    ensures FormatUnits(1, 18) == "0.000000000000000001"
  {
    OneWeiDigits();
    FormatUnitsBelowOne(1, 18);
  }

  lemma NineDigits()
    ensures NatToString(123456789) == "123456789"
  {
    assert NatToString(1234) == "1234";
  }

  lemma {:induction false} ShiftedNineDigits()
    ensures NatToString(123456789000000000) == "123456789" + Zeros(9)
  {
    NineDigits();
    assert Pow10(9) == 1000000000;
    NatToStringShift(123456789, 9);
  }

  lemma {:induction false} StrippedFraction()
    ensures |NatToString(123456789000000000)| == 18
    ensures TrimTrailingZeros(PadStart(NatToString(123456789000000000), 18, '0')) == "123456789"
  {
    ShiftedNineDigits();
    TrimZerosAfter("123456789", 9);
  }

  lemma {:induction false} StrippedDigits()
    ensures |NatToString(123456789000000000)| <= 18
    ensures "0" + "." + TrimTrailingZeros(PadStart(NatToString(123456789000000000), 18, '0')) == "0.123456789"
  {
    StrippedFraction();
  }

  lemma {:induction false} StrippedExample()
    ensures FormatUnits(123456789000000000, 18) == "0.123456789"
  {
    StrippedDigits();
    FormatUnitsBelowOne(123456789000000000, 18);
  }
}
