/**
 * The two unit conversions the row calls: parseEther (decimal ether text to an
 * integer amount of wei) and formatUnits(_, "ether") (wei text back to decimal
 * ether text). Both are fixed point with 18 decimals, as the ethers library
 * implements them; the library itself is not part of this model.
 */
module Units {
  import opened Wrappers
  import opened Decimal

  /** "ether" names 18 decimals. */
  const DECIMALS: nat := 18

  function WeiPerEther(): (w: nat)
    ensures w >= 1
  {
    Pow10(DECIMALS)
  }

  /** Characters parseEther admits at all: digits and dots (after an optional leading minus). */
  predicate DecimalShape(s: string)
  {
    forall i :: 0 <= i < |s| ==> IsDigit(s[i]) || s[i] == '.'
  }

  /** The index of the first '.', or |s| when there is none. */
  function FirstDot(s: string): (i: nat)
    ensures i <= |s|
    ensures i < |s| ==> s[i] == '.'
    ensures forall j :: 0 <= j < i ==> s[j] != '.'
  {
    if s == [] || s[0] == '.' then 0 else 1 + FirstDot(s[1..])
  }

  /** Drops trailing '0' characters; what remains ends in another character or is empty. */
  function TrimTrailingZeros(s: string): (t: string)
    ensures |t| <= |s| && s == t + Zeros(|s| - |t|)
    ensures t == [] || t[|t| - 1] != '0'
    ensures AllDigits(s) ==> AllDigits(t)
  {
    if s == [] || s[|s| - 1] != '0' then s
    else
      var t := TrimTrailingZeros(s[..|s| - 1]);
      assert s == s[..|s| - 1] + ['0'];
      t
  }

  /**
   * parseEther: an optional minus sign, then an unsigned decimal amount of ether.
   */
  function ParseEther(s: string): (r: Option<int>)
    ensures r.Some? && r.value < 0 ==> |s| >= 1 && s[0] == '-'
  {
    if |s| >= 1 && s[0] == '-' then
      match ParseUnsignedEther(s[1..])
      case Some(magnitude) => Some(-magnitude)
      case None => None
    else
      match ParseUnsignedEther(s)
      case Some(magnitude) => Some(magnitude)
      case None => None
  }

  /** What parseEther accepts: an optional minus sign, then digits with at most one dot, not a lone dot. */
  lemma ParseEtherAccepts(s: string)
    ensures ParseEther(s).Some? ==>
              var body := if s[0] == '-' then s[1..] else s;
              |s| >= 1 && body != [] && body != "." && DecimalShape(body) && AllDigits(FractionPart(body))
  {
    if ParseEther(s).Some? {
      var body := if s[0] == '-' then s[1..] else s;
      assert ParseUnsignedEther(body).Some?;
    }
  }

  /**
   * The unsigned part of parseEther: digits and at most one dot; a missing whole
   * part reads as 0, a missing fraction as 0, and the fraction, once its trailing
   * zeros are dropped, may have at most 18 digits.
   */
  function ParseUnsignedEther(body: string): (r: Option<int>)
  {
    if body == [] || !DecimalShape(body) then None          // invalid decimal value
    else if body == "." then None                           // missing value
    else if !AllDigits(FractionPart(body)) then None        // too many decimal points
    else if |TrimTrailingZeros(FractionPart(body))| > DECIMALS then None  // fractional component exceeds decimals
    else Some(PointedValue(WholePart(body), FractionPart(body)))
  }

  /** The text before the first dot. */
  function WholePart(body: string): (w: string)
    ensures DecimalShape(body) ==> AllDigits(w)
  {
    body[..FirstDot(body)]
  }

  /** The text after the first dot, or nothing when there is no dot. */
  function FractionPart(body: string): string
  {
    var dot := FirstDot(body);
    if dot < |body| then body[dot + 1..] else []
  }

  /** The 18 fraction digits of a remainder below one ether, zero-padded on the left. */
  function FractionDigits(r: nat): (f: string)
    requires r < WeiPerEther()
    ensures |f| == DECIMALS && AllDigits(f) && Value(f) == r
  {
    var digits := NatToString(r);
    NatToStringLength(r, DECIMALS);
    ValuePadded(DECIMALS - |digits|, digits);
    Zeros(DECIMALS - |digits|) + digits
  }

  /** Whole ether and the wei left over, for a non-negative amount of wei. */
  function WholeEther(magnitude: nat): (q: nat)
  {
    DivMod(magnitude, WeiPerEther());
    magnitude / WeiPerEther()
  }

  function LeftoverWei(magnitude: nat): (r: nat)
    ensures r < WeiPerEther() && magnitude == WholeEther(magnitude) * WeiPerEther() + r
  {
    DivMod(magnitude, WeiPerEther());
    magnitude % WeiPerEther()
  }

  /** The printed fraction: the 18 digits without trailing zeros, or "0" when they are all zero. */
  function ShownFraction(r: nat): string
    requires r < WeiPerEther()
  {
    var kept := TrimTrailingZeros(FractionDigits(r));
    if kept == [] then "0" else kept
  }

  /** formatUnits(wei, "ether"): a minus sign for a negative amount, then the unsigned text. */
  function FormatEther(wei: int): (s: string)
  {
    if wei < 0 then "-" + FormatUnsignedEther(-wei) else FormatUnsignedEther(wei)
  }

  /** Whole ether, '.', then the shown fraction. */
  function FormatUnsignedEther(magnitude: nat): (s: string)
  {
    NatToString(WholeEther(magnitude)) + "." + ShownFraction(LeftoverWei(magnitude))
  }

  /** formatUnits applied to a value's text, which BigNumber.from must first read as an integer. */
  function FormatUnitsEther(text: string): (r: Option<string>)
    ensures r.Some? <==> ParseInt(text).Some?
    ensures r.Some? ==> r.value == FormatEther(ParseInt(text).value)
    ensures r.Some? ==> ParseEther(r.value) == ParseInt(text)
  {
    match ParseInt(text)
    case Some(wei) =>
      ParseFormatRoundTrip(wei);
      Some(FormatEther(wei))
    case None => None
  }

  /** Dropping trailing zeros divides a digit string's value by the matching power of ten. */
  lemma TrimmedValue(s: string)
    requires AllDigits(s)
    ensures Value(s) == Value(TrimTrailingZeros(s)) * Pow10(|s| - |TrimTrailingZeros(s)|)
  {
    var kept := TrimTrailingZeros(s);
    var k := |s| - |kept|;
    var z := Zeros(k);
    assert s == kept + z;
    ValueAppend(kept, z);
    ValueZeros(k);
    assert Value(s) == Value(kept) * Pow10(k) + Value(z);
  }

  /** The fraction that FormatEther prints reads back, through parseEther's trimming, as the remainder. */
  lemma FractionRoundTrip(r: nat)
    requires r < WeiPerEther()
    ensures AllDigits(ShownFraction(r))
    ensures |TrimTrailingZeros(ShownFraction(r))| <= DECIMALS
    ensures FractionWei(ShownFraction(r)) == r
  {
    if TrimTrailingZeros(FractionDigits(r)) == [] {
      ZeroFraction(r);
    } else {
      NonzeroFraction(r);
    }
  }

  /** A remainder with a non-zero digit prints its digits up to the last non-zero one, which scale back to it. */
  lemma NonzeroFraction(r: nat)
    requires r < WeiPerEther()
    requires TrimTrailingZeros(FractionDigits(r)) != []
    ensures ShownFraction(r) == TrimTrailingZeros(FractionDigits(r))
    ensures AllDigits(ShownFraction(r)) && |TrimTrailingZeros(ShownFraction(r))| <= DECIMALS
    ensures FractionWei(ShownFraction(r)) == r
  {
    var f := FractionDigits(r);
    var kept := TrimTrailingZeros(f);
    TrimmedValue(f);
    assert TrimTrailingZeros(kept) == kept;
    var scaled := Value(kept) * Pow10(DECIMALS - |kept|);
    assert FractionWei(kept) == scaled;
  }

  /** A remainder whose 18 digits are all zero is zero, and "0" denotes no wei. */
  lemma ZeroFraction(r: nat)
    requires r < WeiPerEther()
    requires TrimTrailingZeros(FractionDigits(r)) == []
    ensures ShownFraction(r) == "0" && r == 0
    ensures AllDigits("0") && TrimTrailingZeros("0") == [] && FractionWei("0") == 0
  {
    var f := FractionDigits(r);
    TrimmedValue(f);
    MulNat(Value(TrimTrailingZeros(f)), Pow10(|f| - |TrimTrailingZeros(f)|));
    ZeroText();
  }

  /** The text "0" is a fraction of no wei. */
  lemma ZeroText()
    ensures AllDigits("0") && TrimTrailingZeros("0") == [] && FractionWei("0") == 0
  {
    assert TrimTrailingZeros("0") == [];
    MulNat(Value([]), Pow10(DECIMALS));
  }

  /** In "W.R" with a digit-only W, the first dot is the one after W. */
  lemma {:induction false} FirstDotAfterDigits(whole: string, rest: string)
    requires AllDigits(whole)
    ensures FirstDot(whole + "." + rest) == |whole|
  {
    if whole != [] {
      assert (whole + "." + rest)[1..] == whole[1..] + "." + rest;
      FirstDotAfterDigits(whole[1..], rest);
    }
  }

  /** The amount of wei that "W.F" denotes. */
  function PointedValue(whole: string, fraction: string): nat
    requires AllDigits(whole) && AllDigits(fraction)
    requires |TrimTrailingZeros(fraction)| <= DECIMALS
  {
    MulNat(Value(whole), WeiPerEther());
    Value(whole) * WeiPerEther() + FractionWei(fraction)
  }

  /** The wei that a fraction's digits denote: the trimmed digits padded on the right to 18 places. */
  function FractionWei(fraction: string): nat
    requires AllDigits(fraction)
    requires |TrimTrailingZeros(fraction)| <= DECIMALS
  {
    var kept := TrimTrailingZeros(fraction);
    MulNat(Value(kept), Pow10(DECIMALS - |kept|));
    Value(kept) * Pow10(DECIMALS - |kept|)
  }

  /** Splitting "W.F" at its first dot gives back W and F. */
  lemma SplitPointed(whole: string, fraction: string)
    requires AllDigits(whole)
    ensures WholePart(whole + "." + fraction) == whole
    ensures FractionPart(whole + "." + fraction) == fraction
  {
    var body := whole + "." + fraction;
    FirstDotAfterDigits(whole, fraction);
    assert body[..|whole|] == whole;
    assert body[|whole| + 1..] == fraction;
  }

  /** The unsigned part of parseEther on "W.F", with a digit-only whole part W and fraction F. */
  /** When every check of parseEther passes, the amount is the pointed value of the two parts. */
  lemma ParseUnsignedAccepted(body: string)
    requires body != [] && DecimalShape(body) && body != "."
    requires AllDigits(FractionPart(body)) && |TrimTrailingZeros(FractionPart(body))| <= DECIMALS
    ensures ParseUnsignedEther(body) == Some(PointedValue(WholePart(body), FractionPart(body)))
  {
  }

  lemma ParseUnsignedPointed(whole: string, fraction: string)
    requires |whole| >= 1 && AllDigits(whole) && AllDigits(fraction)
    requires |TrimTrailingZeros(fraction)| <= DECIMALS
    ensures ParseUnsignedEther(whole + "." + fraction) == Some(PointedValue(whole, fraction))
  {
    var body := whole + "." + fraction;
    SplitPointed(whole, fraction);
    forall i | 0 <= i < |body|
      ensures IsDigit(body[i]) || body[i] == '.'
    {
      if i < |whole| {
        assert body[i] == whole[i];
      } else if i > |whole| {
        assert body[i] == fraction[i - |whole| - 1];
      }
    }
    assert body != ".";
    ParseUnsignedAccepted(body);
  }

  /** The unsigned text reads back to the same magnitude. */
  lemma UnsignedRoundTrip(magnitude: nat)
    ensures ParseUnsignedEther(FormatUnsignedEther(magnitude)) == Some(magnitude)
  {
    var r := LeftoverWei(magnitude);
    FractionRoundTrip(r);
    ParseUnsignedPointed(NatToString(WholeEther(magnitude)), ShownFraction(r));
  }

  /** Whatever formatUnits(_, "ether") prints, parseEther reads back to the same amount of wei. */
  lemma ParseFormatRoundTrip(wei: int)
    ensures ParseEther(FormatEther(wei)) == Some(wei)
  {
    var magnitude: nat := if wei < 0 then -wei else wei;
    var body := FormatUnsignedEther(magnitude);
    UnsignedRoundTrip(magnitude);
    assert IsDigit(body[0]);
    if wei < 0 {
      assert ("-" + body)[1..] == body;
    }
  }

  /** A digit string has no dot. */
  lemma {:induction false} NoDotInDigits(s: string)
    requires AllDigits(s)
    ensures FirstDot(s) == |s|
  {
    if s != [] {
      NoDotInDigits(s[1..]);
    }
  }

  /** A non-empty digit string with no dot reads as that many whole ether. */
  lemma ParseDigits(s: string)
    requires |s| >= 1 && AllDigits(s)
    ensures ParseUnsignedEther(s) == Some(Value(s) * WeiPerEther())
  {
    DigitsAccepted(s);
    NoFraction(s);
  }

  /** A digit string passes every check of parseEther, with itself as the whole part and no fraction. */
  lemma DigitsAccepted(s: string)
    requires |s| >= 1 && AllDigits(s)
    ensures AllDigits([]) && TrimTrailingZeros([]) == []
    ensures ParseUnsignedEther(s) == Some(PointedValue(s, []))
  {
    NoDotInDigits(s);
    assert WholePart(s) == s;
    assert FractionPart(s) == [];
    assert DecimalShape(s);
    assert s != "." by { assert IsDigit(s[0]); }
    assert TrimTrailingZeros([]) == [];
    ParseUnsignedAccepted(s);
  }

  /** Without a fraction, the pointed value is the whole part in ether. */
  lemma NoFraction(s: string)
    requires AllDigits(s) && TrimTrailingZeros([]) == []
    ensures PointedValue(s, []) == Value(s) * WeiPerEther()
  {
    assert FractionWei([]) == 0 by { assert Value([]) == 0; }
  }

  /** A whole number of ether, written without a dot, is that many times 10^18 wei. */
  lemma ParseEtherWhole(n: nat)
    ensures ParseEther(NatToString(n)) == Some(n * WeiPerEther())
  {
    var s := NatToString(n);
    assert s[0] != '-' by { assert IsDigit(s[0]); }
    ParseDigits(s);
  }
}
