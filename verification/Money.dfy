/** Decimal amounts and stroops (src/lib/money.ts). */
module Money {
  import opened Basics
  import opened Numerals
  import opened Text

  /** Whole units and stroops beyond them, at 10^7 stroops to the unit. */
  function Whole(n: nat): nat { n / 10_000_000 }
  function Fraction(n: nat): (f: nat)
    ensures f < 10_000_000
  {
    n % 10_000_000
  }
  function Stroops(whole: int, fraction: int): int { whole * 10_000_000 + fraction }

  const MAX_STROOPS := 9_223_372_036_854_775_807

  datatype Rejection = WhitespacePadding | Malformed | ExcessPrecision | ZeroOrNegative | OutOfRange
  datatype Outcome = Valid(decimal: string, stroops: int) | Rejected(reason: Rejection)

  /** The first two parts of `s.split(".")`, the second empty when there is no point. */
  function SplitPoint(s: string): (string, string) {
    match IndexOf('.', s)
    case None => (s, "")
    case Some(i) =>
      var rest := s[i + 1..];
      (s[..i], match IndexOf('.', rest) case None => rest case Some(j) => rest[..j])
  }

  /** `^\d+(?:\.\d+)?$` */
  predicate IsRawDecimal(s: string) {
    match IndexOf('.', s)
    case None => |s| > 0 && AllDigits(s)
    case Some(i) => i > 0 && AllDigits(s[..i]) && i + 1 < |s| && AllDigits(s[i + 1..])
  }

  /** Leading zeros off, as long as a digit follows. */
  function StripLeading(s: string): (t: string)
    ensures |s| > 0 ==> |t| > 0
    ensures AllDigits(s) ==> AllDigits(t)
    ensures |t| > 1 ==> t[0] != '0'
  {
    if |s| > 1 && s[0] == '0' then StripLeading(s[1..]) else s
  }

  function StripTrailing(s: string): (t: string)
    ensures |t| <= |s| && t == s[..|t|]
    ensures |t| > 0 ==> t[|t| - 1] != '0'
    ensures forall i :: |t| <= i < |s| ==> s[i] == '0'
  {
    if s != "" && s[|s| - 1] == '0' then StripTrailing(s[..|s| - 1]) else s
  }

  /** Seven characters of fraction: zeros appended, the rest cut off. */
  function PadFraction(frac: string): (p: string)
    ensures |p| == 7
    ensures AllDigits(frac) ==> AllDigits(p)
  {
    (frac + Zeros(7))[..7]
  }

  /** Digits before and after a point, without the point when nothing follows it. */
  function Plain(whole: string, frac: string): string {
    if frac != "" then whole + "." + frac else whole
  }

  /** From the split parts on: precision, stroops, range, and the canonical decimal. */
  function ValidateParts(wholeRaw: string, fracRaw: string): Outcome
    requires AllDigits(wholeRaw) && AllDigits(fracRaw)
  {
    if |fracRaw| > 7 then Rejected(ExcessPrecision)
    else
      var whole := StripLeading(wholeRaw);
      var paddedFrac := PadFraction(fracRaw);
      var stroops := Stroops(NatOf(whole), NatOf(paddedFrac));
      if stroops <= 0 then Rejected(ZeroOrNegative)
      else if stroops > MAX_STROOPS then Rejected(OutOfRange)
      else Valid(Plain(whole, StripTrailing(paddedFrac)), stroops)
  }

  function ValidateAmount(value: string): Outcome {
    if !IsTrimmed(value) then Rejected(WhitespacePadding)
    else if value == "" then Rejected(Malformed)
    else if !IsRawDecimal(value) then Rejected(Malformed)
    else
      RawDecimalParts(value);
      ValidateParts(SplitPoint(value).0, SplitPoint(value).1)
  }

  /** `BigInt(text)` on signed and unsigned digits and on the empty string; None where it throws. */
  function BigIntOf(text: string): Option<int> {
    if text == "" then Some(0) else ParseInt(text)
  }

  function StroopsOfParts(whole: string, frac: string): Option<int> {
    match (BigIntOf(whole), BigIntOf(PadFraction(frac)))
    case (Some(w), Some(f)) => Some(Stroops(w, f))
    case _ => None
  }

  function ToStroops(amount: string): Option<int> {
    StroopsOfParts(SplitPoint(amount).0, SplitPoint(amount).1)
  }

  function PadStart(s: string): string {
    if |s| >= 7 then s else Zeros(7 - |s|) + s
  }

  function Abs(n: int): nat { if n < 0 then -n else n }

  function Sign(n: int): string { if n < 0 then "-" else "" }

  function FractionText(f: nat): string {
    PadStart(Digits(f))
  }

  function FromStroops(n: int): string {
    Sign(n) + Plain(Digits(Whole(Abs(n))), StripTrailing(FractionText(Fraction(Abs(n)))))
  }

  function StroopsToStellarAmount(n: int): string {
    Sign(n) + Plain(Digits(Whole(Abs(n))), FractionText(Fraction(Abs(n))))
  }

  datatype Arithmetic = Amount(decimal: string) | CannotBeNegative | NotANumber

  function CompareAmounts(a: string, b: string): Option<int> {
    match (ToStroops(a), ToStroops(b))
    case (Some(x), Some(y)) => Some(if x < y then -1 else if x > y then 1 else 0)
    case _ => None
  }

  function AddAmounts(a: string, b: string): Arithmetic {
    match (ToStroops(a), ToStroops(b))
    case (Some(x), Some(y)) => Amount(FromStroops(x + y))
    case _ => NotANumber
  }

  function SubtractAmounts(a: string, b: string): Arithmetic {
    match (ToStroops(a), ToStroops(b))
    case (Some(x), Some(y)) => if x - y < 0 then CannotBeNegative else Amount(FromStroops(x - y))
    case _ => NotANumber
  }

  // ----- what an amount says -----

  /** `s` spells the decimal with these digits before and after the point. */
  predicate Spells(s: string, whole: string, frac: string) {
    |whole| > 0 && AllDigits(whole) && AllDigits(frac) && s == Plain(whole, frac)
  }

  /** The value spelled, in units of 10^-7: the digits read as one number, shifted. */
  function Value(whole: string, frac: string): nat
    requires AllDigits(whole) && AllDigits(frac) && |frac| <= 7
  {
    NatOf(whole + frac) * Pow10(7 - |frac|)
  }

  lemma SplitOfSpelling(whole: string, frac: string)
    requires '.' !in whole && '.' !in frac
    ensures SplitPoint(whole) == (whole, "")
    ensures SplitPoint(whole + "." + frac) == (whole, frac)
  {
    FirstIndex('.', whole, frac);
    assert whole + "." + frac == whole + ['.'] + frac;
    assert (whole + "." + frac)[|whole| + 1..] == frac && (whole + "." + frac)[..|whole|] == whole;
  }

  lemma RawDecimalParts(s: string)
    requires IsRawDecimal(s)
    ensures Spells(s, SplitPoint(s).0, SplitPoint(s).1)
  {
    match IndexOf('.', s)
    case None =>
    case Some(i) =>
      assert s == s[..i] + "." + s[i + 1..];
      SplitOfSpelling(s[..i], s[i + 1..]);
  }

  lemma SpellingIsRaw(s: string, whole: string, frac: string)
    requires Spells(s, whole, frac)
    ensures IsRawDecimal(s) && IsTrimmed(s) && SplitPoint(s) == (whole, frac)
  {
    SplitOfSpelling(whole, frac);
    if frac != "" {
      FirstIndex('.', whole, frac);
      assert s == whole + ['.'] + frac;
      assert s[..|whole|] == whole && s[|whole| + 1..] == frac;
      assert s[|s| - 1] == frac[|frac| - 1];
    }
    assert s[0] == whole[0];
  }

  lemma {:induction false} StripLeadingValue(s: string)
    requires AllDigits(s)
    ensures NatOf(StripLeading(s)) == NatOf(s)
  {
    if |s| > 1 && s[0] == '0' {
      StripLeadingValue(s[1..]);
      assert s == Zeros(1) + s[1..];
      LeadingZeros(1, s[1..]);
    }
  }

  lemma PaddedFraction(frac: string)
    requires AllDigits(frac) && |frac| <= 7
    ensures NatOf(PadFraction(frac)) == NatOf(frac) * Pow10(7 - |frac|)
  {
    hide NatOf, Pow10;
    var zeros := Zeros(7 - |frac|);
    assert PadFraction(frac) == frac + zeros;
    NatOfZeros(7 - |frac|);
    NatOfAppend(frac, zeros);
  }

  lemma {:induction false} PowSum(a: nat, b: nat)
    ensures Pow10(a + b) == Pow10(a) * Pow10(b)
  {
    if a > 0 { PowSum(a - 1, b); }
  }

  lemma SevenPlaces()
    ensures Pow10(7) == 10_000_000
  {
    assert Pow10(3) == 1000;
    assert Pow10(4) == 10000;
    PowSum(3, 4);
  }

  lemma ShiftAndAdd(w: nat, f: nat, p: nat, q: nat)
    ensures (w * p + f) * q == w * (p * q) + f * q
  {
  }

  /** The code's whole-times-10^7-plus-padded-fraction is the value spelled. */
  lemma StroopsAreTheValue(whole: string, frac: string)
    requires AllDigits(whole) && AllDigits(frac) && |frac| <= 7
    ensures Stroops(NatOf(StripLeading(whole)), NatOf(PadFraction(frac))) == Value(whole, frac)
  {
    var k := 7 - |frac|;
    StripLeadingValue(whole);
    PaddedFraction(frac);
    assert Pow10(|frac|) * Pow10(k) == 10_000_000 by {
      PowSum(|frac|, k);
      SevenPlaces();
    }
    NatOfAppend(whole, frac);
    ShiftAndAdd(NatOf(whole), NatOf(frac), Pow10(|frac|), Pow10(k));
  }

  lemma PartsAccepted(whole: string, frac: string)
    requires AllDigits(whole) && AllDigits(frac)
    ensures ValidateParts(whole, frac).Valid? <==> |frac| <= 7 && 1 <= Value(whole, frac) <= MAX_STROOPS
    ensures ValidateParts(whole, frac).Valid? ==> ValidateParts(whole, frac).stroops == Value(whole, frac)
  {
    if |frac| <= 7 { StroopsAreTheValue(whole, frac); }
  }

  /** The verdict on a text that spells a decimal, and on every other. */
  lemma Verdicts(s: string)
    ensures forall whole, frac :: Spells(s, whole, frac) ==>
      (match ValidateAmount(s)
       case Valid(_, stroops) => |frac| <= 7 && 1 <= Value(whole, frac) <= 9_223_372_036_854_775_807 && stroops == Value(whole, frac)
       case Rejected(ExcessPrecision) => |frac| > 7
       case Rejected(ZeroOrNegative) => |frac| <= 7 && Value(whole, frac) == 0
       case Rejected(OutOfRange) => |frac| <= 7 && Value(whole, frac) > 9_223_372_036_854_775_807
       case _ => false)
    ensures (forall whole, frac :: !Spells(s, whole, frac)) ==>
      ValidateAmount(s) == Rejected(if IsTrimmed(s) then Malformed else WhitespacePadding)
  {
    forall whole, frac | Spells(s, whole, frac)
      ensures IsTrimmed(s) && ValidateAmount(s) == ValidateParts(whole, frac)
      ensures |frac| <= 7 ==> Stroops(NatOf(StripLeading(whole)), NatOf(PadFraction(frac))) == Value(whole, frac)
    {
      SpellingIsRaw(s, whole, frac);
      if |frac| <= 7 { StroopsAreTheValue(whole, frac); }
    }
    if IsRawDecimal(s) {
      RawDecimalParts(s);
      assert Spells(s, SplitPoint(s).0, SplitPoint(s).1);
    }
    hide Spells, IsRawDecimal, SplitPoint, Value, StripLeading, PadFraction, Stroops, NatOf;
  }

  /**
   * `validateAmount` accepts exactly the plain decimals of at most seven places worth 1 to 2^63 - 1 stroops,
   * and the stroops it returns are that value.
   */
  lemma AcceptsExactly(s: string)
    ensures ValidateAmount(s).Valid? <==>
              exists whole, frac ::
                Spells(s, whole, frac) && |frac| <= 7 && 1 <= Value(whole, frac) <= 9_223_372_036_854_775_807
    ensures forall whole, frac :: Spells(s, whole, frac) && |frac| <= 7 && ValidateAmount(s).Valid? ==>
              ValidateAmount(s).stroops == Value(whole, frac)
  {
    Verdicts(s);
    hide Spells, Value, ValidateAmount;
  }

  // ----- printing and reading back -----

  lemma StrippedAndPadded(s: string)
    requires |s| == 7 && AllDigits(s)
    ensures AllDigits(StripTrailing(s)) && PadFraction(StripTrailing(s)) == s
  {
    var t := StripTrailing(s);
    assert PadFraction(t) == t + Zeros(7 - |t|);
    assert s == t + Zeros(7 - |t|);
  }

  lemma DigitsAreRead(s: string)
    requires AllDigits(s)
    ensures BigIntOf(s) == Some(NatOf(s) as int)
  {
  }

  lemma PartsAreRead(whole: string, frac: string)
    requires AllDigits(whole) && AllDigits(frac)
    ensures StroopsOfParts(whole, frac) == Some(NatOf(whole) * 10_000_000 + NatOf(PadFraction(frac)))
  {
    DigitsAreRead(whole);
    DigitsAreRead(PadFraction(frac));
    hide NatOf, PadFraction, BigIntOf, AllDigits;
  }

  /** Unvalidated digits, whole part or fraction possibly empty: the fraction counts to seven places and no further. */
  lemma ReadsSevenPlaces(whole: string, frac: string)
    requires AllDigits(whole) && AllDigits(frac)
    ensures ToStroops(whole + "." + frac) ==
      Some(NatOf(whole) * 10_000_000 + NatOf(PadFraction(frac)))
    ensures NatOf(PadFraction(frac)) == if |frac| <= 7 then NatOf(frac) * Pow10(7 - |frac|) else NatOf(frac[..7])
  {
    if |frac| <= 7 { PaddedFraction(frac); } else { assert PadFraction(frac) == frac[..7]; }
    NoPoint(whole);
    NoPoint(frac);
    SplitOfSpelling(whole, frac);
    PartsAreRead(whole, frac);
    hide SplitPoint, NatOf, PadFraction, StroopsOfParts, AllDigits;
  }

  lemma NoPoint(s: string)
    requires AllDigits(s)
    ensures '.' !in s
  {
  }

  lemma FractionDigits(f: nat)
    requires f < 10_000_000
    ensures var p := FractionText(f); |p| == 7 && AllDigits(p) && NatOf(p) == f
  {
    SevenPlaces();
    DigitsAreShort(f, 7);
    LeadingZeros(7 - |Digits(f)|, Digits(f));
    NatOfDigits(f);
  }

  /** The fraction of a seven-digit string is that string again. */
  lemma FractionOfDigits(p: string)
    requires |p| == 7 && AllDigits(p)
    ensures NatOf(p) < 10_000_000 && FractionText(NatOf(p)) == p
  {
    NatOfBound(p);
    SevenPlaces();
    FractionDigits(NatOf(p));
    SameLengthSameValue(FractionText(NatOf(p)), p);
  }

  lemma WholeAndFraction(w: nat, f: nat)
    requires f < 10_000_000
    ensures Stroops(w, f) >= 0 && Whole(Stroops(w, f)) == w && Fraction(Stroops(w, f)) == f
  {
  }

  lemma NoSign(s: string)
    ensures Sign(0) + s == s
  {
  }

  lemma PrintedFromParts(w: nat, f: nat)
    requires f < 10_000_000
    ensures FromStroops(Stroops(w, f)) == Plain(Digits(w), StripTrailing(FractionText(f)))
    ensures StroopsToStellarAmount(Stroops(w, f)) == Plain(Digits(w), FractionText(f))
  {
    WholeAndFraction(w, f);
    NoSign(Plain(Digits(w), StripTrailing(FractionText(f))));
    NoSign(Plain(Digits(w), FractionText(f)));
  }

  lemma PartsArePrinted(wholeRaw: string, fracRaw: string)
    requires |wholeRaw| > 0 && AllDigits(wholeRaw) && AllDigits(fracRaw) && ValidateParts(wholeRaw, fracRaw).Valid?
    ensures ValidateParts(wholeRaw, fracRaw).decimal == FromStroops(ValidateParts(wholeRaw, fracRaw).stroops)
  {
    var whole, padded := StripLeading(wholeRaw), PadFraction(fracRaw);
    FractionOfDigits(padded);
    DigitsOfNat(whole);
    PrintedFromParts(NatOf(whole), NatOf(padded));
  }

  /** The decimal that `validateAmount` returns is the one `fromStroops` prints. */
  lemma CanonicalIsPrinted(s: string)
    requires ValidateAmount(s).Valid?
    ensures ValidateAmount(s).decimal == FromStroops(ValidateAmount(s).stroops)
  {
    RawDecimalParts(s);
    PartsArePrinted(SplitPoint(s).0, SplitPoint(s).1);
  }

  /** `toStroops` of any plain decimal: the whole part as an integer, the fraction padded or cut to seven. */
  lemma ReadPlain(whole: string, frac: string)
    requires |whole| > 0 && AllDigits(whole) && AllDigits(frac)
    ensures ToStroops(Plain(whole, frac)) == Some(Stroops(NatOf(whole), NatOf(PadFraction(frac))))
  {
    assert SplitPoint(Plain(whole, frac)) == (whole, frac) by { SplitOfSpelling(whole, frac); }
    assert StroopsOfParts(whole, frac) == Some(Stroops(NatOf(whole), NatOf(PadFraction(frac))));
  }

  lemma ReadPrinted(w: nat, f: nat)
    requires f < 10_000_000
    ensures ToStroops(Plain(Digits(w), StripTrailing(FractionText(f)))) == Some(Stroops(w, f))
    ensures ToStroops(Plain(Digits(w), FractionText(f))) == Some(Stroops(w, f))
  {
    FractionDigits(f);
    StrippedAndPadded(FractionText(f));
    NatOfDigits(w);
    ReadPlain(Digits(w), StripTrailing(FractionText(f)));
    ReadPlain(Digits(w), FractionText(f));
    assert PadFraction(FractionText(f)) == FractionText(f);
  }

  lemma PartsOf(n: nat)
    ensures Stroops(Whole(n), Fraction(n)) == n
  {
  }

  /** `toStroops` inverts the API's printer on every non-negative number, however large ... */
  lemma ToStroopsInvertsFromStroops(n: nat)
    ensures ToStroops(FromStroops(n)) == Some(n)
  {
    var text := Plain(Digits(Whole(n)), StripTrailing(FractionText(Fraction(n))));
    PartsOf(n);
    assert FromStroops(n) == text by { PrintedFromParts(Whole(n), Fraction(n)); }
    assert ToStroops(text) == Some(n) by { ReadPrinted(Whole(n), Fraction(n)); }
  }

  /** ... and the wire format's. */
  lemma ToStroopsInvertsStellarAmount(n: nat)
    ensures ToStroops(StroopsToStellarAmount(n)) == Some(n)
  {
    var text := Plain(Digits(Whole(n)), FractionText(Fraction(n)));
    PartsOf(n);
    assert StroopsToStellarAmount(n) == text by { PrintedFromParts(Whole(n), Fraction(n)); }
    assert ToStroops(text) == Some(n) by { ReadPrinted(Whole(n), Fraction(n)); }
  }

  lemma SplitNegative(whole: string, frac: string)
    requires |whole| > 0 && AllDigits(whole) && AllDigits(frac)
    ensures SplitPoint("-" + Plain(whole, frac)) == ("-" + whole, frac)
  {
    var signed := "-" + whole;
    SplitOfSpelling(signed, frac);
    assert "-" + (whole + "." + frac) == signed + "." + frac;
  }

  lemma NegativeWhole(whole: string)
    requires |whole| > 0 && AllDigits(whole)
    ensures BigIntOf("-" + whole) == Some(-(NatOf(whole) as int))
  {
    var signed := "-" + whole;
    assert signed[1..] == whole;
    assert !IsDigit(signed[0]);
    assert !AllDigits(signed);
  }

  /** A minus sign in front belongs to the whole part alone. */
  lemma ReadNegative(whole: string, frac: string)
    requires |whole| > 0 && AllDigits(whole) && AllDigits(frac)
    ensures ToStroops("-" + Plain(whole, frac)) == Some(Stroops(-(NatOf(whole) as int), NatOf(PadFraction(frac))))
  {
    NegativeParts(whole, frac);
    SplitNegative(whole, frac);
  }

  lemma NegativeParts(whole: string, frac: string)
    requires |whole| > 0 && AllDigits(whole) && AllDigits(frac)
    ensures StroopsOfParts("-" + whole, frac) == Some(Stroops(-(NatOf(whole) as int), NatOf(PadFraction(frac))))
  {
    NegativeWhole(whole);
    assert BigIntOf(PadFraction(frac)) == Some(NatOf(PadFraction(frac)));
  }

  lemma ReadPrintedNegative(n: int)
    requires n < 0
    ensures ToStroops(FromStroops(n)) == Some(Stroops(-(Whole(Abs(n)) as int), Fraction(Abs(n))))
  {
    var w, f := Whole(Abs(n)), Fraction(Abs(n));
    FractionDigits(f);
    StrippedAndPadded(FractionText(f));
    NatOfDigits(w);
    ReadNegative(Digits(w), StripTrailing(FractionText(f)));
  }

  /**
   * Reading back what `fromStroops` printed gives the number exactly when it is not negative or is a whole
   * number of units: the sign is read as belonging to the whole part only.
   */
  lemma ReadsBackIff(n: int)
    ensures ToStroops(FromStroops(n)) == Some(n) <==> n >= 0 || n % 10_000_000 == 0
  {
    hide ToStroops, FromStroops, Whole, Fraction, Stroops;
    if n >= 0 {
      ToStroopsInvertsFromStroops(n);
    } else {
      var back := ToStroops(FromStroops(n));
      assert back == Some(Stroops(-(Whole(Abs(n)) as int), Fraction(Abs(n)))) by { ReadPrintedNegative(n); }
      MirroredFraction(n);
    }
  }

  /** Negating the whole part alone negates the number only when there is no fraction. */
  lemma MirroredFraction(n: int)
    requires n < 0
    ensures Stroops(-(Whole(Abs(n)) as int), Fraction(Abs(n))) == n <==> n % 10_000_000 == 0
  {
  }

  lemma PrintedPartsAreCanonical(w: nat, f: nat)
    requires f < 10_000_000 && 1 <= Stroops(w, f) <= MAX_STROOPS
    ensures ValidateParts(Digits(w), StripTrailing(FractionText(f)))
         == Valid(Plain(Digits(w), StripTrailing(FractionText(f))), Stroops(w, f))
    ensures AllDigits(StripTrailing(FractionText(f)))
  {
    FractionDigits(f);
    StrippedAndPadded(FractionText(f));
    NatOfDigits(w);
    DigitsAreStripped(w);
  }

  lemma DigitsAreStripped(w: nat)
    ensures StripLeading(Digits(w)) == Digits(w)
  {
    if w == 0 { assert Digits(0) == "0"; }
  }

  /** Validating a printed amount accepts it as it stands: canonical decimals are fixpoints. */
  lemma PrintedAmountsAreCanonical(n: nat)
    requires 1 <= n <= MAX_STROOPS
    ensures ValidateAmount(FromStroops(n)) == Valid(FromStroops(n), n)
  {
    hide ValidateParts, FromStroops, FractionText, StripTrailing, SplitPoint, IsRawDecimal, IsTrimmed, Digits;
    var w, f := Whole(n), Fraction(n);
    PrintedFromParts(w, f);
    PrintedPartsAreCanonical(w, f);
    SpellingIsRaw(FromStroops(n), Digits(w), StripTrailing(FractionText(f)));
  }

  /** Validation is a normal form: it accepts its own output unchanged, and gives one decimal per value. */
  lemma ValidationIsANormalForm(s: string, t: string)
    requires ValidateAmount(s).Valid? && ValidateAmount(t).Valid?
    ensures ValidateAmount(ValidateAmount(s).decimal) == ValidateAmount(s)
    ensures ValidateAmount(s).stroops == ValidateAmount(t).stroops <==> ValidateAmount(s).decimal == ValidateAmount(t).decimal
  {
    hide ValidateAmount, FromStroops;
    ValidatedIsPrinted(s);
    ValidatedIsPrinted(t);
  }

  /** What a validated amount is, without looking inside the validation. */
  lemma ValidatedIsPrinted(s: string)
    requires ValidateAmount(s).Valid?
    ensures var v := ValidateAmount(s);
            1 <= v.stroops <= MAX_STROOPS && v.decimal == FromStroops(v.stroops) && ValidateAmount(v.decimal) == v
  {
    hide ValidateAmount, FromStroops;
    CanonicalIsPrinted(s);
    StroopsInRange(s);
    PrintedAmountsAreCanonical(ValidateAmount(s).stroops);
  }

  lemma StroopsInRange(s: string)
    requires ValidateAmount(s).Valid?
    ensures 1 <= ValidateAmount(s).stroops <= MAX_STROOPS
  {
  }

  lemma ArithmeticOnTexts(x: string, y: string, a: nat, b: nat)
    requires ToStroops(x) == Some(a) && ToStroops(y) == Some(b)
    ensures AddAmounts(x, y) == Amount(FromStroops(a + b))
    ensures SubtractAmounts(x, y) == if a < b then CannotBeNegative else Amount(FromStroops(a - b))
    ensures CompareAmounts(x, y) == Some(if a < b then -1 else if a > b then 1 else 0)
  {
    hide ToStroops, FromStroops;
  }

  lemma ValidatedReads(s: string)
    requires ValidateAmount(s).Valid?
    ensures ToStroops(ValidateAmount(s).decimal) == Some(ValidateAmount(s).stroops)
  {
    hide ValidateAmount, FromStroops, ToStroops;
    ValidatedIsPrinted(s);
    ToStroopsInvertsFromStroops(ValidateAmount(s).stroops);
  }

  /** On amounts that read as numbers, subtracting what was added gives the canonical first operand back. */
  lemma SubtractAfterAdd(x: string, y: string, m: nat, n: nat, added: Arithmetic)
    requires ToStroops(x) == Some(m) && ToStroops(y) == Some(n) && added == AddAmounts(x, y)
    ensures added.Amount? && SubtractAmounts(added.decimal, y) == Amount(FromStroops(m))
  {
    hide ToStroops, FromStroops;
    assert added == Amount(FromStroops(m + n)) by { ArithmeticOnTexts(x, y, m, n); }
    assert ToStroops(added.decimal) == Some(m + n) by { ToStroopsInvertsFromStroops(m + n); }
    ArithmeticOnTexts(added.decimal, y, m + n, n);
  }

  /** On validated amounts: addition is exact, subtracting undoes it, and comparison is that of the values. */
  lemma AmountArithmetic(s: string, t: string, a: Outcome, b: Outcome)
    requires a == ValidateAmount(s) && b == ValidateAmount(t) && a.Valid? && b.Valid?
    ensures AddAmounts(a.decimal, b.decimal) == Amount(FromStroops(a.stroops + b.stroops))
    ensures SubtractAmounts(AddAmounts(a.decimal, b.decimal).decimal, b.decimal) == Amount(a.decimal)
    ensures SubtractAmounts(a.decimal, b.decimal) == CannotBeNegative <==> a.stroops < b.stroops
    ensures CompareAmounts(a.decimal, b.decimal) == Some(if a.stroops < b.stroops then -1 else if a.stroops > b.stroops then 1 else 0)
  {
    hide ToStroops, FromStroops, ValidateAmount;
    var x, y, m, n := a.decimal, b.decimal, a.stroops, b.stroops;
    assert ToStroops(x) == Some(m) && x == FromStroops(m) && m >= 1 by { ValidatedReads(s); ValidatedIsPrinted(s); }
    assert ToStroops(y) == Some(n) && n >= 1 by { ValidatedReads(t); ValidatedIsPrinted(t); }
    ArithmeticOnTexts(x, y, m, n);
    SubtractAfterAdd(x, y, m, n, AddAmounts(x, y));
  }
}
