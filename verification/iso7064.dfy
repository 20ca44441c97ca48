/** The engine's public operations: the calculator and the verifier, which
    resolve the system for an alphabet and dispatch on it, and the wrappers
    for the library's alphabets. */
module Iso7064 {
  import opened Results
  import opened CharSets
  import opened Resolver
  import PureSystem
  import HybridSystem

  /** Number of trailing check characters the verifier strips. */
  function NumDigits(doubleDigit: bool): (k: nat)
    ensures 1 <= k <= 2 && (k == 2 <==> doubleDigit)
  {
    if doubleDigit then 2 else 1
  }

  /** Number of check characters the calculator appends: the
      running-position algorithm appends one even when two were asked for,
      which happens for a two-character alphabet in double-digit mode. */
  function Emitted(size: nat, doubleDigit: bool): (k: nat) {
    if doubleDigit && size != 2 then 2 else 1
  }

  /** A calculation that succeeds with exactly the string `s`. */
  predicate Yields(r: Result<string>, s: string) {
    r.Success? && r.value == s
  }

  /** The calculator for a given system: a modulus other than radix + 1
      selects the weighted-sum algorithm, radix + 1 the running position. */
  function CheckDigitBySystem(value: string, sys: System, cs: string, doubleDigit: bool): (r: Result<string>)
    requires sys.radix > 0 && sys.modulus > 0
  {
    if !sys.IsHybrid() then PureSystem.CheckDigit(value, sys.radix, sys.modulus, cs, doubleDigit)
    else HybridSystem.CheckDigit(value, cs)
  }

  /** Whichever path is taken, the output is the upcased value and its check
      characters: two on the weighted-sum path in double-digit mode, and
      one otherwise, the running-position path ignoring the mode. */
  lemma DispatchShape(value: string, sys: System, cs: string, doubleDigit: bool)
    requires sys.radix > 0 && sys.modulus > 0
    ensures value == [] ==> CheckDigitBySystem(value, sys, cs, doubleDigit) == Failure(EmptyInput)
    ensures CheckDigitBySystem(value, sys, cs, doubleDigit).Success? ==>
      |CheckDigitBySystem(value, sys, cs, doubleDigit).value| ==
        |value| + (if sys.IsHybrid() then 1 else NumDigits(doubleDigit))
    ensures CheckDigitBySystem(value, sys, cs, doubleDigit).Success? ==>
      CheckDigitBySystem(value, sys, cs, doubleDigit).value[..|value|] == Upcase(value)
  {
  }

  /** The calculator: the upcased value followed by its check character(s).
      An unsupported alphabet fails before the value is looked at. */
  function CalculateCheckDigit(value: string, cs: string, doubleDigit: bool): (r: Result<string>)
    ensures !Supported(|cs|, doubleDigit) ==> r == Failure(InvalidCharacterSet(|cs|))
    ensures Supported(|cs|, doubleDigit) && value == [] ==> r == Failure(EmptyInput)
    // every value over the alphabet gets check characters, and nothing else does
    ensures Supported(|cs|, doubleDigit) && value != [] ==>
      (r.Success? <==> forall i | 0 <= i < |value| :: UpcaseChar(value[i]) in cs)
    ensures r.Success? ==> |r.value| == |value| + Emitted(|cs|, doubleDigit)
    ensures r.Success? ==> r.value[..|value|] == Upcase(value)
    ensures r.Success? ==> forall i | |value| <= i < |r.value| :: r.value[i] in cs
  {
    var sys :- RadixAndModulus(cs, doubleDigit);
    CheckDigitBySystem(value, sys, cs, doubleDigit)
  }

  /** Ruby's `value == null`: the bare name `null` is a method call, which
      raises NameError unless some method of that name is defined; the
      library defines none. Were one defined to return nil, the comparison
      would be false for every string. */
  function CompareWithNull(value: string, nullDefined: bool): (r: Result<bool>)
    ensures r.Success? <==> nullDefined
    // no string equals nil
    ensures r.Success? ==> !r.value
  {
    if nullDefined then Success(false) else Failure(UndefinedName)
  }

  /** The verifier for an explicit radix and modulus as written: its guard
      compares the value with the name `null` before anything else. */
  function VerifyByRadixAndModulusAsWritten(
    value: string, radix: nat, modulus: nat, cs: string, doubleDigit: bool, nullDefined: bool): (r: Result<bool>)
    requires radix > 0 && modulus > 0
    // without a definition of `null` no call gets past the guard
    ensures !nullDefined ==> r == Failure(UndefinedName)
    ensures nullDefined ==> r == VerifyByRadixAndModulus(value, radix, modulus, cs, doubleDigit)
  {
    var isNull :- CompareWithNull(value, nullDefined);
    if isNull || |value| <= NumDigits(doubleDigit) then Success(false)
    else
      var expected :- Recalculated(value, System(radix, modulus), cs, doubleDigit);
      Success(expected == Upcase(value))
  }

  /** The check characters recalculated for the data part of a value: the
      upcased value without its last `NumDigits` characters. */
  function Recalculated(value: string, sys: System, cs: string, doubleDigit: bool): (r: Result<string>)
    requires sys.radix > 0 && sys.modulus > 0 && |value| > NumDigits(doubleDigit)
  {
    CheckDigitBySystem(Upcase(value)[..|value| - NumDigits(doubleDigit)], sys, cs, doubleDigit)
  }

  /** The recalculation keeps the upcased data part, so the comparison can
      only fail on the check characters. */
  lemma RecalculatedKeepsDataPart(value: string, sys: System, cs: string, doubleDigit: bool)
    requires sys.radix > 0 && sys.modulus > 0 && |value| > NumDigits(doubleDigit)
    requires Recalculated(value, sys, cs, doubleDigit).Success?
    ensures |Recalculated(value, sys, cs, doubleDigit).value| >= |value| - NumDigits(doubleDigit)
    ensures Recalculated(value, sys, cs, doubleDigit).value[..|value| - NumDigits(doubleDigit)] ==
      Upcase(value)[..|value| - NumDigits(doubleDigit)]
  {
    UpcaseIdempotent(value);
    UpcasePrefix(Upcase(value), |value| - NumDigits(doubleDigit));
  }

  /** The verifier for an explicit radix and modulus, with the guard as
      intended (a value no longer than its check characters is rejected):
      the upcased value is accepted when recalculating the check characters
      of its data part gives it back. */
  function VerifyByRadixAndModulus(value: string, radix: nat, modulus: nat, cs: string, doubleDigit: bool)
    : (r: Result<bool>)
    requires radix > 0 && modulus > 0
    ensures |value| <= NumDigits(doubleDigit) ==> r == Success(false)
    ensures |value| > NumDigits(doubleDigit) ==>
      (r == Success(true) <==> Yields(Recalculated(value, System(radix, modulus), cs, doubleDigit), Upcase(value)))
    ensures |value| > NumDigits(doubleDigit) ==>
      (r.Success? <==> Recalculated(value, System(radix, modulus), cs, doubleDigit).Success?)
  {
    if |value| <= NumDigits(doubleDigit) then Success(false)
    else
      var expected :- Recalculated(value, System(radix, modulus), cs, doubleDigit);
      Success(expected == Upcase(value))
  }

  /** The verifier: the system is resolved first, so an unsupported alphabet
      fails even for a short value. */
  function VerifyCheckDigit(value: string, cs: string, doubleDigit: bool): (r: Result<bool>)
    ensures !Supported(|cs|, doubleDigit) ==> r == Failure(InvalidCharacterSet(|cs|))
    ensures Supported(|cs|, doubleDigit) && |value| <= NumDigits(doubleDigit) ==> r == Success(false)
    // accepted exactly when the value is the calculator's output for its data part
    ensures r == Success(true) <==> (|value| > NumDigits(doubleDigit) &&
      Yields(CalculateCheckDigit(Upcase(value)[..|value| - NumDigits(doubleDigit)], cs, doubleDigit), Upcase(value)))
    // an unknown character in the data part is an error, and nothing else is
    ensures Supported(|cs|, doubleDigit) && |value| > NumDigits(doubleDigit) ==>
      (r.Success? <==> forall i | 0 <= i < |value| - NumDigits(doubleDigit) :: UpcaseChar(value[i]) in cs)
  {
    var sys :- RadixAndModulus(cs, doubleDigit);
    if |value| <= NumDigits(doubleDigit) then VerifyByRadixAndModulus(value, sys.radix, sys.modulus, cs, doubleDigit)
    else
      RecalculatedByResolvedSystem(value, cs, doubleDigit);
      VerifyByRadixAndModulus(value, sys.radix, sys.modulus, cs, doubleDigit)
  }

  /** Recalculating with the resolved system is calculating the data part. */
  lemma RecalculatedIsCalculation(value: string, cs: string, doubleDigit: bool)
    requires Supported(|cs|, doubleDigit) && |value| > NumDigits(doubleDigit)
    ensures var sys := RadixAndModulus(cs, doubleDigit).value;
      Recalculated(value, System(sys.radix, sys.modulus), cs, doubleDigit) ==
        CalculateCheckDigit(Upcase(value)[..|value| - NumDigits(doubleDigit)], cs, doubleDigit)
  {
    var prefix := Upcase(value)[..|value| - NumDigits(doubleDigit)];
    var resolved := RadixAndModulus(cs, doubleDigit);
    var sys := resolved.value;
    assert resolved.Success? && !resolved.IsFailure();
    assert System(sys.radix, sys.modulus) == sys;
    assert Recalculated(value, sys, cs, doubleDigit) == CheckDigitBySystem(prefix, sys, cs, doubleDigit);
  }

  /** Recalculating with the resolved system is calculating the data part,
      which succeeds exactly when the data part is over the alphabet. */
  lemma RecalculatedByResolvedSystem(value: string, cs: string, doubleDigit: bool)
    requires Supported(|cs|, doubleDigit) && |value| > NumDigits(doubleDigit)
    ensures var sys := RadixAndModulus(cs, doubleDigit).value;
      Recalculated(value, System(sys.radix, sys.modulus), cs, doubleDigit) ==
        CalculateCheckDigit(Upcase(value)[..|value| - NumDigits(doubleDigit)], cs, doubleDigit)
    ensures Recalculated(value, RadixAndModulus(cs, doubleDigit).value, cs, doubleDigit).Success? <==>
      forall i | 0 <= i < |value| - NumDigits(doubleDigit) :: UpcaseChar(value[i]) in cs
  {
    RecalculatedIsCalculation(value, cs, doubleDigit);
    var prefix := Upcase(value)[..|value| - NumDigits(doubleDigit)];
    var sys := RadixAndModulus(cs, doubleDigit).value;
    assert System(sys.radix, sys.modulus) == sys;
    assert CalculateCheckDigit(prefix, cs, doubleDigit).Success? <==>
      forall i | 0 <= i < |prefix| :: UpcaseChar(prefix[i]) in cs;
    assert forall i | 0 <= i < |prefix| :: UpcaseChar(prefix[i]) == UpcaseChar(value[i]);
  }

  /** MOD 11,10 in single-digit mode, MOD 97,10 in double-digit mode. */
  function CalculateNumericCheckDigit(value: string, doubleDigit: bool): (r: Result<string>)
    ensures !doubleDigit ==> r == HybridSystem.CheckDigit(value, Numeric)
    ensures doubleDigit ==> r == PureSystem.CheckDigit(value, 10, 97, Numeric, true)
  {
    SystemTable();
    CalculateCheckDigit(value, Numeric, doubleDigit)
  }

  function VerifyNumericCheckDigit(value: string, doubleDigit: bool): (r: Result<bool>)
    ensures !doubleDigit ==> r == VerifyByRadixAndModulus(value, 10, 11, Numeric, false)
    ensures doubleDigit ==> r == VerifyByRadixAndModulus(value, 10, 97, Numeric, true)
  {
    SystemTable();
    VerifyCheckDigit(value, Numeric, doubleDigit)
  }

  /** MOD 17,16 in single-digit mode, MOD 251,16 in double-digit mode. */
  function CalculateHexCheckDigit(value: string, doubleDigit: bool): (r: Result<string>)
    ensures !doubleDigit ==> r == HybridSystem.CheckDigit(value, Hex)
    ensures doubleDigit ==> r == PureSystem.CheckDigit(value, 16, 251, Hex, true)
  {
    SystemTable();
    CalculateCheckDigit(value, Hex, doubleDigit)
  }

  function VerifyHexCheckDigit(value: string, doubleDigit: bool): (r: Result<bool>)
    ensures !doubleDigit ==> r == VerifyByRadixAndModulus(value, 16, 17, Hex, false)
    ensures doubleDigit ==> r == VerifyByRadixAndModulus(value, 16, 251, Hex, true)
  {
    SystemTable();
    VerifyCheckDigit(value, Hex, doubleDigit)
  }

  /** MOD 27,26 in single-digit mode, MOD 661,26 in double-digit mode. The
      library spells this calculator `calculate_alph_check_digit`, while its
      verifier is `verify_alpha_check_digit`. */
  function CalculateAlphaCheckDigit(value: string, doubleDigit: bool): (r: Result<string>)
    ensures !doubleDigit ==> r == HybridSystem.CheckDigit(value, Alpha)
    ensures doubleDigit ==> r == PureSystem.CheckDigit(value, 26, 661, Alpha, true)
  {
    SystemTable();
    CalculateCheckDigit(value, Alpha, doubleDigit)
  }

  function VerifyAlphaCheckDigit(value: string, doubleDigit: bool): (r: Result<bool>)
    ensures !doubleDigit ==> r == VerifyByRadixAndModulus(value, 26, 27, Alpha, false)
    ensures doubleDigit ==> r == VerifyByRadixAndModulus(value, 26, 661, Alpha, true)
  {
    SystemTable();
    VerifyCheckDigit(value, Alpha, doubleDigit)
  }

  /** MOD 37,36 in single-digit mode, MOD 1271,36 in double-digit mode. */
  function CalculateAlphanumericCheckDigit(value: string, doubleDigit: bool): (r: Result<string>)
    ensures !doubleDigit ==> r == HybridSystem.CheckDigit(value, Alphanumeric)
    ensures doubleDigit ==> r == PureSystem.CheckDigit(value, 36, 1271, Alphanumeric, true)
  {
    SystemTable();
    CalculateCheckDigit(value, Alphanumeric, doubleDigit)
  }

  function VerifyAlphanumericCheckDigit(value: string, doubleDigit: bool): (r: Result<bool>)
    ensures !doubleDigit ==> r == VerifyByRadixAndModulus(value, 36, 37, Alphanumeric, false)
    ensures doubleDigit ==> r == VerifyByRadixAndModulus(value, 36, 1271, Alphanumeric, true)
  {
    SystemTable();
    VerifyCheckDigit(value, Alphanumeric, doubleDigit)
  }

  /** Upcasing the value first changes nothing: the calculator upcases. */
  lemma CalculateUpcase(value: string, cs: string, doubleDigit: bool)
    ensures CalculateCheckDigit(Upcase(value), cs, doubleDigit) == CalculateCheckDigit(value, cs, doubleDigit)
  {
    UpcaseIdempotent(value);
  }

  /** The verifier accepts what the calculator produces, whenever the
      calculator appends as many check characters as the verifier strips. */
  lemma RoundTrip(value: string, cs: string, doubleDigit: bool)
    requires UpperStable(cs) && !(doubleDigit && |cs| == 2)
    requires CalculateCheckDigit(value, cs, doubleDigit).Success?
    ensures VerifyCheckDigit(CalculateCheckDigit(value, cs, doubleDigit).value, cs, doubleDigit) == Success(true)
  {
    var c := CalculateCheckDigit(value, cs, doubleDigit).value;
    var k := NumDigits(doubleDigit);
    assert UpperStable(c) by {
      forall i | 0 <= i < |c|
        ensures !IsLower(c[i])
      {
        if i < |value| {
          assert c[i] == c[..|value|][i];
        }
      }
    }
    UpcaseOfUpper(c);
    assert c[..|c| - k] == Upcase(value);
    CalculateUpcase(value, cs, doubleDigit);
  }

  /** The verifier strips as many characters as the calculator appends,
      except for a two-character alphabet in double-digit mode. */
  lemma StripMatchesEmit(size: nat, doubleDigit: bool)
    ensures NumDigits(doubleDigit) == Emitted(size, doubleDigit) <==> !(doubleDigit && size == 2)
  {
  }

  /** For a two-character alphabet in double-digit mode the calculator
      appends one character and the verifier strips two, so the verifier
      accepts nothing, the calculator's own output included. */
  lemma BinaryDoubleDigitNeverVerifies(value: string, cs: string)
    requires |cs| == 2
    ensures VerifyCheckDigit(value, cs, true) != Success(true)
  {
  }

  /** Two accepted strings of equal length with the same data part agree up
      to case: the check characters of a data part are unique. */
  lemma VerifiedSuffixUnique(s1: string, s2: string, cs: string, doubleDigit: bool)
    requires |s1| == |s2|
    requires VerifyCheckDigit(s1, cs, doubleDigit) == Success(true)
    requires VerifyCheckDigit(s2, cs, doubleDigit) == Success(true)
    requires Upcase(s1)[..|s1| - NumDigits(doubleDigit)] == Upcase(s2)[..|s2| - NumDigits(doubleDigit)]
    ensures Upcase(s1) == Upcase(s2)
  {
    var k := NumDigits(doubleDigit);
    assert Yields(CalculateCheckDigit(Upcase(s1)[..|s1| - k], cs, doubleDigit), Upcase(s1));
    assert Yields(CalculateCheckDigit(Upcase(s2)[..|s2| - k], cs, doubleDigit), Upcase(s2));
  }

  /** The ISO 7064 check of the resolved system holds for the upcased
      value, check characters included. */
  predicate MeetsIso(value: string, cs: string, doubleDigit: bool) {
    Supported(|cs|, doubleDigit) && Values(cs, Upcase(value)).Success? &&
    var sys := RadixAndModulus(cs, doubleDigit).value;
    var ds := Values(cs, Upcase(value)).value;
    if sys.IsHybrid() then HybridSystem.Checks(ds, |cs|)
    else PureSystem.WeightedSum(ds, sys.radix) % sys.modulus == 1
  }

  /** Every string the verifier accepts meets the ISO 7064 check. */
  lemma AcceptedMeetsIso(value: string, cs: string, doubleDigit: bool)
    requires Distinct(cs)
    requires VerifyCheckDigit(value, cs, doubleDigit) == Success(true)
    ensures MeetsIso(value, cs, doubleDigit)
  {
    var sys := RadixAndModulus(cs, doubleDigit).value;
    var prefix := Upcase(value)[..|value| - NumDigits(doubleDigit)];
    if sys.IsHybrid() {
      HybridSystem.CheckDigitSatisfiesIso(prefix, cs);
    } else {
      PureSystem.CheckDigitSatisfiesIso(prefix, sys.radix, sys.modulus, cs, doubleDigit);
    }
  }

  /** In single-digit mode the converse holds too: every string of at least
      two characters that meets the ISO 7064 check is accepted. */
  lemma IsoAccepted(value: string, cs: string)
    requires Distinct(cs) && |value| >= 2
    requires MeetsIso(value, cs, false)
    ensures VerifyCheckDigit(value, cs, false) == Success(true)
  {
    IsoRecalculates(value, cs);
  }

  /** Recalculating the data part of a string that meets the check gives
      the (upcased) string back. */
  lemma IsoRecalculates(value: string, cs: string)
    requires Distinct(cs) && |value| >= 2
    requires MeetsIso(value, cs, false)
    ensures CalculateCheckDigit(Upcase(value)[..|value| - 1], cs, false).Success?
    ensures CalculateCheckDigit(Upcase(value)[..|value| - 1], cs, false).value == Upcase(value)
  {
    var upper := Upcase(value);
    UpcaseIdempotent(value);
    var sys := RadixAndModulus(cs, false).value;
    if sys.IsHybrid() {
      HybridSystem.CheckedRecalculates(upper, cs);
    } else {
      PureSystem.CheckedRecalculates(upper, sys.radix, sys.modulus, cs);
    }
  }

  /** An inverse of the radix modulo the modulus, for the moduli the
      resolver produces on the weighted-sum path. */
  function RadixInverse(modulus: nat): (inv: nat) {
    if modulus == 11 then 6
    else if modulus == 37 then 19
    else if modulus == 97 then 68
    else if modulus == 251 then 204
    else if modulus == 661 then 178
    else 459
  }

  /** Every weighted-sum system the resolver produces has an invertible
      radix. */
  lemma RadixInvertible(cs: string, doubleDigit: bool)
    requires Supported(|cs|, doubleDigit) && !RadixAndModulus(cs, doubleDigit).value.IsHybrid()
    ensures var sys := RadixAndModulus(cs, doubleDigit).value;
      (sys.radix * RadixInverse(sys.modulus)) % sys.modulus == 1
  {
  }

  /** Two strings that differ up to case in position j only have values that
      differ in position j only. */
  lemma ValuesDifferAt(cs: string, s1: string, s2: string, j: nat)
    requires Distinct(cs) && Values(cs, Upcase(s1)).Success? && Values(cs, Upcase(s2)).Success?
    requires |s1| == |s2| && j < |s1| && UpcaseChar(s1[j]) != UpcaseChar(s2[j])
    requires forall k | 0 <= k < |s1| && k != j :: UpcaseChar(s1[k]) == UpcaseChar(s2[k])
    ensures var ds, es := Values(cs, Upcase(s1)).value, Values(cs, Upcase(s2)).value;
      |ds| == |es| == |s1| && ds[j] != es[j] && forall k | 0 <= k < |ds| && k != j :: ds[k] == es[k]
  {
    var ds, es := Values(cs, Upcase(s1)).value, Values(cs, Upcase(s2)).value;
    forall k | 0 <= k < |ds| && k != j
      ensures ds[k] == es[k]
    {
      SamePosition(cs, ds[k], es[k]);
    }
  }

  /** ISO 7064 single-substitution detection for every supported system:
      replacing one character of an accepted string by any character that
      differs from it up to case gives a string the verifier does not
      accept. */
  lemma SubstitutionRejected(s1: string, s2: string, cs: string, doubleDigit: bool, j: nat)
    requires Distinct(cs)
    requires VerifyCheckDigit(s1, cs, doubleDigit) == Success(true)
    requires |s1| == |s2| && j < |s1| && UpcaseChar(s1[j]) != UpcaseChar(s2[j])
    requires forall k | 0 <= k < |s1| && k != j :: UpcaseChar(s1[k]) == UpcaseChar(s2[k])
    ensures VerifyCheckDigit(s2, cs, doubleDigit) != Success(true)
  {
    if VerifyCheckDigit(s2, cs, doubleDigit) == Success(true) {
      AcceptedMeetsIso(s1, cs, doubleDigit);
      AcceptedMeetsIso(s2, cs, doubleDigit);
      var ds, es := Values(cs, Upcase(s1)).value, Values(cs, Upcase(s2)).value;
      ValuesDifferAt(cs, s1, s2, j);
      var sys := RadixAndModulus(cs, doubleDigit).value;
      assert |cs| <= sys.modulus;
      if sys.IsHybrid() {
        HybridSystem.SubstitutionDetected(ds, es, |cs|, j);
      } else {
        RadixInvertible(cs, doubleDigit);
        PureSystem.SubstitutionDetected(ds, es, sys.radix, sys.modulus, RadixInverse(sys.modulus), j);
      }
    }
  }
}
