/** The library's published examples of MOD 11,10 check characters, proved
    on the model, and the effect of the verifier's `null` guard on one of
    them. */
module Vectors {
  import opened Results
  import opened CharSets
  import HybridSystem
  import Iso7064

  predicate IsDigits(s: string) {
    forall i | 0 <= i < |s| :: '0' <= s[i] <= '9'
  }

  /** A digit's value in the numeric alphabet is the digit. */
  lemma NumericDigit(c: char)
    requires '0' <= c <= '9'
    ensures Numeric[c as int - 48] == c
  {
    assert forall k | 0 <= k < 10 :: Numeric[k] as int == 48 + k;
  }

  /** The values of a digit string over the numeric alphabet are its digits. */
  lemma DigitValues(s: string)
    requires IsDigits(s)
    ensures Values(Numeric, s).Success?
    ensures forall i | 0 <= i < |s| :: Values(Numeric, s).value[i] == s[i] as int - 48
  {
    NumericWellFormed();
    forall i | 0 <= i < |s|
      ensures s[i] in Numeric
    {
      NumericDigit(s[i]);
    }
    var ds := Values(Numeric, s).value;
    forall i | 0 <= i < |s|
      ensures ds[i] == s[i] as int - 48
    {
      NumericDigit(s[i]);
      SamePosition(Numeric, ds[i], s[i] as int - 48);
    }
  }

  /** The running position computed front to back, as the loop does. */
  function Run(pos: int, ds: seq<nat>, n: int): (last: int)
    decreases |ds|
  {
    if ds == [] then pos else Run(HybridSystem.Step(pos, ds[0], n), ds[1..], n)
  }

  /** Continuing the loop over `es` from the position of `ds` gives the
      position of `ds + es`. */
  lemma {:induction false} RunExtends(ds: seq<nat>, es: seq<nat>, n: nat)
    requires forall k | 0 <= k < |ds| :: ds[k] < n
    requires forall k | 0 <= k < |es| :: es[k] < n
    ensures Run(HybridSystem.Position(ds, n), es, n) == HybridSystem.Position(ds + es, n)
    decreases |es|
  {
    if es == [] {
      assert ds + es == ds;
    } else {
      HybridSystem.PositionSnoc(ds, es[0], n);
      RunExtends(ds + [es[0]], es[1..], n);
      assert (ds + [es[0]]) + es[1..] == ds + es;
    }
  }

  /** One more value is one more iteration. */
  lemma {:induction false} RunSnoc(pos: int, ds: seq<nat>, d: nat, n: int)
    ensures Run(pos, ds + [d], n) == HybridSystem.Step(Run(pos, ds, n), d, n)
    decreases |ds|
  {
    if ds != [] {
      assert (ds + [d])[1..] == ds[1..] + [d];
      RunSnoc(HybridSystem.Step(pos, ds[0], n), ds[1..], d, n);
    }
  }

  /** The digits 1 followed by eleven zeros. */
  const OneAndZeros: seq<nat> := [1, 0, 0, 0, 0, 0, 0, 0, 0, 0, 0, 0]

  lemma OneAndZerosRun()
    ensures Run(10, OneAndZeros, 10) == 4
  {
  }

  /** The loop run from the starting position n computes `Position`. */
  lemma RunIsPosition(ds: seq<nat>, n: nat)
    requires forall k | 0 <= k < |ds| :: ds[k] < n
    ensures HybridSystem.Position(ds, n) == Run(n, ds, n)
  {
    RunExtends([], ds, n);
    assert [] + ds == ds;
  }

  /** A digit string is its own upcasing. */
  lemma DigitsUpper(s: string)
    requires IsDigits(s)
    ensures Upcase(s) == s
  {
    assert UpperStable(s);
    UpcaseOfUpper(s);
  }

  /** The values of a digit string, given as a sequence. */
  lemma NumericValues(value: string, ds: seq<nat>)
    requires IsDigits(value) && |ds| == |value|
    requires forall i | 0 <= i < |value| :: ds[i] == value[i] as int - 48
    ensures Values(Numeric, value).Success? && Values(Numeric, value).value == ds
  {
    DigitValues(value);
  }

  /** The MOD 11,10 calculation of a digit string whose digits end at
      running position `pos`. */
  lemma NumericVector(value: string, ds: seq<nat>, pos: nat, checked: string)
    requires value != [] && IsDigits(value) && |ds| == |value|
    requires forall i | 0 <= i < |value| :: ds[i] == value[i] as int - 48
    requires Run(10, ds, 10) == pos && 1 <= pos <= 10
    requires checked == value + [Numeric[HybridSystem.CheckPosition(pos, 10)]]
    ensures Iso7064.CalculateNumericCheckDigit(value, false) == Success(checked)
  {
    NumericValues(value, ds);
    RunIsPosition(ds, 10);
    DigitsUpper(value);
    NumericWellFormed();
    HybridSystem.CheckDigitOfValues(value, Numeric, ds);
    var r := Iso7064.CalculateNumericCheckDigit(value, false);
    assert r.Success? && r.value == checked;
    assert r == Success(r.value);
  }

  // The library's six RSpec examples of MOD 11,10.

  lemma Example036532()
    ensures Iso7064.CalculateNumericCheckDigit("036532", false) == Success("0365323")
  {
    NumericVector("036532", [0, 3, 6, 5, 3, 2], 8, "0365323");
  }

  lemma Example0794()
    ensures Iso7064.CalculateNumericCheckDigit("0794", false) == Success("07945")
  {
    NumericVector("0794", [0, 7, 9, 4], 6, "07945");
  }

  /** A digit string extended by the digit `d` has the values extended by `d`. */
  lemma DigitsSnoc(s: string, ds: seq<nat>, d: nat)
    requires d < 10 && IsDigits(s) && |ds| == |s|
    requires forall i | 0 <= i < |s| :: ds[i] == s[i] as int - 48
    ensures IsDigits(s + [(48 + d) as char])
    ensures forall i | 0 <= i < |s| + 1 :: (ds + [d])[i] == (s + [(48 + d) as char])[i] as int - 48
  {
  }

  /** The MOD 11,10 calculation of a 1, eleven zeros and a final digit `d`,
      whose digits end at running position `pos`. */
  lemma OneAndZerosThen(d: nat, pos: nat, checked: string)
    requires d < 10 && HybridSystem.Step(4, d, 10) == pos && 1 <= pos <= 10
    requires checked == "100000000000" + [(48 + d) as char] + [Numeric[HybridSystem.CheckPosition(pos, 10)]]
    ensures Iso7064.CalculateNumericCheckDigit("100000000000" + [(48 + d) as char], false) == Success(checked)
  {
    var prefix := "100000000000";
    assert IsDigits(prefix) && forall i | 0 <= i < 12 :: OneAndZeros[i] == prefix[i] as int - 48;
    DigitsSnoc(prefix, OneAndZeros, d);
    OneAndZerosRun();
    RunSnoc(10, OneAndZeros, d, 10);
    NumericVector(prefix + [(48 + d) as char], OneAndZeros + [d], pos, checked);
  }

  lemma Example1000000000001()
    ensures Iso7064.CalculateNumericCheckDigit("1000000000001", false) == Success("10000000000011")
  {
    assert "100000000000" + [(48 + 1) as char] == "1000000000001";
    OneAndZerosThen(1, 10, "10000000000011");
  }

  lemma Example1000000000002()
    ensures Iso7064.CalculateNumericCheckDigit("1000000000002", false) == Success("10000000000020")
  {
    assert "100000000000" + [(48 + 2) as char] == "1000000000002";
    OneAndZerosThen(2, 1, "10000000000020");
  }

  lemma Example1000000000003()
    ensures Iso7064.CalculateNumericCheckDigit("1000000000003", false) == Success("10000000000038")
  {
    assert "100000000000" + [(48 + 3) as char] == "1000000000003";
    OneAndZerosThen(3, 3, "10000000000038");
  }

  lemma Example1000000000004()
    ensures Iso7064.CalculateNumericCheckDigit("1000000000004", false) == Success("10000000000046")
  {
    assert "100000000000" + [(48 + 4) as char] == "1000000000004";
    OneAndZerosThen(4, 5, "10000000000046");
  }

  /** The verifier accepts the first example and rejects it with its check
      character changed. */
  lemma VerifyExample()
    ensures Iso7064.VerifyNumericCheckDigit("0365323", false) == Success(true)
    ensures Iso7064.VerifyNumericCheckDigit("0365324", false) == Success(false)
  {
    Example036532();
    NumericWellFormed();
    Iso7064.RoundTrip("036532", Numeric, false);
    var wrong := "0365324";
    assert UpperStable(wrong);
    UpcaseOfUpper(wrong);
    assert wrong[..6] == "036532";
  }

  /** The verifier as written raises on the first example, which the
      verifier with the intended guard accepts. */
  lemma NullGuardRejectsExample()
    ensures Iso7064.VerifyByRadixAndModulusAsWritten("0365323", 10, 11, Numeric, false, false) == Failure(UndefinedName)
    ensures Iso7064.VerifyByRadixAndModulus("0365323", 10, 11, Numeric, false) == Success(true)
  {
    VerifyExample();
  }
}
