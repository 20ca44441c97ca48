/** The ISO 7064 pure system: the value's characters, read as digits base
    `radix`, are folded modulo `modulus`, and the check value completes the
    whole checked string to a residue of 1. */
module PureSystem {
  import opened Results
  import opened CharSets
  import Arith

  function Pow(b: nat, e: nat): (p: nat) {
    if e == 0 then 1 else b * Pow(b, e - 1)
  }

  /** The ISO 7064 weighted sum: the value at position i of n contributes
      value * radix^(n-1-i). */
  function WeightedSum(ds: seq<nat>, radix: nat): (sum: nat) {
    if ds == [] then 0 else ds[0] * Pow(radix, |ds| - 1) + WeightedSum(ds[1..], radix)
  }

  /** One iteration of the character loop: add the character's value, then
      multiply by the radix, modulo the modulus. */
  function Step(p: nat, i: nat, radix: nat, modulus: nat): (q: nat)
    requires modulus > 0
    ensures q < modulus
  {
    ((p + i) * radix) % modulus
  }

  /** The accumulator p of the character loop after it has consumed `ds`. */
  function Accumulate(ds: seq<nat>, radix: nat, modulus: nat): (p: nat)
    requires modulus > 0
    ensures p < modulus
  {
    if ds == [] then 0
    else Step(Accumulate(ds[..|ds| - 1], radix, modulus), ds[|ds| - 1], radix, modulus)
  }

  lemma AccumulateSnoc(ds: seq<nat>, d: nat, radix: nat, modulus: nat)
    requires modulus > 0
    ensures Accumulate(ds + [d], radix, modulus) == Step(Accumulate(ds, radix, modulus), d, radix, modulus)
  {
    assert (ds + [d])[..|ds|] == ds;
  }

  /** The check value for a final accumulator p. */
  function CheckValue(p: nat, modulus: nat): (c: nat)
    requires p < modulus
    ensures c < modulus
  {
    (modulus - p + 1) % modulus
  }

  /** Two digits base `radix` of a check value, most significant first. */
  function Split(k: nat, radix: nat): (digits: (nat, nat))
    requires radix > 0
    ensures digits.0 * radix + digits.1 == k && digits.1 < radix
    ensures k < radix * radix ==> digits.0 < radix
  {
    var second := k % radix;
    Arith.TwoDigits(k, radix);
    ((k - second) / radix, second)
  }

  /** The check values appended after `ds`: one, or two in double-digit mode
      (where the accumulator is multiplied by the radix once more). */
  function CheckValues(ds: seq<nat>, radix: nat, modulus: nat, doubleDigit: bool): (cv: seq<nat>)
    requires radix > 0 && modulus > 0
    ensures |cv| == (if doubleDigit then 2 else 1)
    ensures !doubleDigit ==> cv[0] < modulus
    ensures doubleDigit ==> cv[1] < radix && cv[0] * radix + cv[1] < modulus
    ensures doubleDigit && modulus <= radix * radix ==> cv[0] < radix
  {
    var p := Accumulate(ds, radix, modulus);
    if doubleDigit then
      var digits := Split(CheckValue((p * radix) % modulus, modulus), radix);
      [digits.0, digits.1]
    else
      [CheckValue(p, modulus)]
  }

  /** Every check value is below the alphabet size: the modulus itself in
      single-digit mode, the radix (with a modulus of at most two digits) in
      double-digit mode. */
  predicate ResiduesFit(radix: nat, modulus: nat, size: nat, doubleDigit: bool) {
    if doubleDigit then radix <= size && modulus <= radix * radix else modulus <= size
  }

  /** The calculator: the upcased value followed by its check character(s). */
  function CheckDigit(value: string, radix: nat, modulus: nat, cs: string, doubleDigit: bool): (r: Result<string>)
    requires radix > 0 && modulus > 0
    ensures value == [] ==> r == Failure(EmptyInput)
    ensures r.Success? ==> forall i | 0 <= i < |value| :: UpcaseChar(value[i]) in cs
    ensures r.Success? ==> |r.value| == |value| + (if doubleDigit then 2 else 1)
    ensures r.Success? ==> r.value[..|value|] == Upcase(value)
    ensures r.Success? ==> forall i | |value| <= i < |r.value| :: r.value[i] in cs
    ensures value != [] && !(forall i | 0 <= i < |value| :: UpcaseChar(value[i]) in cs) ==>
      r.Failure? && r.error.InvalidCharacter?
    // every check value has a character when the residues fit the alphabet
    ensures value != [] && ResiduesFit(radix, modulus, |cs|, doubleDigit) ==>
      (forall i | 0 <= i < |value| :: UpcaseChar(value[i]) in cs) ==> r.Success?
  {
    if value == [] then Failure(EmptyInput)
    else
      var upper := Upcase(value);
      var ds :- Values(cs, upper);
      var check :- Characters(cs, CheckValues(ds, radix, modulus, doubleDigit));
      Success(upper + check)
  }

  /** The single-digit calculator's output in terms of the values of the
      upcased value. */
  lemma CheckDigitOfValues(value: string, radix: nat, modulus: nat, cs: string, ds: seq<nat>)
    requires radix > 0 && 0 < modulus <= |cs| && value != [] && Values(cs, Upcase(value)) == Success(ds)
    ensures CheckDigit(value, radix, modulus, cs, false).Success?
    ensures CheckDigit(value, radix, modulus, cs, false).value ==
      Upcase(value) + [cs[CheckValue(Accumulate(ds, radix, modulus), modulus)]]
  {
    var e := CheckValue(Accumulate(ds, radix, modulus), modulus);
    assert Characters(cs, [e]).value == [cs[e]];
  }

  /** In single-digit mode, an upper-case string whose values meet the
      check is the calculator's output for the string without its last
      character. */
  lemma CheckedRecalculates(u: string, radix: nat, modulus: nat, cs: string)
    requires radix > 0 && 2 <= modulus <= |cs| && Distinct(cs) && |u| >= 2 && Upcase(u) == u
    requires Values(cs, u).Success? && WeightedSum(Values(cs, u).value, radix) % modulus == 1
    requires forall i | 0 <= i < |u| :: Values(cs, u).value[i] < modulus
    ensures CheckDigit(u[..|u| - 1], radix, modulus, cs, false).Success?
    ensures CheckDigit(u[..|u| - 1], radix, modulus, cs, false).value == u
  {
    var ds := Values(cs, u).value;
    var n := |u| - 1;
    var init := ds[..n];
    ValuesPrefix(cs, u, n);
    UpcasePrefix(u, n);
    SplitLast(ds);
    CheckValueUnique(init, radix, modulus, ds[n]);
    CheckDigitOfValues(u[..n], radix, modulus, cs, init);
    SplitLast(u);
  }

  /** The accumulator of the values of `upper`, or the error of the first
      character outside the alphabet. */
  function AccumulateString(upper: string, radix: nat, modulus: nat, cs: string): (r: Result<nat>)
    requires modulus > 0
  {
    var ds :- Values(cs, upper);
    Success(Accumulate(ds, radix, modulus))
  }

  /** The character loop: each character is looked up and folded into the
      accumulator; the first unknown character stops it. */
  method AccumulateLoop(upper: string, radix: nat, modulus: nat, cs: string) returns (r: Result<nat>)
    requires modulus > 0
    ensures r == AccumulateString(upper, radix, modulus, cs)
  {
    var p: nat := 0;
    ghost var ds: seq<nat> := [];
    var n := 0;
    while n < |upper|
      invariant n <= |upper|
      invariant Values(cs, upper[..n]) == Success(ds)
      invariant p == Accumulate(ds, radix, modulus)
    {
      var index := IndexOf(cs, upper[n]);
      if index.Failure? {
        LoopStops(upper, radix, modulus, cs, n, ds);
        return Failure(index.error);
      }
      var i := index.value;
      LoopStep(upper, radix, modulus, cs, n, ds, i);
      p := Step(p, i, radix, modulus);
      ds := ds + [i];
      n := n + 1;
    }
    LoopEnds(upper, radix, modulus, cs, ds);
    return Success(p);
  }

  lemma LoopStep(upper: string, radix: nat, modulus: nat, cs: string, n: nat, ds: seq<nat>, i: nat)
    requires modulus > 0
    requires n < |upper| && Values(cs, upper[..n]) == Success(ds) && IndexOf(cs, upper[n]) == Success(i)
    ensures Values(cs, upper[..n + 1]) == Success(ds + [i])
    ensures Accumulate(ds + [i], radix, modulus) == Step(Accumulate(ds, radix, modulus), i, radix, modulus)
  {
    ValuesStep(cs, upper, n, ds);
    AccumulateSnoc(ds, i, radix, modulus);
  }

  lemma LoopStops(upper: string, radix: nat, modulus: nat, cs: string, n: nat, ds: seq<nat>)
    requires modulus > 0
    requires n < |upper| && Values(cs, upper[..n]) == Success(ds) && IndexOf(cs, upper[n]).Failure?
    ensures AccumulateString(upper, radix, modulus, cs) == Failure(IndexOf(cs, upper[n]).error)
  {
    ValuesStep(cs, upper, n, ds);
  }

  lemma LoopEnds(upper: string, radix: nat, modulus: nat, cs: string, ds: seq<nat>)
    requires modulus > 0
    requires Values(cs, upper[..|upper|]) == Success(ds)
    ensures AccumulateString(upper, radix, modulus, cs) == Success(Accumulate(ds, radix, modulus))
  {
    assert upper[..|upper|] == upper;
  }

  /** The calculator written as the loop plus check-character emission; it
      computes exactly `CheckDigit`. */
  method Calculate(value: string, radix: nat, modulus: nat, cs: string, doubleDigit: bool)
    returns (r: Result<string>)
    requires radix > 0 && modulus > 0
    ensures r == CheckDigit(value, radix, modulus, cs, doubleDigit)
  {
    if value == [] {
      return Failure(EmptyInput);
    }
    var upper := Upcase(value);
    var acc := AccumulateLoop(upper, radix, modulus, cs);
    if acc.Failure? {
      return Failure(acc.error);
    }
    var p := acc.value;
    ghost var ds := Values(cs, upper).value;
    if doubleDigit {
      p := (p * radix) % modulus;
    }
    var check := (modulus - p + 1) % modulus;
    if doubleDigit {
      var second := check % radix;
      Arith.TwoDigits(check, radix);
      var first := (check - second) / radix;
      assert CheckValues(ds, radix, modulus, true) == [first, second];
      if first >= |cs| {
        return Failure(UnencodableCheckDigit(first));
      }
      if second >= |cs| {
        return Failure(UnencodableCheckDigit(second));
      }
      assert Characters(cs, [first, second]).value == [cs[first], cs[second]];
      r := Success(upper + [cs[first], cs[second]]);
    } else {
      assert CheckValues(ds, radix, modulus, false) == [check];
      if check >= |cs| {
        return Failure(UnencodableCheckDigit(check));
      }
      assert Characters(cs, [check]).value == [cs[check]];
      r := Success(upper + [cs[check]]);
    }
  }

  /** Appending a digit shifts the weighted sum by one place. */
  lemma {:induction false} WeightedSumSnoc(ds: seq<nat>, d: nat, radix: nat)
    ensures WeightedSum(ds + [d], radix) == WeightedSum(ds, radix) * radix + d
    decreases |ds|
  {
    if ds == [] {
      assert WeightedSum([d], radix) == d * Pow(radix, 0) + WeightedSum([], radix);
    } else {
      var rest := ds[1..];
      assert (ds + [d])[1..] == rest + [d];
      WeightedSumSnoc(rest, d, radix);
      var a, power, w := ds[0], Pow(radix, |ds| - 1), WeightedSum(rest, radix);
      assert Pow(radix, |ds|) == radix * power;
      assert WeightedSum(ds + [d], radix) == a * (radix * power) + (w * radix + d);
      assert a * (radix * power) + w * radix == (a * power + w) * radix;
    }
  }

  /** The loop's accumulator is the weighted sum of the values read, shifted
      one place and reduced. */
  lemma {:induction false} AccumulateIsWeightedSum(ds: seq<nat>, radix: nat, modulus: nat)
    requires modulus > 0
    ensures Accumulate(ds, radix, modulus) == (WeightedSum(ds, radix) * radix) % modulus
    decreases |ds|
  {
    if ds != [] {
      var init, d := ds[..|ds| - 1], ds[|ds| - 1];
      assert ds == init + [d];
      AccumulateIsWeightedSum(init, radix, modulus);
      WeightedSumSnoc(init, d, radix);
      var w := WeightedSum(init, radix);
      calc {
        Accumulate(ds, radix, modulus);
        (((w * radix) % modulus + d) * radix) % modulus;
        { Arith.ModMulLeft((w * radix) % modulus + d, radix, modulus);
          Arith.ModAddLeft(w * radix, d, modulus);
          Arith.ModMulLeft(w * radix + d, radix, modulus); }
        ((w * radix + d) * radix) % modulus;
        (WeightedSum(ds, radix) * radix) % modulus;
      }
    }
  }

  /** The check value completes the accumulator to 1, and is the only value
      below the modulus that does. */
  lemma CheckValueCompletes(p: nat, modulus: nat, c: nat)
    requires 2 <= modulus && p < modulus && c < modulus
    ensures (p + CheckValue(p, modulus)) % modulus == 1
    ensures (p + c) % modulus == 1 <==> c == CheckValue(p, modulus)
  {
    if p == 0 {
      Arith.DivModUnique(modulus + 1, modulus, 1, 1);
    } else {
      Arith.DivModUnique(modulus - p + 1, modulus, if p == 1 then 1 else 0, if p == 1 then 0 else modulus - p + 1);
    }
    if p + c < modulus {
      Arith.DivModUnique(p + c, modulus, 0, p + c);
    } else {
      Arith.DivModUnique(p + c, modulus, 1, p + c - modulus);
    }
    var k := CheckValue(p, modulus);
    if p + k < modulus {
      Arith.DivModUnique(p + k, modulus, 0, p + k);
    } else {
      Arith.DivModUnique(p + k, modulus, 1, p + k - modulus);
    }
  }

  /** ISO 7064 pure-system check: the checked value sequence, read as a
      number base `radix`, is congruent to 1 modulo `modulus`. */
  lemma CheckedSumIsOne(ds: seq<nat>, radix: nat, modulus: nat, doubleDigit: bool)
    requires radix > 0 && modulus >= 2
    ensures WeightedSum(ds + CheckValues(ds, radix, modulus, doubleDigit), radix) % modulus == 1
  {
    AccumulateIsWeightedSum(ds, radix, modulus);
    if doubleDigit {
      DoubleCheckedSum(ds, radix, modulus);
    } else {
      var k := CheckValues(ds, radix, modulus, false)[0];
      var w := WeightedSum(ds, radix);
      CheckValueCompletes(Accumulate(ds, radix, modulus), modulus, k);
      WeightedSumSnoc(ds, k, radix);
      Arith.ModAddLeft(w * radix, k, modulus);
    }
  }

  lemma DoubleCheckedSum(ds: seq<nat>, radix: nat, modulus: nat)
    requires radix > 0 && modulus >= 2
    ensures WeightedSum(ds + CheckValues(ds, radix, modulus, true), radix) % modulus == 1
  {
    var cv := CheckValues(ds, radix, modulus, true);
    var w := WeightedSum(ds, radix);
    AccumulateIsWeightedSum(ds, radix, modulus);
    assert ds + cv == (ds + [cv[0]]) + [cv[1]];
    WeightedSumSnoc(ds, cv[0], radix);
    WeightedSumSnoc(ds + [cv[0]], cv[1], radix);
    DoubleDigitArithmetic(w, radix, modulus, cv[0], cv[1]);
  }

  /** The arithmetic core of the double-digit check: the two check digits
      complete the doubly shifted weighted sum to 1. */
  lemma DoubleDigitArithmetic(w: nat, radix: nat, modulus: nat, first: nat, second: nat)
    requires radix > 0 && modulus >= 2
    requires first * radix + second == CheckValue((((w * radix) % modulus) * radix) % modulus, modulus)
    ensures ((w * radix + first) * radix + second) % modulus == 1
  {
    var ww := w * radix;
    var q := ((ww % modulus) * radix) % modulus;
    var k := CheckValue(q, modulus);
    CheckValueCompletes(q, modulus, k);
    Arith.ModMulLeft(ww, radix, modulus);
    assert q == (ww * radix) % modulus;
    assert (ww + first) * radix + second == ww * radix + k;
    Arith.ModAddLeft(ww * radix, k, modulus);
  }

  /** In single-digit mode the check value is the only value below the
      modulus for which the checked sequence meets the ISO 7064 condition. */
  lemma CheckValueUnique(ds: seq<nat>, radix: nat, modulus: nat, c: nat)
    requires radix > 0 && modulus >= 2 && c < modulus
    ensures WeightedSum(ds + [c], radix) % modulus == 1 <==> [c] == CheckValues(ds, radix, modulus, false)
  {
    var w := WeightedSum(ds, radix);
    var p := Accumulate(ds, radix, modulus);
    AccumulateIsWeightedSum(ds, radix, modulus);
    WeightedSumSnoc(ds, c, radix);
    Arith.ModAddLeft(w * radix, c, modulus);
    CheckValueCompletes(p, modulus, c);
  }

  /** A checked string produced by the calculator over a duplicate-free
      alphabet satisfies the ISO 7064 pure-system condition. */
  lemma CheckDigitSatisfiesIso(value: string, radix: nat, modulus: nat, cs: string, doubleDigit: bool)
    requires radix > 0 && modulus >= 2 && Distinct(cs)
    requires CheckDigit(value, radix, modulus, cs, doubleDigit).Success?
    ensures Values(cs, CheckDigit(value, radix, modulus, cs, doubleDigit).value).Success?
    ensures WeightedSum(Values(cs, CheckDigit(value, radix, modulus, cs, doubleDigit).value).value, radix) % modulus == 1
  {
    var upper := Upcase(value);
    var ds := Values(cs, upper).value;
    var cv := CheckValues(ds, radix, modulus, doubleDigit);
    CharactersOfValues(cs, upper);
    CharactersAppend(cs, ds, cv);
    ValuesOfCharacters(cs, ds + cv);
    CheckedSumIsOne(ds, radix, modulus, doubleDigit);
  }

  /** Changing the value at position j changes the weighted sum by the
      difference times the place value radix^(n-1-j). */
  lemma {:induction false} WeightedSumSubstitution(ds: seq<nat>, es: seq<nat>, radix: nat, j: nat)
    requires |ds| == |es| && j < |ds|
    requires forall k | 0 <= k < |ds| && k != j :: ds[k] == es[k]
    ensures WeightedSum(ds, radix) - WeightedSum(es, radix) == (ds[j] as int - es[j] as int) * Pow(radix, |ds| - 1 - j)
    decreases |ds|
  {
    if j == 0 {
      assert ds[1..] == es[1..];
    } else {
      WeightedSumSubstitution(ds[1..], es[1..], radix, j - 1);
    }
  }

  /** A radix invertible modulo the modulus keeps non-multiples
      non-multiples under any power. */
  lemma {:induction false} PowCancels(x: int, radix: nat, inverse: nat, modulus: nat, e: nat)
    requires modulus > 0 && (radix * inverse) % modulus == 1
    requires (x * Pow(radix, e)) % modulus == 0
    ensures x % modulus == 0
    decreases e
  {
    if e == 0 {
      assert x * Pow(radix, e) == x;
    } else {
      assert x * Pow(radix, e) == (x * radix) * Pow(radix, e - 1);
      PowCancels(x * radix, radix, inverse, modulus, e - 1);
      Arith.Cancel(x, radix, inverse, modulus);
    }
  }

  /** ISO 7064 single-substitution detection: when the radix is invertible
      modulo the modulus, changing one value of a sequence that meets the
      check to another value below the modulus breaks the check. */
  lemma SubstitutionDetected(ds: seq<nat>, es: seq<nat>, radix: nat, modulus: nat, inverse: nat, j: nat)
    requires modulus >= 2 && (radix * inverse) % modulus == 1
    requires |ds| == |es| && j < |ds| && ds[j] != es[j] && ds[j] < modulus && es[j] < modulus
    requires forall k | 0 <= k < |ds| && k != j :: ds[k] == es[k]
    requires WeightedSum(ds, radix) % modulus == 1
    ensures WeightedSum(es, radix) % modulus != 1
  {
    if WeightedSum(es, radix) % modulus == 1 {
      var x := ds[j] as int - es[j] as int;
      WeightedSumSubstitution(ds, es, radix, j);
      Arith.ModEqualDiff(WeightedSum(ds, radix), WeightedSum(es, radix), modulus);
      PowCancels(x, radix, inverse, modulus, |ds| - 1 - j);
      Arith.SmallNonMultiple(x, modulus);
    }
  }
}
