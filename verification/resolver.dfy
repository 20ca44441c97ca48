/** Choice of the ISO 7064 system (radix and modulus) for an alphabet and a
    check-character count. */
module Resolver {
  import opened Results
  import opened CharSets

  /** The arithmetic of one ISO 7064 system. */
  datatype System = System(radix: nat, modulus: nat) {

    /** The dispatch test: a modulus one above the radix selects the
        running-position algorithm, any other modulus the weighted-sum one. */
    predicate IsHybrid() {
      modulus == radix + 1
    }
  }

  /** The radices the engine accepts. */
  const Radices: set<nat> := {2, 10, 16, 26, 36}

  /** Double-digit moduli defined by ISO 7064 (MOD 97-10, MOD 661-26,
      MOD 1271-36), plus MOD 251,16 which the standard does not define. */
  const DoubleDigitModulus: map<nat, nat> := map[10 := 97, 16 := 251, 26 := 661, 36 := 1271]

  /** Alphabet sizes and modes the resolver accepts, stated on the size alone. */
  predicate Supported(size: nat, doubleDigit: bool) {
    size in Radices || (!doubleDigit && (size == 11 || size == 37))
  }

  function RadixAndModulus(cs: string, doubleDigit: bool): (r: Result<System>)
    ensures r.Success? <==> Supported(|cs|, doubleDigit)
    ensures r.Failure? ==> r.error == InvalidCharacterSet(|cs|)
    ensures r.Success? ==> r.value.radix in Radices && r.value.radix < r.value.modulus
    // the running-position algorithm works on the whole, even-sized alphabet
    ensures r.Success? && r.value.IsHybrid() ==> r.value.radix == |cs| && |cs| % 2 == 0
    ensures r.Success? && r.value.IsHybrid() && doubleDigit ==> |cs| == 2
    // one weighted-sum check character: every residue has a character
    ensures r.Success? && !r.value.IsHybrid() && !doubleDigit ==>
      r.value.radix == 2 && r.value.modulus == |cs|
    // two weighted-sum check characters: every residue has two digits base radix
    ensures r.Success? && !r.value.IsHybrid() && doubleDigit ==>
      r.value.radix == |cs| && r.value.modulus <= r.value.radix * r.value.radix
    // the table, on the alphabet size: single-digit MOD n+1,n, MOD 11-2 and MOD 37-2
    ensures !doubleDigit && |cs| in Radices ==> r.Success? && r.value == System(|cs|, |cs| + 1)
    ensures !doubleDigit && (|cs| == 11 || |cs| == 37) ==> r.Success? && r.value == System(2, |cs|)
    // double-digit MOD 3,2, MOD 97-10, MOD 251,16, MOD 661-26 and MOD 1271-36
    ensures doubleDigit && |cs| == 2 ==> r.Success? && r.value == System(2, 3)
    ensures doubleDigit && |cs| == 10 ==> r.Success? && r.value == System(10, 97)
    ensures doubleDigit && |cs| == 16 ==> r.Success? && r.value == System(16, 251)
    ensures doubleDigit && |cs| == 26 ==> r.Success? && r.value == System(26, 661)
    ensures doubleDigit && |cs| == 36 ==> r.Success? && r.value == System(36, 1271)
  {
    var size := |cs|;
    var sys :=
      if doubleDigit then
        System(size, if size in DoubleDigitModulus then DoubleDigitModulus[size] else size + 1)
      else if size == 11 then System(2, 11)
      else if size == 37 then System(2, 37)
      else System(size, size + 1);
    if sys.radix !in Radices then Failure(InvalidCharacterSet(size))
    else Success(sys)
  }

  /** The systems of the library's alphabets: the four single-digit systems
      take the running-position path, MOD 11-2, MOD 37-2 and every
      double-digit system the weighted-sum path. */
  lemma SystemTable()
    ensures RadixAndModulus(Numeric, false) == Success(System(10, 11))
    ensures RadixAndModulus(Numeric, true) == Success(System(10, 97))
    ensures RadixAndModulus(Hex, false) == Success(System(16, 17))
    ensures RadixAndModulus(Hex, true) == Success(System(16, 251))
    ensures RadixAndModulus(Alpha, false) == Success(System(26, 27))
    ensures RadixAndModulus(Alpha, true) == Success(System(26, 661))
    ensures RadixAndModulus(Alphanumeric, false) == Success(System(36, 37))
    ensures RadixAndModulus(Alphanumeric, true) == Success(System(36, 1271))
    ensures RadixAndModulus(Mod112, false) == Success(System(2, 11))
    ensures RadixAndModulus(Mod112, true) == Failure(InvalidCharacterSet(11))
    ensures RadixAndModulus(Mod372, false) == Success(System(2, 37))
    ensures RadixAndModulus(Mod372, true) == Failure(InvalidCharacterSet(37))
  {
    NumericWellFormed();
    Mod112WellFormed();
    HexWellFormed();
    AlphaWellFormed();
    AlphanumericWellFormed();
    Mod372WellFormed();
  }
}
