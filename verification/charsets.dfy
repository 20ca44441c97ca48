/** The fixed alphabets of the engine, ASCII upcasing, and the mapping between
    characters and their values (zero-based positions in an alphabet). */
module CharSets {
  import opened Results

  const Numeric: string := "0123456789"
  const Mod112: string := "0123456789X"
  const Hex: string := "0123456789ABCDEF"
  const Alpha: string := "ABCDEFGHIJKLMNOPQRSTUVWXYZ"
  const Alphanumeric: string := "0123456789ABCDEFGHIJKLMNOPQRSTUVWXYZ"
  /** Defined by the library but used by none of its wrappers. */
  const Mod372: string := "0123456789ABCDEFGHIJKLMNOPQRSTUVWXYZ*"

  /** No character occurs twice, so a character's value is its only position. */
  predicate Distinct(cs: string) {
    forall i, j | 0 <= i < j < |cs| :: cs[i] != cs[j]
  }

  predicate IsLower(c: char) {
    'a' <= c <= 'z'
  }

  /** Upcasing leaves every character of the alphabet as it is. */
  predicate UpperStable(cs: string) {
    forall i | 0 <= i < |cs| :: !IsLower(cs[i])
  }

  /** ASCII upcasing of one character. */
  function UpcaseChar(c: char): (u: char)
    ensures !IsLower(u)
    ensures u == c <==> !IsLower(c)
    ensures IsLower(c) ==> u as int + 32 == c as int
  {
    if IsLower(c) then (c as int - 32) as char else c
  }

  function Upcase(s: string): (u: string)
    ensures |u| == |s|
    ensures forall i | 0 <= i < |s| :: u[i] == UpcaseChar(s[i])
  {
    seq(|s|, i requires 0 <= i < |s| => UpcaseChar(s[i]))
  }

  lemma UpcaseIdempotent(s: string)
    ensures Upcase(Upcase(s)) == Upcase(s)
  {
  }

  lemma UpcaseAppend(s: string, t: string)
    ensures Upcase(s + t) == Upcase(s) + Upcase(t)
  {
  }

  lemma UpcasePrefix(s: string, k: nat)
    requires k <= |s|
    ensures Upcase(s)[..k] == Upcase(s[..k])
  {
  }

  /** A string without lower-case letters is its own upcasing. */
  lemma UpcaseOfUpper(s: string)
    requires UpperStable(s)
    ensures Upcase(s) == s
  {
  }

  /** A non-empty sequence is its prefix followed by its last element. */
  lemma SplitLast<T>(s: seq<T>)
    requires |s| > 0
    ensures s[..|s| - 1] + [s[|s| - 1]] == s
  {
  }

  /** Position of the first occurrence of `c` in `cs` (Ruby's `String#index`);
      a character outside the alphabet is an error. */
  function IndexOf(cs: string, c: char): (r: Result<nat>)
    ensures r.Success? <==> c in cs
    ensures r.Success? ==> r.value < |cs| && cs[r.value] == c && c !in cs[..r.value]
    ensures r.Failure? ==> r.error == InvalidCharacter(c)
  {
    if |cs| == 0 then Failure(InvalidCharacter(c))
    else if cs[0] == c then Success(0)
    else
      var k :- IndexOf(cs[1..], c);
      assert cs[1..][..k] == cs[1..k + 1];
      Success(k + 1)
  }

  /** Values of the characters of `s`, looked up left to right; the first
      character outside the alphabet stops the lookup. */
  function Values(cs: string, s: string): (r: Result<seq<nat>>)
    ensures r.Success? <==> forall i | 0 <= i < |s| :: s[i] in cs
    ensures r.Success? ==> |r.value| == |s|
    ensures r.Success? ==> forall i | 0 <= i < |s| :: r.value[i] < |cs| && cs[r.value[i]] == s[i]
    ensures r.Failure? ==> r.error.InvalidCharacter? && r.error.c in s && r.error.c !in cs
    decreases |s|
  {
    if s == [] then Success([])
    else
      var init :- Values(cs, s[..|s| - 1]);
      var k :- IndexOf(cs, s[|s| - 1]);
      Success(init + [k])
  }

  /** Characters of the values `ks` (Ruby's `char_set[k]`); a value past the
      end of the alphabet is an error. */
  function Characters(cs: string, ks: seq<nat>): (r: Result<string>)
    ensures r.Success? <==> forall i | 0 <= i < |ks| :: ks[i] < |cs|
    ensures r.Success? ==> |r.value| == |ks| && forall i | 0 <= i < |ks| :: r.value[i] == cs[ks[i]]
    ensures r.Failure? ==> exists j | 0 <= j < |ks| :: r.error == UnencodableCheckDigit(ks[j]) && ks[j] >= |cs|
  {
    if ks == [] then Success([])
    else if ks[0] >= |cs| then Failure(UnencodableCheckDigit(ks[0]))
    else
      var rest :- Characters(cs, ks[1..]);
      Success([cs[ks[0]]] + rest)
  }

  /** Over a duplicate-free alphabet, a character has one position only. */
  lemma SamePosition(cs: string, k1: nat, k2: nat)
    requires Distinct(cs) && k1 < |cs| && k2 < |cs| && cs[k1] == cs[k2]
    ensures k1 == k2
  {
  }

  /** Looking up the characters of some values gives those values back. */
  lemma ValuesOfCharacters(cs: string, ks: seq<nat>)
    requires Distinct(cs)
    requires Characters(cs, ks).Success?
    ensures Values(cs, Characters(cs, ks).value) == Success(ks)
  {
    var s := Characters(cs, ks).value;
    var r := Values(cs, s);
    assert r.Success?;
    forall i | 0 <= i < |ks|
      ensures r.value[i] == ks[i]
    {
      SamePosition(cs, r.value[i], ks[i]);
    }
    assert r.value == ks;
  }

  /** The values of a prefix are the prefix of the values: the lookup of
      each character does not depend on the characters after it. */
  lemma {:induction false} ValuesPrefix(cs: string, s: string, k: nat)
    requires k <= |s| && Values(cs, s).Success?
    ensures Values(cs, s[..k]) == Success(Values(cs, s).value[..k])
    decreases |s|
  {
    if k == |s| {
      assert s[..k] == s;
      assert Values(cs, s).value[..k] == Values(cs, s).value;
    } else {
      var init := s[..|s| - 1];
      ValuesPrefix(cs, init, k);
      assert init[..k] == s[..k];
      var ds := Values(cs, init).value;
      assert Values(cs, s).value == ds + [IndexOf(cs, s[|s| - 1]).value];
      assert (ds + [IndexOf(cs, s[|s| - 1]).value])[..k] == ds[..k];
    }
  }

  /** Writing out the values of a string gives the string back. */
  lemma CharactersOfValues(cs: string, s: string)
    requires Values(cs, s).Success?
    ensures Characters(cs, Values(cs, s).value) == Success(s)
  {
    assert Characters(cs, Values(cs, s).value).value == s;
  }

  /** Writing out a concatenation writes out each part. */
  lemma CharactersAppend(cs: string, ks: seq<nat>, ls: seq<nat>)
    requires Characters(cs, ks).Success? && Characters(cs, ls).Success?
    ensures Characters(cs, ks + ls) == Success(Characters(cs, ks).value + Characters(cs, ls).value)
  {
    var a, b := Characters(cs, ks).value, Characters(cs, ls).value;
    assert forall i | 0 <= i < |ks + ls| :: (ks + ls)[i] < |cs| by {
      forall i | 0 <= i < |ks + ls|
        ensures (ks + ls)[i] < |cs|
      {
        if i < |ks| {
          assert (ks + ls)[i] == ks[i];
        } else {
          assert (ks + ls)[i] == ls[i - |ks|];
        }
      }
    }
    var c := Characters(cs, ks + ls).value;
    forall i | 0 <= i < |c|
      ensures c[i] == (a + b)[i]
    {
      if i < |ks| {
        assert (ks + ls)[i] == ks[i];
      } else {
        assert (ks + ls)[i] == ls[i - |ks|];
      }
    }
    assert c == a + b;
  }

  /** The values of a string extended by one character. */
  lemma ValuesSnoc(cs: string, s: string, c: char)
    ensures Values(cs, s + [c]) ==
      (match Values(cs, s)
       case Failure(e) => Failure(e)
       case Success(ds) => match IndexOf(cs, c)
         case Failure(e) => Failure(e)
         case Success(k) => Success(ds + [k]))
  {
    assert (s + [c])[..|s|] == s;
  }

  /** Once the lookup of a prefix has failed, the lookup of the whole string
      fails the same way. */
  lemma {:induction false} ValuesFailureExtends(cs: string, s: string, j: nat)
    requires j <= |s|
    requires Values(cs, s[..j]).Failure?
    ensures Values(cs, s) == Values(cs, s[..j])
    decreases |s|
  {
    if j < |s| {
      var init := s[..|s| - 1];
      assert init[..j] == s[..j];
      ValuesFailureExtends(cs, init, j);
      assert s == init + [s[|s| - 1]];
      ValuesSnoc(cs, init, s[|s| - 1]);
    } else {
      assert s[..j] == s;
    }
  }

  /** One step of a left-to-right lookup loop over `s`. */
  lemma ValuesStep(cs: string, s: string, n: nat, ds: seq<nat>)
    requires n < |s| && Values(cs, s[..n]) == Success(ds)
    ensures IndexOf(cs, s[n]).Success? ==> Values(cs, s[..n + 1]) == Success(ds + [IndexOf(cs, s[n]).value])
    ensures IndexOf(cs, s[n]).Failure? ==> Values(cs, s) == Failure(IndexOf(cs, s[n]).error)
  {
    assert s[..n + 1] == s[..n] + [s[n]];
    ValuesSnoc(cs, s[..n], s[n]);
    if IndexOf(cs, s[n]).Failure? {
      ValuesFailureExtends(cs, s, n + 1);
    }
  }

  /** Character code of the digit or letter with value `i` in the
      alphanumeric ordering 0-9, A-Z. */
  function Code(i: nat): (c: int) {
    if i < 10 then 48 + i else 55 + i
  }

  lemma NumericWellFormed()
    ensures |Numeric| == 10 && Distinct(Numeric) && UpperStable(Numeric)
  {
    assert forall i | 0 <= i < |Numeric| :: Numeric[i] as int == Code(i);
  }

  lemma Mod112WellFormed()
    ensures |Mod112| == 11 && Distinct(Mod112) && UpperStable(Mod112)
  {
    assert Mod112[10] == 'X';
    assert forall i | 0 <= i < 10 :: Mod112[i] as int == Code(i);
  }

  lemma HexWellFormed()
    ensures |Hex| == 16 && Distinct(Hex) && UpperStable(Hex)
  {
    assert forall i | 0 <= i < |Hex| :: Hex[i] as int == Code(i);
  }

  lemma AlphaWellFormed()
    ensures |Alpha| == 26 && Distinct(Alpha) && UpperStable(Alpha)
  {
    assert forall i | 0 <= i < |Alpha| :: Alpha[i] as int == Code(i + 10);
  }

  lemma AlphanumericWellFormed()
    ensures |Alphanumeric| == 36 && Distinct(Alphanumeric) && UpperStable(Alphanumeric)
  {
    assert forall i | 0 <= i < |Alphanumeric| :: Alphanumeric[i] as int == Code(i);
  }

  lemma Mod372WellFormed()
    ensures |Mod372| == 37 && Distinct(Mod372) && UpperStable(Mod372)
  {
    assert Mod372[36] == '*';
    assert forall i | 0 <= i < 36 :: Mod372[i] as int == Code(i);
  }
}
