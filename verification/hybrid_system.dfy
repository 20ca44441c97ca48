/** The ISO 7064 hybrid system MOD n+1,n over an alphabet of n characters:
    a running position in 1..n is advanced by each character's value (modulo
    n, with 0 written as n) and then doubled (modulo n+1). The check value
    brings the final advance to position 1. */
module HybridSystem {
  import opened Results
  import opened CharSets
  import Arith

  /** First half of an iteration: advance by the character's value, wrapping
      back by n once. */
  function Advance(pos: int, i: int, n: int): (t: int) {
    if pos + i > n then pos + i - n else pos + i
  }

  /** Second half of an iteration: double, reducing by n+1 once. */
  function Twice(t: int, n: int): (u: int) {
    if 2 * t >= n + 1 then 2 * t - (n + 1) else 2 * t
  }

  /** One iteration of the character loop. */
  function Step(pos: int, i: int, n: int): (next: int) {
    Twice(Advance(pos, i, n), n)
  }

  /** The running position after the loop has consumed `ds`, starting at n. */
  function Position(ds: seq<nat>, n: nat): (pos: nat)
    requires forall k | 0 <= k < |ds| :: ds[k] < n
    ensures pos <= n
    ensures n % 2 == 0 && n > 0 ==> 1 <= pos
    decreases |ds|
  {
    if ds == [] then n
    else Step(Position(ds[..|ds| - 1], n), ds[|ds| - 1], n)
  }

  /** The check value for a final position: n + 1 - pos, with n written as 0. */
  function CheckPosition(pos: nat, n: nat): (c: nat)
    requires pos <= n
    // the check value is a character value exactly when the position is in 1..n
    ensures c < n <==> 1 <= pos
  {
    var c := n + 1 - pos;
    if c == n then 0 else c
  }

  /** The calculator: the upcased value followed by its check character. */
  function CheckDigit(value: string, cs: string): (r: Result<string>)
    ensures value == [] ==> r == Failure(EmptyInput)
    ensures r.Success? ==> forall i | 0 <= i < |value| :: UpcaseChar(value[i]) in cs
    ensures r.Success? ==> |r.value| == |value| + 1
    ensures r.Success? ==> r.value[..|value|] == Upcase(value) && r.value[|value|] in cs
    ensures value != [] && !(forall i | 0 <= i < |value| :: UpcaseChar(value[i]) in cs) ==>
      r.Failure? && r.error.InvalidCharacter?
    // over an even-sized alphabet the check value always has a character
    ensures value != [] && (forall i | 0 <= i < |value| :: UpcaseChar(value[i]) in cs) && |cs| % 2 == 0 ==>
      r.Success?
  {
    if value == [] then Failure(EmptyInput)
    else
      var upper := Upcase(value);
      var ds :- Values(cs, upper);
      var check :- Characters(cs, [CheckPosition(Position(ds, |cs|), |cs|)]);
      Success(upper + check)
  }

  /** The position of the values of `upper`, or the error of the first
      character outside the alphabet. */
  function PositionString(upper: string, cs: string): (r: Result<nat>)
  {
    var ds :- Values(cs, upper);
    Success(Position(ds, |cs|))
  }

  /** The calculator's output in terms of the values of the upcased value. */
  lemma CheckDigitOfValues(value: string, cs: string, ds: seq<nat>)
    requires value != [] && |cs| % 2 == 0 && Values(cs, Upcase(value)) == Success(ds)
    ensures CheckPosition(Position(ds, |cs|), |cs|) < |cs|
    ensures CheckDigit(value, cs).Success?
    ensures CheckDigit(value, cs).value == Upcase(value) + [cs[CheckPosition(Position(ds, |cs|), |cs|)]]
  {
    var e := CheckPosition(Position(ds, |cs|), |cs|);
    assert Characters(cs, [e]).value == [cs[e]];
  }

  /** An upper-case string whose values meet the check is the calculator's
      output for the string without its last character. */
  lemma CheckedRecalculates(u: string, cs: string)
    requires Distinct(cs) && |cs| % 2 == 0 && |u| >= 2 && Upcase(u) == u
    requires Values(cs, u).Success? && Checks(Values(cs, u).value, |cs|)
    ensures CheckDigit(u[..|u| - 1], cs).Success?
    ensures CheckDigit(u[..|u| - 1], cs).value == u
  {
    var ds := Values(cs, u).value;
    var n := |u| - 1;
    var init := ds[..n];
    ValuesPrefix(cs, u, n);
    UpcasePrefix(u, n);
    SplitLast(ds);
    CheckValueSatisfiesIso(init, |cs|, ds[n]);
    CheckDigitOfValues(u[..n], cs, init);
    SplitLast(u);
  }

  /** The character loop: each character is looked up and moves the running
      position; the first unknown character stops it. */
  method PositionLoop(upper: string, cs: string) returns (r: Result<nat>)
    ensures r == PositionString(upper, cs)
  {
    var n := |cs|;
    var pos := n;
    ghost var ds: seq<nat> := [];
    var k := 0;
    while k < |upper|
      invariant k <= |upper|
      invariant Values(cs, upper[..k]) == Success(ds)
      invariant pos == Position(ds, n)
    {
      var index := IndexOf(cs, upper[k]);
      if index.Failure? {
        LoopStops(upper, cs, k, ds);
        return Failure(index.error);
      }
      var i := index.value;
      LoopStep(upper, cs, k, ds, i);
      pos := Iterate(pos, i, n);
      ds := ds + [i];
      k := k + 1;
    }
    LoopEnds(upper, cs, ds);
    return Success(pos);
  }

  /** One iteration of the loop on the running position: from a position
      in 1..n it is the ISO 7064 hybrid step, (pos + i) modulo n with 0
      written as n, then doubled modulo n + 1. */
  method Iterate(pos: int, i: int, n: int) returns (next: int)
    ensures next == Step(pos, i, n)
    ensures 1 <= pos <= n && 0 <= i < n ==> next == (2 * ((pos + i - 1) % n + 1)) % (n + 1)
    ensures n % 2 == 0 && 1 <= pos <= n && 0 <= i < n ==> 1 <= next <= n
  {
    next := pos + i;
    if next > n {
      next := next - n;
    }
    next := next * 2;
    if next >= n + 1 {
      next := next - (n + 1);
    }
    if 1 <= pos <= n && 0 <= i < n {
      StepIsModular(pos, i, n);
      StepInRange(pos, i, n);
    }
  }

  /** The calculator written as the loop plus check-character emission; it
      computes exactly `CheckDigit`. */
  method Calculate(value: string, cs: string) returns (r: Result<string>)
    ensures r == CheckDigit(value, cs)
  {
    if value == [] {
      return Failure(EmptyInput);
    }
    var upper := Upcase(value);
    var n := |cs|;
    var res := PositionLoop(upper, cs);
    if res.Failure? {
      return Failure(res.error);
    }
    var pos := res.value;
    pos := n + 1 - pos;
    if pos == n {
      pos := 0;
    }
    if pos >= n {
      return Failure(UnencodableCheckDigit(pos));
    }
    assert Characters(cs, [pos]).value == [cs[pos]];
    return Success(upper + [cs[pos]]);
  }

  lemma PositionSnoc(ds: seq<nat>, d: nat, n: nat)
    requires forall k | 0 <= k < |ds| :: ds[k] < n
    requires d < n
    ensures Position(ds + [d], n) == Step(Position(ds, n), d, n)
  {
    assert (ds + [d])[..|ds|] == ds;
  }

  lemma LoopStep(upper: string, cs: string, k: nat, ds: seq<nat>, i: nat)
    requires k < |upper| && Values(cs, upper[..k]) == Success(ds) && IndexOf(cs, upper[k]) == Success(i)
    ensures Values(cs, upper[..k + 1]) == Success(ds + [i])
    ensures Position(ds + [i], |cs|) == Step(Position(ds, |cs|), i, |cs|)
  {
    ValuesStep(cs, upper, k, ds);
    PositionSnoc(ds, i, |cs|);
  }

  lemma LoopStops(upper: string, cs: string, k: nat, ds: seq<nat>)
    requires k < |upper| && Values(cs, upper[..k]) == Success(ds) && IndexOf(cs, upper[k]).Failure?
    ensures PositionString(upper, cs) == Failure(IndexOf(cs, upper[k]).error)
  {
    ValuesStep(cs, upper, k, ds);
  }

  lemma LoopEnds(upper: string, cs: string, ds: seq<nat>)
    requires Values(cs, upper[..|upper|]) == Success(ds)
    ensures PositionString(upper, cs) == Success(Position(ds, |cs|))
  {
    assert upper[..|upper|] == upper;
  }

  /** The two halves of an iteration are the ISO 7064 modular operations:
      advancing is addition modulo n with 0 written as n, doubling is
      multiplication by 2 modulo n+1. */
  lemma StepIsModular(pos: nat, i: nat, n: nat)
    requires 1 <= pos <= n && i < n
    ensures Advance(pos, i, n) == (pos + i - 1) % n + 1
    ensures Twice(Advance(pos, i, n), n) == (2 * Advance(pos, i, n)) % (n + 1)
  {
    var t := Advance(pos, i, n);
    if pos + i > n {
      Arith.DivModUnique(pos + i - 1, n, 1, pos + i - 1 - n);
    } else {
      Arith.DivModUnique(pos + i - 1, n, 0, pos + i - 1);
    }
    if 2 * t >= n + 1 {
      Arith.DivModUnique(2 * t, n + 1, 1, 2 * t - (n + 1));
    } else {
      Arith.DivModUnique(2 * t, n + 1, 0, 2 * t);
    }
  }

  /** Advancing keeps a position in 1..n; doubling keeps it in 0..n, and
      with n even never reaches 0. */
  lemma StepInRange(pos: int, i: int, n: int)
    requires 1 <= pos <= n && 0 <= i < n
    ensures 1 <= Advance(pos, i, n) <= n
    ensures 0 <= Twice(Advance(pos, i, n), n) <= n
    ensures n % 2 == 0 ==> 1 <= Step(pos, i, n) <= n
  {
  }

  /** Over an alphabet of n >= 2 characters the check value is a character
      value, brings the final advance to position 1, and is the only
      character value that does. */
  lemma CheckPositionCompletes(pos: nat, n: nat, c: nat)
    requires 2 <= n && 1 <= pos <= n && c < n
    ensures CheckPosition(pos, n) < n
    ensures Advance(pos, CheckPosition(pos, n), n) == 1
    ensures Advance(pos, c, n) == 1 <==> c == CheckPosition(pos, n)
  {
  }

  /** ISO 7064 hybrid-system check of a checked value sequence: advancing
      the running position of the data by the last (check) value reaches 1. */
  predicate Checks(ds: seq<nat>, n: nat)
    requires forall k | 0 <= k < |ds| :: ds[k] < n
  {
    |ds| >= 1 && Advance(Position(ds[..|ds| - 1], n), ds[|ds| - 1], n) == 1
  }

  /** The check value appended by the calculator meets the ISO 7064 check,
      and no other character value does. */
  lemma CheckValueSatisfiesIso(ds: seq<nat>, n: nat, c: nat)
    requires n >= 2 && n % 2 == 0 && c < n
    requires forall k | 0 <= k < |ds| :: ds[k] < n
    ensures Checks(ds + [CheckPosition(Position(ds, n), n)], n)
    ensures Checks(ds + [c], n) <==> c == CheckPosition(Position(ds, n), n)
  {
    var pos := Position(ds, n);
    CheckPositionCompletes(pos, n, c);
    var e := CheckPosition(pos, n);
    assert (ds + [e])[..|ds|] == ds;
    assert (ds + [c])[..|ds|] == ds;
  }

  /** A checked string produced by the calculator over a duplicate-free
      alphabet of even size meets the ISO 7064 hybrid-system check. */
  lemma CheckDigitSatisfiesIso(value: string, cs: string)
    requires |cs| >= 2 && |cs| % 2 == 0 && Distinct(cs)
    requires CheckDigit(value, cs).Success?
    ensures Values(cs, CheckDigit(value, cs).value).Success?
    ensures Checks(Values(cs, CheckDigit(value, cs).value).value, |cs|)
  {
    var upper := Upcase(value);
    var ds := Values(cs, upper).value;
    var e := CheckPosition(Position(ds, |cs|), |cs|);
    CharactersOfValues(cs, upper);
    CharactersAppend(cs, ds, [e]);
    ValuesOfCharacters(cs, ds + [e]);
    CheckValueSatisfiesIso(ds, |cs|, 0);
  }

  /** With n even, an iteration is one-to-one in the running position and
      in the character value. */
  lemma StepInjective(pos1: nat, pos2: nat, i1: nat, i2: nat, n: nat)
    requires n % 2 == 0 && 1 <= pos1 <= n && 1 <= pos2 <= n && i1 < n && i2 < n
    requires Step(pos1, i1, n) == Step(pos2, i2, n)
    ensures pos1 == pos2 <==> i1 == i2
  {
  }

  /** Changing exactly one character value changes the final running
      position. */
  lemma {:induction false} SubstitutionMovesPosition(ds: seq<nat>, es: seq<nat>, n: nat, j: nat)
    requires n >= 2 && n % 2 == 0
    requires |ds| == |es| && j < |ds| && ds[j] != es[j]
    requires forall k | 0 <= k < |ds| :: ds[k] < n && es[k] < n
    requires forall k | 0 <= k < |ds| && k != j :: ds[k] == es[k]
    ensures Position(ds, n) != Position(es, n)
    decreases |ds|
  {
    var last := |ds| - 1;
    var p, q := Position(ds[..last], n), Position(es[..last], n);
    if j == last {
      assert ds[..last] == es[..last];
    } else {
      SubstitutionMovesPosition(ds[..last], es[..last], n, j);
    }
    if Step(p, ds[last], n) == Step(q, es[last], n) {
      StepInjective(p, q, ds[last], es[last], n);
    }
  }

  /** Different final positions give different check values. */
  lemma CheckPositionInjective(pos1: nat, pos2: nat, n: nat)
    requires 1 <= pos1 <= n && 1 <= pos2 <= n
    ensures CheckPosition(pos1, n) == CheckPosition(pos2, n) <==> pos1 == pos2
  {
  }

  /** Advancing by a fixed value is one-to-one in the running position. */
  lemma AdvanceInjective(pos1: nat, pos2: nat, i: nat, n: nat)
    requires 1 <= pos1 <= n && 1 <= pos2 <= n && i < n
    ensures Advance(pos1, i, n) == Advance(pos2, i, n) <==> pos1 == pos2
  {
  }

  /** ISO 7064 single-substitution detection: changing one value of a
      sequence that meets the hybrid-system check breaks the check. */
  lemma SubstitutionDetected(ds: seq<nat>, es: seq<nat>, n: nat, j: nat)
    requires n >= 2 && n % 2 == 0
    requires |ds| == |es| && j < |ds| && ds[j] != es[j]
    requires forall k | 0 <= k < |ds| :: ds[k] < n && es[k] < n
    requires forall k | 0 <= k < |ds| && k != j :: ds[k] == es[k]
    requires Checks(ds, n)
    ensures !Checks(es, n)
  {
    var last := |ds| - 1;
    var p, q := Position(ds[..last], n), Position(es[..last], n);
    if j == last {
      assert ds[..last] == es[..last];
      CheckPositionCompletes(p, n, ds[last]);
      CheckPositionCompletes(p, n, es[last]);
    } else {
      SubstitutionMovesPosition(ds[..last], es[..last], n, j);
      AdvanceInjective(p, q, ds[last], n);
    }
  }
}
