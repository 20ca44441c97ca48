# ISO 7064 check characters in Dafny

This project models the check-character engine of the Ruby `ISO7064` class
(`lib/iso7064.rb`) and proves properties of the model. The class has two
operations:

- `calculate_check_digit(value, char_set, double_digit)` appends one or two
  check characters to an identifier.
- `verify_check_digit` recalculates those characters and compares.

The engine has three parts. Each is a Dafny module:

- **Resolver** (`resolver.dfy`). It maps an alphabet and a digit mode to a
  radix and a modulus. An alphabet of size n gives MOD n+1,n in
  single-digit mode. The 11- and 37-character alphabets give MOD 11-2 and
  MOD 37-2. Double-digit mode gives MOD 97-10, 251-16, 661-26 or 1271-36.
  Any radix other than 2, 10, 16, 26 or 36 raises.
- **Pure system** (`pure_system.dfy`). This is the weighted-sum
  algorithm. Each character's value is folded into `((p + i) * radix) %
  modulus`. The check value `(modulus - p + 1) % modulus` completes the
  whole string to a residue of 1.
- **Hybrid system** (`hybrid_system.dfy`). This is the running-position
  algorithm. A position in 1..n is advanced by each value modulo n and
  then doubled modulo n+1. The check value brings the last advance to 1.

`iso7064.dfy` holds the dispatcher, the verifiers and the eight
per-alphabet wrappers. `charsets.dfy` holds the alphabets, ASCII upcasing,
and the lookups between characters and values. `arith.dfy` holds modular
arithmetic lemmas. `results.dfy` holds the `Result` type. `vectors.dfy`
holds the library's published MOD 11,10 examples.

Routing follows the code, `modulus != radix + 1`:

- MOD 11-2, MOD 37-2 and every double-digit system take the weighted-sum
  path.
- The four single-digit wrapper systems (MOD 11,10, 17,16, 27,26 and
  37,36) take the running-position path.

This matches ISO 7064's own naming. MOD 11-2, MOD 37-2 and the
double-digit systems are pure systems. MOD 11,10, 17,16, 27,26 and 37,36
are hybrid systems. (MOD 17,16 and MOD 251,16 are not in the standard;
the library adds them for its hex alphabet.) The code's method names agree:
`calculate_pure_system_check_digit` and
`calculate_hybrid_system_check_digit`.

Ruby's failures are modelled as a `Result`:

- `nil` for an empty value becomes `EmptyInput`.
- The `TypeError` from `p + nil`, for a character outside the alphabet,
  becomes `InvalidCharacter`.
- `raise 'Invalid character set'` becomes `InvalidCharacterSet`.
- The `TypeError` from appending `char_set[k] == nil` becomes
  `UnencodableCheckDigit`.
- The `NameError` from the bare name `null` becomes `UndefinedName`.

The main properties proved:

- Over a duplicate-free alphabet, each system's calculator output meets
  that system's ISO 7064 check.
- The verifier (with the corrected `null` guard, see Findings) accepts
  exactly the values whose upcased data part the calculator turns into
  the upcased value.
- Over a duplicate-free alphabet, every accepted string meets the check.
- In single-digit mode, over a duplicate-free alphabet, the converse
  holds for strings of at least two characters. A one-character string
  such as "1" may meet the check, but it is rejected as too short.
- Over a duplicate-free alphabet, every supported system detects every
  single-character substitution. A character outside the alphabet is
  covered too.
- The round trip (the verifier accepts the calculator's output) holds
  when the alphabet has no lower-case letters. It also needs the
  calculator to append as many characters as the verifier strips, which
  fails only for a two-character alphabet in double-digit mode.
  - With a lower-case letter in the alphabet it fails. Calculating "B"
    over "ABCDEFGHIj" gives "Bj". The verifier upcases it to "BJ" and
    rejects it.
  - A two-character alphabet in double-digit mode routes to the
    running-position path. There it gets one check character, while the
    verifier strips two.
- Each loop-based method computes exactly its functional definition.

## Model

| member | source | states |
|---|---|---|
| CharSets.NumericWellFormed | lib/iso7064.rb:2 | the numeric alphabet has 10 distinct characters, none lower-case |
| CharSets.Mod112WellFormed | lib/iso7064.rb:3 | the MOD 11-2 alphabet has 11 distinct characters, none lower-case |
| CharSets.HexWellFormed | lib/iso7064.rb:4 | the hex alphabet has 16 distinct characters, none lower-case |
| CharSets.AlphaWellFormed | lib/iso7064.rb:5 | the alpha alphabet has 26 distinct characters, none lower-case |
| CharSets.AlphanumericWellFormed | lib/iso7064.rb:6 | the alphanumeric alphabet has 36 distinct characters, none lower-case |
| CharSets.Mod372WellFormed | lib/iso7064.rb:7 | the MOD 37-2 alphabet has 37 distinct characters, none lower-case |
| CharSets.Upcase | lib/iso7064.rb:23 | upcasing keeps the length and upcases every character |
| CharSets.UpcaseChar | lib/iso7064.rb:23 | upcasing changes exactly the lower-case ASCII letters, to the letter 32 code points below |
| CharSets.UpcaseIdempotent | lib/iso7064.rb:23 | upcasing an upcased value changes nothing |
| CharSets.UpcasePrefix | lib/iso7064.rb:78-79 | upcasing and then cutting off the check characters equals cutting and then upcasing |
| CharSets.IndexOf | lib/iso7064.rb:27 | the lookup succeeds exactly for characters of the alphabet, giving the first position holding that character; otherwise it fails naming the character |
| CharSets.Values | lib/iso7064.rb:26-30 | looking up a string succeeds exactly when every character is in the alphabet, giving each character's position; otherwise it fails naming a character absent from the alphabet |
| CharSets.Characters | lib/iso7064.rb:39-41 | writing out values succeeds exactly when each is below the alphabet size, giving the characters at those positions; otherwise it fails naming an out-of-range value |
| CharSets.ValuesOfCharacters | lib/iso7064.rb:27-41 | over a duplicate-free alphabet, looking up written-out values gives the values back |
| CharSets.CharactersOfValues | lib/iso7064.rb:27-41 | writing out the values of a string gives the string back |
| CharSets.ValuesPrefix | lib/iso7064.rb:79 | over any alphabet, the values of the data part are the prefix of the values of the whole string |
| Resolver.RadixAndModulus | lib/iso7064.rb:130-154 | resolution succeeds exactly for supported sizes and modes, otherwise fails with the size; a resolved radix is in {2,10,16,26,36} and below the modulus; a running-position system uses the whole even-sized alphabet as its radix; single-digit weighted-sum systems are radix 2 with modulus = alphabet size; double-digit weighted-sum moduli have at most two digits in the radix; the table on the alphabet size: single-digit MOD n+1,n for n in {2,10,16,26,36}, MOD 11-2 and MOD 37-2 for sizes 11 and 37, double-digit MOD 3,2, 97-10, 251,16, 661-26 and 1271-36 |
| Resolver.SystemTable | lib/iso7064.rb:130-154 | the radix and modulus of each library alphabet in each mode, including the failures for the 11- and 37-character alphabets in double-digit mode |
| PureSystem.Step | lib/iso7064.rb:29 | one iteration leaves the accumulator below the modulus |
| PureSystem.Accumulate | lib/iso7064.rb:24-30 | the accumulator stays below the modulus after any number of characters |
| PureSystem.CheckValue | lib/iso7064.rb:34 | the check value is below the modulus |
| PureSystem.AccumulateIsWeightedSum | lib/iso7064.rb:24-30 | the loop's accumulator is the ISO 7064 weighted sum of the values (value times radix to the power of its distance from the end), shifted one place, modulo the modulus |
| PureSystem.Split | lib/iso7064.rb:37-38 | the two check digits recompose the check value in the radix; the second is below the radix, the first too when the value has two digits |
| PureSystem.CheckValues | lib/iso7064.rb:32-42 | one check value below the modulus, or two digits below the radix recomposing a value below the modulus |
| PureSystem.CheckDigit | lib/iso7064.rb:20-43 | an empty value fails; success requires every upcased character in the alphabet and yields the upcased value followed by 1 or 2 alphabet characters; an unknown character fails; when every residue has a character, every value over the alphabet succeeds |
| PureSystem.CheckDigitOfValues | lib/iso7064.rb:34-41 | in single-digit mode the appended character is the one at the check value of the accumulated values |
| PureSystem.AccumulateLoop | lib/iso7064.rb:24-30 | the character loop computes the accumulator of the upcased value's values, or the error of the first unknown character |
| PureSystem.Calculate | lib/iso7064.rb:20-43 | the method with the loop returns exactly the calculator's result, error cases included |
| PureSystem.CheckValueCompletes | lib/iso7064.rb:34 | the check value completes the accumulator to 1 modulo the modulus, and is the only value below the modulus that does |
| PureSystem.CheckedSumIsOne | lib/iso7064.rb:32-42 | the values followed by their check value(s), read as a number in the radix, are congruent to 1 modulo the modulus, in both modes |
| PureSystem.DoubleDigitArithmetic | lib/iso7064.rb:32-38 | the two double-digit check digits complete the doubly shifted sum to 1 |
| PureSystem.CheckValueUnique | lib/iso7064.rb:34 | in single-digit mode a value below the modulus meets the ISO check exactly when it is the computed check value |
| PureSystem.CheckedRecalculates | lib/iso7064.rb:20-43 | an upper-case string meeting the single-digit check is the calculator's output for its data part |
| PureSystem.CheckDigitSatisfiesIso | lib/iso7064.rb:20-43 | every calculated string over a duplicate-free alphabet meets the ISO 7064 pure-system check |
| PureSystem.WeightedSumSubstitution | lib/iso7064.rb:26-30 | changing one value shifts the weighted sum by the difference times that position's place value |
| PureSystem.PowCancels | lib/iso7064.rb:29 | with an invertible radix, a multiple of the modulus times a power of the radix was already a multiple |
| PureSystem.SubstitutionDetected | lib/iso7064.rb:26-34 | with an invertible radix, changing one value of a sequence that meets the check to another value below the modulus breaks the check |
| HybridSystem.Position | lib/iso7064.rb:51-60 | the running position stays within 1..n over an even non-empty alphabet |
| HybridSystem.CheckDigit | lib/iso7064.rb:46-65 | an empty value fails; success requires every upcased character in the alphabet and yields the upcased value followed by one alphabet character; an unknown character fails; over an even-sized alphabet every value over the alphabet succeeds |
| HybridSystem.CheckDigitOfValues | lib/iso7064.rb:62-64 | the appended character is the one at the check position of the final running position, and that position is inside the alphabet |
| HybridSystem.PositionLoop | lib/iso7064.rb:51-60 | the character loop computes the running position of the upcased value's values, or the error of the first unknown character |
| HybridSystem.Iterate | lib/iso7064.rb:56-59 | from a position in 1..n, one in-place iteration is (pos + i) modulo n with 0 written as n, then doubled modulo n+1, and with n even the result stays in 1..n |
| HybridSystem.StepInRange | lib/iso7064.rb:56-59 | Advance, Twice and Step: advancing keeps a position in 1..n, doubling keeps it in 0..n, and with n even a step never leaves 1..n |
| HybridSystem.Calculate | lib/iso7064.rb:46-65 | the method with the loop returns exactly the calculator's result, error cases included |
| HybridSystem.StepIsModular | lib/iso7064.rb:56-59 | advancing is addition modulo n with 0 written as n, and doubling is multiplication by 2 modulo n+1 |
| HybridSystem.CheckPosition | lib/iso7064.rb:62-63 | the check value is a character value exactly when the final position is in 1..n |
| HybridSystem.CheckPositionCompletes | lib/iso7064.rb:62-63 | the check value is a character value, brings the final advance to position 1, and is the only value that does |
| HybridSystem.CheckValueSatisfiesIso | lib/iso7064.rb:53-64 | the values followed by the computed check value meet the hybrid check, and no other appended value does |
| HybridSystem.CheckedRecalculates | lib/iso7064.rb:46-65 | an upper-case string meeting the hybrid check is the calculator's output for its data part |
| HybridSystem.CheckDigitSatisfiesIso | lib/iso7064.rb:46-65 | every calculated string over a duplicate-free even-sized alphabet meets the ISO 7064 hybrid-system check |
| HybridSystem.StepInjective | lib/iso7064.rb:56-59 | with n even, one iteration that reaches the same position from two starts uses equal values exactly when the starts are equal |
| HybridSystem.SubstitutionMovesPosition | lib/iso7064.rb:53-60 | changing exactly one value changes the final running position |
| HybridSystem.CheckPositionInjective | lib/iso7064.rb:62-63 | different final positions give different check values |
| HybridSystem.AdvanceInjective | lib/iso7064.rb:56-57 | advancing by a fixed value is one-to-one in the position |
| HybridSystem.SubstitutionDetected | lib/iso7064.rb:53-64 | changing one value of a sequence that meets the hybrid check breaks the check |
| Iso7064.CalculateCheckDigit | lib/iso7064.rb:9-17 | an unsupported alphabet fails with its size before the value is examined; an empty value fails; otherwise success exactly when every upcased character is in the alphabet; the output is the upcased value followed by 2 alphabet characters in double-digit mode (1 for a two-character alphabet) or 1 otherwise |
| Iso7064.NumDigits | lib/iso7064.rb:74 | the verifier strips two characters in double-digit mode and one otherwise |
| Iso7064.StripMatchesEmit | lib/iso7064.rb:74 | the verifier strips as many characters as the calculator appends, except for a two-character alphabet in double-digit mode |
| Iso7064.DispatchShape | lib/iso7064.rb:12-16 | CheckDigitBySystem: the dispatch on `modulus != radix + 1` fails on an empty value, and otherwise yields the upcased value followed by two check characters on the weighted-sum path in double-digit mode, or one otherwise (the running-position path ignores the mode) |
| Iso7064.CompareWithNull | lib/iso7064.rb:76 | comparing with `null` fails exactly when no `null` is defined, and no string equals nil |
| Iso7064.RecalculatedKeepsDataPart | lib/iso7064.rb:78-85 | Recalculated: the recalculation of the data part keeps the upcased data part, so the comparison can only differ in the check characters |
| Iso7064.VerifyByRadixAndModulusAsWritten | lib/iso7064.rb:73-86 | with the guard as written, every call fails on the undefined name `null`; with a definition of `null` returning nil, it behaves as the corrected verifier |
| Iso7064.VerifyByRadixAndModulus | lib/iso7064.rb:73-86 | with the corrected guard (see Findings): a value no longer than its check characters is rejected; otherwise the value is accepted exactly when recalculating its data part yields the upcased value, and the result is an error exactly when that recalculation is |
| Iso7064.VerifyCheckDigit | lib/iso7064.rb:68-71 | with the corrected guard (see Findings): an unsupported alphabet fails even for a short value; a short value is rejected; a value is accepted exactly when the calculator applied to its upcased data part yields the upcased value; an error arises exactly when the data part has a character outside the alphabet |
| Iso7064.RecalculatedIsCalculation | lib/iso7064.rb:69-85 | the verifier's recalculation with the resolved system is the calculator applied to the upcased data part |
| Iso7064.RecalculatedByResolvedSystem | lib/iso7064.rb:69-85 | the verifier's recalculation with the resolved system is the calculator applied to the data part, and it succeeds exactly when the data part is over the alphabet |
| Iso7064.CalculateNumericCheckDigit | lib/iso7064.rb:89-91 | the numeric calculator is MOD 11,10 on the running-position path, or MOD 97,10 on the weighted-sum path |
| Iso7064.VerifyNumericCheckDigit | lib/iso7064.rb:94-96 | with the corrected guard (see Findings), the numeric verifier checks MOD 11,10 or MOD 97,10 |
| Iso7064.CalculateHexCheckDigit | lib/iso7064.rb:99-101 | the hex calculator is MOD 17,16 on the running-position path, or MOD 251,16 on the weighted-sum path |
| Iso7064.VerifyHexCheckDigit | lib/iso7064.rb:104-106 | with the corrected guard (see Findings), the hex verifier checks MOD 17,16 or MOD 251,16 |
| Iso7064.CalculateAlphaCheckDigit | lib/iso7064.rb:109-111 | the alpha calculator is MOD 27,26 on the running-position path, or MOD 661,26 on the weighted-sum path |
| Iso7064.VerifyAlphaCheckDigit | lib/iso7064.rb:114-116 | with the corrected guard (see Findings), the alpha verifier checks MOD 27,26 or MOD 661,26 |
| Iso7064.CalculateAlphanumericCheckDigit | lib/iso7064.rb:119-121 | the alphanumeric calculator is MOD 37,36 on the running-position path, or MOD 1271,36 on the weighted-sum path |
| Iso7064.VerifyAlphanumericCheckDigit | lib/iso7064.rb:124-126 | with the corrected guard (see Findings), the alphanumeric verifier checks MOD 37,36 or MOD 1271,36 |
| Iso7064.CalculateUpcase | lib/iso7064.rb:23 | upcasing the value before calculating changes nothing |
| Iso7064.RoundTrip | lib/iso7064.rb:9-86 | over an alphabet without lower-case letters, the verifier accepts every calculator output, except for a two-character alphabet in double-digit mode |
| Iso7064.BinaryDoubleDigitNeverVerifies | lib/iso7064.rb:12-15 | for a two-character alphabet in double-digit mode the verifier accepts nothing |
| Iso7064.VerifiedSuffixUnique | lib/iso7064.rb:73-86 | two accepted strings of equal length with the same data part are equal up to case |
| Iso7064.AcceptedMeetsIso | lib/iso7064.rb:68-86 | every accepted string meets the ISO 7064 check of its resolved system |
| Iso7064.IsoAccepted | lib/iso7064.rb:68-86 | in single-digit mode every string of two or more characters that meets the ISO 7064 check is accepted |
| Iso7064.IsoRecalculates | lib/iso7064.rb:78-85 | in single-digit mode, recalculating the data part of a string meeting the check gives the upcased string back |
| Iso7064.RadixInvertible | lib/iso7064.rb:130-154 | every weighted-sum system the resolver produces has a radix invertible modulo its modulus |
| Iso7064.ValuesDifferAt | lib/iso7064.rb:26-27 | two strings that differ up to case in one position only have values that differ in that position only |
| Iso7064.SubstitutionRejected | lib/iso7064.rb:68-86 | over a duplicate-free alphabet, replacing one character of an accepted string by any character that differs from it up to case, inside the alphabet or not, gives a string the verifier does not accept, for every supported system |
| Vectors.Example036532 | spec/iso7064_spec.rb:6 | MOD 11,10 of "036532" is "0365323" |
| Vectors.Example0794 | spec/iso7064_spec.rb:7 | MOD 11,10 of "0794" is "07945" |
| Vectors.Example1000000000001 | spec/iso7064_spec.rb:8 | MOD 11,10 of "1000000000001" is "10000000000011" |
| Vectors.Example1000000000002 | spec/iso7064_spec.rb:9 | MOD 11,10 of "1000000000002" is "10000000000020" |
| Vectors.Example1000000000003 | spec/iso7064_spec.rb:10 | MOD 11,10 of "1000000000003" is "10000000000038" |
| Vectors.Example1000000000004 | spec/iso7064_spec.rb:11 | MOD 11,10 of "1000000000004" is "10000000000046" |
| Vectors.VerifyExample | lib/iso7064.rb:94-96 | the corrected numeric verifier accepts "0365323" and rejects "0365324" |
| Vectors.NullGuardRejectsExample | lib/iso7064.rb:76 | the verifier as written fails on "0365323", which the corrected verifier accepts |

## Left out

- Upcasing covers ASCII `a`-`z` only. Ruby's `String#upcase` also maps
  non-ASCII characters, and that changes results. 'ſ' becomes 'S' and 'ı'
  becomes 'I'. 'ß' becomes "SS", which changes the length. So
  `calculate_alph_check_digit("ſ", false)` succeeds in Ruby but fails in
  the model with `InvalidCharacter`.
- The library spells its alpha calculator `calculate_alph_check_digit`
  (line 109) and its alpha verifier `verify_alpha_check_digit` (line 114).
  The model names both `Alpha`: Iso7064.CalculateAlphaCheckDigit and
  Iso7064.VerifyAlphaCheckDigit.
- A `nil` value (`value.nil?`, lines 21 and 47) is left out: a Dafny
  string cannot be nil. The empty value is modelled.
- The `return nil if i == -1` guards (lines 28 and 55) are unreachable,
  because `String#index` returns `nil`, not -1. The model follows what
  happens instead: the addition raises.
- Iso7064.VerifyByRadixAndModulus: requires a positive radix and modulus.
  The public Ruby method accepts any integers, and the requires excludes
  both inputs that raise and inputs Ruby computes normally:
  - A zero modulus, or a zero radix in double-digit mode, raises
    `ZeroDivisionError`.
  - A zero radix in single-digit mode does not raise. The accumulator
    stays 0 and the check value is `1 % modulus`, so for a value over the
    alphabet and a modulus above 1 Ruby appends `char_set[1]`.
  - A negative radix or modulus does not raise either. Ruby's `%` rounds
    toward negative infinity and still returns a result; the model's
    arithmetic is not stated for it.

  The same holds for Iso7064.VerifyByRadixAndModulusAsWritten,
  PureSystem.CheckDigit and PureSystem.Calculate. The library's own entry
  points always pass a positive radix and modulus from the resolver.
- Iso7064.VerifyCheckDigit: models the verifier with the corrected `null`
  guard, as do the four verify wrappers and Iso7064.VerifyByRadixAndModulus.
  As written, each of these calls raises `NameError` (see Findings and
  Iso7064.VerifyByRadixAndModulusAsWritten).
- Iso7064.IsoAccepted: stated for single-digit mode only. In double-digit
  mode the converse is false. With MOD 97-10 a final pair such as `98`
  meets the check (98 is congruent to 1 modulo 97), but the calculator
  writes `01`.
- The class wrapper, the `private` marker and Ruby's exceptions are not
  modelled as such: each operation is a pure function returning a
  `Result`.
- The comment on `verify_hex_check_digit` (line 103) names MOD 11,10.
  The code checks MOD 17,16 / MOD 251,16, and the model follows the code.

## Findings

| source | as written | input that shows it | evidently intended | confidence | as-written member | corrected member |
|---|---|---|---|---|---|---|
| lib/iso7064.rb:76 | `return false if (value == null \|\| ...)`; Ruby has no `null`, so the bare name is an undefined method call and raises `NameError` before the length test | `verify_numeric_check_digit("0365323", false)` raises instead of returning true | a nil test (`value.nil?`), after which "0365323" is accepted | not executed | Iso7064.VerifyByRadixAndModulusAsWritten, Vectors.NullGuardRejectsExample | Iso7064.VerifyByRadixAndModulus |
