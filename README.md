# Self-repeated number validator

A Dafny model of `RepeatedNumbersValidation`, a small Swift class that
takes an array of integers and reports the largest value occurring in the
array exactly as many times as its own value (a *self-repeated* number),
or `-1` when there is none.

The class stores its input in an immutable `numbers` array. At
construction it walks the array once (`validateNumbers`). Each value that
is in neither of its two mutable arrays is counted over the whole input
(`countRepeat`). It then goes into `repeatedNumbers` when the count equals
the value, and into `numbersNotRepeated` otherwise (`append`). The query
`getValidatedNumber` sorts `repeatedNumbers` in descending order and
returns the first element, or `-1` when the array is empty.

The project has two modules:

- `SelfRepeat` (`self_repeat.dfy`) is the pure specification:
  - `Count` is the multiplicity of a value;
  - `FirstOccurrences` gives the distinct values in first-occurrence order;
  - `Classified` splits a sequence of values by the self-repeated test;
  - `SelfRepeated` and `NotSelfRepeated` are the two lists the class
    builds;
  - `MaxOrSentinel` is the query's selection and `ValidatedNumber` the
    answer.

  The module also holds lemmas about all of these: the partition, the
  positivity of qualifying values, sort-then-first equals maximum, and the
  worked examples.
- `Validation` (`validation.dfy`) is the class itself. It has the same
  fields, a constructor that runs `ValidateNumbers` (a `for` loop with
  invariants over both arrays), the `Append` method, and the queries as
  functions that read the object.

The helper `isAlreadyValidated` returns true when a value has **not** been
classified yet. The guard in `validateNumbers` therefore lets through
exactly the unclassified values. The model keeps both the name and this
behaviour (`IsAlreadyValidated`). `GuardLetsThroughUnseen`, called in
every iteration of the pass, proves that under the loop invariant the guard
on the `i`-th value holds exactly when that value did not occur among the
first `i` values.

## Model

| member | source | states |
|---|---|---|
| `Validation.RepeatedNumbersValidation.constructor` | Contents.swift:16-19 | stores the input unchanged and returns with `repeatedNumbers` and `numbersNotRepeated` equal to the self-repeated and the other distinct values of the input, in first-occurrence order |
| `Validation.RepeatedNumbersValidation.ValidateNumbers` | Contents.swift:32-37 | starting from two empty lists, one pass leaves them equal to the two classifications of the input (loop invariant: after `i` elements they classify the distinct values of the first `i`) |
| `Validation.RepeatedNumbersValidation.Append` | Contents.swift:38-40 | appends the value to `repeatedNumbers` when its count equals it, otherwise to `numbersNotRepeated`, and leaves the other list unchanged |
| `Validation.RepeatedNumbersValidation.IsAlreadyValidated` | Contents.swift:41-43 | true exactly when the value is in neither list, that is, not yet classified |
| `Validation.RepeatedNumbersValidation.IsValidRepeatedNumber` | Contents.swift:44-46 | true exactly when the value's multiplicity in the input equals the value; such a value is non-negative, and present in the input unless it is 0 |
| `Validation.RepeatedNumbersValidation.CountRepeat` | Contents.swift:47-49 | the multiplicity of the value in the input, at most the input's length |
| `Validation.RepeatedNumbersValidation.GetMostRepeatedNumber` | Contents.swift:29-31 | `-1` for an empty `repeatedNumbers`, otherwise an element of it that no element exceeds |
| `Validation.RepeatedNumbersValidation.GetValidatedNumber` | Contents.swift:23-25 | on a constructed validator: `-1` exactly when no input value's count equals it; otherwise a present value whose count equals it and that is at least every such value |
| `Validation.GuardLetsThroughUnseen` | Contents.swift:33-35 | with both lists holding the classification of the first `i` values, the guard on value `i` holds exactly when it does not occur among the first `i` values |
| `Validation.AnswerDependsOnlyOnInput` | Contents.swift:14 | two validators over the same numbers give the same answer; the query reads the object and changes nothing, so repeated calls agree |
| `Validation.SampleRun` | Contents.swift:53-55 | the program's sample run on `[1, 1, 2, 2, 3, 3, 3]` yields 3 |
| `SelfRepeat.Count` | Contents.swift:47-48 | equals the value's multiplicity in the sequence, is at most its length, and is positive exactly when the value occurs |
| `SelfRepeat.FirstOccurrences` | Contents.swift:33-36 | holds exactly the values of the input, each once |
| `SelfRepeat.Classified` | Contents.swift:38-40 | keeps exactly the values of its argument whose self-repeated test gives the wanted answer, and keeps a duplicate-free argument duplicate-free |
| `SelfRepeat.SelfRepeated` | Contents.swift:32-46 | a value is in it exactly when it occurs in the input as often as its value; no duplicates |
| `SelfRepeat.NotSelfRepeated` | Contents.swift:32-46 | a value is in it exactly when it occurs in the input but not as often as its value; no duplicates |
| `SelfRepeat.MaxOrSentinel` | Contents.swift:30 | `-1` for the empty sequence, otherwise an element that no element exceeds |
| `SelfRepeat.ValidatedNumber` | Contents.swift:23-31 | `-1` exactly when no value's count equals it; otherwise a present, self-repeated value at least every self-repeated value; always `-1` or positive |
| `SelfRepeat.FirstOccurrencesSnoc` | Contents.swift:33-35 | appending a value to the input extends its distinct values by that value exactly when it is new |
| `SelfRepeat.ClassifiedSnoc` | Contents.swift:38-40 | appending a value to the scanned values appends it to the one list its test selects |
| `SelfRepeat.ClassifiedIffSeen` | Contents.swift:34-43 | a value is in one of the two lists built from a prefix exactly when it occurs in that prefix |
| `SelfRepeat.ClassifyStep` | Contents.swift:33-40 | one iteration of the pass: an already classified value leaves both lists alone, a new one is appended to the list it belongs to |
| `SelfRepeat.Partition` | Contents.swift:34-42 | both lists are free of duplicates, share no value, and together hold exactly the values of the input |
| `SelfRepeat.ClassifiedExactlyOnce` | Contents.swift:16-19 | every value of the input occurs exactly once across the two lists, any other value not at all |
| `SelfRepeat.SelfRepeatedArePositive` | Contents.swift:44-48 | a self-repeated value is positive, so 0 and negative values never qualify |
| `SelfRepeat.FirstOfDescendingSort` | Contents.swift:30 | the first element of any descending ordering of a sequence, or `-1` for an empty one, equals `MaxOrSentinel` of it |
| `SelfRepeat.ValidatedNumberIs` | Contents.swift:29-31 | a present self-repeated value that is at least every self-repeated value is the answer, so the answer is determined by its contract |
| `SelfRepeat.SampleMultiplicities` | Contents.swift:53 | in the sample input 1 and 2 occur twice, 3 three times, and no value exceeds 3 |
| `SelfRepeat.SampleClassification` | Contents.swift:53-54 | on the sample input 1 is rejected and 2 and 3 qualify |
| `SelfRepeat.SampleAnswer` | Contents.swift:53-55 | on the sample input the answer is 3 |
| `SelfRepeat.ThreeFives` | Contents.swift:44-46 | `[5, 5, 5]` gives `-1` |
| `SelfRepeat.SingleZero` | Contents.swift:44-46 | `[0]` gives `-1` |
| `SelfRepeat.EmptyInput` | Contents.swift:30-33 | the empty input gives two empty lists and `-1` |
| `SelfRepeat.AllQualifyMultiplicities` | Contents.swift:47-48 | in `[2, 2, 3, 3, 3, 4, 4, 4, 4]` each of 2, 3 and 4 occurs as often as its value, and no value exceeds 4 |
| `SelfRepeat.LargestQualifyingValueWins` | Contents.swift:29-31 | `[2, 2, 3, 3, 3, 4, 4, 4, 4]` gives 4 |

## Left out

- `import UIKit` and the `print` of the demo (Contents.swift:1, 55) are a framework import and console output. The demo input is kept as `SampleRun` and the sample lemmas.
- The `NumbersValidationProtocol` conformance (Contents.swift:6-8, 22) is an interface with no behaviour of its own. `GetValidatedNumber` is modelled directly on the class.
- The sort in `getMostRepeatedNumber` (Contents.swift:30) is not modelled as an algorithm. The query takes the maximum, and `FirstOfDescendingSort` proves that the head of any descending ordering is that maximum.
- Swift's fixed-width `Int` is modelled as unbounded `int`. Counts never exceed the array length, so no overflow arises in the counting.
- Access control (`private`, `final`) has no counterpart. The model only exposes what the class does.
- Validation.RepeatedNumbersValidation.ValidateNumbers: requires both lists to be empty, because its only caller is the initializer, which runs it on fresh empty lists.
- The worked examples take the input as a parameter fixed by `requires ns == [...]` rather than as a literal. This keeps the verifier from unfolding the recursive definitions on the literal.
