/**
 * The validator object: it keeps the input numbers, splits their distinct
 * values at construction into the self-repeated ones and the others, and
 * answers with the largest self-repeated value or -1.
 */
module Validation {
  import opened SelfRepeat

  class RepeatedNumbersValidation {
    /** Distinct values found to be self-repeated, in first-occurrence order. */
    var repeatedNumbers: seq<int>
    /** Distinct values found not to be self-repeated, in first-occurrence order. */
    var numbersNotRepeated: seq<int>
    /** The input, fixed for the lifetime of the object. */
    const numbers: seq<int>

    /** Classification is complete: both lists are exactly the partition of the input's values. */
    ghost predicate Valid()
      reads this
    {
      repeatedNumbers == SelfRepeated(numbers) && numbersNotRepeated == NotSelfRepeated(numbers)
    }

    /** Stores the input and classifies every distinct value of it before returning. */
    constructor (numbers: seq<int>)
      ensures this.numbers == numbers
      ensures repeatedNumbers == SelfRepeated(numbers)
      ensures numbersNotRepeated == NotSelfRepeated(numbers)
      ensures Valid()
    {
      this.numbers := numbers;
      repeatedNumbers := [];
      numbersNotRepeated := [];
      new;
      ValidateNumbers();
    }

    /** The answer: the largest self-repeated value of the input, or -1. */
    function GetValidatedNumber(): (r: int)
      reads this
      requires Valid()
      ensures r == ValidatedNumber(numbers)
      ensures r == Sentinel <==> forall v :: v in numbers ==> CountRepeat(v) != v
      ensures r != Sentinel ==> r in numbers && CountRepeat(r) == r
      ensures r != Sentinel ==> forall v :: v in numbers && CountRepeat(v) == v ==> v <= r
    {
      GetMostRepeatedNumber()
    }

    /**
     * The first element of the self-repeated values sorted in descending
     * order, or -1 when there are none; that is their maximum.
     */
    function GetMostRepeatedNumber(): (r: int)
      reads this
      ensures repeatedNumbers == [] ==> r == Sentinel
      ensures repeatedNumbers != [] ==> r in repeatedNumbers
      ensures forall x :: x in repeatedNumbers ==> x <= r
    {
      MaxOrSentinel(repeatedNumbers)
    }

    /**
     * One pass over the input: a value not yet in either list is counted
     * over the whole input and appended to the list it belongs to; a value
     * already classified is skipped.
     */
    method ValidateNumbers()
      requires repeatedNumbers == [] && numbersNotRepeated == []
      modifies this
      ensures Valid()
    {
      for i := 0 to |numbers|
        invariant repeatedNumbers == Classified(numbers, FirstOccurrences(numbers[..i]), true)
        invariant numbersNotRepeated == Classified(numbers, FirstOccurrences(numbers[..i]), false)
      {
        var number := numbers[i];
        assert numbers[..i + 1] == numbers[..i] + [number];
        ClassifyStep(numbers, numbers[..i], number, repeatedNumbers, numbersNotRepeated);
        GuardLetsThroughUnseen(this, i);
        assert IsAlreadyValidated(number) <==> number !in numbers[..i];
        if IsAlreadyValidated(number) {
          Append(number);
        }
      }
      assert numbers[..|numbers|] == numbers;
    }

    /** Appends `number` to the self-repeated list when it qualifies, to the other list otherwise. */
    method Append(number: int)
      modifies this
      ensures IsValidRepeatedNumber(number) ==>
                repeatedNumbers == old(repeatedNumbers) + [number] &&
                numbersNotRepeated == old(numbersNotRepeated)
      ensures !IsValidRepeatedNumber(number) ==>
                repeatedNumbers == old(repeatedNumbers) &&
                numbersNotRepeated == old(numbersNotRepeated) + [number]
    {
      if IsValidRepeatedNumber(number) {
        repeatedNumbers := repeatedNumbers + [number];
      } else {
        numbersNotRepeated := numbersNotRepeated + [number];
      }
    }

    /**
     * Despite its name, true when `number` has NOT been classified yet,
     * that is, when it is in neither list; only such values are appended.
     */
    function IsAlreadyValidated(number: int): (unclassified: bool)
      reads this
      ensures unclassified <==> number !in repeatedNumbers && number !in numbersNotRepeated
    {
      !(number in repeatedNumbers) && !(number in numbersNotRepeated)
    }

    /** `number` occurs in the input exactly as many times as its value. */
    function IsValidRepeatedNumber(number: int): (valid: bool)
      ensures valid <==> multiset(numbers)[number] == number
      ensures valid ==> number >= 0
      ensures valid && number != 0 ==> number in numbers
    {
      CountRepeat(number) == number
    }

    /** How many times `number` occurs in the input. */
    function CountRepeat(number: int): (c: nat)
      ensures c == multiset(numbers)[number]
      ensures c <= |numbers|
    {
      Count(numbers, number)
    }
  }

  /**
   * The guard of the classification pass: part way through, with both lists
   * holding the classification of the first `i` input values, the guard on
   * the next value holds exactly when that value did not occur earlier.
   */
  lemma GuardLetsThroughUnseen(v: RepeatedNumbersValidation, i: nat)
    requires i < |v.numbers|
    requires v.repeatedNumbers == Classified(v.numbers, FirstOccurrences(v.numbers[..i]), true)
    requires v.numbersNotRepeated == Classified(v.numbers, FirstOccurrences(v.numbers[..i]), false)
    ensures v.IsAlreadyValidated(v.numbers[i]) <==> v.numbers[i] !in v.numbers[..i]
  {
    ClassifiedIffSeen(v.numbers, v.numbers[..i], v.numbers[i]);
  }

  /** Two validators built from the same numbers give the same answer, however often asked. */
  lemma AnswerDependsOnlyOnInput(a: RepeatedNumbersValidation, b: RepeatedNumbersValidation)
    requires a.Valid() && b.Valid() && a.numbers == b.numbers
    ensures a.GetValidatedNumber() == b.GetValidatedNumber()
  {
  }

  /** The program's own run: the sample input yields 3. */
  method SampleRun() returns (r: int)
    ensures r == 3
  {
    var input := [1, 1, 2, 2, 3, 3, 3];
    var validation := new RepeatedNumbersValidation(input);
    SampleAnswer(input);
    r := validation.GetValidatedNumber();
  }
}
