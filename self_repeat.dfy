/**
 * Pure specification of the self-repeated number exercise: a value `v`
 * is self-repeated in a sequence when it occurs there exactly `v` times.
 * The validator class in module Validation is proved against these
 * functions.
 */
module SelfRepeat {

  /** The value returned when no self-repeated number exists. */
  const Sentinel: int := -1

  /** No value occurs twice in `s`. */
  ghost predicate Distinct(s: seq<int>)
  {
    forall i, j :: 0 <= i < j < |s| ==> s[i] != s[j]
  }

  /** `s` is ordered from largest to smallest. */
  ghost predicate SortedDescending(s: seq<int>)
  {
    forall i, j :: 0 <= i < j < |s| ==> s[i] >= s[j]
  }

  /** How many elements of `ns` equal `v` (a filter followed by a count). */
  function Count(ns: seq<int>, v: int): (c: nat)
    ensures c == multiset(ns)[v]
    ensures c <= |ns|
    ensures c > 0 <==> v in ns
  {
    if ns == [] then 0
    else
      assert ns == [ns[0]] + ns[1..];
      (if ns[0] == v then 1 else 0) + Count(ns[1..], v)
  }

  /** `v` occurs in `ns` exactly as many times as its own value. */
  predicate IsSelfRepeated(ns: seq<int>, v: int)
  {
    Count(ns, v) == v
  }

  /** The distinct values of `s`, each at the position of its first occurrence. */
  function FirstOccurrences(s: seq<int>): (d: seq<int>)
    ensures forall x :: x in d <==> x in s
    ensures Distinct(d)
  {
    if s == [] then []
    else
      var init, last := s[..|s| - 1], s[|s| - 1];
      assert s == init + [last];
      var d' := FirstOccurrences(init);
      if last in d' then d' else d' + [last]
  }

  /**
   * The elements of `s`, in order, whose self-repeated test against `ns`
   * gives `want`: `want == true` keeps the qualifying values, `want == false`
   * the rejected ones.
   */
  function Classified(ns: seq<int>, s: seq<int>, want: bool): (r: seq<int>)
    ensures forall x :: x in r <==> x in s && IsSelfRepeated(ns, x) == want
    ensures Distinct(s) ==> Distinct(r)
  {
    if s == [] then []
    else
      var init, last := s[..|s| - 1], s[|s| - 1];
      assert s == init + [last];
      var r' := Classified(ns, init, want);
      if IsSelfRepeated(ns, last) == want then r' + [last] else r'
  }

  /** The distinct self-repeated values of `ns`, in first-occurrence order. */
  function SelfRepeated(ns: seq<int>): (q: seq<int>)
    ensures forall v :: v in q <==> v in ns && Count(ns, v) == v
    ensures Distinct(q)
  {
    Classified(ns, FirstOccurrences(ns), true)
  }

  /** The distinct values of `ns` that are not self-repeated, in first-occurrence order. */
  function NotSelfRepeated(ns: seq<int>): (q: seq<int>)
    ensures forall v :: v in q <==> v in ns && Count(ns, v) != v
    ensures Distinct(q)
  {
    Classified(ns, FirstOccurrences(ns), false)
  }

  /** The largest element of `s`, or the sentinel when `s` is empty. */
  function MaxOrSentinel(s: seq<int>): (r: int)
    ensures s == [] ==> r == Sentinel
    ensures s != [] ==> r in s && forall x :: x in s ==> x <= r
  {
    if s == [] then Sentinel
    else if |s| == 1 then s[0]
    else
      var m := MaxOrSentinel(s[1..]);
      assert s == [s[0]] + s[1..];
      if s[0] > m then s[0] else m
  }

  /**
   * The answer of the exercise: the largest self-repeated value of `ns`,
   * or the sentinel when there is none.
   */
  function ValidatedNumber(ns: seq<int>): (r: int)
    ensures r == Sentinel <==> forall v :: v in ns ==> Count(ns, v) != v
    ensures r != Sentinel ==> r in ns && Count(ns, r) == r
    ensures r != Sentinel ==> forall v :: v in ns && Count(ns, v) == v ==> v <= r
    ensures r == Sentinel || r > 0
  {
    MaxOrSentinel(SelfRepeated(ns))
  }

  /** Appending a value to a sequence extends its first occurrences by that value, if new. */
  lemma FirstOccurrencesSnoc(s: seq<int>, x: int)
    ensures FirstOccurrences(s + [x])
         == if x in FirstOccurrences(s) then FirstOccurrences(s) else FirstOccurrences(s) + [x]
  {
  }

  /** Appending a value to `s` appends it to the side of the partition it belongs to. */
  lemma ClassifiedSnoc(ns: seq<int>, s: seq<int>, x: int, want: bool)
    ensures Classified(ns, s + [x], want)
         == if IsSelfRepeated(ns, x) == want then Classified(ns, s, want) + [x] else Classified(ns, s, want)
  {
  }

  /** A value is on one side of the partition of `FirstOccurrences(s)` exactly when it occurs in `s`. */
  lemma ClassifiedIffSeen(ns: seq<int>, s: seq<int>, x: int)
    ensures x in Classified(ns, FirstOccurrences(s), true) || x in Classified(ns, FirstOccurrences(s), false)
        <==> x in s
  {
  }

  /**
   * One step of the classification pass: given the partition of the values
   * of `seen`, the partition of the values of `seen + [x]` leaves both lists
   * alone when `x` is already in one of them, and otherwise appends `x` to
   * the list it belongs to.
   */
  lemma ClassifyStep(ns: seq<int>, seen: seq<int>, x: int, rep: seq<int>, notRep: seq<int>)
    requires rep == Classified(ns, FirstOccurrences(seen), true)
    requires notRep == Classified(ns, FirstOccurrences(seen), false)
    ensures x in rep || x in notRep ==>
              Classified(ns, FirstOccurrences(seen + [x]), true) == rep &&
              Classified(ns, FirstOccurrences(seen + [x]), false) == notRep
    ensures !(x in rep || x in notRep) && IsSelfRepeated(ns, x) ==>
              Classified(ns, FirstOccurrences(seen + [x]), true) == rep + [x] &&
              Classified(ns, FirstOccurrences(seen + [x]), false) == notRep
    ensures !(x in rep || x in notRep) && !IsSelfRepeated(ns, x) ==>
              Classified(ns, FirstOccurrences(seen + [x]), true) == rep &&
              Classified(ns, FirstOccurrences(seen + [x]), false) == notRep + [x]
  {
    var d := FirstOccurrences(seen);
    FirstOccurrencesSnoc(seen, x);
    if x in d {
      assert x in rep || x in notRep;
    } else {
      assert !(x in rep || x in notRep);
      ClassifiedSnoc(ns, d, x, true);
      ClassifiedSnoc(ns, d, x, false);
    }
  }

  /** In a sequence without duplicates every value occurs at most once. */
  lemma {:induction false} DistinctMultiplicity(s: seq<int>, v: int)
    requires Distinct(s)
    ensures multiset(s)[v] == if v in s then 1 else 0
  {
    if s != [] {
      assert s == [s[0]] + s[1..];
      assert Distinct(s[1..]) by {
        forall i, j | 0 <= i < j < |s[1..]| ensures s[1..][i] != s[1..][j] {
          assert s[1..][i] == s[i + 1] && s[1..][j] == s[j + 1];
        }
      }
      DistinctMultiplicity(s[1..], v);
      if s[0] == v {
        assert v !in s[1..] by {
          forall k | 0 <= k < |s[1..]| ensures s[1..][k] != v {
            assert s[1..][k] == s[k + 1];
          }
        }
      }
    }
  }

  /**
   * The two classifications partition the distinct values of `ns`: both are
   * free of duplicates, they share no value, and together they hold every
   * value of `ns` and nothing else.
   */
  lemma Partition(ns: seq<int>)
    ensures Distinct(SelfRepeated(ns)) && Distinct(NotSelfRepeated(ns))
    ensures forall i, j :: 0 <= i < |SelfRepeated(ns)| && 0 <= j < |NotSelfRepeated(ns)|
                           ==> SelfRepeated(ns)[i] != NotSelfRepeated(ns)[j]
    ensures (set x | x in SelfRepeated(ns) + NotSelfRepeated(ns)) == (set x | x in ns)
  {
    var q, n := SelfRepeated(ns), NotSelfRepeated(ns);
    forall i, j | 0 <= i < |q| && 0 <= j < |n| ensures q[i] != n[j] {
      assert q[i] in q && n[j] in n;
    }
  }

  /** Every distinct value of `ns` is classified exactly once, and no other value is. */
  lemma ClassifiedExactlyOnce(ns: seq<int>, v: int)
    ensures multiset(SelfRepeated(ns))[v] + multiset(NotSelfRepeated(ns))[v]
         == if v in ns then 1 else 0
  {
    DistinctMultiplicity(SelfRepeated(ns), v);
    DistinctMultiplicity(NotSelfRepeated(ns), v);
  }

  /** Zero and negative values are never self-repeated. */
  lemma SelfRepeatedArePositive(ns: seq<int>, v: int)
    requires v in SelfRepeated(ns)
    ensures v > 0
  {
  }

  /**
   * Taking the first element of the qualifying values sorted in descending
   * order gives the same answer as taking their maximum.
   */
  lemma FirstOfDescendingSort(s: seq<int>, sorted: seq<int>)
    requires multiset(sorted) == multiset(s)
    requires SortedDescending(sorted)
    ensures (if sorted == [] then Sentinel else sorted[0]) == MaxOrSentinel(s)
  {
    if s == [] {
      assert sorted == [];
    } else {
      var m := MaxOrSentinel(s);
      assert m in multiset(sorted);
      var k :| 0 <= k < |sorted| && sorted[k] == m;
      assert sorted[0] in sorted;
      assert sorted[0] in multiset(s);
      assert sorted[0] in s;
      assert sorted[0] >= sorted[k];
      assert sorted[0] == m;
    }
  }

  /**
   * The contract of ValidatedNumber determines it: a present value that is
   * self-repeated and at least every other self-repeated value is the answer.
   */
  lemma ValidatedNumberIs(ns: seq<int>, m: int)
    requires m in ns && Count(ns, m) == m
    requires forall v :: v in ns && Count(ns, v) == v ==> v <= m
    ensures ValidatedNumber(ns) == m
  {
  }

  // The worked examples below take their input as a parameter pinned by
  // `requires ns == [...]` instead of writing the literal in the ensures:
  // on a literal argument the verifier keeps unfolding the recursive
  // definitions and runs out of resources. The ground facts about each
  // input are proved in a lemma of their own, whose proof never mentions
  // ValidatedNumber, for the same reason.

  /**
   * The sample input of the program, [1, 1, 2, 2, 3, 3, 3]: 1 and 2 occur
   * twice, 3 occurs three times and is the largest value.
   */
  lemma SampleMultiplicities(ns: seq<int>)
    requires ns == [1, 1, 2, 2, 3, 3, 3]
    ensures multiset(ns)[1] == 2 && multiset(ns)[2] == 2 && multiset(ns)[3] == 3
    ensures forall i :: 0 <= i < |ns| ==> ns[i] <= 3
  {
  }

  /** On the sample input 1 is rejected, 2 and 3 qualify. */
  lemma SampleClassification(ns: seq<int>)
    requires ns == [1, 1, 2, 2, 3, 3, 3]
    ensures 1 in NotSelfRepeated(ns) && 2 in SelfRepeated(ns) && 3 in SelfRepeated(ns)
  {
    SampleMultiplicities(ns);
    assert 1 in ns && 2 in ns && 3 in ns;
    assert Count(ns, 1) == 2 && Count(ns, 2) == 2 && Count(ns, 3) == 3;
  }

  /** On the sample input the answer is 3. */
  lemma SampleAnswer(ns: seq<int>)
    requires ns == [1, 1, 2, 2, 3, 3, 3]
    ensures ValidatedNumber(ns) == 3
  {
    SampleMultiplicities(ns);
    ValidatedNumberIs(ns, 3);
  }

  /** [5, 5, 5] has no self-repeated value: 5 occurs three times. */
  lemma ThreeFives(ns: seq<int>)
    requires ns == [5, 5, 5]
    ensures ValidatedNumber(ns) == Sentinel
  {
    assert multiset(ns)[5] == 3;
  }

  /** [0] has no self-repeated value: 0 occurs once. */
  lemma SingleZero(ns: seq<int>)
    requires ns == [0]
    ensures ValidatedNumber(ns) == Sentinel
  {
    assert multiset(ns)[0] == 1;
  }

  /** The empty input gives the sentinel. */
  lemma EmptyInput(ns: seq<int>)
    requires ns == []
    ensures SelfRepeated(ns) == [] && NotSelfRepeated(ns) == [] && ValidatedNumber(ns) == Sentinel
  {
  }

  /** In [2, 2, 3, 3, 3, 4, 4, 4, 4] each of 2, 3 and 4 occurs as often as its value. */
  lemma AllQualifyMultiplicities(ns: seq<int>)
    requires ns == [2, 2, 3, 3, 3, 4, 4, 4, 4]
    ensures multiset(ns)[2] == 2 && multiset(ns)[3] == 3 && multiset(ns)[4] == 4
    ensures forall i :: 0 <= i < |ns| ==> ns[i] <= 4
  {
  }

  /** In [2, 2, 3, 3, 3, 4, 4, 4, 4] all three values qualify and the largest, 4, wins. */
  lemma LargestQualifyingValueWins(ns: seq<int>)
    requires ns == [2, 2, 3, 3, 3, 4, 4, 4, 4]
    ensures ValidatedNumber(ns) == 4
  {
    AllQualifyMultiplicities(ns);
    ValidatedNumberIs(ns, 4);
  }
}
