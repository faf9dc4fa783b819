/** The equivalence helpers of Selkie.NUnit.Extensions (NUnitHelper.cs):
    comparison of doubles within a tolerance, assertions over doubles and
    sequences, and membership in a list of lists. An NUnit assertion failure is
    a returned `Fail` carrying the message the helper hands to NUnit; success
    is `Pass`. How a value is turned into text (culture-dependent for doubles,
    `ToString` for other types) is the `render` parameter. */
module NUnitHelper {
  import opened Doubles
  import opened StringExtensions

  datatype Outcome = Pass | Fail(message: string)

  /** The tolerances of Constants.cs. */
  const Epsilon: Double := Finite(0.01)
  const EpsilonRadians: Double := Finite(0.0000000001)
  const EpsilonDegrees: Double := Finite(0.0000000001)

  const NaNDifference: string := " - Absolute difference is NaN!"
  const LengthIsDifferent: string := "Length is different!"

  /** When `value1 - value2` is NaN: an operand is NaN, or both are the same infinity. */
  predicate DifferenceIsNaN(value1: Double, value2: Double)
  {
    value1.NaN? || value2.NaN? || (value1 == value2 && IsInfinite(value1))
  }

  // ---------------------------------------------------------------------------
  // IsEquivalent on two doubles
  // ---------------------------------------------------------------------------

  /** True iff the absolute difference is not NaN and strictly below `epsilon`. */
  function IsEquivalent(value1: Double, value2: Double, epsilon: Double): (equivalent: bool)
    ensures equivalent <==>
      && value1.Finite? && value2.Finite?
      && (|| epsilon.PositiveInfinity?
          || (epsilon.Finite? && AbsReal(value1.value - value2.value) < epsilon.value))
  {
    var abs := Abs(Minus(value1, value2));
    !abs.NaN? && Less(abs, epsilon)
  }

  /** IsEquivalent with the default tolerance, 0.01. */
  function IsEquivalentDefault(value1: Double, value2: Double): (equivalent: bool)
    ensures equivalent <==>
      value1.Finite? && value2.Finite? && AbsReal(value1.value - value2.value) < 0.01
  {
    IsEquivalent(value1, value2, Epsilon)
  }

  lemma IsEquivalentSymmetric(value1: Double, value2: Double, epsilon: Double)
    ensures IsEquivalent(value1, value2, epsilon) == IsEquivalent(value2, value1, epsilon)
  {
    AbsMinusSymmetric(value1, value2);
  }

  /** NaN is equivalent to nothing, and a tolerance that is not positive
      accepts no pair. */
  lemma IsEquivalentNeverSilentlySucceeds(value: Double, epsilon: Double)
    ensures !IsEquivalent(NaN, value, epsilon) && !IsEquivalent(value, NaN, epsilon)
    ensures epsilon.NaN? || epsilon.NegativeInfinity? || (epsilon.Finite? && epsilon.value <= 0.0) ==>
      forall other :: !IsEquivalent(value, other, epsilon)
  {
  }

  /** A difference of exactly `epsilon` is not equivalent (strict bound). */
  lemma IsEquivalentBoundaryIsExclusive(x: real, epsilon: real)
    ensures !IsEquivalent(Finite(x), Finite(x + epsilon), Finite(epsilon))
  {
  }

  lemma IsEquivalentExamples()
    ensures IsEquivalentDefault(Finite(10.0), Finite(10.0))
    ensures IsEquivalentDefault(Finite(10.0), Finite(10.0 + 0.01 / 2.0))
    ensures !IsEquivalentDefault(Finite(10.0), Finite(10.0 + 0.01 * 2.0))
    ensures !IsEquivalentDefault(Finite(0.0), Finite(10.0))
  {
  }

  // ---------------------------------------------------------------------------
  // AssertIsEquivalent and its wrappers
  // ---------------------------------------------------------------------------

  /** Fails with the NaN message when the difference is NaN; otherwise fails
      only when the absolute difference is strictly greater than `epsilon`. */
  function AssertIsEquivalent(value1: Double, value2: Double, epsilon: Double, text: string,
                              render: Double -> string): (outcome: Outcome)
    ensures DifferenceIsNaN(value1, value2) ==> outcome == Fail(text + NaNDifference)
    ensures value1.Finite? && value2.Finite? && epsilon.Finite? ==>
      (outcome == Pass <==> AbsReal(value1.value - value2.value) <= epsilon.value)
    ensures value1.Finite? && value2.Finite? && !epsilon.Finite? ==>
      (outcome == Pass <==> !epsilon.NegativeInfinity?)
    ensures !DifferenceIsNaN(value1, value2) && !(value1.Finite? && value2.Finite?) ==>
      (outcome == Pass <==> epsilon.NaN? || epsilon.PositiveInfinity?)
    ensures outcome.Fail? && !DifferenceIsNaN(value1, value2) ==>
      outcome.message == text + "Absolute difference " + render(Abs(Minus(value1, value2)))
                         + " but epsilon is " + render(epsilon) + "!"
  {
    var abs := Abs(Minus(value1, value2));
    if abs.NaN? then
      Fail(text + NaNDifference)
    else if Greater(abs, epsilon) then
      Fail(text + "Absolute difference " + render(abs) + " but epsilon is " + render(epsilon) + "!")
    else
      Pass
  }

  /** Whatever IsEquivalent accepts, AssertIsEquivalent passes. */
  lemma EquivalentPassesAssertion(value1: Double, value2: Double, epsilon: Double, text: string,
                                  render: Double -> string)
    requires IsEquivalent(value1, value2, epsilon)
    ensures AssertIsEquivalent(value1, value2, epsilon, text, render) == Pass
  {
  }

  /** The converse fails at the boundary: a difference of exactly `epsilon`
      passes the assertion but is not equivalent. */
  lemma BoundaryPassesAssertionOnly(x: real, epsilon: real, text: string, render: Double -> string)
    requires epsilon >= 0.0
    ensures AssertIsEquivalent(Finite(x), Finite(x + epsilon), Finite(epsilon), text, render) == Pass
    ensures !IsEquivalent(Finite(x), Finite(x + epsilon), Finite(epsilon))
  {
  }

  /** The assertion checks nothing when its tolerance is NaN: every pair
      whose difference is not NaN passes. */
  lemma NaNToleranceAcceptsAll(value1: Double, value2: Double, text: string, render: Double -> string)
    requires !DifferenceIsNaN(value1, value2)
    ensures AssertIsEquivalent(value1, value2, NaN, text, render) == Pass
  {
  }

  lemma AssertIsEquivalentExamples(text: string, render: Double -> string)
    ensures AssertIsEquivalent(Finite(100.0), Finite(100.0), Finite(0.1), text, render).Pass?
    ensures AssertIsEquivalent(Finite(100.0 - 0.1), Finite(100.0), Finite(0.1), text, render).Pass?
    ensures AssertIsEquivalent(Finite(100.0 + 0.1), Finite(100.0), Finite(0.1), text, render).Pass?
    ensures AssertIsEquivalent(Finite(100.0 - 0.11), Finite(100.0), Finite(0.1), text, render).Fail?
    ensures AssertIsEquivalent(Finite(100.0 + 0.11), Finite(100.0), Finite(0.1), text, render).Fail?
    ensures AssertIsEquivalent(Finite(1.0), Finite(100.0), Finite(0.1), text, render).Fail?
    ensures AssertIsEquivalent(NaN, Finite(100.0), Finite(0.1), text, render) == Fail(text + NaNDifference)
  {
  }

  /** AssertIsEquivalent with the default tolerance, 0.01. */
  function AssertIsEquivalentDefault(value1: Double, value2: Double, text: string,
                                     render: Double -> string): (outcome: Outcome)
    ensures DifferenceIsNaN(value1, value2) ==> outcome == Fail(text + NaNDifference)
    ensures value1.Finite? && value2.Finite? ==>
      (outcome == Pass <==> AbsReal(value1.value - value2.value) <= 0.01)
    ensures !value1.Finite? || !value2.Finite? ==> outcome.Fail?
    ensures outcome.Fail? && !DifferenceIsNaN(value1, value2) ==>
      outcome.message == text + "Absolute difference " + render(Abs(Minus(value1, value2)))
                         + " but epsilon is " + render(Epsilon) + "!"
  {
    AssertIsEquivalent(value1, value2, Epsilon, text, render)
  }

  /** The three-argument overload as written: its `epsilon` is never used and
      the default tolerance, 0.01, applies, with an empty text. */
  function AssertIsEquivalentIgnoringEpsilon(value1: Double, value2: Double, epsilon: Double,
                                             render: Double -> string): (outcome: Outcome)
    ensures DifferenceIsNaN(value1, value2) ==> outcome == Fail(NaNDifference)
    ensures value1.Finite? && value2.Finite? ==>
      (outcome == Pass <==> AbsReal(value1.value - value2.value) <= 0.01)
    ensures !value1.Finite? || !value2.Finite? ==> outcome.Fail?
    ensures outcome.Fail? && !DifferenceIsNaN(value1, value2) ==>
      outcome.message == "" + "Absolute difference " + render(Abs(Minus(value1, value2)))
                         + " but epsilon is " + render(Epsilon) + "!"
  {
    AssertIsEquivalent(value1, value2, Epsilon, "", render)
  }

  /** The three-argument overload as evidently intended: the given tolerance applies. */
  function AssertIsEquivalentWithin(value1: Double, value2: Double, epsilon: Double,
                                    render: Double -> string): (outcome: Outcome)
    ensures DifferenceIsNaN(value1, value2) ==> outcome == Fail(NaNDifference)
    ensures value1.Finite? && value2.Finite? && epsilon.Finite? ==>
      (outcome == Pass <==> AbsReal(value1.value - value2.value) <= epsilon.value)
    ensures epsilon.Finite? && (!value1.Finite? || !value2.Finite?) ==> outcome.Fail?
    ensures outcome.Fail? && !DifferenceIsNaN(value1, value2) ==>
      outcome.message == "" + "Absolute difference " + render(Abs(Minus(value1, value2)))
                         + " but epsilon is " + render(epsilon) + "!"
  {
    AssertIsEquivalent(value1, value2, epsilon, "", render)
  }

  /** A difference of 0.05 within a requested tolerance of 0.1 fails the
      overload as written and passes the intended one. */
  lemma EpsilonArgumentIgnored(render: Double -> string)
    ensures AssertIsEquivalentIgnoringEpsilon(Finite(1.0), Finite(1.05), Finite(0.1), render).Fail?
    ensures AssertIsEquivalentWithin(Finite(1.0), Finite(1.05), Finite(0.1), render) == Pass
  {
  }

  predicate StartsWith(s: string, prefix: string)
  {
    |prefix| <= |s| && s[..|prefix|] == prefix
  }

  /** AssertIsEquivalent with tolerance 1e-10 and the label "Radians". */
  function AssertRadians(expected: Double, actual: Double, render: Double -> string): (outcome: Outcome)
    ensures expected.Finite? && actual.Finite? ==>
      (outcome == Pass <==> AbsReal(expected.value - actual.value) <= 0.0000000001)
    ensures outcome.Fail? ==> StartsWith(outcome.message, "Radians")
    ensures DifferenceIsNaN(expected, actual) ==> outcome == Fail("Radians" + NaNDifference)
    ensures !expected.Finite? || !actual.Finite? ==> outcome.Fail?
    ensures outcome.Fail? && !DifferenceIsNaN(expected, actual) ==>
      outcome.message == "Radians" + "Absolute difference " + render(Abs(Minus(expected, actual)))
                         + " but epsilon is " + render(EpsilonRadians) + "!"
  {
    AssertIsEquivalent(expected, actual, EpsilonRadians, "Radians", render)
  }

  /** AssertDegrees as written: tolerance 1e-10, but failures labelled "Radians". */
  function AssertDegrees(expected: Double, actual: Double, render: Double -> string): (outcome: Outcome)
    ensures expected.Finite? && actual.Finite? ==>
      (outcome == Pass <==> AbsReal(expected.value - actual.value) <= 0.0000000001)
    ensures outcome.Fail? ==> StartsWith(outcome.message, "Radians")
    ensures DifferenceIsNaN(expected, actual) ==> outcome == Fail("Radians" + NaNDifference)
    ensures !expected.Finite? || !actual.Finite? ==> outcome.Fail?
    ensures outcome.Fail? && !DifferenceIsNaN(expected, actual) ==>
      outcome.message == "Radians" + "Absolute difference " + render(Abs(Minus(expected, actual)))
                         + " but epsilon is " + render(EpsilonDegrees) + "!"
  {
    AssertIsEquivalent(expected, actual, EpsilonDegrees, "Radians", render)
  }

  /** AssertDegrees cannot be told apart from AssertRadians, failure messages included. */
  lemma DegreesReportedAsRadians(expected: Double, actual: Double, render: Double -> string)
    ensures AssertDegrees(expected, actual, render) == AssertRadians(expected, actual, render)
  {
  }

  /** AssertDegrees as evidently intended: failures labelled "Degrees". */
  function AssertDegreesLabelled(expected: Double, actual: Double, render: Double -> string): (outcome: Outcome)
    ensures expected.Finite? && actual.Finite? ==>
      (outcome == Pass <==> AbsReal(expected.value - actual.value) <= 0.0000000001)
    ensures outcome.Fail? ==> StartsWith(outcome.message, "Degrees")
    ensures DifferenceIsNaN(expected, actual) ==> outcome == Fail("Degrees" + NaNDifference)
    ensures !expected.Finite? || !actual.Finite? ==> outcome.Fail?
    ensures outcome.Fail? && !DifferenceIsNaN(expected, actual) ==>
      outcome.message == "Degrees" + "Absolute difference " + render(Abs(Minus(expected, actual)))
                         + " but epsilon is " + render(EpsilonDegrees) + "!"
  {
    AssertIsEquivalent(expected, actual, EpsilonDegrees, "Degrees", render)
  }

  /** A failing degree comparison is reported as "Radians" as written and as
      "Degrees" as intended. */
  lemma DegreesMislabelled(render: Double -> string)
    ensures var outcome := AssertDegrees(Finite(0.0), Finite(1.0), render);
      outcome.Fail? && StartsWith(outcome.message, "Radians")
    ensures var outcome := AssertDegreesLabelled(Finite(0.0), Finite(1.0), render);
      outcome.Fail? && StartsWith(outcome.message, "Degrees")
  {
  }

  lemma RadiansExamples(render: Double -> string)
    ensures AssertRadians(Finite(100.0), Finite(100.0), render) == Pass
    ensures AssertRadians(Finite(100.0), Finite(100.0 + 0.0000000001 * 0.9), render) == Pass
    ensures AssertRadians(Finite(100.0), Finite(100.0 - 0.0000000001 * 0.9), render) == Pass
    ensures AssertDegrees(Finite(100.0), Finite(100.0 + 0.0000000001 * 0.9), render) == Pass
    ensures AssertDegrees(Finite(100.0), Finite(100.0 - 0.0000000001 * 0.9), render) == Pass
  {
  }

  // ---------------------------------------------------------------------------
  // IsEquivalent on two lists of doubles
  // ---------------------------------------------------------------------------

  /** Decimal digits of `n`. */
  function NatText(n: nat): (digits: string)
    ensures |digits| >= 1
    ensures forall k :: 0 <= k < |digits| ==> IsDigit(digits[k])
  {
    var last := ['0' + (n % 10) as char];
    if n < 10 then last else NatText(n / 10) + last
  }

  /** The number a string of decimal digits stands for, most significant digit first. */
  function DigitsValue(digits: string): nat
  {
    if digits == [] then 0
    else
      var d := digits[|digits| - 1] as int - '0' as int;
      DigitsValue(digits[..|digits| - 1]) * 10 + (if 0 <= d then d else 0)
  }

  /** NatText is the canonical decimal form of `n`: reading its digits back
      gives `n`, and it has no leading zero unless it is "0". */
  lemma {:induction false} NatTextValue(n: nat)
    ensures DigitsValue(NatText(n)) == n
    ensures NatText(n)[0] == '0' ==> n == 0
  {
    var digits := NatText(n);
    var last := ['0' + (n % 10) as char];
    if n < 10 {
      assert digits == last;
      assert [] == digits[..|digits| - 1];
    } else {
      NatTextValue(n / 10);
      assert digits == NatText(n / 10) + last;
      assert digits[..|digits| - 1] == NatText(n / 10);
      assert digits[0] == NatText(n / 10)[0];
    }
  }

  /** Decimal text of an integer, with a leading '-' when negative. */
  function IntText(i: int): string
  {
    if i < 0 then "-" + NatText(-i) else NatText(i)
  }

  /** The message for a pair at index `i` that is not equivalent. */
  function ElementMessage(i: nat, expected: Double, actual: Double, render: Double -> string): string
  {
    "[" + NatText(i) + "] Expected '" + render(expected) + "' but actual is '" + render(actual) + "'!"
  }

  /** The smallest index whose pair is not equivalent, or the length if all are. */
  function FirstNonEquivalent(value1: seq<Double>, value2: seq<Double>): (index: nat)
    requires |value1| == |value2|
    ensures index <= |value1|
    ensures forall j :: 0 <= j < index ==> IsEquivalentDefault(value1[j], value2[j])
    ensures index < |value1| ==> !IsEquivalentDefault(value1[index], value2[index])
  {
    if value1 == [] then 0
    else if !IsEquivalentDefault(value1[0], value2[0]) then 0
    else 1 + FirstNonEquivalent(value1[1..], value2[1..])
  }

  /** Fails when the lengths differ; otherwise fails at the first pair that is
      not equivalent under the default tolerance; passes when there is none. */
  method IsEquivalentList(value1: seq<Double>, value2: seq<Double>, render: Double -> string)
    returns (outcome: Outcome)
    ensures |value1| != |value2| ==> outcome == Fail(LengthIsDifferent)
    ensures |value1| == |value2| ==>
      var first := FirstNonEquivalent(value1, value2);
      outcome == if first < |value1| then Fail(ElementMessage(first, value1[first], value2[first], render)) else Pass
    ensures outcome == Pass <==>
      |value1| == |value2| && forall j :: 0 <= j < |value1| ==> IsEquivalentDefault(value1[j], value2[j])
  {
    if |value1| != |value2| {
      return Fail(LengthIsDifferent);
    }
    var i := 0;
    while i < |value1|
      invariant 0 <= i <= |value1|
      invariant forall j :: 0 <= j < i ==> IsEquivalentDefault(value1[j], value2[j])
    {
      var text := ElementMessage(i, value1[i], value2[i], render);
      if !IsEquivalentDefault(value1[i], value2[i]) {
        return Fail(text);
      }
      i := i + 1;
    }
    return Pass;
  }

  // ---------------------------------------------------------------------------
  // Contains, AssertSequenceEqual, SequenceToString
  // ---------------------------------------------------------------------------

  /** LINQ SequenceEqual: walks both sequences together and fails at the first
      difference or when one ends first. */
  function SequenceEqual<T(==)>(first: seq<T>, second: seq<T>): (equal: bool)
    ensures equal <==> first == second
  {
    if first == [] || second == [] then first == [] && second == []
    else
      var rest := SequenceEqual(first[1..], second[1..]);
      assert first == [first[0]] + first[1..] && second == [second[0]] + second[1..];
      first[0] == second[0] && rest
  }

  /** True iff some inner list has the same elements, in the same order, as `expected`. */
  function Contains(listOfList: seq<seq<int>>, expected: seq<int>): (found: bool)
    ensures found <==> exists k :: 0 <= k < |listOfList| && listOfList[k] == expected
  {
    if listOfList == [] then false
    else
      var rest := Contains(listOfList[1..], expected);
      assert forall k :: 0 < k < |listOfList| ==> listOfList[k] == listOfList[1..][k - 1];
      SequenceEqual(listOfList[0], expected) || rest
  }

  lemma ContainsExamples()
    ensures Contains([[1, 2, 3], [1, 2]], [1, 2])
    ensures !Contains([[1, 2, 3]], [1, 2])
  {
    assert [[1, 2, 3], [1, 2]][1] == [1, 2];
    assert [1, 2, 3] != [1, 2] by { assert |[1, 2, 3]| != |[1, 2]|; }
  }

  /** Every element rendered, in order. */
  function RenderAll<T>(sequence: seq<T>, render: T -> string): (texts: seq<string>)
    ensures |texts| == |sequence|
    ensures forall k :: 0 <= k < |sequence| ==> texts[k] == render(sequence[k])
  {
    if sequence == [] then [] else [render(sequence[0])] + RenderAll(sequence[1..], render)
  }

  /** The `{e0,e1,...,en}` rendering of a sequence. */
  function SequenceText<T>(sequence: seq<T>, render: T -> string): string
  {
    "{" + Interleave(RenderAll(sequence, render), ",") + "}"
  }

  /** Number of occurrences of `c` in `s`. */
  function Count(s: string, c: char): nat
  {
    if s == [] then 0 else (if s[0] == c then 1 else 0) + Count(s[1..], c)
  }

  lemma {:induction false} CountAppend(a: string, b: string, c: char)
    ensures Count(a + b, c) == Count(a, c) + Count(b, c)
    decreases |a|
  {
    if a == [] {
      assert a + b == b;
    } else {
      assert (a + b)[1..] == a[1..] + b;
      CountAppend(a[1..], b, c);
    }
  }

  /** Parts without commas, joined with ",", hold exactly |parts| - 1 commas. */
  lemma {:induction false} CommasBetweenParts(parts: seq<string>)
    requires |parts| >= 1
    requires forall k :: 0 <= k < |parts| ==> Count(parts[k], ',') == 0
    ensures Count(Interleave(parts, ","), ',') == |parts| - 1
  {
    if |parts| > 1 {
      CommasBetweenParts(parts[1..]);
      CountAppend(parts[0], ",", ',');
      CountAppend(parts[0] + ",", Interleave(parts[1..], ","), ',');
    }
  }

  /** The rendering is braces around the elements; "{}" when there are none,
      and n - 1 commas for n elements whose texts hold no comma. */
  lemma SequenceTextShape<T>(sequence: seq<T>, render: T -> string)
    ensures sequence == [] ==> SequenceText(sequence, render) == "{}"
    ensures var text := SequenceText(sequence, render);
      |text| >= 2 && text[0] == '{' && text[|text| - 1] == '}'
    ensures (forall k :: 0 <= k < |sequence| ==> Count(render(sequence[k]), ',') == 0) ==>
      Count(SequenceText(sequence, render), ',') == if sequence == [] then 0 else |sequence| - 1
  {
    var parts := RenderAll(sequence, render);
    var inner := Interleave(parts, ",");
    CountAppend("{", inner, ',');
    CountAppend("{" + inner, "}", ',');
    if sequence != [] && forall k :: 0 <= k < |sequence| ==> Count(render(sequence[k]), ',') == 0 {
      CommasBetweenParts(parts);
    }
  }

  lemma SequenceTextExamples()
    ensures SequenceText([1, 2, 3], IntText) == "{1,2,3}"
    ensures SequenceText([1, 2], IntText) == "{1,2}"
  {
    assert IntText(1) == "1" && IntText(2) == "2" && IntText(3) == "3";
    var three := RenderAll([1, 2, 3], IntText);
    assert three == ["1", "2", "3"];
    assert three[1..] == ["2", "3"] && three[1..][1..] == ["3"];
    assert Interleave(three[1..], ",") == "2,3";
    assert Interleave(three, ",") == "1" + "," + "2,3";
    var two := RenderAll([1, 2], IntText);
    assert two == ["1", "2"];
    assert two[1..] == ["2"];
    assert Interleave(two, ",") == "1,2";
  }

  /** The StringBuilder loop of SequenceToString: each element, then a comma
      unless it is the last. */
  method SequenceToString<T>(sequence: seq<T>, render: T -> string) returns (text: string)
    ensures text == SequenceText(sequence, render)
  {
    ghost var parts := RenderAll(sequence, render);
    var sb := "{";
    var n := |sequence|;
    for i := 0 to n
      invariant i == 0 ==> sb == "{"
      invariant 0 < i ==> sb == "{" + Interleave(parts[..i], ",") + (if i < n then "," else "")
    {
      if i > 0 {
        InterleaveSnoc(parts[..i], parts[i], ",");
        assert parts[..i + 1] == parts[..i] + [parts[i]];
      } else {
        assert parts[..1] == [parts[0]];
      }
      sb := sb + render(sequence[i]);
      if i < n - 1 {
        sb := sb + ",";
      }
    }
    sb := sb + "}";
    assert n > 0 ==> parts[..n] == parts;
    text := sb;
  }

  /** Passes iff both sequences have the same elements in the same order;
      otherwise the message shows both renderings. */
  method AssertSequenceEqual<T(==)>(sequenceOne: seq<T>, sequenceTwo: seq<T>, message: string,
                                    render: T -> string) returns (outcome: Outcome)
    ensures outcome == Pass <==> sequenceOne == sequenceTwo
    ensures outcome.Fail? ==>
      outcome.message == message + ": Expected sequence is '" + SequenceText(sequenceOne, render)
                         + "' but actual is '" + SequenceText(sequenceTwo, render) + "'!"
  {
    if !SequenceEqual(sequenceOne, sequenceTwo) {
      var oneText := SequenceToString(sequenceOne, render);
      var twoText := SequenceToString(sequenceTwo, render);
      return Fail(message + ": Expected sequence is '" + oneText + "' but actual is '" + twoText + "'!");
    }
    return Pass;
  }
}
