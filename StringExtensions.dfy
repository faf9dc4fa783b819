/** The string helpers of Selkie.NUnit.Extensions: joining with a distinct last
    separator, fixed-width chunking, newline normalisation, and splitting text
    into lines and words. Strings are sequences of chars; the lazily enumerated
    results of the source are finite sequences here. */
module StringExtensions {

  datatype Option<T> = None | Some(value: T)

  // ---------------------------------------------------------------------------
  // Reference definitions shared by the whole model
  // ---------------------------------------------------------------------------

  /** All parts, one after the other. */
  function Flatten(parts: seq<string>): string
  {
    if parts == [] then "" else parts[0] + Flatten(parts[1..])
  }

  /** The parts with `separator` between every two neighbours. */
  function Interleave(parts: seq<string>, separator: string): string
  {
    if |parts| == 0 then ""
    else if |parts| == 1 then parts[0]
    else parts[0] + separator + Interleave(parts[1..], separator)
  }

  // Sequence-algebra helper for the Join proofs; it models nothing of its own.
  lemma SplitLast<T>(s: seq<T>)
    requires |s| >= 1
    ensures s[..|s| - 1] + [s[|s| - 1]] == s
  {
  }

  lemma {:induction false} InterleaveSnoc(parts: seq<string>, last: string, separator: string)
    requires |parts| >= 1
    ensures Interleave(parts + [last], separator) == Interleave(parts, separator) + separator + last
  {
    if |parts| == 1 {
      assert (parts + [last])[1..] == [last];
    } else {
      assert (parts + [last])[1..] == parts[1..] + [last];
      InterleaveSnoc(parts[1..], last, separator);
    }
  }

  lemma {:induction false} FlattenSnoc(parts: seq<string>, last: string)
    ensures Flatten(parts + [last]) == Flatten(parts) + last
  {
    if parts == [] {
      assert [] + [last] == [last];
    } else {
      assert (parts + [last])[1..] == parts[1..] + [last];
      FlattenSnoc(parts[1..], last);
    }
  }

  /** `gaps` parts joined by a separator hold `gaps` separators: one fewer than the parts. */
  lemma {:induction false} InterleaveLength(parts: seq<string>, separator: string, gaps: nat)
    requires |parts| == gaps + 1
    ensures |Interleave(parts, separator)| == |Flatten(parts)| + gaps * |separator|
  {
    if gaps > 0 {
      InterleaveLength(parts[1..], separator, gaps - 1);
      assert gaps * |separator| == (gaps - 1) * |separator| + |separator|;
    }
  }

  // ---------------------------------------------------------------------------
  // Join (StringExtensions.cs, the four Join overloads and JoinElements)
  // ---------------------------------------------------------------------------

  /** Joins `elements`, putting `lastSeparator` between the final two and
      `separator` between all other neighbours. */
  function Join(elements: seq<string>, separator: string, lastSeparator: string): (joined: string)
    ensures |elements| == 0 ==> joined == ""
    ensures |elements| == 1 ==> joined == elements[0]
  {
    if |elements| == 0 then ""
    else if |elements| == 1 then elements[0]
    else Interleave(elements[..|elements| - 1], separator) + lastSeparator + elements[|elements| - 1]
  }

  /** For two or more elements the result holds every element, `lastSeparator`
      once and `separator` between all other neighbours, and starts with the
      first element. */
  lemma JoinLength(elements: seq<string>, separator: string, lastSeparator: string)
    requires |elements| >= 2
    ensures |Join(elements, separator, lastSeparator)| ==
      |Flatten(elements)| + (|elements| - 2) * |separator| + |lastSeparator|
    ensures Join(elements, separator, lastSeparator)[..|elements[0]|] == elements[0]
  {
    var n := |elements|;
    var init := elements[..n - 1];
    var last := elements[n - 1];
    var inner := Interleave(init, separator);
    var separators := (n - 2) * |separator|;
    InterleaveLength(init, separator, n - 2);
    SplitLast(elements);
    FlattenSnoc(init, last);
    JoinHead(init, separator);
    JoinParts(Join(elements, separator, lastSeparator), inner, lastSeparator, last, elements[0]);
  }

  /** Length and prefix of `inner + lastSeparator + last`. */
  lemma JoinParts(joined: string, inner: string, lastSeparator: string, last: string, first: string)
    requires joined == inner + lastSeparator + last
    requires |inner| >= |first| && inner[..|first|] == first
    ensures |joined| == |inner| + |lastSeparator| + |last|
    ensures joined[..|first|] == first
  {
    assert joined[..|first|] == inner[..|first|];
  }

  lemma {:induction false} JoinHead(parts: seq<string>, separator: string)
    requires |parts| >= 1
    ensures |Interleave(parts, separator)| >= |parts[0]|
    ensures Interleave(parts, separator)[..|parts[0]|] == parts[0]
  {
  }

  /** Join unfolded from the front: the first element, then `separator`, then
      the join of the rest, down to two elements, which take `lastSeparator`. */
  lemma {:induction false} JoinCons(first: string, rest: seq<string>, separator: string, lastSeparator: string)
    requires |rest| >= 1
    ensures |rest| == 1 ==> Join([first] + rest, separator, lastSeparator) == first + lastSeparator + rest[0]
    ensures |rest| >= 2 ==>
      Join([first] + rest, separator, lastSeparator) == first + separator + Join(rest, separator, lastSeparator)
  {
    var all := [first] + rest;
    var n := |all|;
    var init := all[..n - 1];
    assert all[n - 1] == rest[|rest| - 1];
    if |rest| == 1 {
      assert init == [first];
    } else {
      var restInit := rest[..|rest| - 1];
      assert init == [first] + restInit;
      assert init[0] == first && init[1..] == restInit;
      assert Interleave(init, separator) == first + separator + Interleave(restInit, separator);
      Regroup(first + separator, Interleave(restInit, separator), lastSeparator, rest[|rest| - 1]);
    }
  }

  // Sequence-algebra helpers: each names one regrouping so that the proofs
  // that use it stay small. They model nothing of their own.

  lemma Regroup(a: string, b: string, c: string, d: string)
    ensures a + b + c + d == a + (b + c + d) == a + (b + (c + d))
  {
  }

  lemma Associate(a: string, b: string, c: string)
    ensures a + b + c == a + (b + c)
  {
  }

  /** With equal separators, Join puts that separator between every two neighbours. */
  lemma {:induction false} JoinSameSeparators(elements: seq<string>, separator: string)
    ensures Join(elements, separator, separator) == Interleave(elements, separator)
  {
    var n := |elements|;
    if n >= 2 {
      SplitLast(elements);
      InterleaveSnoc(elements[..n - 1], elements[n - 1], separator);
    }
  }

  /** Join with one string separator, used between all neighbours. */
  function JoinWithSeparator(elements: seq<string>, separator: string): (joined: string)
    ensures joined == Interleave(elements, separator)
  {
    JoinSameSeparators(elements, separator);
    Join(elements, separator, separator)
  }

  /** Join with one separator character, used between all neighbours. */
  function JoinWithChar(elements: seq<string>, separator: char): (joined: string)
    ensures joined == Interleave(elements, [separator])
  {
    JoinWithSeparator(elements, [separator])
  }

  /** Join with two separator characters. */
  function JoinWithChars(elements: seq<string>, separator: char, lastSeparator: char): (joined: string)
    ensures |elements| >= 2 ==>
      joined == Interleave(elements[..|elements| - 1], [separator]) + [lastSeparator] + elements[|elements| - 1]
    ensures |elements| <= 1 ==> joined == Flatten(elements)
  {
    Join(elements, [separator], [lastSeparator])
  }

  lemma JoinExamples()
    ensures JoinWithChars([], ',', '.') == ""
    ensures JoinWithChars(["a"], ',', '.') == "a"
    ensures JoinWithChars(["a", "b", "c"], ',', '.') == "a,b.c"
    ensures JoinWithChar(["a", "b", "c"], ',') == "a,b,c"
  {
    var abc := ["a", "b", "c"];
    assert abc[..2] == ["a", "b"];
    assert ["a", "b"][1..] == ["b"];
    assert abc[1..] == ["b", "c"];
    assert abc[1..][1..] == ["c"];
  }

  /** The builder loop of JoinElements: append `separator` and the next element
      until the last one, which gets `lastSeparator`. */
  method JoinElements(separator: string, lastSeparator: string, list: seq<string>) returns (joined: string)
    requires |list| >= 2
    ensures joined == Join(list, separator, lastSeparator)
  {
    var builder := list[0];
    var index := 1;
    var lastElement := |list| - 1;
    assert list[..1] == [list[0]];
    while true
      invariant 1 <= index <= lastElement
      invariant builder == Interleave(list[..index], separator)
      decreases lastElement - index
    {
      if index != lastElement {
        InterleaveSnoc(list[..index], list[index], separator);
        assert list[..index + 1] == list[..index] + [list[index]];
        builder := builder + (separator + list[index]);
        index := index + 1;
      } else {
        builder := builder + (lastSeparator + list[index]);
        break;
      }
    }
    joined := builder;
  }

  // ---------------------------------------------------------------------------
  // AsGroupsOf
  // ---------------------------------------------------------------------------

  function Min(a: int, b: int): int
  {
    if a <= b then a else b
  }

  /** The chunks AsGroupsOf enumerates: consecutive pieces of `size` characters,
      the last one possibly shorter; nothing at all when `size <= 0`. */
  function Groups(text: string, size: int): seq<string>
    decreases |text|
  {
    if size <= 0 || |text| == 0 then []
    else if |text| <= size then [text]
    else [text[..size]] + Groups(text[size..], size)
  }

  /** Concatenating the chunks gives back the text. */
  lemma {:induction false} GroupsFlatten(text: string, size: int)
    requires size > 0
    ensures Flatten(Groups(text, size)) == text
    decreases |text|
  {
    if |text| > size {
      GroupsFlatten(text[size..], size);
      assert text == text[..size] + text[size..];
    }
  }

  /** Every chunk but the last has exactly `size` characters, the last between
      one and `size`. */
  lemma {:induction false} GroupsLengths(text: string, size: int)
    requires size > 0
    ensures var g := Groups(text, size);
      && (forall k :: 0 <= k < |g| - 1 ==> |g[k]| == size)
      && (|g| > 0 ==> 1 <= |g[|g| - 1]| <= size)
    decreases |text|
  {
    if |text| > size {
      GroupsLengths(text[size..], size);
      var rest := Groups(text[size..], size);
      var g := Groups(text, size);
      assert g == [text[..size]] + rest;
      assert |rest| > 0 by { GroupsCount(text[size..], size); }
      forall k | 0 <= k < |g| - 1 ensures |g[k]| == size {
        if k > 0 { assert g[k] == rest[k - 1]; }
      }
      assert g[|g| - 1] == rest[|rest| - 1];
    }
  }

  /** There are ceil(|text| / size) chunks: the fewest that hold the text. */
  lemma {:induction false} GroupsCount(text: string, size: int)
    requires size > 0
    ensures (|Groups(text, size)| - 1) * size < |text| <= |Groups(text, size)| * size
    decreases |text|
  {
    if |text| > size {
      GroupsCount(text[size..], size);
      var k := |Groups(text[size..], size)|;
      assert |Groups(text, size)| == k + 1;
      assert (k + 1) * size == k * size + size;
    }
  }

  /** A chunk size that is not positive gives no chunks. */
  lemma GroupsOfNonPositiveSize(text: string, size: int)
    requires size <= 0
    ensures Groups(text, size) == []
  {
  }

  lemma GroupsExample()
    ensures Groups("Group", 1) == ["G", "r", "o", "u", "p"]
  {
    assert Groups("p", 1) == ["p"];
    assert Groups("up", 1) == ["u"] + Groups("p", 1) by { assert "up"[..1] == "u" && "up"[1..] == "p"; }
    assert Groups("oup", 1) == ["o"] + Groups("up", 1) by { assert "oup"[..1] == "o" && "oup"[1..] == "up"; }
    assert Groups("roup", 1) == ["r"] + Groups("oup", 1) by { assert "roup"[..1] == "r" && "roup"[1..] == "oup"; }
    assert Groups("Group", 1) == ["G"] + Groups("roup", 1) by { assert "Group"[..1] == "G" && "Group"[1..] == "roup"; }
  }

  /** What is left of `text` once `index` characters are consumed. */
  function Remaining(text: string, index: int): string
    requires index >= 0
  {
    if index <= |text| then text[index..] else ""
  }

  /** The index loop of AsGroupsOf: take `Min(numberOfCharacters, left)`
      characters until that is not positive, advancing by `numberOfCharacters`. */
  method AsGroupsOf(text: string, numberOfCharacters: int) returns (groups: seq<string>)
    ensures groups == Groups(text, numberOfCharacters)
  {
    groups := [];
    var index := 0;
    while true
      invariant 0 <= index
      invariant groups + Groups(Remaining(text, index), numberOfCharacters) == Groups(text, numberOfCharacters)
      decreases |text| - index
    {
      var length := Min(numberOfCharacters, |text| - index);
      if length <= 0 {
        break;
      }
      GroupsStep(text, index, numberOfCharacters);
      groups := groups + [text[index..index + length]];
      index := index + numberOfCharacters;
    }
    assert Groups(Remaining(text, index), numberOfCharacters) == [];
  }

  /** One turn of the AsGroupsOf loop peels one chunk off what is left. */
  lemma GroupsStep(text: string, index: int, size: int)
    requires 0 <= index && Min(size, |text| - index) > 0
    ensures Groups(Remaining(text, index), size) ==
      [text[index..index + Min(size, |text| - index)]] + Groups(Remaining(text, index + size), size)
  {
    var rest := text[index..];
    var length := Min(size, |text| - index);
    if |rest| > size {
      assert rest[..size] == text[index..index + length];
      assert rest[size..] == Remaining(text, index + size);
    } else {
      assert rest == text[index..index + length];
      assert Remaining(text, index + size) == "";
    }
  }

  // ---------------------------------------------------------------------------
  // ReplaceNewLinesWith / ReplaceNewLinesWithDefault
  // ---------------------------------------------------------------------------

  predicate IsLineBreak(c: char)
  {
    c == '\r' || c == '\n'
  }

  predicate HasNoLineBreak(s: string)
  {
    forall k :: 0 <= k < |s| ==> !IsLineBreak(s[k])
  }

  /** Scans left to right for `\r\n`, `\n` or `\r` (tried in that order, as the
      alternation of the `FindNewLines` pattern is) and puts `newLine`, taken
      literally, in place of each match; a CR LF pair is one match. This is the
      documented intent; ReplaceNewLinesAsWritten below models the call as
      written, which reads `$` in `newLine` as a substitution, and agrees with
      this function whenever `newLine` holds no `$`. */
  function ReplaceNewLinesWith(text: string, newLine: string): (replaced: string)
    ensures HasNoLineBreak(text) ==> replaced == text
    ensures HasNoLineBreak(newLine) ==> HasNoLineBreak(replaced)
    ensures '\n' !in newLine ==> '\n' !in replaced
    decreases |text|
  {
    if text == [] then []
    else if |text| >= 2 && text[0] == '\r' && text[1] == '\n' then
      newLine + ReplaceNewLinesWith(text[2..], newLine)
    else if IsLineBreak(text[0]) then
      newLine + ReplaceNewLinesWith(text[1..], newLine)
    else
      var tail := ReplaceNewLinesWith(text[1..], newLine);
      assert HasNoLineBreak(text) ==> HasNoLineBreak(text[1..]);
      assert HasNoLineBreak(text) ==> text == [text[0]] + text[1..];
      [text[0]] + tail
  }

  /** Text without line breaks in front passes through unchanged. */
  lemma {:induction false} ReplacePlainPrefix(prefix: string, text: string, newLine: string)
    requires HasNoLineBreak(prefix)
    ensures ReplaceNewLinesWith(prefix + text, newLine) == prefix + ReplaceNewLinesWith(text, newLine)
    decreases |prefix|
  {
    if prefix != [] {
      var all := prefix + text;
      assert all[0] == prefix[0];
      assert all[1..] == prefix[1..] + text;
      ReplacePlainPrefix(prefix[1..], text, newLine);
    } else {
      assert prefix + text == text;
    }
  }

  /** A newline the platform may use, or text free of line breaks. */
  predicate IsStableNewLine(newLine: string)
  {
    newLine == "\n" || newLine == "\r" || newLine == "\r\n" || HasNoLineBreak(newLine)
  }

  lemma ReplaceStableNewLineFirst(newLine: string, rest: string)
    requires IsStableNewLine(newLine)
    requires newLine == "\r" ==> '\n' !in rest
    ensures ReplaceNewLinesWith(newLine + rest, newLine) == newLine + ReplaceNewLinesWith(rest, newLine)
  {
    if HasNoLineBreak(newLine) {
      ReplacePlainPrefix(newLine, rest, newLine);
    } else {
      var all := newLine + rest;
      if newLine == "\r\n" {
        assert all[2..] == rest;
      } else {
        assert all[1..] == rest;
        assert newLine == "\r" && |all| >= 2 ==> all[1] == rest[0];
      }
    }
  }

  /** Normalising twice is normalising once, for any newline a platform uses. */
  lemma {:induction false} ReplaceIdempotent(text: string, newLine: string)
    requires IsStableNewLine(newLine)
    ensures ReplaceNewLinesWith(ReplaceNewLinesWith(text, newLine), newLine) == ReplaceNewLinesWith(text, newLine)
    decreases |text|
  {
    if text == [] {
    } else if |text| >= 2 && text[0] == '\r' && text[1] == '\n' {
      var rest := ReplaceNewLinesWith(text[2..], newLine);
      ReplaceStableNewLineFirst(newLine, rest);
      ReplaceIdempotent(text[2..], newLine);
    } else if IsLineBreak(text[0]) {
      var rest := ReplaceNewLinesWith(text[1..], newLine);
      ReplaceStableNewLineFirst(newLine, rest);
      ReplaceIdempotent(text[1..], newLine);
    } else {
      var rest := ReplaceNewLinesWith(text[1..], newLine);
      ReplacePlainPrefix([text[0]], rest, newLine);
      ReplaceIdempotent(text[1..], newLine);
    }
  }

  /** "\n\n" becomes two copies of `newLine`. */
  lemma ReplaceLfLfExample(newLine: string)
    ensures ReplaceNewLinesWith("\n\n", newLine) == newLine + newLine
  {
    ReplaceTwoBreaks("\n", newLine);
  }

  /** "\r\n\r\n" becomes two copies of `newLine`: each pair is one break. */
  lemma ReplaceCrLfCrLfExample(newLine: string)
    ensures ReplaceNewLinesWith("\r\n\r\n", newLine) == newLine + newLine
  {
    ReplaceTwoBreaks("\r\n", newLine);
    assert "\r\n\r\n" == "\r\n" + "\r\n";
  }

  /** One `\r` or `\n` between texts without line breaks is one break: a
      `\r` not followed by `\n` counts on its own. */
  lemma ReplaceSingleBreak(before: string, lineBreak: char, after: string, newLine: string)
    requires HasNoLineBreak(before) && IsLineBreak(lineBreak) && HasNoLineBreak(after)
    ensures ReplaceNewLinesWith(before + [lineBreak] + after, newLine) == before + newLine + after
  {
    var tail := [lineBreak] + after;
    ReplaceBreakThenPlain(tail, lineBreak, after, newLine);
    ReplacePlainPrefix(before, tail, newLine);
    Associate(before, [lineBreak], after);
    Associate(before, newLine, after);
  }

  lemma ReplaceBreakThenPlain(tail: string, lineBreak: char, after: string, newLine: string)
    requires tail == [lineBreak] + after && IsLineBreak(lineBreak) && HasNoLineBreak(after)
    ensures ReplaceNewLinesWith(tail, newLine) == newLine + after
  {
    assert tail[0] == lineBreak && tail[1..] == after;
    assert |tail| >= 2 ==> !IsLineBreak(tail[1]);
    assert ReplaceNewLinesWith(after, newLine) == after;
  }

  /** A lone `\r` between two letters is a break too. */
  lemma ReplaceLoneCrExample(newLine: string)
    ensures ReplaceNewLinesWith("a\rb", newLine) == "a" + newLine + "b"
  {
    ReplaceSingleBreak("a", '\r', "b", newLine);
    assert "a\rb" == "a" + "\r" + "b";
  }

  /** Two copies of one break, `\n` or `\r\n`, become two copies of `newLine`. */
  lemma ReplaceTwoBreaks(lineBreak: string, newLine: string)
    requires lineBreak == "\n" || lineBreak == "\r\n"
    ensures ReplaceNewLinesWith(lineBreak + lineBreak, newLine) == newLine + newLine
  {
    var twice := lineBreak + lineBreak;
    assert ReplaceNewLinesWith(lineBreak, newLine) == newLine + ReplaceNewLinesWith(lineBreak[|lineBreak|..], newLine);
    assert lineBreak[|lineBreak|..] == [];
    assert twice[|lineBreak|..] == lineBreak;
    assert ReplaceNewLinesWith(twice, newLine) == newLine + ReplaceNewLinesWith(twice[|lineBreak|..], newLine);
  }

  // ---------------------------------------------------------------------------
  // ReplaceNewLinesWith as written: Regex.Replace reads `newLine` as a
  // replacement pattern, not as literal text
  // ---------------------------------------------------------------------------

  /** One piece of a .NET replacement pattern: literal text, the matched line
      break (`$0`, `${0}`, `$&`, `$+`), the input before the match (`` $` ``),
      the input after it (`$'`) or the whole input (`$_`). */
  datatype Substitution = Text(chars: string) | MatchedBreak | BeforeMatch | AfterMatch | WholeInput

  predicate IsDigit(c: char)
  {
    '0' <= c <= '9'
  }

  /** Number of decimal digits at the front of `s`. */
  function DigitRun(s: string): (n: nat)
    ensures n <= |s|
  {
    if s == [] || !IsDigit(s[0]) then 0 else 1 + DigitRun(s[1..])
  }

  predicate AllZeros(s: string)
  {
    forall k :: 0 <= k < |s| ==> s[k] == '0'
  }

  /** What follows a `$`: the substitution it stands for and how many
      characters after the `$` it uses. The pattern has a single group, number
      0, so a group number is recognised only when it is zero; anything not
      recognised leaves the `$` as literal text and is read on as text. */
  function ScanDollar(s: string): (scanned: (Substitution, nat))
    ensures scanned.1 <= |s|
    ensures scanned.1 == 0 ==> scanned.0 == Text("$")
  {
    if s == [] then (Text("$"), 0)
    else if s[0] == '{' && |s| > 1 then
      var inner := s[1..];
      var n := DigitRun(inner);
      if 0 < n < |inner| && inner[n] == '}' && AllZeros(inner[..n]) then (MatchedBreak, n + 2)
      else (Text("$"), 0)
    else if IsDigit(s[0]) then
      var n := DigitRun(s);
      if AllZeros(s[..n]) then (MatchedBreak, n) else (Text("$"), 0)
    else if s[0] == '$' then (Text("$"), 1)
    else if s[0] == '&' || s[0] == '+' then (MatchedBreak, 1)
    else if s[0] == '`' then (BeforeMatch, 1)
    else if s[0] == '\'' then (AfterMatch, 1)
    else if s[0] == '_' then (WholeInput, 1)
    else (Text("$"), 0)
  }

  /** The replacement pattern, read left to right. */
  function ParseReplacement(pattern: string): seq<Substitution>
    decreases |pattern|
  {
    if pattern == [] then []
    else if pattern[0] != '$' then [Text([pattern[0]])] + ParseReplacement(pattern[1..])
    else
      var scanned := ScanDollar(pattern[1..]);
      [scanned.0] + ParseReplacement(pattern[1 + scanned.1..])
  }

  /** The text the pattern stands for at the match `text[start..end]`. */
  function Expand(pattern: seq<Substitution>, text: string, start: nat, end: nat): string
    requires start <= end <= |text|
  {
    if pattern == [] then ""
    else
      var piece := match pattern[0]
        case Text(chars) => chars
        case MatchedBreak => text[start..end]
        case BeforeMatch => text[..start]
        case AfterMatch => text[end..]
        case WholeInput => text;
      piece + Expand(pattern[1..], text, start, end)
  }

  /** The scan of ReplaceNewLinesWith from index `i` of the whole input, each
      match replaced by the expanded pattern. */
  function ReplaceMatches(text: string, i: nat, pattern: seq<Substitution>): string
    requires i <= |text|
    decreases |text| - i
  {
    if i == |text| then []
    else if text[i] == '\r' && i + 1 < |text| && text[i + 1] == '\n' then
      Expand(pattern, text, i, i + 2) + ReplaceMatches(text, i + 2, pattern)
    else if IsLineBreak(text[i]) then
      Expand(pattern, text, i, i + 1) + ReplaceMatches(text, i + 1, pattern)
    else
      [text[i]] + ReplaceMatches(text, i + 1, pattern)
  }

  /** `FindNewLines.Replace(text, newLine)` as the source calls it. Text
      without line breaks has no match and comes back unchanged; a `newLine`
      without `$` is inserted literally, as ReplaceNewLinesWith does. */
  function ReplaceNewLinesAsWritten(text: string, newLine: string): (replaced: string)
    ensures HasNoLineBreak(text) ==> replaced == text
    ensures '$' !in newLine ==> replaced == ReplaceNewLinesWith(text, newLine)
  {
    var pattern := ParseReplacement(newLine);
    assert text[0..] == text;
    ReplaceMatchesUnmatched(text, 0, pattern);
    if '$' in newLine then ReplaceMatches(text, 0, pattern)
    else
      ReplaceMatchesLiteral(text, 0, newLine);
      ReplaceMatches(text, 0, pattern)
  }

  lemma {:induction false} ReplaceMatchesUnmatched(text: string, i: nat, pattern: seq<Substitution>)
    requires i <= |text|
    ensures HasNoLineBreak(text[i..]) ==> ReplaceMatches(text, i, pattern) == text[i..]
    decreases |text| - i
  {
    if i < |text| && HasNoLineBreak(text[i..]) {
      assert text[i..][0] == text[i];
      assert text[i + 1..] == text[i..][1..];
      ReplaceMatchesUnmatched(text, i + 1, pattern);
      assert text[i..] == [text[i]] + text[i + 1..];
    }
  }

  /** A pattern without `$` stands for itself. */
  lemma {:induction false} ExpandLiteral(newLine: string, text: string, start: nat, end: nat)
    requires '$' !in newLine && start <= end <= |text|
    ensures Expand(ParseReplacement(newLine), text, start, end) == newLine
    decreases |newLine|
  {
    if newLine != [] {
      assert newLine[0] in newLine;
      assert forall c :: c in newLine[1..] ==> c in newLine;
      ExpandLiteral(newLine[1..], text, start, end);
      assert newLine == [newLine[0]] + newLine[1..];
    }
  }

  lemma {:induction false} ReplaceMatchesLiteral(text: string, i: nat, newLine: string)
    requires '$' !in newLine && i <= |text|
    ensures ReplaceMatches(text, i, ParseReplacement(newLine)) == ReplaceNewLinesWith(text[i..], newLine)
    decreases |text| - i
  {
    if i < |text| {
      var rest := text[i..];
      assert rest[0] == text[i];
      if text[i] == '\r' && i + 1 < |text| && text[i + 1] == '\n' {
        assert rest[1] == '\n' && rest[2..] == text[i + 2..];
        ExpandLiteral(newLine, text, i, i + 2);
        ReplaceMatchesLiteral(text, i + 2, newLine);
      } else {
        assert |rest| >= 2 ==> rest[1] == text[i + 1];
        assert rest[1..] == text[i + 1..];
        if IsLineBreak(text[i]) {
          ExpandLiteral(newLine, text, i, i + 1);
        }
        ReplaceMatchesLiteral(text, i + 1, newLine);
      }
    }
  }

  /** With `$0` every match is replaced by itself: the text comes back unchanged. */
  lemma {:induction false} ReplaceMatchesWithItself(text: string, i: nat)
    requires i <= |text|
    ensures ReplaceMatches(text, i, [MatchedBreak]) == text[i..]
    decreases |text| - i
  {
    if i < |text| {
      var j := if text[i] == '\r' && i + 1 < |text| && text[i + 1] == '\n' then i + 2 else i + 1;
      MatchItselfStep(text, i, j);
      ReplaceMatchesWithItself(text, j);
      SliceJoin(text, i, j);
    }
  }

  /** The first character, or `\r\n` pair, of `text[i..]` stays as it is. */
  lemma MatchItselfStep(text: string, i: nat, j: nat)
    requires i < |text|
    requires j == if text[i] == '\r' && i + 1 < |text| && text[i + 1] == '\n' then i + 2 else i + 1
    ensures ReplaceMatches(text, i, [MatchedBreak]) == text[i..j] + ReplaceMatches(text, j, [MatchedBreak])
  {
    if j == i + 2 {
      assert Expand([MatchedBreak], text, i, j) == text[i..j];
    } else {
      assert Expand([MatchedBreak], text, i, j) == text[i..j];
      assert [text[i]] == text[i..j];
    }
  }

  lemma SliceJoin<T>(s: seq<T>, i: nat, j: nat)
    requires i <= j <= |s|
    ensures s[i..] == s[i..j] + s[j..]
  {
  }

  /** Replacing with "$0" as written changes nothing, line breaks included. */
  lemma ReplaceWithMatchKeepsText(text: string)
    ensures ReplaceNewLinesAsWritten(text, "$0") == text
  {
    var tail := "0";
    assert ScanDollar(tail) == (MatchedBreak, 1) by {
      assert DigitRun(tail[1..]) == 0;
      assert tail[..1] == "0";
    }
    assert "$0"[1..] == tail && "$0"[2..] == [];
    assert ParseReplacement("$0") == [MatchedBreak];
    ReplaceMatchesWithItself(text, 0);
    assert text[0..] == text;
  }

  /** One `\n` between break-free texts (as in "a\nb"), replaced with "$0":
      as written the break stays, although "$0" holds no line break; as
      intended the break becomes the two characters "$0". */
  lemma DollarZeroKeepsLineBreak(before: string, after: string)
    requires HasNoLineBreak(before) && HasNoLineBreak(after)
    ensures ReplaceNewLinesAsWritten(before + "\n" + after, "$0") == before + "\n" + after
    ensures ReplaceNewLinesWith(before + "\n" + after, "$0") == before + "$0" + after
  {
    ReplaceWithMatchKeepsText(before + "\n" + after);
    ReplaceSingleBreak(before, '\n', after, "$0");
    assert ['\n'] == "\n";
  }

  /** ReplaceNewLinesWith with the platform's newline, given here as a
      parameter: `\n` or `\r\n`, neither of which holds a `$`. */
  function ReplaceNewLinesWithDefault(text: string, environmentNewLine: string): (replaced: string)
    ensures HasNoLineBreak(text) ==> replaced == text
    ensures IsPlatformNewLine(environmentNewLine) ==>
      && replaced == ReplaceNewLinesWith(text, environmentNewLine)
      && ReplaceNewLinesAsWritten(replaced, environmentNewLine) == replaced
  {
    var replaced := ReplaceNewLinesAsWritten(text, environmentNewLine);
    assert IsPlatformNewLine(environmentNewLine) ==>
      ReplaceNewLinesAsWritten(replaced, environmentNewLine) == replaced by {
      if IsPlatformNewLine(environmentNewLine) {
        ReplaceIdempotent(text, environmentNewLine);
      }
    }
    replaced
  }

  /** The values of `Environment.NewLine`. */
  predicate IsPlatformNewLine(newLine: string)
  {
    newLine == "\n" || newLine == "\r\n"
  }

  // ---------------------------------------------------------------------------
  // Lines (a StringReader read line by line)
  // ---------------------------------------------------------------------------

  /** Index of the first `\r` or `\n`, or |s| if there is none. */
  function LineBreakIndex(s: string): (end: nat)
    ensures end <= |s|
    ensures HasNoLineBreak(s[..end])
    ensures end < |s| ==> IsLineBreak(s[end])
  {
    if s == [] then 0
    else if IsLineBreak(s[0]) then 0
    else
      var k := LineBreakIndex(s[1..]);
      assert s[..k + 1] == [s[0]] + s[1..][..k];
      k + 1
  }

  /** The first line break is the only one with none before it. */
  lemma {:induction false} LineBreakIndexUnique(s: string, end: nat)
    requires end <= |s| && HasNoLineBreak(s[..end])
    requires end < |s| ==> IsLineBreak(s[end])
    ensures LineBreakIndex(s) == end
    decreases end
  {
    if end > 0 {
      assert !IsLineBreak(s[..end][0]);
      assert s[1..][..end - 1] == s[..end][1..];
      LineBreakIndexUnique(s[1..], end - 1);
    }
  }

  /** Where the next line starts once a line ends at `end`: after a `\r\n`
      pair, after a lone `\r` or `\n`, or at the end of the text. */
  function NextLineStart(s: string, end: nat): (next: nat)
    requires end <= |s|
    ensures end < next <= |s| || next == end == |s|
  {
    if end == |s| then |s|
    else if s[end] == '\r' && end + 1 < |s| && s[end + 1] == '\n' then end + 2
    else end + 1
  }

  /** The lines of `s` as a line reader returns them: each ends at a line
      break or at the end of the text; an empty text has none. */
  function SplitLines(s: string): (lines: seq<string>)
    ensures forall k :: 0 <= k < |lines| ==> HasNoLineBreak(lines[k])
    ensures s == [] <==> lines == []
    decreases |s|
  {
    if s == [] then []
    else
      var end := LineBreakIndex(s);
      [s[..end]] + SplitLines(s[NextLineStart(s, end)..])
  }

  lemma SplitLinesUnfold(s: string)
    requires s != []
    ensures var end := LineBreakIndex(s);
      SplitLines(s) == [s[..end]] + SplitLines(s[NextLineStart(s, end)..])
  {
  }

  /** A .NET StringReader: a string and a read position. */
  class StringReader {
    const text: string
    var position: nat

    ghost predicate Valid()
      reads this
    {
      position <= |text|
    }

    constructor (s: string)
      ensures Valid() && text == s && position == 0
    {
      text := s;
      position := 0;
    }

    /** Returns the characters up to the next line break and moves past that
        break; returns None once the text is used up. */
    method ReadLine() returns (line: Option<string>)
      requires Valid()
      modifies this
      ensures Valid()
      ensures old(position) == |text| ==> line == None && position == old(position)
      ensures old(position) < |text| ==>
        var rest := text[old(position)..];
        var end := LineBreakIndex(rest);
        line == Some(rest[..end]) && position == old(position) + NextLineStart(rest, end)
    {
      if position == |text| {
        return None;
      }
      var i := position;
      while i < |text| && !IsLineBreak(text[i])
        invariant position <= i <= |text|
        invariant HasNoLineBreak(text[position..i])
      {
        assert text[position..i + 1] == text[position..i] + [text[i]];
        i := i + 1;
      }
      ghost var rest := text[position..];
      assert rest[..i - position] == text[position..i];
      LineBreakIndexUnique(rest, i - position);
      ghost var end := LineBreakIndex(rest);
      assert rest[..end] == text[position..i];
      line := Some(text[position..i]);
      if i == |text| {
        position := i;
      } else if text[i] == '\r' && i + 1 < |text| && text[i + 1] == '\n' {
        assert rest[end] == '\r' && rest[end + 1] == '\n';
        position := i + 2;
      } else {
        assert rest[end] == text[i];
        assert end + 1 < |rest| ==> rest[end + 1] == text[i + 1];
        position := i + 1;
      }
    }
  }

  /** Reads every line of `text` from a fresh reader. */
  method Lines(text: string) returns (lines: seq<string>)
    ensures lines == SplitLines(text)
  {
    var reader := new StringReader(text);
    lines := [];
    while true
      invariant reader.Valid() && reader.text == text
      invariant lines + SplitLines(text[reader.position..]) == SplitLines(text)
      decreases |text| - reader.position
    {
      ghost var before := reader.position;
      var line := reader.ReadLine();
      if line.None? {
        break;
      }
      ghost var rest := text[before..];
      ghost var after := text[reader.position..];
      assert after == rest[NextLineStart(rest, LineBreakIndex(rest))..];
      SplitLinesUnfold(rest);
      LinesStep(lines, line.value, SplitLines(after), SplitLines(rest));
      lines := lines + [line.value];
    }
    assert text[reader.position..] == [];
  }

  lemma LinesStep(lines: seq<string>, line: string, later: seq<string>, remaining: seq<string>)
    requires remaining == [line] + later
    ensures (lines + [line]) + later == lines + remaining
  {
  }

  lemma SplitOneCharLine(c: char, newLine: string, tail: string)
    requires newLine == "\n" || newLine == "\r\n"
    requires !IsLineBreak(c)
    ensures SplitLines([c] + newLine + tail) == [[c]] + SplitLines(tail)
  {
    var s := [c] + newLine + tail;
    LineBreakIndexUnique(s, 1);
    assert s[..1] == [c];
    assert NextLineStart(s, 1) == 1 + |newLine|;
    assert s[1 + |newLine|..] == tail;
  }

  lemma LinesExample(newLine: string)
    requires newLine == "\n" || newLine == "\r\n"
    ensures SplitLines("a" + newLine + ("b" + newLine + ("c" + newLine))) == ["a", "b", "c"]
  {
    var t1 := ['c'] + newLine;
    var t2 := ['b'] + newLine + t1;
    var t3 := ['a'] + newLine + t2;
    SplitOneCharLine('c', newLine, []);
    assert ['c'] + newLine + [] == t1;
    assert SplitLines(t1) == [['c']];
    SplitOneCharLine('b', newLine, t1);
    assert SplitLines(t2) == [['b'], ['c']];
    SplitOneCharLine('a', newLine, t2);
    assert SplitLines(t3) == [['a'], ['b'], ['c']];
  }

  predicate EndsWithLineBreak(s: string)
  {
    |s| > 0 && IsLineBreak(s[|s| - 1])
  }

  lemma {:induction false} LineBreakIndexAppend(s: string, t: string)
    ensures LineBreakIndex(s) < |s| ==> LineBreakIndex(s + t) == LineBreakIndex(s)
    ensures LineBreakIndex(s) == |s| ==> LineBreakIndex(s + t) == |s| + LineBreakIndex(t)
    decreases |s|
  {
    if s == [] {
      assert s + t == t;
    } else if IsLineBreak(s[0]) {
    } else {
      assert (s + t)[1..] == s[1..] + t;
      LineBreakIndexAppend(s[1..], t);
    }
  }

  /** A line break at the very end adds no empty last line. */
  lemma {:induction false} TrailingLineBreakAddsNoLine(s: string, terminator: string)
    requires terminator == "\n" || terminator == "\r" || terminator == "\r\n"
    requires s != [] && !EndsWithLineBreak(s)
    ensures SplitLines(s + terminator) == SplitLines(s)
    decreases |s|
  {
    var end := LineBreakIndex(s);
    LineBreakIndexAppend(s, terminator);
    if end == |s| {
      SingleLineWithTerminator(s, terminator);
    } else {
      var next := NextLineStart(s, end);
      var rest := s[next..];
      InnerBreakStep(s, terminator, end);
      TrailingLineBreakAddsNoLine(rest, terminator);
    }
  }

  /** A text without line breaks, with or without one break after it, is one line. */
  lemma SingleLineWithTerminator(s: string, terminator: string)
    requires terminator == "\n" || terminator == "\r" || terminator == "\r\n"
    requires s != [] && LineBreakIndex(s) == |s| && LineBreakIndex(s + terminator) == |s|
    ensures SplitLines(s + terminator) == [s] == SplitLines(s)
  {
    var all := s + terminator;
    var end := |s|;
    assert all[..end] == s;
    if terminator == "\r\n" {
      assert all[|s|] == '\r' && all[|s| + 1] == '\n';
    } else {
      assert all[|s|] == terminator[0];
    }
    assert NextLineStart(all, end) == |all|;
    SplitLinesUnfold(all);
    SplitLinesUnfold(s);
    assert s[..end] == s && s[|s|..] == [];
  }

  /** A break inside `s` ends the same first line in `s + terminator`, and the
      rest after it still does not end with a break. */
  lemma InnerBreakStep(s: string, terminator: string, end: nat)
    requires end == LineBreakIndex(s) < |s| && !EndsWithLineBreak(s)
    requires LineBreakIndex(s + terminator) == end
    ensures var next := NextLineStart(s, end);
      && next < |s|
      && SplitLines(s + terminator) == [s[..end]] + SplitLines(s[next..] + terminator)
      && SplitLines(s) == [s[..end]] + SplitLines(s[next..])
      && !EndsWithLineBreak(s[next..])
  {
    var all := s + terminator;
    var next := NextLineStart(s, end);
    InnerBreakNext(s, terminator, end);
    assert all[..end] == s[..end];
    DropAppend(s, terminator, next);
    SplitLinesUnfold(all);
    SplitLinesUnfold(s);
  }

  /** Where the next line starts after a break that is not the last character. */
  lemma InnerBreakNext(s: string, t: string, end: nat)
    requires end < |s| && IsLineBreak(s[end]) && !IsLineBreak(s[|s| - 1])
    ensures var next := NextLineStart(s, end);
      && next < |s|
      && NextLineStart(s + t, end) == next
      && !EndsWithLineBreak(s[next..])
  {
    var all := s + t;
    var next := NextLineStart(s, end);
    assert end != |s| - 1;
    if s[end] == '\r' && s[end + 1] == '\n' {
      assert next == end + 2 && end + 1 != |s| - 1;
    } else {
      assert next == end + 1;
    }
    assert all[end] == s[end] && all[end + 1] == s[end + 1];
    var rest := s[next..];
    assert rest[|rest| - 1] == s[|s| - 1];
  }

  // Sequence-algebra helper; it models nothing of its own.
  lemma DropAppend<T>(s: seq<T>, t: seq<T>, i: nat)
    requires i <= |s|
    ensures (s + t)[i..] == s[i..] + t
  {
  }

  lemma ReplaceAtLineBreak(s: string, end: nat, newLine: string)
    requires end < |s| && IsLineBreak(s[end])
    ensures ReplaceNewLinesWith(s[end..], newLine) ==
      newLine + ReplaceNewLinesWith(s[NextLineStart(s, end)..], newLine)
  {
    var fromBreak := s[end..];
    assert fromBreak[0] == s[end];
    if s[end] == '\r' && end + 1 < |s| && s[end + 1] == '\n' {
      assert fromBreak[1] == '\n';
      assert fromBreak[2..] == s[end + 2..];
    } else {
      assert |fromBreak| >= 2 ==> fromBreak[1] == s[end + 1];
      assert fromBreak[1..] == s[end + 1..];
    }
  }

  /** Normalising line breaks to `newLine` is the same as joining the lines
      with `newLine`, plus one `newLine` if the text ended with a break. */
  lemma {:induction false} ReplaceIsJoinedLines(s: string, newLine: string)
    ensures ReplaceNewLinesWith(s, newLine) ==
      Interleave(SplitLines(s), newLine) + (if EndsWithLineBreak(s) then newLine else "")
    decreases |s|
  {
    if s != [] {
      var end := LineBreakIndex(s);
      if end == |s| {
        assert s[..end] == s;
        assert s[|s|..] == [];
        assert SplitLines(s) == [s];
      } else {
        var next := NextLineStart(s, end);
        var rest := s[next..];
        ReplaceIsJoinedLines(rest, newLine);
        ReplaceLineStep(s, end, newLine);
      }
    }
  }

  /** The first line of `s`, its break and the rest, before and after normalising. */
  lemma ReplaceFirstLine(s: string, newLine: string)
    requires LineBreakIndex(s) < |s|
    ensures var end := LineBreakIndex(s);
      var rest := s[NextLineStart(s, end)..];
      && ReplaceNewLinesWith(s, newLine) == s[..end] + (newLine + ReplaceNewLinesWith(rest, newLine))
      && SplitLines(s) == [s[..end]] + SplitLines(rest)
  {
    var end := LineBreakIndex(s);
    var line := s[..end];
    assert s == line + s[end..];
    ReplacePlainPrefix(line, s[end..], newLine);
    ReplaceAtLineBreak(s, end, newLine);
    SplitLinesUnfold(s);
  }

  /** The text after a line break ends with a break exactly when `s` does,
      and `s` ends with one when nothing follows that break. */
  lemma LineBreakEnding(s: string, end: nat)
    requires end < |s| && IsLineBreak(s[end])
    ensures var rest := s[NextLineStart(s, end)..];
      && (rest == [] ==> EndsWithLineBreak(s))
      && (rest != [] ==> EndsWithLineBreak(s) == EndsWithLineBreak(rest))
  {
    var next := NextLineStart(s, end);
    if next == |s| {
      if next == end + 2 {
        assert s[|s| - 1] == s[end + 1] == '\n';
      } else {
        assert s[|s| - 1] == s[end];
      }
    } else {
      var rest := s[next..];
      assert rest[|rest| - 1] == s[|s| - 1];
    }
  }

  /** One step of ReplaceIsJoinedLines: the first line and its break. */
  lemma ReplaceLineStep(s: string, end: nat, newLine: string)
    requires end == LineBreakIndex(s) < |s|
    requires var rest := s[NextLineStart(s, end)..];
      ReplaceNewLinesWith(rest, newLine) ==
      Interleave(SplitLines(rest), newLine) + (if EndsWithLineBreak(rest) then newLine else "")
    ensures ReplaceNewLinesWith(s, newLine) ==
      Interleave(SplitLines(s), newLine) + (if EndsWithLineBreak(s) then newLine else "")
  {
    var line := s[..end];
    var rest := s[NextLineStart(s, end)..];
    var replacedRest := ReplaceNewLinesWith(rest, newLine);
    var tail := SplitLines(rest);
    ReplaceFirstLine(s, newLine);
    LineBreakEnding(s, end);
    if rest == [] {
      assert SplitLines(s) == [line];
    } else {
      var joinedTail := Interleave(tail, newLine);
      var trailer := if EndsWithLineBreak(rest) then newLine else "";
      assert |tail| >= 1;
      assert ([line] + tail)[1..] == tail;
      assert Interleave(SplitLines(s), newLine) == line + newLine + joinedTail;
      calc {
        ReplaceNewLinesWith(s, newLine);
        line + (newLine + replacedRest);
        line + (newLine + (joinedTail + trailer));
        { Regroup(line, newLine, joinedTail, trailer); }
        line + newLine + joinedTail + trailer;
        Interleave(SplitLines(s), newLine) + trailer;
      }
    }
  }

  // ---------------------------------------------------------------------------
  // Words (a split at every maximal run of white space)
  // ---------------------------------------------------------------------------

  /** The inclusive character ranges that .NET's `\s` matches: `\t`..`\r`,
      U+0085 and the Unicode separator categories (Zs, Zl, Zp). */
  const WhiteSpaceRanges: seq<(char, char)> := [
    ('\t', '\r'), (' ', ' '), ('\U{0085}', '\U{0085}'), ('\U{00A0}', '\U{00A0}'),
    ('\U{1680}', '\U{1680}'), ('\U{2000}', '\U{200A}'), ('\U{2028}', '\U{2029}'),
    ('\U{202F}', '\U{202F}'), ('\U{205F}', '\U{205F}'), ('\U{3000}', '\U{3000}')
  ]

  predicate InRanges(c: char, ranges: seq<(char, char)>)
  {
    |ranges| > 0 && (ranges[0].0 <= c <= ranges[0].1 || InRanges(c, ranges[1..]))
  }

  predicate IsWhiteSpace(c: char)
  {
    InRanges(c, WhiteSpaceRanges)
  }

  predicate HasNoWhiteSpace(s: string)
  {
    forall k :: 0 <= k < |s| ==> !IsWhiteSpace(s[k])
  }

  /** Index of the first white-space character, or |s|. */
  function WhiteSpaceIndex(s: string): (start: nat)
    ensures start <= |s|
    ensures start < |s| ==> IsWhiteSpace(s[start])
  {
    if s == [] then 0
    else if IsWhiteSpace(s[0]) then 0
    else WhiteSpaceIndex(s[1..]) + 1
  }

  /** Everything before the first white-space character is free of white space. */
  lemma {:induction false} WhiteSpaceIndexSkipsWord(s: string)
    ensures HasNoWhiteSpace(s[..WhiteSpaceIndex(s)])
    decreases |s|
  {
    if s != [] && !IsWhiteSpace(s[0]) {
      var k := WhiteSpaceIndex(s[1..]);
      WhiteSpaceIndexSkipsWord(s[1..]);
      assert s[..k + 1] == [s[0]] + s[1..][..k];
    }
  }

  /** Text with white space at index `i` has its first white space no later than `i`. */
  lemma {:induction false} WhiteSpaceIndexFound(s: string, i: nat)
    requires i < |s| && IsWhiteSpace(s[i])
    ensures WhiteSpaceIndex(s) <= i
    decreases i
  {
    if !IsWhiteSpace(s[0]) {
      WhiteSpaceIndexFound(s[1..], i - 1);
    }
  }

  /** Length of the maximal run of white space at the front of `s`. */
  function WhiteSpaceRun(s: string): (length: nat)
    ensures length <= |s|
    ensures |s| > 0 && IsWhiteSpace(s[0]) ==> length >= 1
    ensures length < |s| ==> !IsWhiteSpace(s[length])
  {
    if s == [] || !IsWhiteSpace(s[0]) then 0
    else 1 + WhiteSpaceRun(s[1..])
  }

  /** The run is white space throughout. */
  lemma {:induction false} WhiteSpaceRunIsBlank(s: string)
    ensures forall k :: 0 <= k < WhiteSpaceRun(s) ==> IsWhiteSpace(s[k])
    decreases |s|
  {
    if s != [] && IsWhiteSpace(s[0]) {
      WhiteSpaceRunIsBlank(s[1..]);
      assert forall k :: 1 <= k < WhiteSpaceRun(s) ==> s[k] == s[1..][k - 1];
    }
  }

  /** The pieces between the maximal runs of white space, as a split on the
      pattern `\s+` gives them: leading or trailing white space gives an empty
      first or last piece, and text without white space is one piece. */
  function Words(text: string): (words: seq<string>)
    ensures HasNoWhiteSpace(text) ==> words == [text]
    decreases |text|
  {
    var start := WhiteSpaceIndex(text);
    if start == |text| then [text]
    else
      var fromRun := text[start..];
      [text[..start]] + Words(fromRun[WhiteSpaceRun(fromRun)..])
  }

  /** There is always at least one piece; no piece holds white space; the
      pieces between two runs are non-empty, and so is the first unless the
      text starts with white space. */
  lemma {:induction false} WordsShape(text: string)
    ensures var words := Words(text);
      && |words| >= 1
      && (forall k :: 0 <= k < |words| ==> HasNoWhiteSpace(words[k]))
      && (|text| > 0 && !IsWhiteSpace(text[0]) ==> words[0] != "")
      && (forall k :: 0 < k < |words| - 1 ==> words[k] != "")
    decreases |text|
  {
    var start := WhiteSpaceIndex(text);
    WhiteSpaceIndexSkipsWord(text);
    if start == |text| {
      assert text[..start] == text;
    } else {
      var fromRun := text[start..];
      var rest := fromRun[WhiteSpaceRun(fromRun)..];
      WordsShape(rest);
      var tail := Words(rest);
      assert |rest| > 0 ==> !IsWhiteSpace(rest[0]);
      var words := [text[..start]] + tail;
      assert Words(text) == words;
      assert forall k :: 0 < k < |words| ==> words[k] == tail[k - 1];
    }
  }

  /** White space at the front gives an empty first piece. */
  lemma WordsLeadingWhiteSpace(text: string)
    requires |text| > 0 && IsWhiteSpace(text[0])
    ensures Words(text)[0] == ""
  {
    assert WhiteSpaceIndex(text) == 0;
    WordsUnfold(text);
  }

  /** White space at the end gives an empty last piece. */
  lemma {:induction false} WordsTrailingWhiteSpace(text: string)
    requires |text| > 0 && IsWhiteSpace(text[|text| - 1])
    ensures Words(text)[|Words(text)| - 1] == ""
    decreases |text|
  {
    WhiteSpaceIndexFound(text, |text| - 1);
    var start := WhiteSpaceIndex(text);
    var fromRun := text[start..];
    var rest := fromRun[WhiteSpaceRun(fromRun)..];
    WordsUnfold(text);
    var tail := Words(rest);
    assert |tail| >= 1;
    if |rest| > 0 {
      assert rest[|rest| - 1] == text[|text| - 1];
      WordsTrailingWhiteSpace(rest);
    } else {
      assert Words(rest) == [rest];
    }
    LastOfCons(text[..start], tail, Words(text));
  }

  /** Text that does not end in white space ends with a non-empty piece. */
  lemma {:induction false} WordsEndWithWord(text: string)
    requires |text| > 0 && !IsWhiteSpace(text[|text| - 1])
    ensures Words(text)[|Words(text)| - 1] != ""
    decreases |text|
  {
    var start := WhiteSpaceIndex(text);
    if start == |text| {
      assert Words(text) == [text];
    } else {
      var fromRun := text[start..];
      var rest := fromRun[WhiteSpaceRun(fromRun)..];
      WordsUnfold(text);
      WhiteSpaceRunIsBlank(fromRun);
      assert fromRun[|fromRun| - 1] == text[|text| - 1];
      assert |rest| > 0;
      assert rest[|rest| - 1] == text[|text| - 1];
      WordsEndWithWord(rest);
      LastOfCons(text[..start], Words(rest), Words(text));
    }
  }

  // Sequence-algebra helper; it models nothing of its own.
  lemma LastOfCons(head: string, tail: seq<string>, whole: seq<string>)
    requires whole == [head] + tail && |tail| > 0
    ensures whole[|whole| - 1] == tail[|tail| - 1]
  {
  }

  /** `text` with every white-space character removed. */
  function WithoutWhiteSpace(text: string): string
  {
    if text == [] then ""
    else if IsWhiteSpace(text[0]) then WithoutWhiteSpace(text[1..])
    else [text[0]] + WithoutWhiteSpace(text[1..])
  }

  lemma {:induction false} WithoutWhiteSpaceAppend(a: string, b: string)
    ensures WithoutWhiteSpace(a + b) == WithoutWhiteSpace(a) + WithoutWhiteSpace(b)
    decreases |a|
  {
    if a == [] {
      assert a + b == b;
    } else {
      assert (a + b)[1..] == a[1..] + b;
      WithoutWhiteSpaceAppend(a[1..], b);
    }
  }

  lemma {:induction false} WithoutWhiteSpacePlain(s: string)
    requires HasNoWhiteSpace(s)
    ensures WithoutWhiteSpace(s) == s
    decreases |s|
  {
    if s != [] {
      WithoutWhiteSpacePlain(s[1..]);
    }
  }

  lemma {:induction false} WithoutWhiteSpaceBlank(s: string)
    requires forall k :: 0 <= k < |s| ==> IsWhiteSpace(s[k])
    ensures WithoutWhiteSpace(s) == ""
    decreases |s|
  {
    if s != [] {
      WithoutWhiteSpaceBlank(s[1..]);
    }
  }

  /** The words, put back together, are the text without its white space: no
      character other than white space is lost, added or moved. */
  lemma {:induction false} WordsKeepEveryOtherCharacter(text: string)
    ensures Flatten(Words(text)) == WithoutWhiteSpace(text)
    decreases |text|
  {
    var start := WhiteSpaceIndex(text);
    WhiteSpaceIndexSkipsWord(text);
    if start == |text| {
      assert text[..start] == text;
      assert Words(text) == [text];
      WithoutWhiteSpacePlain(text);
      FlattenStep(Words(text), text, [], "", WithoutWhiteSpace(text));
    } else {
      var word := text[..start];
      var fromRun := text[start..];
      var run := fromRun[..WhiteSpaceRun(fromRun)];
      var rest := fromRun[WhiteSpaceRun(fromRun)..];
      WordsUnfold(text);
      WhiteSpaceRunIsBlank(fromRun);
      ThreeSlices(text, start, WhiteSpaceRun(fromRun));
      WordsKeepEveryOtherCharacter(rest);
      WordStep(text, word, run, rest, Flatten(Words(rest)));
      FlattenStep(Words(text), word, Words(rest), Flatten(Words(rest)), WithoutWhiteSpace(text));
    }
  }

  /** The runs of white space Words splits at, in order. */
  function Runs(text: string): seq<string>
    decreases |text|
  {
    var start := WhiteSpaceIndex(text);
    if start == |text| then []
    else
      var fromRun := text[start..];
      var n := WhiteSpaceRun(fromRun);
      [fromRun[..n]] + Runs(fromRun[n..])
  }

  lemma RunsUnfold(text: string)
    requires WhiteSpaceIndex(text) < |text|
    ensures var start := WhiteSpaceIndex(text);
      var fromRun := text[start..];
      var n := WhiteSpaceRun(fromRun);
      Runs(text) == [fromRun[..n]] + Runs(fromRun[n..])
  {
  }

  /** Non-empty and white space throughout. */
  predicate IsBlank(s: string)
  {
    |s| > 0 && forall k :: 0 <= k < |s| ==> IsWhiteSpace(s[k])
  }

  /** `words[0] + runs[0] + words[1] + ... + runs[n - 2] + words[n - 1]`. */
  function Rebuild(words: seq<string>, runs: seq<string>): string
    requires |words| == |runs| + 1
    decreases |runs|
  {
    if runs == [] then words[0]
    else words[0] + (runs[0] + Rebuild(words[1..], runs[1..]))
  }

  /** The text is its pieces with the white-space runs put back between them,
      each run non-empty and blank: Words splits at every run of white space
      and nowhere else. */
  lemma {:induction false} WordsRebuild(text: string)
    ensures |Words(text)| == |Runs(text)| + 1
    ensures Rebuild(Words(text), Runs(text)) == text
    ensures forall k :: 0 <= k < |Runs(text)| ==> IsBlank(Runs(text)[k])
    decreases |text|
  {
    var start := WhiteSpaceIndex(text);
    if start == |text| {
      assert text[..start] == text;
      assert Words(text) == [text] && Runs(text) == [];
    } else {
      var word := text[..start];
      var fromRun := text[start..];
      var n := WhiteSpaceRun(fromRun);
      var run := fromRun[..n];
      var rest := fromRun[n..];
      WordsUnfold(text);
      RunsUnfold(text);
      WhiteSpaceRunIsBlank(fromRun);
      assert fromRun[0] == text[start];
      assert IsBlank(run);
      ThreeSlices(text, start, n);
      WordsRebuild(rest);
      RebuildStep(Words(text), Runs(text), word, run, Words(rest), Runs(rest), text);
    }
  }

  lemma RebuildStep(words: seq<string>, runs: seq<string>, word: string, run: string,
                    tailWords: seq<string>, tailRuns: seq<string>, text: string)
    requires words == [word] + tailWords && runs == [run] + tailRuns
    requires |tailWords| == |tailRuns| + 1
    requires text == word + (run + Rebuild(tailWords, tailRuns))
    requires IsBlank(run) && forall k :: 0 <= k < |tailRuns| ==> IsBlank(tailRuns[k])
    ensures |words| == |runs| + 1 && Rebuild(words, runs) == text
    ensures forall k :: 0 <= k < |runs| ==> IsBlank(runs[k])
  {
    assert words[1..] == tailWords && runs[1..] == tailRuns;
    forall k | 0 <= k < |runs|
      ensures IsBlank(runs[k])
    {
      if k > 0 {
        assert runs[k] == tailRuns[k - 1];
      }
    }
  }

  lemma ThreeSlices(s: string, i: nat, n: nat)
    requires i <= |s| && n <= |s| - i
    ensures s == s[..i] + (s[i..][..n] + s[i..][n..])
  {
    assert s[i..] == s[i..][..n] + s[i..][n..];
    assert s == s[..i] + s[i..];
  }

  lemma FlattenStep(whole: seq<string>, word: string, tail: seq<string>, flatTail: string, target: string)
    requires whole == [word] + tail && Flatten(tail) == flatTail && word + flatTail == target
    ensures Flatten(whole) == target
  {
    assert whole[1..] == tail;
  }

  lemma WordStep(text: string, word: string, run: string, rest: string, flatTail: string)
    requires text == word + (run + rest)
    requires HasNoWhiteSpace(word)
    requires forall k :: 0 <= k < |run| ==> IsWhiteSpace(run[k])
    requires flatTail == WithoutWhiteSpace(rest)
    ensures word + flatTail == WithoutWhiteSpace(text)
  {
    WithoutWhiteSpacePlain(word);
    WithoutWhiteSpaceBlank(run);
    WithoutWhiteSpaceAppend(run, rest);
    WithoutWhiteSpaceAppend(word, run + rest);
    assert WithoutWhiteSpace(run + rest) == WithoutWhiteSpace(rest);
  }

  lemma WordsOneCharThenSpace(c: char, space: char, tail: string)
    requires !IsWhiteSpace(c) && IsWhiteSpace(space)
    requires tail != [] && !IsWhiteSpace(tail[0])
    ensures Words([c, space] + tail) == [[c]] + Words(tail)
  {
    var text := [c, space] + tail;
    var fromRun := [space] + tail;
    assert text[1..] == fromRun;
    assert WhiteSpaceIndex(fromRun) == 0;
    assert WhiteSpaceIndex(text) == 1;
    assert fromRun[1..] == tail;
    assert WhiteSpaceRun(tail) == 0;
    assert WhiteSpaceRun(fromRun) == 1;
    assert text[..1] == [c];
    WordsUnfold(text);
  }

  lemma WordsUnfold(text: string)
    requires WhiteSpaceIndex(text) < |text|
    ensures var start := WhiteSpaceIndex(text);
      var fromRun := text[start..];
      Words(text) == [text[..start]] + Words(fromRun[WhiteSpaceRun(fromRun)..])
  {
  }

  /** Three one-letter words with single white-space characters between
      them ("a b c" for one) come out as the three words. */
  lemma WordsExample(a: char, b: char, c: char, space: char)
    requires !IsWhiteSpace(a) && !IsWhiteSpace(b) && !IsWhiteSpace(c) && IsWhiteSpace(space)
    ensures var words := Words([a, space] + ([b, space] + [c]));
      |words| == 3 && words[0] == [a] && words[1] == [b] && words[2] == [c]
  {
    var t1 := [c];
    var t2 := [b, space] + t1;
    assert Words(t1) == [t1];
    WordsOneCharThenSpace(b, space, t1);
    WordsOneCharThenSpace(a, space, t2);
    ThreePieces(Words([a, space] + t2), [a], [b], [c], Words(t2));
  }

  // Sequence-algebra helper; it models nothing of its own.
  lemma ThreePieces(whole: seq<string>, x: string, y: string, z: string, rest: seq<string>)
    requires whole == [x] + rest && rest == [y] + [z]
    ensures |whole| == 3 && whole[0] == x && whole[1] == y && whole[2] == z
  {
  }
}
