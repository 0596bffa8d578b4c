/** `collect_links`: the table of line starts and the binary search that turns a position
    in a document into its line number. */
module LineIndex {

  /** The characters `str.splitlines` ends a line at. */
  predicate Break(c: char)
  {
    var n := c as int;
    10 <= n <= 13 || 28 <= n <= 30 || n == 0x85 || n == 0x2028 || n == 0x2029
  }

  /** The length of the line that starts at `from`, its end included. */
  function LineLength(text: string, from: nat): (k: nat)
    requires from < |text|
    ensures 0 < k <= |text| - from
    ensures forall i :: from <= i < from + k - 1 ==> !Break(text[i]) || (text[i] == '\r' && i == from + k - 2)
    decreases |text| - from
  {
    if text[from] == '\r' && from + 1 < |text| && text[from + 1] == '\n' then 2
    else if Break(text[from]) || from + 1 == |text| then 1
    else 1 + LineLength(text, from + 1)
  }

  /** Where each line starts, from `from` on, and where the text ends. */
  function StartsFrom(text: string, from: nat): (s: seq<nat>)
    requires from <= |text|
    decreases |text| - from
  {
    if from == |text| then [from] else [from] + StartsFrom(text, from + LineLength(text, from))
  }

  ghost function Starts(text: string): seq<nat> { StartsFrom(text, 0) }

  lemma {:induction false} StartsIncrease(text: string, from: nat)
    requires from <= |text|
    ensures var s := StartsFrom(text, from);
            s != [] && s[0] == from && s[|s| - 1] == |text| && forall i, j :: 0 <= i < j < |s| ==> s[i] < s[j]
    decreases |text| - from
  {
    hide LineLength;
    if from < |text| { StartsIncrease(text, from + LineLength(text, from)); }
  }

  /** The reference: count the starts, from the left, that are not beyond the position. */
  function LinesUpTo(starts: seq<nat>, pos: nat): nat
  {
    if starts == [] || starts[0] > pos then 0 else 1 + LinesUpTo(starts[1..], pos)
  }

  lemma {:induction false} LinesUpToExactly(starts: seq<nat>, pos: nat, line: nat)
    requires forall i, j :: 0 <= i < j < |starts| ==> starts[i] < starts[j]
    requires line <= |starts|
    requires forall i :: 0 <= i < line ==> starts[i] <= pos
    requires line < |starts| ==> pos < starts[line]
    ensures LinesUpTo(starts, pos) == line
  {
    if line > 0 { LinesUpToExactly(starts[1..], pos, line - 1); }
  }

  method BuildStarts(text: string) returns (starts: seq<nat>)
    ensures starts == Starts(text)
  {
    starts := [0];
    var at := 0;
    assert starts[..0] == [];
    while at < |text|
      invariant at <= |text| && starts != [] && starts[|starts| - 1] == at
      invariant Starts(text) == starts[..|starts| - 1] + StartsFrom(text, at)
      decreases |text| - at
    {
      ghost var before := starts;
      at := at + LineLength(text, at);
      starts := starts + [at];
      assert starts[..|starts| - 1] == before == before[..|before| - 1] + [before[|before| - 1]];
    }
    assert starts == starts[..|starts| - 1] + [at];
  }

  /** `line_of`: for a position inside the text, the line it lies on, as a linear scan would
      count it; beyond the end, the last line; in an empty text, line one. */
  method LineOf(text: string, starts: seq<nat>, pos: nat) returns (line: nat)
    requires starts == Starts(text)
    ensures pos < |text| ==> 0 < line < |starts| && starts[line - 1] <= pos < starts[line]
    ensures pos < |text| ==> line == LinesUpTo(starts, pos)
    ensures pos >= |text| ==> line == if |starts| == 1 then 1 else |starts| - 1
  {
    StartsIncrease(text, 0);
    var lo, hi := 0, |starts| - 1;
    while lo < hi
      invariant 0 <= lo <= hi < |starts|
      invariant forall i :: 0 <= i < lo ==> starts[i] <= pos
      invariant hi < |starts| - 1 ==> pos < starts[hi]
    {
      var mid := (lo + hi) / 2;
      if starts[mid] <= pos { lo := mid + 1; } else { hi := mid; }
    }
    line := if lo < 1 then 1 else lo;
    if pos < |text| { LinesUpToExactly(starts, pos, line); }
  }

  /** Every line but the last ends in a line break, and has none before it, a carriage return and
      its newline counting as one; so line numbers count the breaks that precede a position. */
  lemma {:induction false} LinesAreLines(text: string, from: nat, k: nat)
    requires from <= |text| && k + 1 < |StartsFrom(text, from)|
    ensures var s := StartsFrom(text, from);
            && from <= s[k] < s[k + 1] <= |text|
            && (s[k + 1] < |text| ==> Break(text[s[k + 1] - 1]))
            && (s[k + 1] < |text| ==> !(text[s[k + 1] - 1] == '\r' && text[s[k + 1]] == '\n'))
            && (forall i :: s[k] <= i < s[k + 1] - 1 && Break(text[i]) ==> text[i] == '\r' && text[i + 1] == '\n')
    decreases |text| - from
  {
    hide LineLength, Break;
    var n := LineLength(text, from);
    StartsIncrease(text, from);
    StartsIncrease(text, from + n);
    LineEnds(text, from);
    if k > 0 { LinesAreLines(text, from + n, k - 1); }
  }

  lemma {:induction false} LineEnds(text: string, from: nat)
    requires from < |text|
    ensures var k := LineLength(text, from);
            && (from + k < |text| ==> Break(text[from + k - 1]))
            && (from + k < |text| ==> !(text[from + k - 1] == '\r' && text[from + k] == '\n'))
            && (forall i :: from <= i < from + k - 1 && Break(text[i]) ==> text[i] == '\r' && text[i + 1] == '\n')
    decreases |text| - from
  {
    if !(text[from] == '\r' && from + 1 < |text| && text[from + 1] == '\n') && !Break(text[from]) && from + 1 < |text| {
      LineEnds(text, from + 1);
    }
  }

  /** The line boundaries the language reference of Python lists for `str.splitlines`. */
  lemma BreaksExactly(c: char)
    ensures Break(c) <==> c in {'\n', '\r', '\U{0B}', '\U{0C}', '\U{1C}', '\U{1D}', '\U{1E}',
                              '\U{85}', '\U{2028}', '\U{2029}'}
  {
    var n := c as int;
    assert n in {10, 13, 11, 12, 28, 29, 30, 0x85, 0x2028, 0x2029} ==>
           c in {10 as char, 13 as char, 11 as char, 12 as char, 28 as char, 29 as char, 30 as char,
                 0x85 as char, 0x2028 as char, 0x2029 as char};
  }
}
