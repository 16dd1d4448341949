/** Splitting text or bytes into lines the way `splitlines` does. */
module Lines {

  /** The characters that end a line; carriage return and line feed together end only one. */
  datatype Breaks<T> = Breaks(cr: T, lf: T, others: set<T>) {
    predicate Ends(c: T) {
      c == cr || c == lf || c in others
    }
  }

  predicate Usable<T(==)>(breaks: Breaks<T>) {
    breaks.cr != breaks.lf
  }

  /** Length of the first line, without what ends it. */
  function LineLength<T(==)>(breaks: Breaks<T>, s: seq<T>): (n: nat)
    ensures n <= |s|
    ensures forall i :: 0 <= i < n ==> !breaks.Ends(s[i])
    ensures n < |s| ==> breaks.Ends(s[n])
  {
    if s == [] || breaks.Ends(s[0]) then 0 else 1 + LineLength(breaks, s[1..])
  }

  /** How much of the text what ends the first line takes. */
  function BreakWidth<T(==)>(breaks: Breaks<T>, s: seq<T>, n: nat): (w: nat)
    requires n <= |s|
    ensures n + w <= |s| && (n < |s| ==> w > 0)
  {
    if n == |s| then 0
    else if s[n] == breaks.cr && n + 1 < |s| && s[n + 1] == breaks.lf then 2
    else 1
  }

  /** What follows the first line and its ending. */
  function AfterFirst<T(==)>(breaks: Breaks<T>, s: seq<T>): (rest: seq<T>)
    ensures s != [] ==> |rest| < |s|
  {
    var n := LineLength(breaks, s);
    s[n + BreakWidth(breaks, s, n)..]
  }

  function SplitLines<T(==)>(breaks: Breaks<T>, s: seq<T>): seq<seq<T>>
    decreases |s|
  {
    if s == [] then [] else [s[..LineLength(breaks, s)]] + SplitLines(breaks, AfterFirst(breaks, s))
  }

  /** A line from `from` to `to`, ended there by the end of the text, by one line-ending character or by a
      carriage return with its line feed; the next line starts at `next`. */
  ghost predicate LineAt<T(!new)>(breaks: Breaks<T>, s: seq<T>, from: nat, to: nat, next: nat) {
    && from <= to <= next <= |s| && from < |s|
    && (forall i :: from <= i < to ==> s[i] != breaks.cr && s[i] != breaks.lf && s[i] !in breaks.others)
    && if to == |s| then next == to
       else
         && (s[to] == breaks.cr || s[to] == breaks.lf || s[to] in breaks.others)
         && next == to + if s[to] == breaks.cr && to + 1 < |s| && s[to + 1] == breaks.lf then 2 else 1
  }

  ghost predicate IsLine<T(!new)>(breaks: Breaks<T>, s: seq<T>, from: nat, next: nat, line: seq<T>) {
    exists to: nat :: LineAt(breaks, s, from, to, next) && line == s[from..to]
  }

  /** The lines of the text from `from` on, each starting where the one before it ended. */
  ghost predicate LinesFrom<T(!new)>(breaks: Breaks<T>, s: seq<T>, from: nat, starts: seq<nat>, lines: seq<seq<T>>) {
    && |starts| == |lines| + 1 && starts[0] == from && starts[|lines|] == |s|
    && forall k :: 0 <= k < |lines| ==> IsLine(breaks, s, starts[k], starts[k + 1], lines[k])
  }

  /** Splitting gives exactly the lines. */
  lemma {:induction false} SplitsAtEndings<T(!new)>(breaks: Breaks<T>, s: seq<T>, from: nat) returns (starts: seq<nat>)
    requires from <= |s|
    ensures LinesFrom(breaks, s, from, starts, SplitLines(breaks, s[from..]))
    decreases |s| - from
  {
    hide SplitLines, IsLine;
    var rest := s[from..];
    if from == |s| {
      NoLines(breaks, rest);
      starts := [from];
    } else {
      var n := LineLength(breaks, rest);
      var next := from + n + BreakWidth(breaks, rest, n);
      SplitUnfolds(breaks, rest);
      assert AfterFirst(breaks, rest) == s[next..] && rest[..n] == s[from..from + n];
      FirstLineAt(breaks, s, from);
      var more := SplitsAtEndings(breaks, s, next);
      starts := [from] + more;
    }
  }

  lemma FirstLineAt<T(!new)>(breaks: Breaks<T>, s: seq<T>, from: nat)
    requires from < |s|
    ensures var n := LineLength(breaks, s[from..]);
            var next := from + n + BreakWidth(breaks, s[from..], n);
            next <= |s| && IsLine(breaks, s, from, next, s[from..from + n])
  {
    hide LineLength;
    var n := LineLength(breaks, s[from..]);
    forall i | from <= i < from + n ensures !breaks.Ends(s[i]) {
      assert s[i] == s[from..][i - from];
    }
    assert LineAt(breaks, s, from, from + n, from + n + BreakWidth(breaks, s[from..], n));
  }

  lemma SplitUnfolds<T>(breaks: Breaks<T>, s: seq<T>)
    requires s != []
    ensures SplitLines(breaks, s) == [s[..LineLength(breaks, s)]] + SplitLines(breaks, AfterFirst(breaks, s))
  {
  }

  lemma {:induction false} LineLengthInside<T>(breaks: Breaks<T>, a: seq<T>, b: seq<T>)
    requires a != [] && a[|a| - 1] == breaks.lf
    ensures LineLength(breaks, a) < |a|
    ensures LineLength(breaks, a + b) == LineLength(breaks, a)
  {
    if !breaks.Ends(a[0]) {
      assert (a + b)[1..] == a[1..] + b;
      LineLengthInside(breaks, a[1..], b);
    }
  }

  lemma FirstLineStays<T>(breaks: Breaks<T>, a: seq<T>, b: seq<T>)
    requires Usable(breaks)
    requires a != [] && a[|a| - 1] == breaks.lf
    ensures (a + b)[..LineLength(breaks, a + b)] == a[..LineLength(breaks, a)]
    ensures AfterFirst(breaks, a + b) == AfterFirst(breaks, a) + b
    ensures var rest := AfterFirst(breaks, a); rest == [] || rest[|rest| - 1] == breaks.lf
  {
    LineLengthInside(breaks, a, b);
    var n := LineLength(breaks, a);
    assert BreakWidth(breaks, a + b, n) == BreakWidth(breaks, a, n);
  }

  /** Text cut just after a line feed splits into the lines of its two parts. */
  lemma {:induction false} SplitAfterLineFeed<T>(breaks: Breaks<T>, a: seq<T>, b: seq<T>)
    requires Usable(breaks)
    requires a == [] || a[|a| - 1] == breaks.lf
    ensures SplitLines(breaks, a + b) == SplitLines(breaks, a) + SplitLines(breaks, b)
    decreases |a|
  {
    hide SplitLines, LineLength, AfterFirst;
    if a == [] {
      assert a + b == b;
      NoLines(breaks, a);
      assert SplitLines(breaks, a) + SplitLines(breaks, b) == SplitLines(breaks, b);
    } else {
      FirstLineStays(breaks, a, b);
      SplitUnfolds(breaks, a);
      SplitUnfolds(breaks, a + b);
      SplitAfterLineFeed(breaks, AfterFirst(breaks, a), b);
    }
  }

  lemma NoLines<T>(breaks: Breaks<T>, s: seq<T>)
    requires s == []
    ensures SplitLines(breaks, s) == []
  {
  }

  function Count<T(==)>(s: seq<T>, c: T): nat {
    if s == [] then 0 else (if s[0] == c then 1 else 0) + Count(s[1..], c)
  }

  /** Counting gives the number of occurrences. */
  lemma {:induction false} CountIsMultiplicity<T>(s: seq<T>, c: T)
    ensures Count(s, c) == multiset(s)[c]
  {
    if s != [] {
      CountIsMultiplicity(s[1..], c);
      assert s == [s[0]] + s[1..];
    }
  }

  lemma {:induction false} CountSplits<T>(a: seq<T>, b: seq<T>, c: T)
    ensures Count(a + b, c) == Count(a, c) + Count(b, c)
  {
    if a == [] {
      assert a + b == b;
    } else {
      assert (a + b)[1..] == a[1..] + b;
      CountSplits(a[1..], b, c);
    }
  }

  lemma {:induction false} CountAbsent<T>(s: seq<T>, c: T)
    requires c !in s
    ensures Count(s, c) == 0
  {
    if s != [] {
      CountAbsent(s[1..], c);
    }
  }

  lemma EndingHasOneLineFeed<T>(breaks: Breaks<T>, s: seq<T>, n: nat)
    requires Usable(breaks) && n <= |s|
    ensures Count(s[n..n + BreakWidth(breaks, s, n)], breaks.lf) <= 1
  {
    var ending := s[n..n + BreakWidth(breaks, s, n)];
    if |ending| == 2 {
      assert ending == [breaks.cr] + [breaks.lf];
      CountSplits([breaks.cr], [breaks.lf], breaks.lf);
    }
  }

  lemma OneLineFeedALine<T>(breaks: Breaks<T>, s: seq<T>)
    requires Usable(breaks)
    ensures Count(s, breaks.lf) <= 1 + Count(AfterFirst(breaks, s), breaks.lf)
  {
    hide Count, LineLength;
    var n := LineLength(breaks, s);
    var line, ending, rest := s[..n], s[n..n + BreakWidth(breaks, s, n)], AfterFirst(breaks, s);
    assert ending + rest == s[n..] && s == line + s[n..];
    CountSplits(line, s[n..], breaks.lf);
    CountSplits(ending, rest, breaks.lf);
    CountAbsent(line, breaks.lf);
    EndingHasOneLineFeed(breaks, s, n);
  }

  /** There are at least as many lines as line feeds. */
  lemma {:induction false} LineFeedsEndLines<T>(breaks: Breaks<T>, s: seq<T>)
    requires Usable(breaks)
    ensures |SplitLines(breaks, s)| >= Count(s, breaks.lf)
    decreases |s|
  {
    hide SplitLines, LineLength, AfterFirst;
    if s != [] {
      OneLineFeedALine(breaks, s);
      SplitUnfolds(breaks, s);
      LineFeedsEndLines(breaks, AfterFirst(breaks, s));
    }
  }

  /** The last `limit` lines, or all of them when there are fewer. */
  function Last<T>(lines: seq<T>, limit: nat): (last: seq<T>)
    ensures |last| <= limit && |last| <= |lines| && (|last| == limit || |last| == |lines|)
    ensures lines[|lines| - |last|..] == last
  {
    if |lines| <= limit then lines else lines[|lines| - limit..]
  }

  /** Once a suffix holds more than `limit` line feeds, its last lines are those of the whole text,
      whatever the text before it and wherever the suffix was cut off. */
  lemma LastLinesOfSuffix<T>(breaks: Breaks<T>, before: seq<T>, suffix: seq<T>, limit: nat)
    requires Usable(breaks) && Count(suffix, breaks.lf) > limit
    ensures Last(SplitLines(breaks, before + suffix), limit) == Last(SplitLines(breaks, suffix), limit)
  {
    var k := FirstOf(suffix, breaks.lf);
    var head, tail := suffix[..k + 1], suffix[k + 1..];
    assert suffix == head + tail && before + suffix == (before + head) + tail;
    SplitAfterLineFeed(breaks, head, tail);
    SplitAfterLineFeed(breaks, before + head, tail);
    CountSplits(head, tail, breaks.lf);
    CountFirst(suffix, breaks.lf);
    LineFeedsEndLines(breaks, tail);
    LastOfJoin(SplitLines(breaks, head), SplitLines(breaks, tail), limit);
    LastOfJoin(SplitLines(breaks, before + head), SplitLines(breaks, tail), limit);
  }

  lemma LastOfJoin<T>(a: seq<T>, b: seq<T>, limit: nat)
    requires |b| >= limit
    ensures Last(a + b, limit) == Last(b, limit)
  {
  }

  /** Position of the first occurrence. */
  function FirstOf<T(==)>(s: seq<T>, c: T): (k: nat)
    requires Count(s, c) > 0
    ensures k < |s| && s[k] == c
  {
    if s[0] == c then 0 else 1 + FirstOf(s[1..], c)
  }

  lemma {:induction false} CountFirst<T>(s: seq<T>, c: T)
    requires Count(s, c) > 0
    ensures Count(s[..FirstOf(s, c) + 1], c) == 1
  {
    var head := s[..FirstOf(s, c) + 1];
    if s[0] == c {
      assert head[1..] == [];
    } else {
      CountFirst(s[1..], c);
      assert head[1..] == s[1..][..FirstOf(s[1..], c) + 1];
    }
  }

  ghost predicate HoldsNoBreak<T>(breaks: Breaks<T>, line: seq<T>) {
    forall i :: 0 <= i < |line| ==> !breaks.Ends(line[i])
  }

  /** A line written after complete lines, with its line feed, adds exactly itself. */
  lemma AppendedLine<T>(breaks: Breaks<T>, s: seq<T>, line: seq<T>)
    requires Usable(breaks)
    requires s == [] || s[|s| - 1] == breaks.lf
    requires HoldsNoBreak(breaks, line)
    ensures SplitLines(breaks, s + (line + [breaks.lf])) == SplitLines(breaks, s) + [line]
  {
    hide SplitLines, LineLength;
    SplitAfterLineFeed(breaks, s, line + [breaks.lf]);
    LengthOfLine(breaks, line);
    SplitUnfolds(breaks, line + [breaks.lf]);
    NoLines(breaks, AfterFirst(breaks, line + [breaks.lf]));
  }

  lemma {:induction false} LengthOfLine<T>(breaks: Breaks<T>, line: seq<T>)
    requires HoldsNoBreak(breaks, line)
    ensures LineLength(breaks, line + [breaks.lf]) == |line|
  {
    if line != [] {
      assert (line + [breaks.lf])[1..] == line[1..] + [breaks.lf];
      LengthOfLine(breaks, line[1..]);
    }
  }

  lemma {:induction false} LinesHoldNoBreak<T>(breaks: Breaks<T>, s: seq<T>, k: nat)
    requires k < |SplitLines(breaks, s)|
    ensures HoldsNoBreak(breaks, SplitLines(breaks, s)[k])
    decreases |s|
  {
    if s != [] && k > 0 {
      LinesHoldNoBreak(breaks, AfterFirst(breaks, s), k - 1);
    }
  }

  /** Text that does not end in a line ending ends with its last line. */
  lemma {:induction false} LastLineEndsText<T>(breaks: Breaks<T>, s: seq<T>)
    requires s != [] && !breaks.Ends(s[|s| - 1])
    ensures var lines := SplitLines(breaks, s);
            && lines != [] && lines[|lines| - 1] != []
            && lines[|lines| - 1][|lines[|lines| - 1]| - 1] == s[|s| - 1]
    decreases |s|
  {
    hide SplitLines, LineLength;
    var rest := AfterFirst(breaks, s);
    SplitUnfolds(breaks, s);
    if rest == [] {
      NoLines(breaks, rest);
    } else {
      assert rest[|rest| - 1] == s[|s| - 1];
      LastLineEndsText(breaks, rest);
    }
  }
}
