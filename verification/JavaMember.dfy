/** The block of lines by which a member is inserted into a Java type. */
module JavaMember {
  import opened Lines
  import opened PyString

  // ---------------------------------------------------------------- from member to block

  const TEXT_BREAKS: Breaks<char> :=
    Breaks('\r', '\n', {'\U{000b}', '\U{000c}', '\U{001c}', '\U{001d}', '\U{001e}', '\U{0085}', '\U{2028}', '\U{2029}'})

  function Join(lines: seq<string>): string {
    if lines == [] then "" else if |lines| == 1 then lines[0] else lines[0] + "\n" + Join(lines[1..])
  }

  /** Import and package lines are no part of the member's code. */
  predicate IsMemberLine(line: string) {
    !("import " <= Strip(line)) && !("package " <= Strip(line))
  }

  function MemberLine(line: string): seq<string> {
    if IsMemberLine(line) then [line] else []
  }

  function MemberLines(lines: seq<string>): seq<string> {
    if lines == [] then [] else MemberLine(lines[0]) + MemberLines(lines[1..])
  }

  function MemberCode(member: string): string {
    Strip(Join(MemberLines(SplitLines(TEXT_BREAKS, Strip(member)))))
  }

  function Indent(line: string): string {
    if line == "" then "" else "    " + line
  }

  function Indented(lines: seq<string>): seq<string> {
    if lines == [] then [] else [Indent(lines[0])] + Indented(lines[1..])
  }

  function Block(member: string): string {
    StripRight(Join(Indented(SplitLines(TEXT_BREAKS, MemberCode(member)))))
  }

  lemma {:induction false} MemberLinesGrow(lines: seq<string>, line: string)
    ensures MemberLines(lines + [line]) == MemberLines(lines) + MemberLine(line)
  {
    hide MemberLine;
    var all := lines + [line];
    if lines == [] {
      assert all[0] == line && all[1..] == [];
    } else {
      assert all[0] == lines[0] && all[1..] == lines[1..] + [line];
      MemberLinesGrow(lines[1..], line);
    }
  }

  lemma {:induction false} IndentedGrow(lines: seq<string>, line: string)
    ensures Indented(lines + [line]) == Indented(lines) + [Indent(line)]
  {
    hide Indent;
    var all := lines + [line];
    if lines == [] {
      assert all[0] == line && all[1..] == [];
    } else {
      assert all[0] == lines[0] && all[1..] == lines[1..] + [line];
      IndentedGrow(lines[1..], line);
    }
  }

  lemma FirstOfJoin(line: string, rest: string)
    requires HoldsNoBreak(TEXT_BREAKS, line)
    ensures LineLength(TEXT_BREAKS, line + "\n" + rest) == |line|
    ensures AfterFirst(TEXT_BREAKS, line + "\n" + rest) == rest
  {
    LengthOfLine(TEXT_BREAKS, line);
    LineLengthInside(TEXT_BREAKS, line + "\n", rest);
  }

  /** Joined lines split again into the same lines, unless the last one is empty. */
  lemma {:induction false} JoinThenSplit(lines: seq<string>)
    requires lines != [] && lines[|lines| - 1] != ""
    requires forall k :: 0 <= k < |lines| ==> HoldsNoBreak(TEXT_BREAKS, lines[k])
    ensures SplitLines(TEXT_BREAKS, Join(lines)) == lines
  {
    hide SplitLines, LineLength, AfterFirst, HoldsNoBreak;
    if |lines| == 1 {
      OneLine(lines[0]);
    } else {
      var all := Join(lines);
      assert HoldsNoBreak(TEXT_BREAKS, lines[0]);
      FirstOfJoin(lines[0], Join(lines[1..]));
      SplitUnfolds(TEXT_BREAKS, all);
      JoinThenSplit(lines[1..]);
      assert all[..|lines[0]|] == lines[0];
    }
  }

  lemma OneLine(line: string)
    requires line != "" && HoldsNoBreak(TEXT_BREAKS, line)
    ensures SplitLines(TEXT_BREAKS, line) == [line]
  {
    assert LineLength(TEXT_BREAKS, line) == |line|;
    assert line[..|line|] == line && line[|line|..] == "";
    SplitUnfolds(TEXT_BREAKS, line);
    NoLines(TEXT_BREAKS, AfterFirst(TEXT_BREAKS, line));
  }

  lemma {:induction false} IndentedAt(lines: seq<string>, k: nat)
    requires k < |lines|
    ensures |Indented(lines)| == |lines| && Indented(lines)[k] == Indent(lines[k])
  {
    hide Indent;
    if k > 0 {
      IndentedAt(lines[1..], k - 1);
    } else if |lines| > 1 {
      IndentedAt(lines[1..], 0);
    }
  }

  lemma {:induction false} JoinEnds(lines: seq<string>)
    requires lines != [] && lines[|lines| - 1] != ""
    ensures Join(lines) != "" && Join(lines)[|Join(lines)| - 1] == lines[|lines| - 1][|lines[|lines| - 1]| - 1]
  {
    if |lines| > 1 {
      JoinEnds(lines[1..]);
    }
  }

  /** The lines of the block are the lines of the member's code, each indented, in order. */
  lemma BlockKeepsLines(member: string)
    requires MemberCode(member) != ""
    ensures SplitLines(TEXT_BREAKS, Block(member)) == Indented(SplitLines(TEXT_BREAKS, MemberCode(member)))
  {
    hide SplitLines, Join, Indented, MemberCode, HoldsNoBreak;
    var code := MemberCode(member);
    CodeEndsVisibly(member);
    BreaksAreSpaces(code[|code| - 1]);
    LastLineEndsText(TEXT_BREAKS, code);
    var lines := SplitLines(TEXT_BREAKS, code);
    var indented := Indented(lines);
    forall k | 0 <= k < |lines|
      ensures |indented| == |lines| && indented[k] == Indent(lines[k]) && HoldsNoBreak(TEXT_BREAKS, indented[k])
    {
      IndentedAt(lines, k);
      LinesHoldNoBreak(TEXT_BREAKS, code, k);
      IndentHoldsNoBreak(lines[k]);
    }
    JoinEnds(indented);
    assert StripRight(Join(indented)) == Join(indented);
    JoinThenSplit(indented);
  }

  lemma CodeEndsVisibly(member: string)
    requires MemberCode(member) != ""
    ensures !IsSpace(MemberCode(member)[|MemberCode(member)| - 1])
  {
    StripRightEnds(StripLeft(Join(MemberLines(SplitLines(TEXT_BREAKS, Strip(member))))));
  }

  lemma BreaksAreSpaces(c: char)
    ensures TEXT_BREAKS.Ends(c) ==> IsSpace(c)
  {
  }

  lemma IndentHoldsNoBreak(line: string)
    requires HoldsNoBreak(TEXT_BREAKS, line)
    ensures HoldsNoBreak(TEXT_BREAKS, Indent(line))
  {
  }

  /** `picked` are the lines at the positions `at`, in their order, and the member lines are all there. */
  ghost predicate PickedAt(lines: seq<string>, picked: seq<string>, at: seq<nat>) {
    && |at| == |picked|
    && (forall k :: 0 <= k < |at| ==> at[k] < |lines| && picked[k] == lines[at[k]] && IsMemberLine(picked[k]))
    && (forall j, k :: 0 <= j < k < |at| ==> at[j] < at[k])
    && (forall i :: 0 <= i < |lines| && IsMemberLine(lines[i]) ==> i in at)
  }

  lemma PickOne(lines: seq<string>, picked: seq<string>, at: seq<nat>, line: string)
    requires PickedAt(lines, picked, at) && IsMemberLine(line)
    ensures PickedAt(lines + [line], picked + [line], at + [|lines|])
  {
    hide IsMemberLine;
    var all, more := lines + [line], at + [|lines|];
    forall i | 0 <= i < |all| && IsMemberLine(all[i]) ensures i in more {
      if i < |lines| {
        assert all[i] == lines[i] && i in at;
      } else {
        assert more[|at|] == i;
      }
    }
  }

  lemma PickNone(lines: seq<string>, picked: seq<string>, at: seq<nat>, line: string)
    requires PickedAt(lines, picked, at) && !IsMemberLine(line)
    ensures PickedAt(lines + [line], picked, at)
  {
    hide IsMemberLine;
    var all := lines + [line];
    forall i | 0 <= i < |all| && IsMemberLine(all[i]) ensures i in at {
      assert i < |lines| && all[i] == lines[i];
    }
  }

  /** Exactly the lines that are no import and no package line are kept, in their order. */
  lemma {:induction false} MemberLinesInOrder(lines: seq<string>) returns (at: seq<nat>)
    ensures PickedAt(lines, MemberLines(lines), at)
  {
    hide IsMemberLine, PickedAt, MemberLines;
    if lines == [] {
      at := NothingPicked();
    } else {
      var n := |lines| - 1;
      at := MemberLinesInOrder(lines[..n]);
      assert lines == lines[..n] + [lines[n]];
      MemberLinesGrow(lines[..n], lines[n]);
      if IsMemberLine(lines[n]) {
        PickOne(lines[..n], MemberLines(lines[..n]), at, lines[n]);
        at := at + [n];
      } else {
        PickNone(lines[..n], MemberLines(lines[..n]), at, lines[n]);
        assert MemberLines(lines[..n]) + [] == MemberLines(lines[..n]);
      }
    }
  }

  lemma NothingPicked() returns (at: seq<nat>)
    ensures PickedAt([], MemberLines([]), at)
  {
    at := [];
  }

  ghost predicate OnlyMemberLines(lines: seq<string>) {
    forall k :: 0 <= k < |lines| ==> IsMemberLine(lines[k])
  }

  lemma OnlyMemberLinesCons(line: string, rest: seq<string>)
    ensures OnlyMemberLines([line] + rest) <==> IsMemberLine(line) && OnlyMemberLines(rest)
  {
    var all := [line] + rest;
    assert all[0] == line && forall k :: 0 <= k < |rest| ==> all[k + 1] == rest[k];
  }

  lemma {:induction false} JoinKeepsMemberLines(lines: seq<string>)
    requires OnlyMemberLines(lines) && forall k :: 0 <= k < |lines| ==> HoldsNoBreak(TEXT_BREAKS, lines[k])
    ensures OnlyMemberLines(SplitLines(TEXT_BREAKS, Join(lines)))
  {
    hide SplitLines, LineLength, AfterFirst, HoldsNoBreak, IsMemberLine;
    if lines == [] || (|lines| == 1 && lines[0] == "") {
      NoLines(TEXT_BREAKS, Join(lines));
    } else if |lines| == 1 {
      OneLine(lines[0]);
    } else {
      FirstOfJoin(lines[0], Join(lines[1..]));
      SplitUnfolds(TEXT_BREAKS, Join(lines));
      JoinKeepsMemberLines(lines[1..]);
      assert Join(lines)[..|lines[0]|] == lines[0];
      OnlyMemberLinesCons(lines[0], SplitLines(TEXT_BREAKS, Join(lines[1..])));
    }
  }

  lemma EmptyIsMemberLine()
    ensures IsMemberLine("")
  {
  }

  /** Dropping white space in front of a text makes no import or package line. */
  lemma DropFirst(text: string)
    requires text != "" && IsSpace(text[0]) && OnlyMemberLines(SplitLines(TEXT_BREAKS, text))
    ensures OnlyMemberLines(SplitLines(TEXT_BREAKS, text[1..]))
  {
    hide SplitLines, IsMemberLine;
    var rest := text[1..];
    var n := LineLength(TEXT_BREAKS, text);
    SplitUnfolds(TEXT_BREAKS, text);
    OnlyMemberLinesCons(text[..n], SplitLines(TEXT_BREAKS, AfterFirst(TEXT_BREAKS, text)));
    if rest == "" {
      NoLines(TEXT_BREAKS, rest);
    } else if n > 0 || BreakWidth(TEXT_BREAKS, text, 0) == 2 {
      SplitUnfolds(TEXT_BREAKS, rest);
      var m := LineLength(TEXT_BREAKS, rest);
      assert AfterFirst(TEXT_BREAKS, rest) == AfterFirst(TEXT_BREAKS, text);
      assert m == if n > 0 then n - 1 else 0;
      if n > 0 {
        assert rest[..m] == text[..n][1..];
        SpaceOffFront(text[..n]);
      } else {
        assert rest[..m] == "";
        EmptyIsMemberLine();
      }
      OnlyMemberLinesCons(rest[..m], SplitLines(TEXT_BREAKS, AfterFirst(TEXT_BREAKS, rest)));
    }
  }

  lemma SpaceOffFront(line: string)
    requires line != "" && IsSpace(line[0]) && IsMemberLine(line)
    ensures IsMemberLine(line[1..])
  {
    StripIgnoresFirst(line);
  }

  lemma SpaceOffEnd(line: string)
    requires line != "" && IsSpace(line[|line| - 1]) && IsMemberLine(line)
    ensures IsMemberLine(line[..|line| - 1])
  {
    StripIgnoresLast(line);
  }

  lemma LineOnly(line: string)
    requires IsMemberLine(line) && HoldsNoBreak(TEXT_BREAKS, line)
    ensures OnlyMemberLines(SplitLines(TEXT_BREAKS, line))
  {
    if line == "" {
      NoLines(TEXT_BREAKS, line);
    } else {
      OneLine(line);
    }
  }

  /** Dropping white space after a text makes no import or package line. */
  lemma {:induction false} DropLast(text: string)
    requires text != "" && IsSpace(text[|text| - 1]) && OnlyMemberLines(SplitLines(TEXT_BREAKS, text))
    ensures OnlyMemberLines(SplitLines(TEXT_BREAKS, text[..|text| - 1]))
    decreases |text|
  {
    hide SplitLines, IsMemberLine;
    var front := text[..|text| - 1];
    var n := LineLength(TEXT_BREAKS, text);
    var rest := AfterFirst(TEXT_BREAKS, text);
    SplitUnfolds(TEXT_BREAKS, text);
    OnlyMemberLinesCons(text[..n], SplitLines(TEXT_BREAKS, rest));
    if n == |text| {
      assert text[..n] == text;
      SpaceOffEnd(text);
      LineOnly(front);
    } else if n == |text| - 1 {
      LineOnly(text[..n]);
    } else {
      assert front[..n] == text[..n];
      FirstBreakAt(front, n);
      SplitUnfolds(TEXT_BREAKS, front);
      if rest == "" {
        assert AfterFirst(TEXT_BREAKS, front) == "";
        NoLines(TEXT_BREAKS, AfterFirst(TEXT_BREAKS, front));
      } else {
        assert AfterFirst(TEXT_BREAKS, front) == rest[..|rest| - 1];
        DropLast(rest);
      }
      OnlyMemberLinesCons(front[..n], SplitLines(TEXT_BREAKS, AfterFirst(TEXT_BREAKS, front)));
    }
  }

  lemma {:induction false} FirstBreakAt(text: string, n: nat)
    requires n < |text| && TEXT_BREAKS.Ends(text[n]) && forall i :: 0 <= i < n ==> !TEXT_BREAKS.Ends(text[i])
    ensures LineLength(TEXT_BREAKS, text) == n
  {
    if n > 0 {
      FirstBreakAt(text[1..], n - 1);
    }
  }

  lemma {:induction false} StripLeftKeepsMemberLines(text: string)
    requires OnlyMemberLines(SplitLines(TEXT_BREAKS, text))
    ensures OnlyMemberLines(SplitLines(TEXT_BREAKS, StripLeft(text)))
  {
    hide SplitLines;
    if text != "" && IsSpace(text[0]) {
      DropFirst(text);
      StripLeftKeepsMemberLines(text[1..]);
    }
  }

  lemma {:induction false} StripRightKeepsMemberLines(text: string)
    requires OnlyMemberLines(SplitLines(TEXT_BREAKS, text))
    ensures OnlyMemberLines(SplitLines(TEXT_BREAKS, StripRight(text)))
  {
    hide SplitLines;
    if text != "" && IsSpace(text[|text| - 1]) {
      DropLast(text);
      StripRightKeepsMemberLines(text[..|text| - 1]);
    }
  }

  /** The member's code has no import line and no package line left. */
  lemma CodeHasNoImports(member: string)
    ensures OnlyMemberLines(SplitLines(TEXT_BREAKS, MemberCode(member)))
  {
    hide SplitLines, Join, IsMemberLine, HoldsNoBreak;
    var lines := SplitLines(TEXT_BREAKS, Strip(member));
    var kept := MemberLines(lines);
    var at := MemberLinesInOrder(lines);
    forall k | 0 <= k < |kept| ensures IsMemberLine(kept[k]) && HoldsNoBreak(TEXT_BREAKS, kept[k]) {
      LinesHoldNoBreak(TEXT_BREAKS, Strip(member), at[k]);
    }
    JoinKeepsMemberLines(kept);
    StripLeftKeepsMemberLines(Join(kept));
    StripRightKeepsMemberLines(StripLeft(Join(kept)));
  }

  method CleanMember(member: string) returns (code: string)
    ensures code == MemberCode(member)
  {
    hide IsMemberLine, Strip, SplitLines, Join;
    var lines := SplitLines(TEXT_BREAKS, Strip(member));
    var kept: seq<string> := [];
    for i := 0 to |lines|
      invariant kept == MemberLines(lines[..i])
    {
      MemberLinesGrow(lines[..i], lines[i]);
      assert lines[..i + 1] == lines[..i] + [lines[i]];
      if IsMemberLine(lines[i]) {
        kept := kept + [lines[i]];
      }
    }
    assert lines[..|lines|] == lines;
    code := Strip(Join(kept));
  }

  method FormatMember(member: string) returns (block: string)
    ensures block == Block(member)
  {
    hide StripRight, SplitLines, Join, MemberCode, Indent;
    var code := CleanMember(member);
    var lines := SplitLines(TEXT_BREAKS, code);
    var formatted: seq<string> := [];
    for i := 0 to |lines|
      invariant formatted == Indented(lines[..i])
    {
      IndentedGrow(lines[..i], lines[i]);
      assert lines[..i + 1] == lines[..i] + [lines[i]];
      formatted := formatted + [Indent(lines[i])];
    }
    assert lines[..|lines|] == lines;
    block := StripRight(Join(formatted));
  }

  // ---------------------------------------------------------------- the lines of a block

  /** The characters that end a line of text, one by one. */
  lemma TextBreaksListed(c: char)
    ensures TEXT_BREAKS.Ends(c) <==>
              c in {'\n', '\r', '\U{b}', '\U{c}', '\U{1c}', '\U{1d}', '\U{1e}', '\U{85}', '\U{2028}', '\U{2029}'}
  {
  }

  /** The first visible thing on the line is this word, and something visible follows it. */
  ghost predicate StartsWithWord(line: string, word: string) {
    exists n: nat, m: nat :: WordAt(line, word, n, m)
  }

  ghost predicate WordAt(line: string, word: string, n: nat, m: nat) {
    n + |word| <= m < |line| && Blank(line[..n]) && line[n..n + |word|] == word && !IsSpace(line[m])
  }

  /** Neither an import line nor a package line. */
  ghost predicate IsCodeLine(line: string) {
    !StartsWithWord(line, "import ") && !StartsWithWord(line, "package ")
  }

  lemma WordStarts(line: string, word: string)
    requires |word| > 1 && !IsSpace(word[0]) && IsSpace(word[|word| - 1])
    ensures word <= Strip(line) <==> StartsWithWord(line, word)
  {
    hide IsSpace, Blank, Strip;
    StripTrims(line);
    var i: nat, j: nat :| TrimAt(line, i, j, Strip(line));
    if word <= Strip(line) {
      WordInside(line, word, i, j);
    }
    if n: nat, m: nat :| WordAt(line, word, n, m) {
      WordOutside(line, word, i, j, n, m);
    }
  }

  lemma WordInside(line: string, word: string, i: nat, j: nat)
    requires |word| > 1 && !IsSpace(word[0]) && IsSpace(word[|word| - 1])
    requires TrimAt(line, i, j, Strip(line)) && word <= Strip(line)
    ensures WordAt(line, word, i, j - 1)
  {
    hide IsSpace, Blank, Strip;
    assert line[i..i + |word|] == word;
    assert Strip(line)[|Strip(line)| - 1] == line[j - 1];
  }

  lemma WordOutside(line: string, word: string, i: nat, j: nat, n: nat, m: nat)
    requires |word| > 1 && !IsSpace(word[0])
    requires TrimAt(line, i, j, Strip(line)) && WordAt(line, word, n, m)
    ensures word <= Strip(line)
  {
    hide IsSpace, Blank, Strip;
    assert line[n] == word[0];
    VisibleWithin(line, i, j, n);
    VisibleWithin(line, i, j, m);
    if n > i {
      BlankAt(line[..n], i);
    }
    assert Strip(line)[..|word|] == word;
  }

  /** Everything visible stands between the trimmed ends. */
  lemma VisibleWithin(line: string, i: nat, j: nat, n: nat)
    requires TrimAt(line, i, j, Strip(line)) && n < |line| && !IsSpace(line[n])
    ensures i <= n < j
  {
    hide IsSpace, Blank, Strip;
    if n < i {
      BlankAt(line[..i], n);
    } else if n >= j {
      BlankAt(line[j..], n - j);
    }
  }

  lemma CodeLineExactly(line: string)
    ensures IsMemberLine(line) <==> IsCodeLine(line)
  {
    hide Strip, StartsWithWord;
    WordStarts(line, "import ");
    WordStarts(line, "package ");
  }

  /** `shown` is the line, but the first line loses the white space in front of it and the last one the
      white space behind it. */
  ghost predicate Shown(line: string, shown: string, first: bool, last: bool) {
    exists i: nat, j: nat :: ShownAt(line, shown, i, j, first, last)
  }

  ghost predicate ShownAt(line: string, shown: string, i: nat, j: nat, first: bool, last: bool) {
    && i <= j <= |line| && shown == line[i..j]
    && (if first then i < j && Blank(line[..i]) && !IsSpace(line[i]) else i == 0)
    && (if last then i < j && Blank(line[j..]) && !IsSpace(line[j - 1]) else j == |line|)
  }

  ghost predicate Rising(at: seq<nat>, n: nat) {
    (forall k :: 0 <= k < |at| ==> at[k] < n) && forall j, k :: 0 <= j < k < |at| ==> at[j] < at[k]
  }

  ghost predicate ShowsAt(lines: seq<string>, at: seq<nat>, shown: seq<string>, k: nat)
    requires k < |at| == |shown| && at[k] < |lines|
  {
    IsCodeLine(lines[at[k]]) && Shown(lines[at[k]], shown[k], k == 0, k == |at| - 1)
  }

  /** Every code line is among the chosen ones, except blank ones before the first or after the last. */
  ghost predicate CoversCode(lines: seq<string>, at: seq<nat>)
    requires at != []
  {
    forall i :: 0 <= i < |lines| && IsCodeLine(lines[i]) && i !in at ==> Blank(lines[i]) && (i < at[0] || i > at[|at| - 1])
  }

  /** The lines at these positions are shown: code lines in their order, and all of them except blank ones
      before the first or after the last. */
  ghost predicate ChosenLines(lines: seq<string>, at: seq<nat>, shown: seq<string>) {
    && |at| == |shown| > 0 && Rising(at, |lines|) && CoversCode(lines, at)
    && forall k: nat :: k < |at| ==> ShowsAt(lines, at, shown, k)
  }

  ghost predicate NoCode(lines: seq<string>) {
    forall i :: 0 <= i < |lines| && IsCodeLine(lines[i]) ==> Blank(lines[i])
  }

  /** The lines one below the other, each one that is not empty four blanks in. */
  ghost function Rows(shown: seq<string>): string {
    if shown == [] then ""
    else (if shown[0] == "" then "\n" else "    " + shown[0] + "\n") + Rows(shown[1..])
  }

  // -- joining and stripping

  lemma {:induction false} JoinBlank(lines: seq<string>)
    requires forall k :: 0 <= k < |lines| ==> Blank(lines[k])
    ensures Blank(Join(lines))
  {
    if |lines| > 1 {
      JoinBlank(lines[1..]);
    }
  }

  lemma {:induction false} JoinMore(lines: seq<string>, line: string)
    requires lines != []
    ensures Join(lines + [line]) == Join(lines) + "\n" + line
  {
    var all := lines + [line];
    assert all[0] == lines[0] && all[1..] == lines[1..] + [line];
    if |lines| > 1 {
      JoinMore(lines[1..], line);
    }
  }

  /** Cuts blank lines and blanks off the front of joined lines. */
  lemma {:induction false} CutFront(lines: seq<string>) returns (a: nat, i: nat, w: string)
    requires exists k :: 0 <= k < |lines| && !Blank(lines[k])
    ensures a < |lines| && i < |lines[a]| && Blank(lines[a][..i]) && !IsSpace(lines[a][i])
    ensures forall k :: 0 <= k < a ==> Blank(lines[k])
    ensures Blank(w) && Join(lines) == w + Join([lines[a][i..]] + lines[a + 1..])
  {
    hide Blank, IsSpace, Join;
    if Blank(lines[0]) {
      var k :| 0 <= k < |lines| && !Blank(lines[k]);
      assert lines[1..][k - 1] == lines[k];
      var b, v;
      b, i, v := CutFront(lines[1..]);
      a, w := b + 1, lines[0] + "\n" + v;
      BlankJoins(lines[0], v);
      JoinCons(lines);
      var rest := Join([lines[1..][b][i..]] + lines[1..][b + 1..]);
      assert lines[1..][b + 1..] == lines[a + 1..] && lines[1..][b] == lines[a];
      assert lines[0] + "\n" + (v + rest) == w + rest;
    } else {
      a := 0;
      i := FirstVisible(lines[0]);
      w := lines[0][..i];
      JoinCutFirst(lines, i);
    }
  }

  lemma JoinCons(lines: seq<string>)
    requires |lines| > 1
    ensures Join(lines) == lines[0] + "\n" + Join(lines[1..])
  {
  }

  lemma JoinCutFirst(lines: seq<string>, i: nat)
    requires lines != [] && i <= |lines[0]|
    ensures Join(lines) == lines[0][..i] + Join([lines[0][i..]] + lines[1..])
  {
    var head, tail := lines[0][..i], lines[0][i..];
    var cut := [tail] + lines[1..];
    assert cut[0] == tail && cut[1..] == lines[1..] && lines[0] == head + tail;
    if |lines| > 1 {
      JoinCons(lines);
      JoinCons(cut);
      hide Join;
      var rest := "\n" + Join(lines[1..]);
      assert head + (tail + rest) == head + tail + rest;
      assert tail + "\n" + Join(lines[1..]) == tail + rest && lines[0] + "\n" + Join(lines[1..]) == lines[0] + rest;
    }
  }

  lemma BlankJoins(a: string, b: string)
    requires Blank(a) && Blank(b)
    ensures Blank(a + "\n" + b)
  {
  }

  lemma FirstVisible(line: string) returns (i: nat)
    requires !Blank(line)
    ensures i < |line| && Blank(line[..i]) && !IsSpace(line[i])
  {
    i := 0;
    while IsSpace(line[i])
      invariant i < |line| && forall k :: 0 <= k < i ==> IsSpace(line[k])
      decreases |line| - i
    {
      if i + 1 == |line| {
        assert forall k :: 0 <= k < |line| ==> IsSpace(line[k]);
        assert false;
      }
      i := i + 1;
    }
  }

  lemma LastVisible(line: string) returns (j: nat)
    requires !Blank(line)
    ensures 0 < j <= |line| && Blank(line[j..]) && !IsSpace(line[j - 1])
  {
    j := |line|;
    while IsSpace(line[j - 1])
      invariant 0 < j <= |line| && forall k :: j <= k < |line| ==> IsSpace(line[k])
      decreases j
    {
      if j == 1 {
        assert forall k :: 0 <= k < |line| ==> IsSpace(line[k]);
        assert false;
      }
      j := j - 1;
    }
  }

  /** Cuts blank lines and blanks off the end of joined lines. */
  lemma {:induction false} CutBack(lines: seq<string>) returns (b: nat, j: nat, w: string)
    requires exists k :: 0 <= k < |lines| && !Blank(lines[k])
    ensures b < |lines| && 0 < j <= |lines[b]| && Blank(lines[b][j..]) && !IsSpace(lines[b][j - 1])
    ensures forall k :: b < k < |lines| ==> Blank(lines[k])
    ensures Blank(w) && Join(lines) == Join(lines[..b] + [lines[b][..j]]) + w
  {
    hide Blank, IsSpace;
    var n := |lines| - 1;
    if Blank(lines[n]) {
      var k :| 0 <= k < |lines| && !Blank(lines[k]);
      assert lines[..n][k] == lines[k];
      var v;
      b, j, v := CutBack(lines[..n]);
      w := v + "\n" + lines[n];
      BlankJoins(v, lines[n]);
      assert lines[..n][..b] == lines[..b] && lines[..n][b] == lines[b];
      assert lines == lines[..n] + [lines[n]];
      JoinMore(lines[..n], lines[n]);
      assert Join(lines[..b] + [lines[b][..j]]) + v + "\n" + lines[n] == Join(lines[..b] + [lines[b][..j]]) + w;
    } else {
      b := n;
      j := LastVisible(lines[n]);
      w := lines[n][j..];
      JoinCutLast(lines, j);
    }
  }

  lemma JoinCutLast(lines: seq<string>, j: nat)
    requires lines != [] && j <= |lines[|lines| - 1]|
    ensures var n := |lines| - 1; Join(lines) == Join(lines[..n] + [lines[n][..j]]) + lines[n][j..]
  {
    hide Join;
    var n := |lines| - 1;
    FrontAndLast(lines, j);
    JoinEndsWith(lines[..n], lines[n][..j], lines[n][j..]);
  }

  lemma FrontAndLast(lines: seq<string>, j: nat)
    requires lines != [] && j <= |lines[|lines| - 1]|
    ensures var n := |lines| - 1; lines == lines[..n] + [lines[n][..j] + lines[n][j..]]
  {
    var n := |lines| - 1;
    assert lines[n][..j] + lines[n][j..] == lines[n];
  }

  lemma JoinEndsWith(front: seq<string>, head: string, tail: string)
    ensures Join(front + [head + tail]) == Join(front + [head]) + tail
  {
    if front == [] {
      assert front + [head + tail] == [head + tail] && front + [head] == [head];
    } else {
      hide Join;
      JoinMore(front, head + tail);
      JoinMore(front, head);
      var before := Join(front) + "\n";
      assert before + (head + tail) == before + head + tail;
    }
  }

  /** What stripping leaves of joined lines: the lines from the first to the last visible one, the first
      without the blanks in front of it and the last without those behind it. */
  ghost predicate Trimmed(lines: seq<string>, a: nat, b: nat, t: seq<string>) {
    && a <= b < |lines| && |t| == b - a + 1
    && (forall k :: 0 <= k < a ==> Blank(lines[k])) && (forall k :: b < k < |lines| ==> Blank(lines[k]))
    && forall k :: 0 <= k < |t| ==> Shown(lines[a + k], t[k], k == 0, k == |t| - 1)
  }

  lemma StripOfJoin(lines: seq<string>) returns (a: nat, b: nat, t: seq<string>)
    requires exists k :: 0 <= k < |lines| && !Blank(lines[k])
    ensures a <= b < |lines| && Trimmed(lines, a, b, t) && Strip(Join(lines)) == Join(t)
  {
    hide Blank, IsSpace, Strip, Join, Shown;
    var i, v;
    a, i, v := CutFront(lines);
    var front := [lines[a][i..]] + lines[a + 1..];
    assert !Blank(front[0]) by { VisibleIsNotBlank(front[0], 0); }
    var c, j, w := CutBack(front);
    b, t := a + c, front[..c] + [front[c][..j]];
    ShownOf(lines, a, i, c, j, t);
    ShownEnds(lines, a, b, t);
    JoinStarts(t);
    JoinEnds(t);
    assert Join(lines) == v + (Join(t) + w);
    StripBetween(v, Join(t), w);
  }

  lemma VisibleIsNotBlank(s: string, i: nat)
    requires i < |s| && !IsSpace(s[i])
    ensures !Blank(s)
  {
  }

  lemma ShownOf(lines: seq<string>, a: nat, i: nat, c: nat, j: nat, t: seq<string>)
    requires a < |lines| && i < |lines[a]| && Blank(lines[a][..i]) && !IsSpace(lines[a][i])
    requires forall k :: 0 <= k < a ==> Blank(lines[k])
    requires var front := [lines[a][i..]] + lines[a + 1..];
             && c < |front| && 0 < j <= |front[c]| && Blank(front[c][j..]) && !IsSpace(front[c][j - 1])
             && (forall k :: c < k < |front| ==> Blank(front[k]))
             && t == front[..c] + [front[c][..j]]
    ensures Trimmed(lines, a, a + c, t)
  {
    hide Blank, IsSpace;
    var front := [lines[a][i..]] + lines[a + 1..];
    forall k | a + c < k < |lines| ensures Blank(lines[k]) {
      assert front[k - a] == lines[k];
    }
    forall k | 0 <= k < |t| ensures Shown(lines[a + k], t[k], k == 0, k == |t| - 1) {
      var line := lines[a + k];
      var from := if k == 0 then i else 0;
      var to := if k == c then from + j else |line|;
      assert front[k] == line[from..];
      assert t[k] == line[from..to];
      if k == c {
        assert front[k][j..] == line[to..] && front[k][j - 1] == line[to - 1];
      }
      assert k == 0 ==> line == lines[a];
      assert ShownAt(line, t[k], from, to, k == 0, k == |t| - 1);
    }
  }

  lemma ShownEnds(lines: seq<string>, a: nat, b: nat, t: seq<string>)
    requires Trimmed(lines, a, b, t)
    ensures t != [] && t[0] != "" && !IsSpace(t[0][0])
    ensures t[|t| - 1] != "" && !IsSpace(t[|t| - 1][|t[|t| - 1]| - 1])
  {
    hide Blank, IsSpace;
    var n := |t| - 1;
    assert Shown(lines[a], t[0], true, n == 0) by { assert Shown(lines[a + 0], t[0], 0 == 0, 0 == n); }
    assert Shown(lines[a + n], t[n], n == 0, n == |t| - 1);
  }

  lemma JoinStarts(lines: seq<string>)
    requires lines != [] && lines[0] != ""
    ensures Join(lines) != "" && Join(lines)[0] == lines[0][0]
  {
  }

  lemma StripBetween(v: string, t: string, w: string)
    requires Blank(v) && Blank(w) && t != "" && !IsSpace(t[0]) && !IsSpace(t[|t| - 1])
    ensures Strip(v + (t + w)) == t
  {
    hide IsSpace, Strip;
    var s := v + (t + w);
    assert s[..|v|] == v && s[|v|..|v| + |t|] == t && s[|v| + |t|..] == w;
    assert TrimAt(s, |v|, |v| + |t|, t);
    StripExactly(s, t);
  }

  // -- the block

  lemma {:induction false} RowsOfJoin(shown: seq<string>)
    requires shown != []
    ensures Rows(shown) == Join(Indented(shown)) + "\n"
  {
    if |shown| > 1 {
      RowsOfJoin(shown[1..]);
      IndentedAt(shown[1..], 0);
    }
  }

  /** A member without visible code lines gives no block. */
  lemma NoCodeNoBlock(member: string)
    requires NoCode(SplitLines(TEXT_BREAKS, Strip(member)))
    ensures Block(member) == ""
  {
    hide SplitLines, Strip, Blank, IsMemberLine, IsCodeLine, Join, StripRight;
    var lines := SplitLines(TEXT_BREAKS, Strip(member));
    var kept := MemberLines(lines);
    var at := MemberLinesInOrder(lines);
    forall k | 0 <= k < |kept| ensures Blank(kept[k]) {
      CodeLineExactly(kept[k]);
    }
    JoinBlank(kept);
    StripEmptyExactly(Join(kept));
    NoLines(TEXT_BREAKS, MemberCode(member));
    EmptyBlock();
  }

  lemma EmptyBlock()
    ensures StripRight(Join(Indented([]))) == ""
  {
  }

  /** The block shows the member's code lines, each four blanks in. */
  lemma BlockShows(member: string) returns (at: seq<nat>, shown: seq<string>)
    requires !NoCode(SplitLines(TEXT_BREAKS, Strip(member)))
    ensures ChosenLines(SplitLines(TEXT_BREAKS, Strip(member)), at, shown)
    ensures Block(member) != "" && Block(member) + "\n" == Rows(shown)
  {
    hide SplitLines, Strip, Blank, IsMemberLine, IsCodeLine, Join, StripRight, Shown, HoldsNoBreak, ChosenLines, Trimmed,
         Block, PickedAt, MemberLines;
    var lines := SplitLines(TEXT_BREAKS, Strip(member));
    var kept := MemberLines(lines);
    var all := MemberLinesInOrder(lines);
    VisibleKept(lines, kept, all);
    assert |all| == |kept| by { AsManyPicked(lines, kept, all); }
    var a, b, t := StripOfJoin(kept);
    at, shown := all[a..b + 1], t;
    ChosenOf(lines, kept, all, a, b, t);
    TrimmedHoldsNoBreak(member, a, b, t);
    ShownEnds(kept, a, b, t);
    JoinThenSplit(t);
    assert SplitLines(TEXT_BREAKS, MemberCode(member)) == t;
    BlockOfLines(member, t);
    RowsOfJoin(t);
  }

  lemma AsManyPicked(lines: seq<string>, kept: seq<string>, all: seq<nat>)
    requires PickedAt(lines, kept, all)
    ensures |all| == |kept|
  {
  }

  lemma VisibleKept(lines: seq<string>, kept: seq<string>, all: seq<nat>)
    requires PickedAt(lines, kept, all) && !NoCode(lines)
    ensures exists k :: 0 <= k < |kept| && !Blank(kept[k])
  {
    hide Blank, IsMemberLine, IsCodeLine;
    var i :| 0 <= i < |lines| && IsCodeLine(lines[i]) && !Blank(lines[i]);
    CodeLineExactly(lines[i]);
    var k :| 0 <= k < |all| && all[k] == i;
    assert kept[k] == lines[i];
  }

  lemma InSlice(all: seq<nat>, a: nat, b: nat, k: nat)
    requires a <= k <= b < |all|
    ensures all[k] in all[a..b + 1]
  {
    assert all[a..b + 1][k - a] == all[k];
  }

  lemma LeftOutIsBlank(lines: seq<string>, kept: seq<string>, all: seq<nat>, a: nat, b: nat, t: seq<string>, i: nat)
    requires PickedAt(lines, kept, all) && Trimmed(kept, a, b, t)
    requires i < |lines| && IsCodeLine(lines[i]) && i !in all[a..b + 1]
    ensures Blank(lines[i]) && (i < all[a] || i > all[b])
  {
    hide Blank, IsMemberLine, IsCodeLine, Shown;
    CodeLineExactly(lines[i]);
    var k :| 0 <= k < |all| && all[k] == i;
    if a <= k <= b {
      InSlice(all, a, b, k);
    }
    assert kept[k] == lines[i];
  }

  lemma CoversPart(lines: seq<string>, kept: seq<string>, all: seq<nat>, a: nat, b: nat, t: seq<string>)
    requires PickedAt(lines, kept, all) && Trimmed(kept, a, b, t) && a <= b < |all|
    ensures CoversCode(lines, all[a..b + 1])
  {
    hide Blank, IsCodeLine, PickedAt, Trimmed;
    var at := all[a..b + 1];
    assert at[0] == all[a] && at[|at| - 1] == all[b];
    forall i | 0 <= i < |lines| && IsCodeLine(lines[i]) && i !in at
      ensures Blank(lines[i]) && (i < at[0] || i > at[|at| - 1])
    {
      LeftOutIsBlank(lines, kept, all, a, b, t, i);
    }
  }

  lemma ShowsPart(lines: seq<string>, kept: seq<string>, all: seq<nat>, a: nat, b: nat, t: seq<string>, k: nat)
    requires PickedAt(lines, kept, all) && Trimmed(kept, a, b, t) && a <= b < |all| && |t| == b - a + 1 && k < |t|
    ensures var at := all[a..b + 1]; at[k] < |lines| && ShowsAt(lines, at, t, k)
  {
    hide Blank, IsMemberLine, IsCodeLine, Shown;
    var at := all[a..b + 1];
    assert at[k] == all[a + k] && kept[a + k] == lines[at[k]];
    CodeLineExactly(kept[a + k]);
  }

  lemma RisingPart(lines: seq<string>, kept: seq<string>, all: seq<nat>, a: nat, b: nat, t: seq<string>)
    requires PickedAt(lines, kept, all) && Trimmed(kept, a, b, t)
    ensures a <= b < |all| && |t| == b - a + 1 && Rising(all[a..b + 1], |lines|)
  {
    hide Blank, IsMemberLine, Shown;
  }

  lemma ChosenOf(lines: seq<string>, kept: seq<string>, all: seq<nat>, a: nat, b: nat, t: seq<string>)
    requires PickedAt(lines, kept, all) && Trimmed(kept, a, b, t)
    ensures a <= b < |all| && ChosenLines(lines, all[a..b + 1], t)
  {
    hide PickedAt, Trimmed, Rising, CoversCode, ShowsAt;
    RisingPart(lines, kept, all, a, b, t);
    CoversPart(lines, kept, all, a, b, t);
    var at := all[a..b + 1];
    forall k: nat | k < |t| ensures at[k] < |lines| && ShowsAt(lines, at, t, k) {
      ShowsPart(lines, kept, all, a, b, t, k);
    }
  }

  lemma TrimmedHoldsNoBreak(member: string, a: nat, b: nat, t: seq<string>)
    requires Trimmed(MemberLines(SplitLines(TEXT_BREAKS, Strip(member))), a, b, t)
    ensures forall k :: 0 <= k < |t| ==> HoldsNoBreak(TEXT_BREAKS, t[k])
  {
    hide SplitLines, Strip, Blank, IsMemberLine, HoldsNoBreak, IsSpace;
    var lines := SplitLines(TEXT_BREAKS, Strip(member));
    var all := MemberLinesInOrder(lines);
    forall k | 0 <= k < |t| ensures HoldsNoBreak(TEXT_BREAKS, t[k]) {
      LinesHoldNoBreak(TEXT_BREAKS, Strip(member), all[a + k]);
      PartHoldsNoBreak(lines[all[a + k]], t[k], k == 0, k == |t| - 1);
    }
  }

  lemma PartHoldsNoBreak(line: string, part: string, first: bool, last: bool)
    requires Shown(line, part, first, last) && HoldsNoBreak(TEXT_BREAKS, line)
    ensures HoldsNoBreak(TEXT_BREAKS, part)
  {
    hide Blank, IsSpace;
    var i: nat, j: nat :| ShownAt(line, part, i, j, first, last);
    forall k | 0 <= k < |part| ensures !TEXT_BREAKS.Ends(part[k]) {
      assert part[k] == line[i + k];
    }
  }

  lemma BlockOfLines(member: string, t: seq<string>)
    requires SplitLines(TEXT_BREAKS, MemberCode(member)) == t
    requires t != [] && t[|t| - 1] != "" && !IsSpace(t[|t| - 1][|t[|t| - 1]| - 1])
    ensures Block(member) == Join(Indented(t)) && Block(member) != ""
  {
    hide SplitLines, Strip, IsSpace, MemberCode, Join;
    IndentedAt(t, |t| - 1);
    JoinEnds(Indented(t));
  }
}
