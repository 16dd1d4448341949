/** Inserting members at the end of the outer type of a Java file. */
module JavaInsert {
  import opened JavaMask
  import opened BraceScan
  import opened JavaTokens
  import opened JavaType
  import opened JavaMember
  import opened Lines
  import opened PyString

  // ---------------------------------------------------------------- the closing brace of the outer type

  datatype Close = Found(at: nat) | NoTypeDeclaration | UnmatchedBraces

  function CloseIn(masked: string, isWord: char -> bool): (close: Close)
    ensures close.Found? ==> close.at < |masked| && masked[close.at] == '}'
  {
    match FindTypeOpen(masked, 0, isWord)
    case None => NoTypeDeclaration
    case Some(opening) =>
      match ScanBraces(masked[opening + 1..], 1)
      case Closed(k) => Found(opening + 1 + k)
      case Open(_) => UnmatchedBraces
  }

  function CloseOf(text: string, isWord: char -> bool): (close: Close)
    ensures close.Found? ==> close.at < |text|
  {
    MaskedKeepsPositions(Code, text);
    CloseIn(Masked(Code, text), isWord)
  }

  /** As many closing as opening braces from `b` up to `e`. */
  ghost predicate Balanced(masked: string, b: nat, e: nat)
    requires b <= e <= |masked|
  {
    multiset(masked[b..e])['{'] == multiset(masked[b..e])['}']
  }

  /** Everything that starts at `b` and ends before `end` has more opening than closing braces. */
  ghost predicate OpenUntil(masked: string, b: nat, end: nat)
    requires b < end <= |masked| + 1
  {
    forall e: nat :: b < e < end ==> multiset(masked[b..e])['{'] > multiset(masked[b..e])['}']
  }

  /** What the outer type of a text without comments and literals comes to: its leftmost declaration opens at
      `b`, and the first brace that balances the braces from there closes it. */
  ghost predicate MaskedClose(masked: string, isWord: char -> bool, close: Close) {
    match close
    case NoTypeDeclaration => NoneDeclared(masked, 0, |masked|, isWord)
    case Found(at) =>
      exists i: nat, b: nat :: FirstDeclaration(masked, 0, i, b, isWord) && b < at < |masked|
                               && OpenUntil(masked, b, at + 1) && Balanced(masked, b, at + 1)
    case UnmatchedBraces =>
      exists i: nat, b: nat :: FirstDeclaration(masked, 0, i, b, isWord) && b < |masked|
                               && OpenUntil(masked, b, |masked| + 1)
  }

  /** The outer type is looked for in what the tokens of the text leave: comments and literals blanked. */
  ghost predicate CloseIsRight(text: string, isWord: char -> bool, close: Close) {
    exists cuts, masked :: Tokens(text, 0, cuts) && KeptByToken(text, masked, cuts) && MaskedClose(masked, isWord, close)
  }

  lemma CountFromOpening(masked: string, b: nat, k: nat)
    requires b < |masked| && masked[b] == '{' && k <= |masked| - b - 1
    ensures 1 + Net(masked[b + 1..][..k]) + multiset(masked[b..b + 1 + k])['}'] == multiset(masked[b..b + 1 + k])['{']
  {
    NetCounts(masked[b + 1..][..k]);
    assert masked[b..b + 1 + k] == [masked[b]] + masked[b + 1..][..k];
  }

  lemma OpenFromOpening(masked: string, b: nat, n: nat)
    requires b < |masked| && masked[b] == '{' && 0 < n <= |masked| - b && OpenBefore(masked[b + 1..], 1, n)
    ensures OpenUntil(masked, b, b + 1 + n)
  {
    forall e: nat | b < e < b + 1 + n ensures multiset(masked[b..e])['{'] > multiset(masked[b..e])['}'] {
      CountFromOpening(masked, b, e - b - 1);
    }
  }

  lemma OpeningDeclared(masked: string, isWord: char -> bool, i: nat, b: nat)
    requires FirstDeclaration(masked, 0, i, b, isWord)
    ensures b < |masked| && masked[b] == '{'
  {
    hide NoneDeclared;
  }

  lemma MaskedCloseExactly(masked: string, isWord: char -> bool)
    ensures MaskedClose(masked, isWord, CloseIn(masked, isWord))
  {
    hide FindTypeOpen, ScanBraces, FirstDeclaration, NoneDeclared, OpenUntil, Balanced, OpenBefore, Net;
    LeftmostDeclarationOpens(masked, 0, isWord);
    if FindTypeOpen(masked, 0, isWord).Some? {
      var b := FindTypeOpen(masked, 0, isWord).value;
      var i: nat :| FirstDeclaration(masked, 0, i, b, isWord);
      var rest := masked[b + 1..];
      ScanFindsMatch(rest, 1);
      match ScanBraces(rest, 1) {
        case Closed(k) =>
          OpenFromOpening(masked, b, k + 1);
          OpenShorter(masked, b, b + 2 + k);
          CountFromOpening(masked, b, k + 1);
          IsBalanced(masked, b, b + 2 + k);
        case Open(_) =>
          OpenFromOpening(masked, b, |rest| + 1);
      }
    }
  }

  lemma OpenShorter(masked: string, b: nat, end: nat)
    requires b + 1 < end <= |masked| + 1 && OpenUntil(masked, b, end)
    ensures OpenUntil(masked, b, end - 1)
  {
  }

  lemma IsBalanced(masked: string, b: nat, e: nat)
    requires b <= e <= |masked| && multiset(masked[b..e])['{'] == multiset(masked[b..e])['}']
    ensures Balanced(masked, b, e)
  {
  }

  lemma CloseExactly(text: string, isWord: char -> bool)
    ensures CloseIsRight(text, isWord, CloseOf(text, isWord))
  {
    hide Masked, CloseIn, MaskedClose, Tokens, KeptByToken;
    var cuts := TokensFrom(text, 0);
    MaskFollowsTokens(text, cuts);
    MaskedCloseExactly(Masked(Code, text), isWord);
  }

  /** Finds the brace that closes the outer type by counting depth from the brace that opens it. */
  method OuterTypeClose(text: string, isWord: char -> bool) returns (close: Close)
    ensures close == CloseOf(text, isWord)
    ensures CloseIsRight(text, isWord, close)
  {
    CloseExactly(text, isWord);
    hide Masked, FindTypeOpen, ScanBraces, CloseIsRight;
    var chars := new char[|text|](i requires 0 <= i < |text| => text[i]);
    assert chars[..] == text;
    MaskInPlace(chars);
    var masked := chars[..];
    var opening := FindTypeOpen(masked, 0, isWord);
    if opening.None? {
      return NoTypeDeclaration;
    }
    close := CountDepth(masked, opening.value);
  }

  lemma OneBrace(masked: string, index: nat, depth: nat)
    requires index < |masked| && depth > 0
    ensures var d := depth + Weight(masked[index]);
            ScanBraces(masked[index..], depth)
            == if d == 0 then Closed(0) else Later(ScanBraces(masked[index + 1..], d), 1)
  {
    assert masked[index..][1..] == masked[index + 1..];
  }

  method CountDepth(masked: string, opening: nat) returns (close: Close)
    requires opening < |masked| && masked[opening] == '{'
    ensures close == match ScanBraces(masked[opening + 1..], 1)
                     case Closed(k) => Found(opening + 1 + k)
                     case Open(_) => UnmatchedBraces
  {
    hide ScanBraces;
    var depth := 0;
    var index := opening;
    ghost var goal := ScanBraces(masked[opening + 1..], 1);
    while index < |masked|
      invariant opening <= index <= |masked|
      invariant if index == opening then depth == 0
                else depth > 0 && goal == Later(ScanBraces(masked[index..], depth), index - opening - 1)
    {
      if index > opening {
        OneBrace(masked, index, depth);
      }
      var c := masked[index];
      if c == '{' {
        depth := depth + 1;
      } else if c == '}' {
        depth := depth - 1;
        if depth == 0 {
          return Found(index);
        }
      }
      index := index + 1;
    }
    NothingCloses(masked[index..], depth);
    close := UnmatchedBraces;
  }

  lemma NothingCloses(text: string, depth: nat)
    requires text == [] && depth > 0
    ensures ScanBraces(text, depth) == Open(depth)
  {
  }

  // ---------------------------------------------------------------- insertion

  predicate EndsWith(text: string, end: string) {
    |end| <= |text| && text[|text| - |end|..] == end
  }

  function Spacer(prefix: string): string {
    if EndsWith(prefix, "\n\n") then "" else if EndsWith(prefix, "\n") then "\n" else "\n\n"
  }

  /** What goes between `prefix` and the closing brace. */
  function Inserted(prefix: string, member: string): string {
    if Block(member) == "" then "" else Spacer(prefix) + Block(member) + "\n"
  }

  datatype Edit = Edited(text: string) | Refused(why: Close) | EmptyMember

  function InsertMember(text: string, member: string, isWord: char -> bool): Edit {
    if Strip(member) == "" then EmptyMember
    else match CloseOf(text, isWord)
      case Found(at) =>
        Edited(text[..at] + Inserted(text[..at], member) + text[at..])
      case why => Refused(why)
  }

  // -- what an insertion comes to

  ghost predicate LineFeeds(s: string) {
    forall i :: 0 <= i < |s| ==> s[i] == '\n'
  }

  /** The text ends with exactly `n` line feeds. */
  ghost predicate EndsWithFeeds(text: string, n: nat) {
    n <= |text| && LineFeeds(text[|text| - n..]) && (n == |text| || text[|text| - n - 1] != '\n')
  }

  /** As many line feeds as `prefix` lacks to end with two. */
  ghost predicate SetsOff(prefix: string, feeds: string) {
    LineFeeds(feeds) && exists n: nat :: EndsWithFeeds(prefix, n) && |feeds| == if n >= 2 then 0 else 2 - n
  }

  /** `piece` shows the code lines of the member, set off from `prefix`; nothing if there is none to show. */
  ghost predicate PieceIsRight(prefix: string, member: string, piece: string) {
    var lines := SplitLines(TEXT_BREAKS, Strip(member));
    if NoCode(lines) then piece == ""
    else exists feeds, at, shown :: SetsOff(prefix, feeds) && ChosenLines(lines, at, shown) && piece == feeds + Rows(shown)
  }

  /** A blank member is refused; a text without a closed outer type is refused for that; otherwise the piece
      goes directly before the closing brace. */
  ghost predicate EditIsRight(text: string, member: string, isWord: char -> bool, edit: Edit) {
    if Blank(member) then edit == EmptyMember
    else match CloseOf(text, isWord)
      case Found(at) =>
        edit.Edited? && exists piece ::
          PieceIsRight(text[..at], member, piece) && edit.text == text[..at] + piece + text[at..]
      case why => edit == Refused(why)
  }

  lemma EndsInOne(text: string)
    ensures EndsWith(text, "\n") <==> |text| >= 1 && text[|text| - 1] == '\n'
  {
    if |text| >= 1 {
      assert text[|text| - 1..] == [text[|text| - 1]];
    }
  }

  lemma EndsInTwo(text: string)
    ensures EndsWith(text, "\n\n") <==> |text| >= 2 && text[|text| - 2] == '\n' && text[|text| - 1] == '\n'
  {
    if |text| >= 2 {
      assert text[|text| - 2..] == [text[|text| - 2], text[|text| - 1]];
    }
  }

  lemma FeedAt(text: string, n: nat, k: nat)
    requires EndsWithFeeds(text, n) && k < n
    ensures text[|text| - 1 - k] == '\n'
  {
    assert text[|text| - n..][n - 1 - k] == '\n';
  }

  lemma SpacerSetsOff(prefix: string)
    ensures SetsOff(prefix, Spacer(prefix))
  {
    hide EndsWith, LineFeeds;
    EndsInOne(prefix);
    EndsInTwo(prefix);
    var n := FeedsAtEnd(prefix);
    if n >= 1 {
      FeedAt(prefix, n, 0);
    }
    if n >= 2 {
      FeedAt(prefix, n, 1);
    }
    SpacerIsFeeds(prefix);
    assert EndsWithFeeds(prefix, n);
  }

  lemma SpacerIsFeeds(prefix: string)
    ensures LineFeeds(Spacer(prefix))
  {
  }

  lemma FeedsAtEnd(text: string) returns (n: nat)
    ensures EndsWithFeeds(text, n)
  {
    n := 0;
    while n < |text| && text[|text| - n - 1] == '\n'
      invariant n <= |text| && LineFeeds(text[|text| - n..])
    {
      n := n + 1;
    }
  }

  lemma InsertedIsRight(prefix: string, member: string)
    ensures PieceIsRight(prefix, member, Inserted(prefix, member))
  {
    hide Block, NoCode, ChosenLines, SplitLines, Strip, SetsOff, Spacer;
    if NoCode(SplitLines(TEXT_BREAKS, Strip(member))) {
      NoCodeNoBlock(member);
    } else {
      var at, shown := BlockShows(member);
      SpacerSetsOff(prefix);
      var feeds := Spacer(prefix);
      assert feeds + Block(member) + "\n" == feeds + (Block(member) + "\n");
      assert SetsOff(prefix, feeds) && ChosenLines(SplitLines(TEXT_BREAKS, Strip(member)), at, shown)
             && Inserted(prefix, member) == feeds + Rows(shown);
    }
  }

  lemma InsertIsRight(text: string, member: string, isWord: char -> bool)
    ensures EditIsRight(text, member, isWord, InsertMember(text, member, isWord))
  {
    hide Inserted, PieceIsRight, CloseOf, Strip, Blank;
    StripEmptyExactly(member);
    if CloseOf(text, isWord).Found? {
      var at := CloseOf(text, isWord).at;
      CloseWithin(text, isWord);
      InsertedIsRight(text[..at], member);
    }
  }

  lemma CloseWithin(text: string, isWord: char -> bool)
    ensures CloseOf(text, isWord).Found? ==> CloseOf(text, isWord).at < |text|
  {
  }

  /** The brace before which members go is a brace of the program, outside every comment and literal. */
  lemma CloseIsOfProgram(text: string, isWord: char -> bool, cuts: seq<nat>)
    requires CloseOf(text, isWord).Found? && Tokens(text, 0, cuts)
    ensures var at := CloseOf(text, isWord).at; text[at] == '}' && OfProgram(text, cuts, at)
  {
    hide Masked, FindTypeOpen, ScanBraces, OfProgram, Tokens;
    MaskedKeepsPositions(Code, text);
    KeptExactlyOfProgram(text, cuts, CloseOf(text, isWord).at);
  }

  /** `text` already holds the member's import lines. */
  method InsertJavaMember(text: string, member: string, isWord: char -> bool) returns (edit: Edit)
    ensures edit == InsertMember(text, member, isWord)
    ensures EditIsRight(text, member, isWord, edit)
  {
    InsertIsRight(text, member, isWord);
    hide Strip, CloseOf, Block, Spacer, EditIsRight;
    if Strip(member) == "" {
      return EmptyMember;
    }
    var close := OuterTypeClose(text, isWord);
    if !close.Found? {
      return Refused(close);
    }
    var prefix, suffix := text[..close.at], text[close.at..];
    var block := FormatMember(member);
    if block == "" {
      assert prefix + "" + suffix == text;
      return Edited(text);
    }
    edit := Edited(prefix + Spacer(prefix) + block + "\n" + suffix);
    assert prefix + Spacer(prefix) + block + "\n" == prefix + (Spacer(prefix) + block + "\n");
  }
}
