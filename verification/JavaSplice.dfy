/** What inserting members does to the outer type: when its closing brace is still the same brace. */
module JavaSplice {
  import opened Optional
  import opened JavaMask
  import opened BraceScan
  import opened JavaType
  import opened JavaInsert
  import opened JavaMember
  import Lines
  import PyString

  /** The text ends in code state, directly inside the outer type. */
  ghost predicate InsideOuter(prefix: string, isWord: char -> bool) {
    var masked := Masked(Code, prefix);
    && EndState(Code, prefix) == Code
    && FindTypeOpen(masked, 0, isWord).Some?
    && ScanBraces(masked[FindTypeOpen(masked, 0, isWord).value + 1..], 1) == Open(1)
  }

  /** Lexes back to code state and balances its own braces. */
  predicate SelfContained(text: string) {
    EndState(Code, text) == Code && ScanBraces(Masked(Code, text), 1) == Open(1)
  }

  // ---------------------------------------------------------------- the text before the closing brace

  lemma CloseIsProgramText(text: string, isWord: char -> bool)
    requires CloseOf(text, isWord).Found?
    ensures var at := CloseOf(text, isWord).at;
            && text[at] == '}' && EndState(Code, text[..at]) == Code
            && Masked(Code, text) == Masked(Code, text[..at]) + Masked(Code, text[at..])
            && Masked(Code, text[at..]) != [] && Masked(Code, text[at..])[0] == '}'
  {
    hide Masked, FindTypeOpen, ScanBraces, Boundary, EndState;
    var at := CloseOf(text, isWord).at;
    MaskedKeepsPositions(Code, text);
    KeptExactlyInCode(text, at);
    assert text == text[..at] + text[at..];
    MaskSplits(Code, text[..at], text[at..]);
    MaskedKeepsPositions(Code, text[..at]);
    MaskedKeepsPositions(Code, text[at..]);
  }

  lemma BodyStaysOpen(body: string, back: string)
    requires ScanBraces(body + back, 1) == Closed(|body|)
    ensures ScanBraces(body, 1) == Open(1)
  {
    hide ScanBraces;
    ScanSplits(body, back, 1);
    var scan := ScanBraces(body, 1);
    if scan.Open? {
      ScanClosesAtOnce(back, scan.depth);
    }
  }

  lemma FrontAgrees(front: string, back: string, b: nat)
    requires b < |front| && front[b] == '{'
    ensures AgreeTo(front + back, front, b) && AgreeTo(front, front + back, b)
    ensures (front + back)[b + 1..] == front[b + 1..] + back
  {
  }

  lemma CloseUnfolds(masked: string, at: nat, isWord: char -> bool) returns (opening: nat)
    requires CloseIn(masked, isWord) == Found(at)
    ensures FindTypeOpen(masked, 0, isWord) == Some(opening) && opening < at <= |masked| && masked[opening] == '{'
    ensures ScanBraces(masked[opening + 1..], 1) == Closed(at - opening - 1)
  {
    hide FindTypeOpen, ScanBraces;
    opening := FindTypeOpen(masked, 0, isWord).value;
  }

  /** In masked text, what stands before the closing brace opens the type once and closes everything else. */
  lemma BeforeClose(masked: string, front: string, back: string, isWord: char -> bool)
    requires masked == front + back && CloseIn(masked, isWord) == Found(|front|)
    ensures FindTypeOpen(front, 0, isWord).Some?
    ensures ScanBraces(front[FindTypeOpen(front, 0, isWord).value + 1..], 1) == Open(1)
  {
    hide FindTypeOpen, ScanBraces, AgreeTo, CloseIn;
    var opening := CloseUnfolds(masked, |front|, isWord);
    assert front[opening] == '{';
    FrontAgrees(front, back, opening);
    OpeningStays(masked, front, 0, isWord);
    BodyStaysOpen(front[opening + 1..], back);
  }

  lemma ScanClosesAtOnce(text: string, depth: nat)
    requires depth > 0 && ScanBraces(text, depth) == Closed(0)
    ensures depth == 1
  {
  }

  /** The text before the closing brace lies inside the outer type. */
  lemma PrefixIsInside(text: string, isWord: char -> bool)
    requires CloseOf(text, isWord).Found?
    ensures InsideOuter(text[..CloseOf(text, isWord).at], isWord)
  {
    hide Masked, FindTypeOpen, ScanBraces, EndState, CloseIn;
    var at := CloseOf(text, isWord).at;
    CloseIsProgramText(text, isWord);
    MaskedKeepsPositions(Code, text[..at]);
    BeforeClose(Masked(Code, text), Masked(Code, text[..at]), Masked(Code, text[at..]), isWord);
  }

  // ---------------------------------------------------------------- what follows decides where the type closes

  lemma MaskedTail(front: string, back: string, isWord: char -> bool)
    requires FindTypeOpen(front, 0, isWord).Some?
    requires ScanBraces(front[FindTypeOpen(front, 0, isWord).value + 1..], 1) == Open(1)
    ensures CloseIn(front + back, isWord)
            == match ScanBraces(back, 1) case Closed(k) => Found(|front| + k) case Open(_) => UnmatchedBraces
    ensures FindTypeOpen(front + back, 0, isWord) == FindTypeOpen(front, 0, isWord)
  {
    hide FindTypeOpen, ScanBraces, AgreeTo;
    var opening := FindTypeOpen(front, 0, isWord).value;
    FrontAgrees(front, back, opening);
    OpeningStays(front, front + back, 0, isWord);
    ScanSplits(front[opening + 1..], back, 1);
  }

  /** Inside the outer type, the rest of the text alone decides where it closes. */
  lemma RestDecides(prefix: string, rest: string, isWord: char -> bool)
    requires InsideOuter(prefix, isWord) && CutClean(prefix, rest)
    ensures CloseOf(prefix + rest, isWord)
            == match ScanBraces(Masked(Code, rest), 1)
               case Closed(k) => Found(|prefix| + k)
               case Open(_) => UnmatchedBraces
  {
    hide Masked, FindTypeOpen, ScanBraces, EndState, CloseIn, Boundary;
    CleanCut(Code, prefix, rest);
    MaskSplits(Code, prefix, rest);
    MaskedKeepsPositions(Code, prefix);
    MaskedTail(Masked(Code, prefix), Masked(Code, rest), isWord);
  }

  /** The closing brace is the old one, moved by the inserted length, exactly when the insertion is self-contained. */
  lemma CloseMovesExactly(prefix: string, inserted: string, suffix: string, isWord: char -> bool)
    requires InsideOuter(prefix, isWord) && CutClean(prefix, inserted)
    requires suffix != [] && suffix[0] == '}'
    ensures CloseOf(prefix + inserted + suffix, isWord) == Found(|prefix| + |inserted|) <==> SelfContained(inserted)
  {
    hide Masked, ScanBraces, EndState, CloseOf, InsideOuter, Boundary;
    var rest := inserted + suffix;
    assert prefix + inserted + suffix == prefix + rest;
    RestDecides(prefix, rest, isWord);
    CleanCut(Code, inserted, suffix);
    MaskSplits(Code, inserted, suffix);
    MaskedKeepsPositions(Code, inserted);
    var state := EndState(Code, inserted);
    ScanSplits(Masked(Code, inserted), Masked(state, suffix), 1);
    var scan := ScanBraces(Masked(Code, inserted), 1);
    if scan.Open? {
      BraceAtEnd(state, suffix, scan.depth);
    }
  }

  lemma BraceAtEnd(state: Lex, suffix: string, depth: nat)
    requires suffix != [] && suffix[0] == '}' && depth > 0
    ensures ScanBraces(Masked(state, suffix), depth) == Closed(0) <==> state == Code && depth == 1
  {
    MaskedKeepsPositions(state, suffix);
    MaskUnfolds(state, suffix);
    assert Masked(state, suffix)[0] == Next(state, suffix).masked[0];
  }

  /** Self-contained text keeps the position inside the outer type. */
  lemma InsideGrows(prefix: string, inserted: string, isWord: char -> bool)
    requires InsideOuter(prefix, isWord) && CutClean(prefix, inserted) && SelfContained(inserted)
    ensures InsideOuter(prefix + inserted, isWord)
    ensures Masked(Code, prefix + inserted) == Masked(Code, prefix) + Masked(Code, inserted)
  {
    hide Masked, FindTypeOpen, ScanBraces, EndState, CloseIn, Boundary;
    CleanCut(Code, prefix, inserted);
    MaskSplits(Code, prefix, inserted);
    MaskedKeepsPositions(Code, prefix);
    var front, back := Masked(Code, prefix), Masked(Code, inserted);
    MaskedTail(front, back, isWord);
    var opening := FindTypeOpen(front, 0, isWord).value;
    assert (front + back)[opening + 1..] == front[opening + 1..] + back;
    ScanSplits(front[opening + 1..], back, 1);
  }

  // ---------------------------------------------------------------- the insertion of one member

  /** What a caller can check before the call: the member's own block is self-contained. */
  predicate Insertable(member: string) {
    Block(member) == "" || SelfContained(Block(member) + "\n")
  }

  lemma NewlineChangesNothing(text: string)
    ensures SelfContained("\n" + text) <==> SelfContained(text)
  {
    hide Next, Masked, EndState, ScanBraces;
    var all := "\n" + text;
    assert all[1..] == text;
    NewlineIsOneLexeme(text);
    MaskUnfolds(Code, all);
    ScanSplits("\n", Masked(Code, text), 1);
    NewlineScans();
  }

  lemma NewlineIsOneLexeme(text: string)
    ensures Next(Code, "\n" + text) == Lexeme("\n", Code)
  {
    assert ("\n" + text)[0] == '\n';
  }

  lemma NewlineScans()
    ensures ScanBraces("\n", 1) == Open(1)
  {
    assert "\n"[1..] == "";
  }

  lemma SpacerChangesNothing(prefix: string, text: string)
    ensures SelfContained(Spacer(prefix) + text) <==> SelfContained(text)
  {
    hide SelfContained;
    if Spacer(prefix) == "" {
      assert "" + text == text;
    } else if Spacer(prefix) == "\n" {
      NewlineChangesNothing(text);
    } else {
      assert "\n\n" + text == "\n" + ("\n" + text);
      NewlineChangesNothing("\n" + text);
      NewlineChangesNothing(text);
    }
  }

  /** The inserted text never glues onto what stands before it. */
  lemma InsertionCutsClean(prefix: string, member: string)
    ensures CutClean(prefix, Inserted(prefix, member))
  {
    hide Block;
    var block := Block(member);
    if block != "" {
      if EndsWith(prefix, "\n\n") {
        assert prefix[|prefix| - 1] == prefix[|prefix| - 2..][1];
      } else {
        assert Inserted(prefix, member)[0] == '\n';
      }
    }
  }

  lemma InsertedIsSelfContained(prefix: string, member: string)
    ensures SelfContained(Inserted(prefix, member)) <==> Insertable(member)
  {
    hide SelfContained, Block, Spacer;
    var block := Block(member);
    if block == "" {
      EmptyIsSelfContained();
    } else {
      assert Inserted(prefix, member) == Spacer(prefix) + (block + "\n");
      SpacerChangesNothing(prefix, block + "\n");
    }
  }

  lemma EmptyIsSelfContained()
    ensures SelfContained("")
  {
  }

  /** Inserting a member leaves the outer type closed by the same brace, moved by the inserted length,
      if and only if the member's block is self-contained. */
  lemma InsertMovesClose(text: string, member: string, isWord: char -> bool)
    requires InsertMember(text, member, isWord).Edited?
    ensures CloseOf(text, isWord).Found?
    ensures var at := CloseOf(text, isWord).at;
            var inserted := Inserted(text[..at], member);
            && (CloseOf(InsertMember(text, member, isWord).text, isWord) == Found(at + |inserted|) <==> Insertable(member))
            && (Insertable(member) ==>
                  Masked(Code, InsertMember(text, member, isWord).text)
                  == Masked(Code, text[..at]) + Masked(Code, inserted) + Masked(Code, text[at..]))
  {
    hide CloseOf, InsideOuter, SelfContained, Inserted, CutClean, Masked;
    var at := CloseOf(text, isWord).at;
    var prefix, suffix := text[..at], text[at..];
    var inserted := Inserted(prefix, member);
    PrefixIsInside(text, isWord);
    CloseIsProgramText(text, isWord);
    InsertionCutsClean(prefix, member);
    InsertedIsSelfContained(prefix, member);
    CloseMovesExactly(prefix, inserted, suffix, isWord);
    if Insertable(member) {
      InsideGrows(prefix, inserted, isWord);
      SplitAtBrace(prefix + inserted, suffix, isWord);
    }
  }

  lemma SplitAtBrace(prefix: string, suffix: string, isWord: char -> bool)
    requires InsideOuter(prefix, isWord) && suffix != [] && suffix[0] == '}'
    ensures Masked(Code, prefix + suffix) == Masked(Code, prefix) + Masked(Code, suffix)
  {
    hide Masked, FindTypeOpen, ScanBraces, Boundary;
    CleanCut(Code, prefix, suffix);
    MaskSplits(Code, prefix, suffix);
  }

  // ---------------------------------------------------------------- repeated insertion

  function InsertMembers(text: string, members: seq<string>, isWord: char -> bool): Edit
    decreases |members|
  {
    if members == [] then Edited(text)
    else match InsertMember(text, members[0], isWord)
      case Edited(next) => InsertMembers(next, members[1..], isWord)
      case refused => refused
  }

  /** The blocks in order, each spaced from the text before it. */
  function Blocks(prefix: string, members: seq<string>): string
    decreases |members|
  {
    if members == [] then ""
    else Inserted(prefix, members[0]) + Blocks(prefix + Inserted(prefix, members[0]), members[1..])
  }

  lemma OneInsert(text: string, member: string, isWord: char -> bool) returns (next: string)
    requires CloseOf(text, isWord).Found? && PyString.Strip(member) != "" && Insertable(member)
    ensures InsertMember(text, member, isWord) == Edited(next)
    ensures var at := CloseOf(text, isWord).at;
            var inserted := Inserted(text[..at], member);
            && CloseOf(next, isWord) == Found(at + |inserted|)
            && next[..at + |inserted|] == text[..at] + inserted && next[at + |inserted|..] == text[at..]
  {
    hide CloseOf, Inserted, Insertable;
    var at := CloseOf(text, isWord).at;
    next := text[..at] + Inserted(text[..at], member) + text[at..];
    InsertMovesClose(text, member, isWord);
  }

  lemma BlocksUnfold(prefix: string, members: seq<string>)
    requires members != []
    ensures var inserted := Inserted(prefix, members[0]);
            Blocks(prefix, members) == inserted + Blocks(prefix + inserted, members[1..])
  {
  }

  lemma InsertsUnfold(text: string, members: seq<string>, isWord: char -> bool)
    ensures members == [] ==> InsertMembers(text, members, isWord) == Edited(text) && forall p :: Blocks(p, members) == ""
    ensures members != [] && InsertMember(text, members[0], isWord).Edited?
            ==> InsertMembers(text, members, isWord)
                == InsertMembers(InsertMember(text, members[0], isWord).text, members[1..], isWord)
  {
  }

  /** Repeated insertions all stay inside the type, in order, before the brace that closed it at first. */
  lemma {:induction false} InsertsKeepOrder(text: string, members: seq<string>, isWord: char -> bool)
    requires CloseOf(text, isWord).Found?
    requires forall i :: 0 <= i < |members| ==> PyString.Strip(members[i]) != "" && Insertable(members[i])
    ensures var at := CloseOf(text, isWord).at;
            var blocks := Blocks(text[..at], members);
            var edit := InsertMembers(text, members, isWord);
            && edit == Edited(text[..at] + blocks + text[at..])
            && CloseOf(edit.text, isWord) == Found(at + |blocks|)
    decreases |members|
  {
    hide CloseOf, Inserted, Insertable, InsertMember, InsertMembers, Blocks;
    var at := CloseOf(text, isWord).at;
    var prefix, suffix := text[..at], text[at..];
    InsertsUnfold(text, members, isWord);
    if members == [] {
      assert prefix + "" + suffix == text;
    } else {
      BlocksUnfold(prefix, members);
      var next := OneInsert(text, members[0], isWord);
      InsertsKeepOrder(next, members[1..], isWord);
      var inserted := Inserted(prefix, members[0]);
      Regroup(prefix, inserted, Blocks(prefix + inserted, members[1..]), suffix);
    }
  }

  lemma Regroup(a: string, b: string, c: string, d: string)
    ensures a + b + c + d == a + (b + c) + d
  {
  }

  lemma BlockEndsVisibly(member: string)
    requires Block(member) != ""
    ensures Block(member)[|Block(member)| - 1] != '\n'
  {
    PyString.StripRightEnds(Join(Indented(Lines.SplitLines(TEXT_BREAKS, MemberCode(member)))));
  }

  lemma SpacerAfterLine(before: string, block: string)
    requires block != "" && block[|block| - 1] != '\n'
    ensures Spacer(before + block + "\n") == "\n"
  {
    var text := before + block + "\n";
    assert text[|text| - 1..] == "\n";
    assert text[|text| - 2..][0] == block[|block| - 1];
  }

  /** After a first member, every further one is set off by exactly one blank line. */
  lemma OneBlankLineBetween(prefix: string, first: string, second: string)
    requires Block(first) != "" && Block(second) != ""
    ensures Inserted(prefix + Inserted(prefix, first), second) == "\n" + Block(second) + "\n"
  {
    hide Block, Spacer;
    BlockEndsVisibly(first);
    SpacerAfterLine(prefix + Spacer(prefix), Block(first));
    assert prefix + Inserted(prefix, first) == prefix + Spacer(prefix) + Block(first) + "\n";
  }

  // ---------------------------------------------------------------- a member that is not self-contained

  lemma LoneBraceCode()
    ensures PyString.Strip("}") == "}" && MemberCode("}") == "}"
  {
    var brace := "}";
    assert PyString.Strip(brace) == brace;
    assert Lines.HoldsNoBreak(TEXT_BREAKS, brace);
    OneLine(brace);
    assert IsMemberLine(brace);
    assert MemberLines([brace]) == [brace] + MemberLines([]);
  }

  lemma LoneBraceBlock()
    ensures Block("}") == "    }"
  {
    LoneBraceCode();
    OneLine("}");
    assert Indented(["}"]) == [Indent("}")] + Indented([]);
    assert Indent("}") == "    }";
    assert PyString.StripRight("    }") == "    }";
  }

  lemma {:induction false} BlanksBeforeBrace(blanks: string, rest: string)
    requires forall i :: 0 <= i < |blanks| ==> blanks[i] == ' ' || blanks[i] == '\n'
    ensures ScanBraces(blanks + "}" + rest, 1) == Closed(|blanks|)
    ensures PlainCode(blanks + "}" + "\n")
  {
    var text := blanks + "}" + rest;
    if blanks == [] {
      assert text[0] == '}';
    } else {
      BlanksBeforeBrace(blanks[1..], rest);
      assert text[0] == blanks[0] && text[1..] == blanks[1..] + "}" + rest;
    }
  }

  lemma LoneBraceInserted(prefix: string)
    ensures Inserted(prefix, "}") == Spacer(prefix) + "    " + "}" + "\n"
  {
    LoneBraceBlock();
    hide Block;
    var spacer := Spacer(prefix);
    assert spacer + "    }" + "\n" == spacer + "    " + "}" + "\n";
  }

  lemma LoneBraceScan(prefix: string, suffix: string)
    requires suffix != [] && suffix[0] == '}'
    ensures ScanBraces(Masked(Code, Inserted(prefix, "}") + suffix), 1) == Closed(|Spacer(prefix)| + 4)
    ensures !SelfContained(Inserted(prefix, "}"))
  {
    hide Masked, EndState, ScanBraces, Boundary, Inserted, PlainCode;
    var inserted := Inserted(prefix, "}");
    LoneBraceInserted(prefix);
    BlanksBeforeBrace(Spacer(prefix) + "    ", "\n");
    PlainStays(inserted);
    CleanCut(Code, inserted, suffix);
    MaskSplits(Code, inserted, suffix);
    ScanSplits(inserted, Masked(Code, suffix), 1);
  }

  lemma LoneBraceCloses(prefix: string, suffix: string, isWord: char -> bool)
    requires InsideOuter(prefix, isWord) && suffix != [] && suffix[0] == '}'
    ensures CloseOf(prefix + Inserted(prefix, "}") + suffix, isWord) == Found(|prefix| + |Spacer(prefix)| + 4)
    ensures !Insertable("}")
  {
    hide CloseOf, InsideOuter, Masked, ScanBraces, Inserted, Insertable, SelfContained, CutClean, Spacer;
    LoneBraceScan(prefix, suffix);
    InsertedIsSelfContained(prefix, "}");
    LoneBraceCut(prefix, suffix);
    RestDecides(prefix, Inserted(prefix, "}") + suffix, isWord);
    Reassociate(prefix, Inserted(prefix, "}"), suffix);
  }

  lemma Reassociate(a: string, b: string, c: string)
    ensures a + b + c == a + (b + c)
  {
  }

  /** A lone closing brace as member: the insertion is made, and the brace inserted closes the type. */
  lemma LoneBraceClosesEarly(text: string, isWord: char -> bool)
    requires CloseOf(text, isWord).Found?
    ensures !Insertable("}") && InsertMember(text, "}", isWord).Edited?
    ensures var at := CloseOf(text, isWord).at;
            CloseOf(InsertMember(text, "}", isWord).text, isWord) == Found(at + |Spacer(text[..at])| + 4)
  {
    hide CloseOf, InsideOuter, Masked, EndState, PyString.Strip, Inserted, Insertable, Spacer, MemberCode;
    var at := CloseOf(text, isWord).at;
    LoneBraceCode();
    PrefixIsInside(text, isWord);
    CloseIsProgramText(text, isWord);
    LoneBraceCloses(text[..at], text[at..], isWord);
  }

  lemma LoneBraceCut(prefix: string, suffix: string)
    ensures CutClean(prefix, Inserted(prefix, "}") + suffix)
  {
    InsertionCutsClean(prefix, "}");
    LoneBraceInserted(prefix);
    hide Inserted, Block, Spacer;
    assert (Inserted(prefix, "}") + suffix)[0] == Inserted(prefix, "}")[0];
  }
}
