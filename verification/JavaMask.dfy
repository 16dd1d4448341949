/** Masking comments and literals out of Java text, so that brace matching sees only code
    (sections 3.7, 3.10.4 and 3.10.5 of the Java Language Specification). */
module JavaMask {

  /** Where the lexer is; inside a literal it also remembers a pending backslash. */
  datatype Lex =
    | Code
    | LineComment
    | BlockComment
    | StringLiteral(escaped: bool)
    | CharLiteral(escaped: bool)

  /** One or two characters of input, what they are masked to, and the state after them. */
  datatype Lexeme = Lexeme(masked: string, next: Lex)

  function Literal(state: Lex, c: char): Lex
    requires state.StringLiteral? || state.CharLiteral?
  {
    var closing := if state.StringLiteral? then '"' else '\'';
    if state.escaped then state.(escaped := false)
    else if c == '\\' then state.(escaped := true)
    else if c == closing then Code
    else state
  }

  function Next(state: Lex, text: string): (lexeme: Lexeme)
    requires text != []
    ensures 1 <= |lexeme.masked| <= |text|
  {
    var c := text[0];
    var nxt := if |text| > 1 then text[1..2] else "";
    match state
    case Code =>
      if c == '/' && nxt == "/" then Lexeme("  ", LineComment)
      else if c == '/' && nxt == "*" then Lexeme("  ", BlockComment)
      else if c == '"' then Lexeme(" ", StringLiteral(false))
      else if c == '\'' then Lexeme(" ", CharLiteral(false))
      else Lexeme([c], Code)
    case LineComment =>
      if c == '\n' then Lexeme("\n", Code) else Lexeme(" ", LineComment)
    case BlockComment =>
      if c == '*' && nxt == "/" then Lexeme("  ", Code)
      else Lexeme(if c == '\n' then "\n" else " ", BlockComment)
    case _ => Lexeme(" ", Literal(state, c))
  }

  function Masked(state: Lex, text: string): string
    decreases |text|
  {
    if text == [] then []
    else
      var lexeme := Next(state, text);
      lexeme.masked + Masked(lexeme.next, text[|lexeme.masked|..])
  }

  function EndState(state: Lex, text: string): Lex
    decreases |text|
  {
    if text == [] then state
    else
      var lexeme := Next(state, text);
      EndState(lexeme.next, text[|lexeme.masked|..])
  }

  // ---------------------------------------------------------------- what masking guarantees

  /** Masking keeps every position: each character stays or becomes a blank. */
  lemma {:induction false} MaskedKeepsPositions(state: Lex, text: string)
    ensures |Masked(state, text)| == |text|
    ensures forall i :: 0 <= i < |text| ==> Masked(state, text)[i] == text[i] || Masked(state, text)[i] == ' '
    decreases |text|
  {
    if text != [] {
      var lexeme := Next(state, text);
      var rest := text[|lexeme.masked|..];
      MaskedKeepsPositions(lexeme.next, rest);
      forall i | 0 <= i < |text| ensures Masked(state, text)[i] == text[i] || Masked(state, text)[i] == ' ' {
        if i >= |lexeme.masked| {
          assert text[i] == rest[i - |lexeme.masked|];
        }
      }
    }
  }

  predicate IsQuote(c: char) {
    c == '"' || c == '\''
  }

  /** Text with no quote and no comment opener. */
  ghost predicate PlainCode(text: string) {
    && (forall i :: 0 <= i < |text| ==> !IsQuote(text[i]))
    && (forall i :: 0 <= i < |text| - 1 ==> text[i] == '/' ==> text[i + 1] != '/' && text[i + 1] != '*')
  }

  lemma EmptyIsPlain()
    ensures PlainCode("")
  {
  }

  lemma PlainJoins(a: string, b: string)
    requires PlainCode(a) && PlainCode(b)
    requires a != [] && b != [] && a[|a| - 1] == '/' ==> b[0] != '/' && b[0] != '*'
    ensures PlainCode(a + b)
  {
    var all := a + b;
    forall i | 0 <= i < |all| - 1 && all[i] == '/' ensures all[i + 1] != '/' && all[i + 1] != '*' {
      if i < |a| - 1 {
        assert all[i + 1] == a[i + 1];
      } else if i >= |a| {
        assert all[i + 1] == b[i - |a| + 1];
      }
    }
  }

  lemma LexemeIsPlain(state: Lex, text: string)
    requires text != []
    ensures PlainCode(Next(state, text).masked)
    ensures var masked := Next(state, text).masked;
            masked[|masked| - 1] == '/' ==> |masked| == 1 && (|text| == 1 || (text[1] != '/' && text[1] != '*'))
  {
    assert |text| > 1 ==> text[1..2] == [text[1]];
  }

  lemma {:induction false} MaskedIsPlain(state: Lex, text: string)
    ensures PlainCode(Masked(state, text))
    decreases |text|
  {
    hide Next, PlainCode;
    if text == [] {
      EmptyIsPlain();
    } else {
      var lexeme := Next(state, text);
      var rest := text[|lexeme.masked|..];
      MaskedIsPlain(lexeme.next, rest);
      MaskedKeepsPositions(lexeme.next, rest);
      LexemeIsPlain(state, text);
      PlainJoins(lexeme.masked, Masked(lexeme.next, rest));
    }
  }

  lemma {:induction false} PlainStays(text: string)
    requires PlainCode(text)
    ensures Masked(Code, text) == text && EndState(Code, text) == Code
    decreases |text|
  {
    if text != [] {
      assert Next(Code, text) == Lexeme([text[0]], Code);
      PlainStays(text[1..]);
    }
  }

  /** Masking twice is masking once. */
  lemma MaskIdempotent(state: Lex, text: string)
    ensures Masked(Code, Masked(state, text)) == Masked(state, text)
  {
    MaskedIsPlain(state, text);
    PlainStays(Masked(state, text));
  }

  // ---------------------------------------------------------------- splitting

  predicate IsTokenChar(c: char) {
    c == '/' || c == '*'
  }

  /** Position `i` starts a lexeme: it is not the second character of a comment opener or closer. */
  predicate Boundary(state: Lex, text: string, i: nat)
    requires i <= |text|
    decreases |text|
  {
    i == 0
    || var lexeme := Next(state, text);
       i >= |lexeme.masked| && Boundary(lexeme.next, text[|lexeme.masked|..], i - |lexeme.masked|)
  }

  lemma MaskUnfolds(state: Lex, text: string)
    requires text != []
    ensures var lexeme := Next(state, text);
            && Masked(state, text) == lexeme.masked + Masked(lexeme.next, text[|lexeme.masked|..])
            && EndState(state, text) == EndState(lexeme.next, text[|lexeme.masked|..])
  {
  }

  lemma NothingLeft(state: Lex, text: string)
    requires text == []
    ensures Masked(state, text) == [] && EndState(state, text) == state
  {
  }

  lemma NextFits(state: Lex, a: string, b: string)
    requires a != [] && |Next(state, a + b).masked| <= |a|
    ensures Next(state, a + b) == Next(state, a)
  {
    assert (a + b)[0] == a[0];
    if |a| > 1 {
      assert (a + b)[1..2] == a[1..2];
    } else if b != [] {
      assert (a + b)[1..2] == [b[0]];
    }
  }

  lemma NextIgnoresTail(state: Lex, a: string, b: string)
    requires a != [] && Boundary(state, a + b, |a|)
    ensures Next(state, a + b) == Next(state, a)
    ensures var w := |Next(state, a).masked|; Boundary(Next(state, a).next, a[w..] + b, |a| - w)
  {
    hide Next;
    NextFits(state, a, b);
    var w := |Next(state, a).masked|;
    assert (a + b)[w..] == a[w..] + b;
  }

  /** Across a lexeme boundary, masking the whole is masking the parts, the second from where the first ended. */
  lemma {:induction false} MaskSplits(state: Lex, a: string, b: string)
    requires Boundary(state, a + b, |a|)
    ensures Masked(state, a + b) == Masked(state, a) + Masked(EndState(state, a), b)
    ensures EndState(state, a + b) == EndState(EndState(state, a), b)
    decreases |a|
  {
    hide Next, Masked, EndState, Boundary;
    if a == [] {
      assert a + b == b;
      NothingLeft(state, a);
      assert Masked(state, a) + Masked(EndState(state, a), b) == Masked(state, b);
    } else {
      NextIgnoresTail(state, a, b);
      var lexeme := Next(state, a);
      var rest := a[|lexeme.masked|..];
      assert (a + b)[|lexeme.masked|..] == rest + b;
      MaskSplits(lexeme.next, rest, b);
      MaskUnfolds(state, a);
      MaskUnfolds(state, a + b);
      var tail := Masked(EndState(lexeme.next, rest), b);
      assert lexeme.masked + (Masked(lexeme.next, rest) + tail) == lexeme.masked + Masked(lexeme.next, rest) + tail;
    }
  }

  /** No comment opener or closer straddles the cut. */
  predicate CutClean(a: string, b: string) {
    a == [] || b == [] || !IsTokenChar(a[|a| - 1]) || !IsTokenChar(b[0])
  }

  /** A cut is a boundary unless token characters stand on both sides of it. */
  lemma {:induction false} CleanCut(state: Lex, a: string, b: string)
    requires CutClean(a, b)
    ensures Boundary(state, a + b, |a|)
    decreases |a|
  {
    if a != [] {
      var w := |Next(state, a + b).masked|;
      assert |a| == 1 && b != [] ==> (a + b)[1..2] == [b[0]];
      assert (a + b)[w..] == a[w..] + b;
      CleanCut(Next(state, a + b).next, a[w..], b);
    }
  }

  /** The character at `i` is program text: no comment or literal holds it or opens there. */
  ghost predicate InCode(text: string, i: nat)
    requires i < |text|
  {
    Boundary(Code, text, i) && EndState(Code, text[..i]) == Code && Next(Code, text[i..]).next == Code
  }

  lemma {:induction false} InsideTokenIsBlank(state: Lex, text: string, i: nat)
    requires i < |text| && !Boundary(state, text, i)
    ensures |Masked(state, text)| == |text| && Masked(state, text)[i] == ' '
    decreases |text|
  {
    MaskedKeepsPositions(state, text);
    var lexeme := Next(state, text);
    if i >= |lexeme.masked| {
      InsideTokenIsBlank(lexeme.next, text[|lexeme.masked|..], i - |lexeme.masked|);
    }
  }

  lemma KeptAtBoundary(state: Lex, text: string)
    requires text != [] && text[0] != ' ' && text[0] != '\n'
    ensures Next(state, text).masked[0] == text[0] <==> state == Code && Next(Code, text).next == Code
  {
  }

  /** Exactly the characters of the program text survive; every other visible one is blanked. */
  lemma KeptExactlyInCode(text: string, i: nat)
    requires i < |text| && text[i] != ' ' && text[i] != '\n'
    ensures |Masked(Code, text)| == |text|
    ensures Masked(Code, text)[i] == text[i] <==> InCode(text, i)
  {
    hide Next, Masked, EndState, Boundary;
    MaskedKeepsPositions(Code, text);
    if !Boundary(Code, text, i) {
      InsideTokenIsBlank(Code, text, i);
    } else {
      var before, after := text[..i], text[i..];
      assert text == before + after;
      MaskSplits(Code, before, after);
      MaskedKeepsPositions(Code, before);
      MaskUnfolds(EndState(Code, before), after);
      assert Masked(Code, text)[i] == Next(EndState(Code, before), after).masked[0];
      KeptAtBoundary(EndState(Code, before), after);
    }
  }

  // ---------------------------------------------------------------- the masking loop

  predicate IsTwoWide(state: Lex, c: char, nxt: char) {
    if state == Code then c == '/' && IsTokenChar(nxt) else state == BlockComment && c == '*' && nxt == '/'
  }

  function AfterTwo(state: Lex, nxt: char): Lex {
    if state == BlockComment then Code else if nxt == '/' then LineComment else BlockComment
  }

  function MaskOne(state: Lex, c: char): char {
    if state == Code then if IsQuote(c) then ' ' else c
    else if (state == LineComment || state == BlockComment) && c == '\n' then c
    else ' '
  }

  function AfterOne(state: Lex, c: char): Lex {
    match state
    case Code => if c == '"' then StringLiteral(false) else if c == '\'' then CharLiteral(false) else Code
    case LineComment => if c == '\n' then Code else LineComment
    case BlockComment => BlockComment
    case _ => Literal(state, c)
  }

  /** One turn of the loop is one lexeme. */
  lemma TurnIsLexeme(state: Lex, text: string)
    requires text != []
    ensures |text| > 1 && IsTwoWide(state, text[0], text[1])
            ==> Next(state, text) == Lexeme("  ", AfterTwo(state, text[1]))
    ensures !(|text| > 1 && IsTwoWide(state, text[0], text[1]))
            ==> Next(state, text) == Lexeme([MaskOne(state, text[0])], AfterOne(state, text[0]))
  {
    assert |text| > 1 ==> text[1..2] == [text[1]];
  }

  lemma OneTurn(text: string, done: string, state: Lex, index: nat)
    requires index < |text| && Masked(Code, text) == done + Masked(state, text[index..])
    ensures index + 1 < |text| && IsTwoWide(state, text[index], text[index + 1])
            ==> Masked(Code, text) == done + "  " + Masked(AfterTwo(state, text[index + 1]), text[index + 2..])
    ensures !(index + 1 < |text| && IsTwoWide(state, text[index], text[index + 1]))
            ==> Masked(Code, text)
                == done + [MaskOne(state, text[index])] + Masked(AfterOne(state, text[index]), text[index + 1..])
  {
    hide Next, Masked, IsTwoWide, MaskOne, AfterOne, AfterTwo;
    var rest := text[index..];
    TurnIsLexeme(state, rest);
    MaskUnfolds(state, rest);
    var lexeme := Next(state, rest);
    assert rest[|lexeme.masked|..] == text[index + |lexeme.masked|..];
    var tail := Masked(lexeme.next, rest[|lexeme.masked|..]);
    assert done + (lexeme.masked + tail) == done + lexeme.masked + tail;
  }

  /** Masks the characters in place, one state variable and one escape flag at a time. */
  method MaskInPlace(chars: array<char>)
    modifies chars
    ensures chars[..] == Masked(Code, old(chars[..]))
  {
    hide Next, Masked, IsTwoWide, MaskOne, AfterOne, AfterTwo;
    ghost var text := chars[..];
    var state := Code;
    var index := 0;
    while index < chars.Length
      invariant index <= chars.Length == |text|
      invariant forall k :: index <= k < chars.Length ==> chars[k] == text[k]
      invariant Masked(Code, text) == chars[..index] + Masked(state, text[index..])
    {
      ghost var done := chars[..index];
      OneTurn(text, done, state, index);
      var c := chars[index];
      if index + 1 < chars.Length && IsTwoWide(state, c, chars[index + 1]) {
        state := AfterTwo(state, chars[index + 1]);
        chars[index], chars[index + 1] := ' ', ' ';
        index := index + 2;
        assert chars[..index] == done + "  ";
      } else {
        chars[index] := MaskOne(state, c);
        state := AfterOne(state, c);
        index := index + 1;
        assert chars[..index] == done + [chars[index - 1]];
      }
    }
    NothingLeft(state, text[index..]);
    assert chars[..index] == chars[..];
  }
}
