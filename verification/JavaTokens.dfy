/** Comments and literals of Java text by position alone: where each one ends, and what masking leaves of it
    (sections 3.7, 3.10.4 and 3.10.5 of the Java Language Specification). */
module JavaTokens {
  import opened JavaMask

  // ---------------------------------------------------------------- where a comment or literal ends

  /** Nothing but backslashes from `k` to `j`, and none just before, as far as the literal opened at `p` goes. */
  predicate BackslashRun(text: string, p: nat, k: nat, j: nat) {
    && p < k <= j <= |text|
    && (forall i :: k <= i < j ==> text[i] == '\\')
    && (k == p + 1 || text[k - 1] != '\\')
  }

  /** The quote at `j` matches the one at `p`, with an even number of backslashes before it. */
  ghost predicate ClosesQuote(text: string, p: nat, j: nat) {
    && p < j < |text| && text[j] == text[p]
    && exists k: nat :: BackslashRun(text, p, k, j) && (j - k) % 2 == 0
  }

  predicate StartsWith(text: string, p: nat, c: char, d: char) {
    p + 1 < |text| && text[p] == c && text[p + 1] == d
  }

  predicate IsLiteral(text: string, p: nat) {
    p < |text| && (text[p] == '"' || text[p] == '\'')
  }

  predicate IsLineComment(text: string, p: nat) {
    StartsWith(text, p, '/', '/')
  }

  predicate IsBlockComment(text: string, p: nat) {
    StartsWith(text, p, '/', '*')
  }

  predicate IsPlain(text: string, p: nat) {
    p < |text| && !IsLiteral(text, p) && !IsLineComment(text, p) && !IsBlockComment(text, p)
  }

  /** The last position of what opens at `p`, if that is a literal or a block comment; the line feed after it,
      if that is a line comment. */
  ghost predicate Closes(text: string, p: nat, j: nat) {
    if IsLiteral(text, p) then ClosesQuote(text, p, j)
    else if IsLineComment(text, p) then p < j < |text| && text[j] == '\n'
    else IsBlockComment(text, p) && p + 3 <= j && StartsWith(text, j - 1, '*', '/')
  }

  ghost predicate FirstClose(text: string, p: nat, j: nat) {
    Closes(text, p, j) && forall i: nat :: i < j ==> !Closes(text, p, i)
  }

  ghost predicate NeverCloses(text: string, p: nat) {
    forall j: nat :: !Closes(text, p, j)
  }

  /** What stands at `p` goes up to `q`: one character of the program, or a comment or literal up to its first
      end, or to the end of the text if it has none. A line comment ends before the line feed. */
  ghost predicate Token(text: string, p: nat, q: nat) {
    && p < q <= |text|
    && if IsPlain(text, p) then q == p + 1
       else if NeverCloses(text, p) then q == |text|
       else FirstClose(text, p, if IsLineComment(text, p) then q else q - 1)
  }

  /** A character of the program stays; of comments and literals only the line feeds of block comments do. */
  function Kept(text: string, p: nat, i: nat): char
    requires p <= i < |text|
  {
    if IsPlain(text, p) || (IsBlockComment(text, p) && text[i] == '\n') then text[i] else ' '
  }

  function KeptOf(text: string, p: nat, from: nat, to: nat): (kept: string)
    requires p <= from <= to <= |text|
    ensures |kept| == to - from && forall i :: 0 <= i < to - from ==> kept[i] == Kept(text, p, from + i)
  {
    seq(to - from, i requires 0 <= i < to - from => Kept(text, p, from + i))
  }

  lemma KeptMore(text: string, p: nat, j: nat)
    requires p <= j < |text|
    ensures KeptOf(text, p, p, j + 1) == KeptOf(text, p, p, j) + [Kept(text, p, j)]
  {
    hide Kept;
  }

  // ---------------------------------------------------------------- inside a literal

  lemma RunIsOne(text: string, p: nat, k: nat, m: nat, j: nat)
    requires BackslashRun(text, p, k, j) && BackslashRun(text, p, m, j)
    ensures k == m
  {
  }

  lemma LiteralStep(state: Lex, text: string, from: nat)
    requires from < |text| && (state.StringLiteral? || state.CharLiteral?)
    ensures Masked(state, text[from..]) == " " + Masked(Literal(state, text[from]), text[from + 1..])
    ensures EndState(state, text[from..]) == EndState(Literal(state, text[from]), text[from + 1..])
  {
    hide Literal;
    assert text[from..][1..] == text[from + 1..];
    MaskUnfolds(state, text[from..]);
  }

  /** The state before `j` inside the literal opened at `p`. */
  function Inside(text: string, p: nat, escaped: bool): Lex
    requires IsLiteral(text, p)
  {
    if text[p] == '"' then StringLiteral(escaped) else CharLiteral(escaped)
  }

  /** From `k` on only backslashes stand before `j`: the next character is escaped if they are odd in number. */
  lemma {:induction false} LiteralRuns(text: string, p: nat, k: nat, j: nat)
    requires IsLiteral(text, p) && BackslashRun(text, p, k, j)
    requires forall i: nat :: i < j ==> !ClosesQuote(text, p, i)
    ensures Masked(Code, text[p..]) == KeptOf(text, p, p, j) + Masked(Inside(text, p, (j - k) % 2 == 1), text[j..])
    ensures EndState(Code, text[p..]) == EndState(Inside(text, p, (j - k) % 2 == 1), text[j..])
    decreases j
  {
    hide Masked, EndState, ClosesQuote;
    if j == p + 1 {
      Opens(text, p);
    } else {
      var m := RunBefore(text, p, j - 1);
      LiteralRuns(text, p, m, j - 1);
      LiteralStep(Inside(text, p, (j - 1 - m) % 2 == 1), text, j - 1);
      StepsTo(text, p, m, k, j);
      KeptMore(text, p, j - 1);
    }
  }

  lemma Opens(text: string, p: nat)
    requires IsLiteral(text, p)
    ensures Masked(Code, text[p..]) == KeptOf(text, p, p, p + 1) + Masked(Inside(text, p, false), text[p + 1..])
    ensures EndState(Code, text[p..]) == EndState(Inside(text, p, false), text[p + 1..])
  {
    hide Masked, EndState;
    assert text[p..][1..] == text[p + 1..];
    MaskUnfolds(Code, text[p..]);
    KeptMore(text, p, p);
  }

  lemma {:induction false} RunBefore(text: string, p: nat, j: nat) returns (k: nat)
    requires p < j <= |text|
    ensures BackslashRun(text, p, k, j)
  {
    k := j;
    while k > p + 1 && text[k - 1] == '\\'
      invariant p < k <= j
      invariant forall i :: k <= i < j ==> text[i] == '\\'
    {
      k := k - 1;
    }
  }

  /** One character on: a backslash lengthens the run, anything else starts a new one. */
  lemma StepsTo(text: string, p: nat, m: nat, k: nat, j: nat)
    requires IsLiteral(text, p) && p + 1 < j && BackslashRun(text, p, k, j) && BackslashRun(text, p, m, j - 1)
    requires !ClosesQuote(text, p, j - 1)
    ensures Literal(Inside(text, p, (j - 1 - m) % 2 == 1), text[j - 1]) == Inside(text, p, (j - k) % 2 == 1)
  {
    if text[j - 1] == '\\' {
      assert BackslashRun(text, p, m, j);
      RunIsOne(text, p, k, m, j);
    } else {
      assert k == j;
    }
  }

  lemma ClosingStep(text: string, p: nat, k: nat, j: nat)
    requires IsLiteral(text, p) && ClosesQuote(text, p, j) && BackslashRun(text, p, k, j)
    ensures (j - k) % 2 == 0 && Literal(Inside(text, p, false), text[j]) == Code
  {
    var m: nat :| BackslashRun(text, p, m, j) && (j - m) % 2 == 0;
    RunIsOne(text, p, k, m, j);
  }

  /** A literal is blanked up to the first matching quote with an even number of backslashes before it, and
      the program goes on after that quote. */
  lemma LiteralEnds(text: string, p: nat, j: nat)
    requires IsLiteral(text, p) && ClosesQuote(text, p, j) && forall i: nat :: i < j ==> !ClosesQuote(text, p, i)
    ensures Masked(Code, text[p..]) == KeptOf(text, p, p, j + 1) + Masked(Code, text[j + 1..])
    ensures EndState(Code, text[p..]) == EndState(Code, text[j + 1..])
  {
    hide Masked, EndState, ClosesQuote, Literal;
    assert p < j < |text| by { ClosesInside(text, p, j); }
    var k := RunBefore(text, p, j);
    LiteralRuns(text, p, k, j);
    ClosingStep(text, p, k, j);
    LiteralStep(Inside(text, p, false), text, j);
    KeptMore(text, p, j);
  }

  lemma ClosesInside(text: string, p: nat, j: nat)
    requires ClosesQuote(text, p, j)
    ensures p < j < |text|
  {
  }

  lemma LiteralNeverEnds(text: string, p: nat)
    requires IsLiteral(text, p) && forall j: nat :: !ClosesQuote(text, p, j)
    ensures Masked(Code, text[p..]) == KeptOf(text, p, p, |text|) && EndState(Code, text[p..]) != Code
  {
    hide Masked, EndState, ClosesQuote;
    var k := RunBefore(text, p, |text|);
    LiteralRuns(text, p, k, |text|);
    NothingLeft(Inside(text, p, (|text| - k) % 2 == 1), text[|text|..]);
  }

  // ---------------------------------------------------------------- inside a comment

  predicate IsComment(text: string, p: nat) {
    IsLineComment(text, p) || IsBlockComment(text, p)
  }

  /** The comment opened at `p` is not closed by what starts at `j`. */
  ghost predicate StaysOpen(text: string, p: nat, j: nat) {
    !Closes(text, p, if IsLineComment(text, p) then j else j + 1)
  }

  lemma CommentOpens(text: string, p: nat)
    requires IsComment(text, p)
    ensures var inside := if IsLineComment(text, p) then LineComment else BlockComment;
            && Masked(Code, text[p..]) == KeptOf(text, p, p, p + 2) + Masked(inside, text[p + 2..])
            && EndState(Code, text[p..]) == EndState(inside, text[p + 2..])
  {
    hide Masked, EndState;
    var rest := text[p..];
    assert rest[1..2] == [text[p + 1]] && rest[2..] == text[p + 2..];
    MaskUnfolds(Code, rest);
    assert KeptOf(text, p, p, p + 2) == "  ";
  }

  /** One character inside a comment that does not end there. */
  lemma CommentStep(text: string, p: nat, j: nat)
    requires IsComment(text, p)
    requires p + 2 <= j < |text| && StaysOpen(text, p, j)
    ensures var inside := if IsLineComment(text, p) then LineComment else BlockComment;
            && Masked(inside, text[j..]) == [Kept(text, p, j)] + Masked(inside, text[j + 1..])
            && EndState(inside, text[j..]) == EndState(inside, text[j + 1..])
  {
    hide Masked, EndState;
    var rest := text[j..];
    var inside := if IsLineComment(text, p) then LineComment else BlockComment;
    assert |rest| > 1 ==> rest[1..2] == [text[j + 1]];
    assert rest[1..] == text[j + 1..];
    MaskUnfolds(inside, rest);
  }

  lemma {:induction false} CommentRuns(text: string, p: nat, j: nat)
    requires IsComment(text, p)
    requires p + 2 <= j <= |text|
    requires forall i: nat :: i < j ==> StaysOpen(text, p, i)
    ensures var inside := if IsLineComment(text, p) then LineComment else BlockComment;
            && Masked(Code, text[p..]) == KeptOf(text, p, p, j) + Masked(inside, text[j..])
            && EndState(Code, text[p..]) == EndState(inside, text[j..])
    decreases j
  {
    hide Masked, EndState, StaysOpen, Kept;
    if j == p + 2 {
      CommentOpens(text, p);
    } else {
      CommentRuns(text, p, j - 1);
      CommentStep(text, p, j - 1);
      KeptMore(text, p, j - 1);
    }
  }

  /** A line comment goes exactly to the first line feed, which stays. */
  lemma LineCommentEnds(text: string, p: nat, j: nat)
    requires IsLineComment(text, p) && FirstClose(text, p, j)
    ensures Masked(Code, text[p..]) == KeptOf(text, p, p, j) + Masked(Code, text[j..])
    ensures EndState(Code, text[p..]) == EndState(Code, text[j..])
  {
    hide Masked, EndState;
    CommentRuns(text, p, j);
    var rest := text[j..];
    MaskUnfolds(LineComment, rest);
    MaskUnfolds(Code, rest);
    assert |rest| > 1 ==> rest[1..2] == [text[j + 1]];
  }

  /** A block comment goes exactly to the first star and slash after its opener. */
  lemma BlockCommentEnds(text: string, p: nat, j: nat)
    requires IsBlockComment(text, p) && FirstClose(text, p, j)
    ensures Masked(Code, text[p..]) == KeptOf(text, p, p, j + 1) + Masked(Code, text[j + 1..])
    ensures EndState(Code, text[p..]) == EndState(Code, text[j + 1..])
  {
    hide Masked, EndState;
    CommentRuns(text, p, j - 1);
    var rest := text[j - 1..];
    assert rest[1..2] == [text[j]] && rest[2..] == text[j + 1..];
    MaskUnfolds(BlockComment, rest);
    assert KeptOf(text, p, p, j + 1) == KeptOf(text, p, p, j - 1) + "  ";
  }

  lemma CommentNeverEnds(text: string, p: nat)
    requires IsComment(text, p) && NeverCloses(text, p)
    ensures Masked(Code, text[p..]) == KeptOf(text, p, p, |text|) && EndState(Code, text[p..]) != Code
  {
    hide Masked, EndState, Closes;
    CommentRuns(text, p, |text|);
    NothingLeft(if IsLineComment(text, p) then LineComment else BlockComment, text[|text|..]);
  }

  lemma PlainStep(text: string, p: nat)
    requires IsPlain(text, p)
    ensures Masked(Code, text[p..]) == KeptOf(text, p, p, p + 1) + Masked(Code, text[p + 1..])
    ensures EndState(Code, text[p..]) == EndState(Code, text[p + 1..])
  {
    hide Masked, EndState;
    var rest := text[p..];
    assert |rest| > 1 ==> rest[1..2] == [text[p + 1]];
    assert rest[1..] == text[p + 1..];
    MaskUnfolds(Code, rest);
    KeptMore(text, p, p);
  }

  // ---------------------------------------------------------------- whole texts

  /** What opens at `p` is still open when the text ends. */
  ghost predicate LeftOpen(text: string, p: nat) {
    p < |text| && !IsPlain(text, p) && NeverCloses(text, p)
  }

  /** Masking takes one token after the other, and starts each one as program text. */
  lemma TokenMasked(text: string, p: nat, q: nat)
    requires Token(text, p, q)
    ensures Masked(Code, text[p..]) == KeptOf(text, p, p, q) + Masked(Code, text[q..])
    ensures if LeftOpen(text, p) then EndState(Code, text[p..]) != Code
            else EndState(Code, text[p..]) == EndState(Code, text[q..])
  {
    hide Masked, EndState, ClosesQuote, Kept;
    if IsPlain(text, p) {
      PlainStep(text, p);
    } else if NeverCloses(text, p) {
      NothingLeft(Code, text[|text|..]);
      if IsLiteral(text, p) {
        assert forall j: nat :: Closes(text, p, j) == ClosesQuote(text, p, j);
        LiteralNeverEnds(text, p);
      } else {
        CommentNeverEnds(text, p);
      }
    } else if IsLiteral(text, p) {
      assert forall j: nat :: Closes(text, p, j) == ClosesQuote(text, p, j);
      LiteralEnds(text, p, q - 1);
    } else if IsLineComment(text, p) {
      LineCommentEnds(text, p, q);
    } else {
      BlockCommentEnds(text, p, q - 1);
    }
  }

  lemma {:induction false} FirstOne(text: string, p: nat, j: nat) returns (first: nat)
    requires Closes(text, p, j)
    ensures FirstClose(text, p, first)
    decreases j
  {
    hide Closes;
    if i: nat :| i < j && Closes(text, p, i) {
      first := FirstOne(text, p, i);
    } else {
      first := j;
    }
  }

  lemma TokenFrom(text: string, p: nat) returns (q: nat)
    requires p < |text|
    ensures Token(text, p, q)
  {
    hide ClosesQuote;
    if IsPlain(text, p) {
      q := p + 1;
    } else if NeverCloses(text, p) {
      q := |text|;
    } else {
      var j: nat :| Closes(text, p, j);
      var first := FirstOne(text, p, j);
      if IsLiteral(text, p) {
        ClosesInside(text, p, first);
      }
      q := if IsLineComment(text, p) then first else first + 1;
    }
  }

  /** There is only one token at a position. */
  lemma TokenIsOne(text: string, p: nat, q: nat, r: nat)
    requires Token(text, p, q) && Token(text, p, r)
    ensures q == r
  {
    hide Closes, IsPlain;
  }

  /** Positions at which the tokens of the text start, from `p` on, and the end of the text. */
  ghost predicate Tokens(text: string, p: nat, cuts: seq<nat>) {
    && cuts != [] && cuts[0] == p && cuts[|cuts| - 1] == |text|
    && forall k :: 0 <= k < |cuts| - 1 ==> Token(text, cuts[k], cuts[k + 1])
  }

  /** Every character is what its token leaves of it. */
  ghost predicate KeptByToken(text: string, masked: string, cuts: seq<nat>) {
    |masked| == |text|
    && forall k, i :: 0 <= k < |cuts| - 1 && cuts[k] <= i < cuts[k + 1] <= |text| ==> masked[i] == Kept(text, cuts[k], i)
  }

  ghost predicate KeptFrom(text: string, masked: string, p: nat, cuts: seq<nat>) {
    |masked| == |text| - p
    && forall k, i :: 0 <= k < |cuts| - 1 && p <= cuts[k] <= i < cuts[k + 1] <= |text|
                      ==> masked[i - p] == Kept(text, cuts[k], i)
  }

  lemma KeptGrows(text: string, p: nat, q: nat, rest: string, cuts: seq<nat>)
    requires p < q <= |text| && Tokens(text, q, cuts) && KeptFrom(text, rest, q, cuts)
    ensures KeptFrom(text, KeptOf(text, p, p, q) + rest, p, [p] + cuts)
  {
    hide Kept, Token;
    var all, masked := [p] + cuts, KeptOf(text, p, p, q) + rest;
    forall k, i | 0 <= k < |all| - 1 && p <= all[k] <= i < all[k + 1] <= |text|
      ensures masked[i - p] == Kept(text, all[k], i)
    {
      if k > 0 {
        CutsRise(text, q, cuts, k - 1);
        assert all[k] == cuts[k - 1] && all[k + 1] == cuts[k];
        assert masked[i - p] == rest[i - q];
      }
    }
  }

  lemma {:induction false} CutsRise(text: string, p: nat, cuts: seq<nat>, k: nat)
    requires Tokens(text, p, cuts) && k < |cuts|
    ensures p <= cuts[k]
  {
    if k > 0 {
      CutsRise(text, p, cuts, k - 1);
      assert Token(text, cuts[k - 1], cuts[k]);
    }
  }

  lemma {:induction false} MaskedFrom(text: string, p: nat, cuts: seq<nat>)
    requires p <= |text| && Tokens(text, p, cuts)
    ensures KeptFrom(text, Masked(Code, text[p..]), p, cuts)
    ensures EndState(Code, text[p..]) == Code <==> |cuts| == 1 || !LeftOpen(text, cuts[|cuts| - 2])
    decreases |text| - p
  {
    hide Masked, EndState, Token, Kept, LeftOpen, KeptFrom;
    if |cuts| == 1 {
      NothingLeft(Code, text[p..]);
      NothingKept(text, p, cuts);
    } else {
      var q := cuts[1];
      assert Token(text, p, q) && p < q <= |text| by { TokenRises(text, cuts); }
      TokenRest(text, p, cuts);
      TokenMasked(text, p, q);
      MaskedFrom(text, q, cuts[1..]);
      KeptGrows(text, p, q, Masked(Code, text[q..]), cuts[1..]);
      assert [p] + cuts[1..] == cuts;
      if LeftOpen(text, p) {
        OpenIsLast(text, p, q);
        NoTokenAtEnd(text, q, cuts[1..]);
      }
    }
  }

  lemma TokenRises(text: string, cuts: seq<nat>)
    requires |cuts| > 1 && Tokens(text, cuts[0], cuts)
    ensures Token(text, cuts[0], cuts[1]) && cuts[0] < cuts[1] <= |text|
  {
  }

  lemma NothingKept(text: string, p: nat, cuts: seq<nat>)
    requires |cuts| == 1 && p == |text|
    ensures KeptFrom(text, [], p, cuts)
  {
  }

  lemma TokenRest(text: string, p: nat, cuts: seq<nat>)
    requires |cuts| > 1 && Tokens(text, p, cuts)
    ensures Tokens(text, cuts[1], cuts[1..])
  {
    hide Token;
  }

  lemma OpenIsLast(text: string, p: nat, q: nat)
    requires Token(text, p, q) && LeftOpen(text, p)
    ensures q == |text|
  {
  }

  lemma NoTokenAtEnd(text: string, p: nat, cuts: seq<nat>)
    requires p == |text| && Tokens(text, p, cuts)
    ensures |cuts| == 1
  {
    if |cuts| > 1 {
      TokenRises(text, cuts);
    }
  }

  /** Masking leaves exactly what the tokens of the text leave, and ends as program text exactly when the last
      token is closed. */
  lemma MaskFollowsTokens(text: string, cuts: seq<nat>)
    requires Tokens(text, 0, cuts)
    ensures KeptByToken(text, Masked(Code, text), cuts)
    ensures EndState(Code, text) == Code <==> |cuts| == 1 || !LeftOpen(text, cuts[|cuts| - 2])
  {
    hide Masked, EndState, Token, Kept, LeftOpen;
    assert text[0..] == text;
    MaskedFrom(text, 0, cuts);
  }

  lemma {:induction false} TokensFrom(text: string, p: nat) returns (cuts: seq<nat>)
    requires p <= |text|
    ensures Tokens(text, p, cuts)
    decreases |text| - p
  {
    hide Token;
    if p == |text| {
      cuts := [p];
    } else {
      var q := TokenFrom(text, p);
      assert p < q <= |text| by { TokenBounds(text, p, q); }
      var rest := TokensFrom(text, q);
      cuts := [p] + rest;
    }
  }

  lemma TokenBounds(text: string, p: nat, q: nat)
    requires Token(text, p, q)
    ensures p < q <= |text|
  {
  }

  /** Every text has its tokens, and only one way to read them. */
  lemma {:induction false} TokensAreUnique(text: string, p: nat, a: seq<nat>, b: seq<nat>)
    requires p <= |text| && Tokens(text, p, a) && Tokens(text, p, b)
    ensures a == b
    decreases |text| - p
  {
    hide Token;
    if p == |text| {
      NoTokenAtEnd(text, p, a);
      NoTokenAtEnd(text, p, b);
    } else {
      TokenRises(text, a);
      TokenRises(text, b);
      TokenIsOne(text, p, a[1], b[1]);
      TokenRest(text, p, a);
      TokenRest(text, p, b);
      TokensAreUnique(text, a[1], a[1..], b[1..]);
      assert a == [p] + a[1..] && b == [p] + b[1..];
    }
  }

  /** Position `i` is one character of the program, outside every comment and literal. */
  ghost predicate OfProgram(text: string, cuts: seq<nat>, i: nat) {
    IsPlain(text, i) && exists k :: 0 <= k < |cuts| && cuts[k] == i
  }

  lemma {:induction false} TokenOf(text: string, p: nat, cuts: seq<nat>, i: nat) returns (k: nat)
    requires Tokens(text, p, cuts) && p <= i < |text|
    ensures k < |cuts| - 1 && cuts[k] <= i < cuts[k + 1]
    decreases |cuts|
  {
    hide Token;
    if |cuts| > 1 && i >= cuts[1] {
      TokenRest(text, p, cuts);
      var m := TokenOf(text, cuts[1], cuts[1..], i);
      k := m + 1;
    } else {
      k := 0;
    }
  }

  /** A visible character survives masking exactly when it is a character of the program. */
  lemma KeptExactlyOfProgram(text: string, cuts: seq<nat>, i: nat)
    requires Tokens(text, 0, cuts) && i < |text| && text[i] != ' ' && text[i] != '\n'
    ensures |Masked(Code, text)| == |text|
    ensures Masked(Code, text)[i] == text[i] <==> OfProgram(text, cuts, i)
  {
    hide Masked, Token;
    MaskFollowsTokens(text, cuts);
    var k := TokenOf(text, 0, cuts, i);
    assert Token(text, cuts[k], cuts[k + 1]) && cuts[k + 1] <= |text| by { TokenIn(text, cuts, k); }
    assert Masked(Code, text)[i] == Kept(text, cuts[k], i);
    if OfProgram(text, cuts, i) {
      var m :| 0 <= m < |cuts| && cuts[m] == i;
      InOneToken(text, 0, cuts, k, m);
    } else if IsPlain(text, cuts[k]) {
      PlainIsOne(text, cuts[k], cuts[k + 1]);
    }
  }

  lemma TokenIn(text: string, cuts: seq<nat>, k: nat)
    requires Tokens(text, 0, cuts) && k < |cuts| - 1
    ensures Token(text, cuts[k], cuts[k + 1]) && cuts[k + 1] <= |text|
  {
  }

  lemma PlainIsOne(text: string, p: nat, q: nat)
    requires Token(text, p, q) && IsPlain(text, p)
    ensures q == p + 1
  {
  }

  lemma {:induction false} CutsOrdered(text: string, cuts: seq<nat>, p: nat, j: nat, k: nat)
    requires Tokens(text, p, cuts) && j < k < |cuts|
    ensures cuts[j] < cuts[k]
    decreases k
  {
    assert Token(text, cuts[k - 1], cuts[k]);
    if j < k - 1 {
      CutsOrdered(text, cuts, p, j, k - 1);
    }
  }

  /** A token that holds the start of another is that other. */
  lemma InOneToken(text: string, p: nat, cuts: seq<nat>, k: nat, m: nat)
    requires Tokens(text, p, cuts) && k < |cuts| - 1 && m < |cuts| && cuts[k] <= cuts[m] < cuts[k + 1]
    ensures m == k
  {
    hide Tokens, Token;
    if m > k + 1 {
      CutsOrdered(text, cuts, p, k + 1, m);
    } else if m < k {
      CutsOrdered(text, cuts, p, m, k);
    }
  }
}
