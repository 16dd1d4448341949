/** Finding where the outer type of a Java file opens, in masked text. */
module JavaType {
  import opened Optional
  import PyString

  predicate HasAt(text: string, i: nat, word: string) {
    i + |word| <= |text| && text[i..i + |word|] == word
  }

  /** Length of the type keyword at `i`, or 0. */
  function KeywordLength(text: string, i: nat): (n: nat)
    ensures n > 0 ==> i + n <= |text|
  {
    if HasAt(text, i, "class") then 5
    else if HasAt(text, i, "interface") then 9
    else if HasAt(text, i, "enum") then 4
    else if HasAt(text, i, "record") then 6
    else if HasAt(text, i, "@interface") then 10
    else 0
  }

  function SkipSpaces(text: string, i: nat): (k: nat)
    requires i <= |text|
    ensures i <= k <= |text|
    decreases |text| - i
  {
    if i < |text| && PyString.IsSpace(text[i]) then SkipSpaces(text, i + 1) else i
  }

  predicate IdentifierStart(c: char) {
    'A' <= c <= 'Z' || 'a' <= c <= 'z' || c == '_' || c == '$'
  }

  /** The first of ';' and '{' from `i` on, when it is '{'. */
  function BraceBeforeSemicolon(text: string, i: nat): (r: Option<nat>)
    requires i <= |text|
    ensures r.Some? ==> i <= r.value < |text| && text[r.value] == '{'
    decreases |text| - i
  {
    if i == |text| || text[i] == ';' then None
    else if text[i] == '{' then Some(i)
    else BraceBeforeSemicolon(text, i + 1)
  }

  /** A word edge, for the word characters given. */
  predicate WordEdge(text: string, i: nat, isWord: char -> bool)
    requires i < |text|
  {
    (i > 0 && isWord(text[i - 1])) != isWord(text[i])
  }

  /** The opening brace of a type declaration whose keyword stands at `i`. */
  function TypeOpenAt(text: string, i: nat, isWord: char -> bool): (r: Option<nat>)
    requires i < |text|
    ensures r.Some? ==> i <= r.value < |text| && text[r.value] == '{'
  {
    var n := KeywordLength(text, i);
    if n == 0 || !WordEdge(text, i, isWord) then None
    else
      var k := SkipSpaces(text, i + n);
      if k == i + n || k == |text| || !IdentifierStart(text[k]) then None else BraceBeforeSemicolon(text, k)
  }

  /** The opening brace of the leftmost type declaration from `i` on. */
  function FindTypeOpen(text: string, i: nat, isWord: char -> bool): (r: Option<nat>)
    requires i <= |text|
    ensures r.Some? ==> i <= r.value < |text| && text[r.value] == '{'
    decreases |text| - i
  {
    if i == |text| then None
    else match TypeOpenAt(text, i, isWord)
      case Some(opening) => Some(opening)
      case None => FindTypeOpen(text, i + 1, isWord)
  }

  // ---------------------------------------------------------------- what is found

  predicate IsKeyword(word: string) {
    word in {"class", "interface", "enum", "record", "@interface"}
  }

  /** A letter, an underscore or a dollar sign, by its code point. */
  ghost predicate StartsName(c: char) {
    var n := c as int;
    65 <= n <= 90 || 97 <= n <= 122 || n == 95 || n == 36
  }

  lemma NameStartsExactly(c: char)
    ensures IdentifierStart(c) <==> StartsName(c)
  {
  }

  /** A type declaration: from `i` a keyword of `n` characters at a word edge, white space up to `k`, an
      identifier, and no semicolon or brace between it and the opening brace at `b`. */
  ghost predicate Declares(text: string, i: nat, n: nat, k: nat, b: nat, isWord: char -> bool) {
    && i + n < k < b < |text|
    && (if i > 0 && isWord(text[i - 1]) then !isWord(text[i]) else isWord(text[i]))
    && text[i..i + n] in {"class", "interface", "enum", "record", "@interface"}
    && (forall j :: i + n <= j < k ==> PyString.IsSpace(text[j]))
    && StartsName(text[k])
    && (forall j :: k <= j < b ==> text[j] != ';' && text[j] != '{')
    && text[b] == '{'
  }

  lemma KeywordIsUnique(text: string, i: nat, n: nat)
    requires i + n <= |text| && IsKeyword(text[i..i + n])
    ensures KeywordLength(text, i) == n
  {
    var word := text[i..i + n];
    assert word[0] == text[i];
    if i + KeywordLength(text, i) <= |text| && KeywordLength(text, i) > 0 {
      assert text[i..i + KeywordLength(text, i)][0] == text[i];
    }
  }

  lemma KeywordFound(text: string, i: nat)
    requires KeywordLength(text, i) > 0
    ensures IsKeyword(text[i..i + KeywordLength(text, i)])
  {
  }

  lemma {:induction false} SpacesSkipped(text: string, i: nat, k: nat)
    requires i <= k < |text|
    ensures SkipSpaces(text, i) == k
            <==> (forall j :: i <= j < k ==> PyString.IsSpace(text[j])) && !PyString.IsSpace(text[k])
    decreases k - i
  {
    if i < k {
      SpacesSkipped(text, i + 1, k);
    }
  }

  lemma {:induction false} BraceFound(text: string, i: nat, b: nat)
    requires i <= b < |text|
    ensures BraceBeforeSemicolon(text, i) == Some(b)
            <==> text[b] == '{' && forall j :: i <= j < b ==> text[j] != ';' && text[j] != '{'
    decreases b - i
  {
    if i < b {
      BraceFound(text, i + 1, b);
    }
  }

  lemma StartIsNoSpace(c: char)
    requires IdentifierStart(c)
    ensures !PyString.IsSpace(c) && c != ';' && c != '{'
  {
  }

  /** The opening reported at a position is that of a declaration there, and every declaration is reported. */
  lemma TypeOpensAtDeclaration(text: string, i: nat, b: nat, isWord: char -> bool)
    requires i < |text|
    ensures TypeOpenAt(text, i, isWord) == Some(b) <==> exists n: nat, k: nat :: Declares(text, i, n, k, b, isWord)
  {
    hide KeywordLength, SkipSpaces, BraceBeforeSemicolon, PyString.IsSpace, IdentifierStart, StartsName;
    forall k | 0 <= k < |text| ensures IdentifierStart(text[k]) <==> StartsName(text[k]) {
      NameStartsExactly(text[k]);
    }
    if TypeOpenAt(text, i, isWord) == Some(b) {
      var n := KeywordLength(text, i);
      var k := SkipSpaces(text, i + n);
      KeywordFound(text, i);
      SpacesSkipped(text, i + n, k);
      StartIsNoSpace(text[k]);
      BraceFound(text, k, b);
      assert Declares(text, i, n, k, b, isWord);
    }
    if n: nat, k: nat :| Declares(text, i, n, k, b, isWord) {
      KeywordIsUnique(text, i, n);
      KeywordIsNotEmpty(text[i..i + n]);
      StartIsNoSpace(text[k]);
      SpacesSkipped(text, i + n, k);
      BraceFound(text, k, b);
    }
  }

  lemma KeywordIsNotEmpty(word: string)
    requires IsKeyword(word)
    ensures word != ""
  {
  }

  ghost predicate DeclaresAt(text: string, i: nat, b: nat, isWord: char -> bool) {
    exists n: nat, k: nat :: Declares(text, i, n, k, b, isWord)
  }

  ghost predicate NoneDeclared(text: string, from: nat, end: nat, isWord: char -> bool) {
    forall i: nat, b: nat :: from <= i < end ==> !DeclaresAt(text, i, b, isWord)
  }

  ghost predicate FirstDeclaration(text: string, from: nat, i: nat, b: nat, isWord: char -> bool) {
    from <= i && DeclaresAt(text, i, b, isWord) && NoneDeclared(text, from, i, isWord)
  }

  /** The opening found is that of the leftmost declaration, and there is none only if nothing is declared. */
  lemma {:induction false} LeftmostDeclarationOpens(text: string, from: nat, isWord: char -> bool)
    requires from <= |text|
    ensures match FindTypeOpen(text, from, isWord)
            case Some(b) => exists i: nat :: FirstDeclaration(text, from, i, b, isWord)
            case None => NoneDeclared(text, from, |text|, isWord)
    decreases |text| - from
  {
    hide DeclaresAt, TypeOpenAt;
    if from < |text| {
      forall b: nat ensures TypeOpenAt(text, from, isWord) == Some(b) <==> DeclaresAt(text, from, b, isWord) {
        OpensIffDeclared(text, from, b, isWord);
      }
      if TypeOpenAt(text, from, isWord).Some? {
        var b := TypeOpenAt(text, from, isWord).value;
        assert FindTypeOpen(text, from, isWord) == Some(b);
        assert FirstDeclaration(text, from, from, b, isWord);
      } else {
        LeftmostDeclarationOpens(text, from + 1, isWord);
        assert FindTypeOpen(text, from, isWord) == FindTypeOpen(text, from + 1, isWord);
        if FindTypeOpen(text, from + 1, isWord).Some? {
          var b := FindTypeOpen(text, from + 1, isWord).value;
          var i: nat :| FirstDeclaration(text, from + 1, i, b, isWord);
          assert FirstDeclaration(text, from, i, b, isWord);
        }
      }
    }
  }

  lemma OpensIffDeclared(text: string, i: nat, b: nat, isWord: char -> bool)
    requires i < |text|
    ensures TypeOpenAt(text, i, isWord) == Some(b) <==> DeclaresAt(text, i, b, isWord)
  {
    TypeOpensAtDeclaration(text, i, b, isWord);
  }

  // ---------------------------------------------------------------- the opening depends on nothing after it

  /** Two texts that agree up to and including an opening brace at `b`. */
  ghost predicate AgreeTo(s: string, t: string, b: nat) {
    b < |s| && b < |t| && s[b] == '{' && forall i :: 0 <= i <= b ==> s[i] == t[i]
  }

  lemma BraceIsNotInside(s: string, b: nat, i: nat, word: string)
    requires i <= b < i + |word| <= |s| && s[b] == '{' && '{' !in word
    ensures !HasAt(s, i, word)
  {
    assert s[i..i + |word|][b - i] == '{' && word[b - i] in word;
  }

  lemma HasAtAgrees(s: string, t: string, b: nat, i: nat, word: string)
    requires AgreeTo(s, t, b) && i <= b && '{' !in word
    ensures HasAt(s, i, word) == HasAt(t, i, word)
    ensures HasAt(s, i, word) ==> i + |word| <= b
  {
    if i + |word| <= b {
      assert s[i..i + |word|] == t[i..i + |word|];
    } else {
      if i + |word| <= |s| {
        BraceIsNotInside(s, b, i, word);
      }
      if i + |word| <= |t| {
        BraceIsNotInside(t, b, i, word);
      }
    }
  }

  lemma KeywordAgrees(s: string, t: string, b: nat, i: nat)
    requires AgreeTo(s, t, b) && i <= b
    ensures KeywordLength(s, i) == KeywordLength(t, i) && i + KeywordLength(s, i) <= b
  {
    hide HasAt, AgreeTo;
    HasAtAgrees(s, t, b, i, "class");
    HasAtAgrees(s, t, b, i, "interface");
    HasAtAgrees(s, t, b, i, "enum");
    HasAtAgrees(s, t, b, i, "record");
    HasAtAgrees(s, t, b, i, "@interface");
  }

  lemma {:induction false} SkipSpacesAgrees(s: string, t: string, b: nat, i: nat)
    requires AgreeTo(s, t, b) && i <= b
    ensures SkipSpaces(s, i) == SkipSpaces(t, i) <= b
    decreases b - i
  {
    if i < b && PyString.IsSpace(s[i]) {
      SkipSpacesAgrees(s, t, b, i + 1);
    }
  }

  lemma {:induction false} BraceAgrees(s: string, t: string, b: nat, i: nat)
    requires AgreeTo(s, t, b) && i <= b
    ensures BraceBeforeSemicolon(s, i) == BraceBeforeSemicolon(t, i)
    decreases b - i
  {
    if i < b && s[i] != ';' && s[i] != '{' {
      BraceAgrees(s, t, b, i + 1);
    }
  }

  lemma TypeOpenAgrees(s: string, t: string, b: nat, i: nat, isWord: char -> bool)
    requires AgreeTo(s, t, b) && i <= b
    ensures TypeOpenAt(s, i, isWord) == TypeOpenAt(t, i, isWord)
  {
    hide KeywordLength, SkipSpaces, BraceBeforeSemicolon;
    KeywordAgrees(s, t, b, i);
    var n := KeywordLength(s, i);
    SkipSpacesAgrees(s, t, b, i + n);
    BraceAgrees(s, t, b, SkipSpaces(s, i + n));
  }

  /** The opening found is the same in any text that agrees up to it. */
  lemma {:induction false} OpeningStays(s: string, t: string, i: nat, isWord: char -> bool)
    requires i <= |s| && i <= |t|
    requires FindTypeOpen(s, i, isWord).Some? && AgreeTo(s, t, FindTypeOpen(s, i, isWord).value)
    ensures FindTypeOpen(t, i, isWord) == FindTypeOpen(s, i, isWord)
    decreases |s| - i
  {
    TypeOpenAgrees(s, t, FindTypeOpen(s, i, isWord).value, i, isWord);
    if TypeOpenAt(s, i, isWord).None? {
      OpeningStays(s, t, i + 1, isWord);
    }
  }
}
