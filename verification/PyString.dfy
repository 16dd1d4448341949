/** The string operations of the source language that the job checks rely on. */
module PyString {

  /** White space as `str.isspace` and `str.strip` see it. */
  predicate IsSpace(c: char) {
    var n := c as int;
    0x09 <= n <= 0x0d || 0x1c <= n <= 0x20 || n == 0x85 || n == 0xa0 || n == 0x1680
    || 0x2000 <= n <= 0x200a || n == 0x2028 || n == 0x2029 || n == 0x202f || n == 0x205f || n == 0x3000
  }

  function StripLeft(s: string): string {
    if s != [] && IsSpace(s[0]) then StripLeft(s[1..]) else s
  }

  function StripRight(s: string): string {
    if s != [] && IsSpace(s[|s| - 1]) then StripRight(s[..|s| - 1]) else s
  }

  function Strip(s: string): string {
    StripRight(StripLeft(s))
  }

  lemma {:induction false} StripLeftStart(s: string)
    ensures StripLeft(s) == [] || !IsSpace(StripLeft(s)[0])
  {
    if s != [] && IsSpace(s[0]) {
      StripLeftStart(s[1..]);
    }
  }

  lemma {:induction false} StripRightEnds(s: string)
    ensures StripRight(s) <= s
    ensures StripRight(s) == [] || !IsSpace(StripRight(s)[|StripRight(s)| - 1])
  {
    if s != [] && IsSpace(s[|s| - 1]) {
      StripRightEnds(s[..|s| - 1]);
    }
  }

  /** The white-space characters one by one. */
  lemma SpacesListed(c: char)
    ensures IsSpace(c) <==>
              c in {'\t', '\n', '\U{b}', '\U{c}', '\r', '\U{1c}', '\U{1d}', '\U{1e}', '\U{1f}', ' ', '\U{85}', '\U{a0}',
                    '\U{1680}', '\U{2000}', '\U{2001}', '\U{2002}', '\U{2003}', '\U{2004}', '\U{2005}', '\U{2006}',
                    '\U{2007}', '\U{2008}', '\U{2009}', '\U{200a}', '\U{2028}', '\U{2029}', '\U{202f}', '\U{205f}',
                    '\U{3000}'}
  {
  }

  ghost predicate Blank(s: string) {
    forall i :: 0 <= i < |s| ==> IsSpace(s[i])
  }

  /** `t` is what stands in `s` from `i` to `j`, with nothing but white space outside and none at its own ends. */
  ghost predicate TrimAt(s: string, i: nat, j: nat, t: string) {
    && i <= j <= |s| && t == s[i..j] && Blank(s[..i]) && Blank(s[j..])
    && (t == "" || (!IsSpace(t[0]) && !IsSpace(t[|t| - 1])))
  }

  ghost predicate TrimsTo(s: string, t: string) {
    exists i: nat, j: nat :: TrimAt(s, i, j, t)
  }

  lemma {:induction false} StripLeftDrops(s: string) returns (i: nat)
    ensures i <= |s| && StripLeft(s) == s[i..] && Blank(s[..i])
  {
    i := 0;
    if s != [] && IsSpace(s[0]) {
      var k := StripLeftDrops(s[1..]);
      i := k + 1;
      forall j | 0 <= j < i ensures IsSpace(s[..i][j]) {
        assert j > 0 ==> s[..i][j] == s[1..][..k][j - 1];
      }
    }
  }

  lemma {:induction false} StripRightDrops(s: string) returns (j: nat)
    ensures j <= |s| && StripRight(s) == s[..j] && Blank(s[j..])
  {
    j := |s|;
    if s != [] && IsSpace(s[|s| - 1]) {
      var front := s[..|s| - 1];
      j := StripRightDrops(front);
      forall k | 0 <= k < |s| - j ensures IsSpace(s[j..][k]) {
        assert j + k < |s| - 1 ==> s[j..][k] == front[j..][k];
      }
    }
  }

  lemma StripTrims(s: string)
    ensures TrimsTo(s, Strip(s))
  {
    var i := StripLeftDrops(s);
    var j := StripRightDrops(s[i..]);
    StripLeftStart(s);
    StripRightEnds(s[i..]);
    assert s[i..][..j] == s[i..i + j] && s[i..][j..] == s[i + j..];
    assert TrimAt(s, i, i + j, Strip(s));
  }

  lemma TrimsBlank(s: string, t: string)
    requires TrimsTo(s, t)
    ensures t == "" <==> Blank(s)
  {
    var i: nat, j: nat :| TrimAt(s, i, j, t);
    assert s == s[..i] + t + s[j..];
  }

  lemma BlankAt(s: string, i: nat)
    requires Blank(s) && i < |s|
    ensures IsSpace(s[i])
  {
  }

  /** Two trimmings cut off the same: what one keeps at an end the other cannot count as white space. */
  lemma TrimmedWithin(s: string, i: nat, j: nat, t: string, k: nat, l: nat, u: string)
    requires TrimAt(s, i, j, t) && TrimAt(s, k, l, u) && t != ""
    ensures k <= i && j <= l
  {
    hide Blank, IsSpace;
    if i < k {
      BlankAt(s[..k], i);
    }
    if j > l {
      BlankAt(s[l..], j - 1 - l);
    }
  }

  lemma TrimsOnce(s: string, t: string, u: string)
    requires TrimsTo(s, t) && TrimsTo(s, u)
    ensures t == u
  {
    hide Blank, IsSpace;
    TrimsBlank(s, t);
    TrimsBlank(s, u);
    var i: nat, j: nat :| TrimAt(s, i, j, t);
    var k: nat, l: nat :| TrimAt(s, k, l, u);
    if t != "" {
      TrimmedWithin(s, i, j, t, k, l, u);
      TrimmedWithin(s, k, l, u, i, j, t);
    }
  }

  /** Stripping leaves exactly the text between the white space at its ends. */
  lemma StripExactly(s: string, t: string)
    ensures Strip(s) == t <==> TrimsTo(s, t)
  {
    StripTrims(s);
    if TrimsTo(s, t) {
      TrimsOnce(s, t, Strip(s));
    }
  }

  lemma StripEmptyExactly(s: string)
    ensures Strip(s) == "" <==> Blank(s)
  {
    StripTrims(s);
    TrimsBlank(s, Strip(s));
  }

  /** Stripping a stripped string changes nothing. */
  lemma StripIdempotent(s: string)
    ensures Strip(Strip(s)) == Strip(s)
  {
    StripLeftStart(s);
    StripRightEnds(StripLeft(s));
  }

  /** White space at either end does not change what is left after stripping. */
  lemma StripIgnoresFirst(s: string)
    requires s != [] && IsSpace(s[0])
    ensures Strip(s[1..]) == Strip(s)
  {
  }

  lemma {:induction false} StripLeftOfFront(s: string)
    requires s != [] && IsSpace(s[|s| - 1])
    ensures StripLeft(s) == [] ==> StripLeft(s[..|s| - 1]) == []
    ensures StripLeft(s) != [] ==>
              StripLeft(s)[|StripLeft(s)| - 1] == s[|s| - 1]
              && StripLeft(s[..|s| - 1]) == StripLeft(s)[..|StripLeft(s)| - 1]
  {
    if IsSpace(s[0]) && |s| > 1 {
      assert s[..|s| - 1][1..] == s[1..][..|s| - 2];
      StripLeftOfFront(s[1..]);
    }
  }

  lemma StripIgnoresLast(s: string)
    requires s != [] && IsSpace(s[|s| - 1])
    ensures Strip(s[..|s| - 1]) == Strip(s)
  {
    StripLeftOfFront(s);
  }
}
