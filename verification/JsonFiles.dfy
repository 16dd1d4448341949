/** Merging into a JSON file. The program compares values with `==`, under which `1`, `1.0` and `true`
    are equal, and keeps the later of two equal values. */
module JsonFiles {
  import opened Optional
  import opened JsonMerge

  // ---------------------------------------------------------------- equality as the program sees it

  predicate IsNumeric(a: Json) {
    a.Boolean? || a.Int? || a.Float?
  }

  function NumberOf(a: Json): real
    requires IsNumeric(a)
  {
    match a
    case Boolean(b) => if b then 1.0 else 0.0
    case Int(n) => n as real
    case Float(r) => r
  }

  predicate LooksEqual(a: Json, b: Json)
    decreases a
  {
    if IsNumeric(a) && IsNumeric(b) then NumberOf(a) == NumberOf(b)
    else if a.Array? && b.Array? then
      |a.items| == |b.items| && forall i :: 0 <= i < |a.items| ==> LooksEqual(a.items[i], b.items[i])
    else if a.Object? && b.Object? then
      a.fields.Keys == b.fields.Keys && forall k :: k in a.fields ==> LooksEqual(a.fields[k], b.fields[k])
    else a == b
  }

  /** Numbers and truth values look equal by their numeric value; other values only to values of their kind. */
  lemma LooksEqualByKind(a: Json, b: Json)
    ensures a.Int? && b.Int? ==> (LooksEqual(a, b) <==> a.n == b.n)
    ensures a.Float? && b.Float? ==> (LooksEqual(a, b) <==> a.r == b.r)
    ensures a.Int? && b.Float? ==> (LooksEqual(a, b) <==> a.n as real == b.r)
    ensures a.Boolean? && b.Boolean? ==> (LooksEqual(a, b) <==> a.b == b.b)
    ensures a.Boolean? && b.Int? ==> (LooksEqual(a, b) <==> b.n == if a.b then 1 else 0)
    ensures a.Boolean? && b.Float? ==> (LooksEqual(a, b) <==> b.r == if a.b then 1.0 else 0.0)
    ensures a.Text? || a.Null? ==> (LooksEqual(a, b) <==> a == b)
    ensures a.Array? && LooksEqual(a, b) ==> b.Array? && |a.items| == |b.items|
    ensures a.Object? && LooksEqual(a, b) ==> b.Object? && a.fields.Keys == b.fields.Keys
  {
  }

  lemma {:induction false} LooksEqualRefl(a: Json)
    ensures LooksEqual(a, a)
    decreases a
  {
    if a.Array? {
      forall i | 0 <= i < |a.items| ensures LooksEqual(a.items[i], a.items[i]) {
        LooksEqualRefl(a.items[i]);
      }
    } else if a.Object? {
      forall k | k in a.fields ensures LooksEqual(a.fields[k], a.fields[k]) {
        LooksEqualRefl(a.fields[k]);
      }
    }
  }

  lemma {:induction false} LooksEqualSym(a: Json, b: Json)
    ensures LooksEqual(a, b) == LooksEqual(b, a)
    decreases a
  {
    if a.Array? && b.Array? && |a.items| == |b.items| {
      forall i | 0 <= i < |a.items| ensures LooksEqual(a.items[i], b.items[i]) == LooksEqual(b.items[i], a.items[i]) {
        LooksEqualSym(a.items[i], b.items[i]);
      }
    } else if a.Object? && b.Object? && a.fields.Keys == b.fields.Keys {
      forall k | k in a.fields ensures LooksEqual(a.fields[k], b.fields[k]) == LooksEqual(b.fields[k], a.fields[k]) {
        LooksEqualSym(a.fields[k], b.fields[k]);
      }
    }
  }

  lemma {:induction false} LooksEqualTrans(a: Json, b: Json, c: Json)
    requires LooksEqual(a, b) && LooksEqual(b, c)
    ensures LooksEqual(a, c)
    decreases a
  {
    if a.Array? && b.Array? && c.Array? {
      forall i | 0 <= i < |a.items| ensures LooksEqual(a.items[i], c.items[i]) {
        LooksEqualTrans(a.items[i], b.items[i], c.items[i]);
      }
    } else if a.Object? && b.Object? && c.Object? {
      forall k | k in a.fields ensures LooksEqual(a.fields[k], c.fields[k]) {
        LooksEqualTrans(a.fields[k], b.fields[k], c.fields[k]);
      }
    }
  }

  /** The merge the program makes. */
  function MergeOf(a: Json, b: Json): Option<Json>
    decreases a
  {
    if a.Object? && b.Object? then
      if forall k :: k in a.fields && k in b.fields ==> MergeOf(a.fields[k], b.fields[k]).Some? then
        Some(Object(map k | k in a.fields.Keys + b.fields.Keys ::
          if k !in a.fields then b.fields[k]
          else if k !in b.fields then a.fields[k]
          else MergeOf(a.fields[k], b.fields[k]).value))
      else None
    else if LooksEqual(a, b) then Some(b)
    else None
  }

  /** Somewhere the two hold values that look equal and are not. */
  predicate Blurred(a: Json, b: Json)
    decreases a
  {
    if a.Object? && b.Object? then exists k :: k in a.fields && k in b.fields && Blurred(a.fields[k], b.fields[k])
    else LooksEqual(a, b) && a != b
  }

  lemma {:induction false} BlurredSym(a: Json, b: Json)
    ensures Blurred(a, b) == Blurred(b, a)
    decreases a
  {
    if a.Object? && b.Object? {
      forall k | k in a.fields && k in b.fields ensures Blurred(a.fields[k], b.fields[k]) == Blurred(b.fields[k], a.fields[k]) {
        BlurredSym(a.fields[k], b.fields[k]);
      }
    } else {
      LooksEqualSym(a, b);
    }
  }

  // ---------------------------------------------------------------- what the merge means

  /** Every path of `a` is in `c` with a value that looks equal. */
  ghost predicate Covers(c: Json, a: Json)
    decreases a
  {
    if a.Object? && c.Object? then forall k :: k in a.fields ==> k in c.fields && Covers(c.fields[k], a.fields[k])
    else LooksEqual(a, c)
  }

  lemma {:induction false} CoversRefl(a: Json)
    ensures Covers(a, a)
    decreases a
  {
    if a.Object? {
      forall k | k in a.fields ensures Covers(a.fields[k], a.fields[k]) {
        CoversRefl(a.fields[k]);
      }
    } else {
      LooksEqualRefl(a);
    }
  }

  /** A merge keeps every path of both sides: the later side's values exactly, the earlier side's up to looks. */
  lemma {:induction false} MergeKeepsBoth(a: Json, b: Json)
    requires MergeOf(a, b).Some?
    ensures Covers(MergeOf(a, b).value, a) && Within(b, MergeOf(a, b).value)
    decreases a
  {
    var m := MergeOf(a, b).value;
    if a.Object? && b.Object? {
      forall k | k in a.fields ensures Covers(m.fields[k], a.fields[k]) {
        if k in b.fields {
          MergeKeepsBoth(a.fields[k], b.fields[k]);
        } else {
          CoversRefl(a.fields[k]);
        }
      }
      forall k | k in b.fields ensures Within(b.fields[k], m.fields[k]) {
        if k in a.fields {
          MergeKeepsBoth(a.fields[k], b.fields[k]);
        } else {
          WithinRefl(b.fields[k]);
        }
      }
    } else {
      WithinRefl(b);
    }
  }

  /** It adds nothing else, and it fails only when no document covers both. */
  lemma {:induction false} MergeIsLeast(a: Json, b: Json, c: Json)
    requires Covers(c, a) && Covers(c, b)
    ensures MergeOf(a, b).Some? && Covers(c, MergeOf(a, b).value)
    decreases a
  {
    if a.Object? && b.Object? && c.Object? {
      forall k | k in a.fields && k in b.fields
        ensures MergeOf(a.fields[k], b.fields[k]).Some? && Covers(c.fields[k], MergeOf(a.fields[k], b.fields[k]).value)
      {
        MergeIsLeast(a.fields[k], b.fields[k], c.fields[k]);
      }
      var m := MergeOf(a, b).value;
      forall k | k in m.fields ensures k in c.fields && Covers(c.fields[k], m.fields[k]) {
      }
    } else {
      LooksEqualSym(b, c);
      LooksEqualTrans(a, c, b);
    }
  }

  /** Merging a document with itself, or a fragment a second time, changes nothing. */
  lemma {:induction false} MergeIdempotent(a: Json, b: Json)
    ensures MergeOf(a, a) == Some(a)
    ensures MergeOf(a, b).Some? ==> MergeOf(MergeOf(a, b).value, b) == MergeOf(a, b)
  {
    WithinRefl(a);
    MergeWithin(a, a);
    if MergeOf(a, b).Some? {
      MergeKeepsBoth(a, b);
      MergeWithin(MergeOf(a, b).value, b);
    }
  }

  lemma {:induction false} MergeWithin(a: Json, b: Json)
    requires Within(b, a)
    ensures MergeOf(a, b) == Some(a)
    decreases a
  {
    if a.Object? && b.Object? {
      forall k | k in a.fields && k in b.fields ensures MergeOf(a.fields[k], b.fields[k]) == Some(a.fields[k]) {
        MergeWithin(a.fields[k], b.fields[k]);
      }
      assert MergeOf(a, b).value.fields == a.fields;
    } else {
      LooksEqualRefl(a);
    }
  }

  /** A merged document merges with a third exactly when both its parts do. */
  lemma {:induction false} MergesWithThird(a: Json, b: Json, c: Json)
    requires MergeOf(a, b).Some?
    ensures MergeOf(MergeOf(a, b).value, c).Some? <==> MergeOf(a, c).Some? && MergeOf(b, c).Some?
    decreases a
  {
    var m := MergeOf(a, b).value;
    if a.Object? && b.Object? {
      if c.Object? {
        forall k | k in m.fields && k in c.fields
          ensures MergeOf(m.fields[k], c.fields[k]).Some?
                  <==> (k in a.fields ==> MergeOf(a.fields[k], c.fields[k]).Some?)
                       && (k in b.fields ==> MergeOf(b.fields[k], c.fields[k]).Some?)
        {
          if k in a.fields && k in b.fields {
            MergesWithThird(a.fields[k], b.fields[k], c.fields[k]);
          }
        }
      }
    } else if LooksEqual(b, c) {
      LooksEqualTrans(a, b, c);
    }
  }

  function Then(first: Option<Json>, second: Json): Option<Json> {
    if first.None? then None else MergeOf(first.value, second)
  }

  function Before(first: Json, second: Option<Json>): Option<Json> {
    if second.None? then None else MergeOf(first, second.value)
  }

  predicate Merge3(a: Json, b: Json, c: Json) {
    MergeOf(a, b).Some? && MergeOf(a, c).Some? && MergeOf(b, c).Some?
  }

  lemma ThenSucceeds(a: Json, b: Json, c: Json)
    ensures Then(MergeOf(a, b), c).Some? <==> Merge3(a, b, c)
  {
    hide MergeOf;
    if MergeOf(a, b).Some? {
      MergesWithThird(a, b, c);
    }
  }

  lemma BeforeSucceeds(a: Json, b: Json, c: Json)
    ensures Before(a, MergeOf(b, c)).Some? <==> Merge3(a, b, c)
  {
    hide MergeOf;
    if MergeOf(b, c).Some? {
      MergesWithThird(b, c, a);
      MergeFailsBothWays(MergeOf(b, c).value, a);
      MergeFailsBothWays(a, b);
      MergeFailsBothWays(a, c);
    }
  }

  lemma {:induction false} MergeAssociatesValue(a: Json, b: Json, c: Json)
    requires Merge3(a, b, c)
    requires Then(MergeOf(a, b), c).Some? && Before(a, MergeOf(b, c)).Some?
    ensures Then(MergeOf(a, b), c) == Before(a, MergeOf(b, c))
    decreases a
  {
    if a.Object? && b.Object? && c.Object? {
      var left, right := Then(MergeOf(a, b), c).value, Before(a, MergeOf(b, c)).value;
      forall k | k in left.fields ensures left.fields[k] == right.fields[k] {
        FieldOfMerge(a, b, k);
        FieldOfMerge(MergeOf(a, b).value, c, k);
        FieldOfMerge(b, c, k);
        FieldOfMerge(a, MergeOf(b, c).value, k);
        if k in a.fields && k in b.fields && k in c.fields {
          FieldsMerge(a, b, k);
          FieldsMerge(b, c, k);
          FieldsMerge(a, c, k);
          ThenSucceeds(a.fields[k], b.fields[k], c.fields[k]);
          BeforeSucceeds(a.fields[k], b.fields[k], c.fields[k]);
          MergeAssociatesValue(a.fields[k], b.fields[k], c.fields[k]);
        }
      }
      SameObject(left, right);
    }
  }

  lemma SameObject(left: Json, right: Json)
    requires left.Object? && right.Object? && left.fields.Keys == right.fields.Keys
    requires forall k :: k in left.fields ==> left.fields[k] == right.fields[k]
    ensures left == right
  {
    assert left.fields == right.fields;
  }

  lemma FieldsMerge(a: Json, b: Json, k: string)
    requires a.Object? && b.Object? && MergeOf(a, b).Some? && k in a.fields && k in b.fields
    ensures MergeOf(a.fields[k], b.fields[k]).Some?
  {
  }

  lemma FieldOfMerge(a: Json, b: Json, k: string)
    requires a.Object? && b.Object? && MergeOf(a, b).Some?
    ensures MergeOf(a, b).value.Object? && MergeOf(a, b).value.fields.Keys == a.fields.Keys + b.fields.Keys
    ensures k in a.fields && k !in b.fields ==> MergeOf(a, b).value.fields[k] == a.fields[k]
    ensures k !in a.fields && k in b.fields ==> MergeOf(a, b).value.fields[k] == b.fields[k]
    ensures k in a.fields && k in b.fields ==> Some(MergeOf(a, b).value.fields[k]) == MergeOf(a.fields[k], b.fields[k])
  {
  }

  /** Merging is associative, failures included. */
  lemma MergeAssociates(a: Json, b: Json, c: Json)
    ensures Then(MergeOf(a, b), c) == Before(a, MergeOf(b, c))
  {
    hide MergeOf;
    ThenSucceeds(a, b, c);
    BeforeSucceeds(a, b, c);
    if Then(MergeOf(a, b), c).Some? {
      MergeAssociatesValue(a, b, c);
    }
  }

  // ---------------------------------------------------------------- when it is the structural merge

  /** A merge that succeeds structurally is the one the program makes. */
  lemma {:induction false} JoinIsMerge(a: Json, b: Json)
    requires Join(a, b).Some?
    ensures MergeOf(a, b) == Join(a, b)
    decreases a
  {
    if a.Object? && b.Object? {
      forall k | k in a.fields && k in b.fields ensures MergeOf(a.fields[k], b.fields[k]) == Join(a.fields[k], b.fields[k]) {
        JoinIsMerge(a.fields[k], b.fields[k]);
      }
      assert MergeOf(a, b).value.fields == Join(a, b).value.fields;
    } else {
      LooksEqualRefl(a);
    }
  }

  /** If the program merges, the structural merge fails exactly when something is blurred. */
  lemma {:induction false} BlurIsConflict(a: Json, b: Json)
    requires MergeOf(a, b).Some?
    ensures Join(a, b).None? <==> Blurred(a, b)
    decreases a
  {
    if a.Object? && b.Object? {
      forall k | k in a.fields && k in b.fields ensures Join(a.fields[k], b.fields[k]).None? <==> Blurred(a.fields[k], b.fields[k]) {
        BlurIsConflict(a.fields[k], b.fields[k]);
      }
    }
  }

  /** The program's merge is the structural one exactly when it fails or nothing is blurred. */
  lemma MergeIsJoinExactly(a: Json, b: Json)
    ensures MergeOf(a, b) == Join(a, b) <==> MergeOf(a, b).None? || !Blurred(a, b)
  {
    if Join(a, b).Some? {
      JoinIsMerge(a, b);
    }
    if MergeOf(a, b).Some? {
      BlurIsConflict(a, b);
    }
  }

  lemma {:induction false} MergeFailsBothWays(a: Json, b: Json)
    ensures MergeOf(a, b).None? <==> MergeOf(b, a).None?
    decreases a
  {
    if a.Object? && b.Object? {
      forall k | k in a.fields && k in b.fields ensures MergeOf(a.fields[k], b.fields[k]).None? <==> MergeOf(b.fields[k], a.fields[k]).None? {
        MergeFailsBothWays(a.fields[k], b.fields[k]);
      }
    } else {
      LooksEqualSym(a, b);
    }
  }

  lemma {:induction false} BlurKeepsLater(a: Json, b: Json)
    requires MergeOf(a, b).Some? && Blurred(a, b)
    ensures MergeOf(a, b) != MergeOf(b, a)
    decreases a
  {
    MergeFailsBothWays(a, b);
    if a.Object? && b.Object? {
      var k :| k in a.fields && k in b.fields && Blurred(a.fields[k], b.fields[k]);
      BlurKeepsLater(a.fields[k], b.fields[k]);
      assert MergeOf(a, b).value.fields[k] == MergeOf(a.fields[k], b.fields[k]).value;
      assert MergeOf(b, a).value.fields[k] == MergeOf(b.fields[k], a.fields[k]).value;
      MergeFailsBothWays(a.fields[k], b.fields[k]);
    }
  }

  /** Two documents merge to the same in both orders exactly when they conflict or nothing is blurred. */
  lemma MergeCommutesExactly(a: Json, b: Json)
    ensures MergeOf(a, b) == MergeOf(b, a) <==> MergeOf(a, b).None? || !Blurred(a, b)
  {
    MergeFailsBothWays(a, b);
    if MergeOf(a, b).Some? {
      if Blurred(a, b) {
        BlurKeepsLater(a, b);
      } else {
        BlurredSym(a, b);
        MergeIsJoinExactly(a, b);
        MergeIsJoinExactly(b, a);
        JoinCommutes(a, b);
      }
    }
  }

  /** Merging `{"k": 1}` and `{"k": true}` succeeds in both orders and keeps the later value. */
  lemma OneAndTrueBlur()
    ensures var one, yes := Object(map["k" := Int(1)]), Object(map["k" := Boolean(true)]);
            MergeOf(one, yes) == Some(yes) && MergeOf(yes, one) == Some(one) && Join(one, yes).None?
  {
    var one, yes := Object(map["k" := Int(1)]), Object(map["k" := Boolean(true)]);
    assert MergeOf(one.fields["k"], yes.fields["k"]) == Some(Boolean(true));
    assert MergeOf(yes.fields["k"], one.fields["k"]) == Some(Int(1));
    assert MergeOf(one, yes).value.fields == yes.fields;
    assert MergeOf(yes, one).value.fields == one.fields;
    assert Join(one.fields["k"], yes.fields["k"]).None?;
  }

  // ---------------------------------------------------------------- documents that cannot be blurred

  /** Neither a boolean nor a floating-point number occurs. */
  predicate Plain(a: Json)
    decreases a
  {
    match a
    case Boolean(_) => false
    case Float(_) => false
    case Array(items) => forall i :: 0 <= i < |items| ==> Plain(items[i])
    case Object(fields) => forall k :: k in fields ==> Plain(fields[k])
    case _ => true
  }

  lemma {:induction false} PlainLooksRight(a: Json, b: Json)
    requires Plain(a) && Plain(b) && LooksEqual(a, b)
    ensures a == b
    decreases a
  {
    if a.Array? && b.Array? {
      forall i | 0 <= i < |a.items| ensures a.items[i] == b.items[i] {
        PlainLooksRight(a.items[i], b.items[i]);
      }
      assert a.items == b.items;
    } else if a.Object? && b.Object? {
      forall k | k in a.fields ensures a.fields[k] == b.fields[k] {
        PlainLooksRight(a.fields[k], b.fields[k]);
      }
      assert a.fields == b.fields;
    }
  }

  /** Documents without booleans and floating-point numbers, such as language files, never blur. */
  lemma {:induction false} PlainNeverBlurs(a: Json, b: Json)
    requires Plain(a) && Plain(b)
    ensures !Blurred(a, b)
    decreases a
  {
    if a.Object? && b.Object? {
      forall k | k in a.fields && k in b.fields ensures !Blurred(a.fields[k], b.fields[k]) {
        PlainNeverBlurs(a.fields[k], b.fields[k]);
      }
    } else if LooksEqual(a, b) {
      PlainLooksRight(a, b);
    }
  }

  // ---------------------------------------------------------------- several fragments

  /** The fragments merged one after the other, as the program does. */
  function MergeInTurn(base: Json, fragments: seq<Json>): Option<Json> {
    if fragments == [] then Some(base)
    else
      var earlier := MergeInTurn(base, fragments[..|fragments| - 1]);
      if earlier.None? then None else MergeOf(earlier.value, fragments[|fragments| - 1])
  }

  lemma {:induction false} BlurComesFromOne(a: Json, b: Json, c: Json)
    requires Join(a, b).Some? && Blurred(Join(a, b).value, c)
    ensures Blurred(a, c) || Blurred(b, c)
    decreases a
  {
    if a.Object? && b.Object? && c.Object? {
      var j := Join(a, b).value;
      var k :| k in j.fields && k in c.fields && Blurred(j.fields[k], c.fields[k]);
      if k in a.fields && k in b.fields {
        BlurComesFromOne(a.fields[k], b.fields[k], c.fields[k]);
      }
    }
  }

  lemma {:induction false} UnblurredSoFar(base: Json, fragments: seq<Json>, c: Json)
    requires MergeAll(base, fragments).Some?
    requires !Blurred(base, c) && forall x :: x in fragments ==> !Blurred(x, c)
    ensures !Blurred(MergeAll(base, fragments).value, c)
  {
    if fragments != [] {
      var n := |fragments| - 1;
      UnblurredSoFar(base, fragments[..n], c);
      if Blurred(MergeAll(base, fragments).value, c) {
        BlurComesFromOne(MergeAll(base, fragments[..n]).value, fragments[n], c);
      }
    }
  }

  /** No two of the fragments hold values that look equal and are not. */
  ghost predicate NoneBlur(fragments: seq<Json>) {
    forall x, y :: x in fragments && y in fragments ==> !Blurred(x, y)
  }

  /** If no two of the documents blur, merging in turn is the structural merge. */
  lemma {:induction false} MergeInTurnIsMergeAll(base: Json, fragments: seq<Json>)
    requires NoneBlur([base] + fragments)
    ensures MergeInTurn(base, fragments) == MergeAll(base, fragments)
  {
    if fragments != [] {
      var n := |fragments| - 1;
      var last := fragments[n];
      assert forall x :: x in [base] + fragments[..n] ==> x in [base] + fragments;
      MergeInTurnIsMergeAll(base, fragments[..n]);
      if MergeAll(base, fragments[..n]).Some? {
        var earlier := MergeAll(base, fragments[..n]).value;
        assert last in [base] + fragments && base in [base] + fragments;
        UnblurredSoFar(base, fragments[..n], last);
        MergeIsJoinExactly(earlier, last);
        if MergeOf(earlier, last).None? && Join(earlier, last).Some? {
          JoinIsMerge(earlier, last);
        }
      }
    }
  }

  // ---------------------------------------------------------------- orders that succeed

  ghost predicate AllMerge(base: Json, fragments: seq<Json>) {
    && (forall x :: x in fragments ==> MergeOf(base, x).Some?)
    && (forall x, y :: x in fragments && y in fragments ==> MergeOf(x, y).Some?)
  }

  lemma {:induction false} TurnMergesWith(base: Json, fragments: seq<Json>, c: Json)
    requires MergeInTurn(base, fragments).Some?
    ensures MergeOf(MergeInTurn(base, fragments).value, c).Some?
            <==> MergeOf(base, c).Some? && forall x :: x in fragments ==> MergeOf(x, c).Some?
  {
    if fragments != [] {
      var n := |fragments| - 1;
      TurnMergesWith(base, fragments[..n], c);
      MergesWithThird(MergeInTurn(base, fragments[..n]).value, fragments[n], c);
      InFront(fragments);
    }
  }

  lemma InFront(fragments: seq<Json>)
    requires fragments != []
    ensures forall x :: x in fragments <==> x in fragments[..|fragments| - 1] || x == fragments[|fragments| - 1]
  {
    assert fragments == fragments[..|fragments| - 1] + [fragments[|fragments| - 1]];
  }

  lemma AllMergeGrows(base: Json, fragments: seq<Json>)
    requires fragments != []
    ensures var n := |fragments| - 1;
            AllMerge(base, fragments)
            <==> AllMerge(base, fragments[..n]) && MergeOf(base, fragments[n]).Some?
                 && forall x :: x in fragments[..n] ==> MergeOf(x, fragments[n]).Some?
  {
    var n := |fragments| - 1;
    InFront(fragments);
    MergeIdempotent(fragments[n], fragments[n]);
    forall x ensures MergeOf(x, fragments[n]).Some? <==> MergeOf(fragments[n], x).Some? {
      MergeFailsBothWays(x, fragments[n]);
    }
  }

  /** Merging in turn succeeds exactly when every two of the documents merge. */
  lemma {:induction false} MergeInTurnSucceeds(base: Json, fragments: seq<Json>)
    ensures MergeInTurn(base, fragments).Some? <==> AllMerge(base, fragments)
  {
    hide AllMerge;
    if fragments == [] {
      NothingToMerge(base);
    } else {
      var n := |fragments| - 1;
      MergeInTurnSucceeds(base, fragments[..n]);
      AllMergeGrows(base, fragments);
      if MergeInTurn(base, fragments[..n]).Some? {
        TurnMergesWith(base, fragments[..n], fragments[n]);
      }
    }
  }

  lemma NothingToMerge(base: Json)
    ensures AllMerge(base, [])
  {
  }

  lemma SameMembers(first: seq<Json>, second: seq<Json>)
    requires multiset(first) == multiset(second)
    ensures forall x :: x in first <==> x in second
  {
    assert forall x :: x in first <==> x in multiset(first);
    assert forall x :: x in second <==> x in multiset(second);
  }

  /** Whether fragments merge into a file does not depend on their order. */
  lemma SuccessIgnoresOrder(base: Json, first: seq<Json>, second: seq<Json>)
    requires multiset(first) == multiset(second)
    ensures MergeInTurn(base, first).Some? <==> MergeInTurn(base, second).Some?
  {
    SameMembers(first, second);
    MergeInTurnSucceeds(base, first);
    MergeInTurnSucceeds(base, second);
  }

  // ---------------------------------------------------------------- orders that give one result

  /** The fragments can be merged with each other first and into the file afterwards. */
  lemma {:induction false} BaseComesLast(base: Json, fragments: seq<Json>)
    requires fragments != []
    ensures MergeInTurn(base, fragments) == Before(base, MergeInTurn(fragments[0], fragments[1..]))
  {
    var n := |fragments| - 1;
    if n == 0 {
      assert fragments[..0] == [] && fragments[1..] == [];
      assert MergeInTurn(base, fragments[..0]) == Some(base);
    } else {
      var rest := fragments[1..];
      assert fragments[..n][1..] == rest[..n - 1] && rest[n - 1] == fragments[n] && fragments[..n][0] == fragments[0];
      BaseComesLast(base, fragments[..n]);
      var inner := MergeInTurn(fragments[0], rest[..n - 1]);
      if inner.Some? {
        MergeAssociates(base, inner.value, fragments[n]);
      }
    }
  }

  lemma {:induction false} SameLeast(first: seq<Json>, second: seq<Json>)
    requires first != [] && second != [] && forall x :: x in first <==> x in second
    ensures MergeAll(first[0], first[1..]) == MergeAll(second[0], second[1..])
  {
    MergeAllCovered(first, second);
    MergeAllCovered(second, first);
    if MergeAll(first[0], first[1..]).Some? {
      WithinAntisym(MergeAll(first[0], first[1..]).value, MergeAll(second[0], second[1..]).value);
    }
  }

  lemma MergeAllCovered(first: seq<Json>, second: seq<Json>)
    requires first != [] && second != [] && forall x :: x in second ==> x in first
    ensures MergeAll(first[0], first[1..]).Some? ==>
              && MergeAll(second[0], second[1..]).Some?
              && Within(MergeAll(second[0], second[1..]).value, MergeAll(first[0], first[1..]).value)
  {
    if MergeAll(first[0], first[1..]).Some? {
      var m := MergeAll(first[0], first[1..]).value;
      MergeAllHoldsAll(first[0], first[1..]);
      assert first == [first[0]] + first[1..] && second[0] in second;
      forall x | x in second[1..] ensures Within(x, m) {
        assert x in second;
      }
      MergeAllIsLeast(second[0], second[1..], m);
    }
  }

  lemma UnblurredOrderIrrelevant(base: Json, first: seq<Json>, second: seq<Json>)
    requires multiset(first) == multiset(second) && NoneBlur(first)
    ensures MergeInTurn(base, first) == MergeInTurn(base, second)
  {
    SameMembers(first, second);
    if first == [] {
      assert multiset(second) == multiset{} && |second| == |multiset(second)|;
    } else {
      assert first[0] in second;
      assert [first[0]] + first[1..] == first && [second[0]] + second[1..] == second;
      BaseComesLast(base, first);
      BaseComesLast(base, second);
      MergeInTurnIsMergeAll(first[0], first[1..]);
      MergeInTurnIsMergeAll(second[0], second[1..]);
      SameLeast(first, second);
    }
  }

  /** Two blurring fragments put last give different results in their two orders. */
  lemma BlurShowsAtEnd(base: Json, rest: seq<Json>, x: Json, y: Json)
    requires Blurred(x, y) && MergeInTurn(base, rest + [x, y]).Some?
    ensures MergeInTurn(base, rest + [x, y]) != MergeInTurn(base, rest + [y, x])
  {
    LastWins(base, rest, x, y);
    LastWins(base, rest, y, x);
    MergeInTurnSucceeds(base, rest + [x, y]);
    assert x in rest + [x, y] && y in rest + [x, y];
    BlurIsConflict(x, y);
    if MergeInTurn(base, rest + [x, y]) == MergeInTurn(base, rest + [y, x]) {
      JoinIsLeast(x, y, MergeInTurn(base, rest + [x, y]).value);
    }
  }

  lemma LastWins(base: Json, rest: seq<Json>, x: Json, y: Json)
    ensures MergeInTurn(base, rest + [x, y]).Some? ==> Within(y, MergeInTurn(base, rest + [x, y]).value)
  {
    var all := rest + [x, y];
    if MergeInTurn(base, all).Some? {
      MergeKeepsBoth(MergeInTurn(base, all[..|all| - 1]).value, y);
    }
  }

  lemma {:induction false} WithoutOne(fragments: seq<Json>, x: Json) returns (rest: seq<Json>)
    requires x in fragments
    ensures multiset(fragments) == multiset(rest) + multiset{x}
  {
    var i :| 0 <= i < |fragments| && fragments[i] == x;
    rest := fragments[..i] + fragments[i + 1..];
    assert fragments == fragments[..i] + [x] + fragments[i + 1..];
  }

  ghost predicate SameInEveryOrder(base: Json, fragments: seq<Json>) {
    forall order :: multiset(order) == multiset(fragments) ==> MergeInTurn(base, order) == MergeInTurn(base, fragments)
  }

  lemma PairLast(fragments: seq<Json>, x: Json, y: Json) returns (rest: seq<Json>)
    requires x in fragments && y in fragments && x != y
    ensures multiset(rest + [x, y]) == multiset(fragments) == multiset(rest + [y, x])
  {
    var some := WithoutOne(fragments, x);
    assert y in multiset(fragments) && y in multiset(some);
    rest := WithoutOne(some, y);
    assert multiset([x, y]) == multiset{x} + multiset{y} == multiset([y, x]);
  }

  lemma BlurredOrderMatters(base: Json, fragments: seq<Json>, x: Json, y: Json)
    requires MergeInTurn(base, fragments).Some? && x in fragments && y in fragments && Blurred(x, y)
    ensures !SameInEveryOrder(base, fragments)
  {
    hide Blurred, MergeInTurn;
    NotBlurredWithItself(x);
    var rest := PairLast(fragments, x, y);
    SuccessIgnoresOrder(base, fragments, rest + [x, y]);
    BlurShowsAtEnd(base, rest, x, y);
  }

  lemma {:induction false} NotBlurredWithItself(x: Json)
    ensures !Blurred(x, x)
    decreases x
  {
    if x.Object? {
      forall k | k in x.fields ensures !Blurred(x.fields[k], x.fields[k]) {
        NotBlurredWithItself(x.fields[k]);
      }
    }
  }

  /** Any collection of fragments gives one result in every order exactly when it fails, or no two of the
      fragments blur. What the file held before plays no part. */
  lemma OrderIrrelevantExactly(base: Json, fragments: seq<Json>)
    ensures SameInEveryOrder(base, fragments) <==> MergeInTurn(base, fragments).None? || NoneBlur(fragments)
  {
    if MergeInTurn(base, fragments).None? {
      forall order | multiset(order) == multiset(fragments)
        ensures MergeInTurn(base, order) == MergeInTurn(base, fragments)
      {
        SuccessIgnoresOrder(base, order, fragments);
      }
    } else if NoneBlur(fragments) {
      forall order | multiset(order) == multiset(fragments)
        ensures MergeInTurn(base, order) == MergeInTurn(base, fragments)
      {
        UnblurredOrderIrrelevant(base, fragments, order);
      }
    } else {
      var x, y :| x in fragments && y in fragments && Blurred(x, y);
      BlurredOrderMatters(base, fragments, x, y);
    }
  }

  // ---------------------------------------------------------------- the merge loop

  datatype MergeResult = Merged(fields: map<string, Json>) | KeyConflict(key: string)

  /** The part of the merge over the keys in `done`. */
  ghost predicate MergedSoFar(
    base: map<string, Json>, updates: map<string, Json>, done: set<string>, merged: map<string, Json>)
  {
    && merged.Keys == base.Keys + done
    && forall k :: k in merged ==>
         if k in done && k in base then k in updates && MergeOf(base[k], updates[k]) == Some(merged[k])
         else if k in done then k in updates && merged[k] == updates[k]
         else merged[k] == base[k]
  }

  lemma AllMerged(base: map<string, Json>, updates: map<string, Json>, merged: map<string, Json>)
    requires MergedSoFar(base, updates, updates.Keys, merged)
    ensures MergeOf(Object(base), Object(updates)) == Some(Object(merged))
  {
    var m := MergeOf(Object(base), Object(updates));
    assert forall k :: k in base && k in updates ==> k in merged;
    assert m.Some?;
    assert m.value.fields == merged;
  }

  method DeepMergeDicts(base: map<string, Json>, updates: map<string, Json>) returns (result: MergeResult)
    ensures result.Merged? ==> MergeOf(Object(base), Object(updates)) == Some(Object(result.fields))
    ensures result.KeyConflict? ==> MergeOf(Object(base), Object(updates)).None?
    decreases Object(updates)
  {
    var merged := base;
    var todo := updates.Keys;
    var conflict: Option<string> := None;
    while todo != {} && conflict.None?
      invariant todo <= updates.Keys
      invariant conflict.None? ==> MergedSoFar(base, updates, updates.Keys - todo, merged)
      invariant conflict.Some? ==> MergeOf(Object(base), Object(updates)).None?
      decreases todo
    {
      var k :| k in todo;
      var v := updates[k];
      if k in merged {
        if merged[k].Object? && v.Object? {
          var inner := DeepMergeDicts(merged[k].fields, v.fields);
          if inner.KeyConflict? {
            conflict := Some(inner.key);
          } else {
            merged := merged[k := Object(inner.fields)];
          }
        } else if !LooksEqual(merged[k], v) {
          conflict := Some(k);
        } else {
          merged := merged[k := v];
        }
      } else {
        merged := merged[k := v];
      }
      todo := todo - {k};
    }
    if conflict.Some? {
      return KeyConflict(conflict.value);
    }
    assert updates.Keys - todo == updates.Keys;
    AllMerged(base, updates, merged);
    result := Merged(merged);
  }

  // ---------------------------------------------------------------- the resource file

  datatype Content = Missing | Blank | Unparsable | Parsed(json: Json)

  datatype MaterializeResult = Written | Corrupted | Conflicting(key: string)

  /** What an existing file contributes to a merge. */
  function Existing(content: Content): Option<Json> {
    match content
    case Missing => Some(Object(map[]))
    case Blank => Some(Object(map[]))
    case Unparsable => None
    case Parsed(json) => if json.Object? then Some(json) else None
  }

  /** No file and a blank one count as an empty object; any other file must hold an object, which is taken as it is. */
  lemma ExistingExactly(content: Content, json: Json)
    ensures Existing(content) == Some(json) <==>
              || (json == Object(map[]) && content in {Missing, Blank})
              || (json.Object? && content == Parsed(json))
  {
  }

  class JsonResource {
    var content: Content

    constructor (content: Content)
      ensures this.content == content
    {
      this.content := content;
    }

    /** Merges one fragment; a corrupt file or a conflict leaves the file alone. */
    method MaterializeJsonMerge(fragment: map<string, Json>) returns (result: MaterializeResult)
      modifies this
      ensures result.Corrupted? <==> Existing(old(content)).None?
      ensures result.Written? ==>
                content.Parsed? && MergeOf(Existing(old(content)).value, Object(fragment)) == Some(content.json)
      ensures result.Conflicting? ==> MergeOf(Existing(old(content)).value, Object(fragment)).None?
      ensures !result.Written? ==> content == old(content)
    {
      var existing := Existing(content);
      if existing.None? {
        return Corrupted;
      }
      var merged := DeepMergeDicts(existing.value.fields, fragment);
      if merged.KeyConflict? {
        return Conflicting(merged.key);
      }
      content := Parsed(Object(merged.fields));
      result := Written;
    }

    /** Several jobs merge into one resource, one after the other, up to the first failure. */
    method MaterializeFragments(fragments: seq<map<string, Json>>) returns (succeeded: bool)
      requires Existing(content).Some?
      modifies this
      ensures succeeded <==> MergeInTurn(Existing(old(content)).value, Objects(fragments)).Some?
      ensures succeeded ==>
                MergeInTurn(Existing(old(content)).value, Objects(fragments)) == Existing(content)
    {
      ghost var base := Existing(content).value;
      succeeded := true;
      var k := 0;
      while k < |fragments| && succeeded
        invariant k <= |fragments|
        invariant succeeded ==>
                    Existing(content).Some? && MergeInTurn(base, Objects(fragments[..k])) == Existing(content)
        invariant !succeeded ==> MergeInTurn(base, Objects(fragments)).None?
      {
        var result := MaterializeJsonMerge(fragments[k]);
        succeeded := result.Written?;
        ObjectsStep(fragments, k);
        if !succeeded {
          ConflictStays(base, Objects(fragments), k + 1);
        }
        k := k + 1;
      }
      assert fragments[..|fragments|] == fragments;
    }
  }

  ghost function Objects(fragments: seq<map<string, Json>>): (objects: seq<Json>)
    ensures |objects| == |fragments|
  {
    seq(|fragments|, i requires 0 <= i < |fragments| => Object(fragments[i]))
  }

  lemma ObjectsStep(fragments: seq<map<string, Json>>, k: nat)
    requires k < |fragments|
    ensures Objects(fragments)[..k + 1] == Objects(fragments[..k + 1])
    ensures Objects(fragments[..k + 1]) == Objects(fragments[..k]) + [Object(fragments[k])]
  {
  }

  lemma {:induction false} ConflictStays(base: Json, fragments: seq<Json>, k: nat)
    requires k <= |fragments| && MergeInTurn(base, fragments[..k]).None?
    ensures MergeInTurn(base, fragments).None?
    decreases |fragments|
  {
    if k == |fragments| {
      assert fragments[..k] == fragments;
    } else {
      var earlier := fragments[..|fragments| - 1];
      assert earlier[..k] == fragments[..k];
      ConflictStays(base, earlier, k);
    }
  }
}
