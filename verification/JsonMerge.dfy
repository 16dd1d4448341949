/** Merging JSON fragments into one resource: conflict-detecting and order-independent. */
module JsonMerge {
  import opened Optional

  /** Objects are maps: the order of keys is not significant. */
  datatype Json =
    | Null
    | Boolean(b: bool)
    | Int(n: int)
    | Float(r: real)
    | Text(s: string)
    | Array(items: seq<Json>)
    | Object(fields: map<string, Json>)

  // ---------------------------------------------------------------- what merging means

  /** Every path and value of `a` is in `b`. */
  ghost predicate Within(a: Json, b: Json)
    decreases a
  {
    if a.Object? && b.Object? then
      forall k :: k in a.fields ==> k in b.fields && Within(a.fields[k], b.fields[k])
    else a == b
  }

  /** The least document holding both, if there is one. */
  ghost function Join(a: Json, b: Json): Option<Json>
    decreases a
  {
    if a.Object? && b.Object? then
      if forall k :: k in a.fields && k in b.fields ==> Join(a.fields[k], b.fields[k]).Some? then
        Some(Object(map k | k in a.fields.Keys + b.fields.Keys ::
          if k !in a.fields then b.fields[k]
          else if k !in b.fields then a.fields[k]
          else Join(a.fields[k], b.fields[k]).value))
      else None
    else if a == b then Some(a)
    else None
  }

  ghost predicate UpperBound(a: Json, b: Json, c: Json) {
    Within(a, c) && Within(b, c)
  }

  lemma {:induction false} WithinRefl(a: Json)
    ensures Within(a, a)
    decreases a
  {
    if a.Object? {
      forall k | k in a.fields ensures Within(a.fields[k], a.fields[k]) {
        WithinRefl(a.fields[k]);
      }
    }
  }

  lemma {:induction false} WithinTrans(a: Json, b: Json, c: Json)
    requires Within(a, b) && Within(b, c)
    ensures Within(a, c)
    decreases a
  {
    if a.Object? && b.Object? {
      forall k | k in a.fields ensures k in c.fields && Within(a.fields[k], c.fields[k]) {
        WithinTrans(a.fields[k], b.fields[k], c.fields[k]);
      }
    }
  }

  lemma {:induction false} WithinAntisym(a: Json, b: Json)
    requires Within(a, b) && Within(b, a)
    ensures a == b
    decreases a
  {
    if a.Object? {
      forall k | k in a.fields ensures a.fields[k] == b.fields[k] {
        WithinAntisym(a.fields[k], b.fields[k]);
      }
      assert a.fields == b.fields;
    }
  }

  /** A successful merge keeps every path and value of both sides. */
  lemma {:induction false} JoinIsUpperBound(a: Json, b: Json)
    requires Join(a, b).Some?
    ensures UpperBound(a, b, Join(a, b).value)
    decreases a
  {
    var c := Join(a, b).value;
    if a.Object? && b.Object? {
      forall k | k in a.fields ensures k in c.fields && Within(a.fields[k], c.fields[k]) {
        if k in b.fields {
          JoinIsUpperBound(a.fields[k], b.fields[k]);
        } else {
          WithinRefl(a.fields[k]);
        }
      }
      forall k | k in b.fields ensures k in c.fields && Within(b.fields[k], c.fields[k]) {
        if k in a.fields {
          JoinIsUpperBound(a.fields[k], b.fields[k]);
        } else {
          WithinRefl(b.fields[k]);
        }
      }
    } else {
      WithinRefl(a);
    }
  }

  /** It adds nothing, and it fails only when no document holds both. */
  lemma {:induction false} JoinIsLeast(a: Json, b: Json, c: Json)
    requires UpperBound(a, b, c)
    ensures Join(a, b).Some? && Within(Join(a, b).value, c)
    decreases a
  {
    if a.Object? && b.Object? {
      forall k | k in a.fields && k in b.fields
        ensures Join(a.fields[k], b.fields[k]).Some? && Within(Join(a.fields[k], b.fields[k]).value, c.fields[k])
      {
        JoinIsLeast(a.fields[k], b.fields[k], c.fields[k]);
      }
      var j := Join(a, b).value;
      forall k | k in j.fields ensures k in c.fields && Within(j.fields[k], c.fields[k]) {
      }
    }
  }

  // ---------------------------------------------------------------- the algebra of merging

  lemma LeastIsUnique(a: Json, b: Json, x: Option<Json>)
    requires x.Some? ==> UpperBound(a, b, x.value) && forall c :: UpperBound(a, b, c) ==> Within(x.value, c)
    requires x.None? ==> forall c :: !UpperBound(a, b, c)
    ensures Join(a, b) == x
  {
    if Join(a, b).Some? {
      JoinIsUpperBound(a, b);
    }
    if x.Some? {
      JoinIsLeast(a, b, x.value);
      WithinAntisym(Join(a, b).value, x.value);
    }
  }

  lemma JoinCommutes(a: Json, b: Json)
    ensures Join(a, b) == Join(b, a)
  {
    if Join(a, b).Some? {
      JoinIsUpperBound(a, b);
    }
    forall c | UpperBound(b, a, c) ensures Join(a, b).Some? && Within(Join(a, b).value, c) {
      JoinIsLeast(a, b, c);
    }
    LeastIsUnique(b, a, Join(a, b));
  }

  lemma JoinIdempotent(a: Json, b: Json)
    requires Join(a, b).Some?
    ensures Join(a, a) == Some(a)
    ensures Join(Join(a, b).value, b) == Join(a, b)
  {
    WithinRefl(a);
    LeastIsUnique(a, a, Some(a));
    var c := Join(a, b).value;
    JoinIsUpperBound(a, b);
    WithinRefl(c);
    LeastIsUnique(c, b, Some(c));
  }

  /** Merges fragments one after the other into `base`. */
  ghost function MergeAll(base: Json, fragments: seq<Json>): Option<Json> {
    if fragments == [] then Some(base)
    else
      var earlier := MergeAll(base, fragments[..|fragments| - 1]);
      if earlier.None? then None else Join(earlier.value, fragments[|fragments| - 1])
  }

  ghost predicate AllWithin(base: Json, fragments: seq<Json>, c: Json) {
    Within(base, c) && forall x :: x in fragments ==> Within(x, c)
  }

  lemma {:induction false} MergeAllHoldsAll(base: Json, fragments: seq<Json>)
    requires MergeAll(base, fragments).Some?
    ensures AllWithin(base, fragments, MergeAll(base, fragments).value)
  {
    var m := MergeAll(base, fragments).value;
    if fragments == [] {
      WithinRefl(base);
    } else {
      var earlier, last := fragments[..|fragments| - 1], fragments[|fragments| - 1];
      MergeAllHoldsAll(base, earlier);
      var e := MergeAll(base, earlier).value;
      JoinIsUpperBound(e, last);
      WithinTrans(base, e, m);
      forall x | x in fragments ensures Within(x, m) {
        assert fragments == earlier + [last];
        if x in earlier {
          WithinTrans(x, e, m);
        }
      }
    }
  }

  lemma {:induction false} MergeAllIsLeast(base: Json, fragments: seq<Json>, c: Json)
    requires AllWithin(base, fragments, c)
    ensures MergeAll(base, fragments).Some? && Within(MergeAll(base, fragments).value, c)
  {
    if fragments != [] {
      var earlier, last := fragments[..|fragments| - 1], fragments[|fragments| - 1];
      MergeAllIsLeast(base, earlier, c);
      JoinIsLeast(MergeAll(base, earlier).value, last, c);
    }
  }

  /** Any set of fragments merges in one order exactly when it merges in every order, with one result. */
  lemma MergeOrderIrrelevant(base: Json, first: seq<Json>, second: seq<Json>)
    requires multiset(first) == multiset(second)
    ensures MergeAll(base, first) == MergeAll(base, second)
  {
    assert forall x :: x in first <==> x in multiset(first);
    assert forall x :: x in second <==> x in multiset(second);
    if MergeAll(base, first).Some? {
      MergeAllHoldsAll(base, first);
      MergeAllIsLeast(base, second, MergeAll(base, first).value);
    }
    if MergeAll(base, second).Some? {
      MergeAllHoldsAll(base, second);
      MergeAllIsLeast(base, first, MergeAll(base, second).value);
      WithinAntisym(MergeAll(base, first).value, MergeAll(base, second).value);
    }
  }

  lemma MergeTwo(base: Json, x: Json, y: Json)
    ensures MergeAll(base, [x, y]) ==
            if Join(base, x).Some? then Join(Join(base, x).value, y) else None
  {
    assert [x, y][..1] == [x] && [x][..0] == [];
    assert MergeAll(base, []) == Some(base);
    assert MergeAll(base, [x]) == Join(base, x);
  }

  lemma JoinAssociates(a: Json, b: Json, c: Json)
    ensures var ab, bc := Join(a, b), Join(b, c);
            (if ab.Some? then Join(ab.value, c) else None) == (if bc.Some? then Join(a, bc.value) else None)
  {
    var ab, bc := Join(a, b), Join(b, c);
    MergeTwo(a, b, c);
    MergeTwo(b, c, a);
    if bc.Some? {
      JoinCommutes(a, bc.value);
    }
    if MergeAll(a, [b, c]).Some? {
      MergeAllHoldsAll(a, [b, c]);
      MergeAllIsLeast(b, [c, a], MergeAll(a, [b, c]).value);
    }
    if MergeAll(b, [c, a]).Some? {
      MergeAllHoldsAll(b, [c, a]);
      MergeAllIsLeast(a, [b, c], MergeAll(b, [c, a]).value);
      WithinAntisym(MergeAll(a, [b, c]).value, MergeAll(b, [c, a]).value);
    }
  }
}
