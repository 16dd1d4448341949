/** Listing a set of names in ascending order of code points. */
module Listing {
  import opened Digraph

  predicate Before(a: string, b: string) {
    b != "" && (a == "" || a[0] < b[0] || (a[0] == b[0] && Before(a[1..], b[1..])))
  }

  /** The names agree up to `k`, where `a` ends or has the smaller character. */
  ghost predicate DiffersAt(a: string, b: string, k: nat) {
    k <= |a| && k < |b| && a[..k] == b[..k] && (k == |a| || a[k] < b[k])
  }

  lemma FirstAgrees(a: string, b: string, k: nat)
    requires k > 0 && DiffersAt(a, b, k)
    ensures a != "" && b != "" && a[0] == b[0]
  {
    assert a[..k][0] == b[..k][0];
  }

  /** The order is that of the first difference. */
  lemma {:induction false} BeforeExactly(a: string, b: string)
    ensures Before(a, b) <==> exists k: nat :: DiffersAt(a, b, k)
  {
    if a != "" && b != "" && a[0] == b[0] {
      BeforeExactly(a[1..], b[1..]);
      if k: nat :| DiffersAt(a[1..], b[1..], k) {
        assert a == [a[0]] + a[1..] && b == [b[0]] + b[1..];
        assert DiffersAt(a, b, k + 1);
      }
      if k: nat :| DiffersAt(a, b, k) {
        assert k > 0 && a[1..][..k - 1] == a[..k][1..] && b[1..][..k - 1] == b[..k][1..];
        assert DiffersAt(a[1..], b[1..], k - 1);
      }
    } else if Before(a, b) {
      assert DiffersAt(a, b, 0);
    } else if k: nat :| k > 0 && DiffersAt(a, b, k) {
      FirstAgrees(a, b, k);
    }
  }

  lemma {:induction false} BeforeIsStrict(a: string, b: string)
    ensures !(Before(a, b) && Before(b, a))
    ensures !Before(a, b) && !Before(b, a) <==> a == b
  {
    if a != "" && b != "" && a[0] == b[0] {
      BeforeIsStrict(a[1..], b[1..]);
      assert a == [a[0]] + a[1..] && b == [b[0]] + b[1..];
    }
  }

  lemma {:induction false} BeforeTrans(a: string, b: string, c: string)
    requires Before(a, b) && Before(b, c)
    ensures Before(a, c)
  {
    if a != "" && a[0] == b[0] && b[0] == c[0] {
      BeforeTrans(a[1..], b[1..], c[1..]);
    }
  }

  predicate IsLeast(x: string, s: set<string>) {
    x in s && forall y :: y in s && y != x ==> Before(x, y)
  }

  lemma {:induction false} LeastExists(s: set<string>)
    requires s != {}
    ensures exists x :: IsLeast(x, s)
    decreases s
  {
    var x :| x in s;
    var rest := s - {x};
    if rest == {} {
      assert s == {x};
      assert IsLeast(x, s);
    } else {
      LeastExists(rest);
      var y :| IsLeast(y, rest);
      BeforeIsStrict(x, y);
      if Before(y, x) {
        assert IsLeast(y, s);
      } else {
        forall z | z in s && z != x ensures Before(x, z) {
          if z != y {
            BeforeTrans(x, y, z);
          }
        }
        assert IsLeast(x, s);
      }
    }
  }

  lemma LeastIsUnique(s: set<string>, x: string, y: string)
    requires IsLeast(x, s) && IsLeast(y, s)
    ensures x == y
  {
    BeforeIsStrict(x, y);
  }

  function Sorted(s: set<string>): seq<string> {
    if s == {} then []
    else
      LeastExists(s);
      assert forall x, y :: IsLeast(x, s) && IsLeast(y, s) ==> x == y by {
        forall x, y | IsLeast(x, s) && IsLeast(y, s) ensures x == y { LeastIsUnique(s, x, y); }
      }
      var x :| IsLeast(x, s);
      [x] + Sorted(s - {x})
  }

  ghost predicate Ascending(list: seq<string>) {
    forall i, j :: 0 <= i < j < |list| ==> Before(list[i], list[j])
  }

  /** The listing is ascending and names exactly the members. */
  lemma {:induction false} SortedLists(s: set<string>)
    ensures Ascending(Sorted(s)) && Elements(Sorted(s)) == s
    decreases s
  {
    if s != {} {
      var list := Sorted(s);
      var rest := s - {list[0]};
      assert list == [list[0]] + Sorted(rest);
      SortedLists(rest);
      forall i, j | 0 <= i < j < |list| ensures Before(list[i], list[j]) {
        assert list[j] in Elements(Sorted(rest));
        if i > 0 {
          assert list[i] == Sorted(rest)[i - 1] && list[j] == Sorted(rest)[j - 1];
        }
      }
      forall y ensures y in Elements(list) <==> y in s {
        assert y in Elements(Sorted(rest)) <==> y in rest;
      }
    }
  }

  /** An ascending listing is the only one of its members. */
  lemma {:induction false} AscendingIsUnique(a: seq<string>, b: seq<string>)
    requires Ascending(a) && Ascending(b) && Elements(a) == Elements(b)
    ensures a == b
  {
    if a == [] {
      if b != [] {
        HasElement(b);
      }
    } else {
      assert a[0] in Elements(b);
      assert b != [] && b[0] in Elements(a);
      FirstAgree(a, b);
      TailElements(a);
      TailElements(b);
      AscendingIsUnique(a[1..], b[1..]);
      assert a == [a[0]] + a[1..] && b == [b[0]] + b[1..];
    }
  }

  lemma HasElement(list: seq<string>)
    requires list != []
    ensures Elements(list) != {}
  {
    assert list[0] in Elements(list);
  }

  lemma FirstAgree(a: seq<string>, b: seq<string>)
    requires Ascending(a) && Ascending(b) && a != [] && b != [] && a[0] in b && b[0] in a
    ensures a[0] == b[0]
  {
    var i :| 0 <= i < |b| && b[i] == a[0];
    var j :| 0 <= j < |a| && a[j] == b[0];
    BeforeIsStrict(a[0], b[0]);
  }

  lemma TailElements(a: seq<string>)
    requires Ascending(a) && a != []
    ensures Elements(a[1..]) == Elements(a) - {a[0]} && Ascending(a[1..])
  {
    forall i | 1 <= i < |a| ensures a[i] != a[0] {
      BeforeIsStrict(a[0], a[i]);
    }
    forall y ensures y in Elements(a[1..]) <==> y in Elements(a) - {a[0]} {
      if y in Elements(a) && y != a[0] {
        var i :| 0 <= i < |a| && a[i] == y;
        assert a[1..][i - 1] == y;
      }
    }
  }
}
