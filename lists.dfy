/** Candidate lists (`List` in sudoku.go): ordered sequences of small integers,
    with the linear-scan membership test and first-occurrence removal the
    solver applies to them, and the "list minus a set" view that describes
    every candidate list the solver builds. */
module Lists {

  /** Strictly increasing; in particular free of duplicates. */
  predicate Ascending(s: seq<int>)
  {
    forall p, q :: 0 <= p < q < |s| ==> s[p] < s[q]
  }

  /** `contains`: scans from the front and reports whether `e` occurs. */
  method Contains(l: seq<int>, e: int) returns (found: bool)
    ensures found <==> e in l
  {
    var baseLength := |l|;
    var i := 0;
    while i < baseLength
      invariant 0 <= i <= baseLength
      invariant forall j :: 0 <= j < i ==> l[j] != e
    {
      if l[i] == e {
        return true;
      }
      i := i + 1;
    }
    return false;
  }

  /** The list with its first occurrence of `e` cut out. */
  function RemoveFirst(l: seq<int>, e: int): seq<int>
  {
    if |l| == 0 then []
    else if l[0] == e then l[1..]
    else [l[0]] + RemoveFirst(l[1..], e)
  }

  /** A list without `e` is left as it is. */
  lemma {:induction false} RemoveFirstAbsent(l: seq<int>, e: int)
    requires e !in l
    ensures RemoveFirst(l, e) == l
  {
    if |l| > 0 {
      assert e !in l[1..] by { assert forall x :: x in l[1..] ==> x in l; }
      RemoveFirstAbsent(l[1..], e);
      assert l == [l[0]] + l[1..];
    }
  }

  /** Removal cuts out exactly the first occurrence and keeps the order of the rest. */
  lemma {:induction false} RemoveFirstSplices(l: seq<int>, e: int, k: int)
    requires 0 <= k < |l| && l[k] == e && forall j :: 0 <= j < k ==> l[j] != e
    ensures |RemoveFirst(l, e)| == |l| - 1
    ensures RemoveFirst(l, e) == l[..k] + l[k + 1..]
  {
    if k > 0 {
      var t := l[1..];
      assert forall j :: 0 <= j < k - 1 ==> t[j] != e by {
        forall j | 0 <= j < k - 1 ensures t[j] != e { assert t[j] == l[j + 1]; }
      }
      RemoveFirstSplices(t, e, k - 1);
      var a, b := t[..k - 1], t[k..];
      assert l[0] != e;
      assert RemoveFirst(l, e) == [l[0]] + (a + b);
      assert [l[0]] + (a + b) == ([l[0]] + a) + b;
      assert l[..k] == [l[0]] + a;
      assert l[k + 1..] == b;
    }
  }

  /** `RemoveElement`: finds the first index holding `e` and splices it out;
      a list without `e` is returned unchanged. */
  method RemoveElement(l: seq<int>, e: int) returns (r: seq<int>)
    ensures r == RemoveFirst(l, e)
  {
    var baseLength := |l|;
    var cutIndex := -1;
    var i := 0;
    while i < baseLength
      invariant 0 <= i <= baseLength
      invariant forall j :: 0 <= j < i ==> l[j] != e
    {
      if l[i] == e {
        cutIndex := i;
        break;
      }
      i := i + 1;
    }
    if cutIndex < 0 {
      RemoveFirstAbsent(l, e);
      return l;
    }
    RemoveFirstSplices(l, e, cutIndex);
    r := l[..cutIndex] + l[cutIndex + 1..];
  }

  /** The elements of `d`, in their order, that are not in `S`. */
  function Without(d: seq<int>, S: set<int>): seq<int>
  {
    if |d| == 0 then [] else (if d[0] in S then [] else [d[0]]) + Without(d[1..], S)
  }

  lemma {:induction false} WithoutMembers(d: seq<int>, S: set<int>)
    ensures forall x :: x in Without(d, S) <==> x in d && x !in S
  {
    if |d| > 0 {
      WithoutMembers(d[1..], S);
      assert d == [d[0]] + d[1..];
    }
  }

  lemma {:induction false} WithoutAscending(d: seq<int>, S: set<int>)
    requires Ascending(d)
    ensures Ascending(Without(d, S))
  {
    if |d| > 0 {
      WithoutAscending(d[1..], S);
      WithoutMembers(d[1..], S);
      var w := Without(d[1..], S);
      forall q | 0 <= q < |w| ensures d[0] < w[q] {
        assert w[q] in w;
      }
    }
  }

  lemma {:induction false} WithoutNothing(d: seq<int>)
    ensures Without(d, {}) == d
  {
    if |d| > 0 {
      WithoutNothing(d[1..]);
      assert d == [d[0]] + d[1..];
    }
  }

  /** Removing a value that `d` does not hold from the excluded set changes nothing. */
  lemma {:induction false} WithoutIgnores(d: seq<int>, S: set<int>, e: int)
    requires e !in d
    ensures Without(d, S + {e}) == Without(d, S)
  {
    if |d| > 0 {
      assert e !in d[1..] by { assert forall x :: x in d[1..] ==> x in d; }
      WithoutIgnores(d[1..], S, e);
    }
  }

  /** Removing `e` from an already filtered duplicate-free list is filtering by one more value. */
  lemma {:induction false} RemoveFirstWithout(d: seq<int>, S: set<int>, e: int)
    requires Ascending(d)
    ensures RemoveFirst(Without(d, S), e) == Without(d, S + {e})
  {
    if |d| > 0 {
      var t := d[1..];
      assert Ascending(t);
      assert Without(d, S) == (if d[0] in S then [] else [d[0]]) + Without(t, S);
      assert Without(d, S + {e}) == (if d[0] in S + {e} then [] else [d[0]]) + Without(t, S + {e});
      if d[0] in S {
        RemoveFirstWithout(t, S, e);
        assert Without(d, S) == Without(t, S);
        assert Without(d, S + {e}) == Without(t, S + {e});
      } else if d[0] == e {
        assert e !in t by {
          forall q | 0 <= q < |t| ensures t[q] != e { assert d[0] < d[q + 1]; }
        }
        WithoutIgnores(t, S, e);
        assert RemoveFirst([e] + Without(t, S), e) == Without(t, S);
      } else {
        RemoveFirstWithout(t, S, e);
        var w := Without(t, S);
        assert RemoveFirst([d[0]] + w, e) == [d[0]] + RemoveFirst(w, e);
      }
    }
  }

  /** The head of a filtered list is the first element of `d` outside `S`. */
  lemma {:induction false} WithoutHead(d: seq<int>, S: set<int>)
    requires Without(d, S) != []
    ensures exists m :: 0 <= m < |d| && d[m] == Without(d, S)[0] && d[m] !in S
                        && forall q :: 0 <= q < m ==> d[q] in S
  {
    if d[0] !in S {
      assert d[0] == Without(d, S)[0];
    } else {
      WithoutHead(d[1..], S);
      var m :| 0 <= m < |d[1..]| && d[1..][m] == Without(d[1..], S)[0] && d[1..][m] !in S
                && forall q :: 0 <= q < m ==> d[1..][q] in S;
      assert d[m + 1] == Without(d, S)[0];
      assert forall q :: 0 <= q < m + 1 ==> d[q] in S by {
        forall q | 0 <= q < m + 1 ensures d[q] in S {
          if q > 0 { assert d[q] == d[1..][q - 1]; }
        }
      }
    }
  }
}
