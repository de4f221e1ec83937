/** What `updatePossibleValues` computes for one cell: a full recomputation
    from the current cell values alone. Values are the 81 `cell.value`s
    (0 = unassigned); an assigned cell gets no candidates, an unassigned one
    the digits 1..9, in ascending order, minus every value held in its line,
    column or box. */
module Propagation {
  import opened Lists
  import opened Regions

  /** The fresh list `List{1, 2, 3, 4, 5, 6, 7, 8, 9}`. */
  const Digits: seq<int> := [1, 2, 3, 4, 5, 6, 7, 8, 9]

  lemma DigitsAscending()
    ensures |Digits| == 9 && forall k :: 0 <= k < 9 ==> Digits[k] == k + 1
    ensures IsCandidateList(Digits)
    ensures forall v :: v in Digits <==> 1 <= v <= 9
  {
    forall v | 1 <= v <= 9 ensures v in Digits { assert Digits[v - 1] == v; }
  }

  /** The digits below `j`: those struck from an assigned cell's list by the time the scan reaches `j`. */
  function DigitsBelow(j: int): set<int>
  {
    set x | x in Digits && x < j
  }

  lemma DigitsBelowStep(j: int)
    requires 1 <= j <= 9
    ensures DigitsBelow(1) == {}
    ensures DigitsBelow(j) + {j} == DigitsBelow(j + 1)
  {
    DigitsAscending();
    forall x | x in DigitsBelow(j + 1) ensures x in DigitsBelow(j) + {j} {
    }
  }

  /** Shape every candidate list keeps: ascending digits 1..9. */
  predicate IsCandidateList(c: seq<int>)
  {
    Ascending(c) && forall q :: 0 <= q < |c| ==> 1 <= c[q] <= 9
  }

  /** Filtering keeps a list in candidate shape. */
  lemma CandidateListWithout(c: seq<int>, S: set<int>)
    requires IsCandidateList(c)
    ensures IsCandidateList(Without(c, S))
    ensures forall x :: x in Without(c, S) ==> x in c
  {
    var w := Without(c, S);
    WithoutAscending(c, S);
    WithoutMembers(c, S);
    forall q | 0 <= q < |w| ensures 1 <= w[q] <= 9 {
      assert w[q] in w;
      var m :| 0 <= m < |c| && c[m] == w[q];
    }
  }

  /** The values held by the cells listed in `idx`. */
  function ValuesAt(vals: seq<int>, idx: seq<int>): set<int>
    requires |vals| == 81 && InGrid(idx)
  {
    if |idx| == 0 then {} else ValuesAt(vals, idx[..|idx| - 1]) + {vals[idx[|idx| - 1]]}
  }

  lemma {:induction false} ValuesAtMembers(vals: seq<int>, idx: seq<int>)
    requires |vals| == 81 && InGrid(idx)
    ensures forall v :: v in ValuesAt(vals, idx) <==> exists k :: 0 <= k < |idx| && vals[idx[k]] == v
  {
    if |idx| > 0 {
      var front := idx[..|idx| - 1];
      ValuesAtMembers(vals, front);
      assert forall k :: 0 <= k < |front| ==> front[k] == idx[k];
    }
  }

  /** Values removed from cell `i`'s list: those of its line, column and box. */
  function PeerValues(vals: seq<int>, i: int): set<int>
    requires |vals| == 81 && 0 <= i < 81
  {
    ValuesAt(vals, Line(i)) + ValuesAt(vals, Column(i)) + ValuesAt(vals, MiniGrid(i))
  }

  lemma PeerValuesMembers(vals: seq<int>, i: int)
    requires |vals| == 81 && 0 <= i < 81
    ensures forall v :: v in PeerValues(vals, i) <==> exists j :: 0 <= j < 81 && Peer(i, j) && vals[j] == v
  {
    LineMembers(i);
    ColumnMembers(i);
    MiniGridMembers(i);
    ValuesAtMembers(vals, Line(i));
    ValuesAtMembers(vals, Column(i));
    ValuesAtMembers(vals, MiniGrid(i));
    forall v | v in PeerValues(vals, i)
      ensures exists j :: 0 <= j < 81 && Peer(i, j) && vals[j] == v
    {
      if v in ValuesAt(vals, Line(i)) {
        var k :| 0 <= k < 9 && vals[Line(i)[k]] == v;
        assert Peer(i, Line(i)[k]);
      } else if v in ValuesAt(vals, Column(i)) {
        var k :| 0 <= k < 9 && vals[Column(i)[k]] == v;
        assert Peer(i, Column(i)[k]);
      } else {
        var k :| 0 <= k < 9 && vals[MiniGrid(i)[k]] == v;
        assert Peer(i, MiniGrid(i)[k]);
      }
    }
    forall v, j | 0 <= j < 81 && Peer(i, j) && vals[j] == v
      ensures v in PeerValues(vals, i)
    {
      if SameLine(i, j) {
        var k :| 0 <= k < 9 && Line(i)[k] == j;
      } else if SameColumn(i, j) {
        var k :| 0 <= k < 9 && Column(i)[k] == j;
      } else {
        var k :| 0 <= k < 9 && MiniGrid(i)[k] == j;
      }
    }
  }

  /** Values the scan over positions `0 .. j-1` of cell `i`'s line, column and box has struck. */
  function Struck(vals: seq<int>, i: int, j: int): set<int>
    requires |vals| == 81 && 0 <= i < 81 && 0 <= j <= 9
  {
    ValuesAt(vals, Line(i)[..j]) + ValuesAt(vals, Column(i)[..j]) + ValuesAt(vals, MiniGrid(i)[..j])
  }

  lemma StruckNone(vals: seq<int>, i: int)
    requires |vals| == 81 && 0 <= i < 81
    ensures Struck(vals, i, 0) == {}
  {
  }

  /** Round `j` of the scan strikes the values at position `j` of the line, the column and the box. */
  lemma StruckStep(vals: seq<int>, i: int, j: int)
    requires |vals| == 81 && 0 <= i < 81 && 0 <= j < 9
    ensures Struck(vals, i, j + 1)
            == Struck(vals, i, j) + {vals[Line(i)[j]]} + {vals[Column(i)[j]]} + {vals[MiniGrid(i)[j]]}
  {
    var l, c, m := Line(i), Column(i), MiniGrid(i);
    assert l[..j + 1][..j] == l[..j];
    assert c[..j + 1][..j] == c[..j];
    assert m[..j + 1][..j] == m[..j];
  }

  lemma StruckAll(vals: seq<int>, i: int)
    requires |vals| == 81 && 0 <= i < 81
    ensures Struck(vals, i, 9) == PeerValues(vals, i)
  {
    assert Line(i)[..9] == Line(i);
    assert Column(i)[..9] == Column(i);
    assert MiniGrid(i)[..9] == MiniGrid(i);
  }

  /** One round of the peer scan: removing the three peer values one after the other. */
  lemma StrikeThree(S: set<int>, a: int, b: int, c: int)
    ensures RemoveFirst(RemoveFirst(RemoveFirst(Without(Digits, S), a), b), c) == Without(Digits, S + {a} + {b} + {c})
  {
    DigitsAscending();
    RemoveFirstWithout(Digits, S, a);
    RemoveFirstWithout(Digits, S + {a}, b);
    RemoveFirstWithout(Digits, S + {a} + {b}, c);
  }

  /** Filtering out every digit leaves nothing. */
  lemma WithoutAllDigits(S: set<int>)
    requires DigitsBelow(10) <= S
    ensures Without(Digits, S) == []
  {
    DigitsAscending();
    WithoutMembers(Digits, S);
    var w := Without(Digits, S);
    assert |w| > 0 ==> w[0] in w;
    assert forall x :: x in Digits ==> x in DigitsBelow(10);
    assert forall x :: x !in w;
  }

  /** The list `updatePossibleValues` leaves in cell `i`. */
  function Propagated(vals: seq<int>, i: int): seq<int>
    requires |vals| == 81 && 0 <= i < 81
  {
    if vals[i] != 0 then [] else Without(Digits, PeerValues(vals, i))
  }

  /** The 81 lists `updatePossibleValues` leaves. */
  function PropagatedAll(vals: seq<int>): (cs: seq<seq<int>>)
    requires |vals| == 81
    ensures |cs| == 81
  {
    seq(81, j requires 0 <= j < 81 => Propagated(vals, j))
  }

  /** An assigned cell has no candidates; an unassigned cell's candidates,
      ascending, are exactly the digits no line, column or box peer holds. */
  lemma PropagatedMeaning(vals: seq<int>, i: int)
    requires |vals| == 81 && 0 <= i < 81
    ensures IsCandidateList(Propagated(vals, i))
    ensures vals[i] != 0 ==> Propagated(vals, i) == []
    ensures forall v :: v in Propagated(vals, i) <==>
              vals[i] == 0 && 1 <= v <= 9 && forall j :: 0 <= j < 81 && Peer(i, j) ==> vals[j] != v
  {
    DigitsAscending();
    CandidateListWithout(Digits, PeerValues(vals, i));
    WithoutMembers(Digits, PeerValues(vals, i));
    PeerValuesMembers(vals, i);
  }
}
