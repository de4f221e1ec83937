/** What one `fillValues` pass computes. The pass never changes a candidate
    list, and at step `i` it only writes cell `i`, so each cell's outcome
    depends on its own value and on the (fixed) candidate lists alone:
    the naked-single rule, then the hidden-single rule over the box, the
    column and the line, each rule hit overwriting the value and logging the
    index once more. */
module Filling {
  import opened Lists
  import opened Regions
  import opened Propagation

  /** The 81 candidate lists, each in the shape propagation gives them. */
  predicate IsBoard(cs: seq<seq<int>>)
  {
    |cs| == 81 && forall i :: 0 <= i < 81 ==> IsCandidateList(cs[i])
  }

  /** The number of cells a pass visits. */
  const CellCount: nat := 81

  /** The tally loops run `k` over `0 .. TallyEnd - 1`, so the value 9 is never tallied. */
  const TallyEnd: nat := 9

  /** The hidden-single tally: how many cells of region `r` list `k`. */
  function Tally(cs: seq<seq<int>>, r: seq<int>, k: int): nat
    requires |cs| == 81 && InGrid(r)
  {
    if |r| == 0 then 0
    else Tally(cs, r[..|r| - 1], k) + (if k in cs[r[|r| - 1]] then 1 else 0)
  }

  lemma {:induction false} TallyZero(cs: seq<seq<int>>, r: seq<int>, k: int)
    requires |cs| == 81 && InGrid(r)
    ensures Tally(cs, r, k) == 0 <==> forall q :: 0 <= q < |r| ==> k !in cs[r[q]]
  {
    if |r| > 0 {
      var front := r[..|r| - 1];
      TallyZero(cs, front, k);
      assert forall q :: 0 <= q < |front| ==> front[q] == r[q];
    }
  }

  /** A tally of one for a value the cell at position `p` lists means no
      other cell of the region lists it. */
  lemma {:induction false} TallyOne(cs: seq<seq<int>>, r: seq<int>, p: int, k: int)
    requires |cs| == 81 && InGrid(r) && 0 <= p < |r| && k in cs[r[p]]
    ensures Tally(cs, r, k) == 1 <==> forall q :: 0 <= q < |r| && q != p ==> k !in cs[r[q]]
  {
    var last := |r| - 1;
    var front := r[..last];
    assert forall q :: 0 <= q < |front| ==> front[q] == r[q];
    if p == last {
      TallyZero(cs, front, k);
    } else {
      TallyZero(cs, front, k);
      TallyOne(cs, front, p, k);
    }
  }

  /** The values `k < n` the hidden-single rule assigns, in the order it
      assigns them: tally one, and among the cell's own candidates `c`. */
  function Hidden(cs: seq<seq<int>>, r: seq<int>, c: seq<int>, n: nat): seq<int>
    requires |cs| == 81 && InGrid(r) && n <= TallyEnd
  {
    if n == 0 then []
    else Hidden(cs, r, c, n - 1) + (if Tally(cs, r, n - 1) == 1 && (n - 1) in c then [n - 1] else [])
  }

  lemma {:induction false} HiddenMembers(cs: seq<seq<int>>, r: seq<int>, c: seq<int>, n: nat)
    requires |cs| == 81 && InGrid(r) && n <= TallyEnd
    ensures forall x :: x in Hidden(cs, r, c, n) <==> 0 <= x < n && x in c && Tally(cs, r, x) == 1
  {
    if n > 0 {
      HiddenMembers(cs, r, c, n - 1);
    }
  }

  /** The rule only ever assigns 1..8: the tally stops before 9. */
  lemma HiddenRange(cs: seq<seq<int>>, r: seq<int>, c: seq<int>)
    requires |cs| == 81 && InGrid(r) && IsCandidateList(c)
    ensures forall x :: x in Hidden(cs, r, c, TallyEnd) ==> 1 <= x <= 8 && x in c
  {
    HiddenMembers(cs, r, c, TallyEnd);
    forall x | x in c ensures 1 <= x <= 9 {
      var q :| 0 <= q < |c| && c[q] == x;
    }
  }

  /** Hidden single: for the cell at position `p` of the region, a value is
      assigned exactly when it is one of 1..8, the cell lists it, and no other
      cell of the region does. */
  lemma HiddenSingleMeaning(cs: seq<seq<int>>, r: seq<int>, p: int)
    requires IsBoard(cs) && InGrid(r) && 0 <= p < |r|
    ensures forall x :: x in Hidden(cs, r, cs[r[p]], TallyEnd) <==>
              1 <= x <= 8 && x in cs[r[p]] && forall q :: 0 <= q < |r| && q != p ==> x !in cs[r[q]]
  {
    var c := cs[r[p]];
    HiddenMembers(cs, r, c, TallyEnd);
    HiddenRange(cs, r, c);
    forall x | x in c {
      TallyOne(cs, r, p, x);
    }
  }

  /** The naked-single rule: an unassigned cell with one candidate takes it. */
  function Naked(v: int, c: seq<int>): seq<int>
  {
    if v == 0 && |c| == 1 then [c[0]] else []
  }

  /** The values the hidden-single rule assigns to cell `i`, in order: over
      its box, then its column, then its line. */
  function HiddenHits(cs: seq<seq<int>>, i: int): seq<int>
    requires |cs| == 81 && 0 <= i < 81
  {
    Hidden(cs, MiniGrid(i), cs[i], TallyEnd) + Hidden(cs, Column(i), cs[i], TallyEnd)
      + Hidden(cs, Line(i), cs[i], TallyEnd)
  }

  /** The values assigned to cell `i`, whose value is `v`, in assignment order:
      naked single, then hidden singles. */
  function Hits(v: int, cs: seq<seq<int>>, i: int): seq<int>
    requires |cs| == 81 && 0 <= i < 81
  {
    Naked(v, cs[i]) + HiddenHits(cs, i)
  }

  /** The value left after a series of assignments: the last one, if any. */
  function Settle(v: int, hits: seq<int>): int
  {
    if hits == [] then v else hits[|hits| - 1]
  }

  /** The 81 values after one pass. */
  function FilledValues(vals: seq<int>, cs: seq<seq<int>>): seq<int>
    requires |vals| == 81 && |cs| == 81
  {
    seq(81, i requires 0 <= i < 81 => Settle(vals[i], Hits(vals[i], cs, i)))
  }

  /** The 81 values once the pass has visited cells `0 .. n-1`. */
  function FilledBelow(vals: seq<int>, cs: seq<seq<int>>, n: int): (r: seq<int>)
    requires |vals| == 81 && |cs| == 81 && 0 <= n <= 81
    ensures |r| == 81
  {
    seq(81, j requires 0 <= j < 81 => if j < n then Settle(vals[j], Hits(vals[j], cs, j)) else vals[j])
  }

  /** Part way through, the pass has given the visited cells `0 .. n-1` their
      final values and left every other cell as it was: it starts from the old
      values and ends at `FilledValues`. */
  lemma FilledBelowFrames(vals: seq<int>, cs: seq<seq<int>>, n: int)
    requires |vals| == 81 && |cs| == 81 && 0 <= n <= 81
    ensures forall j :: 0 <= j < n ==> FilledBelow(vals, cs, n)[j] == FilledValues(vals, cs)[j]
    ensures forall j :: n <= j < 81 ==> FilledBelow(vals, cs, n)[j] == vals[j]
    ensures FilledBelow(vals, cs, 0) == vals
    ensures FilledBelow(vals, cs, 81) == FilledValues(vals, cs)
  {
  }

  function Repeat(x: int, n: nat): seq<int>
  {
    seq(n, _ => x)
  }

  /** The history entries logged for cells `0 .. n-1`: one copy of the index per assignment. */
  function FillLog(vals: seq<int>, cs: seq<seq<int>>, n: nat): seq<int>
    requires |vals| == 81 && |cs| == 81 && n <= 81
  {
    if n == 0 then [] else FillLog(vals, cs, n - 1) + Repeat(n - 1, |Hits(vals[n - 1], cs, n - 1)|)
  }

  /** Visiting cell `n` sets it to its outcome and logs its hits after the earlier ones. */
  lemma FillStep(vals: seq<int>, cs: seq<seq<int>>, h: seq<int>, n: nat)
    requires |vals| == 81 && |cs| == 81 && n < 81
    ensures FilledBelow(vals, cs, n)[n := Settle(vals[n], Hits(vals[n], cs, n))] == FilledBelow(vals, cs, n + 1)
    ensures h + FillLog(vals, cs, n) + Repeat(n, |Hits(vals[n], cs, n)|) == h + FillLog(vals, cs, n + 1)
  {
    var r := Repeat(n, |Hits(vals[n], cs, n)|);
    assert h + FillLog(vals, cs, n) + r == h + (FillLog(vals, cs, n) + r);
  }

  /** The contradiction the pass reports: an unassigned cell without candidates. */
  predicate Contradiction(v: int, c: seq<int>)
  {
    v == 0 && |c| == 0
  }

  /** No cell is contradictory: a pass over these values and lists leaves the grid possible. */
  predicate Consistent(vals: seq<int>, cs: seq<seq<int>>)
    requires |vals| == 81 && |cs| == 81
  {
    forall j :: 0 <= j < 81 ==> !Contradiction(vals[j], cs[j])
  }

  lemma SettleAppend(v: int, a: seq<int>, b: seq<int>)
    ensures Settle(Settle(v, a), b) == Settle(v, a + b)
  {
  }

  lemma RepeatAppend(x: int, m: nat, n: nat)
    ensures Repeat(x, m) + Repeat(x, n) == Repeat(x, m + n)
  {
  }

  /** Logging `|a|` and then `|b|` more copies is logging `|a + b|` copies. */
  lemma RepeatSnoc(h: seq<int>, x: int, a: seq<int>, b: seq<int>)
    ensures h + Repeat(x, |a|) + Repeat(x, |b|) == h + Repeat(x, |a + b|)
  {
    RepeatAppend(x, |a|, |b|);
    assert h + Repeat(x, |a|) + Repeat(x, |b|) == h + (Repeat(x, |a|) + Repeat(x, |b|));
  }

  lemma RepeatMembers(x: int, n: nat)
    ensures forall y :: y in Repeat(x, n) <==> y == x && n > 0
  {
    if n > 0 { assert Repeat(x, n)[0] == x; }
  }

  /** The log names exactly the cells some rule fired on. */
  lemma {:induction false} FillLogMembers(vals: seq<int>, cs: seq<seq<int>>, n: nat)
    requires |vals| == 81 && |cs| == 81 && n <= 81
    ensures forall x :: x in FillLog(vals, cs, n) <==> 0 <= x < n && Hits(vals[x], cs, x) != []
  {
    if n > 0 {
      var r := Repeat(n - 1, |Hits(vals[n - 1], cs, n - 1)|);
      FillLogMembers(vals, cs, n - 1);
      RepeatMembers(n - 1, |Hits(vals[n - 1], cs, n - 1)|);
      assert FillLog(vals, cs, n) == FillLog(vals, cs, n - 1) + r;
      forall x ensures x in FillLog(vals, cs, n) <==> 0 <= x < n && Hits(vals[x], cs, x) != [] {
        assert x in FillLog(vals, cs, n) <==> x in FillLog(vals, cs, n - 1) || x in r;
      }
    }
  }

  lemma HitsAreDigits(v: int, cs: seq<seq<int>>, i: int)
    requires IsBoard(cs) && 0 <= i < 81
    ensures forall x :: x in Naked(v, cs[i]) ==> 1 <= x <= 9
    ensures forall x :: x in Hits(v, cs, i) ==> 1 <= x <= 9
  {
    HiddenRange(cs, MiniGrid(i), cs[i]);
    HiddenRange(cs, Column(i), cs[i]);
    HiddenRange(cs, Line(i), cs[i]);
  }

  /** A cell without candidates triggers no hidden single. */
  lemma {:induction false} HiddenOfNone(cs: seq<seq<int>>, r: seq<int>, n: nat)
    requires |cs| == 81 && InGrid(r) && n <= TallyEnd
    ensures Hidden(cs, r, [], n) == []
  {
    if n > 0 {
      HiddenOfNone(cs, r, n - 1);
    }
  }

  /** An assigned cell without candidates is hit by no rule. */
  lemma AssignedCellUntouched(v: int, cs: seq<seq<int>>, i: int)
    requires |cs| == 81 && 0 <= i < 81 && v != 0 && cs[i] == []
    ensures Hits(v, cs, i) == []
  {
    HiddenOfNone(cs, MiniGrid(i), TallyEnd);
    HiddenOfNone(cs, Column(i), TallyEnd);
    HiddenOfNone(cs, Line(i), TallyEnd);
  }

  /** Once some rule hits a cell, it ends up holding a digit. */
  lemma HitCellHoldsDigit(v: int, cs: seq<seq<int>>, i: int)
    requires IsBoard(cs) && 0 <= i < 81 && Hits(v, cs, i) != []
    ensures 1 <= Settle(v, Hits(v, cs, i)) <= 9
  {
    var h := Hits(v, cs, i);
    HitsAreDigits(v, cs, i);
    assert h[|h| - 1] in h;
  }

  /** Run on propagated lists (assigned cells have none), a pass keeps every
      assigned cell, logs exactly the cells it fills, and fills only with
      digits 1..9. */
  lemma FillAssignsOnlyBlanks(vals: seq<int>, cs: seq<seq<int>>)
    requires |vals| == 81 && IsBoard(cs)
    requires forall j :: 0 <= j < 81 && vals[j] != 0 ==> cs[j] == []
    ensures forall j :: 0 <= j < 81 && vals[j] != 0 ==> FilledValues(vals, cs)[j] == vals[j]
    ensures forall j :: 0 <= j < 81 ==>
              (j in FillLog(vals, cs, CellCount) <==> vals[j] == 0 && FilledValues(vals, cs)[j] != 0)
    ensures forall j :: 0 <= j < 81 && FilledValues(vals, cs)[j] != vals[j] ==>
              1 <= FilledValues(vals, cs)[j] <= 9
  {
    FillLogMembers(vals, cs, CellCount);
    var after := FilledValues(vals, cs);
    forall j | 0 <= j < 81
      ensures vals[j] != 0 ==> after[j] == vals[j] && j !in FillLog(vals, cs, CellCount)
      ensures vals[j] == 0 ==> (j in FillLog(vals, cs, CellCount) <==> after[j] != 0)
      ensures after[j] != vals[j] ==> 1 <= after[j] <= 9
    {
      assert after[j] == Settle(vals[j], Hits(vals[j], cs, j));
      if vals[j] != 0 {
        AssignedCellUntouched(vals[j], cs, j);
      } else if Hits(vals[j], cs, j) != [] {
        HitCellHoldsDigit(vals[j], cs, j);
      }
    }
  }

  /** Cells no rule hits log nothing. */
  lemma {:induction false} FillLogNone(vals: seq<int>, cs: seq<seq<int>>, n: nat)
    requires |vals| == 81 && |cs| == 81 && n <= 81
    requires forall j :: 0 <= j < n ==> Hits(vals[j], cs, j) == []
    ensures FillLog(vals, cs, n) == []
  {
    if n > 0 {
      FillLogNone(vals, cs, n - 1);
      assert Repeat(n - 1, 0) == [];
    }
  }

  /** A pass that logs nothing changes no value. */
  lemma FillLogEmpty(vals: seq<int>, cs: seq<seq<int>>)
    requires |vals| == 81 && |cs| == 81
    requires FillLog(vals, cs, CellCount) == []
    ensures FilledValues(vals, cs) == vals
  {
    FillLogMembers(vals, cs, CellCount);
    forall j | 0 <= j < 81 ensures FilledValues(vals, cs)[j] == vals[j] {
      assert j !in FillLog(vals, cs, CellCount);
    }
  }
}
