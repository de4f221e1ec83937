/** What `makeHypothesis` and `revertLastHypothesis` compute. A hypothesis
    frame records a guessed cell and the values tried for it; before guessing
    a cell again the solver strikes every value any frame of that cell
    recorded, then takes the first value left. Reverting zeroes the logged
    cells, newest first. */
module Backtracking {
  import opened Lists
  import opened Regions
  import opened Propagation

  /** `hypothesis`: the values tried so far for the guessed cell `cellIndex`. */
  datatype Hypothesis = Hypothesis(valuesTested: seq<int>, cellIndex: int)

  /** Digits below `j` that `vt` holds: what the inner scan `j := 1 .. 9` has struck so far. */
  function TestedBelow(vt: seq<int>, j: int): set<int>
  {
    set x | 1 <= x < j && x in vt
  }

  /** Digits recorded for cell `i` by frames `0 .. k-1`. */
  function TestedUpTo(hyps: seq<Hypothesis>, i: int, k: nat): set<int>
    requires k <= |hyps|
  {
    if k == 0 then {}
    else TestedUpTo(hyps, i, k - 1)
           + (if hyps[k - 1].cellIndex == i then TestedBelow(hyps[k - 1].valuesTested, 10) else {})
  }

  /** Digits recorded for cell `i` by any frame. */
  function Tested(hyps: seq<Hypothesis>, i: int): set<int>
  {
    TestedUpTo(hyps, i, |hyps|)
  }

  lemma {:induction false} TestedUpToMembers(hyps: seq<Hypothesis>, i: int, k: nat)
    requires k <= |hyps|
    ensures forall j :: j in TestedUpTo(hyps, i, k) <==>
              1 <= j <= 9 && exists f :: 0 <= f < k && hyps[f].cellIndex == i && j in hyps[f].valuesTested
  {
    if k > 0 {
      TestedUpToMembers(hyps, i, k - 1);
    }
  }

  /** A value counts as tested for a cell exactly when it is a digit some frame of that cell holds. */
  lemma TestedMembers(hyps: seq<Hypothesis>, i: int)
    ensures forall j :: j in Tested(hyps, i) <==>
              1 <= j <= 9 && exists f :: 0 <= f < |hyps| && hyps[f].cellIndex == i && j in hyps[f].valuesTested
  {
    TestedUpToMembers(hyps, i, |hyps|);
  }

  /** `alreadyConsidered` after scanning frames `0 .. k-1`: the last frame of cell `i`, or -1. */
  function LastFrameUpTo(hyps: seq<Hypothesis>, i: int, k: nat): (f: int)
    requires k <= |hyps|
    ensures -1 <= f < k
    ensures f >= 0 ==> hyps[f].cellIndex == i
    ensures forall q :: f < q < k ==> hyps[q].cellIndex != i
  {
    if k == 0 then -1
    else if hyps[k - 1].cellIndex == i then k - 1
    else LastFrameUpTo(hyps, i, k - 1)
  }

  /** Cell `i`'s list after the scan visits it: a two-candidate list loses its tested values. */
  function Pruned(cs: seq<seq<int>>, hyps: seq<Hypothesis>, i: int): seq<int>
    requires |cs| == 81 && 0 <= i < 81
  {
    if |cs[i]| == 2 then Without(cs[i], Tested(hyps, i)) else cs[i]
  }

  /** All 81 lists once the scan has visited cells `0 .. n-1`. */
  function PrunedBelow(cs: seq<seq<int>>, hyps: seq<Hypothesis>, n: int): (r: seq<seq<int>>)
    requires |cs| == 81 && 0 <= n <= 81
    ensures |r| == 81
  {
    seq(81, j requires 0 <= j < 81 => if j < n then Pruned(cs, hyps, j) else cs[j])
  }

  /** After the scan has passed cells `0 .. n-1`, a cell keeps a value exactly
      when it listed it, unless the cell was passed, had two candidates, and
      some frame of that cell records the value. */
  lemma {:induction false} PrunedBelowMeaning(cs: seq<seq<int>>, hyps: seq<Hypothesis>, n: int)
    requires |cs| == 81 && 0 <= n <= 81 && forall j :: 0 <= j < 81 ==> IsCandidateList(cs[j])
    ensures forall j, x :: 0 <= j < 81 ==>
              (x in PrunedBelow(cs, hyps, n)[j] <==>
                 x in cs[j] && !(j < n && |cs[j]| == 2 &&
                                 exists f :: 0 <= f < |hyps| && hyps[f].cellIndex == j && x in hyps[f].valuesTested))
  {
    forall j, x | 0 <= j < 81
      ensures x in PrunedBelow(cs, hyps, n)[j] <==>
                x in cs[j] && !(j < n && |cs[j]| == 2 &&
                                exists f :: 0 <= f < |hyps| && hyps[f].cellIndex == j && x in hyps[f].valuesTested)
    {
      if j < n && |cs[j]| == 2 {
        WithoutMembers(cs[j], Tested(hyps, j));
        TestedMembers(hyps, j);
        if x in cs[j] {
          var q :| 0 <= q < |cs[j]| && cs[j][q] == x;
          assert 1 <= x <= 9;
        }
      }
    }
  }

  /** The scan commits to cell `i`: two candidates, and one is still untested. */
  predicate Eligible(cs: seq<seq<int>>, hyps: seq<Hypothesis>, i: int)
    requires |cs| == 81 && 0 <= i < 81
  {
    |cs[i]| == 2 && Pruned(cs, hyps, i) != []
  }

  /** The hypothesis scan starts at the first cell. */
  const FirstCell: int := 0

  /** The first eligible cell at or after `from`, or 81 when there is none. */
  function Pick(cs: seq<seq<int>>, hyps: seq<Hypothesis>, from: int): (c: int)
    requires |cs| == 81 && 0 <= from <= 81
    ensures from <= c <= 81
    ensures c < 81 ==> Eligible(cs, hyps, c)
    ensures forall j :: from <= j < c ==> !Eligible(cs, hyps, j)
    decreases 81 - from
  {
    if from == 81 then 81
    else if Eligible(cs, hyps, from) then from
    else Pick(cs, hyps, from + 1)
  }

  /** The frames after committing value `v` for cell `c`: the last frame of
      `c`, if there is one, also records `v`, and a new frame `{[v], c}` is
      appended in any case. */
  function Recorded(hyps: seq<Hypothesis>, c: int, v: int): seq<Hypothesis>
  {
    var f := LastFrameUpTo(hyps, c, |hyps|);
    (if f >= 0 then hyps[f := hyps[f].(valuesTested := hyps[f].valuesTested + [v])] else hyps)
      + [Hypothesis([v], c)]
  }

  /** Pruning keeps a list in candidate shape. */
  lemma PrunedShape(cs: seq<seq<int>>, hyps: seq<Hypothesis>, i: int)
    requires |cs| == 81 && 0 <= i < 81 && IsCandidateList(cs[i])
    ensures IsCandidateList(Pruned(cs, hyps, i))
    ensures forall x :: x in Pruned(cs, hyps, i) ==> x in cs[i]
  {
    if |cs[i]| == 2 {
      CandidateListWithout(cs[i], Tested(hyps, i));
    }
  }

  /** The value a hypothesis commits to is a digit the cell listed that no
      frame of the cell has recorded, and every candidate before it in the
      list has been recorded by some frame of the cell. */
  lemma HypothesisChoice(cs: seq<seq<int>>, hyps: seq<Hypothesis>, c: int)
    requires |cs| == 81 && 0 <= c < 81 && IsCandidateList(cs[c]) && Eligible(cs, hyps, c)
    ensures var v := Pruned(cs, hyps, c)[0];
            && 1 <= v <= 9 && v in cs[c]
            && (forall f :: 0 <= f < |hyps| && hyps[f].cellIndex == c ==> v !in hyps[f].valuesTested)
            && exists m :: 0 <= m < |cs[c]| && cs[c][m] == v
                 && forall q :: 0 <= q < m ==> cs[c][q] in Tested(hyps, c)
  {
    var v := Pruned(cs, hyps, c)[0];
    WithoutHead(cs[c], Tested(hyps, c));
    TestedMembers(hyps, c);
    var m :| 0 <= m < |cs[c]| && cs[c][m] == v && cs[c][m] !in Tested(hyps, c)
             && forall q :: 0 <= q < m ==> cs[c][q] in Tested(hyps, c);
  }

  /** After committing `v` to `c`, the frames remember it: a later hypothesis
      on `c` strikes `v`. Earlier records are kept and exactly one frame is added. */
  lemma RecordedRemembers(hyps: seq<Hypothesis>, c: int, v: int)
    requires 1 <= v <= 9
    ensures |Recorded(hyps, c, v)| == |hyps| + 1
    ensures Recorded(hyps, c, v)[|hyps|] == Hypothesis([v], c)
    ensures forall f :: 0 <= f < |hyps| ==> Recorded(hyps, c, v)[f].cellIndex == hyps[f].cellIndex
    ensures v in Tested(Recorded(hyps, c, v), c)
    ensures forall i :: Tested(hyps, i) <= Tested(Recorded(hyps, c, v), i)
  {
    var r := Recorded(hyps, c, v);
    TestedMembers(r, c);
    assert r[|hyps|].valuesTested == [v];
    forall i ensures Tested(hyps, i) <= Tested(r, i) {
      TestedMembers(hyps, i);
      TestedMembers(r, i);
      forall j | j in Tested(hyps, i) ensures j in Tested(r, i) {
        var f :| 0 <= f < |hyps| && hyps[f].cellIndex == i && j in hyps[f].valuesTested;
        assert j in r[f].valuesTested;
      }
    }
  }

  /** The values after `revertLastHypothesis` walks the log `h` from its end,
      zeroing the cell each entry names. */
  function Unwound(vals: seq<int>, h: seq<int>): seq<int>
    requires |vals| == 81 && InGrid(h)
    decreases |h|
  {
    if |h| == 0 then vals
    else Unwound(vals[h[|h| - 1] := 0], h[..|h| - 1])
  }

  /** Unwinding zeroes exactly the cells the log names and keeps every other value. */
  lemma {:induction false} UnwoundClears(vals: seq<int>, h: seq<int>)
    requires |vals| == 81 && InGrid(h)
    ensures |Unwound(vals, h)| == 81
    ensures forall j :: 0 <= j < 81 ==> Unwound(vals, h)[j] == if j in h then 0 else vals[j]
    decreases |h|
  {
    if |h| > 0 {
      var front := h[..|h| - 1];
      UnwoundClears(vals[h[|h| - 1] := 0], front);
      assert h == front + [h[|h| - 1]];
    }
  }
}
