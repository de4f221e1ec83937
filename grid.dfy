/** The sudoku grid of sudoku.go and its solving engine. The 81 cells are
    two parallel arrays indexed by `i = 9 * y + x`: `values` holds each
    `cell.value` (0 = unassigned, a `uint8`) and `candidates` each cell's
    `possibleValues` list. Each method's new state or result is given by a
    function of its old state: the functions of modules Propagation,
    Filling and Backtracking for the operations on lists and cells, and the
    state functions `Forward`, `Recover`, `Hypothesize`, `RoundStep` and
    `Run` below for the steps of `Solve`. Lemmas say what those functions
    compute. */
module Sudoku {
  import opened Lists
  import opened Regions
  import opened Propagation
  import opened Filling
  import opened Backtracking

  /** Lists computed by propagation are in candidate shape, and assigned cells have none. */
  lemma PropagatedBoard(vals: seq<int>, cs: seq<seq<int>>)
    requires |vals| == 81 && |cs| == 81
    requires cs == PropagatedAll(vals)
    ensures IsBoard(cs)
    ensures forall j :: 0 <= j < 81 && vals[j] != 0 ==> cs[j] == []
  {
    forall j | 0 <= j < 81
      ensures IsCandidateList(cs[j]) && (vals[j] != 0 ==> cs[j] == [])
    {
      assert cs[j] == Propagated(vals, j);
      PropagatedMeaning(vals, j);
    }
  }

  /** On propagated lists, the cell a hypothesis picks is unassigned. */
  lemma HypothesisOnBlank(vals: seq<int>, cs: seq<seq<int>>, hyps: seq<Hypothesis>)
    requires |vals| == 81 && |cs| == 81
    requires cs == PropagatedAll(vals)
    ensures Pick(cs, hyps, FirstCell) < 81 ==> vals[Pick(cs, hyps, FirstCell)] == 0
  {
    var c := Pick(cs, hyps, FirstCell);
    if c < 81 {
      assert cs[c] == Propagated(vals, c);
      PropagatedMeaning(vals, c);
    }
  }

  /** On a grid with every cell assigned, propagation leaves no candidates,
      so a fill pass changes and logs nothing and reports no contradiction,
      and no cell is eligible for a hypothesis. */
  lemma FullGridIdle(vals: seq<int>, cs: seq<seq<int>>, hyps: seq<Hypothesis>)
    requires |vals| == 81 && |cs| == 81
    requires forall j :: 0 <= j < 81 ==> vals[j] != 0
    requires cs == PropagatedAll(vals)
    ensures FilledValues(vals, cs) == vals
    ensures FillLog(vals, cs, CellCount) == []
    ensures Consistent(vals, cs)
    ensures Pick(cs, hyps, FirstCell) == 81
  {
    forall j | 0 <= j < 81 ensures cs[j] == [] && Hits(vals[j], cs, j) == [] {
      assert cs[j] == Propagated(vals, j);
      AssignedCellUntouched(vals[j], cs, j);
    }
    FillLogNone(vals, cs, CellCount);
    FillLogEmpty(vals, cs);
  }

  /** Every cell that holds a value in `vals` and is not logged in `h` still
      holds it in `after` and is not logged in `hAfter`. */
  ghost predicate KeptFrom(vals: seq<int>, h: seq<int>, after: seq<int>, hAfter: seq<int>)
    requires |vals| == 81 && |after| == 81
  {
    forall j :: 0 <= j < 81 && vals[j] != 0 && j !in h ==> after[j] == vals[j] && j !in hAfter
  }

  lemma KeptChain(a: seq<int>, ha: seq<int>, b: seq<int>, hb: seq<int>, c: seq<int>, hc: seq<int>)
    requires |a| == 81 && |b| == 81 && |c| == 81
    requires KeptFrom(a, ha, b, hb) && KeptFrom(b, hb, c, hc)
    ensures KeptFrom(a, ha, c, hc)
  {
  }

  /** A fill pass on propagated lists keeps every unlogged value and logs none of those cells. */
  lemma FillKeeps(vals: seq<int>, cs: seq<seq<int>>, h: seq<int>)
    requires |vals| == 81 && |cs| == 81
    requires cs == PropagatedAll(vals)
    ensures KeptFrom(vals, h, FilledValues(vals, cs), h + FillLog(vals, cs, CellCount))
  {
    PropagatedBoard(vals, cs);
    FillAssignsOnlyBlanks(vals, cs);
  }

  /** Unwinding the log touches only logged cells and leaves an empty log. */
  lemma UnwoundKeeps(vals: seq<int>, h: seq<int>)
    requires |vals| == 81 && InGrid(h)
    ensures |Unwound(vals, h)| == 81
    ensures KeptFrom(vals, h, Unwound(vals, h), [])
  {
    UnwoundClears(vals, h);
  }

  /** On propagated lists, the cell a hypothesis commits to held no value,
      so assigning and logging it keeps every value that was not logged. */
  lemma HypothesisKeeps(vals: seq<int>, cs: seq<seq<int>>, hyps: seq<Hypothesis>, h: seq<int>, c: int, v: int)
    requires |vals| == 81 && |cs| == 81 && 0 <= c < 81 && Eligible(cs, hyps, c)
    ensures cs == PropagatedAll(vals) ==>
              KeptFrom(vals, h, vals[c := v], h + [c])
  {
    if cs == PropagatedAll(vals) {
      assert cs[c] == Propagated(vals, c);
      PropagatedMeaning(vals, c);
    }
  }

  /** The whole state of a grid as values: what the methods of `Grid` read and write. */
  datatype State = State(values: seq<int>, candidates: seq<seq<int>>, history: seq<int>,
                         hypotheses: seq<Hypothesis>, isPossible: bool)

  /** 81 values, 81 lists, and a log that names cells. */
  predicate Sized(s: State)
  {
    |s.values| == 81 && |s.candidates| == 81 && InGrid(s.history)
  }

  /** The states a grid can be in. */
  type GridState = s: State | Sized(s)
    witness State(seq(81, _ => 0), seq(81, _ => []), [], [], true)

  /** Propagate, then one fill pass: the first half of a `Solve` round. */
  function Forward(s: State): (t: State)
    requires Sized(s)
    ensures Sized(t)
  {
    var cs := PropagatedAll(s.values);
    var log := FillLog(s.values, cs, CellCount);
    FillLogMembers(s.values, cs, CellCount);
    assert forall q :: 0 <= q < |log| ==> log[q] in log;
    State(FilledValues(s.values, cs), cs, s.history + log, s.hypotheses,
          s.isPossible && Consistent(s.values, cs))
  }

  /** The cells a forward step logs are exactly those some fill rule hits. */
  lemma ForwardLogs(s: State)
    requires Sized(s)
    ensures |s.history| <= |Forward(s).history| && Forward(s).history[..|s.history|] == s.history
    ensures forall x :: x in Forward(s).history[|s.history|..] <==>
              0 <= x < 81 && Hits(s.values[x], Forward(s).candidates, x) != []
  {
    var cs := PropagatedAll(s.values);
    var log := FillLog(s.values, cs, CellCount);
    FillLogMembers(s.values, cs, CellCount);
    assert Forward(s).history == s.history + log;
    assert (s.history + log)[|s.history|..] == log;
  }

  /** A forward step keeps every value that is not logged. */
  lemma ForwardKeeps(s: GridState)
    ensures KeptFrom(s.values, s.history, Forward(s).values, Forward(s).history)
  {
    FillKeeps(s.values, PropagatedAll(s.values), s.history);
  }

  /** A forward step that logs nothing changes no value, so its lists are
      those propagation computes from the values it leaves. */
  lemma ForwardSettled(s: GridState)
    ensures |Forward(s).history| == |s.history| ==>
              Forward(s).values == s.values && Forward(s).candidates == PropagatedAll(Forward(s).values)
  {
    var cs := PropagatedAll(s.values);
    if |Forward(s).history| == |s.history| {
      assert FillLog(s.values, cs, CellCount) == [];
      FillLogEmpty(s.values, cs);
    }
  }

  /** A forward step on a full grid changes nothing but the lists, reports
      no contradiction and leaves no cell for a hypothesis. */
  lemma ForwardIdle(s: GridState)
    requires Full(s)
    ensures Forward(s).values == s.values && Forward(s).history == s.history && Forward(s).isPossible
    ensures Pick(Forward(s).candidates, s.hypotheses, FirstCell) == 81
  {
    FullGridIdle(s.values, PropagatedAll(s.values), s.hypotheses);
  }

  /** Revert, then propagate again: the recovery half of a `Solve` round. */
  function Recover(s: State): (t: State)
    requires Sized(s)
    ensures Sized(t)
  {
    UnwoundClears(s.values, s.history);
    var vals := Unwound(s.values, s.history);
    State(vals, PropagatedAll(vals), [], s.hypotheses, s.isPossible)
  }

  /** Recovery empties the log, zeroes exactly the logged cells, keeps the
      frames and the flag, and leaves the lists propagation computes. */
  lemma RecoverClears(s: GridState)
    ensures Recover(s).history == [] && Recover(s).hypotheses == s.hypotheses
    ensures Recover(s).isPossible == s.isPossible
    ensures forall j :: 0 <= j < 81 ==> Recover(s).values[j] == if j in s.history then 0 else s.values[j]
    ensures Recover(s).candidates == PropagatedAll(Recover(s).values)
  {
    UnwoundClears(s.values, s.history);
  }

  /** `makeHypothesis` on a state: prune the scanned cells, then commit the
      picked cell's first remaining candidate, if a cell was picked. */
  function Hypothesize(s: State): (t: State)
    requires Sized(s)
    ensures Sized(t)
  {
    var c := Pick(s.candidates, s.hypotheses, FirstCell);
    var cs := PrunedBelow(s.candidates, s.hypotheses, if c < 81 then c + 1 else 81);
    if c < 81 then
      var v := Pruned(s.candidates, s.hypotheses, c)[0];
      State(s.values[c := v], cs, s.history + [c], Recorded(s.hypotheses, c, v), true)
    else
      s.(candidates := cs)
  }

  /** A hypothesis is made exactly when a cell is picked, and then one
      cell is logged; otherwise only the lists change. */
  lemma HypothesizeLogs(s: GridState)
    ensures Pick(s.candidates, s.hypotheses, FirstCell) < 81 <==> |Hypothesize(s).history| == |s.history| + 1
    ensures Pick(s.candidates, s.hypotheses, FirstCell) == 81 ==>
              Hypothesize(s).values == s.values && Hypothesize(s).history == s.history
              && Hypothesize(s).hypotheses == s.hypotheses && Hypothesize(s).isPossible == s.isPossible
  {
  }

  /** One round of `Solve`, and whether it ends the loop. A round that logs
      new cells without a contradiction stops there; otherwise, after a
      revert if the pass hit a contradiction, a hypothesis is made, and the
      loop ends when the grid is then impossible. */
  function RoundStep(s: GridState): (r: (GridState, bool))
    ensures r.1 <==> !r.0.isPossible
  {
    var f := Forward(s);
    if f.isPossible && |f.history| != |s.history| then (f, false)
    else
      var t := Hypothesize(if f.isPossible then f else Recover(f));
      (t, !t.isPossible)
  }

  /** `step` sets its flag exactly when it leaves the grid impossible. */
  ghost predicate Flagged(step: GridState -> (GridState, bool))
  {
    forall t: GridState :: (step(t).1 <==> !step(t).0.isPossible)
  }

  /** `step` keeps every value that is not logged. */
  ghost predicate Keeping(step: GridState -> (GridState, bool))
  {
    forall t: GridState :: KeptFrom(t.values, t.history, step(t).0.values, step(t).0.history)
  }

  /** A possible grid whose every cell holds a value. */
  predicate Full(t: GridState)
  {
    t.isPossible && forall j :: 0 <= j < 81 ==> t.values[j] != 0
  }

  /** `step` leaves the values, the log and the flag of a full grid as they are. */
  ghost predicate Idle(step: GridState -> (GridState, bool))
  {
    forall t: GridState :: Full(t) ==>
      step(t).0.values == t.values && step(t).0.history == t.history
      && step(t).0.isPossible && !step(t).1
  }

  /** A round keeps every value that is not logged. */
  lemma RoundKeeps(s: GridState)
    ensures KeptFrom(s.values, s.history, RoundStep(s).0.values, RoundStep(s).0.history)
  {
    var f := Forward(s);
    ForwardKeeps(s);
    if !(f.isPossible && |f.history| != |s.history|) {
      var b := if f.isPossible then f else Recover(f);
      if !f.isPossible {
        UnwoundKeeps(f.values, f.history);
        assert KeptFrom(f.values, f.history, b.values, b.history);
      } else {
        ForwardSettled(s);
      }
      assert b.candidates == PropagatedAll(b.values);
      var c := Pick(b.candidates, b.hypotheses, FirstCell);
      if c < 81 {
        HypothesisKeeps(b.values, b.candidates, b.hypotheses, b.history, c,
                        Pruned(b.candidates, b.hypotheses, c)[0]);
      }
      assert KeptFrom(b.values, b.history, RoundStep(s).0.values, RoundStep(s).0.history);
    }
  }

  /** A round on a full grid changes no value, logs nothing and ends possible. */
  lemma RoundIdle(s: GridState)
    requires Full(s)
    ensures RoundStep(s).0.values == s.values && RoundStep(s).0.history == s.history
    ensures RoundStep(s).0.isPossible && !RoundStep(s).1
  {
    ForwardIdle(s);
  }

  /** The round of `Solve` flags exactly the impossible grids, keeps
      unlogged values, and leaves full grids alone. */
  lemma RoundStepProperties()
    ensures Flagged(RoundStep) && Keeping(RoundStep) && Idle(RoundStep)
  {
    forall t: GridState
      ensures KeptFrom(t.values, t.history, RoundStep(t).0.values, RoundStep(t).0.history)
    {
      RoundKeeps(t);
    }
    forall t: GridState | Full(t)
      ensures RoundStep(t).0.values == t.values && RoundStep(t).0.history == t.history
              && RoundStep(t).0.isPossible && !RoundStep(t).1
    {
      RoundIdle(t);
    }
  }

  /** The state after `k` rounds of `step`. */
  function Rounds<S>(step: S -> (S, bool), s: S, k: nat): S
  {
    if k == 0 then s else step(Rounds(step, s, k - 1)).0
  }

  /** `Solve` stops after this many rounds at the latest. */
  const RoundLimit: nat := 100

  /** The `Solve` loop from round `counter` on: the final state and the
      number of rounds run. A round whose flag is set ends the loop, and so
      does round `RoundLimit`. */
  function Run<S>(step: S -> (S, bool), s: S, counter: nat): (r: (S, nat))
    requires counter < RoundLimit
    ensures counter < r.1 <= RoundLimit
    decreases RoundLimit - counter
  {
    var next := step(s);
    if next.1 || counter + 1 == RoundLimit then (next.0, counter + 1)
    else Run(step, next.0, counter + 1)
  }

  /** The run from round `n` ends in the state after `r` rounds; no round
      from `n` up to the last one set its flag, and the last one did unless
      the limit was reached. */
  lemma {:induction false} RunFrom<S>(step: S -> (S, bool), s: S, n: nat)
    requires n < RoundLimit
    ensures var r := Run(step, Rounds(step, s, n), n);
            && r.0 == Rounds(step, s, r.1)
            && (forall k :: n <= k < r.1 - 1 ==> !step(Rounds(step, s, k)).1)
            && (r.1 < RoundLimit ==> step(Rounds(step, s, r.1 - 1)).1)
    decreases RoundLimit - n
  {
    var t := Rounds(step, s, n);
    var next := step(t);
    assert Rounds(step, s, n + 1) == next.0;
    if !next.1 && n + 1 < RoundLimit {
      assert Run(step, t, n) == Run(step, next.0, n + 1);
      RunFrom(step, s, n + 1);
    }
  }

  /** A run ends after the first round that leaves the grid impossible, or
      after `RoundLimit` rounds, and every earlier round left it possible. */
  lemma StopsAtFirstImpossible(step: GridState -> (GridState, bool), s: GridState)
    requires Flagged(step)
    ensures var r := Run(step, s, 0);
            && r.0 == Rounds(step, s, r.1)
            && (forall k :: 0 < k < r.1 ==> Rounds(step, s, k).isPossible)
            && (r.1 < RoundLimit ==> !r.0.isPossible)
  {
    RunFrom(step, s, 0);
    var r := Run(step, s, 0);
    forall k | 0 < k < r.1 ensures Rounds(step, s, k).isPossible {
      assert Rounds(step, s, k) == step(Rounds(step, s, k - 1)).0;
    }
    if r.1 < RoundLimit {
      assert r.0 == step(Rounds(step, s, r.1 - 1)).0;
    }
  }

  /** A run keeps every value that is not logged at its start. */
  lemma {:induction false} RunKeeps(step: GridState -> (GridState, bool), s: GridState, counter: nat)
    requires Keeping(step) && counter < RoundLimit
    ensures KeptFrom(s.values, s.history, Run(step, s, counter).0.values, Run(step, s, counter).0.history)
    decreases RoundLimit - counter
  {
    var next := step(s);
    assert KeptFrom(s.values, s.history, next.0.values, next.0.history);
    if !next.1 && counter + 1 < RoundLimit {
      RunKeeps(step, next.0, counter + 1);
      var r := Run<GridState>(step, next.0, counter + 1);
      KeptChain(s.values, s.history, next.0.values, next.0.history, r.0.values, r.0.history);
    }
  }

  /** A run from a full grid goes to the round limit and changes no value and no log entry. */
  lemma {:induction false} RunIdle(step: GridState -> (GridState, bool), s: GridState, counter: nat)
    requires Idle(step) && Full(s) && counter < RoundLimit
    ensures Run(step, s, counter).1 == RoundLimit
    ensures Run(step, s, counter).0.values == s.values && Run(step, s, counter).0.history == s.history
    decreases RoundLimit - counter
  {
    var next := step(s);
    assert next.0.values == s.values && next.0.history == s.history && next.0.isPossible && !next.1;
    if counter + 1 < RoundLimit {
      assert Full(next.0);
      RunIdle(step, next.0, counter + 1);
    }
  }

  /** `Solve` keeps every given value that is not logged. */
  lemma SolveKeeps(s: GridState)
    ensures KeptFrom(s.values, s.history, Run(RoundStep, s, 0).0.values, Run(RoundStep, s, 0).0.history)
  {
    RoundStepProperties();
    RunKeeps(RoundStep, s, 0);
  }

  /** `Solve` on a full grid runs every round and changes no value and no log entry. */
  lemma SolveIdle(s: GridState)
    requires Full(s)
    ensures Run(RoundStep, s, 0).1 == RoundLimit
    ensures Run(RoundStep, s, 0).0.values == s.values && Run(RoundStep, s, 0).0.history == s.history
  {
    RoundStepProperties();
    RunIdle(RoundStep, s, 0);
  }

  /** A run that reaches `s` at round `counter` and steps to `t`: it ends
      there when the flag is set or the limit is reached, and otherwise
      goes on from `t`. */
  lemma RunAdvance<S>(step: S -> (S, bool), s: S, counter: nat, t: S, stop: bool, target: (S, nat))
    requires counter < RoundLimit
    requires Run(step, s, counter) == target && step(s) == (t, stop)
    ensures stop || counter + 1 == RoundLimit ==> (t, counter + 1) == target
    ensures !stop && counter + 1 < RoundLimit ==> Run(step, t, counter + 1) == target
  {
  }

  /** `Solve` stops at the first round that leaves the grid impossible, or
      after `RoundLimit` rounds: the grid is the one after that many rounds,
      every earlier round left it possible, and one that stops early leaves
      it impossible. */
  lemma SolveStops(s: GridState)
    ensures var r := Run(RoundStep, s, 0);
            && r.0 == Rounds(RoundStep, s, r.1)
            && (forall k :: 0 < k < r.1 ==> Rounds(RoundStep, s, k).isPossible)
            && (r.1 < RoundLimit ==> !r.0.isPossible)
  {
    RoundStepProperties();
    StopsAtFirstImpossible(RoundStep, s);
  }

  /** `Grid`. */
  class Grid {
    var values: array<int>
    var candidates: array<seq<int>>
    /** Indices of the cells assigned so far, oldest first. */
    var history: seq<int>
    var hypotheses: seq<Hypothesis>
    var isPossible: bool

    /** 81 cells holding bytes; candidate lists ascending digits; the log names cells. */
    ghost predicate Valid()
      reads this, values, candidates
    {
      && values.Length == 81 && candidates.Length == 81
      && values != candidates as object
      && (forall i :: 0 <= i < 81 ==> 0 <= values[i] < 256)
      && (forall i :: 0 <= i < 81 ==> IsCandidateList(candidates[i]))
      && InGrid(history)
    }

    /** Every list is what propagation computes from the current values. */
    ghost predicate Propagates()
      reads this, values, candidates
      requires Valid()
    {
      candidates[..] == PropagatedAll(values[..])
    }

    /** The grid's state as a value. */
    ghost function Snapshot(): GridState
      reads this, values, candidates
      requires Valid()
    {
      State(values[..], candidates[..], history, hypotheses, isPossible)
    }

    /** `ParseGrid`: the given values, the full list 1..9 in every cell, an
        empty log, no frames, and the grid deemed solvable. */
    constructor ParseGrid(numbers: seq<int>)
      requires |numbers| == 81 && forall i :: 0 <= i < 81 ==> 0 <= numbers[i] < 256
      ensures Valid() && fresh(values) && fresh(candidates)
      ensures values[..] == numbers
      ensures forall i :: 0 <= i < 81 ==> candidates[i] == Digits
      ensures history == [] && hypotheses == [] && isPossible
    {
      var cells := new int[81];
      var lists := new seq<int>[81];
      for i := 0 to 81
        invariant forall j :: 0 <= j < i ==> cells[j] == numbers[j] && lists[j] == Digits
      {
        cells[i] := numbers[i];
        lists[i] := Digits;
      }
      values := cells;
      candidates := lists;
      history := [];
      hypotheses := [];
      isPossible := true;
      new;
      DigitsAscending();
    }

    /** The list `updatePossibleValues` builds for cell `i`. */
    method CellCandidates(i: int) returns (list: seq<int>)
      requires Valid() && 0 <= i < 81
      ensures list == Propagated(values[..], i)
    {
      ghost var vals := values[..];
      list := Digits;
      ghost var struck: set<int> := {};
      WithoutNothing(Digits);
      if values[i] != 0 {
        assert list == Without(Digits, DigitsBelow(1)) by {
          DigitsBelowStep(1);
        }
        for j := 1 to 10
          invariant list == Without(Digits, DigitsBelow(j))
        {
          list := RemoveElement(list, j);
          assert list == Without(Digits, DigitsBelow(j + 1)) by {
            DigitsAscending();
            RemoveFirstWithout(Digits, DigitsBelow(j), j);
            DigitsBelowStep(j);
          }
        }
        struck := DigitsBelow(10);
      }
      list := StrikePeers(i, list, struck);
      if values[i] != 0 {
        WithoutAllDigits(struck + PeerValues(vals, i));
      } else {
        assert struck + PeerValues(vals, i) == PeerValues(vals, i);
      }
    }

    /** The scan of `updatePossibleValues` over cell `i`'s line, column and
        box: it removes every value found there from `list`. */
    method StrikePeers(i: int, list: seq<int>, ghost struck: set<int>) returns (r: seq<int>)
      requires Valid() && 0 <= i < 81
      requires list == Without(Digits, struck)
      ensures r == Without(Digits, struck + PeerValues(values[..], i))
    {
      ghost var vals := values[..];
      r := list;
      var cellLine := GetLine(i);
      var cellColumn := GetColumn(i);
      var cellMiniGrid := MiniGrid(i);
      assert r == Without(Digits, struck + Struck(vals, i, 0)) by {
        StruckNone(vals, i);
        assert struck + Struck(vals, i, 0) == struck;
      }
      for j := 0 to 9
        invariant r == Without(Digits, struck + Struck(vals, i, j))
      {
        ghost var S := struck + Struck(vals, i, j);
        var a, b, c := values[cellLine[j]], values[cellColumn[j]], values[cellMiniGrid[j]];
        r := RemoveElement(r, a);
        r := RemoveElement(r, b);
        r := RemoveElement(r, c);
        assert r == Without(Digits, struck + Struck(vals, i, j + 1)) by {
          StrikeThree(S, a, b, c);
          StruckStep(vals, i, j);
          assert S + {a} + {b} + {c} == struck + Struck(vals, i, j + 1);
        }
      }
      StruckAll(vals, i);
    }

    /** `updatePossibleValues`: every list recomputed from the current values. */
    method UpdatePossibleValues()
      requires Valid()
      modifies candidates
      ensures Valid() && Propagates()
    {
      for i := 0 to 81
        invariant Valid()
        invariant forall j :: 0 <= j < i ==> candidates[j] == Propagated(values[..], j)
      {
        var list := CellCandidates(i);
        PropagatedMeaning(values[..], i);
        candidates[i] := list;
      }
      assert candidates[..] == PropagatedAll(values[..]);
    }

    /** The hidden-single tally over `region`: for each `k` in 0..8, how many
        of its cells list `k`. */
    method CountCandidates(region: seq<int>) returns (possibilities: seq<int>)
      requires Valid() && |region| == 9 && InGrid(region)
      ensures |possibilities| == 9
      ensures forall k :: 0 <= k < 9 ==> possibilities[k] == Tally(candidates[..], region, k)
    {
      var tally := new int[9](_ => 0);
      for j := 0 to 9
        invariant forall k :: 0 <= k < 9 ==> tally[k] == Tally(candidates[..], region[..j], k)
      {
        var poss := candidates[region[j]];
        for k := 0 to 9
          invariant forall m :: 0 <= m < 9 ==>
                      tally[m] == Tally(candidates[..], region[..j], m) + (if m < k && m in poss then 1 else 0)
        {
          var listed := Contains(poss, k);
          if listed {
            tally[k] := tally[k] + 1;
          }
        }
        assert region[..j + 1][..j] == region[..j];
      }
      assert region[..9] == region;
      possibilities := tally[..];
    }

    /** The hidden-single rule for cell `i` over `region`: every `k` in 0..8
        that exactly one cell of the region lists, and cell `i` lists, is
        assigned in turn and logged. */
    method HiddenSingle(i: int, region: seq<int>)
      requires Valid() && 0 <= i < 81 && |region| == 9 && InGrid(region)
      modifies values, this`history
      ensures Valid()
      ensures values[..] == old(values[..])[i := Settle(old(values[i]), Hidden(candidates[..], region, candidates[i], TallyEnd))]
      ensures history == old(history) + Repeat(i, |Hidden(candidates[..], region, candidates[i], TallyEnd)|)
    {
      ghost var cs := candidates[..];
      ghost var v0 := values[i];
      var possibilities := CountCandidates(region);
      for k := 0 to TallyEnd
        invariant Valid()
        invariant values[..] == old(values[..])[i := Settle(v0, Hidden(cs, region, cs[i], k))]
        invariant history == old(history) + Repeat(i, |Hidden(cs, region, cs[i], k)|)
      {
        var listed := Contains(candidates[i], k);
        if possibilities[k] == 1 && listed {
          values[i] := k;
          history := history + [i];
          RepeatAppend(i, |Hidden(cs, region, cs[i], k)|, 1);
        }
      }
    }

    /** The hidden-single rule for cell `i` over its box, then its column, then its line. */
    method HiddenSingles(i: int)
      requires Valid() && 0 <= i < 81
      modifies values, this`history
      ensures Valid()
      ensures values[..] == old(values[..])[i := Settle(old(values[i]), HiddenHits(candidates[..], i))]
      ensures history == old(history) + Repeat(i, |HiddenHits(candidates[..], i)|)
    {
      ghost var cs := candidates[..];
      ghost var v0 := values[i];
      ghost var h := history;
      ghost var b := Hidden(cs, MiniGrid(i), cs[i], TallyEnd);
      ghost var c := Hidden(cs, Column(i), cs[i], TallyEnd);
      ghost var l := Hidden(cs, Line(i), cs[i], TallyEnd);
      var cellMiniGrid := MiniGrid(i);
      HiddenSingle(i, cellMiniGrid);
      var cellColumn := GetColumn(i);
      HiddenSingle(i, cellColumn);
      SettleAppend(v0, b, c);
      RepeatSnoc(h, i, b, c);
      var cellLine := GetLine(i);
      HiddenSingle(i, cellLine);
      SettleAppend(v0, b + c, l);
      RepeatSnoc(h, i, b + c, l);
      assert candidates[..] == cs;
    }

    /** The first part of a `fillValues` step: the naked-single rule, then
        the contradiction check. */
    method NakedSingle(i: int)
      requires Valid() && 0 <= i < 81
      modifies values, this`history, this`isPossible
      ensures Valid()
      ensures values[..] == old(values[..])[i := Settle(old(values[i]), Naked(old(values[i]), candidates[i]))]
      ensures history == old(history) + Repeat(i, |Naked(old(values[i]), candidates[i])|)
      ensures isPossible == (old(isPossible) && !Contradiction(old(values[i]), candidates[i]))
    {
      if |candidates[i]| == 1 && values[i] == 0 {
        values[i] := candidates[i][0];
        history := history + [i];
      }
      if values[i] == 0 && |candidates[i]| == 0 {
        isPossible := false;
      }
    }

    /** One step of `fillValues`: naked single, contradiction check, then
        hidden singles. */
    method FillCell(i: int)
      requires Valid() && 0 <= i < 81
      modifies values, this`history, this`isPossible
      ensures Valid()
      ensures values[..] == old(values[..])[i := Settle(old(values[i]), Hits(old(values[i]), candidates[..], i))]
      ensures history == old(history) + Repeat(i, |Hits(old(values[i]), candidates[..], i)|)
      ensures isPossible == (old(isPossible) && !Contradiction(old(values[i]), candidates[i]))
    {
      ghost var cs, vals, h := candidates[..], values[..], history;
      ghost var v0 := values[i];
      ghost var n, hh := Naked(v0, cs[i]), HiddenHits(cs, i);
      NakedSingle(i);
      ghost var mid := values[..];
      assert mid == vals[i := Settle(v0, n)];
      HiddenSingles(i);
      assert candidates[..] == cs;
      assert Hits(v0, cs, i) == n + hh;
      assert values[..] == vals[i := Settle(v0, n + hh)] by {
        SettleAppend(v0, n, hh);
        assert values[..] == mid[i := Settle(Settle(v0, n), hh)];
      }
      assert history == h + Repeat(i, |n + hh|) by {
        RepeatSnoc(h, i, n, hh);
      }
    }

    /** `fillValues`: one pass over the 81 cells. */
    method FillValues()
      requires Valid()
      modifies values, this`history, this`isPossible
      ensures Valid()
      ensures values[..] == FilledValues(old(values[..]), candidates[..])
      ensures history == old(history) + FillLog(old(values[..]), candidates[..], CellCount)
      ensures isPossible == (old(isPossible) && Consistent(old(values[..]), candidates[..]))
    {
      ghost var vals := values[..];
      ghost var cs := candidates[..];
      for i := 0 to 81
        invariant Valid()
        invariant values[..] == FilledBelow(vals, cs, i)
        invariant history == old(history) + FillLog(vals, cs, i)
        invariant isPossible == (old(isPossible) && forall j :: 0 <= j < i ==> !Contradiction(vals[j], cs[j]))
      {
        FillCell(i);
        assert candidates[..] == cs;
        FillStep(vals, cs, old(history), i);
      }
      FilledBelowFrames(vals, cs, 81);
    }

    /** The scan over frames in `makeHypothesis` for the two-candidate cell
        `i`: every digit a frame of `i` tested is struck from its list, and
        the last such frame is returned (-1 when there is none). */
    method PruneTested(i: int) returns (alreadyConsidered: int)
      requires Valid() && 0 <= i < 81 && |candidates[i]| == 2
      modifies candidates
      ensures Valid()
      ensures candidates[..] == old(candidates[..])[i := Pruned(old(candidates[..]), hypotheses, i)]
      ensures alreadyConsidered == LastFrameUpTo(hypotheses, i, |hypotheses|)
    {
      ghost var cs := candidates[..];
      ghost var c0 := candidates[i];
      WithoutNothing(c0);
      alreadyConsidered := -1;
      for k := 0 to |hypotheses|
        invariant candidates[..] == cs[i := Without(c0, TestedUpTo(hypotheses, i, k))]
        invariant alreadyConsidered == LastFrameUpTo(hypotheses, i, k)
      {
        if hypotheses[k].cellIndex == i {
          alreadyConsidered := k;
          ghost var before := TestedUpTo(hypotheses, i, k);
          StrikeTested(i, hypotheses[k].valuesTested, c0, before);
          assert before + TestedBelow(hypotheses[k].valuesTested, 10) == TestedUpTo(hypotheses, i, k + 1);
        } else {
          assert TestedUpTo(hypotheses, i, k) == TestedUpTo(hypotheses, i, k + 1);
        }
      }
      CandidateListWithout(c0, Tested(hypotheses, i));
    }

    /** The inner scan of `makeHypothesis` over the digits 1..9 for a frame
        that tested `vt`: each digit in `vt` is removed from cell `i`'s list,
        which is the ascending list `c0` filtered by `before`. */
    method StrikeTested(i: int, vt: seq<int>, ghost c0: seq<int>, ghost before: set<int>)
      requires candidates.Length == 81 && 0 <= i < 81 && Ascending(c0)
      requires candidates[i] == Without(c0, before)
      modifies candidates
      ensures candidates[..] == old(candidates[..])[i := Without(c0, before + TestedBelow(vt, 10))]
    {
      assert before + TestedBelow(vt, 1) == before;
      for j := 1 to 10
        invariant candidates[..] == old(candidates[..])[i := Without(c0, before + TestedBelow(vt, j))]
      {
        ghost var struck := before + TestedBelow(vt, j);
        var tested := Contains(vt, j);
        if tested {
          RemoveFirstWithout(c0, struck, j);
          var pruned := RemoveElement(candidates[i], j);
          candidates[i] := pruned;
          assert struck + {j} == before + TestedBelow(vt, j + 1);
        } else {
          assert struck == before + TestedBelow(vt, j + 1);
        }
      }
    }

    /** The commitment step of `makeHypothesis` on cell `i`: its first
        candidate becomes its value, the cell is logged, the frame
        `alreadyConsidered` (the last one of `i`, if any) records the value,
        a new frame is appended, and the grid is deemed solvable again. */
    method Commit(i: int, alreadyConsidered: int)
      requires Valid() && 0 <= i < 81 && |candidates[i]| > 0
      requires alreadyConsidered == LastFrameUpTo(hypotheses, i, |hypotheses|)
      modifies values, this`history, this`hypotheses, this`isPossible
      ensures Valid()
      ensures values[..] == old(values[..])[i := candidates[i][0]]
      ensures history == old(history) + [i]
      ensures hypotheses == Recorded(old(hypotheses), i, candidates[i][0])
      ensures isPossible
    {
      var newValue := candidates[i][0];
      values[i] := newValue;
      history := history + [i];
      if alreadyConsidered >= 0 {
        hypotheses := hypotheses[alreadyConsidered :=
          hypotheses[alreadyConsidered].(valuesTested := hypotheses[alreadyConsidered].valuesTested + [newValue])];
      }
      hypotheses := hypotheses + [Hypothesis([newValue], i)];
      isPossible := true;
    }

    /** The scan of `makeHypothesis`: cells are visited in order, each
        two-candidate cell loses its tested values, and the scan stops at the
        first cell left with a candidate (81 when there is none), returning
        it with the last frame of that cell. */
    method ScanCells() returns (i: int, alreadyConsidered: int)
      requires Valid()
      modifies candidates
      ensures Valid()
      ensures i == Pick(old(candidates[..]), hypotheses, FirstCell)
      ensures candidates[..] == PrunedBelow(old(candidates[..]), hypotheses, if i < 81 then i + 1 else 81)
      ensures i < 81 ==> alreadyConsidered == LastFrameUpTo(hypotheses, i, |hypotheses|)
    {
      ghost var cs := candidates[..];
      i := 0;
      alreadyConsidered := -1;
      while i < 81
        invariant 0 <= i <= 81
        invariant Valid()
        invariant candidates[..] == PrunedBelow(cs, hypotheses, i)
        invariant forall j :: 0 <= j < i ==> !Eligible(cs, hypotheses, j)
      {
        ghost var before := candidates[..];
        if |candidates[i]| == 2 {
          alreadyConsidered := PruneTested(i);
          assert candidates[..] == PrunedBelow(cs, hypotheses, i + 1) by {
            assert candidates[..] == before[i := Pruned(cs, hypotheses, i)];
          }
          if |candidates[i]| > 0 {
            assert Pick(cs, hypotheses, FirstCell) == i by {
              assert Eligible(cs, hypotheses, i);
            }
            return;
          }
        } else {
          assert candidates[..] == PrunedBelow(cs, hypotheses, i + 1) by {
            assert candidates[..] == before[i := Pruned(cs, hypotheses, i)];
          }
        }
        i := i + 1;
      }
      assert Pick(cs, hypotheses, FirstCell) == 81;
    }

    /** `makeHypothesis`: the first two-candidate cell that still has an
        untested candidate is set to its first one; every two-candidate cell
        scanned on the way loses its tested values. */
    method MakeHypothesis()
      requires Valid()
      modifies values, candidates, this`history, this`hypotheses, this`isPossible
      ensures Valid()
      ensures var c := Pick(old(candidates[..]), old(hypotheses), FirstCell);
              candidates[..] == PrunedBelow(old(candidates[..]), old(hypotheses), if c < 81 then c + 1 else 81)
      ensures var c := Pick(old(candidates[..]), old(hypotheses), FirstCell);
              c < 81 ==>
                var v := Pruned(old(candidates[..]), old(hypotheses), c)[0];
                && values[..] == old(values[..])[c := v]
                && history == old(history) + [c]
                && hypotheses == Recorded(old(hypotheses), c, v)
                && isPossible
      ensures Pick(old(candidates[..]), old(hypotheses), FirstCell) == 81 ==>
                values[..] == old(values[..]) && history == old(history)
                && hypotheses == old(hypotheses) && isPossible == old(isPossible)
      ensures old(candidates[..]) == PropagatedAll(old(values[..])) ==>
                KeptFrom(old(values[..]), old(history), values[..], history)
      ensures Snapshot() == Hypothesize(old(Snapshot()))
    {
      ghost var cs, vals := candidates[..], values[..];
      var i, alreadyConsidered := ScanCells();
      ghost var scanned := candidates[..];
      if i < 81 {
        assert candidates[i] == Pruned(cs, hypotheses, i);
        Commit(i, alreadyConsidered);
        assert candidates[..] == scanned;
        HypothesisKeeps(vals, cs, old(hypotheses), old(history), i, values[i]);
      }
    }

    /** `revertLastHypothesis`: walks the log from its end, zeroing each
        named cell and cutting the log, until a stop cell is met. The stop
        list is filled by a loop of zero rounds, so it is empty and the whole
        log is undone. */
    method RevertLastHypothesis()
      requires Valid()
      modifies values, this`history
      ensures Valid()
      ensures history == []
      ensures values[..] == Unwound(old(values[..]), old(history))
      ensures forall j :: 0 <= j < 81 ==> values[j] == if j in old(history) then 0 else old(values[j])
    {
      var listModifiedHypotheses: seq<int> := [];
      var i := |history| - 1;
      while i >= 0
        invariant i == |history| - 1
        invariant Valid()
        invariant Unwound(values[..], history) == Unwound(old(values[..]), old(history))
        decreases i + 1
      {
        ghost var before := values[..];
        values[history[i]] := 0;
        var cellIndex := history[i];
        assert values[..] == before[cellIndex := 0];
        history := history[..i];
        var reached := Contains(listModifiedHypotheses, cellIndex);
        if reached {
          break;
        }
        i := i - 1;
      }
      UnwoundClears(old(values[..]), old(history));
    }

    /** `checkCompletion`: no cell is unassigned. */
    method CheckCompletion() returns (test: bool)
      requires Valid()
      ensures test <==> forall i :: 0 <= i < 81 ==> values[i] != 0
    {
      test := true;
      for i := 0 to 81
        invariant test <==> forall j :: 0 <= j < i ==> values[j] != 0
      {
        if values[i] == 0 {
          test := false;
        }
      }
    }

    /** The forward step of a `Solve` round: propagate, then one fill pass.
        The new state is `Forward` of the old one; `ForwardKeeps`,
        `ForwardSettled` and `ForwardIdle` say what that keeps. */
    method PropagateAndFill()
      requires Valid()
      modifies values, candidates, this`history, this`isPossible
      ensures Valid()
      ensures candidates[..] == PropagatedAll(old(values[..]))
      ensures values[..] == FilledValues(old(values[..]), candidates[..])
      ensures history == old(history) + FillLog(old(values[..]), candidates[..], CellCount)
      ensures hypotheses == old(hypotheses)
      ensures isPossible == (old(isPossible) && Consistent(old(values[..]), candidates[..]))
      ensures Snapshot() == Forward(old(Snapshot()))
    {
      UpdatePossibleValues();
      FillValues();
    }

    /** The recovery step of a `Solve` round: revert, then propagate again.
        The logged cells are zeroed and the log ends empty, the other values
        are kept, and the lists are those propagation computes from the
        values left. The new state is `Recover` of the old one. */
    method Backtrack()
      requires Valid()
      modifies values, candidates, this`history
      ensures Valid() && Propagates()
      ensures values[..] == Unwound(old(values[..]), old(history))
      ensures candidates[..] == PropagatedAll(values[..])
      ensures history == [] && hypotheses == old(hypotheses) && isPossible == old(isPossible)
      ensures KeptFrom(old(values[..]), old(history), values[..], history)
      ensures Snapshot() == Recover(old(Snapshot()))
    {
      ghost var vals, h := values[..], history;
      RevertLastHypothesis();
      assert KeptFrom(vals, h, values[..], history) by {
        UnwoundKeeps(vals, h);
      }
      UpdatePossibleValues();
    }

    /** One round of `Solve`: propagate and fill; a contradiction reverts the
        log and re-propagates; a round without new log entries makes a
        hypothesis. It reports `stop` exactly when the grid is then
        impossible. The new state is `RoundStep` of the old one;
        `RoundKeeps` and `RoundIdle` say which values that keeps. */
    method Round() returns (stop: bool)
      requires Valid()
      modifies values, candidates, this`history, this`hypotheses, this`isPossible
      ensures Valid()
      ensures stop <==> !isPossible
      ensures (Snapshot(), stop) == RoundStep(old(Snapshot()))
    {
      stop := false;
      var currentMoves := |history|;
      PropagateAndFill();
      var newMoveNumber := |history|;
      if !isPossible {
        Backtrack();
        newMoveNumber := currentMoves;
      }
      if newMoveNumber - currentMoves == 0 {
        MakeHypothesis();
        if !isPossible {
          stop := true;
        }
      }
    }

    /** `Solve`: rounds until one reports `stop`, or 100 rounds. The final
        grid and the number of rounds are those of `Run` over `RoundStep`
        from the initial grid; `SolveStops`, `SolveKeeps` and `SolveIdle`
        say what that run does. */
    method Solve() returns (ghost rounds: nat)
      requires Valid()
      modifies values, candidates, this`history, this`hypotheses, this`isPossible
      ensures Valid()
      ensures 1 <= rounds <= 100
      ensures rounds < 100 ==> !isPossible
      ensures (Snapshot(), rounds) == Run(RoundStep, old(Snapshot()), 0)
    {
      ghost var s0 := Snapshot();
      ghost var target := Run(RoundStep, s0, 0);
      ghost var cur := Snapshot();
      var solved := false;
      var counter := 0;
      while !solved
        invariant Valid()
        invariant cur == Snapshot()
        invariant 0 <= counter <= 100
        invariant !solved ==> counter < 100
        invariant !solved ==> Run(RoundStep, cur, counter) == target
        invariant solved ==> (cur, counter) == target
        decreases 100 - counter
      {
        var stop;
        stop, cur := SolveRound(target, cur, counter);
        if stop {
          solved := true;
        }
        counter := counter + 1;
        if counter == 100 {
          solved := true;
        }
      }
      rounds := counter;
      SolveStops(s0);
    }

    /** One pass of the `Solve` loop body, with the run it belongs to: the
        grid `cur` at round `counter` is on the way to `target`, the result
        of the whole run. After the round, `target` is reached when `stop`
        is set or the limit is reached, and is otherwise the run from the
        new grid. */
    method SolveRound(ghost target: (GridState, nat), ghost cur: GridState, counter: nat) returns (stop: bool, ghost next: GridState)
      requires Valid() && counter < RoundLimit && cur == Snapshot()
      requires Run(RoundStep, cur, counter) == target
      modifies values, candidates, this`history, this`hypotheses, this`isPossible
      ensures Valid() && next == Snapshot()
      ensures stop <==> !isPossible
      ensures stop || counter + 1 == RoundLimit ==> (next, counter + 1) == target
      ensures !stop && counter + 1 < RoundLimit ==> Run(RoundStep, next, counter + 1) == target
    {
      stop := Round();
      next := Snapshot();
      RunAdvance(RoundStep, cur, counter, next, stop, target);
    }
  }
}
