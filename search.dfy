/** The driver: repeated propagation until it stalls, and the depth-first
    search that fixes one box and recurses. */
module Solver {
  import opened Lists
  import opened Topology
  import opened Candidates
  import opened BoardState
  import opened Rules

  /** What reduce_puzzle and search produce: a board, `False` (some box has
      no candidate left), or the IndexError that naked_twins can raise. */
  datatype Outcome = Done(values: Board) | Unsolvable | IndexError

  /** `[box for box in values.keys() if len(values[box]) == 0]`. */
  function EmptyBoxes(values: Board): (r: seq<Cell>)
    requires Total(values)
    ensures forall c :: c in r <==> c in Boxes() && values[c] == []
  {
    Select(Boxes(), c => c in values && |values[c]| == 0)
  }

  /** The list of empty boxes is non-empty exactly when some box is empty. */
  lemma EmptyBoxesExact(values: Board)
    requires Total(values)
    ensures EmptyBoxes(values) != [] <==> HasEmpty(values)
  {
    BoxesComplete();
    if HasEmpty(values) {
      var c: Cell :| values[c] == [];
      assert c in EmptyBoxes(values);
    }
    if EmptyBoxes(values) != [] {
      var r := EmptyBoxes(values);
      assert r[0] in r;
    }
  }

  /** reduce_puzzle: one pass applies eliminate, only_choice and naked_twins;
      passes repeat until one leaves the number of solved boxes unchanged.  A
      pass that empties a box gives Unsolvable.  A board returned as Done has
      no empty box, and if every box is solved, no two peers share a digit. */
  method ReducePuzzle(values: Board, trace: seq<Board>) returns (r: Outcome, values': Board, trace': seq<Board>)
    requires Total(values)
    ensures Advanced(trace, trace', values, values')
    ensures r.Done? ==> r.values == values' && !HasEmpty(values') && (AllSolved(values') ==> NoConflict(values'))
    ensures r.Unsolvable? ==> HasEmpty(values')
    ensures r.Done? ==> KeepsSolutions(values, values')
    ensures r.Unsolvable? ==> forall sol :: !Admits(values, sol)
  {
    values', trace' := values, trace;
    RefinesRefl(values);
    TraceGrowsRefl(trace, values);
    KeepsSolutionsRefl(values);
    var stalled := false;
    while !stalled
      invariant Advanced(trace, trace', values, values')
      invariant KeepsSolutions(values, values')
      invariant stalled ==> !HasEmpty(values') && (AllSolved(values') ==> NoConflict(values'))
      decreases !stalled, 81 - SolvedCount(values')
    {
      var solvedBefore := SolvedCount(values');
      ghost var start, traceStart := values', trace';
      values', trace' := Eliminate(values', trace');
      ghost var eliminated, traceEliminated := values', trace';
      values', trace' := OnlyChoice(values', trace');
      ghost var chosen, traceChosen := values', trace';
      var ok;
      ok, values', trace' := NakedTwins(values', trace');
      PassAdvances(values, trace, start, traceStart, eliminated, traceEliminated, chosen, traceChosen, values', trace');
      if !ok {
        return IndexError, values', trace';
      }
      PassKeepsSolutions(values, start, eliminated, chosen, values');
      var solvedAfter := SolvedCount(values');
      stalled := solvedBefore == solvedAfter;
      EmptyBoxesExact(values');
      if EmptyBoxes(values') != [] {
        EmptyAdmitsNone(values');
        return Unsolvable, values', trace';
      }
      RefinesTrans(values', eliminated, start);
      SolvedCountMonotone(start, values');
      if stalled {
        StalledSound(start, eliminated, values');
      }
    }
    r := Done(values');
  }

  /** Chaining the three strategies of one pass. */
  lemma PassAdvances(values: Board, trace: seq<Board>, start: Board, traceStart: seq<Board>,
                     eliminated: Board, traceEliminated: seq<Board>, chosen: Board, traceChosen: seq<Board>,
                     after: Board, traceAfter: seq<Board>)
    requires Advanced(trace, traceStart, values, start)
    requires Advanced(traceStart, traceEliminated, start, eliminated)
    requires Advanced(traceEliminated, traceChosen, eliminated, chosen)
    requires Advanced(traceChosen, traceAfter, chosen, after)
    ensures Refines(after, eliminated) && Advanced(trace, traceAfter, values, after)
  {
    RefinesTrans(after, chosen, eliminated);
    RefinesTrans(chosen, eliminated, start);
    RefinesTrans(after, chosen, start);
    RefinesTrans(after, start, values);
    TraceGrowsTrans(traceStart, traceEliminated, traceChosen, start, eliminated, chosen);
    TraceGrowsTrans(traceStart, traceChosen, traceAfter, start, chosen, after);
    TraceGrowsTrans(trace, traceStart, traceAfter, values, start, after);
  }

  /** Chaining the solution-preservation of the three strategies of one pass. */
  lemma PassKeepsSolutions(values: Board, start: Board, eliminated: Board, chosen: Board, after: Board)
    requires KeepsSolutions(values, start) && KeepsSolutions(start, eliminated)
    requires KeepsSolutions(eliminated, chosen) && KeepsSolutions(chosen, after)
    ensures KeepsSolutions(values, after)
  {
    KeepsSolutionsTrans(values, start, eliminated);
    KeepsSolutionsTrans(values, eliminated, chosen);
    KeepsSolutionsTrans(values, chosen, after);
  }

  /** A pass that solves no new box and empties none cannot turn a board with
      two peers sharing a digit into a fully solved one: eliminate would have
      emptied a box. */
  lemma StalledSound(start: Board, eliminated: Board, after: Board)
    requires Refines(eliminated, start) && Refines(after, eliminated) && !HasEmpty(after)
    requires !NoConflict(start) ==> HasEmpty(eliminated)
    requires forall c: Cell :: |after[c]| == 1 ==> |start[c]| == 1
    ensures AllSolved(after) ==> NoConflict(after)
  {
    if AllSolved(after) {
      RefinesTrans(after, eliminated, start);
      if !NoConflict(start) {
        EmptyStays(after, eliminated);
      }
      forall c: Cell ensures after[c] == start[c] {
        SolvedStays(after, start, c);
      }
    }
  }

  // ---------------------------------------------------------------------
  // Choosing the box to branch on

  /** Python's order on the pairs `(len(values[s]), s)`. */
  predicate KeyLess(values: Board, a: Cell, b: Cell): (r: bool)
    requires a in values && b in values
    ensures r <==> |values[a]| < |values[b]| ||
                   (|values[a]| == |values[b]| && (a.row < b.row || (a.row == b.row && a.col < b.col)))
  {
    NameOrder(a, b);
    |values[a]| < |values[b]| || (|values[a]| == |values[b]| && StrLess(Name(a), Name(b)))
  }

  lemma KeyLessTrans(values: Board, a: Cell, b: Cell, c: Cell)
    requires Total(values) && KeyLess(values, a, b) && KeyLess(values, b, c)
    ensures KeyLess(values, a, c)
  {
    NameOrder(a, b);
    NameOrder(b, c);
    NameOrder(a, c);
  }

  /** Distinct boxes are always ordered one way or the other. */
  lemma KeyLessTotal(values: Board, a: Cell, b: Cell)
    requires Total(values) && a != b
    ensures KeyLess(values, a, b) || KeyLess(values, b, a)
  {
    NameOrder(a, b);
    NameOrder(b, a);
  }

  /** `min((len(values[s]), s) for s in boxes if len(values[s]) > 1)`: the
      unsolved box with fewest candidates, the first by name among equals. */
  method SelectBranchCell(values: Board) returns (s: Cell)
    requires Total(values) && exists c: Cell :: |values[c]| > 1
    ensures |values[s]| > 1
    ensures forall t: Cell :: |values[t]| > 1 && t != s ==> KeyLess(values, s, t)
  {
    var boxes := Boxes();
    BoxesRowMajor();
    BoxesComplete();
    var found := false;
    ghost var at := 0;
    s := boxes[0];
    for i := 0 to |boxes|
      invariant BranchInvariant(values, boxes, i, found, s, at)
    {
      var c := boxes[i];
      if |values[c]| > 1 {
        if !found {
          FirstUnsolved(values, boxes, i, s, at);
          found, s, at := true, c, i;
        } else if KeyLess(values, c, s) {
          LeastReplaced(values, boxes, i, s, at);
          s, at := c, i;
        } else {
          LeastKept(values, boxes, i, s, at);
        }
      } else {
        SolvedSkipped(values, boxes, i, found, s, at);
      }
    }
    BranchCellDone(values, boxes, s, found);
  }

  /** The loop invariant of SelectBranchCell after looking at `boxes[..i]`:
      either the least unsolved box so far is `s`, found at `at`, or there is
      none yet. */
  ghost predicate BranchInvariant(values: Board, boxes: seq<Cell>, i: int, found: bool, s: Cell, at: int)
    requires Total(values)
  {
    0 <= i <= |boxes| &&
    (found ==> 0 <= at < i && boxes[at] == s && |values[s]| > 1 && LeastSoFar(values, boxes, i, s)) &&
    (!found ==> NoneUnsolved(values, boxes, i))
  }

  lemma SolvedSkipped(values: Board, boxes: seq<Cell>, i: int, found: bool, s: Cell, at: int)
    requires Total(values) && 0 <= i < |boxes| && BranchInvariant(values, boxes, i, found, s, at)
    requires |values[boxes[i]]| <= 1
    ensures BranchInvariant(values, boxes, i + 1, found, s, at)
  {
  }

  lemma FirstUnsolved(values: Board, boxes: seq<Cell>, i: int, s: Cell, at: int)
    requires Total(values) && 0 <= i < |boxes| && BranchInvariant(values, boxes, i, false, s, at)
    requires |values[boxes[i]]| > 1
    ensures BranchInvariant(values, boxes, i + 1, true, boxes[i], i)
  {
  }

  lemma LeastKept(values: Board, boxes: seq<Cell>, i: int, s: Cell, at: int)
    requires Total(values) && 0 <= i < |boxes| && BranchInvariant(values, boxes, i, true, s, at)
    requires Distinct(boxes) && |values[boxes[i]]| > 1 && !KeyLess(values, boxes[i], s)
    ensures BranchInvariant(values, boxes, i + 1, true, s, at)
  {
    assert boxes[i] != s;
    KeyLessTotal(values, boxes[i], s);
  }

  lemma LeastReplaced(values: Board, boxes: seq<Cell>, i: int, s: Cell, at: int)
    requires Total(values) && 0 <= i < |boxes| && BranchInvariant(values, boxes, i, true, s, at)
    requires |values[boxes[i]]| > 1 && KeyLess(values, boxes[i], s)
    ensures BranchInvariant(values, boxes, i + 1, true, boxes[i], i)
  {
    LeastSoFarReplaced(values, boxes, i, s, boxes[i]);
  }

  /** Every box of `boxes[..i]` is solved or empty. */
  ghost predicate NoneUnsolved(values: Board, boxes: seq<Cell>, i: int)
    requires Total(values) && 0 <= i <= |boxes|
  {
    forall k :: 0 <= k < i ==> |values[boxes[k]]| <= 1
  }

  /** `s` comes first, in key order, among the unsolved boxes of `boxes[..i]`. */
  ghost predicate LeastSoFar(values: Board, boxes: seq<Cell>, i: int, s: Cell)
    requires Total(values) && 0 <= i <= |boxes|
  {
    forall k :: 0 <= k < i && |values[boxes[k]]| > 1 && boxes[k] != s ==> KeyLess(values, s, boxes[k])
  }

  /** A box ordered before the least so far becomes the least once it is counted. */
  lemma LeastSoFarReplaced(values: Board, boxes: seq<Cell>, i: int, s: Cell, c: Cell)
    requires Total(values) && 0 <= i < |boxes| && boxes[i] == c
    requires LeastSoFar(values, boxes, i, s) && KeyLess(values, c, s)
    ensures LeastSoFar(values, boxes, i + 1, c)
  {
    forall k | 0 <= k < i + 1 && |values[boxes[k]]| > 1 && boxes[k] != c
      ensures KeyLess(values, c, boxes[k])
    {
      if boxes[k] != s {
        KeyLessTrans(values, c, s, boxes[k]);
      }
    }
  }

  /** Once every box has been looked at, the least so far is the least. */
  lemma BranchCellDone(values: Board, boxes: seq<Cell>, s: Cell, found: bool)
    requires Total(values) && exists c: Cell :: |values[c]| > 1
    requires forall c: Cell :: c in boxes
    requires found ==> |values[s]| > 1 && LeastSoFar(values, boxes, |boxes|, s)
    requires !found ==> NoneUnsolved(values, boxes, |boxes|)
    ensures |values[s]| > 1
    ensures forall t: Cell :: |values[t]| > 1 && t != s ==> KeyLess(values, s, t)
  {
    var w: Cell :| |values[w]| > 1;
    assert w in boxes;
    var kw :| 0 <= kw < |boxes| && boxes[kw] == w;
    forall t: Cell | |values[t]| > 1 && t != s ensures KeyLess(values, s, t) {
      assert t in boxes;
      var kt :| 0 <= kt < |boxes| && boxes[kt] == t;
    }
  }

  // ---------------------------------------------------------------------
  // Search

  /** `all(len(values[s]) == 1 for s in boxes)`. */
  predicate EverySolved(values: Board): (r: bool)
    requires Total(values)
    ensures r <==> AllSolved(values)
  {
    BoxesComplete();
    forall c | c in Boxes() :: |values[c]| == 1
  }

  /** The trace grew from `t` to `t'` keeping its prefix, by snapshots that refine `from`. */
  ghost predicate TraceExtends(t: seq<Board>, t': seq<Board>, from: Board) {
    |t| <= |t'| && t'[..|t|] == t && forall k :: |t| <= k < |t'| ==> Refines(t'[k], from)
  }

  /** search: reduces the board; if it is solved, returns it; otherwise fixes
      the box chosen by SelectBranchCell to its first candidate, without going
      through AssignValue, and returns whatever the search of that board
      returns.  Other candidates are never tried.  A board returned as Done
      refines the input, has every box solved, and has no two peers sharing
      a digit; every snapshot recorded on the way lies between the input and
      that board. */
  method Search(values: Board, trace: seq<Board>) returns (r: Outcome, trace': seq<Board>)
    requires Total(values)
    ensures r.Done? ==> Refines(r.values, values) && AllSolved(r.values) && NoConflict(r.values)
    ensures r.Done? ==> TraceGrows(trace, trace', values, r.values)
    ensures TraceExtends(trace, trace', values)
    decreases TotalCandidates(values)
  {
    var reduced, after;
    reduced, after, trace' := ReducePuzzle(values, trace);
    if !reduced.Done? {
      return reduced, trace';
    }
    BoxesComplete();
    if EverySolved(after) {
      return reduced, trace';
    }
    var s := SelectBranchCell(after);
    var value := after[s][0];
    var newSudoku := after[s := [value]];
    BranchRefines(after, s, newSudoku);
    RefinesTrans(newSudoku, after, values);
    TotalCandidatesMonotone(after, newSudoku, s);
    TotalCandidatesMonotone(values, after, s);
    ghost var traceReduced := trace';
    r, trace' := Search(newSudoku, trace');
    if r.Done? {
      RefinesTrans(r.values, newSudoku, values);
      TraceGrowsChain(trace, traceReduced, trace', values, after, newSudoku, r.values);
    }
    TraceExtendsTrans(trace, traceReduced, trace', values, after, newSudoku);
  }

  /** Fixing a box to its first candidate deletes the others. */
  lemma BranchRefines(values: Board, s: Cell, values': Board)
    requires Total(values) && |values[s]| > 0 && values' == values[s := [values[s][0]]]
    ensures Refines(values', values) && |values'[s]| == 1
  {
    MemberIsSubsequence(values[s][0], values[s]);
    forall c: Cell ensures IsSubsequence(values'[c], values[c]) {
      SubsequenceRefl(values[c]);
    }
  }

  /** Two recorded phases with an untraced deletion between them: every
      snapshot lies between the first board and the last. */
  lemma TraceGrowsChain(t1: seq<Board>, t2: seq<Board>, t3: seq<Board>, a: Board, b: Board, c: Board, d: Board)
    requires TraceGrows(t1, t2, a, b) && Refines(b, a) && Refines(c, b)
    requires TraceGrows(t2, t3, c, d) && Refines(d, c)
    ensures TraceGrows(t1, t3, a, d)
  {
    assert t3[..|t1|] == t2[..|t2|][..|t1|];
    forall k | |t1| <= k < |t3| ensures Refines(t3[k], a) && Refines(d, t3[k]) {
      if k < |t2| {
        assert t3[k] == t2[k];
        RefinesTrans(d, c, b);
        RefinesTrans(d, b, t3[k]);
      } else {
        RefinesTrans(t3[k], c, b);
        RefinesTrans(t3[k], b, a);
      }
    }
  }

  lemma TraceExtendsTrans(t1: seq<Board>, t2: seq<Board>, t3: seq<Board>, a: Board, b: Board, c: Board)
    requires TraceGrows(t1, t2, a, b) && Refines(b, a) && Refines(c, b) && TraceExtends(t2, t3, c)
    ensures TraceExtends(t1, t3, a)
  {
    assert t3[..|t1|] == t2[..|t2|][..|t1|];
    forall k | |t1| <= k < |t3| ensures Refines(t3[k], a) {
      if k < |t2| {
        assert t3[k] == t2[k];
      } else {
        RefinesTrans(t3[k], c, b);
        RefinesTrans(t3[k], b, a);
      }
    }
  }
}
