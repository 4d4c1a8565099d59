/** The three constraint-propagation strategies: elimination, only choice and
    naked twins.  Each takes a board and the trace and returns the updated
    pair; every write goes through AssignValue. */
module Rules {
  import opened Lists
  import opened Topology
  import opened Candidates
  import opened BoardState

  // ---------------------------------------------------------------------
  // Elimination

  /** The boxes of `cells` hold their entry in `values` without `removed`; the others are as in `values`. */
  ghost predicate Stripped(values: Board, b: Board, cells: set<Cell>, removed: set<char>)
    requires Total(values) && Total(b)
  {
    forall c: Cell :: b[c] == if c in cells then Without(values[c], removed) else values[c]
  }

  /** One write of the inner loop of eliminate keeps its invariant. */
  lemma EliminatePeerStep(values: Board, trace: seq<Board>, before: Board, traceBefore: seq<Board>,
                          after: Board, traceAfter: seq<Board>, box: Cell, digit: string, rest: set<Cell>, peer: Cell)
    requires Total(values) && |digit| <= 1 && peer in rest && rest <= Peers(box)
    requires Advanced(trace, traceBefore, values, before)
    requires digit == [] ==> before == values
    requires |digit| == 1 ==> Stripped(values, before, Peers(box) - rest, {digit[0]})
    requires before[peer] == Replace(before[peer], digit) ==> after == before && traceAfter == traceBefore
    requires before[peer] != Replace(before[peer], digit) ==> after == before[peer := Replace(before[peer], digit)]
    requires |traceAfter| == |traceBefore| +
               (if before[peer] != Replace(before[peer], digit) && |Replace(before[peer], digit)| == 1 then 1 else 0)
    requires traceAfter[..|traceBefore|] == traceBefore
    requires |traceAfter| > |traceBefore| ==> traceAfter[|traceBefore|] == after
    ensures Advanced(trace, traceAfter, values, after)
    ensures digit == [] ==> after == values
    ensures |digit| == 1 ==> Stripped(values, after, Peers(box) - (rest - {peer}), {digit[0]})
  {
    AssignAdvances(values, trace, before, traceBefore, peer, Replace(before[peer], digit), after, traceAfter);
    if |digit| == 1 {
      assert digit == [digit[0]];
      StrippedStep(values, before, after, Peers(box) - rest, peer, digit[0]);
      assert Peers(box) - (rest - {peer}) == (Peers(box) - rest) + {peer};
    }
  }

  /** Clearing one more box keeps Stripped. */
  lemma StrippedStep(values: Board, before: Board, after: Board, done: set<Cell>, box: Cell, d: char)
    requires Total(values) && Total(before) && Total(after)
    requires Stripped(values, before, done, {d}) && box !in done
    requires after == before[box := Replace(before[box], [d])] || (after == before && before[box] == Replace(before[box], [d]))
    ensures Stripped(values, after, done + {box}, {d})
  {
    ReplaceChar(before[box], d);
  }

  /** The inner loop of eliminate: deletes the entry of `box` (at most one
      digit) from every peer of `box`, visiting the peers in any order. */
  method EliminateFrom(values: Board, trace: seq<Board>, box: Cell)
    returns (values': Board, trace': seq<Board>)
    requires Total(values) && |values[box]| <= 1
    ensures Advanced(trace, trace', values, values')
    ensures values[box] == [] ==> values' == values
    ensures |values[box]| == 1 ==> Stripped(values, values', Peers(box), {values[box][0]})
  {
    var digit := values[box];
    values', trace' := values, trace;
    RefinesRefl(values);
    TraceGrowsRefl(trace, values);
    var rest := Peers(box);
    while rest != {}
      invariant rest <= Peers(box)
      invariant Advanced(trace, trace', values, values')
      invariant digit == [] ==> values' == values
      invariant |digit| == 1 ==> Stripped(values, values', Peers(box) - rest, {digit[0]})
      decreases rest
    {
      var peer :| peer in rest;
      var cleaned := Replace(values'[peer], digit);
      ghost var before, traceBefore := values', trace';
      values', trace' := AssignValue(values', peer, cleaned, trace');
      EliminatePeerStep(values, trace, before, traceBefore, values', trace', box, digit, rest, peer);
      rest := rest - {peer};
    }
    assert Peers(box) - rest == Peers(box);
  }

  /** `[box for box in values.keys() if len(values[box]) == 1]`. */
  function SolvedBoxes(values: Board): (r: seq<Cell>)
    requires Total(values)
    ensures forall c :: c in r <==> c in Boxes() && |values[c]| == 1
    ensures forall k :: 0 <= k < |r| ==> |values[r[k]]| == 1
  {
    Select(Boxes(), c => c in values && |values[c]| == 1)
  }

  /** Every candidate deleted from a box on the way from `values` to `b` is
      the digit of a peer that `values` shows solved. */
  ghost predicate RemovedBySolvedPeer(values: Board, b: Board)
    requires Total(values) && Total(b)
  {
    forall c: Cell, ch: char :: ch in values[c] && ch !in b[c] ==> HasSolvedPeer(values, c, ch)
  }

  /** Some peer of `c` is solved in `values` with the digit `ch`. */
  ghost predicate HasSolvedPeer(values: Board, c: Cell, ch: char)
    requires Total(values)
  {
    exists p :: ArePeers(p, c) && values[p] == [ch]
  }

  /** Every box solved in `values` still holds its digit in `b`. */
  ghost predicate KeepsSolved(values: Board, b: Board)
    requires Total(values) && Total(b)
  {
    forall c: Cell :: |values[c]| == 1 ==> b[c] == values[c]
  }

  /** The digits of the first `i` boxes of `solved` are gone from their peers in `b`. */
  ghost predicate Cleared(values: Board, b: Board, solved: seq<Cell>, i: int)
    requires Total(values) && Total(b) && 0 <= i <= |solved|
    requires forall k :: 0 <= k < |solved| ==> |values[solved[k]]| == 1
  {
    forall k :: 0 <= k < i ==> ClearedBy(b, solved[k], values[solved[k]][0])
  }

  /** No peer of `box` lists `d` in `b`. */
  ghost predicate ClearedBy(b: Board, box: Cell, d: char)
    requires Total(b)
  {
    forall p :: p in Peers(box) ==> d !in b[p]
  }

  /** One of the first `i` boxes of `solved` has a peer solved with the same digit. */
  ghost predicate ConflictSeen(values: Board, solved: seq<Cell>, i: int)
    requires Total(values) && 0 <= i <= |solved|
  {
    exists k, p: Cell :: 0 <= k < i && p in Peers(solved[k]) && |values[p]| == 1 && values[p] == values[solved[k]]
  }

  /** eliminate: for every box solved on entry, deletes its digit from its peers.
      On a board where no two peers share a solved digit, the solved boxes keep
      their digits and no peer of one still lists that digit; where two peers
      do share one, some box ends up empty. */
  method Eliminate(values: Board, trace: seq<Board>) returns (values': Board, trace': seq<Board>)
    requires Total(values)
    ensures Refines(values', values) && TraceGrows(trace, trace', values, values')
    ensures NoConflict(values) ==> forall c: Cell :: |values[c]| == 1 ==> values'[c] == values[c]
    ensures NoConflict(values) ==> forall c: Cell, p: Cell ::
              |values[c]| == 1 && p in Peers(c) ==> values[c][0] !in values'[p]
    ensures !NoConflict(values) ==> HasEmpty(values')
    ensures RemovedBySolvedPeer(values, values') && KeepsSolutions(values, values')
  {
    var solved := SolvedBoxes(values);
    values', trace' := values, trace;
    EliminateStart(values, trace, solved);
    for i := 0 to |solved|
      invariant EliminateInvariant(values, trace, values', trace', solved, i)
    {
      var box := solved[i];
      SolvedStays(values', values, box);
      ghost var before, traceBefore := values', trace';
      values', trace' := EliminateFrom(values', trace', box);
      EliminatePass(values, trace, before, traceBefore, values', trace', solved, i);
    }
    EliminateFinish(values, trace, values', trace', solved);
  }

  lemma EliminateStart(values: Board, trace: seq<Board>, solved: seq<Cell>)
    requires Total(values)
    requires forall k :: 0 <= k < |solved| ==> |values[solved[k]]| == 1
    ensures EliminateInvariant(values, trace, values, trace, solved, 0)
  {
    RefinesRefl(values);
    TraceGrowsRefl(trace, values);
  }

  /** After the last pass the invariant gives what eliminate promises. */
  lemma EliminateFinish(values: Board, trace: seq<Board>, after: Board, traceAfter: seq<Board>, solved: seq<Cell>)
    requires Total(values)
    requires forall c :: c in solved <==> c in Boxes() && |values[c]| == 1
    requires forall k :: 0 <= k < |solved| ==> |values[solved[k]]| == 1
    requires EliminateInvariant(values, trace, after, traceAfter, solved, |solved|)
    ensures Refines(after, values) && TraceGrows(trace, traceAfter, values, after)
    ensures NoConflict(values) ==> forall c: Cell :: |values[c]| == 1 ==> after[c] == values[c]
    ensures NoConflict(values) ==> forall c: Cell, p: Cell ::
              |values[c]| == 1 && p in Peers(c) ==> values[c][0] !in after[p]
    ensures !NoConflict(values) ==> HasEmpty(after)
    ensures RemovedBySolvedPeer(values, after) && KeepsSolutions(values, after)
  {
    EliminateDone(values, after, solved);
    EliminateKeepsSolutions(values, after);
  }

  /** The invariant of the outer loop of eliminate after `i` passes that led
      from `values` to `b`, with the trace grown from `t` to `t'`. */
  ghost predicate EliminateInvariant(values: Board, t: seq<Board>, b: Board, t': seq<Board>, solved: seq<Cell>, i: int)
    requires Total(values) && 0 <= i <= |solved|
    requires forall k :: 0 <= k < |solved| ==> |values[solved[k]]| == 1
  {
    Refines(b, values) && TraceGrows(t, t', values, b) && RemovedBySolvedPeer(values, b) &&
    (NoConflict(values) ==> KeepsSolved(values, b) && Cleared(values, b, solved, i)) &&
    (ConflictSeen(values, solved, i) ==> HasEmpty(b))
  }

  /** One pass of the outer loop of eliminate keeps its invariant. */
  lemma EliminatePass(values: Board, trace: seq<Board>, before: Board, traceBefore: seq<Board>,
                      after: Board, traceAfter: seq<Board>, solved: seq<Cell>, i: int)
    requires Total(values)
    requires forall k :: 0 <= k < |solved| ==> |values[solved[k]]| == 1
    requires 0 <= i < |solved|
    requires EliminateInvariant(values, trace, before, traceBefore, solved, i)
    requires before[solved[i]] == values[solved[i]] || before[solved[i]] == []
    requires Advanced(traceBefore, traceAfter, before, after)
    requires before[solved[i]] == [] ==> after == before
    requires |before[solved[i]]| == 1 ==> Stripped(before, after, Peers(solved[i]), {before[solved[i]][0]})
    ensures EliminateInvariant(values, trace, after, traceAfter, solved, i + 1)
  {
    RefinesTrans(after, before, values);
    TraceGrowsTrans(trace, traceBefore, traceAfter, values, before, after);
    if NoConflict(values) {
      assert |values[solved[i]]| == 1 && before[solved[i]] == values[solved[i]];
      EliminateStepKeeps(values, before, after, solved, i);
    }
    StepRemovedBySolvedPeer(values, before, after, solved[i]);
    ConflictStep(values, before, after, solved, i);
  }

  /** Clearing the digit of one box solved in `values` from its peers keeps
      every deletion explained by a solved peer. */
  lemma StepRemovedBySolvedPeer(values: Board, before: Board, after: Board, box: Cell)
    requires Refines(before, values) && Total(after) && |values[box]| == 1
    requires before[box] == values[box] || before[box] == []
    requires before[box] == [] ==> after == before
    requires |before[box]| == 1 ==> Stripped(before, after, Peers(box), {before[box][0]})
    requires RemovedBySolvedPeer(values, before)
    ensures RemovedBySolvedPeer(values, after)
  {
    forall c: Cell, ch: char | ch in values[c] && ch !in after[c]
      ensures HasSolvedPeer(values, c, ch)
    {
      if ch in before[c] {
        NewlyRemoved(values, before, after, box, c, ch);
      }
    }
  }

  /** A candidate first deleted by clearing `box` is box's digit, and box is a peer. */
  lemma NewlyRemoved(values: Board, before: Board, after: Board, box: Cell, c: Cell, ch: char)
    requires Total(values) && Total(before) && Total(after) && |values[box]| == 1
    requires before[box] == values[box] || before[box] == []
    requires before[box] == [] ==> after == before
    requires |before[box]| == 1 ==> Stripped(before, after, Peers(box), {before[box][0]})
    requires ch in before[c] && ch !in after[c]
    ensures ArePeers(box, c) && values[box] == [ch] && HasSolvedPeer(values, c, ch)
  {
    assert before[box] == values[box];
    StrippedDigit(before, after, box, c, ch);
    PeersCharacterization(box, c);
  }

  /** A candidate that clearing `box` deleted is box's digit, from a peer of box. */
  lemma StrippedDigit(before: Board, after: Board, box: Cell, c: Cell, ch: char)
    requires Total(before) && Total(after) && |before[box]| == 1
    requires Stripped(before, after, Peers(box), {before[box][0]})
    requires ch in before[c] && ch !in after[c]
    ensures c in Peers(box) && [ch] == before[box]
  {
    assert before[box] == [before[box][0]];
  }

  /** eliminate never deletes the digit a solution puts in a box: a deleted
      digit is held by a solved peer, and a solution gives peers different
      digits. */
  lemma EliminateKeepsSolutions(values: Board, after: Board)
    requires Total(values) && Total(after) && RemovedBySolvedPeer(values, after)
    ensures KeepsSolutions(values, after)
  {
    forall sol | Admits(values, sol) ensures Admits(after, sol) {
      EliminateKeepsSolution(values, after, sol);
    }
  }

  lemma EliminateKeepsSolution(values: Board, after: Board, sol: Board)
    requires Admits(values, sol) && Total(after) && RemovedBySolvedPeer(values, after)
    ensures Admits(after, sol)
  {
    forall c: Cell ensures sol[c][0] in after[c] {
      var ch := sol[c][0];
      forall p | ArePeers(p, c) ensures values[p] != [ch] {
        PeersCharacterization(c, p);
        assert sol[p] != sol[c];
        assert sol[p][0] in values[p] && sol[p] == [sol[p][0]] && sol[c] == [ch];
      }
      assert !HasSolvedPeer(values, c, ch);
    }
  }

  /** One pass of the outer loop of eliminate, from board `before` to `after`
      by clearing the entry of `solved[i]` from its peers: a conflict seen so
      far leaves an empty box. */
  lemma ConflictStep(values: Board, before: Board, after: Board, solved: seq<Cell>, i: int)
    requires Refines(before, values) && Refines(after, before)
    requires forall k :: 0 <= k < |solved| ==> |values[solved[k]]| == 1
    requires 0 <= i < |solved|
    requires before[solved[i]] == values[solved[i]] || before[solved[i]] == []
    requires before[solved[i]] == [] ==> after == before
    requires |before[solved[i]]| == 1 ==> Stripped(before, after, Peers(solved[i]), {before[solved[i]][0]})
    requires ConflictSeen(values, solved, i) ==> HasEmpty(before)
    ensures ConflictSeen(values, solved, i + 1) ==> HasEmpty(after)
  {
    if ConflictSeen(values, solved, i + 1) {
      var k, p: Cell :| 0 <= k < i + 1 && p in Peers(solved[k]) && |values[p]| == 1 && values[p] == values[solved[k]];
      if k < i {
        assert ConflictSeen(values, solved, i);
        EmptyStays(after, before);
      } else {
        EliminateStepConflict(values, before, after, solved[i], p);
      }
    }
  }

  /** Without conflicts, a pass keeps the solved boxes and clears one more digit. */
  lemma EliminateStepKeeps(values: Board, before: Board, after: Board, solved: seq<Cell>, i: int)
    requires Refines(before, values) && Refines(after, before)
    requires forall k :: 0 <= k < |solved| ==> |values[solved[k]]| == 1
    requires 0 <= i < |solved|
    requires NoConflict(values) && KeepsSolved(values, before) && Cleared(values, before, solved, i)
    requires before[solved[i]] == values[solved[i]]
    requires Stripped(before, after, Peers(solved[i]), {before[solved[i]][0]})
    ensures KeepsSolved(values, after) && Cleared(values, after, solved, i + 1)
  {
    StepKeepsSolved(values, before, after, solved[i]);
    StepClears(values, before, after, solved, i);
  }

  lemma StepKeepsSolved(values: Board, before: Board, after: Board, box: Cell)
    requires Refines(before, values) && Total(after) && |values[box]| == 1
    requires NoConflict(values) && KeepsSolved(values, before)
    requires Stripped(before, after, Peers(box), {before[box][0]})
    ensures KeepsSolved(values, after)
  {
    var d := values[box][0];
    assert values[box] == [d];
    forall c: Cell | |values[c]| == 1 ensures after[c] == values[c] {
      if c in Peers(box) {
        assert values[c] != values[box];
        assert values[c] == [values[c][0]];
        WithoutAbsent(before[c], {d});
      }
    }
  }

  lemma StepClears(values: Board, before: Board, after: Board, solved: seq<Cell>, i: int)
    requires Refines(before, values) && Refines(after, before)
    requires forall k :: 0 <= k < |solved| ==> |values[solved[k]]| == 1
    requires 0 <= i < |solved|
    requires before[solved[i]] == values[solved[i]] && Cleared(values, before, solved, i)
    requires Stripped(before, after, Peers(solved[i]), {before[solved[i]][0]})
    ensures Cleared(values, after, solved, i + 1)
  {
    forall k | 0 <= k < i + 1 ensures ClearedBy(after, solved[k], values[solved[k]][0]) {
      if k < i {
        ClearedByStays(before, after, solved[k], values[solved[k]][0]);
      } else {
        StrippedClears(before, after, solved[i]);
      }
    }
  }

  lemma ClearedByStays(before: Board, after: Board, box: Cell, d: char)
    requires Refines(after, before) && ClearedBy(before, box, d)
    ensures ClearedBy(after, box, d)
  {
    forall p | p in Peers(box) ensures d !in after[p] {
      SubsequenceShrinks(after[p], before[p]);
    }
  }

  lemma StrippedClears(before: Board, after: Board, box: Cell)
    requires Total(before) && Total(after) && |before[box]| == 1
    requires Stripped(before, after, Peers(box), {before[box][0]})
    ensures ClearedBy(after, box, before[box][0])
  {
  }

  /** The first pass that meets a conflict leaves a box empty: either the box
      itself was already emptied, or its digit is deleted from the peer that
      shares it. */
  lemma EliminateStepConflict(values: Board, before: Board, after: Board, box: Cell, p: Cell)
    requires Refines(before, values) && Total(after) && |values[box]| == 1
    requires before[box] == values[box] || before[box] == []
    requires before[box] == [] ==> after == before
    requires |before[box]| == 1 ==> Stripped(before, after, Peers(box), {before[box][0]})
    requires p in Peers(box) && values[p] == values[box]
    ensures HasEmpty(after)
  {
    if before[box] == [] {
      assert after[box] == [];
    } else {
      SolvedStays(before, values, p);
      assert values[box] == [values[box][0]];
      assert after[p] == [];
    }
  }

  /** After the last pass every conflict has been seen. */
  lemma EliminateDone(values: Board, after: Board, solved: seq<Cell>)
    requires Total(values) && Total(after)
    requires forall c :: c in solved <==> c in Boxes() && |values[c]| == 1
    requires forall k :: 0 <= k < |solved| ==> |values[solved[k]]| == 1
    requires NoConflict(values) ==> KeepsSolved(values, after) && Cleared(values, after, solved, |solved|)
    requires ConflictSeen(values, solved, |solved|) ==> HasEmpty(after)
    ensures NoConflict(values) ==> forall c: Cell :: |values[c]| == 1 ==> after[c] == values[c]
    ensures NoConflict(values) ==> forall c: Cell, p: Cell ::
              |values[c]| == 1 && p in Peers(c) ==> values[c][0] !in after[p]
    ensures !NoConflict(values) ==> HasEmpty(after)
  {
    BoxesComplete();
    if NoConflict(values) {
      forall c: Cell, p: Cell | |values[c]| == 1 && p in Peers(c) ensures values[c][0] !in after[p] {
        var k :| 0 <= k < |solved| && solved[k] == c;
      }
    } else {
      var a: Cell, p: Cell :| p in Peers(a) && |values[a]| == 1 && values[p] == values[a];
      var k :| 0 <= k < |solved| && solved[k] == a;
      assert ConflictSeen(values, solved, |solved|);
    }
  }

  // ---------------------------------------------------------------------
  // Only choice

  /** `[box for box in unit if digit in values[box]]`. */
  function Places(values: Board, unit: seq<Cell>, digit: char): (r: seq<Cell>)
    requires Total(values)
    ensures forall c :: c in r <==> c in unit && digit in values[c]
  {
    Select(unit, c => c in values && digit in values[c])
  }

  /** Every box of `b` holds its entry in `values`, or one digit that `values` listed there. */
  ghost predicate FixedOrKept(values: Board, b: Board)
    requires Total(values) && Total(b)
  {
    forall c: Cell :: b[c] == values[c] || (|b[c]| == 1 && b[c][0] in Digits && b[c][0] in values[c])
  }

  /** only_choice: in each unit, a digit that only one box of the unit still
      lists is written into that box.  Every box either keeps its entry or is
      fixed to one of its own candidate digits. */
  method OnlyChoice(values: Board, trace: seq<Board>) returns (values': Board, trace': seq<Board>)
    requires Total(values)
    ensures Refines(values', values) && TraceGrows(trace, trace', values, values')
    ensures FixedOrKept(values, values')
    ensures KeepsSolutions(values, values')
  {
    values', trace' := values, trace;
    RefinesRefl(values);
    TraceGrowsRefl(trace, values);
    KeepsSolutionsRefl(values);
    var units := Unitlist();
    for u := 0 to |units|
      invariant Advanced(trace, trace', values, values')
      invariant FixedOrKept(values, values') && KeepsSolutions(values, values')
    {
      for k := 0 to |Digits|
        invariant Advanced(trace, trace', values, values')
        invariant FixedOrKept(values, values') && KeepsSolutions(values, values')
      {
        var digit := Digits[k];
        var dplaces := Places(values', units[u], digit);
        if |dplaces| == 1 {
          var box := dplaces[0];
          ghost var before, traceBefore := values', trace';
          values', trace' := AssignValue(values', box, [digit], trace');
          OnlyChoiceWrite(values, trace, before, traceBefore, values', trace', u, digit, box);
        }
      }
    }
  }

  /** One write of only_choice keeps the invariant of its loops. */
  lemma OnlyChoiceWrite(values: Board, trace: seq<Board>, before: Board, traceBefore: seq<Board>,
                        after: Board, traceAfter: seq<Board>, k: int, digit: char, box: Cell)
    requires Total(values) && 0 <= k < |Unitlist()| && digit in Digits
    requires Advanced(trace, traceBefore, values, before)
    requires FixedOrKept(values, before) && KeepsSolutions(values, before)
    requires |Places(before, Unitlist()[k], digit)| == 1 && Places(before, Unitlist()[k], digit)[0] == box
    requires before[box] == [digit] ==> after == before && traceAfter == traceBefore
    requires before[box] != [digit] ==> after == before[box := [digit]]
    requires |traceAfter| == |traceBefore| + (if before[box] != [digit] then 1 else 0)
    requires traceAfter[..|traceBefore|] == traceBefore
    requires |traceAfter| > |traceBefore| ==> traceAfter[|traceBefore|] == after
    ensures Advanced(trace, traceAfter, values, after)
    ensures FixedOrKept(values, after) && KeepsSolutions(values, after)
  {
    var places := Places(before, Unitlist()[k], digit);
    assert places == [box];
    assert box in places;
    OnlyChoiceStep(values, before, box, digit);
    AssignAdvances(values, trace, before, traceBefore, box, [digit], after, traceAfter);
    if before[box] != [digit] {
      assert |Unitlist()| == 27;
      OnlyPlaceKeepsSolutions(before, k, digit, box);
      KeepsSolutionsTrans(values, before, after);
    }
  }

  /** Fixing a box to a digit it still lists keeps FixedOrKept. */
  lemma OnlyChoiceStep(values: Board, before: Board, box: Cell, digit: char)
    requires Refines(before, values) && FixedOrKept(values, before)
    requires digit in Digits && digit in before[box]
    ensures IsSubsequence([digit], before[box])
    ensures FixedOrKept(values, before[box := [digit]])
  {
    MemberIsSubsequence(digit, before[box]);
    SubsequenceShrinks(before[box], values[box]);
  }

  /** Writing a digit into the only box of a unit that still lists it keeps
      every solution: a solution puts that digit somewhere in the unit. */
  lemma OnlyPlaceKeepsSolutions(before: Board, k: int, digit: char, box: Cell)
    requires Total(before) && 0 <= k < 27 && digit in Digits
    requires forall c :: c in Unitlist()[k] && digit in before[c] ==> c == box
    ensures KeepsSolutions(before, before[box := [digit]])
  {
    forall sol | Admits(before, sol) ensures Admits(before[box := [digit]], sol) {
      var c := UnitHoldsDigit(sol, k, digit);
      assert digit in before[c];
      assert sol[box] == [digit] by { assert sol[box] == [sol[box][0]]; }
    }
  }

  // ---------------------------------------------------------------------
  // Naked twins

  /** `c` lies in a row or column that the boxes `x` and `y` share, and is neither of them. */
  predicate SharedLineMate(x: Cell, y: Cell, c: Cell) {
    c != x && c != y && ((x.row == y.row && c.row == x.row) || (x.col == y.col && c.col == x.col))
  }

  /** boxes_to_clean for the pair (x, y): the rest of their row when they share
      the row, followed by the rest of their column when they share the column. */
  function BoxesToClean(x: Cell, y: Cell): (r: seq<Cell>)
    ensures forall c :: c in r <==> SharedLineMate(x, y, c)
  {
    var rowPart := if x.row == y.row then RowMates(x, y) else [];
    var colPart := if x.col == y.col then ColumnMates(x, y) else [];
    assert forall c :: c in rowPart <==> x.row == y.row && c.row == x.row && c != x && c != y;
    assert forall c :: c in colPart <==> x.col == y.col && c.col == x.col && c != x && c != y;
    rowPart + colPart
  }

  /** The boxes of x's row other than x and y, in board order. */
  function RowMates(x: Cell, y: Cell): (r: seq<Cell>)
    ensures forall c :: c in r <==> c.row == x.row && c != x && c != y
  {
    BoxesComplete();
    Select(Boxes(), (c: Cell) => c.row == x.row && !(c == y || c == x))
  }

  /** The boxes of x's column other than x and y, in board order. */
  function ColumnMates(x: Cell, y: Cell): (r: seq<Cell>)
    ensures forall c :: c in r <==> c.col == x.col && c != x && c != y
  {
    BoxesComplete();
    Select(Boxes(), (c: Cell) => c.col == x.col && !(c == y || c == x))
  }

  /** The two characters `values[x][0]` and `values[x][1]` that cleaning removes. */
  function PairDigits(v: string): (r: set<char>)
    ensures forall ch :: ch in r ==> ch in v
  {
    if |v| >= 2 then {v[0], v[1]} else {}
  }

  /** The boxes of `cells` hold their entry in `values` without `removed`; the others are as in `values`. */
  ghost predicate CleanedIn(values: Board, b: Board, cells: seq<Cell>, removed: set<char>)
    requires Total(values) && Total(b)
  {
    forall c: Cell :: b[c] == if c in cells then Without(values[c], removed) else values[c]
  }

  /** `after` is `values` with the characters of x's entry deleted from every
      other box of the row or column x and y share, and nothing else changed. */
  ghost predicate PairCleaned(values: Board, after: Board, x: Cell, y: Cell)
    requires Total(values) && Total(after)
  {
    forall c: Cell :: after[c] == if SharedLineMate(x, y, c) then Without(values[c], PairDigits(values[x])) else values[c]
  }


  /** One pair's boxes_to_clean and the loop over them.  The loop reads the
      second and first character of x's entry; when that entry has fewer than
      two characters and there is a box to clean, the first read fails (`ok`
      is false).  Otherwise both characters are deleted from every box to
      clean, and nothing else changes. */
  method CleanPair(values: Board, trace: seq<Board>, x: Cell, y: Cell)
    returns (ok: bool, values': Board, trace': seq<Board>)
    requires Total(values)
    ensures ok <==> BoxesToClean(x, y) == [] || |values[x]| >= 2
    ensures Advanced(trace, trace', values, values')
    ensures ok ==> PairCleaned(values, values', x, y)
  {
    var toClean := BoxesToClean(x, y);
    ok, values', trace' := CleanBoxes(values, trace, x, toClean);
    if ok {
      CleanPairDone(values, values', x, y, toClean, PairDigits(values[x]));
    }
  }

  /** `for box in cells:` deleting the second and then the first character
      of x's entry from each box. */
  method CleanBoxes(values: Board, trace: seq<Board>, x: Cell, cells: seq<Cell>)
    returns (ok: bool, values': Board, trace': seq<Board>)
    requires Total(values) && x !in cells
    ensures ok <==> cells == [] || |values[x]| >= 2
    ensures Advanced(trace, trace', values, values')
    ensures ok ==> CleanedIn(values, values', cells, PairDigits(values[x]))
  {
    ghost var removed := PairDigits(values[x]);
    values', trace' := values, trace;
    RefinesRefl(values);
    TraceGrowsRefl(trace, values);
    for i := 0 to |cells|
      invariant Advanced(trace, trace', values, values')
      invariant values'[x] == values[x]
      invariant i > 0 ==> |values[x]| >= 2
      invariant CleanedIn(values, values', cells[..i], removed)
    {
      if |values'[x]| < 2 {
        return false, values', trace';
      }
      var box := cells[i];
      ghost var before, traceBefore := values', trace';
      values', trace' := CleanBox(values', trace', box, values'[x][0], values'[x][1]);
      CleanPairStep(values, trace, before, traceBefore, values', trace', cells, i, values[x][0], values[x][1], removed);
    }
    assert cells[..|cells|] == cells;
    ok := true;
  }

  lemma CleanPairDone(values: Board, after: Board, x: Cell, y: Cell, toClean: seq<Cell>, removed: set<char>)
    requires Total(values) && Total(after)
    requires toClean == BoxesToClean(x, y) && removed == PairDigits(values[x])
    requires CleanedIn(values, after, toClean, removed)
    ensures PairCleaned(values, after, x, y)
  {
  }

  /** The body of the loop over boxes_to_clean: deletes `b` and then `a` from `box`. */
  method CleanBox(values: Board, trace: seq<Board>, box: Cell, a: char, b: char)
    returns (values': Board, trace': seq<Board>)
    requires Total(values)
    ensures values' == values[box := Replace(Replace(values[box], [b]), [a])]
    ensures Advanced(trace, trace', values, values')
  {
    RefinesRefl(values);
    var first := Replace(values[box], [b]);
    var v1, t1 := AssignValue(values, box, first, trace);
    if values[box] != first {
      AssignRefines(values, box, first, v1, trace, t1);
    } else {
      assert v1 == values[box := first];
    }
    var second := Replace(v1[box], [a]);
    values', trace' := AssignValue(v1, box, second, t1);
    if v1[box] != second {
      AssignRefines(v1, box, second, values', t1, trace');
    } else {
      assert values' == v1[box := second];
    }
    RefinesTrans(values', v1, values);
    TraceGrowsTrans(trace, t1, trace', values, v1, values');
  }

  /** One pass of the loop over boxes_to_clean keeps its invariant. */
  lemma CleanPairStep(values: Board, trace: seq<Board>, before: Board, traceBefore: seq<Board>,
                      after: Board, traceAfter: seq<Board>, toClean: seq<Cell>, i: int,
                      a: char, b: char, removed: set<char>)
    requires Advanced(trace, traceBefore, values, before) && Advanced(traceBefore, traceAfter, before, after)
    requires 0 <= i < |toClean| && removed == {a, b}
    requires CleanedIn(values, before, toClean[..i], removed)
    requires after == before[toClean[i] := Replace(Replace(before[toClean[i]], [b]), [a])]
    ensures Advanced(trace, traceAfter, values, after)
    ensures CleanedIn(values, after, toClean[..i + 1], removed)
  {
    CleanStep(values, before, toClean[i], a, b, removed);
    RefinesTrans(after, before, values);
    TraceGrowsTrans(trace, traceBefore, traceAfter, values, before, after);
    assert toClean[..i + 1] == toClean[..i] + [toClean[i]];
  }

  /** Deleting the two characters one at a time from a box gives the box's
      original entry without both, whether or not it was cleaned before. */
  lemma CleanStep(values: Board, before: Board, box: Cell, a: char, b: char, removed: set<char>)
    requires Total(values) && Total(before) && removed == {a, b}
    requires before[box] == values[box] || before[box] == Without(values[box], removed)
    ensures Replace(Replace(before[box], [b]), [a]) == Without(values[box], removed)
  {
    ReplaceChar(before[box], b);
    ReplaceChar(Without(before[box], {b}), a);
    WithoutWithout(before[box], {b}, {a});
    assert {b} + {a} == removed;
    if before[box] != values[box] {
      WithoutWithout(values[box], removed, removed);
      assert removed + removed == removed;
    }
  }

  /** `[box for box in values.keys() if len(values[box]) == 2]`. */
  function PairBoxes(values: Board): (r: seq<Cell>)
    requires Total(values)
    ensures forall c :: c in r <==> |values[c]| == 2
    ensures Distinct(r)
  {
    BoxesComplete();
    SelectDistinct(Boxes(), c => c in values && |values[c]| == 2);
    Select(Boxes(), c => c in values && |values[c]| == 2)
  }

  /** `[second_box for second_box in cells if values[x] == values[second_box]]`. */
  function SameEntry(values: Board, cells: seq<Cell>, x: Cell): (r: seq<Cell>)
    requires Total(values)
    ensures forall c :: c in r <==> c in cells && values[c] == values[x]
  {
    Select(cells, c => c in values && x in values && values[x] == values[c])
  }

  /** Two different boxes with the same two candidates. */
  ghost predicate TwinPair(values: Board, x: Cell, y: Cell)
    requires Total(values)
  {
    x != y && |values[x]| == 2 && values[y] == values[x]
  }

  /** Every candidate missing from `b` but present in `values` belongs to a
      twin pair of `values` that shares a row or column with its box. */
  ghost predicate Explained(values: Board, b: Board)
    requires Total(values) && Total(b)
  {
    forall c: Cell, ch: char :: ch in values[c] && ch !in b[c] ==>
      exists x: Cell, y: Cell :: TwinPair(values, x, y) && SharedLineMate(x, y, c) && ch in values[x]
  }

  /** Every candidate missing from `after` but present in `before` is one of
      the characters of x's entry, and its box shares a row or column with x
      and one of `twins`. */
  ghost predicate ExplainedBy(before: Board, after: Board, x: Cell, twins: seq<Cell>)
    requires Total(before) && Total(after)
  {
    forall c: Cell, ch: char :: ch in before[c] && ch !in after[c] ==>
      ch in PairDigits(before[x]) && exists y :: y in twins && SharedLineMate(x, y, c)
  }

  /** naked_twins.  The list of two-candidate boxes is taken once; the loop
      over it removes each box from the list as it visits it, so the box after
      it is skipped.  For each visited box x, the remaining boxes of the list
      whose entry currently equals x's are its twins, and each pair cleans
      the row or column it shares.  When the loop succeeds, every deleted
      candidate is explained by a twin pair of the input board; it fails
      (`ok` false) only after a box that started with two candidates has lost
      one. */
  method NakedTwins(values: Board, trace: seq<Board>) returns (ok: bool, values': Board, trace': seq<Board>)
    requires Total(values)
    ensures Advanced(trace, trace', values, values')
    ensures ok ==> Explained(values, values') && KeepsSolutions(values, values')
    ensures !ok ==> exists x: Cell :: |values[x]| == 2 && |values'[x]| < 2
  {
    var dual := PairBoxes(values);
    values', trace' := values, trace;
    RefinesRefl(values);
    TraceGrowsRefl(trace, values);
    var i := 0;
    while i < |dual|
      invariant Distinct(dual)
      invariant forall e :: e in dual ==> |values[e]| == 2
      invariant Advanced(trace, trace', values, values')
      invariant Explained(values, values')
      decreases |dual| - i
    {
      var dualBox := dual[i];
      RemoveFirstAt(dual, i);
      dual := RemoveFirst(dual, dualBox);
      var seconds := SameEntry(values', dual, dualBox);
      ghost var atPick, traceAtPick := values', trace';
      var cleaned;
      cleaned, values', trace' := CleanTwins(values', trace', dualBox, seconds);
      RefinesTrans(values', atPick, values);
      TraceGrowsTrans(trace, traceAtPick, trace', values, atPick, values');
      if !cleaned {
        SubsequenceShrinks(values'[dualBox], atPick[dualBox]);
        assert |values[dualBox]| == 2 && |values'[dualBox]| < 2;
        return false, values', trace';
      }
      ExplainedCompose(values, atPick, values', dual, seconds, dualBox);
      i := i + 1;
    }
    ok := true;
    NakedTwinsKeepsSolutions(values, values');
  }

  /** naked_twins never deletes the digit a solution puts in a box: two peers
      with the same two candidates take both digits between them, so no box
      sharing their row or column can hold either. */
  lemma NakedTwinsKeepsSolutions(values: Board, after: Board)
    requires Total(values) && Total(after) && Explained(values, after)
    ensures KeepsSolutions(values, after)
  {
    forall sol | Admits(values, sol) ensures Admits(after, sol) {
      NakedTwinsKeepsSolution(values, after, sol);
    }
  }

  lemma NakedTwinsKeepsSolution(values: Board, after: Board, sol: Board)
    requires Admits(values, sol) && Total(after) && Explained(values, after)
    ensures Admits(after, sol)
  {
    forall c: Cell ensures sol[c][0] in after[c] {
      forall x: Cell, y: Cell | TwinPair(values, x, y) && SharedLineMate(x, y, c)
        ensures sol[c][0] !in values[x]
      {
        TwinsTakeBothDigits(values, sol, x, y, c);
      }
    }
  }

  lemma TwinsTakeBothDigits(values: Board, sol: Board, x: Cell, y: Cell, c: Cell)
    requires Admits(values, sol) && TwinPair(values, x, y) && SharedLineMate(x, y, c)
    ensures sol[c][0] !in values[x]
  {
    LineMatesDiffer(sol, x, y);
    LineMatesDiffer(sol, x, c);
    LineMatesDiffer(sol, y, c);
    assert values[x] == [values[x][0], values[x][1]] == values[y];
    assert sol[x][0] in values[x] && sol[y][0] in values[y];
  }

  /** A solution gives two boxes of one row or column different digits. */
  lemma LineMatesDiffer(sol: Board, p: Cell, q: Cell)
    requires IsSolution(sol) && p != q && (p.row == q.row || p.col == q.col)
    ensures sol[p][0] != sol[q][0]
  {
    PeersCharacterization(p, q);
    assert sol[p] == [sol[p][0]] && sol[q] == [sol[q][0]];
  }

  /** The inner loop of naked_twins: cleans for x and each of its twins in turn. */
  method CleanTwins(values: Board, trace: seq<Board>, x: Cell, twins: seq<Cell>)
    returns (ok: bool, values': Board, trace': seq<Board>)
    requires Total(values)
    ensures Advanced(trace, trace', values, values')
    ensures ok ==> values'[x] == values[x]
    ensures !ok ==> |values[x]| < 2
    ensures ok ==> ExplainedBy(values, values', x, twins)
  {
    values', trace' := values, trace;
    RefinesRefl(values);
    TraceGrowsRefl(trace, values);
    for j := 0 to |twins|
      invariant Advanced(trace, trace', values, values')
      invariant values'[x] == values[x]
      invariant ExplainedBy(values, values', x, twins)
    {
      var second := twins[j];
      ghost var before, traceBefore := values', trace';
      var cleaned;
      cleaned, values', trace' := CleanPair(values', trace', x, second);
      RefinesTrans(values', before, values);
      TraceGrowsTrans(trace, traceBefore, trace', values, before, values');
      if !cleaned {
        return false, values', trace';
      }
      ExplainedByStep(values, before, values', x, second, twins);
    }
    ok := true;
  }

  /** Cleaning for one more twin keeps ExplainedBy. */
  lemma ExplainedByStep(values: Board, before: Board, after: Board, x: Cell, y: Cell, twins: seq<Cell>)
    requires Refines(before, values) && Total(after)
    requires ExplainedBy(values, before, x, twins) && PairCleaned(before, after, x, y)
    requires y in twins && before[x] == values[x]
    ensures ExplainedBy(values, after, x, twins) && after[x] == values[x]
  {
  }

  /** Deletions explained by x and twins that were twins of x when listed
      are explained by twin pairs of the input board. */
  lemma ExplainedCompose(values: Board, atPick: Board, after: Board, dual: seq<Cell>, seconds: seq<Cell>, x: Cell)
    requires Refines(atPick, values) && Refines(after, atPick)
    requires Explained(values, atPick) && ExplainedBy(atPick, after, x, seconds)
    requires |values[x]| == 2 && x !in dual && forall e :: e in dual ==> |values[e]| == 2
    requires forall c :: c in seconds <==> c in dual && atPick[c] == atPick[x]
    ensures Explained(values, after)
  {
    forall c: Cell, ch: char | ch in values[c] && ch !in after[c]
      ensures exists x: Cell, y: Cell :: TwinPair(values, x, y) && SharedLineMate(x, y, c) && ch in values[x]
    {
      if ch in atPick[c] {
        assert ch in atPick[c] && ch !in after[c];
        assert ch in PairDigits(atPick[x]);
        assert exists y :: y in seconds && SharedLineMate(x, y, c);
        var y :| y in seconds && SharedLineMate(x, y, c);
        assert ch in PairDigits(atPick[x]);
        PickedTwins(values, atPick, dual, seconds, x, y);
      }
    }
  }

  /** A box visited with at least two candidates left and one of its listed
      twins form a twin pair of the input board. */
  lemma PickedTwins(values: Board, atPick: Board, dual: seq<Cell>, seconds: seq<Cell>, x: Cell, y: Cell)
    requires Refines(atPick, values)
    requires |values[x]| == 2 && x !in dual && forall e :: e in dual ==> |values[e]| == 2
    requires forall c :: c in seconds <==> c in dual && atPick[c] == atPick[x]
    requires y in seconds && |atPick[x]| >= 2
    ensures TwinPair(values, x, y) && atPick[x] == values[x]
  {
    SubsequenceShrinks(atPick[x], values[x]);
    SubsequenceSameLength(atPick[x], values[x]);
    SubsequenceShrinks(atPick[y], values[y]);
    SubsequenceSameLength(atPick[y], values[y]);
  }
}
