/** The board: a dictionary from the 81 boxes to their candidate strings, the
    audited write primitive, and the assignment trace it feeds. */
module BoardState {
  import opened Topology
  import opened Candidates

  type Board = map<Cell, string>

  /** The board has an entry for every box. */
  ghost predicate Total(b: Board) {
    forall c: Cell :: c in b
  }

  /** Every entry of `b'` is the entry of `b` with characters deleted. */
  ghost predicate Refines(b': Board, b: Board) {
    Total(b') && Total(b) && forall c: Cell :: IsSubsequence(b'[c], b[c])
  }

  ghost predicate HasEmpty(b: Board)
    requires Total(b)
  {
    exists c: Cell :: b[c] == []
  }

  ghost predicate AllSolved(b: Board)
    requires Total(b)
  {
    forall c: Cell :: |b[c]| == 1
  }

  /** No two peers are solved with the same digit. */
  ghost predicate NoConflict(b: Board)
    requires Total(b)
  {
    forall a: Cell, p: Cell :: p in Peers(a) && |b[a]| == 1 ==> b[p] != b[a]
  }

  /** A filled-in grid: every box holds one digit and no two peers hold the same one. */
  ghost predicate IsSolution(sol: Board) {
    Total(sol) && (forall c: Cell :: |sol[c]| == 1 && sol[c][0] in Digits) && NoConflict(sol)
  }

  /** The solution `sol` is still possible on board `b`: each box's digit is
      among the box's candidates. */
  ghost predicate Admits(b: Board, sol: Board) {
    IsSolution(sol) && Total(b) && forall c: Cell :: sol[c][0] in b[c]
  }

  /** The trace grew from `t` to `t'` by snapshots taken between the boards
      `from` and `to`: earlier entries are kept, and each new snapshot refines
      `from` and is refined by `to`. */
  ghost predicate TraceGrows(t: seq<Board>, t': seq<Board>, from: Board, to: Board) {
    |t| <= |t'| && t'[..|t|] == t &&
    forall k :: |t| <= k < |t'| ==> Refines(t'[k], from) && Refines(to, t'[k])
  }

  /** The board moved from `from` to `to` by deleting candidates, and the trace
      grew accordingly. */
  ghost predicate Advanced(t: seq<Board>, t': seq<Board>, from: Board, to: Board) {
    Refines(to, from) && TraceGrows(t, t', from, to)
  }

  /** Number of boxes among `cells` whose entry is a single digit. */
  function CountSolved(b: Board, cells: seq<Cell>): (n: nat)
    requires forall c :: c in cells ==> c in b
    ensures n <= |cells|
    ensures n == |cells| <==> forall c :: c in cells ==> |b[c]| == 1
  {
    if cells == [] then 0
    else (if |b[cells[0]]| == 1 then 1 else 0) + CountSolved(b, cells[1..])
  }

  /** `len([box for box in values.keys() if len(values[box]) == 1])`. */
  function SolvedCount(b: Board): (n: nat)
    requires Total(b)
    ensures n <= 81
    ensures n == 81 <==> AllSolved(b)
  {
    BoxesRowMajor();
    BoxesComplete();
    CountSolved(b, Boxes())
  }

  /** Total length of the entries of `cells`. */
  function SumCandidates(b: Board, cells: seq<Cell>): nat
    requires forall c :: c in cells ==> c in b
  {
    if cells == [] then 0 else |b[cells[0]]| + SumCandidates(b, cells[1..])
  }

  function TotalCandidates(b: Board): nat
    requires Total(b)
  {
    SumCandidates(b, Boxes())
  }

  // ---------------------------------------------------------------------
  // The write primitive

  /** Writes `value` into `box`.  A write that changes nothing is skipped;
      a write that leaves a single candidate appends a snapshot of the board
      after the write to the trace. */
  method AssignValue(values: Board, box: Cell, value: string, trace: seq<Board>)
    returns (values': Board, trace': seq<Board>)
    requires box in values
    ensures values[box] == value ==> values' == values && trace' == trace
    ensures values[box] != value ==> values' == values[box := value]
    ensures |trace'| == |trace| + (if values[box] != value && |value| == 1 then 1 else 0)
    ensures trace'[..|trace|] == trace
    ensures |trace'| > |trace| ==> trace'[|trace|] == values'
  {
    if values[box] == value {
      return values, trace;
    }
    values' := values[box := value];
    trace' := trace;
    if |value| == 1 {
      trace' := trace + [values'];
    }
  }

  /** A write that only deletes candidates refines the board, and its trace
      entry (if any) lies between the two boards. */
  lemma AssignRefines(values: Board, box: Cell, value: string, values': Board,
                      trace: seq<Board>, trace': seq<Board>)
    requires Total(values) && IsSubsequence(value, values[box])
    requires values' == values[box := value]
    requires |trace| <= |trace'| <= |trace| + 1 && trace'[..|trace|] == trace
    requires |trace'| > |trace| ==> trace'[|trace|] == values'
    ensures Refines(values', values)
    ensures TraceGrows(trace, trace', values, values')
  {
    forall c: Cell ensures IsSubsequence(values'[c], values[c]) {
      SubsequenceRefl(values[c]);
    }
    forall c: Cell ensures IsSubsequence(values'[c], values'[c]) {
      SubsequenceRefl(values'[c]);
    }
  }

  /** AssignValue with a value that deletes candidates from `box` extends an
      advance from `values` to `before` into one from `values` to `after`. */
  lemma AssignAdvances(values: Board, trace: seq<Board>, before: Board, traceBefore: seq<Board>,
                       box: Cell, value: string, after: Board, traceAfter: seq<Board>)
    requires Advanced(trace, traceBefore, values, before) && IsSubsequence(value, before[box])
    requires before[box] == value ==> after == before && traceAfter == traceBefore
    requires before[box] != value ==> after == before[box := value]
    requires |traceAfter| == |traceBefore| + (if before[box] != value && |value| == 1 then 1 else 0)
    requires traceAfter[..|traceBefore|] == traceBefore
    requires |traceAfter| > |traceBefore| ==> traceAfter[|traceBefore|] == after
    ensures Advanced(trace, traceAfter, values, after)
  {
    if before[box] != value {
      AssignRefines(before, box, value, after, traceBefore, traceAfter);
      RefinesTrans(after, before, values);
      TraceGrowsTrans(trace, traceBefore, traceAfter, values, before, after);
    }
  }

  // ---------------------------------------------------------------------
  // Refinement

  lemma RefinesRefl(b: Board)
    requires Total(b)
    ensures Refines(b, b)
  {
    forall c: Cell ensures IsSubsequence(b[c], b[c]) {
      SubsequenceRefl(b[c]);
    }
  }

  lemma RefinesTrans(a: Board, b: Board, c: Board)
    requires Refines(a, b) && Refines(b, c)
    ensures Refines(a, c)
  {
    forall x: Cell ensures IsSubsequence(a[x], c[x]) {
      SubsequenceTrans(a[x], b[x], c[x]);
    }
  }

  lemma TraceGrowsRefl(t: seq<Board>, b: Board)
    ensures TraceGrows(t, t, b, b)
  {
  }

  lemma TraceGrowsTrans(t1: seq<Board>, t2: seq<Board>, t3: seq<Board>, a: Board, b: Board, c: Board)
    requires TraceGrows(t1, t2, a, b) && TraceGrows(t2, t3, b, c)
    requires Refines(b, a) && Refines(c, b)
    ensures TraceGrows(t1, t3, a, c)
  {
    assert t3[..|t1|] == t2[..|t2|][..|t1|];
    forall k | |t1| <= k < |t3| ensures Refines(t3[k], a) && Refines(c, t3[k]) {
      if k < |t2| {
        assert t3[k] == t2[k];
        RefinesTrans(c, b, t3[k]);
      } else {
        RefinesTrans(t3[k], b, a);
      }
    }
  }

  /** A cell that was solved stays solved with the same digit unless it became empty. */
  lemma SolvedStays(b': Board, b: Board, c: Cell)
    requires Refines(b', b) && |b[c]| == 1
    ensures b'[c] == b[c] || b'[c] == []
  {
    assert b[c] == [b[c][0]];
    SubsequenceOfSingleton(b'[c], b[c][0]);
  }

  lemma EmptyStays(b': Board, b: Board)
    requires Refines(b', b) && HasEmpty(b)
    ensures HasEmpty(b')
  {
    var c :| b[c] == [];
    SubsequenceShrinks(b'[c], b[c]);
  }

  // ---------------------------------------------------------------------
  // Counting

  /** With no box emptied, every solved box stays solved, so the solved count
      cannot fall; and when it stays the same, no box became newly solved. */
  lemma {:induction false} CountSolvedMonotone(b: Board, b': Board, cells: seq<Cell>)
    requires forall c :: c in cells ==> c in b && c in b'
    requires forall c :: c in cells && |b[c]| == 1 ==> |b'[c]| == 1
    ensures CountSolved(b, cells) <= CountSolved(b', cells)
    ensures CountSolved(b, cells) == CountSolved(b', cells) ==>
              forall c :: c in cells && |b'[c]| == 1 ==> |b[c]| == 1
  {
    if cells != [] {
      CountSolvedMonotone(b, b', cells[1..]);
      assert forall c :: c in cells ==> c == cells[0] || c in cells[1..];
    }
  }

  lemma SolvedCountMonotone(b: Board, b': Board)
    requires Refines(b', b) && !HasEmpty(b')
    ensures SolvedCount(b) <= SolvedCount(b') <= 81
    ensures SolvedCount(b) == SolvedCount(b') ==> forall c: Cell :: |b'[c]| == 1 ==> |b[c]| == 1
  {
    forall c: Cell | |b[c]| == 1 ensures |b'[c]| == 1 {
      SolvedStays(b', b, c);
    }
    BoxesRowMajor();
    BoxesComplete();
    CountSolvedMonotone(b, b', Boxes());
  }

  /** Deleting candidates never raises the total, and shortening one entry lowers it. */
  lemma {:induction false} SumCandidatesMonotone(b: Board, b': Board, cells: seq<Cell>, x: Cell)
    requires forall c :: c in cells ==> c in b && c in b'
    requires forall c :: c in cells ==> |b'[c]| <= |b[c]|
    ensures SumCandidates(b', cells) <= SumCandidates(b, cells)
    ensures x in cells && |b'[x]| < |b[x]| ==> SumCandidates(b', cells) < SumCandidates(b, cells)
  {
    if cells != [] {
      SumCandidatesMonotone(b, b', cells[1..], x);
      assert x in cells ==> x == cells[0] || x in cells[1..];
    }
  }

  lemma TotalCandidatesMonotone(b: Board, b': Board, x: Cell)
    requires Refines(b', b)
    ensures TotalCandidates(b') <= TotalCandidates(b)
    ensures |b'[x]| < |b[x]| ==> TotalCandidates(b') < TotalCandidates(b)
  {
    forall c: Cell ensures |b'[c]| <= |b[c]| {
      SubsequenceShrinks(b'[c], b[c]);
    }
    BoxesComplete();
    SumCandidatesMonotone(b, b', Boxes(), x);
  }

  // ---------------------------------------------------------------------
  // Solutions

  /** Every solution `from` admits, `to` admits too. */
  ghost predicate KeepsSolutions(from: Board, to: Board) {
    forall sol :: Admits(from, sol) ==> Admits(to, sol)
  }

  lemma KeepsSolutionsRefl(b: Board)
    ensures KeepsSolutions(b, b)
  {
  }

  lemma KeepsSolutionsTrans(a: Board, b: Board, c: Board)
    requires KeepsSolutions(a, b) && KeepsSolutions(b, c)
    ensures KeepsSolutions(a, c)
  {
  }

  /** A board with an empty box admits no solution. */
  lemma EmptyAdmitsNone(b: Board)
    requires Total(b) && HasEmpty(b)
    ensures forall sol :: !Admits(b, sol)
  {
    var c :| b[c] == [];
    forall sol | IsSolution(sol) ensures sol[c][0] !in b[c] {
    }
  }

  /** In a solution, every unit holds every digit: its nine boxes are
      pairwise peers and so hold nine different digits. */
  lemma UnitHoldsDigit(sol: Board, k: int, digit: char) returns (c: Cell)
    requires IsSolution(sol) && 0 <= k < 27 && digit in Digits
    ensures c in Unitlist()[k] && sol[c][0] == digit
  {
    var u := Unitlist()[k];
    UnitlistShape();
    var ds := seq(9, i requires 0 <= i < 9 => sol[u[i]][0]);
    forall i, j | 0 <= i < j < 9 ensures ds[i] != ds[j] {
      SameUnitPeers(k, u[i], u[j]);
      assert sol[u[i]] == [ds[i]] && sol[u[j]] == [ds[j]];
    }
    NineDigits(ds, digit);
    var i :| 0 <= i < 9 && ds[i] == digit;
    c := u[i];
  }
}
