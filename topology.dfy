/** The static board layout: cells, the 27 units (rows, columns, 3x3 squares)
    and the peer sets derived from them.  Nothing here changes at run time. */
module Topology {
  import opened Lists

  /** A row or column position; rows carry the labels A..I, columns 1..9. */
  type Index = i: int | 0 <= i < 9

  /** One of the 81 boxes of the board, named e.g. "A1" or "I9". */
  datatype Cell = Cell(row: Index, col: Index)

  function RowLabel(r: Index): char { ('A' as int + r) as char }

  function ColLabel(c: Index): char { ('1' as int + c) as char }

  /** The two-character name of a box: row label, then column label. */
  function Name(c: Cell): (r: string)
    ensures |r| == 2 && r[0] == "ABCDEFGHI"[c.row] && r[1] == "123456789"[c.col]
  {
    LabelsAt(c.row, c.col);
    [RowLabel(c.row), ColLabel(c.col)]
  }

  /** The labels are the characters of the strings rows and cols. */
  lemma LabelsAt(r: Index, c: Index)
    ensures RowLabel(r) == "ABCDEFGHI"[r] && ColLabel(c) == "123456789"[c]
  {
    assert "ABCDEFGHI" == seq(9, i requires 0 <= i < 9 => ('A' as int + i) as char);
    assert "123456789" == seq(9, i requires 0 <= i < 9 => ('1' as int + i) as char);
  }

  /** The row positions A..I and the column positions 1..9, in order. */
  function Rows(): seq<Index> { seq(9, i requires 0 <= i < 9 => i) }
  function Cols(): seq<Index> { seq(9, i requires 0 <= i < 9 => i) }

  /** Every row of `rs` combined with every column of `cs`, row by row. */
  function Cross(rs: seq<Index>, cs: seq<Index>): seq<Cell> {
    if rs == [] then []
    else seq(|cs|, j requires 0 <= j < |cs| => Cell(rs[0], cs[j])) + Cross(rs[1..], cs)
  }

  /** All boxes, in the order the board dictionary lists its keys: row by row. */
  function Boxes(): seq<Cell> { seq(81, i requires 0 <= i < 81 => Cell(i / 9, i % 9)) }

  function RowUnits(): seq<seq<Cell>> { seq(9, r requires 0 <= r < 9 => Cross([r], Cols())) }
  function ColumnUnits(): seq<seq<Cell>> { seq(9, c requires 0 <= c < 9 => Cross(Rows(), [c])) }

  /** The row triples ABC, DEF, GHI (and the column triples 123, 456, 789). */
  const Triples: seq<seq<Index>> := [[0, 1, 2], [3, 4, 5], [6, 7, 8]]

  function SquareUnits(): seq<seq<Cell>> {
    seq(9, k requires 0 <= k < 9 => Cross(Triples[k / 3], Triples[k % 3]))
  }

  /** Rows(), then columns, then squares; there are no diagonal units. */
  function Unitlist(): seq<seq<Cell>> { RowUnits() + ColumnUnits() + SquareUnits() }

  /** The units of `us` that contain `s`, in order. */
  function UnitsContaining(us: seq<seq<Cell>>, s: Cell): seq<seq<Cell>> {
    if us == [] then []
    else (if s in us[0] then [us[0]] else []) + UnitsContaining(us[1..], s)
  }

  function Units(s: Cell): seq<seq<Cell>> { UnitsContaining(Unitlist(), s) }

  /** Concatenation of a list of units. */
  function Flatten(us: seq<seq<Cell>>): seq<Cell> {
    if us == [] then [] else us[0] + Flatten(us[1..])
  }

  /** Every other box that shares a unit with `s`. */
  function Peers(s: Cell): set<Cell> {
    set c | c in Flatten(Units(s)) && c != s
  }

  /** Index of the 3x3 square holding `c` in SquareUnits(). */
  function SquareIndex(c: Cell): int { 3 * (c.row / 3) + c.col / 3 }

  predicate SameSquare(a: Cell, b: Cell) {
    a.row / 3 == b.row / 3 && a.col / 3 == b.col / 3
  }

  // ---------------------------------------------------------------------
  // Cross

  lemma {:induction false} CrossMember(rs: seq<Index>, cs: seq<Index>, x: Cell)
    ensures x in Cross(rs, cs) <==> x.row in rs && x.col in cs
  {
    if rs != [] {
      CrossMember(rs[1..], cs, x);
      var head := seq(|cs|, j requires 0 <= j < |cs| => Cell(rs[0], cs[j]));
      assert Cross(rs, cs) == head + Cross(rs[1..], cs);
      assert x in head <==> x.row == rs[0] && x.col in cs by {
        if x.row == rs[0] && x.col in cs {
          var j :| 0 <= j < |cs| && cs[j] == x.col;
          assert head[j] == x;
        }
      }
      assert x.row in rs <==> x.row == rs[0] || x.row in rs[1..] by {
        assert rs == [rs[0]] + rs[1..];
      }
    }
  }

  lemma MulStep(i: int, n: int)
    ensures (i - 1) * n + n == i * n
  {
  }

  lemma {:induction false} CrossLength(rs: seq<Index>, cs: seq<Index>)
    ensures |Cross(rs, cs)| == |rs| * |cs|
  {
    if rs != [] {
      CrossLength(rs[1..], cs);
      MulStep(|rs|, |cs|);
    }
  }

  lemma {:induction false} CrossIndex(rs: seq<Index>, cs: seq<Index>, i: int, j: int)
    requires 0 <= i < |rs| && 0 <= j < |cs|
    ensures i * |cs| + j < |Cross(rs, cs)|
    ensures Cross(rs, cs)[i * |cs| + j] == Cell(rs[i], cs[j])
  {
    var n := |cs|;
    var head := seq(n, k requires 0 <= k < n => Cell(rs[0], cs[k]));
    var tail := Cross(rs[1..], cs);
    assert Cross(rs, cs) == head + tail;
    CrossLength(rs, cs);
    if i == 0 {
      assert i * n + j == j;
    } else {
      CrossIndex(rs[1..], cs, i - 1, j);
      MulStep(i, n);
      assert (head + tail)[i * n + j] == tail[(i - 1) * n + j];
    }
  }

  lemma {:induction false} CrossDistinct(rs: seq<Index>, cs: seq<Index>)
    requires Distinct(rs) && Distinct(cs)
    ensures Distinct(Cross(rs, cs))
  {
    if rs != [] {
      var n := |cs|;
      var head := seq(n, k requires 0 <= k < n => Cell(rs[0], cs[k]));
      var tail := Cross(rs[1..], cs);
      CrossDistinct(rs[1..], cs);
      assert Cross(rs, cs) == head + tail;
      forall i, j | 0 <= i < j < |head + tail|
        ensures (head + tail)[i] != (head + tail)[j]
      {
        if j >= n && i < n {
          CrossMember(rs[1..], cs, tail[j - n]);
          assert tail[j - n].row in rs[1..];
          assert rs[0] !in rs[1..];
        }
      }
    }
  }

  // ---------------------------------------------------------------------
  // Boxes()

  /** boxes = cross(rows, cols): the boxes are the cross product of the row
      and column labels, in that order. */
  lemma BoxesAreCross()
    ensures Boxes() == Cross(Rows(), Cols())
  {
    CrossLength(Rows(), Cols());
    forall i | 0 <= i < 81 ensures Boxes()[i] == Cross(Rows(), Cols())[i] {
      var r, k := i / 9, i % 9;
      assert r * 9 + k == i;
      CrossIndex(Rows(), Cols(), r, k);
      assert Rows()[r] == r && Cols()[k] == k;
    }
  }

  lemma PositionOf(c: Cell)
    ensures (9 * c.row + c.col) / 9 == c.row && (9 * c.row + c.col) % 9 == c.col
  {
  }

  /** The box of row r and column k sits at position 9 * r + k. */
  lemma BoxesRowMajor()
    ensures |Boxes()| == 81
    ensures forall c: Cell :: Boxes()[9 * c.row + c.col] == c
  {
    forall c: Cell ensures Boxes()[9 * c.row + c.col] == c {
      PositionOf(c);
    }
  }

  /** The i-th box is in row i / 9 and column i % 9. */
  lemma BoxAt(i: int)
    requires 0 <= i < 81
    ensures |Boxes()| == 81 && Boxes()[i] == Cell(i / 9, i % 9)
  {
  }

  /** Every cell is a box, and no box is listed twice. */
  lemma BoxesComplete()
    ensures forall c: Cell :: c in Boxes()
    ensures Distinct(Boxes())
  {
    BoxesRowMajor();
    forall c: Cell ensures c in Boxes() {
      assert Boxes()[9 * c.row + c.col] == c;
    }
    forall i, j | 0 <= i < j < 81 ensures Boxes()[i] != Boxes()[j] {
      assert i == 9 * (i / 9) + i % 9 && j == 9 * (j / 9) + j % 9;
    }
  }

  // ---------------------------------------------------------------------
  // Units

  lemma AllIndices(x: Index)
    ensures x in Rows() && x in Cols()
  {
    assert Rows()[x] == x && Cols()[x] == x;
  }

  lemma InRowUnit(r: Index, s: Cell)
    ensures s in RowUnits()[r] <==> s.row == r
  {
    AllIndices(s.col);
    CrossMember([r], Cols(), s);
  }

  lemma InColumnUnit(c: Index, s: Cell)
    ensures s in ColumnUnits()[c] <==> s.col == c
  {
    AllIndices(s.row);
    CrossMember(Rows(), [c], s);
  }

  lemma InTriple(t: int, x: Index)
    requires 0 <= t < 3
    ensures x in Triples[t] <==> x / 3 == t
  {
  }

  lemma InSquareUnit(k: int, s: Cell)
    requires 0 <= k < 9
    ensures s in SquareUnits()[k] <==> k == SquareIndex(s)
  {
    CrossMember(Triples[k / 3], Triples[k % 3], s);
    InTriple(k / 3, s.row);
    InTriple(k % 3, s.col);
  }

  lemma {:induction false} UnitsContainingAppend(xs: seq<seq<Cell>>, ys: seq<seq<Cell>>, s: Cell)
    ensures UnitsContaining(xs + ys, s) == UnitsContaining(xs, s) + UnitsContaining(ys, s)
  {
    if xs == [] {
      assert xs + ys == ys;
    } else {
      assert (xs + ys)[0] == xs[0];
      assert (xs + ys)[1..] == xs[1..] + ys;
      UnitsContainingAppend(xs[1..], ys, s);
    }
  }

  /** When exactly the k-th unit of `us` contains `s`, the filter keeps only that one. */
  lemma {:induction false} UnitsContainingOne(us: seq<seq<Cell>>, s: Cell, k: int)
    requires 0 <= k < |us| && s in us[k]
    requires forall j :: 0 <= j < |us| && j != k ==> s !in us[j]
    ensures UnitsContaining(us, s) == [us[k]]
  {
    if k == 0 {
      UnitsContainingNone(us[1..], s);
    } else {
      UnitsContainingOne(us[1..], s, k - 1);
    }
  }

  lemma {:induction false} UnitsContainingNone(us: seq<seq<Cell>>, s: Cell)
    requires forall j :: 0 <= j < |us| ==> s !in us[j]
    ensures UnitsContaining(us, s) == []
  {
    if us != [] {
      UnitsContainingNone(us[1..], s);
    }
  }

  lemma RowUnitsContaining(s: Cell)
    ensures UnitsContaining(RowUnits(), s) == [RowUnits()[s.row]]
  {
    var us := RowUnits();
    forall j | 0 <= j < |us| && j != s.row ensures s !in us[j] {
      InRowUnit(j, s);
    }
    InRowUnit(s.row, s);
    UnitsContainingOne(us, s, s.row);
  }

  lemma ColumnUnitsContaining(s: Cell)
    ensures UnitsContaining(ColumnUnits(), s) == [ColumnUnits()[s.col]]
  {
    var us := ColumnUnits();
    forall j | 0 <= j < |us| && j != s.col ensures s !in us[j] {
      InColumnUnit(j, s);
    }
    InColumnUnit(s.col, s);
    UnitsContainingOne(us, s, s.col);
  }

  lemma SquareUnitsContaining(s: Cell)
    ensures UnitsContaining(SquareUnits(), s) == [SquareUnits()[SquareIndex(s)]]
  {
    var us := SquareUnits();
    forall j | 0 <= j < |us| && j != SquareIndex(s) ensures s !in us[j] {
      InSquareUnit(j, s);
    }
    InSquareUnit(SquareIndex(s), s);
    UnitsContainingOne(us, s, SquareIndex(s));
  }

  lemma ThreeSingletons<T>(a: T, b: T, c: T)
    ensures [a] + [b] + [c] == [a, b, c]
  {
  }

  /** units[s] is s's row, then its column, then its square. */
  lemma UnitsOf(s: Cell)
    ensures Units(s) == [RowUnits()[s.row], ColumnUnits()[s.col], SquareUnits()[SquareIndex(s)]]
  {
    var rs, cs, ss := RowUnits(), ColumnUnits(), SquareUnits();
    RowUnitsContaining(s);
    ColumnUnitsContaining(s);
    SquareUnitsContaining(s);
    UnitsContainingAppend(rs + cs, ss, s);
    UnitsContainingAppend(rs, cs, s);
    calc {
      Units(s);
      UnitsContaining(rs + cs + ss, s);
      UnitsContaining(rs, s) + UnitsContaining(cs, s) + UnitsContaining(ss, s);
      [rs[s.row]] + [cs[s.col]] + [ss[SquareIndex(s)]];
      { ThreeSingletons(rs[s.row], cs[s.col], ss[SquareIndex(s)]); }
      [rs[s.row], cs[s.col], ss[SquareIndex(s)]];
    }
  }

  /** unitlist holds 27 units of 9 distinct cells each. */
  lemma UnitlistShape()
    ensures |Unitlist()| == 27
    ensures forall k :: 0 <= k < 27 ==> |Unitlist()[k]| == 9 && Distinct(Unitlist()[k])
  {
    forall k | 0 <= k < 27 ensures |Unitlist()[k]| == 9 && Distinct(Unitlist()[k]) {
      UnitShape(k);
    }
  }

  lemma UnitShape(k: int)
    requires 0 <= k < 27
    ensures |Unitlist()[k]| == 9 && Distinct(Unitlist()[k])
  {
    UnitlistAt(k);
    if k < 9 {
      RowUnitShape(k);
    } else if k < 18 {
      ColumnUnitShape(k - 9);
    } else {
      SquareUnitShape(k - 18);
    }
  }

  lemma RowUnitShape(r: Index)
    ensures |RowUnits()[r]| == 9 && Distinct(RowUnits()[r])
  {
    CrossLength([r], Cols());
    CrossDistinct([r], Cols());
  }

  lemma ColumnUnitShape(c: Index)
    ensures |ColumnUnits()[c]| == 9 && Distinct(ColumnUnits()[c])
  {
    CrossLength(Rows(), [c]);
    CrossDistinct(Rows(), [c]);
  }

  lemma SquareUnitShape(k: int)
    requires 0 <= k < 9
    ensures |SquareUnits()[k]| == 9 && Distinct(SquareUnits()[k])
  {
    CrossLength(Triples[k / 3], Triples[k % 3]);
    CrossDistinct(Triples[k / 3], Triples[k % 3]);
  }

  /** The units of unitlist that contain s are exactly units[s]. */
  lemma UnitsAreTheContainingUnits(s: Cell, k: int)
    requires 0 <= k < 27
    ensures s in Unitlist()[k] <==> Unitlist()[k] in Units(s)
  {
    ThreeUnitsPerCell(s);
    if s in Unitlist()[k] {
      ContainingUnitListed(s, k);
    }
  }

  /** A unit of unitlist holding `s` is one of s's row, column and square. */
  lemma ContainingUnitListed(s: Cell, k: int)
    requires 0 <= k < 27 && s in Unitlist()[k]
    ensures Unitlist()[k] in Units(s)
  {
    UnitlistAt(k);
    if k < 9 {
      RowUnitListed(s, k);
    } else if k < 18 {
      ColumnUnitListed(s, k - 9);
    } else {
      SquareUnitListed(s, k - 18);
    }
  }

  lemma RowUnitListed(s: Cell, r: Index)
    requires s in RowUnits()[r]
    ensures RowUnits()[r] in Units(s)
  {
    InRowUnit(r, s);
    UnitsOf(s);
    ThreeListed(Units(s), RowUnits()[s.row], ColumnUnits()[s.col], SquareUnits()[SquareIndex(s)]);
  }

  lemma ColumnUnitListed(s: Cell, c: Index)
    requires s in ColumnUnits()[c]
    ensures ColumnUnits()[c] in Units(s)
  {
    InColumnUnit(c, s);
    UnitsOf(s);
    ThreeListed(Units(s), RowUnits()[s.row], ColumnUnits()[s.col], SquareUnits()[SquareIndex(s)]);
  }

  lemma SquareUnitListed(s: Cell, k: int)
    requires 0 <= k < 9 && s in SquareUnits()[k]
    ensures SquareUnits()[k] in Units(s)
  {
    InSquareUnit(k, s);
    UnitsOf(s);
    ThreeListed(Units(s), RowUnits()[s.row], ColumnUnits()[s.col], SquareUnits()[SquareIndex(s)]);
  }

  /** Where the rows, columns and squares sit in unitlist. */
  lemma UnitlistAt(k: int)
    requires 0 <= k < 27
    ensures k < 9 ==> Unitlist()[k] == RowUnits()[k]
    ensures 9 <= k < 18 ==> Unitlist()[k] == ColumnUnits()[k - 9]
    ensures 18 <= k ==> Unitlist()[k] == SquareUnits()[k - 18]
  {
  }

  lemma ThreeListed<T>(us: seq<T>, a: T, b: T, c: T)
    requires us == [a, b, c]
    ensures a in us && b in us && c in us
  {
    assert us[0] == a && us[1] == b && us[2] == c;
  }

  /** A cell's row, column and square are three different units. */
  lemma UnitsDiffer(s: Cell)
    ensures RowUnits()[s.row] != ColumnUnits()[s.col]
    ensures RowUnits()[s.row] != SquareUnits()[SquareIndex(s)]
    ensures ColumnUnits()[s.col] != SquareUnits()[SquareIndex(s)]
  {
    var a := Cell(s.row, if s.col < 3 then s.col + 3 else s.col - 3);
    assert a.col / 3 != s.col / 3;
    InRowUnit(s.row, a);
    InColumnUnit(s.col, a);
    InSquareUnit(SquareIndex(s), a);
    var b := Cell(if s.row < 3 then s.row + 3 else s.row - 3, s.col);
    assert b.row / 3 != s.row / 3;
    InColumnUnit(s.col, b);
    InSquareUnit(SquareIndex(s), b);
  }

  /** Every cell lies in exactly three different units: its row, column and square. */
  lemma ThreeUnitsPerCell(s: Cell)
    ensures |Units(s)| == 3 && Distinct(Units(s))
    ensures forall u :: u in Units(s) ==> s in u
  {
    var ru, cu, su := RowUnits()[s.row], ColumnUnits()[s.col], SquareUnits()[SquareIndex(s)];
    UnitsOf(s);
    UnitsDiffer(s);
    InRowUnit(s.row, s);
    InColumnUnit(s.col, s);
    InSquareUnit(SquareIndex(s), s);
    ThreeDistinct(ru, cu, su, s);
  }

  lemma ThreeDistinct(a: seq<Cell>, b: seq<Cell>, c: seq<Cell>, s: Cell)
    requires a != b && a != c && b != c
    requires s in a && s in b && s in c
    ensures |[a, b, c]| == 3 && Distinct([a, b, c])
    ensures forall u :: u in [a, b, c] ==> s in u
  {
  }

  /** `a` and `b` are different boxes of one row, column or square. */
  predicate ArePeers(a: Cell, b: Cell) {
    a != b && (a.row == b.row || a.col == b.col || SameSquare(a, b))
  }

  /** peers[s]: the other cells of s's row, column or square. */
  lemma PeersCharacterization(s: Cell, c: Cell)
    ensures c in Peers(s) <==> c != s && (c.row == s.row || c.col == s.col || SameSquare(c, s))
    ensures c in Peers(s) <==> ArePeers(c, s) && ArePeers(s, c)
  {
    UnitsOf(s);
    FlattenThree(Units(s), RowUnits()[s.row], ColumnUnits()[s.col], SquareUnits()[SquareIndex(s)], c);
    InRowUnit(s.row, c);
    InColumnUnit(s.col, c);
    InSquareUnit(SquareIndex(s), c);
    SquareIndexSame(c, s);
  }

  lemma FlattenThree(us: seq<seq<Cell>>, a: seq<Cell>, b: seq<Cell>, d: seq<Cell>, x: Cell)
    requires us == [a, b, d]
    ensures x in Flatten(us) <==> x in a || x in b || x in d
  {
    var t := us[1..];
    assert t == [b, d] && Flatten(us) == a + Flatten(t);
    var t' := t[1..];
    assert t' == [d] && Flatten(t) == b + Flatten(t');
    assert t'[1..] == [] && Flatten(t') == d;
  }

  /** Two cells have the same square index exactly when they share a square. */
  lemma SquareIndexSame(a: Cell, b: Cell)
    ensures SquareIndex(a) == SquareIndex(b) <==> SameSquare(a, b)
  {
    var x, y, x', y' := a.row / 3, a.col / 3, b.row / 3, b.col / 3;
    assert 0 <= y < 3 && 0 <= y' < 3;
    if 3 * x + y == 3 * x' + y' {
      assert x == x';
    }
  }

  /** A cell is never its own peer, and being peers is symmetric. */
  lemma PeersIrreflexiveSymmetric(a: Cell, b: Cell)
    ensures a !in Peers(a)
    ensures a in Peers(b) <==> b in Peers(a)
  {
    PeersCharacterization(a, a);
    PeersCharacterization(a, b);
    PeersCharacterization(b, a);
  }

  // ---------------------------------------------------------------------
  // Ordering of names

  /** Python's ordering of strings (lexicographic, a proper prefix first). */
  predicate StrLess(x: string, y: string) {
    if x == [] then y != []
    else if y == [] then false
    else if x[0] != y[0] then x[0] < y[0]
    else StrLess(x[1..], y[1..])
  }

  lemma {:induction false} StrLessAsymmetric(x: string, y: string)
    requires StrLess(x, y)
    ensures !StrLess(y, x)
  {
    if x != [] && x[0] == y[0] {
      StrLessAsymmetric(x[1..], y[1..]);
    }
  }

  lemma {:induction false} StrLessTrans(x: string, y: string, z: string)
    requires StrLess(x, y) && StrLess(y, z)
    ensures StrLess(x, z)
  {
    if x != [] && x[0] == y[0] && y[0] == z[0] {
      StrLessTrans(x[1..], y[1..], z[1..]);
    }
  }

  lemma {:induction false} StrLessTotal(x: string, y: string)
    requires x != y
    ensures StrLess(x, y) || StrLess(y, x)
  {
    if x != [] && y != [] && x[0] == y[0] {
      assert x == [x[0]] + x[1..] && y == [y[0]] + y[1..];
      StrLessTotal(x[1..], y[1..]);
    }
  }

  lemma LabelOrder(a: Cell, b: Cell)
    ensures RowLabel(a.row) < RowLabel(b.row) <==> a.row < b.row
    ensures RowLabel(a.row) == RowLabel(b.row) <==> a.row == b.row
    ensures ColLabel(a.col) < ColLabel(b.col) <==> a.col < b.col
    ensures ColLabel(a.col) == ColLabel(b.col) <==> a.col == b.col
  {
    assert RowLabel(a.row) as int == 'A' as int + a.row;
    assert RowLabel(b.row) as int == 'A' as int + b.row;
    assert ColLabel(a.col) as int == '1' as int + a.col;
    assert ColLabel(b.col) as int == '1' as int + b.col;
  }

  /** Comparing box names is comparing (row, column) positions. */
  lemma NameOrder(a: Cell, b: Cell)
    ensures StrLess(Name(a), Name(b)) <==> a.row < b.row || (a.row == b.row && a.col < b.col)
    ensures Name(a) == Name(b) <==> a == b
  {
    var x, y := Name(a), Name(b);
    LabelOrder(a, b);
    assert x[0] == RowLabel(a.row) && y[0] == RowLabel(b.row);
    assert x[1..] == [ColLabel(a.col)] && y[1..] == [ColLabel(b.col)];
    assert x[1..][1..] == [] && y[1..][1..] == [];
    assert StrLess(x[1..], y[1..]) <==> ColLabel(a.col) < ColLabel(b.col);
    if x == y {
      assert x[0] == y[0] && x[1] == y[1];
    }
  }

  /** Two different cells of one unit are peers. */
  lemma SameUnitPeers(k: int, a: Cell, b: Cell)
    requires 0 <= k < 27 && a in Unitlist()[k] && b in Unitlist()[k] && a != b
    ensures b in Peers(a)
  {
    UnitlistAt(k);
    if k < 9 {
      SameRowPeers(k, a, b);
    } else if k < 18 {
      SameColumnPeers(k - 9, a, b);
    } else {
      SameSquarePeers(k - 18, a, b);
    }
  }

  lemma SameRowPeers(r: Index, a: Cell, b: Cell)
    requires a in RowUnits()[r] && b in RowUnits()[r] && a != b
    ensures b in Peers(a)
  {
    InRowUnit(r, a);
    InRowUnit(r, b);
    PeersCharacterization(a, b);
  }

  lemma SameColumnPeers(c: Index, a: Cell, b: Cell)
    requires a in ColumnUnits()[c] && b in ColumnUnits()[c] && a != b
    ensures b in Peers(a)
  {
    InColumnUnit(c, a);
    InColumnUnit(c, b);
    PeersCharacterization(a, b);
  }

  lemma SameSquarePeers(k: int, a: Cell, b: Cell)
    requires 0 <= k < 9 && a in SquareUnits()[k] && b in SquareUnits()[k] && a != b
    ensures b in Peers(a)
  {
    InSquareUnit(k, a);
    InSquareUnit(k, b);
    SquareIndexSame(a, b);
    PeersCharacterization(a, b);
  }
}
