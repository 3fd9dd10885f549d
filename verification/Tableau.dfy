/**
 The sparse tableau of the simplex kernel: a row is a list of cells, each pointing at the matching
 cell of its column and back. The meaning of a row is the linear form `Eval`; every statement about
 a row is made through that form, so that it does not depend on the order of the cells.
 */
module Tableau {
  import opened Products

  /** One coefficient of a row, in column `col`; `off` is where that column keeps the cell that points back. */
  datatype RowCell = RowCell(col: nat, off: nat, coeff: real)

  /** A cell of a column: its row and the offset of the matching row cell. */
  datatype ColCell = ColCell(row: nat, off: nat)

  type Row = seq<RowCell>
  type Col = seq<ColCell>

  /** An assignment of reals to columns. */
  type Vec = nat -> real

  // ----- the linear form a row denotes -----

  function Unit(c: nat): Vec {
    k => if k == c then 1.0 else 0.0
  }

  function Term(c: RowCell, v: Vec): real {
    Times(c.coeff, v(c.col))
  }

  ghost function Eval(row: Row, v: Vec): real {
    if row == [] then 0.0 else Eval(row[..|row| - 1], v) + Term(row[|row| - 1], v)
  }

  /** The coefficient of a column in a row (0 when it does not occur). */
  ghost function Coef(row: Row, c: nat): real {
    Eval(row, Unit(c))
  }

  ghost predicate SameEntries(a: Row, b: Row) {
    |a| == |b| && forall k :: 0 <= k < |a| ==> a[k].col == b[k].col && a[k].coeff == b[k].coeff
  }

  lemma {:induction false} EvalSame(a: Row, b: Row, v: Vec)
    requires SameEntries(a, b)
    ensures Eval(a, v) == Eval(b, v)
    decreases |a|
  {
    if a != [] {
      EvalSame(a[..|a| - 1], b[..|b| - 1], v);
    }
  }

  lemma {:induction false} EvalSameAll(a: Row, b: Row)
    requires SameEntries(a, b)
    ensures forall v: Vec :: Eval(a, v) == Eval(b, v)
  {
    forall v: Vec ensures Eval(a, v) == Eval(b, v) {
      EvalSame(a, b, v);
    }
  }

  lemma {:induction false} EvalUpdate(row: Row, k: nat, c: RowCell, v: Vec)
    requires k < |row|
    ensures Eval(row[k := c], v) == Eval(row, v) - Term(row[k], v) + Term(c, v)
    decreases |row|
  {
    var n := |row| - 1;
    if k == n {
      assert row[k := c][..n] == row[..n];
    } else {
      assert row[k := c][..n] == row[..n][k := c];
      EvalUpdate(row[..n], k, c, v);
    }
  }

  /** The row left when the last cell moves into the hole at `k`. */
  function SwapRemove<T>(s: seq<T>, k: nat): seq<T>
    requires k < |s|
  {
    if k == |s| - 1 then s[..k] else s[..|s| - 1][k := s[|s| - 1]]
  }

  lemma {:induction false} EvalSwapRemove(row: Row, k: nat, v: Vec)
    requires k < |row|
    ensures Eval(SwapRemove(row, k), v) == Eval(row, v) - Term(row[k], v)
  {
    var n := |row| - 1;
    var last := row[n];
    assert Eval(row, v) == Eval(row[..n], v) + Term(last, v);
    if k != n {
      EvalUpdate(row[..n], k, last, v);
    }
  }

  lemma {:induction false} TermStep(c: RowCell, v: Vec, w: Vec, u: Vec, d: real)
    requires w(c.col) == v(c.col) + Times(d, u(c.col))
    ensures Term(c, w) == Term(c, v) + Times(d, Term(c, u))
  {
    Distribute(c.coeff, v(c.col), Times(d, u(c.col)));
    Commute(c.coeff, d, u(c.col));
  }

  /** `Eval` is linear: moving the row's columns by `d * u` moves its value by `d` times its value at `u`. */
  lemma {:induction false} EvalLinear(row: Row, v: Vec, w: Vec, u: Vec, d: real)
    requires forall k :: 0 <= k < |row| ==> w(row[k].col) == v(row[k].col) + Times(d, u(row[k].col))
    ensures Eval(row, w) == Eval(row, v) + Times(d, Eval(row, u))
    decreases |row|
  {
    if row != [] {
      var n := |row| - 1;
      EvalLinear(row[..n], v, w, u, d);
      TermStep(row[n], v, w, u, d);
      Distribute(d, Eval(row[..n], u), Term(row[n], u));
    }
  }

  /** Two assignments that agree on the row except at columns `e` and `b`. */
  lemma {:induction false} EvalShift(row: Row, v: Vec, w: Vec, e: nat, de: real, b: nat, db: real)
    requires e != b
    requires forall k :: 0 <= k < |row| ==>
      var c := row[k].col; w(c) == v(c) + (if c == e then de else if c == b then db else 0.0)
    ensures Eval(row, w) == Eval(row, v) + Times(de, Coef(row, e)) + Times(db, Coef(row, b))
  {
    var m: Vec := (k: nat) => v(k) + Times(de, Unit(e)(k));
    EvalLinear(row, v, m, Unit(e), de);
    EvalLinear(row, m, w, Unit(b), db);
  }

  lemma {:induction false} EvalAgree(row: Row, v: Vec, w: Vec)
    requires forall k :: 0 <= k < |row| ==> v(row[k].col) == w(row[k].col)
    ensures Eval(row, v) == Eval(row, w)
    decreases |row|
  {
    if row != [] {
      EvalAgree(row[..|row| - 1], v, w);
    }
  }

  // ----- the linked representation -----

  ghost predicate RowLink(rows: seq<Row>, cols: seq<Col>, r: nat, k: nat)
    requires r < |rows| && k < |rows[r]|
  {
    var c := rows[r][k];
    c.col < |cols| && c.off < |cols[c.col]| && cols[c.col][c.off] == ColCell(r, k)
  }

  ghost predicate ColLink(rows: seq<Row>, cols: seq<Col>, c: nat, k: nat)
    requires c < |cols| && k < |cols[c]|
  {
    var d := cols[c][k];
    d.row < |rows| && d.off < |rows[d.row]| && rows[d.row][d.off].col == c && rows[d.row][d.off].off == k
  }

  /** Row cells and column cells point at each other. */
  ghost predicate Linked(rows: seq<Row>, cols: seq<Col>) {
    && (forall r, k :: 0 <= r < |rows| && 0 <= k < |rows[r]| ==> RowLink(rows, cols, r, k))
    && (forall c, k :: 0 <= c < |cols| && 0 <= k < |cols[c]| ==> ColLink(rows, cols, c, k))
  }

  ghost predicate DistinctCols(row: Row) {
    forall k, m :: 0 <= k < m < |row| ==> row[k].col != row[m].col
  }

  /** Linked, with at most one cell for a row and a column. */
  ghost predicate Sparse(rows: seq<Row>, cols: seq<Col>) {
    Linked(rows, cols) && forall r :: 0 <= r < |rows| ==> DistinctCols(rows[r])
  }

  ghost predicate NoZero(row: Row) {
    forall k :: 0 <= k < |row| ==> row[k].coeff != 0.0
  }

  ghost predicate NoZeros(rows: seq<Row>) {
    forall r :: 0 <= r < |rows| ==> NoZero(rows[r])
  }

  ghost predicate Occurs(row: Row, c: nat) {
    exists k :: 0 <= k < |row| && row[k].col == c
  }

  lemma {:induction false} OccursInColumn(rows: seq<Row>, cols: seq<Col>, r: nat, c: nat)
    requires Linked(rows, cols) && r < |rows| && c < |cols|
    ensures Occurs(rows[r], c) <==> exists k :: 0 <= k < |cols[c]| && cols[c][k].row == r
  {
    if Occurs(rows[r], c) {
      var k :| 0 <= k < |rows[r]| && rows[r][k].col == c;
      assert RowLink(rows, cols, r, k);
      assert cols[c][rows[r][k].off].row == r;
    }
    if k :| 0 <= k < |cols[c]| && cols[c][k].row == r {
      assert ColLink(rows, cols, c, k);
    }
  }

  lemma {:induction false} CoefAbsent(row: Row, c: nat)
    requires !Occurs(row, c)
    ensures Coef(row, c) == 0.0
    decreases |row|
  {
    if row != [] {
      var n := |row| - 1;
      forall k | 0 <= k < n ensures row[..n][k].col != c {
        assert row[k].col != c;
      }
      CoefAbsent(row[..n], c);
      assert row[n].col != c;
    }
  }

  /** With distinct columns, the coefficient of a column is that of its cell. */
  lemma {:induction false} CoefAt(row: Row, k: nat)
    requires k < |row| && DistinctCols(row)
    ensures Coef(row, row[k].col) == row[k].coeff
    decreases |row|
  {
    var n := |row| - 1;
    if k < n {
      CoefAt(row[..n], k);
    } else {
      CoefAbsent(row[..n], row[n].col);
    }
  }

  /** A column occurs in a row without zeros exactly when its coefficient there is not 0. */
  lemma {:induction false} CoefOccurs(row: Row, c: nat)
    requires DistinctCols(row) && NoZero(row)
    ensures Occurs(row, c) <==> Coef(row, c) != 0.0
  {
    if Occurs(row, c) {
      var k :| 0 <= k < |row| && row[k].col == c;
      CoefAt(row, k);
    } else {
      CoefAbsent(row, c);
    }
  }

  /** The rows listed by a column, in order. */
  ghost predicate SameRows(a: Col, b: Col) {
    |a| == |b| && forall k :: 0 <= k < |a| ==> a[k].row == b[k].row
  }

  // ----- removing a cell -----

  /** Where a cell of the shortened list was before the last cell moved into the hole. */
  function Source(hole: nat, last: nat, k: nat): nat {
    if k == hole then last else k
  }

  /** The tableau after the cell at `rowOff` of `row` was removed, cell by cell. */
  ghost predicate Removed(rows: seq<Row>, cols: seq<Col>, row: nat, rowOff: nat, rows': seq<Row>, cols': seq<Col>)
    requires row < |rows| && rowOff < |rows[row]|
    requires var cell := rows[row][rowOff]; cell.col < |cols| && cell.off < |cols[cell.col]|
  {
    var col, colOff, rowLast := rows[row][rowOff].col, rows[row][rowOff].off, |rows[row]| - 1;
    var colLast := |cols[col]| - 1;
    && |rows'| == |rows| && |cols'| == |cols|
    && (forall r :: 0 <= r < |rows| ==> |rows'[r]| == if r == row then rowLast else |rows[r]|)
    && (forall c :: 0 <= c < |cols| ==> |cols'[c]| == if c == col then colLast else |cols[c]|)
    && (forall r, k {:trigger rows'[r][k]} :: 0 <= r < |rows| && 0 <= k < |rows'[r]| ==>
          var d := rows[r][if r == row then Source(rowOff, rowLast, k) else k];
          rows'[r][k] == d.(off := if d.col == col && d.off == colLast then colOff else d.off))
    && (forall c, k {:trigger cols'[c][k]} :: 0 <= c < |cols| && 0 <= k < |cols'[c]| ==>
          var d := cols[c][if c == col then Source(colOff, colLast, k) else k];
          cols'[c][k] == d.(off := if d.row == row && d.off == rowLast then rowOff else d.off))
  }

  lemma {:induction false} RemovedLinked(rows: seq<Row>, cols: seq<Col>, row: nat, rowOff: nat, rows': seq<Row>, cols': seq<Col>)
    requires Sparse(rows, cols) && row < |rows| && rowOff < |rows[row]|
    requires RowLink(rows, cols, row, rowOff)
    requires Removed(rows, cols, row, rowOff, rows', cols')
    ensures Sparse(rows', cols')
  {
    var col, colOff, rowLast := rows[row][rowOff].col, rows[row][rowOff].off, |rows[row]| - 1;
    var colLast := |cols[col]| - 1;
    forall r, k | 0 <= r < |rows'| && 0 <= k < |rows'[r]| ensures RowLink(rows', cols', r, k) {
      var j := if r == row then Source(rowOff, rowLast, k) else k;
      assert RowLink(rows, cols, r, j);
      var d, d' := rows[r][j], rows'[r][k];
      assert d'.col == d.col;
      if d.col == col && d.off == colLast {
        assert cols'[col][colOff] == ColCell(r, k);
      } else {
        assert cols'[d.col][d.off] == ColCell(r, k);
      }
    }
    forall c, k | 0 <= c < |cols'| && 0 <= k < |cols'[c]| ensures ColLink(rows', cols', c, k) {
      var j := if c == col then Source(colOff, colLast, k) else k;
      assert ColLink(rows, cols, c, j);
      var d, d' := cols[c][j], cols'[c][k];
      assert d'.row == d.row;
      if d.row == row && d.off == rowLast {
        assert rows'[row][rowOff].off == k;
      } else {
        assert rows'[d.row][d.off].off == k;
      }
    }
    forall r | 0 <= r < |rows'| ensures DistinctCols(rows'[r]) {
      assert DistinctCols(rows[r]);
      forall k, m | 0 <= k < m < |rows'[r]| ensures rows'[r][k].col != rows'[r][m].col {
        var k0 := if r == row then Source(rowOff, rowLast, k) else k;
        var m0 := if r == row then Source(rowOff, rowLast, m) else m;
        assert k0 != m0 && rows'[r][k].col == rows[r][k0].col && rows'[r][m].col == rows[r][m0].col;
      }
    }
  }

  /** The first half of a removal: the last cell of the column has moved into the hole. */
  ghost predicate ColMoved(rows: seq<Row>, cols: seq<Col>, row: nat, rowOff: nat, rows1: seq<Row>, cols1: seq<Col>)
    requires row < |rows| && rowOff < |rows[row]|
    requires RowLink(rows, cols, row, rowOff)
  {
    var col, colOff := rows[row][rowOff].col, rows[row][rowOff].off;
    var colLast := |cols[col]| - 1;
    && cols1 == cols[col := cols[col][colOff := cols[col][colLast]]]
    && |rows1| == |rows|
    && (forall r :: 0 <= r < |rows| ==> |rows1[r]| == |rows[r]|)
    && (forall r, k {:trigger rows1[r][k]} :: 0 <= r < |rows| && 0 <= k < |rows[r]| ==>
          var d := rows[r][k];
          rows1[r][k] == d.(off := if d.col == col && d.off == colLast then colOff else d.off))
  }

  lemma {:induction false} RemovedFromMoved(rows: seq<Row>, cols: seq<Col>, row: nat, rowOff: nat,
                         rows1: seq<Row>, cols1: seq<Col>, rows': seq<Row>, cols': seq<Col>)
    requires Sparse(rows, cols) && row < |rows| && rowOff < |rows[row]|
    requires RowLink(rows, cols, row, rowOff)
    requires ColMoved(rows, cols, row, rowOff, rows1, cols1)
    requires var col, rowLast := rows[row][rowOff].col, |rows[row]| - 1;
      var colLast, tail := |cols[col]| - 1, rows1[row][rowLast];
      if rowOff == rowLast then
        rows' == rows1[row := rows1[row][..rowLast]] && cols' == cols1[col := cols1[col][..colLast]]
      else
        tail.col < |cols1| && tail.off < |cols1[tail.col]| && tail.col != col &&
        rows' == rows1[row := rows1[row][rowOff := tail][..rowLast]] &&
        cols' == cols1[tail.col := cols1[tail.col][tail.off := cols1[tail.col][tail.off].(off := rowOff)]]
                      [col := cols1[col][..colLast]]
    ensures Removed(rows, cols, row, rowOff, rows', cols')
  {
    var col, colOff, rowLast := rows[row][rowOff].col, rows[row][rowOff].off, |rows[row]| - 1;
    var colLast := |cols[col]| - 1;
    assert RowLink(rows, cols, row, rowLast);
    forall c, k | 0 <= c < |cols| && 0 <= k < |cols'[c]|
      ensures var d := cols[c][if c == col then Source(colOff, colLast, k) else k];
        cols'[c][k] == d.(off := if d.row == row && d.off == rowLast then rowOff else d.off)
    {
      assert ColLink(rows, cols, c, if c == col then Source(colOff, colLast, k) else k);
    }
  }

  lemma {:induction false} RemovedEntries(rows: seq<Row>, cols: seq<Col>, row: nat, rowOff: nat, rows': seq<Row>, cols': seq<Col>)
    requires row < |rows| && rowOff < |rows[row]|
    requires RowLink(rows, cols, row, rowOff)
    requires Removed(rows, cols, row, rowOff, rows', cols')
    ensures SameEntries(rows'[row], SwapRemove(rows[row], rowOff))
    ensures forall r :: 0 <= r < |rows| && r != row ==> SameEntries(rows'[r], rows[r])
    ensures forall c :: 0 <= c < |cols| && c != rows[row][rowOff].col ==> SameRows(cols'[c], cols[c])
    ensures var cell := rows[row][rowOff]; SameRows(cols'[cell.col], SwapRemove(cols[cell.col], cell.off))
  {
    var cell := rows[row][rowOff];
    var s, u := SwapRemove(rows[row], rowOff), SwapRemove(cols[cell.col], cell.off);
    forall k | 0 <= k < |s| ensures rows'[row][k].col == s[k].col && rows'[row][k].coeff == s[k].coeff {
      assert s[k] == rows[row][Source(rowOff, |rows[row]| - 1, k)];
    }
    forall k | 0 <= k < |u| ensures cols'[cell.col][k].row == u[k].row {
      assert u[k] == cols[cell.col][Source(cell.off, |cols[cell.col]| - 1, k)];
    }
  }

  // ----- adding to a coefficient -----

  lemma {:induction false} SparseRecoeff(rows: seq<Row>, cols: seq<Col>, rows': seq<Row>)
    requires Sparse(rows, cols) && |rows'| == |rows|
    requires forall r :: 0 <= r < |rows| ==> SameCells(rows'[r], rows[r])
    ensures Sparse(rows', cols)
  {
    forall r, k | 0 <= r < |rows'| && 0 <= k < |rows'[r]| ensures RowLink(rows', cols, r, k) {
      assert SameCells(rows'[r], rows[r]);
      assert RowLink(rows, cols, r, k);
    }
    forall c, k | 0 <= c < |cols| && 0 <= k < |cols[c]| ensures ColLink(rows', cols, c, k) {
      assert ColLink(rows, cols, c, k);
      assert SameCells(rows'[cols[c][k].row], rows[cols[c][k].row]);
    }
    forall r | 0 <= r < |rows'| ensures DistinctCols(rows'[r]) {
      assert SameCells(rows'[r], rows[r]) && DistinctCols(rows[r]);
    }
  }

  /** The two rows differ at most in coefficients. */
  ghost predicate SameCells(a: Row, b: Row) {
    |a| == |b| && forall k :: 0 <= k < |a| ==> a[k].col == b[k].col && a[k].off == b[k].off
  }

  /** `offs` maps each column of the row to its position there. */
  ghost predicate Indexes(offs: map<nat, nat>, row: Row) {
    && (forall j :: j in offs ==> offs[j] < |row| && row[offs[j]].col == j)
    && (forall k :: 0 <= k < |row| ==> row[k].col in offs && offs[row[k].col] == k)
  }

  /** `row'` is `row` with `d` added to the coefficient of column `j`, in a new last cell if need be. */
  ghost predicate Added(row: Row, row': Row, offs: map<nat, nat>, j: nat, d: real)
    requires Indexes(offs, row)
  {
    if j !in offs then
      |row'| == |row| + 1 && row'[..|row|] == row && row'[|row|].col == j && row'[|row|].coeff == d
    else
      |row'| == |row| && row' == row[offs[j] := row[offs[j]].(coeff := row[offs[j]].coeff + d)]
  }

  lemma {:induction false} AddedEval(row: Row, row': Row, offs: map<nat, nat>, j: nat, d: real, v: Vec)
    requires Indexes(offs, row) && Added(row, row', offs, j, d)
    ensures Eval(row', v) == Eval(row, v) + Times(d, v(j))
  {
    if j !in offs {
      assert Term(row'[|row|], v) == Times(d, v(j));
    } else {
      var k := offs[j];
      EvalUpdate(row, k, row'[k], v);
      DistributeRight(row[k].coeff, d, v(j));
    }
  }

  // ----- cancelled coefficients -----

  ghost function CountZeros(row: Row): nat {
    if row == [] then 0
    else CountZeros(row[..|row| - 1]) + (if row[|row| - 1].coeff == 0.0 then 1 else 0)
  }

  lemma {:induction false} CountZerosNone(row: Row)
    ensures CountZeros(row) == 0 <==> NoZero(row)
    decreases |row|
  {
    if row != [] {
      var n := |row| - 1;
      CountZerosNone(row[..n]);
      if NoZero(row[..n]) && row[n].coeff != 0.0 {
        assert forall k :: 0 <= k < n ==> row[..n][k] == row[k];
      }
      if NoZero(row) {
        assert NoZero(row[..n]);
      }
    }
  }

  lemma {:induction false} CountZerosUpdate(row: Row, k: nat, c: RowCell)
    requires k < |row|
    ensures CountZeros(row[k := c])
         == CountZeros(row) - (if row[k].coeff == 0.0 then 1 else 0) + (if c.coeff == 0.0 then 1 else 0)
    decreases |row|
  {
    var n := |row| - 1;
    if k == n {
      assert row[k := c][..n] == row[..n];
    } else {
      assert row[k := c][..n] == row[..n][k := c];
      CountZerosUpdate(row[..n], k, c);
    }
  }

  lemma {:induction false} CountZerosSwapRemove(row: Row, k: nat)
    requires k < |row|
    ensures CountZeros(SwapRemove(row, k)) == CountZeros(row) - (if row[k].coeff == 0.0 then 1 else 0)
  {
    var n := |row| - 1;
    if k != n {
      CountZerosUpdate(row[..n], k, row[n]);
    }
  }

  lemma {:induction false} CountZerosSame(a: Row, b: Row)
    requires SameEntries(a, b)
    ensures CountZeros(a) == CountZeros(b)
    decreases |a|
  {
    if a != [] {
      CountZerosSame(a[..|a| - 1], b[..|b| - 1]);
    }
  }

  /** Zero coefficients occur only before position `k`. */
  ghost predicate ZerosBelow(row: Row, k: nat) {
    forall m :: k <= m < |row| ==> row[m].coeff != 0.0
  }

  // ----- one row added to another -----

  /** The value of the row without its cells of column `c`. */
  ghost function EvalBut(row: Row, c: nat, v: Vec): real {
    if row == [] then 0.0
    else EvalBut(row[..|row| - 1], c, v) + (if row[|row| - 1].col == c then 0.0 else Term(row[|row| - 1], v))
  }

  lemma {:induction false} EvalButAbsent(row: Row, c: nat, v: Vec)
    requires !Occurs(row, c)
    ensures EvalBut(row, c, v) == Eval(row, v)
    decreases |row|
  {
    if row != [] {
      var n := |row| - 1;
      assert row[n].col != c;
      assert forall k :: 0 <= k < n ==> row[..n][k] == row[k];
      EvalButAbsent(row[..n], c, v);
    }
  }

  lemma {:induction false} EvalButAt(row: Row, k: nat, v: Vec)
    requires k < |row| && DistinctCols(row)
    ensures EvalBut(row, row[k].col, v) == Eval(row, v) - Term(row[k], v)
    decreases |row|
  {
    var n := |row| - 1;
    if k < n {
      EvalButAt(row[..n], k, v);
    } else {
      assert forall m :: 0 <= m < n ==> row[..n][m] == row[m];
      EvalButAbsent(row[..n], row[k].col, v);
    }
  }

  /** `row` is `base` plus `alpha` times the cells of `added` other than those of column `c`. */
  ghost predicate Combined(base: Row, row: Row, added: Row, c: nat, alpha: real) {
    forall v: Vec :: Eval(row, v) == Eval(base, v) + Times(alpha, EvalBut(added, c, v))
  }

  lemma {:induction false} CombinedNone(base: Row, c: nat, alpha: real)
    ensures Combined(base, base, [], c, alpha)
  {
  }

  lemma {:induction false} CombinedSkip(base: Row, row: Row, added: Row, cell: RowCell, c: nat, alpha: real)
    requires Combined(base, row, added, c, alpha) && cell.col == c
    ensures Combined(base, row, added + [cell], c, alpha)
  {
    assert (added + [cell])[..|added|] == added;
  }

  lemma {:induction false} CombinedStep(base: Row, row: Row, row': Row, offs: map<nat, nat>, added: Row, cell: RowCell, c: nat, alpha: real)
    requires Combined(base, row, added, c, alpha) && cell.col != c
    requires Indexes(offs, row) && Added(row, row', offs, cell.col, Times(alpha, cell.coeff))
    ensures Combined(base, row', added + [cell], c, alpha)
  {
    assert (added + [cell])[..|added|] == added;
    forall v: Vec
      ensures Eval(row', v) == Eval(base, v) + Times(alpha, EvalBut(added + [cell], c, v))
    {
      AddedEval(row, row', offs, cell.col, Times(alpha, cell.coeff), v);
      Commute(alpha, cell.coeff, v(cell.col));
      Distribute(alpha, EvalBut(added, c, v), Term(cell, v));
    }
  }

  /** The zero coefficients of the row: `n` of them, all before `prev`; they and the cells from `prev` on are in columns of `added`. */
  ghost predicate Zeros(row: Row, n: nat, prev: nat, added: Row) {
    && CountZeros(row) == n
    && ZerosBelow(row, prev)
    && forall k :: 0 <= k < |row| && (row[k].coeff == 0.0 || prev <= k) ==> Occurs(added, row[k].col)
  }

  lemma {:induction false} OccursMore(added: Row, cell: RowCell, c: nat)
    requires Occurs(added, c)
    ensures Occurs(added + [cell], c)
  {
    var k :| 0 <= k < |added| && added[k].col == c;
    assert (added + [cell])[k].col == c;
  }

  lemma {:induction false} ZerosStep(row: Row, row': Row, offs: map<nat, nat>, n: nat, prev: nat, added: Row, cell: RowCell, d: real)
    requires Zeros(row, n, prev, added) && !Occurs(added, cell.col) && prev <= |row|
    requires d != 0.0 && Indexes(offs, row) && Added(row, row', offs, cell.col, d)
    ensures var zero := cell.col in offs && row'[offs[cell.col]].coeff == 0.0;
      Zeros(row', if zero then n + 1 else n, prev, added + [cell])
  {
    if cell.col in offs {
      var k := offs[cell.col];
      CountZerosUpdate(row, k, row'[k]);
    } else {
      assert row'[..|row|] == row;
    }
    forall k | 0 <= k < |row'| && (row'[k].coeff == 0.0 || prev <= k) ensures Occurs(added + [cell], row'[k].col) {
      if row'[k].col == cell.col {
        assert (added + [cell])[|added|].col == cell.col;
      } else {
        assert row'[k] == row[k];
        OccursMore(added, cell, row[k].col);
      }
    }
  }

  lemma {:induction false} SwapRemovedZero(row: Row, k: nat, row': Row)
    requires k < |row| && row[k].coeff == 0.0 && SameEntries(row', SwapRemove(row, k)) && ZerosBelow(row, k + 1)
    ensures CountZeros(row') == CountZeros(row) - 1 && ZerosBelow(row', k)
    ensures forall v: Vec :: Eval(row', v) == Eval(row, v)
    ensures forall m :: 0 <= m < |row'| ==> Occurs(row, row'[m].col)
  {
    CountZerosSwapRemove(row, k);
    CountZerosSame(row', SwapRemove(row, k));
    forall v: Vec ensures Eval(row', v) == Eval(row, v) {
      EvalSwapRemove(row, k, v);
      EvalSame(row', SwapRemove(row, k), v);
      assert Term(row[k], v) == 0.0;
    }
  }

  /** `row'` is `row` with column `c` eliminated by a pivot row whose coefficient there is 1. */
  ghost predicate Eliminated(row: Row, row': Row, pivot: Row, c: nat) {
    forall v: Vec :: Eval(row', v) == Eval(row, v) - Times(Coef(row, c), Eval(pivot, v))
  }

  lemma {:induction false} EliminatedBy(row: Row, k: nat, base: Row, sum: Row, row': Row, pivot: Row, pivot': Row, p: nat)
    requires DistinctCols(row) && DistinctCols(pivot) && k < |row| && p < |pivot|
    requires row[k].col == pivot[p].col && pivot[p].coeff == 1.0
    requires SameEntries(base, SwapRemove(row, k)) && SameEntries(pivot, pivot')
    requires Combined(base, sum, pivot', row[k].col, -row[k].coeff)
    requires forall v: Vec :: Eval(row', v) == Eval(sum, v)
    ensures Eliminated(row, row', pivot, row[k].col)
  {
    var c, a := row[k].col, row[k].coeff;
    CoefAt(row, k);
    forall v: Vec ensures Eval(row', v) == Eval(row, v) - Times(a, Eval(pivot, v)) {
      EvalSame(base, SwapRemove(row, k), v);
      EvalSwapRemove(row, k, v);
      EvalButAt(pivot', p, v);
      EvalSame(pivot, pivot', v);
      NegatedProduct(a, Eval(pivot', v), Term(pivot'[p], v));
    }
  }

  lemma {:induction false} NegatedProduct(a: real, x: real, y: real)
    ensures Times(-a, x - y) == Times(a, y) - Times(a, x)
  {
  }

  // ----- making a column the unit column of a row -----

  lemma {:induction false} ScaledEval(row: Row, row': Row, a: real)
    requires a != 0.0 && |row'| == |row|
    requires forall k :: 0 <= k < |row| ==> row'[k].col == row[k].col && Times(a, row'[k].coeff) == row[k].coeff
    ensures forall v: Vec :: Times(a, Eval(row', v)) == Eval(row, v)
    decreases |row|
  {
    if row != [] {
      var n := |row| - 1;
      ScaledEval(row[..n], row'[..n], a);
      forall v: Vec ensures Times(a, Eval(row', v)) == Eval(row, v) {
        Distribute(a, Eval(row'[..n], v), Term(row'[n], v));
        Commute(a, row'[n].coeff, v(row[n].col));
      }
    }
  }

  lemma {:induction false} DistinctRows(rows: seq<Row>, cols: seq<Col>, c: nat, k: nat, m: nat)
    requires Sparse(rows, cols) && c < |cols| && k < |cols[c]| && m < |cols[c]|
    ensures cols[c][k].row == cols[c][m].row ==> k == m
  {
    assert ColLink(rows, cols, c, k) && ColLink(rows, cols, c, m);
  }

  /** The row cell after the cells at 0 and `pci` of column `j` changed places. */
  function SwappedCell(d: RowCell, j: nat, pci: nat): RowCell {
    if d.col != j then d else d.(off := if d.off == 0 then pci else if d.off == pci then 0 else d.off)
  }

  lemma {:induction false} SwappedLinked(rows: seq<Row>, cols: seq<Col>, j: nat, pci: nat, rows': seq<Row>, cols': seq<Col>)
    requires Sparse(rows, cols) && j < |cols| && 0 < pci < |cols[j]|
    requires cols' == cols[j := cols[j][0 := cols[j][pci]][pci := cols[j][0]]]
    requires |rows'| == |rows| && forall r :: 0 <= r < |rows| ==> |rows'[r]| == |rows[r]|
    requires forall r, k {:trigger rows'[r][k]} :: 0 <= r < |rows| && 0 <= k < |rows[r]| ==>
      rows'[r][k] == SwappedCell(rows[r][k], j, pci)
    ensures Sparse(rows', cols')
  {
    forall r, k | 0 <= r < |rows'| && 0 <= k < |rows'[r]| ensures RowLink(rows', cols', r, k) {
      assert RowLink(rows, cols, r, k);
      assert rows'[r][k].col == rows[r][k].col;
    }
    forall c, k | 0 <= c < |cols'| && 0 <= k < |cols'[c]| ensures ColLink(rows', cols', c, k) {
      var m := if c == j then (if k == 0 then pci else if k == pci then 0 else k) else k;
      assert ColLink(rows, cols, c, m) && cols'[c][k] == cols[c][m];
      assert rows'[cols[c][m].row][cols[c][m].off].col == c;
    }
    forall r | 0 <= r < |rows'| ensures DistinctCols(rows'[r]) {
      assert DistinctCols(rows[r]);
      forall k, m | 0 <= k < m < |rows'[r]| ensures rows'[r][k].col != rows'[r][m].col {
        assert rows'[r][k].col == rows[r][k].col && rows'[r][m].col == rows[r][m].col;
      }
    }
  }

  /** Column `c` is eliminated from `row'`, or `row'` still means what `row` did. */
  ghost predicate PartlyEliminated(row: Row, row': Row, pivot: Row, c: nat) {
    forall v: Vec :: Eval(row', v) + Times(Coef(row, c), Eval(pivot, v))
                  == Eval(row, v) + Times(Coef(row', c), Eval(pivot, v))
  }

  lemma {:induction false} PartlyNone(rows: seq<Row>, row: nat, c: nat)
    requires row < |rows|
    ensures forall r :: 0 <= r < |rows| && r != row ==> PartlyEliminated(rows[r], rows[r], rows[row], c)
  {
  }

  lemma {:induction false} PartlyEliminate(row: Row, row1: Row, row': Row, pivot: Row, c: nat)
    requires PartlyEliminated(row, row1, pivot, c) && Eliminated(row1, row', pivot, c) && Coef(pivot, c) == 1.0
    ensures PartlyEliminated(row, row', pivot, c)
  {
    assert Eval(row', Unit(c)) == Coef(row1, c) - Times(Coef(row1, c), 1.0);
    assert Times(Coef(row1, c), 1.0) == Coef(row1, c);
    forall v: Vec
      ensures Eval(row', v) + Times(Coef(row, c), Eval(pivot, v)) == Eval(row, v) + Times(Coef(row', c), Eval(pivot, v))
    {
      assert Times(0.0, Eval(pivot, v)) == 0.0;
    }
  }

  lemma {:induction false} PartlySame(row: Row, row1: Row, row': Row, pivot: Row, c: nat)
    requires PartlyEliminated(row, row1, pivot, c) && SameEntries(row', row1)
    ensures PartlyEliminated(row, row', pivot, c)
  {
    EvalSameAll(row', row1);
    assert Coef(row', c) == Coef(row1, c);
  }

  lemma {:induction false} PartlyStep(mid: seq<Row>, rows0: seq<Row>, rows: seq<Row>, row: nat, ii: nat, c: nat)
    requires |rows| == |rows0| == |mid| && row < |rows| && ii < |rows| && ii != row
    requires Coef(mid[row], c) == 1.0 && SameEntries(rows0[row], mid[row])
    requires forall r :: 0 <= r < |rows| && r != ii ==> SameEntries(rows[r], rows0[r])
    requires Eliminated(rows0[ii], rows[ii], rows0[row], c)
    requires forall r :: 0 <= r < |rows| && r != row ==> PartlyEliminated(mid[r], rows0[r], mid[row], c)
    ensures forall r :: 0 <= r < |rows| && r != row ==> PartlyEliminated(mid[r], rows[r], mid[row], c)
  {
    forall r | 0 <= r < |rows| && r != row ensures PartlyEliminated(mid[r], rows[r], mid[row], c) {
      if r == ii {
        EvalSameAll(rows0[row], mid[row]);
        PartlyEliminate(mid[r], rows0[r], rows[r], mid[row], c);
      } else {
        PartlySame(mid[r], rows0[r], rows[r], mid[row], c);
      }
    }
  }

  /** The tableau `rows'` is `rows` after column `c` was made the unit column of `row`. */
  ghost predicate Pivoted(rows: seq<Row>, rows': seq<Row>, row: nat, c: nat)
    requires row < |rows| == |rows'|
  {
    && Coef(rows[row], c) != 0.0
    && (forall v: Vec :: Times(Coef(rows[row], c), Eval(rows'[row], v)) == Eval(rows[row], v))
    && (forall r :: 0 <= r < |rows| && r != row ==> Eliminated(rows[r], rows'[r], rows'[row], c))
  }

  lemma {:induction false} PivotedBy(rows: seq<Row>, mid: seq<Row>, rows': seq<Row>, cols: seq<Col>, row: nat, c: nat, a: real)
    requires |rows| == |mid| == |rows'| && row < |rows| && c < |cols|
    requires a == Coef(rows[row], c) != 0.0
    requires forall r :: 0 <= r < |rows| && r != row ==> SameEntries(mid[r], rows[r])
    requires forall v: Vec :: Times(a, Eval(mid[row], v)) == Eval(rows[row], v)
    requires SameEntries(rows'[row], mid[row])
    requires forall r :: 0 <= r < |rows| && r != row ==> PartlyEliminated(mid[r], rows'[r], mid[row], c)
    requires Sparse(rows', cols) && |cols[c]| == 1 && cols[c][0].row == row
    ensures Pivoted(rows, rows', row, c)
  {
    EvalSameAll(rows'[row], mid[row]);
    forall r | 0 <= r < |rows| && r != row ensures Eliminated(rows[r], rows'[r], rows'[row], c) {
      OccursInColumn(rows', cols, r, c);
      CoefAbsent(rows'[r], c);
      EvalSameAll(mid[r], rows[r]);
      forall v: Vec ensures Eval(rows'[r], v) == Eval(rows[r], v) - Times(Coef(rows[r], c), Eval(rows'[row], v)) {
        assert Coef(mid[r], c) == Coef(rows[r], c);
        assert Times(0.0, Eval(mid[row], v)) == 0.0;
      }
    }
  }

  /** The state of an addition of `alpha` times the cells of `added`, those of column `c` excepted. */
  ghost predicate Adding(base: Row, row: Row, added: Row, c: nat, alpha: real, cancelled: nat) {
    Combined(base, row, added, c, alpha) && Zeros(row, cancelled, |base|, added) && |base| <= |row|
  }

  lemma {:induction false} AddingNone(base: Row, c: nat, alpha: real)
    requires NoZero(base)
    ensures Adding(base, base, [], c, alpha, 0)
  {
    CountZerosNone(base);
    CombinedNone(base, c, alpha);
  }

  lemma {:induction false} AddingSkip(base: Row, row: Row, added: Row, cell: RowCell, c: nat, alpha: real, cancelled: nat)
    requires Adding(base, row, added, c, alpha, cancelled) && cell.col == c
    ensures Adding(base, row, added + [cell], c, alpha, cancelled)
  {
    CombinedSkip(base, row, added, cell, c, alpha);
    forall k | 0 <= k < |row| && (row[k].coeff == 0.0 || |base| <= k) ensures Occurs(added + [cell], row[k].col) {
      OccursMore(added, cell, row[k].col);
    }
  }

  lemma {:induction false} AddingStep(base: Row, row: Row, row': Row, offs: map<nat, nat>, added: Row, cell: RowCell, c: nat, alpha: real,
                   cancelled: nat)
    requires Adding(base, row, added, c, alpha, cancelled) && cell.col != c && !Occurs(added, cell.col)
    requires alpha != 0.0 && cell.coeff != 0.0
    requires Indexes(offs, row) && Added(row, row', offs, cell.col, Times(alpha, cell.coeff))
    ensures var zero := cell.col in offs && row'[offs[cell.col]].coeff == 0.0;
      Adding(base, row', added + [cell], c, alpha, if zero then cancelled + 1 else cancelled)
  {
    ProductZero(alpha, cell.coeff);
    CombinedStep(base, row, row', offs, added, cell, c, alpha);
    ZerosStep(row, row', offs, cancelled, |base|, added, cell, Times(alpha, cell.coeff));
  }
}
