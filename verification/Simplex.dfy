module Simplex {
  import opened Options
  import opened DeltaRationals
  import opened Products
  import opened Tableau
  import opened SimplexState
  import opened SimplexRuns
  import opened WorkRow

  class Lar {
    var rows: seq<Row>
    var cols: seq<Col>
    var x: seq<Impq>
    var lo: Bounds
    var hi: Bounds
    /** The column that each row defines. */
    var basis: seq<nat>
    /** The columns that no row defines. */
    var nbasis: seq<nat>
    /** Where a column stands: `r` when row `r` defines it, `-1 - p` when it is at `p` in `nbasis`. */
    var heading: seq<int>
    /** The infeasible basic columns. */
    var inf: set<nat>
    /** The columns that got a bound after the last solve, the oldest first. */
    var changed: seq<nat>
    /** The terms added and the bounds accepted so far. */
    ghost var defs: seq<Def>
    ghost var asserted: seq<Asserted>

    ghost function Snapshot(): State
      reads this
    {
      State(rows, cols, x, lo, hi, basis, nbasis, heading, inf, defs, asserted)
    }

    ghost predicate Valid()
      reads this
    {
      Snapshot().Inv(Members(changed)) && forall j :: j in changed ==> j < |x|
    }

    /** No values, real or with an infinitesimal part, satisfy every added term and every bound. */
    ghost predicate Unsatisfiable()
      reads this
    {
      && |lo| == |hi| && (forall v: Vec :: !IsModel(defs, asserted, v))
      && (forall vx: Vec, vy: Vec :: DefsHold(defs, vx) && DefsHold(defs, vy) ==> !InBounds(lo, hi, vx, vy))
    }

    ghost predicate AllFeasible()
      reads this
    {
      |lo| == |hi| == |x| && forall j :: 0 <= j < |x| ==> Feasible(lo, hi, x, j)
    }

    constructor ()
      ensures Valid() && x == [] && defs == [] && asserted == []
    {
      rows, cols, x, lo, hi := [], [], [], [], [];
      basis, nbasis, heading, inf, changed := [], [], [], {}, [];
      defs, asserted := [], [];
      new;
      EmptyIsValid();
    }

    lemma {:induction false} EmptyIsValid()
      requires Snapshot() == State([], [], [], [], [], [], [], [], {}, [], []) && changed == []
      ensures Valid()
    {
      EmptyState(Snapshot());
    }

    /** Append a column that no bound limits and no row defines; its value is zero. */
    method AddVar() returns (j: nat)
      requires Valid()
      modifies this
      ensures Valid() && j == |old(x)| && x == old(x) + [ZERO]
      ensures lo == old(lo) + [None] && hi == old(hi) + [None]
      ensures defs == old(defs) && asserted == old(asserted)
    {
      j := |x|;
      ghost var before := Snapshot();
      cols, x, lo, hi := cols + [[]], x + [ZERO], lo + [None], hi + [None];
      heading := heading + [-|nbasis| - 1];
      nbasis := nbasis + [j];
      ColumnIsValid(before);
    }

    lemma {:induction false} ColumnIsValid(before: State)
      requires before.Inv(Members(changed)) && forall j :: j in changed ==> j < |before.x|
      requires Snapshot() == WithColumn(before)
      ensures Valid()
    {
      ColumnAdded(before, Members(changed));
    }

    /** Record a bound; false when it crosses the opposite one. */
    method AddBound(j: nat, kind: Kind, rhs: real) returns (ok: bool)
      requires Valid() && j < |x|
      modifies this`lo, this`hi, this`changed, this`asserted
      ensures Valid()
      ensures ok ==> asserted == old(asserted) + [Asserted(j, kind, rhs)]
      ensures !ok ==> asserted == old(asserted) && lo == old(lo) && hi == old(hi)
      ensures !ok ==> forall v: Vec :: BoundsHold(asserted, v) ==> !kind.Holds(v(j), rhs)
    {
      var b := kind.Pair(rhs);
      if kind.Upper() {
        if lo[j].Some? && b.Less(lo[j].value) {
          BoundCrosses(lo, hi, asserted, j, kind, rhs);
          return false;
        }
        if hi[j].None? || b.Less(hi[j].value) {
          hi := hi[j := Some(b)];
          MarkChanged(j);
        }
      } else {
        if hi[j].Some? && hi[j].value.Less(b) {
          BoundCrosses(lo, hi, asserted, j, kind, rhs);
          return false;
        }
        if lo[j].None? || lo[j].value.Less(b) {
          lo := lo[j := Some(b)];
          MarkChanged(j);
        }
      }
      asserted := asserted + [Asserted(j, kind, rhs)];
      BoundIsValid(old(Snapshot()), Members(old(changed)), j, kind, rhs);
      return true;
    }

    lemma {:induction false} BoundIsValid(before: State, exempt: set<nat>, j: nat, kind: Kind, rhs: real)
      requires before.Inv(exempt) && j < |before.x|
      requires Snapshot() == before.(lo := lo, hi := hi, asserted := asserted)
      requires Tightened(before.lo, before.hi, lo, hi, j, kind.Pair(rhs), kind.Upper())
      requires kind.Upper() ==> lo[j].Some? ==> lo[j].value.AtMost(kind.Pair(rhs))
      requires !kind.Upper() ==> hi[j].Some? ==> kind.Pair(rhs).AtMost(hi[j].value)
      requires asserted == before.asserted + [Asserted(j, kind, rhs)]
      requires (lo != before.lo || hi != before.hi ==> j in changed) && exempt <= Members(changed)
      requires forall k :: k in changed ==> k < |before.x|
      ensures Valid()
    {
      HistoryBound(rows, before.lo, before.hi, lo, hi, defs, before.asserted, j, kind, rhs);
      TrackedTightened(before.lo, before.hi, lo, hi, x, heading, inf, exempt, Members(changed), j, kind, rhs);
    }

    method MarkChanged(j: nat)
      modifies this`changed
      ensures forall k :: k in changed <==> k in old(changed) || k == j
    {
      if j !in changed {
        changed := changed + [j];
      }
    }

    method AddNewElement(row: nat, col: nat, coeff: real)
      requires Sparse(rows, cols) && row < |rows| && col < |cols|
      requires !Occurs(rows[row], col)
      modifies this`rows, this`cols
      ensures Sparse(rows, cols)
      ensures |cols| == |old(cols)| && rows == old(rows)[row := old(rows)[row] + [RowCell(col, |old(cols)[col]|, coeff)]]
      ensures cols == old(cols)[col := old(cols)[col] + [ColCell(row, |old(rows)[row]|)]]
    {
      var roff, coff := |rows[row]|, |cols[col]|;
      rows := rows[row := rows[row] + [RowCell(col, coff, coeff)]];
      cols := cols[col := cols[col] + [ColCell(row, roff)]];
      forall r, k | 0 <= r < |rows| && 0 <= k < |rows[r]| ensures RowLink(rows, cols, r, k) {
        if r != row || k < roff {
          assert RowLink(old(rows), old(cols), r, k);
        }
      }
      forall c, k | 0 <= c < |cols| && 0 <= k < |cols[c]| ensures ColLink(rows, cols, c, k) {
        if c != col || k < coff {
          assert ColLink(old(rows), old(cols), c, k);
        }
      }
    }

    method RemoveElement(row: nat, rowOff: nat)
      requires Sparse(rows, cols) && row < |rows| && rowOff < |rows[row]|
      modifies this`rows, this`cols
      ensures Sparse(rows, cols) && |rows| == |old(rows)| && |cols| == |old(cols)|
      ensures RowLink(old(rows), old(cols), row, rowOff)
      ensures Removed(old(rows), old(cols), row, rowOff, rows, cols)
    {
      var col, colOff := rows[row][rowOff].col, rows[row][rowOff].off;
      assert RowLink(rows, cols, row, rowOff);
      var colLast, rowLast := |cols[col]| - 1, |rows[row]| - 1;
      assert ColLink(rows, cols, col, colLast) && RowLink(rows, cols, row, rowLast);
      if colOff != colLast {
        var cc := cols[col][colLast];
        cols := cols[col := cols[col][colOff := cc]];
        rows := rows[cc.row := rows[cc.row][cc.off := rows[cc.row][cc.off].(off := colOff)]];
      }
      assert old(cols)[col][colLast := old(cols)[col][colLast]] == old(cols)[col];
      forall r, k | 0 <= r < |rows| && 0 <= k < |old(rows)[r]|
        ensures |rows[r]| == |old(rows)[r]|
        ensures var d := old(rows)[r][k]; rows[r][k] == d.(off := if d.col == col && d.off == colLast then colOff else d.off)
      {
        assert RowLink(old(rows), old(cols), r, k);
      }
      assert ColMoved(old(rows), old(cols), row, rowOff, rows, cols);
      ghost var rows1, cols1 := rows, cols;
      if rowOff != rowLast {
        var tail := rows[row][rowLast];
        cols := cols[tail.col := cols[tail.col][tail.off := cols[tail.col][tail.off].(off := rowOff)]];
        rows := rows[row := rows[row][rowOff := tail]];
      }
      cols := cols[col := cols[col][..colLast]];
      rows := rows[row := rows[row][..rowLast]];
      RemovedFromMoved(old(rows), old(cols), row, rowOff, rows1, cols1, rows, cols);
      RemovedLinked(old(rows), old(cols), row, rowOff, rows, cols);
    }

    /** RemoveElement, by what it leaves in the row and in the columns. */
    method RemoveCell(row: nat, rowOff: nat)
      requires Sparse(rows, cols) && row < |rows| && rowOff < |rows[row]|
      modifies this`rows, this`cols
      ensures Sparse(rows, cols) && |rows| == |old(rows)| && |cols| == |old(cols)|
      ensures SameEntries(rows[row], SwapRemove(old(rows)[row], rowOff))
      ensures forall r :: 0 <= r < |rows| && r != row ==> SameEntries(rows[r], old(rows)[r])
      ensures forall c :: 0 <= c < |cols| && c != old(rows)[row][rowOff].col ==> SameRows(cols[c], old(cols)[c])
      ensures var cell := old(rows)[row][rowOff];
        cell.col < |cols| && cell.off < |old(cols)[cell.col]| && !Occurs(rows[row], cell.col) &&
        SameRows(cols[cell.col], SwapRemove(old(cols)[cell.col], cell.off))
    {
      RemoveElement(row, rowOff);
      RemovedEntries(old(rows), old(cols), row, rowOff, rows, cols);
    }

    /** Add `d` to the coefficient of column `j` in row `ii`; `zero` when an existing cell is now 0. */
    method AddCell(ii: nat, j: nat, d: real, offs: map<nat, nat>) returns (offs': map<nat, nat>, zero: bool)
      requires Sparse(rows, cols) && ii < |rows| && j < |cols|
      requires Indexes(offs, rows[ii])
      modifies this`rows, this`cols
      ensures Sparse(rows, cols) && |rows| == |old(rows)| && |cols| == |old(cols)|
      ensures Indexes(offs', rows[ii])
      ensures forall r :: 0 <= r < |rows| && r != ii ==> rows[r] == old(rows)[r]
      ensures forall c :: 0 <= c < |cols| && c != j ==> cols[c] == old(cols)[c]
      ensures Added(old(rows)[ii], rows[ii], offs, j, d)
      ensures zero == (j in offs && rows[ii][offs[j]].coeff == 0.0)
    {
      zero := false;
      offs' := offs;
      if j !in offs {
        var k := |rows[ii]|;
        AddNewElement(ii, j, d);
        offs' := offs[j := k];
      } else {
        var k := offs[j];
        rows := rows[ii := rows[ii][k := rows[ii][k].(coeff := rows[ii][k].coeff + d)]];
        zero := rows[ii][k].coeff == 0.0;
        SparseRecoeff(old(rows), cols, rows);
      }
    }

    /** Add `alpha` times one cell, unless it is in `pivotCol`; `done` are the cells added to `base` before. */
    method AddOne(ii: nat, cell: RowCell, pivotCol: nat, alpha: real, offs: map<nat, nat>, cancelled: nat,
                  ghost base: Row, ghost done: Row)
      returns (offs': map<nat, nat>, cancelled': nat)
      requires Sparse(rows, cols) && ii < |rows| && cell.col < |cols| && alpha != 0.0 && cell.coeff != 0.0
      requires pivotCol < |cols| && Indexes(offs, rows[ii]) && !Occurs(done, cell.col)
      requires Adding(base, rows[ii], done, pivotCol, alpha, cancelled)
      modifies this`rows, this`cols
      ensures Sparse(rows, cols) && |rows| == |old(rows)| && |cols| == |old(cols)|
      ensures forall r :: 0 <= r < |rows| && r != ii ==> rows[r] == old(rows)[r]
      ensures cols[pivotCol] == old(cols)[pivotCol] && Indexes(offs', rows[ii])
      ensures Adding(base, rows[ii], done + [cell], pivotCol, alpha, cancelled')
    {
      offs', cancelled' := offs, cancelled;
      if cell.col != pivotCol {
        ghost var row := rows[ii];
        var zero;
        offs', zero := AddCell(ii, cell.col, Times(alpha, cell.coeff), offs);
        cancelled' := if zero then cancelled + 1 else cancelled;
        AddingStep(base, row, rows[ii], offs, done, cell, pivotCol, alpha, cancelled);
      } else {
        AddingSkip(base, rows[ii], done, cell, pivotCol, alpha, cancelled);
      }
    }

    /** Add `alpha` times the cells of `added`, those of `pivotCol` excepted, to row `ii`. */
    method AddRow(ii: nat, added: Row, pivotCol: nat, alpha: real) returns (cancelled: nat)
      requires Sparse(rows, cols) && NoZeros(rows) && ii < |rows| && alpha != 0.0
      requires DistinctCols(added) && NoZero(added) && forall k :: 0 <= k < |added| ==> added[k].col < |cols|
      requires pivotCol < |cols|
      modifies this`rows, this`cols
      ensures Sparse(rows, cols) && |rows| == |old(rows)| && |cols| == |old(cols)|
      ensures forall r :: 0 <= r < |rows| && r != ii ==> rows[r] == old(rows)[r]
      ensures cols[pivotCol] == old(cols)[pivotCol]
      ensures Adding(old(rows)[ii], rows[ii], added, pivotCol, alpha, cancelled)
    {
      var offs: map<nat, nat> := map k | 0 <= k < |rows[ii]| :: rows[ii][k].col := k;
      cancelled := 0;
      AddingNone(rows[ii], pivotCol, alpha);
      var t := 0;
      while t < |added|
        invariant 0 <= t <= |added|
        invariant Sparse(rows, cols) && |rows| == |old(rows)| && |cols| == |old(cols)|
        invariant forall r :: 0 <= r < |rows| && r != ii ==> rows[r] == old(rows)[r]
        invariant cols[pivotCol] == old(cols)[pivotCol]
        invariant Indexes(offs, rows[ii])
        invariant Adding(old(rows)[ii], rows[ii], added[..t], pivotCol, alpha, cancelled)
      {
        assert added[..t + 1] == added[..t] + [added[t]];
        assert !Occurs(added[..t], added[t].col);
        offs, cancelled := AddOne(ii, added[t], pivotCol, alpha, offs, cancelled, old(rows)[ii], added[..t]);
        t := t + 1;
      }
      assert added[..t] == added;
    }

    /** Remove the `cancelled` zero cells of row `ii`, searching down from `prev`. */
    method DropZeros(ii: nat, prev: nat, cancelled: nat)
      requires Sparse(rows, cols) && ii < |rows| && prev <= |rows[ii]|
      requires CountZeros(rows[ii]) == cancelled && ZerosBelow(rows[ii], prev)
      modifies this`rows, this`cols
      ensures Sparse(rows, cols) && |rows| == |old(rows)| && |cols| == |old(cols)|
      ensures NoZero(rows[ii])
      ensures forall r :: 0 <= r < |rows| && r != ii ==> SameEntries(rows[r], old(rows)[r])
      ensures forall c :: 0 <= c < |cols| && !Occurs(old(rows)[ii], c) ==> SameRows(cols[c], old(cols)[c])
      ensures forall v: Vec :: Eval(rows[ii], v) == Eval(old(rows)[ii], v)
    {
      var k, left := prev, cancelled;
      while k > 0 && left > 0
        invariant Sparse(rows, cols) && |rows| == |old(rows)| && |cols| == |old(cols)|
        invariant 0 <= k <= |rows[ii]|
        invariant forall r :: 0 <= r < |rows| && r != ii ==> SameEntries(rows[r], old(rows)[r])
        invariant forall c :: 0 <= c < |cols| && !Occurs(old(rows)[ii], c) ==> SameRows(cols[c], old(cols)[c])
        invariant forall m :: 0 <= m < |rows[ii]| ==> Occurs(old(rows)[ii], rows[ii][m].col)
        invariant CountZeros(rows[ii]) == left && ZerosBelow(rows[ii], k)
        invariant forall v: Vec :: Eval(rows[ii], v) == Eval(old(rows)[ii], v)
        decreases k
      {
        k := k - 1;
        if rows[ii][k].coeff == 0.0 {
          ghost var rows0 := rows;
          RemoveCell(ii, k);
          SwapRemovedZero(rows0[ii], k, rows[ii]);
          left := left - 1;
        }
      }
      CountZerosNone(rows[ii]);
    }

    /** Eliminate `pivotCol` from the row of the column cell `c` with the pivot row `i`. */
    method PivotRowToRow(i: nat, c: ColCell, pivotCol: nat, ghost p: nat)
      requires Sparse(rows, cols) && NoZeros(rows) && i < |rows| && pivotCol < |cols| && cols[pivotCol] != []
      requires c == cols[pivotCol][|cols[pivotCol]| - 1] && c.row != i
      requires p < |rows[i]| && rows[i][p].col == pivotCol && rows[i][p].coeff == 1.0
      modifies this`rows, this`cols
      ensures Sparse(rows, cols) && NoZeros(rows) && |rows| == |old(rows)| && |cols| == |old(cols)|
      ensures SameRows(cols[pivotCol], old(cols)[pivotCol][..|old(cols)[pivotCol]| - 1])
      ensures c.row < |rows| && forall r :: 0 <= r < |rows| && r != c.row ==> SameEntries(rows[r], old(rows)[r])
      ensures Eliminated(old(rows)[c.row], rows[c.row], old(rows)[i], pivotCol)
    {
      var ii := c.row;
      assert ColLink(rows, cols, pivotCol, |cols[pivotCol]| - 1);
      var alpha := -rows[ii][c.off].coeff;
      RemoveCell(ii, c.off);
      ghost var base := rows[ii];
      OccursInColumn(rows, cols, ii, pivotCol);
      var prev, pivotRow := |rows[ii]|, rows[i];
      forall k | 0 <= k < |pivotRow| ensures pivotRow[k].col < |cols| {
        assert RowLink(rows, cols, i, k);
      }
      var cancelled := AddRow(ii, pivotRow, pivotCol, alpha);
      ghost var sum := rows[ii];
      OccursInColumn(rows, cols, ii, pivotCol);
      DropZeros(ii, prev, cancelled);
      EliminatedBy(old(rows)[ii], c.off, base, sum, rows[ii], old(rows)[i], pivotRow, p);
    }

    /** Divide the row by its coefficient `a` at position `p`. */
    method ScaleRow(row: nat, p: nat)
      requires Sparse(rows, cols) && NoZeros(rows) && row < |rows| && p < |rows[row]|
      modifies this`rows
      ensures Sparse(rows, cols) && NoZeros(rows) && |rows| == |old(rows)|
      ensures forall r :: 0 <= r < |rows| && r != row ==> rows[r] == old(rows)[r]
      ensures SameCells(rows[row], old(rows)[row]) && rows[row][p].coeff == 1.0
      ensures forall v: Vec :: Times(old(rows)[row][p].coeff, Eval(rows[row], v)) == Eval(old(rows)[row], v)
    {
      var a, j := rows[row][p].coeff, rows[row][p].col;
      var k := 0;
      while k < |rows[row]|
        invariant |rows| == |old(rows)| && 0 <= k <= |rows[row]|
        invariant forall r :: 0 <= r < |rows| && r != row ==> rows[r] == old(rows)[r]
        invariant SameCells(rows[row], old(rows)[row])
        invariant forall m :: 0 <= m < k && m != p ==> rows[row][m].coeff == old(rows)[row][m].coeff / a
        invariant forall m :: k <= m < |rows[row]| ==> rows[row][m] == old(rows)[row][m]
        invariant rows[row][p] == old(rows)[row][p]
        decreases |rows[row]| - k
      {
        if rows[row][k].col != j {
          rows := rows[row := rows[row][k := rows[row][k].(coeff := rows[row][k].coeff / a)]];
        }
        k := k + 1;
      }
      rows := rows[row := rows[row][p := rows[row][p].(coeff := 1.0)]];
      SparseRecoeff(old(rows), cols, rows);
      ScaledEval(old(rows)[row], rows[row], a);
    }

    /** Pivot at `row` and `j`: afterwards that row alone mentions the column, with coefficient 1. */
    method PivotColumn(j: nat, row: nat)
      requires Sparse(rows, cols) && NoZeros(rows) && row < |rows| && j < |cols|
      modifies this`rows, this`cols
      ensures Sparse(rows, cols) && NoZeros(rows) && |rows| == |old(rows)| && |cols| == |old(cols)|
      ensures !Occurs(old(rows)[row], j) ==> rows == old(rows) && cols == old(cols)
      ensures Occurs(old(rows)[row], j) ==> Pivoted(old(rows), rows, row, j)
    {
      var p := 0;
      while p < |rows[row]| && rows[row][p].col != j
        invariant 0 <= p <= |rows[row]|
        invariant forall k :: 0 <= k < p ==> rows[row][k].col != j
      {
        p := p + 1;
      }
      if p == |rows[row]| {
        return;
      }
      ghost var a := rows[row][p].coeff;
      CoefAt(rows[row], p);
      ScaleRow(row, p);
      var pci := rows[row][p].off;
      assert RowLink(rows, cols, row, p);
      ghost var scaled := rows[row];
      MoveToHead(j, row, pci);
      ghost var mid := rows;
      EvalSameAll(mid[row], scaled);
      CoefAt(mid[row], p);
      PartlyNone(mid, row, j);
      while |cols[j]| > 1
        invariant Sparse(rows, cols) && NoZeros(rows) && |rows| == |mid| && |cols| == |old(cols)|
        invariant cols[j] != [] && cols[j][0].row == row
        invariant SameEntries(rows[row], mid[row])
        invariant forall r :: 0 <= r < |rows| && r != row ==> PartlyEliminated(mid[r], rows[r], mid[row], j)
        decreases |cols[j]|
      {
        var c := cols[j][|cols[j]| - 1];
        ghost var rows0 := rows;
        DistinctRows(rows, cols, j, 0, |cols[j]| - 1);
        PivotRowToRow(row, c, j, p);
        PartlyStep(mid, rows0, rows, row, c.row, j);
      }
      PivotedBy(old(rows), mid, rows, cols, row, j, a);
    }

    /** Swap the cell of `row` to the head of column `j`. */
    method MoveToHead(j: nat, row: nat, pci: nat)
      requires Sparse(rows, cols) && j < |cols| && pci < |cols[j]| && cols[j][pci].row == row
      modifies this`rows, this`cols
      ensures Sparse(rows, cols) && |rows| == |old(rows)| && |cols| == |old(cols)|
      ensures forall r :: 0 <= r < |rows| ==> SameEntries(rows[r], old(rows)[r])
      ensures cols[j] != [] && cols[j][0].row == row
    {
      if pci != 0 {
        var c0, head := cols[j][0], cols[j][pci];
        assert ColLink(rows, cols, j, 0) && ColLink(rows, cols, j, pci);
        cols := cols[j := cols[j][0 := head][pci := c0]];
        rows := rows[head.row := rows[head.row][head.off := rows[head.row][head.off].(off := 0)]];
        rows := rows[c0.row := rows[c0.row][c0.off := rows[c0.row][c0.off].(off := pci)]];
        forall r, k | 0 <= r < |rows| && 0 <= k < |old(rows)[r]|
          ensures |rows[r]| == |old(rows)[r]|
          ensures rows[r][k] == SwappedCell(old(rows)[r][k], j, pci)
        {
          assert RowLink(old(rows), old(cols), r, k);
        }
        SwappedLinked(old(rows), old(cols), j, pci, rows, cols);
      }
    }

    method Track(j: nat, ghost exempt: set<nat>)
      requires |lo| == |hi| == |x| == |heading| && j < |x| && heading[j] >= 0
      requires Tracked(lo, hi, x, heading, inf - {j}, exempt + {j})
      modifies this`inf
      ensures Tracked(lo, hi, x, heading, inf, exempt - {j})
    {
      if Feasible(lo, hi, x, j) {
        inf := inf - {j};
      } else {
        inf := inf + {j};
      }
    }

    /** Move every basic column that depends on the non-basic `j`, other than `skip`, after `j` moved by `d`. */
    method ShiftBasics(j: nat, d: Impq, skip: Option<nat>, ghost exempt: set<nat>)
      requires |cols| == |x| == |lo| == |hi| && TableauOk(rows, cols, basis, nbasis, heading)
      requires j < |x| && heading[j] < 0
      requires Tracked(lo, hi, x, heading, inf, exempt)
      modifies this`x, this`inf
      ensures |x| == |old(x)|
      ensures forall r :: 0 <= r < |rows| && skip != Some(basis[r]) ==>
        x[basis[r]] == old(x)[basis[r]].Sub(d.Scale(Coef(rows[r], j)))
      ensures forall c :: 0 <= c < |x| && (heading[c] < 0 || skip == Some(c)) ==> x[c] == old(x)[c]
      ensures Tracked(lo, hi, x, heading, inf, exempt)
    {
      ghost var done: set<nat> := {};
      var k := 0;
      while k < |cols[j]|
        invariant 0 <= k <= |cols[j]| && |x| == |old(x)|
        invariant forall m :: 0 <= m < |cols[j]| ==> (cols[j][m].row in done <==> m < k)
        invariant forall r :: 0 <= r < |rows| && skip != Some(basis[r]) ==>
          x[basis[r]] == if r in done then old(x)[basis[r]].Sub(d.Scale(Coef(rows[r], j))) else old(x)[basis[r]]
        invariant forall c :: 0 <= c < |x| && (heading[c] < 0 || skip == Some(c)) ==> x[c] == old(x)[c]
        invariant Tracked(lo, hi, x, heading, inf, exempt)
      {
        var cc := cols[j][k];
        assert ColLink(rows, cols, j, k);
        var b := basis[cc.row];
        CoefAt(rows[cc.row], cc.off);
        forall m | 0 <= m < |cols[j]| && m != k ensures cols[j][m].row != cc.row {
          DistinctRows(rows, cols, j, m, k);
        }
        if skip != Some(b) {
          var a := rows[cc.row][cc.off].coeff;
          x := x[b := x[b].Sub(d.Scale(a))];
          Track(b, exempt);
        }
        done := done + {cc.row};
        k := k + 1;
      }
      forall r | 0 <= r < |rows| && skip != Some(basis[r])
        ensures x[basis[r]] == old(x)[basis[r]].Sub(d.Scale(Coef(rows[r], j)))
      {
        OccursInColumn(rows, cols, r, j);
        if r !in done {
          CoefAbsent(rows[r], j);
        }
      }
    }

    /** Move the non-basic column onto the bound it violates; the change, if any. */
    method MakeColumnFeasible(j: nat) returns (d: Option<Impq>)
      requires |lo| == |hi| == |x| && Ordered(lo, hi) && j < |x|
      modifies this`x
      ensures |x| == |old(x)| && Feasible(lo, hi, x, j)
      ensures x == old(x)[j := Nearest(lo[j], hi[j], old(x)[j])]
      ensures d.Some? ==> x[j] == old(x)[j].Add(d.value)
      ensures d.None? ==> x == old(x)
    {
      if lo[j].Some? && x[j].Less(lo[j].value) {
        d := Some(lo[j].value.Sub(x[j]));
        x := x[j := lo[j].value];
      } else if hi[j].Some? && hi[j].value.Less(x[j]) {
        d := Some(hi[j].value.Sub(x[j]));
        x := x[j := hi[j].value];
      } else {
        d := None;
      }
    }

    /** The number of bounded basic columns other than `bj` that depend on `j`, exact unless it is past `bound`. */
    method NotFreeCount(j: nat, bound: Option<nat>, bj: nat) returns (r: nat)
      requires |lo| == |hi| && j < |cols|
      requires forall m :: 0 <= m < |cols[j]| ==> cols[j][m].row < |basis| && basis[cols[j][m].row] < |lo|
      ensures var exact := NotFree(cols[j], basis, lo, hi, bj);
        r == exact || (bound.Some? && bound.value < r <= exact)
    {
      r := 0;
      var k := 0;
      while k < |cols[j]|
        invariant 0 <= k <= |cols[j]| && r == NotFree(cols[j][..k], basis, lo, hi, bj)
      {
        var b := basis[cols[j][k].row];
        assert cols[j][..k + 1][..k] == cols[j][..k];
        k := k + 1;
        if b != bj && !Free(lo, hi, b) {
          var was := r;
          r := r + 1;
          if bound.Some? && was > bound.value {
            NotFreeGrows(cols[j], basis, lo, hi, bj, k);
            return;
          }
        }
      }
      assert cols[j][..k] == cols[j];
    }

    /** The next draw below `n`, an arbitrary one. */
    method Below(n: nat) returns (d: nat)
      requires n > 0
      ensures d < n
    {
      d :| 0 <= d < n;
    }

    /** Does the infeasible basic column of the row have to grow? */
    predicate Grows(i: nat)
      requires |lo| == |hi| == |x| && i < |basis| && basis[i] < |x|
      reads this
    {
      lo[basis[i]].Some? && x[basis[i]].Less(lo[basis[i]].value)
    }

    /** The row is one of the tableau and its cells lie within it. */
    ghost predicate RowIn(i: nat)
      reads this
    {
      && |lo| == |hi| == |x| == |cols|
      && i < |rows| == |basis| && basis[i] < |x|
      && forall k :: 0 <= k < |rows[i]| ==> rows[i][k].col < |x|
    }

    predicate Candidate(i: nat, k: nat)
      requires RowIn(i) && k < |rows[i]|
      reads this
    {
      rows[i][k].col != basis[i] && CanMove(lo, hi, x, rows[i][k], Grows(i))
    }

    /** What ranks a candidate: its dependent bounded basic columns, then the length of its column. */
    ghost function Rank(i: nat, k: nat): (nat, nat)
      requires RowIn(i) && k < |rows[i]|
      reads this
    {
      var col := cols[rows[i][k].col];
      (NotFree(col, basis, lo, hi, basis[i]), |col|)
    }

    /** The candidate of least column, if any. */
    method FindLeast(i: nat) returns (choice: Option<nat>)
      requires RowIn(i)
      ensures choice.None? ==> forall k :: 0 <= k < |rows[i]| ==> !Candidate(i, k)
      ensures choice.Some? ==> choice.value < |rows[i]| && Candidate(i, choice.value)
      ensures choice.Some? ==>
        forall k :: 0 <= k < |rows[i]| && Candidate(i, k) ==> rows[i][choice.value].col <= rows[i][k].col
    {
      choice := None;
      var k := 0;
      while k < |rows[i]|
        invariant 0 <= k <= |rows[i]|
        invariant choice.None? ==> forall m :: 0 <= m < k ==> !Candidate(i, m)
        invariant choice.Some? ==> choice.value < k && Candidate(i, choice.value)
        invariant choice.Some? ==>
          forall m :: 0 <= m < k && Candidate(i, m) ==> rows[i][choice.value].col <= rows[i][m].col
      {
        if Candidate(i, k) {
          if choice.None? || rows[i][k].col < rows[i][choice.value].col {
            choice := Some(k);
          }
        }
        k := k + 1;
      }
    }

    /** A candidate of least rank, if any; an arbitrary draw decides between equal ones. */
    method FindFewest(i: nat) returns (choice: Option<nat>)
      requires RowIn(i) && Linked(rows, cols)
      requires forall r :: 0 <= r < |basis| ==> basis[r] < |x|
      ensures choice.None? ==> forall k :: 0 <= k < |rows[i]| ==> !Candidate(i, k)
      ensures choice.Some? ==> choice.value < |rows[i]| && Candidate(i, choice.value)
      ensures choice.Some? ==>
        forall k :: 0 <= k < |rows[i]| && Candidate(i, k) ==> NoWorse(Rank(i, choice.value), Rank(i, k))
    {
      choice := None;
      var nchoices, minNf, bestSz := 0, None, None;
      var k := 0;
      while k < |rows[i]|
        invariant 0 <= k <= |rows[i]|
        invariant choice.None? ==> minNf.None? && forall m :: 0 <= m < k ==> !Candidate(i, m)
        invariant choice.Some? ==> choice.value < k && Candidate(i, choice.value)
        invariant choice.Some? ==> minNf == Some(Rank(i, choice.value).0) && bestSz == Some(Rank(i, choice.value).1)
        invariant choice.Some? ==>
          forall m :: 0 <= m < k && Candidate(i, m) ==> NoWorse(Rank(i, choice.value), Rank(i, m))
      {
        if Candidate(i, k) {
          var j := rows[i][k].col;
          forall m | 0 <= m < |cols[j]| ensures cols[j][m].row < |basis| && basis[cols[j][m].row] < |lo| {
            assert ColLink(rows, cols, j, m);
          }
          var nf := NotFreeCount(j, minNf, basis[i]);
          var sz := |cols[j]|;
          if minNf.None? || nf < minNf.value || (nf == minNf.value && sz < bestSz.value) {
            minNf, bestSz, choice, nchoices := Some(nf), Some(sz), Some(k), 1;
          } else if nf == minNf.value && sz == bestSz.value {
            nchoices := nchoices + 1;
            var draw := Below(nchoices);
            if draw == 0 {
              choice := Some(k);
            }
          }
        }
        k := k + 1;
      }
    }

    /** The entering column and its coefficient: the least candidate (`bland`), else one of least rank. */
    method FindEntering(i: nat, bland: bool) returns (best: Option<(nat, real)>, ghost at: nat)
      requires Snapshot().Core() && i < |rows|
      ensures RowIn(i)
      ensures best.None? ==> forall k :: 0 <= k < |rows[i]| ==> !Candidate(i, k)
      ensures best.Some? ==> at < |rows[i]| && Candidate(i, at)
      ensures best.Some? ==> best.value == (rows[i][at].col, rows[i][at].coeff)
      ensures best.Some? && bland ==>
        forall k :: 0 <= k < |rows[i]| && Candidate(i, k) ==> rows[i][at].col <= rows[i][k].col
      ensures best.Some? && !bland ==>
        forall k :: 0 <= k < |rows[i]| && Candidate(i, k) ==> NoWorse(Rank(i, at), Rank(i, k))
    {
      forall k | 0 <= k < |rows[i]| ensures rows[i][k].col < |x| {
        assert RowLink(rows, cols, i, k);
      }
      var choice: Option<nat>;
      if bland {
        choice := FindLeast(i);
      } else {
        choice := FindFewest(i);
      }
      best := None;
      at := 0;
      if choice.Some? {
        at := choice.value;
        best := Some((rows[i][choice.value].col, rows[i][choice.value].coeff));
      }
    }

    /** Bring in one column whose bounds changed. */
    method TakeColumn(j: nat, ghost rest: set<nat>)
      requires j < |x| && Snapshot().Inv(rest + {j})
      modifies this`x, this`inf
      ensures |x| == |old(x)| && Snapshot().Inv(rest)
      ensures forall c :: 0 <= c < |x| && heading[c] < 0 ==>
        x[c] == if c == j then Nearest(lo[j], hi[j], old(x)[j]) else old(x)[c]
    {
      if heading[j] >= 0 {
        Track(j, rest + {j});
        assert Tracked(lo, hi, x, heading, inf, rest);
      } else {
        var d := MakeColumnFeasible(j);
        if d.Some? {
          ShiftBasics(j, d.value, None, rest);
          ShiftedHold(rows, cols, basis, nbasis, heading, old(x), x, j, d.value);
        }
      }
    }

    /** Empty `changed`: non-basic columns move within their bounds, and basic ones are judged afresh. */
    method TakeChanged()
      requires Valid()
      modifies this`x, this`inf, this`changed
      ensures Snapshot().Inv({}) && changed == [] && |x| == |old(x)| && Taken(old(Snapshot()), Snapshot())
    {
      var pending := changed;
      changed := [];
      var i := 0;
      while i < |pending|
        invariant 0 <= i <= |pending|
        invariant forall j :: j in pending ==> j < |x|
        invariant changed == [] && |x| == |old(x)| && Snapshot().Inv(Members(pending[i..]))
        invariant Moved(lo, hi, heading, old(x), x, pending[..i])
      {
        var j := pending[i];
        assert j in pending && pending[i..] == [j] + pending[i + 1..];
        ghost var before := x;
        TakeColumn(j, Members(pending[i + 1..]));
        MovedMore(lo, hi, heading, old(x), before, pending[..i], j, x);
        assert pending[..i + 1] == pending[..i] + [j];
        i := i + 1;
      }
      assert pending[..i] == pending;
      MovedAll(old(Snapshot()), Snapshot(), pending);
    }

    /** Move the infeasible basic column `leaving` of `row` onto `newVal` by moving `entering`. */
    method ExchangeValues(leaving: nat, row: nat, newVal: Impq, ghost at: nat, entering: nat, a: real)
      requires Snapshot().Inv({}) && leaving in inf && heading[leaving] == row
      requires Within(lo[leaving], hi[leaving], newVal)
      requires at < |rows[row]| && rows[row][at].col == entering != leaving && rows[row][at].coeff == a
      modifies this`x, this`inf
      ensures entering < |x| == |heading| && heading[entering] < 0
      ensures |x| == |old(x)| && RowsHold(rows, x)
      ensures Tracked(lo, hi, x, heading, inf, {entering})
      ensures Feasible(lo, hi, x, leaving) && x[leaving] == newVal
      ensures forall c :: 0 <= c < |x| && heading[c] < 0 && c != entering ==> x[c] == old(x)[c]
    {
      assert RowLink(rows, cols, row, at);
      CoefAt(rows[row], at);
      NonBasic(rows, cols, basis, nbasis, heading, entering);
      ghost var x0 := x;
      var theta := x[leaving].Sub(newVal).Scale(1.0 / a);
      ThetaUndoes(x[leaving], newVal, a);
      x := x[leaving := newVal];
      inf := inf - {leaving};
      x := x[entering := x[entering].Add(theta)];
      ShiftBasics(entering, theta, Some(leaving), {entering});
      ShiftedHold(rows, cols, basis, nbasis, heading, x0, x, entering, theta);
    }

    /** Make `entering` the basic column of `row` in place of `leaving`. */
    method ExchangeBasis(leaving: nat, row: nat, entering: nat)
      requires Snapshot().Core() && leaving < |x| && heading[leaving] == row && entering < |x| && heading[entering] < 0
      requires Coef(rows[row], entering) != 0.0
      requires RowsHold(rows, x)
      requires Tracked(lo, hi, x, heading, inf, {entering}) && Feasible(lo, hi, x, leaving)
      modifies this`rows, this`cols, this`heading, this`basis, this`nbasis
      ensures Snapshot().Inv({entering}) && entering < |heading| && heading[entering] >= 0
      ensures |rows| == |old(rows)| && Pivoted(old(rows), rows, row, entering)
      ensures Snapshot() == Swapped(old(Snapshot()), rows, cols, leaving, entering)
    {
      if !Occurs(rows[row], entering) {
        CoefAbsent(rows[row], entering);
      }
      ghost var before := Snapshot();
      PivotColumn(entering, row);
      SwapHeadings(leaving, row, entering);
      ExchangeIsValid(before, leaving, entering);
    }

    method SwapHeadings(leaving: nat, row: nat, entering: nat)
      requires leaving < |heading| && entering < |heading| && row < |basis| && heading[entering] < 0
      requires -heading[entering] - 1 < |nbasis|
      modifies this`heading, this`basis, this`nbasis
      ensures var pnb := -old(heading)[entering] - 1;
        && heading == old(heading)[entering := row][leaving := -pnb - 1]
        && basis == old(basis)[row := entering] && nbasis == old(nbasis)[pnb := leaving]
    {
      var pnb := -heading[entering] - 1;
      heading := heading[entering := row];
      basis := basis[row := entering];
      heading := heading[leaving := -pnb - 1];
      nbasis := nbasis[pnb := leaving];
    }

    lemma {:induction false} ExchangeIsValid(s: State, leaving: nat, entering: nat)
      requires s.Core() && RowsHold(s.rows, s.x)
      requires leaving < |s.x| && entering < |s.x| && s.heading[leaving] >= 0 > s.heading[entering]
      requires Sparse(rows, cols) && NoZeros(rows) && |rows| == |s.rows| && |cols| == |s.cols|
      requires Pivoted(s.rows, rows, s.heading[leaving], entering)
      requires Tracked(s.lo, s.hi, s.x, s.heading, s.inf, {entering}) && Feasible(s.lo, s.hi, s.x, leaving)
      requires Snapshot() == Swapped(s, rows, cols, leaving, entering)
      ensures Snapshot().Inv({entering})
    {
      Exchanged(s, Snapshot(), leaving, entering);
    }

    /** One repair of the leaving column: an exchange, or nothing, when no cell of its row can move. */
    method Repair(leaving: nat, bland: bool) returns (ok: bool, ghost at: nat)
      requires Snapshot().Inv({}) && leaving in inf
      modifies this`rows, this`cols, this`x, this`inf, this`heading, this`basis, this`nbasis
      ensures Snapshot().Inv({}) && |x| == |old(x)|
      ensures ok ==> Exchange(old(Snapshot()), Snapshot(), leaving, at, bland)
      ensures !ok ==> Unsatisfiable() && Snapshot() == old(Snapshot()) && Stuck(Snapshot(), heading[leaving])
    {
      ghost var before := Snapshot();
      var row := heading[leaving];
      var best;
      best, at := FindEntering(row, bland);
      SameCandidates(row);
      if best.None? {
        BlockedHere(leaving);
        return false, 0;
      }
      assert Chosen(before, row, at, bland);
      var entering, a := best.value.0, best.value.1;
      var newVal;
      if lo[leaving].Some? && x[leaving].Less(lo[leaving].value) {
        newVal := lo[leaving].value;
      } else {
        assert hi[leaving].Some?;
        newVal := hi[leaving].value;
      }
      NearestWithin(lo[leaving], hi[leaving], x[leaving]);
      assert newVal == Nearest(lo[leaving], hi[leaving], x[leaving]);
      CoefAt(rows[row], at);
      ExchangeValues(leaving, row, newVal, at, entering, a);
      ghost var mid := Snapshot();
      ExchangeBasis(leaving, row, entering);
      Retrack(entering);
      IsExchange(before, mid, Snapshot(), leaving, entering, at, bland);
      return true, at;
    }

    lemma {:induction false} SameCandidates(i: nat)
      requires RowIn(i)
      ensures RowWithin(Snapshot(), i)
      ensures forall k :: 0 <= k < |rows[i]| ==> (MovableAt(Snapshot(), i, k) <==> Candidate(i, k))
      ensures forall k :: 0 <= k < |rows[i]| ==> RankAt(Snapshot(), i, k) == Rank(i, k)
    {
    }

    lemma {:induction false} BlockedHere(leaving: nat)
      requires Snapshot().Inv({}) && leaving in inf && Stuck(Snapshot(), heading[leaving])
      ensures Unsatisfiable()
    {
      var row := heading[leaving];
      forall k | 0 <= k < |rows[row]| && rows[row][k].col != leaving
        ensures !CanMove(lo, hi, x, rows[row][k], lo[leaving].Some? && x[leaving].Less(lo[leaving].value))
      {
        assert !MovableAt(Snapshot(), row, k);
      }
      Blocked(Snapshot(), leaving);
      NoModel(Snapshot());
    }

    method Retrack(j: nat)
      requires Snapshot().Inv({j}) && j < |heading| && heading[j] >= 0
      modifies this`inf
      ensures Snapshot().Inv({}) && Snapshot() == old(Snapshot()).(inf := inf)
    {
      Track(j, {j});
      assert {j} - {j} == {};
    }

    /** Restore feasibility: None when `budget` repairs do not suffice, Some(false) when infeasible. */
    method Solve(budget: nat) returns (res: Option<bool>, ghost run: seq<State>, ghost leavers: seq<nat>)
      requires Valid()
      modifies this`rows, this`cols, this`x, this`inf, this`changed, this`heading, this`basis, this`nbasis
      ensures Valid() && changed == [] && |x| == |old(x)|
      ensures res == Some(true) ==> AllFeasible()
      ensures res == Some(false) ==> Unsatisfiable()
      ensures |run| > 0 && Taken(old(Snapshot()), run[0]) && IsRun(run, leavers, run[0], Snapshot())
      ensures Answers(res, Snapshot(), |leavers|, budget)
    {
      TakeChanged();
      res, run, leavers := RepairAll(budget);
      SolvedIsValid();
    }

    /** Repair infeasible columns until there is none, one is blocked, or the budget is spent. */
    method RepairAll(budget: nat) returns (res: Option<bool>, ghost run: seq<State>, ghost leavers: seq<nat>)
      requires Snapshot().Inv({})
      modifies this`rows, this`cols, this`x, this`inf, this`heading, this`basis, this`nbasis
      ensures Snapshot().Inv({}) && |x| == |old(x)|
      ensures res == Some(false) ==> Unsatisfiable()
      ensures IsRun(run, leavers, old(Snapshot()), Snapshot()) && Answers(res, Snapshot(), |leavers|, budget)
    {
      var bland, left: set<nat>, repeated := false, {}, 0;
      run, leavers := [Snapshot()], [];
      RunStarts(Snapshot());
      var i := 0;
      while i < budget
        invariant Snapshot().Inv({}) && |x| == |old(x)|
        invariant i == |leavers| <= budget && IsRun(run, leavers, old(Snapshot()), Snapshot())
        invariant Noted(bland, left, repeated, leavers)
      {
        if inf == {} {
          return Some(true), run, leavers;
        }
        var leaving := Least(inf);
        ghost var before := Snapshot();
        NotedMore(bland, left, repeated, leavers, leaving);
        if !bland {
          bland, left, repeated := NoteLeaving(leaving, left, repeated);
        }
        var ok;
        ghost var at;
        ok, at := Repair(leaving, bland);
        if !ok {
          assert IsFirst(leaving, inf);
          return Some(false), run, leavers;
        }
        RunGoesOn(run, leavers, old(Snapshot()), before, leaving, at, Snapshot());
        run, leavers := run + [Snapshot()], leavers + [leaving];
        i := i + 1;
      }
      res := if inf == {} then Some(true) else None;
    }

    /** What is noted of the columns that have left. */
    static ghost predicate Noted(bland: bool, left: set<nat>, repeated: nat, leavers: seq<nat>) {
      && (bland <==> Repeats(leavers) > 1000)
      && (!bland ==> repeated == Repeats(leavers) && forall j :: j in left <==> j in leavers)
    }

    static lemma {:induction false} NotedMore(bland: bool, left: set<nat>, repeated: nat, leavers: seq<nat>, j: nat)
      requires Noted(bland, left, repeated, leavers)
      ensures bland ==> Noted(bland, left, repeated, leavers + [j])
      ensures !bland ==> var again := if j in left then repeated + 1 else repeated;
        Noted(j in left && again > 1000, left + {j}, again, leavers + [j])
    {
      RepeatsPush(leavers, j);
    }

    /** Count how often a column leaves the basis again; past a thousand times, Bland's rule takes over. */
    static method NoteLeaving(leaving: nat, left: set<nat>, repeated: nat) returns (bland: bool, left': set<nat>, repeated': nat)
      ensures left' == left + {leaving} && repeated' == (if leaving in left then repeated + 1 else repeated)
      ensures bland == (leaving in left && repeated' > 1000)
    {
      bland, left', repeated' := false, left, repeated;
      if leaving in left {
        repeated' := repeated + 1;
        if repeated' > 1000 {
          bland := true;
        }
      } else {
        left' := left + {leaving};
      }
    }

    lemma {:induction false} SolvedIsValid()
      requires Snapshot().Inv({}) && changed == []
      ensures Valid()
      ensures inf == {} ==> AllFeasible()
    {
      assert Members(changed) == {};
    }

    /** The first column in the order of the infeasible set. */
    method Least(s: set<nat>) returns (j: nat)
      requires s != {}
      ensures j in s && forall k :: k in s ==> j <= k
    {
      j :| j in s;
      var rest := s - {j};
      while rest != {}
        invariant rest <= s && j in s && forall k :: k in s && k !in rest ==> j <= k
        decreases rest
      {
        var k :| k in rest;
        if k < j {
          j := k;
        }
        rest := rest - {k};
      }
    }

    /** The largest delta up to 1 at which no pair on the right side of a bound is on its wrong side. */
    method LargestDelta() returns (delta: real)
      requires |lo| == |hi| == |x|
      ensures 0.0 < delta <= 1.0 && SmallFor(lo, hi, x, delta)
      ensures forall d :: delta < d <= 1.0 ==> !SmallFor(lo, hi, x, d)
    {
      delta := 1.0;
      ghost var tight := 0;
      var j := 0;
      while j < |x|
        invariant 0 <= j <= |x| && 0.0 < delta <= 1.0
        invariant forall i :: 0 <= i < j ==> SmallAt(lo, hi, x, i, delta)
        invariant delta < 1.0 ==> tight < |x| && forall d :: delta < d <= 1.0 ==> !SmallAt(lo, hi, x, tight, d)
      {
        var d := if lo[j].Some? then Shrink(delta, lo[j].value, x[j]) else delta;
        var e := if hi[j].Some? then Shrink(d, x[j], hi[j].value) else d;
        assert SmallAt(lo, hi, x, j, e);
        forall i | 0 <= i < j ensures SmallAt(lo, hi, x, i, e) {
          assert SmallAt(lo, hi, x, i, delta);
        }
        if e < delta {
          forall f | e < f <= 1.0 ensures !SmallAt(lo, hi, x, j, f) {
          }
          tight := j;
        }
        delta := e;
        j := j + 1;
      }
      forall f | delta < f <= 1.0 ensures !SmallFor(lo, hi, x, f) {
        assert !SmallAt(lo, hi, x, tight, f);
      }
    }

    /** Halve delta until different pairs have different values. */
    method Separate(delta0: real) returns (delta: real, ghost halvings: nat)
      requires delta0 > 0.0
      ensures 0.0 < delta <= delta0 && delta == Halved(delta0, halvings) && Clashes(x, delta0, halvings)
      ensures forall i, j :: 0 <= i < |x| && 0 <= j < |x| && x[i] != x[j] ==> x[i].At(delta) != x[j].At(delta)
    {
      delta, halvings := delta0, 0;
      var pairs := Pairs(x);
      var singles := set p | p in pairs :: p.At(delta);
      while |singles| != |pairs|
        invariant 0.0 < delta <= delta0 && singles == Image(pairs, delta) && delta == Halved(delta0, halvings)
        invariant Clashes(x, delta0, halvings)
        decreases |Collisions(pairs, delta)|
      {
        ImageSize(pairs, delta);
        ClashesMore(x, delta0, halvings);
        CollisionsShrink(pairs, delta);
        delta, halvings := delta / 2.0, halvings + 1;
        singles := set p | p in pairs :: p.At(delta);
      }
      ImageSize(pairs, delta);
      KeptApart(x, delta);
    }

    /** The columns' values at a positive delta small enough for every bound. */
    method Values() returns (vals: seq<real>, ghost delta0: real, ghost halvings: nat)
      requires Valid()
      ensures 0.0 < delta0 <= 1.0 && SmallFor(lo, hi, x, delta0) && forall d :: delta0 < d <= 1.0 ==> !SmallFor(lo, hi, x, d)
      ensures Halved(delta0, halvings) > 0.0 && ValuesAt(x, vals, Halved(delta0, halvings))
      ensures Clashes(x, delta0, halvings)
      ensures forall i, j :: 0 <= i < |x| && 0 <= j < |x| && x[i] != x[j] ==> vals[i] != vals[j]
      ensures AllFeasible() ==> IsModel(defs, asserted, Assign(vals))
    {
      var largest := LargestDelta();
      delta0 := largest;
      var delta;
      delta, halvings := Separate(largest);
      var xs := x;
      vals := seq(|xs|, i requires 0 <= i < |xs| => xs[i].At(delta));
      assert ValuesAt(x, vals, delta);
      if AllFeasible() {
        ValuesModel(Snapshot(), vals, delta0, delta);
      }
    }

    /** Substitute the row of `bj`, if it is basic and in the work vector, for `bj`. */
    method Block(bj: nat, wv: seq<real>, index: seq<nat>) returns (wv': seq<real>, index': seq<nat>)
      requires WorkOk(wv, index) && |wv| == |cols| == |heading| && bj < |wv|
      requires heading[bj] >= 0 ==> heading[bj] < |rows|
      requires heading[bj] >= 0 ==> DistinctCols(rows[heading[bj]]) && NoZero(rows[heading[bj]])
      requires heading[bj] >= 0 ==> forall k :: 0 <= k < |rows[heading[bj]]| ==> rows[heading[bj]][k].col < |wv|
      ensures heading[bj] < 0 ==> wv' == wv && index' == index
      ensures heading[bj] >= 0 ==> Substituted(wv, index, wv', index', rows[heading[bj]], bj)
    {
      wv', index' := wv, index;
      if heading[bj] < 0 {
        return;
      }
      var ri := heading[bj];
      var alpha := wv[bj];
      if alpha == 0.0 {
        SubstitutedNone(wv, index, rows[ri], bj);
        return;
      }
      TakenOffNone(wv, index, bj, alpha);
      var t := 0;
      while t < |rows[ri]|
        invariant 0 <= t <= |rows[ri]|
        invariant TakenOff(wv, index, wv', index', rows[ri][..t], bj, alpha)
      {
        var rc := rows[ri][t];
        ghost var wv1, index1 := wv', index';
        if rc.col != bj {
          var wasZero := wv'[rc.col] == 0.0;
          wv' := wv'[rc.col := wv'[rc.col] + -Times(alpha, rc.coeff)];
          if wasZero {
            index' := index' + [rc.col];
          } else if wv'[rc.col] == 0.0 {
            index' := Without(index', rc.col);
          }
        }
        TakenOffStep(wv, index, wv1, index1, wv', index', rows[ri][..t], rc, bj, alpha);
        assert rows[ri][..t + 1] == rows[ri][..t] + [rc];
        t := t + 1;
      }
      assert rows[ri][..t] == rows[ri];
      SubstitutedBy(wv, index, wv', index', rows[ri], bj);
      wv' := wv'[bj := 0.0];
      index' := Without(index', bj);
    }

    /** The work vector of `j - sum of the term`. */
    method LoadTerm(j: nat, coeffs: seq<(nat, real)>) returns (wv: seq<real>, index: seq<nat>)
      requires TermOk(coeffs, j)
      ensures |wv| == j + 1 && WorkOk(wv, index) && wv[j] == 1.0
      ensures forall c :: 0 <= c < j && wv[c] != 0.0 ==> InTerm(coeffs, c)
      ensures forall v: Vec :: WorkSum(wv, index, v) == v(j) - LinSum(coeffs, v)
    {
      wv := seq(j + 1, _ => 0.0);
      wv := wv[j := 1.0];
      index := [j];
      assert forall v: Vec :: WorkSum(wv, index, v) == WorkSum(wv, [], v) + Times(1.0, v(j));
      var t := 0;
      while t < |coeffs|
        invariant 0 <= t <= |coeffs|
        invariant |wv| == j + 1 && WorkOk(wv, index) && wv[j] == 1.0
        invariant forall c :: 0 <= c < j && wv[c] != 0.0 ==> InTerm(coeffs[..t], c)
        invariant forall v: Vec :: WorkSum(wv, index, v) == v(j) - LinSum(coeffs[..t], v)
      {
        var c, a := coeffs[t].0, coeffs[t].1;
        ghost var wv0, index0 := wv, index;
        NotInPrefix(coeffs, t, j);
        wv := wv[c := -a];
        index := index + [c];
        LoadedStep(coeffs, t, j, wv0, index0);
        t := t + 1;
      }
      assert coeffs[..t] == coeffs;
    }

    /** Substitute the rows of the basic columns of the term. */
    method EliminateBasics(j: nat, coeffs: seq<(nat, real)>, wv0: seq<real>, index0: seq<nat>, ghost rows0: seq<Row>,
                           ghost basis0: seq<nat>)
      returns (wv: seq<real>, index: seq<nat>)
      requires TermOk(coeffs, j) && |wv0| == j + 1 == |cols| == |heading| && WorkOk(wv0, index0) && wv0[j] == 0.0
      requires Pending(wv0, basis0, coeffs, 0) && StandsFor(wv0, index0, rows0, coeffs)
      requires UnitBasis(rows0, basis0) && |rows0| <= |rows|
      requires forall r :: 0 <= r < |rows0| ==> rows[r] == rows0[r] && DistinctCols(rows0[r]) && NoZero(rows0[r])
      requires forall r, k :: 0 <= r < |rows0| && 0 <= k < |rows0[r]| ==> rows0[r][k].col < j
      requires forall c :: 0 <= c < j && heading[c] >= 0 ==> heading[c] < |rows0| && basis0[heading[c]] == c
      requires forall c :: 0 <= c < j && c in basis0 ==> heading[c] >= 0
      ensures |wv| == j + 1 && WorkOk(wv, index) && wv[j] == 0.0
      ensures forall b :: b in basis0 && b < |wv| ==> wv[b] == 0.0
      ensures StandsFor(wv, index, rows0, coeffs)
    {
      wv, index := wv0, index0;
      var t := 0;
      while t < |coeffs|
        invariant 0 <= t <= |coeffs|
        invariant |wv| == j + 1 && WorkOk(wv, index) && wv[j] == 0.0
        invariant Pending(wv, basis0, coeffs, t) && StandsFor(wv, index, rows0, coeffs)
      {
        var c := coeffs[t].0;
        ghost var wv1, index1 := wv, index;
        wv, index := Block(c, wv, index);
        if heading[c] >= 0 {
          assert !Occurs(rows0[heading[c]], j);
          PendingStep(wv1, index1, wv, index, rows0, basis0, coeffs, t, heading[c], j);
        } else {
          PendingSkip(wv, basis0, coeffs, t);
        }
        t := t + 1;
      }
      assert coeffs[t..] == [];
    }

    /** Append the cells of the finished row, then the unit cell of its basic column `j`. */
    method StoreRow(last: nat, j: nat, wv: seq<real>, index: seq<nat>)
      requires Sparse(rows, cols) && last < |rows| && rows[last] == [] && |wv| == |cols| && j < |cols|
      requires WorkOk(wv, index) && wv[j] == 0.0
      modifies this`rows, this`cols
      ensures Sparse(rows, cols) && |cols| == |old(cols)| && |rows| == |old(rows)|
      ensures forall r :: 0 <= r < |rows| && r != last ==> rows[r] == old(rows)[r]
      ensures |rows[last]| == |index| + 1 && CellsOf(wv, index, rows[last][..|index|])
      ensures rows[last][|index|].col == j && rows[last][|index|].coeff == 1.0
    {
      var t := 0;
      while t < |index|
        invariant 0 <= t <= |index|
        invariant Sparse(rows, cols) && |cols| == |old(cols)| && |rows| == |old(rows)|
        invariant forall r :: 0 <= r < |rows| && r != last ==> rows[r] == old(rows)[r]
        invariant CellsOf(wv, index[..t], rows[last])
      {
        var c := index[t];
        assert c in index;
        if wv[c] != 0.0 {
          AddNewElement(last, c, wv[c]);
        }
        t := t + 1;
      }
      assert forall k :: 0 <= k < |rows[last]| ==> rows[last][k].col == index[k] && index[k] in index;
      assert !Occurs(rows[last], j);
      AddNewElement(last, j, 1.0);
      assert index[..t] == index;
    }

    /** The value of column `j` read off row `last`. */
    method RowValue(last: nat, j: nat) returns (r: Impq)
      requires last < |rows| && forall k :: 0 <= k < |rows[last]| ==> rows[last][k].col < |x|
      ensures r == Impq(-EvalBut(rows[last], j, Xs(x)), -EvalBut(rows[last], j, Ys(x)))
    {
      r := ZERO;
      var t := 0;
      while t < |rows[last]|
        invariant 0 <= t <= |rows[last]|
        invariant r == Impq(-EvalBut(rows[last][..t], j, Xs(x)), -EvalBut(rows[last][..t], j, Ys(x)))
      {
        var rc := rows[last][t];
        ghost var r0 := r;
        if rc.col != j && x[rc.col] != ZERO {
          r := r.Sub(x[rc.col].Scale(rc.coeff));
        }
        ValueStep(rows[last], t, j, x, r0, r);
        t := t + 1;
      }
      assert rows[last][..t] == rows[last];
    }

    /** Build the row of the term over the current non-basic columns, for the new basic column `j`. */
    method FillLastRow(last: nat, j: nat, coeffs: seq<(nat, real)>, ghost before: State)
      requires before.Core() && TermOk(coeffs, |before.x|) && j == |before.x| && last == |before.rows|
      requires rows == before.rows + [[]] && cols == before.cols + [[]] && heading == before.heading + [last]
      modifies this`rows, this`cols
      ensures Sparse(rows, cols) && |cols| == j + 1 && |rows| == last + 1 && rows == before.rows + [rows[last]]
      ensures TermRow(rows[last], before.rows, before.basis, coeffs, j)
      ensures exists p :: 0 <= p < |rows[last]| && rows[last][p].col == j && rows[last][p].coeff == 1.0
    {
      SparseTerm(before);
      var wv, index := LoadTerm(j, coeffs);
      ghost var wv0, index0 := wv, index;
      wv, index := Block(j, wv, index);
      LoadedBlock(before.rows, before.basis, wv0, index0, wv, index, coeffs, j);
      wv, index := EliminateBasics(j, coeffs, wv, index, before.rows, before.basis);
      StoreRow(last, j, wv, index);
      TermRowBy(rows[last], before.rows, before.basis, coeffs, j, wv, index);
    }

    /** Set the basic column `j` to the value that makes its row hold. */
    method SetFromRow(last: nat, j: nat)
      requires Sparse(rows, cols) && last < |rows| && |x| == |cols| && j < |x|
      requires exists p :: 0 <= p < |rows[last]| && rows[last][p].col == j && rows[last][p].coeff == 1.0
      modifies this`x
      ensures |x| == |old(x)| && x == old(x)[j := x[j]]
      ensures Eval(rows[last], Xs(x)) == 0.0 && Eval(rows[last], Ys(x)) == 0.0
    {
      ghost var p :| 0 <= p < |rows[last]| && rows[last][p].col == j && rows[last][p].coeff == 1.0;
      forall k | 0 <= k < |rows[last]| ensures rows[last][k].col < |x| {
        assert RowLink(rows, cols, last, k);
      }
      var r := RowValue(last, j);
      x := x[j := r];
      ValueHolds(rows[last], p, old(x), x);
    }

    /** A new column at value 0, basic in a new empty row. */
    method PushBasic() returns (j: nat, last: nat)
      requires |cols| == |x| == |lo| == |hi|
      modifies this`rows, this`cols, this`x, this`lo, this`hi, this`heading, this`basis
      ensures j == |old(x)| && last == |old(rows)|
      ensures Snapshot() == WithEmptyRow(old(Snapshot()))
    {
      j, last := |x|, |rows|;
      cols, x, lo, hi := cols + [[]], x + [ZERO], lo + [None], hi + [None];
      rows := rows + [[]];
      heading := heading + [last];
      basis := basis + [j];
    }

    /** Give the new basic column its row and its value. */
    method BuildTerm(last: nat, j: nat, coeffs: seq<(nat, real)>, ghost before: State, ghost exempt: set<nat>)
      requires before.Inv(exempt) && TermOk(coeffs, |before.x|) && j == |before.x| && last == |before.rows|
      requires Snapshot() == WithEmptyRow(before)
      modifies this`rows, this`cols, this`x
      ensures |x| == j + 1 && |rows| == last + 1
      ensures Snapshot().(defs := defs + [Def(j, coeffs)]) == WithTerm(before, rows[last], cols, x[j], coeffs)
      ensures WithTerm(before, rows[last], cols, x[j], coeffs).Inv(exempt)
    {
      FillLastRow(last, j, coeffs, before);
      SetFromRow(last, j);
      assert x == before.x + [x[j]];
      ghost var after := WithTerm(before, rows[last], cols, x[j], coeffs);
      TermAdded(before, after, exempt, coeffs);
    }

    /** Define one more column by a term: its row mentions no other basic column. */
    method AddTerm(coeffs: seq<(nat, real)>) returns (j: nat)
      requires Valid() && TermOk(coeffs, |x|)
      modifies this
      ensures Valid() && j == |old(x)| && |x| == j + 1 && x[..j] == old(x)
      ensures lo == old(lo) + [None] && hi == old(hi) + [None]
      ensures defs == old(defs) + [Def(j, coeffs)] && asserted == old(asserted)
    {
      ghost var before := Snapshot();
      var last;
      j, last := PushBasic();
      BuildTerm(last, j, coeffs, before, Members(changed));
      defs := defs + [Def(j, coeffs)];
    }
  }
}
