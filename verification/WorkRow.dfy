/**
 The dense work vector in which the row of a new term is built: `wv` holds the coefficients and
 `index` lists the columns whose coefficient is not 0.
 */
module WorkRow {
  import opened DeltaRationals
  import opened Options
  import opened Products
  import opened SimplexState
  import opened Tableau

  /** `index` lists each column with a coefficient other than 0, once. */
  ghost predicate WorkOk(wv: seq<real>, index: seq<nat>) {
    && (forall i, k :: 0 <= i < k < |index| ==> index[i] != index[k])
    && (forall c :: c in index ==> c < |wv| && wv[c] != 0.0)
    && (forall c :: 0 <= c < |wv| && wv[c] != 0.0 ==> c in index)
  }

  function Weight(wv: seq<real>, c: nat): real {
    if c < |wv| then wv[c] else 0.0
  }

  /** The linear form the work vector stands for. */
  ghost function WorkSum(wv: seq<real>, index: seq<nat>, v: Vec): real {
    if index == [] then 0.0
    else
      var c := index[|index| - 1];
      WorkSum(wv, index[..|index| - 1], v) + Times(Weight(wv, c), v(c))
  }

  lemma {:induction false} WorkSumOther(wv: seq<real>, wv': seq<real>, index: seq<nat>, v: Vec)
    requires forall c :: c in index ==> Weight(wv, c) == Weight(wv', c)
    ensures WorkSum(wv, index, v) == WorkSum(wv', index, v)
    decreases |index|
  {
    if index != [] {
      WorkSumOther(wv, wv', index[..|index| - 1], v);
    }
  }

  lemma {:induction false} WorkPush(wv: seq<real>, index: seq<nat>, c: nat, a: real, v: Vec)
    requires c < |wv| && c !in index
    ensures WorkSum(wv[c := a], index + [c], v) == WorkSum(wv, index, v) + Times(a, v(c))
  {
    assert (index + [c])[..|index|] == index;
    WorkSumOther(wv, wv[c := a], index, v);
  }

  lemma {:induction false} WorkUpdate(wv: seq<real>, index: seq<nat>, c: nat, d: real, v: Vec)
    requires c < |wv| && c in index && forall i, k :: 0 <= i < k < |index| ==> index[i] != index[k]
    ensures WorkSum(wv[c := wv[c] + d], index, v) == WorkSum(wv, index, v) + Times(d, v(c))
    decreases |index|
  {
    var n := |index| - 1;
    if index[n] == c {
      assert c !in index[..n];
      WorkSumOther(wv, wv[c := wv[c] + d], index[..n], v);
      DistributeRight(wv[c], d, v(c));
    } else {
      assert c in index[..n];
      WorkUpdate(wv, index[..n], c, d, v);
    }
  }

  /** The list without `c`. */
  function Without(index: seq<nat>, c: nat): seq<nat> {
    if index == [] then []
    else
      var rest := Without(index[..|index| - 1], c);
      if index[|index| - 1] == c then rest else rest + [index[|index| - 1]]
  }

  lemma {:induction false} WithoutContents(index: seq<nat>, c: nat)
    requires forall i, k :: 0 <= i < k < |index| ==> index[i] != index[k]
    ensures var w := Without(index, c);
      && (forall e :: e in w <==> e in index && e != c)
      && (forall i, k :: 0 <= i < k < |w| ==> w[i] != w[k])
    decreases |index|
  {
    if index != [] {
      var n := |index| - 1;
      WithoutContents(index[..n], c);
      var rest := Without(index[..n], c);
      assert forall e :: e in index <==> e in index[..n] || e == index[n];
      assert index[n] !in index[..n];
      assert index[n] !in rest;
    }
  }

  lemma {:induction false} WithoutSum(wv: seq<real>, index: seq<nat>, c: nat, v: Vec)
    requires Weight(wv, c) == 0.0
    ensures WorkSum(wv, Without(index, c), v) == WorkSum(wv, index, v)
    decreases |index|
  {
    if index != [] {
      var n := |index| - 1;
      WithoutSum(wv, index[..n], c, v);
      if index[n] == c {
        ZeroTimes(v(c));
      } else {
        var rest := Without(index[..n], c);
        assert (rest + [index[n]])[..|rest|] == rest;
      }
    }
  }

  /** `wv'`, `index'` are the work vector with `d` added at `c`. */
  ghost predicate Bumped(wv: seq<real>, index: seq<nat>, wv': seq<real>, index': seq<nat>, c: nat, d: real)
    requires c < |wv|
  {
    && wv' == wv[c := wv[c] + d]
    && index' == if wv[c] == 0.0 then index + [c] else if wv'[c] == 0.0 then Without(index, c) else index
  }

  lemma {:induction false} BumpedOk(wv: seq<real>, index: seq<nat>, wv': seq<real>, index': seq<nat>, c: nat, d: real)
    requires WorkOk(wv, index) && c < |wv| && d != 0.0 && Bumped(wv, index, wv', index', c, d)
    ensures WorkOk(wv', index')
    ensures forall v: Vec :: WorkSum(wv', index', v) == WorkSum(wv, index, v) + Times(d, v(c))
  {
    WithoutContents(index, c);
    forall v: Vec ensures WorkSum(wv', index', v) == WorkSum(wv, index, v) + Times(d, v(c)) {
      if wv[c] == 0.0 {
        WorkPush(wv, index, c, d, v);
      } else {
        WorkUpdate(wv, index, c, d, v);
        if wv'[c] == 0.0 {
          WithoutSum(wv', index, c, v);
        }
      }
    }
  }

  /** A bump keeps the list free of repeats if and only if no listed column has the coefficient 0. */
  lemma {:induction false} BumpRepeatsIff(wv: seq<real>, index: seq<nat>, wv': seq<real>, index': seq<nat>, c: nat, d: real)
    requires c < |wv| && Bumped(wv, index, wv', index', c, d)
    requires forall i, k :: 0 <= i < k < |index| ==> index[i] != index[k]
    ensures (forall i, k :: 0 <= i < k < |index'| ==> index'[i] != index'[k]) <==> !(c in index && wv[c] == 0.0)
  {
    WithoutContents(index, c);
    if wv[c] == 0.0 && c in index {
      var i :| 0 <= i < |index| && index[i] == c;
      assert index'[i] == index'[|index|];
    } else if wv[c] == 0.0 {
      forall i, k | 0 <= i < k < |index'| ensures index'[i] != index'[k] {
        assert index'[i] == index[i] && index[i] in index;
        assert k < |index| ==> index'[k] == index[k];
      }
    } else {
      assert index' == Without(index, c) || index' == index;
    }
  }

  /** Dropping `c` altogether. */
  lemma {:induction false} DroppedOk(wv: seq<real>, index: seq<nat>, c: nat)
    requires WorkOk(wv, index) && c < |wv|
    ensures WorkOk(wv[c := 0.0], Without(index, c))
    ensures forall v: Vec :: WorkSum(wv[c := 0.0], Without(index, c), v) == WorkSum(wv, index, v) - Times(wv[c], v(c))
  {
    WithoutContents(index, c);
    var wv', index' := wv[c := 0.0], Without(index, c);
    assert forall e :: e in index' ==> e in index && wv'[e] == wv[e];
    forall e | 0 <= e < |wv'| && wv'[e] != 0.0 ensures e in index' {
      assert wv[e] == wv'[e] && e in index;
    }
    forall v: Vec ensures WorkSum(wv', index', v) == WorkSum(wv, index, v) - Times(wv[c], v(c)) {
      DroppedSum(wv, index, c, v);
    }
  }

  lemma {:induction false} DroppedSum(wv: seq<real>, index: seq<nat>, c: nat, v: Vec)
    requires WorkOk(wv, index) && c < |wv|
    ensures WorkSum(wv[c := 0.0], Without(index, c), v) == WorkSum(wv, index, v) - Times(wv[c], v(c))
  {
    WithoutSum(wv[c := 0.0], index, c, v);
    if wv[c] == 0.0 {
      assert wv[c := 0.0] == wv;
      ZeroTimes(v(c));
    } else {
      WorkUpdate(wv, index, c, -wv[c], v);
      assert wv[c := 0.0] == wv[c := wv[c] + -wv[c]];
      MinusTimes(wv[c], v(c));
    }
  }

  /** The work vector after the row of the basic column `b`, scaled by `alpha`, was taken off up to cell `t`. */
  ghost predicate TakenOff(wv: seq<real>, index: seq<nat>, wv': seq<real>, index': seq<nat>, cells: Row, b: nat, alpha: real) {
    && WorkOk(wv', index') && |wv'| == |wv|
    && (forall c :: 0 <= c < |wv| && !Occurs(cells, c) ==> wv'[c] == wv[c])
    && (b < |wv| ==> wv'[b] == wv[b])
    && (forall v: Vec :: WorkSum(wv', index', v) == WorkSum(wv, index, v) - Times(alpha, EvalBut(cells, b, v)))
  }

  lemma {:induction false} TakenOffNone(wv: seq<real>, index: seq<nat>, b: nat, alpha: real)
    requires WorkOk(wv, index)
    ensures TakenOff(wv, index, wv, index, [], b, alpha)
  {
    ProductZero(alpha, 0.0);
  }

  lemma {:induction false} OccursAppend(cells: Row, cell: RowCell, c: nat)
    ensures Occurs(cells + [cell], c) <==> Occurs(cells, c) || cell.col == c
  {
    if Occurs(cells, c) {
      OccursMore(cells, cell, c);
    } else if cell.col == c {
      assert (cells + [cell])[|cells|].col == c;
    }
  }

  lemma {:induction false} TakenOffStep(wv: seq<real>, index: seq<nat>, wv1: seq<real>, index1: seq<nat>, wv': seq<real>, index': seq<nat>,
                     cells: Row, cell: RowCell, b: nat, alpha: real)
    requires TakenOff(wv, index, wv1, index1, cells, b, alpha) && cell.col < |wv|
    requires alpha != 0.0 && cell.coeff != 0.0
    requires if cell.col == b then wv' == wv1 && index' == index1
      else Bumped(wv1, index1, wv', index', cell.col, -Times(alpha, cell.coeff))
    ensures TakenOff(wv, index, wv', index', cells + [cell], b, alpha)
  {
    assert (cells + [cell])[..|cells|] == cells;
    forall c | 0 <= c < |wv| ensures Occurs(cells + [cell], c) <==> Occurs(cells, c) || cell.col == c {
      OccursAppend(cells, cell, c);
    }
    if cell.col != b {
      ProductZero(alpha, cell.coeff);
      BumpedOk(wv1, index1, wv', index', cell.col, -Times(alpha, cell.coeff));
      forall v: Vec
        ensures WorkSum(wv', index', v) == WorkSum(wv, index, v) - Times(alpha, EvalBut(cells + [cell], b, v))
      {
        MinusTimes(Times(alpha, cell.coeff), v(cell.col));
        Commute(alpha, cell.coeff, v(cell.col));
        Distribute(alpha, EvalBut(cells, b, v), Term(cell, v));
      }
    }
  }

  /** The work vector with the row of the basic column `b` substituted for `b`. */
  ghost predicate Substituted(wv: seq<real>, index: seq<nat>, wv': seq<real>, index': seq<nat>, row: Row, b: nat)
    requires b < |wv|
  {
    && WorkOk(wv', index') && |wv'| == |wv| && wv'[b] == 0.0
    && (forall c :: 0 <= c < |wv| && c != b && !Occurs(row, c) ==> wv'[c] == wv[c])
    && (forall v: Vec :: WorkSum(wv', index', v)
                      == WorkSum(wv, index, v) - Times(wv[b], EvalBut(row, b, v)) - Times(wv[b], v(b)))
  }

  lemma {:induction false} SubstitutedBy(wv: seq<real>, index: seq<nat>, wv1: seq<real>, index1: seq<nat>, row: Row, b: nat)
    requires b < |wv| && TakenOff(wv, index, wv1, index1, row, b, wv[b])
    ensures Substituted(wv, index, wv1[b := 0.0], Without(index1, b), row, b)
  {
    DroppedOk(wv1, index1, b);
  }

  lemma {:induction false} SubstitutedNone(wv: seq<real>, index: seq<nat>, row: Row, b: nat)
    requires WorkOk(wv, index) && b < |wv| && wv[b] == 0.0
    ensures Substituted(wv, index, wv, index, row, b)
  {
    forall v: Vec ensures Times(0.0, EvalBut(row, b, v)) == 0.0 && Times(0.0, v(b)) == 0.0 {
      ZeroTimes(EvalBut(row, b, v));
      ZeroTimes(v(b));
    }
  }

  /** When the row holds, substituting it changes nothing. */
  lemma {:induction false} SubstitutedSum(wv: seq<real>, index: seq<nat>, wv': seq<real>, index': seq<nat>, row: Row, b: nat, v: Vec)
    requires b < |wv| && Substituted(wv, index, wv', index', row, b)
    requires DistinctCols(row) && Coef(row, b) == 1.0 && Eval(row, v) == 0.0
    ensures WorkSum(wv', index', v) == WorkSum(wv, index, v)
  {
    if !Occurs(row, b) {
      CoefAbsent(row, b);
    }
    var p :| 0 <= p < |row| && row[p].col == b;
    CoefAt(row, p);
    EvalButAt(row, p, v);
    assert Term(row[p], v) == v(b);
    assert EvalBut(row, b, v) == -v(b);
    Commute(wv[b], -1.0, v(b));
    assert Times(wv[b], -v(b)) == -Times(wv[b], v(b));
  }

  /** The cells of the finished row stand for the work vector. */
  ghost predicate CellsOf(wv: seq<real>, cols: seq<nat>, row: Row) {
    |row| == |cols| && forall k :: 0 <= k < |row| ==> row[k].col == cols[k] && row[k].coeff == Weight(wv, cols[k])
  }

  lemma {:induction false} CellsOfSum(wv: seq<real>, cols: seq<nat>, row: Row, v: Vec)
    requires CellsOf(wv, cols, row)
    ensures Eval(row, v) == WorkSum(wv, cols, v)
    decreases |row|
  {
    if row != [] {
      CellsOfSum(wv, cols[..|cols| - 1], row[..|row| - 1], v);
    }
  }

  // ----- the term to be loaded -----

  /** The columns of the term are distinct and below `n`, and no coefficient is 0. */
  predicate TermOk(coeffs: seq<(nat, real)>, n: nat) {
    && (forall i :: 0 <= i < |coeffs| ==> coeffs[i].0 < n && coeffs[i].1 != 0.0)
    && (forall i, k :: 0 <= i < k < |coeffs| ==> coeffs[i].0 != coeffs[k].0)
  }

  ghost predicate InTerm(coeffs: seq<(nat, real)>, c: nat) {
    exists i :: 0 <= i < |coeffs| && coeffs[i].0 == c
  }

  lemma {:induction false} NotInPrefix(coeffs: seq<(nat, real)>, t: nat, n: nat)
    requires TermOk(coeffs, n) && t < |coeffs|
    ensures !InTerm(coeffs[..t], coeffs[t].0)
  {
  }

  /** Loading one more product of the term. */
  lemma {:induction false} LoadedStep(coeffs: seq<(nat, real)>, t: nat, j: nat, wv: seq<real>, index: seq<nat>)
    requires TermOk(coeffs, j) && t < |coeffs| && |wv| == j + 1 && WorkOk(wv, index) && wv[j] == 1.0
    requires forall c :: 0 <= c < j && wv[c] != 0.0 ==> InTerm(coeffs[..t], c)
    requires forall v: Vec :: WorkSum(wv, index, v) == v(j) - LinSum(coeffs[..t], v)
    ensures var wv', index' := wv[coeffs[t].0 := -coeffs[t].1], index + [coeffs[t].0];
      && WorkOk(wv', index')
      && (forall c :: 0 <= c < j && wv'[c] != 0.0 ==> InTerm(coeffs[..t + 1], c))
      && (forall v: Vec :: WorkSum(wv', index', v) == v(j) - LinSum(coeffs[..t + 1], v))
  {
    var c, a := coeffs[t].0, coeffs[t].1;
    NotInPrefix(coeffs, t, j);
    assert c !in index;
    assert coeffs[..t + 1][..t] == coeffs[..t];
    forall v: Vec
      ensures WorkSum(wv[c := -a], index + [c], v) == v(j) - LinSum(coeffs[..t + 1], v)
    {
      WorkPush(wv, index, c, -a, v);
      MinusTimes(a, v(c));
    }
    var wv' := wv[c := -a];
    forall e | 0 <= e < j && wv'[e] != 0.0 ensures InTerm(coeffs[..t + 1], e) {
      if e == c {
        assert coeffs[..t + 1][t].0 == c;
      } else {
        var i :| 0 <= i < t && coeffs[..t][i].0 == e;
        assert coeffs[..t + 1][i].0 == e;
      }
    }
  }

  /** Basic columns still to be substituted: those in the term from `t` on. */
  ghost predicate Pending(wv: seq<real>, basis: seq<nat>, coeffs: seq<(nat, real)>, t: nat)
    requires t <= |coeffs|
  {
    forall b :: b in basis && b < |wv| && wv[b] != 0.0 ==> InTerm(coeffs[t..], b)
  }

  /** The work vector stands for the term on every solution of the rows. */
  ghost predicate StandsFor(wv: seq<real>, index: seq<nat>, rows: seq<Row>, coeffs: seq<(nat, real)>) {
    forall v: Vec :: RowsZero(rows, v) ==> WorkSum(wv, index, v) == -LinSum(coeffs, v)
  }

  lemma {:induction false} PendingStep(wv: seq<real>, index: seq<nat>, wv': seq<real>, index': seq<nat>, rows: seq<Row>, basis: seq<nat>,
                    coeffs: seq<(nat, real)>, t: nat, r: nat, n: nat)
    requires TermOk(coeffs, n) && t < |coeffs| && UnitBasis(rows, basis) && r < |rows| && basis[r] == coeffs[t].0
    requires forall q :: 0 <= q < |rows| ==> DistinctCols(rows[q]) && NoZero(rows[q])
    requires coeffs[t].0 < |wv| && Substituted(wv, index, wv', index', rows[r], coeffs[t].0)
    requires Pending(wv, basis, coeffs, t) && StandsFor(wv, index, rows, coeffs)
    ensures Pending(wv', basis, coeffs, t + 1) && StandsFor(wv', index', rows, coeffs)
  {
    var c := coeffs[t].0;
    forall b | b in basis && b < |wv'| && wv'[b] != 0.0 ensures InTerm(coeffs[t + 1..], b) {
      var q :| 0 <= q < |basis| && basis[q] == b;
      assert Coef(rows[r], b) == 0.0;
      CoefOccurs(rows[r], b);
      assert wv[b] != 0.0;
      PendingNext(coeffs, t, b);
    }
    forall v: Vec | RowsZero(rows, v) ensures WorkSum(wv', index', v) == -LinSum(coeffs, v) {
      SubstitutedSum(wv, index, wv', index', rows[r], c, v);
    }
  }

  lemma {:induction false} PendingNext(coeffs: seq<(nat, real)>, t: nat, b: nat)
    requires t < |coeffs| && coeffs[t].0 != b && InTerm(coeffs[t..], b)
    ensures InTerm(coeffs[t + 1..], b)
  {
    var i :| 0 <= i < |coeffs[t..]| && coeffs[t..][i].0 == b;
    assert coeffs[t + 1..][i - 1] == coeffs[t..][i];
  }

  lemma {:induction false} PendingSkip(wv: seq<real>, basis: seq<nat>, coeffs: seq<(nat, real)>, t: nat)
    requires t < |coeffs| && coeffs[t].0 !in basis && Pending(wv, basis, coeffs, t)
    ensures Pending(wv, basis, coeffs, t + 1)
  {
    forall b | b in basis && b < |wv| && wv[b] != 0.0 ensures InTerm(coeffs[t + 1..], b) {
      PendingNext(coeffs, t, b);
    }
  }

  // ----- the finished row -----

  /** The row of a new term: its linear form, and no basic column but its own. */
  ghost predicate TermRow(row: Row, rows: seq<Row>, basis: seq<nat>, coeffs: seq<(nat, real)>, j: nat) {
    && NoZero(row)
    && (forall b :: b in basis ==> !Occurs(row, b))
    && Coef(row, j) == 1.0
    && (forall v: Vec :: RowsZero(rows, v) ==> Eval(row, v) == v(j) - LinSum(coeffs, v))
  }

  lemma {:induction false} TermRowBy(row: Row, rows: seq<Row>, basis: seq<nat>, coeffs: seq<(nat, real)>, j: nat,
                  wv: seq<real>, index: seq<nat>)
    requires WorkOk(wv, index) && |wv| == j + 1 && wv[j] == 0.0 && DistinctCols(row)
    requires forall b :: b in basis ==> b < j && wv[b] == 0.0
    requires StandsFor(wv, index, rows, coeffs)
    requires |row| == |index| + 1 && CellsOf(wv, index, row[..|index|])
    requires row[|index|].col == j && row[|index|].coeff == 1.0
    ensures TermRow(row, rows, basis, coeffs, j)
  {
    forall k | 0 <= k < |row| ensures row[k].coeff != 0.0 && row[k].col !in basis {
      if k < |index| {
        assert row[..|index|][k] == row[k] && index[k] in index;
      }
    }
    CoefAt(row, |index|);
    forall v: Vec | RowsZero(rows, v) ensures Eval(row, v) == v(j) - LinSum(coeffs, v) {
      CellsOfSum(wv, index, row[..|index|], v);
    }
  }

  lemma {:induction false} TermBasis(rows: seq<Row>, basis: seq<nat>, row: Row, coeffs: seq<(nat, real)>, j: nat)
    requires UnitBasis(rows, basis) && TermRow(row, rows, basis, coeffs, j)
    requires forall r :: 0 <= r < |rows| ==> !Occurs(rows[r], j)
    ensures UnitBasis(rows + [row], basis + [j])
  {
    var rows', basis' := rows + [row], basis + [j];
    forall r, q | 0 <= r < |rows'| && 0 <= q < |basis'|
      ensures Coef(rows'[r], basis'[q]) == if r == q then 1.0 else 0.0
    {
      if r == |rows| && q < |rows| {
        assert basis[q] in basis;
        CoefAbsent(row, basis[q]);
      } else if r < |rows| && q == |rows| {
        CoefAbsent(rows[r], j);
      }
    }
  }

  lemma {:induction false} TermHistory(rows: seq<Row>, basis: seq<nat>, row: Row, lo: Bounds, hi: Bounds, defs: seq<Def>,
                    asserted: seq<Asserted>, coeffs: seq<(nat, real)>, j: nat)
    requires |lo| == |hi| && HistoryOk(rows, lo, hi, defs, asserted) && TermRow(row, rows, basis, coeffs, j)
    ensures HistoryOk(rows + [row], lo + [None], hi + [None], defs + [Def(j, coeffs)], asserted)
  {
    HistoryColumn(rows, lo, hi, defs, asserted);
    forall v: Vec ensures RowsZero(rows + [row], v) <==> DefsHold(defs + [Def(j, coeffs)], v) {
      RowsZeroMore(rows, row, v);
      DefsHoldMore(defs, Def(j, coeffs), v);
    }
  }

  lemma {:induction false} RowsZeroMore(rows: seq<Row>, row: Row, v: Vec)
    ensures RowsZero(rows + [row], v) <==> RowsZero(rows, v) && Eval(row, v) == 0.0
  {
    var more := rows + [row];
    if RowsZero(more, v) {
      assert more[|rows|] == row;
      forall r | 0 <= r < |rows| ensures Eval(rows[r], v) == 0.0 {
        assert more[r] == rows[r];
      }
    }
  }

  lemma {:induction false} DefsHoldMore(defs: seq<Def>, d: Def, v: Vec)
    ensures DefsHold(defs + [d], v) <==> DefsHold(defs, v) && v(d.col) == LinSum(d.coeffs, v)
  {
    var more := defs + [d];
    if DefsHold(more, v) {
      assert more[|defs|] == d;
      forall i | 0 <= i < |defs| ensures v(defs[i].col) == LinSum(defs[i].coeffs, v) {
        assert more[i] == defs[i];
      }
    }
  }

  lemma {:induction false} HeadingsTerm(nrows: nat, basis: seq<nat>, nbasis: seq<nat>, heading: seq<int>)
    requires Headings(nrows, basis, nbasis, heading)
    ensures Headings(nrows + 1, basis + [|heading|], nbasis, heading + [nrows])
  {
  }

  /** The state with a new column, basic in a new empty row. */
  ghost function WithEmptyRow(s: State): State {
    s.(rows := s.rows + [[]], cols := s.cols + [[]], x := s.x + [ZERO], lo := s.lo + [None], hi := s.hi + [None],
       basis := s.basis + [|s.x|], heading := s.heading + [|s.rows|])
  }

  /** The state with a new term column of value `p`. */
  ghost function WithTerm(s: State, row: Row, cols: seq<Col>, p: Impq, coeffs: seq<(nat, real)>): State {
    s.(rows := s.rows + [row], cols := cols, x := s.x + [p], lo := s.lo + [None], hi := s.hi + [None],
       basis := s.basis + [|s.x|], heading := s.heading + [|s.rows|], defs := s.defs + [Def(|s.x|, coeffs)])
  }

  lemma {:induction false} TermAdded(s: State, s': State, exempt: set<nat>, coeffs: seq<(nat, real)>)
    requires s.Inv(exempt) && TermOk(coeffs, |s.x|)
    requires |s'.rows| == |s.rows| + 1 && |s'.x| == |s.x| + 1
    requires var row := s'.rows[|s.rows|];
      && s' == WithTerm(s, row, s'.cols, s'.x[|s.x|], coeffs)
      && TermRow(row, s.rows, s.basis, coeffs, |s.x|)
      && Eval(row, Xs(s'.x)) == 0.0 && Eval(row, Ys(s'.x)) == 0.0
    requires Sparse(s'.rows, s'.cols) && |s'.cols| == |s.x| + 1
    ensures s'.Inv(exempt)
  {
    var j, row := |s.x|, s'.rows[|s.rows|];
    forall r | 0 <= r < |s.rows| ensures !Occurs(s.rows[r], j) {
      forall k | 0 <= k < |s.rows[r]| ensures s.rows[r][k].col != j {
        assert RowLink(s.rows, s.cols, r, k);
      }
    }
    TermBasis(s.rows, s.basis, row, coeffs, j);
    HeadingsTerm(|s.rows|, s.basis, s.nbasis, s.heading);
    TermHistory(s.rows, s.basis, row, s.lo, s.hi, s.defs, s.asserted, coeffs, j);
    BoundsColumn(s.lo, s.hi, s.x, s'.x[j], s.heading, s.inf, exempt, |s.rows|);
    RowsHoldAgree(s.rows, s.cols, s.x, s'.x);
    RowsZeroMore(s.rows, row, Xs(s'.x));
    RowsZeroMore(s.rows, row, Ys(s'.x));
  }

  /** The empty row of a new column, and where the cells of the other rows lie. */
  lemma {:induction false} SparseTerm(s: State)
    requires s.Core()
    ensures Sparse(s.rows + [[]], s.cols + [[]])
    ensures forall r, k :: 0 <= r < |s.rows| && 0 <= k < |s.rows[r]| ==> s.rows[r][k].col < |s.x|
    ensures forall c :: 0 <= c < |s.x| ==> (c in s.basis <==> s.heading[c] >= 0)
  {
    SparseColumn(s.rows, s.cols);
    forall r, k | 0 <= r < |s.rows| && 0 <= k < |s.rows[r]| ensures s.rows[r][k].col < |s.x| {
      assert RowLink(s.rows, s.cols, r, k);
    }
    var rows', cols' := s.rows + [[]], s.cols + [[]];
    forall r, k | 0 <= r < |rows'| && 0 <= k < |rows'[r]| ensures RowLink(rows', cols', r, k) {
      assert RowLink(s.rows, cols', r, k);
    }
    forall c, k | 0 <= c < |cols'| && 0 <= k < |cols'[c]| ensures ColLink(rows', cols', c, k) {
      assert ColLink(s.rows, cols', c, k);
    }
    forall c | 0 <= c < |s.x| ensures c in s.basis <==> s.heading[c] >= 0 {
      NonBasic(s.rows, s.cols, s.basis, s.nbasis, s.heading, c);
    }
  }

  /** After the new column's own, empty, row is substituted only the term is left. */
  lemma {:induction false} LoadedBlock(rows: seq<Row>, basis: seq<nat>, wv: seq<real>, index: seq<nat>, wv': seq<real>, index': seq<nat>,
                    coeffs: seq<(nat, real)>, j: nat)
    requires |wv| == j + 1 && wv[j] == 1.0 && Substituted(wv, index, wv', index', [], j)
    requires forall c :: 0 <= c < j && wv[c] != 0.0 ==> InTerm(coeffs, c)
    requires forall v: Vec :: WorkSum(wv, index, v) == v(j) - LinSum(coeffs, v)
    requires forall b :: b in basis ==> b < j
    ensures Pending(wv', basis, coeffs, 0) && StandsFor(wv', index', rows, coeffs)
  {
    assert coeffs[0..] == coeffs;
    forall v: Vec ensures WorkSum(wv', index', v) == -LinSum(coeffs, v) {
      assert Times(1.0, EvalBut([], j, v)) == 0.0 && Times(1.0, v(j)) == v(j);
    }
  }

  lemma {:induction false} ValueStep(row: Row, t: nat, j: nat, x: seq<Impq>, r: Impq, r': Impq)
    requires t < |row| && row[t].col < |x|
    requires r == Impq(-EvalBut(row[..t], j, Xs(x)), -EvalBut(row[..t], j, Ys(x)))
    requires r' == if row[t].col == j || x[row[t].col] == ZERO then r else r.Sub(x[row[t].col].Scale(row[t].coeff))
    ensures r' == Impq(-EvalBut(row[..t + 1], j, Xs(x)), -EvalBut(row[..t + 1], j, Ys(x)))
  {
    assert row[..t + 1][..t] == row[..t];
    var p, a := x[row[t].col], row[t].coeff;
    ProductZero(a, 0.0);
    TimesCommutes(p.x, a);
    TimesCommutes(p.y, a);
  }

  lemma {:induction false} TimesCommutes(a: real, b: real)
    ensures Times(a, b) == Times(b, a)
  {
  }

  /** Giving its basic column the value read off the row makes the row hold. */
  lemma {:induction false} ValueHolds(row: Row, k: nat, x: seq<Impq>, x': seq<Impq>)
    requires k < |row| && DistinctCols(row) && row[k].coeff == 1.0 && row[k].col < |x| == |x'|
    requires x' == x[row[k].col := x'[row[k].col]]
    requires x'[row[k].col] == Impq(-EvalBut(row, row[k].col, Xs(x)), -EvalBut(row, row[k].col, Ys(x)))
    ensures Eval(row, Xs(x')) == 0.0 && Eval(row, Ys(x')) == 0.0
  {
    EvalButAt(row, k, Xs(x'));
    EvalButAt(row, k, Ys(x'));
    EvalButAgree(row, row[k].col, Xs(x), Xs(x'));
    EvalButAgree(row, row[k].col, Ys(x), Ys(x'));
  }

  lemma {:induction false} EvalButAgree(row: Row, c: nat, v: Vec, w: Vec)
    requires forall k :: 0 <= k < |row| && row[k].col != c ==> v(row[k].col) == w(row[k].col)
    ensures EvalBut(row, c, v) == EvalBut(row, c, w)
    decreases |row|
  {
    if row != [] {
      EvalButAgree(row[..|row| - 1], c, v, w);
    }
  }
}
