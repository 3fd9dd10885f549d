/** What a state of the simplex kernel means, on values: the equations, the bounds and the basis. */
module SimplexState {
  import opened Options
  import opened DeltaRationals
  import opened Products
  import opened Tableau

  type Bounds = seq<Option<Impq>>

  // ----- equations -----

  ghost predicate RowsZero(rows: seq<Row>, v: Vec) {
    forall r :: 0 <= r < |rows| ==> Eval(rows[r], v) == 0.0
  }

  function Xs(x: seq<Impq>): Vec {
    (k: nat) => if k < |x| then x[k].x else 0.0
  }

  function Ys(x: seq<Impq>): Vec {
    (k: nat) => if k < |x| then x[k].y else 0.0
  }

  /** The current values satisfy every row, in both components. */
  ghost predicate RowsHold(rows: seq<Row>, x: seq<Impq>) {
    RowsZero(rows, Xs(x)) && RowsZero(rows, Ys(x))
  }

  // ----- basis -----

  ghost predicate Headings(nrows: nat, basis: seq<nat>, nbasis: seq<nat>, heading: seq<int>) {
    && |basis| == nrows
    && (forall r :: 0 <= r < |basis| ==> basis[r] < |heading| && heading[basis[r]] == r)
    && (forall p :: 0 <= p < |nbasis| ==> nbasis[p] < |heading| && heading[nbasis[p]] == -1 - p)
    && (forall j :: 0 <= j < |heading| ==>
          if heading[j] >= 0 then heading[j] < |basis| && basis[heading[j]] == j
          else -1 - heading[j] < |nbasis| && nbasis[-1 - heading[j]] == j)
  }

  /** A basic column has coefficient 1 in its own row and occurs in no other. */
  ghost predicate UnitBasis(rows: seq<Row>, basis: seq<nat>) {
    |basis| == |rows| &&
    forall r, q :: 0 <= r < |rows| && 0 <= q < |basis| ==> Coef(rows[r], basis[q]) == if r == q then 1.0 else 0.0
  }

  // ----- bounds -----

  predicate Feasible(lo: Bounds, hi: Bounds, x: seq<Impq>, j: nat)
    requires |lo| == |hi| == |x| && j < |x|
  {
    Within(lo[j], hi[j], x[j])
  }

  /** No lower bound exceeds its upper one; a lower bound is displaced upwards only, an upper one downwards. */
  ghost predicate Ordered(lo: Bounds, hi: Bounds) {
    && |lo| == |hi|
    && (forall j :: 0 <= j < |lo| && lo[j].Some? && hi[j].Some? ==> lo[j].value.AtMost(hi[j].value))
    && (forall j :: 0 <= j < |lo| && lo[j].Some? ==> lo[j].value.y >= 0.0)
    && (forall j :: 0 <= j < |lo| && hi[j].Some? ==> hi[j].value.y <= 0.0)
  }

  function Members(s: seq<nat>): set<nat> {
    set k | k in s
  }

  /** `inf` holds exactly the infeasible columns outside `exempt`, and only infeasible basic columns. */
  ghost predicate Tracked(lo: Bounds, hi: Bounds, x: seq<Impq>, heading: seq<int>, inf: set<nat>, exempt: set<nat>)
    requires |lo| == |hi| == |x| == |heading|
  {
    && (forall j :: 0 <= j < |x| && !Feasible(lo, hi, x, j) ==> j in inf || j in exempt)
    && (forall j :: j in inf ==> j < |x| && heading[j] >= 0 && !Feasible(lo, hi, x, j))
  }

  /** The sizes and the invariants that do not mention values or bounds. */
  ghost predicate TableauOk(rows: seq<Row>, cols: seq<Col>, basis: seq<nat>, nbasis: seq<nat>, heading: seq<int>) {
    && Sparse(rows, cols) && NoZeros(rows)
    && |heading| == |cols|
    && Headings(|rows|, basis, nbasis, heading)
    && UnitBasis(rows, basis)
  }

  // ----- moving a column -----

  /** `w` is `v` with column `e` moved by `d` and every basic column moved to keep its row. */
  ghost predicate Shifted(rows: seq<Row>, basis: seq<nat>, v: Vec, w: Vec, e: nat, d: real)
    requires |basis| == |rows|
  {
    && w(e) == v(e) + d
    && (forall r :: 0 <= r < |rows| ==> w(basis[r]) == v(basis[r]) - Times(d, Coef(rows[r], e)))
    && (forall c: nat :: c != e && c !in basis ==> w(c) == v(c))
  }

  lemma {:induction false} ShiftedRows(rows: seq<Row>, cols: seq<Col>, basis: seq<nat>, v: Vec, w: Vec, e: nat, d: real)
    requires Sparse(rows, cols) && NoZeros(rows) && UnitBasis(rows, basis) && e !in basis
    requires RowsZero(rows, v) && Shifted(rows, basis, v, w, e, d)
    ensures RowsZero(rows, w)
  {
    forall r | 0 <= r < |rows| ensures Eval(rows[r], w) == 0.0 {
      var b, db := basis[r], -Times(d, Coef(rows[r], e));
      forall k | 0 <= k < |rows[r]|
        ensures var c := rows[r][k].col; w(c) == v(c) + (if c == e then d else if c == b then db else 0.0)
      {
        var c := rows[r][k].col;
        if c in basis && c != b {
          var q :| 0 <= q < |basis| && basis[q] == c;
          CoefOccurs(rows[r], c);
        }
      }
      EvalShift(rows[r], v, w, e, d, b, db);
      assert Coef(rows[r], b) == 1.0;
      assert Times(db, 1.0) == db;
    }
  }

  /** Moving a non-basic column and, with it, every basic column keeps the rows satisfied. */
  lemma {:induction false} ShiftedHold(rows: seq<Row>, cols: seq<Col>, basis: seq<nat>, nbasis: seq<nat>, heading: seq<int>,
                    x: seq<Impq>, x': seq<Impq>, e: nat, d: Impq)
    requires TableauOk(rows, cols, basis, nbasis, heading) && |x| == |x'| == |cols| && e < |x| && heading[e] < 0
    requires RowsHold(rows, x)
    requires x'[e] == x[e].Add(d)
    requires forall r :: 0 <= r < |rows| ==> x'[basis[r]] == x[basis[r]].Sub(d.Scale(Coef(rows[r], e)))
    requires forall c :: 0 <= c < |x| && c != e && heading[c] < 0 ==> x'[c] == x[c]
    ensures RowsHold(rows, x')
  {
    NonBasic(rows, cols, basis, nbasis, heading, e);
    assert Shifted(rows, basis, Xs(x), Xs(x'), e, d.x) by {
      ShiftedPart(rows, basis, heading, x, x', e, d);
    }
    assert Shifted(rows, basis, Ys(x), Ys(x'), e, d.y) by {
      ShiftedPart(rows, basis, heading, x, x', e, d);
    }
    ShiftedRows(rows, cols, basis, Xs(x), Xs(x'), e, d.x);
    ShiftedRows(rows, cols, basis, Ys(x), Ys(x'), e, d.y);
  }

  lemma {:induction false} NonBasic(rows: seq<Row>, cols: seq<Col>, basis: seq<nat>, nbasis: seq<nat>, heading: seq<int>, e: nat)
    requires TableauOk(rows, cols, basis, nbasis, heading) && e < |heading|
    ensures heading[e] < 0 <==> e !in basis
  {
    if heading[e] >= 0 {
      assert basis[heading[e]] == e;
    }
  }

  lemma {:induction false} ShiftedPart(rows: seq<Row>, basis: seq<nat>, heading: seq<int>, x: seq<Impq>, x': seq<Impq>, e: nat, d: Impq)
    requires |basis| == |rows| && |x| == |x'| == |heading| && e < |x|
    requires forall r :: 0 <= r < |basis| ==> basis[r] < |x|
    requires forall j :: 0 <= j < |heading| && heading[j] >= 0 ==> j in basis
    requires x'[e] == x[e].Add(d)
    requires forall r :: 0 <= r < |rows| ==> x'[basis[r]] == x[basis[r]].Sub(d.Scale(Coef(rows[r], e)))
    requires forall c :: 0 <= c < |x| && c != e && heading[c] < 0 ==> x'[c] == x[c]
    ensures Shifted(rows, basis, Xs(x), Xs(x'), e, d.x) && Shifted(rows, basis, Ys(x), Ys(x'), e, d.y)
  {
    forall c: nat | c != e && c !in basis ensures Xs(x')(c) == Xs(x)(c) && Ys(x')(c) == Ys(x)(c) {
    }
  }

  // ----- change of basis -----

  lemma {:induction false} PivotedSpace(rows: seq<Row>, rows': seq<Row>, row: nat, c: nat, v: Vec)
    requires row < |rows| == |rows'| && Pivoted(rows, rows', row, c)
    ensures RowsZero(rows, v) <==> RowsZero(rows', v)
  {
    var a := Coef(rows[row], c);
    ProductZero(a, Eval(rows'[row], v));
    if Eval(rows[row], v) == 0.0 {
      forall r | 0 <= r < |rows| ensures Eval(rows'[r], v) == Eval(rows[r], v) {
        assert r != row ==> Eliminated(rows[r], rows'[r], rows'[row], c);
        ProductZero(Coef(rows[r], c), 0.0);
      }
    }
  }

  lemma {:induction false} PivotedBasis(rows: seq<Row>, rows': seq<Row>, basis: seq<nat>, row: nat, c: nat)
    requires row < |rows| == |rows'| && Pivoted(rows, rows', row, c) && UnitBasis(rows, basis) && c !in basis
    ensures UnitBasis(rows', basis[row := c])
  {
    var a := Coef(rows[row], c);
    var basis' := basis[row := c];
    assert Coef(rows'[row], c) == 1.0 by {
      assert Times(a, Eval(rows'[row], Unit(c))) == a;
      assert Times(a, Coef(rows'[row], c)) / a == Coef(rows'[row], c);
    }
    forall r, q | 0 <= r < |rows'| && 0 <= q < |basis'|
      ensures Coef(rows'[r], basis'[q]) == if r == q then 1.0 else 0.0
    {
      var b := basis'[q];
      if q != row {
        assert Times(a, Eval(rows'[row], Unit(b))) == Coef(rows[row], b) == 0.0;
        ProductZero(a, Coef(rows'[row], b));
      }
      if r != row {
        assert Eliminated(rows[r], rows'[r], rows'[row], c);
        assert Coef(rows'[r], b) == Coef(rows[r], b) - Times(Coef(rows[r], c), Coef(rows'[row], b));
        ProductZero(Coef(rows[r], c), 0.0);
        assert Times(Coef(rows[r], c), 1.0) == Coef(rows[r], c);
      }
    }
  }

  // ----- a blocked row proves infeasibility -----

  predicate Fixed(lo: Bounds, hi: Bounds, j: nat)
    requires |lo| == |hi| && j < |lo|
  {
    lo[j].Some? && hi[j].Some? && lo[j].value == hi[j].value
  }

  /** Can the column of the cell move the way that makes the basic column of the row grow (or shrink)? */
  predicate CanMove(lo: Bounds, hi: Bounds, x: seq<Impq>, rc: RowCell, grow: bool)
    requires |lo| == |hi| == |x| && rc.col < |x|
  {
    var j := rc.col;
    if Fixed(lo, hi, j) then false
    else if (rc.coeff > 0.0) != grow then hi[j].None? || x[j].Less(hi[j].value)
    else lo[j].None? || lo[j].value.Less(x[j])
  }

  /** The pair assignment `(vx, vy)` crosses no bound. */
  ghost predicate InBounds(lo: Bounds, hi: Bounds, vx: Vec, vy: Vec)
    requires |lo| == |hi|
  {
    forall j :: 0 <= j < |lo| ==> Within(lo[j], hi[j], Impq(vx(j), vy(j)))
  }

  ghost predicate LexNonneg(a: real, b: real) {
    a > 0.0 || (a == 0.0 && b >= 0.0)
  }

  ghost predicate LexPos(a: real, b: real) {
    a > 0.0 || (a == 0.0 && b > 0.0)
  }

  lemma {:induction false} LexScale(c: real, a: real, b: real)
    requires c != 0.0
    requires if c > 0.0 then LexNonneg(a, b) else LexNonneg(-a, -b)
    ensures LexNonneg(Times(c, a), Times(c, b))
    ensures c == 1.0 ==> Times(c, a) == a && Times(c, b) == b
  {
    ProductZero(c, a);
    ProductZero(c, b);
  }

  lemma {:induction false} LexSum(row: Row, dx: Vec, dy: Vec, p: nat)
    requires forall k :: 0 <= k < |row| ==> LexNonneg(Term(row[k], dx), Term(row[k], dy))
    requires p < |row| ==> LexPos(Term(row[p], dx), Term(row[p], dy))
    ensures LexNonneg(Eval(row, dx), Eval(row, dy))
    ensures p < |row| ==> LexPos(Eval(row, dx), Eval(row, dy))
    decreases |row|
  {
    if row != [] {
      LexSum(row[..|row| - 1], dx, dy, p);
    }
  }

  /** How far the pair assignment is from the current values, in the direction that repairs the row. */
  function Gap(x: seq<Impq>, v: Vec, part: Impq -> real, grow: bool): Vec {
    (k: nat) => var c := if k < |x| then part(x[k]) else 0.0; if grow then v(k) - c else c - v(k)
  }

  lemma {:induction false} GapEval(row: Row, x: Vec, v: Vec, d: Vec, grow: bool)
    requires forall k :: 0 <= k < |row| ==> var c := row[k].col; d(c) == if grow then v(c) - x(c) else x(c) - v(c)
    requires Eval(row, x) == 0.0 == Eval(row, v)
    ensures Eval(row, d) == 0.0
  {
    if grow {
      EvalLinear(row, x, v, d, 1.0);
    } else {
      EvalLinear(row, v, x, d, 1.0);
    }
  }

  lemma {:induction false} BlockedCell(lo: Bounds, hi: Bounds, x: seq<Impq>, rc: RowCell, grow: bool, v: Impq, d: Impq)
    requires |lo| == |hi| == |x| && rc.col < |x| && rc.coeff != 0.0
    requires Feasible(lo, hi, x, rc.col) && Within(lo[rc.col], hi[rc.col], v) && !CanMove(lo, hi, x, rc, grow)
    requires d == if grow then v.Sub(x[rc.col]) else x[rc.col].Sub(v)
    ensures LexNonneg(Times(rc.coeff, d.x), Times(rc.coeff, d.y))
  {
    LexScale(rc.coeff, d.x, d.y);
  }

  /** Bounds and rows cannot all hold when a row with an infeasible basic column cannot be repaired. */
  lemma {:induction false} BlockedRow(row: Row, p: nat, lo: Bounds, hi: Bounds, x: seq<Impq>, grow: bool, vx: Vec, vy: Vec)
    requires |lo| == |hi| == |x| && p < |row| && row[p].coeff == 1.0 && NoZero(row)
    requires forall k :: 0 <= k < |row| ==> row[k].col < |x|
    requires var b := row[p].col;
      !Feasible(lo, hi, x, b) && grow == (lo[b].Some? && x[b].Less(lo[b].value))
    requires forall k :: 0 <= k < |row| && k != p ==>
      Feasible(lo, hi, x, row[k].col) && !CanMove(lo, hi, x, row[k], grow)
    requires Eval(row, Xs(x)) == 0.0 && Eval(row, Ys(x)) == 0.0
    ensures !(Eval(row, vx) == 0.0 && Eval(row, vy) == 0.0 && InBounds(lo, hi, vx, vy))
  {
    if Eval(row, vx) == 0.0 && Eval(row, vy) == 0.0 && InBounds(lo, hi, vx, vy) {
      var dx, dy := Gap(x, vx, (q: Impq) => q.x, grow), Gap(x, vy, (q: Impq) => q.y, grow);
      GapEval(row, Xs(x), vx, dx, grow);
      GapEval(row, Ys(x), vy, dy, grow);
      forall k | 0 <= k < |row|
        ensures LexNonneg(Term(row[k], dx), Term(row[k], dy))
        ensures k == p ==> LexPos(Term(row[k], dx), Term(row[k], dy))
      {
        var j := row[k].col;
        if k == p {
          assert Within(lo[j], hi[j], Impq(vx(j), vy(j)));
          LexScale(1.0, dx(j), dy(j));
        } else {
          BlockedCell(lo, hi, x, row[k], grow, Impq(vx(j), vy(j)), Impq(dx(j), dy(j)));
        }
      }
      LexSum(row, dx, dy, p);
    }
  }

  // ----- what was asked of the kernel -----

  /** A term column: `v(col)` is the sum of the products. */
  datatype Def = Def(col: nat, coeffs: seq<(nat, real)>)

  /** An accepted bound. */
  datatype Asserted = Asserted(col: nat, kind: Kind, rhs: real)

  ghost function LinSum(coeffs: seq<(nat, real)>, v: Vec): real {
    if coeffs == [] then 0.0
    else LinSum(coeffs[..|coeffs| - 1], v) + Times(coeffs[|coeffs| - 1].1, v(coeffs[|coeffs| - 1].0))
  }

  ghost predicate DefsHold(defs: seq<Def>, v: Vec) {
    forall i :: 0 <= i < |defs| ==> v(defs[i].col) == LinSum(defs[i].coeffs, v)
  }

  ghost predicate BoundsHold(asserted: seq<Asserted>, v: Vec) {
    forall i :: 0 <= i < |asserted| ==> asserted[i].kind.Holds(v(asserted[i].col), asserted[i].rhs)
  }

  function Zero(): Vec {
    (k: nat) => 0.0
  }

  /** The rows and the recorded bounds say exactly what the definitions and the accepted bounds say. */
  ghost predicate HistoryOk(rows: seq<Row>, lo: Bounds, hi: Bounds, defs: seq<Def>, asserted: seq<Asserted>)
    requires |lo| == |hi|
  {
    && (forall v: Vec :: RowsZero(rows, v) <==> DefsHold(defs, v))
    && (forall v: Vec :: InBounds(lo, hi, v, Zero()) <==> BoundsHold(asserted, v))
  }

  /** A real assignment that satisfies everything asked. */
  ghost predicate IsModel(defs: seq<Def>, asserted: seq<Asserted>, v: Vec) {
    DefsHold(defs, v) && BoundsHold(asserted, v)
  }

  lemma {:induction false} TableauColumn(rows: seq<Row>, cols: seq<Col>, basis: seq<nat>, nbasis: seq<nat>, heading: seq<int>)
    requires TableauOk(rows, cols, basis, nbasis, heading)
    ensures TableauOk(rows, cols + [[]], basis, nbasis + [|heading|], heading + [-|nbasis| - 1])
  {
    SparseColumn(rows, cols);
  }

  lemma {:induction false} HistoryPivot(rows: seq<Row>, rows': seq<Row>, row: nat, c: nat, lo: Bounds, hi: Bounds,
                     defs: seq<Def>, asserted: seq<Asserted>)
    requires |lo| == |hi| && HistoryOk(rows, lo, hi, defs, asserted)
    requires row < |rows| == |rows'| && Pivoted(rows, rows', row, c)
    ensures HistoryOk(rows', lo, hi, defs, asserted)
  {
    forall v: Vec ensures RowsZero(rows', v) <==> DefsHold(defs, v) {
      PivotedSpace(rows, rows', row, c, v);
    }
  }

  lemma {:induction false} RowsHoldPivot(rows: seq<Row>, rows': seq<Row>, row: nat, c: nat, x: seq<Impq>)
    requires RowsHold(rows, x) && row < |rows| == |rows'| && Pivoted(rows, rows', row, c)
    ensures RowsHold(rows', x)
  {
    PivotedSpace(rows, rows', row, c, Xs(x));
    PivotedSpace(rows, rows', row, c, Ys(x));
  }

  /** The bound `b` has replaced the recorded one where it is tighter. */
  ghost predicate Tightened(lo: Bounds, hi: Bounds, lo': Bounds, hi': Bounds, j: nat, b: Impq, upper: bool)
    requires |lo| == |hi| && j < |lo|
  {
    if upper then
      lo' == lo && if hi[j].None? || b.Less(hi[j].value) then hi' == hi[j := Some(b)] else hi' == hi
    else
      hi' == hi && if lo[j].None? || lo[j].value.Less(b) then lo' == lo[j := Some(b)] else lo' == lo
  }

  lemma {:induction false} TrackedTightened(lo: Bounds, hi: Bounds, lo': Bounds, hi': Bounds, x: seq<Impq>, heading: seq<int>, inf: set<nat>,
                         exempt: set<nat>, exempt': set<nat>, j: nat, kind: Kind, rhs: real)
    requires |lo| == |hi| == |x| == |heading| && j < |lo| && Ordered(lo, hi) && Tracked(lo, hi, x, heading, inf, exempt)
    requires Tightened(lo, hi, lo', hi', j, kind.Pair(rhs), kind.Upper())
    requires kind.Upper() ==> lo[j].Some? ==> lo[j].value.AtMost(kind.Pair(rhs))
    requires !kind.Upper() ==> hi[j].Some? ==> kind.Pair(rhs).AtMost(hi[j].value)
    requires exempt <= exempt' && (lo' != lo || hi' != hi ==> j in exempt')
    ensures Ordered(lo', hi') && Tracked(lo', hi', x, heading, inf, exempt')
  {
    forall k | 0 <= k < |x| ensures k != j ==> Feasible(lo', hi', x, k) == Feasible(lo, hi, x, k) {
    }
    assert Feasible(lo', hi', x, j) ==> Feasible(lo, hi, x, j);
  }

  /** A new upper (lower) bound that is tighter than the recorded one, and what it adds. */
  lemma {:induction false} HistoryBound(rows: seq<Row>, lo: Bounds, hi: Bounds, lo': Bounds, hi': Bounds,
                     defs: seq<Def>, asserted: seq<Asserted>, j: nat, kind: Kind, rhs: real)
    requires |lo| == |hi| && j < |lo| && HistoryOk(rows, lo, hi, defs, asserted)
    requires Tightened(lo, hi, lo', hi', j, kind.Pair(rhs), kind.Upper())
    ensures HistoryOk(rows, lo', hi', defs, asserted + [Asserted(j, kind, rhs)])
  {
    var more := asserted + [Asserted(j, kind, rhs)];
    forall v: Vec ensures InBounds(lo', hi', v, Zero()) <==> BoundsHold(more, v) {
      KindAsPair(kind, v(j), rhs);
      BoundsHoldMore(asserted, Asserted(j, kind, rhs), v);
      InBoundsTightened(lo, hi, lo', hi', j, kind.Pair(rhs), kind.Upper(), v);
    }
  }

  lemma {:induction false} BoundsHoldMore(asserted: seq<Asserted>, a: Asserted, v: Vec)
    ensures BoundsHold(asserted + [a], v) <==> BoundsHold(asserted, v) && a.kind.Holds(v(a.col), a.rhs)
  {
    var more := asserted + [a];
    if BoundsHold(more, v) {
      forall i | 0 <= i < |asserted| ensures asserted[i].kind.Holds(v(asserted[i].col), asserted[i].rhs) {
        assert more[i] == asserted[i];
      }
      assert more[|asserted|] == a;
    }
  }

  lemma {:induction false} InBoundsTightened(lo: Bounds, hi: Bounds, lo': Bounds, hi': Bounds, j: nat, b: Impq, upper: bool, v: Vec)
    requires |lo| == |hi| && j < |lo|
    requires Tightened(lo, hi, lo', hi', j, b, upper)
    ensures InBounds(lo', hi', v, Zero()) <==>
      InBounds(lo, hi, v, Zero()) && if upper then Impq(v(j), 0.0).AtMost(b) else b.AtMost(Impq(v(j), 0.0))
  {
    if InBounds(lo', hi', v, Zero()) {
      assert Within(lo'[j], hi'[j], Impq(v(j), 0.0));
      forall i | 0 <= i < |lo| ensures Within(lo[i], hi[i], Impq(v(i), Zero()(i))) {
        assert Within(lo'[i], hi'[i], Impq(v(i), Zero()(i)));
      }
    }
    if InBounds(lo, hi, v, Zero()) {
      assert Within(lo[j], hi[j], Impq(v(j), 0.0));
    }
  }

  /** Columns added without rows or bounds change neither the equations nor the bounds. */
  lemma {:induction false} HistoryColumn(rows: seq<Row>, lo: Bounds, hi: Bounds, defs: seq<Def>, asserted: seq<Asserted>)
    requires |lo| == |hi| && HistoryOk(rows, lo, hi, defs, asserted)
    ensures HistoryOk(rows, lo + [None], hi + [None], defs, asserted)
  {
    forall v: Vec ensures InBounds(lo + [None], hi + [None], v, Zero()) <==> InBounds(lo, hi, v, Zero()) {
      if InBounds(lo + [None], hi + [None], v, Zero()) {
        forall j | 0 <= j < |lo| ensures Within(lo[j], hi[j], Impq(v(j), Zero()(j))) {
          assert Within((lo + [None])[j], (hi + [None])[j], Impq(v(j), Zero()(j)));
        }
      }
    }
  }

  lemma {:induction false} RowsHoldAgree(rows: seq<Row>, cols: seq<Col>, x: seq<Impq>, x': seq<Impq>)
    requires Sparse(rows, cols) && RowsHold(rows, x) && |x| == |cols| <= |x'|
    requires forall j :: 0 <= j < |x| ==> x'[j] == x[j]
    ensures RowsHold(rows, x')
  {
    forall r | 0 <= r < |rows| ensures Eval(rows[r], Xs(x')) == 0.0 && Eval(rows[r], Ys(x')) == 0.0 {
      forall k | 0 <= k < |rows[r]| ensures rows[r][k].col < |x| {
        assert RowLink(rows, cols, r, k);
      }
      EvalAgree(rows[r], Xs(x), Xs(x'));
      EvalAgree(rows[r], Ys(x), Ys(x'));
    }
  }

  lemma {:induction false} SparseColumn(rows: seq<Row>, cols: seq<Col>)
    requires Sparse(rows, cols)
    ensures Sparse(rows, cols + [[]])
  {
    forall r, k | 0 <= r < |rows| && 0 <= k < |rows[r]| ensures RowLink(rows, cols + [[]], r, k) {
      assert RowLink(rows, cols, r, k);
    }
    forall c, k | 0 <= c < |cols + [[]]| && 0 <= k < |(cols + [[]])[c]| ensures ColLink(rows, cols + [[]], c, k) {
      assert ColLink(rows, cols, c, k);
    }
  }

  lemma {:induction false} BoundCrosses(lo: Bounds, hi: Bounds, asserted: seq<Asserted>, j: nat, kind: Kind, rhs: real)
    requires |lo| == |hi| && j < |lo|
    requires forall v: Vec :: InBounds(lo, hi, v, Zero()) <==> BoundsHold(asserted, v)
    requires var b := kind.Pair(rhs);
      if kind.Upper() then lo[j].Some? && b.Less(lo[j].value) else hi[j].Some? && hi[j].value.Less(b)
    ensures forall v: Vec :: BoundsHold(asserted, v) ==> !kind.Holds(v(j), rhs)
  {
    forall v: Vec | BoundsHold(asserted, v) ensures !kind.Holds(v(j), rhs) {
      assert Within(lo[j], hi[j], Impq(v(j), Zero()(j)));
      KindAsPair(kind, v(j), rhs);
    }
  }

  // ----- the choice of an entering column -----

  predicate Free(lo: Bounds, hi: Bounds, j: nat)
    requires |lo| == |hi| && j < |lo|
  {
    lo[j].None? && hi[j].None?
  }

  /** How many cells of the column belong to rows with a bounded basic column other than `bj`. */
  ghost function NotFree(col: Col, basis: seq<nat>, lo: Bounds, hi: Bounds, bj: nat): nat
    requires |lo| == |hi|
  {
    if col == [] then 0
    else
      var r := col[|col| - 1].row;
      NotFree(col[..|col| - 1], basis, lo, hi, bj) +
      (if r < |basis| && basis[r] < |lo| && basis[r] != bj && !Free(lo, hi, basis[r]) then 1 else 0)
  }

  lemma {:induction false} NotFreeGrows(col: Col, basis: seq<nat>, lo: Bounds, hi: Bounds, bj: nat, k: nat)
    requires |lo| == |hi| && k <= |col|
    ensures NotFree(col[..k], basis, lo, hi, bj) <= NotFree(col, basis, lo, hi, bj)
    decreases |col|
  {
    if k < |col| {
      NotFreeGrows(col[..|col| - 1], basis, lo, hi, bj, k);
      assert col[..|col| - 1][..k] == col[..k];
    } else {
      assert col[..k] == col;
    }
  }

  predicate NoWorse(a: (nat, nat), b: (nat, nat)) {
    a.0 < b.0 || (a.0 == b.0 && a.1 <= b.1)
  }

  // ----- the whole state -----

  datatype State = State(
    rows: seq<Row>, cols: seq<Col>, x: seq<Impq>, lo: Bounds, hi: Bounds,
    basis: seq<nat>, nbasis: seq<nat>, heading: seq<int>, inf: set<nat>,
    defs: seq<Def>, asserted: seq<Asserted>)
  {
    /** Everything that holds between pivots, whatever the values are. */
    ghost predicate Core() {
      && |cols| == |x| == |lo| == |hi|
      && TableauOk(rows, cols, basis, nbasis, heading)
      && Ordered(lo, hi)
      && HistoryOk(rows, lo, hi, defs, asserted)
    }

    /** Core, with values that satisfy the rows and infeasible columns known outside `exempt`. */
    ghost predicate Inv(exempt: set<nat>) {
      Core() && RowsHold(rows, x) && Tracked(lo, hi, x, heading, inf, exempt)
    }
  }

  lemma {:induction false} EmptyState(s: State)
    requires s == State([], [], [], [], [], [], [], [], {}, [], [])
    ensures s.Inv(Members([]))
  {
    EmptyTableau();
    EmptyHistory();
  }

  lemma {:induction false} EmptyTableau()
    ensures TableauOk([], [], [], [], [])
  {
  }

  lemma {:induction false} EmptyHistory()
    ensures HistoryOk([], [], [], [], [])
  {
  }

  /** The state with a new free non-basic column at value 0. */
  ghost function WithColumn(s: State): State {
    s.(cols := s.cols + [[]], x := s.x + [ZERO], lo := s.lo + [None], hi := s.hi + [None],
       nbasis := s.nbasis + [|s.x|], heading := s.heading + [-|s.nbasis| - 1])
  }

  lemma {:induction false} ColumnAdded(s: State, exempt: set<nat>)
    requires s.Inv(exempt)
    ensures WithColumn(s).Inv(exempt)
  {
    HistoryColumn(s.rows, s.lo, s.hi, s.defs, s.asserted);
    BoundsColumn(s.lo, s.hi, s.x, ZERO, s.heading, s.inf, exempt, -|s.nbasis| - 1);
    TableauColumn(s.rows, s.cols, s.basis, s.nbasis, s.heading);
    RowsHoldAgree(s.rows, s.cols, s.x, s.x + [ZERO]);
  }

  /** The state with a new tableau, and `entering` basic in place of `leaving`. */
  ghost function Swapped(s: State, rows: seq<Row>, cols: seq<Col>, leaving: nat, entering: nat): State
    requires s.Core() && leaving < |s.x| && entering < |s.x| && s.heading[leaving] >= 0 > s.heading[entering]
  {
    var row, pnb := s.heading[leaving], -s.heading[entering] - 1;
    s.(rows := rows, cols := cols, basis := s.basis[row := entering], nbasis := s.nbasis[pnb := leaving],
       heading := s.heading[entering := row][leaving := -pnb - 1])
  }

  lemma {:induction false} Exchanged(s: State, s': State, leaving: nat, entering: nat)
    requires s.Core() && RowsHold(s.rows, s.x)
    requires leaving < |s.x| && entering < |s.x| && s.heading[leaving] >= 0 > s.heading[entering]
    requires Sparse(s'.rows, s'.cols) && NoZeros(s'.rows) && |s'.rows| == |s.rows| && |s'.cols| == |s.cols|
    requires Pivoted(s.rows, s'.rows, s.heading[leaving], entering)
    requires Tracked(s.lo, s.hi, s.x, s.heading, s.inf, {entering}) && Feasible(s.lo, s.hi, s.x, leaving)
    requires s' == Swapped(s, s'.rows, s'.cols, leaving, entering)
    ensures s'.Inv({entering})
  {
    ExchangedTableau(s.rows, s.cols, s'.rows, s'.cols, s.basis, s.nbasis, s.heading, leaving, entering);
    RowsHoldPivot(s.rows, s'.rows, s.heading[leaving], entering, s.x);
    HistoryPivot(s.rows, s'.rows, s.heading[leaving], entering, s.lo, s.hi, s.defs, s.asserted);
    TrackedSwap(s.lo, s.hi, s.x, s.heading, s.inf, leaving, entering, s.heading[leaving], s.heading[entering]);
  }

  // ----- exchanging a basic and a non-basic column -----

  lemma {:induction false} HeadingsSwap(nrows: nat, basis: seq<nat>, nbasis: seq<nat>, heading: seq<int>, leaving: nat, entering: nat)
    requires Headings(nrows, basis, nbasis, heading) && leaving < |heading| && entering < |heading|
    requires heading[leaving] >= 0 > heading[entering]
    ensures var row, pnb := heading[leaving], -heading[entering] - 1;
      Headings(nrows, basis[row := entering], nbasis[pnb := leaving], heading[entering := row][leaving := -pnb - 1])
  {
  }

  lemma {:induction false} TrackedSwap(lo: Bounds, hi: Bounds, x: seq<Impq>, heading: seq<int>, inf: set<nat>,
                    leaving: nat, entering: nat, row: nat, off: int)
    requires |lo| == |hi| == |x| == |heading| && leaving < |x| && entering < |x| && leaving != entering
    requires Tracked(lo, hi, x, heading, inf, {entering}) && Feasible(lo, hi, x, leaving)
    requires heading[entering] < 0
    ensures Tracked(lo, hi, x, heading[entering := row][leaving := off], inf, {entering})
  {
  }

  lemma {:induction false} ThetaUndoes(p: Impq, q: Impq, a: real)
    requires a != 0.0
    ensures p.Sub(p.Sub(q).Scale(1.0 / a).Scale(a)) == q
  {
    InverseProduct(p.x - q.x, a);
    InverseProduct(p.y - q.y, a);
  }

  lemma {:induction false} InverseProduct(d: real, a: real)
    requires a != 0.0
    ensures Times(Times(d, 1.0 / a), a) == d
  {
    assert (1.0 / a) * a == 1.0;
    Commute(d, 1.0 / a, a);
  }

  lemma {:induction false} ExchangedTableau(rows: seq<Row>, cols: seq<Col>, rows': seq<Row>, cols': seq<Col>,
                         basis: seq<nat>, nbasis: seq<nat>, heading: seq<int>, leaving: nat, entering: nat)
    requires TableauOk(rows, cols, basis, nbasis, heading)
    requires leaving < |heading| && entering < |heading| && heading[leaving] >= 0 > heading[entering]
    requires Sparse(rows', cols') && NoZeros(rows') && |rows'| == |rows| && |cols'| == |cols|
    requires Pivoted(rows, rows', heading[leaving], entering)
    ensures var row, pnb := heading[leaving], -heading[entering] - 1;
      TableauOk(rows', cols', basis[row := entering], nbasis[pnb := leaving], heading[entering := row][leaving := -pnb - 1])
  {
    HeadingsSwap(|rows|, basis, nbasis, heading, leaving, entering);
    NonBasic(rows, cols, basis, nbasis, heading, entering);
    PivotedBasis(rows, rows', basis, heading[leaving], entering);
  }

  lemma {:induction false} BoundsColumn(lo: Bounds, hi: Bounds, x: seq<Impq>, p: Impq, heading: seq<int>, inf: set<nat>, exempt: set<nat>, h: int)
    requires |lo| == |hi| == |x| == |heading| && Ordered(lo, hi) && Tracked(lo, hi, x, heading, inf, exempt)
    ensures Ordered(lo + [None], hi + [None])
    ensures Tracked(lo + [None], hi + [None], x + [p], heading + [h], inf, exempt)
  {
    var lo', hi', x' := lo + [None], hi + [None], x + [p];
    forall j | 0 <= j < |x'| ensures Feasible(lo', hi', x', j) == (j == |x| || Feasible(lo, hi, x, j)) {
    }
  }

  /** An infeasible basic column whose row has no candidate: the rows and bounds cannot all hold. */
  lemma {:induction false} Blocked(s: State, leaving: nat)
    requires s.Inv({}) && leaving in s.inf
    requires var row := s.heading[leaving];
      forall k :: 0 <= k < |s.rows[row]| && s.rows[row][k].col != leaving ==>
        s.rows[row][k].col < |s.x| &&
        !CanMove(s.lo, s.hi, s.x, s.rows[row][k], s.lo[leaving].Some? && s.x[leaving].Less(s.lo[leaving].value))
    ensures forall vx: Vec, vy: Vec ::
      RowsZero(s.rows, vx) && RowsZero(s.rows, vy) ==> !InBounds(s.lo, s.hi, vx, vy)
  {
    var r := s.heading[leaving];
    var row := s.rows[r];
    var grow := s.lo[leaving].Some? && s.x[leaving].Less(s.lo[leaving].value);
    CoefOccurs(row, leaving);
    var p :| 0 <= p < |row| && row[p].col == leaving;
    CoefAt(row, p);
    forall k | 0 <= k < |row| ensures row[k].col < |s.x| {
      assert RowLink(s.rows, s.cols, r, k);
    }
    forall k | 0 <= k < |row| && k != p
      ensures Feasible(s.lo, s.hi, s.x, row[k].col) && !CanMove(s.lo, s.hi, s.x, row[k], grow)
    {
      var j := row[k].col;
      if s.heading[j] >= 0 {
        assert s.basis[s.heading[j]] == j;
        CoefAt(row, k);
      }
    }
    forall vx: Vec, vy: Vec | RowsZero(s.rows, vx) && RowsZero(s.rows, vy) ensures !InBounds(s.lo, s.hi, vx, vy) {
      BlockedRow(row, p, s.lo, s.hi, s.x, grow, vx, vy);
    }
  }

  /** What a blocked row says about the terms and bounds that were asked for. */
  lemma {:induction false} NoModel(s: State)
    requires s.Core()
    requires forall vx: Vec, vy: Vec :: RowsZero(s.rows, vx) && RowsZero(s.rows, vy) ==> !InBounds(s.lo, s.hi, vx, vy)
    ensures forall v: Vec :: !IsModel(s.defs, s.asserted, v)
    ensures forall vx: Vec, vy: Vec :: DefsHold(s.defs, vx) && DefsHold(s.defs, vy) ==> !InBounds(s.lo, s.hi, vx, vy)
  {
    forall v: Vec ensures !IsModel(s.defs, s.asserted, v) {
      if IsModel(s.defs, s.asserted, v) {
        forall r | 0 <= r < |s.rows| ensures Eval(s.rows[r], Zero()) == 0.0 {
          EvalZero(s.rows[r]);
        }
        assert RowsZero(s.rows, v) && RowsZero(s.rows, Zero());
      }
    }
  }

  lemma {:induction false} EvalZero(row: Row)
    ensures Eval(row, Zero()) == 0.0
    decreases |row|
  {
    if row != [] {
      EvalZero(row[..|row| - 1]);
      ProductZero(row[|row| - 1].coeff, 0.0);
    }
  }

  // ----- values at a delta -----

  ghost predicate ValuesAt(x: seq<Impq>, vals: seq<real>, delta: real) {
    |vals| == |x| && forall j :: 0 <= j < |x| ==> vals[j] == x[j].At(delta)
  }

  function Assign(vals: seq<real>): Vec {
    (k: nat) => if k < |vals| then vals[k] else 0.0
  }

  predicate SmallAt(lo: Bounds, hi: Bounds, x: seq<Impq>, j: nat, delta: real)
    requires |lo| == |hi| == |x| && j < |x|
  {
    (lo[j].Some? ==> Small(delta, lo[j].value, x[j])) && (hi[j].Some? ==> Small(delta, x[j], hi[j].value))
  }

  predicate SmallFor(lo: Bounds, hi: Bounds, x: seq<Impq>, delta: real)
    requires |lo| == |hi| == |x|
  {
    forall j :: 0 <= j < |x| ==> SmallAt(lo, hi, x, j, delta)
  }

  lemma {:induction false} ValuesModel(s: State, vals: seq<real>, delta0: real, delta: real)
    requires s.Core() && RowsHold(s.rows, s.x) && 0.0 < delta <= delta0 && ValuesAt(s.x, vals, delta)
    requires forall j :: 0 <= j < |s.x| ==> Feasible(s.lo, s.hi, s.x, j)
    requires SmallFor(s.lo, s.hi, s.x, delta0)
    ensures IsModel(s.defs, s.asserted, Assign(vals))
  {
    var v := Assign(vals);
    forall r | 0 <= r < |s.rows| ensures Eval(s.rows[r], v) == 0.0 {
      EvalLinear(s.rows[r], Xs(s.x), v, Ys(s.x), delta);
      ProductZero(delta, 0.0);
    }
    forall j | 0 <= j < |s.lo| ensures Within(s.lo[j], s.hi[j], Impq(v(j), Zero()(j))) {
      assert Feasible(s.lo, s.hi, s.x, j) && SmallAt(s.lo, s.hi, s.x, j, delta0);
      if s.lo[j].Some? {
        AtMostAt(s.lo[j].value, s.x[j], delta);
        assert Times(s.lo[j].value.y, delta) >= 0.0;
        assert s.lo[j].value.y > 0.0 ==> Times(s.lo[j].value.y, delta) > 0.0;
      }
      if s.hi[j].Some? {
        AtMostAt(s.x[j], s.hi[j].value, delta);
        assert Times(s.hi[j].value.y, delta) <= 0.0;
        assert s.hi[j].value.y < 0.0 ==> Times(s.hi[j].value.y, delta) < 0.0;
      }
    }
    assert RowsZero(s.rows, v) && InBounds(s.lo, s.hi, v, Zero());
  }
}
