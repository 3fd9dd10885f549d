/** Runs of the simplex kernel: from which state they start, what each exchange does, and how long they are. */
module SimplexRuns {
  import opened Options
  import opened DeltaRationals
  import opened Products
  import opened Tableau
  import opened SimplexState

  // ----- the start: non-basic columns within their bounds -----

  /** The value within the bounds that is nearest to `v`. */
  function Nearest(lo: Option<Impq>, hi: Option<Impq>, v: Impq): Impq {
    if lo.Some? && v.Less(lo.value) then lo.value
    else if hi.Some? && hi.value.Less(v) then hi.value
    else v
  }

  /** It is within the bounds, and no value within them lies strictly between it and `v`. */
  lemma {:induction false} NearestWithin(lo: Option<Impq>, hi: Option<Impq>, v: Impq)
    requires lo.Some? && hi.Some? ==> lo.value.AtMost(hi.value)
    ensures Within(lo, hi, Nearest(lo, hi, v)) && (Within(lo, hi, v) ==> Nearest(lo, hi, v) == v)
    ensures forall w: Impq :: Within(lo, hi, w) ==>
      if v.AtMost(w) then Nearest(lo, hi, v).AtMost(w) else w.AtMost(Nearest(lo, hi, v))
  {
  }

  /** What taking the changed columns makes of a state: non-basic columns move to the nearest value within their bounds. */
  ghost predicate Taken(s: State, t: State) {
    && t.Inv({}) && |s.x| == |t.x| && t == s.(x := t.x, inf := t.inf)
    && forall j :: 0 <= j < |t.x| && t.heading[j] < 0 ==> t.x[j] == Nearest(t.lo[j], t.hi[j], s.x[j])
  }

  /** The columns done have moved, the others stay. */
  ghost predicate Moved(lo: Bounds, hi: Bounds, heading: seq<int>, x0: seq<Impq>, x: seq<Impq>, done: seq<nat>)
    requires |lo| == |hi| == |heading| == |x0| == |x|
  {
    forall c :: 0 <= c < |x| && heading[c] < 0 ==> x[c] == if c in done then Nearest(lo[c], hi[c], x0[c]) else x0[c]
  }

  lemma {:induction false} MovedMore(lo: Bounds, hi: Bounds, heading: seq<int>, x0: seq<Impq>, x: seq<Impq>, done: seq<nat>,
                                     j: nat, x': seq<Impq>)
    requires |lo| == |hi| == |heading| == |x0| == |x| == |x'| && j < |x| && Ordered(lo, hi) && Moved(lo, hi, heading, x0, x, done)
    requires forall c :: 0 <= c < |x| && heading[c] < 0 ==> x'[c] == if c == j then Nearest(lo[j], hi[j], x[j]) else x[c]
    ensures Moved(lo, hi, heading, x0, x', done + [j])
  {
    NearestWithin(lo[j], hi[j], x0[j]);
    NearestWithin(lo[j], hi[j], Nearest(lo[j], hi[j], x0[j]));
  }

  /** Columns not pending were within their bounds already. */
  lemma {:induction false} MovedAll(s: State, t: State, pending: seq<nat>)
    requires s.Inv(Members(pending)) && t.Inv({}) && |s.x| == |t.x| && t == s.(x := t.x, inf := t.inf)
    requires Moved(s.lo, s.hi, s.heading, s.x, t.x, pending)
    ensures Taken(s, t)
  {
    forall j | 0 <= j < |t.x| && t.heading[j] < 0 ensures t.x[j] == Nearest(t.lo[j], t.hi[j], s.x[j]) {
      NearestWithin(s.lo[j], s.hi[j], s.x[j]);
      assert j !in s.inf;
      assert j !in pending ==> Feasible(s.lo, s.hi, s.x, j);
    }
  }

  /** The rows and the non-basic values leave nothing open about the other values and the infeasible columns. */
  lemma {:induction false} StateDetermined(s: State, t: State)
    requires s.Inv({}) && t.Inv({}) && |s.x| == |t.x| && t == s.(x := t.x, inf := t.inf)
    requires forall j :: 0 <= j < |t.x| && t.heading[j] < 0 ==> s.x[j] == t.x[j]
    ensures s == t
  {
    forall j | 0 <= j < |s.x| ensures s.x[j] == t.x[j] {
      if s.heading[j] >= 0 {
        BasicDetermined(s, t, s.heading[j]);
      }
    }
    assert s.x == t.x;
    forall j: nat ensures j in s.inf <==> j in t.inf {
    }
  }

  lemma {:induction false} BasicDetermined(s: State, t: State, r: nat)
    requires s.Inv({}) && t.Inv({}) && |s.x| == |t.x| && t == s.(x := t.x, inf := t.inf)
    requires forall j :: 0 <= j < |t.x| && t.heading[j] < 0 ==> s.x[j] == t.x[j]
    requires r < |s.rows|
    ensures s.x[s.basis[r]] == t.x[s.basis[r]]
  {
    var row, b := s.rows[r], s.basis[r];
    forall k | 0 <= k < |row| && row[k].col != b ensures row[k].col < |s.x| && s.heading[row[k].col] < 0 {
      assert RowLink(s.rows, s.cols, r, k);
      CoefAt(row, k);
      NotElsewhere(s, r, row[k].col);
    }
    OnlyColumn(row, Xs(s.x), Xs(t.x), b);
    OnlyColumn(row, Ys(s.x), Ys(t.x), b);
  }

  lemma {:induction false} NotElsewhere(s: State, r: nat, j: nat)
    requires s.Core() && r < |s.rows| && j < |s.heading|
    ensures s.heading[j] >= 0 && j != s.basis[r] ==> Coef(s.rows[r], j) == 0.0
  {
    if s.heading[j] >= 0 {
      assert s.basis[s.heading[j]] == j;
    }
  }

  /** Two solutions of a row that agree but for one column with coefficient 1 agree there too. */
  lemma {:induction false} OnlyColumn(row: Row, v: Vec, w: Vec, b: nat)
    requires Coef(row, b) == 1.0 && Eval(row, v) == 0.0 == Eval(row, w)
    requires forall k :: 0 <= k < |row| && row[k].col != b ==> v(row[k].col) == w(row[k].col)
    ensures v(b) == w(b)
  {
    EvalShift(row, v, w, b + 1, 0.0, b, w(b) - v(b));
  }

  // ----- one exchange -----

  ghost predicate IsFirst(j: nat, s: set<nat>) {
    j in s && forall k :: k in s ==> j <= k
  }

  /** The row is one of the tableau and its cells lie within it. */
  ghost predicate RowWithin(s: State, i: nat) {
    && |s.lo| == |s.hi| == |s.x| == |s.cols| && i < |s.rows| == |s.basis| && s.basis[i] < |s.x|
    && forall k :: 0 <= k < |s.rows[i]| ==> s.rows[i][k].col < |s.x|
  }

  /** The cell's column can move towards what the row's basic column lacks. */
  ghost predicate MovableAt(s: State, i: nat, k: nat)
    requires RowWithin(s, i) && k < |s.rows[i]|
  {
    var b := s.basis[i];
    s.rows[i][k].col != b && CanMove(s.lo, s.hi, s.x, s.rows[i][k], s.lo[b].Some? && s.x[b].Less(s.lo[b].value))
  }

  ghost function RankAt(s: State, i: nat, k: nat): (nat, nat)
    requires RowWithin(s, i) && k < |s.rows[i]|
  {
    var col := s.cols[s.rows[i][k].col];
    (NotFree(col, s.basis, s.lo, s.hi, s.basis[i]), |col|)
  }

  /** The choice of the cell: of least column under Bland's rule, else of least rank. */
  ghost predicate Chosen(s: State, i: nat, k: nat, bland: bool)
    requires RowWithin(s, i)
  {
    && k < |s.rows[i]| && MovableAt(s, i, k)
    && forall m :: 0 <= m < |s.rows[i]| && MovableAt(s, i, m) ==>
         if bland then s.rows[i][k].col <= s.rows[i][m].col else NoWorse(RankAt(s, i, k), RankAt(s, i, m))
  }

  /** No cell of the row can move. */
  ghost predicate Stuck(s: State, i: nat) {
    RowWithin(s, i) && forall k :: 0 <= k < |s.rows[i]| ==> !MovableAt(s, i, k)
  }

  /** The column leaves the basis onto the bound it violates, and the chosen cell's column takes its place. */
  ghost predicate Exchange(s: State, t: State, leaving: nat, k: nat, bland: bool) {
    && s.Inv({}) && t.Inv({}) && leaving in s.inf
    && var row := s.heading[leaving];
       && RowWithin(s, row) && Chosen(s, row, k, bland)
       && var entering := s.rows[row][k].col;
          && s.heading[entering] < 0 && |t.rows| == |s.rows| && Pivoted(s.rows, t.rows, row, entering)
          && t == Swapped(s, t.rows, t.cols, leaving, entering).(x := t.x, inf := t.inf) && |t.x| == |s.x|
          && t.x[leaving] == Nearest(s.lo[leaving], s.hi[leaving], s.x[leaving])
          && forall j :: 0 <= j < |s.x| && s.heading[j] < 0 && j != entering ==> t.x[j] == s.x[j]
  }

  /** Values, then basis, then what is infeasible: together one exchange. */
  lemma {:induction false} IsExchange(s: State, mid: State, t: State, leaving: nat, entering: nat, k: nat, bland: bool)
    requires s.Inv({}) && t.Inv({}) && leaving in s.inf && RowWithin(s, s.heading[leaving])
    requires Chosen(s, s.heading[leaving], k, bland) && entering == s.rows[s.heading[leaving]][k].col
    requires |mid.x| == |s.x| && mid == s.(x := mid.x, inf := mid.inf) && mid.Core() && s.heading[entering] < 0
    requires mid.x[leaving] == Nearest(s.lo[leaving], s.hi[leaving], s.x[leaving])
    requires forall j :: 0 <= j < |s.x| && s.heading[j] < 0 && j != entering ==> mid.x[j] == s.x[j]
    requires |t.rows| == |s.rows| && Pivoted(s.rows, t.rows, s.heading[leaving], entering)
    requires t == Swapped(mid, t.rows, t.cols, leaving, entering).(inf := t.inf)
    ensures Exchange(s, t, leaving, k, bland)
  {
  }

  // ----- runs -----

  /** How often a column in the list has been there before. */
  ghost function Repeats(s: seq<nat>): nat {
    if s == [] then 0
    else Repeats(s[..|s| - 1]) + (if s[|s| - 1] in s[..|s| - 1] then 1 else 0)
  }

  /** One exchange of the least infeasible column; Bland's rule holds once columns have left again a thousand times. */
  ghost predicate StepAt(run: seq<State>, leavers: seq<nat>, i: nat)
    requires i < |leavers| < |run|
  {
    IsFirst(leavers[i], run[i].inf) && exists k: nat :: StepBy(run, leavers, i, k)
  }

  ghost predicate StepBy(run: seq<State>, leavers: seq<nat>, i: nat, k: nat)
    requires i < |leavers| < |run|
  {
    Exchange(run[i], run[i + 1], leavers[i], k, Repeats(leavers[..i + 1]) > 1000)
  }

  /** A run from one state to another, an exchange a step. */
  ghost predicate IsRun(run: seq<State>, leavers: seq<nat>, s: State, t: State) {
    && |run| == |leavers| + 1 && run[0] == s && run[|leavers|] == t
    && forall i :: 0 <= i < |leavers| ==> StepAt(run, leavers, i)
  }

  /** What the answer says of the state where the run ends, and of its length. */
  ghost predicate Answers(res: Option<bool>, t: State, n: nat, budget: nat) {
    match res
    case Some(true) => t.inf == {} && n <= budget
    case Some(false) =>
      n < budget && exists j: nat :: IsFirst(j, t.inf) && j < |t.heading| && t.heading[j] >= 0 && Stuck(t, t.heading[j])
    case None => t.inf != {} && n == budget
  }

  lemma {:induction false} RunStarts(s: State)
    ensures IsRun([s], [], s, s)
  {
  }

  lemma {:induction false} RunGoesOn(run: seq<State>, leavers: seq<nat>, s: State, t: State, leaving: nat, k: nat, u: State)
    requires IsRun(run, leavers, s, t) && IsFirst(leaving, t.inf)
    requires Exchange(t, u, leaving, k, Repeats(leavers + [leaving]) > 1000)
    ensures IsRun(run + [u], leavers + [leaving], s, u)
  {
    var run', leavers' := run + [u], leavers + [leaving];
    forall i | 0 <= i < |leavers'| ensures StepAt(run', leavers', i) {
      if i < |leavers| {
        StepKept(run, leavers, i, u, leaving);
      } else {
        assert leavers'[..i + 1] == leavers' && run'[i] == t && run'[i + 1] == u;
        assert StepBy(run', leavers', i, k);
      }
    }
  }

  lemma {:induction false} StepKept(run: seq<State>, leavers: seq<nat>, i: nat, u: State, leaving: nat)
    requires i < |leavers| < |run| && StepAt(run, leavers, i)
    ensures StepAt(run + [u], leavers + [leaving], i)
  {
    var k: nat :| StepBy(run, leavers, i, k);
    assert (leavers + [leaving])[..i + 1] == leavers[..i + 1];
    assert StepBy(run + [u], leavers + [leaving], i, k);
  }

  lemma {:induction false} RepeatsPush(s: seq<nat>, j: nat)
    ensures Repeats(s + [j]) == Repeats(s) + if j in s then 1 else 0
  {
    assert (s + [j])[..|s|] == s;
  }

  // ----- the delta of the values -----

  function Halved(delta: real, k: nat): real {
    if k == 0 then delta else Halved(delta, k - 1) / 2.0
  }

  /** Two different pairs have one value. */
  ghost predicate Clash(x: seq<Impq>, delta: real) {
    exists i, j :: 0 <= i < |x| && 0 <= j < |x| && Meet(x[i], x[j], delta)
  }

  predicate Meet(p: Impq, q: Impq, delta: real) {
    p != q && p.At(delta) == q.At(delta)
  }

  function Pairs(x: seq<Impq>): (pairs: set<Impq>)
    ensures forall p :: p in pairs <==> p in x
  {
    set p | p in x
  }

  lemma {:induction false} NotInjective(x: seq<Impq>, delta: real)
    requires !Injective(Pairs(x), delta)
    ensures Clash(x, delta)
  {
    var p, q :| p in Pairs(x) && q in Pairs(x) && p != q && p.At(delta) == q.At(delta);
    var i :| 0 <= i < |x| && x[i] == p;
    var j :| 0 <= j < |x| && x[j] == q;
    assert Meet(x[i], x[j], delta);
  }

  /** Two different pairs have one value at delta, and after each of fewer halvings. */
  ghost predicate Clashes(x: seq<Impq>, delta: real, n: nat) {
    forall k :: 0 <= k < n ==> Clash(x, Halved(delta, k))
  }

  lemma {:induction false} ClashesMore(x: seq<Impq>, delta: real, n: nat)
    requires Clashes(x, delta, n) && !Injective(Pairs(x), Halved(delta, n))
    ensures Clashes(x, delta, n + 1) && Halved(delta, n + 1) == Halved(delta, n) / 2.0
  {
    NotInjective(x, Halved(delta, n));
  }

  lemma {:induction false} KeptApart(x: seq<Impq>, delta: real)
    requires Injective(Pairs(x), delta)
    ensures forall i, j :: 0 <= i < |x| && 0 <= j < |x| && x[i] != x[j] ==> x[i].At(delta) != x[j].At(delta)
  {
    forall i, j | 0 <= i < |x| && 0 <= j < |x| && x[i] != x[j] ensures x[i].At(delta) != x[j].At(delta) {
      assert x[i] in Pairs(x) && x[j] in Pairs(x);
    }
  }
}
