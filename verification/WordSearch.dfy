/** The decision for fixed lengths, and the search over the length vectors within bounds. */
module WordSearch {
  import opened Options
  import opened WordEquations
  import opened CharClasses

  // ----- the characters in use -----

  function SideChars(side: Side): seq<Char> {
    if side == [] then [] else (if side[0].Lit? then side[0].s else []) + SideChars(side[1..])
  }

  /** Every literal character of the sides is in use. */
  ghost predicate Covers(used: seq<Char>, es: seq<(Side, Side)>) {
    forall e, c :: e in es && (c in SideChars(e.0) || c in SideChars(e.1)) ==> c in used
  }

  ghost predicate Distinct(s: seq<Char>) {
    forall i, k :: 0 <= i < k < |s| ==> s[i] != s[k]
  }

  lemma {:induction false} CellsUsed(side: Side, lens: seq<nat>, k: nat)
    requires k < |Cells(side, lens)| && Cells(side, lens)[k].Ch?
    ensures Cells(side, lens)[k].c in SideChars(side)
  {
    var m := |TokCells(side[0], lens)|;
    if k >= m {
      CellsUsed(side[1..], lens, k - m);
    }
  }

  lemma {:induction false} CellsInside(side: Side, lens: seq<nat>, k: nat)
    requires SideOk(side, |lens|) && k < |Cells(side, lens)|
    ensures Inside(Cells(side, lens)[k], Offset(lens, |lens|))
  {
    var m := |TokCells(side[0], lens)|;
    if k >= m {
      CellsInside(side[1..], lens, k - m);
    } else if side[0].Var? {
      assert side[0] in side;
      OffsetGrows(lens, side[0].v + 1, |lens|);
    }
  }

  lemma {:induction false} OffsetGrows(lens: seq<nat>, v: nat, w: nat)
    requires v <= w <= |lens|
    ensures Offset(lens, v) <= Offset(lens, w)
    decreases w
  {
    if v < w {
      OffsetGrows(lens, v, w - 1);
    }
  }

  // ----- fixed lengths -----

  /** `u` satisfies the first `i` equations. */
  ghost predicate UptoEq(p: Problem, lens: seq<nat>, i: nat, u: Word)
    requires i <= |p.eqs|
  {
    |u| == Offset(lens, |lens|) && forall m :: 0 <= m < i ==> EqHolds(p.eqs[m], lens, u)
  }

  /** `u` satisfies the first `i` equations and agrees on the first `k` cells of the next. */
  ghost predicate UptoCell(p: Problem, lens: seq<nat>, i: nat, k: nat, u: Word)
    requires i < |p.eqs|
  {
    var a, b := Cells(p.eqs[i].0, lens), Cells(p.eqs[i].1, lens);
    UptoEq(p, lens, i, u) && k <= |a| && k <= |b| && forall m :: 0 <= m < k ==> Agree(a, b, m, u)
  }

  /** The words consistent with the classes are those that satisfy the first `i` equations. */
  ghost predicate EqsDone(root: seq<nat>, pinned: seq<Option<Char>>, p: Problem, lens: seq<nat>, i: nat)
    requires i <= |p.eqs|
  {
    forall u: Word :: Consistent(root, pinned, u) <==> UptoEq(p, lens, i, u)
  }

  ghost predicate CellsDone(root: seq<nat>, pinned: seq<Option<Char>>, p: Problem, lens: seq<nat>, i: nat, k: nat)
    requires i < |p.eqs|
  {
    forall u: Word :: Consistent(root, pinned, u) <==> UptoCell(p, lens, i, k, u)
  }

  ghost predicate PinnedIn(pinned: seq<Option<Char>>, used: set<Char>) {
    forall o :: o in pinned && o.Some? ==> o.value in used
  }

  lemma {:induction false} StartDone(n: nat, p: Problem, lens: seq<nat>)
    requires n == Offset(lens, |lens|)
    ensures EqsDone(seq(n, i => i), seq(n, _ => None), p, lens, 0)
  {
  }

  lemma {:induction false} CellsStep(root: seq<nat>, pinned: seq<Option<Char>>, root': seq<nat>, pinned': seq<Option<Char>>,
                  p: Problem, lens: seq<nat>, i: nat, k: nat)
    requires i < |p.eqs| && CellsDone(root, pinned, p, lens, i, k)
    requires k < |Cells(p.eqs[i].0, lens)| && k < |Cells(p.eqs[i].1, lens)|
    requires Narrowed(root, pinned, root', pinned', Cells(p.eqs[i].0, lens)[k], Cells(p.eqs[i].1, lens)[k])
    ensures CellsDone(root', pinned', p, lens, i, k + 1)
  {
    var a, b := Cells(p.eqs[i].0, lens), Cells(p.eqs[i].1, lens);
    forall u: Word ensures Consistent(root', pinned', u) <==> UptoCell(p, lens, i, k + 1, u) {
      assert SameValue(a[k], b[k], u) <==> Agree(a, b, k, u);
      UptoStep(p, lens, i, k, u);
    }
  }

  lemma {:induction false} CellsStart(root: seq<nat>, pinned: seq<Option<Char>>, p: Problem, lens: seq<nat>, i: nat)
    requires i < |p.eqs| && EqsDone(root, pinned, p, lens, i)
    ensures CellsDone(root, pinned, p, lens, i, 0)
  {
  }

  lemma {:induction false} UptoStep(p: Problem, lens: seq<nat>, i: nat, k: nat, u: Word)
    requires i < |p.eqs| && k < |Cells(p.eqs[i].0, lens)| && k < |Cells(p.eqs[i].1, lens)|
    ensures UptoCell(p, lens, i, k + 1, u) <==>
      UptoCell(p, lens, i, k, u) && Agree(Cells(p.eqs[i].0, lens), Cells(p.eqs[i].1, lens), k, u)
  {
  }

  /** Agreement on all cells is the equation. */
  lemma {:induction false} CellsEnd(root: seq<nat>, pinned: seq<Option<Char>>, p: Problem, lens: seq<nat>, i: nat)
    requires i < |p.eqs| && |Cells(p.eqs[i].0, lens)| == |Cells(p.eqs[i].1, lens)|
    requires CellsDone(root, pinned, p, lens, i, |Cells(p.eqs[i].0, lens)|)
    ensures EqsDone(root, pinned, p, lens, i + 1)
  {
    forall u: Word
      ensures UptoEq(p, lens, i + 1, u) <==> UptoCell(p, lens, i, |Cells(p.eqs[i].0, lens)|, u)
    {
      assert UptoEq(p, lens, i + 1, u) <==> UptoEq(p, lens, i, u) && EqHolds(p.eqs[i], lens, u);
    }
  }

  lemma {:induction false} ConflictUnsolvable(root: seq<nat>, pinned: seq<Option<Char>>, p: Problem, lens: seq<nat>, i: nat, k: nat)
    requires |lens| == p.nvars && i < |p.eqs| && CellsDone(root, pinned, p, lens, i, k)
    requires k < |Cells(p.eqs[i].0, lens)| && k < |Cells(p.eqs[i].1, lens)|
    requires Conflict(root, pinned, Cells(p.eqs[i].0, lens)[k], Cells(p.eqs[i].1, lens)[k])
    ensures !Solvable(p, lens)
  {
    if values: seq<Word> :| Fits(values, lens) && Solves(p, values) {
      FlatSolvesIff(p, values, lens);
      SolutionUpto(p, lens, i, k, Flat(values));
    }
  }

  lemma {:induction false} SolutionUpto(p: Problem, lens: seq<nat>, i: nat, k: nat, u: Word)
    requires FlatSolves(p, lens, u) && i < |p.eqs|
    requires k < |Cells(p.eqs[i].0, lens)| && k < |Cells(p.eqs[i].1, lens)|
    ensures UptoCell(p, lens, i, k, u) && SameValue(Cells(p.eqs[i].0, lens)[k], Cells(p.eqs[i].1, lens)[k], u)
  {
    assert EqHolds(p.eqs[i], lens, u);
    assert forall m :: 0 <= m <= k ==> Agree(Cells(p.eqs[i].0, lens), Cells(p.eqs[i].1, lens), m, u);
    assert Agree(Cells(p.eqs[i].0, lens), Cells(p.eqs[i].1, lens), k, u);
  }

  method Equations(p: Problem, lens: seq<nat>, cl: Classes, ghost used: set<Char>) returns (ok: bool)
    requires p.Valid() && |lens| == p.nvars && cl.Valid() && |cl.parent| == Offset(lens, |lens|)
    requires EqsDone(cl.root, cl.pinned, p, lens, 0) && PinnedIn(cl.pinned, used)
    requires forall e, c :: e in p.eqs && (c in SideChars(e.0) || c in SideChars(e.1)) ==> c in used
    modifies cl
    ensures cl.Valid() && |cl.parent| == Offset(lens, |lens|) && PinnedIn(cl.pinned, used)
    ensures ok ==> EqsDone(cl.root, cl.pinned, p, lens, |p.eqs|)
    ensures !ok ==> !Solvable(p, lens)
  {
    var i := 0;
    while i < |p.eqs|
      invariant 0 <= i <= |p.eqs| && cl.Valid() && |cl.parent| == Offset(lens, |lens|) && PinnedIn(cl.pinned, used)
      invariant EqsDone(cl.root, cl.pinned, p, lens, i)
    {
      var e := p.eqs[i];
      assert e in p.eqs;
      if SideLen(e.0, lens) != SideLen(e.1, lens) {
        UnbalancedUnsolvable(p, lens, e);
        return false;
      }
      CellsLength(e.0, lens);
      CellsLength(e.1, lens);
      ok := Equation(p, lens, i, cl, used);
      if !ok {
        return;
      }
      i := i + 1;
    }
    ok := true;
  }

  method Equation(p: Problem, lens: seq<nat>, i: nat, cl: Classes, ghost used: set<Char>) returns (ok: bool)
    requires p.Valid() && |lens| == p.nvars && cl.Valid() && |cl.parent| == Offset(lens, |lens|)
    requires i < |p.eqs| && EqsDone(cl.root, cl.pinned, p, lens, i) && PinnedIn(cl.pinned, used)
    requires |Cells(p.eqs[i].0, lens)| == |Cells(p.eqs[i].1, lens)|
    requires forall e, c :: e in p.eqs && (c in SideChars(e.0) || c in SideChars(e.1)) ==> c in used
    modifies cl
    ensures cl.Valid() && |cl.parent| == Offset(lens, |lens|) && PinnedIn(cl.pinned, used)
    ensures ok ==> EqsDone(cl.root, cl.pinned, p, lens, i + 1)
    ensures !ok ==> !Solvable(p, lens)
  {
    var e := p.eqs[i];
    assert e in p.eqs;
    var a, b := Cells(e.0, lens), Cells(e.1, lens);
    var k := 0;
    CellsStart(cl.root, cl.pinned, p, lens, i);
    while k < |a|
      invariant 0 <= k <= |a| && cl.Valid() && |cl.parent| == Offset(lens, |lens|) && PinnedIn(cl.pinned, used)
      invariant CellsDone(cl.root, cl.pinned, p, lens, i, k)
    {
      CellsInside(e.0, lens, k);
      CellsInside(e.1, lens, k);
      if a[k].Ch? {
        CellsUsed(e.0, lens, k);
      }
      if b[k].Ch? {
        CellsUsed(e.1, lens, k);
      }
      ghost var root0, pinned0 := cl.root, cl.pinned;
      ok := cl.Equate(a[k], b[k]);
      if !ok {
        ConflictUnsolvable(root0, pinned0, p, lens, i, k);
        return;
      }
      CellsStep(root0, pinned0, cl.root, cl.pinned, p, lens, i, k);
      k := k + 1;
    }
    CellsEnd(cl.root, cl.pinned, p, lens, i);
    ok := true;
  }

  // ----- disequations -----

  /** Every consistent word violates the disequation. */
  ghost predicate NeqForced(root: seq<nat>, pinned: seq<Option<Char>>, e: (Side, Side), lens: seq<nat>) {
    forall u: Word :: Consistent(root, pinned, u) ==> EqHolds(e, lens, u)
  }

  /** Every word that keeps apart what it can satisfies the disequation. */
  ghost predicate NeqFree(root: seq<nat>, pinned: seq<Option<Char>>, used: set<Char>, e: (Side, Side), lens: seq<nat>) {
    forall u: Word :: Generic(root, pinned, used, u) ==> !EqHolds(e, lens, u)
  }

  lemma {:induction false} ApartFree(root: seq<nat>, pinned: seq<Option<Char>>, used: set<Char>, e: (Side, Side), lens: seq<nat>, k: nat)
    requires k < |Cells(e.0, lens)| && k < |Cells(e.1, lens)|
    requires forall u: Word :: Generic(root, pinned, used, u) ==> !SameValue(Cells(e.0, lens)[k], Cells(e.1, lens)[k], u)
    ensures NeqFree(root, pinned, used, e, lens)
  {
    forall u: Word | Generic(root, pinned, used, u) ensures !EqHolds(e, lens, u) {
      assert !Agree(Cells(e.0, lens), Cells(e.1, lens), k, u);
    }
  }

  /** Every consistent word agrees on the first `k` cells. */
  ghost predicate AgreeBelow(root: seq<nat>, pinned: seq<Option<Char>>, a: seq<Cell>, b: seq<Cell>, k: nat)
    requires k <= |a| == |b|
  {
    forall u: Word, m :: Consistent(root, pinned, u) && 0 <= m < k ==> Agree(a, b, m, u)
  }

  lemma {:induction false} SameAgrees(root: seq<nat>, pinned: seq<Option<Char>>, a: seq<Cell>, b: seq<Cell>, k: nat)
    requires k < |a| == |b| && AgreeBelow(root, pinned, a, b, k)
    requires forall u: Word :: Consistent(root, pinned, u) ==> SameValue(a[k], b[k], u)
    ensures AgreeBelow(root, pinned, a, b, k + 1)
  {
  }

  method Disequation(e: (Side, Side), lens: seq<nat>, cl: Classes, ghost used: set<Char>) returns (forced: bool)
    requires SideOk(e.0, |lens|) && SideOk(e.1, |lens|) && cl.Valid() && |cl.parent| == Offset(lens, |lens|)
    requires forall c :: c in SideChars(e.0) || c in SideChars(e.1) ==> c in used
    modifies cl`parent
    ensures cl.Valid() && |cl.parent| == Offset(lens, |lens|)
    ensures forced ==> NeqForced(cl.root, cl.pinned, e, lens)
    ensures !forced ==> NeqFree(cl.root, cl.pinned, used, e, lens)
  {
    var a, b := Cells(e.0, lens), Cells(e.1, lens);
    CellsLength(e.0, lens);
    CellsLength(e.1, lens);
    if SideLen(e.0, lens) != SideLen(e.1, lens) {
      return false;
    }
    var k := 0;
    while k < |a|
      invariant 0 <= k <= |a| == |b| && cl.Valid() && |cl.parent| == Offset(lens, |lens|)
      invariant AgreeBelow(cl.root, cl.pinned, a, b, k)
    {
      CellsInside(e.0, lens, k);
      CellsInside(e.1, lens, k);
      if a[k].Ch? {
        CellsUsed(e.0, lens, k);
      }
      if b[k].Ch? {
        CellsUsed(e.1, lens, k);
      }
      var same := cl.Forced(a[k], b[k]);
      if !same {
        ApartFree(cl.root, cl.pinned, used, e, lens, k);
        return false;
      }
      SameAgrees(cl.root, cl.pinned, a, b, k);
      k := k + 1;
    }
    forced := true;
  }

  lemma {:induction false} ForcedUnsolvable(root: seq<nat>, pinned: seq<Option<Char>>, p: Problem, lens: seq<nat>, e: (Side, Side))
    requires |lens| == p.nvars && EqsDone(root, pinned, p, lens, |p.eqs|) && e in p.neqs
    requires NeqForced(root, pinned, e, lens)
    ensures !Solvable(p, lens)
  {
    if values: seq<Word> :| Fits(values, lens) && Solves(p, values) {
      FlatSolvesIff(p, values, lens);
    }
  }

  method Disequations(p: Problem, lens: seq<nat>, cl: Classes, ghost used: set<Char>) returns (ok: bool)
    requires p.Valid() && |lens| == p.nvars && cl.Valid() && |cl.parent| == Offset(lens, |lens|)
    requires EqsDone(cl.root, cl.pinned, p, lens, |p.eqs|)
    requires forall e, c :: e in p.neqs && (c in SideChars(e.0) || c in SideChars(e.1)) ==> c in used
    modifies cl`parent
    ensures cl.Valid() && |cl.parent| == Offset(lens, |lens|)
    ensures ok ==> forall e :: e in p.neqs ==> NeqFree(cl.root, cl.pinned, used, e, lens)
    ensures !ok ==> !Solvable(p, lens)
  {
    var i := 0;
    while i < |p.neqs|
      invariant 0 <= i <= |p.neqs| && cl.Valid() && |cl.parent| == Offset(lens, |lens|)
      invariant forall m :: 0 <= m < i ==> NeqFree(cl.root, cl.pinned, used, p.neqs[m], lens)
    {
      assert p.neqs[i] in p.neqs;
      var forced := Disequation(p.neqs[i], lens, cl, used);
      if forced {
        ForcedUnsolvable(cl.root, cl.pinned, p, lens, p.neqs[i]);
        return false;
      }
      i := i + 1;
    }
    ok := true;
  }

  // ----- values -----

  /** The characters given to the first `|u|` positions. */
  ghost predicate Building(root: seq<nat>, pinned: seq<Option<Char>>, spareOf: seq<Option<Char>>, spare: seq<Char>,
                           next: nat, u: Word) {
    && |root| == |pinned| == |spareOf| && |u| <= |root| && next <= |u| && next <= |spare|
    && (forall k :: 0 <= k < |u| ==> root[k] < |root|)
    && (forall k :: 0 <= k < |u| ==>
          if pinned[root[k]].Some? then u[k] == pinned[root[k]].value else spareOf[root[k]] == Some(u[k]))
    && (forall r :: 0 <= r < |root| && spareOf[r].Some? ==> spareOf[r].value in spare[..next])
    && (forall r, q :: 0 <= r < |root| && 0 <= q < |root| && r != q && spareOf[r].Some? ==> spareOf[r] != spareOf[q])
  }

  lemma {:induction false} BuildingStep(root: seq<nat>, pinned: seq<Option<Char>>, spareOf: seq<Option<Char>>, spare: seq<Char>,
                     next: nat, u: Word)
    requires Building(root, pinned, spareOf, spare, next, u) && |u| < |root| <= |spare| && root[|u|] < |root|
    requires Distinct(spare)
    ensures var r := root[|u|];
      if pinned[r].Some? then Building(root, pinned, spareOf, spare, next, u + [pinned[r].value])
      else if spareOf[r].Some? then Building(root, pinned, spareOf, spare, next, u + [spareOf[r].value])
      else Building(root, pinned, spareOf[r := Some(spare[next])], spare, next + 1, u + [spare[next]])
  {
    assert forall c :: c in spare[..next] ==> c != spare[next];
    assert spare[..next + 1] == spare[..next] + [spare[next]];
  }

  lemma {:induction false} BuiltGeneric(root: seq<nat>, pinned: seq<Option<Char>>, spareOf: seq<Option<Char>>, spare: seq<Char>,
                     next: nat, u: Word, used: set<Char>)
    requires Building(root, pinned, spareOf, spare, next, u) && |u| == |root| && PinnedIn(pinned, used)
    requires forall c :: c in spare ==> c !in used
    requires forall k :: 0 <= k < |root| ==> root[k] < |root| && root[root[k]] == root[k]
    ensures Generic(root, pinned, used, u)
  {
    forall i | 0 <= i < |root| && root[i] == i && pinned[i].None? ensures u[i] !in used {
      assert u[i] in spare;
    }
    forall i, k | 0 <= i < |root| && 0 <= k < |root| && root[i] == i && root[k] == k && i != k && u[i] == u[k]
      ensures pinned[i].Some? && pinned[i] == pinned[k]
    {
      assert pinned[i].Some? ==> pinned[i] in pinned;
      assert pinned[k].Some? ==> pinned[k] in pinned;
    }
  }

  /** The characters of one variable, the positions of `u` being done. */
  method VarValue(len: nat, cl: Classes, spare: seq<Char>, spareOf0: seq<Option<Char>>, next0: nat, ghost u: Word,
                  start: nat)
    returns (s: Word, spareOf: seq<Option<Char>>, next: nat)
    requires cl.Valid() && |u| == start && start + len <= |cl.parent| <= |spare| && Distinct(spare)
    requires Building(cl.root, cl.pinned, spareOf0, spare, next0, u)
    modifies cl`parent
    ensures cl.Valid() && |cl.parent| == |old(cl.parent)| && |s| == len
    ensures Building(cl.root, cl.pinned, spareOf, spare, next, u + s)
  {
    s, spareOf, next := [], spareOf0, next0;
    assert u + s == u;
    while |s| < len
      invariant |s| <= len && cl.Valid() && |cl.parent| == |old(cl.parent)|
      invariant Building(cl.root, cl.pinned, spareOf, spare, next, u + s)
    {
      var r := cl.Find(start + |s|);
      assert NodeOk(cl.parent, cl.root, cl.rank, cl.top, start + |s|);
      BuildingStep(cl.root, cl.pinned, spareOf, spare, next, u + s);
      var c;
      if cl.pinned[r].Some? {
        c := cl.pinned[r].value;
      } else if spareOf[r].Some? {
        c := spareOf[r].value;
      } else {
        c := spare[next];
        next := next + 1;
        spareOf := spareOf[r := Some(c)];
      }
      assert u + (s + [c]) == (u + s) + [c];
      s := s + [c];
    }
  }

  method Values(lens: seq<nat>, cl: Classes, spare: seq<Char>, ghost used: set<Char>) returns (values: seq<Word>)
    requires cl.Valid() && |cl.parent| == Offset(lens, |lens|) <= |spare| && Distinct(spare)
    requires PinnedIn(cl.pinned, used) && forall c :: c in spare ==> c !in used
    modifies cl`parent
    ensures cl.Valid() && Fits(values, lens) && Generic(cl.root, cl.pinned, used, Flat(values))
  {
    var spareOf: seq<Option<Char>> := seq(|cl.parent|, _ => None);
    var next := 0;
    values := [];
    var v := 0;
    while v < |lens|
      invariant 0 <= v <= |lens| && Fits(values, lens[..v]) && cl.Valid() && |cl.parent| == Offset(lens, |lens|)
      invariant |Flat(values)| == Offset(lens, v)
      invariant Building(cl.root, cl.pinned, spareOf, spare, next, Flat(values))
    {
      OffsetGrows(lens, v + 1, |lens|);
      var s;
      s, spareOf, next := VarValue(lens[v], cl, spare, spareOf, next, Flat(values), Offset(lens, v));
      assert (values + [s])[..|values|] == values;
      values := values + [s];
      v := v + 1;
    }
    assert lens[..v] == lens;
    forall k | 0 <= k < |cl.root| ensures cl.root[k] < |cl.root| && cl.root[cl.root[k]] == cl.root[k] {
      assert NodeOk(cl.parent, cl.root, cl.rank, cl.top, k);
    }
    BuiltGeneric(cl.root, cl.pinned, spareOf, spare, next, Flat(values), used);
  }

  /** Strings of the given lengths that solve the problem, if there are any. */
  method SolveAt(p: Problem, lens: seq<nat>, spare: seq<Char>, used: seq<Char>) returns (r: Option<seq<Word>>)
    requires p.Valid() && |lens| == p.nvars
    requires Covers(used, p.eqs) && Covers(used, p.neqs)
    requires Distinct(spare) && Offset(lens, |lens|) <= |spare| && forall c :: c in spare ==> c !in used
    ensures r.Some? ==> Fits(r.value, lens) && Solves(p, r.value)
    ensures r.None? ==> !Solvable(p, lens)
  {
    ghost var inUse := set c | c in used;
    var n := Offset(lens, |lens|);
    var cl := new Classes(n);
    StartDone(n, p, lens);
    var ok := Equations(p, lens, cl, inUse);
    if !ok {
      return None;
    }
    ok := Disequations(p, lens, cl, inUse);
    if !ok {
      return None;
    }
    var values := Values(lens, cl, spare, inUse);
    FlatSolvesIff(p, values, lens);
    assert UptoEq(p, lens, |p.eqs|, Flat(values));
    return Some(values);
  }

  // ----- length vectors -----

  /** An answer of the oracle. */
  datatype LenVerdict = Feasible | Infeasible | Unknown

  datatype Outcome = Found(values: seq<Word>) | Exhausted | Incomplete

  type Oracle = seq<nat> -> LenVerdict

  ghost predicate Within(lens: seq<nat>, bounds: seq<nat>) {
    |lens| == |bounds| && forall v :: 0 <= v < |lens| ==> lens[v] <= bounds[v]
  }

  /** The vector is no answer; if nothing was left open, the oracle did not say Unknown about a solvable one. */
  ghost predicate Dismissed(p: Problem, oracle: Oracle, lens: seq<nat>, complete: bool) {
    Solvable(p, lens) ==> oracle(lens) == Infeasible || (oracle(lens) == Unknown && !complete)
  }

  ghost predicate Answer(p: Problem, oracle: Oracle, lens: seq<nat>, values: seq<Word>) {
    Fits(values, lens) && Solves(p, values) && oracle(lens) == Feasible
  }

  /** The oracle leaves a solvable vector within the bounds open. */
  ghost predicate LeftOpen(p: Problem, oracle: Oracle, bounds: seq<nat>) {
    exists lens: seq<nat> :: Within(lens, bounds) && Solvable(p, lens) && oracle(lens) == Unknown
  }

  function Max(a: Option<nat>, b: Option<nat>): Option<nat> {
    if a.None? then b else if b.None? || b.value <= a.value then a else b
  }

  /** The last variable of a side. */
  function LastVar(side: Side): Option<nat> {
    if side == [] then None
    else Max(LastVar(side[1..]), if side[0].Var? then Some(side[0].v) else None)
  }

  /** The equations whose last variable is `v` have sides of equal length. */
  predicate Balanced(p: Problem, lens: seq<nat>, v: nat) {
    forall e :: e in p.eqs && Max(LastVar(e.0), LastVar(e.1)) == Some(v) ==> SideLen(e.0, lens) == SideLen(e.1, lens)
  }

  lemma {:induction false} SideLenAgree(side: Side, a: seq<nat>, b: seq<nat>, v: nat)
    requires |a| == |b| && v < |a| && a[..v + 1] == b[..v + 1]
    requires LastVar(side).Some? ==> LastVar(side).value <= v
    ensures SideLen(side, a) == SideLen(side, b)
  {
    if side != [] {
      SideLenAgree(side[1..], a, b, v);
      if side[0].Var? {
        assert a[..v + 1][side[0].v] == b[..v + 1][side[0].v];
      }
    }
  }

  /** Pruning an unbalanced prefix loses no solvable vector. */
  lemma {:induction false} PrunedUnsolvable(p: Problem, lens: seq<nat>, v: nat, full: seq<nat>)
    requires |full| == |lens| && v < |lens| && full[..v + 1] == lens[..v + 1] && !Balanced(p, lens, v)
    ensures !Solvable(p, full)
  {
    var e :| e in p.eqs && Max(LastVar(e.0), LastVar(e.1)) == Some(v) && SideLen(e.0, lens) != SideLen(e.1, lens);
    SideLenAgree(e.0, lens, full, v);
    SideLenAgree(e.1, lens, full, v);
    UnbalancedUnsolvable(p, full, e);
  }

  lemma {:induction false} SumWithin(lens: seq<nat>, bounds: seq<nat>)
    requires Within(lens, bounds)
    ensures Sum(lens) <= Sum(bounds)
  {
    if lens != [] {
      SumWithin(lens[1..], bounds[1..]);
    }
  }

  lemma {:induction false} OffsetSum(lens: seq<nat>)
    ensures Offset(lens, |lens|) == Sum(lens)
    decreases |lens|
  {
    if lens != [] {
      OffsetShift(lens, |lens|);
      OffsetSum(lens[1..]);
    }
  }

  lemma {:induction false} OffsetShift(lens: seq<nat>, v: nat)
    requires 1 <= v <= |lens|
    ensures Offset(lens, v) == lens[0] + Offset(lens[1..], v - 1)
    decreases v
  {
    if v > 1 {
      OffsetShift(lens, v - 1);
    }
  }

  /** How many vectors within the bounds have the given total. */
  ghost function Count(bounds: seq<nat>, total: nat): nat
    decreases |bounds|, 1, 0
  {
    if bounds == [] then (if total == 0 then 1 else 0)
    else CountUpto(bounds, total, if bounds[0] < total then bounds[0] + 1 else total + 1)
  }

  /** Those of them whose first entry is below `k`. */
  ghost function CountUpto(bounds: seq<nat>, total: nat, k: nat): nat
    requires bounds != [] && k <= total + 1
    decreases |bounds|, 0, k
  {
    if k == 0 then 0 else CountUpto(bounds, total, k - 1) + Count(bounds[1..], total - (k - 1))
  }

  /** How many have a total below `t`. */
  ghost function CountBelow(bounds: seq<nat>, t: nat): nat {
    if t == 0 then 0 else CountBelow(bounds, t - 1) + Count(bounds, t - 1)
  }

  /** How many vectors lie within the bounds. */
  ghost function Vectors(bounds: seq<nat>): nat {
    CountBelow(bounds, Sum(bounds) + 1)
  }

  /** The walk over the length vectors, with the variables it updates. */
  class Walk {
    const p: Problem
    const bounds: seq<nat>
    const budget: nat
    const oracle: Oracle
    const spare: seq<Char>
    const used: seq<Char>
    const lens: array<nat>
    var examined: nat
    var complete: bool

    ghost predicate Valid()
      reads this, lens
    {
      && p.Valid() && |bounds| == p.nvars == lens.Length
      && Covers(used, p.eqs) && Covers(used, p.neqs)
      && Distinct(spare) && Sum(bounds) <= |spare| && (forall c :: c in spare ==> c !in used)
      && (complete || examined > budget || LeftOpen(p, oracle, bounds))
    }

    constructor (p: Problem, bounds: seq<nat>, budget: nat, oracle: Oracle, spare: seq<Char>, used: seq<Char>)
      requires p.Valid() && |bounds| == p.nvars && Covers(used, p.eqs) && Covers(used, p.neqs)
      requires Distinct(spare) && Sum(bounds) <= |spare| && forall c :: c in spare ==> c !in used
      ensures Valid() && fresh(lens) && examined == 0 && complete
      ensures this.p == p && this.bounds == bounds && this.budget == budget && this.oracle == oracle
    {
      this.p, this.bounds, this.budget, this.oracle, this.spare, this.used := p, bounds, budget, oracle, spare, used;
      lens := new nat[p.nvars](_ => 0);
      examined, complete := 0, true;
    }

    /** Try the current vector: None to go on, Some(None) when the budget is spent. */
    method Visit() returns (r: Option<Option<seq<Word>>>)
      requires Valid() && Within(lens[..], bounds)
      modifies this`examined, this`complete
      ensures Valid() && examined == old(examined) + 1 && (complete ==> old(complete))
      ensures r.None? ==> Dismissed(p, oracle, lens[..], complete)
      ensures r == Some(None) ==> !complete && examined > budget
      ensures r.Some? && r.value.Some? ==> Answer(p, oracle, lens[..], r.value.value)
    {
      examined := examined + 1;
      if examined > budget {
        complete := false;
        return Some(None);
      }
      var v := lens[..];
      if exists e :: e in p.eqs && SideLen(e.0, v) != SideLen(e.1, v) {
        ghost var e :| e in p.eqs && SideLen(e.0, v) != SideLen(e.1, v);
        UnbalancedUnsolvable(p, v, e);
        return None;
      }
      OffsetSum(v);
      SumWithin(v, bounds);
      var values := SolveAt(p, v, spare, used);
      if values.None? {
        return None;
      }
      match oracle(v)
      case Feasible =>
        return Some(values);
      case Infeasible =>
        return None;
      case Unknown =>
        complete := false;
        return None;
    }

    /** No vector that extends the prefix is an answer. */
    ghost predicate NoneExtends(prefix: seq<nat>, total: nat)
      reads this`complete
    {
      forall full :: Extends(full, bounds, prefix, total) ==> Dismissed(p, oracle, full, complete)
    }

    /** Nor is one whose entry after the prefix is below `k`. */
    ghost predicate NoneBelow(prefix: seq<nat>, total: nat, k: nat)
      reads this`complete
    {
      forall full :: Extends(full, bounds, prefix, total) && |prefix| < |full| && full[|prefix|] < k ==>
        Dismissed(p, oracle, full, complete)
    }

    ghost predicate SomeExtends(prefix: seq<nat>, total: nat, values: seq<Word>) {
      exists full :: Extends(full, bounds, prefix, total) && Answer(p, oracle, full, values)
    }

    /** Walk the vectors that extend the first `v` entries and whose other entries sum to `total`. */
    method Enumerate(v: nat, total: nat) returns (r: Option<Option<seq<Word>>>)
      requires Valid() && v <= p.nvars && forall i :: 0 <= i < v ==> lens[i] <= bounds[i]
      modifies this`examined, this`complete, lens
      ensures Valid() && lens[..v] == old(lens[..v]) && (complete ==> old(complete))
      ensures examined <= old(examined) + Count(bounds[v..], total)
      ensures r.None? ==> NoneExtends(old(lens[..v]), total)
      ensures r == Some(None) ==> !complete && examined > budget
      ensures r.Some? && r.value.Some? ==> SomeExtends(old(lens[..v]), total, r.value.value)
      decreases p.nvars - v, 2
    {
      ghost var prefix, tail := lens[..v], bounds[v..];
      if v == p.nvars {
        assert lens[..] == prefix && tail == [];
        r := Leaf(total);
        return;
      }
      var rest := Sum(bounds[v + 1..]);
      var lo := if total < rest then 0 else total - rest;
      var hi := if bounds[v] < total then bounds[v] else total;
      EnumerateRange(prefix, total, lo, hi);
      r := Entries(v, total, lo, hi, prefix);
      if r.None? {
        NoneLeft(prefix, total, if lo <= hi then hi + 1 else lo);
      }
    }

    /** Walk the vectors whose entry `v` lies between `lo` and `hi`. */
    method Entries(v: nat, total: nat, lo: nat, hi: nat, ghost prefix: seq<nat>) returns (r: Option<Option<seq<Word>>>)
      requires Valid() && v < p.nvars && hi <= bounds[v] && hi <= total && prefix == lens[..v]
      requires forall i :: 0 <= i < v ==> lens[i] <= bounds[i]
      requires NoneBelow(prefix, total, lo)
      modifies this`examined, this`complete, lens
      ensures Valid() && lens[..v] == prefix && (complete ==> old(complete))
      ensures examined <= old(examined) + Count(bounds[v..], total)
      ensures r.None? ==> NoneBelow(prefix, total, if lo <= hi then hi + 1 else lo)
      ensures r == Some(None) ==> !complete && examined > budget
      ensures r.Some? && r.value.Some? ==> SomeExtends(prefix, total, r.value.value)
      decreases p.nvars - v, 1
    {
      ghost var tail := bounds[v..];
      if hi < lo {
        return None;
      }
      var k := lo;
      CountEntries(tail, total, lo);
      while k <= hi
        invariant lo <= k <= hi + 1
        invariant Valid() && lens[..v] == prefix && (complete ==> old(complete))
        invariant examined <= old(examined) + CountUpto(tail, total, k) <= old(examined) + Count(tail, total)
        invariant NoneBelow(prefix, total, k)
      {
        CountEntries(tail, total, k + 1);
        r := Entry(v, k, total, prefix);
        if r.Some? {
          return;
        }
        k := k + 1;
      }
      return None;
    }

    lemma {:induction false} NoneLeft(prefix: seq<nat>, total: nat, k: nat)
      requires |prefix| < |bounds| && NoneBelow(prefix, total, k)
      requires bounds[|prefix|] < k || total < k
      ensures NoneExtends(prefix, total)
    {
      forall full | Extends(full, bounds, prefix, total) ensures full[|prefix|] < k {
        ExtendsRange(full, bounds, prefix, total);
      }
    }

    /** All entries are set. */
    method Leaf(total: nat) returns (r: Option<Option<seq<Word>>>)
      requires Valid() && Within(lens[..], bounds)
      modifies this`examined, this`complete
      ensures Valid() && (complete ==> old(complete)) && examined <= old(examined) + Count([], total)
      ensures r.None? ==> NoneExtends(lens[..], total)
      ensures r == Some(None) ==> !complete && examined > budget
      ensures r.Some? && r.value.Some? ==> SomeExtends(lens[..], total, r.value.value)
    {
      ghost var all := lens[..];
      forall full | Extends(full, bounds, all, total) ensures full == all && total == 0 {
        assert full[..|all|] == full;
      }
      if total != 0 {
        return None;
      }
      r := Visit();
      assert Extends(all, bounds, all, 0);
    }

    /** No vector has its next entry outside the range that is walked. */
    lemma {:induction false} EnumerateRange(prefix: seq<nat>, total: nat, lo: nat, hi: nat)
      requires |prefix| < |bounds|
      requires lo == var rest := Sum(bounds[|prefix| + 1..]); if total < rest then 0 else total - rest
      requires hi == if bounds[|prefix|] < total then bounds[|prefix|] else total
      ensures NoneBelow(prefix, total, lo)
    {
      forall full | Extends(full, bounds, prefix, total) ensures lo <= full[|prefix|] {
        ExtendsRange(full, bounds, prefix, total);
      }
    }

    /** Walk the vectors whose entry `v` is `k`, unless an equation rules them all out. */
    method Entry(v: nat, k: nat, total: nat, ghost prefix: seq<nat>) returns (r: Option<Option<seq<Word>>>)
      requires Valid() && v < p.nvars && k <= bounds[v] && k <= total && prefix == lens[..v]
      requires forall i :: 0 <= i < v ==> lens[i] <= bounds[i]
      requires NoneBelow(prefix, total, k)
      modifies this`examined, this`complete, lens
      ensures Valid() && lens[..v] == prefix && (complete ==> old(complete))
      ensures examined <= old(examined) + Count(bounds[v..][1..], total - k)
      ensures r.None? ==> NoneBelow(prefix, total, k + 1)
      ensures r == Some(None) ==> !complete && examined > budget
      ensures r.Some? && r.value.Some? ==> SomeExtends(prefix, total, r.value.value)
      decreases p.nvars - v, 0
    {
      lens[v] := k;
      ghost var now := lens[..];
      assert lens[..v + 1] == prefix + [k];
      assert bounds[v..][1..] == bounds[v + 1..];
      forall full
        ensures Extends(full, bounds, prefix + [k], total - k) <==> Extends(full, bounds, prefix, total) && full[v] == k
      {
        ExtendsStep(full, bounds, prefix, k, total);
      }
      if Balanced(p, lens[..], v) {
        r := Enumerate(v + 1, total - k);
        assert lens[..v] == lens[..v + 1][..v];
      } else {
        r := None;
        forall full | Extends(full, bounds, prefix, total) && full[v] == k ensures Dismissed(p, oracle, full, complete) {
          assert full[..v + 1] == prefix + [k] == now[..v + 1];
          PrunedUnsolvable(p, now, v, full);
        }
      }
    }
  }

  /** `full` lies within the bounds, starts with `prefix`, and the rest of it sums to `total`. */
  ghost predicate Extends(full: seq<nat>, bounds: seq<nat>, prefix: seq<nat>, total: nat) {
    Within(full, bounds) && |prefix| <= |full| && full[..|prefix|] == prefix && Sum(full[|prefix|..]) == total
  }

  lemma {:induction false} ExtendsRange(full: seq<nat>, bounds: seq<nat>, prefix: seq<nat>, total: nat)
    requires Extends(full, bounds, prefix, total) && |prefix| < |bounds|
    ensures full[|prefix|] <= bounds[|prefix|] && full[|prefix|] <= total
    ensures total <= full[|prefix|] + Sum(bounds[|prefix| + 1..])
  {
    var v := |prefix|;
    assert full[v..][1..] == full[v + 1..];
    SumWithin(full[v + 1..], bounds[v + 1..]);
  }

  lemma {:induction false} ExtendsStep(full: seq<nat>, bounds: seq<nat>, prefix: seq<nat>, k: nat, total: nat)
    requires |prefix| < |bounds| && k <= total
    ensures Extends(full, bounds, prefix + [k], total - k) <==>
      Extends(full, bounds, prefix, total) && full[|prefix|] == k
  {
    var v := |prefix|;
    if |full| == |bounds| {
      assert full[v..][1..] == full[v + 1..];
      assert full[..v + 1] == full[..v] + [full[v]];
    }
  }

  lemma {:induction false} CountUptoGrows(bounds: seq<nat>, total: nat, k: nat, m: nat)
    requires bounds != [] && k <= m <= total + 1
    ensures CountUpto(bounds, total, k) <= CountUpto(bounds, total, m)
    decreases m
  {
    if k < m {
      CountUptoGrows(bounds, total, k, m - 1);
    }
  }

  lemma {:induction false} CountEntries(bounds: seq<nat>, total: nat, k: nat)
    requires bounds != [] && k <= bounds[0] + 1 && k <= total + 1
    ensures CountUpto(bounds, total, k) <= Count(bounds, total)
    ensures k > 0 ==> CountUpto(bounds, total, k) == CountUpto(bounds, total, k - 1) + Count(bounds[1..], total - (k - 1))
  {
    CountUptoGrows(bounds, total, k, if bounds[0] < total then bounds[0] + 1 else total + 1);
  }

  // ----- the search -----

  method UsedChars(p: Problem) returns (used: seq<Char>)
    ensures Covers(used, p.eqs) && Covers(used, p.neqs)
  {
    used := [];
    var es := p.eqs + p.neqs;
    var i := 0;
    while i < |es|
      invariant 0 <= i <= |es|
      invariant forall m, c :: 0 <= m < i && (c in SideChars(es[m].0) || c in SideChars(es[m].1)) ==> c in used
    {
      used := used + SideChars(es[i].0) + SideChars(es[i].1);
      i := i + 1;
    }
    assert forall e :: e in p.eqs || e in p.neqs ==> e in es;
  }

  const FIRST_SPARE: Char := 65

  /** The first `n` characters from 'A' on that are not in use. */
  method SpareChars(used: seq<Char>, n: nat) returns (spare: seq<Char>)
    ensures |spare| == n && Distinct(spare) && forall c :: c in spare ==> c !in used
  {
    spare := [];
    var c := FIRST_SPARE;
    ghost var left := set u | u in used && u >= c;
    while |spare| < n
      invariant |spare| <= n && Distinct(spare)
      invariant forall s :: s in spare ==> s !in used && s < c
      invariant left == set u | u in used && u >= c
      decreases n - |spare| + |left|
    {
      if c !in used {
        spare := spare + [c];
        assert left == set u | u in used && u >= c + 1;
      } else {
        assert c in left;
        left := left - {c};
      }
      c := c + 1;
    }
  }

  /** Go through the totals from the smallest, and for each through the vectors of that total. */
  method Search(p: Problem, bounds: seq<nat>, budget: nat, oracle: Oracle) returns (out: Outcome)
    requires p.Valid() && |bounds| == p.nvars
    ensures out.Found? ==> exists lens: seq<nat> ::
      && Within(lens, bounds) && Answer(p, oracle, lens, out.values)
      && forall other: seq<nat> :: Within(other, bounds) && Sum(other) < Sum(lens) && Solvable(p, other) ==>
           oracle(other) != Feasible
    ensures out.Exhausted? ==> forall lens: seq<nat> ::
      Within(lens, bounds) && Solvable(p, lens) ==> oracle(lens) == Infeasible
    ensures out.Incomplete? ==> budget < Vectors(bounds) || LeftOpen(p, oracle, bounds)
  {
    var used := UsedChars(p);
    var totalMax := Sum(bounds);
    var spare := SpareChars(used, totalMax + 1);
    var walk := new Walk(p, bounds, budget, oracle, spare, used);
    var total := 0;
    while total <= totalMax
      invariant total <= totalMax + 1 && fresh(walk) && fresh(walk.lens) && walk.Valid()
      invariant walk.p == p && walk.bounds == bounds && walk.budget == budget && walk.oracle == oracle
      invariant walk.examined <= CountBelow(bounds, total)
      invariant forall lens :: Within(lens, bounds) && Sum(lens) < total ==> Dismissed(p, oracle, lens, walk.complete)
    {
      forall i | 0 <= i < walk.lens.Length {
        walk.lens[i] := 0;
      }
      assert bounds[0..] == bounds;
      assert walk.lens[..0] == [];
      var stopped := walk.Enumerate(0, total);
      CountBelowGrows(bounds, total + 1, totalMax + 1);
      if stopped.Some? {
        if stopped.value.None? {
          return Incomplete;
        }
        ghost var lens :| Extends(lens, bounds, [], total) && Answer(p, oracle, lens, stopped.value.value);
        assert lens[0..] == lens;
        return Found(stopped.value.value);
      }
      forall lens | Within(lens, bounds) && Sum(lens) == total ensures Dismissed(p, oracle, lens, walk.complete) {
        assert lens[0..] == lens;
        assert Extends(lens, bounds, [], total);
      }
      total := total + 1;
    }
    forall lens: seq<nat> | Within(lens, bounds) ensures Dismissed(p, oracle, lens, walk.complete) {
      SumWithin(lens, bounds);
    }
    return if walk.complete then Exhausted else Incomplete;
  }

  lemma {:induction false} CountBelowGrows(bounds: seq<nat>, t: nat, u: nat)
    requires t <= u
    ensures CountBelow(bounds, t) <= CountBelow(bounds, u)
    decreases u
  {
    if t < u {
      CountBelowGrows(bounds, t, u - 1);
    }
  }
}
