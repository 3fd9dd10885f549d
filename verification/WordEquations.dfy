/** Word equations: their meaning, and their meaning position by position once the lengths are fixed. */
module WordEquations {
  import opened Options

  type Char = nat
  type Word = seq<Char>

  /** What a side of an equation is made of. */
  datatype Tok = Var(v: nat) | Lit(s: Word)

  type Side = seq<Tok>

  datatype Problem = Problem(nvars: nat, eqs: seq<(Side, Side)>, neqs: seq<(Side, Side)>) {
    /** Every variable mentioned exists. */
    ghost predicate Valid() {
      && (forall e :: e in eqs ==> SideOk(e.0, nvars) && SideOk(e.1, nvars))
      && (forall e :: e in neqs ==> SideOk(e.0, nvars) && SideOk(e.1, nvars))
    }
  }

  ghost predicate SideOk(side: Side, nvars: nat) {
    forall t :: t in side && t.Var? ==> t.v < nvars
  }

  // ----- meaning -----

  ghost function TokValue(t: Tok, values: seq<Word>): Word {
    match t
    case Var(v) => if v < |values| then values[v] else []
    case Lit(s) => s
  }

  ghost function SideValue(side: Side, values: seq<Word>): Word {
    if side == [] then [] else TokValue(side[0], values) + SideValue(side[1..], values)
  }

  ghost predicate Solves(p: Problem, values: seq<Word>) {
    && |values| == p.nvars
    && (forall e :: e in p.eqs ==> SideValue(e.0, values) == SideValue(e.1, values))
    && (forall e :: e in p.neqs ==> SideValue(e.0, values) != SideValue(e.1, values))
  }

  ghost predicate Fits(values: seq<Word>, lens: seq<nat>) {
    |values| == |lens| && forall v :: 0 <= v < |lens| ==> |values[v]| == lens[v]
  }

  /** Some strings of these lengths solve the problem. */
  ghost predicate Solvable(p: Problem, lens: seq<nat>) {
    exists values: seq<Word> :: Fits(values, lens) && Solves(p, values)
  }

  // ----- lengths -----

  function TokLen(t: Tok, lens: seq<nat>): nat {
    match t
    case Var(v) => if v < |lens| then lens[v] else 0
    case Lit(s) => |s|
  }

  function SideLen(side: Side, lens: seq<nat>): nat {
    if side == [] then 0 else TokLen(side[0], lens) + SideLen(side[1..], lens)
  }

  function Sum(lens: seq<nat>): nat {
    if lens == [] then 0 else lens[0] + Sum(lens[1..])
  }

  lemma {:induction false} SideValueLength(side: Side, values: seq<Word>, lens: seq<nat>)
    requires Fits(values, lens)
    ensures |SideValue(side, values)| == SideLen(side, lens)
  {
    if side != [] {
      SideValueLength(side[1..], values, lens);
    }
  }

  /** Unequal side lengths rule a length vector out. */
  lemma {:induction false} UnbalancedUnsolvable(p: Problem, lens: seq<nat>, e: (Side, Side))
    requires e in p.eqs && SideLen(e.0, lens) != SideLen(e.1, lens)
    ensures !Solvable(p, lens)
  {
    if values: seq<Word> :| Fits(values, lens) && Solves(p, values) {
      SideValueLength(e.0, values, lens);
      SideValueLength(e.1, values, lens);
    }
  }

  // ----- positions -----

  /** A character position of the variables laid end to end, or a literal character. */
  datatype Cell = Pos(i: nat) | Ch(c: Char)

  /** Where the characters of variable `v` start. */
  function Offset(lens: seq<nat>, v: nat): nat
    requires v <= |lens|
  {
    if v == 0 then 0 else Offset(lens, v - 1) + lens[v - 1]
  }

  function TokCells(t: Tok, lens: seq<nat>): seq<Cell> {
    match t
    case Var(v) => if v < |lens| then seq(lens[v], i requires 0 <= i => Pos(Offset(lens, v) + i)) else []
    case Lit(s) => seq(|s|, i requires 0 <= i < |s| => Ch(s[i]))
  }

  function Cells(side: Side, lens: seq<nat>): seq<Cell> {
    if side == [] then [] else TokCells(side[0], lens) + Cells(side[1..], lens)
  }

  /** The variables' values laid end to end. */
  ghost function Flat(values: seq<Word>): Word {
    if values == [] then [] else Flat(values[..|values| - 1]) + values[|values| - 1]
  }

  ghost function CellValue(c: Cell, u: Word): Char {
    match c
    case Pos(i) => if i < |u| then u[i] else 0
    case Ch(c) => c
  }

  lemma {:induction false} FlatAt(values: seq<Word>, lens: seq<nat>, v: nat)
    requires Fits(values, lens) && v < |lens|
    ensures |Flat(values)| == Offset(lens, |lens|)
    ensures Offset(lens, v) + lens[v] <= |Flat(values)|
    ensures Flat(values)[Offset(lens, v)..Offset(lens, v) + lens[v]] == values[v]
    decreases |values|
  {
    var n := |values| - 1;
    OffsetPrefix(lens, n, n);
    FlatLength(values[..n], lens[..n]);
    if v < n {
      FlatAt(values[..n], lens[..n], v);
      OffsetPrefix(lens, n, v);
    }
  }

  lemma {:induction false} FlatLength(values: seq<Word>, lens: seq<nat>)
    requires Fits(values, lens)
    ensures |Flat(values)| == Offset(lens, |lens|)
    decreases |values|
  {
    if values != [] {
      var n := |values| - 1;
      FlatLength(values[..n], lens[..n]);
      OffsetPrefix(lens, n, n);
    }
  }

  lemma {:induction false} OffsetPrefix(lens: seq<nat>, n: nat, v: nat)
    requires v <= n <= |lens|
    ensures Offset(lens[..n], v) == Offset(lens, v)
    decreases v
  {
    if v > 0 {
      OffsetPrefix(lens, n, v - 1);
    }
  }

  lemma {:induction false} CellsLength(side: Side, lens: seq<nat>)
    ensures |Cells(side, lens)| == SideLen(side, lens)
  {
    if side != [] {
      CellsLength(side[1..], lens);
    }
  }

  /** The value of a side, position by position. */
  lemma {:induction false} CellsValue(side: Side, values: seq<Word>, lens: seq<nat>)
    requires Fits(values, lens)
    ensures var cells, w := Cells(side, lens), SideValue(side, values);
      |cells| == |w| && forall k :: 0 <= k < |w| ==> CellValue(cells[k], Flat(values)) == w[k]
  {
    if side != [] {
      CellsValue(side[1..], values, lens);
      TokCellsValue(side[0], values, lens);
    }
  }

  lemma {:induction false} TokCellsValue(t: Tok, values: seq<Word>, lens: seq<nat>)
    requires Fits(values, lens)
    ensures var cells, w := TokCells(t, lens), TokValue(t, values);
      |cells| == |w| && forall k :: 0 <= k < |w| ==> CellValue(cells[k], Flat(values)) == w[k]
  {
    if t.Var? && t.v < |lens| {
      FlatAt(values, lens, t.v);
    }
  }

  /** The two cells hold the same character in `u`. */
  ghost predicate Agree(a: seq<Cell>, b: seq<Cell>, k: nat, u: Word)
    requires k < |a| && k < |b|
  {
    CellValue(a[k], u) == CellValue(b[k], u)
  }

  /** An equation, as agreement of its cells. */
  ghost predicate EqHolds(e: (Side, Side), lens: seq<nat>, u: Word) {
    var a, b := Cells(e.0, lens), Cells(e.1, lens);
    |a| == |b| && forall k :: 0 <= k < |a| ==> Agree(a, b, k, u)
  }

  lemma {:induction false} EqCells(e: (Side, Side), values: seq<Word>, lens: seq<nat>)
    requires Fits(values, lens)
    ensures SideValue(e.0, values) == SideValue(e.1, values) <==> EqHolds(e, lens, Flat(values))
  {
    CellsValue(e.0, values, lens);
    CellsValue(e.1, values, lens);
    var a, b := Cells(e.0, lens), Cells(e.1, lens);
    if EqHolds(e, lens, Flat(values)) {
      forall k | 0 <= k < |a| ensures SideValue(e.0, values)[k] == SideValue(e.1, values)[k] {
        assert Agree(a, b, k, Flat(values));
      }
    }
  }

  /** A problem at fixed lengths is a problem about one word, the values laid end to end. */
  ghost predicate FlatSolves(p: Problem, lens: seq<nat>, u: Word) {
    && |u| == Offset(lens, |lens|)
    && (forall e :: e in p.eqs ==> EqHolds(e, lens, u))
    && (forall e :: e in p.neqs ==> !EqHolds(e, lens, u))
  }

  lemma {:induction false} FlatSolvesIff(p: Problem, values: seq<Word>, lens: seq<nat>)
    requires Fits(values, lens) && |lens| == p.nvars
    ensures Solves(p, values) <==> FlatSolves(p, lens, Flat(values))
  {
    FlatLength(values, lens);
    forall e | e in p.eqs || e in p.neqs
      ensures SideValue(e.0, values) == SideValue(e.1, values) <==> EqHolds(e, lens, Flat(values))
    {
      EqCells(e, values, lens);
    }
  }
}
