/** What the rewriter knows about a regex without exploring it: nullability, lengths, and a heuristic subset test. */
module RegexInfo {
  import opened Options
  import opened RegexTerms
  import A = LengthAbs
  import L = Languages

  datatype Info = Info(known: bool, interpreted: bool, nullable: Option<bool>, len: A.LenAbs) {
    /** A bound from below on the length of words. */
    function MinLength(): nat {
      len.lo
    }
  }

  const UNKNOWN := Info(false, false, None, A.TOP)

  function NullableAnd(a: Option<bool>, b: Option<bool>): Option<bool> {
    if a == Some(true) && b == Some(true) then Some(true)
    else if a == Some(false) || b == Some(false) then Some(false)
    else None
  }

  function NullableOr(a: Option<bool>, b: Option<bool>): Option<bool> {
    if a == Some(true) || b == Some(true) then Some(true)
    else if a == Some(false) && b == Some(false) then Some(false)
    else None
  }

  function NullableConcat(a: Option<bool>, b: Option<bool>): Option<bool> {
    if a == Some(false) || b == Some(false) then Some(false)
    else if a == Some(true) && b == Some(true) then Some(true)
    else None
  }

  function NullableDiff(a: Option<bool>, b: Option<bool>): Option<bool> {
    if a == Some(false) then Some(false)
    else if a == Some(true) && b == Some(false) then Some(true)
    else None
  }

  function NullableElse(a: Option<bool>, b: Option<bool>): Option<bool> {
    if a == b then a else None
  }

  function Known(interpreted: bool, nullable: Option<bool>, len: A.LenAbs): Info {
    Info(true, interpreted, nullable, len)
  }

  function InfoOf(r: Regex): (i: Info)
    ensures i.len.Ok()
  {
    match r
    case ReNone => Known(true, Some(false), A.Bounds(A.U32_MAX, 0))
    case ReAll => Known(true, Some(true), A.Bounds(0, A.U32_MAX))
    case Star(a) =>
      var i := InfoOf(a);
      Known(i.interpreted, Some(true), A.Star(i.len))
    case Opt(a) =>
      var i := InfoOf(a);
      Known(i.interpreted, Some(true), A.Opt(i.len))
    case Range(_, _) => Known(CharRange(r).Some?, Some(false), A.Bounds(1, 1))
    case AllChar => Known(true, Some(false), A.Bounds(1, 1))
    case Concat(x, y) =>
      var a, b := InfoOf(x), InfoOf(y);
      if !a.known then a
      else if !b.known then b
      else
        Known(a.interpreted && b.interpreted, NullableConcat(a.nullable, b.nullable), A.Concat(a.len, b.len))
    case Union(x, y) =>
      var a, b := InfoOf(x), InfoOf(y);
      if !a.known && !b.known then b
      else Known(a.interpreted && b.interpreted, NullableOr(a.nullable, b.nullable), A.Unite(a.len, b.len))
    case Inter(x, y) =>
      var a, b := InfoOf(x), InfoOf(y);
      if !a.known then a
      else if !b.known then b
      else Known(a.interpreted && b.interpreted, NullableAnd(a.nullable, b.nullable), A.Meet(a.len, b.len))
    case ToRe(s) =>
      if s.Lit? then
        var n := |s.s| % 0x1_0000_0000;
        Known(true, Some(s.s == []), A.Bounds(n, n))
      else Known(false, None, A.Bounds(0, A.U32_MAX))
    case Plus(x) =>
      var a := InfoOf(x);
      if !a.known then a else Known(a.interpreted, a.nullable, A.Plus(a.len))
    case Comp(x) =>
      var a := InfoOf(x);
      if !a.known then a
      else
        var n := if a.nullable.Some? then Some(!a.nullable.value) else None;
        Known(a.interpreted, n, A.Bounds(if n == Some(false) then 1 else 0, A.U32_MAX))
    case Loop(x, lo, hi) =>
      var a := InfoOf(x);
      if !a.known then a
      else
        Known(a.interpreted, if lo == 0 then Some(true) else a.nullable,
              A.RepeatRange(a.len, lo, if hi.Some? then hi.value else A.U32_MAX))
    case Diff(x, y) =>
      var a, b := InfoOf(x), InfoOf(y);
      if !a.known then a
      else if !b.known then b
      else
        Known(a.interpreted && b.interpreted, NullableDiff(a.nullable, b.nullable), a.len)
    case Ite(_, x, y) =>
      var a, b := InfoOf(x), InfoOf(y);
      if !a.known then a
      else if !b.known then b
      else Known(false, NullableElse(a.nullable, b.nullable), A.Unite(a.len, b.len))
    case ReVar(_) => UNKNOWN
  }

  // ----- soundness -----

  /** Every word of a length the abstraction can speak about has a length it allows. */
  ghost predicate LengthsIn(a: L.Lang, len: A.LenAbs)
    requires len.Ok()
  {
    forall w :: w in a && |w| <= A.U32_MAX ==> len.Has(|w|)
  }

  ghost predicate NullableOk(a: L.Lang, nullable: Option<bool>) {
    nullable.Some? ==> (nullable.value <==> [] in a)
  }

  lemma {:induction false} TopLengths(a: L.Lang)
    ensures LengthsIn(a, A.TOP)
  {
  }

  lemma {:induction false} CatLengths(a: L.Lang, b: L.Lang, x: A.LenAbs, y: A.LenAbs)
    requires x.Ok() && y.Ok() && LengthsIn(a, x) && LengthsIn(b, y)
    ensures LengthsIn(L.Cat(a, b), A.Concat(x, y))
  {
    forall w | w in L.Cat(a, b) && |w| <= A.U32_MAX ensures A.Concat(x, y).Has(|w|) {
      var i: nat :| L.Split(a, b, w, i);
      A.ConcatSound(x, y, |w[..i]|, |w[i..]|);
    }
  }

  lemma {:induction false} PowLengths(a: L.Lang, x: A.LenAbs, k: nat, w: L.Word)
    requires x.Ok() && LengthsIn(a, x) && w in L.Pow(a, k) && |w| <= A.U32_MAX
    ensures A.SumOf(x, k, |w|)
    decreases k
  {
    if k > 0 {
      var i: nat :| L.Split(a, L.Pow(a, k - 1), w, i);
      PowLengths(a, x, k - 1, w[i..]);
      assert x.Has(|w[..i]|) && A.SumOf(x, k - 1, |w| - i);
    }
  }

  lemma {:induction false} RepLengths(a: L.Lang, x: A.LenAbs, lo: nat, hi: Option<nat>)
    requires x.Ok() && LengthsIn(a, x)
    ensures LengthsIn(L.Rep(a, lo, hi), A.RepeatRange(x, lo, if hi.Some? then hi.value else A.U32_MAX))
  {
    var upper := if hi.Some? then hi.value else A.U32_MAX;
    forall w | w in L.Rep(a, lo, hi) && |w| <= A.U32_MAX ensures A.RepeatRange(x, lo, upper).Has(|w|) {
      var k := L.RepElim(a, lo, hi, w);
      PowLengths(a, x, k, w);
      A.RepeatRangeSound(x, lo, upper, k, |w|);
    }
  }

  lemma {:induction false} StarLengths(a: L.Lang, x: A.LenAbs)
    requires x.Ok() && LengthsIn(a, x)
    ensures LengthsIn(L.Star(a), A.Star(x)) && LengthsIn(L.Plus(a), A.Plus(x))
  {
    forall w | w in L.Star(a) && |w| <= A.U32_MAX ensures A.Star(x).Has(|w|) {
      var k := L.RepElim(a, 0, None, w);
      PowLengths(a, x, k, w);
      A.RepeatSound(x, k, |w|, 0);
    }
    forall w | w in L.Plus(a) && |w| <= A.U32_MAX ensures A.Plus(x).Has(|w|) {
      var k := L.RepElim(a, 1, None, w);
      PowLengths(a, x, k, w);
      A.SumOfSound(x, k, |w|);
      A.ProductMono(x.lo, 1, k);
      A.RepeatSound(x, k, |w|, x.lo);
    }
  }

  lemma {:induction false} UniteLengths(a: L.Lang, b: L.Lang, x: A.LenAbs, y: A.LenAbs)
    requires x.Ok() && y.Ok() && LengthsIn(a, x) && LengthsIn(b, y)
    ensures LengthsIn(a + b, A.Unite(x, y)) && LengthsIn(a * b, A.Meet(x, y))
  {
    forall w | w in a + b && |w| <= A.U32_MAX ensures A.Unite(x, y).Has(|w|) {
      A.UniteSound(x, y, |w|);
    }
    forall w | w in a * b && |w| <= A.U32_MAX ensures A.Meet(x, y).Has(|w|) {
      A.MeetSound(x, y, |w|);
    }
  }

  lemma {:induction false} OptLengths(a: L.Lang, x: A.LenAbs)
    requires x.Ok() && LengthsIn(a, x)
    ensures LengthsIn(L.EPS + a, A.Opt(x))
  {
    forall w | w in L.EPS + a && |w| <= A.U32_MAX ensures A.Opt(x).Has(|w|) {
      A.OptSound(x, |w|);
    }
  }

  /** A definite nullability is right. */
  lemma {:induction false} NullableSound(r: Regex, env: Env)
    requires LoopsOk(r)
    ensures NullableOk(Denote(r, env), InfoOf(r).nullable)
    decreases r, 1
  {
    match r
    case Concat(x, y) => NullableBinary(r, x, y, env);
    case Union(x, y) => NullableBinary(r, x, y, env);
    case Inter(x, y) => NullableBinary(r, x, y, env);
    case Diff(x, y) => NullableBinary(r, x, y, env);
    case Ite(_, x, y) => NullableBinary(r, x, y, env);
    case Star(x) => NullableUnary(r, x, env);
    case Plus(x) => NullableUnary(r, x, env);
    case Opt(x) => NullableUnary(r, x, env);
    case Comp(x) => NullableUnary(r, x, env);
    case Loop(x, lo, hi) => NullableUnary(r, x, env);
    case _ => NullableLeaf(r, env);
  }

  lemma {:induction false} NullableLeaf(r: Regex, env: Env)
    requires r.ToRe? || r.ReNone? || r.ReAll? || r.AllChar? || r.Range? || r.ReVar?
    ensures NullableOk(Denote(r, env), InfoOf(r).nullable)
  {
  }

  /** The nullabilities of the parts combine as the languages do. */
  lemma {:induction false} NullableCombine(a: L.Lang, b: L.Lang, m: Option<bool>, n: Option<bool>)
    requires NullableOk(a, m) && NullableOk(b, n)
    ensures NullableOk(L.Cat(a, b), NullableConcat(m, n)) && NullableOk(a + b, NullableOr(m, n))
    ensures NullableOk(a * b, NullableAnd(m, n)) && NullableOk(a - b, NullableDiff(m, n))
    ensures NullableOk(a, NullableElse(m, n)) && NullableOk(b, NullableElse(m, n))
  {
    L.EmptyInCat(a, b);
  }

  lemma {:induction false} NullableBinary(r: Regex, x: Regex, y: Regex, env: Env)
    requires LoopsOk(r)
    requires r == Concat(x, y) || r == Union(x, y) || r == Inter(x, y) || r == Diff(x, y) || (r.Ite? && r.a == x && r.b == y)
    ensures NullableOk(Denote(r, env), InfoOf(r).nullable)
    decreases r, 0
  {
    UnknownIsTop(r);
    if InfoOf(r).known {
      NullableSound(x, env);
      NullableSound(y, env);
      NullableCombine(Denote(x, env), Denote(y, env), InfoOf(x).nullable, InfoOf(y).nullable);
      match r
      case Concat(_, _) => assert Denote(r, env) == L.Cat(Denote(x, env), Denote(y, env));
      case Union(_, _) => assert Denote(r, env) == Denote(x, env) + Denote(y, env);
      case Inter(_, _) => assert Denote(r, env) == Denote(x, env) * Denote(y, env);
      case Diff(_, _) => assert Denote(r, env) == Denote(x, env) - Denote(y, env);
      case Ite(_, _, _) => assert Denote(r, env) == Denote(x, env) || Denote(r, env) == Denote(y, env);
    }
  }

  lemma {:induction false} NullableUnary(r: Regex, x: Regex, env: Env)
    requires LoopsOk(r)
    requires r == Star(x) || r == Plus(x) || r == Opt(x) || r == Comp(x) || (r.Loop? && r.a == x)
    ensures NullableOk(Denote(r, env), InfoOf(r).nullable)
    decreases r, 0
  {
    UnknownIsTop(r);
    if InfoOf(r).known {
      NullableSound(x, env);
      var a := Denote(x, env);
      match r
      case Star(_) => L.StarHas(a);
      case Plus(_) => L.EmptyInRep(a, 1, None);
      case Loop(_, lo, hi) => L.EmptyInRep(a, lo, hi);
      case _ =>
    }
  }

  /** Every length is one the abstraction allows. */
  lemma {:induction false} LengthsSound(r: Regex, env: Env)
    requires LoopsOk(r)
    ensures LengthsIn(Denote(r, env), InfoOf(r).len)
  {
    UnknownIsTop(r);
    TopLengths(Denote(r, env));
    if InfoOf(r).known {
      match r
      case Concat(x, y) =>
        LengthsSound(x, env);
        LengthsSound(y, env);
        CatLengths(Denote(x, env), Denote(y, env), InfoOf(x).len, InfoOf(y).len);
      case Union(x, y) =>
        LengthsSound(x, env);
        LengthsSound(y, env);
        UniteLengths(Denote(x, env), Denote(y, env), InfoOf(x).len, InfoOf(y).len);
      case Inter(x, y) =>
        LengthsSound(x, env);
        LengthsSound(y, env);
        UniteLengths(Denote(x, env), Denote(y, env), InfoOf(x).len, InfoOf(y).len);
      case Diff(x, y) =>
        LengthsSound(x, env);
      case Ite(_, x, y) =>
        LengthsSound(x, env);
        LengthsSound(y, env);
        UniteLengths(Denote(x, env), Denote(y, env), InfoOf(x).len, InfoOf(y).len);
      case Star(x) =>
        LengthsSound(x, env);
        StarLengths(Denote(x, env), InfoOf(x).len);
      case Plus(x) =>
        LengthsSound(x, env);
        StarLengths(Denote(x, env), InfoOf(x).len);
      case Opt(x) =>
        LengthsSound(x, env);
        OptLengths(Denote(x, env), InfoOf(x).len);
      case Comp(x) =>
        NullableSound(r, env);
      case Loop(x, lo, hi) =>
        LengthsSound(x, env);
        RepLengths(Denote(x, env), InfoOf(x).len, lo, hi);
      case _ =>
        LeafLengths(r, env);
    }
  }

  lemma {:induction false} LeafLengths(r: Regex, env: Env)
    requires r.ToRe? || r.ReNone? || r.ReAll? || r.AllChar? || r.Range?
    ensures LengthsIn(Denote(r, env), InfoOf(r).len)
  {
    if r.ToRe? && r.s.Lit? && |r.s.s| <= A.U32_MAX {
      assert |r.s.s| % 0x1_0000_0000 == |r.s.s|;
    }
  }

  lemma {:induction false} UnknownIsTop(r: Regex)
    ensures !InfoOf(r).known ==> InfoOf(r) == UNKNOWN
  {
    match r
    case Concat(x, y) =>
      UnknownIsTop(x);
      UnknownIsTop(y);
    case Union(x, y) =>
      UnknownIsTop(x);
      UnknownIsTop(y);
    case Inter(x, y) =>
      UnknownIsTop(x);
      UnknownIsTop(y);
    case Diff(x, y) =>
      UnknownIsTop(x);
      UnknownIsTop(y);
    case Ite(_, x, y) =>
      UnknownIsTop(x);
      UnknownIsTop(y);
    case Plus(x) =>
      UnknownIsTop(x);
    case Comp(x) =>
      UnknownIsTop(x);
    case Loop(x, _, _) =>
      UnknownIsTop(x);
    case _ =>
  }

  /** No accepted word is shorter than the minimum length. */
  lemma {:induction false} MinLengthSound(r: Regex, env: Env, w: L.Word)
    requires LoopsOk(r) && w in Denote(r, env)
    ensures InfoOf(r).MinLength() <= |w|
  {
    LengthsSound(r, env);
  }

  /** The nullability of a loop is right if and only if its bounds are not crossed, or its body does not count as nullable. */
  lemma {:induction false} LoopNullableIff(a: Regex, lo: nat, hi: Option<nat>)
    requires LoopsOk(a)
    ensures (forall env :: NullableOk(Denote(Loop(a, lo, hi), env), InfoOf(Loop(a, lo, hi)).nullable))
      <==> hi.None? || lo <= hi.value || InfoOf(a).nullable != Some(true)
  {
    var r := Loop(a, lo, hi);
    if hi.None? || lo <= hi.value {
      forall env ensures NullableOk(Denote(r, env), InfoOf(r).nullable) {
        NullableSound(r, env);
      }
    } else {
      forall env ensures NullableOk(Denote(r, env), InfoOf(r).nullable) <==> InfoOf(a).nullable != Some(true) {
        CrossedNullable(a, lo, hi.value, env);
      }
      var env: Env :| true;
      assert NullableOk(Denote(r, env), InfoOf(r).nullable) <==> InfoOf(a).nullable != Some(true);
    }
  }

  lemma {:induction false} CrossedNullable(a: Regex, lo: nat, hi: nat, env: Env)
    requires hi < lo
    ensures NullableOk(Denote(Loop(a, lo, Some(hi)), env), InfoOf(Loop(a, lo, Some(hi))).nullable)
      <==> InfoOf(a).nullable != Some(true)
  {
    UnknownIsTop(a);
    L.RepEmpty(Denote(a, env), lo, hi);
  }

  /** So a loop with crossed bounds, which accepts nothing, counts as nullable over any nullable body. */
  lemma {:induction false} CrossedLoopUnsound(env: Env)
    ensures var r := Loop(Star(AllChar), 3, Some(2));
      InfoOf(r).nullable == Some(true) && [] !in Denote(r, env)
  {
    L.RepEmpty(Denote(Star(AllChar), env), 3, 2);
  }
}
