/** Brzozowski derivatives on the arena: each is the left quotient of its regex. */
module RegexDerivatives {
  import opened Options
  import opened RegexTerms
  import opened RegexArena
  import opened RegexLaws
  import opened RegexRewriter
  import opened RegexMembership
  import L = Languages

  /** `x` denotes what is left of the words of `t` that start with `c`. */
  ghost predicate IsQuot(x: Regex, t: Regex, c: Char) {
    forall env :: Denote(x, env) == L.Quot(Denote(t, env), c)
  }

  /** The derivatives kept so far are right. */
  ghost predicate DerivativesOk(memo: map<(Id, Char), Id>, trees: seq<Regex>) {
    forall k :: k in memo ==>
      k.0 < |trees| && memo[k] < |trees| && LoopsOk(trees[memo[k]]) && QuotOfKnown(trees[memo[k]], trees[k.0], k.1)
  }

  ghost predicate QuotOfKnown(x: Regex, t: Regex, c: Char) {
    RangesKnown(t, c) ==> IsQuot(x, t, c)
  }

  // ----- ranges whose bounds are not literals -----

  /** Literal bounds, or a literal bound that alone keeps the character out. */
  predicate BoundsTell(from: Str, to: Str, c: Char) {
    || (from.Lit? && to.Lit?)
    || (from.Lit? && (|from.s| != 1 || c < from.s[0]))
    || (to.Lit? && (|to.s| != 1 || to.s[0] < c))
  }

  /** The bounds tell for each range the derivative by the character looks at. */
  ghost predicate RangesKnown(t: Regex, c: Char) {
    match t
    case Range(from, to) => BoundsTell(from, to, c)
    case Concat(a, b) => RangesKnown(a, c) && (RangesKnown(b, c) || forall env :: [] !in Denote(a, env))
    case Union(a, b) => RangesKnown(a, c) && RangesKnown(b, c)
    case Inter(a, b) => RangesKnown(a, c) && RangesKnown(b, c)
    case Diff(a, b) => RangesKnown(a, c) && RangesKnown(b, c)
    case Star(a) => RangesKnown(a, c)
    case Plus(a) => RangesKnown(a, c)
    case Opt(a) => RangesKnown(a, c)
    case Comp(a) => RangesKnown(a, c)
    case Loop(a, _, hi) => hi == Some(0) || RangesKnown(a, c)
    case _ => true
  }

  lemma {:induction false} MatchableKnown(t: Regex, c: Char)
    requires Matchable(t)
    ensures RangesKnown(t, c)
  {
    match t
    case Concat(a, b) =>
      MatchableKnown(a, c);
      MatchableKnown(b, c);
    case Union(a, b) =>
      MatchableKnown(a, c);
      MatchableKnown(b, c);
    case Inter(a, b) =>
      MatchableKnown(a, c);
      MatchableKnown(b, c);
    case Diff(a, b) =>
      MatchableKnown(a, c);
      MatchableKnown(b, c);
    case Star(a) => MatchableKnown(a, c);
    case Plus(a) => MatchableKnown(a, c);
    case Opt(a) => MatchableKnown(a, c);
    case Comp(a) => MatchableKnown(a, c);
    case Loop(a, _, _) => MatchableKnown(a, c);
    case _ =>
  }

  /** The derivative of a range is its quotient if and only if its bounds tell. */
  lemma {:induction false} RangeQuotIff(from: Str, to: Str, c: Char)
    ensures IsQuot(LeafQuot(Range(from, to), c), Range(from, to), c) <==> BoundsTell(from, to, c)
  {
    var t := Range(from, to);
    if BoundsTell(from, to, c) {
      LeafQuotRight(t, c);
    } else {
      var env := Env(_ => [c], _ => L.NOTHING, _ => false);
      assert [c] in Denote(t, env) && [c] == [c] + [];
      assert [] in L.Quot(Denote(t, env), c) && [] !in Denote(ReNone, env);
    }
  }

  /** A range between two variables counts as empty, although it may hold the character. */
  lemma {:induction false} OpenRangeMissed(x: string, y: string, c: Char)
    ensures LeafQuot(Range(StrVar(x), StrVar(y)), c) == ReNone
    ensures !IsQuot(ReNone, Range(StrVar(x), StrVar(y)), c)
  {
    RangeQuotIff(StrVar(x), StrVar(y), c);
  }

  // ----- one law an operator -----

  lemma {:induction false} QuotSame(x: Regex, y: Regex, t: Regex, c: Char)
    requires Same(x, y) && IsQuot(y, t, c)
    ensures IsQuot(x, t, c)
  {
    forall env ensures Denote(x, env) == L.Quot(Denote(t, env), c) {
      assert Denote(x, env) == Denote(y, env);
    }
  }

  function LeafQuot(t: Regex, c: Char): Regex
    requires Childless(t)
  {
    match t
    case ReAll => ReAll
    case AllChar => EPSILON
    case Range(_, _) =>
      var p := CharRange(t);
      if p.Some? && p.value.0 <= c <= p.value.1 then EPSILON else ReNone
    case ToRe(s) => if s.Lit? && |s.s| > 0 && s.s[0] == c then ToRe(Lit(s.s[1..])) else ReNone
    case _ => ReNone
  }

  lemma {:induction false} LeafQuotRight(t: Regex, c: Char)
    requires Childless(t) && !t.ReVar? && (t.ToRe? ==> t.s.Lit?) && RangesKnown(t, c)
    ensures IsQuot(LeafQuot(t, c), t, c)
  {
    forall env, w: Word ensures w in Denote(LeafQuot(t, c), env) <==> w in L.Quot(Denote(t, env), c) {
      LeafQuotAt(t, c, env, w);
    }
  }

  lemma {:induction false} LeafQuotAt(t: Regex, c: Char, env: Env, w: Word)
    requires Childless(t) && !t.ReVar? && (t.ToRe? ==> t.s.Lit?) && RangesKnown(t, c)
    ensures w in Denote(LeafQuot(t, c), env) <==> [c] + w in Denote(t, env)
  {
    EpsilonMeans(EPSILON, env);
    var cw := [c] + w;
    assert cw[0] == c && cw[1..] == w && |cw| == 1 + |w|;
    if t.ToRe? && |t.s.s| > 0 {
      assert t.s.s == [t.s.s[0]] + t.s.s[1..];
    }
  }

  lemma {:induction false} SetQuotRight(op: BinOp, x: Regex, y: Regex, a: Regex, b: Regex, c: Char)
    requires op != ConcatOp && IsQuot(x, a, c) && IsQuot(y, b, c)
    ensures IsQuot(Apply2(op, x, y), Apply2(op, a, b), c)
  {
    forall env ensures Denote(Apply2(op, x, y), env) == L.Quot(Denote(Apply2(op, a, b), env), c) {
      assert Denote(x, env) == L.Quot(Denote(a, env), c) && Denote(y, env) == L.Quot(Denote(b, env), c);
      QuotOfSets(Denote(a, env), Denote(b, env), c);
    }
  }

  lemma {:induction false} QuotOfSets(a: L.Lang, b: L.Lang, c: Char)
    ensures L.Quot(a + b, c) == L.Quot(a, c) + L.Quot(b, c)
    ensures L.Quot(a * b, c) == L.Quot(a, c) * L.Quot(b, c)
    ensures L.Quot(a - b, c) == L.Quot(a, c) - L.Quot(b, c)
  {
  }

  lemma {:induction false} CompQuotRight(x: Regex, a: Regex, c: Char)
    requires IsQuot(x, a, c)
    ensures IsQuot(Comp(x), Comp(a), c)
  {
    forall env ensures Denote(Comp(x), env) == L.Quot(Denote(Comp(a), env), c) {
      assert Denote(x, env) == L.Quot(Denote(a, env), c);
    }
  }

  lemma {:induction false} OptQuotRight(x: Regex, a: Regex, c: Char)
    requires IsQuot(x, a, c)
    ensures IsQuot(x, Opt(a), c)
  {
    forall env ensures Denote(x, env) == L.Quot(Denote(Opt(a), env), c) {
      assert Denote(x, env) == L.Quot(Denote(a, env), c);
      QuotOfOpt(Denote(a, env), c);
    }
  }

  lemma {:induction false} QuotOfOpt(a: L.Lang, c: Char)
    ensures L.Quot(L.EPS + a, c) == L.Quot(a, c)
  {
  }

  lemma {:induction false} ConcatQuotRight(x: Regex, y: Regex, a: Regex, b: Regex, c: Char, nullable: bool)
    requires IsQuot(x, a, c) && (nullable ==> IsQuot(y, b, c))
    requires forall env :: nullable <==> [] in Denote(a, env)
    ensures IsQuot(if nullable then Union(Concat(x, b), y) else Concat(x, b), Concat(a, b), c)
  {
    var q := if nullable then Union(Concat(x, b), y) else Concat(x, b);
    forall env ensures Denote(q, env) == L.Quot(Denote(Concat(a, b), env), c) {
      L.QuotCat(Denote(a, env), Denote(b, env), c);
      assert Denote(x, env) == L.Quot(Denote(a, env), c);
      assert nullable <==> [] in Denote(a, env);
      if nullable {
        assert Denote(y, env) == L.Quot(Denote(b, env), c);
      }
    }
  }

  lemma {:induction false} ConcatLeftRight(q: Regex, x: Regex, a: Regex, b: Regex, c: Char)
    requires QuotOfKnown(x, a, c) && Same(q, Concat(x, b)) && forall env :: [] !in Denote(a, env)
    ensures QuotOfKnown(q, Concat(a, b), c)
  {
    if RangesKnown(Concat(a, b), c) {
      ConcatQuotRight(x, x, a, b, c, false);
      QuotSame(q, Concat(x, b), Concat(a, b), c);
    }
  }

  lemma {:induction false} ConcatBothRight(q: Regex, left: Regex, x: Regex, y: Regex, a: Regex, b: Regex, c: Char)
    requires QuotOfKnown(x, a, c) && QuotOfKnown(y, b, c) && forall env :: [] in Denote(a, env)
    requires Same(left, Concat(x, b)) && Same(q, Union(left, y))
    ensures QuotOfKnown(q, Concat(a, b), c)
  {
    if RangesKnown(Concat(a, b), c) {
      var env := Env(_ => [], _ => L.NOTHING, _ => false);
      assert [] in Denote(a, env);
      ConcatQuotRight(x, y, a, b, c, true);
      ReplaceUnion(left, y, Concat(x, b), y);
      QuotSame(q, Union(Concat(x, b), y), Concat(a, b), c);
    }
  }

  /** The repetitions that remain after the first. */
  function RestOf(op: UnOp, a: Regex): Regex
    requires op.StarOp? || op.PlusOp? || op.LoopOp?
  {
    if op.LoopOp? then
      Loop(a, if op.lo == 0 then 0 else op.lo - 1, if op.hi.Some? && op.hi.value > 0 then Some(op.hi.value - 1) else op.hi)
    else Star(a)
  }

  lemma {:induction false} RepeatQuotRight(op: UnOp, x: Regex, a: Regex, c: Char)
    requires (op.StarOp? || op.PlusOp? || op.LoopOp?) && IsQuot(x, a, c) && (op.LoopOp? ==> op.hi != Some(0))
    ensures IsQuot(Concat(x, RestOf(op, a)), Apply1(op, a), c)
  {
    forall env ensures Denote(Concat(x, RestOf(op, a)), env) == L.Quot(Denote(Apply1(op, a), env), c) {
      assert Denote(x, env) == L.Quot(Denote(a, env), c);
      match op
      case LoopOp(lo, hi) => L.QuotRep(Denote(a, env), lo, hi, c);
      case StarOp => L.QuotRep(Denote(a, env), 0, None, c);
      case PlusOp => L.QuotRep(Denote(a, env), 1, None, c);
      case _ =>
    }
  }

  lemma {:induction false} NoRepeatQuot(a: Regex, c: Char)
    ensures IsQuot(ReNone, Loop(a, 0, Some(0)), c)
  {
    forall env ensures L.NOTHING == L.Quot(Denote(Loop(a, 0, Some(0)), env), c) {
      L.RepSingle(Denote(a, env), 0);
      L.QuotEps(c);
    }
  }

  // ----- the derivative -----

  /** The derivative of `t` by `c`, when there is one. */
  method Derivative(re: ReSimp, t: Id, c: Char, fuel: nat, memo: map<(Id, Char), Id>)
    returns (d: Option<Id>, memo': map<(Id, Char), Id>)
    requires re.Valid() && re.Has(t) && DerivativesOk(memo, re.trees)
    modifies re
    ensures re.Valid() && re.Kept(old(re.nodes), old(re.trees)) && DerivativesOk(memo', re.trees)
    ensures d.Some? ==> re.Has(d.value) && QuotOfKnown(re.trees[d.value], old(re.trees)[t], c)
    ensures Matchable(old(re.trees)[t]) ==> d.Some?
    decreases Size(re.trees[t]), 1
  {
    if (t, c) in memo {
      return Some(memo[(t, c)]), memo;
    }
    var none := re.RawLeaf(ReNone);
    var eps := re.Eps();
    d, memo' := NodeDerivative(re, t, c, fuel, memo);
    match d
    case Some(x) => memo' := memo'[(t, c) := x];
    case None =>
  }

  method NodeDerivative(re: ReSimp, t: Id, c: Char, fuel: nat, memo: map<(Id, Char), Id>)
    returns (d: Option<Id>, memo': map<(Id, Char), Id>)
    requires re.Valid() && re.Has(t) && DerivativesOk(memo, re.trees)
    modifies re
    ensures re.Valid() && re.Kept(old(re.nodes), old(re.trees)) && DerivativesOk(memo', re.trees)
    ensures d.Some? ==> re.Has(d.value) && QuotOfKnown(re.trees[d.value], old(re.trees)[t], c)
    ensures Matchable(old(re.trees)[t]) ==> d.Some?
    decreases Size(re.trees[t]), 0
  {
    memo' := memo;
    re.Look(t);
    match re.nodes[t]
    case Leaf(leaf) =>
      d := LeafDerivative(re, leaf, c);
    case Un(op, a) =>
      d, memo' := UnDerivative(re, op, a, c, fuel, memo);
    case Bin(op, a, b) =>
      if op.ConcatOp? {
        d, memo' := ConcatDerivative(re, a, b, c, fuel, memo);
      } else {
        d, memo' := SetDerivative(re, op, a, b, c, fuel, memo);
      }
    case IteNode(_, _, _) =>
      d := None;
  }

  method LeafDerivative(re: ReSimp, leaf: Regex, c: Char) returns (d: Option<Id>)
    requires re.Valid() && Childless(leaf)
    modifies re
    ensures re.Valid() && re.Kept(old(re.nodes), old(re.trees)) && re.memo == old(re.memo)
    ensures d.Some? ==> re.Has(d.value) && QuotOfKnown(re.trees[d.value], leaf, c)
    ensures Matchable(leaf) ==> d.Some?
  {
    if leaf.ReVar? || (leaf.ToRe? && !leaf.s.Lit?) {
      return None;
    }
    var id := re.RawLeaf(LeafQuot(leaf, c));
    if RangesKnown(leaf, c) {
      LeafQuotRight(leaf, c);
    }
    d := Some(id);
  }

  method ConcatDerivative(re: ReSimp, a: Id, b: Id, c: Char, fuel: nat, memo: map<(Id, Char), Id>)
    returns (d: Option<Id>, memo': map<(Id, Char), Id>)
    requires re.Valid() && re.Has(a) && re.Has(b) && DerivativesOk(memo, re.trees)
    modifies re
    ensures re.Valid() && re.Kept(old(re.nodes), old(re.trees)) && DerivativesOk(memo', re.trees)
    ensures d.Some? ==> re.Has(d.value) && QuotOfKnown(re.trees[d.value], Concat(old(re.trees)[a], old(re.trees)[b]), c)
    ensures Matchable(old(re.trees)[a]) && Matchable(old(re.trees)[b]) ==> d.Some?
    decreases Size(re.trees[a]) + Size(re.trees[b]), 2
  {
    ghost var ta, tb := re.trees[a], re.trees[b];
    var da;
    da, memo' := Derivative(re, a, c, fuel, memo);
    if da.None? {
      return None, memo';
    }
    ghost var x := re.trees[da.value];
    var left := re.MkReAppend(da.value, b, fuel);
    ghost var tl := re.trees[left];
    var nullable := GroundMember(re, [], a);
    if nullable.None? {
      return None, memo';
    }
    if !nullable.value {
      ConcatLeftRight(tl, x, ta, tb, c);
      return Some(left), memo';
    }
    var db;
    db, memo' := Derivative(re, b, c, fuel, memo');
    if db.None? {
      return None, memo';
    }
    ghost var y := re.trees[db.value];
    var u := re.MkUnion(left, db.value);
    ConcatBothRight(re.trees[u], tl, x, y, ta, tb, c);
    d := Some(u);
  }

  method SetDerivative(re: ReSimp, op: BinOp, a: Id, b: Id, c: Char, fuel: nat, memo: map<(Id, Char), Id>)
    returns (d: Option<Id>, memo': map<(Id, Char), Id>)
    requires re.Valid() && re.Has(a) && re.Has(b) && op != ConcatOp && DerivativesOk(memo, re.trees)
    modifies re
    ensures re.Valid() && re.Kept(old(re.nodes), old(re.trees)) && DerivativesOk(memo', re.trees)
    ensures d.Some? ==>
      re.Has(d.value) && QuotOfKnown(re.trees[d.value], Apply2(op, old(re.trees)[a], old(re.trees)[b]), c)
    ensures Matchable(old(re.trees)[a]) && Matchable(old(re.trees)[b]) ==> d.Some?
    decreases Size(re.trees[a]) + Size(re.trees[b]), 2
  {
    ghost var ta, tb := re.trees[a], re.trees[b];
    var da, db;
    da, memo' := Derivative(re, a, c, fuel, memo);
    if da.None? {
      return None, memo';
    }
    ghost var x := re.trees[da.value];
    db, memo' := Derivative(re, b, c, fuel, memo');
    if db.None? {
      return None, memo';
    }
    ghost var y := re.trees[db.value];
    var u := re.MkBin(op, da.value, db.value, fuel);
    if RangesKnown(Apply2(op, ta, tb), c) {
      SetQuotRight(op, x, y, ta, tb, c);
      QuotSame(re.trees[u], Apply2(op, x, y), Apply2(op, ta, tb), c);
    }
    d := Some(u);
  }

  method UnDerivative(re: ReSimp, op: UnOp, a: Id, c: Char, fuel: nat, memo: map<(Id, Char), Id>)
    returns (d: Option<Id>, memo': map<(Id, Char), Id>)
    requires re.Valid() && re.Has(a) && LoopsOk(Apply1(op, re.trees[a])) && DerivativesOk(memo, re.trees)
    modifies re
    ensures re.Valid() && re.Kept(old(re.nodes), old(re.trees)) && DerivativesOk(memo', re.trees)
    ensures d.Some? ==> re.Has(d.value) && QuotOfKnown(re.trees[d.value], Apply1(op, old(re.trees)[a]), c)
    ensures Matchable(old(re.trees)[a]) ==> d.Some?
    decreases Size(re.trees[a]), 2
  {
    ghost var ta := re.trees[a];
    if op.LoopOp? && op.hi == Some(0) {
      var none := re.RawLeaf(ReNone);
      NoRepeatQuot(ta, c);
      return Some(none), memo;
    }
    var da;
    da, memo' := Derivative(re, a, c, fuel, memo);
    if da.None? || op.OptOp? {
      if da.Some? && RangesKnown(ta, c) {
        OptQuotRight(re.trees[da.value], ta, c);
      }
      return da, memo';
    }
    ghost var x := re.trees[da.value];
    var id: Id;
    if op.CompOp? {
      id := re.MkComplement(da.value);
      if RangesKnown(ta, c) {
        CompQuotRight(x, ta, c);
        QuotSame(re.trees[id], Comp(x), Comp(ta), c);
      }
    } else {
      var rest := MkRest(re, op, a);
      ghost var y := re.trees[rest];
      id := re.MkReAppend(da.value, rest, fuel);
      if RangesKnown(ta, c) {
        RepeatQuotRight(op, x, ta, c);
        ReplaceConcat(x, y, x, RestOf(op, ta));
        QuotSame(re.trees[id], Concat(x, RestOf(op, ta)), Apply1(op, ta), c);
      }
    }
    d := Some(id);
  }

  method MkRest(re: ReSimp, op: UnOp, a: Id) returns (r: Id)
    requires re.Valid() && re.Has(a) && (op.StarOp? || op.PlusOp? || op.LoopOp?) && (op.LoopOp? ==> op.hi != Some(0))
    modifies re
    ensures re.Valid() && re.Kept(old(re.nodes), old(re.trees)) && re.memo == old(re.memo)
    ensures re.Means(r, RestOf(op, old(re.trees)[a]))
  {
    if op.LoopOp? {
      r := re.MkLoop(a, if op.lo == 0 then 0 else op.lo - 1, if op.hi.Some? then Some(op.hi.value - 1) else None);
    } else {
      r := re.MkStar(a);
    }
  }
}
