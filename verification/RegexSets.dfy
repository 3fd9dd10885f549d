/** Unions and intersections of many regexes: what the sorted merge of two normal forms keeps. */
module RegexSets {
  import opened Options
  import opened RegexTerms
  import opened RegexInfo
  import opened RegexLaws
  import opened RegexSubset
  import R = CharRanges
  import L = Languages

  /** The union, or else the intersection. */
  function SetOf(union: bool, a: Regex, b: Regex): Regex {
    if union then Union(a, b) else Inter(a, b)
  }

  ghost predicate JoinedHas(rs: seq<Regex>, union: bool, env: Env, w: Word) {
    if union then exists i :: 0 <= i < |rs| && w in Denote(rs[i], env)
    else forall i :: 0 <= i < |rs| ==> w in Denote(rs[i], env)
  }

  lemma {:induction false} JoinedPush(rs: seq<Regex>, p: Regex, union: bool, env: Env, w: Word)
    ensures JoinedHas(rs + [p], union, env, w) <==>
      if union then JoinedHas(rs, union, env, w) || w in Denote(p, env)
      else JoinedHas(rs, union, env, w) && w in Denote(p, env)
  {
    var all := rs + [p];
    assert all[|rs|] == p && forall i :: 0 <= i < |rs| ==> all[i] == rs[i];
    if union && JoinedHas(rs, union, env, w) {
      var i :| 0 <= i < |rs| && w in Denote(rs[i], env);
      assert w in Denote(all[i], env);
    }
    if !union && JoinedHas(all, union, env, w) {
      forall i | 0 <= i < |rs| ensures w in Denote(rs[i], env) {
        assert w in Denote(all[i], env);
      }
    }
  }

  /** What is set aside in `rs`, with `x` and `y` still to merge, amounts to the whole of `all`. */
  ghost predicate Remains(rs: seq<Regex>, union: bool, x: Regex, y: Regex, all: Regex) {
    forall env, w :: RemainsAt(rs, union, x, y, all, env, w)
  }

  ghost predicate RemainsAt(rs: seq<Regex>, union: bool, x: Regex, y: Regex, all: Regex, env: Env, w: Word) {
    w in Denote(all, env) <==>
    if union then JoinedHas(rs, union, env, w) || w in Denote(x, env) || w in Denote(y, env)
    else JoinedHas(rs, union, env, w) && w in Denote(x, env) && w in Denote(y, env)
  }

  lemma {:induction false} RemainsStart(union: bool, x: Regex, y: Regex)
    ensures Remains([], union, x, y, SetOf(union, x, y))
  {
  }

  lemma {:induction false} RemainsSwap(rs: seq<Regex>, union: bool, x: Regex, y: Regex, all: Regex)
    requires Remains(rs, union, x, y, all)
    ensures Remains(rs, union, y, x, all)
  {
    forall env, w ensures RemainsAt(rs, union, y, x, all, env, w) {
      assert RemainsAt(rs, union, x, y, all, env, w);
    }
  }

  lemma {:induction false} SetMeans(union: bool, p: Regex, x: Regex, env: Env, w: Word)
    ensures w in Denote(SetOf(union, p, x), env) <==>
      if union then w in Denote(p, env) || w in Denote(x, env) else w in Denote(p, env) && w in Denote(x, env)
  {
  }

  /** Set the head of `x` aside. */
  lemma {:induction false} RemainsPush(rs: seq<Regex>, union: bool, p: Regex, x: Regex, y: Regex, all: Regex)
    requires Remains(rs, union, SetOf(union, p, x), y, all)
    ensures Remains(rs + [p], union, x, y, all)
  {
    forall env, w ensures RemainsAt(rs + [p], union, x, y, all, env, w) {
      assert RemainsAt(rs, union, SetOf(union, p, x), y, all, env, w);
      SetMeans(union, p, x, env, w);
      JoinedPush(rs, p, union, env, w);
    }
  }

  /** Set the common head of `x` and `y` aside. */
  lemma {:induction false} RemainsPushBoth(rs: seq<Regex>, union: bool, p: Regex, x: Regex, y: Regex, all: Regex)
    requires Remains(rs, union, SetOf(union, p, x), SetOf(union, p, y), all)
    ensures Remains(rs + [p], union, x, y, all)
  {
    forall env, w ensures RemainsAt(rs + [p], union, x, y, all, env, w) {
      assert RemainsAt(rs, union, SetOf(union, p, x), SetOf(union, p, y), all, env, w);
      SetMeans(union, p, x, env, w);
      SetMeans(union, p, y, env, w);
      JoinedPush(rs, p, union, env, w);
    }
  }

  /** Set the whole of `y` aside. */
  lemma {:induction false} RemainsLast(rs: seq<Regex>, union: bool, x: Regex, y: Regex, all: Regex)
    requires Remains(rs, union, x, y, all)
    ensures Remains(rs + [y], union, x, x, all)
  {
    forall env, w ensures RemainsAt(rs + [y], union, x, x, all, env, w) {
      assert RemainsAt(rs, union, x, y, all, env, w);
      JoinedPush(rs, y, union, env, w);
    }
  }

  /** The head of `x` already holds `y`. */
  lemma {:induction false} RemainsAbsorb(rs: seq<Regex>, union: bool, x: Regex, y: Regex, all: Regex)
    requires Remains(rs, union, SetOf(union, y, x), y, all)
    ensures Remains(rs, union, SetOf(union, y, x), SetOf(union, y, x), all)
  {
    forall env, w ensures RemainsAt(rs, union, SetOf(union, y, x), SetOf(union, y, x), all, env, w) {
      assert RemainsAt(rs, union, SetOf(union, y, x), y, all, env, w);
    }
  }

  /** Put the last regex set aside back. */
  lemma {:induction false} RemainsPop(rs: seq<Regex>, union: bool, p: Regex, x: Regex, composed: Regex, all: Regex)
    requires Remains(rs + [p], union, x, x, all) && Same(composed, SetOf(union, p, x))
    ensures Remains(rs, union, composed, composed, all)
  {
    forall env, w ensures RemainsAt(rs, union, composed, composed, all, env, w) {
      assert RemainsAt(rs + [p], union, x, x, all, env, w);
      assert Denote(composed, env) == Denote(SetOf(union, p, x), env);
      JoinedPush(rs, p, union, env, w);
    }
  }

  lemma {:induction false} RemainsEnd(union: bool, x: Regex, all: Regex)
    requires Remains([], union, x, x, all)
    ensures Same(x, all)
  {
    forall env, w: Word ensures w in Denote(x, env) <==> w in Denote(all, env) {
      assert RemainsAt([], union, x, x, all, env, w);
    }
  }

  /** `p` is `x`, or the head of the set `x`. */
  predicate Arm(union: bool, x: Regex, p: Regex) {
    x == p || (union && x.Union? && x.a == p) || (!union && x.Inter? && x.a == p)
  }

  predicate Complements(p: Regex, q: Regex) {
    p == Comp(q) || q == Comp(p)
  }

  function Unit(union: bool): Regex {
    if union then ReAll else ReNone
  }

  lemma {:induction false} ArmMeans(union: bool, x: Regex, p: Regex, env: Env, w: Word)
    requires Arm(union, x, p)
    ensures if union then w in Denote(p, env) ==> w in Denote(x, env) else w in Denote(x, env) ==> w in Denote(p, env)
  {
  }

  lemma {:induction false} ComplementsMean(p: Regex, q: Regex, env: Env, w: Word)
    requires Complements(p, q)
    ensures w in Denote(p, env) <==> w !in Denote(q, env)
  {
  }

  /** Complementary arms make everything, or nothing, of the whole. */
  lemma {:induction false} ComplementsWin(rs: seq<Regex>, union: bool, x: Regex, y: Regex, p: Regex, q: Regex, all: Regex)
    requires Remains(rs, union, x, y, all) && Arm(union, x, p) && Arm(union, y, q) && Complements(p, q)
    ensures Same(Unit(union), all)
  {
    forall env, w: Word ensures w in Denote(all, env) <==> union {
      assert RemainsAt(rs, union, x, y, all, env, w);
      ComplementsMean(p, q, env, w);
      ArmMeans(union, x, p, env, w);
      ArmMeans(union, y, q, env, w);
    }
    forall env, w: Word ensures w in Denote(Unit(union), env) <==> union {
    }
  }

  // ----- character classes -----

  /** The plainest regex for the characters from `lo` to `hi`. */
  function CharRegex(lo: Char, hi: Char): Regex {
    if lo > hi then ReNone
    else if lo == 0 && hi == L.MAX_CHAR then AllChar
    else if lo == hi then ToRe(Lit([lo]))
    else Range(Lit([lo]), Lit([hi]))
  }

  lemma {:induction false} CharRegexTells(lo: Char, hi: Char, lo': Char, hi': Char)
    requires lo <= hi && lo' <= hi' && lo != lo'
    ensures CharRegex(lo, hi) != CharRegex(lo', hi')
  {
    assert [lo][0] == lo && [lo'][0] == lo';
  }

  lemma {:induction false} CharRegexMeans(lo: Char, hi: Char, env: Env)
    ensures Denote(CharRegex(lo, hi), env) == L.OneOf(lo, hi)
  {
    if lo == hi {
      SingleChar(lo);
    }
  }

  function Least(a: Char, b: Char): Char {
    if a < b then a else b
  }

  function Greatest(a: Char, b: Char): Char {
    if a < b then b else a
  }

  /** Ranges that overlap or touch join into one; any two meet in one. */
  lemma {:induction false} TouchingRanges(a: Regex, b: Regex, lo1: Char, hi1: Char, lo2: Char, hi2: Char)
    requires CharRange(a) == Some((lo1, hi1)) && CharRange(b) == Some((lo2, hi2))
    ensures lo2 <= hi1 + 1 && lo1 <= hi2 + 1 ==> Same(CharRegex(Least(lo1, lo2), Greatest(hi1, hi2)), Union(a, b))
    ensures Same(CharRegex(Greatest(lo1, lo2), Least(hi1, hi2)), Inter(a, b))
  {
    var u, i := CharRegex(Least(lo1, lo2), Greatest(hi1, hi2)), CharRegex(Greatest(lo1, lo2), Least(hi1, hi2));
    forall env
      ensures lo2 <= hi1 + 1 && lo1 <= hi2 + 1 ==> Denote(u, env) == Denote(Union(a, b), env)
      ensures Denote(i, env) == Denote(Inter(a, b), env)
    {
      CharRegexMeans(Least(lo1, lo2), Greatest(hi1, hi2), env);
      CharRegexMeans(Greatest(lo1, lo2), Least(hi1, hi2), env);
      CharRangeMeans(a, env);
      CharRangeMeans(b, env);
    }
  }

  /** `r` is the union of `rs`. */
  ghost predicate Unites(rs: seq<Regex>, r: Regex) {
    forall env, w :: w in Denote(r, env) <==> JoinedHas(rs, true, env, w)
  }

  lemma {:induction false} UnitesOne(r: Regex)
    ensures Unites([r], r)
  {
    forall env, w ensures w in Denote(r, env) <==> JoinedHas([r], true, env, w) {
      if w in Denote(r, env) {
        assert w in Denote([r][0], env);
      }
    }
  }

  lemma {:induction false} JoinedFront(p: Regex, rs: seq<Regex>, env: Env, w: Word)
    ensures JoinedHas([p] + rs, true, env, w) <==> w in Denote(p, env) || JoinedHas(rs, true, env, w)
  {
    var all := [p] + rs;
    assert all[0] == p && forall i :: 0 <= i < |rs| ==> all[i + 1] == rs[i];
    if JoinedHas(rs, true, env, w) {
      var i :| 0 <= i < |rs| && w in Denote(rs[i], env);
      assert w in Denote(all[i + 1], env);
    }
    if JoinedHas(all, true, env, w) {
      var i :| 0 <= i < |all| && w in Denote(all[i], env);
      assert i > 0 ==> all[i] == rs[i - 1];
    }
  }

  lemma {:induction false} UnitesMore(p: Regex, rs: seq<Regex>, r: Regex)
    requires Unites(rs, r)
    ensures Unites([p] + rs, Union(p, r))
  {
    forall env, w ensures w in Denote(Union(p, r), env) <==> JoinedHas([p] + rs, true, env, w) {
      assert w in Denote(r, env) <==> JoinedHas(rs, true, env, w);
      JoinedFront(p, rs, env, w);
    }
  }

  /** The ranges, in any order, unite to the class. */
  lemma {:induction false} RangesUnite(p: R.Ranges, rs: seq<Regex>, r: Regex)
    requires R.Canonical(p) && Unites(rs, r)
    requires forall x :: x in rs <==> exists i :: 0 <= i < |p| && x == CharRegex(p[i].0, p[i].1)
    ensures forall env :: Denote(r, env) == R.Class(p)
  {
    forall env, w: Word ensures w in Denote(r, env) <==> w in R.Class(p) {
      assert w in Denote(r, env) <==> JoinedHas(rs, true, env, w);
      if JoinedHas(rs, true, env, w) {
        var k :| 0 <= k < |rs| && w in Denote(rs[k], env);
        assert rs[k] in rs;
        var i :| 0 <= i < |p| && rs[k] == CharRegex(p[i].0, p[i].1);
        CharRegexMeans(p[i].0, p[i].1, env);
      }
      if w in R.Class(p) {
        var i :| 0 <= i < |p| && p[i].0 <= w[0] <= p[i].1;
        CharRegexMeans(p[i].0, p[i].1, env);
        var x := CharRegex(p[i].0, p[i].1);
        assert x in rs;
        var k :| 0 <= k < |rs| && rs[k] == x;
        assert w in Denote(rs[k], env);
      }
    }
  }

  lemma {:induction false} ClassJoins(a: R.Ranges, b: R.Ranges, u: R.Ranges)
    ensures (forall c: nat :: R.In(u, c) <==> R.In(a, c) || R.In(b, c)) ==> R.Class(u) == R.Class(a) + R.Class(b)
    ensures (forall c: nat :: R.In(u, c) <==> R.In(a, c) && R.In(b, c)) ==> R.Class(u) == R.Class(a) * R.Class(b)
  {
  }

  // ----- subsumed sets -----

  lemma {:induction false} SubsetJoins(a: Regex, b: Regex)
    requires forall env :: Denote(a, env) <= Denote(b, env)
    ensures Same(b, Union(a, b)) && Same(b, Union(b, a)) && Same(a, Inter(a, b)) && Same(a, Inter(b, a))
  {
    forall env
      ensures Denote(b, env) == Denote(Union(a, b), env) == Denote(Union(b, a), env)
      ensures Denote(a, env) == Denote(Inter(a, b), env) == Denote(Inter(b, a), env)
    {
      assert Denote(a, env) <= Denote(b, env);
    }
  }

  lemma {:induction false} NoneJoins(a: Regex)
    ensures Same(a, Union(a, ReNone)) && Same(a, Union(ReNone, a))
    ensures Same(ReNone, Inter(a, ReNone)) && Same(ReNone, Inter(ReNone, a))
    ensures Same(a, Union(a, a)) && Same(a, Inter(a, a))
  {
    forall env ensures Denote(ReNone, env) <= Denote(a, env) {
    }
    SubsetJoins(ReNone, a);
    SubsetJoins(a, a);
  }

  lemma {:induction false} FullJoins(a: Regex, f: Regex)
    requires FullSeq(f)
    ensures Same(f, Union(a, f)) && Same(f, Union(f, a)) && Same(a, Inter(a, f)) && Same(a, Inter(f, a))
  {
    forall env ensures Denote(a, env) <= Denote(f, env) {
      FullSeqMeans(f, env);
    }
    SubsetJoins(a, f);
  }

  lemma {:induction false} DotPlusJoins(a: Regex, d: Regex)
    requires DotPlus(d) && LoopsOk(a) && InfoOf(a).MinLength() > 0
    ensures Same(d, Union(a, d)) && Same(d, Union(d, a)) && Same(a, Inter(a, d)) && Same(a, Inter(d, a))
  {
    forall env ensures Denote(a, env) <= Denote(d, env) {
      DotPlusMeans(d, env);
      forall w | w in Denote(a, env) ensures w in Denote(d, env) {
        MinLengthSound(a, env, w);
      }
    }
    SubsetJoins(a, d);
  }

  /** The empty word meets a regex or it does not. */
  lemma {:induction false} EpsilonInter(e: Regex, a: Regex)
    requires Epsilon(e) && LoopsOk(a)
    ensures InfoOf(a).nullable == Some(true) ==> Same(e, Inter(e, a)) && Same(e, Inter(a, e))
    ensures InfoOf(a).nullable == Some(false) ==> Same(ReNone, Inter(e, a)) && Same(ReNone, Inter(a, e))
  {
    forall env
      ensures InfoOf(a).nullable == Some(true) ==> Denote(e, env) == Denote(Inter(e, a), env) == Denote(Inter(a, e), env)
      ensures InfoOf(a).nullable == Some(false) ==> L.NOTHING == Denote(Inter(e, a), env) == Denote(Inter(a, e), env)
    {
      EpsilonMeans(e, env);
      NullableSound(a, env);
    }
  }

  lemma {:induction false} InterCommutes(a: Regex, b: Regex)
    ensures Same(Inter(a, b), Inter(b, a))
  {
    forall env ensures Denote(Inter(a, b), env) == Denote(Inter(b, a), env) {
    }
  }

  lemma {:induction false} UnionKeepsFirst(a: Regex, b: Regex)
    requires a == b || b.ReNone? || FullSeq(a)
    ensures Same(a, Union(a, b)) && Same(a, Union(b, a))
  {
    NoneJoins(a);
    if FullSeq(a) {
      FullJoins(b, a);
    }
  }

  lemma {:induction false} InterKeepsFirst(a: Regex, b: Regex)
    requires a == b || a.ReNone? || FullSeq(b)
    ensures Same(a, Inter(a, b)) && Same(a, Inter(b, a))
  {
    NoneJoins(a);
    NoneJoins(b);
    if FullSeq(b) {
      FullJoins(a, b);
    }
  }

  lemma {:induction false} SubsetOf(a: Regex, b: Regex)
    requires LoopsOk(a) && LoopsOk(b) && IsSubset(a, b)
    ensures Same(b, Union(a, b)) && Same(b, Union(b, a)) && Same(a, Inter(a, b)) && Same(a, Inter(b, a))
  {
    forall env ensures Denote(a, env) <= Denote(b, env) {
      IsSubsetSound(a, b, 0, env);
    }
    SubsetJoins(a, b);
  }

  lemma {:induction false} ClassesJoin(union: bool, a: Regex, pa: R.Ranges, b: Regex, pb: R.Ranges, r: Regex, p: R.Ranges)
    requires forall env :: Denote(a, env) == R.Class(pa)
    requires forall env :: Denote(b, env) == R.Class(pb)
    requires forall env :: Denote(r, env) == R.Class(p)
    requires R.Class(p) == if union then R.Class(pa) + R.Class(pb) else R.Class(pa) * R.Class(pb)
    ensures Same(r, SetOf(union, a, b))
  {
    forall env ensures Denote(r, env) == Denote(SetOf(union, a, b), env) {
    }
  }

  // ----- how many stars -----

  function Stars(r: Regex): nat {
    match r
    case Concat(a, b) => Stars(a) + Stars(b)
    case Union(a, b) => Stars(a) + Stars(b)
    case Inter(a, b) => Stars(a) + Stars(b)
    case Diff(a, b) => Stars(a) + Stars(b)
    case Ite(_, a, b) => Stars(a) + Stars(b)
    case Star(a) => 1 + Stars(a)
    case Plus(a) => Stars(a)
    case Opt(a) => Stars(a)
    case Comp(a) => Stars(a)
    case Loop(a, _, _) => Stars(a)
    case _ => 0
  }

  lemma {:induction false} StarInside(r: Regex)
    requires r.Star?
    ensures Stars(r) == 1 + Stars(r.a) && LoopsOk(r) == LoopsOk(r.a)
  {
  }

  function StarsOf(rs: seq<Regex>): nat {
    if rs == [] then 0 else StarsOf(rs[..|rs| - 1]) + Stars(rs[|rs| - 1])
  }

  lemma {:induction false} StarsPush(rs: seq<Regex>, p: Regex)
    ensures StarsOf(rs + [p]) == StarsOf(rs) + Stars(p)
  {
    assert (rs + [p])[..|rs|] == rs;
  }

  /** Only character classes and their unions. */
  ghost predicate Plain(r: Regex) {
    LoopsOk(r) && Stars(r) == 0
  }

  lemma {:induction false} CharRegexPlain(lo: Char, hi: Char)
    ensures Plain(CharRegex(lo, hi))
  {
  }
}
