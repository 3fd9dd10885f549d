/** When two regexes mean the same, and the laws behind the rewriting rules, one lemma a rule. */
module RegexLaws {
  import opened Options
  import opened RegexTerms
  import opened RegexInfo
  import L = Languages

  /** The same language under every assignment. */
  ghost predicate Same(r: Regex, t: Regex) {
    forall env :: Denote(r, env) == Denote(t, env)
  }

  // ----- shapes -----

  predicate AcceptsEmptyWord(r: Regex) {
    var i := InfoOf(r);
    i.interpreted && i.nullable == Some(true) && i.MinLength() == 0
  }

  predicate StartsWithFullSeq(r: Regex) {
    FullSeq(r) || (r.Concat? && FullSeq(r.a))
  }

  predicate EndsWithFullSeq(r: Regex) {
    if r.Concat? then EndsWithFullSeq(r.b) else FullSeq(r)
  }

  predicate AllArmsEndWithFullSeq(r: Regex) {
    if r.Inter? then AllArmsEndWithFullSeq(r.a) && AllArmsEndWithFullSeq(r.b) else EndsWithFullSeq(r)
  }

  const EPSILON := ToRe(Lit([]))
  const DOT := AllChar

  // ----- replacing parts -----

  lemma {:induction false} ReplaceConcat(a: Regex, b: Regex, a': Regex, b': Regex)
    requires Same(a, a') && Same(b, b')
    ensures Same(Concat(a, b), Concat(a', b'))
  {
    forall env ensures Denote(Concat(a, b), env) == Denote(Concat(a', b'), env) {
    }
  }

  lemma {:induction false} ReplaceUnion(a: Regex, b: Regex, a': Regex, b': Regex)
    requires Same(a, a') && Same(b, b')
    ensures Same(Union(a, b), Union(a', b')) && Same(Inter(a, b), Inter(a', b')) && Same(Diff(a, b), Diff(a', b'))
  {
    forall env
      ensures Denote(Union(a, b), env) == Denote(Union(a', b'), env)
      ensures Denote(Inter(a, b), env) == Denote(Inter(a', b'), env)
      ensures Denote(Diff(a, b), env) == Denote(Diff(a', b'), env)
    {
    }
  }

  lemma {:induction false} ReplaceUnary(a: Regex, a': Regex)
    requires Same(a, a')
    ensures Same(Star(a), Star(a')) && Same(Plus(a), Plus(a')) && Same(Opt(a), Opt(a')) && Same(Comp(a), Comp(a'))
  {
    forall env
      ensures Denote(Star(a), env) == Denote(Star(a'), env) && Denote(Plus(a), env) == Denote(Plus(a'), env)
      ensures Denote(Opt(a), env) == Denote(Opt(a'), env) && Denote(Comp(a), env) == Denote(Comp(a'), env)
    {
    }
  }

  lemma {:induction false} ReplaceLoop(a: Regex, a': Regex, lo: nat, hi: Option<nat>)
    requires Same(a, a')
    ensures Same(Loop(a, lo, hi), Loop(a', lo, hi))
  {
    forall env ensures Denote(Loop(a, lo, hi), env) == Denote(Loop(a', lo, hi), env) {
    }
  }

  lemma {:induction false} ReplaceIte(c: Cond, a: Regex, b: Regex, a': Regex, b': Regex)
    requires Same(a, a') && Same(b, b')
    ensures Same(Ite(c, a, b), Ite(c, a', b'))
  {
    forall env ensures Denote(Ite(c, a, b), env) == Denote(Ite(c, a', b'), env) {
    }
  }

  // ----- concatenation -----

  lemma {:induction false} FullConcat(a: Regex, b: Regex)
    requires LoopsOk(b) && FullSeq(a) && (FullSeq(b) || AcceptsEmptyWord(b))
    ensures Same(a, Concat(a, b)) && Same(a, Concat(b, a))
  {
    forall env, w: Word
      ensures w in Denote(a, env) && w in Denote(Concat(a, b), env) && w in Denote(Concat(b, a), env)
    {
      FullSeqMeans(a, env);
      EmptyAccepted(b, env);
      L.CatIntro(Denote(a, env), Denote(b, env), w, []);
      L.CatIntro(Denote(b, env), Denote(a, env), [], w);
      assert w + [] == w && [] + w == w;
    }
  }

  lemma {:induction false} EmptyAccepted(b: Regex, env: Env)
    requires LoopsOk(b) && (FullSeq(b) || AcceptsEmptyWord(b))
    ensures [] in Denote(b, env)
  {
    if FullSeq(b) {
      FullSeqMeans(b, env);
    } else {
      NullableSound(b, env);
    }
  }

  /** Appending anything leads to nothing new. */
  ghost predicate RightIdeal(r: Regex) {
    forall env :: L.Cat(Denote(r, env), L.ALL) <= Denote(r, env)
  }

  lemma {:induction false} EndsWithFullIdeal(r: Regex)
    requires EndsWithFullSeq(r)
    ensures RightIdeal(r)
  {
    if r.Concat? {
      EndsWithFullIdeal(r.b);
      forall env ensures L.Cat(Denote(r, env), L.ALL) <= Denote(r, env) {
        var x, y := Denote(r.a, env), Denote(r.b, env);
        L.CatAssoc(x, y, L.ALL);
        L.CatMono(x, L.Cat(y, L.ALL), x, y);
      }
    } else {
      forall env ensures L.Cat(Denote(r, env), L.ALL) <= Denote(r, env) {
        FullSeqMeans(r, env);
      }
    }
  }

  lemma {:induction false} ArmsIdeal(r: Regex)
    requires AllArmsEndWithFullSeq(r)
    ensures RightIdeal(r)
  {
    if r.Inter? {
      ArmsIdeal(r.a);
      ArmsIdeal(r.b);
      forall env ensures L.Cat(Denote(r, env), L.ALL) <= Denote(r, env) {
        var x, y := Denote(r.a, env), Denote(r.b, env);
        L.CatMono(x * y, L.ALL, x, L.ALL);
        L.CatMono(x * y, L.ALL, y, L.ALL);
      }
    } else {
      EndsWithFullIdeal(r);
    }
  }

  lemma {:induction false} IdealConcat(a: Regex, b: Regex)
    requires FullSeq(b) && (EndsWithFullSeq(a) || AllArmsEndWithFullSeq(a))
    ensures Same(a, Concat(a, b))
  {
    if EndsWithFullSeq(a) {
      EndsWithFullIdeal(a);
    } else {
      ArmsIdeal(a);
    }
    forall env ensures Denote(Concat(a, b), env) <= Denote(a, env) {
      FullSeqMeans(b, env);
    }
    forall env ensures Denote(a, env) <= Denote(Concat(a, b), env) {
      FullSeqMeans(b, env);
      L.InCatAll(Denote(a, env));
    }
  }

  lemma {:induction false} FullBefore(a: Regex, b: Regex)
    requires FullSeq(a) && StartsWithFullSeq(b)
    ensures Same(b, Concat(a, b))
  {
    forall env ensures Denote(Concat(a, b), env) <= Denote(b, env) {
      FullSeqMeans(a, env);
      StartsWithFullMeans(b, env);
    }
    forall env ensures Denote(b, env) <= Denote(Concat(a, b), env) {
      FullSeqMeans(a, env);
      L.InCatAll(Denote(b, env));
    }
  }

  lemma {:induction false} StartsWithFullMeans(b: Regex, env: Env)
    requires StartsWithFullSeq(b)
    ensures L.Cat(L.ALL, Denote(b, env)) <= Denote(b, env)
  {
    if FullSeq(b) {
      FullSeqMeans(b, env);
      L.CatAllAll();
    } else {
      FullSeqMeans(b.a, env);
      L.AllCatAll(Denote(b.b, env));
    }
  }

  lemma {:induction false} ConcatUnion(a: Regex, u1: Regex, u2: Regex)
    ensures Same(Union(Concat(a, u1), Concat(a, u2)), Concat(a, Union(u1, u2)))
  {
    forall env ensures Denote(Union(Concat(a, u1), Concat(a, u2)), env) == Denote(Concat(a, Union(u1, u2)), env) {
      L.CatUnion(Denote(u1, env), Denote(u2, env), Denote(a, env));
    }
  }

  lemma {:induction false} NoneConcat(a: Regex)
    ensures Same(ReNone, Concat(ReNone, a)) && Same(ReNone, Concat(a, ReNone))
  {
    forall env ensures L.NOTHING == Denote(Concat(ReNone, a), env) == Denote(Concat(a, ReNone), env) {
      L.CatNothing(Denote(a, env));
    }
  }

  lemma {:induction false} EpsilonConcat(a: Regex, e: Regex)
    requires Epsilon(e)
    ensures Same(a, Concat(e, a)) && Same(a, Concat(a, e))
  {
    forall env ensures Denote(Concat(e, a), env) == Denote(a, env) {
      EpsilonMeans(e, env);
      L.CatEpsLeft(Denote(a, env));
    }
    forall env ensures Denote(Concat(a, e), env) == Denote(a, env) {
      EpsilonMeans(e, env);
      L.CatEpsRight(Denote(a, env));
    }
  }

  lemma {:induction false} DotConcat(f: Regex)
    requires FullSeq(f)
    ensures Same(Plus(AllChar), Concat(AllChar, f)) && Same(Plus(AllChar), Concat(f, AllChar))
  {
    forall env
      ensures Denote(Plus(AllChar), env) == Denote(Concat(AllChar, f), env) == Denote(Concat(f, AllChar), env)
    {
      FullSeqMeans(f, env);
      L.PlusDot();
    }
  }

  lemma {:induction false} LiteralConcat(x: Word, y: Word)
    ensures Same(ToRe(Lit(x + y)), Concat(ToRe(Lit(x)), ToRe(Lit(y))))
  {
    forall env ensures Denote(ToRe(Lit(x + y)), env) == Denote(Concat(ToRe(Lit(x)), ToRe(Lit(y))), env) {
      L.CatWords(x, y);
    }
  }

  lemma {:induction false} StarStarConcat(a: Regex, rest: Regex)
    ensures Same(Star(a), Concat(Star(a), Star(a)))
    ensures Same(Concat(Star(a), rest), Concat(Star(a), Concat(Star(a), rest)))
  {
    forall env
      ensures Denote(Star(a), env) == Denote(Concat(Star(a), Star(a)), env)
      ensures Denote(Concat(Star(a), rest), env) == Denote(Concat(Star(a), Concat(Star(a), rest)), env)
    {
      var s := Denote(Star(a), env);
      L.RepCat(Denote(a, env), 0, None, 0, None);
      L.CatAssoc(s, s, Denote(rest, env));
    }
  }

  lemma {:induction false} StarCommutes(a: Regex)
    ensures Same(Concat(a, Star(a)), Concat(Star(a), a)) && Same(Plus(a), Concat(a, Star(a)))
  {
    forall env
      ensures Denote(Concat(a, Star(a)), env) == Denote(Concat(Star(a), a), env) == Denote(Plus(a), env)
    {
      L.PlusIsCat(Denote(a, env));
    }
  }

  lemma {:induction false} ConcatAssoc(a: Regex, b: Regex, c: Regex)
    ensures Same(Concat(a, Concat(b, c)), Concat(Concat(a, b), c))
  {
    forall env ensures Denote(Concat(a, Concat(b, c)), env) == Denote(Concat(Concat(a, b), c), env) {
      L.CatAssoc(Denote(a, env), Denote(b, env), Denote(c, env));
    }
  }

  /** When everything on one side absorbs the other: the side that remains, `true` for the left. */
  function AbsorbingSide(a: Regex, b: Regex): Option<bool> {
    if FullSeq(a) && FullSeq(b) then Some(true)
    else if FullSeq(a) && AcceptsEmptyWord(b) then Some(true)
    else if FullSeq(b) && AcceptsEmptyWord(a) then Some(false)
    else if FullSeq(b) && EndsWithFullSeq(a) then Some(true)
    else if FullSeq(a) && StartsWithFullSeq(b) then Some(false)
    else None
  }

  /** As before, for intersections of absorbing arms, the empty language and the empty word. */
  function NeutralSide(a: Regex, b: Regex): Option<bool> {
    if a.Inter? && FullSeq(b) && AllArmsEndWithFullSeq(a) then Some(true)
    else if a.ReNone? then Some(true)
    else if b.ReNone? then Some(false)
    else if Epsilon(a) then Some(false)
    else if Epsilon(b) then Some(true)
    else None
  }

  lemma {:induction false} AbsorbingSideMeans(a: Regex, b: Regex)
    requires LoopsOk(a) && LoopsOk(b) && AbsorbingSide(a, b).Some?
    ensures Same(if AbsorbingSide(a, b).value then a else b, Concat(a, b))
  {
    if FullSeq(a) && (FullSeq(b) || AcceptsEmptyWord(b)) {
      FullConcat(a, b);
    } else if FullSeq(b) && AcceptsEmptyWord(a) {
      FullConcat(b, a);
    } else if FullSeq(b) && EndsWithFullSeq(a) {
      IdealConcat(a, b);
    } else {
      FullBefore(a, b);
    }
  }

  lemma {:induction false} NeutralSideMeans(a: Regex, b: Regex)
    requires NeutralSide(a, b).Some?
    ensures Same(if NeutralSide(a, b).value then a else b, Concat(a, b))
  {
    if a.Inter? && FullSeq(b) && AllArmsEndWithFullSeq(a) {
      IdealConcat(a, b);
    } else if a.ReNone? {
      NoneConcat(b);
    } else if b.ReNone? {
      NoneConcat(a);
    } else if Epsilon(a) {
      EpsilonConcat(b, a);
    } else {
      EpsilonConcat(a, b);
    }
  }

  /** `x` repeats `base` from `lo` to `hi` times. */
  predicate Repeats(x: Regex, base: Regex, lo: nat, hi: Option<nat>) {
    || (x == base && lo == 1 && hi == Some(1))
    || (x == Star(base) && lo == 0 && hi == None)
    || (x == Loop(base, lo, hi) && (hi.Some? ==> lo <= hi.value))
  }

  lemma {:induction false} RepeatsMeans(x: Regex, base: Regex, lo: nat, hi: Option<nat>, env: Env)
    requires Repeats(x, base, lo, hi)
    ensures Denote(x, env) == L.Rep(Denote(base, env), lo, hi) && L.RangeOk(lo, hi)
  {
    L.RepOne(Denote(base, env));
  }

  /** Repetitions of the same regex add up, in either order. */
  lemma {:induction false} RepeatsConcat(x: Regex, y: Regex, base: Regex, lo1: nat, hi1: Option<nat>, lo2: nat, hi2: Option<nat>)
    requires Repeats(x, base, lo1, hi1) && Repeats(y, base, lo2, hi2)
    ensures var r := Loop(base, lo1 + lo2, L.AddHi(hi1, hi2));
      Same(r, Concat(x, y)) && Same(r, Concat(y, x))
  {
    var r := Loop(base, lo1 + lo2, L.AddHi(hi1, hi2));
    forall env ensures Denote(r, env) == Denote(Concat(x, y), env) == Denote(Concat(y, x), env) {
      RepeatsMeans(x, base, lo1, hi1, env);
      RepeatsMeans(y, base, lo2, hi2, env);
      L.RepCat(Denote(base, env), lo1, hi1, lo2, hi2);
      L.RepCat(Denote(base, env), lo2, hi2, lo1, hi1);
    }
  }

  // ----- stars -----

  lemma {:induction false} StarOfStar(a: Regex)
    requires a.Star? || FullSeq(a)
    ensures Same(a, Star(a))
  {
    forall env ensures Denote(a, env) == Denote(Star(a), env) {
      if FullSeq(a) {
        FullSeqMeans(a, env);
        L.StarTrivial();
      } else {
        L.StarStar(Denote(a.a, env));
      }
    }
  }

  lemma {:induction false} StarOfDot(a: Regex)
    requires a == AllChar || a == Plus(AllChar)
    ensures Same(ReAll, Star(a))
  {
    forall env ensures L.ALL == Denote(Star(a), env) {
      L.StarDot();
      L.StarPlus(L.DOT);
      assert Denote(a, env) == L.DOT || Denote(a, env) == L.Plus(L.DOT);
    }
  }

  lemma {:induction false} StarOfTrivial(a: Regex)
    requires a.ReNone? || Epsilon(a)
    ensures Same(EPSILON, Star(a))
  {
    forall env ensures Denote(EPSILON, env) == Denote(Star(a), env) {
      EpsilonMeans(EPSILON, env);
      L.StarTrivial();
      if Epsilon(a) {
        EpsilonMeans(a, env);
      }
    }
  }

  lemma {:induction false} StarOfPlus(b: Regex)
    ensures Same(Star(b), Star(Plus(b)))
  {
    forall env ensures Denote(Star(b), env) == Denote(Star(Plus(b)), env) {
      L.StarPlus(Denote(b, env));
    }
  }

  lemma {:induction false} StarOfStarUnion(b: Regex, c: Regex)
    ensures Same(Star(Union(b, c)), Star(Union(Star(b), c)))
    ensures Same(Star(Union(c, b)), Star(Union(c, Star(b))))
  {
    forall env
      ensures Denote(Star(Union(b, c)), env) == Denote(Star(Union(Star(b), c)), env)
      ensures Denote(Star(Union(c, b)), env) == Denote(Star(Union(c, Star(b))), env)
    {
      var x, y := Denote(b, env), Denote(c, env);
      assert Denote(Union(b, c), env) == x + y == Denote(Union(c, b), env);
      assert Denote(Union(Star(b), c), env) == L.Star(x) + y == Denote(Union(c, Star(b)), env);
      L.StarUnionStar(x, y);
    }
  }

  lemma {:induction false} StarOfEpsilonUnion(e: Regex, c: Regex)
    requires Epsilon(e)
    ensures Same(Star(c), Star(Union(e, c))) && Same(Star(c), Star(Union(c, e)))
  {
    forall env ensures Denote(Star(c), env) == Denote(Star(Union(e, c)), env) == Denote(Star(Union(c, e)), env) {
      EpsilonMeans(e, env);
      L.StarUnionEps(Denote(c, env));
      assert Denote(c, env) + L.EPS == L.EPS + Denote(c, env);
    }
  }

  lemma {:induction false} StarOfStarConcat(b: Regex, c: Regex)
    ensures Same(Star(Union(b, c)), Star(Concat(Star(b), Star(c))))
  {
    forall env ensures Denote(Star(Union(b, c)), env) == Denote(Star(Concat(Star(b), Star(c))), env) {
      var x, y := Denote(b, env), Denote(c, env);
      assert Denote(Union(b, c), env) == x + y;
      assert Denote(Concat(Star(b), Star(c)), env) == L.Cat(L.Star(x), L.Star(y));
      L.StarCatStars(x, y);
    }
  }

  lemma {:induction false} StarOfLeftIdeal(f: Regex, c: Regex)
    requires FullSeq(f)
    ensures Same(Union(EPSILON, Concat(f, c)), Star(Concat(f, c)))
  {
    forall env ensures Denote(Union(EPSILON, Concat(f, c)), env) == Denote(Star(Concat(f, c)), env) {
      FullSeqMeans(f, env);
      EpsilonMeans(EPSILON, env);
      L.StarLeftIdeal(Denote(c, env));
    }
  }

  lemma {:induction false} StarOfIte(c: Cond, a: Regex, b: Regex)
    ensures Same(Ite(c, Star(a), Star(b)), Star(Ite(c, a, b)))
    ensures Same(Ite(c, Comp(a), Comp(b)), Comp(Ite(c, a, b)))
  {
    forall env
      ensures Denote(Ite(c, Star(a), Star(b)), env) == Denote(Star(Ite(c, a, b)), env)
      ensures Denote(Ite(c, Comp(a), Comp(b)), env) == Denote(Comp(Ite(c, a, b)), env)
    {
    }
  }

  lemma {:induction false} PlusOfTrivial(a: Regex)
    requires a.ReNone? || FullSeq(a) || Epsilon(a) || a.Plus? || a.Star?
    ensures Same(a, Plus(a))
  {
    forall env ensures Denote(a, env) == Denote(Plus(a), env) {
      L.PlusTrivial();
      if FullSeq(a) {
        FullSeqMeans(a, env);
      } else if Epsilon(a) {
        EpsilonMeans(a, env);
      } else if a.Plus? {
        L.PlusPlus(Denote(a.a, env));
      } else if a.Star? {
        L.PlusStar(Denote(a.a, env));
      }
    }
  }

  lemma {:induction false} OptIsUnion(a: Regex)
    ensures Same(Union(EPSILON, a), Opt(a))
  {
    forall env ensures Denote(Union(EPSILON, a), env) == Denote(Opt(a), env) {
      EpsilonMeans(EPSILON, env);
    }
  }

  // ----- complements -----

  lemma {:induction false} DeMorgan(a: Regex, b: Regex)
    ensures Same(Union(Comp(a), Comp(b)), Comp(Inter(a, b)))
    ensures Same(Inter(Comp(a), Comp(b)), Comp(Union(a, b)))
  {
    forall env
      ensures Denote(Union(Comp(a), Comp(b)), env) == Denote(Comp(Inter(a, b)), env)
      ensures Denote(Inter(Comp(a), Comp(b)), env) == Denote(Comp(Union(a, b)), env)
    {
    }
  }

  lemma {:induction false} CompOfTrivial(a: Regex)
    ensures Same(ReAll, Comp(ReNone)) && Same(a, Comp(Comp(a)))
    ensures FullSeq(a) ==> Same(ReNone, Comp(a))
    ensures Epsilon(a) ==> Same(Plus(AllChar), Comp(a))
  {
    forall env
      ensures L.ALL == Denote(Comp(ReNone), env) && Denote(a, env) == Denote(Comp(Comp(a)), env)
      ensures FullSeq(a) ==> L.NOTHING == Denote(Comp(a), env)
      ensures Epsilon(a) ==> Denote(Plus(AllChar), env) == Denote(Comp(a), env)
    {
      if FullSeq(a) {
        FullSeqMeans(a, env);
      }
      L.PlusDot();
    }
  }

  lemma {:induction false} DiffIsInter(a: Regex, b: Regex)
    ensures Same(Inter(a, Comp(b)), Diff(a, b))
  {
    forall env ensures Denote(Inter(a, Comp(b)), env) == Denote(Diff(a, b), env) {
    }
  }

  // ----- loops and ranges -----

  lemma {:induction false} LoopTrivial(a: Regex)
    ensures Same(EPSILON, Loop(a, 0, Some(0))) && Same(Star(a), Loop(a, 0, None)) && Same(a, Loop(a, 1, Some(1)))
  {
    forall env
      ensures Denote(EPSILON, env) == Denote(Loop(a, 0, Some(0)), env) && Denote(a, env) == Denote(Loop(a, 1, Some(1)), env)
    {
      EpsilonMeans(EPSILON, env);
      L.RepSingle(Denote(a, env), 0);
      L.RepOne(Denote(a, env));
    }
  }

  lemma {:induction false} LoopCrossed(a: Regex, lo: nat, hi: nat)
    requires hi < lo
    ensures Same(ReNone, Loop(a, lo, Some(hi)))
  {
    forall env ensures L.NOTHING == Denote(Loop(a, lo, Some(hi)), env) {
      L.RepEmpty(Denote(a, env), lo, hi);
    }
  }

  lemma {:induction false} LoopOfLoop(a: Regex, l: nat, lo: nat)
    requires lo >= 1
    ensures Same(Loop(a, lo * l, None), Loop(Loop(a, l, None), lo, None))
  {
    forall env ensures Denote(Loop(a, lo * l, None), env) == Denote(Loop(Loop(a, l, None), lo, None), env) {
      L.RepOfRep(Denote(a, env), l, lo);
    }
  }

  lemma {:induction false} LoopOfPower(a: Regex, l: nat, lo: nat)
    ensures Same(Loop(a, lo * l, Some(lo * l)), Loop(Loop(a, l, Some(l)), lo, Some(lo)))
  {
    forall env
      ensures Denote(Loop(a, lo * l, Some(lo * l)), env) == Denote(Loop(Loop(a, l, Some(l)), lo, Some(lo)), env)
    {
      L.RepOfPow(Denote(a, env), l, lo);
    }
  }

  /** Two literals bound a character class; any other literal bounds nothing. */
  lemma {:induction false} RangeCases(lo: Str, hi: Str)
    ensures lo.Lit? && |lo.s| != 1 ==> Same(ReNone, Range(lo, hi))
    ensures hi.Lit? && |hi.s| != 1 ==> Same(ReNone, Range(lo, hi))
    ensures lo.Lit? && hi.Lit? && |lo.s| == |hi.s| == 1 && lo.s[0] > hi.s[0] ==> Same(ReNone, Range(lo, hi))
    ensures lo.Lit? && hi.Lit? && |lo.s| == |hi.s| == 1 && lo.s[0] == hi.s[0] ==> Same(ToRe(lo), Range(lo, hi))
  {
    if lo.Lit? && hi.Lit? && |lo.s| == |hi.s| == 1 && lo.s[0] == hi.s[0] {
      forall env ensures Denote(ToRe(lo), env) == Denote(Range(lo, hi), env) {
        SingleChar(lo.s[0]);
        assert lo.s == [lo.s[0]];
      }
    }
  }

  lemma {:induction false} SingleChar(c: Char)
    ensures L.OneOf(c, c) == iset{[c]}
  {
    forall w: Word ensures w in L.OneOf(c, c) <==> w == [c] {
      if |w| == 1 {
        assert w == [w[0]];
      }
    }
  }
}
