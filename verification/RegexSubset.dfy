/** The heuristic, depth-bounded subset test: it may miss an inclusion, but never claims a false one. */
module RegexSubset {
  import opened Options
  import opened RegexTerms
  import opened RegexInfo
  import L = Languages

  const MAX_DEPTH: nat := 3

  function IsSubset(a: Regex, b: Regex): bool {
    IsSubsetRec(a, b, 0)
  }

  function IsSubsetRec(a: Regex, b: Regex, depth: nat): bool
    decreases Size(a) + Size(b), 1
  {
    if a == b || a.ReNone? || FullSeq(b) then true
    else if Epsilon(a) && InfoOf(b).nullable == Some(true) then true
    else if depth >= MAX_DEPTH then false
    else if DotPlus(b) && InfoOf(a).nullable == Some(false) then true
    else if Epsilon(a) && b.Star? then true
    else if StarRules(a, b, depth) || CharRules(a, b) || SetRules(a, b, depth) || IdealRules(a, b, depth) then true
    else if a.Concat? && b.Concat? && IsSubsetRec(a.a, b.a, depth + 1) then IsSubsetRec(a.b, b.b, depth)
    else a.Comp? && b.Comp? && IsSubsetRec(b.a, a.a, depth + 1)
  }

  /** Stars and pluses. */
  function StarRules(a: Regex, b: Regex, depth: nat): bool
    decreases Size(a) + Size(b), 0
  {
    || (b.Star? && IsSubsetRec(a, b.a, depth))
    || (a.Star? && b.Star? && IsSubsetRec(a.a, b.a, depth + 1))
    || (a.Plus? && b.Plus? && IsSubsetRec(a.a, b.a, depth))
    || (b.Plus? && IsSubsetRec(a, b.a, depth))
    || (a.Plus? && b.Star? && IsSubsetRec(a.a, b.a, depth + 1))
  }

  /** Character classes. */
  function CharRules(a: Regex, b: Regex): bool {
    var ra, rb := CharRange(a), CharRange(b);
    || (ra.Some? && rb.Some? && rb.value.0 <= ra.value.0 && ra.value.1 <= rb.value.1)
    || (a.ToRe? && a.s.Lit? && |a.s.s| == 1 && rb.Some? && rb.value.0 <= a.s.s[0] <= rb.value.1)
  }

  /** Unions, intersections, bounded loops and differences. */
  function SetRules(a: Regex, b: Regex, depth: nat): bool
    decreases Size(a) + Size(b), 0
  {
    || (b.Union? && (IsSubsetRec(a, b.a, depth + 1) || IsSubsetRec(a, b.b, depth + 1)))
    || (a.Union? && IsSubsetRec(a.a, b, depth + 1) && IsSubsetRec(a.b, b, depth + 1))
    || (a.Inter? && (IsSubsetRec(a.a, b, depth + 1) || IsSubsetRec(a.b, b, depth + 1)))
    || (b.Inter? && IsSubsetRec(a, b.a, depth + 1) && IsSubsetRec(a, b.b, depth + 1))
    || (a.Loop? && b.Loop? && a.hi.Some? && b.hi.Some? && b.lo <= a.lo && a.hi.value <= b.hi.value
        && IsSubsetRec(a.a, b.a, depth + 1))
    || (a.Diff? && IsSubsetRec(a.a, b, depth + 1))
  }

  /** Concatenations with everything, and concatenations inside a star. */
  function IdealRules(a: Regex, b: Regex, depth: nat): bool
    decreases Size(a) + Size(b), 0
  {
    || (b.Concat? && FullSeq(b.a) && (IsSubsetRec(a, b.b, depth) || EndsWith(a, b.b)))
    || (b.Concat? && FullSeq(b.b) && IsSubsetRec(a, b.a, depth))
    || (a.Concat? && b.Star? && IsSubsetRec(a.a, b.a, depth + 1) && IsSubsetRec(a.b, b, depth + 1))
    || (a.Concat? && b.Star? && IsSubsetRec(a.b, b.a, depth + 1) && IsSubsetRec(a.a, b, depth + 1))
  }

  function FlattenConcat(a: Regex): seq<Regex> {
    if a.Concat? then FlattenConcat(a.a) + FlattenConcat(a.b) else [a]
  }

  predicate EndsWith(a: Regex, suffix: Regex) {
    a == suffix ||
    var af, sf := FlattenConcat(a), FlattenConcat(suffix);
    |sf| <= |af| && af[|af| - |sf|..] == sf
  }

  // ----- soundness -----

  ghost function DenoteAll(rs: seq<Regex>, env: Env): L.Lang {
    if rs == [] then L.EPS else L.Cat(Denote(rs[0], env), DenoteAll(rs[1..], env))
  }

  lemma {:induction false} DenoteAllAppend(xs: seq<Regex>, ys: seq<Regex>, env: Env)
    ensures DenoteAll(xs + ys, env) == L.Cat(DenoteAll(xs, env), DenoteAll(ys, env))
  {
    if xs == [] {
      assert xs + ys == ys;
      L.CatEps(DenoteAll(ys, env));
    } else {
      DenoteAllAppend(xs[1..], ys, env);
      assert (xs + ys)[1..] == xs[1..] + ys;
      L.CatAssoc(Denote(xs[0], env), DenoteAll(xs[1..], env), DenoteAll(ys, env));
    }
  }

  lemma {:induction false} FlattenMeans(a: Regex, env: Env)
    ensures DenoteAll(FlattenConcat(a), env) == Denote(a, env)
  {
    if a.Concat? {
      FlattenMeans(a.a, env);
      FlattenMeans(a.b, env);
      DenoteAllAppend(FlattenConcat(a.a), FlattenConcat(a.b), env);
    } else {
      assert [a][1..] == [];
      L.CatEps(Denote(a, env));
    }
  }

  lemma {:induction false} EndsWithMeans(a: Regex, suffix: Regex, env: Env)
    requires EndsWith(a, suffix)
    ensures Denote(a, env) <= L.Cat(L.ALL, Denote(suffix, env))
  {
    var s := Denote(suffix, env);
    if a == suffix {
      L.CatEps(s);
      L.CatMono(L.EPS, s, L.ALL, s);
    } else {
      var af, sf := FlattenConcat(a), FlattenConcat(suffix);
      var n := |af| - |sf|;
      assert af == af[..n] + sf;
      DenoteAllAppend(af[..n], sf, env);
      FlattenMeans(a, env);
      FlattenMeans(suffix, env);
      L.CatMono(DenoteAll(af[..n], env), s, L.ALL, s);
    }
  }

  /** The inclusions seen without looking below the two terms. */
  predicate Immediate(a: Regex, b: Regex, depth: nat) {
    || a == b || a.ReNone? || FullSeq(b)
    || (Epsilon(a) && InfoOf(b).nullable == Some(true))
    || (depth < MAX_DEPTH && ((DotPlus(b) && InfoOf(a).nullable == Some(false)) || (Epsilon(a) && b.Star?)))
  }

  lemma {:induction false} ImmediateSound(a: Regex, b: Regex, depth: nat, env: Env)
    requires LoopsOk(a) && LoopsOk(b) && Immediate(a, b, depth)
    ensures Denote(a, env) <= Denote(b, env)
  {
    NullableSound(a, env);
    NullableSound(b, env);
    if FullSeq(b) {
      FullSeqMeans(b, env);
    } else if a != b && !a.ReNone? && !(Epsilon(a) && InfoOf(b).nullable == Some(true)) {
      DotPlusMeans(b, env);
    }
  }

  /** A positive answer is an inclusion of languages, under every assignment. */
  lemma {:induction false} IsSubsetSound(a: Regex, b: Regex, depth: nat, env: Env)
    requires LoopsOk(a) && LoopsOk(b) && IsSubsetRec(a, b, depth)
    ensures Denote(a, env) <= Denote(b, env)
    decreases Size(a) + Size(b), 2
  {
    if Immediate(a, b, depth) {
      ImmediateSound(a, b, depth, env);
    } else if StarRules(a, b, depth) {
      StarRulesSound(a, b, depth, env);
    } else if CharRules(a, b) {
      CharRulesSound(a, b, env);
    } else if SetRules(a, b, depth) {
      SetRulesSound(a, b, depth, env);
    } else if IdealRules(a, b, depth) {
      IdealRulesSound(a, b, depth, env);
    } else {
      LastRuleSound(a, b, depth, env);
    }
  }

  lemma {:induction false} CharRulesSound(a: Regex, b: Regex, env: Env)
    requires CharRules(a, b)
    ensures Denote(a, env) <= Denote(b, env)
  {
  }

  lemma {:induction false} LastRuleSound(a: Regex, b: Regex, depth: nat, env: Env)
    requires LoopsOk(a) && LoopsOk(b)
    requires if a.Concat? && b.Concat? && IsSubsetRec(a.a, b.a, depth + 1) then IsSubsetRec(a.b, b.b, depth)
      else a.Comp? && b.Comp? && IsSubsetRec(b.a, a.a, depth + 1)
    ensures Denote(a, env) <= Denote(b, env)
    decreases Size(a) + Size(b), 0
  {
    if a.Concat? {
      IsSubsetSound(a.a, b.a, depth + 1, env);
      IsSubsetSound(a.b, b.b, depth, env);
      L.CatMono(Denote(a.a, env), Denote(a.b, env), Denote(b.a, env), Denote(b.b, env));
    } else {
      IsSubsetSound(b.a, a.a, depth + 1, env);
    }
  }

  lemma {:induction false} StarRulesSound(a: Regex, b: Regex, depth: nat, env: Env)
    requires LoopsOk(a) && LoopsOk(b) && StarRules(a, b, depth)
    ensures Denote(a, env) <= Denote(b, env)
    decreases Size(a) + Size(b), 0
  {
    var bb := Denote(b.a, env);
    L.StarHas(bb);
    if IsSubsetRec(a, b.a, depth) {
      IsSubsetSound(a, b.a, depth, env);
    } else if a.Star? {
      IsSubsetSound(a.a, b.a, depth + 1, env);
      L.StarMono(Denote(a.a, env), bb);
    } else if b.Plus? {
      IsSubsetSound(a.a, b.a, depth, env);
      L.RepMono(Denote(a.a, env), 1, None, bb, 1, None);
    } else {
      IsSubsetSound(a.a, b.a, depth + 1, env);
      L.RepMono(Denote(a.a, env), 1, None, bb, 0, None);
    }
  }

  lemma {:induction false} SetRulesSound(a: Regex, b: Regex, depth: nat, env: Env)
    requires LoopsOk(a) && LoopsOk(b) && SetRules(a, b, depth)
    ensures Denote(a, env) <= Denote(b, env)
    decreases Size(a) + Size(b), 0
  {
    if b.Union? && IsSubsetRec(a, b.a, depth + 1) {
      IsSubsetSound(a, b.a, depth + 1, env);
    } else if b.Union? && IsSubsetRec(a, b.b, depth + 1) {
      IsSubsetSound(a, b.b, depth + 1, env);
    } else if a.Union? && IsSubsetRec(a.a, b, depth + 1) && IsSubsetRec(a.b, b, depth + 1) {
      IsSubsetSound(a.a, b, depth + 1, env);
      IsSubsetSound(a.b, b, depth + 1, env);
    } else if a.Inter? && IsSubsetRec(a.a, b, depth + 1) {
      IsSubsetSound(a.a, b, depth + 1, env);
    } else if a.Inter? && IsSubsetRec(a.b, b, depth + 1) {
      IsSubsetSound(a.b, b, depth + 1, env);
    } else if b.Inter? && IsSubsetRec(a, b.a, depth + 1) && IsSubsetRec(a, b.b, depth + 1) {
      IsSubsetSound(a, b.a, depth + 1, env);
      IsSubsetSound(a, b.b, depth + 1, env);
    } else if a.Loop? && b.Loop? {
      IsSubsetSound(a.a, b.a, depth + 1, env);
      L.RepMono(Denote(a.a, env), a.lo, a.hi, Denote(b.a, env), b.lo, b.hi);
    } else {
      IsSubsetSound(a.a, b, depth + 1, env);
    }
  }

  lemma {:induction false} IdealRulesSound(a: Regex, b: Regex, depth: nat, env: Env)
    requires LoopsOk(a) && LoopsOk(b) && IdealRules(a, b, depth)
    ensures Denote(a, env) <= Denote(b, env)
    decreases Size(a) + Size(b), 1
  {
    if b.Concat? && FullSeq(b.a) && (IsSubsetRec(a, b.b, depth) || EndsWith(a, b.b)) {
      FullSeqMeans(b.a, env);
      if IsSubsetRec(a, b.b, depth) {
        IsSubsetSound(a, b.b, depth, env);
        L.InCatAll(Denote(b.b, env));
      } else {
        EndsWithMeans(a, b.b, env);
      }
    } else if b.Concat? {
      FullSeqMeans(b.b, env);
      IsSubsetSound(a, b.a, depth, env);
      L.InCatAll(Denote(b.a, env));
    } else {
      CatStarSound(a, b, depth, env);
    }
  }

  lemma {:induction false} CatStarSound(a: Regex, b: Regex, depth: nat, env: Env)
    requires LoopsOk(a) && LoopsOk(b) && a.Concat? && b.Star?
    requires (IsSubsetRec(a.a, b.a, depth + 1) && IsSubsetRec(a.b, b, depth + 1))
      || (IsSubsetRec(a.b, b.a, depth + 1) && IsSubsetRec(a.a, b, depth + 1))
    ensures Denote(a, env) <= Denote(b, env)
    decreases Size(a) + Size(b), 0
  {
    L.StarHas(Denote(b.a, env));
    if IsSubsetRec(a.a, b.a, depth + 1) && IsSubsetRec(a.b, b, depth + 1) {
      IsSubsetSound(a.a, b.a, depth + 1, env);
      IsSubsetSound(a.b, b, depth + 1, env);
    } else {
      IsSubsetSound(a.b, b.a, depth + 1, env);
      IsSubsetSound(a.a, b, depth + 1, env);
    }
    L.StarClosed(Denote(a.a, env), Denote(a.b, env), Denote(b.a, env));
  }
}
