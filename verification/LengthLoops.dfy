/** The loops over residue masks that compute the length domain, each against its specification. */
module LengthLoops {
  import opened Divisors
  import opened LengthAbs

  /** Do any two of the bits below `q`, one from each mask, sum to each residue of the result? */
  method SumsLoop(a: set<nat>, b: set<nat>, q: nat) returns (res: set<nat>)
    requires q > 0
    ensures res == Sums(a, b, q)
  {
    res := {};
    for i := 0 to q
      invariant forall t :: t in res <==> SumBelow(a, b, q, i, t)
    {
      ghost var before := res;
      if i in a {
        for j := 0 to q
          invariant forall t :: t in res <==> t in before || SumIn(b, q, i, j, t)
        {
          if j in b {
            res := res + {(i + j) % q};
          }
          SumInNext(b, q, i, j);
        }
      }
      SumBelowNext(a, b, q, i);
    }
    forall t ensures t in res <==> t in Sums(a, b, q) {
      if SumBelow(a, b, q, q, t) {
        var i :| 0 <= i < q && i in a && SumIn(b, q, i, q, t);
        var j :| 0 <= j < q && j in b && t == (i + j) % q;
      }
      if t in Sums(a, b, q) {
        var i, j :| 0 <= i < q && 0 <= j < q && i in a && j in b && t == (i + j) % q;
        assert SumIn(b, q, i, q, t);
      }
    }
  }

  ghost predicate SumIn(b: set<nat>, q: nat, i: nat, upto: nat, t: nat)
    requires q > 0
  {
    exists j :: 0 <= j < upto && j in b && t == (i + j) % q
  }

  ghost predicate SumBelow(a: set<nat>, b: set<nat>, q: nat, upto: nat, t: nat)
    requires q > 0
  {
    exists i :: 0 <= i < upto && i in a && SumIn(b, q, i, q, t)
  }

  lemma {:induction false} SumInNext(b: set<nat>, q: nat, i: nat, j: nat)
    requires q > 0
    ensures forall t :: SumIn(b, q, i, j + 1, t) <==> SumIn(b, q, i, j, t) || (j in b && t == (i + j) % q)
  {
    forall t ensures SumIn(b, q, i, j + 1, t) <==> SumIn(b, q, i, j, t) || (j in b && t == (i + j) % q) {
      if SumIn(b, q, i, j, t) {
        var k :| 0 <= k < j && k in b && t == (i + k) % q;
        assert 0 <= k < j + 1 && k in b && t == (i + k) % q;
      }
      if SumIn(b, q, i, j + 1, t) {
        var k :| 0 <= k < j + 1 && k in b && t == (i + k) % q;
        assert k == j || (0 <= k < j && k in b && t == (i + k) % q);
      }
      if j in b && t == (i + j) % q {
        assert 0 <= j < j + 1 && j in b && t == (i + j) % q;
      }
    }
  }

  lemma {:induction false} SumBelowNext(a: set<nat>, b: set<nat>, q: nat, i: nat)
    requires q > 0
    ensures forall t :: SumBelow(a, b, q, i + 1, t) <==> SumBelow(a, b, q, i, t) || (i in a && SumIn(b, q, i, q, t))
  {
    forall t ensures SumBelow(a, b, q, i + 1, t) <==> SumBelow(a, b, q, i, t) || (i in a && SumIn(b, q, i, q, t)) {
      if SumBelow(a, b, q, i, t) {
        var k :| 0 <= k < i && k in a && SumIn(b, q, k, q, t);
        assert 0 <= k < i + 1;
      }
    }
  }

  /** The residues of the lengths from `lo` to `hi`. */
  method RangeLoop(a: LenAbs, q: nat) returns (res: set<nat>)
    requires a.Ok() && q > 0 && a.lo <= a.hi
    ensures res == set n | a.lo <= n <= a.hi && n % a.period in a.residues :: n % q
  {
    res := {};
    for n := a.lo to a.hi + 1
      invariant forall t :: t in res <==> exists m :: a.lo <= m < n && m % a.period in a.residues && t == m % q
    {
      if n % a.period in a.residues {
        res := res + {n % q};
      }
    }
  }

  /** The residues of the residues, when the new period divides the old. */
  method CoarserLoop(a: LenAbs, q: nat) returns (res: set<nat>)
    requires a.Ok() && q > 0
    ensures res == set r | 0 <= r < a.period && r in a.residues :: r % q
  {
    res := {};
    for r := 0 to a.period
      invariant forall t :: t in res <==> exists m :: 0 <= m < r && m in a.residues && t == m % q
    {
      if r in a.residues {
        res := res + {r % q};
      }
    }
  }

  /** A residue with all its translates below `q`. */
  method TranslatesLoop(r: nat, p: nat, q: nat) returns (res: set<nat>)
    requires r < p
    ensures forall u: nat :: u in res <==> u < q && Residue(u, p) == r
  {
    res := {};
    var t: nat := r;
    SmallMod(r, p);
    forall u: nat | u < r ensures Residue(u, p) != r {
      SmallMod(u, p);
    }
    while t < q
      invariant Residue(t, p) == r
      invariant forall u: nat :: u in res <==> u < q && u < t && Residue(u, p) == r
    {
      res := res + {t};
      NextTranslate(t, p);
      t := t + p;
    }
  }

  /** Each residue with all its translates below a multiple of the period. */
  method FinerLoop(a: LenAbs, q: nat) returns (res: set<nat>)
    requires a.Ok()
    ensures res == set t | 0 <= t < q && t % a.period in a.residues
  {
    res := {};
    for r := 0 to a.period
      invariant forall t: nat :: t in res <==> t < q && Residue(t, a.period) in a.residues && Residue(t, a.period) < r
    {
      if r in a.residues {
        var ts := TranslatesLoop(r, a.period, q);
        res := res + ts;
      }
    }
    forall t: nat ensures t in res <==> t < q && t % a.period in a.residues {
      assert Residue(t, a.period) < a.period;
    }
  }

  lemma {:induction false} SmallMod(r: nat, p: nat)
    requires r < p
    ensures r % p == r
  {
  }

  lemma {:induction false} NextTranslate(t: nat, p: nat)
    requires p > 0
    ensures Residue(t + p, p) == Residue(t, p)
    ensures forall u: nat :: t < u < t + p ==> Residue(u, p) != Residue(t, p)
  {
    var k, r := t / p, t % p;
    assert t == p * k + r;
    ModUnique(t + p, p, k + 1, r);
    forall u: nat | t < u < t + p ensures Residue(u, p) != Residue(t, p) {
      if u % p == r {
        var m := u / p;
        assert u == p * m + r;
        MultipleGap(p, k, m);
      }
    }
  }

  lemma {:induction false} MultipleGap(p: nat, k: nat, m: nat)
    requires p > 0 && p * k < p * m
    ensures p * k + p <= p * m
  {
    if m <= k {
      ProductMono(p, m, k);
    } else {
      ProductMono(p, k + 1, m);
      assert p * (k + 1) == p * k + p;
    }
  }

  /** The mask of residues, computed bit by bit. */
  method ComputeResiduesMod(a: LenAbs, q: nat) returns (res: set<nat>)
    requires a.Ok()
    ensures res == ResiduesMod(a, q)
  {
    if q == 0 || IsEmpty(a) {
      return {};
    }
    if q >= MAX_PERIOD {
      return Full(q);
    }
    if a.hi != U32_MAX && a.hi - a.lo < MAX_PERIOD {
      res := RangeLoop(a, q);
    } else if q <= a.period && a.period % q == 0 {
      res := CoarserLoop(a, q);
    } else if q > a.period && q % a.period == 0 {
      res := FinerLoop(a, q);
    } else {
      res := Full(q);
    }
  }

  /** The gcd of the allowed lengths, looking at no more than two periods of them. */
  method ComputeGcd(a: LenAbs) returns (g: nat)
    requires a.Ok()
    ensures g == GcdOf(a)
  {
    if IsEmpty(a) {
      return 0;
    }
    var hi := Min(a.hi, Span(a));
    var n := a.lo;
    g := 0;
    while true
      invariant a.lo <= n && GcdFrom(a, n, hi, g) == GcdOf(a)
      decreases hi - n
    {
      if n % a.period in a.residues {
        g := Gcd(g, n);
      }
      if g == 1 {
        return 1;
      }
      if n >= hi {
        break;
      }
      n := n + 1;
    }
    if a.hi == U32_MAX {
      g := Gcd(g, a.period);
    }
  }

  method ComputeConcat(a: LenAbs, b: LenAbs) returns (r: LenAbs)
    requires a.Ok() && b.Ok()
    ensures r == Concat(a, b)
  {
    r := Bounds(AddTruncate(a.lo, b.lo), AddTruncate(a.hi, b.hi));
    var g := Gcd(EffPeriod(a), EffPeriod(b));
    if g > 1 {
      var x := ComputeResiduesMod(a, g);
      var y := ComputeResiduesMod(b, g);
      var s := SumsLoop(x, y, g);
      r := r.(period := g, residues := s);
    }
  }

  /** The residues of `lower` to `upper` summands, one more summand a round. */
  method RepeatLoop(base: set<nat>, q: nat, lower: nat, upper: nat) returns (acc: set<nat>)
    requires q > 0
    ensures acc == SummedRange(base, q, lower, upper)
  {
    acc := {};
    var cur: set<nat> := {0};
    for k := 0 to upper + 1
      invariant acc == if k == 0 then {} else SummedRange(base, q, lower, k - 1)
      invariant cur == Summed(base, q, k)
    {
      if k >= lower {
        acc := acc + cur;
      }
      cur := SumsLoop(cur, base, q);
    }
  }

  method ComputeRepeatRange(a: LenAbs, lower: nat, upper: nat) returns (r: LenAbs)
    requires a.Ok()
    ensures r == RepeatRange(a, lower, upper)
  {
    r := Bounds(MulTruncate(a.lo, lower), MulTruncate(a.hi, upper));
    if upper == U32_MAX || upper > MAX_PERIOD {
      var g := ComputeGcd(a);
      if 1 < g <= MAX_PERIOD {
        r := r.(period := g, residues := {0});
      }
      return;
    }
    var q := a.period;
    if a.period <= 1 {
      q := ComputeGcd(a);
    }
    if 1 < q <= MAX_PERIOD {
      var base := ComputeResiduesMod(a, q);
      var acc := RepeatLoop(base, q, lower, upper);
      r := r.(period := q, residues := acc);
    }
  }
}
