/** The ultimately periodic over-approximation of a set of word lengths. A 64-bit mask is the set of its bits. */
module LengthAbs {
  import opened Divisors

  const U32_MAX: nat := 0xFFFF_FFFF
  /** No period is larger, so that a set of residues has at most 64 elements. */
  const MAX_PERIOD: nat := 64

  datatype LenAbs = LenAbs(lo: nat, hi: nat, period: nat, residues: set<nat>) {
    predicate Ok() {
      lo <= U32_MAX && hi <= U32_MAX && 1 <= period <= MAX_PERIOD && forall r :: r in residues ==> r < period
    }

    /** The length is not excluded. */
    predicate Has(n: nat)
      requires period >= 1
    {
      lo <= n <= hi && n % period in residues
    }

    /** The length is one of the abstracted set, where the largest bound is none. */
    predicate Allows(n: nat)
      requires period >= 1
    {
      lo <= n && (hi == U32_MAX || n <= hi) && n % period in residues
    }
  }

  function Min(a: nat, b: nat): nat {
    if a < b then a else b
  }

  function Max(a: nat, b: nat): nat {
    if a < b then b else a
  }

  function AddTruncate(a: nat, b: nat): nat {
    Min(a + b, U32_MAX)
  }

  function MulTruncate(a: nat, b: nat): nat {
    Min(a * b, U32_MAX)
  }

  /** The lengths from `lo` to `hi`. */
  function Bounds(lo: nat, hi: nat): LenAbs {
    LenAbs(lo, hi, 1, {0})
  }

  const TOP := Bounds(0, U32_MAX)

  // ----- periods -----

  function BoundedLcm(a: nat, b: nat): nat {
    if a == 0 then b
    else if b == 0 then a
    else
      GcdPositive(a, b);
      var l := a / Gcd(a, b) * b;
      if l > MAX_PERIOD then 0 else l
  }

  function CommonPeriod(a: nat, b: nat): nat {
    var l := BoundedLcm(a, b);
    var q := if l == 0 then Gcd(a, b) else l;
    if q == 0 then 1 else q
  }

  lemma {:induction false} CommonPeriodOk(a: nat, b: nat)
    requires a <= MAX_PERIOD && b <= MAX_PERIOD
    ensures 1 <= CommonPeriod(a, b) <= MAX_PERIOD
  {
    GcdPositive(a, b);
  }

  // ----- the operations -----

  function IsEmpty(a: LenAbs): bool
    requires a.Ok()
  {
    if a.lo > a.hi || a.residues == {} then true
    else if a.period <= 1 then false
    else if a.hi == U32_MAX || a.hi - a.lo >= a.period - 1 then false
    else !exists n :: a.lo <= n <= a.hi && n % a.period in a.residues
  }

  function Below(n: nat): (s: set<nat>)
    ensures forall r: nat :: r in s <==> r < n
  {
    if n == 0 then {} else Below(n - 1) + {n - 1}
  }

  function Full(q: nat): set<nat> {
    Below(Min(q, MAX_PERIOD))
  }

  /** At least the residues that lengths of the set leave when divided by `q`. */
  function ResiduesMod(a: LenAbs, q: nat): (s: set<nat>)
    requires a.Ok()
    ensures forall r :: r in s ==> r < q
  {
    if q == 0 || IsEmpty(a) then {}
    else if q >= MAX_PERIOD then Full(q)
    else if a.hi != U32_MAX && a.hi - a.lo < MAX_PERIOD then
      set n | a.lo <= n <= a.hi && n % a.period in a.residues :: n % q
    else if q <= a.period && a.period % q == 0 then
      set r | 0 <= r < a.period && r in a.residues :: r % q
    else if q > a.period && q % a.period == 0 then
      set t | 0 <= t < q && t % a.period in a.residues
    else Full(q)
  }

  function GcdFrom(a: LenAbs, n: nat, hi: nat, g: nat): nat
    requires a.Ok()
    decreases hi - n
  {
    var g' := if n % a.period in a.residues then Gcd(g, n) else g;
    if g' == 1 then 1
    else if n >= hi then (if a.hi == U32_MAX then Gcd(g', a.period) else g')
    else GcdFrom(a, n + 1, hi, g')
  }

  function Span(a: LenAbs): nat
    requires a.Ok()
  {
    if a.period > (U32_MAX - a.lo) / 2 then U32_MAX else a.lo + 2 * a.period
  }

  /** The gcd of the abstracted set. */
  function GcdOf(a: LenAbs): nat
    requires a.Ok()
  {
    if IsEmpty(a) then 0 else GcdFrom(a, a.lo, Min(a.hi, Span(a)), 0)
  }

  function EffPeriod(a: LenAbs): nat {
    if a.lo == a.hi then 0 else a.period
  }

  /** The pairwise sums modulo `q`. */
  function Sums(a: set<nat>, b: set<nat>, q: nat): (s: set<nat>)
    requires q > 0
    ensures forall r :: r in s ==> r < q
  {
    set i, j | 0 <= i < q && 0 <= j < q && i in a && j in b :: (i + j) % q
  }

  function Concat(a: LenAbs, b: LenAbs): (r: LenAbs)
    requires a.Ok() && b.Ok()
    ensures r.Ok()
  {
    var r := Bounds(AddTruncate(a.lo, b.lo), AddTruncate(a.hi, b.hi));
    GcdPositive(EffPeriod(a), EffPeriod(b));
    var g := Gcd(EffPeriod(a), EffPeriod(b));
    if g > 1 then r.(period := g, residues := Sums(ResiduesMod(a, g), ResiduesMod(b, g), g)) else r
  }

  function Unite(a: LenAbs, b: LenAbs): (r: LenAbs)
    requires a.Ok() && b.Ok()
    ensures r.Ok()
  {
    var r := Bounds(Min(a.lo, b.lo), Max(a.hi, b.hi));
    CommonPeriodOk(EffPeriod(a), EffPeriod(b));
    var q := CommonPeriod(EffPeriod(a), EffPeriod(b));
    if q > 1 then r.(period := q, residues := ResiduesMod(a, q) + ResiduesMod(b, q)) else r
  }

  function Meet(a: LenAbs, b: LenAbs): (r: LenAbs)
    requires a.Ok() && b.Ok()
    ensures r.Ok()
  {
    var r := Bounds(Max(a.lo, b.lo), Min(a.hi, b.hi));
    CommonPeriodOk(EffPeriod(a), EffPeriod(b));
    var q := CommonPeriod(EffPeriod(a), EffPeriod(b));
    if q > 1 then r.(period := q, residues := ResiduesMod(a, q) * ResiduesMod(b, q)) else r
  }

  /** The multiples of the gcd, from `lo` on. */
  function Repeat(a: LenAbs, lo: nat): (r: LenAbs)
    requires a.Ok() && lo <= U32_MAX
    ensures r.Ok()
  {
    var r := Bounds(lo, if a.hi == 0 then 0 else U32_MAX);
    var g := GcdOf(a);
    if 1 < g <= MAX_PERIOD then r.(period := g, residues := {0}) else r
  }

  function Star(a: LenAbs): (r: LenAbs)
    requires a.Ok()
    ensures r.Ok()
  {
    Repeat(a, 0)
  }

  function Plus(a: LenAbs): (r: LenAbs)
    requires a.Ok()
    ensures r.Ok()
  {
    Repeat(a, a.lo)
  }

  function Opt(a: LenAbs): (r: LenAbs)
    requires a.Ok()
    ensures r.Ok()
  {
    LenAbs(0, a.hi, a.period, a.residues + {0})
  }

  /** The residues of `k` summands. */
  function Summed(base: set<nat>, q: nat, k: nat): (s: set<nat>)
    requires q > 0
    ensures forall r :: r in s ==> r < q
  {
    if k == 0 then {0} else Sums(Summed(base, q, k - 1), base, q)
  }

  function SummedRange(base: set<nat>, q: nat, lower: nat, k: nat): (s: set<nat>)
    requires q > 0
    ensures forall r :: r in s ==> r < q
  {
    (if k == 0 then {} else SummedRange(base, q, lower, k - 1)) + (if k >= lower then Summed(base, q, k) else {})
  }

  function RepeatRange(a: LenAbs, lower: nat, upper: nat): (r: LenAbs)
    requires a.Ok()
    ensures r.Ok()
  {
    var r := Bounds(MulTruncate(a.lo, lower), MulTruncate(a.hi, upper));
    if upper == U32_MAX || upper > MAX_PERIOD then
      var g := GcdOf(a);
      if 1 < g <= MAX_PERIOD then r.(period := g, residues := {0}) else r
    else
      var q := if a.period > 1 then a.period else GcdOf(a);
      if 1 < q <= MAX_PERIOD then r.(period := q, residues := SummedRange(ResiduesMod(a, q), q, lower, upper)) else r
  }

  /** Whether the residues admit some member of the progression from `cst` in steps of `g`. */
  function ResidueReachable(a: LenAbs, cst: nat, g: nat): bool
    requires a.Ok()
  {
    var c := cst % a.period;
    GcdPositive(g, a.period);
    var d := if g == 0 then a.period else Gcd(g, a.period);
    exists i :: 0 <= i < a.period && i in a.residues && (if g == 0 then i == c else (i + a.period - c) % d == 0)
  }

  // ----- soundness -----

  /** The test for emptiness is exact. */
  lemma {:induction false} EmptyIff(a: LenAbs)
    requires a.Ok()
    ensures IsEmpty(a) <==> forall n: nat :: !a.Allows(n)
  {
    if !IsEmpty(a) {
      if a.period <= 1 || a.hi == U32_MAX || a.hi - a.lo >= a.period - 1 {
        var r :| r in a.residues;
        var n := NextWith(a.lo, r, a.period);
        assert a.Allows(n);
      } else {
        var n :| a.lo <= n <= a.hi && n % a.period in a.residues;
        assert a.Allows(n);
      }
    }
  }

  /** The first number from `lo` on with the residue. */
  lemma {:induction false} NextWith(lo: nat, r: nat, p: nat) returns (n: nat)
    requires r < p
    ensures lo <= n < lo + p && n % p == r
  {
    var q, s := lo / p, lo % p;
    assert lo == p * q + s;
    n := if s <= r then p * q + r else p * (q + 1) + r;
    assert p * (q + 1) == p * q + p;
    ModUnique(n, p, if s <= r then q else q + 1, r);
  }

  lemma {:induction false} ModMod(n: nat, p: nat, q: nat)
    requires p > 0 && q > 0 && p % q == 0
    ensures n % q == (n % p) % q
  {
    var k, z := DivMod(p, q);
    var m, r := DivMod(n, p);
    var j, t := DivMod(r, q);
    ProductAssoc(q, k, m);
    NestedSum(q, k * m, j);
    ModUnique(n, q, k * m + j, t);
  }

  lemma {:induction false} NestedSum(q: nat, a: nat, b: nat)
    ensures q * a + q * b == q * (a + b)
  {
  }

  lemma {:induction false} ProductAssoc(a: nat, b: nat, c: nat)
    ensures a * b * c == a * (b * c)
  {
  }

  lemma {:induction false} ResiduesModSound(a: LenAbs, q: nat, n: nat)
    requires a.Ok() && 1 <= q <= MAX_PERIOD && a.Has(n)
    ensures n % q in ResiduesMod(a, q)
  {
    if q < MAX_PERIOD && !(a.hi != U32_MAX && a.hi - a.lo < MAX_PERIOD) {
      if q <= a.period && a.period % q == 0 {
        ModMod(n, a.period, q);
        assert n % a.period in a.residues;
      } else if q > a.period && q % a.period == 0 {
        ModMod(n, q, a.period);
      }
    }
  }

  lemma {:induction false} GcdFromDivides(a: LenAbs, n: nat, hi: nat, g: nat, m: nat)
    requires a.Ok()
    ensures Multiple(GcdFrom(a, n, hi, g), g)
    ensures n <= m <= hi && m % a.period in a.residues ==> Multiple(GcdFrom(a, n, hi, g), m)
    ensures a.hi == U32_MAX ==> Multiple(GcdFrom(a, n, hi, g), a.period)
    decreases hi - n
  {
    var g' := if n % a.period in a.residues then Gcd(g, n) else g;
    var r := GcdFrom(a, n, hi, g);
    GcdDivides(g, n);
    MultipleBy(g, g, 1);
    if g' == 1 {
      MultipleBy(1, g, g);
      MultipleBy(1, m, m);
      MultipleBy(1, a.period, a.period);
    } else if n >= hi {
      GcdDivides(g', a.period);
      MultipleBy(g', g', 1);
      MultipleTrans(r, g', g);
      if n == m && m % a.period in a.residues {
        MultipleTrans(r, g', m);
      }
    } else {
      GcdFromDivides(a, n + 1, hi, g', m);
      MultipleTrans(r, g', g);
      if n == m && m % a.period in a.residues {
        MultipleTrans(r, g', m);
      }
    }
  }

  /** Every length of the set is a multiple of its gcd, the unseen ones included. */
  lemma {:induction false} GcdOfSound(a: LenAbs, n: nat)
    requires a.Ok() && a.Has(n)
    ensures Multiple(GcdOf(a), n)
  {
    var r, p, hi := GcdOf(a), a.period, Min(a.hi, Span(a));
    if n <= hi {
      GcdFromDivides(a, a.lo, hi, 0, n);
    } else {
      var t, e := (n - a.lo) / p, (n - a.lo) % p;
      var m := a.lo + e;
      assert n == p * t + m;
      SameResidue(m, p, t);
      SameResidue(m, p, 1);
      GcdFromDivides(a, a.lo, hi, 0, m);
      GcdFromDivides(a, a.lo, hi, 0, m + p);
      MultipleSub(r, m + p, m);
      MultipleTimes(r, p, t);
      MultipleAdd(r, p * t, m);
    }
  }

  lemma {:induction false} GcdFromGreatest(a: LenAbs, n: nat, hi: nat, g: nat, d: nat)
    requires a.Ok() && a.lo <= n && hi <= a.hi && Multiple(d, g)
    requires forall m: nat :: a.Allows(m) ==> Multiple(d, m)
    requires a.hi == U32_MAX ==> Multiple(d, a.period)
    requires n <= hi
    ensures Multiple(d, GcdFrom(a, n, hi, g))
    decreases hi - n
  {
    var g' := if n % a.period in a.residues then Gcd(g, n) else g;
    if n % a.period in a.residues {
      assert a.Allows(n);
      GcdGreatest(d, g, n);
    }
    if g' != 1 {
      if n >= hi {
        if a.hi == U32_MAX {
          GcdGreatest(d, g', a.period);
        }
      } else {
        GcdFromGreatest(a, n + 1, hi, g', d);
      }
    }
  }

  /** What divides all lengths of the set divides its gcd. */
  lemma {:induction false} GcdOfGreatest(a: LenAbs, d: nat)
    requires a.Ok() && forall m: nat :: a.Allows(m) ==> Multiple(d, m)
    ensures Multiple(d, GcdOf(a))
  {
    MultipleBy(d, 0, 0);
    if !IsEmpty(a) {
      if a.hi == U32_MAX {
        EmptyIff(a);
        var n: nat :| a.Allows(n);
        SameResidue(n, a.period, 1);
        assert a.Allows(n + a.period);
        MultipleSub(d, n + a.period, n);
      }
      GcdFromGreatest(a, a.lo, Min(a.hi, Span(a)), 0, d);
    }
  }

  lemma {:induction false} SameResidue(m: nat, p: nat, t: nat)
    requires p > 0
    ensures (m + p * t) % p == m % p
  {
    var q, r := m / p, m % p;
    assert m == p * q + r;
    assert p * q + p * t == p * (q + t);
    ModUnique(m + p * t, p, q + t, r);
  }

  lemma {:induction false} SumResidue(m: nat, n: nat, q: nat)
    requires q > 0
    ensures (m + n) % q == (m % q + n % q) % q
  {
    SameResidue(m % q + n % q, q, m / q + n / q);
    assert m == q * (m / q) + m % q && n == q * (n / q) + n % q;
    assert q * (m / q) + q * (n / q) == q * (m / q + n / q);
  }

  lemma {:induction false} ConcatSound(a: LenAbs, b: LenAbs, m: nat, n: nat)
    requires a.Ok() && b.Ok() && a.Has(m) && b.Has(n) && m + n <= U32_MAX
    ensures Concat(a, b).Has(m + n)
  {
    GcdPositive(EffPeriod(a), EffPeriod(b));
    var g := Gcd(EffPeriod(a), EffPeriod(b));
    if g > 1 {
      ResiduesModSound(a, g, m);
      ResiduesModSound(b, g, n);
      ResidueOfSum(ResiduesMod(a, g), ResiduesMod(b, g), g, m, n);
    }
  }

  lemma {:induction false} UniteSound(a: LenAbs, b: LenAbs, n: nat)
    requires a.Ok() && b.Ok() && (a.Has(n) || b.Has(n))
    ensures Unite(a, b).Has(n)
  {
    CommonPeriodOk(EffPeriod(a), EffPeriod(b));
    var q := CommonPeriod(EffPeriod(a), EffPeriod(b));
    if a.Has(n) {
      ResiduesModSound(a, q, n);
    } else {
      ResiduesModSound(b, q, n);
    }
  }

  lemma {:induction false} MeetSound(a: LenAbs, b: LenAbs, n: nat)
    requires a.Ok() && b.Ok() && a.Has(n) && b.Has(n)
    ensures Meet(a, b).Has(n)
  {
    CommonPeriodOk(EffPeriod(a), EffPeriod(b));
    var q := CommonPeriod(EffPeriod(a), EffPeriod(b));
    ResiduesModSound(a, q, n);
    ResiduesModSound(b, q, n);
  }

  lemma {:induction false} OptSound(a: LenAbs, n: nat)
    requires a.Ok() && (n == 0 || a.Has(n))
    ensures Opt(a).Has(n)
  {
  }

  /** A sum of lengths of the set, as `Star`, `Plus` and `RepeatRange` see it. */
  ghost predicate SumOf(a: LenAbs, k: nat, n: nat)
    requires a.Ok()
  {
    if k == 0 then n == 0 else exists m: nat :: m <= n && a.Has(m) && SumOf(a, k - 1, n - m)
  }

  lemma {:induction false} SumOfSound(a: LenAbs, k: nat, n: nat)
    requires a.Ok() && SumOf(a, k, n)
    ensures a.lo * k <= n <= a.hi * k && Multiple(GcdOf(a), n)
  {
    if k == 0 {
      MultipleBy(GcdOf(a), 0, 0);
    } else {
      var m: nat :| m <= n && a.Has(m) && SumOf(a, k - 1, n - m);
      SumOfSound(a, k - 1, n - m);
      GcdOfSound(a, m);
      MultipleAdd(GcdOf(a), m, n - m);
      OneMore(a.lo, k);
      OneMore(a.hi, k);
    }
  }

  lemma {:induction false} OneMore(c: nat, k: nat)
    requires k > 0
    ensures c * k == c * (k - 1) + c
  {
  }

  function Residue(n: nat, q: nat): nat
    requires q > 0
  {
    n % q
  }

  lemma {:induction false} ZeroResidue(q: nat)
    requires q > 0
    ensures Residue(0, q) == 0
  {
  }

  lemma {:induction false} SumOfResidue(a: LenAbs, k: nat, n: nat, q: nat)
    requires a.Ok() && SumOf(a, k, n) && 1 <= q <= MAX_PERIOD
    ensures Residue(n, q) in Summed(ResiduesMod(a, q), q, k)
  {
    forall m: nat | a.Has(m) ensures Residue(m, q) in ResiduesMod(a, q) {
      ResiduesModSound(a, q, m);
    }
    SumOfResidues(a, k, n, q, ResiduesMod(a, q));
  }

  lemma {:induction false} SumOfResidues(a: LenAbs, k: nat, n: nat, q: nat, base: set<nat>)
    requires a.Ok() && SumOf(a, k, n) && q >= 1 && forall m: nat :: a.Has(m) ==> Residue(m, q) in base
    ensures Residue(n, q) in Summed(base, q, k)
  {
    if k == 0 {
      ZeroResidue(q);
      assert Summed(base, q, 0) == {0};
    } else {
      var m: nat :| m <= n && a.Has(m) && SumOf(a, k - 1, n - m);
      assert Residue(m, q) in base;
      SumOfResidues(a, k - 1, n - m, q, base);
      SummedStep(base, q, k, n - m, m, n);
    }
  }

  lemma {:induction false} SummedStep(base: set<nat>, q: nat, k: nat, m: nat, n: nat, sum: nat)
    requires q >= 1 && k > 0 && Residue(m, q) in Summed(base, q, k - 1) && Residue(n, q) in base && sum == m + n
    ensures Residue(sum, q) in Summed(base, q, k)
  {
    ResidueOfSum(Summed(base, q, k - 1), base, q, m, n);
  }

  lemma {:induction false} ResidueOfSum(a: set<nat>, b: set<nat>, q: nat, m: nat, n: nat)
    requires q > 0 && m % q in a && n % q in b
    ensures (m + n) % q in Sums(a, b, q)
  {
    SumResidue(m, n, q);
  }

  lemma {:induction false} RepeatSound(a: LenAbs, k: nat, n: nat, lo: nat)
    requires a.Ok() && SumOf(a, k, n) && lo <= n <= U32_MAX
    ensures Repeat(a, lo).Has(n)
  {
    SumOfSound(a, k, n);
    var g := GcdOf(a);
    if g > 1 {
      MultipleMod(g, n);
    }
  }

  lemma {:induction false} SummedRangeHas(base: set<nat>, q: nat, lower: nat, upper: nat, k: nat)
    requires q > 0 && lower <= k <= upper
    ensures Summed(base, q, k) <= SummedRange(base, q, lower, upper)
    decreases upper
  {
    if k < upper {
      SummedRangeHas(base, q, lower, upper - 1, k);
    }
  }

  lemma {:induction false} RepeatRangeSound(a: LenAbs, lower: nat, upper: nat, k: nat, n: nat)
    requires a.Ok() && SumOf(a, k, n) && n <= U32_MAX && lower <= k && (k <= upper || upper == U32_MAX)
    ensures RepeatRange(a, lower, upper).Has(n)
  {
    SumOfSound(a, k, n);
    ProductMono(a.lo, lower, k);
    if k <= upper {
      ProductMono(a.hi, k, upper);
    } else if a.hi > 0 {
      ProductMono(upper, 1, a.hi);
    }
    if upper == U32_MAX || upper > MAX_PERIOD {
      var g := GcdOf(a);
      if g > 1 {
        MultipleMod(g, n);
      }
    } else {
      var q := if a.period > 1 then a.period else GcdOf(a);
      if 1 < q <= MAX_PERIOD {
        SumOfResidue(a, k, n, q);
        SummedRangeHas(ResiduesMod(a, q), q, lower, upper, k);
      }
    }
  }

  lemma {:induction false} ProductMono(c: nat, a: nat, b: nat)
    requires a <= b
    ensures c * a <= c * b && a * c <= b * c
  {
    assert c * b == c * a + c * (b - a);
  }

  // ----- tightness -----

  /** Far from the largest bound, where a length of every residue the set has is below that bound. */
  predicate Roomy(a: LenAbs) {
    a.Ok() && a.lo + MAX_PERIOD <= U32_MAX
  }

  /** The division by `q` tells the residues of the set apart without loss. */
  predicate Exact(a: LenAbs, q: nat) {
    1 <= q < MAX_PERIOD && a.period >= 1 && (a.lo == a.hi || a.period % q == 0 || q % a.period == 0)
  }

  /** Some length of the set leaves the residue. */
  ghost predicate Met(a: LenAbs, q: nat, r: nat)
    requires a.Ok() && q >= 1
  {
    exists n: nat :: a.Has(n) && Residue(n, q) == r
  }

  /** Where the division loses nothing, the residues are exactly those of the set's lengths. */
  lemma {:induction false} ResiduesModIff(a: LenAbs, q: nat, r: nat)
    requires Roomy(a) && Exact(a, q)
    ensures r in ResiduesMod(a, q) <==> Met(a, q, r)
  {
    if n: nat :| a.Has(n) && Residue(n, q) == r {
      ResiduesModSound(a, q, n);
    }
    if r in ResiduesMod(a, q) {
      if a.hi != U32_MAX && a.hi - a.lo < MAX_PERIOD {
        var n :| a.lo <= n <= a.hi && n % a.period in a.residues && r == n % q;
        assert a.Has(n) && Residue(n, q) == r;
      } else if q <= a.period && a.period % q == 0 {
        var t :| 0 <= t < a.period && t in a.residues && r == t % q;
        var n := NextWith(a.lo, t, a.period);
        ModMod(n, a.period, q);
        assert a.Has(n) && Residue(n, q) == r;
      } else {
        SmallMod(q, a.period);
        var n := NextWith(a.lo, r, q);
        ModMod(n, q, a.period);
        assert a.Has(n) && Residue(n, q) == r;
      }
    }
  }

  lemma {:induction false} SmallMod(q: nat, p: nat)
    requires 1 <= p && 1 <= q
    ensures q < p ==> q % p == q
    ensures p < q ==> p % q == p
  {
    if q < p {
      ModUnique(q, p, 0, q);
    } else if p < q {
      ModUnique(p, q, 0, p);
    }
  }

  /** The gcd of the periods divides both of them. */
  lemma {:induction false} GcdExact(a: LenAbs, b: LenAbs)
    requires a.Ok() && b.Ok() && 1 <= Gcd(EffPeriod(a), EffPeriod(b)) < MAX_PERIOD
    ensures Exact(a, Gcd(EffPeriod(a), EffPeriod(b))) && Exact(b, Gcd(EffPeriod(a), EffPeriod(b)))
  {
    var g := Gcd(EffPeriod(a), EffPeriod(b));
    GcdDivides(EffPeriod(a), EffPeriod(b));
    MultipleMod(g, EffPeriod(a));
    MultipleMod(g, EffPeriod(b));
  }

  /** The common period that is not cut down to the gcd is a multiple of both periods. */
  lemma {:induction false} LcmMultiple(a: nat, b: nat)
    ensures BoundedLcm(a, b) > 0 && a > 0 ==> BoundedLcm(a, b) % a == 0
    ensures BoundedLcm(a, b) > 0 && b > 0 ==> BoundedLcm(a, b) % b == 0
  {
    if a > 0 && b > 0 {
      var g := Gcd(a, b);
      GcdDivides(a, b);
      GcdPositive(a, b);
      MultipleMod(g, a);
      ExactQuotient(a, g);
      MultipleBy(b, a / g * b, a / g);
      MultipleMod(b, a / g * b);
      MultipleMod(g, b);
      ExactQuotient(b, g);
      LcmSwap(a / g, b / g, g);
      MultipleBy(a, a / g * b, b / g);
      MultipleMod(a, a / g * b);
    } else if b > 0 {
      MultipleMod(b, b);
      MultipleBy(b, b, 1);
    } else if a > 0 {
      MultipleMod(a, a);
      MultipleBy(a, a, 1);
    }
  }

  lemma {:induction false} LcmSwap(i: nat, j: nat, g: nat)
    ensures i * (g * j) == (g * i) * j
  {
    assert i * (g * j) == (i * g) * j;
  }

  /** Sums of lengths leave every residue that the concatenation allows. */
  lemma {:induction false} ConcatTight(a: LenAbs, b: LenAbs, r: nat)
    requires Roomy(a) && Roomy(b) && 1 < Gcd(EffPeriod(a), EffPeriod(b)) < MAX_PERIOD && r in Concat(a, b).residues
    ensures exists m: nat, n: nat :: a.Has(m) && b.Has(n) && Residue(m + n, Gcd(EffPeriod(a), EffPeriod(b))) == r
  {
    var g := Gcd(EffPeriod(a), EffPeriod(b));
    GcdExact(a, b);
    var i, j := SumsOf(ResiduesMod(a, g), ResiduesMod(b, g), g, r);
    ResiduesModIff(a, g, i);
    ResiduesModIff(b, g, j);
    var m: nat :| a.Has(m) && Residue(m, g) == i;
    var n: nat :| b.Has(n) && Residue(n, g) == j;
    ResidueAdd(m, n, g, i, j);
  }

  /** A length of either side leaves every residue that the union allows. */
  lemma {:induction false} UniteTight(a: LenAbs, b: LenAbs, r: nat)
    requires Roomy(a) && Roomy(b) && 1 < CommonPeriod(EffPeriod(a), EffPeriod(b)) < MAX_PERIOD
    ensures r in Unite(a, b).residues <==>
      Met(a, CommonPeriod(EffPeriod(a), EffPeriod(b)), r) || Met(b, CommonPeriod(EffPeriod(a), EffPeriod(b)), r)
  {
    var q := CommonPeriod(EffPeriod(a), EffPeriod(b));
    if BoundedLcm(EffPeriod(a), EffPeriod(b)) == 0 {
      GcdExact(a, b);
    } else {
      LcmMultiple(EffPeriod(a), EffPeriod(b));
    }
    ResiduesModIff(a, q, r);
    ResiduesModIff(b, q, r);
  }

  /** Where the common period is a multiple of both periods, the meet has exactly the lengths of both. */
  lemma {:induction false} MeetIff(a: LenAbs, b: LenAbs, n: nat)
    requires Roomy(a) && Roomy(b) && !IsEmpty(a) && !IsEmpty(b)
    requires EffPeriod(a) == EffPeriod(b) == 0 || 0 < BoundedLcm(EffPeriod(a), EffPeriod(b)) < MAX_PERIOD
    ensures Meet(a, b).Has(n) <==> a.Has(n) && b.Has(n)
  {
    if a.Has(n) && b.Has(n) {
      MeetSound(a, b, n);
    }
    if Meet(a, b).Has(n) {
      LcmMultiple(EffPeriod(a), EffPeriod(b));
      CommonPeriodOk(EffPeriod(a), EffPeriod(b));
      var q := CommonPeriod(EffPeriod(a), EffPeriod(b));
      MeetSide(a, q, n);
      MeetSide(b, q, n);
    }
  }

  lemma {:induction false} MeetSide(a: LenAbs, q: nat, n: nat)
    requires Roomy(a) && !IsEmpty(a) && 1 <= q < MAX_PERIOD && a.lo <= n <= a.hi
    requires a.lo < a.hi ==> q % a.period == 0
    requires q > 1 ==> n % q in ResiduesMod(a, q)
    ensures a.Has(n)
  {
    EmptyIff(a);
    if a.lo == a.hi {
      var m: nat :| a.Allows(m);
      assert m == n;
    } else if q == 1 {
      SmallMod(q, a.period);
      var r :| r in a.residues;
      assert r == 0;
    } else {
      ResiduesModIff(a, q, n % q);
      var m: nat :| a.Has(m) && Residue(m, q) == n % q;
      ModMod(m, q, a.period);
      ModMod(n, q, a.period);
    }
  }

  /** `k` lengths of the set add up to every residue of `k` summands. */
  lemma {:induction false} SummedTight(a: LenAbs, q: nat, k: nat, r: nat) returns (n: nat)
    requires Roomy(a) && Exact(a, q) && r in Summed(ResiduesMod(a, q), q, k)
    ensures SumOf(a, k, n) && Residue(n, q) == r
  {
    if k == 0 {
      n := 0;
      ZeroResidue(q);
    } else {
      var i, j := SumsOf(Summed(ResiduesMod(a, q), q, k - 1), ResiduesMod(a, q), q, r);
      var rest := SummedTight(a, q, k - 1, i);
      ResiduesModIff(a, q, j);
      var m: nat :| a.Has(m) && Residue(m, q) == j;
      ResidueAdd(rest, m, q, i, j);
      n := rest + m;
      assert SumOf(a, k - 1, n - m);
    }
  }

  lemma {:induction false} SumsOf(a: set<nat>, b: set<nat>, q: nat, r: nat) returns (i: nat, j: nat)
    requires q > 0 && r in Sums(a, b, q)
    ensures i in a && j in b && Residue(i + j, q) == r
  {
    i, j :| 0 <= i < q && 0 <= j < q && i in a && j in b && (i + j) % q == r;
  }

  lemma {:induction false} ResidueAdd(m: nat, n: nat, q: nat, i: nat, j: nat)
    requires q > 0 && Residue(m, q) == i && Residue(n, q) == j
    ensures Residue(m + n, q) == Residue(i + j, q)
  {
    SumResidue(m, n, q);
  }

  lemma {:induction false} SummedRangeOf(base: set<nat>, q: nat, lower: nat, upper: nat, r: nat) returns (k: nat)
    requires q > 0 && r in SummedRange(base, q, lower, upper)
    ensures lower <= k <= upper && r in Summed(base, q, k)
    decreases upper
  {
    if upper >= lower && r in Summed(base, q, upper) {
      k := upper;
    } else {
      k := SummedRangeOf(base, q, lower, upper - 1, r);
    }
  }

  /** A number of lengths from the range adds up to every residue that a bounded repetition allows. */
  lemma {:induction false} RepeatRangeTight(a: LenAbs, lower: nat, upper: nat, r: nat) returns (k: nat, n: nat)
    requires Roomy(a) && upper <= MAX_PERIOD && r in RepeatRange(a, lower, upper).residues
    requires 1 < RepeatRange(a, lower, upper).period < MAX_PERIOD
    ensures lower <= k <= upper && SumOf(a, k, n) && Residue(n, RepeatRange(a, lower, upper).period) == r
  {
    var q := RepeatRange(a, lower, upper).period;
    k := SummedRangeOf(ResiduesMod(a, q), q, lower, upper, r);
    OwnPeriod(q, a.period);
    n := SummedTight(a, q, k, r);
  }

  lemma {:induction false} OwnPeriod(q: nat, p: nat)
    requires q >= 1 && (p == q || p == 1)
    ensures q % p == 0
  {
  }

  // ----- reachable residues -----

  /** Some length `cst + g * k` has one of the residues. */
  ghost predicate Reaches(a: LenAbs, cst: nat, g: nat)
    requires a.Ok()
  {
    exists k: nat :: (cst + g * k) % a.period in a.residues
  }

  lemma {:induction false} ResidueReachableIff(a: LenAbs, cst: nat, g: nat)
    requires a.Ok()
    ensures ResidueReachable(a, cst, g) <==> Reaches(a, cst, g)
  {
    if ResidueReachable(a, cst, g) {
      ReachableReaches(a, cst, g);
    }
    if k: nat :| (cst + g * k) % a.period in a.residues {
      ReachesReachable(a, cst, g, k);
    }
  }

  lemma {:induction false} ReachesReachable(a: LenAbs, cst: nat, g: nat, k: nat)
    requires a.Ok() && (cst + g * k) % a.period in a.residues
    ensures ResidueReachable(a, cst, g)
  {
    var p, c := a.period, cst % a.period;
    var i := (cst + g * k) % p;
    if g == 0 {
      assert g * k == 0;
      assert i == c;
    } else {
      GcdPositive(g, p);
      ReachedResidue(cst, g, k, p, Gcd(g, p));
    }
  }

  lemma {:induction false} ReachedResidue(cst: nat, g: nat, k: nat, p: nat, d: nat)
    requires p > 0 && d > 0 && d == Gcd(g, p)
    ensures ((cst + g * k) % p + p - cst % p) % d == 0
  {
    var gk := g * k;
    MultipleBy(g, gk, k);
    GcdDivides(g, p);
    MultipleTrans(d, g, gk);
    var x, i := DivMod(cst + gk, p);
    var y, c := DivMod(cst, p);
    ReachedMultiple(cst, gk, p, d, x, y, i, c);
    MultipleMod(d, i + p - c);
  }

  lemma {:induction false} DivMod(n: nat, p: nat) returns (q: nat, r: nat)
    requires p > 0
    ensures n == p * q + r && r < p && r == n % p
  {
    q, r := n / p, n % p;
  }

  lemma {:induction false} ReachedMultiple(cst: nat, gk: nat, p: nat, d: nat, x: nat, y: nat, i: nat, c: nat)
    requires cst + gk == p * x + i && cst == p * y + c && c < p && Multiple(d, gk) && Multiple(d, p)
    ensures Multiple(d, i + p - c)
  {
    MultipleTimes(d, p, y + 1);
    MultipleAdd(d, gk, p * (y + 1));
    MultipleTimes(d, p, x);
    ReachedDifference(cst, gk, p, x, y, i, c);
    MultipleSub(d, gk + p * (y + 1), p * x);
  }

  lemma {:induction false} ReachedDifference(cst: nat, gk: nat, p: nat, x: nat, y: nat, i: nat, c: nat)
    requires cst + gk == p * x + i && cst == p * y + c && c < p
    ensures gk + p * (y + 1) - p * x == i + p - c >= 0
  {
    assert p * (y + 1) == p * y + p;
  }

  lemma {:induction false} ReachableReaches(a: LenAbs, cst: nat, g: nat)
    requires a.Ok() && ResidueReachable(a, cst, g)
    ensures Reaches(a, cst, g)
  {
    var p, c := a.period, cst % a.period;
    GcdPositive(g, p);
    var d := if g == 0 then p else Gcd(g, p);
    var i :| 0 <= i < p && i in a.residues && (if g == 0 then i == c else (i + p - c) % d == 0);
    if g == 0 {
      assert (cst + g * 0) % p in a.residues;
    } else {
      ReachWitness(a, cst, g, i);
    }
  }

  lemma {:induction false} ReachWitness(a: LenAbs, cst: nat, g: nat, i: nat)
    requires a.Ok() && g > 0 && i < a.period && i in a.residues
    requires Gcd(g, a.period) > 0 && (i + a.period - cst % a.period) % Gcd(g, a.period) == 0
    ensures Reaches(a, cst, g)
  {
    var p, c := a.period, cst % a.period;
    ExactQuotient(i + p - c, Gcd(g, p));
    var k, u, v := ReachCombination(g, p, (i + p - c) / Gcd(g, p));
    ReachStep(cst, g, k, p, c, i, i + p - c, u, v);
  }

  lemma {:induction false} ExactQuotient(n: nat, d: nat)
    requires d > 0 && n % d == 0
    ensures d * (n / d) == n
  {
  }

  /** Bezout's combination of a multiple of the gcd, with a nonnegative first factor. */
  lemma {:induction false} ReachCombination(g: nat, p: nat, t: nat) returns (k: nat, u: int, v: int)
    requires p >= 1
    ensures g * k == Gcd(g, p) * t - p * u + p * v
  {
    var x, y := Bezout(g, p);
    var n := if x * t < 0 then -(x * t) else 0;
    ShiftPositive(x * t, p, n);
    k, u, v := x * t + p * n, y * t, g * n;
    CombineBezout(g, p, Gcd(g, p), x, y, t, n, k);
  }

  lemma {:induction false} ShiftPositive(e: int, p: nat, n: nat)
    requires p >= 1 && n == if e < 0 then -e else 0
    ensures e + p * n >= 0
  {
    assert p * n == (p - 1) * n + n;
    assert (p - 1) * n >= 0;
  }

  lemma {:induction false} CombineBezout(g: nat, p: nat, d: nat, x: int, y: int, t: int, n: nat, k: int)
    requires d == g * x + p * y && k == x * t + p * n
    ensures g * k == d * t - p * (y * t) + p * (g * n)
  {
    assert d * t == g * x * t + p * y * t;
    assert g * k == g * (x * t) + g * (p * n);
    assert g * x * t == g * (x * t) && p * y * t == p * (y * t) && g * (p * n) == p * (g * n);
  }

  lemma {:induction false} ReachStep(cst: nat, g: nat, k: nat, p: nat, c: nat, i: nat, e: int, u: int, v: int)
    requires p > 0 && i < p && c == cst % p && e == i + p - c && g * k == e - p * u + p * v
    ensures (cst + g * k) % p == i
  {
    var y := cst / p;
    assert cst == p * y + c;
    var q := y + 1 - u + v;
    assert p * q == p * y + p - p * u + p * v;
    assert cst + g * k == p * q + i;
    NonnegativeQuotient(p, q, i);
    ModUnique(cst + g * k, p, q, i);
  }

  lemma {:induction false} NonnegativeQuotient(p: int, q: int, i: int)
    requires 0 <= i < p && p * q + i >= 0
    ensures q >= 0
  {
    assert q <= -1 ==> p * q == -p + p * (q + 1);
    assert q <= -1 ==> p * (q + 1) <= 0;
  }
}
