/** Intervals of numbers with open, closed and infinite ends: membership, sum, intersection and product. */
module Intervals {
  datatype Bound = Infinite | Finite(value: real, open: bool)

  datatype Interval = Empty | Range(lower: Bound, upper: Bound)

  // ----- membership -----

  function New(lower: Bound, upper: Bound): Interval {
    if lower.Finite? && upper.Finite? then
      if lower.value > upper.value || (lower.value == upper.value && (lower.open || upper.open)) then Empty
      else Range(lower, upper)
    else Range(lower, upper)
  }

  predicate AboveLower(b: Bound, x: real) {
    b.Finite? ==> b.value < x || (b.value == x && !b.open)
  }

  predicate BelowUpper(b: Bound, x: real) {
    b.Finite? ==> x < b.value || (b.value == x && !b.open)
  }

  predicate Contains(a: Interval, x: real) {
    a.Range? && AboveLower(a.lower, x) && BelowUpper(a.upper, x)
  }

  /** Built by `New`: no bounds without a point between them. */
  predicate Ok(a: Interval) {
    a.Range? ==> New(a.lower, a.upper) == a
  }

  lemma {:induction false} NewContains(lower: Bound, upper: Bound, x: real)
    ensures Ok(New(lower, upper))
    ensures Contains(New(lower, upper), x) <==> AboveLower(lower, x) && BelowUpper(upper, x)
  {
  }

  function Middle(a: Interval): real {
    if a.Empty? then 0.0
    else if a.lower.Finite? && a.upper.Finite? then (a.lower.value + a.upper.value) / 2.0
    else if a.lower.Finite? then a.lower.value + 1.0
    else if a.upper.Finite? then a.upper.value - 1.0
    else 0.0
  }

  /** An interval is empty if and only if it contains nothing. */
  lemma {:induction false} EmptyIff(a: Interval)
    requires Ok(a)
    ensures a.Empty? <==> forall x: real :: !Contains(a, x)
  {
    if a.Range? {
      assert Contains(a, Middle(a));
    }
  }

  // ----- negation, sum, intersection -----

  function NegBound(b: Bound): Bound {
    if b.Infinite? then b else Finite(-b.value, b.open)
  }

  function Neg(a: Interval): Interval {
    if a.Empty? then Empty else New(NegBound(a.upper), NegBound(a.lower))
  }

  lemma {:induction false} NegExact(a: Interval, x: real)
    requires Ok(a)
    ensures Ok(Neg(a)) && (Contains(Neg(a), x) <==> Contains(a, -x))
  {
  }

  function MaxLower(a: Bound, b: Bound): Bound {
    if a.Infinite? then b
    else if b.Infinite? then a
    else if a.value > b.value then a
    else if a.value < b.value then b
    else Finite(a.value, a.open || b.open)
  }

  function MinUpper(a: Bound, b: Bound): Bound {
    if a.Infinite? then b
    else if b.Infinite? then a
    else if a.value < b.value then a
    else if a.value > b.value then b
    else Finite(a.value, a.open || b.open)
  }

  function Intersect(a: Interval, b: Interval): Interval {
    if a.Empty? || b.Empty? then Empty else New(MaxLower(a.lower, b.lower), MinUpper(a.upper, b.upper))
  }

  /** The intersection contains exactly what both do. */
  lemma {:induction false} IntersectExact(a: Interval, b: Interval, x: real)
    ensures Ok(Intersect(a, b)) && (Contains(Intersect(a, b), x) <==> Contains(a, x) && Contains(b, x))
  {
  }

  function AddBound(a: Bound, b: Bound): Bound {
    if a.Infinite? || b.Infinite? then Infinite else Finite(a.value + b.value, a.open || b.open)
  }

  function Add(a: Interval, b: Interval): Interval {
    if a.Empty? || b.Empty? then Empty else New(AddBound(a.lower, b.lower), AddBound(a.upper, b.upper))
  }

  function Sub(a: Interval, b: Interval): Interval {
    Add(a, Neg(b))
  }

  ghost predicate SumOf(a: Interval, b: Interval, z: real) {
    exists x: real, y: real :: Contains(a, x) && Contains(b, y) && z == x + y
  }

  /** The sum contains exactly the sums. */
  lemma {:induction false} AddExact(a: Interval, b: Interval, z: real)
    requires Ok(a) && Ok(b)
    ensures Ok(Add(a, b)) && (Contains(Add(a, b), z) <==> SumOf(a, b, z))
  {
    if Contains(Add(a, b), z) {
      var x := Summand(a, b, z);
      assert z == x + (z - x);
    }
  }

  /** What `z` leaves for the first summand, as an interval. */
  function RestOf(b: Interval, z: real): Interval
    requires b.Range?
  {
    New(if b.upper.Infinite? then Infinite else Finite(z - b.upper.value, b.upper.open),
        if b.lower.Infinite? then Infinite else Finite(z - b.lower.value, b.lower.open))
  }

  lemma {:induction false} RestExact(b: Interval, z: real, x: real)
    requires Ok(b) && b.Range?
    ensures Ok(RestOf(b, z)) && RestOf(b, z).Range? && (Contains(RestOf(b, z), x) <==> Contains(b, z - x))
  {
  }

  lemma {:induction false} Summand(a: Interval, b: Interval, z: real) returns (x: real)
    requires Ok(a) && Ok(b) && Contains(Add(a, b), z)
    ensures Contains(a, x) && Contains(b, z - x)
  {
    var both := Intersect(a, RestOf(b, z));
    x := Middle(both);
    RestExact(b, z, x);
    IntersectExact(a, RestOf(b, z), x);
    Room(a, b, z);
    EmptyIff(both);
  }

  /** The bounds have a point between them. */
  predicate Meet(lower: Bound, upper: Bound) {
    lower.Finite? && upper.Finite? ==> lower.value < upper.value || (lower.value == upper.value && !lower.open && !upper.open)
  }

  lemma {:induction false} MeetAll(l1: Bound, l2: Bound, u1: Bound, u2: Bound)
    requires Meet(l1, u1) && Meet(l1, u2) && Meet(l2, u1) && Meet(l2, u2)
    ensures New(MaxLower(l1, l2), MinUpper(u1, u2)).Range?
  {
  }

  lemma {:induction false} Room(a: Interval, b: Interval, z: real)
    requires Ok(a) && Ok(b) && Contains(Add(a, b), z)
    ensures Intersect(a, RestOf(b, z)).Range?
  {
    RestExact(b, z, z);
    var rest := RestOf(b, z);
    MeetAll(a.lower, rest.lower, a.upper, rest.upper);
  }

  ghost predicate DifferenceOf(a: Interval, b: Interval, z: real) {
    exists x: real, y: real :: Contains(a, x) && Contains(b, y) && z == x - y
  }

  lemma {:induction false} SubExact(a: Interval, b: Interval, z: real)
    requires Ok(a) && Ok(b)
    ensures Ok(Sub(a, b)) && (Contains(Sub(a, b), z) <==> DifferenceOf(a, b, z))
  {
    NegExact(b, 0.0);
    AddExact(a, Neg(b), z);
    if SumOf(a, Neg(b), z) {
      var x, y :| Contains(a, x) && Contains(Neg(b), y) && z == x + y;
      NegExact(b, y);
      assert z == x - -y;
    }
    if DifferenceOf(a, b, z) {
      var x, y :| Contains(a, x) && Contains(b, y) && z == x - y;
      NegExact(b, -y);
      assert z == x + -y;
    }
  }

  // ----- products of ends -----

  /** An end on the extended line. */
  datatype End = NegInf | PosInf | Fin(value: real, open: bool)

  function LowerEnd(b: Bound): End {
    if b.Infinite? then NegInf else Fin(b.value, b.open)
  }

  function UpperEnd(b: Bound): End {
    if b.Infinite? then PosInf else Fin(b.value, b.open)
  }

  function Sign(e: End): int {
    match e
    case NegInf => -1
    case PosInf => 1
    case Fin(v, _) => if v > 0.0 then 1 else if v < 0.0 then -1 else 0
  }

  function Times(x: real, y: real): real {
    x * y
  }

  function MulEnds(a: End, b: End): End {
    if a.Fin? && b.Fin? then Fin(Times(a.value, b.value), (a.open && b.value != 0.0) || (b.open && a.value != 0.0))
    else if Sign(a) == 0 || Sign(b) == 0 then Fin(0.0, false)
    else if Sign(a) * Sign(b) < 0 then NegInf
    else PosInf
  }

  /** Comparison on the extended line: -1, 0 or 1. */
  function Compare(a: End, b: End): int {
    if (a.NegInf? && b.NegInf?) || (a.PosInf? && b.PosInf?) then 0
    else if a.NegInf? || b.PosInf? then -1
    else if a.PosInf? || b.NegInf? then 1
    else if a.value < b.value then -1 else if a.value > b.value then 1 else 0
  }

  /** The least (or greatest) corner: closed if some corner of its value is. */
  method Extreme(corners: seq<End>, wantMin: bool) returns (e: End)
    requires |corners| == 4
    ensures IsExtreme(e, corners, wantMin)
  {
    var best := corners[0];
    for i := 1 to 4
      invariant best in corners[..i]
      invariant forall k :: 0 <= k < i ==> if wantMin then Compare(best, corners[k]) <= 0 else Compare(best, corners[k]) >= 0
    {
      var o := Compare(corners[i], best);
      if (wantMin && o < 0) || (!wantMin && o > 0) {
        best := corners[i];
      }
    }
    assert corners[..4] == corners;
    if !best.Fin? {
      return best;
    }
    var open := true;
    for i := 0 to 4
      invariant open <==> forall k :: 0 <= k < i ==> OpenAt(corners[k], best.value)
    {
      if corners[i].Fin? && corners[i].value == best.value && !corners[i].open {
        open := false;
      }
    }
    e := Fin(best.value, open);
  }

  ghost predicate IsExtreme(e: End, corners: seq<End>, wantMin: bool) {
    && (forall k :: 0 <= k < |corners| ==> if wantMin then Compare(e, corners[k]) <= 0 else Compare(e, corners[k]) >= 0)
    && (exists k :: 0 <= k < |corners| && Compare(e, corners[k]) == 0)
    && (e.Fin? ==> (e.open <==> AllOpenAt(corners, e.value)))
  }

  /** No corner attains the value. */
  ghost predicate AllOpenAt(corners: seq<End>, v: real) {
    forall k :: 0 <= k < |corners| ==> OpenAt(corners[k], v)
  }

  predicate OpenAt(c: End, v: real) {
    c.Fin? && c.value == v ==> c.open
  }

  function Corners(a: Interval, b: Interval): (cs: seq<End>)
    requires a.Range? && b.Range?
    ensures |cs| == 4
  {
    [MulEnds(LowerEnd(a.lower), LowerEnd(b.lower)), MulEnds(LowerEnd(a.lower), UpperEnd(b.upper)),
     MulEnds(UpperEnd(a.upper), LowerEnd(b.lower)), MulEnds(UpperEnd(a.upper), UpperEnd(b.upper))]
  }

  function ToBound(e: End): Bound {
    if e.Fin? then Finite(e.value, e.open) else Infinite
  }

  ghost predicate ProductOf(a: Interval, b: Interval, z: real) {
    exists x: real, y: real :: Contains(a, x) && Contains(b, y) && z == Times(x, y)
  }

  predicate IsZero(e: End) {
    e.Fin? && e.value == 0.0
  }

  /** An end 0 meets one that is 0 too, or infinite. */
  predicate PinsZero(e: End, f: End) {
    (IsZero(e) && (IsZero(f) || !f.Fin?)) || (IsZero(f) && !e.Fin?)
  }

  /** Neither factor contains 0, but some of their ends pin a corner to it. */
  predicate GainsZero(a: Interval, b: Interval) {
    && a.Range? && b.Range? && !Contains(a, 0.0) && !Contains(b, 0.0)
    && (PinsZero(LowerEnd(a.lower), LowerEnd(b.lower)) || PinsZero(LowerEnd(a.lower), UpperEnd(b.upper))
        || PinsZero(UpperEnd(a.upper), LowerEnd(b.lower)) || PinsZero(UpperEnd(a.upper), UpperEnd(b.upper)))
  }

  /** The product contains every product, and nothing else but 0, which it gains if and only if the ends of the factors say so. */
  method Mul(a: Interval, b: Interval) returns (c: Interval)
    requires Ok(a) && Ok(b)
    ensures Ok(c) && forall z: real :: ProductOf(a, b, z) ==> Contains(c, z)
    ensures forall z: real :: Contains(c, z) && z != 0.0 ==> ProductOf(a, b, z)
    ensures Contains(c, 0.0) && !ProductOf(a, b, 0.0) <==> GainsZero(a, b)
    ensures (forall z: real :: Contains(c, z) <==> ProductOf(a, b, z)) <==> !GainsZero(a, b)
  {
    if a.Empty? || b.Empty? {
      return Empty;
    }
    var corners := Corners(a, b);
    var lo := Extreme(corners, true);
    var hi := Extreme(corners, false);
    c := New(ToBound(lo), ToBound(hi));
    forall z: real | ProductOf(a, b, z) ensures Contains(c, z) {
      ProductWithin(a, b, z, lo, hi);
    }
    forall z: real | Contains(c, z) && z != 0.0 ensures ProductOf(a, b, z) {
      ProductReached(a, b, z, lo, hi);
    }
    ZeroProduct(a, b);
    if !Contains(a, 0.0) && !Contains(b, 0.0) {
      ZeroGained(a, b, lo, hi);
    }
  }

  lemma {:induction false} ZeroProduct(a: Interval, b: Interval)
    requires Ok(a) && Ok(b) && a.Range? && b.Range?
    ensures ProductOf(a, b, 0.0) <==> Contains(a, 0.0) || Contains(b, 0.0)
  {
    assert Contains(a, Middle(a)) && Contains(b, Middle(b));
    if Contains(a, 0.0) {
      assert 0.0 == Times(0.0, Middle(b));
    }
    if Contains(b, 0.0) {
      assert 0.0 == Times(Middle(a), 0.0);
    }
    if ProductOf(a, b, 0.0) {
      var x, y :| Contains(a, x) && Contains(b, y) && 0.0 == Times(x, y);
      NoZeroDivisors(x, y);
    }
  }

  lemma {:induction false} NoZeroDivisors(x: real, y: real)
    ensures Times(x, y) == 0.0 <==> x == 0.0 || y == 0.0
  {
  }

  // ----- the product contains every product -----

  predicate AtMost(e: End, z: real) {
    e.NegInf? || (e.Fin? && (e.value < z || (e.value == z && !e.open)))
  }

  predicate AtLeast(e: End, z: real) {
    e.PosInf? || (e.Fin? && (e.value > z || (e.value == z && !e.open)))
  }

  lemma {:induction false} Monotone(x: real, y: real, k: real)
    ensures k > 0.0 && x < y ==> Times(x, k) < Times(y, k)
    ensures k < 0.0 && x < y ==> Times(y, k) < Times(x, k)
    ensures k == 0.0 ==> Times(x, k) == 0.0
    ensures Times(x, k) == Times(k, x)
  {
    if x < y && k != 0.0 {
      assert Times(y, k) - Times(x, k) == Times(y - x, k);
    }
  }

  lemma {:induction false} SignOfProduct(x: real, y: real)
    ensures Times(x, y) > 0.0 <==> (x > 0.0 && y > 0.0) || (x < 0.0 && y < 0.0)
    ensures Times(x, y) < 0.0 <==> (x > 0.0 && y < 0.0) || (x < 0.0 && y > 0.0)
  {
  }

  /** Ends on opposite sides of 0, each at least as far out as its factor, make a corner at most the product. */
  lemma {:induction false} OuterCorner(e: End, f: End, x: real, y: real)
    requires x > 0.0 > y && AtLeast(e, x) && AtMost(f, y)
    ensures AtMost(MulEnds(e, f), Times(x, y))
  {
    if e.Fin? && f.Fin? {
      Monotone(x, e.value, f.value);
      Monotone(f.value, y, x);
      Monotone(x, e.value, y);
    }
  }

  /** Ends on the same side of 0 as the factors, but nearer, make a corner at most the product. */
  lemma {:induction false} InnerCorner(e: End, f: End, x: real, y: real)
    requires x > 0.0 && y > 0.0 && e.Fin? && f.Fin? && e.value >= 0.0 && f.value >= 0.0 && AtMost(e, x) && AtMost(f, y)
    ensures AtMost(MulEnds(e, f), Times(x, y))
  {
    SignOfProduct(x, y);
    SignOfProduct(e.value, f.value);
    if e.value > 0.0 && f.value > 0.0 {
      Monotone(e.value, x, f.value);
      Monotone(f.value, y, x);
    }
  }

  /** An end below 0 and one above make a corner below 0. */
  lemma {:induction false} OppositeCorner(e: End, f: End)
    requires Sign(e) * Sign(f) < 0
    ensures AtMost(MulEnds(e, f), 0.0) && AtMost(MulEnds(f, e), 0.0)
    ensures forall z: real :: z >= 0.0 ==> AtMost(MulEnds(e, f), z) && AtMost(MulEnds(f, e), z)
  {
    if e.Fin? && f.Fin? {
      SignOfProduct(e.value, f.value);
      SignOfProduct(f.value, e.value);
    }
  }

  ghost predicate EndOf(e: End, a: Interval) {
    a.Range? && (e == LowerEnd(a.lower) || e == UpperEnd(a.upper))
  }

  ghost predicate CornerOf(c: End, a: Interval, b: Interval) {
    exists e, f :: EndOf(e, a) && EndOf(f, b) && c == MulEnds(e, f)
  }

  lemma {:induction false} CornersAre(a: Interval, b: Interval, c: End)
    requires a.Range? && b.Range?
    ensures c in Corners(a, b) <==> CornerOf(c, a, b)
  {
    var l1, u1, l2, u2 := LowerEnd(a.lower), UpperEnd(a.upper), LowerEnd(b.lower), UpperEnd(b.upper);
    var cs := Corners(a, b);
    assert cs[0] == MulEnds(l1, l2) && cs[1] == MulEnds(l1, u2) && cs[2] == MulEnds(u1, l2) && cs[3] == MulEnds(u1, u2);
    assert EndOf(l1, a) && EndOf(u1, a) && EndOf(l2, b) && EndOf(u2, b);
  }

  /** The ends around a member. */
  lemma {:induction false} EndsAround(a: Interval, x: real)
    requires Contains(a, x)
    ensures AtMost(LowerEnd(a.lower), x) && AtLeast(UpperEnd(a.upper), x)
    ensures EndOf(LowerEnd(a.lower), a) && EndOf(UpperEnd(a.upper), a)
  {
  }

  /** Some corner is at most the product of positive factors. */
  lemma {:induction false} BelowPositive(a: Interval, b: Interval, x: real, y: real) returns (c: End)
    requires Contains(a, x) && Contains(b, y) && x > 0.0 && y > 0.0
    ensures CornerOf(c, a, b) && AtMost(c, Times(x, y))
  {
    var l1, u1, l2, u2 := LowerEnd(a.lower), UpperEnd(a.upper), LowerEnd(b.lower), UpperEnd(b.upper);
    EndsAround(a, x);
    EndsAround(b, y);
    SignOfProduct(x, y);
    if Sign(l1) < 0 {
      OppositeCorner(l1, u2);
      c := MulEnds(l1, u2);
    } else if Sign(l2) < 0 {
      OppositeCorner(u1, l2);
      c := MulEnds(u1, l2);
    } else {
      InnerCorner(l1, l2, x, y);
      c := MulEnds(l1, l2);
    }
  }

  function NegEnd(e: End): End {
    match e
    case NegInf => PosInf
    case PosInf => NegInf
    case Fin(v, open) => Fin(-v, open)
  }

  lemma {:induction false} NegProduct(x: real, y: real)
    ensures Times(-x, y) == -Times(x, y) && Times(x, y) == Times(y, x)
  {
  }

  lemma {:induction false} MulCommutes(e: End, f: End)
    ensures MulEnds(e, f) == MulEnds(f, e)
  {
    if e.Fin? && f.Fin? {
      NegProduct(e.value, f.value);
    }
  }

  lemma {:induction false} NegCorner(e: End, f: End)
    ensures MulEnds(NegEnd(e), f) == NegEnd(MulEnds(e, f))
  {
    if e.Fin? && f.Fin? {
      NegProduct(e.value, f.value);
    } else {
      NegSigns(e, f);
    }
  }

  lemma {:induction false} NegSigns(e: End, f: End)
    ensures Sign(NegEnd(e)) == -Sign(e) && Sign(NegEnd(e)) * Sign(f) == -(Sign(e) * Sign(f))
    ensures Sign(e) * Sign(f) == 0 <==> Sign(e) == 0 || Sign(f) == 0
  {
    if Sign(e) == 0 {
      assert Sign(e) * Sign(f) == 0;
    } else if Sign(e) > 0 {
      assert Sign(e) * Sign(f) == Sign(f);
    } else {
      assert Sign(e) * Sign(f) == -Sign(f);
    }
  }

  lemma {:induction false} NegBothCorner(e: End, f: End)
    ensures MulEnds(NegEnd(e), NegEnd(f)) == MulEnds(e, f)
  {
    NegCorner(e, NegEnd(f));
    MulCommutes(e, NegEnd(f));
    NegCorner(f, e);
    MulCommutes(f, e);
  }

  lemma {:induction false} NegEnds(a: Interval, e: End)
    requires Ok(a) && a.Range?
    ensures Neg(a).Range? && (EndOf(e, Neg(a)) <==> EndOf(NegEnd(e), a)) && NegEnd(NegEnd(e)) == e
  {
  }

  lemma {:induction false} BelowNegative(a: Interval, b: Interval, x: real, y: real) returns (c: End)
    requires Ok(a) && Ok(b) && Contains(a, x) && Contains(b, y) && x < 0.0 && y < 0.0
    ensures CornerOf(c, a, b) && AtMost(c, Times(x, y))
  {
    NegExact(a, -x);
    NegExact(b, -y);
    c := BelowPositive(Neg(a), Neg(b), -x, -y);
    NegProduct(x, -y);
    NegProduct(-y, x);
    NegProduct(y, x);
    NegBothCorners(a, b, c);
  }

  lemma {:induction false} NegBothCorners(a: Interval, b: Interval, c: End)
    requires Ok(a) && Ok(b) && a.Range? && b.Range? && CornerOf(c, Neg(a), Neg(b))
    ensures CornerOf(c, a, b)
  {
    var e, f :| EndOf(e, Neg(a)) && EndOf(f, Neg(b)) && c == MulEnds(e, f);
    NegEnds(a, e);
    NegEnds(b, f);
    NegBothCorner(e, f);
  }

  /** Some corner is at most the product. */
  lemma {:induction false} CornerBelow(a: Interval, b: Interval, x: real, y: real) returns (c: End)
    requires Ok(a) && Ok(b) && Contains(a, x) && Contains(b, y)
    ensures CornerOf(c, a, b) && AtMost(c, Times(x, y))
  {
    var l1, u1, l2, u2 := LowerEnd(a.lower), UpperEnd(a.upper), LowerEnd(b.lower), UpperEnd(b.upper);
    EndsAround(a, x);
    EndsAround(b, y);
    NoZeroDivisors(x, y);
    if x > 0.0 && y > 0.0 {
      c := BelowPositive(a, b, x, y);
    } else if x < 0.0 && y < 0.0 {
      c := BelowNegative(a, b, x, y);
    } else if x > 0.0 && y < 0.0 {
      OuterCorner(u1, l2, x, y);
      c := MulEnds(u1, l2);
    } else if x < 0.0 && y > 0.0 {
      OuterCorner(u2, l1, y, x);
      MulCommutes(u2, l1);
      NegProduct(x, y);
      c := MulEnds(l1, u2);
    } else {
      c := BelowZero(a, b, x, y);
    }
  }

  /** Some corner is at most 0, when 0 is a product. */
  lemma {:induction false} BelowZero(a: Interval, b: Interval, x: real, y: real) returns (c: End)
    requires Contains(a, x) && Contains(b, y) && (x == 0.0 || y == 0.0)
    ensures CornerOf(c, a, b) && AtMost(c, 0.0)
  {
    var l1, u1, l2, u2 := LowerEnd(a.lower), UpperEnd(a.upper), LowerEnd(b.lower), UpperEnd(b.upper);
    EndsAround(a, x);
    EndsAround(b, y);
    if Sign(l1) * Sign(u2) < 0 {
      OppositeCorner(l1, u2);
      c := MulEnds(l1, u2);
    } else if Sign(u1) * Sign(l2) < 0 {
      OppositeCorner(u1, l2);
      c := MulEnds(u1, l2);
    } else {
      c := ClosedZero(l1, u1, l2, u2, a, b, x, y);
    }
  }

  /** Else some end is 0 and closed. */
  lemma {:induction false} ClosedZero(l1: End, u1: End, l2: End, u2: End, a: Interval, b: Interval, x: real, y: real)
    returns (c: End)
    requires EndOf(l1, a) && EndOf(u1, a) && EndOf(l2, b) && EndOf(u2, b)
    requires AtMost(l1, x) && AtLeast(u1, x) && AtMost(l2, y) && AtLeast(u2, y) && (x == 0.0 || y == 0.0)
    requires Sign(l1) * Sign(u2) >= 0 && Sign(u1) * Sign(l2) >= 0
    ensures CornerOf(c, a, b) && AtMost(c, 0.0)
  {
    if l1 == Fin(0.0, false) {
      c := MulEnds(l1, l2);
    } else if u1 == Fin(0.0, false) {
      c := MulEnds(u1, l2);
    } else if l2 == Fin(0.0, false) {
      c := MulEnds(l1, l2);
    } else {
      assert u2 == Fin(0.0, false);
      c := MulEnds(l1, u2);
    }
  }

  /** Some corner is at least the product. */
  lemma {:induction false} CornerAbove(a: Interval, b: Interval, x: real, y: real) returns (c: End)
    requires Ok(a) && Ok(b) && Contains(a, x) && Contains(b, y)
    ensures CornerOf(c, a, b) && AtLeast(c, Times(x, y))
  {
    Negated(a, x);
    NegProduct(x, y);
    var d := CornerBelow(Neg(a), b, -x, y);
    c := NegEnd(d);
    NegatedCorner(a, b, d);
    NegAtMost(d, Times(x, y));
  }

  lemma {:induction false} Negated(a: Interval, x: real)
    requires Ok(a) && Contains(a, x)
    ensures Ok(Neg(a)) && Contains(Neg(a), -x)
  {
    NegExact(a, -x);
  }

  lemma {:induction false} NegAtMost(d: End, z: real)
    requires AtMost(d, -z)
    ensures AtLeast(NegEnd(d), z)
  {
  }

  lemma {:induction false} NegatedCorner(a: Interval, b: Interval, d: End)
    requires Ok(a) && a.Range? && b.Range? && CornerOf(d, Neg(a), b)
    ensures CornerOf(NegEnd(d), a, b)
  {
    var e, f :| EndOf(e, Neg(a)) && EndOf(f, b) && d == MulEnds(e, f);
    NegEnds(a, e);
    NegCorner(e, f);
  }

  lemma {:induction false} ExtremeBelow(e: End, cs: seq<End>, c: End, z: real)
    requires IsExtreme(e, cs, true) && c in cs && AtMost(c, z)
    ensures AboveLower(ToBound(e), z)
  {
  }

  lemma {:induction false} ExtremeAbove(e: End, cs: seq<End>, c: End, z: real)
    requires IsExtreme(e, cs, false) && c in cs && AtLeast(c, z)
    ensures BelowUpper(ToBound(e), z)
  {
  }

  lemma {:induction false} ProductWithin(a: Interval, b: Interval, z: real, lo: End, hi: End)
    requires Ok(a) && Ok(b) && a.Range? && b.Range? && ProductOf(a, b, z)
    requires IsExtreme(lo, Corners(a, b), true) && IsExtreme(hi, Corners(a, b), false)
    ensures AboveLower(ToBound(lo), z) && BelowUpper(ToBound(hi), z)
  {
    var x, y :| Contains(a, x) && Contains(b, y) && z == Times(x, y);
    var c := CornerBelow(a, b, x, y);
    CornersAre(a, b, c);
    ExtremeBelow(lo, Corners(a, b), c, z);
    var d := CornerAbove(a, b, x, y);
    CornersAre(a, b, d);
    ExtremeAbove(hi, Corners(a, b), d, z);
  }

  // ----- but for 0, the product contains nothing else -----

  /** Members on both sides of a multiple leave one at it. */
  lemma {:induction false} Between(a: Interval, k: real, x0: real, x1: real, z: real) returns (x: real)
    requires Contains(a, x0) && Contains(a, x1) && Times(x0, k) <= z <= Times(x1, k)
    ensures Contains(a, x) && Times(x, k) == z
  {
    if Times(x0, k) == z {
      return x0;
    }
    if k == 0.0 {
      Monotone(x0, x1, k);
      Monotone(x1, x0, k);
      return x0;
    }
    x := z / k;
    assert Times(x, k) == z;
    Inside(x0, x, x1, k);
  }

  lemma {:induction false} Inside(x0: real, x: real, x1: real, k: real)
    requires k != 0.0 && Times(x0, k) <= Times(x, k) <= Times(x1, k)
    ensures x0 <= x <= x1 || x1 <= x <= x0
  {
    Monotone(x, x0, k);
    Monotone(x0, x, k);
    Monotone(x, x1, k);
    Monotone(x1, x, k);
  }

  /** Products on both sides leave one between. */
  lemma {:induction false} Connected(a: Interval, b: Interval, x0: real, y0: real, x1: real, y1: real, z: real)
    requires Contains(a, x0) && Contains(a, x1) && Contains(b, y0) && Contains(b, y1)
    requires Times(x0, y0) <= z <= Times(x1, y1)
    ensures ProductOf(a, b, z)
  {
    if z <= Times(x1, y0) {
      var x := Between(a, y0, x0, x1, z);
      assert z == Times(x, y0);
    } else {
      NegProduct(y0, x1);
      NegProduct(y1, x1);
      var y := Between(b, x1, y0, y1, z);
      NegProduct(y, x1);
      assert z == Times(x1, y);
    }
  }

  /** Near a finite end there are members whose multiple is still below the bound. */
  lemma {:induction false} NearEnd(a: Interval, e: End, k: real, z: real) returns (x: real)
    requires Ok(a) && EndOf(e, a) && e.Fin? && Times(e.value, k) < z
    ensures Contains(a, x) && Times(x, k) < z
  {
    if !e.open {
      return e.value;
    }
    var p := Middle(a);
    assert Contains(a, p);
    if Times(p, k) < z {
      return p;
    }
    // go from `p` towards the end until below the bound
    var mid := (Times(e.value, k) + z) / 2.0;
    Monotone(e.value, p, k);
    Monotone(p, e.value, k);
    x := mid / k;
    assert Times(x, k) == mid;
    Inside(e.value, x, p, k);
    assert x != e.value;
  }

  /** Towards an infinite end multiples pass every bound. */
  lemma {:induction false} FarEnd(a: Interval, e: End, k: real, z: real) returns (x: real)
    requires Ok(a) && EndOf(e, a) && ((e.PosInf? && k < 0.0) || (e.NegInf? && k > 0.0))
    ensures Contains(a, x) && Times(x, k) < z
  {
    var p := Middle(a);
    assert Contains(a, p);
    var q := (z - 1.0) / k;
    assert Times(q, k) == z - 1.0;
    x := if e.PosInf? then (if p < q then q else p) else (if q < p then q else p);
    Monotone(q, x, k);
    Monotone(x, q, k);
  }

  /** A member on the same side of 0 as the end. */
  lemma {:induction false} SameSide(a: Interval, e: End) returns (x: real)
    requires Ok(a) && EndOf(e, a) && Sign(e) != 0
    ensures Contains(a, x) && (if Sign(e) > 0 then x > 0.0 else x < 0.0)
  {
    var k := if Sign(e) > 0 then -1.0 else 1.0;
    if e.Fin? {
      SignOfProduct(e.value, k);
      x := NearEnd(a, e, k, 0.0);
    } else {
      x := FarEnd(a, e, k, 0.0);
    }
    SignOfProduct(x, k);
  }

  /** Near a corner below the bound there is a product below it. */
  lemma {:induction false} NearCorner(a: Interval, b: Interval, e: End, f: End, z: real) returns (x: real, y: real)
    requires Ok(a) && Ok(b) && EndOf(e, a) && EndOf(f, b)
    requires MulEnds(e, f).NegInf? || (MulEnds(e, f).Fin? && MulEnds(e, f).value < z)
    ensures Contains(a, x) && Contains(b, y) && Times(x, y) < z
  {
    if e.Fin? && f.Fin? {
      x := NearEnd(a, e, f.value, z);
      NegProduct(x, f.value);
      y := NearEnd(b, f, x, z);
      NegProduct(x, y);
    } else if e.Fin? {
      y, x := NearInfinite(b, a, f, e, z);
      NegProduct(x, y);
    } else {
      x, y := NearInfinite(a, b, e, f, z);
    }
  }

  lemma {:induction false} NearInfinite(a: Interval, b: Interval, e: End, f: End, z: real) returns (x: real, y: real)
    requires Ok(a) && Ok(b) && EndOf(e, a) && EndOf(f, b) && !e.Fin?
    requires MulEnds(e, f).NegInf? || (MulEnds(e, f).Fin? && MulEnds(e, f).value < z)
    ensures Contains(a, x) && Contains(b, y) && Times(x, y) < z
  {
    if Sign(f) == 0 {
      x := Middle(a);
      NoZeroDivisors(0.0, x);
      y := NearEnd(b, f, x, z);
      NegProduct(x, y);
    } else {
      y := SameSide(b, f);
      x := FarEnd(a, e, y, z);
    }
  }

  /** Not all corners are infinite upwards. */
  lemma {:induction false} LeastCorner(a: Interval, b: Interval, lo: End)
    requires Ok(a) && Ok(b) && a.Range? && b.Range? && IsExtreme(lo, Corners(a, b), true)
    ensures !lo.PosInf?
  {
    var cs := Corners(a, b);
    assert cs[0] == MulEnds(LowerEnd(a.lower), LowerEnd(b.lower)) && cs[1] == MulEnds(LowerEnd(a.lower), UpperEnd(b.upper));
    assert cs[2] == MulEnds(UpperEnd(a.upper), LowerEnd(b.lower)) && cs[3] == MulEnds(UpperEnd(a.upper), UpperEnd(b.upper));
  }

  /** A number above the lower bound, but not 0, is at least some product. */
  lemma {:induction false} ProductBelow(a: Interval, b: Interval, z: real, lo: End) returns (x: real, y: real)
    requires Ok(a) && Ok(b) && a.Range? && b.Range? && IsExtreme(lo, Corners(a, b), true)
    requires AboveLower(ToBound(lo), z) && z != 0.0
    ensures Contains(a, x) && Contains(b, y) && Times(x, y) <= z
  {
    LeastCorner(a, b, lo);
    var c := Attaining(lo, Corners(a, b), true);
    CornersAre(a, b, c);
    var e, f :| EndOf(e, a) && EndOf(f, b) && c == MulEnds(e, f);
    if c.Fin? && c.value == z {
      NoZeroDivisors(e.value, f.value);
      x, y := e.value, f.value;
    } else {
      x, y := NearCorner(a, b, e, f, z);
    }
  }

  /** A corner that is the extreme, closed if that is. */
  lemma {:induction false} Attaining(e: End, cs: seq<End>, wantMin: bool) returns (c: End)
    requires IsExtreme(e, cs, wantMin)
    ensures c in cs && Compare(e, c) == 0 && (e.Fin? ==> c.Fin? && c.value == e.value && (c.open ==> e.open))
  {
    if e.Fin? && !e.open {
      var k :| 0 <= k < |cs| && cs[k].Fin? && cs[k].value == e.value && !cs[k].open;
      c := cs[k];
    } else {
      var k :| 0 <= k < |cs| && Compare(e, cs[k]) == 0;
      c := cs[k];
    }
  }

  lemma {:induction false} NegExtreme(a: Interval, b: Interval, hi: End)
    requires Ok(a) && Ok(b) && a.Range? && b.Range? && IsExtreme(hi, Corners(a, b), false)
    ensures Neg(a).Range? && IsExtreme(NegEnd(hi), Corners(Neg(a), b), true)
  {
    NegatedCorners(a, b);
    NegatedExtreme(hi, Corners(a, b), Corners(Neg(a), b));
  }

  lemma {:induction false} NegatedCorners(a: Interval, b: Interval)
    requires Ok(a) && a.Range? && b.Range?
    ensures Neg(a).Range?
    ensures var cs, ds := Corners(a, b), Corners(Neg(a), b);
      ds[0] == NegEnd(cs[2]) && ds[1] == NegEnd(cs[3]) && ds[2] == NegEnd(cs[0]) && ds[3] == NegEnd(cs[1])
  {
    SwappedEnds(a);
    NegCorner(LowerEnd(a.lower), LowerEnd(b.lower));
    NegCorner(LowerEnd(a.lower), UpperEnd(b.upper));
    NegCorner(UpperEnd(a.upper), LowerEnd(b.lower));
    NegCorner(UpperEnd(a.upper), UpperEnd(b.upper));
  }

  lemma {:induction false} SwappedEnds(a: Interval)
    requires Ok(a) && a.Range?
    ensures Neg(a).Range? && LowerEnd(Neg(a).lower) == NegEnd(UpperEnd(a.upper))
    ensures UpperEnd(Neg(a).upper) == NegEnd(LowerEnd(a.lower))
  {
  }

  lemma {:induction false} NegatedExtreme(hi: End, cs: seq<End>, ds: seq<End>)
    requires |cs| == 4 == |ds| && IsExtreme(hi, cs, false)
    requires ds[0] == NegEnd(cs[2]) && ds[1] == NegEnd(cs[3]) && ds[2] == NegEnd(cs[0]) && ds[3] == NegEnd(cs[1])
    ensures IsExtreme(NegEnd(hi), ds, true)
  {
    CompareNeg(hi, cs[0]);
    CompareNeg(hi, cs[1]);
    CompareNeg(hi, cs[2]);
    CompareNeg(hi, cs[3]);
    forall k | 0 <= k < 4 ensures Compare(NegEnd(hi), ds[k]) <= 0 {
      assert k == 0 || k == 1 || k == 2 || k == 3;
    }
    var k :| 0 <= k < 4 && Compare(hi, cs[k]) == 0;
    assert Compare(NegEnd(hi), ds[if k < 2 then k + 2 else k - 2]) == 0;
    if hi.Fin? {
      OpenNegated(cs, ds, hi.value);
    }
  }

  lemma {:induction false} OpenNegated(cs: seq<End>, ds: seq<End>, v: real)
    requires |cs| == 4 == |ds|
    requires ds[0] == NegEnd(cs[2]) && ds[1] == NegEnd(cs[3]) && ds[2] == NegEnd(cs[0]) && ds[3] == NegEnd(cs[1])
    ensures AllOpenAt(ds, -v) <==> AllOpenAt(cs, v)
  {
    FourOpen(cs, v);
    FourOpen(ds, -v);
    OpenNeg(cs[0], v);
    OpenNeg(cs[1], v);
    OpenNeg(cs[2], v);
    OpenNeg(cs[3], v);
  }

  lemma {:induction false} FourOpen(cs: seq<End>, v: real)
    requires |cs| == 4
    ensures AllOpenAt(cs, v) <==> OpenAt(cs[0], v) && OpenAt(cs[1], v) && OpenAt(cs[2], v) && OpenAt(cs[3], v)
  {
    if OpenAt(cs[0], v) && OpenAt(cs[1], v) && OpenAt(cs[2], v) && OpenAt(cs[3], v) {
      forall k | 0 <= k < 4 ensures OpenAt(cs[k], v) {
        assert k == 0 || k == 1 || k == 2 || k == 3;
      }
    }
  }

  lemma {:induction false} OpenNeg(c: End, v: real)
    ensures OpenAt(NegEnd(c), -v) <==> OpenAt(c, v)
  {
  }

  lemma {:induction false} CompareNeg(a: End, b: End)
    ensures Compare(NegEnd(a), NegEnd(b)) == -Compare(a, b)
  {
  }

  lemma {:induction false} ProductReached(a: Interval, b: Interval, z: real, lo: End, hi: End)
    requires Ok(a) && Ok(b) && a.Range? && b.Range? && z != 0.0
    requires IsExtreme(lo, Corners(a, b), true) && IsExtreme(hi, Corners(a, b), false)
    requires AboveLower(ToBound(lo), z) && BelowUpper(ToBound(hi), z)
    ensures ProductOf(a, b, z)
  {
    var x0, y0 := ProductBelow(a, b, z, lo);
    NegExtreme(a, b, hi);
    NegExact(a, 0.0);
    var x1, y1 := ProductBelow(Neg(a), b, -z, NegEnd(hi));
    NegExact(a, x1);
    NegProduct(x1, y1);
    Connected(a, b, x0, y0, -x1, y1, z);
  }

  // ----- when the product gains 0 -----

  /** Of factors without 0, a corner is a closed 0 if and only if their ends pin it there. */
  lemma {:induction false} PinnedIff(a: Interval, b: Interval, e: End, f: End)
    requires Ok(a) && Ok(b) && EndOf(e, a) && EndOf(f, b) && !Contains(a, 0.0) && !Contains(b, 0.0)
    ensures MulEnds(e, f) == Fin(0.0, false) <==> PinsZero(e, f)
  {
    if e.Fin? && f.Fin? {
      NoZeroDivisors(e.value, f.value);
    }
  }

  lemma {:induction false} ZeroCornerIff(a: Interval, b: Interval)
    requires Ok(a) && Ok(b) && a.Range? && b.Range? && !Contains(a, 0.0) && !Contains(b, 0.0)
    ensures GainsZero(a, b) <==> Fin(0.0, false) in Corners(a, b)
  {
    PinnedIff(a, b, LowerEnd(a.lower), LowerEnd(b.lower));
    PinnedIff(a, b, LowerEnd(a.lower), UpperEnd(b.upper));
    PinnedIff(a, b, UpperEnd(a.upper), LowerEnd(b.lower));
    PinnedIff(a, b, UpperEnd(a.upper), UpperEnd(b.upper));
    FourCorners(a, b, Fin(0.0, false));
  }

  lemma {:induction false} FourCorners(a: Interval, b: Interval, c: End)
    requires a.Range? && b.Range?
    ensures c in Corners(a, b) <==>
      || c == MulEnds(LowerEnd(a.lower), LowerEnd(b.lower)) || c == MulEnds(LowerEnd(a.lower), UpperEnd(b.upper))
      || c == MulEnds(UpperEnd(a.upper), LowerEnd(b.lower)) || c == MulEnds(UpperEnd(a.upper), UpperEnd(b.upper))
  {
    var cs := Corners(a, b);
    assert c in cs <==> c == cs[0] || c == cs[1] || c == cs[2] || c == cs[3];
  }

  /** On which side of 0 an interval without it lies. */
  function Side(a: Interval): int
    requires a.Range?
  {
    if Sign(LowerEnd(a.lower)) >= 0 then 1 else -1
  }

  lemma {:induction false} OneSide(a: Interval, e: End)
    requires Ok(a) && EndOf(e, a) && !Contains(a, 0.0)
    ensures Sign(e) == Side(a) || Sign(e) == 0
  {
  }

  lemma {:induction false} SignOfCorner(e: End, f: End)
    ensures Sign(MulEnds(e, f)) == Sign(e) * Sign(f)
  {
    if e.Fin? && f.Fin? {
      SignOfProduct(e.value, f.value);
    }
  }

  /** Of factors without 0, no corner lies on the other side of 0. */
  lemma {:induction false} CornersOneSide(a: Interval, b: Interval, c: End)
    requires Ok(a) && Ok(b) && a.Range? && b.Range? && !Contains(a, 0.0) && !Contains(b, 0.0) && c in Corners(a, b)
    ensures Sign(c) * (Side(a) * Side(b)) >= 0
  {
    CornersAre(a, b, c);
    var e, f :| EndOf(e, a) && EndOf(f, b) && c == MulEnds(e, f);
    OneSide(a, e);
    OneSide(b, f);
    SignOfCorner(e, f);
  }

  /** If no corner is below 0, the least one admits 0 if and only if some corner is a closed 0. */
  lemma {:induction false} LeastAdmitsZero(a: Interval, b: Interval, lo: End)
    requires Ok(a) && Ok(b) && a.Range? && b.Range? && IsExtreme(lo, Corners(a, b), true)
    requires forall c :: c in Corners(a, b) ==> Sign(c) >= 0
    ensures AboveLower(ToBound(lo), 0.0) <==> Fin(0.0, false) in Corners(a, b)
  {
    LeastCorner(a, b, lo);
    var c := Attaining(lo, Corners(a, b), true);
    assert Sign(c) >= 0;
    if Fin(0.0, false) in Corners(a, b) {
      ExtremeBelow(lo, Corners(a, b), Fin(0.0, false), 0.0);
    }
  }

  lemma {:induction false} ZeroGained(a: Interval, b: Interval, lo: End, hi: End)
    requires Ok(a) && Ok(b) && a.Range? && b.Range? && !Contains(a, 0.0) && !Contains(b, 0.0)
    requires IsExtreme(lo, Corners(a, b), true) && IsExtreme(hi, Corners(a, b), false)
    ensures AboveLower(ToBound(lo), 0.0) && BelowUpper(ToBound(hi), 0.0) <==> GainsZero(a, b)
  {
    ZeroCornerIff(a, b);
    if Fin(0.0, false) in Corners(a, b) {
      ExtremeBelow(lo, Corners(a, b), Fin(0.0, false), 0.0);
      ExtremeAbove(hi, Corners(a, b), Fin(0.0, false), 0.0);
    } else if Side(a) * Side(b) > 0 {
      forall c | c in Corners(a, b) ensures Sign(c) >= 0 {
        CornersOneSide(a, b, c);
      }
      LeastAdmitsZero(a, b, lo);
    } else {
      forall c | c in Corners(a, b) ensures Sign(c) <= 0 {
        CornersOneSide(a, b, c);
      }
      GreatestAdmitsZero(a, b, hi);
    }
  }

  /** If no corner is above 0 or a closed 0, the greatest one does not admit 0. */
  lemma {:induction false} GreatestAdmitsZero(a: Interval, b: Interval, hi: End)
    requires Ok(a) && Ok(b) && a.Range? && b.Range? && IsExtreme(hi, Corners(a, b), false)
    requires forall c :: c in Corners(a, b) ==> Sign(c) <= 0 && c != Fin(0.0, false)
    ensures !BelowUpper(ToBound(hi), 0.0)
  {
    NegExtreme(a, b, hi);
    NegExact(a, 0.0);
    forall c | c in Corners(Neg(a), b) ensures Sign(c) >= 0 && c != Fin(0.0, false) {
      NegatedIn(a, b, c);
      SignOfNegated(c);
    }
    LeastAdmitsZero(Neg(a), b, NegEnd(hi));
  }

  lemma {:induction false} SignOfNegated(c: End)
    ensures Sign(NegEnd(c)) == -Sign(c) && (NegEnd(c) == Fin(0.0, false) <==> c == Fin(0.0, false))
  {
  }

  lemma {:induction false} NegatedIn(a: Interval, b: Interval, c: End)
    requires Ok(a) && a.Range? && b.Range? && Neg(a).Range? && c in Corners(Neg(a), b)
    ensures NegEnd(c) in Corners(a, b)
  {
    CornersAre(Neg(a), b, c);
    NegatedCorner(a, b, c);
    CornersAre(a, b, NegEnd(c));
  }

  /** The product of two open positive half-lines starts at 0, closed, although 0 is no product. */
  lemma {:induction false} NotTheImage(a: Interval)
    requires a == Range(Finite(0.0, true), Infinite)
    ensures GainsZero(a, a) && IsExtreme(Fin(0.0, false), Corners(a, a), true) && !ProductOf(a, a, 0.0)
  {
    ZeroProduct(a, a);
    assert Times(0.0, 0.0) == 0.0;
    assert Corners(a, a) == [Fin(0.0, false), Fin(0.0, false), Fin(0.0, false), PosInf];
    assert Compare(Fin(0.0, false), Corners(a, a)[0]) == 0;
  }
}
