/** Pairs `x + y * delta` with delta a positive infinitesimal, ordered lexicographically. */
module DeltaRationals {
  import opened Options
  import opened Products

  datatype Impq = Impq(x: real, y: real) {
    function Add(o: Impq): Impq {
      Impq(x + o.x, y + o.y)
    }

    function Sub(o: Impq): Impq {
      Impq(x - o.x, y - o.y)
    }

    function Scale(c: real): Impq {
      Impq(Times(x, c), Times(y, c))
    }

    /** The value at a given delta. */
    function At(delta: real): real {
      x + Times(y, delta)
    }

    predicate Less(o: Impq) {
      x < o.x || (x == o.x && y < o.y)
    }

    predicate AtMost(o: Impq) {
      x < o.x || (x == o.x && y <= o.y)
    }
  }

  const ZERO := Impq(0.0, 0.0)

  /** No bound is crossed by `p`. */
  predicate Within(lo: Option<Impq>, hi: Option<Impq>, p: Impq) {
    (lo.Some? ==> lo.value.AtMost(p)) && (hi.Some? ==> p.AtMost(hi.value))
  }

  /** The kind of a bound on a column. */
  datatype Kind = Le | Lt | Ge | Gt {
    predicate Upper() {
      Le? || Lt?
    }

    /** The bound as a pair: a strict one is displaced by one infinitesimal. */
    function Pair(rhs: real): Impq {
      Impq(rhs, match this case Le => 0.0 case Lt => -1.0 case Ge => 0.0 case Gt => 1.0)
    }

    /** What the bound means for a real value. */
    predicate Holds(v: real, rhs: real) {
      match this
      case Le => v <= rhs
      case Lt => v < rhs
      case Ge => v >= rhs
      case Gt => v > rhs
    }
  }

  /** A real satisfies a bound exactly when it does as a pair. */
  lemma {:induction false} KindAsPair(k: Kind, v: real, rhs: real)
    ensures k.Holds(v, rhs) <==> if k.Upper() then Impq(v, 0.0).AtMost(k.Pair(rhs)) else k.Pair(rhs).AtMost(Impq(v, 0.0))
  {
  }

  // ----- choosing a delta -----

  /** At `delta`, `l` does not exceed `u`, if it does not as a pair. */
  predicate Small(delta: real, l: Impq, u: Impq) {
    l.x < u.x && l.y > u.y ==> delta <= (u.x - l.x) / (l.y - u.y)
  }

  function Shrink(delta: real, l: Impq, u: Impq): (r: real)
    ensures r <= delta && Small(r, l, u) && (delta > 0.0 ==> r > 0.0)
    ensures r < delta ==> forall d :: d > r ==> !Small(d, l, u)
  {
    if l.x < u.x && l.y > u.y then
      var d := (u.x - l.x) / (l.y - u.y);
      if d < delta then d else delta
    else delta
  }

  lemma {:induction false} AtMostAt(l: Impq, u: Impq, delta: real)
    requires l.AtMost(u) && delta > 0.0 && Small(delta, l, u)
    ensures l.At(delta) <= u.At(delta)
  {
    if l.x < u.x && l.y > u.y {
      assert delta * (l.y - u.y) <= ((u.x - l.x) / (l.y - u.y)) * (l.y - u.y);
    } else {
      assert (u.y - l.y) * delta >= 0.0 || l.x < u.x;
    }
  }

  // ----- keeping different pairs apart -----

  /** Two different pairs with the same value at `delta`, or at a positive smaller one. */
  ghost predicate Collide(p: Impq, q: Impq, delta: real) {
    p != q && exists d :: 0.0 < d <= delta && p.At(d) == q.At(d)
  }

  ghost function Collisions(pairs: set<Impq>, delta: real): set<(Impq, Impq)> {
    set p, q | p in pairs && q in pairs && Collide(p, q, delta) :: (p, q)
  }

  ghost function Image(pairs: set<Impq>, delta: real): set<real> {
    set p | p in pairs :: p.At(delta)
  }

  ghost predicate Injective(pairs: set<Impq>, delta: real) {
    forall p, q :: p in pairs && q in pairs && p != q ==> p.At(delta) != q.At(delta)
  }

  /** The values are as many as the pairs exactly when different pairs have different values. */
  lemma {:induction false} ImageSize(pairs: set<Impq>, delta: real)
    ensures |Image(pairs, delta)| <= |pairs|
    ensures |Image(pairs, delta)| == |pairs| <==> Injective(pairs, delta)
    decreases |pairs|
  {
    if pairs != {} {
      var p :| p in pairs;
      var rest := pairs - {p};
      ImageSize(rest, delta);
      assert Image(pairs, delta) == Image(rest, delta) + {p.At(delta)};
      if p.At(delta) in Image(rest, delta) {
        var q :| q in rest && q.At(delta) == p.At(delta);
        assert Image(pairs, delta) == Image(rest, delta);
        assert !Injective(pairs, delta);
      } else {
        assert forall q :: q in rest ==> q.At(delta) in Image(rest, delta);
        assert Injective(pairs, delta) <==> Injective(rest, delta) by {
          if Injective(pairs, delta) {
            assert forall a, b :: a in rest && b in rest ==> a in pairs && b in pairs;
          }
        }
      }
    }
  }

  lemma {:induction false} MeetOnce(p: Impq, q: Impq, d: real, e: real)
    requires p.At(d) == q.At(d) && p.At(e) == q.At(e) && d != e
    ensures p == q
  {
    assert (p.y - q.y) * (d - e) == 0.0;
    assert p.y == q.y;
  }

  /** Each pair of pairs collides at one delta at most, so halving leaves fewer collisions below. */
  lemma {:induction false} CollisionsShrink(pairs: set<Impq>, delta: real)
    requires delta > 0.0 && !Injective(pairs, delta)
    ensures |Collisions(pairs, delta / 2.0)| < |Collisions(pairs, delta)|
  {
    var p, q :| p in pairs && q in pairs && p != q && p.At(delta) == q.At(delta);
    var all, fewer := Collisions(pairs, delta), Collisions(pairs, delta / 2.0);
    assert (p, q) in all by {
      assert Collide(p, q, delta);
    }
    assert (p, q) !in fewer by {
      if Collide(p, q, delta / 2.0) {
        var d :| 0.0 < d <= delta / 2.0 && p.At(d) == q.At(d);
        MeetOnce(p, q, d, delta);
      }
    }
    forall a: Impq, b: Impq | (a, b) in fewer ensures (a, b) in all {
      var d :| 0.0 < d <= delta / 2.0 && a.At(d) == b.At(d);
      assert Collide(a, b, delta);
    }
    assert fewer <= all - {(p, q)};
    SubsetSize(fewer, all - {(p, q)});
  }

  lemma {:induction false} SubsetSize<T>(a: set<T>, b: set<T>)
    requires a <= b
    ensures |a| <= |b|
    decreases |a|
  {
    if a != {} {
      var e :| e in a;
      SubsetSize(a - {e}, b - {e});
    }
  }
}
