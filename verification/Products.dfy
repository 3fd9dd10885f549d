/** Products of reals under a name, with the few laws the proofs use. */
module Products {
  function Times(a: real, b: real): real {
    a * b
  }

  lemma {:induction false} Distribute(a: real, x: real, y: real)
    ensures Times(a, x + y) == Times(a, x) + Times(a, y)
  {
  }

  lemma {:induction false} DistributeRight(a: real, b: real, x: real)
    ensures Times(a + b, x) == Times(a, x) + Times(b, x)
  {
  }

  lemma {:induction false} Commute(a: real, b: real, x: real)
    ensures Times(a, Times(b, x)) == Times(b, Times(a, x)) == Times(Times(a, b), x)
  {
  }

  lemma {:induction false} ProductZero(a: real, x: real)
    ensures Times(a, 0.0) == 0.0
    ensures a != 0.0 ==> (Times(a, x) == 0.0 <==> x == 0.0)
  {
    assert a != 0.0 ==> Times(a, x) / a == x;
  }

  lemma {:induction false} ZeroTimes(x: real)
    ensures Times(0.0, x) == 0.0
  {
  }

  lemma {:induction false} MinusTimes(a: real, x: real)
    ensures Times(-a, x) == -Times(a, x)
  {
  }
}
