/** Depth-first traversal of an acyclic graph: what it lists, and the work lists that run it. */
module Traversals {
  type Id = nat
  type Arcs = Id -> seq<Id>

  predicate Below(ids: seq<Id>, n: nat) {
    forall i :: 0 <= i < |ids| ==> ids[i] < n
  }

  ghost predicate Acyclic(kids: Arcs) {
    forall n: Id :: Below(kids(n), n)
  }

  // ----- the recursive traversal -----

  /** The nodes in the order a recursive traversal finishes them, after those of `order`. */
  ghost function Finish(kids: Arcs, n: Id, order: seq<Id>): seq<Id>
    requires Acyclic(kids)
    decreases n, 1, 0
  {
    if n in order then order else FinishAll(kids, kids(n), n, order) + [n]
  }

  ghost function FinishAll(kids: Arcs, ns: seq<Id>, bound: nat, order: seq<Id>): seq<Id>
    requires Acyclic(kids) && Below(ns, bound)
    decreases bound, 0, |ns|
  {
    if ns == [] then order else FinishAll(kids, ns[1..], bound, Finish(kids, ns[0], order))
  }

  /** `order` continued by nodes below the bound. */
  ghost predicate Continues(order: seq<Id>, order': seq<Id>, bound: nat) {
    order <= order' && forall x :: x in order' && x !in order ==> x < bound
  }

  lemma {:induction false} FinishContinues(kids: Arcs, n: Id, order: seq<Id>)
    requires Acyclic(kids)
    ensures Continues(order, Finish(kids, n, order), n + 1) && n in Finish(kids, n, order)
    decreases n, 1, 0
  {
    if n !in order {
      FinishAllContinues(kids, kids(n), n, order);
    }
  }

  lemma {:induction false} FinishAllContinues(kids: Arcs, ns: seq<Id>, bound: nat, order: seq<Id>)
    requires Acyclic(kids) && Below(ns, bound)
    ensures Continues(order, FinishAll(kids, ns, bound, order), bound)
    decreases bound, 0, |ns|
  {
    if ns != [] {
      FinishContinues(kids, ns[0], order);
      FinishAllContinues(kids, ns[1..], bound, Finish(kids, ns[0], order));
    }
  }

  /** Every node comes after its children, and once. */
  ghost predicate Ordered(kids: Arcs, order: seq<Id>) {
    && (forall i, c :: 0 <= i < |order| && c in kids(order[i]) ==> c in order[..i])
    && (forall i, j :: 0 <= i < j < |order| ==> order[i] != order[j])
  }

  lemma {:induction false} OrderedPush(kids: Arcs, order: seq<Id>, n: Id)
    requires Ordered(kids, order) && n !in order && forall c :: c in kids(n) ==> c in order
    ensures Ordered(kids, order + [n])
  {
    var order' := order + [n];
    forall i, c | 0 <= i < |order'| && c in kids(order'[i]) ensures c in order'[..i] {
      if i < |order| {
        assert order'[i] == order[i] && order'[..i] == order[..i];
      } else {
        assert order'[..i] == order;
      }
    }
  }

  /** Children before parents, each once. */
  lemma {:induction false} FinishOrdered(kids: Arcs, n: Id, order: seq<Id>)
    requires Acyclic(kids) && Ordered(kids, order)
    ensures Ordered(kids, Finish(kids, n, order))
    decreases n, 1, 0
  {
    if n !in order {
      FinishAllOrdered(kids, kids(n), n, order);
      FinishAllContinues(kids, kids(n), n, order);
      OrderedPush(kids, FinishAll(kids, kids(n), n, order), n);
    }
  }

  lemma {:induction false} FinishAllOrdered(kids: Arcs, ns: seq<Id>, bound: nat, order: seq<Id>)
    requires Acyclic(kids) && Below(ns, bound) && Ordered(kids, order)
    ensures Ordered(kids, FinishAll(kids, ns, bound, order))
    ensures forall x :: x in ns ==> x in FinishAll(kids, ns, bound, order)
    decreases bound, 0, |ns|
  {
    if ns != [] {
      FinishOrdered(kids, ns[0], order);
      FinishContinues(kids, ns[0], order);
      FinishAllOrdered(kids, ns[1..], bound, Finish(kids, ns[0], order));
      FinishAllContinues(kids, ns[1..], bound, Finish(kids, ns[0], order));
    }
  }

  /** An arc path leads from `n` to `x`. */
  ghost predicate Reaches(kids: Arcs, n: Id, x: Id)
    requires Acyclic(kids)
    decreases n
  {
    n == x || exists i :: 0 <= i < |kids(n)| && Reaches(kids, kids(n)[i], x)
  }

  ghost predicate ReachesAny(kids: Arcs, ns: seq<Id>, x: Id)
    requires Acyclic(kids)
  {
    exists i :: 0 <= i < |ns| && Reaches(kids, ns[i], x)
  }

  lemma {:induction false} ReachedIn(kids: Arcs, order: seq<Id>, n: Id, x: Id)
    requires Acyclic(kids) && Ordered(kids, order) && n in order && Reaches(kids, n, x)
    ensures x in order
    decreases n
  {
    if n != x {
      var i :| 0 <= i < |kids(n)| && Reaches(kids, kids(n)[i], x);
      var j :| 0 <= j < |order| && order[j] == n;
      assert kids(n)[i] in order[..j];
      ReachedIn(kids, order, kids(n)[i], x);
    }
  }

  /** What a node reaches comes no later. */
  lemma {:induction false} ReachedBefore(kids: Arcs, order: seq<Id>, i: nat, x: Id)
    requires Acyclic(kids) && Ordered(kids, order) && i < |order| && Reaches(kids, order[i], x)
    ensures x in order[..i + 1] && forall j :: 0 <= j < |order| && order[j] == x ==> j <= i
    decreases i
  {
    if order[i] == x {
      assert order[..i + 1][i] == x;
    } else {
      var k :| 0 <= k < |kids(order[i])| && Reaches(kids, kids(order[i])[k], x);
      var c := kids(order[i])[k];
      assert c in order[..i];
      var m :| 0 <= m < i && order[m] == c;
      ReachedBefore(kids, order, m, x);
      var j :| 0 <= j <= m && order[j] == x;
      assert order[..i + 1][j] == x;
    }
  }

  /** The traversal adds exactly the nodes reached. */
  lemma {:induction false} FinishReaches(kids: Arcs, n: Id, order: seq<Id>, x: Id)
    requires Acyclic(kids) && Ordered(kids, order)
    ensures x in Finish(kids, n, order) <==> x in order || Reaches(kids, n, x)
    decreases n, 1, 0
  {
    if n in order {
      if Reaches(kids, n, x) {
        ReachedIn(kids, order, n, x);
      }
    } else {
      FinishAllReaches(kids, kids(n), n, order, x);
    }
  }

  lemma {:induction false} FinishAllReaches(kids: Arcs, ns: seq<Id>, bound: nat, order: seq<Id>, x: Id)
    requires Acyclic(kids) && Below(ns, bound) && Ordered(kids, order)
    ensures x in FinishAll(kids, ns, bound, order) <==> x in order || ReachesAny(kids, ns, x)
    decreases bound, 0, |ns|
  {
    if ns != [] {
      FinishOrdered(kids, ns[0], order);
      FinishReaches(kids, ns[0], order, x);
      FinishAllReaches(kids, ns[1..], bound, Finish(kids, ns[0], order), x);
      if i :| 0 <= i < |ns| && Reaches(kids, ns[i], x) {
        if i > 0 {
          assert ns[1..][i - 1] == ns[i];
        }
      }
      if i :| 0 <= i < |ns[1..]| && Reaches(kids, ns[1..][i], x) {
        assert ns[i + 1] == ns[1..][i];
      }
    }
  }

  // ----- many roots: one traversal each, repeats dropped -----

  function Minus(s: seq<Id>, seen: seq<Id>): seq<Id> {
    if s == [] then [] else (if s[0] in seen then [] else [s[0]]) + Minus(s[1..], seen)
  }

  lemma {:induction false} MinusAppend(a: seq<Id>, b: seq<Id>, seen: seq<Id>)
    ensures Minus(a + b, seen) == Minus(a, seen) + Minus(b, seen)
  {
    if a == [] {
      assert a + b == b;
    } else {
      MinusAppend(a[1..], b, seen);
      assert (a + b)[1..] == a[1..] + b && (a + b)[0] == a[0];
      var one := if a[0] in seen then [] else [a[0]];
      assert Minus(a + b, seen) == one + Minus((a + b)[1..], seen);
      assert one + (Minus(a[1..], seen) + Minus(b, seen)) == (one + Minus(a[1..], seen)) + Minus(b, seen);
    }
  }

  lemma {:induction false} MinusIn(s: seq<Id>, seen: seq<Id>, x: Id)
    ensures x in Minus(s, seen) <==> x in s && x !in seen
  {
    if s != [] {
      MinusIn(s[1..], seen, x);
      assert s == [s[0]] + s[1..];
    }
  }

  lemma {:induction false} MinusNone(s: seq<Id>, seen: seq<Id>)
    requires forall x :: x in s ==> x in seen
    ensures Minus(s, seen) == []
  {
    if s != [] {
      MinusNone(s[1..], seen);
    }
  }

  lemma {:induction false} MinusMore(s: seq<Id>, seen: seq<Id>, more: seq<Id>)
    requires forall x :: x in s ==> (x in seen <==> x in more)
    ensures Minus(s, seen) == Minus(s, more)
  {
    if s != [] {
      MinusMore(s[1..], seen, more);
    }
  }

  lemma {:induction false} NothingNew(a: seq<Id>, b: seq<Id>, seen: seq<Id>)
    requires forall x :: x in b ==> x !in a
    ensures Minus(b, seen + Minus(a, seen)) == Minus(b, seen)
  {
    forall x | x in b ensures x in seen + Minus(a, seen) <==> x in seen {
      MinusIn(a, seen, x);
    }
    MinusMore(b, seen + Minus(a, seen), seen);
  }

  ghost function Added(kids: Arcs, n: Id, order: seq<Id>): seq<Id>
    requires Acyclic(kids)
  {
    FinishContinues(kids, n, order);
    Finish(kids, n, order)[|order|..]
  }

  ghost function AddedAll(kids: Arcs, ns: seq<Id>, bound: nat, order: seq<Id>): seq<Id>
    requires Acyclic(kids) && Below(ns, bound)
  {
    FinishAllContinues(kids, ns, bound, order);
    FinishAll(kids, ns, bound, order)[|order|..]
  }

  lemma {:induction false} AddedFresh(kids: Arcs, order: seq<Id>, order': seq<Id>, x: Id)
    requires Ordered(kids, order') && order <= order' && x in order'[|order|..]
    ensures x !in order
  {
    var i :| 0 <= i < |order'| - |order| && order'[|order|..][i] == x;
    assert order'[i + |order|] == x;
    forall j | 0 <= j < |order| ensures order[j] != x {
      assert order'[j] == order[j];
    }
  }

  /** From a larger start the traversal adds the same nodes in the same order, but for those it has. */
  lemma {:induction false} AddedLess(kids: Arcs, n: Id, small: seq<Id>, large: seq<Id>)
    requires Acyclic(kids) && Ordered(kids, small) && Ordered(kids, large) && forall x :: x in small ==> x in large
    ensures Added(kids, n, large) == Minus(Added(kids, n, small), large)
    decreases n, 1, 0
  {
    FinishContinues(kids, n, small);
    FinishContinues(kids, n, large);
    if n in large {
      forall x | x in Added(kids, n, small) ensures x in large {
        FinishReaches(kids, n, small, x);
        FinishOrdered(kids, n, small);
        AddedFresh(kids, small, Finish(kids, n, small), x);
        ReachedIn(kids, large, n, x);
      }
      MinusNone(Added(kids, n, small), large);
    } else {
      AddedAllLess(kids, kids(n), n, small, large);
      FinishAllContinues(kids, kids(n), n, small);
      FinishAllContinues(kids, kids(n), n, large);
      assert Added(kids, n, small) == AddedAll(kids, kids(n), n, small) + [n];
      assert Added(kids, n, large) == AddedAll(kids, kids(n), n, large) + [n];
      MinusAppend(AddedAll(kids, kids(n), n, small), [n], large);
      assert Minus([n], large) == [n] + Minus([], large);
    }
  }

  /** A larger start ends with more. */
  lemma {:induction false} FinishMono(kids: Arcs, n: Id, small: seq<Id>, large: seq<Id>)
    requires Acyclic(kids) && Ordered(kids, small) && Ordered(kids, large) && forall x :: x in small ==> x in large
    ensures forall x :: x in Finish(kids, n, small) ==> x in Finish(kids, n, large)
  {
    forall x | x in Finish(kids, n, small) ensures x in Finish(kids, n, large) {
      FinishReaches(kids, n, small, x);
      FinishReaches(kids, n, large, x);
    }
  }

  lemma {:induction false} AddedAllHead(kids: Arcs, ns: seq<Id>, bound: nat, order: seq<Id>)
    requires Acyclic(kids) && Below(ns, bound) && ns != []
    ensures var next := Finish(kids, ns[0], order);
      next == order + Added(kids, ns[0], order)
      && AddedAll(kids, ns, bound, order) == Added(kids, ns[0], order) + AddedAll(kids, ns[1..], bound, next)
  {
    FinishContinues(kids, ns[0], order);
    FinishAllContinues(kids, ns[1..], bound, Finish(kids, ns[0], order));
  }

  lemma {:induction false} AddedAllFresh(kids: Arcs, ns: seq<Id>, bound: nat, start: seq<Id>)
    requires Acyclic(kids) && Below(ns, bound) && Ordered(kids, start)
    ensures forall x :: x in AddedAll(kids, ns, bound, start) ==> x !in start
  {
    FinishAllContinues(kids, ns, bound, start);
    FinishAllOrdered(kids, ns, bound, start);
    forall x | x in AddedAll(kids, ns, bound, start) ensures x !in start {
      AddedFresh(kids, start, FinishAll(kids, ns, bound, start), x);
    }
  }

  lemma {:induction false} AddedAllLess(kids: Arcs, ns: seq<Id>, bound: nat, small: seq<Id>, large: seq<Id>)
    requires Acyclic(kids) && Below(ns, bound)
    requires Ordered(kids, small) && Ordered(kids, large) && forall x :: x in small ==> x in large
    ensures AddedAll(kids, ns, bound, large) == Minus(AddedAll(kids, ns, bound, small), large)
    decreases bound, 0, |ns|
  {
    if ns != [] {
      var small', large' := Finish(kids, ns[0], small), Finish(kids, ns[0], large);
      FinishOrdered(kids, ns[0], small);
      FinishOrdered(kids, ns[0], large);
      FinishMono(kids, ns[0], small, large);
      AddedLess(kids, ns[0], small, large);
      AddedAllLess(kids, ns[1..], bound, small', large');
      AddedAllHead(kids, ns, bound, small);
      AddedAllHead(kids, ns, bound, large);
      AddedAllFresh(kids, ns[1..], bound, small');
      var a, b := Added(kids, ns[0], small), AddedAll(kids, ns[1..], bound, small');
      NothingNew(a, b, large);
      MinusAppend(a, b, large);
    } else {
      assert AddedAll(kids, ns, bound, small) == [];
    }
  }

  /** The first occurrences, after those of `seen`. */
  ghost function FirstOnes<A>(s: seq<A>, seen: seq<A>): seq<A> {
    if s == [] then seen else FirstOnes(s[1..], if s[0] in seen then seen else seen + [s[0]])
  }

  lemma {:induction false} FirstOnesAppend<A>(a: seq<A>, b: seq<A>, seen: seq<A>)
    ensures FirstOnes(a + b, seen) == FirstOnes(b, FirstOnes(a, seen))
  {
    if a == [] {
      assert a + b == b;
    } else {
      FirstOnesAppend(a[1..], b, if a[0] in seen then seen else seen + [a[0]]);
      assert (a + b)[1..] == a[1..] + b && (a + b)[0] == a[0];
    }
  }

  lemma {:induction false} FirstOnesOnce(s: seq<Id>, seen: seq<Id>)
    requires forall i, j :: 0 <= i < j < |s| ==> s[i] != s[j]
    ensures FirstOnes(s, seen) == seen + Minus(s, seen)
  {
    if s != [] {
      var seen' := if s[0] in seen then seen else seen + [s[0]];
      FirstOnesOnce(s[1..], seen');
      forall x | x in s[1..] ensures x in seen' <==> x in seen {
        var i :| 0 <= i < |s[1..]| && s[1..][i] == x;
        assert s[i + 1] == x;
      }
      MinusMore(s[1..], seen', seen);
    }
  }

  /** One traversal per root, one after the other. */
  ghost function OneByOne(kids: Arcs, roots: seq<Id>): seq<Id>
    requires Acyclic(kids)
  {
    if roots == [] then [] else Finish(kids, roots[0], []) + OneByOne(kids, roots[1..])
  }

  /** The traversal of many roots is that of each, repeats dropped. */
  lemma {:induction false} ManyRoots(kids: Arcs, roots: seq<Id>, bound: nat, order: seq<Id>)
    requires Acyclic(kids) && Below(roots, bound) && Ordered(kids, order)
    ensures FinishAll(kids, roots, bound, order) == FirstOnes(OneByOne(kids, roots), order)
  {
    if roots != [] {
      var one, order' := Finish(kids, roots[0], []), Finish(kids, roots[0], order);
      FinishOrdered(kids, roots[0], []);
      FinishOrdered(kids, roots[0], order);
      FinishContinues(kids, roots[0], order);
      AddedLess(kids, roots[0], [], order);
      assert Added(kids, roots[0], []) == one;
      assert order' == order + Minus(one, order);
      FirstOnesOnce(one, order);
      FirstOnesAppend(one, OneByOne(kids, roots[1..]), order);
      ManyRoots(kids, roots[1..], bound, order');
    }
  }

  // ----- the traversal without marks -----

  /** The nodes in the order a recursive traversal that never looks back finishes them, repeats included. */
  ghost function Flat(kids: Arcs, n: Id): (s: seq<Id>)
    requires Acyclic(kids)
    ensures Below(s, n + 1)
    decreases n, 1, 0
  {
    FlatAll(kids, kids(n), n) + [n]
  }

  ghost function FlatAll(kids: Arcs, ns: seq<Id>, bound: nat): (s: seq<Id>)
    requires Acyclic(kids) && Below(ns, bound)
    ensures Below(s, bound)
    decreases bound, 0, |ns|
  {
    if ns == [] then [] else Flat(kids, ns[0]) + FlatAll(kids, ns[1..], bound)
  }

  lemma {:induction false} FlatReached(kids: Arcs, n: Id, x: Id)
    requires Acyclic(kids) && x in Flat(kids, n)
    ensures Reaches(kids, n, x)
    decreases n, 1, 0
  {
    if x != n {
      FlatAllReached(kids, kids(n), n, x);
    }
  }

  lemma {:induction false} FlatAllReached(kids: Arcs, ns: seq<Id>, bound: nat, x: Id)
    requires Acyclic(kids) && Below(ns, bound) && x in FlatAll(kids, ns, bound)
    ensures ReachesAny(kids, ns, x)
    decreases bound, 0, |ns|
  {
    if x in Flat(kids, ns[0]) {
      FlatReached(kids, ns[0], x);
    } else {
      FlatAllReached(kids, ns[1..], bound, x);
      var i :| 0 <= i < |ns[1..]| && Reaches(kids, ns[1..][i], x);
      assert Reaches(kids, ns[i + 1], x);
    }
  }

  lemma {:induction false} FirstOnesKnown<A>(s: seq<A>, seen: seq<A>)
    requires forall x :: x in s ==> x in seen
    ensures FirstOnes(s, seen) == seen
  {
    if s != [] {
      assert s[0] in s;
      FirstOnesKnown(s[1..], seen);
    }
  }

  /** Marks only drop repeats. */
  lemma {:induction false} FinishFlat(kids: Arcs, n: Id, order: seq<Id>)
    requires Acyclic(kids) && Ordered(kids, order)
    ensures Finish(kids, n, order) == FirstOnes(Flat(kids, n), order)
    decreases n, 1, 0
  {
    if n in order {
      forall x | x in Flat(kids, n) ensures x in order {
        FlatReached(kids, n, x);
        ReachedIn(kids, order, n, x);
      }
      FirstOnesKnown(Flat(kids, n), order);
    } else {
      FinishAllFlat(kids, kids(n), n, order);
      FirstOnesAppend(FlatAll(kids, kids(n), n), [n], order);
      FinishAllContinues(kids, kids(n), n, order);
      FirstOnesLast(n, FinishAll(kids, kids(n), n, order));
    }
  }

  lemma {:induction false} FirstOnesLast<A>(x: A, seen: seq<A>)
    requires x !in seen
    ensures FirstOnes([x], seen) == seen + [x]
  {
    assert [x][1..] == [];
  }

  lemma {:induction false} FinishAllFlat(kids: Arcs, ns: seq<Id>, bound: nat, order: seq<Id>)
    requires Acyclic(kids) && Below(ns, bound) && Ordered(kids, order)
    ensures FinishAll(kids, ns, bound, order) == FirstOnes(FlatAll(kids, ns, bound), order)
    decreases bound, 0, |ns|
  {
    if ns != [] {
      FinishFlat(kids, ns[0], order);
      FinishOrdered(kids, ns[0], order);
      FinishAllFlat(kids, ns[1..], bound, Finish(kids, ns[0], order));
      FirstOnesAppend(Flat(kids, ns[0]), FlatAll(kids, ns[1..], bound), order);
    }
  }

  // ----- how much work is left -----

  ghost function Work(kids: Arcs, n: Id): nat
    requires Acyclic(kids)
    decreases n, 1, 0
  {
    2 + WorkAll(kids, kids(n), n)
  }

  ghost function WorkAll(kids: Arcs, ns: seq<Id>, bound: nat): nat
    requires Acyclic(kids) && Below(ns, bound)
    decreases bound, 0, |ns|
  {
    if ns == [] then 0 else Work(kids, ns[0]) + WorkAll(kids, ns[1..], bound)
  }
}
