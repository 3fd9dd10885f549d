/** The rewriting constructors over the hash-consed arena, each proved to keep the language of the plain operator. */
module RegexRewriter {
  import opened Options
  import opened RegexTerms
  import opened RegexArena
  import opened RegexInfo
  import opened RegexLaws
  import opened RegexOrder
  import opened RegexSets
  import opened RegexSubset
  import R = CharRanges
  import L = Languages

  /** The memo's answers mean what was asked. */
  ghost predicate MemoOk(memo: map<Id, Id>, trees: seq<Regex>) {
    forall t :: t in memo ==>
      t < |trees| && memo[t] < |trees| && LoopsOk(trees[memo[t]]) && Same(trees[memo[t]], trees[t])
  }

  ghost function TermsOf(ids: seq<Id>, trees: seq<Regex>): (ts: seq<Regex>) {
    seq(|ids|, i requires 0 <= i < |ids| => if ids[i] < |trees| then trees[ids[i]] else ReNone)
  }

  lemma {:induction false} ReplaceApply1(op: UnOp, a: Regex, a': Regex)
    requires Same(a, a')
    ensures Same(Apply1(op, a), Apply1(op, a'))
  {
    ReplaceUnary(a, a');
    if op.LoopOp? {
      ReplaceLoop(a, a', op.lo, op.hi);
    }
  }

  lemma {:induction false} ReplaceApply2(op: BinOp, a: Regex, b: Regex, a': Regex, b': Regex)
    requires Same(a, a') && Same(b, b')
    ensures Same(Apply2(op, a, b), Apply2(op, a', b'))
  {
    ReplaceConcat(a, b, a', b');
    ReplaceUnion(a, b, a', b');
  }

  /** One step of merging two sets. */
  datatype Step = Void | Stop(prefix: seq<Id>, end: Id) | Go(prefix: seq<Id>, ar: Id, br: Id)

  class ReSimp {
    var nodes: seq<Node>
    var index: map<Node, Id>
    var memo: map<Id, Id>

    /** The term each node unfolds to. */
    ghost var trees: seq<Regex>

    ghost predicate Valid()
      reads this
    {
      ArenaOk(nodes, index, trees) && MemoOk(memo, trees)
    }

    /** A regex of the arena with no crossed loop. */
    ghost predicate Has(t: Id)
      reads this
    {
      t < |trees| && LoopsOk(trees[t])
    }

    /** Old ids keep their nodes and terms. */
    ghost predicate Kept(ns: seq<Node>, ts: seq<Regex>)
      reads this
    {
      ns <= nodes && ts <= trees
    }

    constructor ()
      ensures Valid() && nodes == []
    {
      nodes, index, memo, trees := [], map[], map[], [];
    }

    method MkNode(n: Node) returns (id: Id)
      requires Valid() && Below(n, |nodes|)
      modifies `nodes, `index, `trees
      ensures Valid() && Kept(old(nodes), old(trees)) && id < |nodes| && nodes[id] == n && trees[id] == TreeOf(n, trees)
      ensures if n in old(nodes) then nodes == old(nodes) else nodes == old(nodes) + [n]
    {
      if n in index {
        id := index[n];
        Look(id);
        return;
      }
      NotIndexed(nodes, index, trees, n);
      PushNode(nodes, index, trees, n);
      id := |nodes|;
      trees := trees + [TreeOf(n, trees)];
      nodes := nodes + [n];
      index := index[n := id];
    }

    method RawLeaf(r: Regex) returns (id: Id)
      requires Valid() && Childless(r)
      modifies `nodes, `index, `trees
      ensures Valid() && Kept(old(nodes), old(trees)) && Has(id) && trees[id] == r
    {
      id := MkNode(Leaf(r));
    }

    method RawUn(op: UnOp, a: Id) returns (id: Id)
      requires Valid() && a < |nodes|
      modifies `nodes, `index, `trees
      ensures Valid() && Kept(old(nodes), old(trees)) && id < |trees| && trees[id] == Apply1(op, old(trees)[a])
    {
      id := MkNode(Un(op, a));
    }

    method RawBin(op: BinOp, a: Id, b: Id) returns (id: Id)
      requires Valid() && a < |nodes| && b < |nodes|
      modifies `nodes, `index, `trees
      ensures Valid() && Kept(old(nodes), old(trees)) && id < |trees|
      ensures trees[id] == Apply2(op, old(trees)[a], old(trees)[b])
      ensures id < |nodes| && nodes[id] == Bin(op, a, b) && b < id
    {
      id := MkNode(Bin(op, a, b));
      Look(id);
    }

    method RawIte(c: Cond, a: Id, b: Id) returns (id: Id)
      requires Valid() && a < |nodes| && b < |nodes|
      modifies `nodes, `index, `trees
      ensures Valid() && Kept(old(nodes), old(trees)) && id < |trees|
      ensures trees[id] == Ite(c, old(trees)[a], old(trees)[b])
    {
      id := MkNode(IteNode(c, a, b));
    }

    // ----- inspection -----

    /** The term of a node, unfolded. */
    function Term(t: Id): (r: Regex)
      requires Valid() && t < |nodes|
      reads this
      ensures r == trees[t]
    {
      assert NodeOk(nodes[t], t, trees);
      match nodes[t]
      case Leaf(r) => r
      case Un(op, a) => Apply1(op, Term(a))
      case Bin(op, a, b) => Apply2(op, Term(a), Term(b))
      case IteNode(c, a, b) => Ite(c, Term(a), Term(b))
    }

    /** The node of a term, seen from the term. */
    lemma {:induction false} Look(t: Id)
      requires Valid() && t < |nodes|
      ensures NodeOk(nodes[t], t, trees)
    {
    }

    lemma {:induction false} LookUn(t: Id, op: UnOp, x: Regex)
      requires Valid() && t < |nodes| && trees[t] == Apply1(op, x)
      ensures nodes[t].IsUn(op) && nodes[t].a < t && trees[nodes[t].a] == x
    {
      Look(t);
      match nodes[t]
      case Un(o, a) => ApplyInjective(o, op, trees[a], x);
      case _ =>
    }

    lemma {:induction false} LookBin(t: Id, op: BinOp, x: Regex, y: Regex)
      requires Valid() && t < |nodes| && trees[t] == Apply2(op, x, y)
      ensures nodes[t].IsBin(op) && nodes[t].a < t && nodes[t].b < t && trees[nodes[t].a] == x && trees[nodes[t].b] == y
    {
      Look(t);
      match nodes[t]
      case Bin(o, a, b) => Apply2Injective(o, op, trees[a], trees[b], x, y);
      case _ =>
    }

    lemma {:induction false} LookSet(t: Id, union: bool)
      requires Valid() && t < |nodes| && nodes[t].IsBin(SetOp(union))
      ensures nodes[t].a < t && nodes[t].b < t && trees[t] == SetOf(union, trees[nodes[t].a], trees[nodes[t].b])
    {
      Look(t);
    }

    lemma {:induction false} LookIte(t: Id)
      requires Valid() && t < |nodes| && trees[t].Ite?
      ensures nodes[t].IteNode? && nodes[t].a < t && nodes[t].b < t
      ensures trees[nodes[t].a] == trees[t].a && trees[nodes[t].b] == trees[t].b
    {
      Look(t);
    }

    predicate AreComplements(a: Id, b: Id)
      requires Valid() && a < |nodes| && b < |nodes|
      reads this
      ensures AreComplements(a, b) ==> Complements(trees[a], trees[b])
    {
      Look(a);
      Look(b);
      nodes[a] == Un(CompOp, b) || nodes[b] == Un(CompOp, a)
    }

    // ----- character classes -----

    method MkCharRange(lo: Char, hi: Char) returns (r: Id)
      requires Valid()
      modifies `nodes, `index, `trees
      ensures Valid() && Kept(old(nodes), old(trees)) && Has(r) && trees[r] == CharRegex(lo, hi)
    {
      if lo > hi {
        r := RawLeaf(ReNone);
      } else if lo == 0 && hi == L.MAX_CHAR {
        r := RawLeaf(AllChar);
      } else if lo == hi {
        r := RawLeaf(ToRe(Lit([lo])));
      } else {
        r := RawLeaf(Range(Lit([lo]), Lit([hi])));
      }
    }

    /** One node a range, in the order of the ranges. */
    method RangeNodes(p: R.Ranges) returns (rs: seq<Id>)
      requires Valid() && R.Canonical(p)
      modifies `nodes, `index, `trees
      ensures Valid() && Kept(old(nodes), old(trees)) && |rs| == |p|
      ensures forall i :: 0 <= i < |p| ==> rs[i] < |trees| && trees[rs[i]] == CharRegex(p[i].0, p[i].1)
    {
      rs := [];
      var k := 0;
      while k < |p|
        invariant 0 <= k <= |p| && Valid() && Kept(old(nodes), old(trees)) && |rs| == k
        invariant forall i :: 0 <= i < k ==> rs[i] < |trees| && trees[rs[i]] == CharRegex(p[i].0, p[i].1)
      {
        var id := MkCharRange(p[k].0, p[k].1);
        rs := rs + [id];
        k := k + 1;
      }
    }

    /** The plain right-nested union of the nodes. */
    method UniteAll(rs: seq<Id>, ghost ts: seq<Regex>) returns (r: Id)
      requires Valid() && rs != [] && |ts| == |rs|
      requires forall i :: 0 <= i < |rs| ==> rs[i] < |trees| && trees[rs[i]] == ts[i] && Plain(ts[i])
      requires Ascending(nodes, UnionOp, rs) && IsArm(nodes, InterOp, rs[|rs| - 1])
      modifies `nodes, `index, `trees
      ensures Valid() && Kept(old(nodes), old(trees)) && r < |trees| && Plain(trees[r]) && Unites(ts, trees[r])
      ensures SortedSet(nodes, UnionOp, r) && IsArm(nodes, InterOp, r)
    {
      ghost var nodes0 := nodes;
      var i := |rs| - 1;
      r := rs[i];
      UnitesOne(ts[i]);
      assert ts[i..] == [ts[i]] && rs[i..] == [rs[i]];
      assert IsArm(nodes, UnionOp, rs[i]);
      while i > 0
        invariant 0 <= i < |rs| && Valid() && Kept(old(nodes), old(trees))
        invariant r < |trees| && Plain(trees[r]) && Unites(ts[i..], trees[r])
        invariant Spine(nodes, UnionOp, r) == rs[i..] && IsArm(nodes, InterOp, r)
      {
        ghost var nodes1, r1 := nodes, r;
        i := i - 1;
        UnitesMore(ts[i], ts[i + 1..], trees[r]);
        assert [ts[i]] + ts[i + 1..] == ts[i..];
        r := RawBin(UnionOp, rs[i], r);
        ArmAdded(nodes1, rs, i, r1, r);
      }
      assert ts[0..] == ts && rs[0..] == rs;
      AscendingKept(nodes0, nodes, UnionOp, rs);
    }

    lemma {:induction false} ArmAdded(nodes0: seq<Node>, rs: seq<Id>, i: nat, r0: Id, r: Id)
      requires nodes0 <= nodes && r0 < |nodes0| && i < |rs| && Spine(nodes0, UnionOp, r0) == rs[i + 1..]
      requires r < |nodes| && nodes[r] == Bin(UnionOp, rs[i], r0) && r0 < r
      ensures Spine(nodes, UnionOp, r) == rs[i..] && IsArm(nodes, InterOp, r)
    {
      SpineKept(nodes0, nodes, UnionOp, r0);
      assert [rs[i]] + rs[i + 1..] == rs[i..];
    }

    method RangesToRegex(p: R.Ranges) returns (r: Id)
      requires Valid() && R.Canonical(p)
      modifies `nodes, `index, `trees
      ensures Valid() && Kept(old(nodes), old(trees)) && r < |trees| && Plain(trees[r])
      ensures forall env :: Denote(trees[r], env) == R.Class(p)
      ensures SortedSet(nodes, UnionOp, r) && IsArm(nodes, InterOp, r)
    {
      if p == [] {
        r := RawLeaf(ReNone);
        Look(r);
        ArmSorted(nodes, UnionOp, r);
        return;
      }
      var rs := RangeNodes(p);
      var sorted := SortIds(rs);
      ghost var ts := TermsOf(sorted, trees);
      RangesSorted(p, rs, sorted, ts);
      RangesAscend(p, rs, sorted);
      r := UniteAll(sorted, ts);
      RangesUnite(p, ts, trees[r]);
    }

    lemma {:induction false} RangesAscend(p: R.Ranges, rs: seq<Id>, sorted: seq<Id>)
      requires Valid() && R.Canonical(p) && |rs| == |p| && InOrder(sorted) && multiset(sorted) == multiset(rs)
      requires forall i :: 0 <= i < |p| ==> rs[i] < |trees| && trees[rs[i]] == CharRegex(p[i].0, p[i].1)
      ensures Ascending(nodes, UnionOp, sorted) && Ascending(nodes, InterOp, sorted)
    {
      forall i | 0 <= i < |rs| ensures rs[i] < |nodes| && nodes[rs[i]].Leaf? {
        Look(rs[i]);
        assert trees[rs[i]] == CharRegex(p[i].0, p[i].1);
      }
      forall i, j | 0 <= i < j < |rs| ensures rs[i] != rs[j] {
        assert trees[rs[i]] == CharRegex(p[i].0, p[i].1) && trees[rs[j]] == CharRegex(p[j].0, p[j].1);
        assert p[i].1 + 1 < p[j].0;
        CharRegexTells(p[i].0, p[i].1, p[j].0, p[j].1);
      }
      LeavesAscend(nodes, UnionOp, rs, sorted);
      LeavesAscend(nodes, InterOp, rs, sorted);
    }

    lemma {:induction false} RangesSorted(p: R.Ranges, rs: seq<Id>, sorted: seq<Id>, ts: seq<Regex>)
      requires R.Canonical(p) && |rs| == |p| && multiset(sorted) == multiset(rs) && ts == TermsOf(sorted, trees)
      requires forall i :: 0 <= i < |p| ==> rs[i] < |trees| && trees[rs[i]] == CharRegex(p[i].0, p[i].1)
      ensures |sorted| == |rs|
      ensures forall i :: 0 <= i < |sorted| ==> sorted[i] < |trees| && Plain(ts[i])
      ensures forall x :: x in ts <==> exists i :: 0 <= i < |p| && x == CharRegex(p[i].0, p[i].1)
    {
      assert |multiset(sorted)| == |multiset(rs)|;
      forall i | 0 <= i < |sorted|
        ensures sorted[i] < |trees| && exists k :: 0 <= k < |p| && ts[i] == CharRegex(p[k].0, p[k].1)
      {
        assert sorted[i] in multiset(sorted);
        assert sorted[i] in rs;
        var k :| 0 <= k < |rs| && rs[k] == sorted[i];
        assert ts[i] == CharRegex(p[k].0, p[k].1);
      }
      forall i | 0 <= i < |sorted| ensures Plain(ts[i]) {
        var k :| 0 <= k < |p| && ts[i] == CharRegex(p[k].0, p[k].1);
        CharRegexPlain(p[k].0, p[k].1);
      }
      forall k | 0 <= k < |p| ensures CharRegex(p[k].0, p[k].1) in ts {
        assert rs[k] in multiset(rs);
        assert rs[k] in sorted;
        var i :| 0 <= i < |sorted| && sorted[i] == rs[k];
        assert ts[i] == CharRegex(p[k].0, p[k].1);
      }
    }

    // ----- unions and intersections -----

    /** `r` means the union (or intersection) of `x` and `y`, and has no more stars than they. */
    ghost predicate Joins(r: Id, union: bool, x: Regex, y: Regex)
      reads this
    {
      Has(r) && Same(trees[r], SetOf(union, x, y)) && Stars(trees[r]) <= Stars(x) + Stars(y)
    }

    /** The class of two character classes together, if they are. */
    method TryCollapse(a: Id, b: Id, union: bool) returns (r: Option<Id>)
      requires Valid() && Has(a) && Has(b)
      modifies `nodes, `index, `trees
      ensures Valid() && Kept(old(nodes), old(trees))
      ensures r.Some? ==> Joins(r.value, union, old(trees)[a], old(trees)[b])
      ensures r.Some? ==> SortedSet(nodes, UnionOp, r.value) && IsArm(nodes, InterOp, r.value)
      ensures r.None? ==> nodes == old(nodes)
    {
      var pa := R.RangePred(Term(a));
      var pb := R.RangePred(Term(b));
      if pa.None? || pb.None? {
        return None;
      }
      ghost var ta, tb := trees[a], trees[b];
      var p: R.Ranges;
      if union {
        p := R.UnionOf(pa.value, pb.value);
      } else {
        p := R.InterOf(pa.value, pb.value);
      }
      ClassJoins(pa.value, pb.value, p);
      var id := RangesToRegex(p);
      assert Same(trees[id], SetOf(union, ta, tb)) by {
        ClassesJoin(union, ta, pa.value, tb, pb.value, trees[id], p);
      }
      r := Some(id);
    }

    method MkUnion(a: Id, b: Id) returns (r: Id)
      requires Valid() && Has(a) && Has(b)
      modifies `nodes, `index, `trees
      ensures Valid() && Kept(old(nodes), old(trees)) && Joins(r, true, old(trees)[a], old(trees)[b])
      ensures SortedSet(old(nodes), UnionOp, a) && SortedSet(old(nodes), UnionOp, b) ==> SortedSet(nodes, UnionOp, r)
    {
      var c := TryCollapse(a, b, true);
      if c.Some? {
        return c.value;
      }
      r := UnionNormalize(a, b);
    }

    method MkInter(a: Id, b: Id) returns (r: Id)
      requires Valid() && Has(a) && Has(b)
      modifies `nodes, `index, `trees
      ensures Valid() && Kept(old(nodes), old(trees)) && Joins(r, false, old(trees)[a], old(trees)[b])
      ensures SortedSet(old(nodes), InterOp, a) && SortedSet(old(nodes), InterOp, b) ==> SortedSet(nodes, InterOp, r)
    {
      var c := TryCollapse(a, b, false);
      if c.Some? {
        ArmSorted(nodes, InterOp, c.value);
        return c.value;
      }
      r := InterNormalize(a, b);
    }

    method UnionNormalize(r1: Id, r2: Id) returns (r: Id)
      requires Valid() && Has(r1) && Has(r2)
      modifies `nodes, `index, `trees
      ensures Valid() && Kept(old(nodes), old(trees)) && Joins(r, true, old(trees)[r1], old(trees)[r2])
      ensures SortedSet(old(nodes), UnionOp, r1) && SortedSet(old(nodes), UnionOp, r2) ==> SortedSet(nodes, UnionOp, r)
      ensures r1 == r2 || old(trees)[r2].ReNone? || FullSeq(old(trees)[r1]) ==> r == r1
      ensures old(trees)[r1].ReNone? && !old(trees)[r2].ReNone? ==> r == r2
      ensures FullSeq(old(trees)[r2]) && !FullSeq(old(trees)[r1]) ==> r == r2
    {
      ghost var nodes0 := nodes;
      var t1, t2 := Term(r1), Term(r2);
      if r1 == r2 || t2.ReNone? || FullSeq(t1) {
        UnionKeepsFirst(t1, t2);
        return r1;
      }
      if t1.ReNone? || FullSeq(t2) {
        UnionKeepsFirst(t2, t1);
        return r2;
      }
      if DotPlus(t1) && InfoOf(t2).MinLength() > 0 {
        DotPlusJoins(t2, t1);
        return r1;
      }
      if DotPlus(t2) && InfoOf(t1).MinLength() > 0 {
        DotPlusJoins(t1, t2);
        return r2;
      }
      var c1, c2 := CharRange(t1), CharRange(t2);
      if c1.Some? && c2.Some? {
        var (lo1, hi1) := c1.value;
        var (lo2, hi2) := c2.value;
        var end1: nat, end2: nat := hi1, hi2;
        if lo2 <= end1 + 1 && lo1 <= end2 + 1 {
          TouchingRanges(t1, t2, lo1, hi1, lo2, hi2);
          r := MkCharRange(Least(lo1, lo2), Greatest(hi1, hi2));
          Look(r);
          ArmSorted(nodes, UnionOp, r);
          return;
        }
      }
      var full := RawLeaf(ReAll);
      if SortedSet(nodes0, UnionOp, r1) && SortedSet(nodes0, UnionOp, r2) {
        SortedKept(nodes0, nodes, UnionOp, r1);
        SortedKept(nodes0, nodes, UnionOp, r2);
      }
      r := MergeRegexSets(r1, r2, full, true);
    }

    method InterNormalize(a: Id, b: Id) returns (r: Id)
      requires Valid() && Has(a) && Has(b)
      modifies `nodes, `index, `trees
      ensures Valid() && Kept(old(nodes), old(trees)) && Joins(r, false, old(trees)[a], old(trees)[b])
      ensures SortedSet(old(nodes), InterOp, a) && SortedSet(old(nodes), InterOp, b) ==> SortedSet(nodes, InterOp, r)
      ensures a == b ==> r == a
      ensures old(trees)[a].ReNone? || old(trees)[b].ReNone? ==> trees[r].ReNone?
      ensures FullSeq(old(trees)[b]) && !FullSeq(old(trees)[a]) ==> r == a
      ensures FullSeq(old(trees)[a]) && !FullSeq(old(trees)[b]) ==> r == b
    {
      InterCommutes(trees[a], trees[b]);
      if Epsilon(Term(b)) {
        r := InterOrdered(b, a);
      } else {
        r := InterOrdered(a, b);
      }
    }

    /** The intersection, with a lone empty word first. */
    method InterOrdered(r1: Id, r2: Id) returns (r: Id)
      requires Valid() && Has(r1) && Has(r2)
      modifies `nodes, `index, `trees
      ensures Valid() && Kept(old(nodes), old(trees)) && Joins(r, false, old(trees)[r1], old(trees)[r2])
      ensures SortedSet(old(nodes), InterOp, r1) && SortedSet(old(nodes), InterOp, r2) ==> SortedSet(nodes, InterOp, r)
      ensures r1 == r2 ==> r == r1
      ensures old(trees)[r1].ReNone? || old(trees)[r2].ReNone? ==> trees[r].ReNone?
      ensures FullSeq(old(trees)[r2]) && !FullSeq(old(trees)[r1]) ==> r == r1
      ensures FullSeq(old(trees)[r1]) && !FullSeq(old(trees)[r2]) ==> r == r2
    {
      ghost var nodes0 := nodes;
      var t1, t2 := Term(r1), Term(r2);
      if r1 == r2 || t1.ReNone? || FullSeq(t2) {
        InterKeepsFirst(t1, t2);
        return r1;
      }
      if t2.ReNone? || FullSeq(t1) {
        InterKeepsFirst(t2, t1);
        return r2;
      }
      var none := RawLeaf(ReNone);
      InterLeft(nodes0, none, r1, r2);
      if Epsilon(t1) {
        EpsilonInter(t1, t2);
        if InfoOf(t2).nullable == Some(true) {
          return r1;
        }
        if InfoOf(t2).nullable == Some(false) {
          return none;
        }
        r := MergeRegexSets(r1, r2, none, false);
        return;
      }
      if DotPlus(t1) && InfoOf(t2).MinLength() > 0 {
        DotPlusJoins(t2, t1);
        return r2;
      }
      if DotPlus(t2) && InfoOf(t1).MinLength() > 0 {
        DotPlusJoins(t1, t2);
        return r1;
      }
      var c1, c2 := CharRange(t1), CharRange(t2);
      if c1.Some? && c2.Some? {
        r := SharedRange(r1, r2);
        return;
      }
      r := MergeRegexSets(r1, r2, none, false);
    }

    lemma {:induction false} InterLeft(nodes0: seq<Node>, none: Id, r1: Id, r2: Id)
      requires Valid() && nodes0 <= nodes && none < |trees| && trees[none] == ReNone && r1 < |nodes0| && r2 < |nodes0|
      ensures SortedSet(nodes, InterOp, none)
      ensures SortedSet(nodes0, InterOp, r1) ==> SortedSet(nodes, InterOp, r1)
      ensures SortedSet(nodes0, InterOp, r2) ==> SortedSet(nodes, InterOp, r2)
    {
      Look(none);
      ArmSorted(nodes, InterOp, none);
      if SortedSet(nodes0, InterOp, r1) {
        SortedKept(nodes0, nodes, InterOp, r1);
      }
      if SortedSet(nodes0, InterOp, r2) {
        SortedKept(nodes0, nodes, InterOp, r2);
      }
    }

    /** The characters that two ranges share. */
    method SharedRange(r1: Id, r2: Id) returns (r: Id)
      requires Valid() && Has(r1) && Has(r2) && CharRange(trees[r1]).Some? && CharRange(trees[r2]).Some?
      modifies `nodes, `index, `trees
      ensures Valid() && Kept(old(nodes), old(trees)) && Joins(r, false, old(trees)[r1], old(trees)[r2])
      ensures SortedSet(nodes, InterOp, r)
    {
      var t1, t2 := Term(r1), Term(r2);
      var (lo1, hi1) := CharRange(t1).value;
      var (lo2, hi2) := CharRange(t2).value;
      TouchingRanges(t1, t2, lo1, hi1, lo2, hi2);
      r := MkCharRange(Greatest(lo1, lo2), Least(hi1, hi2));
      Look(r);
      ArmSorted(nodes, InterOp, r);
    }

    /** One set of two, dropping the one that the other subsumes. */
    method ComposeSet(x: Id, y: Id, union: bool) returns (r: Id)
      requires Valid() && Has(x) && Has(y)
      modifies `nodes, `index, `trees
      ensures Valid() && Kept(old(nodes), old(trees)) && Joins(r, union, old(trees)[x], old(trees)[y])
      ensures r == x || r == y || (r < |nodes| && nodes[r] == Bin(SetOp(union), x, y) && y < r)
    {
      var tx, ty := Term(x), Term(y);
      if IsSubset(tx, ty) {
        SubsetOf(tx, ty);
        r := if union then y else x;
      } else if IsSubset(ty, tx) {
        SubsetOf(ty, tx);
        r := if union then x else y;
      } else if union {
        r := RawBin(UnionOp, x, y);
      } else {
        r := RawBin(InterOp, x, y);
      }
    }

    /** Merge two right-nested unions (or intersections) into one; of two sorted by id, the result is sorted too. */
    method MergeRegexSets(r1: Id, r2: Id, unit: Id, union: bool) returns (r: Id)
      requires Valid() && Has(r1) && Has(r2) && unit < |trees| && trees[unit] == Unit(union)
      modifies `nodes, `index, `trees
      ensures Valid() && Kept(old(nodes), old(trees)) && Joins(r, union, old(trees)[r1], old(trees)[r2])
      ensures SortedSet(old(nodes), SetOp(union), r1) && SortedSet(old(nodes), SetOp(union), r2) ==>
        SortedSet(nodes, SetOp(union), r)
    {
      ghost var sorted := SortedSet(nodes, SetOp(union), r1) && SortedSet(nodes, SetOp(union), r2);
      ghost var all := SetOf(union, trees[r1], trees[r2]);
      ghost var stars := Stars(trees[r1]) + Stars(trees[r2]);
      var merged, prefix, suffix := MergeSpines(r1, r2, union);
      if !merged {
        UnitSorted(unit, union);
        return unit;
      }
      r := PutBack(prefix, suffix, union, all, stars, sorted);
      RemainsEnd(union, trees[r], all);
      assert [] + Spine(nodes, SetOp(union), r) == Spine(nodes, SetOp(union), r);
    }

    /** Compose the arms of the prefix with the end of the set, the last arm first. */
    method PutBack(arms: seq<Id>, end: Id, union: bool, ghost all: Regex, ghost stars: nat, ghost sorted: bool) returns (r: Id)
      requires Valid() && Has(end) && Aside(arms, TermsOf(arms, trees))
      requires Remains(TermsOf(arms, trees), union, trees[end], trees[end], all)
      requires StarsOf(TermsOf(arms, trees)) + Stars(trees[end]) <= stars
      requires sorted ==> Ascending(nodes, SetOp(union), arms + Spine(nodes, SetOp(union), end))
      modifies `nodes, `index, `trees
      ensures Valid() && Kept(old(nodes), old(trees)) && Has(r) && Stars(trees[r]) <= stars
      ensures Remains([], union, trees[r], trees[r], all)
      ensures sorted ==> Ascending(nodes, SetOp(union), [] + Spine(nodes, SetOp(union), r))
    {
      ghost var rs := TermsOf(arms, trees);
      var prefix := arms;
      r := end;
      while prefix != []
        invariant Valid() && Kept(old(nodes), old(trees)) && Has(r) && Aside(prefix, rs)
        invariant Remains(rs, union, trees[r], trees[r], all)
        invariant StarsOf(rs) + Stars(trees[r]) <= stars
        invariant sorted ==> Ascending(nodes, SetOp(union), prefix + Spine(nodes, SetOp(union), r))
        decreases |prefix|
      {
        var n := |prefix| - 1;
        var p := prefix[n];
        ghost var tp, tr := rs[n], trees[r];
        assert rs == rs[..n] + [tp] && prefix == prefix[..n] + [p];
        prefix := prefix[..n];
        ghost var nodes0, r0 := nodes, r;
        r := ComposeSet(p, r, union);
        if sorted {
          LinePop(nodes0, SetOp(union), prefix, p, r0, nodes, r);
        }
        RemainsPop(rs[..n], union, tp, tr, trees[r], all);
        rs := rs[..n];
      }
    }

    lemma {:induction false} UnitSorted(unit: Id, union: bool)
      requires Valid() && unit < |trees| && trees[unit] == Unit(union)
      ensures SortedSet(nodes, SetOp(union), unit)
    {
      Look(unit);
      ArmSorted(nodes, SetOp(union), unit);
    }

    /** Walk both spines in the order of the ids: what comes before the common end, or nothing if the two make the unit. */
    method MergeSpines(r1: Id, r2: Id, union: bool) returns (merged: bool, prefix: seq<Id>, suffix: Id)
      requires Valid() && Has(r1) && Has(r2)
      ensures !merged ==> Same(Unit(union), SetOf(union, trees[r1], trees[r2]))
      ensures merged ==> Merging(prefix, union, suffix, suffix, r1, r2, true)
    {
      prefix := [];
      var ar: Id, br: Id := r1, r2;
      RemainsStart(union, trees[r1], trees[r2]);
      LineStart(union, r1, r2);
      while ar != br
        invariant Merging(prefix, union, ar, br, r1, r2, false)
        decreases Size(trees[ar]) + Size(trees[br])
      {
        if AreComplements(ar, br) {
          MergeUnit(prefix, union, ar, br, ar, br, r1, r2);
          return false, [], ar;
        }
        if nodes[br].IsBin(SetOp(union)) && !nodes[ar].IsBin(SetOp(union)) {
          MergeSwap(prefix, union, ar, br, r1, r2);
          ar, br := br, ar;
        }
        var step;
        if nodes[br].IsBin(SetOp(union)) {
          step := MergeSets(prefix, union, ar, br, r1, r2);
        } else if nodes[ar].IsBin(SetOp(union)) {
          step := MergeArm(prefix, union, ar, br, r1, r2);
        } else {
          step := MergeArms(prefix, union, ar, br, r1, r2);
        }
        match step {
          case Void => return false, [], ar;
          case Stop(p, end) => return true, p, end;
          case Go(p, x, y) => prefix, ar, br := p, x, y;
        }
      }
      return true, prefix, ar;
    }

    /** How a step of the walk ends: the unit, the end, or more to merge. */
    ghost predicate Stepped(step: Step, union: bool, ar: Id, br: Id, r1: Id, r2: Id)
      requires ar < |trees| && br < |trees|
      reads this
    {
      match step
      case Void => r1 < |trees| && r2 < |trees| && Same(Unit(union), SetOf(union, trees[r1], trees[r2]))
      case Stop(p, end) => Merging(p, union, end, end, r1, r2, true)
      case Go(p, x, y) =>
        Merging(p, union, x, y, r1, r2, false) && Size(trees[x]) + Size(trees[y]) < Size(trees[ar]) + Size(trees[br])
    }

    /** Two sets: the lesser first arm goes to the prefix, or both when they are one. */
    method MergeSets(prefix: seq<Id>, union: bool, ar: Id, br: Id, ghost r1: Id, ghost r2: Id) returns (step: Step)
      requires Valid() && Merging(prefix, union, ar, br, r1, r2, false)
      requires nodes[ar].IsBin(SetOp(union)) && nodes[br].IsBin(SetOp(union))
      ensures Stepped(step, union, ar, br, r1, r2)
    {
      LookSet(ar, union);
      LookSet(br, union);
      var a, ar1, b, br1 := nodes[ar].a, nodes[ar].b, nodes[br].a, nodes[br].b;
      if AreComplements(a, b) {
        MergeUnit(prefix, union, ar, br, a, b, r1, r2);
        return Void;
      }
      var order := Compare(a, b);
      if order == 0 {
        MergePushBoth(prefix, union, ar, br, r1, r2);
        return Go(prefix + [a], ar1, br1);
      }
      if order == -1 {
        MergePush(prefix, union, ar, br, r1, r2);
        return Go(prefix + [a], ar1, br);
      }
      MergePush(prefix, union, br, ar, r1, r2);
      step := Go(prefix + [b], ar, br1);
    }

    /** A set and an arm. */
    method MergeArm(prefix: seq<Id>, union: bool, ar: Id, br: Id, ghost r1: Id, ghost r2: Id) returns (step: Step)
      requires Valid() && Merging(prefix, union, ar, br, r1, r2, false)
      requires nodes[ar].IsBin(SetOp(union)) && !nodes[br].IsBin(SetOp(union))
      ensures Stepped(step, union, ar, br, r1, r2)
    {
      LookSet(ar, union);
      var a := nodes[ar].a;
      if AreComplements(a, br) {
        MergeUnit(prefix, union, ar, br, a, br, r1, r2);
        return Void;
      }
      var order := Compare(a, br);
      if order == 0 {
        MergeAbsorb(prefix, union, ar, br, r1, r2);
        return Stop(prefix, ar);
      }
      if order == -1 {
        MergePush(prefix, union, ar, br, r1, r2);
        return Go(prefix + [a], nodes[ar].b, br);
      }
      MergeLast(prefix, union, ar, br, r1, r2);
      step := Stop(prefix + [br], ar);
    }

    /** Two arms: the greater one ends the set. */
    method MergeArms(prefix: seq<Id>, union: bool, ar: Id, br: Id, ghost r1: Id, ghost r2: Id) returns (step: Step)
      requires Valid() && Merging(prefix, union, ar, br, r1, r2, false) && ar != br && !AreComplements(ar, br)
      requires !nodes[ar].IsBin(SetOp(union)) && !nodes[br].IsBin(SetOp(union))
      ensures Stepped(step, union, ar, br, r1, r2)
    {
      if Compare(ar, br) == -1 {
        MergeSwap(prefix, union, ar, br, r1, r2);
        MergeLast(prefix, union, br, ar, r1, r2);
        return Stop(prefix + [ar], br);
      }
      MergeLast(prefix, union, ar, br, r1, r2);
      step := Stop(prefix + [br], ar);
    }

    /** `prefix`, with `ar` and `br` still to merge, amounts to `r1` and `r2`; a merged end counts once. */
    ghost predicate Merging(prefix: seq<Id>, union: bool, ar: Id, br: Id, r1: Id, r2: Id, merged: bool)
      reads this
    {
      Amounts(prefix, union, ar, br, r1, r2, merged) && Line(prefix, union, ar, br, r1, r2)
    }

    ghost predicate Amounts(prefix: seq<Id>, union: bool, ar: Id, br: Id, r1: Id, r2: Id, merged: bool)
      reads this
    {
      && Has(ar) && Has(br) && Has(r1) && Has(r2) && Aside(prefix, TermsOf(prefix, trees))
      && Remains(TermsOf(prefix, trees), union, trees[ar], trees[br], SetOf(union, trees[r1], trees[r2]))
      && StarsOf(TermsOf(prefix, trees)) + Stars(trees[ar]) + (if merged then 0 else Stars(trees[br]))
         <= Stars(trees[r1]) + Stars(trees[r2])
    }

    /** From sorted sets, the prefix ascends, and what is left of either may follow it. */
    ghost predicate Line(prefix: seq<Id>, union: bool, ar: Id, br: Id, r1: Id, r2: Id)
      reads this
    {
      SortedSet(nodes, SetOp(union), r1) && SortedSet(nodes, SetOp(union), r2) ==> InLine(nodes, SetOp(union), prefix, ar, br)
    }

    lemma {:induction false} LineStart(union: bool, r1: Id, r2: Id)
      ensures Line([], union, r1, r2, r1, r2)
    {
      assert forall s: seq<Id> :: [] + s == s;
    }

    /** `x` comes before the head of what is left of the other set. */
    ghost predicate First(union: bool, x: Id, other: Id)
      requires x < |nodes|
      reads this
    {
      var h := Head(nodes, SetOp(union), other);
      && h < |nodes| && x != h && nodes[x] != Un(CompOp, h) && nodes[h] != Un(CompOp, x)
      && KeyOf(nodes, x) <= KeyOf(nodes, h)
    }

    lemma {:induction false} FirstIsLess(union: bool, x: Id, other: Id)
      requires Valid() && x < |nodes| && First(union, x, other)
      ensures KeyOf(nodes, x) < KeyOf(nodes, Head(nodes, SetOp(union), other))
    {
      KeysDiffer(nodes, index, trees, x, Head(nodes, SetOp(union), other));
    }

    lemma {:induction false} MergeUnit(prefix: seq<Id>, union: bool, ar: Id, br: Id, a: Id, b: Id, r1: Id, r2: Id)
      requires Valid() && Merging(prefix, union, ar, br, r1, r2, false) && a < |trees| && b < |trees|
      requires Arm(union, trees[ar], trees[a]) && Arm(union, trees[br], trees[b]) && Complements(trees[a], trees[b])
      ensures Same(Unit(union), SetOf(union, trees[r1], trees[r2]))
    {
      ComplementsWin(TermsOf(prefix, trees), union, trees[ar], trees[br], trees[a], trees[b],
                     SetOf(union, trees[r1], trees[r2]));
    }

    lemma {:induction false} MergeSwap(prefix: seq<Id>, union: bool, ar: Id, br: Id, r1: Id, r2: Id)
      requires Merging(prefix, union, ar, br, r1, r2, false)
      ensures Merging(prefix, union, br, ar, r1, r2, false)
    {
      RemainsSwap(TermsOf(prefix, trees), union, trees[ar], trees[br], SetOf(union, trees[r1], trees[r2]));
    }

    lemma {:induction false} MoreInLine(prefix: seq<Id>, union: bool, ar: Id, br: Id, r1: Id, r2: Id)
      requires Valid() && Line(prefix, union, ar, br, r1, r2) && ar < |nodes| && nodes[ar].IsBin(SetOp(union))
      requires nodes[ar].a < |nodes| && nodes[ar].b < ar && First(union, nodes[ar].a, br)
      ensures Line(prefix + [nodes[ar].a], union, nodes[ar].b, br, r1, r2)
    {
      FirstIsLess(union, nodes[ar].a, br);
      if InLine(nodes, SetOp(union), prefix, ar, br) {
        LineMore(nodes, SetOp(union), prefix, ar, br);
      }
    }

    lemma {:induction false} AmountsPush(prefix: seq<Id>, union: bool, ar: Id, br: Id, r1: Id, r2: Id)
      requires Valid() && Amounts(prefix, union, ar, br, r1, r2, false)
      requires ar < |nodes| && nodes[ar].IsBin(SetOp(union))
      ensures Amounts(prefix + [nodes[ar].a], union, nodes[ar].b, br, r1, r2, false)
    {
      LookSet(ar, union);
      var rs, p, x := TermsOf(prefix, trees), trees[nodes[ar].a], trees[nodes[ar].b];
      RemainsPush(rs, union, p, x, trees[br], SetOf(union, trees[r1], trees[r2]));
      StarsPush(rs, p);
      assert TermsOf(prefix + [nodes[ar].a], trees) == rs + [p];
    }

    lemma {:induction false} MergePush(prefix: seq<Id>, union: bool, ar: Id, br: Id, r1: Id, r2: Id)
      requires Valid() && (Merging(prefix, union, ar, br, r1, r2, false) || Merging(prefix, union, br, ar, r1, r2, false))
      requires ar < |nodes| && nodes[ar].IsBin(SetOp(union)) && nodes[ar].a < |nodes| && First(union, nodes[ar].a, br)
      ensures Merging(prefix + [nodes[ar].a], union, nodes[ar].b, br, r1, r2, false)
      ensures Merging(prefix + [nodes[ar].a], union, br, nodes[ar].b, r1, r2, false)
    {
      if !Merging(prefix, union, ar, br, r1, r2, false) {
        MergeSwap(prefix, union, br, ar, r1, r2);
      }
      LookSet(ar, union);
      AmountsPush(prefix, union, ar, br, r1, r2);
      MoreInLine(prefix, union, ar, br, r1, r2);
      MergeSwap(prefix + [nodes[ar].a], union, nodes[ar].b, br, r1, r2);
    }

    lemma {:induction false} AmountsPushBoth(prefix: seq<Id>, union: bool, ar: Id, br: Id, r1: Id, r2: Id)
      requires Valid() && Amounts(prefix, union, ar, br, r1, r2, false)
      requires nodes[ar].IsBin(SetOp(union)) && nodes[br].IsBin(SetOp(union))
      requires nodes[ar].a == nodes[br].a
      ensures Amounts(prefix + [nodes[ar].a], union, nodes[ar].b, nodes[br].b, r1, r2, false)
    {
      LookSet(ar, union);
      LookSet(br, union);
      var rs, p := TermsOf(prefix, trees), trees[nodes[ar].a];
      RemainsPushBoth(rs, union, p, trees[nodes[ar].b], trees[nodes[br].b], SetOf(union, trees[r1], trees[r2]));
      StarsPush(rs, p);
      assert TermsOf(prefix + [nodes[ar].a], trees) == rs + [p];
    }

    lemma {:induction false} MergePushBoth(prefix: seq<Id>, union: bool, ar: Id, br: Id, r1: Id, r2: Id)
      requires Valid() && Merging(prefix, union, ar, br, r1, r2, false)
      requires nodes[ar].IsBin(SetOp(union)) && nodes[br].IsBin(SetOp(union))
      requires nodes[ar].a == nodes[br].a
      ensures Merging(prefix + [nodes[ar].a], union, nodes[ar].b, nodes[br].b, r1, r2, false)
    {
      LookSet(ar, union);
      LookSet(br, union);
      AmountsPushBoth(prefix, union, ar, br, r1, r2);
      if InLine(nodes, SetOp(union), prefix, ar, br) {
        LineBoth(nodes, SetOp(union), prefix, ar, br);
      }
    }

    lemma {:induction false} MergeAbsorb(prefix: seq<Id>, union: bool, ar: Id, br: Id, r1: Id, r2: Id)
      requires Valid() && Merging(prefix, union, ar, br, r1, r2, false)
      requires nodes[ar].IsBin(SetOp(union)) && nodes[ar].a == br
      ensures Merging(prefix, union, ar, ar, r1, r2, true)
    {
      LookSet(ar, union);
      RemainsAbsorb(TermsOf(prefix, trees), union, trees[nodes[ar].b], trees[br], SetOf(union, trees[r1], trees[r2]));
    }

    lemma {:induction false} LastInLine(prefix: seq<Id>, union: bool, ar: Id, br: Id, r1: Id, r2: Id)
      requires Valid() && Line(prefix, union, ar, br, r1, r2) && br < |nodes|
      requires !nodes[br].IsBin(SetOp(union)) && First(union, br, ar)
      ensures Line(prefix + [br], union, ar, ar, r1, r2)
    {
      FirstIsLess(union, br, ar);
      if InLine(nodes, SetOp(union), prefix, ar, br) {
        LineLast(nodes, SetOp(union), prefix, ar, br);
      }
    }

    lemma {:induction false} AmountsLast(prefix: seq<Id>, union: bool, ar: Id, br: Id, r1: Id, r2: Id)
      requires Valid() && Amounts(prefix, union, ar, br, r1, r2, false)
      ensures Amounts(prefix + [br], union, ar, ar, r1, r2, true)
    {
      var rs := TermsOf(prefix, trees);
      RemainsLast(rs, union, trees[ar], trees[br], SetOf(union, trees[r1], trees[r2]));
      StarsPush(rs, trees[br]);
      assert TermsOf(prefix + [br], trees) == rs + [trees[br]];
    }

    lemma {:induction false} MergeLast(prefix: seq<Id>, union: bool, ar: Id, br: Id, r1: Id, r2: Id)
      requires Valid() && Merging(prefix, union, ar, br, r1, r2, false)
      requires !nodes[br].IsBin(SetOp(union)) && First(union, br, ar)
      ensures Merging(prefix + [br], union, ar, ar, r1, r2, true)
    {
      LastInLine(prefix, union, ar, br, r1, r2);
      AmountsLast(prefix, union, ar, br, r1, r2);
    }

    /** The nodes of `ids` unfold to `rs`. */
    ghost predicate Aside(ids: seq<Id>, rs: seq<Regex>)
      reads this
    {
      |ids| == |rs| && forall i :: 0 <= i < |ids| ==> Has(ids[i]) && trees[ids[i]] == rs[i]
    }

    function Compare(x: Id, y: Id): int
      requires x < |nodes| && y < |nodes|
      reads this
    {
      if x == y then 0 else if KeyOf(nodes, x) < KeyOf(nodes, y) then -1 else 1
    }

    // ----- complements, differences and conditionals -----

    ghost predicate Means(r: Id, t: Regex)
      reads this
    {
      Has(r) && Same(trees[r], t)
    }

    method MkIte(c: Cond, a: Id, b: Id) returns (r: Id)
      requires Valid() && Has(a) && Has(b)
      modifies `nodes, `index, `trees
      ensures Valid() && Kept(old(nodes), old(trees)) && Means(r, Ite(c, old(trees)[a], old(trees)[b]))
    {
      if c.True? || (c.CondVar? && a == b) {
        r := a;
      } else if c.False? {
        r := b;
      } else {
        r := RawIte(c, a, b);
      }
    }

    method MkComplement(a: Id) returns (r: Id)
      requires Valid() && Has(a)
      modifies `nodes, `index, `trees
      ensures Valid() && Kept(old(nodes), old(trees)) && Means(r, Comp(old(trees)[a]))
      ensures old(trees)[a].Comp? ==> trees[r] == old(trees)[a].a
      ensures (old(trees)[a].ReNone? ==> trees[r].ReAll?) && (FullSeq(old(trees)[a]) ==> trees[r].ReNone?)
      decreases Size(trees[a])
    {
      var t := Term(a);
      CompOfTrivial(t);
      if t.Inter? || t.Union? {
        r := ComplementSet(a);
      } else if t.ReNone? {
        r := RawLeaf(ReAll);
      } else if FullSeq(t) {
        r := RawLeaf(ReNone);
      } else if t.Comp? {
        CompOfTrivial(t.a);
        LookUn(a, CompOp, t.a);
        r := nodes[a].a;
      } else if Epsilon(t) {
        var dot := RawLeaf(AllChar);
        r := RawUn(PlusOp, dot);
      } else if t.Ite? {
        LookIte(a);
        var e1, e2 := nodes[a].a, nodes[a].b;
        var x := MkComplement(e1);
        var y := MkComplement(e2);
        ghost var cx, cy := trees[x], trees[y];
        r := MkIte(t.c, x, y);
        ReplaceIte(t.c, cx, cy, Comp(t.a), Comp(t.b));
        StarOfIte(t.c, t.a, t.b);
      } else {
        r := RawUn(CompOp, a);
      }
    }

    /** De Morgan's laws. */
    method ComplementSet(a: Id) returns (r: Id)
      requires Valid() && Has(a) && (trees[a].Inter? || trees[a].Union?)
      modifies `nodes, `index, `trees
      ensures Valid() && Kept(old(nodes), old(trees)) && Means(r, Comp(old(trees)[a]))
      decreases Size(trees[a]), 0
    {
      var t := Term(a);
      LookBin(a, if t.Inter? then InterOp else UnionOp, t.a, t.b);
      var e1, e2 := nodes[a].a, nodes[a].b;
      var x := MkComplement(e1);
      var y := MkComplement(e2);
      ghost var cx, cy := trees[x], trees[y];
      ReplaceUnion(cx, cy, Comp(t.a), Comp(t.b));
      DeMorgan(t.a, t.b);
      if t.Inter? {
        r := MkUnion(x, y);
      } else {
        r := MkInter(x, y);
      }
    }

    method MkDiff(a: Id, b: Id) returns (r: Id)
      requires Valid() && Has(a) && Has(b)
      modifies `nodes, `index, `trees
      ensures Valid() && Kept(old(nodes), old(trees)) && Means(r, Diff(old(trees)[a], old(trees)[b]))
    {
      ghost var ta, tb := trees[a], trees[b];
      var p := R.DiffPred(Term(a), Term(b));
      if p.Some? {
        r := RangesToRegex(p.value);
        return;
      }
      var c := MkComplement(b);
      ghost var tc := trees[c];
      r := MkInter(a, c);
      ReplaceUnion(ta, tc, ta, Comp(tb));
      DiffIsInter(ta, tb);
    }

    // ----- stars, options, loops and ranges -----

    method Eps() returns (r: Id)
      requires Valid()
      modifies `nodes, `index, `trees
      ensures Valid() && Kept(old(nodes), old(trees)) && Has(r) && trees[r] == EPSILON
    {
      r := RawLeaf(ToRe(Lit([])));
    }

    method MkStar(a: Id) returns (r: Id)
      requires Valid() && Has(a)
      modifies `nodes, `index, `trees
      ensures Valid() && Kept(old(nodes), old(trees)) && Means(r, Star(old(trees)[a]))
      ensures old(trees)[a].Star? || FullSeq(old(trees)[a]) ==> r == a
      ensures old(trees)[a].ReNone? || Epsilon(old(trees)[a]) ==> Epsilon(trees[r])
      decreases Stars(trees[a]), Size(trees[a]), 1
    {
      var t := Term(a);
      if t.Star? || FullSeq(t) {
        StarOfStar(t);
        return a;
      }
      if t.AllChar? || t == Plus(AllChar) {
        StarOfDot(t);
        r := RawLeaf(ReAll);
        return;
      }
      if t.ReNone? || Epsilon(t) {
        StarOfTrivial(t);
        if Epsilon(t) {
          return a;
        }
        r := Eps();
        return;
      }
      if t.Plus? {
        StarOfPlus(t.a);
        LookUn(a, PlusOp, t.a);
        r := MkStar(nodes[a].a);
        return;
      }
      var u: Option<Id> := None;
      if t.Union? {
        u := StarUnion(a);
      } else if t.Concat? {
        u := StarConcat(a);
      }
      if u.Some? {
        return u.value;
      }
      if t.Ite? {
        r := StarIte(a);
        return;
      }
      r := RawUn(StarOp, a);
    }

    /** The star of a conditional: one of the stars of its arms. */
    method StarIte(a: Id) returns (r: Id)
      requires Valid() && Has(a) && trees[a].Ite?
      modifies `nodes, `index, `trees
      ensures Valid() && Kept(old(nodes), old(trees)) && Means(r, Star(old(trees)[a]))
      decreases Stars(trees[a]), Size(trees[a]), 0
    {
      var t := Term(a);
      LookIte(a);
      var b, c := nodes[a].a, nodes[a].b;
      var x := MkStar(b);
      var y := MkStar(c);
      ghost var sx, sy := trees[x], trees[y];
      r := MkIte(t.c, x, y);
      ReplaceIte(t.c, sx, sy, Star(t.a), Star(t.b));
      StarOfIte(t.c, t.a, t.b);
    }

    /** The star of a union with a star or with the empty word. */
    method StarUnion(a: Id) returns (r: Option<Id>)
      requires Valid() && Has(a) && trees[a].Union?
      modifies `nodes, `index, `trees
      ensures Valid() && Kept(old(nodes), old(trees))
      ensures r.Some? ==> Means(r.value, Star(old(trees)[a]))
      decreases Stars(trees[a]), Size(trees[a]), 0
    {
      LookBin(a, UnionOp, trees[a].a, trees[a].b);
      var b, c := nodes[a].a, nodes[a].b;
      var tb, tc := Term(b), Term(c);
      var id: Id;
      if tb.Star? {
        StarOfStarUnion(tb.a, tc);
        LookUn(b, StarOp, tb.a);
        StarInside(tb);
        id := StarOfUnion(nodes[b].a, c);
      } else if tc.Star? {
        StarOfStarUnion(tc.a, tb);
        LookUn(c, StarOp, tc.a);
        StarInside(tc);
        id := StarOfUnion(b, nodes[c].a);
      } else if Epsilon(tb) {
        StarOfEpsilonUnion(tb, tc);
        id := MkStar(c);
      } else if Epsilon(tc) {
        StarOfEpsilonUnion(tc, tb);
        id := MkStar(b);
      } else {
        return None;
      }
      r := Some(id);
    }

    method StarOfUnion(b: Id, c: Id) returns (r: Id)
      requires Valid() && Has(b) && Has(c)
      modifies `nodes, `index, `trees
      ensures Valid() && Kept(old(nodes), old(trees)) && Means(r, Star(Union(old(trees)[b], old(trees)[c])))
      decreases Stars(trees[b]) + Stars(trees[c]) + 1, 0
    {
      ghost var tb, tc := trees[b], trees[c];
      var u := MkUnion(b, c);
      ghost var tu := trees[u];
      r := MkStar(u);
      ReplaceUnary(tu, Union(tb, tc));
    }

    /** The star of a concatenation of stars, or of one that starts with everything. */
    method StarConcat(a: Id) returns (r: Option<Id>)
      requires Valid() && Has(a) && trees[a].Concat?
      modifies `nodes, `index, `trees
      ensures Valid() && Kept(old(nodes), old(trees))
      ensures r.Some? ==> Means(r.value, Star(old(trees)[a]))
      decreases Stars(trees[a]), Size(trees[a]), 0
    {
      LookBin(a, ConcatOp, trees[a].a, trees[a].b);
      var b, c := nodes[a].a, nodes[a].b;
      var tb, tc := Term(b), Term(c);
      if tb.Star? && tc.Star? {
        StarOfStarConcat(tb.a, tc.a);
        LookUn(b, StarOp, tb.a);
        LookUn(c, StarOp, tc.a);
        StarInside(tb);
        StarInside(tc);
        var id := StarOfUnion(nodes[b].a, nodes[c].a);
        r := Some(id);
      } else if FullSeq(tb) {
        StarOfLeftIdeal(tb, tc);
        var eps := Eps();
        var id := MkUnion(eps, a);
        r := Some(id);
      } else {
        r := None;
      }
    }

    method MkOpt(a: Id) returns (r: Id)
      requires Valid() && Has(a)
      modifies `nodes, `index, `trees
      ensures Valid() && Kept(old(nodes), old(trees)) && Means(r, Opt(old(trees)[a]))
    {
      OptIsUnion(trees[a]);
      var eps := Eps();
      r := MkUnion(eps, a);
    }

    method MkLoop(a: Id, lo: nat, hi: Option<nat>) returns (r: Id)
      requires Valid() && Has(a)
      modifies `nodes, `index, `trees
      ensures Valid() && Kept(old(nodes), old(trees)) && Means(r, Loop(old(trees)[a], lo, hi))
      ensures hi.Some? && lo > hi.value ==> trees[r].ReNone?
      ensures hi == Some(0) && lo == 0 ==> Epsilon(trees[r])
      ensures hi == Some(1) && lo == 1 ==> r == a
      decreases Size(trees[a])
    {
      var t := Term(a);
      LoopTrivial(t);
      if hi.Some? && lo > hi.value {
        LoopCrossed(t, lo, hi.value);
        r := RawLeaf(ReNone);
      } else if hi == Some(0) {
        r := Eps();
      } else if hi.None? && lo == 0 {
        r := MkStar(a);
      } else if hi == Some(1) && lo == 1 {
        r := a;
      } else if hi.None? && t.Loop? && t.hi.None? {
        LoopOfLoop(t.a, t.lo, lo);
        LookUn(a, LoopOp(t.lo, t.hi), t.a);
        r := MkLoop(nodes[a].a, lo * t.lo, None);
      } else if hi.Some? && t.Loop? && t.hi == Some(t.lo) && hi == Some(lo) {
        LoopOfPower(t.a, t.lo, lo);
        LookUn(a, LoopOp(t.lo, t.hi), t.a);
        r := MkLoop(nodes[a].a, lo * t.lo, Some(lo * t.lo));
      } else {
        r := RawUn(LoopOp(lo, hi), a);
      }
    }

    method MkRange(lo: Str, hi: Str) returns (r: Id)
      requires Valid()
      modifies `nodes, `index, `trees
      ensures Valid() && Kept(old(nodes), old(trees)) && Means(r, Range(lo, hi))
    {
      RangeCases(lo, hi);
      if (lo.Lit? && |lo.s| != 1) || (hi.Lit? && |hi.s| != 1) {
        r := RawLeaf(ReNone);
        return;
      }
      if lo.Lit? && hi.Lit? {
        if lo.s[0] > hi.s[0] {
          r := RawLeaf(ReNone);
          return;
        }
        if lo.s[0] == hi.s[0] {
          r := RawLeaf(ToRe(lo));
          return;
        }
      }
      r := RawLeaf(Range(lo, hi));
    }

    // ----- concatenations, pluses and the simplifier -----

    method MkReAppend(a: Id, b: Id, fuel: nat) returns (r: Id)
      requires Valid() && Has(a) && Has(b)
      modifies this
      ensures Valid() && Kept(old(nodes), old(trees)) && Means(r, Concat(old(trees)[a], old(trees)[b]))
      ensures old(trees)[a].ReNone? || old(trees)[b].ReNone? ==> trees[r].ReNone?
      ensures Epsilon(old(trees)[a]) ==> r == b
      ensures Epsilon(old(trees)[b]) ==> r == a
      decreases fuel, 0, Size(trees[a]), Size(trees[b]), 2
    {
      var c := MkReConcat(a, b, fuel);
      if c.Some? {
        return c.value;
      }
      r := RawBin(ConcatOp, a, b);
    }

    /** The rewriting rules of concatenation; `fuel` bounds how often they call the simplifier within itself. */
    method MkReConcat(a: Id, b: Id, fuel: nat) returns (r: Option<Id>)
      requires Valid() && Has(a) && Has(b)
      modifies this
      ensures Valid() && Kept(old(nodes), old(trees))
      ensures r.Some? ==> Means(r.value, Concat(old(trees)[a], old(trees)[b]))
      ensures old(trees)[a].ReNone? || old(trees)[b].ReNone? ==> r.Some? && trees[r.value].ReNone?
      ensures Epsilon(old(trees)[a]) ==> r == Some(b)
      ensures Epsilon(old(trees)[b]) ==> r == Some(a)
      decreases fuel, 0, Size(trees[a]), Size(trees[b]), 1
    {
      var ta, tb := Term(a), Term(b);
      var side := AbsorbingSide(ta, tb);
      if side.Some? {
        AbsorbingSideMeans(ta, tb);
        return Some(if side.value then a else b);
      }
      if FullSeq(ta) && tb.Union? && (StartsWithFullSeq(tb.a) || StartsWithFullSeq(tb.b)) {
        var id := ConcatOverUnion(a, b, fuel);
        return Some(id);
      }
      side := NeutralSide(ta, tb);
      if side.Some? {
        NeutralSideMeans(ta, tb);
        if Epsilon(ta) && Epsilon(tb) {
          MaximalSharing(nodes, index, trees, a, b);
        }
        return Some(if side.value then a else b);
      }
      r := ConcatAtoms(a, b);
      if r.Some? {
        return;
      }
      if ta == Star(tb) {
        StarCommutes(tb);
        var id := MkReAppend(b, a, fuel);
        return Some(id);
      }
      r := ConcatLoops(a, b);
      if r.Some? {
        return;
      }
      if ta.Concat? {
        var id := ConcatReassociated(a, b, fuel);
        return Some(id);
      }
      r := None;
    }

    method ConcatReassociated(a: Id, b: Id, fuel: nat) returns (r: Id)
      requires Valid() && Has(a) && Has(b) && trees[a].Concat?
      modifies this
      ensures Valid() && Kept(old(nodes), old(trees)) && Means(r, Concat(old(trees)[a], old(trees)[b]))
      decreases fuel, 0, Size(trees[a]), Size(trees[b]), 0
    {
      ghost var ta, tb := trees[a], trees[b];
      LookBin(a, ConcatOp, ta.a, ta.b);
      var a1, a2 := nodes[a].a, nodes[a].b;
      var inner := MkReAppend(a2, b, fuel);
      ghost var ti := trees[inner];
      r := MkReAppend(a1, inner, fuel);
      ReplaceConcat(ta.a, ti, ta.a, Concat(ta.b, tb));
      ConcatAssoc(ta.a, ta.b, tb);
    }

    /** Everything, followed by a union with an arm that starts with everything. */
    method ConcatOverUnion(a: Id, b: Id, fuel: nat) returns (r: Id)
      requires Valid() && Has(a) && Has(b) && trees[b].Union?
      modifies this
      ensures Valid() && Kept(old(nodes), old(trees)) && Means(r, Concat(old(trees)[a], old(trees)[b]))
      decreases fuel, 0, Size(trees[a]), Size(trees[b]), 0
    {
      ghost var ta, u1, u2 := trees[a], trees[b].a, trees[b].b;
      LookBin(b, UnionOp, u1, u2);
      var i1, i2 := nodes[b].a, nodes[b].b;
      var x := MkReAppend(a, i1, fuel);
      var y := MkReAppend(a, i2, fuel);
      ghost var tx, ty := trees[x], trees[y];
      var u := UnionNormalize(x, y);
      ghost var tu := trees[u];
      ReplaceUnion(tx, ty, Concat(ta, u1), Concat(ta, u2));
      ConcatUnion(ta, u1, u2);
      assert Same(tu, Concat(ta, Union(u1, u2)));
      r := u;
      if fuel > 0 {
        r := Simplify(u, fuel - 1);
      }
    }

    /** A dot next to everything, two literals, and a star next to itself. */
    method ConcatAtoms(a: Id, b: Id) returns (r: Option<Id>)
      requires Valid() && Has(a) && Has(b)
      modifies `nodes, `index, `trees
      ensures Valid() && Kept(old(nodes), old(trees))
      ensures r.Some? ==> Means(r.value, Concat(old(trees)[a], old(trees)[b]))
    {
      var ta, tb := Term(a), Term(b);
      if ta.AllChar? && FullSeq(tb) {
        DotConcat(tb);
        var id := RawUn(PlusOp, a);
        return Some(id);
      }
      if tb.AllChar? && FullSeq(ta) {
        DotConcat(ta);
        var id := RawUn(PlusOp, b);
        return Some(id);
      }
      if ta.ToRe? && tb.ToRe? && ta.s.Lit? && tb.s.Lit? {
        LiteralConcat(ta.s.s, tb.s.s);
        var id := RawLeaf(ToRe(Lit(ta.s.s + tb.s.s)));
        return Some(id);
      }
      if ta.Star? && tb.Star? && ta.a == tb.a {
        StarStarConcat(ta.a, tb);
        return Some(a);
      }
      if ta.Star? && tb.Concat? && tb.a == Star(ta.a) {
        StarStarConcat(ta.a, tb.b);
        return Some(b);
      }
      r := None;
    }

    /** Neighbouring repetitions of one regex. */
    method ConcatLoops(a: Id, b: Id) returns (r: Option<Id>)
      requires Valid() && Has(a) && Has(b)
      modifies `nodes, `index, `trees
      ensures Valid() && Kept(old(nodes), old(trees))
      ensures r.Some? ==> Means(r.value, Concat(old(trees)[a], old(trees)[b]))
    {
      var ta, tb := Term(a), Term(b);
      if ta.Loop? && tb.Loop? && ta.a == tb.a && ta.hi.Some? == tb.hi.Some? {
        LookUn(a, LoopOp(ta.lo, ta.hi), ta.a);
        RepeatsConcat(ta, tb, ta.a, ta.lo, ta.hi, tb.lo, tb.hi);
        var id := MkLoop(nodes[a].a, ta.lo + tb.lo, L.AddHi(ta.hi, tb.hi));
        return Some(id);
      }
      r := LoopThenRepeat(a, b);
      if r.None? {
        r := LoopThenRepeat(b, a);
      }
    }

    /** A loop and a loop without end, a star, or what it repeats: one loop, in either order. */
    method LoopThenRepeat(x: Id, y: Id) returns (r: Option<Id>)
      requires Valid() && Has(x) && Has(y)
      modifies `nodes, `index, `trees
      ensures Valid() && Kept(old(nodes), old(trees)) && (r.None? ==> nodes == old(nodes))
      ensures r.Some? ==> Means(r.value, Concat(old(trees)[x], old(trees)[y]))
      ensures r.Some? ==> Means(r.value, Concat(old(trees)[y], old(trees)[x]))
    {
      var tx, ty := Term(x), Term(y);
      if !tx.Loop? {
        return None;
      }
      LookUn(x, LoopOp(tx.lo, tx.hi), tx.a);
      var base := nodes[x].a;
      if tx.hi.None? && ty.Loop? && ty.hi.Some? && tx.a == ty.a {
        RepeatsConcat(tx, ty, tx.a, tx.lo, None, ty.lo, ty.hi);
        var id := MkLoop(base, tx.lo + ty.lo, None);
        return Some(id);
      }
      if ty == Star(tx.a) {
        RepeatsConcat(tx, ty, tx.a, tx.lo, tx.hi, 0, None);
        if tx.hi.None? {
          return Some(x);
        }
        var id := MkLoop(base, tx.lo, None);
        return Some(id);
      }
      if tx.hi.Some? && tx.a == ty {
        RepeatsConcat(tx, ty, tx.a, tx.lo, tx.hi, 1, Some(1));
        var id := MkLoop(base, tx.lo + 1, Some(tx.hi.value + 1));
        return Some(id);
      }
      r := None;
    }

    method MkPlus(a: Id, fuel: nat) returns (r: Id)
      requires Valid() && Has(a)
      modifies this
      ensures Valid() && Kept(old(nodes), old(trees)) && Means(r, Plus(old(trees)[a]))
      decreases fuel, 1, 0
    {
      var t := Term(a);
      if t.AllChar? {
        r := RawUn(PlusOp, a);
        return;
      }
      if t.ReNone? || FullSeq(t) || Epsilon(t) || t.Plus? || t.Star? {
        PlusOfTrivial(t);
        return a;
      }
      var s := MkStar(a);
      ghost var ts := trees[s];
      r := MkReAppend(a, s, fuel);
      ReplaceConcat(t, ts, t, Star(t));
      StarCommutes(t);
    }

    /** The rewriting constructor of a unary operator. */
    method MkUn(op: UnOp, a: Id, fuel: nat) returns (r: Id)
      requires Valid() && Has(a)
      modifies this
      ensures Valid() && Kept(old(nodes), old(trees)) && Means(r, Apply1(op, old(trees)[a]))
      decreases fuel, 1, 1
    {
      match op
      case StarOp => r := MkStar(a);
      case PlusOp => r := MkPlus(a, fuel);
      case OptOp => r := MkOpt(a);
      case CompOp => r := MkComplement(a);
      case LoopOp(lo, hi) => r := MkLoop(a, lo, hi);
    }

    /** The rewriting constructor of a binary operator. */
    method MkBin(op: BinOp, a: Id, b: Id, fuel: nat) returns (r: Id)
      requires Valid() && Has(a) && Has(b)
      modifies this
      ensures Valid() && Kept(old(nodes), old(trees)) && Means(r, Apply2(op, old(trees)[a], old(trees)[b]))
      decreases fuel, 1, 1
    {
      match op
      case ConcatOp => r := MkReAppend(a, b, fuel);
      case UnionOp => r := MkUnion(a, b);
      case InterOp => r := MkInter(a, b);
      case DiffOp => r := MkDiff(a, b);
    }

    method MkLeaf(t: Regex) returns (r: Id)
      requires Valid() && Childless(t)
      modifies `nodes, `index, `trees
      ensures Valid() && Kept(old(nodes), old(trees)) && Means(r, t)
    {
      if t.Range? {
        r := MkRange(t.from, t.to);
      } else {
        r := RawLeaf(t);
      }
    }

    /** Simplify bottom-up: the result means the same, and has no crossed loop. */
    method Simplify(t: Id, fuel: nat) returns (r: Id)
      requires Valid() && t < |nodes|
      modifies this
      ensures Valid() && Kept(old(nodes), old(trees)) && Means(r, old(trees)[t])
      decreases fuel, 2, Size(trees[t])
    {
      if t in memo {
        return memo[t];
      }
      r := SimplifyNode(t, fuel);
      memo := memo[t := r];
    }

    method SimplifyNode(t: Id, fuel: nat) returns (r: Id)
      requires Valid() && t < |nodes|
      modifies this
      ensures Valid() && Kept(old(nodes), old(trees)) && Means(r, old(trees)[t])
      decreases fuel, 2, Size(trees[t]), 0
    {
      Look(t);
      ghost var ts := trees;
      match nodes[t]
      case Leaf(leaf) =>
        r := MkLeaf(leaf);
      case Un(op, a) =>
        var x := Simplify(a, fuel);
        ghost var tx := trees[x];
        r := MkUn(op, x, fuel);
        ReplaceApply1(op, tx, ts[a]);
      case Bin(op, a, b) =>
        var x := Simplify(a, fuel);
        ghost var tx := trees[x];
        var y := Simplify(b, fuel);
        ghost var ty := trees[y];
        r := MkBin(op, x, y, fuel);
        ReplaceApply2(op, tx, ty, ts[a], ts[b]);
      case IteNode(c, a, b) =>
        var x := Simplify(a, fuel);
        ghost var tx := trees[x];
        var y := Simplify(b, fuel);
        ghost var ty := trees[y];
        r := MkIte(c, x, y);
        ReplaceIte(c, tx, ty, ts[a], ts[b]);
    }
  }
}
