/** The hash-consed arena: nodes that refer to older nodes, and the terms they unfold to. */
module RegexArena {
  import opened Options
  import opened RegexTerms

  type Id = nat

  datatype UnOp = StarOp | PlusOp | OptOp | CompOp | LoopOp(lo: nat, hi: Option<nat>)
  datatype BinOp = ConcatOp | UnionOp | InterOp | DiffOp

  datatype Node = Leaf(r: Regex) | Un(un: UnOp, a: Id) | Bin(bin: BinOp, a: Id, b: Id) | IteNode(c: Cond, a: Id, b: Id) {
    predicate IsUn(op: UnOp) {
      Un? && un == op
    }

    predicate IsBin(op: BinOp) {
      Bin? && bin == op
    }
  }

  function Apply1(op: UnOp, a: Regex): Regex {
    match op
    case StarOp => Star(a)
    case PlusOp => Plus(a)
    case OptOp => Opt(a)
    case CompOp => Comp(a)
    case LoopOp(lo, hi) => Loop(a, lo, hi)
  }

  function Apply2(op: BinOp, a: Regex, b: Regex): Regex {
    match op
    case ConcatOp => Concat(a, b)
    case UnionOp => Union(a, b)
    case InterOp => Inter(a, b)
    case DiffOp => Diff(a, b)
  }

  predicate Childless(r: Regex) {
    r.ReVar? || r.ToRe? || r.ReNone? || r.ReAll? || r.AllChar? || r.Range?
  }

  /** The children of the node are below `i`. */
  predicate Below(n: Node, i: nat) {
    match n
    case Leaf(r) => Childless(r)
    case Un(_, a) => a < i
    case Bin(_, a, b) => a < i && b < i
    case IteNode(_, a, b) => a < i && b < i
  }

  ghost function TreeOf(n: Node, trees: seq<Regex>): Regex
    requires Below(n, |trees|)
  {
    match n
    case Leaf(r) => r
    case Un(op, a) => Apply1(op, trees[a])
    case Bin(op, a, b) => Apply2(op, trees[a], trees[b])
    case IteNode(c, a, b) => Ite(c, trees[a], trees[b])
  }

  ghost predicate NodeOk(n: Node, i: nat, trees: seq<Regex>)
    requires i < |trees|
  {
    Below(n, i) && trees[i] == TreeOf(n, trees)
  }

  /** `trees` are the terms of the nodes, and `index` finds each node. */
  ghost predicate ArenaOk(nodes: seq<Node>, index: map<Node, Id>, trees: seq<Regex>) {
    && |trees| == |nodes|
    && (forall i {:trigger NodeOk(nodes[i], i, trees)} :: 0 <= i < |nodes| ==> NodeOk(nodes[i], i, trees))
    && (forall i {:trigger Indexed(nodes, index, i)} :: 0 <= i < |nodes| ==> Indexed(nodes, index, i))
    && (forall n :: n in index ==> index[n] < |nodes| && nodes[index[n]] == n)
  }

  ghost predicate Indexed(nodes: seq<Node>, index: map<Node, Id>, i: nat)
    requires i < |nodes|
  {
    nodes[i] in index && index[nodes[i]] == i
  }

  lemma {:induction false} PushNode(nodes: seq<Node>, index: map<Node, Id>, trees: seq<Regex>, n: Node)
    requires ArenaOk(nodes, index, trees) && n !in index && Below(n, |nodes|)
    ensures ArenaOk(nodes + [n], index[n := |nodes|], trees + [TreeOf(n, trees)])
  {
    var nodes', trees' := nodes + [n], trees + [TreeOf(n, trees)];
    forall i | 0 <= i < |nodes'| ensures NodeOk(nodes'[i], i, trees') {
      assert i < |nodes| ==> nodes'[i] == nodes[i] && NodeOk(nodes[i], i, trees);
    }
    var index' := index[n := |nodes|];
    forall i | 0 <= i < |nodes'| ensures Indexed(nodes', index', i) {
      assert i < |nodes| ==> nodes'[i] == nodes[i] && Indexed(nodes, index, i);
    }
  }

  lemma {:induction false} NotIndexed(nodes: seq<Node>, index: map<Node, Id>, trees: seq<Regex>, n: Node)
    requires ArenaOk(nodes, index, trees) && n !in index
    ensures n !in nodes
  {
    forall i | 0 <= i < |nodes| ensures nodes[i] != n {
      assert Indexed(nodes, index, i);
    }
  }

  lemma {:induction false} ApplyInjective(x: UnOp, y: UnOp, a: Regex, b: Regex)
    requires Apply1(x, a) == Apply1(y, b)
    ensures x == y && a == b
  {
  }

  lemma {:induction false} Apply2Injective(x: BinOp, y: BinOp, a: Regex, b: Regex, a': Regex, b': Regex)
    requires Apply2(x, a, b) == Apply2(y, a', b')
    ensures x == y && a == a' && b == b'
  {
  }

  /** Maximal sharing: two ids are equal exactly when they unfold to the same term. */
  lemma {:induction false} MaximalSharing(nodes: seq<Node>, index: map<Node, Id>, trees: seq<Regex>, i: Id, j: Id)
    requires ArenaOk(nodes, index, trees) && i < |nodes| && j < |nodes|
    ensures i == j <==> trees[i] == trees[j]
    decreases i
  {
    assert NodeOk(nodes[i], i, trees) && NodeOk(nodes[j], j, trees);
    assert Indexed(nodes, index, i) && Indexed(nodes, index, j);
    if trees[i] == trees[j] {
      match nodes[i]
      case Leaf(r) =>
        assert nodes[j] == nodes[i];
      case Un(op, a) =>
        ApplyInjective(op, nodes[j].un, trees[a], trees[nodes[j].a]);
        MaximalSharing(nodes, index, trees, a, nodes[j].a);
      case Bin(op, a, b) =>
        Apply2Injective(op, nodes[j].bin, trees[a], trees[b], trees[nodes[j].a], trees[nodes[j].b]);
        MaximalSharing(nodes, index, trees, a, nodes[j].a);
        MaximalSharing(nodes, index, trees, b, nodes[j].b);
      case IteNode(c, a, b) =>
        MaximalSharing(nodes, index, trees, a, nodes[j].a);
        MaximalSharing(nodes, index, trees, b, nodes[j].b);
      assert nodes[i] == nodes[j];
    }
  }

  // ----- ids in order -----

  ghost predicate InOrder(s: seq<Id>) {
    forall i, j :: 0 <= i < j < |s| ==> s[i] <= s[j]
  }

  method InsertId(s: seq<Id>, x: Id) returns (out: seq<Id>)
    requires InOrder(s)
    ensures InOrder(out) && multiset(out) == multiset(s) + multiset{x}
  {
    var i := |s|;
    while i > 0 && s[i - 1] > x
      invariant 0 <= i <= |s| && (i < |s| ==> x <= s[i])
    {
      i := i - 1;
    }
    assert s == s[..i] + s[i..];
    out := s[..i] + [x] + s[i..];
    InsertedInOrder(s, i, x);
  }

  lemma {:induction false} InsertedInOrder(s: seq<Id>, i: nat, x: Id)
    requires InOrder(s) && i <= |s| && (i > 0 ==> s[i - 1] <= x) && (i < |s| ==> x <= s[i])
    ensures InOrder(s[..i] + [x] + s[i..])
  {
    var out := s[..i] + [x] + s[i..];
    forall j, k | 0 <= j < k < |out| ensures out[j] <= out[k] {
      assert out[j] == (if j < i then s[j] else if j == i then x else s[j - 1]);
      assert out[k] == (if k < i then s[k] else if k == i then x else s[k - 1]);
    }
  }

  method SortIds(s: seq<Id>) returns (out: seq<Id>)
    ensures InOrder(out) && multiset(out) == multiset(s)
  {
    out := [];
    var k := 0;
    while k < |s|
      invariant 0 <= k <= |s| && InOrder(out) && multiset(out) == multiset(s[..k])
    {
      out := InsertId(out, s[k]);
      assert s[..k + 1] == s[..k] + [s[k]];
      k := k + 1;
    }
    assert s[..k] == s;
  }
}
