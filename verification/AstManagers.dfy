/** The manager: nodes interned through hash buckets, families by name, and visit marks. */
module AstManagers {
  import opened Options
  import opened AstNodes

  const INIT_BUCKETS: nat := 16
  const MAX_EPOCH: nat := 0xffff_ffff

  /** Marks of a traversal: a node is marked when its stamp is the current epoch. */
  class VisitMarks {
    var stamp: seq<nat>
    var epoch: nat

    ghost predicate Valid()
      reads this
    {
      epoch <= MAX_EPOCH && forall i :: 0 <= i < |stamp| ==> stamp[i] <= epoch
    }

    constructor ()
      ensures Valid() && stamp == []
    {
      stamp, epoch := [], 0;
    }

    predicate IsMarked(id: Id)
      requires id < |stamp|
      reads this
    {
      stamp[id] == epoch
    }

    /** Start a traversal over `n` nodes: none is marked. */
    method Fresh(n: nat)
      requires Valid()
      modifies this
      ensures Valid() && |stamp| == n && forall i :: 0 <= i < n ==> !IsMarked(i)
    {
      if n <= |stamp| {
        stamp := stamp[..n];
      } else {
        stamp := stamp + seq(n - |stamp|, _ => 0);
      }
      if epoch == MAX_EPOCH {
        stamp := seq(n, _ => 0);
        epoch := 0;
      }
      epoch := epoch + 1;
    }

    method Mark(id: Id)
      requires Valid() && id < |stamp|
      modifies this
      ensures Valid() && |stamp| == old(|stamp|) && epoch == old(epoch)
      ensures forall i :: 0 <= i < |stamp| ==> (IsMarked(i) <==> i == id || old(IsMarked(i)))
    {
      stamp := stamp[id := epoch];
    }
  }

  // ----- hash buckets -----

  /** Each node is in the bucket of its hash, and the buckets hold nothing else. */
  ghost predicate BucketsOk(nodes: seq<Stored>, buckets: seq<seq<Id>>) {
    && |buckets| > 0
    && (forall n :: 0 <= n < |nodes| ==> InBucket(nodes, buckets, n))
    && (forall b, j :: 0 <= b < |buckets| && 0 <= j < |buckets[b]| ==> buckets[b][j] < |nodes|)
  }

  ghost predicate InBucket(nodes: seq<Stored>, buckets: seq<seq<Id>>, n: nat)
    requires n < |nodes| && |buckets| > 0
  {
    n in buckets[nodes[n].hash % |buckets|]
  }

  lemma {:induction false} BucketPushed(nodes: seq<Stored>, buckets: seq<seq<Id>>, s: Stored)
    requires BucketsOk(nodes, buckets)
    ensures var b := s.hash % |buckets|;
      BucketsOk(nodes + [s], buckets[b := buckets[b] + [|nodes|]])
  {
    var b := s.hash % |buckets|;
    var nodes', buckets' := nodes + [s], buckets[b := buckets[b] + [|nodes|]];
    forall n | 0 <= n < |nodes'| ensures InBucket(nodes', buckets', n) {
      if n < |nodes| {
        assert nodes'[n] == nodes[n] && InBucket(nodes, buckets, n);
      } else {
        assert buckets'[b][|buckets[b]|] == n;
      }
    }
  }

  class AstManager {
    var nodes: seq<Stored>
    var buckets: seq<seq<Id>>
    var families: seq<Symbol>
    const hash: AstNode -> nat

    ghost predicate Valid()
      reads this
    {
      && GraphOk(nodes, families) && BucketsOk(nodes, buckets)
      && (forall n :: 0 <= n < |nodes| ==> Hashed(n))
    }

    ghost predicate Hashed(n: nat)
      requires n < |nodes|
      reads this
    {
      nodes[n].hash == hash(nodes[n].node)
    }

    /** The term of a node. */
    ghost function Term(n: Id): Tree
      requires Valid() && n < |nodes|
      reads this
    {
      Unfold(nodes, families, n)
    }

    ghost function Terms(ids: seq<Id>): (ts: seq<Tree>)
      requires Valid() && Older(ids, |nodes|)
      reads this
      ensures |ts| == |ids| && forall i {:trigger ts[i]} :: 0 <= i < |ids| ==> ts[i] == Term(ids[i])
    {
      UnfoldAll(nodes, families, ids, |nodes|)
    }

    constructor (hash: AstNode -> nat)
      ensures Valid() && nodes == [] && families == ["basic"] && this.hash == hash
    {
      nodes, families, this.hash := [], ["basic"], hash;
      buckets := seq(INIT_BUCKETS, _ => []);
    }

    /** Finds the node, or appends it. */
    method Intern(node: AstNode) returns (id: Id)
      requires Valid() && Older(Kids(node), |nodes|) && WellFormed(nodes, families, node)
      modifies this
      ensures Valid() && families == old(families) && id < |nodes| && nodes[id].node == node
      ensures nodes == old(nodes) || nodes == old(nodes) + [Stored(node, hash(node))]
      ensures nodes != old(nodes) <==> forall n :: 0 <= n < |old(nodes)| ==> old(nodes)[n].node != node
    {
      var h := hash(node);
      var b := h % |buckets|;
      for i := 0 to |buckets[b]|
        invariant forall j :: 0 <= j < i ==> nodes[buckets[b][j]].node != node
      {
        var n := buckets[b][i];
        assert Hashed(n);
        if nodes[n].hash == h && nodes[n].node == node {
          return n;
        }
      }
      id := |nodes|;
      var s := Stored(node, h);
      NotThere(node, b);
      NodePushed(nodes, families, s);
      BucketPushed(nodes, buckets, s);
      nodes := nodes + [s];
      buckets := buckets[b := buckets[b] + [id]];
      forall n | 0 <= n < |nodes| ensures Hashed(n) {
        assert n < |old(nodes)| ==> old(Hashed(n));
      }
      if |nodes| > |buckets| * 2 {
        Grow();
      }
    }

    /** A node that its bucket does not hold is nowhere. */
    lemma {:induction false} NotThere(node: AstNode, b: nat)
      requires Valid() && b == hash(node) % |buckets| && forall j :: 0 <= j < |buckets[b]| ==> nodes[buckets[b][j]].node != node
      ensures forall n :: 0 <= n < |nodes| ==> nodes[n].node != node
    {
      forall n | 0 <= n < |nodes| ensures nodes[n].node != node {
        assert InBucket(nodes, buckets, n) && Hashed(n);
      }
    }

    /** Twice the buckets, and every node in its own. */
    method Grow()
      requires Valid()
      modifies this`buckets
      ensures Valid() && |buckets| == 2 * old(|buckets|)
    {
      var n := |buckets| * 2;
      var wider: seq<seq<Id>> := seq(n, _ => []);
      for id := 0 to |nodes|
        invariant |wider| == n && BucketsOk(nodes[..id], wider)
      {
        var b := nodes[id].hash % n;
        BucketPushed(nodes[..id], wider, nodes[id]);
        assert nodes[..id] + [nodes[id]] == nodes[..id + 1];
        wider := wider[b := wider[b] + [id]];
      }
      assert nodes[..|nodes|] == nodes;
      buckets := wider;
      forall n | 0 <= n < |nodes| ensures Hashed(n) {
        assert old(Hashed(n));
      }
    }

    // ----- families -----

    method GetFamilyId(name: Symbol) returns (fid: Option<FamilyId>)
      ensures fid.None? ==> name !in families
      ensures fid.Some? ==> 0 <= fid.value < |families| && families[fid.value] == name
    {
      for i := 0 to |families|
        invariant forall j :: 0 <= j < i ==> families[j] != name
      {
        if families[i] == name {
          return Some(i);
        }
      }
      fid := None;
    }

    /** The id of the family, registered if it is new; a second call gives the same id. */
    method MkFamilyId(name: Symbol) returns (fid: FamilyId)
      requires Valid()
      modifies this
      ensures Valid() && nodes == old(nodes)
      ensures 0 <= fid < |families| && families[fid] == name
      ensures families == if name in old(families) then old(families) else old(families) + [name]
    {
      var found := GetFamilyId(name);
      if found.Some? {
        return found.value;
      }
      FamilyPushed(nodes, families, name);
      fid := |families|;
      families := families + [name];
      forall n | 0 <= n < |nodes| ensures Hashed(n) {
        assert old(Hashed(n));
      }
    }

    // ----- constructors -----

    method MkSort(name: Symbol, info: DeclInfo, numElements: SortSize) returns (id: Id)
      requires Valid() && Older(ParamIds(info.parameters), |nodes|) && Registered(families, info.familyId)
      modifies this
      ensures Valid() && Extends(old(nodes), old(families), nodes, families) && families == old(families)
      ensures id < |nodes| && nodes[id].node == SortNode(name, info, numElements)
    {
      id := Intern(SortNode(name, info, numElements));
    }

    method MkFuncDecl(name: Symbol, info: DeclInfo, flags: Flags, domain: seq<Id>, range: Id) returns (id: Id)
      requires Valid() && Older(ParamIds(info.parameters), |nodes|) && Registered(families, info.familyId)
      requires (forall i :: 0 <= i < |domain| ==> IsSort(nodes, domain[i])) && IsSort(nodes, range)
      modifies this
      ensures Valid() && Extends(old(nodes), old(families), nodes, families) && families == old(families)
      ensures id < |nodes| && nodes[id].node == FuncDecl(name, info, flags, domain, range)
    {
      id := Intern(FuncDecl(name, info, flags, domain, range));
    }

    method MkApp(decl: Id, args: seq<Id>) returns (id: Id)
      requires Valid() && decl < |nodes| && nodes[decl].node.FuncDecl? && |nodes[decl].node.domain| == |args|
      requires Older(args, |nodes|)
      modifies this
      ensures Valid() && Extends(old(nodes), old(families), nodes, families) && families == old(families)
      ensures id < |nodes| && nodes[id].node == App(decl, args)
    {
      id := Intern(App(decl, args));
    }

    method MkVar(index: nat, sort: Id) returns (id: Id)
      requires Valid() && IsSort(nodes, sort)
      modifies this
      ensures Valid() && Extends(old(nodes), old(families), nodes, families) && families == old(families)
      ensures id < |nodes| && nodes[id].node == Var(index, sort)
    {
      id := Intern(Var(index, sort));
    }

    method MkBoolSort() returns (id: Id)
      requires Valid()
      modifies this
      ensures Valid() && Extends(old(nodes), old(families), nodes, families) && families == old(families)
      ensures id < |nodes| && Term(id) == BOOL_TREE
    {
      id := MkSort("Bool", DeclInfo(BASIC_FAMILY_ID, 0, []), Finite(2));
      assert Kids(nodes[id].node) == [];
      assert UnfoldAll(nodes, families, [], id) == [];
    }

    /** The array sort; "array" is registered on first use. */
    method MkArraySort(index: Id, elem: Id) returns (id: Id)
      requires Valid() && index < |nodes| && elem < |nodes|
      modifies this
      ensures Valid() && Extends(old(nodes), old(families), nodes, families)
      ensures id < |nodes| && Term(id) == ArrayTree(old(Term(index)), old(Term(elem)))
    {
      ghost var nodes0, families0 := nodes, families;
      var fid := MkFamilyId("array");
      var info := DeclInfo(fid, 0, [Ast(index), Ast(elem)]);
      ArrayParams(index, elem);
      id := MkSort("Array", info, Infinite);
      UnfoldKept(nodes0, families0, nodes, families, index);
      UnfoldKept(nodes0, families0, nodes, families, elem);
      assert Kids(nodes[id].node) == [index, elem];
      assert UnfoldAll(nodes, families, [index, elem], id) == [Term(index), Term(elem)];
    }

    method GetSort(expr: Id) returns (sort: Id)
      requires Valid() && IsExpr(nodes, expr)
      ensures sort < |nodes| && Term(sort) == SortOf(Term(expr))
    {
      match nodes[expr].node
      case App(decl, _) =>
        AppSort(nodes, families, expr);
        sort := nodes[decl].node.range;
      case Var(_, s) =>
        CarriedSort(nodes, families, expr);
        sort := s;
      case Quantifier(_, _, _, _, _, _, s) =>
        CarriedSort(nodes, families, expr);
        sort := s;
    }

    /** The sort of a `lambda`: arrays from the sorts of its variables, nested, to its body's. */
    method NestArrays(varSorts: seq<Id>, elem: Id) returns (id: Id)
      requires Valid() && Older(varSorts, |nodes|) && elem < |nodes|
      modifies this
      ensures Valid() && Extends(old(nodes), old(families), nodes, families)
      ensures id < |nodes| && Term(id) == NestedArrays(old(Terms(varSorts)), old(Term(elem)))
    {
      ghost var nodes0, families0, sorts := nodes, families, Terms(varSorts);
      id := elem;
      var k := |varSorts|;
      assert sorts[k..] == [];
      while k > 0
        invariant 0 <= k <= |varSorts| && Valid() && Extends(nodes0, families0, nodes, families) && id < |nodes|
        invariant Term(id) == NestedArrays(sorts[k..], old(Term(elem)))
      {
        k := k - 1;
        UnfoldKept(nodes0, families0, nodes, families, varSorts[k]);
        NestedStep(sorts, k, old(Term(elem)));
        id := MkArraySort(varSorts[k], id);
      }
      assert sorts[0..] == sorts;
    }

    /** A quantifier, its sort derived. */
    method MkQuantifier(kind: QuantifierKind, varSorts: seq<Id>, varNames: seq<Symbol>, body: Id, patterns: seq<Id>, weight: int)
      returns (id: Id)
      requires Valid() && |varSorts| == |varNames| > 0 && Older(varSorts, |nodes|) && body < |nodes| && Older(patterns, |nodes|)
      requires kind == Lambda ==> IsExpr(nodes, body)
      modifies this
      ensures Valid() && Extends(old(nodes), old(families), nodes, families) && id < |nodes|
      ensures nodes[id].node.Quantifier? && nodes[id].node.sort < |nodes|
      ensures nodes[id].node == Quantifier(kind, varSorts, varNames, body, patterns, weight, nodes[id].node.sort)
      ensures Term(nodes[id].node.sort) == QuantifierSort(kind, old(Terms(varSorts)), old(Term(body)))
    {
      ghost var sorts, tree := Terms(varSorts), Term(body);
      var sort := DeriveSort(kind, varSorts, body, patterns);
      var node := Quantifier(kind, varSorts, varNames, body, patterns, weight, sort);
      QuantifierFits(nodes, families, node, sorts, tree);
      ghost var nodes0 := nodes;
      id := Intern(node);
      UnfoldKept(nodes0, families, nodes, families, sort);
    }

    /** The sort that a quantifier must carry. */
    method DeriveSort(kind: QuantifierKind, varSorts: seq<Id>, body: Id, ghost patterns: seq<Id>) returns (sort: Id)
      requires Valid() && Older(varSorts, |nodes|) && body < |nodes| && Older(patterns, |nodes|)
      requires kind == Lambda ==> IsExpr(nodes, body)
      modifies this
      ensures Valid() && Extends(old(nodes), old(families), nodes, families) && sort < |nodes|
      ensures Term(sort) == QuantifierSort(kind, old(Terms(varSorts)), old(Term(body)))
      ensures Older(varSorts, |nodes|) && body < |nodes| && Older(patterns, |nodes|) && (kind == Lambda ==> IsExpr(nodes, body))
      ensures Terms(varSorts) == old(Terms(varSorts)) && Term(body) == old(Term(body))
    {
      ghost var nodes0, families0 := nodes, families;
      if kind == Lambda {
        sort := GetSort(body);
        sort := NestArrays(varSorts, sort);
      } else {
        sort := MkBoolSort();
      }
      UnfoldKept(nodes0, families0, nodes, families, body);
      UnfoldAllKept(nodes0, families0, nodes, families, varSorts);
    }
  }

  lemma {:induction false} NestedStep(sorts: seq<Tree>, k: nat, elem: Tree)
    requires k < |sorts|
    ensures NestedArrays(sorts[k..], elem) == ArrayTree(sorts[k], NestedArrays(sorts[k + 1..], elem))
  {
    assert sorts[k..][0] == sorts[k] && sorts[k..][1..] == sorts[k + 1..];
  }

  lemma {:induction false} QuantifierFits(nodes: seq<Stored>, families: seq<Symbol>, node: AstNode, sorts: seq<Tree>, body: Tree)
    requires GraphOk(nodes, families) && node.Quantifier? && |node.varSorts| == |node.varNames| > 0
    requires Older(node.varSorts, |nodes|) && node.body < |nodes| && Older(node.patterns, |nodes|) && node.sort < |nodes|
    requires node.kind == Lambda ==> IsExpr(nodes, node.body)
    requires UnfoldAll(nodes, families, node.varSorts, |nodes|) == sorts && Unfold(nodes, families, node.body) == body
    requires Unfold(nodes, families, node.sort) == QuantifierSort(node.kind, sorts, body)
    ensures Older(Kids(node), |nodes|) && WellFormed(nodes, families, node)
  {
    var v, b, p, s := node.varSorts, [node.body], node.patterns, [node.sort];
    OlderAppend(v, b, |nodes|);
    OlderAppend(v + b, p, |nodes|);
    OlderAppend(v + b + p, s, |nodes|);
  }

  lemma {:induction false} OlderAppend(a: seq<Id>, b: seq<Id>, n: nat)
    requires Older(a, n) && Older(b, n)
    ensures Older(a + b, n)
  {
  }

  lemma {:induction false} ArrayParams(index: Id, elem: Id)
    ensures ParamIds([Ast(index), Ast(elem)]) == [index, elem] && BlankParams([Ast(index), Ast(elem)]) == [Ast(0), Ast(0)]
  {
    var ps := [Ast(index), Ast(elem)];
    assert ps[1..] == [Ast(elem)] && ps[1..][1..] == [];
    assert ParamIds(ps[1..]) == [elem] + ParamIds([]) && BlankParams(ps[1..]) == [Ast(0)] + BlankParams([]);
  }
}
