/** The nodes of a manager, the terms they unfold to, and maximal sharing. */
module AstNodes {
  import opened Options

  type Id = nat
  type Symbol = string
  type FamilyId = int

  const NULL_FAMILY_ID: FamilyId := -1
  const BASIC_FAMILY_ID: FamilyId := 0

  /** A node, or any other parameter: a number, a symbol, a string. */
  datatype Parameter = Ast(id: Id) | Other(kind: nat, text: string)

  datatype DeclInfo = DeclInfo(familyId: FamilyId, declKind: int, parameters: seq<Parameter>)

  datatype SortSize = Finite(n: nat) | VeryBig | Infinite

  datatype Flags = Flags(leftAssoc: bool, rightAssoc: bool, flatAssociative: bool, commutative: bool, chainable: bool,
                         pairwise: bool, injective: bool, idempotent: bool, skolem: bool, polymorphic: bool)

  datatype QuantifierKind = Forall | Exists | Lambda

  datatype AstNode =
    | SortNode(name: Symbol, info: DeclInfo, numElements: SortSize)
    | FuncDecl(name: Symbol, info: DeclInfo, flags: Flags, domain: seq<Id>, range: Id)
    | App(decl: Id, args: seq<Id>)
    | Var(index: nat, sort: Id)
    | Quantifier(kind: QuantifierKind, varSorts: seq<Id>, varNames: seq<Symbol>, body: Id, patterns: seq<Id>, weight: int,
                 sort: Id)

  datatype Stored = Stored(node: AstNode, hash: nat)

  // ----- a node as a label over children -----

  function IdsOf(p: Parameter): seq<Id> {
    if p.Ast? then [p.id] else []
  }

  function ParamIds(ps: seq<Parameter>): seq<Id> {
    if ps == [] then [] else IdsOf(ps[0]) + ParamIds(ps[1..])
  }

  function BlankParam(p: Parameter): Parameter {
    if p.Ast? then Ast(0) else p
  }

  function BlankParams(ps: seq<Parameter>): (bs: seq<Parameter>)
    ensures |bs| == |ps|
  {
    if ps == [] then [] else [BlankParam(ps[0])] + BlankParams(ps[1..])
  }

  function BlankInfo(info: DeclInfo): DeclInfo {
    DeclInfo(0, info.declKind, BlankParams(info.parameters))
  }

  function Zeros(n: nat): (zs: seq<Id>)
    ensures |zs| == n
  {
    seq(n, _ => 0)
  }

  /** The nodes a node is made of, in the order translation visits them. */
  function Kids(node: AstNode): seq<Id> {
    match node
    case SortNode(_, info, _) => ParamIds(info.parameters)
    case FuncDecl(_, info, _, domain, range) => ParamIds(info.parameters) + domain + [range]
    case App(decl, args) => [decl] + args
    case Var(_, sort) => [sort]
    case Quantifier(_, varSorts, _, body, patterns, _, sort) => varSorts + [body] + patterns + [sort]
  }

  /** The node without its children and its family. */
  function Blank(node: AstNode): AstNode {
    match node
    case SortNode(name, info, size) => SortNode(name, BlankInfo(info), size)
    case FuncDecl(name, info, flags, domain, _) => FuncDecl(name, BlankInfo(info), flags, Zeros(|domain|), 0)
    case App(_, args) => App(0, Zeros(|args|))
    case Var(index, _) => Var(index, 0)
    case Quantifier(kind, varSorts, names, _, patterns, weight, _) =>
      Quantifier(kind, Zeros(|varSorts|), names, 0, Zeros(|patterns|), weight, 0)
  }

  function FamilyOf(node: AstNode): FamilyId {
    if node.SortNode? || node.FuncDecl? then node.info.familyId else NULL_FAMILY_ID
  }

  lemma {:induction false} ParamsSplit(ps: seq<Parameter>, qs: seq<Parameter>)
    requires BlankParams(ps) == BlankParams(qs)
    ensures |ParamIds(ps)| == |ParamIds(qs)| && (ParamIds(ps) == ParamIds(qs) ==> ps == qs)
  {
    if ps != [] {
      assert BlankParams(ps)[1..] == BlankParams(ps[1..]) && BlankParams(qs)[1..] == BlankParams(qs[1..]);
      assert BlankParams(ps)[0] == BlankParams(qs)[0];
      ParamsSplit(ps[1..], qs[1..]);
      if ParamIds(ps) == ParamIds(qs) {
        AppendSplit(IdsOf(ps[0]), ParamIds(ps[1..]), IdsOf(qs[0]), ParamIds(qs[1..]));
        assert ps[0].Ast? ==> IdsOf(ps[0])[0] == IdsOf(qs[0])[0];
        assert ps == [ps[0]] + ps[1..] && qs == [qs[0]] + qs[1..];
      }
    }
  }

  lemma {:induction false} InfosSplit(x: DeclInfo, y: DeclInfo)
    requires BlankInfo(x) == BlankInfo(y)
    ensures |ParamIds(x.parameters)| == |ParamIds(y.parameters)|
    ensures x.familyId == y.familyId && ParamIds(x.parameters) == ParamIds(y.parameters) ==> x == y
  {
    ParamsSplit(x.parameters, y.parameters);
  }

  lemma {:induction false} TakeSnoc<T>(s: seq<T>, i: nat)
    requires i < |s|
    ensures s[..i + 1] == s[..i] + [s[i]]
  {
  }

  lemma {:induction false} AppendSplit<T>(a: seq<T>, b: seq<T>, c: seq<T>, d: seq<T>)
    requires |a| == |c| && a + b == c + d
    ensures a == c && b == d
  {
    assert (a + b)[..|a|] == a && (c + d)[..|c|] == c;
    assert (a + b)[|a|..] == b && (c + d)[|c|..] == d;
  }

  lemma {:induction false} BlankLengths(x: AstNode, y: AstNode)
    requires Blank(x) == Blank(y)
    ensures x.FuncDecl? ==> y.FuncDecl? && |x.domain| == |y.domain|
    ensures x.App? ==> y.App? && |x.args| == |y.args|
    ensures x.Quantifier? ==> y.Quantifier? && |x.varSorts| == |y.varSorts| && |x.patterns| == |y.patterns|
  {
    if x.FuncDecl? {
      assert |Zeros(|x.domain|)| == |Zeros(|y.domain|)|;
    }
    if x.App? {
      assert |Zeros(|x.args|)| == |Zeros(|y.args|)|;
    }
    if x.Quantifier? {
      assert |Zeros(|x.varSorts|)| == |Zeros(|y.varSorts|)| && |Zeros(|x.patterns|)| == |Zeros(|y.patterns|)|;
    }
  }

  /** Label, family and children make up the node. */
  lemma {:induction false} SameNode(x: AstNode, y: AstNode)
    requires Blank(x) == Blank(y) && FamilyOf(x) == FamilyOf(y) && Kids(x) == Kids(y)
    ensures x == y
  {
    BlankLengths(x, y);
    match x
    case SortNode(_, info, _) => InfosSplit(info, y.info);
    case FuncDecl(_, info, _, domain, range) =>
      InfosSplit(info, y.info);
      AppendSplit(ParamIds(info.parameters) + domain, [range], ParamIds(y.info.parameters) + y.domain, [y.range]);
      AppendSplit(ParamIds(info.parameters), domain, ParamIds(y.info.parameters), y.domain);
    case App(decl, args) => AppendSplit([decl], args, [y.decl], y.args);
    case Var(_, sort) => AppendSplit([], [sort], [], [y.sort]);
    case Quantifier(_, varSorts, _, body, patterns, _, sort) =>
      AppendSplit(varSorts + [body] + patterns, [sort], y.varSorts + [y.body] + y.patterns, [y.sort]);
      AppendSplit(varSorts + [body], patterns, y.varSorts + [y.body], y.patterns);
      AppendSplit(varSorts, [body], y.varSorts, [y.body]);
  }

  // ----- unfolded terms -----

  /** A node's content, its family by name. */
  datatype Label = Label(shape: AstNode, family: Option<Symbol>)

  datatype Tree = Tree(top: Label, kids: seq<Tree>)

  function FamilyName(families: seq<Symbol>, fid: FamilyId): Option<Symbol> {
    if 0 <= fid < |families| then Some(families[fid]) else None
  }

  predicate Older(ids: seq<Id>, n: nat) {
    forall i :: 0 <= i < |ids| ==> ids[i] < n
  }

  ghost predicate Acyclic(nodes: seq<Stored>) {
    forall n {:trigger Older(Kids(nodes[n].node), n)} :: 0 <= n < |nodes| ==> Older(Kids(nodes[n].node), n)
  }

  function LabelOf(node: AstNode, families: seq<Symbol>): Label {
    Label(Blank(node), FamilyName(families, FamilyOf(node)))
  }

  ghost function Unfold(nodes: seq<Stored>, families: seq<Symbol>, n: Id): Tree
    requires Acyclic(nodes) && n < |nodes|
    decreases n, 1
  {
    Tree(LabelOf(nodes[n].node, families), UnfoldAll(nodes, families, Kids(nodes[n].node), n))
  }

  ghost function UnfoldAll(nodes: seq<Stored>, families: seq<Symbol>, ids: seq<Id>, n: nat): (ts: seq<Tree>)
    requires Acyclic(nodes) && n <= |nodes| && Older(ids, n)
    ensures |ts| == |ids| && forall i {:trigger ts[i]} :: 0 <= i < |ids| ==> ts[i] == Unfold(nodes, families, ids[i])
    decreases n, 0
  {
    seq(|ids|, i requires 0 <= i < |ids| => Unfold(nodes, families, ids[i]))
  }

  // ----- well-formed nodes -----

  ghost predicate Registered(families: seq<Symbol>, fid: FamilyId) {
    fid == NULL_FAMILY_ID || 0 <= fid < |families|
  }

  ghost predicate Distinct(families: seq<Symbol>) {
    forall i, j :: 0 <= i < j < |families| ==> families[i] != families[j]
  }

  ghost predicate IsSort(nodes: seq<Stored>, n: Id) {
    n < |nodes| && nodes[n].node.SortNode?
  }

  ghost predicate IsExpr(nodes: seq<Stored>, n: Id) {
    n < |nodes| && (nodes[n].node.App? || nodes[n].node.Var? || nodes[n].node.Quantifier?)
  }

  const BOOL_TREE := Tree(Label(SortNode("Bool", DeclInfo(0, 0, []), Finite(2)), Some("basic")), [])

  function ArrayTree(index: Tree, elem: Tree): Tree {
    Tree(Label(SortNode("Array", DeclInfo(0, 0, [Ast(0), Ast(0)]), Infinite), Some("array")), [index, elem])
  }

  function NestedArrays(indices: seq<Tree>, elem: Tree): Tree {
    if indices == [] then elem else ArrayTree(indices[0], NestedArrays(indices[1..], elem))
  }

  /** The sort of an expression: the range of its declaration, or what it carries. */
  function SortOf(t: Tree): Tree {
    if t.top.shape.App? && t.kids != [] && t.kids[0].kids != [] then t.kids[0].kids[|t.kids[0].kids| - 1]
    else if t.kids != [] then t.kids[|t.kids| - 1] else t
  }

  /** The sort a quantifier must carry. */
  function QuantifierSort(kind: QuantifierKind, varSorts: seq<Tree>, body: Tree): Tree {
    match kind
    case Lambda => NestedArrays(varSorts, SortOf(body))
    case _ => BOOL_TREE
  }

  /** What the constructors demand of a node over the nodes before it. */
  ghost predicate WellFormed(nodes: seq<Stored>, families: seq<Symbol>, node: AstNode)
    requires Acyclic(nodes) && Older(Kids(node), |nodes|)
  {
    Registered(families, FamilyOf(node)) &&
    match node
    case SortNode(_, _, _) => true
    case FuncDecl(_, _, _, domain, range) => (forall i :: 0 <= i < |domain| ==> IsSort(nodes, domain[i])) && IsSort(nodes, range)
    case App(decl, args) => decl < |nodes| && nodes[decl].node.FuncDecl? && |nodes[decl].node.domain| == |args|
    case Var(_, sort) => IsSort(nodes, sort)
    case Quantifier(kind, varSorts, names, body, _, _, sort) =>
      && |varSorts| == |names| > 0 && Older(varSorts, |nodes|) && body < |nodes| && sort < |nodes|
      && (kind == Lambda ==> IsExpr(nodes, body))
      && Unfold(nodes, families, sort)
         == QuantifierSort(kind, UnfoldAll(nodes, families, varSorts, |nodes|), Unfold(nodes, families, body))
  }

  ghost predicate NodeOk(nodes: seq<Stored>, families: seq<Symbol>, n: nat)
    requires Acyclic(nodes) && n < |nodes|
  {
    assert Older(Kids(nodes[n].node), n);
    WellFormed(nodes, families, nodes[n].node)
  }

  /** Nodes made by the constructors, each once. */
  ghost predicate GraphOk(nodes: seq<Stored>, families: seq<Symbol>) {
    && Acyclic(nodes) && Distinct(families) && |families| > 0 && families[0] == "basic"
    && (forall n :: 0 <= n < |nodes| ==> NodeOk(nodes, families, n))
    && (forall m, n :: 0 <= m < n < |nodes| ==> Differ(nodes, m, n))
  }

  ghost predicate Differ(nodes: seq<Stored>, m: nat, n: nat)
    requires m < |nodes| && n < |nodes|
  {
    nodes[m].node != nodes[n].node
  }

  // ----- maximal sharing -----

  lemma {:induction false} NameDetermines(families: seq<Symbol>, a: FamilyId, b: FamilyId)
    requires Distinct(families) && Registered(families, a) && Registered(families, b)
    requires FamilyName(families, a) == FamilyName(families, b)
    ensures a == b
  {
  }

  /** Two ids are equal if and only if they unfold to the same term. */
  lemma {:induction false} MaximalSharing(nodes: seq<Stored>, families: seq<Symbol>, a: Id, b: Id)
    requires GraphOk(nodes, families) && a < |nodes| && b < |nodes|
    ensures a == b <==> Unfold(nodes, families, a) == Unfold(nodes, families, b)
    decreases a
  {
    if Unfold(nodes, families, a) == Unfold(nodes, families, b) {
      var x, y := nodes[a].node, nodes[b].node;
      assert NodeOk(nodes, families, a) && NodeOk(nodes, families, b);
      assert a < b ==> Differ(nodes, a, b);
      assert b < a ==> Differ(nodes, b, a);
      NameDetermines(families, FamilyOf(x), FamilyOf(y));
      var ts, us := UnfoldAll(nodes, families, Kids(x), a), UnfoldAll(nodes, families, Kids(y), b);
      assert |Kids(x)| == |Kids(y)|;
      forall i | 0 <= i < |Kids(x)| ensures Kids(x)[i] == Kids(y)[i] {
        assert ts[i] == us[i];
        assert Older(Kids(x), a) && Older(Kids(y), b);
        MaximalSharing(nodes, families, Kids(x)[i], Kids(y)[i]);
      }
      SameNode(x, y);
    }
  }

  // ----- the sort of an expression -----

  lemma {:induction false} KidTree(nodes: seq<Stored>, families: seq<Symbol>, n: Id, i: nat)
    requires Acyclic(nodes) && n < |nodes| && i < |Kids(nodes[n].node)|
    ensures Kids(nodes[n].node)[i] < n && |Unfold(nodes, families, n).kids| == |Kids(nodes[n].node)|
    ensures Unfold(nodes, families, n).kids[i] == Unfold(nodes, families, Kids(nodes[n].node)[i])
  {
    assert Older(Kids(nodes[n].node), n);
  }

  lemma {:induction false} AppSort(nodes: seq<Stored>, families: seq<Symbol>, n: Id)
    requires GraphOk(nodes, families) && n < |nodes| && nodes[n].node.App?
    ensures var d := nodes[n].node.decl;
      d < n && nodes[d].node.FuncDecl? && nodes[d].node.range < d
      && Unfold(nodes, families, nodes[d].node.range) == SortOf(Unfold(nodes, families, n))
  {
    var d := nodes[n].node.decl;
    assert NodeOk(nodes, families, n) && Kids(nodes[n].node)[0] == d;
    KidTree(nodes, families, n, 0);
    var ks := Kids(nodes[d].node);
    assert ks[|ks| - 1] == nodes[d].node.range;
    KidTree(nodes, families, d, |ks| - 1);
  }

  lemma {:induction false} CarriedSort(nodes: seq<Stored>, families: seq<Symbol>, n: Id)
    requires GraphOk(nodes, families) && n < |nodes| && (nodes[n].node.Var? || nodes[n].node.Quantifier?)
    ensures nodes[n].node.sort < n && Unfold(nodes, families, nodes[n].node.sort) == SortOf(Unfold(nodes, families, n))
  {
    var ks := Kids(nodes[n].node);
    assert ks[|ks| - 1] == nodes[n].node.sort;
    KidTree(nodes, families, n, |ks| - 1);
  }

  // ----- growing -----

  ghost predicate Extends(nodes: seq<Stored>, families: seq<Symbol>, nodes': seq<Stored>, families': seq<Symbol>) {
    nodes <= nodes' && families <= families'
  }

  /** Old nodes keep their terms. */
  lemma {:induction false} UnfoldKept(nodes: seq<Stored>, families: seq<Symbol>, nodes': seq<Stored>, families': seq<Symbol>,
                                      n: Id)
    requires GraphOk(nodes, families) && Acyclic(nodes') && Extends(nodes, families, nodes', families') && n < |nodes|
    ensures Unfold(nodes', families', n) == Unfold(nodes, families, n)
    decreases n
  {
    assert nodes'[n] == nodes[n] && NodeOk(nodes, families, n);
    var kids := Kids(nodes[n].node);
    assert Older(kids, n);
    forall i | 0 <= i < |kids| ensures Unfold(nodes', families', kids[i]) == Unfold(nodes, families, kids[i]) {
      UnfoldKept(nodes, families, nodes', families', kids[i]);
    }
    assert UnfoldAll(nodes', families', kids, n) == UnfoldAll(nodes, families, kids, n);
  }

  lemma {:induction false} UnfoldAllKept(nodes: seq<Stored>, families: seq<Symbol>, nodes': seq<Stored>,
                                         families': seq<Symbol>, ids: seq<Id>)
    requires GraphOk(nodes, families) && Acyclic(nodes') && Extends(nodes, families, nodes', families') && Older(ids, |nodes|)
    ensures UnfoldAll(nodes', families', ids, |nodes'|) == UnfoldAll(nodes, families, ids, |nodes|)
  {
    forall i | 0 <= i < |ids| ensures Unfold(nodes', families', ids[i]) == Unfold(nodes, families, ids[i]) {
      UnfoldKept(nodes, families, nodes', families', ids[i]);
    }
  }

  lemma {:induction false} WellFormedKept(nodes: seq<Stored>, families: seq<Symbol>, nodes': seq<Stored>,
                                          families': seq<Symbol>, node: AstNode)
    requires GraphOk(nodes, families) && Acyclic(nodes') && Extends(nodes, families, nodes', families')
    requires Older(Kids(node), |nodes|) && WellFormed(nodes, families, node)
    ensures Older(Kids(node), |nodes'|) && WellFormed(nodes', families', node)
  {
    match node
    case FuncDecl(_, _, _, domain, range) =>
      forall i | 0 <= i < |domain| ensures IsSort(nodes', domain[i]) {
        assert IsSort(nodes, domain[i]);
      }
    case Quantifier(_, varSorts, _, body, _, _, sort) =>
      UnfoldKept(nodes, families, nodes', families', body);
      UnfoldKept(nodes, families, nodes', families', sort);
      UnfoldAllKept(nodes, families, nodes', families', varSorts);
    case _ =>
  }

  /** A well-formed new node keeps the graph. */
  lemma {:induction false} NodePushed(nodes: seq<Stored>, families: seq<Symbol>, s: Stored)
    requires GraphOk(nodes, families) && Older(Kids(s.node), |nodes|) && WellFormed(nodes, families, s.node)
    requires forall n :: 0 <= n < |nodes| ==> nodes[n].node != s.node
    ensures GraphOk(nodes + [s], families)
  {
    var nodes' := nodes + [s];
    forall n | 0 <= n < |nodes'| ensures Older(Kids(nodes'[n].node), n) {
      assert n < |nodes| ==> nodes'[n] == nodes[n];
    }
    forall n | 0 <= n < |nodes'| ensures NodeOk(nodes', families, n) {
      if n < |nodes| {
        assert nodes'[n] == nodes[n] && NodeOk(nodes, families, n);
        assert Older(Kids(nodes[n].node), n);
      }
      WellFormedKept(nodes, families, nodes', families, nodes'[n].node);
    }
    forall m, n | 0 <= m < n < |nodes'| ensures Differ(nodes', m, n) {
      if n < |nodes| {
        assert Differ(nodes, m, n);
      }
    }
  }

  lemma {:induction false} FamilyPushed(nodes: seq<Stored>, families: seq<Symbol>, name: Symbol)
    requires GraphOk(nodes, families) && name !in families
    ensures GraphOk(nodes, families + [name])
  {
    var families' := families + [name];
    forall n | 0 <= n < |nodes| ensures NodeOk(nodes, families', n) {
      assert NodeOk(nodes, families, n);
      assert Older(Kids(nodes[n].node), n);
      WellFormedKept(nodes, families, nodes, families', nodes[n].node);
    }
  }
}
