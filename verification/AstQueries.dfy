/** Traversals of the manager's expressions with explicit stacks, and term depth. */
module AstQueries {
  import opened AstNodes
  import opened AstManagers
  import T = Traversals

  /** The expressions an expression is made of: the arguments of an application, the body of a quantifier. */
  function ExprChildren(nodes: seq<Stored>, n: Id): seq<Id> {
    if n >= |nodes| then []
    else match nodes[n].node
         case App(_, args) => args
         case Quantifier(_, _, _, body, _, _, _) => [body]
         case _ => []
  }

  lemma {:induction false} ChildrenOlder(nodes: seq<Stored>, n: Id)
    requires Acyclic(nodes)
    ensures T.Below(ExprChildren(nodes, n), n)
  {
    if n < |nodes| {
      assert Older(Kids(nodes[n].node), n);
      match nodes[n].node
      case App(decl, args) =>
        forall i | 0 <= i < |args| ensures args[i] < n {
          assert Kids(nodes[n].node)[i + 1] == args[i];
        }
      case Quantifier(_, varSorts, _, body, _, _, _) => assert Kids(nodes[n].node)[|varSorts|] == body;
      case _ =>
    }
  }

  function Reversed(s: seq<Id>): seq<Id> {
    if s == [] then [] else [s[|s| - 1]] + Reversed(s[..|s| - 1])
  }

  lemma {:induction false} ReversedHas(s: seq<Id>, x: Id)
    ensures x in Reversed(s) <==> x in s
  {
    if s != [] {
      ReversedHas(s[..|s| - 1], x);
      assert s == s[..|s| - 1] + [s[|s| - 1]];
    }
  }

  /** The arcs of the expression graph, the last child first. */
  ghost function LastFirst(nodes: seq<Stored>): T.Arcs {
    (n: Id) => Reversed(ExprChildren(nodes, n))
  }

  /** The arcs from the applications entered to their arguments, the first first. */
  ghost function FirstFirst(nodes: seq<Stored>, enter: Id -> bool): T.Arcs {
    (n: Id) => if n < |nodes| && nodes[n].node.App? && enter(n) then nodes[n].node.args else []
  }

  lemma {:induction false} LastFirstAcyclic(nodes: seq<Stored>)
    requires Acyclic(nodes)
    ensures T.Acyclic(LastFirst(nodes))
  {
    forall n: Id ensures T.Below(LastFirst(nodes)(n), n) {
      ChildrenOlder(nodes, n);
      var s := Reversed(ExprChildren(nodes, n));
      forall i | 0 <= i < |s| ensures s[i] < n {
        ReversedHas(ExprChildren(nodes, n), s[i]);
      }
    }
  }

  lemma {:induction false} FirstFirstAcyclic(nodes: seq<Stored>, enter: Id -> bool)
    requires Acyclic(nodes)
    ensures T.Acyclic(FirstFirst(nodes, enter))
  {
    forall n: Id ensures T.Below(FirstFirst(nodes, enter)(n), n) {
      ChildrenOlder(nodes, n);
    }
  }

  // ----- postorder with frames (node, children expanded?) -----

  datatype Frame = Frame(id: Id, expanded: bool)

  /** What running the frames makes of the order, the last frame first. */
  ghost function RunFrames(kids: T.Arcs, stack: seq<Frame>, order: seq<Id>): seq<Id>
    requires T.Acyclic(kids)
    decreases |stack|
  {
    if stack == [] then order
    else
      var top := stack[|stack| - 1];
      var order' := if !top.expanded then T.Finish(kids, top.id, order)
                    else if top.id in order then order else order + [top.id];
      RunFrames(kids, stack[..|stack| - 1], order')
  }

  ghost function FrameWork(kids: T.Arcs, stack: seq<Frame>): nat
    requires T.Acyclic(kids)
  {
    if stack == [] then 0
    else
      var top := stack[|stack| - 1];
      FrameWork(kids, stack[..|stack| - 1]) + if top.expanded then 1 else T.Work(kids, top.id)
  }

  /** The frames of the children not seen. */
  function Frames(children: seq<Id>, seen: seq<Id>): seq<Frame> {
    if children == [] then []
    else
      var c := children[|children| - 1];
      Frames(children[..|children| - 1], seen) + if c in seen then [] else [Frame(c, false)]
  }

  lemma {:induction false} FramePushed(kids: T.Arcs, base: seq<Frame>, f: Frame, order: seq<Id>)
    requires T.Acyclic(kids)
    ensures RunFrames(kids, base + [f], order)
      == RunFrames(kids, base, if !f.expanded then T.Finish(kids, f.id, order) else if f.id in order then order else order + [f.id])
    ensures FrameWork(kids, base + [f]) == FrameWork(kids, base) + if f.expanded then 1 else T.Work(kids, f.id)
  {
    assert (base + [f])[..|base|] == base;
  }

  /** Running the frames of the children finishes them, the last one first. */
  lemma {:induction false} FramesRun(kids: T.Arcs, base: seq<Frame>, children: seq<Id>, bound: nat, seen: seq<Id>, order: seq<Id>)
    requires T.Acyclic(kids) && T.Below(Reversed(children), bound) && seen <= order
    ensures RunFrames(kids, base + Frames(children, seen), order)
      == RunFrames(kids, base, T.FinishAll(kids, Reversed(children), bound, order))
    ensures FrameWork(kids, base + Frames(children, seen)) <= FrameWork(kids, base) + T.WorkAll(kids, Reversed(children), bound)
    decreases |children|
  {
    if children == [] {
      assert base + Frames(children, seen) == base;
    } else {
      var c, rest := children[|children| - 1], children[..|children| - 1];
      assert Reversed(children)[1..] == Reversed(rest) && Reversed(children)[0] == c;
      assert T.Below(Reversed(rest), bound);
      T.FinishContinues(kids, c, order);
      FramesRun(kids, base, rest, bound, seen, T.Finish(kids, c, order));
      if c in seen {
        assert Frames(rest, seen) + [] == Frames(rest, seen);
      } else {
        assert base + Frames(children, seen) == (base + Frames(rest, seen)) + [Frame(c, false)];
        FramePushed(kids, base + Frames(rest, seen), Frame(c, false), order);
      }
    }
  }

  /** Exactly the nodes listed are marked. */
  ghost predicate MarksAre(marks: VisitMarks, order: seq<Id>, n: nat)
    reads marks
  {
    && marks.Valid() && |marks.stamp| == n && Older(order, n)
    && (forall i :: 0 <= i < n ==> (marks.IsMarked(i) <==> i in order))
  }

  ghost predicate FramesBelow(stack: seq<Frame>, n: nat) {
    forall i :: 0 <= i < |stack| ==> stack[i].id < n
  }

  /** Opening a node: it waits, expanded, below its children. */
  lemma {:induction false} FrameOpened(kids: T.Arcs, base: seq<Frame>, n: Id, children: seq<Id>, order: seq<Id>)
    requires T.Acyclic(kids) && kids(n) == Reversed(children) && n !in order
    ensures RunFrames(kids, base + [Frame(n, true)] + Frames(children, order), order)
      == RunFrames(kids, base, T.Finish(kids, n, order))
    ensures FrameWork(kids, base + [Frame(n, true)] + Frames(children, order)) < FrameWork(kids, base) + T.Work(kids, n)
  {
    assert T.Below(kids(n), n);
    FramesRun(kids, base + [Frame(n, true)], children, n, order, order);
    T.FinishAllContinues(kids, kids(n), n, order);
    FramePushed(kids, base, Frame(n, true), T.FinishAll(kids, kids(n), n, order));
    FramePushed(kids, base, Frame(n, true), order);
  }

  method PushChildren(children: seq<Id>, base: seq<Frame>, ghost order: seq<Id>, marks: VisitMarks, ghost n: nat)
    returns (stack: seq<Frame>)
    requires MarksAre(marks, order, n) && T.Below(children, n) && FramesBelow(base, n)
    ensures stack == base + Frames(children, order) && FramesBelow(stack, n)
  {
    stack := base;
    for i := 0 to |children|
      invariant stack == base + Frames(children[..i], order) && FramesBelow(stack, n)
    {
      var c := children[i];
      assert children[..i + 1][..i] == children[..i] && children[..i + 1][i] == c;
      if !marks.IsMarked(c) {
        stack := stack + [Frame(c, false)];
      }
    }
    assert children[..|children|] == children;
  }

  /** One frame is run. */
  method RunFrame(nodes: seq<Stored>, top: Frame, rest: seq<Frame>, marks: VisitMarks, order: seq<Id>)
    returns (stack: seq<Frame>, order': seq<Id>)
    requires Acyclic(nodes) && T.Acyclic(LastFirst(nodes)) && MarksAre(marks, order, |nodes|)
    requires top.id < |nodes| && FramesBelow(rest, |nodes|)
    modifies marks
    ensures MarksAre(marks, order', |nodes|) && FramesBelow(stack, |nodes|)
    ensures RunFrames(LastFirst(nodes), stack, order') == RunFrames(LastFirst(nodes), rest + [top], order)
    ensures FrameWork(LastFirst(nodes), stack) < FrameWork(LastFirst(nodes), rest + [top])
  {
    ghost var kids := LastFirst(nodes);
    FramePushed(kids, rest, top, order);
    stack, order' := rest, order;
    if marks.IsMarked(top.id) {
      return;
    }
    if top.expanded {
      marks.Mark(top.id);
      order' := order + [top.id];
      return;
    }
    var children := ExprChildren(nodes, top.id);
    ChildrenOlder(nodes, top.id);
    FrameOpened(kids, rest, top.id, children, order);
    stack := PushChildren(children, rest + [Frame(top.id, true)], order, marks, |nodes|);
  }

  /** The expressions one root reaches, after those of `order`. */
  method PostorderFrom(nodes: seq<Stored>, root: Id, marks: VisitMarks, order: seq<Id>) returns (order': seq<Id>)
    requires Acyclic(nodes) && T.Acyclic(LastFirst(nodes)) && root < |nodes| && MarksAre(marks, order, |nodes|)
    modifies marks
    ensures order' == T.Finish(LastFirst(nodes), root, order) && MarksAre(marks, order', |nodes|)
  {
    ghost var kids := LastFirst(nodes);
    order' := order;
    var stack := [Frame(root, false)];
    FramePushed(kids, [], stack[0], order);
    assert [] + [stack[0]] == stack;
    while stack != []
      invariant MarksAre(marks, order', |nodes|) && FramesBelow(stack, |nodes|)
      invariant RunFrames(kids, stack, order') == T.Finish(kids, root, order)
      decreases FrameWork(kids, stack)
    {
      var top, rest := stack[|stack| - 1], stack[..|stack| - 1];
      assert stack == rest + [top];
      stack, order' := RunFrame(nodes, top, rest, marks, order');
    }
  }

  /** The expressions reachable from the roots, one traversal for all. */
  method PostorderMany(m: AstManager, roots: seq<Id>, marks: VisitMarks) returns (order: seq<Id>)
    requires m.Valid() && marks.Valid() && Older(roots, |m.nodes|)
    modifies marks
    ensures marks.Valid() && PostorderOf(m.nodes, roots, order)
    ensures m.Terms(order) == T.FirstOnes(TermsOrder(m.Terms(roots)), [])
    ensures forall n: Id :: n < |m.nodes| ==> (n in order <==> WithinSome(m.nodes, m.families, roots, n))
  {
    var nodes := m.nodes;
    ghost var kids := LastFirst(nodes);
    LastFirstAcyclic(nodes);
    assert T.Below(roots, |nodes|);
    marks.Fresh(|nodes|);
    order := [];
    for r := 0 to |roots|
      invariant MarksAre(marks, order, |nodes|)
      invariant T.FinishAll(kids, roots[r..], |nodes|, order) == T.FinishAll(kids, roots, |nodes|, [])
    {
      assert roots[r..][0] == roots[r] && roots[r..][1..] == roots[r + 1..];
      order := PostorderFrom(nodes, roots[r], marks, order);
    }
    assert roots[|roots|..] == [];
    PostorderTerms(m.nodes, m.families, roots, order);
    PostorderOrder(m.nodes, m.families, roots, order);
  }

  /** The order in which a recursive traversal finishes what the roots reach. */
  ghost predicate PostorderOf(nodes: seq<Stored>, roots: seq<Id>, order: seq<Id>) {
    && T.Acyclic(LastFirst(nodes)) && T.Below(roots, |nodes|) && Older(order, |nodes|)
    && order == T.FinishAll(LastFirst(nodes), roots, |nodes|, [])
  }

  /** Each reachable expression once, children before parents, and root by root with repeats dropped. */
  lemma {:induction false} PostorderLists(nodes: seq<Stored>, roots: seq<Id>, order: seq<Id>)
    requires PostorderOf(nodes, roots, order)
    ensures T.Ordered(LastFirst(nodes), order)
    ensures forall x :: x in order <==> T.ReachesAny(LastFirst(nodes), roots, x)
    ensures order == T.FirstOnes(T.OneByOne(LastFirst(nodes), roots), [])
  {
    var kids := LastFirst(nodes);
    T.FinishAllOrdered(kids, roots, |nodes|, []);
    forall x ensures x in order <==> T.ReachesAny(kids, roots, x) {
      T.FinishAllReaches(kids, roots, |nodes|, [], x);
    }
    T.ManyRoots(kids, roots, |nodes|, []);
  }

  // ----- what is listed, by unfolded terms -----

  /** `u` is the expression `t` or within it: below an application's arguments, or a quantifier's body. */
  ghost predicate SubExpr(t: Tree, u: Tree)
    decreases t
  {
    t == u ||
    match t.top.shape
    case App(_, _) => exists i :: 1 <= i < |t.kids| && SubExpr(t.kids[i], u)
    case Quantifier(_, varSorts, _, _, _, _, _) => |varSorts| < |t.kids| && SubExpr(t.kids[|varSorts|], u)
    case _ => false
  }

  /** The height of an expression, a leaf's being 1. */
  ghost function Height(t: Tree): nat
    decreases t
  {
    match t.top.shape
    case App(_, _) => 1 + MaxHeight(t.kids, |t.kids|)
    case Quantifier(_, varSorts, _, _, _, _, _) => 1 + if |varSorts| < |t.kids| then Height(t.kids[|varSorts|]) else 0
    case _ => 1
  }

  /** The greatest height among the first `k` trees, but for the declaration in front. */
  ghost function MaxHeight(ts: seq<Tree>, k: nat): nat
    requires k <= |ts|
    decreases ts, k
  {
    if k <= 1 then 0
    else
      var m, h := MaxHeight(ts, k - 1), Height(ts[k - 1]);
      if m < h then h else m
  }

  /** The trees of the arguments follow that of the declaration. */
  lemma {:induction false} ArgTrees(nodes: seq<Stored>, families: seq<Symbol>, n: Id)
    requires Acyclic(nodes) && n < |nodes| && nodes[n].node.App?
    ensures Unfold(nodes, families, n).top.shape.App? && |Unfold(nodes, families, n).kids| == |nodes[n].node.args| + 1
  {
    assert |Kids(nodes[n].node)| == |nodes[n].node.args| + 1 > 0;
    KidTree(nodes, families, n, 0);
  }

  lemma {:induction false} ArgTree(nodes: seq<Stored>, families: seq<Symbol>, n: Id, i: nat)
    requires Acyclic(nodes) && n < |nodes| && nodes[n].node.App? && i < |nodes[n].node.args|
    ensures var t, a := Unfold(nodes, families, n), nodes[n].node.args[i];
      a < n && |t.kids| > i + 1 && t.kids[i + 1] == Unfold(nodes, families, a)
  {
    assert Kids(nodes[n].node)[i + 1] == nodes[n].node.args[i];
    KidTree(nodes, families, n, i + 1);
  }

  lemma {:induction false} BodyTree(nodes: seq<Stored>, families: seq<Symbol>, n: Id)
    requires Acyclic(nodes) && n < |nodes| && nodes[n].node.Quantifier?
    ensures var t, v := Unfold(nodes, families, n), |nodes[n].node.varSorts|;
      && t.top.shape.Quantifier? && |t.top.shape.varSorts| == v < |t.kids|
      && nodes[n].node.body < n && t.kids[v] == Unfold(nodes, families, nodes[n].node.body)
  {
    var v := |nodes[n].node.varSorts|;
    assert Kids(nodes[n].node)[v] == nodes[n].node.body;
    KidTree(nodes, families, n, v);
  }

  /** What an expression reaches are the expressions within it. */
  lemma {:induction false} ReachesWithin(nodes: seq<Stored>, families: seq<Symbol>, root: Id, n: Id)
    requires GraphOk(nodes, families) && T.Acyclic(LastFirst(nodes)) && root < |nodes| && n < |nodes|
    ensures T.Reaches(LastFirst(nodes), root, n) <==> SubExpr(Unfold(nodes, families, root), Unfold(nodes, families, n))
  {
    if T.Reaches(LastFirst(nodes), root, n) {
      ReachedIsWithin(nodes, families, root, n);
    }
    if SubExpr(Unfold(nodes, families, root), Unfold(nodes, families, n)) {
      WithinIsReached(nodes, families, root, n);
    }
  }

  lemma {:induction false} ReachedIsWithin(nodes: seq<Stored>, families: seq<Symbol>, root: Id, n: Id)
    requires Acyclic(nodes) && T.Acyclic(LastFirst(nodes)) && root < |nodes| && n < |nodes|
    requires T.Reaches(LastFirst(nodes), root, n)
    ensures SubExpr(Unfold(nodes, families, root), Unfold(nodes, families, n))
    decreases root
  {
    if root != n {
      var kids, children := LastFirst(nodes)(root), ExprChildren(nodes, root);
      var i :| 0 <= i < |kids| && T.Reaches(LastFirst(nodes), kids[i], n);
      ReversedHas(children, kids[i]);
      var k :| 0 <= k < |children| && children[k] == kids[i];
      ChildrenOlder(nodes, root);
      ReachedIsWithin(nodes, families, children[k], n);
      ChildWithin(nodes, families, root, k, Unfold(nodes, families, n));
    }
  }

  lemma {:induction false} ChildWithin(nodes: seq<Stored>, families: seq<Symbol>, root: Id, k: nat, u: Tree)
    requires Acyclic(nodes) && root < |nodes| && k < |ExprChildren(nodes, root)| && ExprChildren(nodes, root)[k] < |nodes|
    requires SubExpr(Unfold(nodes, families, ExprChildren(nodes, root)[k]), u)
    ensures SubExpr(Unfold(nodes, families, root), u)
  {
    if nodes[root].node.App? {
      ArgTrees(nodes, families, root);
      ArgTree(nodes, families, root, k);
      AppHas(Unfold(nodes, families, root), k + 1, u);
    } else {
      BodyTree(nodes, families, root);
    }
  }

  lemma {:induction false} AppHas(t: Tree, i: nat, u: Tree)
    requires t.top.shape.App? && 1 <= i < |t.kids| && SubExpr(t.kids[i], u)
    ensures SubExpr(t, u)
  {
  }

  lemma {:induction false} AppHasIn(t: Tree, u: Tree) returns (i: nat)
    requires t.top.shape.App? && SubExpr(t, u) && t != u
    ensures 1 <= i < |t.kids| && SubExpr(t.kids[i], u)
  {
    i :| 1 <= i < |t.kids| && SubExpr(t.kids[i], u);
  }

  lemma {:induction false} WithinIsReached(nodes: seq<Stored>, families: seq<Symbol>, root: Id, n: Id)
    requires GraphOk(nodes, families) && T.Acyclic(LastFirst(nodes)) && root < |nodes| && n < |nodes|
    requires SubExpr(Unfold(nodes, families, root), Unfold(nodes, families, n))
    ensures T.Reaches(LastFirst(nodes), root, n)
    decreases root
  {
    MaximalSharing(nodes, families, root, n);
    if root != n {
      var k := ChildHolding(nodes, families, root, Unfold(nodes, families, n));
      var kids, children := LastFirst(nodes)(root), ExprChildren(nodes, root);
      WithinIsReached(nodes, families, children[k], n);
      ReversedHas(children, children[k]);
      var i :| 0 <= i < |kids| && kids[i] == children[k];
      assert T.Reaches(LastFirst(nodes), kids[i], n);
    }
  }

  lemma {:induction false} ChildHolding(nodes: seq<Stored>, families: seq<Symbol>, root: Id, u: Tree) returns (k: nat)
    requires Acyclic(nodes) && root < |nodes|
    requires SubExpr(Unfold(nodes, families, root), u) && Unfold(nodes, families, root) != u
    ensures k < |ExprChildren(nodes, root)| && ExprChildren(nodes, root)[k] < root
    ensures SubExpr(Unfold(nodes, families, ExprChildren(nodes, root)[k]), u)
  {
    var t := Unfold(nodes, families, root);
    if nodes[root].node.App? {
      k := ArgHolding(nodes, families, root, u);
    } else if nodes[root].node.Quantifier? {
      BodyTree(nodes, families, root);
      QuantifierHasIn(t, u);
      k := 0;
    } else {
      ShapeKept(nodes, families, root);
      NothingWithin(t, u);
      assert false;
    }
  }

  lemma {:induction false} ArgHolding(nodes: seq<Stored>, families: seq<Symbol>, root: Id, u: Tree) returns (k: nat)
    requires Acyclic(nodes) && root < |nodes| && nodes[root].node.App?
    requires SubExpr(Unfold(nodes, families, root), u) && Unfold(nodes, families, root) != u
    ensures k < |nodes[root].node.args| && nodes[root].node.args[k] < root
    ensures SubExpr(Unfold(nodes, families, nodes[root].node.args[k]), u)
  {
    ArgTrees(nodes, families, root);
    var i := AppHasIn(Unfold(nodes, families, root), u);
    k := i - 1;
    ArgTree(nodes, families, root, k);
  }

  lemma {:induction false} QuantifierHasIn(t: Tree, u: Tree)
    requires t.top.shape.Quantifier? && SubExpr(t, u) && t != u
    ensures |t.top.shape.varSorts| < |t.kids| && SubExpr(t.kids[|t.top.shape.varSorts|], u)
  {
  }

  lemma {:induction false} ShapeKept(nodes: seq<Stored>, families: seq<Symbol>, n: Id)
    requires Acyclic(nodes) && n < |nodes|
    ensures var shape, node := Unfold(nodes, families, n).top.shape, nodes[n].node;
      (shape.App? <==> node.App?) && (shape.Quantifier? <==> node.Quantifier?)
  {
  }

  lemma {:induction false} NothingWithin(t: Tree, u: Tree)
    requires !t.top.shape.App? && !t.top.shape.Quantifier?
    ensures (SubExpr(t, u) <==> t == u) && Height(t) == 1
  {
  }

  ghost predicate WithinSome(nodes: seq<Stored>, families: seq<Symbol>, roots: seq<Id>, n: Id)
    requires Acyclic(nodes) && Older(roots, |nodes|) && n < |nodes|
  {
    exists i :: 0 <= i < |roots| && SubExpr(Unfold(nodes, families, roots[i]), Unfold(nodes, families, n))
  }

  /** Listed are exactly the expressions within some root, and what is within an expression comes no later. */
  lemma {:induction false} PostorderTerms(nodes: seq<Stored>, families: seq<Symbol>, roots: seq<Id>, order: seq<Id>)
    requires GraphOk(nodes, families) && PostorderOf(nodes, roots, order) && Older(roots, |nodes|)
    ensures forall n: Id :: n < |nodes| ==> (n in order <==> WithinSome(nodes, families, roots, n))
    ensures forall i, j :: 0 <= i < |order| && 0 <= j < |order| ==>
      SubExpr(Unfold(nodes, families, order[i]), Unfold(nodes, families, order[j])) ==> j <= i
  {
    var kids := LastFirst(nodes);
    PostorderLists(nodes, roots, order);
    forall n: Id | n < |nodes| ensures n in order <==> WithinSome(nodes, families, roots, n) {
      forall i | 0 <= i < |roots|
        ensures T.Reaches(kids, roots[i], n) <==> SubExpr(Unfold(nodes, families, roots[i]), Unfold(nodes, families, n))
      {
        ReachesWithin(nodes, families, roots[i], n);
      }
      assert n in order <==> T.ReachesAny(kids, roots, n);
    }
    forall i, j | 0 <= i < |order| && 0 <= j < |order|
      && SubExpr(Unfold(nodes, families, order[i]), Unfold(nodes, families, order[j])) ensures j <= i
    {
      ReachesWithin(nodes, families, order[i], order[j]);
      T.ReachedBefore(kids, order, i, order[j]);
    }
  }

  // ----- the order of the list, by unfolded terms -----

  /** The expressions within the term, repeats included, the term last. */
  ghost function TermOrder(t: Tree): seq<Tree>
    decreases t, 1, 0
  {
    InnerOrder(t) + [t]
  }

  /** Those of an application's arguments, from the last to the first, or of a quantifier's body. */
  ghost function InnerOrder(t: Tree): seq<Tree>
    decreases t, 0, 0
  {
    match t.top.shape
    case App(_, _) => ArgsOrder(t.kids, |t.kids|)
    case Quantifier(_, varSorts, _, _, _, _, _) => if |varSorts| < |t.kids| then TermOrder(t.kids[|varSorts|]) else []
    case _ => []
  }

  /** Those of the first `k` trees, but for the declaration in front. */
  ghost function ArgsOrder(ts: seq<Tree>, k: nat): seq<Tree>
    requires k <= |ts|
    decreases ts, 2, k
  {
    if k <= 1 then [] else TermOrder(ts[k - 1]) + ArgsOrder(ts, k - 1)
  }

  ghost function TermsOrder(ts: seq<Tree>): seq<Tree> {
    if ts == [] then [] else TermOrder(ts[0]) + TermsOrder(ts[1..])
  }

  ghost function TermsOf(nodes: seq<Stored>, families: seq<Symbol>, ids: seq<Id>): seq<Tree>
    requires Acyclic(nodes) && Older(ids, |nodes|)
  {
    UnfoldAll(nodes, families, ids, |nodes|)
  }

  lemma {:induction false} TermsAppend(nodes: seq<Stored>, families: seq<Symbol>, a: seq<Id>, b: seq<Id>)
    requires Acyclic(nodes) && Older(a, |nodes|) && Older(b, |nodes|)
    ensures Older(a + b, |nodes|)
    ensures TermsOf(nodes, families, a + b) == TermsOf(nodes, families, a) + TermsOf(nodes, families, b)
  {
  }

  lemma {:induction false} TermsOfOne(nodes: seq<Stored>, families: seq<Symbol>, n: Id)
    requires Acyclic(nodes) && n < |nodes|
    ensures TermsOf(nodes, families, [n]) == [Unfold(nodes, families, n)]
  {
  }

  /** The node's flat traversal has the order of its term. */
  lemma {:induction false} FlatTerms(nodes: seq<Stored>, families: seq<Symbol>, n: Id)
    requires Acyclic(nodes) && T.Acyclic(LastFirst(nodes)) && n < |nodes|
    ensures TermsOf(nodes, families, T.Flat(LastFirst(nodes), n)) == TermOrder(Unfold(nodes, families, n))
    decreases n, 1
  {
    var kids := LastFirst(nodes);
    TermsAppend(nodes, families, T.FlatAll(kids, kids(n), n), [n]);
    TermsOfOne(nodes, families, n);
    if nodes[n].node.App? {
      AppFlat(nodes, families, n);
    } else if nodes[n].node.Quantifier? {
      BodyFlat(nodes, families, n);
    } else {
      ShapeKept(nodes, families, n);
    }
  }

  lemma {:induction false} AppFlat(nodes: seq<Stored>, families: seq<Symbol>, n: Id)
    requires Acyclic(nodes) && T.Acyclic(LastFirst(nodes)) && n < |nodes| && nodes[n].node.App?
    ensures var kids := LastFirst(nodes);
      TermsOf(nodes, families, T.FlatAll(kids, kids(n), n)) == InnerOrder(Unfold(nodes, families, n))
    decreases n, 0
  {
    var kids, t, args := LastFirst(nodes), Unfold(nodes, families, n), nodes[n].node.args;
    ArgTrees(nodes, families, n);
    forall i | 0 <= i < |args|
      ensures args[i] < n && TermsOf(nodes, families, T.Flat(kids, args[i])) == TermOrder(t.kids[i + 1])
    {
      ArgTree(nodes, families, n, i);
      FlatTerms(nodes, families, args[i]);
    }
    ArgsFlat(nodes, families, args, n, t.kids, |args|);
    assert args[..|args|] == args;
  }

  lemma {:induction false} BodyFlat(nodes: seq<Stored>, families: seq<Symbol>, n: Id)
    requires Acyclic(nodes) && T.Acyclic(LastFirst(nodes)) && n < |nodes| && nodes[n].node.Quantifier?
    ensures var kids := LastFirst(nodes);
      TermsOf(nodes, families, T.FlatAll(kids, kids(n), n)) == InnerOrder(Unfold(nodes, families, n))
    decreases n, 0
  {
    var kids, body := LastFirst(nodes), nodes[n].node.body;
    BodyTree(nodes, families, n);
    FlatTerms(nodes, families, body);
    OneReversed(body);
    assert kids(n) == [body];
    OneFlat(kids, body, n);
  }

  lemma {:induction false} OneReversed(c: Id)
    ensures Reversed([c]) == [c]
  {
    assert [c][..0] == [];
  }

  lemma {:induction false} OneFlat(kids: T.Arcs, c: Id, n: nat)
    requires T.Acyclic(kids) && c < n
    ensures T.FlatAll(kids, [c], n) == T.Flat(kids, c)
  {
    assert T.FlatAll(kids, [c][1..], n) == [];
  }

  lemma {:induction false} ArgsFlat(nodes: seq<Stored>, families: seq<Symbol>, args: seq<Id>, n: nat, ts: seq<Tree>, k: nat)
    requires Acyclic(nodes) && T.Acyclic(LastFirst(nodes)) && n <= |nodes| && T.Below(args, n) && k <= |args| == |ts| - 1
    requires forall i :: 0 <= i < |args| ==> TermsOf(nodes, families, T.Flat(LastFirst(nodes), args[i])) == TermOrder(ts[i + 1])
    ensures T.Below(Reversed(args[..k]), n)
    ensures TermsOf(nodes, families, T.FlatAll(LastFirst(nodes), Reversed(args[..k]), n)) == ArgsOrder(ts, k + 1)
  {
    var kids := LastFirst(nodes);
    if k == 0 {
      assert args[..0] == [];
    } else {
      ArgsFlat(nodes, families, args, n, ts, k - 1);
      assert args[..k][..k - 1] == args[..k - 1];
      var rest := Reversed(args[..k - 1]);
      assert Reversed(args[..k]) == [args[k - 1]] + rest && ([args[k - 1]] + rest)[1..] == rest;
      TermsAppend(nodes, families, T.Flat(kids, args[k - 1]), T.FlatAll(kids, rest, n));
      assert TermsOf(nodes, families, T.Flat(kids, args[k - 1])) == TermOrder(ts[k - 1 + 1]);
    }
  }

  lemma {:induction false} FlatAllTerms(nodes: seq<Stored>, families: seq<Symbol>, roots: seq<Id>)
    requires Acyclic(nodes) && T.Acyclic(LastFirst(nodes)) && Older(roots, |nodes|)
    ensures TermsOf(nodes, families, T.FlatAll(LastFirst(nodes), roots, |nodes|)) == TermsOrder(TermsOf(nodes, families, roots))
  {
    if roots != [] {
      FlatTerms(nodes, families, roots[0]);
      FlatAllTerms(nodes, families, roots[1..]);
      TermsAppend(nodes, families, T.Flat(LastFirst(nodes), roots[0]), T.FlatAll(LastFirst(nodes), roots[1..], |nodes|));
      TermsAppend(nodes, families, [roots[0]], roots[1..]);
      TermsOfOne(nodes, families, roots[0]);
      assert [roots[0]] + roots[1..] == roots;
    }
  }

  /** Dropping repeats among nodes is dropping them among terms, because terms are shared maximally. */
  lemma {:induction false} FirstTerms(nodes: seq<Stored>, families: seq<Symbol>, s: seq<Id>, seen: seq<Id>)
    requires GraphOk(nodes, families) && Older(s, |nodes|) && Older(seen, |nodes|)
    ensures Older(T.FirstOnes(s, seen), |nodes|)
    ensures TermsOf(nodes, families, T.FirstOnes(s, seen))
      == T.FirstOnes(TermsOf(nodes, families, s), TermsOf(nodes, families, seen))
    decreases |s|
  {
    if s != [] {
      var x := s[0];
      KnownTerm(nodes, families, x, seen);
      TermsAppend(nodes, families, [x], s[1..]);
      TermsAppend(nodes, families, seen, [x]);
      TermsOfOne(nodes, families, x);
      assert [x] + s[1..] == s;
      FirstTerms(nodes, families, s[1..], if x in seen then seen else seen + [x]);
    }
  }

  lemma {:induction false} KnownTerm(nodes: seq<Stored>, families: seq<Symbol>, x: Id, seen: seq<Id>)
    requires GraphOk(nodes, families) && x < |nodes| && Older(seen, |nodes|)
    ensures x in seen <==> Unfold(nodes, families, x) in TermsOf(nodes, families, seen)
  {
    var ts := TermsOf(nodes, families, seen);
    if x in seen {
      var i :| 0 <= i < |seen| && seen[i] == x;
      assert ts[i] == Unfold(nodes, families, seen[i]);
    }
    if Unfold(nodes, families, x) in ts {
      var i :| 0 <= i < |ts| && ts[i] == Unfold(nodes, families, x);
      MaximalSharing(nodes, families, x, seen[i]);
    }
  }

  /** Unfolded, the list is the order of the roots' terms with repeats dropped. */
  lemma {:induction false} PostorderOrder(nodes: seq<Stored>, families: seq<Symbol>, roots: seq<Id>, order: seq<Id>)
    requires GraphOk(nodes, families) && PostorderOf(nodes, roots, order) && Older(roots, |nodes|)
    ensures TermsOf(nodes, families, order) == T.FirstOnes(TermsOrder(TermsOf(nodes, families, roots)), [])
  {
    var kids := LastFirst(nodes);
    T.FinishAllFlat(kids, roots, |nodes|, []);
    FlatAllTerms(nodes, families, roots);
    FirstTerms(nodes, families, T.FlatAll(kids, roots, |nodes|), []);
  }

  /** The depth is the height of the unfolded expression. */
  lemma {:induction false} DepthIsHeight(nodes: seq<Stored>, families: seq<Symbol>, n: Id)
    requires Acyclic(nodes) && n < |nodes|
    ensures Depth(nodes, n) == Height(Unfold(nodes, families, n))
    decreases n, 1, 0
  {
    DepthIs(nodes, n);
    var t := Unfold(nodes, families, n);
    if nodes[n].node.App? {
      var args := nodes[n].node.args;
      ArgTrees(nodes, families, n);
      forall k | 0 <= k < |args| ensures Depth(nodes, args[k]) == Height(t.kids[k + 1]) {
        ArgHeight(nodes, families, n, t.kids, k);
      }
      ArgsHeight(nodes, args, n, t.kids, |args|);
      assert args[..|args|] == args;
      AppHeight(t);
    } else if nodes[n].node.Quantifier? {
      BodyTree(nodes, families, n);
      DepthIsHeight(nodes, families, nodes[n].node.body);
      OneDepth(nodes, nodes[n].node.body, n);
      QuantifierHeight(t);
    } else {
      ShapeKept(nodes, families, n);
      NothingWithin(t, t);
    }
  }

  lemma {:induction false} AppHeight(t: Tree)
    requires t.top.shape.App?
    ensures Height(t) == 1 + MaxHeight(t.kids, |t.kids|)
  {
  }

  lemma {:induction false} QuantifierHeight(t: Tree)
    requires t.top.shape.Quantifier? && |t.top.shape.varSorts| < |t.kids|
    ensures Height(t) == 1 + Height(t.kids[|t.top.shape.varSorts|])
  {
  }

  lemma {:induction false} OneDepth(nodes: seq<Stored>, c: Id, n: nat)
    requires Acyclic(nodes) && c < n
    ensures MaxDepth(nodes, [c], n) == Depth(nodes, c)
  {
    assert [c][..0] == [];
  }

  lemma {:induction false} ArgsHeight(nodes: seq<Stored>, args: seq<Id>, n: nat, ts: seq<Tree>, k: nat)
    requires Acyclic(nodes) && T.Below(args, n) && k <= |args| == |ts| - 1
    requires forall i :: 0 <= i < |args| ==> Depth(nodes, args[i]) == Height(ts[i + 1])
    ensures MaxDepth(nodes, args[..k], n) == MaxHeight(ts, k + 1)
  {
    if k == 0 {
      assert args[..0] == [];
    } else {
      ArgsHeight(nodes, args, n, ts, k - 1);
      assert Depth(nodes, args[k - 1]) == Height(ts[k - 1 + 1]);
      ArgsHeightMore(nodes, args, n, ts, k - 1);
    }
  }

  lemma {:induction false} ArgsHeightMore(nodes: seq<Stored>, args: seq<Id>, n: nat, ts: seq<Tree>, k: nat)
    requires Acyclic(nodes) && T.Below(args, n) && k < |args| == |ts| - 1
    requires MaxDepth(nodes, args[..k], n) == MaxHeight(ts, k + 1) && Depth(nodes, args[k]) == Height(ts[k + 1])
    ensures MaxDepth(nodes, args[..k + 1], n) == MaxHeight(ts, k + 2)
  {
    MaxDepthSnoc(nodes, args, k, n);
    MaxHeightSnoc(ts, k + 1);
  }

  lemma {:induction false} MaxHeightSnoc(ts: seq<Tree>, k: nat)
    requires 1 <= k < |ts|
    ensures var m, h := MaxHeight(ts, k), Height(ts[k]);
      MaxHeight(ts, k + 1) == if m < h then h else m
  {
  }

  lemma {:induction false} ArgHeight(nodes: seq<Stored>, families: seq<Symbol>, n: Id, ts: seq<Tree>, k: nat)
    requires Acyclic(nodes) && n < |nodes| && nodes[n].node.App? && k < |nodes[n].node.args|
    requires ts == Unfold(nodes, families, n).kids && |ts| == |nodes[n].node.args| + 1
    ensures Depth(nodes, nodes[n].node.args[k]) == Height(ts[k + 1])
    decreases n, 0, 0
  {
    ArgTree(nodes, families, n, k);
    DepthIsHeight(nodes, families, nodes[n].node.args[k]);
  }

  // ----- left-to-right postorder with frames (node, next argument) -----

  datatype ArgFrame = ArgFrame(id: Id, next: nat)

  ghost predicate ArgFramesOk(kids: T.Arcs, stack: seq<ArgFrame>) {
    forall i :: 0 <= i < |stack| ==> stack[i].next <= |kids(stack[i].id)|
  }

  lemma {:induction false} TailBelow(kids: T.Arcs, n: Id, i: nat)
    requires T.Acyclic(kids) && i <= |kids(n)|
    ensures T.Below(kids(n)[i..], n)
  {
    assert T.Below(kids(n), n);
  }

  /** What resuming the frames makes of the order. */
  ghost function Resume(kids: T.Arcs, stack: seq<ArgFrame>, order: seq<Id>): seq<Id>
    requires T.Acyclic(kids) && ArgFramesOk(kids, stack)
    decreases |stack|
  {
    if stack == [] then order
    else
      var top := stack[|stack| - 1];
      TailBelow(kids, top.id, top.next);
      Resume(kids, stack[..|stack| - 1], T.FinishAll(kids, kids(top.id)[top.next..], top.id, order) + [top.id])
  }

  ghost function ArgWork(kids: T.Arcs, stack: seq<ArgFrame>): nat
    requires T.Acyclic(kids) && ArgFramesOk(kids, stack)
    decreases |stack|
  {
    if stack == [] then 0
    else
      var top := stack[|stack| - 1];
      TailBelow(kids, top.id, top.next);
      ArgWork(kids, stack[..|stack| - 1]) + 1 + T.WorkAll(kids, kids(top.id)[top.next..], top.id)
  }

  lemma {:induction false} ArgPushed(kids: T.Arcs, base: seq<ArgFrame>, f: ArgFrame, order: seq<Id>)
    requires T.Acyclic(kids) && ArgFramesOk(kids, base) && f.next <= |kids(f.id)|
    ensures ArgFramesOk(kids, base + [f]) && T.Below(kids(f.id)[f.next..], f.id)
    ensures Resume(kids, base + [f], order)
      == Resume(kids, base, T.FinishAll(kids, kids(f.id)[f.next..], f.id, order) + [f.id])
    ensures ArgWork(kids, base + [f]) == ArgWork(kids, base) + 1 + T.WorkAll(kids, kids(f.id)[f.next..], f.id)
  {
    assert (base + [f])[..|base|] == base;
    TailBelow(kids, f.id, f.next);
  }

  /** The stack is a path downwards of nodes not yet finished; the nodes seen are those finished and those on it. */
  ghost predicate PathOk(stack: seq<ArgFrame>, entered: seq<bool>, enter: Id -> bool, seen: set<Id>, order: seq<Id>, n: nat) {
    && |entered| == |stack| && (forall i :: 0 <= i < |stack| ==> stack[i].id < n && entered[i] == enter(stack[i].id))
    && (forall i, j :: 0 <= i < j < |stack| ==> stack[j].id < stack[i].id)
    && (forall i :: 0 <= i < |stack| ==> stack[i].id !in order)
    && (forall x: Id :: x in seen <==> x in order || OnPath(stack, x))
  }

  ghost predicate OnPath(stack: seq<ArgFrame>, x: Id) {
    exists i :: 0 <= i < |stack| && stack[i].id == x
  }

  /** The next argument is skipped when seen, because it is finished, and else pushed. */
  lemma {:induction false} NextArg(kids: T.Arcs, base: seq<ArgFrame>, id: Id, i: nat, order: seq<Id>)
    requires T.Acyclic(kids) && ArgFramesOk(kids, base) && i < |kids(id)|
    ensures var c := kids(id)[i];
      && ArgFramesOk(kids, base + [ArgFrame(id, i)]) && ArgFramesOk(kids, base + [ArgFrame(id, i + 1)])
      && ArgFramesOk(kids, base + [ArgFrame(id, i + 1), ArgFrame(c, 0)])
      && (c in order ==> Resume(kids, base + [ArgFrame(id, i + 1)], order) == Resume(kids, base + [ArgFrame(id, i)], order))
      && (c !in order ==> Resume(kids, base + [ArgFrame(id, i + 1), ArgFrame(c, 0)], order)
                          == Resume(kids, base + [ArgFrame(id, i)], order))
      && ArgWork(kids, base + [ArgFrame(id, i + 1)]) < ArgWork(kids, base + [ArgFrame(id, i)])
      && ArgWork(kids, base + [ArgFrame(id, i + 1), ArgFrame(c, 0)]) < ArgWork(kids, base + [ArgFrame(id, i)])
  {
    var c := kids(id)[i];
    assert kids(id)[i..][0] == c && kids(id)[i..][1..] == kids(id)[i + 1..];
    ArgPushed(kids, base, ArgFrame(id, i), order);
    ArgPushed(kids, base, ArgFrame(id, i + 1), order);
    var more := base + [ArgFrame(id, i + 1)];
    assert base + [ArgFrame(id, i + 1), ArgFrame(c, 0)] == more + [ArgFrame(c, 0)];
    ArgPushed(kids, more, ArgFrame(c, 0), order);
    assert kids(c)[0..] == kids(c);
    ArgPushed(kids, base, ArgFrame(id, i + 1), T.Finish(kids, c, order));
  }

  lemma {:induction false} PathSeen(stack: seq<ArgFrame>, entered: seq<bool>, enter: Id -> bool, seen: set<Id>, order: seq<Id>,
                                    n: nat, c: Id)
    requires PathOk(stack, entered, enter, seen, order, n) && |stack| > 0 && c < stack[|stack| - 1].id
    ensures c in seen <==> c in order
  {
  }

  /** The nodes finished, in the order of a recursive left-to-right traversal. */
  method PostorderLtr(m: AstManager, root: Id, enter: Id -> bool) returns (order: seq<Id>)
    requires m.Valid() && root < |m.nodes|
    ensures T.Acyclic(FirstFirst(m.nodes, enter)) && order == T.Finish(FirstFirst(m.nodes, enter), root, [])
  {
    FirstFirstAcyclic(m.nodes, enter);
    order := LtrFrom(m.nodes, root, enter);
  }

  method LtrFrom(nodes: seq<Stored>, root: Id, enter: Id -> bool) returns (order: seq<Id>)
    requires T.Acyclic(FirstFirst(nodes, enter)) && root < |nodes|
    ensures order == T.Finish(FirstFirst(nodes, enter), root, [])
  {
    ghost var kids := FirstFirst(nodes, enter);
    order := [];
    var seen: set<Id> := {root};
    var stack := [ArgFrame(root, 0)];
    var entered := [enter(root)];
    LtrStart(nodes, root, enter);
    while stack != []
      invariant ArgFramesOk(kids, stack) && Resume(kids, stack, order) == T.Finish(kids, root, [])
      invariant PathOk(stack, entered, enter, seen, order, |nodes|)
      decreases ArgWork(kids, stack)
    {
      stack, entered, seen, order := RunArgFrame(nodes, stack, entered, enter, seen, order);
    }
  }

  lemma {:induction false} LtrStart(nodes: seq<Stored>, root: Id, enter: Id -> bool)
    requires T.Acyclic(FirstFirst(nodes, enter)) && root < |nodes|
    ensures ArgFramesOk(FirstFirst(nodes, enter), [ArgFrame(root, 0)])
    ensures Resume(FirstFirst(nodes, enter), [ArgFrame(root, 0)], []) == T.Finish(FirstFirst(nodes, enter), root, [])
    ensures PathOk([ArgFrame(root, 0)], [enter(root)], enter, {root}, [], |nodes|)
  {
    ResumeStart(FirstFirst(nodes, enter), root);
    assert [ArgFrame(root, 0)][0].id == root;
  }

  lemma {:induction false} ResumeStart(kids: T.Arcs, root: Id)
    requires T.Acyclic(kids)
    ensures ArgFramesOk(kids, [ArgFrame(root, 0)]) && Resume(kids, [ArgFrame(root, 0)], []) == T.Finish(kids, root, [])
  {
    var f := ArgFrame(root, 0);
    ArgPushed(kids, [], f, []);
    assert [] + [f] == [f] && kids(root)[0..] == kids(root);
  }

  /** The next argument of the last frame, or the end of that frame. */
  method RunArgFrame(nodes: seq<Stored>, stack: seq<ArgFrame>, entered: seq<bool>, enter: Id -> bool, seen: set<Id>, order: seq<Id>)
    returns (stack': seq<ArgFrame>, entered': seq<bool>, seen': set<Id>, order': seq<Id>)
    requires T.Acyclic(FirstFirst(nodes, enter)) && ArgFramesOk(FirstFirst(nodes, enter), stack) && stack != []
    requires PathOk(stack, entered, enter, seen, order, |nodes|)
    ensures ArgFramesOk(FirstFirst(nodes, enter), stack') && PathOk(stack', entered', enter, seen', order', |nodes|)
    ensures Resume(FirstFirst(nodes, enter), stack', order') == Resume(FirstFirst(nodes, enter), stack, order)
    ensures ArgWork(FirstFirst(nodes, enter), stack') < ArgWork(FirstFirst(nodes, enter), stack)
  {
    ghost var kids := FirstFirst(nodes, enter);
    var top, base := stack[|stack| - 1], stack[..|stack| - 1];
    assert stack == base + [top];
    var node := nodes[top.id].node;
    stack', entered', seen', order' := stack, entered, seen, order;
    if node.App? && entered[|entered| - 1] && top.next < |node.args| {
      var c := node.args[top.next];
      assert kids(top.id) == node.args;
      ArgTaken(kids, base, top, entered, enter, seen, order, |nodes|);
      stack' := base + [ArgFrame(top.id, top.next + 1)];
      if c !in seen {
        seen' := seen + {c};
        stack' := base + [ArgFrame(top.id, top.next + 1), ArgFrame(c, 0)];
        entered' := entered + [enter(c)];
      }
    } else {
      BaseOk(kids, base, top);
      assert kids(top.id)[top.next..] == [];
      ArgPushed(kids, base, top, order);
      stack' := base;
      entered' := entered[..|entered| - 1];
      order' := order + [top.id];
      PathUp(base, top, entered, enter, seen, order, |nodes|);
    }
  }

  /** Taking the next argument: seen already, it is skipped; else it is the new end of the path. */
  lemma {:induction false} ArgTaken(kids: T.Arcs, base: seq<ArgFrame>, top: ArgFrame, entered: seq<bool>, enter: Id -> bool,
                                    seen: set<Id>, order: seq<Id>, n: nat)
    requires T.Acyclic(kids) && ArgFramesOk(kids, base + [top]) && top.next < |kids(top.id)|
    requires PathOk(base + [top], entered, enter, seen, order, n)
    ensures var c := kids(top.id)[top.next];
      var stack' := if c in seen then base + [ArgFrame(top.id, top.next + 1)]
                    else base + [ArgFrame(top.id, top.next + 1), ArgFrame(c, 0)];
      && ArgFramesOk(kids, stack') && Resume(kids, stack', order) == Resume(kids, base + [top], order)
      && ArgWork(kids, stack') < ArgWork(kids, base + [top])
      && (if c in seen then PathOk(stack', entered, enter, seen, order, n)
          else PathOk(stack', entered + [enter(c)], enter, seen + {c}, order, n))
  {
    var c := kids(top.id)[top.next];
    assert T.Below(kids(top.id), top.id) && (base + [top])[|base|] == top;
    BaseOk(kids, base, top);
    NextArg(kids, base, top.id, top.next, order);
    PathSeen(base + [top], entered, enter, seen, order, n, c);
    if c in seen {
      PathAlong(base, top, entered, enter, seen, order, n);
    } else {
      PathDown(base, top, c, entered, enter, seen, order, n);
    }
  }

  lemma {:induction false} BaseOk(kids: T.Arcs, base: seq<ArgFrame>, top: ArgFrame)
    requires ArgFramesOk(kids, base + [top])
    ensures ArgFramesOk(kids, base)
  {
    forall i | 0 <= i < |base| ensures base[i].next <= |kids(base[i].id)| {
      assert (base + [top])[i] == base[i];
    }
  }

  lemma {:induction false} PathAlong(base: seq<ArgFrame>, top: ArgFrame, entered: seq<bool>, enter: Id -> bool, seen: set<Id>,
                                     order: seq<Id>, n: nat)
    requires PathOk(base + [top], entered, enter, seen, order, n)
    ensures PathOk(base + [ArgFrame(top.id, top.next + 1)], entered, enter, seen, order, n)
  {
    var was, now := base + [top], base + [ArgFrame(top.id, top.next + 1)];
    assert forall i :: 0 <= i < |was| ==> now[i].id == was[i].id;
    forall x: Id ensures x in seen <==> x in order || OnPath(now, x) {
      assert OnPath(was, x) <==> OnPath(now, x);
    }
  }

  lemma {:induction false} PathDown(base: seq<ArgFrame>, top: ArgFrame, c: Id, entered: seq<bool>, enter: Id -> bool,
                                    seen: set<Id>, order: seq<Id>, n: nat)
    requires PathOk(base + [top], entered, enter, seen, order, n) && c < top.id && c !in seen
    ensures PathOk(base + [ArgFrame(top.id, top.next + 1), ArgFrame(c, 0)], entered + [enter(c)], enter, seen + {c}, order, n)
  {
    PathAlong(base, top, entered, enter, seen, order, n);
    var was := base + [ArgFrame(top.id, top.next + 1)];
    var now := base + [ArgFrame(top.id, top.next + 1), ArgFrame(c, 0)];
    assert now == was + [ArgFrame(c, 0)] && was[|base|].id == top.id;
    forall x: Id ensures x in seen + {c} <==> x in order || OnPath(now, x) {
      PathGrown(was, ArgFrame(c, 0), x);
    }
  }

  lemma {:induction false} PathUp(base: seq<ArgFrame>, top: ArgFrame, entered: seq<bool>, enter: Id -> bool, seen: set<Id>,
                                  order: seq<Id>, n: nat)
    requires PathOk(base + [top], entered, enter, seen, order, n)
    ensures PathOk(base, entered[..|entered| - 1], enter, seen, order + [top.id], n)
  {
    var was := base + [top];
    forall i | 0 <= i < |base|
      ensures base[i].id !in order + [top.id] && base[i].id < n && entered[..|entered| - 1][i] == enter(base[i].id)
    {
      assert was[i] == base[i] && was[|base|] == top;
    }
    forall i, j | 0 <= i < j < |base| ensures base[j].id < base[i].id {
      assert was[i] == base[i] && was[j] == base[j];
    }
    forall x: Id ensures x in seen <==> x in order + [top.id] || OnPath(base, x) {
      PathGrown(base, top, x);
    }
  }

  lemma {:induction false} PathGrown(base: seq<ArgFrame>, f: ArgFrame, x: Id)
    ensures OnPath(base + [f], x) <==> OnPath(base, x) || f.id == x
  {
    var all := base + [f];
    if i :| 0 <= i < |base| && base[i].id == x {
      assert all[i].id == x;
    }
    assert all[|base|] == f;
    if OnPath(all, x) {
      var i :| 0 <= i < |all| && all[i].id == x;
      assert i < |base| ==> base[i] == all[i];
    }
  }

  /** Each node reached through entered applications once, arguments before applications, the root last. */
  lemma {:induction false} LtrLists(nodes: seq<Stored>, enter: Id -> bool, root: Id, order: seq<Id>)
    requires T.Acyclic(FirstFirst(nodes, enter)) && order == T.Finish(FirstFirst(nodes, enter), root, [])
    ensures T.Ordered(FirstFirst(nodes, enter), order) && order != [] && order[|order| - 1] == root
    ensures forall x :: x in order <==> T.Reaches(FirstFirst(nodes, enter), root, x)
  {
    var kids := FirstFirst(nodes, enter);
    T.FinishOrdered(kids, root, []);
    forall x ensures x in order <==> T.Reaches(kids, root, x) {
      T.FinishReaches(kids, root, [], x);
    }
  }

  /** The terms within an entered application, repeats included: the arguments' from the first to the last, then the term. */
  ghost function LtrOrder(t: Tree, into: Tree -> bool): seq<Tree>
    decreases t, 1, 0
  {
    (if t.top.shape.App? && into(t) then LtrArgsOrder(t.kids, into, 1) else []) + [t]
  }

  /** Those of the trees from the `k`-th on. */
  ghost function LtrArgsOrder(ts: seq<Tree>, into: Tree -> bool, k: nat): seq<Tree>
    decreases ts, 2, |ts| - k
  {
    if k >= |ts| then [] else LtrOrder(ts[k], into) + LtrArgsOrder(ts, into, k + 1)
  }

  /** `enter` looks at the node's term alone. */
  ghost predicate EntersBy(nodes: seq<Stored>, families: seq<Symbol>, enter: Id -> bool, into: Tree -> bool)
    requires Acyclic(nodes)
  {
    forall n: Id :: n < |nodes| ==> enter(n) == into(Unfold(nodes, families, n))
  }

  lemma {:induction false} LtrFlat(nodes: seq<Stored>, families: seq<Symbol>, enter: Id -> bool, into: Tree -> bool, n: Id)
    requires Acyclic(nodes) && T.Acyclic(FirstFirst(nodes, enter)) && EntersBy(nodes, families, enter, into) && n < |nodes|
    ensures TermsOf(nodes, families, T.Flat(FirstFirst(nodes, enter), n)) == LtrOrder(Unfold(nodes, families, n), into)
    decreases n, 1
  {
    var kids, t := FirstFirst(nodes, enter), Unfold(nodes, families, n);
    TermsAppend(nodes, families, T.FlatAll(kids, kids(n), n), [n]);
    TermsOfOne(nodes, families, n);
    ShapeKept(nodes, families, n);
    if nodes[n].node.App? && enter(n) {
      LtrAppFlat(nodes, families, enter, into, n);
    }
  }

  lemma {:induction false} LtrAppFlat(nodes: seq<Stored>, families: seq<Symbol>, enter: Id -> bool, into: Tree -> bool, n: Id)
    requires Acyclic(nodes) && T.Acyclic(FirstFirst(nodes, enter)) && EntersBy(nodes, families, enter, into) && n < |nodes|
    requires nodes[n].node.App? && enter(n)
    ensures var kids := FirstFirst(nodes, enter);
      TermsOf(nodes, families, T.FlatAll(kids, kids(n), n)) == LtrArgsOrder(Unfold(nodes, families, n).kids, into, 1)
    decreases n, 0
  {
    var kids, t, args := FirstFirst(nodes, enter), Unfold(nodes, families, n), nodes[n].node.args;
    ArgTrees(nodes, families, n);
    forall i | 0 <= i < |args|
      ensures args[i] < n && TermsOf(nodes, families, T.Flat(kids, args[i])) == LtrOrder(t.kids[i + 1], into)
    {
      ArgTree(nodes, families, n, i);
      LtrFlat(nodes, families, enter, into, args[i]);
    }
    LtrArgsFlat(nodes, families, kids, into, args, n, t.kids, 0);
    assert args[0..] == args;
  }

  lemma {:induction false} LtrArgsFlat(nodes: seq<Stored>, families: seq<Symbol>, kids: T.Arcs, into: Tree -> bool, args: seq<Id>,
                                       n: nat, ts: seq<Tree>, k: nat)
    requires Acyclic(nodes) && T.Acyclic(kids) && n <= |nodes| && T.Below(args, n) && k <= |args| == |ts| - 1
    requires forall i :: 0 <= i < |args| ==> TermsOf(nodes, families, T.Flat(kids, args[i])) == LtrOrder(ts[i + 1], into)
    ensures TermsOf(nodes, families, T.FlatAll(kids, args[k..], n)) == LtrArgsOrder(ts, into, k + 1)
    decreases |args| - k
  {
    if k < |args| {
      LtrArgsFlat(nodes, families, kids, into, args, n, ts, k + 1);
      assert args[k..][0] == args[k] && args[k..][1..] == args[k + 1..];
      TermsAppend(nodes, families, T.Flat(kids, args[k]), T.FlatAll(kids, args[k + 1..], n));
    }
  }

  /** Unfolded, the list is the left-to-right order of the root's term with repeats dropped. */
  lemma {:induction false} LtrTerms(nodes: seq<Stored>, families: seq<Symbol>, enter: Id -> bool, into: Tree -> bool, root: Id,
                                    order: seq<Id>)
    requires GraphOk(nodes, families) && T.Acyclic(FirstFirst(nodes, enter)) && root < |nodes|
    requires EntersBy(nodes, families, enter, into) && order == T.Finish(FirstFirst(nodes, enter), root, [])
    ensures Older(order, |nodes|)
    ensures TermsOf(nodes, families, order) == T.FirstOnes(LtrOrder(Unfold(nodes, families, root), into), [])
  {
    var kids := FirstFirst(nodes, enter);
    T.FinishFlat(kids, root, []);
    LtrFlat(nodes, families, enter, into, root);
    FirstTerms(nodes, families, T.Flat(kids, root), []);
  }

  // ----- depth -----

  /** One more than the greatest depth of the children. */
  ghost function Depth(nodes: seq<Stored>, n: Id): nat
    requires Acyclic(nodes)
    decreases n, 1, 0
  {
    ChildrenOlder(nodes, n);
    1 + MaxDepth(nodes, ExprChildren(nodes, n), n)
  }

  ghost function MaxDepth(nodes: seq<Stored>, ns: seq<Id>, bound: nat): nat
    requires Acyclic(nodes) && T.Below(ns, bound)
    decreases bound, 0, |ns|
  {
    if ns == [] then 0
    else
      var m := MaxDepth(nodes, ns[..|ns| - 1], bound);
      var d := Depth(nodes, ns[|ns| - 1]);
      if m < d then d else m
  }

  /** The depth, computed over a post-order. */
  method GetDepth(m: AstManager, root: Id, marks: VisitMarks) returns (d: nat)
    requires m.Valid() && marks.Valid() && root < |m.nodes|
    modifies marks
    ensures marks.Valid() && d == Depth(m.nodes, root) == Height(m.Term(root))
  {
    DepthIsHeight(m.nodes, m.families, root);
    var order := PostorderMany(m, [root], marks);
    PostorderLists(m.nodes, [root], order);
    assert T.Reaches(LastFirst(m.nodes), [root][0], root);
    assert root in order;
    var depth := DepthsOver(m.nodes, order);
    d := depth[root];
  }

  ghost predicate DepthsKnown(nodes: seq<Stored>, done: seq<Id>, depth: array<nat>)
    requires Acyclic(nodes)
    reads depth
  {
    depth.Length == |nodes| && forall n :: n in done ==> n < |nodes| && depth[n] == Depth(nodes, n)
  }

  lemma {:induction false} DepthIs(nodes: seq<Stored>, n: Id)
    requires Acyclic(nodes)
    ensures T.Below(ExprChildren(nodes, n), n)
    ensures Depth(nodes, n) == 1 + MaxDepth(nodes, ExprChildren(nodes, n), n)
  {
    ChildrenOlder(nodes, n);
  }

  /** The depths of the nodes of a post-order. */
  method DepthsOver(nodes: seq<Stored>, order: seq<Id>) returns (depth: array<nat>)
    requires Acyclic(nodes) && Older(order, |nodes|) && T.Ordered(LastFirst(nodes), order)
    ensures DepthsKnown(nodes, order, depth)
  {
    depth := new nat[|nodes|](_ => 0);
    for i := 0 to |order|
      invariant DepthsKnown(nodes, order[..i], depth)
    {
      var id := order[i];
      TakeSnoc(order, i);
      var children := ExprChildren(nodes, id);
      ChildrenOlder(nodes, id);
      ChildrenListed(nodes, order, i);
      var most := Deepest(nodes, children, depth, id);
      DepthIs(nodes, id);
      depth[id] := most + 1;
    }
    assert order[..|order|] == order;
  }

  /** The greatest depth of the children. */
  method Deepest(nodes: seq<Stored>, children: seq<Id>, depth: array<nat>, n: Id) returns (most: nat)
    requires Acyclic(nodes) && T.Below(children, n) && n <= depth.Length
    requires forall k :: 0 <= k < |children| ==> depth[children[k]] == Depth(nodes, children[k])
    ensures most == MaxDepth(nodes, children, n)
  {
    most := 0;
    for k := 0 to |children|
      invariant most == MaxDepth(nodes, children[..k], n)
    {
      MaxDepthSnoc(nodes, children, k, n);
      if most < depth[children[k]] {
        most := depth[children[k]];
      }
    }
    assert children[..|children|] == children;
  }

  lemma {:induction false} MaxDepthSnoc(nodes: seq<Stored>, ns: seq<Id>, k: nat, n: nat)
    requires Acyclic(nodes) && T.Below(ns, n) && k < |ns|
    ensures var m, d := MaxDepth(nodes, ns[..k], n), Depth(nodes, ns[k]);
      MaxDepth(nodes, ns[..k + 1], n) == if m < d then d else m
  {
    assert ns[..k + 1][..k] == ns[..k];
  }

  lemma {:induction false} ChildrenListed(nodes: seq<Stored>, order: seq<Id>, i: nat)
    requires T.Ordered(LastFirst(nodes), order) && i < |order|
    ensures forall k :: 0 <= k < |ExprChildren(nodes, order[i])| ==> ExprChildren(nodes, order[i])[k] in order[..i]
  {
    var children := ExprChildren(nodes, order[i]);
    forall k | 0 <= k < |children| ensures children[k] in order[..i] {
      ReversedHas(children, children[k]);
      assert children[k] in LastFirst(nodes)(order[i]);
    }
  }
}
