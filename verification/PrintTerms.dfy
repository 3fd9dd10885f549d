/** Terms as nodes of a shared graph, printed expressions with `let` aliases, and what expanding the aliases gives. */
module PrintTerms {
  import opened Options
  import opened PrintDocs

  type Id = nat

  /** A node: a head applied to arguments, or a constant without any. */
  datatype PpNode = PpNode(head: string, args: seq<Id>, indexed: bool)

  datatype Binder = Binder(header: string, vars: seq<(string, string)>)

  /** The nodes, and which of them are quantifiers over their only argument. */
  datatype Dag = Dag(nodes: seq<PpNode>, binders: map<Id, Binder>) {
    ghost predicate Valid() {
      && (forall n :: 0 <= n < |nodes| ==> Older(nodes[n].args, n))
      && (forall n :: n in binders ==> n < |nodes| && |nodes[n].args| > 0)
    }
  }

  /** Arguments are older than the node. */
  predicate Older(args: seq<Id>, n: nat) {
    forall i :: 0 <= i < |args| ==> args[i] < n
  }

  datatype Tree = App(head: string, args: seq<Tree>) | Quant(b: Binder, body: Tree)

  /** The term of a node without sharing. */
  ghost function Unfold(d: Dag, n: Id): Tree
    requires d.Valid() && n < |d.nodes|
    decreases n, 1, 0
  {
    if n in d.binders then Quant(d.binders[n], Unfold(d, d.nodes[n].args[0]))
    else App(d.nodes[n].head, UnfoldAll(d, d.nodes[n].args, n))
  }

  ghost function UnfoldAll(d: Dag, args: seq<Id>, n: nat): (ts: seq<Tree>)
    requires d.Valid() && n <= |d.nodes| && Older(args, n)
    ensures |ts| == |args|
    decreases n, 0, |args|
  {
    if args == [] then [] else [Unfold(d, args[0])] + UnfoldAll(d, args[1..], n)
  }

  // ----- the term as shown -----

  type Assoc = string -> bool

  /** An unshared application of an associative operator merges with an application of the same one around it. */
  predicate Merges(d: Dag, assoc: Assoc, shared: set<Id>, n: Id, parent: Option<string>)
    requires n < |d.nodes|
  {
    parent == Some(d.nodes[n].head) && assoc(d.nodes[n].head) && n !in shared && n !in d.binders && d.nodes[n].args != []
  }

  /** The term of a node, each merging argument replaced by its own arguments. */
  ghost function Shown(d: Dag, assoc: Assoc, shared: set<Id>, n: Id): (t: Tree)
    requires d.Valid() && n < |d.nodes|
    ensures t.App? <==> n !in d.binders
    decreases n, 1, 0
  {
    if n in d.binders then Quant(d.binders[n], Shown(d, assoc, shared, d.nodes[n].args[0]))
    else App(d.nodes[n].head, ShownAll(d, assoc, shared, d.nodes[n].args, n, d.nodes[n].head))
  }

  ghost function ShownAll(d: Dag, assoc: Assoc, shared: set<Id>, args: seq<Id>, n: nat, head: string): seq<Tree>
    requires d.Valid() && n <= |d.nodes| && Older(args, n)
    decreases n, 0, |args|
  {
    if args == [] then []
    else ShownAs(d, assoc, shared, args[0], Some(head)) + ShownAll(d, assoc, shared, args[1..], n, head)
  }

  /** What a node gives as an argument of `parent`. */
  ghost function ShownAs(d: Dag, assoc: Assoc, shared: set<Id>, n: Id, parent: Option<string>): seq<Tree>
    requires d.Valid() && n < |d.nodes|
    decreases n, 2, 0
  {
    var t := Shown(d, assoc, shared, n);
    if Merges(d, assoc, shared, n, parent) then t.args else [t]
  }

  /** Nested applications of one associative operator become one application. */
  ghost function Flatten(t: Tree, assoc: Assoc): Tree
    decreases t
  {
    match t
    case App(h, args) => App(h, FlattenAll(args, h, assoc))
    case Quant(b, body) => Quant(b, Flatten(body, assoc))
  }

  ghost function FlattenAll(ts: seq<Tree>, h: string, assoc: Assoc): seq<Tree>
    decreases ts
  {
    if ts == [] then [] else Spread(Flatten(ts[0], assoc), h, assoc) + FlattenAll(ts[1..], h, assoc)
  }

  /** The arguments of a nested application, or the term itself. */
  ghost function Spread(t: Tree, h: string, assoc: Assoc): seq<Tree> {
    if assoc(h) && t.App? && t.head == h && t.args != [] then t.args else [t]
  }

  lemma {:induction false} FlattenAppend(ts: seq<Tree>, us: seq<Tree>, h: string, assoc: Assoc)
    ensures FlattenAll(ts + us, h, assoc) == FlattenAll(ts, h, assoc) + FlattenAll(us, h, assoc)
  {
    if ts == [] {
      assert ts + us == us;
    } else {
      FlattenAppend(ts[1..], us, h, assoc);
      assert (ts + us)[1..] == ts[1..] + us && (ts + us)[0] == ts[0];
    }
  }

  lemma {:induction false} FlattenNonempty(ts: seq<Tree>, h: string, assoc: Assoc)
    requires ts != []
    ensures FlattenAll(ts, h, assoc) != []
  {
  }

  lemma {:induction false} FlattenOne(t: Tree, h: string, assoc: Assoc)
    ensures FlattenAll([t], h, assoc) == Spread(Flatten(t, assoc), h, assoc)
  {
    assert [t][1..] == [];
    assert FlattenAll([t], h, assoc) == Spread(Flatten(t, assoc), h, assoc) + FlattenAll([], h, assoc);
  }

  /** Merging changes a term by flattening alone. */
  lemma {:induction false} ShownFlattens(d: Dag, assoc: Assoc, shared: set<Id>, n: Id)
    requires d.Valid() && n < |d.nodes|
    ensures Flatten(Shown(d, assoc, shared, n), assoc) == Flatten(Unfold(d, n), assoc)
    decreases n, 1, 0
  {
    assert Older(d.nodes[n].args, n);
    if n in d.binders {
      ShownFlattens(d, assoc, shared, d.nodes[n].args[0]);
    } else {
      ShownAllFlattens(d, assoc, shared, d.nodes[n].args, n, d.nodes[n].head);
    }
  }

  lemma {:induction false} ShownAllFlattens(d: Dag, assoc: Assoc, shared: set<Id>, args: seq<Id>, n: nat, head: string)
    requires d.Valid() && n <= |d.nodes| && Older(args, n)
    ensures FlattenAll(ShownAll(d, assoc, shared, args, n, head), head, assoc) == FlattenAll(UnfoldAll(d, args, n), head, assoc)
    decreases n, 0, |args|
  {
    if args != [] {
      var t := Shown(d, assoc, shared, args[0]);
      ShownFlattens(d, assoc, shared, args[0]);
      ShownAllFlattens(d, assoc, shared, args[1..], n, head);
      FlattenAppend(ShownAs(d, assoc, shared, args[0], Some(head)), ShownAll(d, assoc, shared, args[1..], n, head), head, assoc);
      FlattenOne(t, head, assoc);
      if Merges(d, assoc, shared, args[0], Some(head)) {
        FlattenNonempty(UnfoldAll(d, d.nodes[args[0]].args, args[0]), head, assoc);
      }
    }
  }

  // ----- printed expressions -----

  datatype Expr =
    | Leaf(head: string)
    | Ref(k: nat)
    | Apply(head: string, args: seq<Expr>)
    | LetIn(defs: seq<Alias>, body: Expr)
    | Bind(b: Binder, body: Expr)

  /** Alias `k` and what it stands for. */
  datatype Alias = Alias(k: nat, e: Expr)

  function Decimal(k: nat): string {
    if k < 10 then ["0123456789"[k]] else Decimal(k / 10) + ["0123456789"[k % 10]]
  }

  function AliasName(k: nat): string {
    "a!" + Decimal(k)
  }

  /** Different aliases have different names. */
  lemma {:induction false} AliasNameInjective(j: nat, k: nat)
    requires AliasName(j) == AliasName(k)
    ensures j == k
  {
    assert Decimal(j) == AliasName(j)[2..] && Decimal(k) == AliasName(k)[2..];
    DecimalInjective(j, k);
  }

  lemma {:induction false} DecimalInjective(j: nat, k: nat)
    requires Decimal(j) == Decimal(k)
    ensures j == k
  {
    DecimalShape(j);
    DecimalShape(k);
    var d, e := Decimal(j), Decimal(k);
    Digits(if j < 10 then j else j % 10, if k < 10 then k else k % 10);
    if j >= 10 {
      assert d[..|d| - 1] == e[..|e| - 1];
      DecimalInjective(j / 10, k / 10);
    }
  }

  lemma {:induction false} DecimalShape(k: nat)
    ensures |Decimal(k)| > 0 && (|Decimal(k)| == 1 <==> k < 10)
    ensures Decimal(k)[|Decimal(k)| - 1] == "0123456789"[if k < 10 then k else k % 10]
    ensures k >= 10 ==> Decimal(k)[..|Decimal(k)| - 1] == Decimal(k / 10)
  {
    if k >= 10 {
      DecimalShape(k / 10);
    }
  }

  lemma {:induction false} Digits(j: nat, k: nat)
    requires j < 10 && k < 10
    ensures "0123456789"[j] == "0123456789"[k] ==> j == k
  {
    var ds := "0123456789";
    assert ds[0] == '0' && ds[1] == '1' && ds[2] == '2' && ds[3] == '3' && ds[4] == '4';
    assert ds[5] == '5' && ds[6] == '6' && ds[7] == '7' && ds[8] == '8' && ds[9] == '9';
  }

  /** The expression in one line. */
  ghost function Render(e: Expr): string
    decreases e
  {
    match e
    case Leaf(h) => h
    case Ref(k) => AliasName(k)
    case Apply(h, args) => "(" + h + " " + Spaced(RenderAll(args)) + ")"
    case LetIn(defs, body) => "(let (" + Spaced(RenderDefs(defs)) + ") " + Render(body) + ")"
    case Bind(b, body) => "(" + b.header + " (" + Spaced(RenderVars(b.vars)) + ") " + Render(body) + ")"
  }

  ghost function RenderAll(es: seq<Expr>): (ts: seq<string>)
    ensures |ts| == |es|
    decreases es
  {
    if es == [] then [] else [Render(es[0])] + RenderAll(es[1..])
  }

  ghost function RenderDefs(defs: seq<Alias>): (ts: seq<string>)
    ensures |ts| == |defs|
    decreases defs
  {
    if defs == [] then [] else [RenderAlias(defs[0])] + RenderDefs(defs[1..])
  }

  ghost function RenderAlias(a: Alias): string
    decreases a
  {
    match a
    case Alias(k, e) => "(" + AliasName(k) + " " + Render(e) + ")"
  }

  function RenderVars(vars: seq<(string, string)>): (ts: seq<string>)
    ensures |ts| == |vars|
  {
    if vars == [] then [] else ["(" + vars[0].0 + " " + vars[0].1 + ")"] + RenderVars(vars[1..])
  }

  // ----- expanding the aliases -----

  type Values = map<nat, Tree>

  /** The term of the expression, under the values of the aliases in scope. */
  ghost function Expand(e: Expr, env: Values): Tree
    decreases e
  {
    match e
    case Leaf(h) => App(h, [])
    case Ref(k) => if k in env then env[k] else App("", [])
    case Apply(h, args) => App(h, ExpandAll(args, env))
    case LetIn(defs, body) => Expand(body, env + Defined(defs, env))
    case Bind(b, body) => Quant(b, Expand(body, env))
  }

  ghost function ExpandAll(es: seq<Expr>, env: Values): (ts: seq<Tree>)
    ensures |ts| == |es|
    decreases es
  {
    if es == [] then [] else [Expand(es[0], env)] + ExpandAll(es[1..], env)
  }

  /** The aliases of one `let`, their definitions read outside it. */
  ghost function Defined(defs: seq<Alias>, env: Values): Values
    decreases defs
  {
    if defs == [] then map[] else map[defs[0].k := ExpandAlias(defs[0], env)] + Defined(defs[1..], env)
  }

  ghost function ExpandAlias(a: Alias, env: Values): Tree
    decreases a
  {
    match a
    case Alias(_, e) => Expand(e, env)
  }

  ghost function Bound(defs: seq<Alias>): set<nat> {
    if defs == [] then {} else {defs[0].k} + Bound(defs[1..])
  }

  /** No alias occurs free but those of `names`. */
  ghost predicate Closed(e: Expr, names: set<nat>)
    decreases e
  {
    match e
    case Leaf(_) => true
    case Ref(k) => k in names
    case Apply(_, args) => AllClosed(args, names)
    case LetIn(defs, body) => DefsClosed(defs, names) && Closed(body, names + Bound(defs))
    case Bind(_, body) => Closed(body, names)
  }

  ghost predicate AllClosed(es: seq<Expr>, names: set<nat>)
    decreases es
  {
    es == [] || (Closed(es[0], names) && AllClosed(es[1..], names))
  }

  ghost predicate DefsClosed(defs: seq<Alias>, names: set<nat>)
    decreases defs
  {
    defs == [] || (AliasClosed(defs[0], names) && DefsClosed(defs[1..], names))
  }

  ghost predicate AliasClosed(a: Alias, names: set<nat>)
    decreases a
  {
    match a
    case Alias(_, e) => Closed(e, names)
  }

  ghost predicate AgreeOn(names: set<nat>, env: Values, env': Values) {
    forall k :: k in names ==> k in env && k in env' && env[k] == env'[k]
  }

  /** Only the free aliases matter. */
  lemma {:induction false} ExpandAgree(e: Expr, names: set<nat>, env: Values, env': Values)
    requires Closed(e, names) && AgreeOn(names, env, env')
    ensures Expand(e, env) == Expand(e, env')
    decreases e
  {
    match e
    case Apply(_, args) => ExpandAllAgree(args, names, env, env');
    case LetIn(defs, body) =>
      DefinedAgree(defs, names, env, env');
      ExpandAgree(body, names + Bound(defs), env + Defined(defs, env), env' + Defined(defs, env'));
    case Bind(_, body) => ExpandAgree(body, names, env, env');
    case _ =>
  }

  lemma {:induction false} ExpandAllAgree(es: seq<Expr>, names: set<nat>, env: Values, env': Values)
    requires AllClosed(es, names) && AgreeOn(names, env, env')
    ensures ExpandAll(es, env) == ExpandAll(es, env')
    decreases es
  {
    if es != [] {
      ExpandAgree(es[0], names, env, env');
      ExpandAllAgree(es[1..], names, env, env');
    }
  }

  lemma {:induction false} DefinedAgree(defs: seq<Alias>, names: set<nat>, env: Values, env': Values)
    requires DefsClosed(defs, names) && AgreeOn(names, env, env')
    ensures Defined(defs, env) == Defined(defs, env') && Defined(defs, env).Keys == Bound(defs)
    decreases defs
  {
    if defs != [] {
      AliasAgree(defs[0], names, env, env');
      DefinedAgree(defs[1..], names, env, env');
    }
  }

  lemma {:induction false} AliasAgree(a: Alias, names: set<nat>, env: Values, env': Values)
    requires AliasClosed(a, names) && AgreeOn(names, env, env')
    ensures ExpandAlias(a, env) == ExpandAlias(a, env')
    decreases a
  {
    match a
    case Alias(_, e) => ExpandAgree(e, names, env, env');
  }

  lemma {:induction false} ClosedMore(e: Expr, names: set<nat>, more: set<nat>)
    requires Closed(e, names) && names <= more
    ensures Closed(e, more)
    decreases e
  {
    match e
    case Apply(_, args) => AllClosedMore(args, names, more);
    case LetIn(defs, body) =>
      DefsClosedMore(defs, names, more);
      ClosedMore(body, names + Bound(defs), more + Bound(defs));
    case Bind(_, body) => ClosedMore(body, names, more);
    case _ =>
  }

  lemma {:induction false} AllClosedMore(es: seq<Expr>, names: set<nat>, more: set<nat>)
    requires AllClosed(es, names) && names <= more
    ensures AllClosed(es, more)
    decreases es
  {
    if es != [] {
      ClosedMore(es[0], names, more);
      AllClosedMore(es[1..], names, more);
    }
  }

  lemma {:induction false} DefsClosedMore(defs: seq<Alias>, names: set<nat>, more: set<nat>)
    requires DefsClosed(defs, names) && names <= more
    ensures DefsClosed(defs, more)
    decreases defs
  {
    if defs != [] {
      AliasClosedMore(defs[0], names, more);
      DefsClosedMore(defs[1..], names, more);
    }
  }

  lemma {:induction false} AliasClosedMore(a: Alias, names: set<nat>, more: set<nat>)
    requires AliasClosed(a, names) && names <= more
    ensures AliasClosed(a, more)
    decreases a
  {
    match a
    case Alias(_, e) => ClosedMore(e, names, more);
  }

  // ----- depth and weight -----

  /** How deep the expression nests, aliases and the definitions of `let`s aside. */
  ghost function Depth(e: Expr): nat
    decreases e
  {
    match e
    case Leaf(_) => 1
    case Ref(_) => 1
    case Apply(_, args) => 1 + DepthAll(args)
    case LetIn(_, body) => Depth(body)
    case Bind(_, body) => 1 + Depth(body)
  }

  ghost function DepthAll(es: seq<Expr>): nat
    decreases es
  {
    if es == [] then 0 else if Depth(es[0]) < DepthAll(es[1..]) then DepthAll(es[1..]) else Depth(es[0])
  }

  /** The size of the expression, two for a bound variable and eight for a `let` definition. */
  ghost function Weight(e: Expr): nat
    decreases e
  {
    match e
    case Leaf(_) => 1
    case Ref(_) => 1
    case Apply(_, args) => 1 + WeightAll(args)
    case LetIn(defs, body) => 8 * |defs| + Weight(body)
    case Bind(b, body) => 2 * |b.vars| + Weight(body)
  }

  ghost function WeightAll(es: seq<Expr>): nat
    decreases es
  {
    if es == [] then 0 else Weight(es[0]) + WeightAll(es[1..])
  }

  lemma {:induction false} SizesSnoc(es: seq<Expr>, e: Expr)
    ensures WeightAll(es + [e]) == WeightAll(es) + Weight(e)
    ensures DepthAll(es + [e]) == if DepthAll(es) < Depth(e) then Depth(e) else DepthAll(es)
  {
    if es == [] {
      assert es + [e] == [e] && [e][1..] == [];
      assert WeightAll([e]) == Weight(e) + WeightAll([]);
    } else {
      SizesSnoc(es[1..], e);
      assert (es + [e])[1..] == es[1..] + [e] && (es + [e])[0] == es[0];
    }
  }

  // ----- aliases by level -----

  /** An alias: its level, what it stands for in print, and the node. Alias `k` is the entry `k - 1`. */
  datatype Entry = Entry(lvl: nat, e: Expr, node: Id)

  /** The aliases below a level. */
  ghost function Names(entries: seq<Entry>, lvl: nat): set<nat> {
    set k | 1 <= k <= |entries| && Level(entries, k) < lvl
  }

  ghost function Level(entries: seq<Entry>, k: nat): nat {
    if 1 <= k <= |entries| then entries[k - 1].lvl else 0
  }

  /** Each alias is defined from aliases of lower level alone, and stands for its node. */
  ghost predicate EntriesOk(entries: seq<Entry>, values: Values, d: Dag, assoc: Assoc, shared: set<Id>) {
    && d.Valid()
    && (forall k :: k in values <==> 1 <= k <= |entries|)
    && (forall i :: 0 <= i < |entries| ==> EntryOk(entries, values, d, assoc, shared, i))
  }

  ghost predicate EntryOk(entries: seq<Entry>, values: Values, d: Dag, assoc: Assoc, shared: set<Id>, i: nat)
    requires d.Valid() && i < |entries|
  {
    var x := entries[i];
    && x.node < |d.nodes| && Closed(x.e, Names(entries, x.lvl))
    && i + 1 in values && values[i + 1] == Expand(x.e, values) == Shown(d, assoc, shared, x.node)
  }

  lemma {:induction false} EntriesPush(entries: seq<Entry>, values: Values, d: Dag, assoc: Assoc, shared: set<Id>, x: Entry)
    requires EntriesOk(entries, values, d, assoc, shared) && x.node < |d.nodes| && Closed(x.e, Names(entries, x.lvl))
    requires Expand(x.e, values) == Shown(d, assoc, shared, x.node)
    ensures EntriesOk(entries + [x], values[|entries| + 1 := Expand(x.e, values)], d, assoc, shared)
  {
    var entries', values' := entries + [x], values[|entries| + 1 := Expand(x.e, values)];
    forall i | 0 <= i < |entries'| ensures EntryOk(entries', values', d, assoc, shared, i) {
      var y := entries'[i];
      assert i < |entries| ==> y == entries[i] && EntryOk(entries, values, d, assoc, shared, i);
      NamesGrow(entries, x, y.lvl);
      ClosedMore(y.e, Names(entries, y.lvl), Names(entries', y.lvl));
      ExpandAgree(y.e, Names(entries, y.lvl), values, values');
    }
  }

  lemma {:induction false} NamesGrow(entries: seq<Entry>, x: Entry, lvl: nat)
    ensures Names(entries, lvl) <= Names(entries + [x], lvl)
  {
    forall k | k in Names(entries, lvl) ensures k in Names(entries + [x], lvl) {
      assert (entries + [x])[k - 1] == entries[k - 1];
    }
  }

  /** The definitions of one level, from the `i`-th alias on. */
  ghost function LevelFrom(entries: seq<Entry>, lvl: nat, i: nat): seq<Alias>
    decreases |entries| - i
  {
    if i >= |entries| then []
    else (if entries[i].lvl == lvl then [Alias(i + 1, entries[i].e)] else []) + LevelFrom(entries, lvl, i + 1)
  }

  /** One `let` a level, the lowest level outermost; levels without aliases are left out. */
  ghost function Nest(entries: seq<Entry>, lvl: nat, max: nat, body: Expr): Expr
    decreases max + 1 - lvl
  {
    if lvl > max then body
    else
      var defs := LevelFrom(entries, lvl, 0);
      var inner := Nest(entries, lvl + 1, max, body);
      if defs == [] then inner else LetIn(defs, inner)
  }

  /** The aliases of a level, from the `i`-th on, have their values from those below. */
  ghost predicate Defines(entries: seq<Entry>, values: Values, lvl: nat, i: nat, env: Values, defs: seq<Alias>) {
    && DefsClosed(defs, Names(entries, lvl)) && Defined(defs, env).Keys == Bound(defs)
    && (forall k :: k in Bound(defs) <==> i < k <= |entries| && Level(entries, k) == lvl)
    && (forall k :: k in Bound(defs) ==> k in values && Defined(defs, env)[k] == values[k])
  }

  lemma {:induction false} DefinesMore(entries: seq<Entry>, values: Values, lvl: nat, i: nat, env: Values, rest: seq<Alias>)
    requires i < |entries| && Defines(entries, values, lvl, i + 1, env, rest)
    requires entries[i].lvl == lvl ==> Closed(entries[i].e, Names(entries, lvl))
    requires entries[i].lvl == lvl ==> i + 1 in values && values[i + 1] == Expand(entries[i].e, env)
    ensures Defines(entries, values, lvl, i, env, (if entries[i].lvl == lvl then [Alias(i + 1, entries[i].e)] else []) + rest)
  {
    if entries[i].lvl == lvl {
      var defs := [Alias(i + 1, entries[i].e)] + rest;
      var a := Alias(i + 1, entries[i].e);
      assert defs[1..] == rest && defs[0] == a;
      assert AliasClosed(a, Names(entries, lvl)) && ExpandAlias(a, env) == values[i + 1];
      assert Defined(defs, env) == map[i + 1 := values[i + 1]] + Defined(rest, env);
      assert Bound(defs) == {i + 1} + Bound(rest);
    } else {
      assert [] + rest == rest;
    }
  }

  lemma {:induction false} LevelDefines(entries: seq<Entry>, values: Values, d: Dag, assoc: Assoc, shared: set<Id>, lvl: nat,
                                        i: nat, env: Values)
    requires EntriesOk(entries, values, d, assoc, shared) && i <= |entries| && AgreeOn(Names(entries, lvl), env, values)
    ensures Defines(entries, values, lvl, i, env, LevelFrom(entries, lvl, i))
    decreases |entries| - i
  {
    if i < |entries| {
      LevelDefines(entries, values, d, assoc, shared, lvl, i + 1, env);
      assert EntryOk(entries, values, d, assoc, shared, i);
      if entries[i].lvl == lvl {
        ExpandAgree(entries[i].e, Names(entries, lvl), env, values);
      }
      DefinesMore(entries, values, lvl, i, env, LevelFrom(entries, lvl, i + 1));
    }
  }

  /** The nested `let`s are well scoped and give the body its values. */
  lemma {:induction false} NestExpands(entries: seq<Entry>, values: Values, d: Dag, assoc: Assoc, shared: set<Id>, lvl: nat,
                                       max: nat, body: Expr, env: Values)
    requires EntriesOk(entries, values, d, assoc, shared) && AgreeOn(Names(entries, lvl), env, values)
    requires lvl <= max + 1 && Closed(body, Names(entries, max + 1))
    ensures Closed(Nest(entries, lvl, max, body), Names(entries, lvl))
    ensures Expand(Nest(entries, lvl, max, body), env) == Expand(body, values)
    decreases max + 1 - lvl
  {
    if lvl > max {
      ExpandAgree(body, Names(entries, max + 1), env, values);
    } else {
      var defs := LevelFrom(entries, lvl, 0);
      var inner := Nest(entries, lvl + 1, max, body);
      LevelDefines(entries, values, d, assoc, shared, lvl, 0, env);
      NextNames(entries, lvl, Bound(defs));
      NestExpands(entries, values, d, assoc, shared, lvl + 1, max, body, env + Defined(defs, env));
      if defs == [] {
        assert env + Defined(defs, env) == env && Names(entries, lvl) + Bound(defs) == Names(entries, lvl);
      } else {
        assert Nest(entries, lvl, max, body) == LetIn(defs, inner);
      }
    }
  }

  lemma {:induction false} NextNames(entries: seq<Entry>, lvl: nat, bound: set<nat>)
    requires forall k :: k in bound <==> 0 < k <= |entries| && Level(entries, k) == lvl
    ensures Names(entries, lvl + 1) == Names(entries, lvl) + bound
  {
  }

  // ----- the weight of the lets -----

  /** How many of the aliases from the `i`-th on have levels from `lvl` on. */
  ghost function Above(entries: seq<Entry>, lvl: nat, i: nat): nat
    decreases |entries| - i
  {
    if i >= |entries| then 0 else (if entries[i].lvl >= lvl then 1 else 0) + Above(entries, lvl, i + 1)
  }

  lemma {:induction false} AboveSplits(entries: seq<Entry>, lvl: nat, i: nat)
    ensures Above(entries, lvl, i) == |LevelFrom(entries, lvl, i)| + Above(entries, lvl + 1, i)
    decreases |entries| - i
  {
    if i < |entries| {
      AboveSplits(entries, lvl, i + 1);
    }
  }

  lemma {:induction false} AboveEnds(entries: seq<Entry>, lvl: nat, i: nat)
    requires i <= |entries|
    ensures (forall j :: 0 <= j < |entries| ==> entries[j].lvl < lvl) ==> Above(entries, lvl, i) == 0
    ensures lvl == 0 ==> Above(entries, lvl, i) == |entries| - i
    decreases |entries| - i
  {
    if i < |entries| {
      AboveEnds(entries, lvl, i + 1);
    }
  }

  /** Each alias adds its share to the weight of the `let`s, and the depth is the body's. */
  lemma {:induction false} NestSizes(entries: seq<Entry>, lvl: nat, max: nat, body: Expr)
    requires lvl <= max + 1 && forall i :: 0 <= i < |entries| ==> entries[i].lvl <= max
    ensures Weight(Nest(entries, lvl, max, body)) == 8 * Above(entries, lvl, 0) + Weight(body)
    ensures Depth(Nest(entries, lvl, max, body)) == Depth(body)
    decreases max + 1 - lvl
  {
    if lvl > max {
      AboveEnds(entries, lvl, 0);
    } else {
      AboveSplits(entries, lvl, 0);
      NestSizes(entries, lvl + 1, max, body);
    }
  }
}
