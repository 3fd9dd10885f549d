/** Reading printed expressions by name: an alias is a symbol that a `let` binds, and nothing else tells it from others. */
module PrintReading {
  import opened PrintTerms

  type Bindings = map<string, Tree>

  /** The term of the expression when symbols are looked up by name. */
  ghost function Read(e: Expr, env: Bindings): Tree
    decreases e
  {
    match e
    case Leaf(h) => ReadName(h, env)
    case Ref(k) => ReadName(AliasName(k), env)
    case Apply(h, args) => App(h, ReadAll(args, env))
    case LetIn(defs, body) => Read(body, env + ReadDefs(defs, env))
    case Bind(b, body) => Quant(b, Read(body, env - VarNames(b.vars)))
  }

  /** A bound name stands for its term, any other for itself. */
  ghost function ReadName(h: string, env: Bindings): Tree {
    if h in env then env[h] else App(h, [])
  }

  ghost function ReadAll(es: seq<Expr>, env: Bindings): (ts: seq<Tree>)
    ensures |ts| == |es|
    decreases es
  {
    if es == [] then [] else [Read(es[0], env)] + ReadAll(es[1..], env)
  }

  ghost function ReadDefs(defs: seq<Alias>, env: Bindings): Bindings
    decreases defs
  {
    if defs == [] then map[] else map[AliasName(defs[0].k) := ReadAlias(defs[0], env)] + ReadDefs(defs[1..], env)
  }

  ghost function ReadAlias(a: Alias, env: Bindings): Tree
    decreases a
  {
    match a
    case Alias(_, e) => Read(e, env)
  }

  function VarNames(vars: seq<(string, string)>): set<string> {
    if vars == [] then {} else {vars[0].0} + VarNames(vars[1..])
  }

  /** Reading sees only what is printed: an alias and a symbol of the same name are one. */
  lemma {:induction false} SameName(k: nat, env: Bindings)
    ensures Render(Leaf(AliasName(k))) == Render(Ref(k)) && Read(Leaf(AliasName(k)), env) == Read(Ref(k), env)
  {
  }

  // ----- where the symbols of an expression come from -----

  /** The symbols are constants and bound variables of the graph. */
  ghost predicate Drawn(e: Expr, d: Dag)
    decreases e
  {
    match e
    case Leaf(h) => Constant(h, d)
    case Ref(_) => true
    case Apply(_, args) => AllDrawn(args, d)
    case LetIn(defs, body) => DefsDrawn(defs, d) && Drawn(body, d)
    case Bind(b, body) => b in d.binders.Values && Drawn(body, d)
  }

  ghost predicate Constant(h: string, d: Dag) {
    exists n :: 0 <= n < |d.nodes| && d.nodes[n].head == h && d.nodes[n].args == []
  }

  ghost predicate AllDrawn(es: seq<Expr>, d: Dag)
    decreases es
  {
    es == [] || (Drawn(es[0], d) && AllDrawn(es[1..], d))
  }

  ghost predicate DefsDrawn(defs: seq<Alias>, d: Dag)
    decreases defs
  {
    defs == [] || (AliasDrawn(defs[0], d) && DefsDrawn(defs[1..], d))
  }

  ghost predicate AliasDrawn(a: Alias, d: Dag)
    decreases a
  {
    match a
    case Alias(_, e) => Drawn(e, d)
  }

  lemma {:induction false} AllDrawnAppend(es: seq<Expr>, fs: seq<Expr>, d: Dag)
    requires AllDrawn(es, d) && AllDrawn(fs, d)
    ensures AllDrawn(es + fs, d)
  {
    if es == [] {
      assert es + fs == fs;
    } else {
      AllDrawnAppend(es[1..], fs, d);
      assert (es + fs)[1..] == es[1..] + fs && (es + fs)[0] == es[0];
    }
  }

  lemma {:induction false} OneDrawn(e: Expr, d: Dag)
    requires Drawn(e, d)
    ensures AllDrawn([e], d)
  {
    assert [e][1..] == [] && [e][0] == e;
    assert AllDrawn([e][1..], d);
  }

  lemma {:induction false} LevelDrawn(entries: seq<Entry>, lvl: nat, i: nat, d: Dag)
    requires forall j :: 0 <= j < |entries| ==> Drawn(entries[j].e, d)
    ensures DefsDrawn(LevelFrom(entries, lvl, i), d)
    decreases |entries| - i
  {
    if i < |entries| {
      LevelDrawn(entries, lvl, i + 1, d);
      var a, rest := Alias(i + 1, entries[i].e), LevelFrom(entries, lvl, i + 1);
      assert ([a] + rest)[1..] == rest && [] + rest == rest;
    }
  }

  /** The `let`s around the body draw on the same symbols. */
  lemma {:induction false} NestDrawn(entries: seq<Entry>, lvl: nat, max: nat, body: Expr, d: Dag)
    requires (forall j :: 0 <= j < |entries| ==> Drawn(entries[j].e, d)) && Drawn(body, d)
    ensures Drawn(Nest(entries, lvl, max, body), d)
    decreases max + 1 - lvl
  {
    if lvl <= max {
      LevelDrawn(entries, lvl, 0, d);
      NestDrawn(entries, lvl + 1, max, body, d);
    }
  }

  // ----- names that are no symbols -----

  /** No constant and no bound variable of the graph is named as an alias is. */
  ghost predicate Unreserved(d: Dag) {
    && (forall n, k: nat :: 0 <= n < |d.nodes| && d.nodes[n].args == [] ==> d.nodes[n].head != AliasName(k))
    && (forall b, k: nat :: b in d.binders.Values ==> AliasName(k) !in VarNames(b.vars))
  }

  /** The names bound are those of the aliases, each with its value. */
  ghost predicate Named(env: Values, names: Bindings) {
    (forall k: nat :: ValueNamed(env, names, k)) && (forall s: string :: NamesValue(env, names, s))
  }

  ghost predicate ValueNamed(env: Values, names: Bindings, k: nat) {
    k in env ==> AliasName(k) in names && names[AliasName(k)] == env[k]
  }

  ghost predicate NamesValue(env: Values, names: Bindings, s: string) {
    s in names ==> exists k: nat :: k in env && s == AliasName(k)
  }

  /** Read by name, an expression is what expanding its aliases gives. */
  lemma {:induction false} ReadExpands(e: Expr, d: Dag, env: Values, names: Bindings)
    requires Drawn(e, d) && Unreserved(d) && Closed(e, env.Keys) && Named(env, names)
    ensures Read(e, names) == Expand(e, env)
    decreases e
  {
    match e
    case Leaf(h) =>
      var n :| 0 <= n < |d.nodes| && d.nodes[n].head == h && d.nodes[n].args == [];
      assert NamesValue(env, names, h);
    case Ref(k) => assert ValueNamed(env, names, k);
    case Apply(_, args) => ReadAllExpands(args, d, env, names);
    case LetIn(defs, body) =>
      ReadDefsExpand(defs, d, env, names);
      assert (env + Defined(defs, env)).Keys == env.Keys + Bound(defs);
      NamedMore(env, names, Defined(defs, env), ReadDefs(defs, names));
      ReadExpands(body, d, env + Defined(defs, env), names + ReadDefs(defs, names));
    case Bind(b, body) =>
      NotHidden(b, d, env, names);
      ReadExpands(body, d, env, names);
  }

  lemma {:induction false} NotHidden(b: Binder, d: Dag, env: Values, names: Bindings)
    requires Unreserved(d) && b in d.binders.Values && Named(env, names)
    ensures names - VarNames(b.vars) == names
  {
    forall s | s in names ensures s !in VarNames(b.vars) {
      assert NamesValue(env, names, s);
    }
  }

  lemma {:induction false} ReadAllExpands(es: seq<Expr>, d: Dag, env: Values, names: Bindings)
    requires AllDrawn(es, d) && Unreserved(d) && AllClosed(es, env.Keys) && Named(env, names)
    ensures ReadAll(es, names) == ExpandAll(es, env)
    decreases es
  {
    if es != [] {
      ReadExpands(es[0], d, env, names);
      ReadAllExpands(es[1..], d, env, names);
    }
  }

  lemma {:induction false} ReadDefsExpand(defs: seq<Alias>, d: Dag, env: Values, names: Bindings)
    requires DefsDrawn(defs, d) && Unreserved(d) && DefsClosed(defs, env.Keys) && Named(env, names)
    ensures Named(Defined(defs, env), ReadDefs(defs, names)) && Defined(defs, env).Keys == Bound(defs)
    decreases defs
  {
    if defs != [] {
      var k := defs[0].k;
      ReadAliasExpands(defs[0], d, env, names);
      ReadDefsExpand(defs[1..], d, env, names);
      var one, oneNamed := map[k := ExpandAlias(defs[0], env)], map[AliasName(k) := ReadAlias(defs[0], names)];
      NamedOne(k, ExpandAlias(defs[0], env));
      NamedMore(one, oneNamed, Defined(defs[1..], env), ReadDefs(defs[1..], names));
    }
  }

  lemma {:induction false} NamedOne(k: nat, t: Tree)
    ensures Named(map[k := t], map[AliasName(k) := t])
  {
    forall s: string ensures NamesValue(map[k := t], map[AliasName(k) := t], s) {
      assert k in map[k := t];
    }
  }

  lemma {:induction false} ReadAliasExpands(a: Alias, d: Dag, env: Values, names: Bindings)
    requires AliasDrawn(a, d) && Unreserved(d) && AliasClosed(a, env.Keys) && Named(env, names)
    ensures ReadAlias(a, names) == ExpandAlias(a, env)
    decreases a
  {
    match a
    case Alias(_, e) => ReadExpands(e, d, env, names);
  }

  /** An inner binding hides an outer one of the same name and no other, because aliases differ in name. */
  lemma {:induction false} NamedMore(env: Values, names: Bindings, more: Values, moreNames: Bindings)
    requires Named(env, names) && Named(more, moreNames)
    ensures Named(env + more, names + moreNames)
  {
    forall k: nat ensures ValueNamed(env + more, names + moreNames, k) {
      assert ValueNamed(env, names, k) && ValueNamed(more, moreNames, k) && NamesValue(more, moreNames, AliasName(k));
      if k in env && AliasName(k) in moreNames {
        var j: nat :| j in more && AliasName(k) == AliasName(j);
        AliasNameInjective(j, k);
      }
    }
    forall s: string ensures NamesValue(env + more, names + moreNames, s) {
      assert NamesValue(env, names, s) && NamesValue(more, moreNames, s);
      if s in names + moreNames {
        var k: nat :| (k in env || k in more) && s == AliasName(k);
        assert k in env + more;
      }
    }
  }

  /** A symbol named as an alias is captured by the `let` around it: with one alias for two uses of an application, a third
      argument `a!1` is read as that application. */
  lemma {:induction false} Captured(head: string, f: string, args: seq<Expr>, n: Id)
    requires args != [] && AllClosed(args, {})
    ensures AliasName(1) == "a!1"
    ensures var x := Apply(f, args); var e := Nest([Entry(0, x, n)], 0, 0, Apply(head, [Ref(1), Ref(1), Leaf("a!1")]));
      && Closed(e, {}) && Read(e, map[]) == App(head, [Read(x, map[]), Read(x, map[]), Read(x, map[])])
      && Expand(e, map[]) == App(head, [Expand(x, map[]), Expand(x, map[]), App("a!1", [])])
      && Read(e, map[]) != Expand(e, map[])
  {
    var x := Apply(f, args);
    var entries, body := [Entry(0, x, n)], Apply(head, [Ref(1), Ref(1), Leaf("a!1")]);
    var defs := [Alias(1, x)];
    assert LevelFrom(entries, 0, 1) == [] && LevelFrom(entries, 0, 0) == defs;
    assert Nest(entries, 0, 0, body) == LetIn(defs, body);
    CapturedAt(head, x, map[] + map[1 := Expand(x, map[])], map[] + map["a!1" := Read(x, map[])]);
    OneAlias(1, x);
    assert Bound(defs) == {1} && AliasClosed(defs[0], {}) && DefsClosed(defs[1..], {});
    assert |Read(x, map[]).args| == |args|;
  }

  lemma {:induction false} OneAlias(k: nat, x: Expr)
    ensures ReadDefs([Alias(k, x)], map[]) == map[AliasName(k) := Read(x, map[])]
    ensures Defined([Alias(k, x)], map[]) == map[k := Expand(x, map[])]
  {
    var defs := [Alias(k, x)];
    assert defs[1..] == [] && defs[0] == Alias(k, x);
    assert ReadDefs(defs, map[]) == map[AliasName(k) := ReadAlias(defs[0], map[])] + ReadDefs([], map[]);
    assert Defined(defs, map[]) == map[k := ExpandAlias(defs[0], map[])] + Defined([], map[]);
  }

  lemma {:induction false} CapturedAt(head: string, x: Expr, env: Values, names: Bindings)
    requires 1 in env && "a!1" in names
    ensures var body := Apply(head, [Ref(1), Ref(1), Leaf("a!1")]);
      && AliasName(1) == "a!1" && Closed(body, {1})
      && Read(body, names) == App(head, [names["a!1"], names["a!1"], names["a!1"]])
      && Expand(body, env) == App(head, [env[1], env[1], App("a!1", [])])
  {
    var es := [Ref(1), Ref(1), Leaf("a!1")];
    assert AliasName(1) == "a!1";
    assert es[1..] == [Ref(1), Leaf("a!1")] && es[1..][1..] == [Leaf("a!1")] && es[1..][1..][1..] == [];
    assert ReadAll(es[1..][1..], names) == [names["a!1"]] + ReadAll([], names);
    assert ReadAll(es[1..], names) == [names["a!1"]] + ReadAll(es[1..][1..], names);
    assert ExpandAll(es[1..][1..], env) == [App("a!1", [])] + ExpandAll([], env);
    assert ExpandAll(es[1..], env) == [env[1]] + ExpandAll(es[1..][1..], env);
    assert AllClosed(es[1..][1..], {1}) && AllClosed(es[1..], {1});
  }
}
