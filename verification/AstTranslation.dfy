/** Copying a term from one manager into another: families by name, sharing by interning. */
module AstTranslation {
  import opened Options
  import opened AstNodes
  import opened AstManagers

  type Memo = seq<(Id, Id)>

  /** The content of a manager. */
  datatype Graph = Graph(nodes: seq<Stored>, families: seq<Symbol>) {
    ghost predicate Ok() {
      GraphOk(nodes, families)
    }

    ghost function Term(n: Id): Tree
      requires Ok() && n < |nodes|
    {
      Unfold(nodes, families, n)
    }

    ghost function Terms(ids: seq<Id>): seq<Tree>
      requires Ok() && Older(ids, |nodes|)
    {
      UnfoldAll(nodes, families, ids, |nodes|)
    }

    ghost predicate GrowsTo(g: Graph) {
      Extends(nodes, families, g.nodes, g.families)
    }
  }

  ghost function GraphOf(m: AstManager): Graph
    reads m
  {
    Graph(m.nodes, m.families)
  }

  /** The target's ids have the terms of the source's. */
  ghost predicate Copied(s: Graph, ids: seq<Id>, d: Graph, ids': seq<Id>)
    requires s.Ok() && d.Ok()
  {
    Older(ids, |s.nodes|) && Older(ids', |d.nodes|) && d.Terms(ids') == s.Terms(ids)
  }

  lemma {:induction false} CopiedAt(s: Graph, ids: seq<Id>, d: Graph, ids': seq<Id>, i: nat)
    requires s.Ok() && d.Ok() && Copied(s, ids, d, ids') && i < |ids|
    ensures |ids'| == |ids| && ids[i] < |s.nodes| && ids'[i] < |d.nodes| && d.Term(ids'[i]) == s.Term(ids[i])
  {
    assert s.Terms(ids)[i] == s.Term(ids[i]);
    assert |d.Terms(ids')| == |ids'| && d.Terms(ids')[i] == d.Term(ids'[i]);
  }

  lemma {:induction false} TermsAppend(g: Graph, a: seq<Id>, b: seq<Id>)
    requires g.Ok() && Older(a, |g.nodes|) && Older(b, |g.nodes|)
    ensures Older(a + b, |g.nodes|) && g.Terms(a + b) == g.Terms(a) + g.Terms(b)
  {
    OlderAppend(a, b, |g.nodes|);
    var ts, us := g.Terms(a + b), g.Terms(a) + g.Terms(b);
    forall i | 0 <= i < |ts| ensures ts[i] == us[i] {
      assert ts[i] == g.Term((a + b)[i]);
    }
  }

  lemma {:induction false} OlderParts(a: seq<Id>, b: seq<Id>, n: nat)
    requires Older(a + b, n)
    ensures Older(a, n) && Older(b, n)
  {
    forall i | 0 <= i < |a| ensures a[i] < n {
      assert (a + b)[i] == a[i];
    }
    forall i | 0 <= i < |b| ensures b[i] < n {
      assert (a + b)[|a| + i] == b[i];
    }
  }

  ghost predicate MemoOk(s: Graph, d: Graph, memo: Memo)
    requires s.Ok() && d.Ok()
  {
    forall i :: 0 <= i < |memo| ==>
      memo[i].0 < |s.nodes| && memo[i].1 < |d.nodes| && d.Term(memo[i].1) == s.Term(memo[i].0)
  }

  lemma {:induction false} CopiedKept(s: Graph, ids: seq<Id>, d: Graph, ids': seq<Id>, d': Graph)
    requires s.Ok() && d.Ok() && d'.Ok() && Copied(s, ids, d, ids') && d.GrowsTo(d')
    ensures Copied(s, ids, d', ids')
  {
    UnfoldAllKept(d.nodes, d.families, d'.nodes, d'.families, ids');
  }

  lemma {:induction false} MemoKept(s: Graph, d: Graph, memo: Memo, d': Graph)
    requires s.Ok() && d.Ok() && d'.Ok() && MemoOk(s, d, memo) && d.GrowsTo(d')
    ensures MemoOk(s, d', memo)
  {
    forall i | 0 <= i < |memo| ensures d'.Term(memo[i].1) == s.Term(memo[i].0) {
      UnfoldKept(d.nodes, d.families, d'.nodes, d'.families, memo[i].1);
    }
  }

  lemma {:induction false} CopiedAppend(s: Graph, ids: seq<Id>, more: seq<Id>, d: Graph, ids': seq<Id>, more': seq<Id>)
    requires s.Ok() && d.Ok() && Copied(s, ids, d, ids') && Copied(s, more, d, more')
    ensures Copied(s, ids + more, d, ids' + more')
  {
    TermsAppend(s, ids, more);
    TermsAppend(d, ids', more');
  }

  lemma {:induction false} TailCopied(s: Graph, ids: seq<Id>, more: seq<Id>, d: Graph, ids': seq<Id>, more': seq<Id>)
    requires s.Ok() && d.Ok() && |ids| == |ids'| && Copied(s, ids + more, d, ids' + more')
    ensures Copied(s, ids, d, ids') && Copied(s, more, d, more') && |more| == |more'|
    ensures Older(ids', |d.nodes|) && Older(more', |d.nodes|)
  {
    OlderParts(ids, more, |s.nodes|);
    OlderParts(ids', more', |d.nodes|);
    TermsAppend(s, ids, more);
    TermsAppend(d, ids', more');
    AppendSplit(s.Terms(ids), s.Terms(more), d.Terms(ids'), d.Terms(more'));
    assert |s.Terms(more)| == |more| && |d.Terms(more')| == |more'|;
  }

  /** What was copied stays copied while more is. */
  lemma {:induction false} CopiedMore(s: Graph, ids: seq<Id>, d: Graph, ids': seq<Id>, more: seq<Id>, d': Graph, more': seq<Id>)
    requires s.Ok() && d.Ok() && d'.Ok() && Copied(s, ids, d, ids') && d.GrowsTo(d') && Copied(s, more, d', more')
    ensures Copied(s, ids + more, d', ids' + more')
  {
    CopiedKept(s, ids, d, ids', d');
    CopiedAppend(s, ids, more, d', ids', more');
  }

  lemma {:induction false} CopiedNext(s: Graph, ids: seq<Id>, d: Graph, ids': seq<Id>, x: Id, d': Graph, t: Id)
    requires s.Ok() && d.Ok() && d'.Ok() && Copied(s, ids, d, ids') && d.GrowsTo(d')
    requires x < |s.nodes| && t < |d'.nodes| && d'.Term(t) == s.Term(x)
    ensures Copied(s, ids + [x], d', ids' + [t])
  {
    CopiedOne(s, x, d', t);
    CopiedMore(s, ids, d, ids', [x], d', [t]);
  }

  lemma {:induction false} CopiedOne(s: Graph, id: Id, d: Graph, t: Id)
    requires s.Ok() && d.Ok() && id < |s.nodes| && t < |d.nodes| && d.Term(t) == s.Term(id)
    ensures Copied(s, [id], d, [t])
  {
    assert s.Terms([id]) == [s.Term(id)] && d.Terms([t]) == [d.Term(t)];
  }

  /** A node of the same label over copied children has the same term. */
  lemma {:induction false} TermCopied(s: Graph, id: Id, d: Graph, t: Id)
    requires s.Ok() && d.Ok() && id < |s.nodes| && t < |d.nodes|
    requires LabelOf(d.nodes[t].node, d.families) == LabelOf(s.nodes[id].node, s.families)
    requires Copied(s, Kids(s.nodes[id].node), d, Kids(d.nodes[t].node))
    ensures d.Term(t) == s.Term(id)
  {
    var kids, kids' := Kids(s.nodes[id].node), Kids(d.nodes[t].node);
    assert Older(kids, id) && Older(kids', t);
    assert UnfoldAll(d.nodes, d.families, kids', t) == d.Terms(kids');
    assert UnfoldAll(s.nodes, s.families, kids, id) == s.Terms(kids);
  }

  /** The rebuilt node, once interned, is the copy. */
  lemma {:induction false} Rebuilt(s: Graph, id: Id, d: Graph, y: AstNode, d': Graph, t: Id, memo: Memo)
    requires s.Ok() && d.Ok() && d'.Ok() && id < |s.nodes| && d.GrowsTo(d') && MemoOk(s, d, memo)
    requires t < |d'.nodes| && d'.nodes[t].node == y && LabelOf(y, d'.families) == LabelOf(s.nodes[id].node, s.families)
    requires Copied(s, Kids(s.nodes[id].node), d, Kids(y))
    ensures d'.Term(t) == s.Term(id) && MemoOk(s, d', memo)
  {
    MemoKept(s, d, memo, d');
    CopiedKept(s, Kids(s.nodes[id].node), d, Kids(y), d');
    TermCopied(s, id, d', t);
  }

  /** Equal terms are of nodes of the same kind. */
  lemma {:induction false} KindCopied(s: Graph, id: Id, d: Graph, t: Id)
    requires s.Ok() && d.Ok() && id < |s.nodes| && t < |d.nodes| && d.Term(t) == s.Term(id)
    ensures IsSort(s.nodes, id) ==> IsSort(d.nodes, t)
    ensures IsExpr(s.nodes, id) ==> IsExpr(d.nodes, t)
    ensures var x, y := s.nodes[id].node, d.nodes[t].node;
      x.FuncDecl? ==> y.FuncDecl? && |x.domain| == |y.domain|
  {
    BlankLengths(s.nodes[id].node, d.nodes[t].node);
  }

  /** Terms are what translation keeps apart, and what it identifies. */
  lemma {:induction false} TranslationInjective(s: Graph, a: Id, b: Id, d: Graph, ta: Id, tb: Id)
    requires s.Ok() && d.Ok() && Copied(s, [a, b], d, [ta, tb])
    ensures ta == tb <==> a == b
  {
    CopiedAt(s, [a, b], d, [ta, tb], 0);
    CopiedAt(s, [a, b], d, [ta, tb], 1);
    MaximalSharing(s.nodes, s.families, a, b);
    MaximalSharing(d.nodes, d.families, ta, tb);
  }

  /** Translated back, a term gets its old id, whatever its manager has become. */
  lemma {:induction false} ThereAndBack(s: Graph, id: Id, d: Graph, t: Id, s': Graph, r: Id)
    requires s.Ok() && d.Ok() && s'.Ok() && s.GrowsTo(s')
    requires Copied(s, [id], d, [t]) && Copied(d, [t], s', [r])
    ensures r == id
  {
    CopiedAt(s, [id], d, [t], 0);
    CopiedAt(d, [t], s', [r], 0);
    UnfoldKept(s.nodes, s.families, s'.nodes, s'.families, id);
    MaximalSharing(s'.nodes, s'.families, id, r);
  }

  // ----- the translation -----

  /** What every step keeps: the target only grows, and the memo stays right. */
  ghost predicate Step(s: Graph, d: Graph, d': Graph, memo': Memo)
    requires s.Ok()
  {
    d'.Ok() && d.GrowsTo(d') && MemoOk(s, d', memo')
  }

  /** The target's id of a family of the same name, registered if it is new. */
  method TranslateFamily(src: AstManager, fid: FamilyId, dst: AstManager) returns (fid': FamilyId)
    requires src.Valid() && dst.Valid() && src != dst
    modifies dst
    ensures dst.Valid() && dst.nodes == old(dst.nodes) && old(GraphOf(dst)).GrowsTo(GraphOf(dst))
    ensures Registered(dst.families, fid') && FamilyName(dst.families, fid') == FamilyName(src.families, fid)
  {
    if fid == NULL_FAMILY_ID {
      return NULL_FAMILY_ID;
    }
    var name := FamilyName(src.families, fid);
    if name.None? {
      return NULL_FAMILY_ID;
    }
    fid' := dst.MkFamilyId(name.value);
  }

  lemma {:induction false} ParamsSnoc(ps: seq<Parameter>, p: Parameter)
    ensures ParamIds(ps + [p]) == ParamIds(ps) + IdsOf(p)
    ensures BlankParams(ps + [p]) == BlankParams(ps) + [BlankParam(p)]
  {
    if ps == [] {
      assert ps + [p] == [p] && [p][1..] == [];
      assert ParamIds([p]) == IdsOf(p) + ParamIds([]) && BlankParams([p]) == [BlankParam(p)] + BlankParams([]);
    } else {
      ParamsSnoc(ps[1..], p);
      assert (ps + [p])[1..] == ps[1..] + [p] && (ps + [p])[0] == ps[0];
      AppendAssoc(IdsOf(ps[0]), ParamIds(ps[1..]), IdsOf(p));
      AppendAssoc([BlankParam(ps[0])], BlankParams(ps[1..]), [BlankParam(p)]);
    }
  }

  lemma {:induction false} AppendAssoc<T>(a: seq<T>, b: seq<T>, c: seq<T>)
    ensures a + (b + c) == (a + b) + c
  {
  }

  /** The info with its family by name and its parameters translated. */
  method TranslateInfo(src: AstManager, info: DeclInfo, dst: AstManager, memo: Memo, ghost n: nat)
    returns (info': DeclInfo, memo': Memo)
    requires src.Valid() && dst.Valid() && src != dst && MemoOk(GraphOf(src), GraphOf(dst), memo)
    requires n <= |src.nodes| && Older(ParamIds(info.parameters), n)
    modifies dst
    ensures dst.Valid() && Step(GraphOf(src), old(GraphOf(dst)), GraphOf(dst), memo')
    ensures Registered(dst.families, info'.familyId) && BlankInfo(info') == BlankInfo(info)
    ensures FamilyName(dst.families, info'.familyId) == FamilyName(src.families, info.familyId)
    ensures Copied(GraphOf(src), ParamIds(info.parameters), GraphOf(dst), ParamIds(info'.parameters))
    decreases n, 0, 2
  {
    ghost var s, d := GraphOf(src), GraphOf(dst);
    var fid := TranslateFamily(src, info.familyId, dst);
    ghost var d1 := GraphOf(dst);
    MemoKept(s, d, memo, d1);
    var params;
    params, memo' := TranslateParams(src, info.parameters, dst, memo, n);
    info' := DeclInfo(fid, info.declKind, params);
    CopiedOlder(s, ParamIds(info.parameters), GraphOf(dst), ParamIds(params));
  }

  lemma {:induction false} CopiedOlder(s: Graph, ids: seq<Id>, d: Graph, ids': seq<Id>)
    requires s.Ok() && d.Ok() && Copied(s, ids, d, ids')
    ensures Older(ids', |d.nodes|)
  {
  }

  method TranslateParams(src: AstManager, ps: seq<Parameter>, dst: AstManager, memo: Memo, ghost n: nat)
    returns (params: seq<Parameter>, memo': Memo)
    requires src.Valid() && dst.Valid() && src != dst && MemoOk(GraphOf(src), GraphOf(dst), memo)
    requires n <= |src.nodes| && Older(ParamIds(ps), n)
    modifies dst
    ensures dst.Valid() && Step(GraphOf(src), old(GraphOf(dst)), GraphOf(dst), memo')
    ensures BlankParams(params) == BlankParams(ps) && Copied(GraphOf(src), ParamIds(ps), GraphOf(dst), ParamIds(params))
    decreases n, 0, 1
  {
    ghost var s, d := GraphOf(src), GraphOf(dst);
    memo', params := memo, [];
    for i := 0 to |ps|
      invariant dst.Valid() && Step(s, d, GraphOf(dst), memo') && BlankParams(params) == BlankParams(ps[..i])
      invariant Copied(s, ParamIds(ps[..i]), GraphOf(dst), ParamIds(params))
    {
      ghost var d1 := GraphOf(dst);
      ParamOlder(ps, i, n);
      var p;
      p, memo' := TranslateParam(src, ps[i], dst, memo', n);
      CopiedMore(s, ParamIds(ps[..i]), d1, ParamIds(params), IdsOf(ps[i]), GraphOf(dst), IdsOf(p));
      PrefixSnoc(ps, i);
      ParamsSnoc(params, p);
      params := params + [p];
    }
    assert ps[..|ps|] == ps;
  }

  method TranslateParam(src: AstManager, p: Parameter, dst: AstManager, memo: Memo, ghost n: nat)
    returns (p': Parameter, memo': Memo)
    requires src.Valid() && dst.Valid() && src != dst && MemoOk(GraphOf(src), GraphOf(dst), memo)
    requires n <= |src.nodes| && (p.Ast? ==> p.id < n)
    modifies dst
    ensures dst.Valid() && Step(GraphOf(src), old(GraphOf(dst)), GraphOf(dst), memo')
    ensures if p.Ast? then p'.Ast? else p' == p
    ensures Copied(GraphOf(src), IdsOf(p), GraphOf(dst), IdsOf(p'))
    decreases n, 0, 0
  {
    p', memo' := p, memo;
    if p.Ast? {
      var t;
      t, memo' := TranslateMemo(src, p.id, dst, memo);
      CopiedOne(GraphOf(src), p.id, GraphOf(dst), t);
      p' := Ast(t);
    } else {
      assert GraphOf(src).Terms([]) == [] && GraphOf(dst).Terms([]) == [];
    }
  }

  lemma {:induction false} PrefixSnoc(ps: seq<Parameter>, i: nat)
    requires i < |ps|
    ensures ParamIds(ps[..i + 1]) == ParamIds(ps[..i]) + IdsOf(ps[i])
    ensures BlankParams(ps[..i + 1]) == BlankParams(ps[..i]) + [BlankParam(ps[i])]
  {
    assert ps[..i + 1] == ps[..i] + [ps[i]];
    ParamsSnoc(ps[..i], ps[i]);
  }

  lemma {:induction false} ParamOlder(ps: seq<Parameter>, i: nat, n: nat)
    requires i < |ps| && Older(ParamIds(ps), n)
    ensures ps[i].Ast? ==> ps[i].id < n
  {
    var ids := ParamIds(ps);
    if i == 0 {
      assert ps[0].Ast? ==> ids[0] == ps[0].id;
    } else {
      var k := if ps[0].Ast? then 1 else 0;
      assert ids[k..] == ParamIds(ps[1..]);
      ParamOlder(ps[1..], i - 1, n);
    }
  }

  /** The nodes translated, in order. */
  method TranslateAll(src: AstManager, ids: seq<Id>, dst: AstManager, memo: Memo, ghost n: nat)
    returns (ids': seq<Id>, memo': Memo)
    requires src.Valid() && dst.Valid() && src != dst && MemoOk(GraphOf(src), GraphOf(dst), memo)
    requires n <= |src.nodes| && Older(ids, n)
    modifies dst
    ensures dst.Valid() && Step(GraphOf(src), old(GraphOf(dst)), GraphOf(dst), memo')
    ensures Copied(GraphOf(src), ids, GraphOf(dst), ids')
    decreases n, 0, 0
  {
    ghost var s, d := GraphOf(src), GraphOf(dst);
    ids', memo' := [], memo;
    for i := 0 to |ids|
      invariant dst.Valid() && Step(s, d, GraphOf(dst), memo') && Copied(s, ids[..i], GraphOf(dst), ids')
    {
      ghost var d1 := GraphOf(dst);
      var t;
      t, memo' := TranslateMemo(src, ids[i], dst, memo');
      CopiedNext(s, ids[..i], d1, ids', ids[i], GraphOf(dst), t);
      TakeSnoc(ids, i);
      ids' := ids' + [t];
    }
    assert ids[..|ids|] == ids;
  }

  method Lookup(memo: Memo, id: Id) returns (t: Option<Id>)
    ensures t.Some? ==> (id, t.value) in memo
  {
    for i := 0 to |memo| {
      if memo[i].0 == id {
        return Some(memo[i].1);
      }
    }
    t := None;
  }

  /** The copy of one node: the target's id has the same term. */
  method TranslateMemo(src: AstManager, id: Id, dst: AstManager, memo: Memo) returns (t: Id, memo': Memo)
    requires src.Valid() && dst.Valid() && src != dst && MemoOk(GraphOf(src), GraphOf(dst), memo) && id < |src.nodes|
    modifies dst
    ensures dst.Valid() && Step(GraphOf(src), old(GraphOf(dst)), GraphOf(dst), memo')
    ensures t < |dst.nodes| && dst.Term(t) == src.Term(id)
    decreases id, 2, 0
  {
    var known := Lookup(memo, id);
    if known.Some? {
      return known.value, memo;
    }
    match src.nodes[id].node
    case SortNode(_, _, _) => t, memo' := TranslateSort(src, id, dst, memo);
    case FuncDecl(_, _, _, _, _) => t, memo' := TranslateDecl(src, id, dst, memo);
    case App(_, _) => t, memo' := TranslateApp(src, id, dst, memo);
    case Var(_, _) => t, memo' := TranslateVar(src, id, dst, memo);
    case Quantifier(_, _, _, _, _, _, _) => t, memo' := TranslateQuantifier(src, id, dst, memo);
    memo' := memo' + [(id, t)];
  }

  method TranslateSort(src: AstManager, id: Id, dst: AstManager, memo: Memo) returns (t: Id, memo': Memo)
    requires src.Valid() && dst.Valid() && src != dst && MemoOk(GraphOf(src), GraphOf(dst), memo)
    requires id < |src.nodes| && src.nodes[id].node.SortNode?
    modifies dst
    ensures dst.Valid() && Step(GraphOf(src), old(GraphOf(dst)), GraphOf(dst), memo')
    ensures t < |dst.nodes| && dst.Term(t) == src.Term(id)
    decreases id, 1, 0
  {
    ghost var s := GraphOf(src);
    var x := src.nodes[id].node;
    assert Older(Kids(x), id);
    var info;
    info, memo' := TranslateInfo(src, x.info, dst, memo, id);
    ghost var d1 := GraphOf(dst);
    t := dst.MkSort(x.name, info, x.numElements);
    Rebuilt(s, id, d1, SortNode(x.name, info, x.numElements), GraphOf(dst), t, memo');
  }

  method TranslateDecl(src: AstManager, id: Id, dst: AstManager, memo: Memo) returns (t: Id, memo': Memo)
    requires src.Valid() && dst.Valid() && src != dst && MemoOk(GraphOf(src), GraphOf(dst), memo)
    requires id < |src.nodes| && src.nodes[id].node.FuncDecl?
    modifies dst
    ensures dst.Valid() && Step(GraphOf(src), old(GraphOf(dst)), GraphOf(dst), memo')
    ensures t < |dst.nodes| && dst.Term(t) == src.Term(id)
    decreases id, 1, 0
  {
    ghost var s := GraphOf(src);
    var x := src.nodes[id].node;
    DeclParts(x, id);
    assert Older(Kids(x), id) && NodeOk(src.nodes, src.families, id);
    var info, domain, range;
    info, memo' := TranslateInfo(src, x.info, dst, memo, id);
    ghost var d1, params, params' := GraphOf(dst), ParamIds(x.info.parameters), ParamIds(info.parameters);
    domain, memo' := TranslateAll(src, x.domain, dst, memo', id);
    ghost var d2 := GraphOf(dst);
    CopiedMore(s, params, d1, params', x.domain, d2, domain);
    range, memo' := TranslateMemo(src, x.range, dst, memo');
    ghost var d3 := GraphOf(dst);
    CopiedOne(s, x.range, d3, range);
    CopiedMore(s, params + x.domain, d2, params' + domain, [x.range], d3, [range]);
    DeclReady(s, x, d3, info, domain, range);
    t := dst.MkFuncDecl(x.name, info, x.flags, domain, range);
    Rebuilt(s, id, d3, FuncDecl(x.name, info, x.flags, domain, range), GraphOf(dst), t, memo');
  }

  lemma {:induction false} DeclParts(x: AstNode, n: nat)
    requires x.FuncDecl? && Older(Kids(x), n)
    ensures Older(ParamIds(x.info.parameters), n) && Older(x.domain, n) && x.range < n
  {
    var ps := ParamIds(x.info.parameters);
    forall i | 0 <= i < |ps| ensures ps[i] < n {
      assert Kids(x)[i] == ps[i];
    }
    forall i | 0 <= i < |x.domain| ensures x.domain[i] < n {
      assert Kids(x)[|ps| + i] == x.domain[i];
    }
    assert Kids(x)[|ps| + |x.domain|] == x.range;
  }

  /** What the target's constructor demands. */
  lemma {:induction false} DeclReady(s: Graph, x: AstNode, d: Graph, info: DeclInfo, domain: seq<Id>, range: Id)
    requires s.Ok() && d.Ok() && x.FuncDecl? && Older(Kids(x), |s.nodes|) && WellFormed(s.nodes, s.families, x)
    requires Copied(s, Kids(x), d, ParamIds(info.parameters) + domain + [range]) && |domain| == |x.domain|
    requires |ParamIds(info.parameters)| == |ParamIds(x.info.parameters)|
    ensures Older(ParamIds(info.parameters), |d.nodes|)
    ensures (forall i :: 0 <= i < |domain| ==> IsSort(d.nodes, domain[i])) && IsSort(d.nodes, range)
  {
    var ps, qs := ParamIds(x.info.parameters), ParamIds(info.parameters);
    TailCopied(s, ps + x.domain, [x.range], d, qs + domain, [range]);
    TailCopied(s, ps, x.domain, d, qs, domain);
    forall i | 0 <= i < |domain| ensures IsSort(d.nodes, domain[i]) {
      CopiedAt(s, x.domain, d, domain, i);
      assert IsSort(s.nodes, x.domain[i]);
      KindCopied(s, x.domain[i], d, domain[i]);
    }
    CopiedAt(s, [x.range], d, [range], 0);
    KindCopied(s, x.range, d, range);
  }

  method TranslateApp(src: AstManager, id: Id, dst: AstManager, memo: Memo) returns (t: Id, memo': Memo)
    requires src.Valid() && dst.Valid() && src != dst && MemoOk(GraphOf(src), GraphOf(dst), memo)
    requires id < |src.nodes| && src.nodes[id].node.App?
    modifies dst
    ensures dst.Valid() && Step(GraphOf(src), old(GraphOf(dst)), GraphOf(dst), memo')
    ensures t < |dst.nodes| && dst.Term(t) == src.Term(id)
    decreases id, 1, 0
  {
    ghost var s := GraphOf(src);
    var x := src.nodes[id].node;
    assert Older(Kids(x), id) && NodeOk(src.nodes, src.families, id);
    AppParts(x, id);
    var decl, args;
    decl, memo' := TranslateMemo(src, x.decl, dst, memo);
    ghost var d1 := GraphOf(dst);
    CopiedOne(s, x.decl, d1, decl);
    args, memo' := TranslateAll(src, x.args, dst, memo', id);
    ghost var d2 := GraphOf(dst);
    CopiedMore(s, [x.decl], d1, [decl], x.args, d2, args);
    AppReady(s, x, d2, decl, args);
    t := dst.MkApp(decl, args);
    Rebuilt(s, id, d2, App(decl, args), GraphOf(dst), t, memo');
  }

  lemma {:induction false} AppParts(x: AstNode, n: nat)
    requires x.App? && Older(Kids(x), n)
    ensures x.decl < n && Older(x.args, n)
  {
    assert Kids(x)[0] == x.decl;
    forall i | 0 <= i < |x.args| ensures x.args[i] < n {
      assert Kids(x)[i + 1] == x.args[i];
    }
  }

  lemma {:induction false} AppReady(s: Graph, x: AstNode, d: Graph, decl: Id, args: seq<Id>)
    requires s.Ok() && d.Ok() && x.App? && Older(Kids(x), |s.nodes|) && WellFormed(s.nodes, s.families, x)
    requires Copied(s, [x.decl] + x.args, d, [decl] + args)
    ensures decl < |d.nodes| && d.nodes[decl].node.FuncDecl? && |d.nodes[decl].node.domain| == |args| && Older(args, |d.nodes|)
  {
    TailCopied(s, [x.decl], x.args, d, [decl], args);
    CopiedAt(s, [x.decl] + x.args, d, [decl] + args, 0);
    KindCopied(s, x.decl, d, decl);
  }

  method TranslateVar(src: AstManager, id: Id, dst: AstManager, memo: Memo) returns (t: Id, memo': Memo)
    requires src.Valid() && dst.Valid() && src != dst && MemoOk(GraphOf(src), GraphOf(dst), memo)
    requires id < |src.nodes| && src.nodes[id].node.Var?
    modifies dst
    ensures dst.Valid() && Step(GraphOf(src), old(GraphOf(dst)), GraphOf(dst), memo')
    ensures t < |dst.nodes| && dst.Term(t) == src.Term(id)
    decreases id, 1, 0
  {
    ghost var s := GraphOf(src);
    var x := src.nodes[id].node;
    assert Older(Kids(x), id) && NodeOk(src.nodes, src.families, id) && Kids(x)[0] == x.sort;
    var sort;
    sort, memo' := TranslateMemo(src, x.sort, dst, memo);
    ghost var d1 := GraphOf(dst);
    KindCopied(s, x.sort, d1, sort);
    CopiedOne(s, x.sort, d1, sort);
    t := dst.MkVar(x.index, sort);
    Rebuilt(s, id, d1, Var(x.index, sort), GraphOf(dst), t, memo');
  }

  /** What a quantifier is made of, but for its sort. */
  method TranslateParts(src: AstManager, x: AstNode, dst: AstManager, memo: Memo, ghost n: nat)
    returns (varSorts: seq<Id>, body: Id, patterns: seq<Id>, memo': Memo)
    requires src.Valid() && dst.Valid() && src != dst && MemoOk(GraphOf(src), GraphOf(dst), memo) && n <= |src.nodes|
    requires x.Quantifier? && Older(x.varSorts, n) && x.body < n && Older(x.patterns, n)
    modifies dst
    ensures dst.Valid() && Step(GraphOf(src), old(GraphOf(dst)), GraphOf(dst), memo') && |varSorts| == |x.varSorts|
    ensures Copied(GraphOf(src), x.varSorts + [x.body] + x.patterns, GraphOf(dst), varSorts + [body] + patterns)
    decreases n, 0, 1
  {
    ghost var s := GraphOf(src);
    varSorts, memo' := TranslateAll(src, x.varSorts, dst, memo, n);
    ghost var d1 := GraphOf(dst);
    assert |s.Terms(x.varSorts)| == |d1.Terms(varSorts)|;
    body, memo' := TranslateMemo(src, x.body, dst, memo');
    ghost var d2 := GraphOf(dst);
    CopiedOne(s, x.body, d2, body);
    CopiedMore(s, x.varSorts, d1, varSorts, [x.body], d2, [body]);
    patterns, memo' := TranslateAll(src, x.patterns, dst, memo', n);
    CopiedMore(s, x.varSorts + [x.body], d2, varSorts + [body], x.patterns, GraphOf(dst), patterns);
  }

  /** A quantifier's sort is derived anew in the target, and comes out the same. */
  method TranslateQuantifier(src: AstManager, id: Id, dst: AstManager, memo: Memo) returns (t: Id, memo': Memo)
    requires src.Valid() && dst.Valid() && src != dst && MemoOk(GraphOf(src), GraphOf(dst), memo)
    requires id < |src.nodes| && src.nodes[id].node.Quantifier?
    modifies dst
    ensures dst.Valid() && Step(GraphOf(src), old(GraphOf(dst)), GraphOf(dst), memo')
    ensures t < |dst.nodes| && dst.Term(t) == src.Term(id)
    decreases id, 1, 0
  {
    ghost var s := GraphOf(src);
    var x := src.nodes[id].node;
    assert Older(Kids(x), id) && NodeOk(src.nodes, src.families, id);
    QuantifierParts(x, id);
    var varSorts, body, patterns;
    varSorts, body, patterns, memo' := TranslateParts(src, x, dst, memo, id);
    ghost var d3 := GraphOf(dst);
    QuantifierReady(s, x, d3, varSorts, body, patterns);
    t := dst.MkQuantifier(x.kind, varSorts, x.varNames, body, patterns, x.weight);
    QuantifierDone(s, id, d3, varSorts, body, patterns, GraphOf(dst), t, memo');
  }

  /** The sort derived is a copy too, and so is the quantifier. */
  lemma {:induction false} QuantifierDone(s: Graph, id: Id, d: Graph, varSorts: seq<Id>, body: Id, patterns: seq<Id>, d': Graph,
                                          t: Id, memo: Memo)
    requires s.Ok() && d.Ok() && d'.Ok() && id < |s.nodes| && d.GrowsTo(d') && MemoOk(s, d, memo)
    requires t < |d'.nodes| && s.nodes[id].node.Quantifier? && d'.nodes[t].node.Quantifier?
    requires var x, sort := s.nodes[id].node, d'.nodes[t].node.sort;
      && d'.nodes[t].node == Quantifier(x.kind, varSorts, x.varNames, body, patterns, x.weight, sort)
      && |varSorts| == |x.varSorts| && |patterns| == |x.patterns|
      && Copied(s, x.varSorts + [x.body] + x.patterns, d, varSorts + [body] + patterns)
      && sort < |d'.nodes| && x.sort < |s.nodes| && d'.Term(sort) == s.Term(x.sort)
    ensures d'.Term(t) == s.Term(id) && MemoOk(s, d', memo)
  {
    var x, y := s.nodes[id].node, d'.nodes[t].node;
    MemoKept(s, d, memo, d');
    CopiedOne(s, x.sort, d', y.sort);
    CopiedMore(s, x.varSorts + [x.body] + x.patterns, d, varSorts + [body] + patterns, [x.sort], d', [y.sort]);
    Rebuilt(s, id, d', y, d', t, memo);
  }

  lemma {:induction false} QuantifierParts(x: AstNode, n: nat)
    requires x.Quantifier? && Older(Kids(x), n)
    ensures Older(x.varSorts, n) && x.body < n && Older(x.patterns, n) && x.sort < n
  {
    var v, p := |x.varSorts|, |x.patterns|;
    forall i | 0 <= i < v ensures x.varSorts[i] < n {
      assert Kids(x)[i] == x.varSorts[i];
    }
    assert Kids(x)[v] == x.body && Kids(x)[v + 1 + p] == x.sort;
    forall i | 0 <= i < p ensures x.patterns[i] < n {
      assert Kids(x)[v + 1 + i] == x.patterns[i];
    }
  }

  /** What the target's constructor demands, and the sort it derives. */
  lemma {:induction false} QuantifierReady(s: Graph, x: AstNode, d: Graph, varSorts: seq<Id>, body: Id, patterns: seq<Id>)
    requires s.Ok() && d.Ok() && x.Quantifier? && Older(Kids(x), |s.nodes|) && WellFormed(s.nodes, s.families, x)
    requires Copied(s, x.varSorts + [x.body] + x.patterns, d, varSorts + [body] + patterns) && |varSorts| == |x.varSorts|
    ensures Older(varSorts, |d.nodes|) && body < |d.nodes| && Older(patterns, |d.nodes|) && |patterns| == |x.patterns|
    ensures x.kind == Lambda ==> IsExpr(d.nodes, body)
    ensures QuantifierSort(x.kind, UnfoldAll(d.nodes, d.families, varSorts, |d.nodes|), d.Term(body)) == s.Term(x.sort)
  {
    TailCopied(s, x.varSorts + [x.body], x.patterns, d, varSorts + [body], patterns);
    TailCopied(s, x.varSorts, [x.body], d, varSorts, [body]);
    CopiedAt(s, [x.body], d, [body], 0);
    KindCopied(s, x.body, d, body);
  }

  /** The copy of a term: the target keeps what it has, and the result has the source's term. */
  method Translate(src: AstManager, id: Id, dst: AstManager) returns (t: Id)
    requires src.Valid() && dst.Valid() && src != dst && id < |src.nodes|
    modifies dst
    ensures dst.Valid() && old(GraphOf(dst)).GrowsTo(GraphOf(dst)) && t < |dst.nodes|
    ensures dst.Term(t) == src.Term(id)
    ensures forall n :: 0 <= n < |old(dst.nodes)| ==> dst.Term(n) == old(dst.Term(n))
  {
    ghost var d := GraphOf(dst);
    var memo;
    t, memo := TranslateMemo(src, id, dst, []);
    forall n | 0 <= n < |d.nodes| ensures dst.Term(n) == d.Term(n) {
      UnfoldKept(d.nodes, d.families, dst.nodes, dst.families, n);
    }
  }
}
