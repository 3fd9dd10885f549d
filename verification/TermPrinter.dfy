/** The printer: aliases for subterms that are too deep, or shared and heavy, in `let`s around the term. */
module TermPrinter {
  import opened Options
  import opened PrintDocs
  import opened PrintTerms
  import opened PrintReading

  const MAX_DEPTH: nat := 5
  const MIN_ALIAS_SIZE: nat := 10
  const MAX_INDENT: nat := 16
  const SMALL_INDENT: nat := 2

  /** The summary of a printed subterm. */
  datatype Info = Info(lvl: nat, weight: nat, depth: nat)

  const LEAF := Info(0, 1, 1)

  datatype AliasDef = AliasDef(f: Fmt, lvl: nat, k: nat)

  type Doc = (Fmt, Info)

  function Max(a: nat, b: nat): nat {
    if a < b then b else a
  }

  // ----- documents and the expressions they print -----

  /** The document prints the expression, whose free aliases are below its level, with its weight and depth. */
  ghost predicate DocOk(doc: Doc, e: Expr, entries: seq<Entry>) {
    && FlatText(doc.0) == Render(e) && Closed(e, Names(entries, doc.1.lvl))
    && doc.1.weight == Weight(e) && doc.1.depth == Depth(e)
  }

  ghost predicate DocsOk(docs: seq<Doc>, es: seq<Expr>, entries: seq<Entry>) {
    |docs| == |es| && forall i :: 0 <= i < |docs| ==> DocOk(docs[i], es[i], entries)
  }

  /** The expressions stand for what is shown of the node as an argument of `parent`. */
  ghost predicate Stand(es: seq<Expr>, values: Values, d: Dag, assoc: Assoc, shared: set<Id>, n: Id, parent: Option<string>)
    requires d.Valid() && n < |d.nodes|
  {
    ExpandAll(es, values) == ShownAs(d, assoc, shared, n, parent)
  }

  lemma {:induction false} OneStands(e: Expr, values: Values, d: Dag, assoc: Assoc, shared: set<Id>, n: Id,
                                     parent: Option<string>)
    requires d.Valid() && n < |d.nodes| && Expand(e, values) == Shown(d, assoc, shared, n)
    requires !Merges(d, assoc, shared, n, parent)
    ensures Stand([e], values, d, assoc, shared, n, parent)
  {
    assert [e][1..] == [];
    assert ExpandAll([e], values) == [Expand(e, values)];
  }

  lemma {:induction false} NamesMono(entries: seq<Entry>, a: nat, b: nat)
    requires a <= b
    ensures Names(entries, a) <= Names(entries, b)
  {
  }

  lemma {:induction false} DocsClosed(docs: seq<Doc>, es: seq<Expr>, entries: seq<Entry>, lvl: nat)
    requires DocsOk(docs, es, entries) && forall i :: 0 <= i < |docs| ==> docs[i].1.lvl <= lvl
    ensures AllClosed(es, Names(entries, lvl))
    decreases |es|
  {
    if es != [] {
      assert DocOk(docs[0], es[0], entries);
      NamesMono(entries, docs[0].1.lvl, lvl);
      ClosedMore(es[0], Names(entries, docs[0].1.lvl), Names(entries, lvl));
      forall i | 0 <= i < |docs[1..]| ensures DocOk(docs[1..][i], es[1..][i], entries) {
        assert DocOk(docs[i + 1], es[i + 1], entries);
      }
      DocsClosed(docs[1..], es[1..], entries, lvl);
    }
  }

  /** How far the aliases have grown. */
  ghost predicate Grown(entries: seq<Entry>, values: Values, entries': seq<Entry>, values': Values) {
    entries <= entries' && forall k :: k in values ==> k in values' && values'[k] == values[k]
  }

  lemma {:induction false} NamesKept(entries: seq<Entry>, entries': seq<Entry>, lvl: nat)
    requires entries <= entries'
    ensures Names(entries, lvl) <= Names(entries', lvl)
  {
    forall k | k in Names(entries, lvl) ensures k in Names(entries', lvl) {
      assert entries'[k - 1] == entries[k - 1];
    }
  }

  lemma {:induction false} DocsKept(docs: seq<Doc>, es: seq<Expr>, entries: seq<Entry>, entries': seq<Entry>)
    requires DocsOk(docs, es, entries) && entries <= entries'
    ensures DocsOk(docs, es, entries')
  {
    forall i | 0 <= i < |docs| ensures DocOk(docs[i], es[i], entries') {
      assert DocOk(docs[i], es[i], entries);
      NamesKept(entries, entries', docs[i].1.lvl);
      ClosedMore(es[i], Names(entries, docs[i].1.lvl), Names(entries', docs[i].1.lvl));
    }
  }

  lemma {:induction false} DocsAppend(docs: seq<Doc>, es: seq<Expr>, more: seq<Doc>, fs: seq<Expr>, entries: seq<Entry>)
    requires DocsOk(docs, es, entries) && DocsOk(more, fs, entries)
    ensures DocsOk(docs + more, es + fs, entries)
  {
  }

  function TopLevel(docs: seq<Doc>): (lvl: nat)
    ensures forall i :: 0 <= i < |docs| ==> docs[i].1.lvl <= lvl
  {
    if docs == [] then 0 else Max(docs[0].1.lvl, TopLevel(docs[1..]))
  }

  /** New aliases do not change what printed documents stand for. */
  lemma {:induction false} ValuesKept(docs: seq<Doc>, es: seq<Expr>, entries: seq<Entry>, values: Values, values': Values,
                                      d: Dag, assoc: Assoc, shared: set<Id>)
    requires DocsOk(docs, es, entries) && EntriesOk(entries, values, d, assoc, shared)
    requires forall k :: k in values ==> k in values' && values'[k] == values[k]
    ensures ExpandAll(es, values) == ExpandAll(es, values')
  {
    DocsClosed(docs, es, entries, TopLevel(docs));
    ExpandAllAgree(es, Names(entries, TopLevel(docs)), values, values');
  }

  lemma {:induction false} DepthsBelow(docs: seq<Doc>, es: seq<Expr>, entries: seq<Entry>)
    requires DocsOk(docs, es, entries) && forall i :: 0 <= i < |docs| ==> docs[i].1.depth < MAX_DEPTH
    ensures DepthAll(es) < MAX_DEPTH
    decreases |es|
  {
    if es != [] {
      assert DocOk(docs[0], es[0], entries);
      forall i | 0 <= i < |docs[1..]| ensures DocOk(docs[1..][i], es[1..][i], entries) {
        assert DocOk(docs[i + 1], es[i + 1], entries);
      }
      DepthsBelow(docs[1..], es[1..], entries);
    }
  }

  // ----- applications -----

  function Docs(docs: seq<Doc>): (fs: seq<Fmt>)
    ensures |fs| == |docs| && forall i :: 0 <= i < |docs| ==> fs[i] == docs[i].0
  {
    seq(|docs|, i requires 0 <= i < |docs| => docs[i].0)
  }

  lemma {:induction false} DocsText(docs: seq<Doc>, es: seq<Expr>, entries: seq<Entry>)
    requires DocsOk(docs, es, entries)
    ensures Texts(Docs(docs)) == RenderAll(es)
    decreases |es|
  {
    if es != [] {
      assert DocOk(docs[0], es[0], entries);
      forall i | 0 <= i < |docs[1..]| ensures DocOk(docs[1..][i], es[1..][i], entries) {
        assert DocOk(docs[i + 1], es[i + 1], entries);
      }
      DocsText(docs[1..], es[1..], entries);
      assert Texts(Docs(docs)) == [FlatText(docs[0].0)] + Texts(Docs(docs[1..]));
    }
  }

  /** The document of an application: aligned after a short head, indented after a long or an indexed one. */
  function ApplyDoc(head: string, indexed: bool, fs: seq<Fmt>): Fmt
    requires fs != []
  {
    var heading := Indent(1, Compose([Str("("), Str(head)]));
    var body := if indexed || |head| > MAX_INDENT then Indent(SMALL_INDENT, LongBody(fs))
                else Indent(|head| + 2, ShortBody(fs));
    Group(Compose([heading, body]))
  }

  lemma {:induction false} ApplyText(head: string, indexed: bool, fs: seq<Fmt>)
    requires fs != []
    ensures FlatText(ApplyDoc(head, indexed, fs)) == "(" + head + " " + Spaced(Texts(fs)) + ")"
  {
    var heading := Indent(1, Compose([Str("("), Str(head)]));
    var long, short := Indent(SMALL_INDENT, LongBody(fs)), Indent(|head| + 2, ShortBody(fs));
    TwoTexts(Str("("), Str(head));
    BodyTexts(fs);
    TwoTexts(heading, long);
    TwoTexts(heading, short);
    Regroup("(" + head, " " + Spaced(Texts(fs)), ")");
    Regroup("(" + head, " ", Spaced(Texts(fs)));
  }

  /** A broken application with a short head has its arguments aligned after it. */
  lemma {:induction false} ApplyAligned(head: string, fs: seq<Fmt>, ind: nat)
    requires fs != [] && |head| <= MAX_INDENT && !Fits(ApplyDoc(head, false, fs).f, false, ind)
    ensures Lay(ApplyDoc(head, false, fs), ind, false, ind).0 == ("(" + head) + (" " + (Stacked(fs, ind + |head| + 2) + ")"))
  {
    HeadingLaid(head, Indent(|head| + 2, ShortBody(fs)), ind);
    BodyStack(fs, ind + |head| + 2);
  }

  /** With a long or an indexed head, each argument is on a line of its own, indented by two. */
  lemma {:induction false} ApplyIndented(head: string, indexed: bool, fs: seq<Fmt>, ind: nat)
    requires fs != [] && (indexed || |head| > MAX_INDENT) && !Fits(ApplyDoc(head, indexed, fs).f, false, ind)
    ensures Lay(ApplyDoc(head, indexed, fs), ind, false, ind).0
      == ("(" + head) + ("\n" + Spaces(ind + SMALL_INDENT) + Stacked(fs, ind + SMALL_INDENT) + ")")
  {
    HeadingLaid(head, Indent(SMALL_INDENT, LongBody(fs)), ind);
    LongLaid(fs, ind + SMALL_INDENT, ind + 1 + |head|);
  }

  lemma {:induction false} HeadingLaid(head: string, body: Fmt, ind: nat)
    ensures LayAll([Indent(1, Compose([Str("("), Str(head)])), body], ind, false, ind).0
      == ("(" + head) + Lay(body, ind, false, ind + 1 + |head|).0
  {
    LayTwo(Str("("), Str(head), ind + 1, ind);
    LayTwo(Indent(1, Compose([Str("("), Str(head)])), body, ind, ind);
  }

  lemma {:induction false} LongLaid(fs: seq<Fmt>, c: nat, pos: nat)
    requires fs != []
    ensures Lay(LongBody(fs), c, false, pos).0 == "\n" + Spaces(c) + Stacked(fs, c) + ")"
  {
    LinesStack(fs, c, pos);
    LayTwo(Seq(fs), Str(")"), c, pos);
  }

  function LongBody(fs: seq<Fmt>): Fmt {
    Compose([Seq(fs), Str(")")])
  }

  function ShortBody(fs: seq<Fmt>): Fmt
    requires fs != []
  {
    Compose([Str(" "), fs[0], Seq(fs[1..]), Str(")")])
  }

  lemma {:induction false} BodyTexts(fs: seq<Fmt>)
    requires fs != []
    ensures FlatText(LongBody(fs)) == " " + Spaced(Texts(fs)) + ")" && FlatText(ShortBody(fs)) == " " + Spaced(Texts(fs)) + ")"
  {
    TwoTexts(Seq(fs), Str(")"));
    LinesText(fs);
    FourTexts(Str(" "), fs[0], Seq(fs[1..]), Str(")"));
    SpacedHead(fs);
    Regroup(" ", FlatText(fs[0]), FlatTexts(Lines(fs[1..])));
  }

  lemma {:induction false} ShownSnoc(d: Dag, assoc: Assoc, shared: set<Id>, args: seq<Id>, i: nat, n: Id, head: string)
    requires d.Valid() && n <= |d.nodes| && Older(args, n) && i < |args|
    ensures ShownAll(d, assoc, shared, args[..i + 1], n, head)
      == ShownAll(d, assoc, shared, args[..i], n, head) + ShownAs(d, assoc, shared, args[i], Some(head))
    decreases i
  {
    if i > 0 {
      ShownSnoc(d, assoc, shared, args[1..], i - 1, n, head);
      assert args[..i + 1][1..] == args[1..][..i] && args[..i][1..] == args[1..][..i - 1];
    } else {
      assert args[..1][1..] == [];
    }
  }

  lemma {:induction false} ExpandSnoc(es: seq<Expr>, fs: seq<Expr>, values: Values)
    ensures ExpandAll(es + fs, values) == ExpandAll(es, values) + ExpandAll(fs, values)
  {
    if es == [] {
      assert es + fs == fs;
    } else {
      ExpandSnoc(es[1..], fs, values);
      assert (es + fs)[1..] == es[1..] + fs && (es + fs)[0] == es[0];
    }
  }

  // ----- lets -----

  /** The text of the `let`s of the levels below `lvl`, and how many they are. */
  ghost function Opened(entries: seq<Entry>, lvl: nat): (string, nat) {
    if lvl == 0 then ("", 0)
    else
      var (t, n) := Opened(entries, lvl - 1);
      var defs := LevelFrom(entries, lvl - 1, 0);
      if defs == [] then (t, n)
      else (t + (if n > 0 then " " else "") + "(let (" + Spaced(RenderDefs(defs)) + ")", n + 1)
  }

  ghost function Closers(n: nat): string {
    if n == 0 then "" else ")" + Closers(n - 1)
  }

  /** The whole text, when `inner` is what the levels from `lvl` on print. */
  ghost function Wrapped(entries: seq<Entry>, lvl: nat, inner: string): string {
    var (t, n) := Opened(entries, lvl);
    t + (if n > 0 then " " else "") + inner + Closers(n)
  }

  lemma {:induction false} WrappedStep(entries: seq<Entry>, lvl: nat, max: nat, body: Expr)
    requires lvl <= max
    ensures Wrapped(entries, lvl, Render(Nest(entries, lvl, max, body)))
      == Wrapped(entries, lvl + 1, Render(Nest(entries, lvl + 1, max, body)))
  {
    var (t, n) := Opened(entries, lvl);
    var defs, inner := LevelFrom(entries, lvl, 0), Nest(entries, lvl + 1, max, body);
    if defs != [] {
      var sep := if n > 0 then " " else "";
      var ds, x := Spaced(RenderDefs(defs)), Render(inner);
      assert Nest(entries, lvl, max, body) == LetIn(defs, inner);
      assert Opened(entries, lvl + 1) == (t + sep + "(let (" + ds + ")", n + 1);
      LetTexts(t + sep, ds, x, Closers(n));
      assert Wrapped(entries, lvl + 1, x) == (t + sep + "(let (" + ds + ")") + " " + x + (")" + Closers(n));
      assert Wrapped(entries, lvl, Render(LetIn(defs, inner))) == t + sep + ("(let (" + ds + ") " + x + ")") + Closers(n);
    }
  }

  lemma {:induction false} LetTexts(t: string, ds: string, inner: string, closers: string)
    ensures t + ("(let (" + ds + ") " + inner + ")") + closers == (t + "(let (" + ds + ")") + " " + inner + (")" + closers)
  {
    assert ") " == ")" + " ";
  }

  lemma {:induction false} NestText(entries: seq<Entry>, lvl: nat, max: nat, body: Expr)
    requires lvl <= max + 1
    ensures Wrapped(entries, lvl, Render(Nest(entries, lvl, max, body))) == Wrapped(entries, max + 1, Render(body))
    decreases max + 1 - lvl
  {
    if lvl <= max {
      WrappedStep(entries, lvl, max, body);
      NestText(entries, lvl + 1, max, body);
    }
  }

  /** The text of the nested `let`s around the body. */
  lemma {:induction false} LetsText(entries: seq<Entry>, max: nat, body: Expr)
    ensures Render(Nest(entries, 0, max, body)) == Wrapped(entries, max + 1, Render(body))
  {
    NestText(entries, 0, max, body);
    var t := Render(Nest(entries, 0, max, body));
    assert "" + "" + t + Closers(0) == t;
  }

  /** The alias definitions print the entries. */
  ghost predicate DefsOk(defs: seq<AliasDef>, entries: seq<Entry>) {
    |defs| == |entries| && forall i :: 0 <= i < |defs| ==> DefOk(defs[i], entries[i], i)
  }

  ghost predicate DefOk(d: AliasDef, x: Entry, i: nat) {
    d.k == i + 1 && d.lvl == x.lvl && FlatText(d.f) == Render(x.e)
  }

  function DeclDoc(d: AliasDef): Fmt {
    Seq1([d.f], AliasName(d.k))
  }

  lemma {:induction false} DeclText(d: AliasDef, x: Entry, i: nat)
    requires DefOk(d, x, i)
    ensures FlatText(DeclDoc(d)) == RenderAlias(Alias(i + 1, x.e))
  {
    Seq1Items([d.f], AliasName(d.k));
    assert Texts([d.f])[0] == FlatText(d.f);
  }

  lemma {:induction false} LevelSnoc(entries: seq<Entry>, lvl: nat, i: nat)
    requires i < |entries|
    ensures LevelFrom(entries, lvl, i)
      == (if entries[i].lvl == lvl then [Alias(i + 1, entries[i].e)] else []) + LevelFrom(entries, lvl, i + 1)
  {
  }

  /** The declarations of one level. */
  method LevelDecls(defs: seq<AliasDef>, lvl: nat, ghost entries: seq<Entry>) returns (decls: seq<Fmt>)
    requires DefsOk(defs, entries)
    ensures Texts(decls) == RenderDefs(LevelFrom(entries, lvl, 0))
  {
    decls := [];
    var i := |defs|;
    while i > 0
      invariant 0 <= i <= |defs| && Texts(decls) == RenderDefs(LevelFrom(entries, lvl, i))
    {
      i := i - 1;
      assert DefOk(defs[i], entries[i], i);
      LevelSnoc(entries, lvl, i);
      if defs[i].lvl == lvl {
        DeclText(defs[i], entries[i], i);
        ghost var a := Alias(i + 1, entries[i].e);
        ghost var rest := LevelFrom(entries, lvl, i + 1);
        assert ([a] + rest)[1..] == rest && ([a] + rest)[0] == a;
        ghost var before := decls;
        decls := [DeclDoc(defs[i])] + decls;
        assert Texts(decls) == [FlatText(DeclDoc(defs[i]))] + Texts(before);
      } else {
        assert [] + LevelFrom(entries, lvl, i + 1) == LevelFrom(entries, lvl, i + 1);
      }
    }
  }

  method MaxLevel(defs: seq<AliasDef>) returns (max: nat)
    ensures forall i :: 0 <= i < |defs| ==> defs[i].lvl <= max
  {
    max := 0;
    for i := 0 to |defs|
      invariant forall j :: 0 <= j < i ==> defs[j].lvl <= max
    {
      max := Max(max, defs[i].lvl);
    }
  }

  /** The body on a line of its own, and the closing parentheses. */
  method CloseLets(buf: seq<Fmt>, numOp: nat, body: Fmt) returns (buf': seq<Fmt>)
    ensures FlatTexts(buf') == FlatTexts(buf) + (" " + FlatText(body)) + Closers(numOp)
  {
    var inside := Indent(SMALL_INDENT, Compose([LineBreak, body]));
    TwoTexts(LineBreak, body);
    FlatTextsAppend(buf, [inside]);
    OneText(inside);
    buf' := buf + [inside];
    ghost var start := FlatTexts(buf');
    for k := 0 to numOp
      invariant FlatTexts(buf') == start + Closers(k)
    {
      FlatTextsAppend(buf', [Str(")")]);
      OneText(Str(")"));
      CloserSnoc(k);
      Regroup(start, Closers(k), ")");
      buf' := buf' + [Str(")")];
    }
  }

  /** One `let` for each level that has aliases. */
  method OpenLets(defs: seq<AliasDef>, maxLvl: nat, ghost entries: seq<Entry>) returns (buf: seq<Fmt>, numOp: nat)
    requires DefsOk(defs, entries) && defs != [] && defs[0].lvl <= maxLvl
    ensures (FlatTexts(buf), numOp) == Opened(entries, maxLvl + 1) && numOp > 0
  {
    buf, numOp := [], 0;
    assert DefOk(defs[0], entries[0], 0);
    for lvl := 0 to maxLvl + 1
      invariant (FlatTexts(buf), numOp) == Opened(entries, lvl)
      invariant lvl > defs[0].lvl ==> numOp > 0
    {
      var decls := LevelDecls(defs, lvl, entries);
      if lvl == defs[0].lvl {
        LevelHas(entries, lvl, 0);
      }
      if decls != [] {
        buf, numOp := OpenLet(buf, numOp, decls);
      }
    }
  }

  /** Wrap the body in one `let` a level. */
  method WrapLets(defs: seq<AliasDef>, body: Fmt, ghost entries: seq<Entry>, ghost e: Expr) returns (f: Fmt, ghost max: nat)
    requires DefsOk(defs, entries) && defs != [] && FlatText(body) == Render(e)
    ensures FlatText(f) == Render(Nest(entries, 0, max, e))
    ensures forall i :: 0 <= i < |entries| ==> entries[i].lvl <= max
  {
    var maxLvl := MaxLevel(defs);
    max := maxLvl;
    assert forall i :: 0 <= i < |entries| ==> DefOk(defs[i], entries[i], i);
    var buf, numOp := OpenLets(defs, maxLvl, entries);
    buf := CloseLets(buf, numOp, body);
    f := Compose(buf);
    LetsText(entries, maxLvl, e);
    WrapsUp(entries, maxLvl + 1, FlatText(body));
  }

  lemma {:induction false} WrapsUp(entries: seq<Entry>, lvl: nat, body: string)
    requires Opened(entries, lvl).1 > 0
    ensures Opened(entries, lvl).0 + (" " + body) + Closers(Opened(entries, lvl).1) == Wrapped(entries, lvl, body)
  {
    Regroup(Opened(entries, lvl).0, " ", body);
  }

  lemma {:induction false} OneText(f: Fmt)
    ensures FlatTexts([f]) == FlatText(f)
  {
    assert [f][1..] == [];
    assert FlatTexts([f]) == FlatText(f) + FlatTexts([]);
  }

  lemma {:induction false} CloserSnoc(n: nat)
    ensures Closers(n + 1) == Closers(n) + ")"
  {
    if n > 0 {
      CloserSnoc(n - 1);
    }
  }

  lemma {:induction false} LevelHas(entries: seq<Entry>, lvl: nat, i: nat)
    requires i < |entries| && entries[i].lvl == lvl
    ensures LevelFrom(entries, lvl, i) != []
  {
  }

  /** One more `let`, on a line of its own unless it is the first. */
  method OpenLet(buf: seq<Fmt>, numOp: nat, decls: seq<Fmt>) returns (buf': seq<Fmt>, numOp': nat)
    ensures numOp' == numOp + 1
    ensures FlatTexts(buf') == FlatTexts(buf) + (if numOp > 0 then " " else "") + "(let (" + Spaced(Texts(decls)) + ")"
  {
    buf' := buf;
    if numOp > 0 {
      FlatTextsAppend(buf, [LineBreak]);
      OneText(LineBreak);
      buf' := buf + [LineBreak];
    }
    ghost var start := FlatTexts(buf');
    var more := [Str("(let "), Indent(5, Seq5(decls))];
    FlatTextsAppend(buf', more);
    TwoTexts(more[0], more[1]);
    Seq5Text(decls);
    buf' := buf' + more;
    numOp' := numOp + 1;
    LetOpens(start, Spaced(Texts(decls)));
  }

  lemma {:induction false} LetOpens(start: string, ds: string)
    ensures start + ("(let " + ("(" + ds + ")")) == start + "(let (" + ds + ")"
  {
    assert "(let " + "(" == "(let (";
  }

  // ----- quantifiers -----

  function VarDocs(vars: seq<(string, string)>): (fs: seq<Fmt>)
    ensures |fs| == |vars|
  {
    if vars == [] then [] else [Seq1([Str(vars[0].1)], vars[0].0)] + VarDocs(vars[1..])
  }

  lemma {:induction false} VarsText(vars: seq<(string, string)>)
    ensures Texts(VarDocs(vars)) == RenderVars(vars)
  {
    if vars != [] {
      VarsText(vars[1..]);
      Seq1Items([Str(vars[0].1)], vars[0].0);
      assert Texts([Str(vars[0].1)])[0] == vars[0].1;
      assert Texts(VarDocs(vars)) == [FlatText(Seq1([Str(vars[0].1)], vars[0].0))] + Texts(VarDocs(vars[1..]));
    }
  }

  function QuantDoc(b: Binder, body: Fmt): Fmt {
    var first := Group(Indent(|b.header| + 2, Compose([Str(" "), Seq5(VarDocs(b.vars))])));
    var rest := Indent(SMALL_INDENT, Seq([body]));
    Group(Compose([Str("("), Str(b.header), first, rest, Str(")")]))
  }

  lemma {:induction false} QuantText(b: Binder, body: Fmt, e: Expr)
    requires FlatText(body) == Render(e)
    ensures FlatText(QuantDoc(b, body)) == Render(Bind(b, e))
  {
    var first := Group(Indent(|b.header| + 2, Compose([Str(" "), Seq5(VarDocs(b.vars))])));
    var rest := Indent(SMALL_INDENT, Seq([body]));
    var vars := Spaced(RenderVars(b.vars));
    var tail := [Str(b.header), first, rest, Str(")")];
    QuantFirst(b);
    QuantRest(body);
    FourTexts(tail[0], first, rest, tail[3]);
    PushText(Str("("), tail);
    assert [Str("(")] + tail == [Str("("), tail[0], first, rest, tail[3]];
    QuantTexts(b.header, vars, Render(e));
  }

  lemma {:induction false} PushText(f: Fmt, fs: seq<Fmt>)
    ensures FlatTexts([f] + fs) == FlatText(f) + FlatTexts(fs)
  {
    assert ([f] + fs)[1..] == fs;
  }

  lemma {:induction false} QuantFirst(b: Binder)
    ensures FlatText(Group(Indent(|b.header| + 2, Compose([Str(" "), Seq5(VarDocs(b.vars))]))))
      == " " + ("(" + Spaced(RenderVars(b.vars)) + ")")
  {
    var decls := Compose([Str(" "), Seq5(VarDocs(b.vars))]);
    TwoTexts(Str(" "), Seq5(VarDocs(b.vars)));
    Seq5Text(VarDocs(b.vars));
    VarsText(b.vars);
    assert FlatText(Indent(|b.header| + 2, decls)) == FlatText(decls);
  }

  lemma {:induction false} QuantRest(body: Fmt)
    ensures FlatText(Indent(SMALL_INDENT, Seq([body]))) == " " + FlatText(body)
  {
    LinesText([body]);
    assert Texts([body])[0] == FlatText(body);
    assert FlatText(Seq([body])) == FlatTexts(Lines([body]));
  }

  lemma {:induction false} QuantTexts(header: string, vars: string, body: string)
    ensures "(" + (header + (" " + ("(" + vars + ")")) + (" " + body) + ")") == "(" + header + " (" + vars + ") " + body + ")"
  {
    assert " (" == " " + "(" && ") " == ")" + " ";
    var x := vars + ")" + " " + body + ")";
    assert "(" + (header + (" " + ("(" + vars + ")")) + (" " + body) + ")") == ("(" + header) + " " + "(" + x;
    assert "(" + header + " (" + vars + ") " + body + ")" == ("(" + header) + " (" + x;
  }

  // ----- the printer -----

  ghost predicate Inner(d: Dag, n: Id) {
    n < |d.nodes| && d.nodes[n].args != []
  }

  ghost predicate Child(d: Dag, p: Id, c: Id) {
    p < |d.nodes| && c in d.nodes[p].args
  }

  /** Below the nodes of `reach`, only a shared node is an argument of two of them. */
  ghost predicate Sharing(d: Dag, shared: set<Id>, reach: set<Id>) {
    && (forall p, c :: p in reach && Child(d, p, c) && Inner(d, c) ==> c in reach)
    && (forall p, q, c :: p in reach && q in reach && Child(d, p, c) && Child(d, q, c) && Inner(d, c) && c !in shared ==> p == q)
  }

  /** What makes the printer introduce an alias: too deep, or shared and heavy. */
  predicate Worthy(weight: nat, depth: nat, isShared: bool) {
    depth >= MAX_DEPTH || (weight >= MIN_ALIAS_SIZE && isShared)
  }

  class Printer {
    const d: Dag
    const root: Id
    const shared: set<Id>
    const assoc: Assoc
    ghost const reach: set<Id>

    /** The alias of a node, and its level. */
    var alias: map<Id, (nat, nat)>
    var aliasDefs: seq<AliasDef>
    var nextAlias: nat

    /** What each alias prints and stands for. */
    ghost var entries: seq<Entry>
    ghost var values: Values

    ghost predicate Valid()
      reads this
    {
      && EntriesOk(entries, values, d, assoc, shared) && DefsOk(aliasDefs, entries) && nextAlias == |entries| + 1
      && (forall i :: 0 <= i < |entries| ==> WorthyEntry(entries[i]) && Drawn(entries[i].e, d))
      && (forall n :: n in alias ==> AliasOk(alias[n], n))
      && Sharing(d, shared, reach)
    }

    ghost predicate WorthyEntry(x: Entry) {
      x.node != root && Worthy(Weight(x.e), Depth(x.e), x.node in shared)
    }

    ghost predicate AliasOk(a: (nat, nat), n: Id)
      reads this
    {
      && 1 <= a.0 <= |entries| && entries[a.0 - 1].node == n && entries[a.0 - 1].lvl == a.1
      && n < |d.nodes| && n != root
      && (forall p :: p in reach && Child(d, p, n) && p !in d.binders ==> !Merges(d, assoc, shared, n, Some(d.nodes[p].head)))
    }

    constructor (d: Dag, root: Id, shared: set<Id>, assoc: Assoc, ghost reach: set<Id>)
      requires d.Valid() && Sharing(d, shared, reach)
      ensures Valid() && entries == [] && this.d == d && this.assoc == assoc && this.shared == shared && this.root == root
      ensures this.reach == reach
    {
      this.d, this.root, this.shared, this.assoc, this.reach := d, root, shared, assoc, reach;
      alias, aliasDefs, nextAlias, entries, values := map[], [], 1, [], map[];
    }

    /** Node `n` is the root, or an argument of the node `from` with head `parent`. */
    ghost predicate Asked(n: Id, parent: Option<string>, from: Id) {
      && n < |d.nodes| && n <= root && (Inner(d, n) ==> n in reach)
      && match parent
         case None => n == root
         case Some(h) => from in reach && Child(d, from, n) && from !in d.binders && h == d.nodes[from].head
    }

    /** The documents print node `n` as an argument of `parent`; but for the root, none is too deep, or shared and heavy. */
    ghost predicate Printed(docs: seq<Doc>, es: seq<Expr>, n: Id, parent: Option<string>)
      requires d.Valid() && n < |d.nodes|
      reads this
    {
      && DocsOk(docs, es, entries) && Stand(es, values, d, assoc, shared, n, parent) && AllDrawn(es, d)
      && (n != root ==> forall i :: 0 <= i < |docs| ==> !Worthy(docs[i].1.weight, docs[i].1.depth, n in shared))
      && (n !in d.binders ==> forall i :: 0 <= i < |docs| ==> docs[i].1.depth <= MAX_DEPTH)
    }

    /** The documents of node `n` as an argument of `parent`: several for a flattened application. */
    method Visit(n: Id, parent: Option<string>, ghost from: Id) returns (docs: seq<Doc>, ghost es: seq<Expr>)
      requires Valid() && Asked(n, parent, from)
      modifies this
      ensures Valid() && Grown(old(entries), old(values), entries, values) && Printed(docs, es, n, parent)
      decreases n, 2
    {
      if n in alias {
        var (k, lvl) := alias[n];
        docs, es := [(Str(AliasName(k)), Info(lvl + 1, 1, 1))], [Ref(k)];
        RefStands(n, k, lvl, parent, from);
        return;
      }
      if n in d.binders {
        var f, info;
        ghost var e;
        f, info, e := Quantifier(n);
        ClosedMore(e, {}, Names(entries, 0));
        docs, es := Store(n, f, info, e, parent, from);
        return;
      }
      var head := d.nodes[n].head;
      if d.nodes[n].args == [] {
        docs, es := [(Str(head), LEAF)], [Leaf(head)];
        assert Constant(head, d);
        OneDrawn(Leaf(head), d);
        OneStands(Leaf(head), values, d, assoc, shared, n, parent);
        return;
      }
      var kids;
      ghost var ks;
      kids, ks := VisitArgs(n);
      if parent == Some(head) && assoc(head) && n !in shared {
        return kids, ks;
      }
      var info := Summary(kids, ks, entries);
      DepthsBelow(kids, ks, entries);
      var f := ApplyDoc(head, d.nodes[n].indexed, Docs(kids));
      ApplyText(head, d.nodes[n].indexed, Docs(kids));
      DocsText(kids, ks, entries);
      DocsClosed(kids, ks, entries, info.lvl);
      docs, es := Store(n, f, info, Apply(head, ks), parent, from);
    }

    lemma {:induction false} RefStands(n: Id, k: nat, lvl: nat, parent: Option<string>, from: Id)
      requires Valid() && Asked(n, parent, from) && AliasOk((k, lvl), n)
      ensures Printed([(Str(AliasName(k)), Info(lvl + 1, 1, 1))], [Ref(k)], n, parent)
    {
      assert EntryOk(entries, values, d, assoc, shared, k - 1);
      OneStands(Ref(k), values, d, assoc, shared, n, parent);
      OneDrawn(Ref(k), d);
    }

    /** The documents of all arguments, in order. */
    method VisitArgs(n: Id) returns (kids: seq<Doc>, ghost ks: seq<Expr>)
      requires Valid() && n < |d.nodes| && d.nodes[n].args != [] && n !in d.binders && n in reach && n <= root
      modifies this
      ensures Valid() && Grown(old(entries), old(values), entries, values) && DocsOk(kids, ks, entries) && |ks| > 0
      ensures ExpandAll(ks, values) == ShownAll(d, assoc, shared, d.nodes[n].args, n, d.nodes[n].head) && AllDrawn(ks, d)
      ensures forall i :: 0 <= i < |kids| ==> kids[i].1.depth < MAX_DEPTH
      decreases n, 1
    {
      var args, head := d.nodes[n].args, d.nodes[n].head;
      assert Older(args, n);
      kids, ks := [], [];
      for i := 0 to |args|
        invariant Valid() && Grown(old(entries), old(values), entries, values) && DocsOk(kids, ks, entries)
        invariant |ks| >= i && AllDrawn(ks, d) && forall j :: 0 <= j < |kids| ==> kids[j].1.depth < MAX_DEPTH
        invariant ExpandAll(ks, values) == ShownAll(d, assoc, shared, args[..i], n, head)
      {
        ghost var entries0, values0 := entries, values;
        var more;
        ghost var es;
        assert Child(d, n, args[i]);
        more, es := Visit(args[i], Some(head), n);
        ArgsMore(kids, ks, more, es, entries0, values0, n, i);
        AllDrawnAppend(ks, es, d);
        kids, ks := kids + more, ks + es;
      }
      assert args[..|args|] == args;
    }

    /** One more argument is printed. */
    lemma {:induction false} ArgsMore(kids: seq<Doc>, ks: seq<Expr>, more: seq<Doc>, es: seq<Expr>, entries0: seq<Entry>,
                                      values0: Values, n: Id, i: nat)
      requires Valid() && n < |d.nodes| && i < |d.nodes[n].args| && Older(d.nodes[n].args, n)
      requires EntriesOk(entries0, values0, d, assoc, shared) && Grown(entries0, values0, entries, values)
      requires DocsOk(kids, ks, entries0) && Printed(more, es, d.nodes[n].args[i], Some(d.nodes[n].head))
      requires ExpandAll(ks, values0) == ShownAll(d, assoc, shared, d.nodes[n].args[..i], n, d.nodes[n].head)
      ensures DocsOk(kids + more, ks + es, entries) && |es| > 0
      ensures ExpandAll(ks + es, values) == ShownAll(d, assoc, shared, d.nodes[n].args[..i + 1], n, d.nodes[n].head)
    {
      DocsKept(kids, ks, entries0, entries);
      DocsAppend(kids, ks, more, es, entries);
      ValuesKept(kids, ks, entries0, values0, values, d, assoc, shared);
      ExpandSnoc(ks, es, values);
      ShownSnoc(d, assoc, shared, d.nodes[n].args, i, n, d.nodes[n].head);
      ShownSome(d, assoc, shared, d.nodes[n].args[i], Some(d.nodes[n].head));
    }

    /** The summary of an application: the highest level of its arguments, their weights and depth. */
    static method Summary(kids: seq<Doc>, ghost ks: seq<Expr>, ghost entries: seq<Entry>) returns (info: Info)
      requires DocsOk(kids, ks, entries)
      ensures forall i :: 0 <= i < |kids| ==> kids[i].1.lvl <= info.lvl
      ensures info.lvl == 0 || exists i :: 0 <= i < |kids| && kids[i].1.lvl == info.lvl
      ensures info.weight == 1 + WeightAll(ks) && info.depth == 1 + DepthAll(ks)
    {
      var lvl, weight, depth := 0, 1, 0;
      for i := 0 to |kids|
        invariant forall j :: 0 <= j < i ==> kids[j].1.lvl <= lvl
        invariant lvl == 0 || exists j :: 0 <= j < i && kids[j].1.lvl == lvl
        invariant weight == 1 + WeightAll(ks[..i]) && depth == DepthAll(ks[..i])
      {
        assert DocOk(kids[i], ks[i], entries);
        assert ks[..i + 1] == ks[..i] + [ks[i]];
        SizesSnoc(ks[..i], ks[i]);
        lvl, weight, depth := Max(lvl, kids[i].1.lvl), weight + kids[i].1.weight, Max(depth, kids[i].1.depth);
      }
      assert ks[..|kids|] == ks;
      info := Info(lvl, weight, depth + 1);
    }

    /** A quantifier: its body in an alias scope of its own. */
    method Quantifier(n: Id) returns (f: Fmt, info: Info, ghost e: Expr)
      requires Valid() && n in d.binders && n in reach
      ensures DocOk((f, info), e, entries) && Closed(e, {}) && info.lvl == 0 && Drawn(e, d)
      ensures Expand(e, values) == Shown(d, assoc, shared, n)
      decreases n, 1
    {
      var b, body := d.binders[n], d.nodes[n].args[0];
      assert Older(d.nodes[n].args, n) && Child(d, n, body);
      var doc, inner, numLets;
      ghost var x;
      doc, inner, numLets, x := LetDoc(d, body, shared, assoc, reach);
      f := QuantDoc(b, doc);
      QuantText(b, doc, x);
      e := Bind(b, x);
      ExpandAgree(x, {}, values, map[]);
      info := Info(0, inner.weight + 2 * |b.vars| + 8 * numLets, inner.depth + 1);
      ClosedMore(e, {}, Names(entries, 0));
    }

    /** What does not merge with one parent merges with no other. */
    lemma {:induction false} NeverMerges(n: Id, parent: Option<string>, from: Id)
      requires Valid() && Asked(n, parent, from) && !Merges(d, assoc, shared, n, parent) && n != root
      ensures forall p :: p in reach && Child(d, p, n) && p !in d.binders ==> !Merges(d, assoc, shared, n, Some(d.nodes[p].head))
    {
    }

    /** The document itself, or an alias when it is too deep, or shared and heavy. */
    method Store(n: Id, f: Fmt, info: Info, ghost e: Expr, parent: Option<string>, ghost from: Id)
      returns (docs: seq<Doc>, ghost es: seq<Expr>)
      requires Valid() && Asked(n, parent, from) && !Merges(d, assoc, shared, n, parent) && DocOk((f, info), e, entries)
      requires Expand(e, values) == Shown(d, assoc, shared, n) && Inner(d, n) && Drawn(e, d)
      requires n !in d.binders ==> info.depth <= MAX_DEPTH
      modifies this
      ensures Valid() && Grown(old(entries), old(values), entries, values) && Printed(docs, es, n, parent)
    {
      if n != root && (info.depth >= MAX_DEPTH || (info.weight >= MIN_ALIAS_SIZE && n in shared)) {
        NeverMerges(n, parent, from);
        var k := Introduce(n, f, info, e);
        docs, es := [(Str(AliasName(k)), Info(info.lvl + 1, 1, 1))], [Ref(k)];
        RefStands(n, k, info.lvl, parent, from);
        return;
      }
      docs, es := [(f, info)], [e];
      OneDrawn(e, d);
      OneStands(e, values, d, assoc, shared, n, parent);
    }

    /** A new alias. */
    method Introduce(n: Id, f: Fmt, info: Info, ghost e: Expr) returns (k: nat)
      requires Valid() && n < |d.nodes| && DocOk((f, info), e, entries) && Expand(e, values) == Shown(d, assoc, shared, n)
      requires n != root && Worthy(info.weight, info.depth, n in shared) && Drawn(e, d)
      requires forall p :: p in reach && Child(d, p, n) && p !in d.binders ==> !Merges(d, assoc, shared, n, Some(d.nodes[p].head))
      modifies this
      ensures Valid() && Grown(old(entries), old(values), entries, values) && AliasOk((k, info.lvl), n)
      ensures entries == old(entries) + [Entry(info.lvl, e, n)] && k == |entries|
    {
      k := nextAlias;
      ghost var x := Entry(info.lvl, e, n);
      EntriesPush(entries, values, d, assoc, shared, x);
      DefsPush(aliasDefs, entries, AliasDef(f, info.lvl, k), x);
      values := values[k := Expand(e, values)];
      entries := entries + [x];
      nextAlias := nextAlias + 1;
      alias := alias[n := (k, info.lvl)];
      aliasDefs := aliasDefs + [AliasDef(f, info.lvl, k)];
    }
  }

  lemma {:induction false} DefsPush(defs: seq<AliasDef>, entries: seq<Entry>, a: AliasDef, x: Entry)
    requires DefsOk(defs, entries) && DefOk(a, x, |defs|)
    ensures DefsOk(defs + [a], entries + [x])
  {
  }

  lemma {:induction false} ShownSome(d: Dag, assoc: Assoc, shared: set<Id>, n: Id, parent: Option<string>)
    requires d.Valid() && n < |d.nodes|
    ensures ShownAs(d, assoc, shared, n, parent) != []
    decreases n
  {
    if Merges(d, assoc, shared, n, parent) {
      assert Older(d.nodes[n].args, n);
      assert ShownAs(d, assoc, shared, n, parent) == ShownAll(d, assoc, shared, d.nodes[n].args, n, d.nodes[n].head);
      ShownSome(d, assoc, shared, d.nodes[n].args[0], Some(d.nodes[n].head));
    }
  }

  lemma {:induction false} OneShown(es: seq<Expr>, values: Values, d: Dag, assoc: Assoc, shared: set<Id>, n: Id)
    requires d.Valid() && n < |d.nodes| && Stand(es, values, d, assoc, shared, n, None)
    ensures |es| == 1 && Expand(es[0], values) == Shown(d, assoc, shared, n)
  {
    assert ExpandAll(es, values)[0] == Shown(d, assoc, shared, n);
  }

  /** Print a node with aliases that only it sees: its `let`s go around it. */
  method LetDoc(d: Dag, root: Id, shared: set<Id>, assoc: Assoc, ghost reach: set<Id>)
    returns (f: Fmt, info: Info, numLets: nat, ghost e: Expr)
    requires d.Valid() && root < |d.nodes| && Sharing(d, shared, reach) && (Inner(d, root) ==> root in reach)
    ensures FlatText(f) == Render(e) && Closed(e, {}) && Drawn(e, d)
    ensures Expand(e, map[]) == Shown(d, assoc, shared, root)
    ensures info.weight + 8 * numLets == Weight(e) && info.depth == Depth(e)
    ensures root !in d.binders ==> Depth(e) <= MAX_DEPTH
    decreases root, 3
  {
    var p := new Printer(d, root, shared, assoc, reach);
    var docs;
    ghost var es;
    docs, es := p.Visit(root, None, root);
    OneShown(es, p.values, d, assoc, shared, root);
    assert DocOk(docs[0], es[0], p.entries);
    f, info := docs[0].0, docs[0].1;
    numLets := |p.aliasDefs|;
    if p.aliasDefs == [] {
      e := es[0];
      assert Names(p.entries, info.lvl) == {};
      ExpandAgree(e, {}, map[], p.values);
      return;
    }
    ghost var max;
    f, max := WrapLets(p.aliasDefs, f, p.entries, es[0]);
    e := Nest(p.entries, 0, max, es[0]);
    LetsExpand(p.entries, p.values, d, assoc, shared, info.lvl, max, es[0]);
    NestDrawn(p.entries, 0, max, es[0], d);
  }

  lemma {:induction false} LetsExpand(entries: seq<Entry>, values: Values, d: Dag, assoc: Assoc, shared: set<Id>, lvl: nat,
                                      max: nat, body: Expr)
    requires EntriesOk(entries, values, d, assoc, shared) && forall i :: 0 <= i < |entries| ==> entries[i].lvl <= max
    requires Closed(body, Names(entries, lvl))
    ensures var e := Nest(entries, 0, max, body);
      Closed(e, {}) && Expand(e, map[]) == Expand(body, values)
      && Weight(e) == 8 * |entries| + Weight(body) && Depth(e) == Depth(body)
  {
    AllNames(entries, lvl, max);
    ClosedMore(body, Names(entries, lvl), Names(entries, max + 1));
    assert Names(entries, 0) == {};
    NestExpands(entries, values, d, assoc, shared, 0, max, body, map[]);
    NestSizes(entries, 0, max, body);
    AboveEnds(entries, 0, 0);
  }

  lemma {:induction false} AllNames(entries: seq<Entry>, lvl: nat, max: nat)
    requires forall i :: 0 <= i < |entries| ==> entries[i].lvl <= max
    ensures Names(entries, lvl) <= Names(entries, max + 1)
  {
  }

  // ----- shared nodes -----

  /** A walk along arguments leads from the root to the node. */
  ghost predicate Reaches(d: Dag, root: Id, n: Id)
    decreases root - n
  {
    n == root || (n < root && exists p :: n < p <= root && Child(d, p, n) && Reaches(d, root, p))
  }

  lemma {:induction false} ReachesChild(d: Dag, root: Id, p: Id, c: Id)
    requires d.Valid() && Reaches(d, root, p) && Child(d, p, c)
    ensures Reaches(d, root, c)
  {
    assert Older(d.nodes[p].args, p);
  }

  /** The edges out of some nodes, as often as they occur. */
  ghost function Edges(d: Dag, order: seq<Id>): multiset<Id>
    requires forall i :: 0 <= i < |order| ==> order[i] < |d.nodes|
  {
    if order == [] then multiset{}
    else Edges(d, order[..|order| - 1]) + multiset(d.nodes[order[|order| - 1]].args)
  }

  lemma {:induction false} EdgesOnce(d: Dag, order: seq<Id>, c: Id)
    requires forall i :: 0 <= i < |order| ==> order[i] < |d.nodes|
    ensures Edges(d, order)[c] > 0 <==> exists i :: 0 <= i < |order| && Child(d, order[i], c)
  {
    if order != [] {
      var m := |order| - 1;
      EdgesOnce(d, order[..m], c);
      if Edges(d, order[..m])[c] > 0 {
        var i :| 0 <= i < m && Child(d, order[..m][i], c);
        assert Child(d, order[i], c);
      }
      if i :| 0 <= i < |order| && Child(d, order[i], c) {
        if i < m {
          assert Child(d, order[..m][i], c);
        }
      }
    }
  }

  lemma {:induction false} EdgesTwice(d: Dag, order: seq<Id>, i: nat, j: nat, c: Id)
    requires forall k :: 0 <= k < |order| ==> order[k] < |d.nodes|
    requires i < j < |order| && Child(d, order[i], c) && Child(d, order[j], c)
    ensures Edges(d, order)[c] > 1
  {
    var m := |order| - 1;
    if j < m {
      assert order[..m][i] == order[i] && order[..m][j] == order[j];
      EdgesTwice(d, order[..m], i, j, c);
    } else {
      assert order[..m][i] == order[i];
      EdgesOnce(d, order[..m], c);
    }
  }

  /** The order lists the nodes with arguments once each, and the shared nodes are those that more than one edge leads to. */
  ghost predicate Shares(d: Dag, root: Id, shared: set<Id>, order: seq<Id>) {
    && (forall i :: 0 <= i < |order| ==> order[i] < |d.nodes|)
    && (forall i, j :: 0 <= i < j < |order| ==> order[i] != order[j])
    && (forall n: Id :: n in order <==> Inner(d, n) && Reaches(d, root, n))
    && (forall n: Id :: n in shared <==> Inner(d, n) && (multiset{root} + Edges(d, order))[n] > 1)
  }

  lemma {:induction false} SharesSharing(d: Dag, root: Id, shared: set<Id>, order: seq<Id>)
    requires d.Valid() && Shares(d, root, shared, order)
    ensures Sharing(d, shared, set n | n in order)
  {
    forall p, c | p in order && Child(d, p, c) && Inner(d, c) ensures c in order {
      ReachesChild(d, root, p, c);
    }
    forall p, q, c | p in order && q in order && Child(d, p, c) && Child(d, q, c) && Inner(d, c) && c !in shared
      ensures p == q
    {
      var i :| 0 <= i < |order| && order[i] == p;
      var j :| 0 <= j < |order| && order[j] == q;
      if i < j {
        EdgesTwice(d, order, i, j, c);
      } else if j < i {
        EdgesTwice(d, order, j, i, c);
      }
    }
  }

  /** The walk has popped the root and every edge out of the nodes visited, but for what is on the stack. */
  ghost predicate Walked(d: Dag, root: Id, order: seq<Id>, stack: seq<Id>, popped: multiset<Id>)
    requires d.Valid()
  {
    && (forall i :: 0 <= i < |order| ==> order[i] < |d.nodes| && Reaches(d, root, order[i]))
    && (forall i :: 0 <= i < |stack| ==> stack[i] < |d.nodes| && Reaches(d, root, stack[i]))
    && popped + multiset(stack) == multiset{root} + Edges(d, order)
  }

  method Reverse(s: seq<Id>) returns (r: seq<Id>)
    ensures multiset(r) == multiset(s) && |r| == |s| && forall i :: 0 <= i < |s| ==> r[i] == s[|s| - 1 - i]
  {
    r := [];
    for i := 0 to |s|
      invariant |r| == i && multiset(r) == multiset(s[..i]) && forall j :: 0 <= j < i ==> r[j] == s[i - 1 - j]
    {
      assert s[..i + 1] == s[..i] + [s[i]];
      r := [s[i]] + r;
    }
    assert s[..|s|] == s;
  }

  /** The nodes with arguments that a depth-first walk from the root reaches more than once. */
  method SharedNodes(d: Dag, root: Id) returns (shared: set<Id>, ghost order: seq<Id>)
    requires d.Valid() && root < |d.nodes|
    ensures Shares(d, root, shared, order)
  {
    var visited: set<Id> := {};
    shared := {};
    var stack: seq<Id> := [root];
    order := [];
    ghost var popped: multiset<Id> := multiset{};
    while stack != []
      invariant Walked(d, root, order, stack, popped) && Counted(d, visited, shared, order, popped)
      invariant |visited| <= |d.nodes|
      decreases |d.nodes| - |visited|, |stack|
    {
      var n := stack[|stack| - 1];
      var rest := stack[..|stack| - 1];
      WalkPop(d, root, order, stack, popped);
      CountedPop(d, visited, shared, order, popped, n);
      if d.nodes[n].args == [] {
        stack := rest;
      } else if n in visited {
        shared := shared + {n};
        stack := rest;
      } else {
        var kids := Reverse(d.nodes[n].args);
        WalkVisit(d, root, order, stack, popped, kids);
        visited := visited + {n};
        order := order + [n];
        stack := rest + kids;
      }
      popped := popped + multiset{n};
    }
    assert popped == multiset{root} + Edges(d, order);
    WalkEnds(d, root, visited, shared, order, popped);
  }

  /** A finished walk has visited all nodes with arguments it can reach. */
  lemma {:induction false} WalkEnds(d: Dag, root: Id, visited: set<Id>, shared: set<Id>, order: seq<Id>, popped: multiset<Id>)
    requires d.Valid() && root < |d.nodes| && Walked(d, root, order, [], popped) && Counted(d, visited, shared, order, popped)
    requires popped == multiset{root} + Edges(d, order)
    ensures Shares(d, root, shared, order)
  {
    forall n: Id | Inner(d, n) && Reaches(d, root, n) ensures n in order {
      WalkReaches(d, root, visited, shared, order, popped, n);
    }
  }

  lemma {:induction false} WalkReaches(d: Dag, root: Id, visited: set<Id>, shared: set<Id>, order: seq<Id>,
                                       popped: multiset<Id>, n: Id)
    requires d.Valid() && root < |d.nodes| && Walked(d, root, order, [], popped) && Counted(d, visited, shared, order, popped)
    requires popped == multiset{root} + Edges(d, order) && Inner(d, n) && Reaches(d, root, n)
    ensures n in order
    decreases root - n
  {
    if n != root {
      var p :| n < p <= root && Child(d, p, n) && Reaches(d, root, p);
      WalkReaches(d, root, visited, shared, order, popped, p);
      var i :| 0 <= i < |order| && order[i] == p;
      assert Child(d, order[i], n);
      EdgesOnce(d, order, n);
    }
    assert popped[n] > 0;
    assert n in visited;
  }

  lemma {:induction false} WalkPop(d: Dag, root: Id, order: seq<Id>, stack: seq<Id>, popped: multiset<Id>)
    requires d.Valid() && Walked(d, root, order, stack, popped) && |stack| > 0
    ensures Walked(d, root, order, stack[..|stack| - 1], popped + multiset{stack[|stack| - 1]})
  {
    assert stack == stack[..|stack| - 1] + [stack[|stack| - 1]];
  }

  lemma {:induction false} WalkVisit(d: Dag, root: Id, order: seq<Id>, stack: seq<Id>, popped: multiset<Id>, kids: seq<Id>)
    requires d.Valid() && Walked(d, root, order, stack, popped) && |stack| > 0
    requires multiset(kids) == multiset(d.nodes[stack[|stack| - 1]].args)
    ensures Walked(d, root, order + [stack[|stack| - 1]], stack[..|stack| - 1] + kids, popped + multiset{stack[|stack| - 1]})
  {
    var n, rest := stack[|stack| - 1], stack[..|stack| - 1];
    var order' := order + [n];
    WalkPop(d, root, order, stack, popped);
    assert order'[..|order|] == order;
    assert Edges(d, order') == Edges(d, order) + multiset(d.nodes[n].args);
    assert multiset(rest + kids) == multiset(rest) + multiset(kids);
    MoreOnBothSides(popped + multiset{n}, multiset(rest), multiset{root}, Edges(d, order), multiset(kids));
    assert popped + multiset{n} + multiset(rest + kids) == multiset{root} + Edges(d, order');
    assert forall i :: 0 <= i < |order'| ==> order'[i] < |d.nodes|;
    assert Older(d.nodes[n].args, n);
    forall i | 0 <= i < |rest + kids| ensures (rest + kids)[i] < |d.nodes| && Reaches(d, root, (rest + kids)[i]) {
      if i >= |rest| {
        assert kids[i - |rest|] in multiset(kids);
        assert kids[i - |rest|] in d.nodes[n].args;
        ReachesChild(d, root, n, kids[i - |rest|]);
      } else {
        assert (rest + kids)[i] == stack[i];
      }
    }
  }

  lemma {:induction false} MoreOnBothSides(a: multiset<Id>, b: multiset<Id>, c: multiset<Id>, e: multiset<Id>, more: multiset<Id>)
    requires a + b == c + e
    ensures a + (b + more) == c + (e + more)
  {
    assert a + (b + more) == (a + b) + more;
  }

  /** Visited and shared say how often each node with arguments was popped. */
  ghost predicate Counted(d: Dag, visited: set<Id>, shared: set<Id>, order: seq<Id>, popped: multiset<Id>)
    requires d.Valid()
  {
    && (forall n: Id :: n in visited <==> n in order)
    && (forall i, j :: 0 <= i < j < |order| ==> order[i] != order[j])
    && (forall n: Id :: n in visited ==> n < |d.nodes|)
    && (forall n: Id :: n in visited <==> popped[n] > 0 && Inner(d, n))
    && (forall n: Id :: n in shared <==> popped[n] > 1 && Inner(d, n))
  }

  lemma {:induction false} CountedPop(d: Dag, visited: set<Id>, shared: set<Id>, order: seq<Id>, popped: multiset<Id>, n: Id)
    requires d.Valid() && Counted(d, visited, shared, order, popped) && n < |d.nodes|
    ensures !Inner(d, n) ==> Counted(d, visited, shared, order, popped + multiset{n})
    ensures Inner(d, n) && n in visited ==> Counted(d, visited, shared + {n}, order, popped + multiset{n})
    ensures Inner(d, n) && n !in visited ==> Counted(d, visited + {n}, shared, order + [n], popped + multiset{n})
    ensures n !in visited ==> |visited + {n}| <= |d.nodes|
  {
    WithinBound(visited + {n}, |d.nodes|);
  }

  lemma {:induction false} WithinBound(s: set<Id>, n: nat)
    requires forall x :: x in s ==> x < n
    ensures |s| <= n
  {
    if n == 0 {
      assert s == {};
    } else {
      WithinBound(s - {n - 1}, n - 1);
      assert |s| <= |s - {n - 1}| + 1;
    }
  }

  // ----- printing -----

  /** The printed text breaks lines only at gaps, and its aliases expand to the term as shown, which flattening alone changes;
      so does reading it by name, when no symbol is named as an alias. */
  method PrintTerm(d: Dag, root: Id, assoc: Assoc, ind: nat)
    returns (out: string, ghost doc: Fmt, ghost e: Expr, ghost shared: set<Id>, ghost order: seq<Id>)
    requires d.Valid() && root < |d.nodes|
    ensures doc.Indent? && doc.i == ind && FlatText(doc) == Render(e) && Closed(e, {})
    ensures Reflows(out, doc, 0, false) && (OneLine(doc) ==> Fitted(out, doc, 0, false, 0))
    ensures Shares(d, root, shared, order) && Expand(e, map[]) == Shown(d, assoc, shared, root)
    ensures Flatten(Expand(e, map[]), assoc) == Flatten(Unfold(d, root), assoc)
    ensures Unreserved(d) ==> Read(e, map[]) == Shown(d, assoc, shared, root)
    ensures root !in d.binders ==> Depth(e) <= MAX_DEPTH
  {
    var sharedNodes;
    sharedNodes, order := SharedNodes(d, root);
    shared := sharedNodes;
    SharesSharing(d, root, shared, order);
    var f, info, numLets;
    f, info, numLets, e := LetDoc(d, root, sharedNodes, assoc, set n | n in order);
    doc := Indent(ind, f);
    out := Layout(Indent(ind, f));
    ShownFlattens(d, assoc, shared, root);
    if Unreserved(d) {
      NothingNamed();
      ReadExpands(e, d, map[], map[]);
    }
  }

  lemma {:induction false} NothingNamed()
    ensures Named(map[], map[]) && forall env: Values :: env == map[] ==> env.Keys == {}
  {
  }
}
