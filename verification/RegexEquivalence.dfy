/** A bisimulation between two regexes, sought pair by pair, decides whether their languages are equal. */
module RegexEquivalence {
  import opened Options
  import opened RegexTerms
  import opened RegexArena
  import opened RegexLaws
  import opened RegexRewriter
  import opened RegexMembership
  import opened RegexDerivatives
  import L = Languages

  const MAX_STATES: nat := 2000

  // ----- representative characters -----

  /** The characters of the literals of a leaf. */
  function LitChars(leaf: Regex): Word {
    match leaf
    case ToRe(s) => if s.Lit? then s.s else []
    case Range(from, to) => (if from.Lit? then from.s else []) + (if to.Lit? then to.s else [])
    case _ => []
  }

  /** Each literal character of the regex is a point, and so is the one after it. */
  ghost predicate Covered(r: Regex, points: set<nat>) {
    match r
    case Concat(a, b) => Covered(a, points) && Covered(b, points)
    case Union(a, b) => Covered(a, points) && Covered(b, points)
    case Inter(a, b) => Covered(a, points) && Covered(b, points)
    case Diff(a, b) => Covered(a, points) && Covered(b, points)
    case Ite(_, a, b) => Covered(a, points) && Covered(b, points)
    case Star(a) => Covered(a, points)
    case Plus(a) => Covered(a, points)
    case Opt(a) => Covered(a, points)
    case Comp(a) => Covered(a, points)
    case Loop(a, _, _) => Covered(a, points)
    case _ => LeafCovered(r, points)
  }

  ghost predicate LeafCovered(leaf: Regex, points: set<nat>) {
    forall i :: 0 <= i < |LitChars(leaf)| ==> Bounded(LitChars(leaf)[i], points)
  }

  ghost predicate Bounded(c: nat, points: set<nat>) {
    c in points && (c < L.MAX_CHAR ==> c + 1 in points)
  }

  /** The last point up to `c`: the representative of its class. */
  ghost function Rep(c: nat, points: set<nat>): (r: nat)
    requires 0 in points
    ensures r in points && r <= c && forall p :: p in points ==> (p <= c <==> p <= r)
  {
    if c in points then c else Rep(c - 1, points)
  }

  ghost function RepWord(w: Word, points: set<nat>): (v: Word)
    requires 0 in points
    ensures |v| == |w| && forall i :: 0 <= i < |w| ==> v[i] == Rep(w[i], points)
  {
    seq(|w|, i requires 0 <= i < |w| => Rep(w[i], points) as Char)
  }

  lemma {:induction false} RepSlices(w: Word, points: set<nat>, i: nat)
    requires 0 in points && i <= |w|
    ensures RepWord(w, points)[..i] == RepWord(w[..i], points) && RepWord(w, points)[i..] == RepWord(w[i..], points)
  {
  }

  /** The language does not tell a word from its representative. */
  ghost predicate Stable(a: L.Lang, points: set<nat>)
    requires 0 in points
  {
    forall w: Word :: w in a <==> RepWord(w, points) in a
  }

  lemma {:induction false} CatStable(a: L.Lang, b: L.Lang, points: set<nat>)
    requires 0 in points && Stable(a, points) && Stable(b, points)
    ensures Stable(L.Cat(a, b), points)
  {
    forall w: Word ensures w in L.Cat(a, b) <==> RepWord(w, points) in L.Cat(a, b) {
      var v := RepWord(w, points);
      forall i: nat ensures L.Split(a, b, w, i) <==> L.Split(a, b, v, i) {
        if i <= |w| {
          RepSlices(w, points, i);
        }
      }
      assert L.InCat(a, b, w) <==> L.InCat(a, b, v);
    }
  }

  lemma {:induction false} PowStable(a: L.Lang, k: nat, points: set<nat>)
    requires 0 in points && Stable(a, points)
    ensures Stable(L.Pow(a, k), points)
  {
    if k > 0 {
      PowStable(a, k - 1, points);
      CatStable(a, L.Pow(a, k - 1), points);
    }
  }

  lemma {:induction false} RepStable(a: L.Lang, lo: nat, hi: Option<nat>, points: set<nat>)
    requires 0 in points && Stable(a, points)
    ensures Stable(L.Rep(a, lo, hi), points)
  {
    forall w: Word ensures w in L.Rep(a, lo, hi) <==> RepWord(w, points) in L.Rep(a, lo, hi) {
      var v := RepWord(w, points);
      forall k: nat ensures w in L.Pow(a, k) <==> v in L.Pow(a, k) {
        PowStable(a, k, points);
      }
    }
  }

  /** A literal character is its own class. */
  lemma {:induction false} BoundedChar(c: nat, x: nat, points: set<nat>)
    requires 0 in points && Bounded(c, points) && x <= L.MAX_CHAR
    ensures (Rep(x, points) == c <==> x == c) && (Rep(x, points) <= c <==> x <= c) && (c <= Rep(x, points) <==> c <= x)
  {
    assert c < L.MAX_CHAR ==> (c + 1 <= x <==> c + 1 <= Rep(x, points));
  }

  lemma {:induction false} LeafStable(r: Regex, env: Env, points: set<nat>)
    requires 0 in points && Childless(r) && Matchable(r) && LeafCovered(r, points)
    ensures Stable(Denote(r, env), points)
  {
    forall w: Word ensures w in Denote(r, env) <==> RepWord(w, points) in Denote(r, env) {
      match r
      case ToRe(s) =>
        forall i | 0 <= i < |s.s| ensures Bounded(s.s[i], points) {
          assert Bounded(LitChars(r)[i], points);
        }
        LiteralStable(s.s, w, points);
      case Range(from, to) =>
        if |from.s| == 1 && |to.s| == 1 && |w| == 1 {
          assert LitChars(r)[0] == from.s[0] && LitChars(r)[1] == to.s[0];
          assert Bounded(LitChars(r)[0], points) && Bounded(LitChars(r)[1], points);
          BoundedChar(from.s[0], w[0], points);
          BoundedChar(to.s[0], w[0], points);
        }
      case _ =>
    }
  }

  lemma {:induction false} LiteralStable(s: Word, w: Word, points: set<nat>)
    requires 0 in points && forall i :: 0 <= i < |s| ==> Bounded(s[i], points)
    ensures w == s <==> RepWord(w, points) == s
  {
    if |w| == |s| {
      forall i | 0 <= i < |s| ensures w[i] == s[i] <==> RepWord(w, points)[i] == s[i] {
        BoundedChar(s[i], w[i], points);
      }
    }
  }

  /** The language of a covered ground regex is decided by representatives. */
  lemma {:induction false} RegexStable(r: Regex, env: Env, points: set<nat>)
    requires 0 in points && Matchable(r) && Covered(r, points)
    ensures Stable(Denote(r, env), points)
  {
    match r
    case Concat(a, b) =>
      RegexStable(a, env, points);
      RegexStable(b, env, points);
      CatStable(Denote(a, env), Denote(b, env), points);
    case Union(a, b) =>
      RegexStable(a, env, points);
      RegexStable(b, env, points);
    case Inter(a, b) =>
      RegexStable(a, env, points);
      RegexStable(b, env, points);
    case Diff(a, b) =>
      RegexStable(a, env, points);
      RegexStable(b, env, points);
    case Star(a) =>
      RegexStable(a, env, points);
      RepStable(Denote(a, env), 0, None, points);
    case Plus(a) =>
      RegexStable(a, env, points);
      RepStable(Denote(a, env), 1, None, points);
    case Opt(a) =>
      RegexStable(a, env, points);
    case Comp(a) =>
      RegexStable(a, env, points);
    case Loop(a, lo, hi) =>
      RegexStable(a, env, points);
      RepStable(Denote(a, env), lo, hi, points);
    case _ =>
      LeafStable(r, env, points);
  }

  // ----- bisimulation -----

  ghost predicate Agree(x: Regex, y: Regex) {
    forall env :: [] in Denote(x, env) <==> [] in Denote(y, env)
  }

  /** The derivatives of the pair are equal, or a pair of `all`. */
  ghost predicate Next(x: Regex, y: Regex, c: Char, all: set<(Regex, Regex)>) {
    exists dx, dy :: IsQuot(dx, x, c) && IsQuot(dy, y, c) && (dx == dy || (dx, dy) in all)
  }

  ghost predicate Expanded(x: Regex, y: Regex, points: seq<Char>, all: set<(Regex, Regex)>) {
    Agree(x, y) && forall c :: c in points ==> Next(x, y, c, all)
  }

  ghost predicate Bisimulation(done: set<(Regex, Regex)>, points: seq<Char>, all: set<(Regex, Regex)>) {
    forall p :: p in done ==> Expanded(p.0, p.1, points, all)
  }

  lemma {:induction false} NextMono(x: Regex, y: Regex, c: Char, all: set<(Regex, Regex)>, all': set<(Regex, Regex)>)
    requires Next(x, y, c, all) && all <= all'
    ensures Next(x, y, c, all')
  {
  }

  lemma {:induction false} BisimulationMono(done: set<(Regex, Regex)>, points: seq<Char>, all: set<(Regex, Regex)>, all': set<(Regex, Regex)>)
    requires Bisimulation(done, points, all) && all <= all'
    ensures Bisimulation(done, points, all')
  {
    forall p | p in done ensures Expanded(p.0, p.1, points, all') {
      assert Expanded(p.0, p.1, points, all);
      forall c | c in points ensures Next(p.0, p.1, c, all') {
        NextMono(p.0, p.1, c, all, all');
      }
    }
  }

  /** Bisimilar regexes hold the same words over the points. */
  lemma {:induction false} BisimilarWords(x: Regex, y: Regex, points: seq<Char>, all: set<(Regex, Regex)>, env: Env, w: Word)
    requires Bisimulation(all, points, all) && (x, y) in all && forall i :: 0 <= i < |w| ==> w[i] in points
    ensures w in Denote(x, env) <==> w in Denote(y, env)
    decreases |w|
  {
    assert Expanded((x, y).0, (x, y).1, points, all);
    if w != [] {
      var c, v := w[0], w[1..];
      assert w == [c] + v && c in points;
      assert Next(x, y, c, all);
      var dx, dy :| IsQuot(dx, x, c) && IsQuot(dy, y, c) && (dx == dy || (dx, dy) in all);
      QuotWord(dx, x, c, env, v);
      QuotWord(dy, y, c, env, v);
      if dx != dy {
        assert forall i :: 0 <= i < |v| ==> v[i] == w[i + 1];
        BisimilarWords(dx, dy, points, all, env, v);
      }
    }
  }

  lemma {:induction false} QuotWord(dx: Regex, x: Regex, c: Char, env: Env, v: Word)
    requires IsQuot(dx, x, c)
    ensures v in Denote(dx, env) <==> [c] + v in Denote(x, env)
  {
    assert Denote(dx, env) == L.Quot(Denote(x, env), c);
  }

  lemma {:induction false} BisimilarSame(x: Regex, y: Regex, points: seq<Char>, all: set<(Regex, Regex)>)
    requires Bisimulation(all, points, all) && (x, y) in all && 0 in points
    requires Matchable(x) && Matchable(y) && Covered(x, PointSet(points)) && Covered(y, PointSet(points))
    ensures Same(x, y)
  {
    var ps := PointSet(points);
    forall env, w: Word ensures w in Denote(x, env) <==> w in Denote(y, env) {
      RegexStable(x, env, ps);
      RegexStable(y, env, ps);
      var v := RepWord(w, ps);
      BisimilarWords(x, y, points, all, env, v);
    }
  }

  ghost function PointSet(points: seq<nat>): set<nat> {
    set p | p in points
  }

  // ----- words that lead to a pair -----

  ghost function QuotBy(a: L.Lang, w: Word): L.Lang {
    iset v: Word | w + v in a
  }

  ghost predicate IsQuotBy(x: Regex, t: Regex, w: Word) {
    forall env :: Denote(x, env) == QuotBy(Denote(t, env), w)
  }

  lemma {:induction false} QuotByEmpty(a: L.Lang)
    ensures QuotBy(a, []) == a
  {
    forall v: Word ensures v in QuotBy(a, []) <==> v in a {
      assert [] + v == v;
    }
  }

  lemma {:induction false} QuotBySnoc(a: L.Lang, w: Word, c: Char)
    ensures L.Quot(QuotBy(a, w), c) == QuotBy(a, w + [c])
  {
    forall v: Word ensures v in L.Quot(QuotBy(a, w), c) <==> v in QuotBy(a, w + [c]) {
      assert w + ([c] + v) == w + [c] + v;
    }
  }

  /** The pair is what is left of `l` and `r` after one and the same word. */
  ghost predicate Derived(x: Regex, y: Regex, l: Regex, r: Regex) {
    exists w :: IsQuotBy(x, l, w) && IsQuotBy(y, r, w)
  }

  lemma {:induction false} DerivedStart(l: Regex, r: Regex)
    ensures Derived(l, r, l, r)
  {
    forall env ensures Denote(l, env) == QuotBy(Denote(l, env), []) && Denote(r, env) == QuotBy(Denote(r, env), []) {
      QuotByEmpty(Denote(l, env));
      QuotByEmpty(Denote(r, env));
    }
    assert IsQuotBy(l, l, []) && IsQuotBy(r, r, []);
  }

  lemma {:induction false} QuotByNext(x: Regex, t: Regex, w: Word, dx: Regex, c: Char)
    requires IsQuotBy(x, t, w) && IsQuot(dx, x, c)
    ensures IsQuotBy(dx, t, w + [c])
  {
    forall env ensures Denote(dx, env) == QuotBy(Denote(t, env), w + [c]) {
      QuotBySnoc(Denote(t, env), w, c);
      assert Denote(x, env) == QuotBy(Denote(t, env), w);
    }
  }

  lemma {:induction false} DerivedNext(x: Regex, y: Regex, l: Regex, r: Regex, dx: Regex, dy: Regex, c: Char)
    requires Derived(x, y, l, r) && IsQuot(dx, x, c) && IsQuot(dy, y, c)
    ensures Derived(dx, dy, l, r)
  {
    var w :| IsQuotBy(x, l, w) && IsQuotBy(y, r, w);
    QuotByNext(x, l, w, dx, c);
    QuotByNext(y, r, w, dy, c);
  }

  /** `w` is a word of one of them only. */
  ghost predicate SetApart(l: Regex, r: Regex, w: Word) {
    forall env :: w in Denote(l, env) <==> w !in Denote(r, env)
  }

  lemma {:induction false} DisagreementSeparates(x: Regex, y: Regex, l: Regex, r: Regex)
    requires Derived(x, y, l, r) && forall env :: [] in Denote(x, env) <==> [] !in Denote(y, env)
    ensures exists w :: SetApart(l, r, w)
  {
    var w :| IsQuotBy(x, l, w) && IsQuotBy(y, r, w);
    QuotsApart(x, y, l, r, w);
  }

  lemma {:induction false} QuotsApart(x: Regex, y: Regex, l: Regex, r: Regex, w: Word)
    requires IsQuotBy(x, l, w) && IsQuotBy(y, r, w) && forall env :: [] in Denote(x, env) <==> [] !in Denote(y, env)
    ensures SetApart(l, r, w)
  {
    forall env ensures w in Denote(l, env) <==> w !in Denote(r, env) {
      EmptyInQuot(Denote(l, env), w);
      EmptyInQuot(Denote(r, env), w);
    }
  }

  lemma {:induction false} EmptyInQuot(a: L.Lang, w: Word)
    ensures [] in QuotBy(a, w) <==> w in a
  {
    assert w + [] == w;
  }

  // ----- collecting the points -----

  /** A visited node has its literals among the points, and its children visited or on the stack. */
  ghost predicate Seen(n: Node, seen: set<Id>, stack: seq<Id>, points: seq<nat>) {
    match n
    case Leaf(r) => LeafPoints(r, points)
    case Un(_, a) => a in seen || a in stack
    case Bin(_, a, b) => (a in seen || a in stack) && (b in seen || b in stack)
    case IteNode(_, a, b) => (a in seen || a in stack) && (b in seen || b in stack)
  }

  function After(c: nat): nat {
    c + 1
  }

  ghost predicate LeafPoints(leaf: Regex, points: seq<nat>) {
    forall i :: 0 <= i < |LitChars(leaf)| ==> LitChars(leaf)[i] in points && After(LitChars(leaf)[i]) in points
  }

  method AddChars(cs: Word, points: seq<nat>) returns (out: seq<nat>)
    ensures points <= out && forall i :: 0 <= i < |cs| ==> cs[i] in out && After(cs[i]) in out
  {
    out := points;
    for k := 0 to |cs|
      invariant points <= out && forall i :: 0 <= i < k ==> cs[i] in out && After(cs[i]) in out
    {
      out := out + [cs[k], After(cs[k])];
    }
  }

  function Children(n: Node): seq<Id> {
    match n
    case Leaf(_) => []
    case Un(_, a) => [a]
    case Bin(_, a, b) => [a, b]
    case IteNode(_, a, b) => [a, b]
  }

  ghost predicate AllSeen(nodes: seq<Node>, seen: set<Id>, stack: seq<Id>, points: seq<nat>) {
    forall t :: t in seen ==> t < |nodes| && Seen(nodes[t], seen, stack, points)
  }

  lemma {:induction false} SeenStep(nodes: seq<Node>, seen: set<Id>, stack: seq<Id>, points: seq<nat>, t: Id, stack': seq<Id>, points': seq<nat>)
    requires t < |nodes| && AllSeen(nodes, seen, stack, points) && points <= points'
    requires |stack| > 0 && stack[|stack| - 1] == t && stack' == stack[..|stack| - 1] + Children(nodes[t])
    requires nodes[t].Leaf? ==> LeafPoints(nodes[t].r, points')
    ensures AllSeen(nodes, seen + {t}, stack', points')
  {
    var seen' := seen + {t};
    forall x | x in stack ensures x in seen' || x in stack' {
      var k :| 0 <= k < |stack| && stack[k] == x;
      assert k < |stack| - 1 ==> stack'[k] == x;
    }
    forall x | x in Children(nodes[t]) ensures x in stack' {
      var k :| 0 <= k < |Children(nodes[t])| && Children(nodes[t])[k] == x;
      assert stack'[|stack| - 1 + k] == x;
    }
    forall x | x in seen' ensures x < |nodes| && Seen(nodes[x], seen', stack', points') {
      if x in seen {
        assert Seen(nodes[x], seen, stack, points);
      } else {
        var cs := Children(nodes[t]);
        assert forall k :: 0 <= k < |cs| ==> cs[k] in stack';
      }
    }
  }

  /** Dropping a visited node from the stack loses nothing. */
  lemma {:induction false} SeenSkip(nodes: seq<Node>, seen: set<Id>, stack: seq<Id>, points: seq<nat>)
    requires AllSeen(nodes, seen, stack, points) && |stack| > 0 && stack[|stack| - 1] in seen
    ensures AllSeen(nodes, seen, stack[..|stack| - 1], points)
  {
    var stack' := stack[..|stack| - 1];
    forall x | x in stack ensures x in seen || x in stack' {
      var k :| 0 <= k < |stack| && stack[k] == x;
      assert k < |stack| - 1 ==> stack'[k] == x;
    }
    forall x | x in seen ensures Seen(nodes[x], seen, stack', points) {
      assert Seen(nodes[x], seen, stack, points);
    }
  }

  lemma {:induction false} SeenCovers(nodes: seq<Node>, index: map<Node, Id>, trees: seq<Regex>, seen: set<Id>, points: seq<nat>, ps: set<nat>, t: Id)
    requires ArenaOk(nodes, index, trees) && AllSeen(nodes, seen, [], points) && t in seen
    requires forall p :: p in points && p <= L.MAX_CHAR ==> p in ps
    ensures Covered(trees[t], ps)
    decreases t
  {
    assert NodeOk(nodes[t], t, trees) && Seen(nodes[t], seen, [], points);
    match nodes[t]
    case Leaf(r) =>
      forall i | 0 <= i < |LitChars(r)| ensures Bounded(LitChars(r)[i], ps) {
      }
    case Un(_, a) =>
      SeenCovers(nodes, index, trees, seen, points, ps, a);
    case Bin(_, a, b) =>
      SeenCovers(nodes, index, trees, seen, points, ps, a);
      SeenCovers(nodes, index, trees, seen, points, ps, b);
    case IteNode(_, a, b) =>
      SeenCovers(nodes, index, trees, seen, points, ps, a);
      SeenCovers(nodes, index, trees, seen, points, ps, b);
  }

  lemma {:induction false} IdsFit(seen: set<Id>, n: nat)
    requires forall t :: t in seen ==> t < n
    ensures |seen| <= n
  {
    if n == 0 {
      assert seen == {};
    } else {
      IdsFit(seen - {n - 1}, n - 1);
      assert |seen| <= |seen - {n - 1}| + 1;
    }
  }

  /** How the walk stands: what it started from is visited or still on the stack. */
  ghost predicate Walk(nodes: seq<Node>, seen: set<Id>, stack: seq<Id>, points: seq<nat>, l: Id, r: Id) {
    && AllSeen(nodes, seen, stack, points) && 0 in points && |seen| <= |nodes|
    && (forall k :: 0 <= k < |stack| ==> stack[k] < |nodes|)
    && (l in seen || l in stack) && (r in seen || r in stack)
  }

  lemma {:induction false} StackStep(stack: seq<Id>, kids: seq<Id>, x: Id)
    requires |stack| > 0 && x in stack
    ensures x == stack[|stack| - 1] || x in stack[..|stack| - 1] + kids
  {
    var k :| 0 <= k < |stack| && stack[k] == x;
    assert k < |stack| - 1 ==> (stack[..|stack| - 1] + kids)[k] == x;
  }

  lemma {:induction false} WalkStep(nodes: seq<Node>, seen: set<Id>, stack: seq<Id>, t: Id, points: seq<nat>, points': seq<nat>, l: Id, r: Id)
    requires Walk(nodes, seen, stack, points, l, r) && |stack| > 0 && points <= points'
    requires t == stack[|stack| - 1] && t !in seen && Below(nodes[t], |nodes|)
    requires nodes[t].Leaf? ==> LeafPoints(nodes[t].r, points')
    ensures Walk(nodes, seen + {t}, stack[..|stack| - 1] + Children(nodes[t]), points', l, r)
  {
    var kids := Children(nodes[t]);
    SeenStep(nodes, seen, stack, points, t, stack[..|stack| - 1] + kids, points');
    IdsFit(seen + {t}, |nodes|);
    assert points'[0..|points|] == points;
    if l in stack {
      StackStep(stack, kids, l);
    }
    if r in stack {
      StackStep(stack, kids, r);
    }
  }

  lemma {:induction false} WalkSkip(nodes: seq<Node>, seen: set<Id>, stack: seq<Id>, points: seq<nat>, l: Id, r: Id)
    requires Walk(nodes, seen, stack, points, l, r) && |stack| > 0 && stack[|stack| - 1] in seen
    ensures Walk(nodes, seen, stack[..|stack| - 1], points, l, r)
  {
    SeenSkip(nodes, seen, stack, points);
    assert stack[..|stack| - 1] + [] == stack[..|stack| - 1];
    if l in stack {
      StackStep(stack, [], l);
    }
    if r in stack {
      StackStep(stack, [], r);
    }
  }

  /** The points of both regexes: zero, and each literal character with the one after it. */
  method CollectPoints(re: ReSimp, l: Id, r: Id) returns (points: seq<Char>)
    requires re.Valid() && l < |re.nodes| && r < |re.nodes|
    ensures 0 in points && Covered(re.trees[l], PointSet(points)) && Covered(re.trees[r], PointSet(points))
  {
    var all: seq<nat> := [0];
    var stack: seq<Id> := [l, r];
    var seen: set<Id> := {};
    while stack != []
      invariant Walk(re.nodes, seen, stack, all, l, r)
      decreases |re.nodes| - |seen|, |stack|
    {
      var t := stack[|stack| - 1];
      if t in seen {
        WalkSkip(re.nodes, seen, stack, all, l, r);
        stack := stack[..|stack| - 1];
      } else {
        ghost var before := all;
        re.Look(t);
        if re.nodes[t].Leaf? {
          all := AddChars(LitChars(re.nodes[t].r), all);
        }
        WalkStep(re.nodes, seen, stack, t, before, all, l, r);
        stack := stack[..|stack| - 1] + Children(re.nodes[t]);
        seen := seen + {t};
      }
    }
    points := Settle(all);
    SeenCovers(re.nodes, re.index, re.trees, seen, all, PointSet(points), l);
    SeenCovers(re.nodes, re.index, re.trees, seen, all, PointSet(points), r);
  }

  /** The characters among the points, in order and each once. */
  method Settle(all: seq<nat>) returns (points: seq<Char>)
    ensures forall p: nat :: p in points <==> p in all && p <= L.MAX_CHAR
    ensures forall i, j :: 0 <= i < j < |points| ==> points[i] < points[j]
  {
    var sorted := SortIds(all);
    assert forall p: nat :: p in sorted <==> p in multiset(sorted);
    assert forall p: nat :: p in all <==> p in multiset(all);
    points := [];
    for k := 0 to |sorted|
      invariant forall p: nat :: p in points <==> p in sorted[..k] && p <= L.MAX_CHAR
      invariant forall i, j :: 0 <= i < j < |points| ==> points[i] < points[j]
      invariant points != [] ==> exists i :: 0 <= i < k && points[|points| - 1] == sorted[i]
    {
      assert sorted[..k + 1] == sorted[..k] + [sorted[k]];
      if sorted[k] <= L.MAX_CHAR && (points == [] || points[|points| - 1] != sorted[k]) {
        points := points + [sorted[k]];
      }
    }
    assert sorted[..|sorted|] == sorted;
  }

  // ----- the walk over pairs -----

  type Pair = (Id, Id)

  ghost predicate Queued(p: (Regex, Regex), todo: seq<Pair>, trees: seq<Regex>) {
    exists i :: 0 <= i < |todo| && todo[i].0 < |trees| && todo[i].1 < |trees| && p == (trees[todo[i].0], trees[todo[i].1])
  }

  /** The queue holds pairs of the arena that one word leads to. */
  ghost predicate QueueOk(todo: seq<Pair>, trees: seq<Regex>, l: Regex, r: Regex) {
    forall i :: 0 <= i < |todo| ==> PairOk(todo[i], trees, l, r)
  }

  ghost predicate PairOk(p: Pair, trees: seq<Regex>, l: Regex, r: Regex) {
    && p.0 < |trees| && p.1 < |trees| && LoopsOk(trees[p.0]) && LoopsOk(trees[p.1])
    && Derived(trees[p.0], trees[p.1], l, r)
  }

  lemma {:induction false} QueueKept(todo: seq<Pair>, trees: seq<Regex>, trees': seq<Regex>, l: Regex, r: Regex)
    requires QueueOk(todo, trees, l, r) && trees <= trees'
    ensures QueueOk(todo, trees', l, r)
    ensures forall p :: Queued(p, todo, trees) ==> Queued(p, todo, trees')
  {
    forall i | 0 <= i < |todo| ensures PairOk(todo[i], trees', l, r) {
      assert PairOk(todo[i], trees, l, r);
    }
    forall p | Queued(p, todo, trees) ensures Queued(p, todo, trees') {
      var i :| 0 <= i < |todo| && todo[i].0 < |trees| && todo[i].1 < |trees| && p == (trees[todo[i].0], trees[todo[i].1]);
      assert p == (trees'[todo[i].0], trees'[todo[i].1]);
    }
  }

  lemma {:induction false} QueuePush(todo: seq<Pair>, q: Pair, trees: seq<Regex>, l: Regex, r: Regex)
    requires QueueOk(todo, trees, l, r) && PairOk(q, trees, l, r)
    ensures QueueOk(todo + [q], trees, l, r) && Queued((trees[q.0], trees[q.1]), todo + [q], trees)
    ensures forall p :: Queued(p, todo, trees) ==> Queued(p, todo + [q], trees)
  {
    var all := todo + [q];
    assert all[|todo|] == q;
    forall i | 0 <= i < |all| ensures PairOk(all[i], trees, l, r) {
      assert i < |todo| ==> PairOk(todo[i], trees, l, r);
    }
    forall p | Queued(p, todo, trees) ensures Queued(p, all, trees) {
      var i :| 0 <= i < |todo| && todo[i].0 < |trees| && todo[i].1 < |trees| && p == (trees[todo[i].0], trees[todo[i].1]);
      assert all[i] == todo[i];
    }
  }

  /** Every pair of `all` is expanded or queued. */
  ghost predicate Accounted(all: set<(Regex, Regex)>, done: set<(Regex, Regex)>, todo: seq<Pair>, trees: seq<Regex>) {
    forall p :: p in all ==> p in done || Queued(p, todo, trees)
  }

  /** The queue and the pairs met may grow, each new pair being queued. */
  ghost predicate Grown(todo: seq<Pair>, trees: seq<Regex>, all: set<(Regex, Regex)>,
                        todo': seq<Pair>, trees': seq<Regex>, all': set<(Regex, Regex)>) {
    && all <= all'
    && (forall p :: p in all' && p !in all ==> Queued(p, todo', trees'))
    && (forall p :: Queued(p, todo, trees) ==> Queued(p, todo', trees'))
  }

  /** Queue the derivatives of a pair by one character. */
  method ExpandBy(re: ReSimp, a: Id, b: Id, c: Char, fuel: nat, memo: map<(Id, Char), Id>, todo: seq<Pair>,
                  ghost l: Regex, ghost r: Regex, ghost all: set<(Regex, Regex)>)
    returns (ok: bool, memo': map<(Id, Char), Id>, todo': seq<Pair>, ghost all': set<(Regex, Regex)>)
    requires re.Valid() && DerivativesOk(memo, re.trees) && QueueOk(todo, re.trees, l, r)
    requires PairOk((a, b), re.trees, l, r) && Matchable(re.trees[a]) && Matchable(re.trees[b])
    modifies re
    ensures re.Valid() && re.Kept(old(re.nodes), old(re.trees))
    ensures DerivativesOk(memo', re.trees) && QueueOk(todo', re.trees, l, r)
    ensures Grown(todo, old(re.trees), all, todo', re.trees, all')
    ensures ok && Next(old(re.trees)[a], old(re.trees)[b], c, all')
  {
    ghost var trees0, ta, tb := re.trees, re.trees[a], re.trees[b];
    ok, memo', todo', all' := false, memo, todo, all;
    var da, db;
    da, memo' := Derivative(re, a, c, fuel, memo);
    ghost var trees1 := re.trees;
    if da.Some? {
      db, memo' := Derivative(re, b, c, fuel, memo');
    }
    QueueKept(todo, trees0, re.trees, l, r);
    if da.None? || db.None? {
      return;
    }
    ok := true;
    ghost var x, y := re.trees[da.value], re.trees[db.value];
    MatchableKnown(ta, c);
    MatchableKnown(tb, c);
    assert IsQuot(x, ta, c) && IsQuot(y, tb, c);
    if da.value != db.value {
      DerivedNext(ta, tb, l, r, x, y, c);
      QueuePush(todo, (da.value, db.value), re.trees, l, r);
      todo' := todo + [(da.value, db.value)];
      all' := all + {(x, y)};
    }
    assert Next(ta, tb, c, all');
  }

  /** Queue the derivatives of a pair by each point. */
  method Expand(re: ReSimp, a: Id, b: Id, points: seq<Char>, fuel: nat, memo: map<(Id, Char), Id>, todo: seq<Pair>,
                ghost l: Regex, ghost r: Regex, ghost all: set<(Regex, Regex)>)
    returns (ok: bool, memo': map<(Id, Char), Id>, todo': seq<Pair>, ghost all': set<(Regex, Regex)>)
    requires re.Valid() && DerivativesOk(memo, re.trees) && QueueOk(todo, re.trees, l, r)
    requires PairOk((a, b), re.trees, l, r) && Matchable(re.trees[a]) && Matchable(re.trees[b])
    modifies re
    ensures re.Valid() && re.Kept(old(re.nodes), old(re.trees))
    ensures DerivativesOk(memo', re.trees) && QueueOk(todo', re.trees, l, r)
    ensures Grown(todo, old(re.trees), all, todo', re.trees, all')
    ensures ok && forall c :: c in points ==> Next(old(re.trees)[a], old(re.trees)[b], c, all')
  {
    ok, memo', todo', all' := true, memo, todo, all;
    ghost var ta, tb := re.trees[a], re.trees[b];
    for k := 0 to |points|
      invariant re.Valid() && re.Kept(old(re.nodes), old(re.trees))
      invariant DerivativesOk(memo', re.trees) && QueueOk(todo', re.trees, l, r)
      invariant Grown(todo, old(re.trees), all, todo', re.trees, all')
      invariant forall i :: 0 <= i < k ==> Next(ta, tb, points[i], all')
    {
      ghost var all0 := all';
      ok, memo', todo', all' := ExpandBy(re, a, b, points[k], fuel, memo', todo', l, r, all');
      if !ok {
        return;
      }
      forall i | 0 <= i < k ensures Next(ta, tb, points[i], all') {
        NextMono(ta, tb, points[i], all0, all');
      }
    }
  }

  datatype Verdict = Differ | Unknown | Onward

  /** Compare the pair on the empty word and queue its derivatives. */
  method Visit(re: ReSimp, a: Id, b: Id, points: seq<Char>, fuel: nat, memo: map<(Id, Char), Id>, todo: seq<Pair>,
               ghost l: Regex, ghost r: Regex, ghost all: set<(Regex, Regex)>)
    returns (verdict: Verdict, memo': map<(Id, Char), Id>, todo': seq<Pair>, ghost all': set<(Regex, Regex)>)
    requires re.Valid() && DerivativesOk(memo, re.trees) && QueueOk(todo, re.trees, l, r)
    requires PairOk((a, b), re.trees, l, r)
    modifies re
    ensures re.Valid() && re.Kept(old(re.nodes), old(re.trees))
    ensures DerivativesOk(memo', re.trees) && QueueOk(todo', re.trees, l, r)
    ensures Grown(todo, old(re.trees), all, todo', re.trees, all')
    ensures verdict.Differ? ==> exists w :: SetApart(l, r, w)
    ensures verdict.Differ? ==> !Agree(old(re.trees)[a], old(re.trees)[b])
    ensures verdict.Unknown? ==> !Matchable(old(re.trees)[a]) || !Matchable(old(re.trees)[b])
    ensures verdict.Onward? ==> Matchable(old(re.trees)[a]) && Matchable(old(re.trees)[b])
    ensures verdict.Onward? ==> Expanded(old(re.trees)[a], old(re.trees)[b], points, all')
  {
    verdict, memo', todo', all' := Unknown, memo, todo, all;
    ghost var ta, tb := re.trees[a], re.trees[b];
    var x := GroundMember(re, [], a);
    if x.None? {
      return;
    }
    var y := GroundMember(re, [], b);
    if y.None? {
      return;
    }
    if x.value != y.value {
      DisagreementSeparates(ta, tb, l, r);
      NoAgreement(ta, tb, x.value);
      verdict := Differ;
      return;
    }
    assert Agree(ta, tb);
    var ok;
    ok, memo', todo', all' := Expand(re, a, b, points, fuel, memo, todo, l, r, all);
    if ok {
      verdict := Onward;
    }
  }

  lemma {:induction false} NoAgreement(x: Regex, y: Regex, nullable: bool)
    requires forall env :: nullable <==> [] in Denote(x, env)
    requires forall env :: !nullable <==> [] in Denote(y, env)
    ensures !Agree(x, y)
  {
    var env: Env :| true;
    assert nullable <==> [] in Denote(x, env);
    assert !nullable <==> [] in Denote(y, env);
  }

  /** Pairs that one word leads to, found to agree on the empty word. */
  ghost predicate AgreedPairs(pairs: set<Pair>, trees: seq<Regex>, l: Regex, r: Regex) {
    forall p :: p in pairs ==> PairOk(p, trees, l, r) && Comparable(p, trees) && Agree(trees[p.0], trees[p.1])
  }

  /** The matcher answers for both. */
  ghost predicate Comparable(p: Pair, trees: seq<Regex>) {
    p.0 < |trees| && p.1 < |trees| && Matchable(trees[p.0]) && Matchable(trees[p.1])
  }

  lemma {:induction false} AgreedKept(pairs: set<Pair>, trees: seq<Regex>, trees': seq<Regex>, l: Regex, r: Regex)
    requires AgreedPairs(pairs, trees, l, r) && trees <= trees'
    ensures AgreedPairs(pairs, trees', l, r)
  {
    forall p | p in pairs ensures PairOk(p, trees', l, r) && Comparable(p, trees') && Agree(trees'[p.0], trees'[p.1]) {
      assert PairOk(p, trees, l, r) && Comparable(p, trees);
    }
  }

  /** Whether two regexes denote the same language. There is no answer if so many different pairs have been visited, or if a word
      leads to a pair that the matcher has no answer for. */
  method Equivalent(re: ReSimp, l: Id, r: Id, fuel: nat) returns (answer: Option<bool>, ghost pairs: set<Pair>, ghost last: Pair)
    requires re.Valid() && re.Has(l) && re.Has(r)
    modifies re
    ensures re.Valid() && re.Kept(old(re.nodes), old(re.trees))
    ensures answer == Some(true) ==> Same(old(re.trees)[l], old(re.trees)[r])
    ensures answer == Some(false) ==> exists w :: SetApart(old(re.trees)[l], old(re.trees)[r], w)
    ensures Visited(answer, pairs, last, re.trees, l, r, old(re.trees)[l], old(re.trees)[r])
    ensures Matchable(old(re.trees)[l]) && Matchable(old(re.trees)[r]) && !Agree(old(re.trees)[l], old(re.trees)[r]) ==>
      answer == Some(false)
  {
    answer, pairs, last := Search(re, l, r, fuel);
    EmptyWordDecides(answer, pairs, last, re.trees, l, r, old(re.trees)[l], old(re.trees)[r]);
  }

  /** Visit pairs of derivatives, the first found first, until none is new. */
  method Search(re: ReSimp, l: Id, r: Id, fuel: nat) returns (answer: Option<bool>, ghost pairs: set<Pair>, ghost last: Pair)
    requires re.Valid() && re.Has(l) && re.Has(r)
    modifies re
    ensures re.Valid() && re.Kept(old(re.nodes), old(re.trees))
    ensures answer == Some(true) ==> Same(old(re.trees)[l], old(re.trees)[r])
    ensures answer == Some(false) ==> exists w :: SetApart(old(re.trees)[l], old(re.trees)[r], w)
    ensures Visited(answer, pairs, last, re.trees, l, r, old(re.trees)[l], old(re.trees)[r])
  {
    ghost var tl, tr := re.trees[l], re.trees[r];
    var points := CollectPoints(re, l, r);
    var visited: set<Pair> := {};
    var todo: seq<Pair> := [(l, r)];
    var memo: map<(Id, Char), Id> := map[];
    pairs, last := {}, (l, r);
    ghost var done: set<(Regex, Regex)>, all := {}, {(tl, tr)};
    ExploringStart(l, r, re.trees, points);
    while todo != []
      invariant re.Valid() && re.Kept(old(re.nodes), old(re.trees)) && DerivativesOk(memo, re.trees)
      invariant Searching(todo, re.trees, visited, done, all, points, l, r, tl, tr)
      decreases MAX_STATES - |visited|, |todo|
    {
      last := todo[0];
      pairs := visited;
      var stop;
      stop, answer, memo, todo, visited, done, all := Advance(re, todo, points, fuel, memo, visited, done, all, l, r, tl, tr);
      if stop {
        return answer, pairs, last;
      }
    }
    pairs := visited;
    ExploringEnd(re.trees, visited, done, all, points, tl, tr);
    answer := Some(true);
  }

  /** What has been visited: pairs that agree on the empty word, the pair asked for first. Without an answer they are as many as
      allowed, or the last pair, which is new, has no answer from the matcher; answered no, the last pair disagrees. */
  ghost predicate Visited(answer: Option<bool>, pairs: set<Pair>, last: Pair, trees: seq<Regex>, l: Id, r: Id,
                          tl: Regex, tr: Regex) {
    && AgreedPairs(pairs, trees, tl, tr) && |pairs| <= MAX_STATES && (pairs != {} ==> (l, r) in pairs)
    && (answer != Some(true) ==> last !in pairs && PairOk(last, trees, tl, tr) && (pairs == {} ==> last == (l, r)))
    && (answer == None ==> |pairs| == MAX_STATES || !Comparable(last, trees))
    && (answer == Some(false) ==> !Agree(trees[last.0], trees[last.1]))
  }

  /** So the empty word alone decides, when it tells the two apart. */
  lemma {:induction false} EmptyWordDecides(answer: Option<bool>, pairs: set<Pair>, last: Pair, trees: seq<Regex>, l: Id, r: Id,
                                            tl: Regex, tr: Regex)
    requires Visited(answer, pairs, last, trees, l, r, tl, tr) && l < |trees| && r < |trees| && trees[l] == tl && trees[r] == tr
    requires answer == Some(true) ==> Same(tl, tr)
    ensures Matchable(tl) && Matchable(tr) && !Agree(tl, tr) ==> answer == Some(false)
  {
    match answer
    case None =>
      if pairs == {} {
        assert |pairs| == 0 && last == (l, r);
        assert !Comparable(last, trees);
      } else {
        AgreedAt(pairs, trees, tl, tr, l, r);
      }
    case Some(same) =>
      if same {
        SameAgree(tl, tr);
      }
  }

  lemma {:induction false} AgreedAt(pairs: set<Pair>, trees: seq<Regex>, tl: Regex, tr: Regex, l: Id, r: Id)
    requires AgreedPairs(pairs, trees, tl, tr) && (l, r) in pairs && l < |trees| && r < |trees|
    ensures Agree(trees[l], trees[r])
  {
    var p := (l, r);
    assert p in pairs;
  }

  lemma {:induction false} SameAgree(x: Regex, y: Regex)
    requires Same(x, y)
    ensures Agree(x, y)
  {
    forall env ensures [] in Denote(x, env) <==> [] in Denote(y, env) {
      assert Denote(x, env) == Denote(y, env);
    }
  }

  /** Take the first pair of the queue: skip it when it is not new, give up when there are too many, else visit it. */
  method Advance(re: ReSimp, todo: seq<Pair>, points: seq<Char>, fuel: nat, memo: map<(Id, Char), Id>, visited: set<Pair>,
                 ghost done: set<(Regex, Regex)>, ghost all: set<(Regex, Regex)>, ghost l: Id, ghost r: Id,
                 ghost tl: Regex, ghost tr: Regex)
    returns (stop: bool, answer: Option<bool>, memo': map<(Id, Char), Id>, todo': seq<Pair>, visited': set<Pair>,
             ghost done': set<(Regex, Regex)>, ghost all': set<(Regex, Regex)>)
    requires re.Valid() && DerivativesOk(memo, re.trees) && |todo| > 0
    requires Searching(todo, re.trees, visited, done, all, points, l, r, tl, tr)
    modifies re
    ensures re.Valid() && re.Kept(old(re.nodes), old(re.trees)) && DerivativesOk(memo', re.trees)
    ensures stop ==> answer != Some(true) && Visited(answer, visited, todo[0], re.trees, l, r, tl, tr)
    ensures stop && answer == Some(false) ==> exists w :: SetApart(tl, tr, w)
    ensures !stop ==> Searching(todo', re.trees, visited', done', all', points, l, r, tl, tr)
    ensures !stop ==> |visited| < |visited'| <= MAX_STATES || (visited' == visited && |todo'| < |todo|)
  {
    stop, answer, memo', todo', visited', done', all' := false, None, memo, todo[1..], visited, done, all;
    if todo[0] in visited {
      SearchingPop(todo, re.trees, visited, done, all, points, l, r, tl, tr);
      return;
    }
    if |visited| >= MAX_STATES {
      stop := true;
      SearchingPop(todo, re.trees, visited, done, all, points, l, r, tl, tr);
      SearchingStops(None, todo, re.trees, visited, done, all, points, l, r, tl, tr);
      return;
    }
    var verdict;
    verdict, memo', todo', visited', done', all' := VisitNext(re, todo, points, fuel, memo, visited, done, all, l, r, tl, tr);
    stop := !verdict.Onward?;
    answer := if verdict.Differ? then Some(false) else None;
  }

  /** Visit the first pair of the queue, which is new. */
  method VisitNext(re: ReSimp, todo: seq<Pair>, points: seq<Char>, fuel: nat, memo: map<(Id, Char), Id>, visited: set<Pair>,
                   ghost done: set<(Regex, Regex)>, ghost all: set<(Regex, Regex)>, ghost l: Id, ghost r: Id,
                   ghost tl: Regex, ghost tr: Regex)
    returns (verdict: Verdict, memo': map<(Id, Char), Id>, todo': seq<Pair>, visited': set<Pair>,
             ghost done': set<(Regex, Regex)>, ghost all': set<(Regex, Regex)>)
    requires re.Valid() && DerivativesOk(memo, re.trees) && |todo| > 0 && todo[0] !in visited && |visited| < MAX_STATES
    requires Searching(todo, re.trees, visited, done, all, points, l, r, tl, tr)
    modifies re
    ensures re.Valid() && re.Kept(old(re.nodes), old(re.trees)) && DerivativesOk(memo', re.trees)
    ensures visited' == visited + {todo[0]}
    ensures match verdict
      case Differ => Visited(Some(false), visited, todo[0], re.trees, l, r, tl, tr) && exists w :: SetApart(tl, tr, w)
      case Unknown => Visited(None, visited, todo[0], re.trees, l, r, tl, tr)
      case Onward => Searching(todo', re.trees, visited', done', all', points, l, r, tl, tr)
  {
    var (a, b) := todo[0];
    ghost var trees0 := re.trees;
    SearchingPop(todo, re.trees, visited, done, all, points, l, r, tl, tr);
    visited' := visited + {(a, b)};
    verdict, memo', todo', all' := Visit(re, a, b, points, fuel, memo, todo[1..], tl, tr, all);
    AgreedKept(visited, trees0, re.trees, tl, tr);
    done' := done + {(trees0[a], trees0[b])};
    if verdict.Onward? {
      SearchingNext(todo, trees0, visited, done, all, points, l, r, tl, tr, a, b, todo', re.trees, all');
    }
  }

  /** How the search stands: it began with the pair asked for, and the pairs visited agree. */
  ghost predicate Searching(todo: seq<Pair>, trees: seq<Regex>, visited: set<Pair>, done: set<(Regex, Regex)>,
                            all: set<(Regex, Regex)>, points: seq<Char>, l: Id, r: Id, tl: Regex, tr: Regex) {
    && Exploring(todo, trees, visited, done, all, points, tl, tr) && |visited| <= MAX_STATES
    && AgreedPairs(visited, trees, tl, tr) && if visited == {} then todo == [(l, r)] else (l, r) in visited
  }

  lemma {:induction false} SearchingPop(todo: seq<Pair>, trees: seq<Regex>, visited: set<Pair>, done: set<(Regex, Regex)>,
                     all: set<(Regex, Regex)>, points: seq<Char>, l: Id, r: Id, tl: Regex, tr: Regex)
    requires Searching(todo, trees, visited, done, all, points, l, r, tl, tr) && |todo| > 0
    ensures PairOk(todo[0], trees, tl, tr) && QueueOk(todo[1..], trees, tl, tr)
    ensures todo[0] in visited ==> Searching(todo[1..], trees, visited, done, all, points, l, r, tl, tr)
  {
    ExploringPop(todo, trees, visited, done, all, points, tl, tr);
  }

  /** A search may stop before a new pair if there are too many pairs, or if this one has no answer or disagrees. */
  lemma {:induction false} SearchingStops(answer: Option<bool>, todo: seq<Pair>, trees: seq<Regex>, visited: set<Pair>,
                                          done: set<(Regex, Regex)>, all: set<(Regex, Regex)>, points: seq<Char>, l: Id, r: Id,
                                          tl: Regex, tr: Regex)
    requires Searching(todo, trees, visited, done, all, points, l, r, tl, tr) && |todo| > 0 && todo[0] !in visited
    requires answer != Some(true) && todo[0].0 < |trees| && todo[0].1 < |trees|
    requires answer == None ==> |visited| == MAX_STATES || !Comparable(todo[0], trees)
    requires answer == Some(false) ==> !Agree(trees[todo[0].0], trees[todo[0].1])
    ensures Visited(answer, visited, todo[0], trees, l, r, tl, tr)
  {
    SearchingPop(todo, trees, visited, done, all, points, l, r, tl, tr);
  }

  lemma {:induction false} SearchingNext(todo: seq<Pair>, trees: seq<Regex>, visited: set<Pair>, done: set<(Regex, Regex)>,
                     all: set<(Regex, Regex)>, points: seq<Char>, l: Id, r: Id, tl: Regex, tr: Regex, a: Id, b: Id,
                     todo': seq<Pair>, trees': seq<Regex>, all': set<(Regex, Regex)>)
    requires Searching(todo, trees, visited, done, all, points, l, r, tl, tr)
    requires |todo| > 0 && todo[0] == (a, b) && a < |trees| && b < |trees| && (a, b) !in visited && |visited| < MAX_STATES
    requires Grown(todo[1..], trees, all, todo', trees', all') && QueueOk(todo', trees', tl, tr) && trees <= trees'
    requires PairOk((a, b), trees, tl, tr)
    requires Expanded(trees[a], trees[b], points, all') && Matchable(trees[a]) && Matchable(trees[b])
    ensures Searching(todo', trees', visited + {(a, b)}, done + {(trees[a], trees[b])}, all', points, l, r, tl, tr)
  {
    assert visited + {(a, b)} - {(a, b)} == visited;
    ExploringNext(todo, trees, visited + {(a, b)}, done, all, points, tl, tr, a, b, todo', trees', all');
    assert Comparable((a, b), trees);
    AgreedKept(visited + {(a, b)}, trees, trees', tl, tr);
  }

  /** What the walk knows: the pairs done are expanded, the others queued. */
  ghost predicate Exploring(todo: seq<Pair>, trees: seq<Regex>, visited: set<Pair>, done: set<(Regex, Regex)>,
                            all: set<(Regex, Regex)>, points: seq<Char>, l: Regex, r: Regex) {
    && QueueOk(todo, trees, l, r) && Accounted(all, done, todo, trees)
    && (l, r) in all && Bisimulation(done, points, all)
    && (forall v :: v in visited ==> v.0 < |trees| && v.1 < |trees| && (trees[v.0], trees[v.1]) in done)
    && (forall p :: p in done ==> Matchable(p.0) && Matchable(p.1))
  }

  lemma {:induction false} ExploringStart(l: Id, r: Id, trees: seq<Regex>, points: seq<Char>)
    requires l < |trees| && r < |trees| && LoopsOk(trees[l]) && LoopsOk(trees[r])
    ensures Exploring([(l, r)], trees, {}, {}, {(trees[l], trees[r])}, points, trees[l], trees[r])
  {
    var todo: seq<Pair> := [(l, r)];
    DerivedStart(trees[l], trees[r]);
    assert todo[0] == (l, r) && PairOk(todo[0], trees, trees[l], trees[r]);
    assert Queued((trees[l], trees[r]), todo, trees);
  }

  lemma {:induction false} ExploringPop(todo: seq<Pair>, trees: seq<Regex>, visited: set<Pair>, done: set<(Regex, Regex)>,
                     all: set<(Regex, Regex)>, points: seq<Char>, l: Regex, r: Regex)
    requires Exploring(todo, trees, visited, done, all, points, l, r) && |todo| > 0
    ensures PairOk(todo[0], trees, l, r) && QueueOk(todo[1..], trees, l, r)
    ensures todo[0] in visited ==> Exploring(todo[1..], trees, visited, done, all, points, l, r)
  {
    assert PairOk(todo[0], trees, l, r);
    QueuePop(all, done, todo, trees, l, r);
    if todo[0] in visited {
      assert done + {(trees[todo[0].0], trees[todo[0].1])} == done;
    }
  }

  /** `visited` holds the pair just expanded. */
  lemma {:induction false} ExploringNext(todo: seq<Pair>, trees: seq<Regex>, visited: set<Pair>, done: set<(Regex, Regex)>,
                      all: set<(Regex, Regex)>, points: seq<Char>, l: Regex, r: Regex, a: Id, b: Id,
                      todo': seq<Pair>, trees': seq<Regex>, all': set<(Regex, Regex)>)
    requires |todo| > 0 && todo[0] == (a, b) && a < |trees| && b < |trees| && (a, b) in visited
    requires Exploring(todo, trees, visited - {(a, b)}, done, all, points, l, r)
    requires Grown(todo[1..], trees, all, todo', trees', all') && QueueOk(todo', trees', l, r) && trees <= trees'
    requires Expanded(trees[a], trees[b], points, all') && Matchable(trees[a]) && Matchable(trees[b])
    ensures Exploring(todo', trees', visited, done + {(trees[a], trees[b])}, all', points, l, r)
  {
    var done' := done + {(trees[a], trees[b])};
    QueuePop(all, done, todo, trees, l, r);
    BisimulationMono(done, points, all, all');
    forall v | v in visited ensures v.0 < |trees'| && v.1 < |trees'| && (trees'[v.0], trees'[v.1]) in done' {
      assert v in visited - {(a, b)} || v == (a, b);
    }
    forall p | p in done' ensures Expanded(p.0, p.1, points, all') {
    }
    forall p | p in all' ensures p in done' || Queued(p, todo', trees') {
      assert p in all ==> p in done' || Queued(p, todo[1..], trees);
    }
  }

  lemma {:induction false} ExploringEnd(trees: seq<Regex>, visited: set<Pair>, done: set<(Regex, Regex)>, all: set<(Regex, Regex)>,
                     points: seq<Char>, l: Regex, r: Regex)
    requires Exploring([], trees, visited, done, all, points, l, r)
    requires 0 in points && Covered(l, PointSet(points)) && Covered(r, PointSet(points))
    ensures Same(l, r)
  {
    forall p | p in all ensures p in done {
      assert !Queued(p, [], trees);
    }
    BisimulationMono(done, points, all, done);
    BisimilarSame(l, r, points, done);
  }

  /** Taking the first pair off the queue leaves it as the only one unaccounted for. */
  lemma {:induction false} QueuePop(all: set<(Regex, Regex)>, done: set<(Regex, Regex)>, todo: seq<Pair>, trees: seq<Regex>, l: Regex, r: Regex)
    requires Accounted(all, done, todo, trees) && QueueOk(todo, trees, l, r) && |todo| > 0
    requires todo[0].0 < |trees| && todo[0].1 < |trees|
    ensures Accounted(all, done + {(trees[todo[0].0], trees[todo[0].1])}, todo[1..], trees) && QueueOk(todo[1..], trees, l, r)
  {
    var rest := todo[1..];
    forall i | 0 <= i < |rest| ensures PairOk(rest[i], trees, l, r) {
      assert rest[i] == todo[i + 1];
    }
    forall p | p in all ensures p in done + {(trees[todo[0].0], trees[todo[0].1])} || Queued(p, rest, trees) {
      if p !in done {
        var i :| 0 <= i < |todo| && todo[i].0 < |trees| && todo[i].1 < |trees| && p == (trees[todo[i].0], trees[todo[i].1]);
        assert i > 0 ==> rest[i - 1] == todo[i];
      }
    }
  }
}
