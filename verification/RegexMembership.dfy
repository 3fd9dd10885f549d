/** Membership of a literal in a ground regex, by the spans that each part matches. */
module RegexMembership {
  import opened Options
  import opened RegexTerms
  import opened RegexArena
  import opened RegexRewriter
  import opened SpanMatrix
  import L = Languages

  /** The regexes that the matcher can answer for: no variables and no conditionals. */
  predicate Matchable(r: Regex) {
    match r
    case ReVar(_) => false
    case ToRe(s) => s.Lit?
    case Range(from, to) => from.Lit? && to.Lit?
    case Concat(a, b) => Matchable(a) && Matchable(b)
    case Union(a, b) => Matchable(a) && Matchable(b)
    case Inter(a, b) => Matchable(a) && Matchable(b)
    case Diff(a, b) => Matchable(a) && Matchable(b)
    case Ite(c, a, b) => false
    case Star(a) => Matchable(a)
    case Plus(a) => Matchable(a)
    case Opt(a) => Matchable(a)
    case Comp(a) => Matchable(a)
    case Loop(a, _, _) => Matchable(a)
    case _ => true
  }

  /** The matrix is right under every assignment. */
  ghost predicate SpansOf(m: Matrix, s: Word, t: Regex) {
    forall env :: Spans(m, s, Denote(t, env))
  }

  ghost predicate MemoSpans(memo: map<Id, Matrix>, s: Word, trees: seq<Regex>) {
    forall t :: t in memo ==> t < |trees| && Matchable(trees[t]) && Shape(memo[t], |s|) && SpansOf(memo[t], s, trees[t])
  }

  // ----- leaves -----

  method LeafSpans(s: Word, r: Regex) returns (m: Option<Matrix>)
    requires Childless(r)
    ensures m.Some? <==> Matchable(r)
    ensures m.Some? ==> Shape(m.value, |s|) && SpansOf(m.value, s, r)
  {
    var n := |s|;
    match r
    case ReNone =>
      var x := Fill(n, (i: nat, j: nat) => false);
      LeafRight(x, s, r);
      m := Some(x);
    case ReAll =>
      var x := Fill(n, (i: nat, j: nat) => true);
      LeafRight(x, s, r);
      m := Some(x);
    case AllChar =>
      var x := Fill(n, (i: nat, j: nat) => j == i + 1);
      LeafRight(x, s, r);
      m := Some(x);
    case Range(from, to) =>
      var p := CharRange(r);
      if p.Some? {
        var x := Fill(n, (i: nat, j: nat) => i < |s| && j == i + 1 && p.value.0 <= s[i] <= p.value.1);
        LeafRight(x, s, r);
        m := Some(x);
      } else if from.Lit? && to.Lit? {
        var x := Fill(n, (i: nat, j: nat) => false);
        LeafRight(x, s, r);
        m := Some(x);
      } else {
        m := None;
      }
    case ToRe(l) =>
      if !l.Lit? {
        return None;
      }
      var x := Fill(n, (i: nat, j: nat) => i <= j <= |s| && j == i + |l.s| && s[i..j] == l.s);
      LeafRight(x, s, r);
      m := Some(x);
    case _ =>
      m := None;
  }

  predicate LeafAt(s: Word, r: Regex, i: nat, j: nat)
    requires Childless(r) && i <= j <= |s|
  {
    match r
    case ReAll => true
    case AllChar => j == i + 1
    case Range(_, _) => CharRange(r).Some? && j == i + 1 && CharRange(r).value.0 <= s[i] <= CharRange(r).value.1
    case ToRe(l) => l.Lit? && j == i + |l.s| && s[i..j] == l.s
    case _ => false
  }

  lemma {:induction false} LeafRight(m: Matrix, s: Word, r: Regex)
    requires Childless(r) && Matchable(r) && Shape(m, |s|)
    requires forall i, j :: 0 <= i <= j <= |s| ==> m[i][j] == LeafAt(s, r, i, j)
    ensures SpansOf(m, s, r)
  {
    forall env, i: nat, j: nat ensures SpanAt(m, s, Denote(r, env), i, j) {
      if i <= j <= |s| {
        LeafMeans(s, r, env, i, j);
      }
    }
  }

  lemma {:induction false} LeafMeans(s: Word, r: Regex, env: Env, i: nat, j: nat)
    requires Childless(r) && Matchable(r) && i <= j <= |s|
    ensures LeafAt(s, r, i, j) <==> s[i..j] in Denote(r, env)
  {
    var w := s[i..j];
    assert |w| == j - i && (|w| > 0 ==> w[0] == s[i]);
    if r.ToRe? && w == r.s.s {
      assert j == i + |r.s.s|;
    }
  }

  // ----- sets -----

  method SetSpans(op: BinOp, a: Matrix, b: Matrix, s: Word, ghost ta: Regex, ghost tb: Regex) returns (m: Matrix)
    requires op != ConcatOp && Shape(a, |s|) && Shape(b, |s|) && SpansOf(a, s, ta) && SpansOf(b, s, tb)
    ensures Shape(m, |s|) && SpansOf(m, s, Apply2(op, ta, tb))
  {
    m := Fill(|s|, (i: nat, j: nat) => i < |a| && i < |b| && j < |a[i]| && j < |b[i]| && SetBit(op, a[i][j], b[i][j]));
    forall env, i: nat, j: nat ensures SpanAt(m, s, Denote(Apply2(op, ta, tb), env), i, j) {
      assert SpanAt(a, s, Denote(ta, env), i, j) && SpanAt(b, s, Denote(tb, env), i, j);
    }
  }

  predicate SetBit(op: BinOp, a: bool, b: bool) {
    match op
    case UnionOp => a || b
    case InterOp => a && b
    case _ => a && !b
  }

  method CompSpans(a: Matrix, s: Word, ghost ta: Regex) returns (m: Matrix)
    requires Shape(a, |s|) && SpansOf(a, s, ta)
    ensures Shape(m, |s|) && SpansOf(m, s, Comp(ta))
  {
    m := Fill(|s|, (i: nat, j: nat) => i < |a| && j < |a[i]| && !a[i][j]);
    forall env, i: nat, j: nat ensures SpanAt(m, s, Denote(Comp(ta), env), i, j) {
      assert SpanAt(a, s, Denote(ta, env), i, j);
    }
  }

  method ConcatSpans(a: Matrix, b: Matrix, s: Word, ghost ta: Regex, ghost tb: Regex) returns (m: Matrix)
    requires Shape(a, |s|) && Shape(b, |s|) && SpansOf(a, s, ta) && SpansOf(b, s, tb)
    ensures Shape(m, |s|) && SpansOf(m, s, Concat(ta, tb))
  {
    m := Compose(a, b, |s|);
    forall env ensures Spans(m, s, Denote(Concat(ta, tb), env)) {
      ComposeSpans(a, b, m, s, Denote(ta, env), Denote(tb, env));
    }
  }

  // ----- repetitions -----

  /** How often a repetition operator repeats. */
  function Bounds(op: UnOp): (nat, Option<nat>)
    requires op != CompOp
  {
    match op
    case StarOp => (0, None)
    case PlusOp => (1, None)
    case OptOp => (0, Some(1))
    case LoopOp(lo, hi) => (lo, hi)
  }

  lemma {:induction false} BoundsMean(op: UnOp, t: Regex, env: Env)
    requires op != CompOp
    ensures Denote(Apply1(op, t), env) == L.Rep(Denote(t, env), Bounds(op).0, Bounds(op).1)
  {
    if op.OptOp? {
      OptIsRep(Denote(t, env));
    }
  }

  lemma {:induction false} OptIsRep(a: L.Lang)
    ensures L.EPS + a == L.Rep(a, 0, Some(1))
  {
    L.PowOne(a);
    forall w: Word ensures w in L.EPS + a <==> w in L.Rep(a, 0, Some(1)) {
      if w in L.EPS {
        L.RepIntro(a, 0, Some(1), 0, w);
      }
      if w in a {
        L.RepIntro(a, 0, Some(1), 1, w);
      }
      if w in L.Rep(a, 0, Some(1)) {
        var k := L.RepElim(a, 0, Some(1), w);
        assert k == 0 || k == 1;
      }
    }
  }

  method RepeatSpans(op: UnOp, a: Matrix, s: Word, ghost t: Regex) returns (m: Matrix)
    requires op != CompOp && Shape(a, |s|) && SpansOf(a, s, t)
    ensures Shape(m, |s|) && SpansOf(m, s, Apply1(op, t))
  {
    var (lo, hi) := Bounds(op);
    if hi.Some? && hi.value < lo {
      m := Fill(|s|, (i: nat, j: nat) => false);
      forall env ensures Spans(m, s, Denote(Apply1(op, t), env)) {
        BoundsMean(op, t, env);
        L.RepEmpty(Denote(t, env), lo, hi.value);
        NothingSpans(m, s);
      }
      return;
    }
    m := Powers(a, s, lo, if hi.Some? then hi.value else lo + |s| + 1);
    forall env ensures Spans(m, s, Denote(Apply1(op, t), env)) {
      BoundsMean(op, t, env);
      assert Spans(a, s, Denote(t, env));
      CutOffSpans(m, s, Denote(t, env), lo, hi);
    }
  }

  // ----- any regex -----

  /** The spans of `r` in `s`: there is an answer exactly for the matchable regexes, and it is right. */
  method FindSpans(re: ReSimp, s: Word, r: Id, memo: map<Id, Matrix>) returns (m: Option<Matrix>, memo': map<Id, Matrix>)
    requires re.Valid() && r < |re.nodes| && MemoSpans(memo, s, re.trees)
    ensures MemoSpans(memo', s, re.trees) && (m.Some? <==> Matchable(re.trees[r]))
    ensures m.Some? ==> Shape(m.value, |s|) && SpansOf(m.value, s, re.trees[r])
    decreases Size(re.trees[r]), 1
  {
    if r in memo {
      return Some(memo[r]), memo;
    }
    m, memo' := FindNodeSpans(re, s, r, memo);
    match m
    case Some(x) => memo' := memo'[r := x];
    case None =>
  }

  method FindNodeSpans(re: ReSimp, s: Word, r: Id, memo: map<Id, Matrix>) returns (m: Option<Matrix>, memo': map<Id, Matrix>)
    requires re.Valid() && r < |re.nodes| && MemoSpans(memo, s, re.trees)
    ensures MemoSpans(memo', s, re.trees) && (m.Some? <==> Matchable(re.trees[r]))
    ensures m.Some? ==> Shape(m.value, |s|) && SpansOf(m.value, s, re.trees[r])
    decreases Size(re.trees[r]), 0
  {
    memo' := memo;
    re.Look(r);
    match re.nodes[r]
    case Leaf(leaf) =>
      m := LeafSpans(s, leaf);
    case Un(op, a) =>
      var x;
      x, memo' := FindSpans(re, s, a, memo);
      if x.None? {
        return None, memo';
      }
      var y: Matrix;
      if op.CompOp? {
        y := CompSpans(x.value, s, re.trees[a]);
      } else {
        y := RepeatSpans(op, x.value, s, re.trees[a]);
      }
      m := Some(y);
    case Bin(op, a, b) =>
      var x, y;
      x, memo' := FindSpans(re, s, a, memo);
      if x.None? {
        return None, memo';
      }
      y, memo' := FindSpans(re, s, b, memo');
      if y.None? {
        return None, memo';
      }
      var z: Matrix;
      if op.ConcatOp? {
        z := ConcatSpans(x.value, y.value, s, re.trees[a], re.trees[b]);
      } else {
        z := SetSpans(op, x.value, y.value, s, re.trees[a], re.trees[b]);
      }
      m := Some(z);
    case IteNode(_, _, _) =>
      m := None;
  }

  /** Whether the literal is in the language of the regex. */
  method GroundMember(re: ReSimp, s: Word, r: Id) returns (b: Option<bool>)
    requires re.Valid() && r < |re.nodes|
    ensures b.Some? <==> Matchable(re.trees[r])
    ensures b.Some? ==> forall env :: b.value <==> s in Denote(re.trees[r], env)
  {
    var m, memo := FindSpans(re, s, r, map[]);
    if m.None? {
      return None;
    }
    var hit := m.value[0][|s|];
    forall env ensures hit <==> s in Denote(re.trees[r], env) {
      assert SpanAt(m.value, s, Denote(re.trees[r], env), 0, |s|);
      assert s[0..|s|] == s;
    }
    b := Some(hit);
  }
}
