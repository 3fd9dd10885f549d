/** Membership constraints: what a string term in a regex is rewritten to. */
module RegexQueries {
  import opened Options
  import opened RegexTerms
  import opened RegexArena
  import opened RegexInfo
  import opened RegexRewriter
  import opened RegexMembership
  import A = LengthAbs
  import L = Languages

  datatype Formula =
    | Truth
    | Falsity
    | StrEq(a: Str, b: Str)
    | LenZero(a: Str)
    | Prefix(p: Str, a: Str)
    | Suffix(p: Str, a: Str)
    | InRe(a: Str, r: Id)
    | Or(fs: seq<Formula>)

  ghost predicate Holds(f: Formula, trees: seq<Regex>, env: Env) {
    match f
    case Truth => true
    case Falsity => false
    case StrEq(a, b) => StrValue(a, env) == StrValue(b, env)
    case LenZero(a) => |StrValue(a, env)| == 0
    case Prefix(p, a) => StrValue(p, env) <= StrValue(a, env)
    case Suffix(p, a) => EndsIn(StrValue(a, env), StrValue(p, env))
    case InRe(a, r) => r < |trees| && StrValue(a, env) in Denote(trees[r], env)
    case Or(fs) => exists i :: 0 <= i < |fs| && Holds(fs[i], trees, env)
  }

  ghost predicate EndsIn(w: Word, s: Word) {
    |s| <= |w| && w[|w| - |s|..] == s
  }

  /** The regexes that the formula mentions are in the arena. */
  ghost predicate Within(f: Formula, n: nat) {
    match f
    case InRe(_, r) => r < n
    case Or(fs) => forall i :: 0 <= i < |fs| ==> Within(fs[i], n)
    case _ => true
  }

  /** The formula says that `a` is in `t`, for every value of a length the length domain can speak about. */
  ghost predicate Says(f: Formula, trees: seq<Regex>, a: Str, t: Regex) {
    && Within(f, |trees|)
    && forall env :: |StrValue(a, env)| <= A.U32_MAX ==> (Holds(f, trees, env) <==> StrValue(a, env) in Denote(t, env))
  }

  function Boolean(b: bool): Formula {
    if b then Truth else Falsity
  }

  // ----- the connectives -----

  function Disjuncts(f: Formula): seq<Formula> {
    match f
    case Falsity => []
    case Or(fs) => fs
    case _ => [f]
  }

  /** The new disjuncts of `f`, each once. */
  method AddDisjuncts(out: seq<Formula>, f: Formula, ghost trees: seq<Regex>) returns (out': seq<Formula>)
    requires forall i :: 0 <= i < |out| ==> Within(out[i], |trees|)
    requires Within(f, |trees|)
    ensures forall i :: 0 <= i < |out'| ==> Within(out'[i], |trees|)
    ensures forall env :: Holds(Or(out'), trees, env) <==> Holds(Or(out), trees, env) || Holds(f, trees, env)
  {
    var fs := Disjuncts(f);
    out' := out;
    for k := 0 to |fs|
      invariant forall i :: 0 <= i < |out'| ==> Within(out'[i], |trees|)
      invariant forall x :: x in out' <==> x in out || x in fs[..k]
    {
      assert fs[..k + 1] == fs[..k] + [fs[k]];
      if fs[k] !in out' {
        out' := out' + [fs[k]];
      }
    }
    assert fs[..|fs|] == fs;
    forall env ensures Holds(Or(out'), trees, env) <==> Holds(Or(out), trees, env) || Holds(f, trees, env) {
      OrByMembers(out', trees, env);
      OrByMembers(out, trees, env);
      DisjunctsMean(f, trees, env);
    }
  }

  lemma {:induction false} OrByMembers(fs: seq<Formula>, trees: seq<Regex>, env: Env)
    ensures Holds(Or(fs), trees, env) <==> exists f :: f in fs && Holds(f, trees, env)
  {
    if f :| f in fs && Holds(f, trees, env) {
      var i :| 0 <= i < |fs| && fs[i] == f;
    }
  }

  lemma {:induction false} DisjunctsMean(f: Formula, trees: seq<Regex>, env: Env)
    ensures Holds(f, trees, env) <==> exists g :: g in Disjuncts(f) && Holds(g, trees, env)
  {
    match f
    case Or(fs) => OrByMembers(fs, trees, env);
    case Falsity =>
    case _ => assert f in Disjuncts(f);
  }

  method MkOr(f: Formula, g: Formula, ghost trees: seq<Regex>) returns (r: Formula)
    requires Within(f, |trees|) && Within(g, |trees|)
    ensures Within(r, |trees|)
    ensures forall env :: Holds(r, trees, env) <==> Holds(f, trees, env) || Holds(g, trees, env)
  {
    if f.Truth? || g.Truth? {
      return Truth;
    }
    var out := AddDisjuncts([], f, trees);
    out := AddDisjuncts(out, g, trees);
    forall env ensures Holds(Or(out), trees, env) <==> Holds(f, trees, env) || Holds(g, trees, env) {
      assert !Holds(Or([]), trees, env);
    }
    r := if |out| == 0 then Falsity else if |out| == 1 then out[0] else Or(out);
  }

  /** The string equation. */
  function MkStrEq(a: Str, b: Str): Formula {
    if a == b then Truth
    else if a.Lit? && b.Lit? then Falsity
    else if a.StrVar? && b == Lit([]) then StrEq(b, a)
    else StrEq(a, b)
  }

  /** The formula that `a` is the empty word. */
  function MkLenZero(a: Str): Formula {
    if a.Lit? then Boolean(|a.s| == 0) else LenZero(a)
  }

  // ----- membership -----

  function CanBeMember(a: Str, t: Regex): bool {
    var i := InfoOf(t);
    if !i.known || i.len.period <= 1 then true
    else if a.Lit? then A.ResidueReachable(i.len, |a.s| % 0x1_0000_0000, 0)
    else A.ResidueReachable(i.len, 0, 1)
  }

  /** A length of no allowed residue is no length of the language. */
  lemma {:induction false} CannotBeMember(a: Str, t: Regex, env: Env)
    requires LoopsOk(t) && !CanBeMember(a, t) && |StrValue(a, env)| <= A.U32_MAX
    ensures StrValue(a, env) !in Denote(t, env)
  {
    var w, len := StrValue(a, env), InfoOf(t).len;
    if w in Denote(t, env) {
      LengthsSound(t, env);
      Small(|w|);
      AllowedReached(len, |w|);
      A.ResidueReachableIff(len, |w|, 0);
      A.ResidueReachableIff(len, 0, 1);
    }
  }

  lemma {:induction false} AllowedReached(len: A.LenAbs, n: nat)
    requires len.Ok() && len.Has(n)
    ensures A.Reaches(len, n, 0) && A.Reaches(len, 0, 1)
  {
    assert (n + 0 * 0) % len.period in len.residues;
    assert (0 + 1 * n) % len.period in len.residues;
  }

  lemma {:induction false} Small(n: nat)
    requires n <= A.U32_MAX
    ensures n % 0x1_0000_0000 == n
  {
  }

  /** `t` is `o` or the empty word. */
  predicate HasOption(t: Regex, o: Regex) {
    t == Opt(o) || (t.Union? && Epsilon(t.b) && t.a == o) || (t.Union? && Epsilon(t.a) && t.b == o)
  }

  /** What is optional in the regex, beside the empty word. */
  function Optional(re: ReSimp, b: Id): (o: Option<Id>)
    requires re.Valid() && b < |re.nodes|
    reads re
    ensures o.Some? ==> o.value < |re.nodes|
    ensures o.Some? ==> HasOption(re.trees[b], re.trees[o.value])
  {
    re.Look(b);
    match re.nodes[b]
    case Un(OptOp, x) => Some(x)
    case Bin(UnionOp, x, y) => if Epsilon(re.Term(y)) then Some(x) else if Epsilon(re.Term(x)) then Some(y) else None
    case _ => None
  }

  lemma {:induction false} OptionalMeans(t: Regex, o: Regex, env: Env, w: Word)
    requires HasOption(t, o)
    ensures w in Denote(t, env) <==> w == [] || w in Denote(o, env)
  {
    if t.Union? {
      EpsilonMeans(if Epsilon(t.b) then t.b else t.a, env);
    }
  }

  lemma {:induction false} PrefixMeans(p: Str, f: Regex, env: Env, w: Word)
    requires FullSeq(f)
    ensures w in Denote(Concat(ToRe(p), f), env) <==> StrValue(p, env) <= w
    ensures w in Denote(Concat(f, ToRe(p)), env) <==> EndsIn(w, StrValue(p, env))
  {
    FullSeqMeans(f, env);
    var s := StrValue(p, env);
    AllAfter(s, w);
  }

  lemma {:induction false} PrefixSays(trees: seq<Regex>, a: Str, p: Str, f: Regex)
    requires FullSeq(f)
    ensures Says(Prefix(p, a), trees, a, Concat(ToRe(p), f)) && Says(Suffix(p, a), trees, a, Concat(f, ToRe(p)))
  {
    forall env
      ensures StrValue(a, env) in Denote(Concat(ToRe(p), f), env) <==> StrValue(p, env) <= StrValue(a, env)
      ensures StrValue(a, env) in Denote(Concat(f, ToRe(p)), env) <==> EndsIn(StrValue(a, env), StrValue(p, env))
    {
      PrefixMeans(p, f, env, StrValue(a, env));
    }
  }

  lemma {:induction false} AllMembers(trees: seq<Regex>, a: Str, t: Regex)
    requires FullSeq(t)
    ensures Says(Truth, trees, a, t)
  {
    forall env ensures StrValue(a, env) in Denote(t, env) {
      FullSeqMeans(t, env);
    }
  }

  lemma {:induction false} NoMember(trees: seq<Regex>, a: Str, t: Regex)
    requires LoopsOk(t) && !CanBeMember(a, t)
    ensures Says(Falsity, trees, a, t)
  {
    forall env | |StrValue(a, env)| <= A.U32_MAX ensures StrValue(a, env) !in Denote(t, env) {
      CannotBeMember(a, t, env);
    }
  }

  lemma {:induction false} AllAfter(s: Word, w: Word)
    ensures w in L.Cat(iset{s}, L.ALL) <==> s <= w
    ensures w in L.Cat(L.ALL, iset{s}) <==> EndsIn(w, s)
  {
    if s <= w {
      assert w[..|s|] == s;
      assert L.Split(iset{s}, L.ALL, w, |s|);
    }
    if EndsIn(w, s) {
      assert L.Split(L.ALL, iset{s}, w, |w| - |s|);
    }
    if w in L.Cat(iset{s}, L.ALL) {
      var i: nat :| L.Split(iset{s}, L.ALL, w, i);
      assert w == w[..i] + w[i..];
    }
    if w in L.Cat(L.ALL, iset{s}) {
      var i: nat :| L.Split(L.ALL, iset{s}, w, i);
      assert w[i..] == s;
    }
  }

  lemma {:induction false} MatchableGround(t: Regex)
    requires Matchable(t)
    ensures Ground(t)
  {
    match t
    case Concat(a, b) =>
      MatchableGround(a);
      MatchableGround(b);
    case Union(a, b) =>
      MatchableGround(a);
      MatchableGround(b);
    case Inter(a, b) =>
      MatchableGround(a);
      MatchableGround(b);
    case Diff(a, b) =>
      MatchableGround(a);
      MatchableGround(b);
    case Star(a) => MatchableGround(a);
    case Plus(a) => MatchableGround(a);
    case Opt(a) => MatchableGround(a);
    case Comp(a) => MatchableGround(a);
    case Loop(a, _, _) => MatchableGround(a);
    case _ =>
  }

  /** The rewriting of `a in b`: a membership that the matcher can decide is decided.
      `fuel` bounds how many optional layers are peeled off. */
  method MkInRe(re: ReSimp, a: Str, b: Id, fuel: nat) returns (f: Formula)
    requires re.Valid() && re.Has(b)
    modifies re
    ensures re.Valid() && re.Kept(old(re.nodes), old(re.trees)) && Says(f, re.trees, a, old(re.trees)[b])
    ensures a.Lit? && Matchable(old(re.trees)[b]) ==> f.Truth? || f.Falsity?
    ensures (old(re.trees)[b].ReNone? ==> f.Falsity?) && (FullSeq(old(re.trees)[b]) ==> f.Truth?)
    decreases fuel, 1
  {
    var t := re.Term(b);
    if t.ReNone? {
      return Falsity;
    }
    if FullSeq(t) {
      AllMembers(re.trees, a, t);
      return Truth;
    }
    if Matchable(t) {
      MatchableGround(t);
    }
    if a.Lit? && Ground(t) {
      var m := GroundMember(re, a.s, b);
      if m.Some? {
        return Boolean(m.value);
      }
    }
    if t.ToRe? {
      return MkStrEq(a, t.s);
    }
    if t.Concat? && t.a.ToRe? && FullSeq(t.b) {
      PrefixSays(re.trees, a, t.a.s, t.b);
      return Prefix(t.a.s, a);
    }
    if t.Concat? && t.b.ToRe? && FullSeq(t.a) {
      PrefixSays(re.trees, a, t.b.s, t.a);
      return Suffix(t.b.s, a);
    }
    var o := Optional(re, b);
    if o.Some? {
      f := MkInOptional(re, a, b, o.value, fuel);
      return;
    }
    if !CanBeMember(a, t) {
      NoMember(re.trees, a, t);
      return Falsity;
    }
    f := InRe(a, b);
  }

  /** `a` is empty, or in what is optional. */
  method MkInOptional(re: ReSimp, a: Str, b: Id, o: Id, fuel: nat) returns (f: Formula)
    requires re.Valid() && re.Has(b) && re.Has(o)
    requires HasOption(re.trees[b], re.trees[o])
    modifies re
    ensures re.Valid() && re.Kept(old(re.nodes), old(re.trees)) && Says(f, re.trees, a, old(re.trees)[b])
    decreases fuel, 0
  {
    ghost var t, u := re.trees[b], re.trees[o];
    var inner := re.Simplify(o, fuel);
    ghost var v := re.trees[inner];
    var g := InRe(a, inner);
    if fuel > 0 {
      g := MkInRe(re, a, inner, fuel - 1);
    }
    var c := MkLenZero(a);
    if c.Truth? || g.Truth? {
      f := Truth;
    } else if c.Falsity? {
      f := g;
    } else {
      f := MkOr(c, g, re.trees);
    }
    forall env | |StrValue(a, env)| <= A.U32_MAX
      ensures Holds(f, re.trees, env) <==> StrValue(a, env) in Denote(t, env)
    {
      OptionalMeans(t, u, env, StrValue(a, env));
      assert Denote(v, env) == Denote(u, env);
    }
  }
}
