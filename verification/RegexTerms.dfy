/** Regular expressions as trees, and the language each denotes under an assignment of its variables. */
module RegexTerms {
  import opened Options
  import L = Languages

  type Char = L.Char
  type Word = L.Word

  /** A string term. */
  datatype Str = StrVar(x: string) | Lit(s: Word)

  /** The condition of an if-then-else. */
  datatype Cond = CondVar(x: string) | True | False

  datatype Regex =
    | ReVar(x: string)
    | ToRe(s: Str)
    | ReNone
    | ReAll
    | AllChar
    | Range(from: Str, to: Str)
    | Concat(a: Regex, b: Regex)
    | Union(a: Regex, b: Regex)
    | Inter(a: Regex, b: Regex)
    | Diff(a: Regex, b: Regex)
    | Star(a: Regex)
    | Plus(a: Regex)
    | Opt(a: Regex)
    | Comp(a: Regex)
    | Loop(a: Regex, lo: nat, hi: Option<nat>)
    | Ite(c: Cond, a: Regex, b: Regex)

  /** Values for the variables. */
  datatype Env = Env(strs: string -> Word, regexes: string -> L.Lang, conds: string -> bool)

  ghost function StrValue(s: Str, env: Env): Word {
    match s
    case StrVar(x) => env.strs(x)
    case Lit(w) => w
  }

  ghost function CondValue(c: Cond, env: Env): bool {
    match c
    case CondVar(x) => env.conds(x)
    case True => true
    case False => false
  }

  ghost function Denote(r: Regex, env: Env): L.Lang {
    match r
    case ReVar(x) => env.regexes(x)
    case ToRe(s) => iset{StrValue(s, env)}
    case ReNone => L.NOTHING
    case ReAll => L.ALL
    case AllChar => L.DOT
    case Range(from, to) =>
      var lo, hi := StrValue(from, env), StrValue(to, env);
      if |lo| == 1 && |hi| == 1 then L.OneOf(lo[0], hi[0]) else L.NOTHING
    case Concat(a, b) => L.Cat(Denote(a, env), Denote(b, env))
    case Union(a, b) => Denote(a, env) + Denote(b, env)
    case Inter(a, b) => Denote(a, env) * Denote(b, env)
    case Diff(a, b) => Denote(a, env) - Denote(b, env)
    case Star(a) => L.Star(Denote(a, env))
    case Plus(a) => L.Plus(Denote(a, env))
    case Opt(a) => L.EPS + Denote(a, env)
    case Comp(a) => L.Comp(Denote(a, env))
    case Loop(a, lo, hi) => L.Rep(Denote(a, env), lo, hi)
    case Ite(c, a, b) => if CondValue(c, env) then Denote(a, env) else Denote(b, env)
  }

  // ----- recognizers -----

  predicate FullSeq(r: Regex) {
    r.ReAll? || (r.Star? && r.a.AllChar?)
  }

  predicate Epsilon(r: Regex) {
    r.ToRe? && r.s == Lit([])
  }

  predicate DotPlus(r: Regex) {
    || (r.Plus? && r.a.AllChar?)
    || (r.Concat? && ((r.a.AllChar? && FullSeq(r.b)) || (r.b.AllChar? && FullSeq(r.a))))
  }

  /** The bounds of a range of two single-character literals. */
  function CharRange(r: Regex): Option<(Char, Char)> {
    if r.Range? && r.from.Lit? && r.to.Lit? && |r.from.s| == 1 && |r.to.s| == 1
    then Some((r.from.s[0], r.to.s[0])) else None
  }

  lemma {:induction false} FullSeqMeans(r: Regex, env: Env)
    requires FullSeq(r)
    ensures Denote(r, env) == L.ALL
  {
    if r.Star? {
      L.StarDot();
    }
  }

  lemma {:induction false} EpsilonMeans(r: Regex, env: Env)
    requires Epsilon(r)
    ensures Denote(r, env) == L.EPS
  {
  }

  lemma {:induction false} DotPlusMeans(r: Regex, env: Env)
    requires DotPlus(r)
    ensures Denote(r, env) == L.ALL - L.EPS
  {
    L.PlusDot();
    if r.Concat? {
      if r.a.AllChar? && FullSeq(r.b) {
        FullSeqMeans(r.b, env);
      } else {
        FullSeqMeans(r.a, env);
      }
    }
  }

  lemma {:induction false} CharRangeMeans(r: Regex, env: Env)
    requires CharRange(r).Some?
    ensures Denote(r, env) == L.OneOf(CharRange(r).value.0, CharRange(r).value.1)
  {
  }

  /** No loop has its bounds crossed. */
  predicate LoopsOk(r: Regex) {
    match r
    case Concat(a, b) => LoopsOk(a) && LoopsOk(b)
    case Union(a, b) => LoopsOk(a) && LoopsOk(b)
    case Inter(a, b) => LoopsOk(a) && LoopsOk(b)
    case Diff(a, b) => LoopsOk(a) && LoopsOk(b)
    case Ite(_, a, b) => LoopsOk(a) && LoopsOk(b)
    case Star(a) => LoopsOk(a)
    case Plus(a) => LoopsOk(a)
    case Opt(a) => LoopsOk(a)
    case Comp(a) => LoopsOk(a)
    case Loop(a, lo, hi) => LoopsOk(a) && (hi.Some? ==> lo <= hi.value)
    case _ => true
  }

  /** No variable occurs. */
  predicate Ground(r: Regex) {
    match r
    case ReVar(_) => false
    case ToRe(s) => s.Lit?
    case Range(from, to) => from.Lit? && to.Lit?
    case Concat(a, b) => Ground(a) && Ground(b)
    case Union(a, b) => Ground(a) && Ground(b)
    case Inter(a, b) => Ground(a) && Ground(b)
    case Diff(a, b) => Ground(a) && Ground(b)
    case Ite(c, a, b) => !c.CondVar? && Ground(a) && Ground(b)
    case Star(a) => Ground(a)
    case Plus(a) => Ground(a)
    case Opt(a) => Ground(a)
    case Comp(a) => Ground(a)
    case Loop(a, _, _) => Ground(a)
    case _ => true
  }

  function Size(r: Regex): (n: nat)
    ensures n >= 1
  {
    match r
    case Concat(a, b) => 1 + Size(a) + Size(b)
    case Union(a, b) => 1 + Size(a) + Size(b)
    case Inter(a, b) => 1 + Size(a) + Size(b)
    case Diff(a, b) => 1 + Size(a) + Size(b)
    case Ite(_, a, b) => 1 + Size(a) + Size(b)
    case Star(a) => 1 + Size(a)
    case Plus(a) => 1 + Size(a)
    case Opt(a) => 1 + Size(a)
    case Comp(a) => 1 + Size(a)
    case Loop(a, _, _) => 1 + Size(a)
    case _ => 1
  }
}
