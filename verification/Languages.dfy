/** Languages over the string alphabet, and the laws of the regular operators that the rewriting rules use. */
module Languages {
  import opened Options

  /** The largest code point of the string theory. */
  const MAX_CHAR: nat := 196607

  type Char = c: nat | c <= MAX_CHAR
  type Word = seq<Char>
  type Lang = iset<Word>

  // ----- the operators -----

  ghost const EPS: Lang := iset w: Word | w == []
  ghost const ALL: Lang := iset w: Word | true
  ghost const NOTHING: Lang := iset{}

  /** `w` splits at `i` into a word of `a` and one of `b`. */
  ghost predicate Split(a: Lang, b: Lang, w: Word, i: nat) {
    i <= |w| && w[..i] in a && w[i..] in b
  }

  ghost predicate InCat(a: Lang, b: Lang, w: Word) {
    exists i: nat :: Split(a, b, w, i)
  }

  ghost function Cat(a: Lang, b: Lang): Lang {
    iset w: Word | InCat(a, b, w)
  }

  ghost function Pow(a: Lang, k: nat): Lang {
    if k == 0 then EPS else Cat(a, Pow(a, k - 1))
  }

  /** From `lo` to `hi` repetitions, or any number from `lo` on. */
  ghost function Rep(a: Lang, lo: nat, hi: Option<nat>): Lang {
    iset w: Word | InRep(a, lo, hi, w)
  }

  ghost predicate InRange(k: nat, lo: nat, hi: Option<nat>) {
    lo <= k && (hi.Some? ==> k <= hi.value)
  }

  ghost predicate InRep(a: Lang, lo: nat, hi: Option<nat>, w: Word) {
    exists k: nat :: InRange(k, lo, hi) && w in Pow(a, k)
  }

  ghost function Star(a: Lang): Lang {
    Rep(a, 0, None)
  }

  ghost function Plus(a: Lang): Lang {
    Rep(a, 1, None)
  }

  ghost function Comp(a: Lang): Lang {
    ALL - a
  }

  ghost function OneOf(lo: nat, hi: nat): Lang {
    iset w: Word | |w| == 1 && lo <= w[0] <= hi
  }

  // ----- concatenation -----

  lemma {:induction false} CatIntro(a: Lang, b: Lang, u: Word, v: Word)
    requires u in a && v in b
    ensures u + v in Cat(a, b)
  {
    assert (u + v)[..|u|] == u && (u + v)[|u|..] == v;
    assert Split(a, b, u + v, |u|);
  }

  lemma {:induction false} CatMono(a: Lang, b: Lang, a': Lang, b': Lang)
    requires a <= a' && b <= b'
    ensures Cat(a, b) <= Cat(a', b')
  {
    forall w | w in Cat(a, b) ensures w in Cat(a', b') {
      var i: nat :| Split(a, b, w, i);
      assert Split(a', b', w, i);
    }
  }

  lemma {:induction false} CatAssoc(a: Lang, b: Lang, c: Lang)
    ensures Cat(Cat(a, b), c) == Cat(a, Cat(b, c))
  {
    forall w | w in Cat(Cat(a, b), c) ensures w in Cat(a, Cat(b, c)) {
      var i: nat :| Split(Cat(a, b), c, w, i);
      var j: nat :| Split(a, b, w[..i], j);
      assert w[..i][..j] == w[..j] && w == w[..j] + (w[..i][j..] + w[i..]);
      CatIntro(b, c, w[..i][j..], w[i..]);
      CatIntro(a, Cat(b, c), w[..j], w[..i][j..] + w[i..]);
    }
    forall w | w in Cat(a, Cat(b, c)) ensures w in Cat(Cat(a, b), c) {
      var i: nat :| Split(a, Cat(b, c), w, i);
      var j: nat :| Split(b, c, w[i..], j);
      assert w[i..][j..] == w[i + j..] && w == (w[..i] + w[i..][..j]) + w[i + j..];
      CatIntro(a, b, w[..i], w[i..][..j]);
      CatIntro(Cat(a, b), c, w[..i] + w[i..][..j], w[i + j..]);
    }
  }

  lemma {:induction false} CatEps(a: Lang)
    ensures Cat(EPS, a) == a && Cat(a, EPS) == a
  {
    CatEpsLeft(a);
    CatEpsRight(a);
  }

  lemma {:induction false} CatEpsLeft(a: Lang)
    ensures Cat(EPS, a) == a
  {
    forall w: Word ensures w in Cat(EPS, a) <==> w in a {
      EpsLeft(a, w);
    }
  }

  lemma {:induction false} CatEpsRight(a: Lang)
    ensures Cat(a, EPS) == a
  {
    forall w: Word ensures w in Cat(a, EPS) <==> w in a {
      EpsRight(a, w);
    }
  }

  lemma {:induction false} EpsLeft(a: Lang, w: Word)
    ensures w in Cat(EPS, a) <==> w in a
  {
    if w in Cat(EPS, a) {
      var i: nat :| Split(EPS, a, w, i);
      assert w[i..] == w;
    }
    if w in a {
      CatIntro(EPS, a, [], w);
      assert [] + w == w;
    }
  }

  lemma {:induction false} EpsRight(a: Lang, w: Word)
    ensures w in Cat(a, EPS) <==> w in a
  {
    if w in Cat(a, EPS) {
      var i: nat :| Split(a, EPS, w, i);
      assert w[..i] == w;
    }
    if w in a {
      CatIntro(a, EPS, w, []);
      assert w + [] == w;
    }
  }

  lemma {:induction false} CatNothing(a: Lang)
    ensures Cat(NOTHING, a) == NOTHING && Cat(a, NOTHING) == NOTHING
  {
    forall w: Word ensures w !in Cat(NOTHING, a) && w !in Cat(a, NOTHING) {
      if i: nat :| Split(NOTHING, a, w, i) {
      }
      if i: nat :| Split(a, NOTHING, w, i) {
      }
    }
  }

  lemma {:induction false} CatUnion(a: Lang, b: Lang, c: Lang)
    ensures Cat(a + b, c) == Cat(a, c) + Cat(b, c)
    ensures Cat(c, a + b) == Cat(c, a) + Cat(c, b)
  {
    CatMono(a, c, a + b, c);
    CatMono(b, c, a + b, c);
    CatMono(c, a, c, a + b);
    CatMono(c, b, c, a + b);
    forall w | w in Cat(a + b, c) ensures w in Cat(a, c) + Cat(b, c) {
      var i: nat :| Split(a + b, c, w, i);
      assert Split(a, c, w, i) || Split(b, c, w, i);
    }
    forall w | w in Cat(c, a + b) ensures w in Cat(c, a) + Cat(c, b) {
      var i: nat :| Split(c, a + b, w, i);
      assert Split(c, a, w, i) || Split(c, b, w, i);
    }
  }

  // ----- powers -----

  lemma {:induction false} PowOne(a: Lang)
    ensures Pow(a, 1) == a
  {
    CatEps(a);
    assert Pow(a, 0) == EPS;
  }

  lemma {:induction false} PowAdd(a: Lang, m: nat, n: nat)
    ensures Cat(Pow(a, m), Pow(a, n)) == Pow(a, m + n)
  {
    if m == 0 {
      CatEps(Pow(a, n));
    } else {
      PowAdd(a, m - 1, n);
      CatAssoc(a, Pow(a, m - 1), Pow(a, n));
    }
  }

  lemma {:induction false} PowMul(a: Lang, m: nat, n: nat)
    ensures Pow(Pow(a, m), n) == Pow(a, m * n)
    decreases n
  {
    if n == 0 {
      assert m * n == 0;
    } else {
      PowMul(a, m, n - 1);
      PowAdd(a, m, m * (n - 1));
      assert m + m * (n - 1) == m * n;
    }
  }

  lemma {:induction false} PowMono(a: Lang, b: Lang, k: nat)
    requires a <= b
    ensures Pow(a, k) <= Pow(b, k)
  {
    if k > 0 {
      PowMono(a, b, k - 1);
      CatMono(a, Pow(a, k - 1), b, Pow(b, k - 1));
    }
  }

  lemma {:induction false} PowNothing(k: nat)
    requires k > 0
    ensures Pow(NOTHING, k) == NOTHING
  {
    CatNothing(Pow(NOTHING, k - 1));
  }

  lemma {:induction false} PowEps(k: nat)
    ensures Pow(EPS, k) == EPS
  {
    if k > 0 {
      PowEps(k - 1);
      assert Pow(EPS, k) == Cat(EPS, EPS);
      CatEps(EPS);
    }
  }

  // ----- repetitions -----

  lemma {:induction false} RepIntro(a: Lang, lo: nat, hi: Option<nat>, k: nat, w: Word)
    requires InRange(k, lo, hi) && w in Pow(a, k)
    ensures w in Rep(a, lo, hi)
  {
  }

  lemma {:induction false} RepElim(a: Lang, lo: nat, hi: Option<nat>, w: Word) returns (k: nat)
    requires w in Rep(a, lo, hi)
    ensures InRange(k, lo, hi) && w in Pow(a, k)
  {
    k :| InRange(k, lo, hi) && w in Pow(a, k);
  }

  lemma {:induction false} RepMono(a: Lang, lo: nat, hi: Option<nat>, b: Lang, lo': nat, hi': Option<nat>)
    requires a <= b && lo' <= lo && (hi'.Some? ==> hi.Some? && hi.value <= hi'.value)
    ensures Rep(a, lo, hi) <= Rep(b, lo', hi')
  {
    forall w | w in Rep(a, lo, hi) ensures w in Rep(b, lo', hi') {
      var k := RepElim(a, lo, hi, w);
      PowMono(a, b, k);
      RepIntro(b, lo', hi', k, w);
    }
  }

  lemma {:induction false} RepSingle(a: Lang, k: nat)
    ensures Rep(a, k, Some(k)) == Pow(a, k)
  {
  }

  lemma {:induction false} RepOne(a: Lang)
    ensures Rep(a, 1, Some(1)) == a
  {
    PowOne(a);
    RepSingle(a, 1);
  }

  lemma {:induction false} RepEmpty(a: Lang, lo: nat, hi: nat)
    requires hi < lo
    ensures Rep(a, lo, Some(hi)) == NOTHING
  {
  }

  function AddHi(a: Option<nat>, b: Option<nat>): Option<nat> {
    if a.Some? && b.Some? then Some(a.value + b.value) else None
  }

  ghost predicate RangeOk(lo: nat, hi: Option<nat>) {
    hi.Some? ==> lo <= hi.value
  }

  /** Repetitions of the same language in a row add up. */
  lemma {:induction false} RepCat(a: Lang, lo1: nat, hi1: Option<nat>, lo2: nat, hi2: Option<nat>)
    requires RangeOk(lo1, hi1) && RangeOk(lo2, hi2)
    ensures Cat(Rep(a, lo1, hi1), Rep(a, lo2, hi2)) == Rep(a, lo1 + lo2, AddHi(hi1, hi2))
  {
    var lo, hi := lo1 + lo2, AddHi(hi1, hi2);
    forall w | w in Cat(Rep(a, lo1, hi1), Rep(a, lo2, hi2)) ensures w in Rep(a, lo, hi) {
      var i: nat :| Split(Rep(a, lo1, hi1), Rep(a, lo2, hi2), w, i);
      var m := RepElim(a, lo1, hi1, w[..i]);
      var n := RepElim(a, lo2, hi2, w[i..]);
      assert Split(Pow(a, m), Pow(a, n), w, i);
      PowAdd(a, m, n);
      RepIntro(a, lo, hi, m + n, w);
    }
    forall w | w in Rep(a, lo, hi) ensures w in Cat(Rep(a, lo1, hi1), Rep(a, lo2, hi2)) {
      var k := RepElim(a, lo, hi, w);
      var m := if hi1.Some? && hi1.value < k - lo2 then hi1.value else k - lo2;
      PowAdd(a, m, k - m);
      var i: nat :| Split(Pow(a, m), Pow(a, k - m), w, i);
      RepIntro(a, lo1, hi1, m, w[..i]);
      RepIntro(a, lo2, hi2, k - m, w[i..]);
      assert Split(Rep(a, lo1, hi1), Rep(a, lo2, hi2), w, i);
    }
  }

  // ----- stars -----

  lemma {:induction false} StarHas(a: Lang)
    ensures [] in Star(a) && a <= Star(a) && a <= Plus(a)
  {
    RepIntro(a, 0, None, 0, []);
    PowOne(a);
    forall w | w in a ensures w in Star(a) && w in Plus(a) {
      RepIntro(a, 0, None, 1, w);
      RepIntro(a, 1, None, 1, w);
    }
  }

  lemma {:induction false} PowInStar(a: Lang, b: Lang, k: nat)
    requires a <= Star(b)
    ensures Pow(a, k) <= Star(b)
  {
    if k == 0 {
      StarHas(b);
    } else {
      PowInStar(a, b, k - 1);
      CatMono(a, Pow(a, k - 1), Star(b), Star(b));
      RepCat(b, 0, None, 0, None);
    }
  }

  /** The star is the least language that has the empty word and is closed under concatenation. */
  lemma {:induction false} StarLeast(a: Lang, b: Lang)
    requires a <= Star(b)
    ensures Star(a) <= Star(b)
  {
    forall w | w in Star(a) ensures w in Star(b) {
      var k := RepElim(a, 0, None, w);
      PowInStar(a, b, k);
    }
  }

  lemma {:induction false} StarEqual(a: Lang, b: Lang)
    requires a <= Star(b) && b <= Star(a)
    ensures Star(a) == Star(b)
  {
    StarLeast(a, b);
    StarLeast(b, a);
  }

  lemma {:induction false} StarMono(a: Lang, b: Lang)
    requires a <= b
    ensures Star(a) <= Star(b)
  {
    StarHas(b);
    StarLeast(a, b);
  }

  lemma {:induction false} StarStar(a: Lang)
    ensures Star(Star(a)) == Star(a)
  {
    StarHas(Star(a));
    StarLeast(Star(a), a);
  }

  lemma {:induction false} StarPlus(a: Lang)
    ensures Star(Plus(a)) == Star(a)
  {
    RepMono(a, 1, None, a, 0, None);
    StarHas(a);
    StarHas(Plus(a));
    StarEqual(Plus(a), a);
  }

  lemma {:induction false} StarTrivial()
    ensures Star(NOTHING) == EPS && Star(EPS) == EPS && Star(ALL) == ALL
  {
    forall w: Word ensures (w in Star(NOTHING) <==> w in EPS) && (w in Star(EPS) <==> w in EPS) {
      StarHas(NOTHING);
      StarHas(EPS);
      if w in Star(NOTHING) {
        var k := RepElim(NOTHING, 0, None, w);
        if k > 0 {
          PowNothing(k);
        }
      }
      if w in Star(EPS) {
        var k := RepElim(EPS, 0, None, w);
        PowEps(k);
      }
    }
    StarHas(ALL);
  }

  lemma {:induction false} StarUnionStar(a: Lang, c: Lang)
    ensures Star(Star(a) + c) == Star(a + c)
  {
    StarHas(a);
    StarHas(a + c);
    StarMono(a, a + c);
    StarHas(Star(a) + c);
    StarEqual(Star(a) + c, a + c);
  }

  lemma {:induction false} StarUnionEps(c: Lang)
    ensures Star(EPS + c) == Star(c)
  {
    StarHas(c);
    StarHas(EPS + c);
    StarEqual(EPS + c, c);
  }

  lemma {:induction false} StarCatStars(a: Lang, b: Lang)
    ensures Star(Cat(Star(a), Star(b))) == Star(a + b)
  {
    var ab := Cat(Star(a), Star(b));
    assert ab <= Star(a + b) by {
      StarMono(a, a + b);
      StarMono(b, a + b);
      StarClosed(Star(a), Star(b), a + b);
    }
    assert a + b <= Star(ab) by {
      StarHas(a);
      StarHas(b);
      UnionInCat(a, b, Star(a), Star(b));
      StarHas(ab);
      Transitive(a + b, ab, Star(ab));
    }
    StarEqual(ab, a + b);
  }

  lemma {:induction false} Transitive(a: Lang, b: Lang, c: Lang)
    requires a <= b && b <= c
    ensures a <= c
  {
  }

  lemma {:induction false} UnionInCat(a: Lang, b: Lang, x: Lang, y: Lang)
    requires a <= x && b <= y && [] in x && [] in y
    ensures a + b <= Cat(x, y)
  {
    forall w | w in a + b ensures w in Cat(x, y) {
      if w in a {
        CatIntro(x, y, w, []);
        assert w + [] == w;
      } else {
        CatIntro(x, y, [], w);
        assert [] + w == w;
      }
    }
  }

  lemma {:induction false} StarClosed(x: Lang, y: Lang, a: Lang)
    requires x <= Star(a) && y <= Star(a)
    ensures Cat(x, y) <= Star(a)
  {
    CatMono(x, y, Star(a), Star(a));
    RepCat(a, 0, None, 0, None);
  }

  lemma {:induction false} PlusIsCat(a: Lang)
    ensures Cat(a, Star(a)) == Plus(a) == Cat(Star(a), a)
  {
    RepOne(a);
    RepCat(a, 1, Some(1), 0, None);
    RepCat(a, 0, None, 1, Some(1));
  }

  lemma {:induction false} PlusTrivial()
    ensures Plus(NOTHING) == NOTHING && Plus(EPS) == EPS && Plus(ALL) == ALL
  {
    StarTrivial();
    PlusIsCat(NOTHING);
    CatNothing(Star(NOTHING));
    PlusIsCat(EPS);
    CatEps(EPS);
    StarHas(ALL);
  }

  lemma {:induction false} PlusPlus(a: Lang)
    ensures Plus(Plus(a)) == Plus(a)
  {
    PlusIsCat(Plus(a));
    StarPlus(a);
    RepCat(a, 1, None, 0, None);
  }

  lemma {:induction false} PlusStar(a: Lang)
    ensures Plus(Star(a)) == Star(a)
  {
    PlusIsCat(Star(a));
    StarStar(a);
    RepCat(a, 0, None, 0, None);
  }

  // ----- repetitions of repetitions -----

  lemma {:induction false} PowOfRep(a: Lang, l: nat, k: nat)
    requires k >= 1
    ensures Pow(Rep(a, l, None), k) == Rep(a, l * k, None)
  {
    var r := Rep(a, l, None);
    if k == 1 {
      PowOne(r);
    } else {
      PowOfRep(a, l, k - 1);
      RepCat(a, l, None, l * (k - 1), None);
      assert l + l * (k - 1) == l * k;
    }
  }

  lemma {:induction false} RepOfRep(a: Lang, l: nat, lo: nat)
    requires lo >= 1
    ensures Rep(Rep(a, l, None), lo, None) == Rep(a, lo * l, None)
  {
    var r := Rep(a, l, None);
    forall w | w in Rep(r, lo, None) ensures w in Rep(a, lo * l, None) {
      var k := RepElim(r, lo, None, w);
      PowOfRep(a, l, k);
      assert l * lo <= l * k && l * lo == lo * l;
      RepMono(a, l * k, None, a, lo * l, None);
    }
    forall w | w in Rep(a, lo * l, None) ensures w in Rep(r, lo, None) {
      PowOfRep(a, l, lo);
      assert l * lo == lo * l;
      RepIntro(r, lo, None, lo, w);
    }
  }

  lemma {:induction false} RepOfPow(a: Lang, l: nat, lo: nat)
    ensures Rep(Rep(a, l, Some(l)), lo, Some(lo)) == Rep(a, lo * l, Some(lo * l))
  {
    RepSingle(a, l);
    RepSingle(Pow(a, l), lo);
    PowMul(a, l, lo);
    assert l * lo == lo * l;
    RepSingle(a, lo * l);
  }

  // ----- the whole alphabet -----

  ghost const DOT: Lang := OneOf(0, MAX_CHAR)

  lemma {:induction false} DotPow(w: Word)
    ensures w in Pow(DOT, |w|)
    decreases |w|
  {
    if w != [] {
      DotPow(w[1..]);
      assert w[..1] in DOT;
      CatIntro(DOT, Pow(DOT, |w| - 1), w[..1], w[1..]);
      assert w == w[..1] + w[1..];
    }
  }

  lemma {:induction false} StarDot()
    ensures Star(DOT) == ALL
  {
    forall w: Word ensures w in Star(DOT) {
      DotPow(w);
      RepIntro(DOT, 0, None, |w|, w);
    }
  }

  lemma {:induction false} PlusDot()
    ensures Plus(DOT) == ALL - EPS
    ensures Cat(DOT, ALL) == Plus(DOT) == Cat(ALL, DOT)
  {
    PlusIsCat(DOT);
    StarDot();
    forall w: Word ensures w in Plus(DOT) <==> w in ALL - EPS {
      if w in Plus(DOT) {
        var i: nat :| Split(DOT, ALL, w, i);
        assert |w[..i]| == 1;
      }
      if w != [] {
        DotPow(w);
        RepIntro(DOT, 1, None, |w|, w);
      }
    }
  }

  // ----- ideals -----

  lemma {:induction false} CatAll(a: Lang)
    requires [] in a
    ensures Cat(ALL, a) == ALL && Cat(a, ALL) == ALL
  {
    CatEps(ALL);
    CatMono(ALL, EPS, ALL, a);
    CatMono(EPS, ALL, a, ALL);
  }

  lemma {:induction false} CatAllAll()
    ensures Cat(ALL, ALL) == ALL
  {
    CatAll(ALL);
  }

  lemma {:induction false} InCatAll(a: Lang)
    ensures a <= Cat(ALL, a) && a <= Cat(a, ALL)
  {
    forall w | w in a ensures w in Cat(ALL, a) && w in Cat(a, ALL) {
      CatIntro(ALL, a, [], w);
      CatIntro(a, ALL, w, []);
      assert [] + w == w && w + [] == w;
    }
  }

  lemma {:induction false} AllCatAll(a: Lang)
    ensures Cat(ALL, Cat(ALL, a)) == Cat(ALL, a)
  {
    CatAssoc(ALL, ALL, a);
    CatAllAll();
  }

  lemma {:induction false} StarLeftIdeal(c: Lang)
    ensures Star(Cat(ALL, c)) == EPS + Cat(ALL, c)
  {
    var a := Cat(ALL, c);
    StarHas(a);
    forall w | w in Star(a) ensures w in EPS + a {
      var k := RepElim(a, 0, None, w);
      if k > 0 {
        PowLeftIdeal(c, k);
      }
    }
  }

  lemma {:induction false} PowLeftIdeal(c: Lang, k: nat)
    requires k >= 1
    ensures Pow(Cat(ALL, c), k) <= Cat(ALL, c)
  {
    var a := Cat(ALL, c);
    if k == 1 {
      PowOne(a);
    } else {
      PowLeftIdeal(c, k - 1);
      CatMono(a, Pow(a, k - 1), ALL, a);
      CatAssoc(ALL, ALL, c);
      CatAllAll();
    }
  }

  lemma {:induction false} CatWords(u: Word, v: Word)
    ensures Cat(iset{u}, iset{v}) == iset{u + v}
  {
    CatIntro(iset{u}, iset{v}, u, v);
    forall w | w in Cat(iset{u}, iset{v}) ensures w == u + v {
      var i: nat :| Split(iset{u}, iset{v}, w, i);
      assert w == w[..i] + w[i..];
    }
  }

  // ----- the empty word -----

  lemma {:induction false} EmptyInCat(a: Lang, b: Lang)
    ensures [] in Cat(a, b) <==> [] in a && [] in b
  {
    if [] in a && [] in b {
      CatIntro(a, b, [], []);
      var e: Word := [];
      assert e + e == e;
    }
    if [] in Cat(a, b) {
      var e: Word := [];
      var i: nat :| Split(a, b, e, i);
      assert e[..i] == [] && e[i..] == [];
    }
  }

  lemma {:induction false} EmptyInPow(a: Lang, k: nat)
    ensures [] in Pow(a, k) <==> k == 0 || [] in a
  {
    if k > 0 {
      EmptyInPow(a, k - 1);
      EmptyInCat(a, Pow(a, k - 1));
    }
  }

  lemma {:induction false} EmptyInRep(a: Lang, lo: nat, hi: Option<nat>)
    ensures [] in Rep(a, lo, hi) <==> RangeOk(lo, hi) && (lo == 0 || [] in a)
  {
    if RangeOk(lo, hi) && (lo == 0 || [] in a) {
      EmptyInPow(a, lo);
      RepIntro(a, lo, hi, lo, []);
    }
    if [] in Rep(a, lo, hi) {
      var k := RepElim(a, lo, hi, []);
      EmptyInPow(a, k);
    }
  }

  // ----- left quotients -----

  /** What is left of the words that start with `c`. */
  ghost function Quot(a: Lang, c: Char): Lang {
    iset w: Word | [c] + w in a
  }

  lemma {:induction false} QuotCat(a: Lang, b: Lang, c: Char)
    ensures Quot(Cat(a, b), c) == Cat(Quot(a, c), b) + (if [] in a then Quot(b, c) else NOTHING)
  {
    forall w | w in Quot(Cat(a, b), c) ensures w in Cat(Quot(a, c), b) + (if [] in a then Quot(b, c) else NOTHING) {
      var i: nat :| Split(a, b, [c] + w, i);
      if i == 0 {
        assert ([c] + w)[..0] == [] && ([c] + w)[0..] == [c] + w;
      } else {
        assert ([c] + w)[..i] == [c] + w[..i - 1] && ([c] + w)[i..] == w[i - 1..];
        assert Split(Quot(a, c), b, w, i - 1);
      }
    }
    forall w | w in Cat(Quot(a, c), b) ensures w in Quot(Cat(a, b), c) {
      var i: nat :| Split(Quot(a, c), b, w, i);
      CatIntro(a, b, [c] + w[..i], w[i..]);
      assert [c] + w[..i] + w[i..] == [c] + w;
    }
    if [] in a {
      forall w | w in Quot(b, c) ensures w in Quot(Cat(a, b), c) {
        CatIntro(a, b, [], [c] + w);
        assert [] + ([c] + w) == [c] + w;
      }
    }
  }

  lemma {:induction false} QuotPow(a: Lang, k: nat, c: Char)
    requires k >= 1
    ensures Quot(Pow(a, k), c) == Cat(Quot(a, c), Pow(a, k - 1))
  {
    var p, q := Pow(a, k - 1), Quot(a, c);
    QuotCat(a, p, c);
    if k == 1 {
      QuotEps(c);
    } else if [] in a {
      QuotPow(a, k - 1, c);
      PowGrows(a, k - 2);
      CatMono(q, Pow(a, k - 2), q, p);
    }
  }

  lemma {:induction false} QuotEps(c: Char)
    ensures Quot(EPS, c) == NOTHING
  {
  }

  lemma {:induction false} PowGrows(a: Lang, k: nat)
    requires [] in a
    ensures Pow(a, k) <= Pow(a, k + 1)
  {
    var p := Pow(a, k);
    CatEps(p);
    CatMono(EPS, p, a, p);
  }

  lemma {:induction false} QuotRep(a: Lang, lo: nat, hi: Option<nat>, c: Char)
    requires hi != Some(0)
    ensures var lo', hi' := if lo == 0 then 0 else lo - 1, if hi.Some? then Some(hi.value - 1) else None;
      Quot(Rep(a, lo, hi), c) == Cat(Quot(a, c), Rep(a, lo', hi'))
  {
    var lo', hi' := if lo == 0 then 0 else lo - 1, if hi.Some? then Some(hi.value - 1) else None;
    forall w | w in Quot(Rep(a, lo, hi), c) ensures w in Cat(Quot(a, c), Rep(a, lo', hi')) {
      var k := RepElim(a, lo, hi, [c] + w);
      assert |[c] + w| > 0;
      QuotPow(a, k, c);
      assert w in Quot(Pow(a, k), c);
      var i: nat :| Split(Quot(a, c), Pow(a, k - 1), w, i);
      RepIntro(a, lo', hi', k - 1, w[i..]);
      assert Split(Quot(a, c), Rep(a, lo', hi'), w, i);
    }
    forall w | w in Cat(Quot(a, c), Rep(a, lo', hi')) ensures w in Quot(Rep(a, lo, hi), c) {
      var i: nat :| Split(Quot(a, c), Rep(a, lo', hi'), w, i);
      var k := RepElim(a, lo', hi', w[i..]);
      assert Split(Quot(a, c), Pow(a, k), w, i);
      QuotPow(a, k + 1, c);
      assert w in Quot(Pow(a, k + 1), c);
      RepIntro(a, lo, hi, k + 1, [c] + w);
    }
  }

  // ----- repetitions within a bounded length -----

  /** More pieces than characters: one of them is empty and can be dropped. */
  lemma {:induction false} PowShrink(a: Lang, k: nat, w: Word)
    requires k > |w| && w in Pow(a, k)
    ensures w in Pow(a, k - 1)
    decreases k
  {
    var i: nat :| Split(a, Pow(a, k - 1), w, i);
    if i == 0 {
      assert w[0..] == w;
    } else {
      PowShrink(a, k - 1, w[i..]);
      assert Split(a, Pow(a, k - 2), w, i);
    }
  }

  /** Cutting an unbounded repetition off after `lo + |w| + 1` loses nothing. */
  lemma {:induction false} RepCutOff(a: Lang, lo: nat, w: Word, k: nat)
    requires k >= lo && w in Pow(a, k)
    ensures exists m :: lo <= m <= lo + |w| && w in Pow(a, m)
    decreases k
  {
    if k > lo + |w| {
      PowShrink(a, k, w);
      RepCutOff(a, lo, w, k - 1);
    }
  }
}
