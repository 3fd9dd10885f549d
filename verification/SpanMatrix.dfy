/** Which stretches of a word lie in a language, as a square matrix. */
module SpanMatrix {
  import opened Options
  import L = Languages

  type Word = L.Word
  type Matrix = seq<seq<bool>>

  predicate Shape(m: Matrix, n: nat) {
    |m| == n + 1 && forall i :: 0 <= i < |m| ==> |m[i]| == n + 1
  }

  ghost predicate SpanAt(m: Matrix, s: Word, a: L.Lang, i: nat, j: nat)
    requires Shape(m, |s|)
  {
    i <= j <= |s| ==> (m[i][j] <==> s[i..j] in a)
  }

  /** `m[i][j]` says whether the stretch from `i` to `j` is in `a`. */
  ghost predicate Spans(m: Matrix, s: Word, a: L.Lang) {
    Shape(m, |s|) && forall i: nat, j: nat :: SpanAt(m, s, a, i, j)
  }

  /** The matrix with `f(i, j)` on and above the diagonal, and nothing below. */
  method Fill(n: nat, f: (nat, nat) -> bool) returns (m: Matrix)
    ensures Shape(m, n)
    ensures forall i, j :: 0 <= i <= n && 0 <= j <= n ==> m[i][j] == (i <= j && f(i, j))
  {
    m := [];
    for i := 0 to n + 1
      invariant |m| == i
      invariant forall r, c :: 0 <= r < i && 0 <= c <= n ==> |m[r]| == n + 1 && m[r][c] == (r <= c && f(r, c))
      invariant forall r :: 0 <= r < i ==> |m[r]| == n + 1
    {
      var row: seq<bool> := [];
      for j := 0 to n + 1
        invariant |row| == j
        invariant forall c :: 0 <= c < j ==> row[c] == (i <= c && f(i, c))
      {
        row := row + [i <= j && f(i, j)];
      }
      m := m + [row];
    }
  }

  // ----- composition -----

  /** `a` leads from `i` to some `k` before `bound`, and `b` from there to `j`. */
  ghost predicate Through(a: Matrix, b: Matrix, n: nat, i: nat, bound: nat, j: nat)
    requires Shape(a, n) && Shape(b, n) && i <= n && j <= n && bound <= n + 1
  {
    exists k :: i <= k < bound && k <= j && a[i][k] && b[k][j]
  }

  /** One row of the composition. */
  method ComposeRow(a: Matrix, b: Matrix, n: nat, i: nat) returns (row: seq<bool>)
    requires Shape(a, n) && Shape(b, n) && i <= n
    ensures |row| == n + 1 && forall j :: 0 <= j <= n ==> (row[j] <==> Through(a, b, n, i, n + 1, j))
  {
    row := seq(n + 1, _ => false);
    for k := i to n + 1
      invariant |row| == n + 1 && forall j :: 0 <= j <= n ==> (row[j] <==> Through(a, b, n, i, k, j))
    {
      ghost var before := row;
      if a[i][k] {
        for j := k to n + 1
          invariant |row| == n + 1
          invariant forall c :: 0 <= c <= n ==> (row[c] <==> before[c] || (k <= c < j && b[k][c]))
        {
          if b[k][j] {
            row := row[j := true];
          }
        }
      }
      forall j | 0 <= j <= n ensures row[j] <==> Through(a, b, n, i, k + 1, j) {
        assert Through(a, b, n, i, k + 1, j) <==> Through(a, b, n, i, k, j) || (k <= j && a[i][k] && b[k][j]);
      }
    }
  }

  method Compose(a: Matrix, b: Matrix, n: nat) returns (m: Matrix)
    requires Shape(a, n) && Shape(b, n)
    ensures Shape(m, n)
    ensures forall i, j :: 0 <= i <= n && 0 <= j <= n ==> (m[i][j] <==> Through(a, b, n, i, n + 1, j))
  {
    m := [];
    for i := 0 to n + 1
      invariant |m| == i && forall r :: 0 <= r < i ==> |m[r]| == n + 1
      invariant forall r, j :: 0 <= r < i && 0 <= j <= n ==> (m[r][j] <==> Through(a, b, n, r, n + 1, j))
    {
      var row := ComposeRow(a, b, n, i);
      m := m + [row];
    }
  }

  /** The composition spans the concatenation. */
  lemma {:induction false} ComposeSpans(a: Matrix, b: Matrix, m: Matrix, s: Word, x: L.Lang, y: L.Lang)
    requires Spans(a, s, x) && Spans(b, s, y) && Shape(m, |s|)
    requires forall i, j :: 0 <= i <= |s| && 0 <= j <= |s| ==> (m[i][j] <==> Through(a, b, |s|, i, |s| + 1, j))
    ensures Spans(m, s, L.Cat(x, y))
  {
    forall i: nat, j: nat ensures SpanAt(m, s, L.Cat(x, y), i, j) {
      if i <= j <= |s| {
        ComposeSpanAt(a, b, s, x, y, i, j);
      }
    }
  }

  lemma {:induction false} ComposeSpanAt(a: Matrix, b: Matrix, s: Word, x: L.Lang, y: L.Lang, i: nat, j: nat)
    requires Spans(a, s, x) && Spans(b, s, y) && i <= j <= |s|
    ensures Through(a, b, |s|, i, |s| + 1, j) <==> s[i..j] in L.Cat(x, y)
  {
    var w := s[i..j];
    if Through(a, b, |s|, i, |s| + 1, j) {
      var k: nat :| i <= k < |s| + 1 && k <= j && a[i][k] && b[k][j];
      assert SpanAt(a, s, x, i, k) && SpanAt(b, s, y, k, j);
      L.CatIntro(x, y, s[i..k], s[k..j]);
      assert w == s[i..k] + s[k..j];
    }
    if w in L.Cat(x, y) {
      var d: nat :| L.Split(x, y, w, d);
      var k := i + d;
      assert w[..d] == s[i..k] && w[d..] == s[k..j];
      assert SpanAt(a, s, x, i, k) && SpanAt(b, s, y, k, j);
    }
  }

  // ----- repetition -----

  method Join(a: Matrix, b: Matrix, n: nat) returns (m: Matrix)
    requires Shape(a, n) && Shape(b, n)
    ensures Shape(m, n)
    ensures forall i, j :: 0 <= i <= j <= n ==> m[i][j] == (a[i][j] || b[i][j])
  {
    m := Fill(n, (i: nat, j: nat) => i < |a| && i < |b| && j < |a[i]| && j < |b[i]| && (a[i][j] || b[i][j]));
  }

  lemma {:induction false} JoinSpans(a: Matrix, b: Matrix, m: Matrix, s: Word, x: L.Lang, y: L.Lang)
    requires Spans(a, s, x) && Spans(b, s, y) && Shape(m, |s|)
    requires forall i, j :: 0 <= i <= j <= |s| ==> m[i][j] == (a[i][j] || b[i][j])
    ensures Spans(m, s, x + y)
  {
    forall i: nat, j: nat ensures SpanAt(m, s, x + y, i, j) {
      assert SpanAt(a, s, x, i, j) && SpanAt(b, s, y, i, j);
    }
  }

  /** From `lo` to fewer than `bound` repetitions. */
  ghost function Upto(a: L.Lang, lo: nat, bound: nat): L.Lang {
    iset w | InUpto(a, lo, bound, w)
  }

  ghost predicate InUpto(a: L.Lang, lo: nat, bound: nat, w: Word) {
    exists k: nat :: lo <= k < bound && w in L.Pow(a, k)
  }

  lemma {:induction false} UptoNext(a: L.Lang, lo: nat, bound: nat)
    ensures Upto(a, lo, bound + 1) == if lo <= bound then Upto(a, lo, bound) + L.Pow(a, bound) else Upto(a, lo, bound)
  {
    forall w: Word
      ensures w in Upto(a, lo, bound + 1) <==> w in Upto(a, lo, bound) || (lo <= bound && w in L.Pow(a, bound))
    {
      if InUpto(a, lo, bound, w) {
        var k: nat :| lo <= k < bound && w in L.Pow(a, k);
        assert lo <= k < bound + 1 && w in L.Pow(a, k);
      }
      if InUpto(a, lo, bound + 1, w) {
        var k: nat :| lo <= k < bound + 1 && w in L.Pow(a, k);
        assert k < bound ==> InUpto(a, lo, bound, w);
      }
    }
  }

  lemma {:induction false} PowNext(a: L.Lang, k: nat)
    ensures L.Cat(L.Pow(a, k), a) == L.Pow(a, k + 1)
  {
    L.PowAdd(a, k, 1);
    L.PowOne(a);
  }

  lemma {:induction false} IdentitySpans(m: Matrix, s: Word)
    requires Shape(m, |s|) && forall i, j :: 0 <= i <= |s| && 0 <= j <= |s| ==> m[i][j] == (i == j)
    ensures Spans(m, s, L.EPS)
  {
    forall i: nat, j: nat ensures SpanAt(m, s, L.EPS, i, j) {
      assert i <= j <= |s| ==> |s[i..j]| == j - i;
    }
  }

  lemma {:induction false} NothingSpans(m: Matrix, s: Word)
    requires Shape(m, |s|) && forall i, j :: 0 <= i <= |s| && 0 <= j <= |s| ==> !m[i][j]
    ensures Spans(m, s, L.NOTHING)
  {
    forall i: nat, j: nat ensures SpanAt(m, s, L.NOTHING, i, j) {
    }
  }

  /** The union of the powers from `lo` to `cap` of the matrix, one composition at a time. */
  method Powers(a: Matrix, s: Word, lo: nat, cap: nat) returns (m: Matrix)
    requires Shape(a, |s|)
    ensures Shape(m, |s|)
    ensures forall x :: Spans(a, s, x) ==> Spans(m, s, Upto(x, lo, cap + 1))
  {
    var n := |s|;
    m := Fill(n, (i: nat, j: nat) => false);
    var power := Fill(n, (i: nat, j: nat) => i == j);
    forall x | Spans(a, s, x) ensures Spans(m, s, Upto(x, lo, 0)) && Spans(power, s, L.Pow(x, 0)) {
      NothingSpans(m, s);
      IdentitySpans(power, s);
      assert Upto(x, lo, 0) == L.NOTHING;
    }
    for k := 0 to cap + 1
      invariant Shape(m, n) && Shape(power, n)
      invariant forall x :: Spans(a, s, x) ==> Spans(m, s, Upto(x, lo, k))
      invariant k <= cap ==> forall x :: Spans(a, s, x) ==> Spans(power, s, L.Pow(x, k))
    {
      ghost var m0, power0 := m, power;
      if k >= lo {
        m := Join(m, power, n);
      }
      if k < cap {
        power := Compose(power, a, n);
      }
      forall x | Spans(a, s, x)
        ensures Spans(m, s, Upto(x, lo, k + 1)) && (k < cap ==> Spans(power, s, L.Pow(x, k + 1)))
      {
        UptoNext(x, lo, k);
        PowNext(x, k);
        assert Spans(m0, s, Upto(x, lo, k)) && Spans(power0, s, L.Pow(x, k));
        if k >= lo {
          JoinSpans(m0, power0, m, s, Upto(x, lo, k), L.Pow(x, k));
        }
        if k < cap {
          ComposeSpans(power0, a, power, s, L.Pow(x, k), x);
        }
      }
    }
  }

  /** Within a word, an unbounded repetition may be cut off after `lo + |s| + 1` pieces. */
  lemma {:induction false} CutOffSpans(m: Matrix, s: Word, a: L.Lang, lo: nat, hi: Option<nat>)
    requires hi.Some? ==> lo <= hi.value
    requires Spans(m, s, Upto(a, lo, (if hi.Some? then hi.value else lo + |s| + 1) + 1))
    ensures Spans(m, s, L.Rep(a, lo, hi))
  {
    var bound := (if hi.Some? then hi.value else lo + |s| + 1) + 1;
    forall i: nat, j: nat ensures SpanAt(m, s, L.Rep(a, lo, hi), i, j) {
      assert SpanAt(m, s, Upto(a, lo, bound), i, j);
      if i <= j <= |s| {
        CutOff(a, lo, hi, s[i..j], bound);
      }
    }
  }

  lemma {:induction false} CutOff(a: L.Lang, lo: nat, hi: Option<nat>, w: Word, bound: nat)
    requires if hi.Some? then bound == hi.value + 1 else bound > lo + |w|
    ensures w in Upto(a, lo, bound) <==> w in L.Rep(a, lo, hi)
  {
    if w in Upto(a, lo, bound) {
      var k: nat :| lo <= k < bound && w in L.Pow(a, k);
      L.RepIntro(a, lo, hi, k, w);
    }
    if w in L.Rep(a, lo, hi) {
      var k := L.RepElim(a, lo, hi, w);
      if hi.None? {
        L.RepCutOff(a, lo, w, k);
        var m: nat :| lo <= m <= lo + |w| && w in L.Pow(a, m);
        assert lo <= m < bound;
      } else {
        assert lo <= k < bound;
      }
    }
  }
}
