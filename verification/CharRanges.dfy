/** Character classes as sorted, disjoint, non-adjacent ranges, and the classes that regexes denote. */
module CharRanges {
  import opened Options
  import opened RegexTerms
  import L = Languages

  type Ranges = seq<(nat, nat)>

  ghost predicate In(p: Ranges, c: nat) {
    exists i :: 0 <= i < |p| && p[i].0 <= c <= p[i].1
  }

  /** Sorted, with a gap between any two ranges, and within the alphabet. */
  ghost predicate Canonical(p: Ranges) {
    && (forall i :: 0 <= i < |p| ==> p[i].0 <= p[i].1 <= L.MAX_CHAR)
    && (forall i, j :: 0 <= i < j < |p| ==> p[i].1 + 1 < p[j].0)
  }

  /** The one-character words of the class. */
  ghost function Class(p: Ranges): L.Lang {
    iset w: L.Word | |w| == 1 && In(p, w[0])
  }

  // ----- union -----

  ghost predicate Sorted(p: Ranges) {
    forall i, j :: 0 <= i < j < |p| ==> p[i].0 <= p[j].0
  }

  /** Insert a range before the first one that starts after it. */
  method Insert(p: Ranges, r: (nat, nat)) returns (out: Ranges)
    requires Sorted(p)
    ensures Sorted(out) && |out| == |p| + 1 && forall x :: x in out <==> x in p || x == r
  {
    var i := 0;
    while i < |p| && p[i].0 <= r.0
      invariant 0 <= i <= |p| && forall k :: 0 <= k < i ==> p[k].0 <= r.0
    {
      i := i + 1;
    }
    out := p[..i] + [r] + p[i..];
    forall x ensures x in out <==> x in p || x == r {
      assert p == p[..i] + p[i..];
    }
  }

  method Sort(p: Ranges) returns (out: Ranges)
    ensures Sorted(out) && forall x :: x in out <==> x in p
  {
    out := [];
    var i := 0;
    while i < |p|
      invariant 0 <= i <= |p| && Sorted(out) && forall x :: x in out <==> x in p[..i]
    {
      out := Insert(out, p[i]);
      assert p[..i + 1] == p[..i] + [p[i]];
      i := i + 1;
    }
    assert p[..i] == p;
  }

  /** Widen the last range, or start a new one. */
  method Extend(p: Ranges, lo: nat, hi: nat) returns (out: Ranges)
    requires Canonical(p) && lo <= hi <= L.MAX_CHAR && (p != [] ==> p[|p| - 1].0 <= lo)
    ensures Canonical(out) && out != [] && out[|out| - 1].0 <= lo
    ensures forall c: nat :: In(out, c) <==> In(p, c) || lo <= c <= hi
  {
    if p != [] && p[|p| - 1].1 + 1 >= lo {
      var n := |p| - 1;
      out := p[n := (p[n].0, if p[n].1 < hi then hi else p[n].1)];
      InExtended(p, lo, hi);
    } else {
      out := p + [(lo, hi)];
      InAppended(p, (lo, hi));
    }
  }

  method UnionOf(a: Ranges, b: Ranges) returns (out: Ranges)
    requires Canonical(a) && Canonical(b)
    ensures Canonical(out) && forall c: nat :: In(out, c) <==> In(a, c) || In(b, c)
  {
    var all := Sort(a + b);
    forall x | x in all ensures x.0 <= x.1 <= L.MAX_CHAR {
      assert x in a || x in b;
    }
    out := [];
    var k := 0;
    while k < |all|
      invariant 0 <= k <= |all| && Canonical(out)
      invariant out != [] && k < |all| ==> out[|out| - 1].0 <= all[k].0
      invariant forall c: nat :: In(out, c) <==> In(all[..k], c)
    {
      assert all[k] in all;
      out := Extend(out, all[k].0, all[k].1);
      InAppended(all[..k], all[k]);
      assert all[..k + 1] == all[..k] + [all[k]];
      k := k + 1;
    }
    assert all[..k] == all;
    InSameMembers(all, a, b);
  }

  lemma {:induction false} InAppended(p: Ranges, r: (nat, nat))
    ensures forall c: nat :: In(p + [r], c) <==> In(p, c) || r.0 <= c <= r.1
  {
    forall c: nat ensures In(p + [r], c) <==> In(p, c) || r.0 <= c <= r.1 {
      var q := p + [r];
      if In(p, c) {
        var i :| 0 <= i < |p| && p[i].0 <= c <= p[i].1;
        assert q[i] == p[i];
      }
      if r.0 <= c <= r.1 {
        assert q[|p|] == r;
      }
    }
  }

  lemma {:induction false} InExtended(p: Ranges, lo: nat, hi: nat)
    requires p != [] && p[|p| - 1].0 <= lo <= p[|p| - 1].1 + 1
    ensures var n := |p| - 1; var q := p[n := (p[n].0, if p[n].1 < hi then hi else p[n].1)];
      forall c: nat :: In(q, c) <==> In(p, c) || lo <= c <= hi
  {
    var n := |p| - 1;
    var q := p[n := (p[n].0, if p[n].1 < hi then hi else p[n].1)];
    forall c: nat ensures In(q, c) <==> In(p, c) || lo <= c <= hi {
      if In(p, c) {
        var i :| 0 <= i < |p| && p[i].0 <= c <= p[i].1;
        assert q[i].0 <= c <= q[i].1;
      }
      if lo <= c <= hi {
        assert q[n].0 <= c <= q[n].1;
      }
      if In(q, c) {
        var i :| 0 <= i < |q| && q[i].0 <= c <= q[i].1;
        assert i < n ==> p[i] == q[i];
        assert i == n ==> p[n].0 <= c <= p[n].1 || lo <= c <= hi;
      }
    }
  }

  lemma {:induction false} InSameMembers(all: Ranges, a: Ranges, b: Ranges)
    requires forall x :: x in all <==> x in a + b
    ensures forall c: nat :: In(all, c) <==> In(a, c) || In(b, c)
  {
    forall c: nat ensures In(all, c) <==> In(a, c) || In(b, c) {
      if In(all, c) {
        var i :| 0 <= i < |all| && all[i].0 <= c <= all[i].1;
        assert all[i] in all && all[i] in a + b;
      }
      if In(a, c) {
        var i :| 0 <= i < |a| && a[i].0 <= c <= a[i].1;
        assert a[i] in all;
      }
      if In(b, c) {
        var i :| 0 <= i < |b| && b[i].0 <= c <= b[i].1;
        assert b[i] in all;
      }
    }
  }

  // ----- intersection -----

  function Later(a: nat, b: nat): nat {
    if a > b then a else b
  }

  function Earlier(a: nat, b: nat): nat {
    if a < b then a else b
  }

  /** `out` ends well before the next place where `a` and `b` can meet. */
  ghost predicate Behind(a: Ranges, b: Ranges, i: nat, j: nat, out: Ranges)
    requires i <= |a| && j <= |b|
  {
    Canonical(out) && (out != [] && i < |a| && j < |b| ==> out[|out| - 1].1 + 1 < Later(a[i].0, b[j].0))
  }

  /** `out` holds what `a` and `b` share outside their parts from `i` and `j` on. */
  ghost predicate Shared(a: Ranges, b: Ranges, i: nat, j: nat, out: Ranges)
    requires i <= |a| && j <= |b|
  {
    forall c: nat :: In(out, c) || (In(a[i..], c) && In(b[j..], c)) <==> In(a, c) && In(b, c)
  }

  ghost predicate Step(a: Ranges, b: Ranges, i: nat, j: nat, out: Ranges, i': nat, j': nat, out': Ranges)
    requires i < |a| && j < |b|
  {
    && i' == (if a[i].1 <= b[j].1 then i + 1 else i)
    && j' == (if b[j].1 <= a[i].1 then j + 1 else j)
    && var lo, hi := Later(a[i].0, b[j].0), Earlier(a[i].1, b[j].1);
      out' == if lo <= hi then out + [(lo, hi)] else out
  }

  lemma {:induction false} BehindStep(a: Ranges, b: Ranges, i: nat, j: nat, out: Ranges, i': nat, j': nat, out': Ranges)
    requires Canonical(a) && Canonical(b) && i < |a| && j < |b| && Behind(a, b, i, j, out)
    requires Step(a, b, i, j, out, i', j', out')
    ensures Behind(a, b, i', j', out')
  {
    assert i + 1 < |a| ==> a[i].1 + 1 < a[i + 1].0;
    assert j + 1 < |b| ==> b[j].1 + 1 < b[j + 1].0;
    AppendCanonical(out, Later(a[i].0, b[j].0), Earlier(a[i].1, b[j].1));
  }

  lemma {:induction false} AppendCanonical(p: Ranges, lo: nat, hi: nat)
    requires Canonical(p) && hi <= L.MAX_CHAR && (p != [] ==> p[|p| - 1].1 + 1 < lo)
    ensures lo <= hi ==> Canonical(p + [(lo, hi)])
  {
  }

  lemma {:induction false} SharedStep(a: Ranges, b: Ranges, i: nat, j: nat, out: Ranges, i': nat, j': nat, out': Ranges)
    requires Canonical(a) && Canonical(b) && i < |a| && j < |b| && Shared(a, b, i, j, out)
    requires Step(a, b, i, j, out, i', j', out')
    ensures Shared(a, b, i', j', out')
  {
    InAppended(out, (Later(a[i].0, b[j].0), Earlier(a[i].1, b[j].1)));
    InterStep(a, b, i, j, i', j');
    forall c: nat ensures In(out', c) || (In(a[i'..], c) && In(b[j'..], c)) <==> In(a, c) && In(b, c) {
      assert In(out', c) <==> In(out, c) || (a[i].0 <= c <= a[i].1 && b[j].0 <= c <= b[j].1);
    }
  }

  method InterOf(a: Ranges, b: Ranges) returns (out: Ranges)
    requires Canonical(a) && Canonical(b)
    ensures Canonical(out) && forall c: nat :: In(out, c) <==> In(a, c) && In(b, c)
  {
    out := [];
    var i, j := 0, 0;
    assert a[0..] == a && b[0..] == b;
    while i < |a| && j < |b|
      invariant 0 <= i <= |a| && 0 <= j <= |b| && Behind(a, b, i, j, out) && Shared(a, b, i, j, out)
      decreases |a| - i + |b| - j
    {
      var lo, hi := Later(a[i].0, b[j].0), Earlier(a[i].1, b[j].1);
      ghost var before, i0, j0 := out, i, j;
      if lo <= hi {
        out := out + [(lo, hi)];
      }
      if a[i].1 < b[j].1 {
        i := i + 1;
      } else if b[j].1 < a[i].1 {
        j := j + 1;
      } else {
        i := i + 1;
        j := j + 1;
      }
      BehindStep(a, b, i0, j0, before, i, j, out);
      SharedStep(a, b, i0, j0, before, i, j, out);
    }
    assert i == |a| ==> a[i..] == [];
    assert j == |b| ==> b[j..] == [];
  }

  lemma {:induction false} InFirst(p: Ranges, i: nat)
    requires i < |p|
    ensures forall c: nat :: In(p[i..], c) <==> In(p[i + 1..], c) || p[i].0 <= c <= p[i].1
  {
    forall c: nat ensures In(p[i..], c) <==> In(p[i + 1..], c) || p[i].0 <= c <= p[i].1 {
      if In(p[i..], c) {
        var k :| 0 <= k < |p[i..]| && p[i..][k].0 <= c <= p[i..][k].1;
        assert k > 0 ==> p[i + 1..][k - 1] == p[i..][k];
      }
      if In(p[i + 1..], c) {
        var k :| 0 <= k < |p[i + 1..]| && p[i + 1..][k].0 <= c <= p[i + 1..][k].1;
        assert p[i..][k + 1] == p[i + 1..][k];
      }
      if p[i].0 <= c <= p[i].1 {
        assert p[i..][0] == p[i];
      }
    }
  }

  lemma {:induction false} LaterStart(p: Ranges, i: nat, c: nat)
    requires Canonical(p) && i < |p| && In(p[i + 1..], c)
    ensures c > p[i].1 + 1
  {
    var k :| 0 <= k < |p[i + 1..]| && p[i + 1..][k].0 <= c <= p[i + 1..][k].1;
    assert p[i + 1..][k] == p[i + 1 + k];
  }

  /** The range that ends first meets nothing later on the other side. */
  lemma {:induction false} InterStep(a: Ranges, b: Ranges, i: nat, j: nat, i': nat, j': nat)
    requires Canonical(a) && Canonical(b) && i < |a| && j < |b|
    requires i' == if a[i].1 <= b[j].1 then i + 1 else i
    requires j' == if b[j].1 <= a[i].1 then j + 1 else j
    ensures forall c: nat :: In(a[i..], c) && In(b[j..], c) <==>
      (In(a[i'..], c) && In(b[j'..], c)) || (a[i].0 <= c <= a[i].1 && b[j].0 <= c <= b[j].1)
  {
    InFirst(a, i);
    InFirst(b, j);
    forall c: nat
      ensures In(a[i..], c) && In(b[j..], c) <==>
        (In(a[i'..], c) && In(b[j'..], c)) || (a[i].0 <= c <= a[i].1 && b[j].0 <= c <= b[j].1)
    {
      if In(a[i + 1..], c) {
        LaterStart(a, i, c);
      }
      if In(b[j + 1..], c) {
        LaterStart(b, j, c);
      }
    }
  }

  // ----- complement and difference -----

  /** `out` is the complement of the first `k` ranges below `cursor`. */
  ghost predicate Gaps(a: Ranges, k: nat, out: Ranges, cursor: nat)
    requires k <= |a|
  {
    && Canonical(out) && cursor == (if k == 0 then 0 else a[k - 1].1 + 1)
    && (out != [] ==> out[|out| - 1].1 + 1 < cursor)
    && (forall c: nat :: In(out, c) <==> c < cursor && !In(a[..k], c))
    && (forall c: nat :: In(a[..k], c) ==> c < cursor)
  }

  lemma {:induction false} GapsStep(a: Ranges, k: nat, out: Ranges, cursor: nat, out': Ranges)
    requires Canonical(a) && k < |a| && Gaps(a, k, out, cursor)
    requires out' == if cursor < a[k].0 then out + [(cursor, a[k].0 - 1)] else out
    ensures Gaps(a, k + 1, out', a[k].1 + 1)
  {
    InAppended(a[..k], a[k]);
    assert a[..k + 1] == a[..k] + [a[k]];
    assert cursor <= a[k].0;
    if cursor < a[k].0 {
      InAppended(out, (cursor, a[k].0 - 1));
    }
  }

  lemma {:induction false} GapsEnd(a: Ranges, out: Ranges, cursor: nat, out': Ranges)
    requires Canonical(a) && Gaps(a, |a|, out, cursor)
    requires out' == if cursor <= L.MAX_CHAR then out + [(cursor, L.MAX_CHAR)] else out
    ensures Canonical(out') && forall c: nat :: In(out', c) <==> c <= L.MAX_CHAR && !In(a, c)
  {
    assert a[..|a|] == a;
    if cursor <= L.MAX_CHAR {
      InAppended(out, (cursor, L.MAX_CHAR));
    }
  }

  method ComplementOf(a: Ranges) returns (out: Ranges)
    requires Canonical(a)
    ensures Canonical(out) && forall c: nat :: In(out, c) <==> c <= L.MAX_CHAR && !In(a, c)
  {
    out := [];
    var cursor: nat := 0;
    var k := 0;
    while k < |a|
      invariant 0 <= k <= |a| && Gaps(a, k, out, cursor)
    {
      ghost var before := out;
      if cursor < a[k].0 {
        out := out + [(cursor, a[k].0 - 1)];
      }
      GapsStep(a, k, before, cursor, out);
      cursor := a[k].1 + 1;
      k := k + 1;
    }
    ghost var before := out;
    if cursor <= L.MAX_CHAR {
      out := out + [(cursor, L.MAX_CHAR)];
    }
    GapsEnd(a, before, cursor, out);
  }

  method DiffOf(a: Ranges, b: Ranges) returns (out: Ranges)
    requires Canonical(a) && Canonical(b)
    ensures Canonical(out) && forall c: nat :: In(out, c) <==> In(a, c) && !In(b, c)
  {
    var rest := ComplementOf(b);
    out := InterOf(a, rest);
    forall c: nat | In(a, c) ensures c <= L.MAX_CHAR {
      var i :| 0 <= i < |a| && a[i].0 <= c <= a[i].1;
    }
  }

  // ----- the class of a regex -----

  /** `p`, if there is one, is the class `r` denotes under every assignment. */
  ghost predicate ClassOf(r: Regex, p: Option<Ranges>) {
    p.Some? ==> Canonical(p.value) && forall env :: Denote(r, env) == Class(p.value)
  }

  lemma {:induction false} SingleRange(lo: nat, hi: nat)
    requires lo <= hi <= L.MAX_CHAR
    ensures Canonical([(lo, hi)]) && Class([(lo, hi)]) == L.OneOf(lo, hi)
  {
    assert forall c: nat :: In([(lo, hi)], c) <==> lo <= c <= hi by {
      forall c: nat | lo <= c <= hi ensures In([(lo, hi)], c) {
        assert [(lo, hi)][0].0 <= c <= [(lo, hi)][0].1;
      }
    }
  }

  /** The character class the regex denotes, where its shape shows one. */
  method RangePred(r: Regex) returns (p: Option<Ranges>)
    ensures ClassOf(r, p)
    decreases Size(r)
  {
    match r
    case ReNone =>
      p := Some([]);
    case AllChar =>
      SingleRange(0, L.MAX_CHAR);
      p := Some([(0, L.MAX_CHAR)]);
    case Range(_, _) =>
      var q := CharRange(r);
      if q.None? {
        return None;
      }
      var (lo, hi) := q.value;
      if lo > hi {
        p := Some([]);
      } else {
        SingleRange(lo, hi);
        p := Some([(lo, if hi < L.MAX_CHAR then hi else L.MAX_CHAR)]);
      }
    case Union(a, b) =>
      var pa := RangePred(a);
      var pb := RangePred(b);
      if pa.None? || pb.None? {
        return None;
      }
      var u := UnionOf(pa.value, pb.value);
      p := Some(u);
    case Diff(a, b) =>
      p := DiffPred(a, b);
    case Inter(a, b) =>
      if b.Comp? {
        assert Size(b) == 1 + Size(b.a);
        p := DiffPred(a, b.a);
      } else if a.Comp? {
        assert Size(a) == 1 + Size(a.a);
        p := DiffPred(b, a.a);
      } else {
        var pa := RangePred(a);
        var pb := RangePred(b);
        if pa.None? || pb.None? {
          return None;
        }
        var u := InterOf(pa.value, pb.value);
        p := Some(u);
      }
    case _ =>
      p := None;
  }

  lemma {:induction false} ClassDiff(a: Ranges, b: Ranges, u: Ranges)
    requires forall c: nat :: In(u, c) <==> In(a, c) && !In(b, c)
    ensures Class(a) - Class(b) == Class(u)
  {
  }

  method DiffPred(a: Regex, b: Regex) returns (p: Option<Ranges>)
    ensures p.Some? ==> Canonical(p.value) && forall env :: Denote(a, env) - Denote(b, env) == Class(p.value)
    decreases Size(a) + Size(b)
  {
    var pa := RangePred(a);
    var pb := RangePred(b);
    if pa.None? || pb.None? {
      return None;
    }
    var u := DiffOf(pa.value, pb.value);
    ClassDiff(pa.value, pb.value, u);
    p := Some(u);
  }
}
