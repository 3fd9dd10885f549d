/** The layout of an open-addressing table with linear probing: where each key of a run of insertions ends up. */
module SlotTables {
  import opened Options
  import Divisors

  type Slots<K> = seq<Option<K>>

  const INITIAL_CAPACITY: nat := 8

  // ----- probing -----

  /** The `k`-th slot probed from `h`. */
  function At(h: nat, k: nat, cap: nat): (i: nat)
    requires cap > 0
    ensures i < cap
  {
    (h + k) % cap
  }

  /** The probes of one round are all different, and reach every slot. */
  lemma {:induction false} AtInjective(h: nat, j: nat, k: nat, cap: nat)
    requires j < k < cap
    ensures At(h, j, cap) != At(h, k, cap)
  {
    AddLess(h + j, k - j, cap);
  }

  lemma {:induction false} AddLess(n: nat, d: nat, cap: nat)
    requires 0 < d < cap
    ensures (n + d) % cap != n % cap
  {
    var q, r := n / cap, n % cap;
    if r + d < cap {
      Divisors.ModUnique(n + d, cap, q, r + d);
    } else {
      assert n + d == cap * (q + 1) + (r + d - cap);
      Divisors.ModUnique(n + d, cap, q + 1, r + d - cap);
    }
  }

  lemma {:induction false} AtCovers(h: nat, i: nat, cap: nat) returns (k: nat)
    requires i < cap
    ensures k < cap && At(h, k, cap) == i
  {
    var r := h % cap;
    k := if i >= r then i - r else i + cap - r;
    AtShift(h, k, r, cap);
    AtSmall(r + k, i, cap);
  }

  lemma {:induction false} AtShift(h: nat, k: nat, r: nat, cap: nat)
    requires cap > 0 && r == h % cap && r + k < 2 * cap
    ensures (h + k) % cap == (r + k) % cap
  {
    var q := h / cap;
    if r + k < cap {
      Divisors.ModUnique(h + k, cap, q, r + k);
      Divisors.ModUnique(r + k, cap, 0, r + k);
    } else {
      assert h + k == cap * (q + 1) + (r + k - cap);
      Divisors.ModUnique(h + k, cap, q + 1, r + k - cap);
      Divisors.ModUnique(r + k, cap, 1, r + k - cap);
    }
  }

  lemma {:induction false} AtSmall(n: nat, i: nat, cap: nat)
    requires i < cap && (n == i || n == i + cap)
    ensures n % cap == i
  {
    Divisors.ModUnique(n, cap, if n == i then 0 else 1, i);
  }

  // ----- placing a key -----

  ghost predicate HasFree<K>(s: Slots<K>) {
    exists i :: 0 <= i < |s| && s[i].None?
  }

  /** A free slot lies ahead of the `k`-th probe from `h`. */
  ghost predicate FreeAhead<K>(s: Slots<K>, h: nat, k: nat)
    requires |s| > 0
  {
    exists j :: k <= j < |s| && s[At(h, j, |s|)].None?
  }

  lemma {:induction false} FreeSomewhere<K>(s: Slots<K>, h: nat)
    requires HasFree(s)
    ensures |s| > 0 && FreeAhead(s, h, 0)
  {
    var i :| 0 <= i < |s| && s[i].None?;
    var k := AtCovers(h, i, |s|);
  }

  /** The first free slot from the `k`-th probe on. */
  ghost function FirstFree<K>(s: Slots<K>, h: nat, k: nat): (i: nat)
    requires |s| > 0 && FreeAhead(s, h, k)
    ensures i < |s| && s[i].None?
    decreases |s| - k
  {
    if k < |s| && s[At(h, k, |s|)].None? then At(h, k, |s|) else FirstFree(s, h, k + 1)
  }

  ghost function Place<K>(s: Slots<K>, h: nat, key: K): (t: Slots<K>)
    requires HasFree(s)
    ensures |t| == |s|
  {
    FreeSomewhere(s, h);
    s[FirstFree(s, h, 0) := Some(key)]
  }

  /** Placing is where linear probing stops. */
  lemma {:induction false} ProbeStops<K>(s: Slots<K>, h: nat, k: nat, m: nat)
    requires |s| > 0 && k <= m < |s| && s[At(h, m, |s|)].None? && forall j :: k <= j < m ==> s[At(h, j, |s|)].Some?
    ensures FreeAhead(s, h, k) && FirstFree(s, h, k) == At(h, m, |s|)
    decreases m - k
  {
    if k < m {
      ProbeStops(s, h, k + 1, m);
    }
  }

  // ----- counting -----

  ghost function Used<K>(s: Slots<K>): nat {
    if s == [] then 0 else Used(s[..|s| - 1]) + (if s[|s| - 1].Some? then 1 else 0)
  }

  lemma {:induction false} UsedBound<K>(s: Slots<K>)
    ensures Used(s) <= |s| && (Used(s) < |s| ==> HasFree(s))
  {
    if s != [] {
      var n := |s| - 1;
      UsedBound(s[..n]);
      if Used(s[..n]) < n {
        var i :| 0 <= i < |s[..n]| && s[..n][i].None?;
        assert s[i].None?;
      } else if s[n].None? {
        assert s[n].None?;
      }
    }
  }

  lemma {:induction false} UsedSet<K>(s: Slots<K>, i: nat, key: K)
    requires i < |s| && s[i].None?
    ensures Used(s[i := Some(key)]) == Used(s) + 1
  {
    var n := |s| - 1;
    var t := s[i := Some(key)];
    if i < n {
      UsedSet(s[..n], i, key);
      assert t[..n] == s[..n][i := Some(key)];
    } else {
      assert t[..n] == s[..n];
    }
  }

  function Empty<K>(cap: nat): (s: Slots<K>)
    ensures |s| == cap
  {
    seq(cap, _ => None)
  }

  lemma {:induction false} UsedEmpty<K>(cap: nat)
    ensures Used(Empty<K>(cap)) == 0
  {
    if cap > 0 {
      UsedEmpty<K>(cap - 1);
      assert Empty<K>(cap)[..cap - 1] == Empty<K>(cap - 1);
    }
  }

  // ----- the keys in the order of the slots -----

  function One<K>(o: Option<K>): seq<K> {
    if o.Some? then [o.value] else []
  }

  function Order<K>(s: Slots<K>): seq<K> {
    if s == [] then [] else Order(s[..|s| - 1]) + One(s[|s| - 1])
  }

  lemma {:induction false} OrderSet<K>(s: Slots<K>, i: nat, key: K)
    requires i < |s| && s[i].None?
    ensures multiset(Order(s[i := Some(key)])) == multiset(Order(s)) + multiset{key}
  {
    var n := |s| - 1;
    var t := s[i := Some(key)];
    assert Order(t) == Order(t[..n]) + One(t[n]) && Order(s) == Order(s[..n]) + One(s[n]);
    if i < n {
      OrderSet(s[..n], i, key);
      assert t[..n] == s[..n][i := Some(key)];
    } else {
      assert t[..n] == s[..n] && One(t[n]) == [key] && One(s[n]) == [];
    }
  }

  lemma {:induction false} OrderEmpty<K>(cap: nat)
    ensures Order(Empty<K>(cap)) == []
  {
    if cap > 0 {
      OrderEmpty<K>(cap - 1);
      assert Empty<K>(cap)[..cap - 1] == Empty<K>(cap - 1);
    }
  }

  lemma {:induction false} OrderSize<K>(s: Slots<K>)
    ensures |Order(s)| == Used(s)
  {
    if s != [] {
      OrderSize(s[..|s| - 1]);
    }
  }

  // ----- a run of insertions -----

  /** Place the keys one after the other. */
  ghost function PlaceAll<K(!new)>(s: Slots<K>, keys: seq<K>, h: K -> nat): (t: Slots<K>)
    requires Used(s) + |keys| < |s|
    ensures |t| == |s| && Used(t) == Used(s) + |keys|
    decreases |keys|
  {
    if keys == [] then s
    else
      var n := |keys| - 1;
      var u := PlaceAll(s, keys[..n], h);
      UsedBound(u);
      FreeSomewhere(u, h(keys[n]));
      UsedSet(u, FirstFree(u, h(keys[n]), 0), keys[n]);
      Place(u, h(keys[n]), keys[n])
  }

  /** Is the table too full for one more key? */
  predicate Crowded(size: nat, cap: nat) {
    size * 4 > cap * 3
  }

  /** Double a crowded table, placing the keys anew in the order of the slots. */
  ghost function Grown<K(!new)>(s: Slots<K>, h: K -> nat): (t: Slots<K>)
    requires |s| >= INITIAL_CAPACITY
    ensures |t| >= INITIAL_CAPACITY && Used(t) == Used(s) && Used(t) + 1 < |t|
  {
    UsedBound(s);
    if Crowded(Used(s), |s|) then
      UsedEmpty<K>(2 * |s|);
      OrderSize(s);
      PlaceAll(Empty(2 * |s|), Order(s), h)
    else s
  }

  ghost function Insert<K(!new)>(s: Slots<K>, key: K, h: K -> nat): (t: Slots<K>)
    requires |s| >= INITIAL_CAPACITY
    ensures |t| >= INITIAL_CAPACITY && Used(t) == Used(s) + 1
  {
    PlaceAll(Grown(s, h), [key], h)
  }

  /** The table after inserting distinct keys into an empty one. */
  ghost function Layout<K(!new)>(keys: seq<K>, h: K -> nat): (s: Slots<K>)
    ensures |s| >= INITIAL_CAPACITY && Used(s) == |keys|
    decreases |keys|
  {
    if keys == [] then
      UsedEmpty<K>(INITIAL_CAPACITY);
      Empty(INITIAL_CAPACITY)
    else
      Insert(Layout(keys[..|keys| - 1], h), keys[|keys| - 1], h)
  }

  lemma {:induction false} PlaceAllKeeps<K(!new)>(s: Slots<K>, keys: seq<K>, h: K -> nat)
    requires Used(s) + |keys| < |s|
    ensures multiset(Order(PlaceAll(s, keys, h))) == multiset(Order(s)) + multiset(keys)
    decreases |keys|
  {
    if keys != [] {
      var n := |keys| - 1;
      PlaceAllKeeps(s, keys[..n], h);
      var u := PlaceAll(s, keys[..n], h);
      UsedBound(u);
      PlaceKeeps(u, h(keys[n]), keys[n]);
      assert keys == keys[..n] + [keys[n]];
    }
  }

  lemma {:induction false} PlaceKeeps<K>(s: Slots<K>, h: nat, key: K)
    requires HasFree(s)
    ensures multiset(Order(Place(s, h, key))) == multiset(Order(s)) + multiset{key}
  {
    FreeSomewhere(s, h);
    OrderSet(s, FirstFree(s, h, 0), key);
  }

  lemma {:induction false} GrownKeeps<K(!new)>(s: Slots<K>, h: K -> nat)
    requires |s| >= INITIAL_CAPACITY
    ensures multiset(Order(Grown(s, h))) == multiset(Order(s))
  {
    if Crowded(Used(s), |s|) {
      UsedBound(s);
      UsedEmpty<K>(2 * |s|);
      OrderSize(s);
      OrderEmpty<K>(2 * |s|);
      PlaceAllKeeps(Empty(2 * |s|), Order(s), h);
    }
  }

  /** The table lists exactly the keys inserted: a permutation of them. */
  lemma {:induction false} LayoutPermutes<K(!new)>(keys: seq<K>, h: K -> nat)
    ensures multiset(Order(Layout(keys, h))) == multiset(keys)
    decreases |keys|
  {
    if keys == [] {
      OrderEmpty<K>(INITIAL_CAPACITY);
    } else {
      var rest, key := keys[..|keys| - 1], keys[|keys| - 1];
      LayoutPermutes(rest, h);
      InsertKeeps(Layout(rest, h), key, h);
      Snoc(keys);
    }
  }

  lemma {:induction false} Snoc<K>(keys: seq<K>)
    requires keys != []
    ensures multiset(keys) == multiset(keys[..|keys| - 1]) + multiset{keys[|keys| - 1]}
  {
    assert keys == keys[..|keys| - 1] + [keys[|keys| - 1]];
  }

  lemma {:induction false} InsertKeeps<K(!new)>(s: Slots<K>, key: K, h: K -> nat)
    requires |s| >= INITIAL_CAPACITY
    ensures multiset(Order(Insert(s, key, h))) == multiset(Order(s)) + multiset{key}
  {
    GrownKeeps(s, h);
    PlaceAllKeeps(Grown(s, h), [key], h);
  }

  // ----- the loops -----

  lemma {:induction false} NextProbe(h: nat, k: nat, cap: nat)
    requires cap > 0
    ensures (At(h, k, cap) + 1) % cap == At(h, k + 1, cap) && At(h, 0, cap) == h % cap
  {
    var q, r := (h + k) / cap, (h + k) % cap;
    if r + 1 < cap {
      Divisors.ModUnique(h + k + 1, cap, q, r + 1);
      Divisors.ModUnique(r + 1, cap, 0, r + 1);
    } else {
      assert h + k + 1 == cap * (q + 1);
      Divisors.ModUnique(h + k + 1, cap, q + 1, 0);
      Divisors.ModUnique(cap, cap, 1, 0);
    }
  }

  /** Probe from the home slot to the first free one. */
  method PlaceAt<K>(s: Slots<K>, h: nat, key: K) returns (t: Slots<K>)
    requires HasFree(s)
    ensures t == Place(s, h, key)
  {
    FreeSomewhere(s, h);
    ghost var last :| 0 <= last < |s| && s[At(h, last, |s|)].None?;
    NextProbe(h, 0, |s|);
    var i := h % |s|;
    ghost var k := 0;
    while s[i].Some?
      invariant i == At(h, k, |s|) && 0 <= k <= last && forall j :: 0 <= j < k ==> s[At(h, j, |s|)].Some?
      decreases last - k
    {
      NextProbe(h, k, |s|);
      i := (i + 1) % |s|;
      k := k + 1;
    }
    ProbeStops(s, h, 0, k);
    t := s[i := Some(key)];
  }

  /** Place every key of a table into an empty one. */
  method Rehash<K(!new)>(s: Slots<K>, cap: nat, h: K -> nat) returns (t: Slots<K>)
    requires Used(s) < cap
    ensures Used(Empty<K>(cap)) + |Order(s)| < cap && t == PlaceAll(Empty(cap), Order(s), h)
  {
    UsedEmpty<K>(cap);
    OrderSize(s);
    t := Empty(cap);
    for i := 0 to |s|
      invariant |Order(s[..i])| < cap && t == PlaceAll(Empty(cap), Order(s[..i]), h)
    {
      OrderStep(s, i);
      UsedPrefix(s, i + 1);
      OrderSize(s[..i + 1]);
      if s[i].Some? {
        PlaceAllStep(Empty(cap), Order(s[..i]), s[i].value, h);
        t := PlaceAt(t, h(s[i].value), s[i].value);
      }
    }
    assert s[..|s|] == s;
  }

  lemma {:induction false} OrderStep<K>(s: Slots<K>, i: nat)
    requires i < |s|
    ensures Order(s[..i + 1]) == if s[i].Some? then Order(s[..i]) + [s[i].value] else Order(s[..i])
  {
    assert s[..i + 1][..i] == s[..i];
    assert Order(s[..i]) + [] == Order(s[..i]);
  }

  lemma {:induction false} PlaceAllStep<K(!new)>(s: Slots<K>, keys: seq<K>, key: K, h: K -> nat)
    requires Used(s) + |keys| + 1 < |s|
    ensures HasFree(PlaceAll(s, keys, h))
    ensures PlaceAll(s, keys + [key], h) == Place(PlaceAll(s, keys, h), h(key), key)
  {
    UsedBound(PlaceAll(s, keys, h));
    assert (keys + [key])[..|keys|] == keys;
  }

  lemma {:induction false} LayoutStep<K(!new)>(keys: seq<K>, n: nat, h: K -> nat)
    requires n < |keys|
    ensures HasFree(Grown(Layout(keys[..n], h), h))
    ensures Layout(keys[..n + 1], h) == Place(Grown(Layout(keys[..n], h), h), h(keys[n]), keys[n])
  {
    var s := Grown(Layout(keys[..n], h), h);
    assert keys[..n + 1][..n] == keys[..n];
    PlaceAllStep(s, [], keys[n], h);
    assert [] + [keys[n]] == [keys[n]];
  }

  lemma {:induction false} UsedPrefix<K>(s: Slots<K>, i: nat)
    requires i <= |s|
    ensures Used(s[..i]) <= Used(s)
    decreases |s|
  {
    if i == |s| {
      assert s[..i] == s;
    } else {
      UsedPrefix(s[..|s| - 1], i);
      assert s[..|s| - 1][..i] == s[..i];
    }
  }

  /** The keys slot by slot. */
  method Flatten<K>(s: Slots<K>) returns (keys: seq<K>)
    ensures keys == Order(s)
  {
    keys := [];
    for i := 0 to |s|
      invariant keys == Order(s[..i])
    {
      OrderStep(s, i);
      if s[i].Some? {
        keys := keys + [s[i].value];
      }
    }
    assert s[..|s|] == s;
  }

  /** Double the table if `size` keys crowd it. */
  method Grow<K(!new)>(s: Slots<K>, size: nat, h: K -> nat) returns (t: Slots<K>)
    requires |s| >= INITIAL_CAPACITY && size == Used(s)
    ensures t == Grown(s, h)
  {
    if !Crowded(size, |s|) {
      return s;
    }
    UsedBound(s);
    t := Rehash(s, 2 * |s|, h);
  }

  /** A table of `keys` with the given hashes. */
  method HashedTable<K(!new)>(keys: seq<K>, hashes: seq<nat>, h: K -> nat) returns (slots: Slots<K>)
    requires |keys| == |hashes| && forall i :: 0 <= i < |keys| ==> h(keys[i]) == hashes[i]
    ensures slots == Layout(keys, h)
  {
    slots := Empty(INITIAL_CAPACITY);
    assert keys[..0] == [];
    for k := 0 to |hashes|
      invariant slots == Layout(keys[..k], h)
    {
      slots := Grow(slots, k, h);
      LayoutStep(keys, k, h);
      slots := PlaceAt(slots, hashes[k], keys[k]);
    }
    assert keys[..|hashes|] == keys;
  }

  /** The order in which a table keyed by indices of `hashes` lists them, after one more lookup if asked. */
  method ObjMapSlotOrder(hashes: seq<nat>, relookup: bool) returns (order: seq<nat>)
    ensures !relookup ==> order == Order(Layout(Indices(|hashes|), HashAt(hashes)))
    ensures relookup ==> order == Order(Grown(Layout(Indices(|hashes|), HashAt(hashes)), HashAt(hashes)))
  {
    var h := HashAt(hashes);
    var slots := HashedTable(Indices(|hashes|), hashes, h);
    if relookup {
      slots := Grow(slots, |hashes|, h);
    }
    order := Flatten(slots);
  }

  function Indices(n: nat): (s: seq<nat>)
    ensures |s| == n && forall i :: 0 <= i < n ==> s[i] == i
  {
    seq(n, i => i)
  }

  function HashAt(hashes: seq<nat>): nat -> nat {
    (i: nat) => if i < |hashes| then hashes[i] else 0
  }

  /** The order in which a table keyed by numbers, each its own hash, lists distinct ones. */
  method UmapOrder(keys: seq<nat>) returns (order: seq<nat>)
    ensures order == Order(Layout(keys, Itself))
  {
    var slots: Slots<nat> := Empty(INITIAL_CAPACITY);
    assert keys[..0] == [];
    for size := 0 to |keys|
      invariant slots == Layout(keys[..size], Itself)
    {
      slots := Grow(slots, size, Itself);
      LayoutStep(keys, size, Itself);
      slots := PlaceAt(slots, keys[size], keys[size]);
    }
    assert keys[..|keys|] == keys;
    order := Flatten(slots);
  }

  function Itself(k: nat): nat {
    k
  }

  // ----- the layout depends on the hashes alone -----

  ghost function Renamed<A, B>(f: A -> B, s: Slots<A>): (t: Slots<B>)
    ensures |t| == |s|
  {
    seq(|s|, i requires 0 <= i < |s| => if s[i].Some? then Some(f(s[i].value)) else None)
  }

  ghost function Mapped<A, B>(f: A -> B, s: seq<A>): (t: seq<B>)
    ensures |t| == |s| && forall i :: 0 <= i < |s| ==> t[i] == f(s[i])
  {
    seq(|s|, i requires 0 <= i < |s| => f(s[i]))
  }

  lemma {:induction false} OrderRenamed<A, B>(f: A -> B, s: Slots<A>)
    ensures Order(Renamed(f, s)) == Mapped(f, Order(s)) && Used(Renamed(f, s)) == Used(s)
  {
    if s != [] {
      var n := |s| - 1;
      OrderRenamed(f, s[..n]);
      assert Renamed(f, s)[..n] == Renamed(f, s[..n]);
      assert Mapped(f, Order(s[..n]) + One(s[n])) == Mapped(f, Order(s[..n])) + One(Renamed(f, s)[n]);
    }
  }

  lemma {:induction false} FirstFreeRenamed<A, B>(f: A -> B, s: Slots<A>, h: nat, k: nat)
    requires |s| > 0 && FreeAhead(s, h, k)
    ensures FreeAhead(Renamed(f, s), h, k) && FirstFree(Renamed(f, s), h, k) == FirstFree(s, h, k)
    decreases |s| - k
  {
    var t := Renamed(f, s);
    var j :| k <= j < |s| && s[At(h, j, |s|)].None?;
    assert t[At(h, j, |t|)].None?;
    if s[At(h, k, |s|)].Some? {
      FirstFreeRenamed(f, s, h, k + 1);
    }
  }

  lemma {:induction false} PlaceRenamed<A, B>(f: A -> B, s: Slots<A>, h: nat, key: A)
    requires HasFree(s)
    ensures HasFree(Renamed(f, s)) && Place(Renamed(f, s), h, f(key)) == Renamed(f, Place(s, h, key))
  {
    var i :| 0 <= i < |s| && s[i].None?;
    assert Renamed(f, s)[i].None?;
    FreeSomewhere(s, h);
    FirstFreeRenamed(f, s, h, 0);
  }

  lemma {:induction false} PlaceAllRenamed<A(!new), B(!new)>(f: A -> B, s: Slots<A>, keys: seq<A>, h: A -> nat, g: B -> nat)
    requires Used(s) + |keys| < |s| && forall i :: 0 <= i < |keys| ==> h(keys[i]) == g(f(keys[i]))
    ensures Used(Renamed(f, s)) == Used(s)
    ensures PlaceAll(Renamed(f, s), Mapped(f, keys), g) == Renamed(f, PlaceAll(s, keys, h))
    decreases |keys|
  {
    OrderRenamed(f, s);
    if keys != [] {
      var n := |keys| - 1;
      PlaceAllRenamed(f, s, keys[..n], h, g);
      assert Mapped(f, keys)[..n] == Mapped(f, keys[..n]);
      var u := PlaceAll(s, keys[..n], h);
      UsedBound(u);
      PlaceRenamed(f, u, h(keys[n]), keys[n]);
    }
  }

  lemma {:induction false} GrownRenamed<A(!new), B(!new)>(f: A -> B, s: Slots<A>, h: A -> nat, g: B -> nat)
    requires |s| >= INITIAL_CAPACITY && forall i :: 0 <= i < |Order(s)| ==> h(Order(s)[i]) == g(f(Order(s)[i]))
    ensures Grown(Renamed(f, s), g) == Renamed(f, Grown(s, h))
  {
    OrderRenamed(f, s);
    if Crowded(Used(s), |s|) {
      UsedBound(s);
      UsedEmpty<A>(2 * |s|);
      OrderSize(s);
      PlaceAllRenamed(f, Empty(2 * |s|), Order(s), h, g);
      assert Renamed(f, Empty<A>(2 * |s|)) == Empty<B>(2 * |s|);
    }
  }

  /** Keys with the same hashes lie in the same slots. */
  lemma {:induction false} LayoutRenamed<A(!new), B(!new)>(f: A -> B, keys: seq<A>, h: A -> nat, g: B -> nat)
    requires forall i :: 0 <= i < |keys| ==> h(keys[i]) == g(f(keys[i]))
    ensures Layout(Mapped(f, keys), g) == Renamed(f, Layout(keys, h))
    decreases |keys|
  {
    if keys == [] {
      assert Renamed(f, Empty<A>(INITIAL_CAPACITY)) == Empty<B>(INITIAL_CAPACITY);
    } else {
      var n := |keys| - 1;
      var s := Layout(keys[..n], h);
      LayoutRenamed(f, keys[..n], h, g);
      assert Mapped(f, keys)[..n] == Mapped(f, keys[..n]);
      LayoutHashes(f, keys[..n], h, g);
      GrownRenamed(f, s, h, g);
      LayoutStep(keys, n, h);
      LayoutStep(Mapped(f, keys), n, g);
      PlaceRenamed(f, Grown(s, h), h(keys[n]), keys[n]);
      assert keys[..n + 1] == keys && Mapped(f, keys)[..n + 1] == Mapped(f, keys);
    }
  }

  lemma {:induction false} LayoutHashes<A(!new), B(!new)>(f: A -> B, keys: seq<A>, h: A -> nat, g: B -> nat)
    requires forall i :: 0 <= i < |keys| ==> h(keys[i]) == g(f(keys[i]))
    ensures var o := Order(Layout(keys, h)); forall i :: 0 <= i < |o| ==> h(o[i]) == g(f(o[i]))
  {
    var o := Order(Layout(keys, h));
    LayoutPermutes(keys, h);
    forall i | 0 <= i < |o| ensures h(o[i]) == g(f(o[i])) {
      assert o[i] in multiset(o);
      assert o[i] in keys;
      var j :| 0 <= j < |keys| && keys[j] == o[i];
    }
  }

  /** The replicas agree: a run of distinct keys is listed as the table keyed by their indices lists these. */
  lemma {:induction false} ReplicasAgree<K(!new)>(keys: seq<K>, hash: K -> nat, hashes: seq<nat>, key: nat -> K)
    requires |hashes| == |keys| && forall i :: 0 <= i < |keys| ==> key(i) == keys[i] && hashes[i] == hash(keys[i])
    ensures Order(Layout(keys, hash)) == Mapped(key, Order(Layout(Indices(|keys|), HashAt(hashes))))
  {
    var indices := Indices(|keys|);
    LayoutRenamed(key, indices, HashAt(hashes), hash);
    assert Mapped(key, indices) == keys;
    OrderRenamed(key, Layout(indices, HashAt(hashes)));
  }
}
