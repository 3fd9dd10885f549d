/** The open-addressing table of declared names: a map from names to counts, under tombstones, purges and growth. */
module DeclTables {
  import opened Options
  import S = SlotTables

  const SMALL_TABLE_CAPACITY: nat := 64

  datatype Slot = Free | Deleted | Used(name: string, hash: nat, count: nat)

  type Hash = string -> nat

  // ----- what the slots hold -----

  /** The names by slot. */
  ghost function Keys(slots: seq<Slot>): (s: S.Slots<string>)
    ensures |s| == |slots|
  {
    seq(|slots|, i requires 0 <= i < |slots| => if slots[i].Used? then Some(slots[i].name) else None)
  }

  /** The tombstones by slot. */
  ghost function Tombs(slots: seq<Slot>): (s: S.Slots<bool>)
    ensures |s| == |slots|
  {
    seq(|slots|, i requires 0 <= i < |slots| => if slots[i].Deleted? then Some(true) else None)
  }

  /** How far from its home a slot is probed. */
  function Distance(h: nat, i: nat, cap: nat): (d: nat)
    requires i < cap
    ensures d < cap && S.At(h, d, cap) == i
  {
    var r := h % cap;
    var d := if i >= r then i - r else i + cap - r;
    S.AtShift(h, d, r, cap);
    S.AtSmall(r + d, i, cap);
    d
  }

  /** A used slot is found from its home without meeting a free one. */
  ghost predicate Found(slots: seq<Slot>, hash: Hash, i: nat)
    requires i < |slots|
  {
    slots[i].Used? ==>
      && slots[i].hash == hash(slots[i].name) && slots[i].count > 0
      && forall k :: 0 <= k < Distance(slots[i].hash, i, |slots|) ==> !slots[S.At(slots[i].hash, k, |slots|)].Free?
  }

  ghost predicate AllFound(slots: seq<Slot>, hash: Hash) {
    forall i :: 0 <= i < |slots| ==> Found(slots, hash, i)
  }

  ghost predicate NoRepeats(slots: seq<Slot>) {
    forall i, j :: 0 <= i < j < |slots| && slots[i].Used? && slots[j].Used? ==> slots[i].name != slots[j].name
  }

  ghost predicate Listed(slots: seq<Slot>, n: string) {
    exists i :: 0 <= i < |slots| && slots[i].Used? && slots[i].name == n
  }

  /** The used slots are the entries of the map. */
  ghost predicate Represents(slots: seq<Slot>, decls: map<string, nat>) {
    && (forall i :: 0 <= i < |slots| && slots[i].Used? ==>
          slots[i].name in decls && decls[slots[i].name] == slots[i].count)
    && (forall n :: n in decls ==> Listed(slots, n))
  }

  ghost predicate PowerOfTwo(n: nat) {
    n == 1 || (n > 1 && n % 2 == 0 && PowerOfTwo(n / 2))
  }

  /** The table has room for one more probe to end. */
  ghost predicate Roomy(size: nat, deleted: nat, cap: nat) {
    cap >= S.INITIAL_CAPACITY && 4 * (size + deleted) <= 3 * cap + 4
  }

  lemma {:induction false} BusyCount(slots: seq<Slot>)
    ensures S.Used(Keys(slots)) + S.Used(Tombs(slots)) <= |slots|
    ensures S.Used(Keys(slots)) + S.Used(Tombs(slots)) < |slots| ==> exists i :: 0 <= i < |slots| && slots[i].Free?
  {
    if slots != [] {
      var n := |slots| - 1;
      BusyCount(slots[..n]);
      assert Keys(slots)[..n] == Keys(slots[..n]) && Tombs(slots)[..n] == Tombs(slots[..n]);
      if i :| 0 <= i < n && slots[..n][i].Free? {
        assert slots[i].Free?;
      } else if slots[n].Free? {
        assert slots[n].Free?;
      }
    }
  }

  ghost function Frees(slots: seq<Slot>): nat {
    if slots == [] then 0 else Frees(slots[..|slots| - 1]) + (if slots[|slots| - 1].Free? then 1 else 0)
  }

  lemma {:induction false} FreeCount(slots: seq<Slot>)
    ensures Frees(slots) + S.Used(Keys(slots)) + S.Used(Tombs(slots)) == |slots|
  {
    if slots != [] {
      var n := |slots| - 1;
      FreeCount(slots[..n]);
      assert Keys(slots)[..n] == Keys(slots[..n]) && Tombs(slots)[..n] == Tombs(slots[..n]);
    }
  }

  /** Reaching a free slot means that the name is nowhere in the table. */
  lemma {:induction false} FreeMeansAbsent(slots: seq<Slot>, hash: Hash, name: string, k: nat)
    requires AllFound(slots, hash) && k < |slots| && slots[S.At(hash(name), k, |slots|)].Free?
    requires forall j :: 0 <= j < k ==> !(slots[S.At(hash(name), j, |slots|)].Used? && slots[S.At(hash(name), j, |slots|)].name == name)
    ensures !Listed(slots, name)
  {
    forall i | 0 <= i < |slots| && slots[i].Used? ensures slots[i].name != name {
      var d := Distance(hash(name), i, |slots|);
      assert S.At(hash(name), d, |slots|) == i && Found(slots, hash, i);
    }
  }

  // ----- changing one slot -----

  /** No slot is freed: whatever was found still is. */
  lemma {:induction false} FoundKept(slots: seq<Slot>, hash: Hash, i: nat, x: Slot)
    requires AllFound(slots, hash) && i < |slots| && !x.Free?
    requires x.Used? ==> Found(slots[i := x], hash, i)
    ensures AllFound(slots[i := x], hash)
  {
    var slots' := slots[i := x];
    forall j | 0 <= j < |slots| ensures Found(slots', hash, j) {
      assert Found(slots, hash, j);
    }
  }

  lemma {:induction false} NextOf(h: nat, k: nat, i: nat, cap: nat)
    requires i < cap && S.At(h, k, cap) == i
    ensures S.At(h, k + 1, cap) == (i + 1) % cap
  {
    S.NextProbe(h, k, cap);
  }

  /** A slot before a free one may be freed. */
  lemma {:induction false} FoundFreed(slots: seq<Slot>, hash: Hash, i: nat)
    requires AllFound(slots, hash) && i < |slots| && slots[(i + 1) % |slots|].Free?
    ensures AllFound(slots[i := Free], hash)
  {
    var slots' := slots[i := Free];
    var cap := |slots|;
    forall j | 0 <= j < cap ensures Found(slots', hash, j) {
      assert Found(slots, hash, j);
      if slots'[j].Used? {
        var h, d := slots[j].hash, Distance(slots[j].hash, j, cap);
        forall k | 0 <= k < d ensures S.At(h, k, cap) != i {
          NextOf(h, k, S.At(h, k, cap), cap);
          assert S.At(h, d, cap) == j;
          assert !slots[S.At(h, k + 1, cap)].Free?;
        }
      }
    }
  }

  lemma {:induction false} UsedClear<K>(s: S.Slots<K>, i: nat)
    requires i < |s| && s[i].Some?
    ensures S.Used(s[i := None]) + 1 == S.Used(s)
  {
    S.UsedSet(s[i := None], i, s[i].value);
    assert s[i := None][i := Some(s[i].value)] == s;
  }

  // ----- moving -----

  /** The same entries, anew: `out` holds the used slots of `slots[..k]`. */
  ghost predicate Moved(slots: seq<Slot>, k: nat, out: seq<Slot>, hash: Hash)
    requires k <= |slots|
  {
    && AllFound(out, hash) && NoRepeats(out) && Clean(out)
    && (forall x: Slot :: x.Used? ==> (x in out <==> x in slots[..k]))
  }

  lemma {:induction false} MovedStep(slots: seq<Slot>, k: nat, out: seq<Slot>, hash: Hash, i: nat)
    requires k < |slots| && Moved(slots, k, out, hash) && NoRepeats(slots) && i < |out| && out[i].Free?
    requires slots[k].Used? && Found(out[i := slots[k]], hash, i)
    ensures Moved(slots, k + 1, out[i := slots[k]], hash)
  {
    var out' := out[i := slots[k]];
    FoundKept(out, hash, i, slots[k]);
    assert slots[..k + 1] == slots[..k] + [slots[k]];
    forall j | 0 <= j < |out| && out[j].Used? ensures out[j].name != slots[k].name {
      assert out[j] in slots[..k];
      var m :| 0 <= m < k && slots[m] == out[j];
    }
    forall x: Slot | x.Used? ensures x in out' <==> x in slots[..k + 1] {
      if x in out {
        var j :| 0 <= j < |out| && out[j] == x;
        assert out'[j] == x;
      }
      assert out'[i] == slots[k];
      if x in out' {
        var j :| 0 <= j < |out'| && out'[j] == x;
        assert j != i ==> out[j] == x;
      }
    }
  }

  lemma {:induction false} MovedRepresents(slots: seq<Slot>, out: seq<Slot>, hash: Hash, decls: map<string, nat>)
    requires Moved(slots, |slots|, out, hash) && Represents(slots, decls)
    ensures Represents(out, decls)
  {
    assert slots[..|slots|] == slots;
    forall i | 0 <= i < |out| && out[i].Used? ensures out[i].name in decls && decls[out[i].name] == out[i].count {
      assert out[i] in slots;
      var j :| 0 <= j < |slots| && slots[j] == out[i];
    }
    forall n | n in decls ensures Listed(out, n) {
      var j :| 0 <= j < |slots| && slots[j].Used? && slots[j].name == n;
      assert slots[j] in out;
      var i :| 0 <= i < |out| && out[i] == slots[j];
    }
  }

  lemma {:induction false} NoTombs(out: seq<Slot>)
    requires Clean(out)
    ensures S.Used(Tombs(out)) == 0
  {
    if out != [] {
      NoTombs(out[..|out| - 1]);
      assert Tombs(out)[..|out| - 1] == Tombs(out[..|out| - 1]);
    }
  }

  ghost predicate Clean(out: seq<Slot>) {
    forall i :: 0 <= i < |out| ==> !out[i].Deleted?
  }

  lemma {:induction false} FreeKey(out: seq<Slot>, h: nat) returns (last: nat)
    requires S.HasFree(Keys(out)) && Clean(out)
    ensures last < |out| && out[S.At(h, last, |out|)].Free?
  {
    S.FreeSomewhere(Keys(out), h);
    var k: nat :| 0 <= k < |out| && Keys(out)[S.At(h, k, |out|)].None?;
    last := k;
  }

  /** Probe from the home of `x` to the first free slot. */
  method PutAt(out: seq<Slot>, x: Slot, hash: Hash) returns (out': seq<Slot>, ghost at: nat)
    requires x.Used? && x.hash == hash(x.name) && x.count > 0
    requires S.HasFree(Keys(out)) && Clean(out)
    ensures at < |out| && out[at].Free? && out' == out[at := x] && Found(out', hash, at)
    ensures Keys(out') == S.Place(Keys(out), x.hash, x.name)
  {
    ghost var last := FreeKey(out, x.hash);
    S.NextProbe(x.hash, 0, |out|);
    var i := x.hash % |out|;
    ghost var k: nat := 0;
    while !out[i].Free?
      invariant 0 <= k <= last && i == S.At(x.hash, k, |out|)
      invariant forall j :: 0 <= j < k ==> !out[S.At(x.hash, j, |out|)].Free?
      decreases last - k
    {
      S.NextProbe(x.hash, k, |out|);
      i := (i + 1) % |out|;
      k := k + 1;
    }
    out' := out[i := x];
    at := i;
    PutMeans(out, x, hash, k);
  }

  lemma {:induction false} PutMeans(out: seq<Slot>, x: Slot, hash: Hash, k: nat)
    requires x.Used? && x.hash == hash(x.name) && x.count > 0 && S.HasFree(Keys(out)) && Clean(out)
    requires k < |out| && out[S.At(x.hash, k, |out|)].Free?
    requires forall j :: 0 <= j < k ==> !out[S.At(x.hash, j, |out|)].Free?
    ensures var i := S.At(x.hash, k, |out|); Found(out[i := x], hash, i)
    ensures Keys(out[S.At(x.hash, k, |out|) := x]) == S.Place(Keys(out), x.hash, x.name)
  {
    var i := S.At(x.hash, k, |out|);
    ProbeIsDistance(out, x.hash, k, i);
    forall j | 0 <= j < k ensures S.At(x.hash, j, |out|) != i {
      S.AtInjective(x.hash, j, k, |out|);
    }
    S.ProbeStops(Keys(out), x.hash, 0, k);
    assert Keys(out[i := x]) == Keys(out)[i := Some(x.name)];
  }

  lemma {:induction false} ProbeIsDistance(slots: seq<Slot>, h: nat, k: nat, i: nat)
    requires k < |slots| && i == S.At(h, k, |slots|)
    ensures Distance(h, i, |slots|) == k
  {
    var d := Distance(h, i, |slots|);
    if d < k {
      S.AtInjective(h, d, k, |slots|);
    } else if k < d {
      S.AtInjective(h, k, d, |slots|);
    }
  }

  /** Place every used slot into a fresh table, in the order of the slots. */
  method MoveTable(slots: seq<Slot>, cap: nat, hash: Hash) returns (out: seq<Slot>)
    requires AllFound(slots, hash) && NoRepeats(slots) && S.Used(Keys(slots)) < cap
    ensures |out| == cap && Moved(slots, |slots|, out, hash) && S.Used(Keys(out)) == S.Used(Keys(slots))
    ensures S.Used(S.Empty<string>(cap)) + |S.Order(Keys(slots))| < cap
    ensures Keys(out) == S.PlaceAll(S.Empty(cap), S.Order(Keys(slots)), hash)
  {
    ghost var keys := Keys(slots);
    S.UsedEmpty<string>(cap);
    S.OrderSize(keys);
    out := seq(cap, _ => Free);
    MovedStart(slots, out, cap, hash);
    for i := 0 to |slots|
      invariant |out| == cap && MovedTo(slots, i, out, hash)
    {
      if slots[i].Used? {
        ghost var before := out;
        assert Found(slots, hash, i);
        ghost var at;
        RoomToMove(slots, i, out, hash);
        out, at := PutAt(out, slots[i], hash);
        MovedToStep(slots, i, before, out, hash, at);
      } else {
        MovedToSkip(slots, i, out, hash);
      }
    }
    assert keys[..|slots|] == keys;
  }

  /** Also, each entry lies where the layout of the names puts it. */
  ghost predicate MovedTo(slots: seq<Slot>, k: nat, out: seq<Slot>, hash: Hash)
    requires k <= |slots|
  {
    var order := S.Order(Keys(slots)[..k]);
    && Moved(slots, k, out, hash) && S.Used(S.Empty<string>(|out|)) == 0 && S.Used(Keys(slots)) < |out|
    && |order| <= S.Used(Keys(slots)) && Keys(out) == S.PlaceAll(S.Empty(|out|), order, hash)
  }

  lemma {:induction false} MovedStart(slots: seq<Slot>, out: seq<Slot>, cap: nat, hash: Hash)
    requires |out| == cap && S.Used(Keys(slots)) < cap && forall i :: 0 <= i < cap ==> out[i] == Free
    ensures MovedTo(slots, 0, out, hash)
  {
    S.UsedEmpty<string>(cap);
    assert Keys(out) == S.Empty<string>(cap) && slots[..0] == [] && Keys(slots)[..0] == [];
  }

  lemma {:induction false} OrderFits(slots: seq<Slot>, k: nat)
    requires k <= |slots|
    ensures |S.Order(Keys(slots)[..k])| <= S.Used(Keys(slots))
  {
    S.UsedPrefix(Keys(slots), k);
    S.OrderSize(Keys(slots)[..k]);
  }

  lemma {:induction false} RoomToMove(slots: seq<Slot>, i: nat, out: seq<Slot>, hash: Hash)
    requires i < |slots| && slots[i].Used? && MovedTo(slots, i, out, hash)
    ensures S.HasFree(Keys(out)) && Clean(out)
  {
    S.UsedBound(Keys(out));
  }

  lemma {:induction false} MovedToSkip(slots: seq<Slot>, i: nat, out: seq<Slot>, hash: Hash)
    requires i < |slots| && !slots[i].Used? && MovedTo(slots, i, out, hash)
    ensures MovedTo(slots, i + 1, out, hash)
  {
    S.OrderStep(Keys(slots), i);
    assert slots[..i + 1] == slots[..i] + [slots[i]];
  }

  lemma {:induction false} MovedToStep(slots: seq<Slot>, i: nat, out: seq<Slot>, out': seq<Slot>, hash: Hash, at: nat)
    requires i < |slots| && slots[i].Used? && MovedTo(slots, i, out, hash) && NoRepeats(slots) && Found(slots, hash, i)
    requires at < |out| && out[at].Free? && out' == out[at := slots[i]] && Found(out', hash, at)
    requires S.HasFree(Keys(out)) && Keys(out') == S.Place(Keys(out), slots[i].hash, slots[i].name)
    ensures MovedTo(slots, i + 1, out', hash)
  {
    S.OrderStep(Keys(slots), i);
    OrderFits(slots, i + 1);
    MovedStep(slots, i, out, hash, at);
    S.PlaceAllStep(S.Empty(|out|), S.Order(Keys(slots)[..i]), slots[i].name, hash);
  }

  // ----- adding, counting and removing -----

  lemma {:induction false} ValidSlot(slots: seq<Slot>, hash: Hash, decls: map<string, nat>, i: nat, count: nat)
    requires AllFound(slots, hash) && NoRepeats(slots) && Represents(slots, decls)
    requires i < |slots| && slots[i].Used? && count > 0
    ensures var slots' := slots[i := slots[i].(count := count)];
      AllFound(slots', hash) && NoRepeats(slots') && Represents(slots', decls[slots[i].name := count])
      && Keys(slots') == Keys(slots) && Tombs(slots') == Tombs(slots)
  {
    var slots' := slots[i := slots[i].(count := count)];
    assert Found(slots, hash, i);
    FoundKept(slots, hash, i, slots'[i]);
    forall n | n in decls ensures Listed(slots', n) {
      var j :| 0 <= j < |slots| && slots[j].Used? && slots[j].name == n;
      assert slots'[j].Used? && slots'[j].name == n;
    }
    assert slots'[i].name == slots[i].name;
  }

  lemma {:induction false} StoredSlot(slots: seq<Slot>, hash: Hash, decls: map<string, nat>, i: nat, name: string, k: nat)
    requires AllFound(slots, hash) && NoRepeats(slots) && Represents(slots, decls)
    requires k < |slots| && i == S.At(hash(name), k, |slots|) && !slots[i].Used? && !Listed(slots, name)
    requires forall j :: 0 <= j < k ==> !slots[S.At(hash(name), j, |slots|)].Free?
    ensures var slots' := slots[i := Used(name, hash(name), 1)];
      AllFound(slots', hash) && NoRepeats(slots') && Represents(slots', decls[name := 1])
      && Keys(slots') == Keys(slots)[i := Some(name)] && Tombs(slots') == Tombs(slots)[i := None]
  {
    var slots' := slots[i := Used(name, hash(name), 1)];
    ProbeIsDistance(slots, hash(name), k, i);
    FoundKept(slots, hash, i, slots'[i]);
    assert name !in decls;
    forall n | n in decls[name := 1] ensures Listed(slots', n) {
      if n == name {
        assert slots'[i].Used?;
      } else {
        var j :| 0 <= j < |slots| && slots[j].Used? && slots[j].name == n;
        assert slots'[j].Used? && slots'[j].name == n;
      }
    }
  }

  /** Remove the entry of a slot, leaving it free or marked. */
  lemma {:induction false} RemovedSlot(slots: seq<Slot>, hash: Hash, decls: map<string, nat>, i: nat, x: Slot)
    requires AllFound(slots, hash) && NoRepeats(slots) && Represents(slots, decls)
    requires i < |slots| && slots[i].Used? && (x == Deleted || (x == Free && slots[(i + 1) % |slots|].Free?))
    ensures AllFound(slots[i := x], hash) && NoRepeats(slots[i := x]) && Represents(slots[i := x], decls - {slots[i].name})
    ensures Keys(slots[i := x]) == Keys(slots)[i := None]
    ensures Tombs(slots[i := x]) == if x.Deleted? then Tombs(slots)[i := Some(true)] else Tombs(slots)
  {
    var slots' := slots[i := x];
    if x.Free? {
      FoundFreed(slots, hash, i);
    } else {
      FoundKept(slots, hash, i, x);
    }
    forall n | n in decls - {slots[i].name} ensures Listed(slots', n) {
      var j :| 0 <= j < |slots| && slots[j].Used? && slots[j].name == n;
      assert slots'[j].Used? && slots'[j].name == n;
    }
  }

  lemma {:induction false} NoneUsed(slots: seq<Slot>, decls: map<string, nat>)
    requires S.Used(Keys(slots)) == 0 && Represents(slots, decls)
    ensures decls == map[]
  {
    forall n ensures n !in decls {
      if n in decls {
        var i :| 0 <= i < |slots| && slots[i].Used? && slots[i].name == n;
        UsedPositive(Keys(slots), i);
      }
    }
  }

  lemma {:induction false} UsedPositive<K>(s: S.Slots<K>, i: nat)
    requires i < |s| && s[i].Some?
    ensures S.Used(s) > 0
    decreases |s|
  {
    if i < |s| - 1 {
      UsedPositive(s[..|s| - 1], i);
    }
  }

  lemma {:induction false} TombsClean(slots: seq<Slot>)
    requires S.Used(Tombs(slots)) == 0
    ensures Clean(slots)
  {
    forall i | 0 <= i < |slots| ensures !slots[i].Deleted? {
      if slots[i].Deleted? {
        UsedPositive(Tombs(slots), i);
      }
    }
  }

  lemma {:induction false} Doubled(n: nat)
    requires PowerOfTwo(n)
    ensures PowerOfTwo(2 * n)
  {
    assert 2 * n / 2 == n;
  }

  // ----- the table -----

  ghost predicate TableOk(slots: seq<Slot>, hash: Hash, decls: map<string, nat>, size: nat, deleted: nat) {
    && Roomy(size, deleted, |slots|) && PowerOfTwo(|slots|)
    && size == S.Used(Keys(slots)) && deleted == S.Used(Tombs(slots))
    && AllFound(slots, hash) && NoRepeats(slots) && Represents(slots, decls)
  }

  lemma {:induction false} EmptyOk(slots: seq<Slot>, hash: Hash)
    requires |slots| >= S.INITIAL_CAPACITY && PowerOfTwo(|slots|) && forall i :: 0 <= i < |slots| ==> slots[i] == Free
    ensures TableOk(slots, hash, map[], 0, 0) && Keys(slots) == S.Empty<string>(|slots|)
  {
    assert Keys(slots) == S.Empty<string>(|slots|);
    S.UsedEmpty<string>(|slots|);
    NoTombs(slots);
  }

  /** A round of probes meets a free slot: one always remains. */
  lemma {:induction false} FreeRemains(slots: seq<Slot>, hash: Hash, decls: map<string, nat>, size: nat, deleted: nat, h: nat) returns (last: nat)
    requires TableOk(slots, hash, decls, size, deleted)
    ensures last < |slots| && slots[S.At(h, last, |slots|)].Free?
  {
    BusyCount(slots);
    var i: nat :| 0 <= i < |slots| && slots[i].Free?;
    last := Distance(h, i, |slots|);
  }

  lemma {:induction false} MovedOk(slots: seq<Slot>, out: seq<Slot>, hash: Hash, decls: map<string, nat>, size: nat, deleted: nat)
    requires TableOk(slots, hash, decls, size, deleted) && Moved(slots, |slots|, out, hash)
    requires (|out| == 2 * |slots| || |out| == |slots|) && S.Used(Keys(out)) == S.Used(Keys(slots))
    ensures TableOk(out, hash, decls, size, 0)
    ensures |out| == 2 * |slots| ==> 4 * size <= 3 * |out|
  {
    MovedRepresents(slots, out, hash, decls);
    NoTombs(out);
    if |out| == 2 * |slots| {
      Doubled(|slots|);
    }
  }

  lemma {:induction false} RecountedOk(slots: seq<Slot>, hash: Hash, decls: map<string, nat>, size: nat, deleted: nat, i: nat, count: nat)
    requires TableOk(slots, hash, decls, size, deleted) && i < |slots| && slots[i].Used? && count > 0
    ensures slots[i].name in decls && decls[slots[i].name] == slots[i].count
    ensures var slots' := slots[i := slots[i].(count := count)];
      TableOk(slots', hash, decls[slots[i].name := count], size, deleted) && Keys(slots') == Keys(slots)
  {
    ValidSlot(slots, hash, decls, i, count);
  }

  /** The `j`-th probe meets neither a free slot nor the name. */
  ghost predicate MissedAt(slots: seq<Slot>, h: nat, name: string, j: nat)
    requires |slots| > 0
  {
    var s := slots[S.At(h, j, |slots|)];
    !s.Free? && !(s.Used? && s.name == name)
  }

  /** The first `k` probes miss, and `del` is the last tombstone among them. */
  ghost predicate Probed(slots: seq<Slot>, h: nat, name: string, k: nat, del: Option<nat>, delAt: nat) {
    && |slots| > 0 && k < |slots| && (forall j :: 0 <= j < k ==> MissedAt(slots, h, name, j))
    && (del.Some? ==> delAt < k && del.value == S.At(h, delAt, |slots|) && slots[del.value].Deleted?)
    && (del.Some? ==> forall j :: delAt < j < k ==> slots[S.At(h, j, |slots|)].Used?)
    && (del.None? ==> forall j :: 0 <= j < k ==> slots[S.At(h, j, |slots|)].Used?)
  }

  lemma {:induction false} ProbedAbsent(slots: seq<Slot>, hash: Hash, decls: map<string, nat>, name: string, k: nat, del: Option<nat>, delAt: nat)
    requires AllFound(slots, hash) && Represents(slots, decls) && Probed(slots, hash(name), name, k, del, delAt)
    requires slots[S.At(hash(name), k, |slots|)].Free?
    ensures !Listed(slots, name) && name !in decls
  {
    forall j | 0 <= j < k
      ensures !(slots[S.At(hash(name), j, |slots|)].Used? && slots[S.At(hash(name), j, |slots|)].name == name)
    {
      assert MissedAt(slots, hash(name), name, j);
    }
    FreeMeansAbsent(slots, hash, name, k);
  }

  /** The name is stored at a free slot, or at a tombstone. */
  lemma {:induction false} StoredAt(slots: seq<Slot>, hash: Hash, decls: map<string, nat>, size: nat, deleted: nat, name: string, k: nat, at: nat)
    requires TableOk(slots, hash, decls, size, deleted) && 4 * (size + deleted) <= 3 * |slots| && !Listed(slots, name)
    requires k < |slots| && at == S.At(hash(name), k, |slots|) && !slots[at].Used?
    requires forall j :: 0 <= j < k ==> !slots[S.At(hash(name), j, |slots|)].Free?
    ensures slots[at].Deleted? ==> deleted > 0
    ensures TableOk(slots[at := Used(name, hash(name), 1)], hash, decls[name := 1], size + 1,
                    if slots[at].Deleted? then deleted - 1 else deleted)
  {
    StoredSlot(slots, hash, decls, at, name, k);
    S.UsedSet(Keys(slots), at, name);
    if slots[at].Deleted? {
      UsedClear(Tombs(slots), at);
    } else {
      assert Tombs(slots)[at := None] == Tombs(slots);
    }
  }

  lemma {:induction false} StoredOk(slots: seq<Slot>, hash: Hash, decls: map<string, nat>, size: nat, deleted: nat, name: string, k: nat,
                 del: Option<nat>, delAt: nat, at: nat)
    requires TableOk(slots, hash, decls, size, deleted) && 4 * (size + deleted) <= 3 * |slots|
    requires Probed(slots, hash(name), name, k, del, delAt) && slots[S.At(hash(name), k, |slots|)].Free?
    requires at == if del.Some? then del.value else S.At(hash(name), k, |slots|)
    ensures at < |slots| && name !in decls && (del.Some? ==> deleted > 0)
    ensures TableOk(slots[at := Used(name, hash(name), 1)], hash, decls[name := 1], size + 1,
                    if del.Some? then deleted - 1 else deleted)
  {
    ProbedAbsent(slots, hash, decls, name, k, del, delAt);
    var probed := if del.Some? then delAt else k;
    forall j | 0 <= j < probed ensures !slots[S.At(hash(name), j, |slots|)].Free? {
      assert MissedAt(slots, hash(name), name, j);
    }
    StoredAt(slots, hash, decls, size, deleted, name, probed, at);
  }

  /** Without tombstones the name is stored where the layout of the names places it. */
  lemma {:induction false} StoredPlace(slots: seq<Slot>, hash: Hash, name: string, k: nat, del: Option<nat>, delAt: nat)
    requires S.Used(Tombs(slots)) == 0 && Probed(slots, hash(name), name, k, del, delAt)
    requires slots[S.At(hash(name), k, |slots|)].Free?
    ensures del.None? && S.HasFree(Keys(slots))
    ensures Keys(slots[S.At(hash(name), k, |slots|) := Used(name, hash(name), 1)]) == S.Place(Keys(slots), hash(name), name)
  {
    var i := S.At(hash(name), k, |slots|);
    assert Keys(slots)[i].None?;
    TombsClean(slots);
    assert forall j :: 0 <= j < k ==> Keys(slots)[S.At(hash(name), j, |slots|)].Some?;
    S.ProbeStops(Keys(slots), hash(name), 0, k);
    assert Keys(slots[i := Used(name, hash(name), 1)]) == Keys(slots)[i := Some(name)];
  }

  lemma {:induction false} RemovedOk(slots: seq<Slot>, hash: Hash, decls: map<string, nat>, size: nat, deleted: nat, i: nat, x: Slot)
    requires TableOk(slots, hash, decls, size, deleted) && i < |slots| && slots[i].Used?
    requires x == Deleted || (x == Free && slots[(i + 1) % |slots|].Free?)
    ensures size > 0
    ensures TableOk(slots[i := x], hash, decls - {slots[i].name}, size - 1, if x.Deleted? then deleted + 1 else deleted)
  {
    RemovedSlot(slots, hash, decls, i, x);
    UsedClear(Keys(slots), i);
    if x.Deleted? {
      S.UsedSet(Tombs(slots), i, true);
    }
  }

  // ----- what becomes of the slots -----

  predicate TooFull(size: nat, deleted: nat, cap: nat) {
    4 * (size + deleted) > 3 * cap
  }

  /** The moved table: the used slots, placed in their order into an empty table. */
  ghost predicate MovedInto(slots: seq<Slot>, cap: nat, hash: Hash, slots': seq<Slot>) {
    && |slots'| == cap && S.Used(S.Empty<string>(cap)) + |S.Order(Keys(slots))| < cap
    && Keys(slots') == S.PlaceAll(S.Empty(cap), S.Order(Keys(slots)), hash)
  }

  /** The probe ends at the free slot `k`; `p` is the last tombstone before it, or that slot when there is none. */
  ghost predicate LandsAt(slots: seq<Slot>, h: nat, k: nat, p: nat)
    requires |slots| > 0
  {
    && p <= k < |slots| && slots[S.At(h, k, |slots|)].Free?
    && (forall j :: 0 <= j < k ==> !slots[S.At(h, j, |slots|)].Free?)
    && (p < k ==> slots[S.At(h, p, |slots|)].Deleted? && forall j :: p < j < k ==> slots[S.At(h, j, |slots|)].Used?)
    && (p == k ==> forall j :: 0 <= j < k ==> slots[S.At(h, j, |slots|)].Used?)
  }

  ghost predicate Lands(slots: seq<Slot>, h: nat, i: nat) {
    |slots| > 0 && exists k: nat, p: nat :: LandsAt(slots, h, k, p) && i == S.At(h, p, |slots|)
  }

  /** A new name is stored where it lands. */
  ghost predicate StoredNew(slots: seq<Slot>, size: nat, deleted: nat, name: string, h: nat,
                            slots': seq<Slot>, size': nat, deleted': nat) {
    size' == size + 1 && exists i: nat :: i < |slots| && Lands(slots, h, i) && StoredIn(slots, deleted, name, h, i, slots', deleted')
  }

  ghost predicate StoredIn(slots: seq<Slot>, deleted: nat, name: string, h: nat, i: nat, slots': seq<Slot>, deleted': nat)
    requires i < |slots|
  {
    slots' == slots[i := Used(name, h, 1)] && deleted' == deleted - (if slots[i].Deleted? then 1 else 0)
  }

  /** The name's slot counts one declaration more or less. */
  ghost predicate Recounted(slots: seq<Slot>, name: string, more: int, slots': seq<Slot>) {
    exists i :: 0 <= i < |slots| && IsOf(slots[i], name) && slots[i].count + more > 0
      && slots' == slots[i := slots[i].(count := slots[i].count + more)]
  }

  predicate IsOf(s: Slot, name: string) {
    s.Used? && s.name == name
  }

  /** An insertion: with room, only one slot changes; a crowded table is moved to one twice as large first. */
  ghost predicate Inserted(slots: seq<Slot>, size: nat, deleted: nat, known: bool, name: string, hash: Hash,
                           slots': seq<Slot>, size': nat, deleted': nat) {
    if TooFull(size, deleted, |slots|) then
      exists mid: seq<Slot> :: MovedInto(slots, 2 * |slots|, hash, mid) && AddedTo(mid, size, 0, known, name, hash, slots', size', deleted')
    else AddedTo(slots, size, deleted, known, name, hash, slots', size', deleted')
  }

  ghost predicate AddedTo(slots: seq<Slot>, size: nat, deleted: nat, known: bool, name: string, hash: Hash,
                          slots': seq<Slot>, size': nat, deleted': nat) {
    if known then Recounted(slots, name, 1, slots') && size' == size && deleted' == deleted
    else StoredNew(slots, size, deleted, name, hash(name), slots', size', deleted')
  }

  /** The slot of a name that leaves: free if the next one is, else a tombstone, unless those have become too many. */
  ghost predicate Dropped(slots: seq<Slot>, size: nat, deleted: nat, i: nat, hash: Hash, slots': seq<Slot>, size': nat, deleted': nat)
    requires i < |slots|
  {
    && size' == size - 1
    && if slots[(i + 1) % |slots|].Free? then slots' == slots[i := Free] && deleted' == deleted
       else if deleted + 1 > size - 1 && deleted + 1 > SMALL_TABLE_CAPACITY then
         MovedInto(slots[i := Deleted], |slots|, hash, slots') && deleted' == 0
       else slots' == slots[i := Deleted] && deleted' == deleted + 1
  }

  /** An erasure of a declared name. */
  ghost predicate Erased(slots: seq<Slot>, size: nat, deleted: nat, count: nat, name: string, hash: Hash,
                         slots': seq<Slot>, size': nat, deleted': nat) {
    if count > 1 then Recounted(slots, name, -1, slots') && size' == size && deleted' == deleted
    else exists i: nat :: i < |slots| && IsOf(slots[i], name) && Dropped(slots, size, deleted, i, hash, slots', size', deleted')
  }

  lemma {:induction false} InsertedBy(slots: seq<Slot>, size: nat, deleted: nat, known: bool, name: string, hash: Hash, mid: seq<Slot>,
                                      room: nat, slots': seq<Slot>, size': nat, deleted': nat)
    requires if TooFull(size, deleted, |slots|) then MovedInto(slots, 2 * |slots|, hash, mid) && room == 0
             else mid == slots && room == deleted
    requires AddedTo(mid, size, room, known, name, hash, slots', size', deleted')
    ensures Inserted(slots, size, deleted, known, name, hash, slots', size', deleted')
  {
  }

  lemma {:induction false} ProbedLands(slots: seq<Slot>, h: nat, name: string, k: nat, del: Option<nat>, delAt: nat)
    requires Probed(slots, h, name, k, del, delAt) && slots[S.At(h, k, |slots|)].Free?
    ensures Lands(slots, h, if del.Some? then del.value else S.At(h, k, |slots|))
  {
    forall j | 0 <= j < k ensures !slots[S.At(h, j, |slots|)].Free? {
      assert MissedAt(slots, h, name, j);
    }
    assert LandsAt(slots, h, k, if del.Some? then delAt else k);
  }

  class DeclTable {
    /** The hash of a name, whatever it is. */
    const hash: Hash
    var slots: seq<Slot>
    var size: nat
    var deleted: nat

    /** How many live declarations each name has. */
    ghost var decls: map<string, nat>

    ghost predicate Valid()
      reads this
    {
      TableOk(slots, hash, decls, size, deleted)
    }

    constructor (hash: Hash)
      ensures Valid() && decls == map[] && this.hash == hash && deleted == 0 && Keys(slots) == S.Layout([], hash)
    {
      this.hash := hash;
      slots, size, deleted, decls := seq(S.INITIAL_CAPACITY, _ => Free), 0, 0, map[];
      new;
      EmptyOk(slots, hash);
    }

    /** Double a crowded table before an insertion. */
    method MakeRoom()
      requires Valid()
      modifies `slots, `deleted
      ensures Valid() && 4 * (size + deleted) <= 3 * |slots|
      ensures |slots| == if 4 * (size + old(deleted)) > 3 * |old(slots)| then 2 * |old(slots)| else |old(slots)|
      ensures old(deleted) == 0 ==> deleted == 0 && Keys(slots) == S.Grown(Keys(old(slots)), hash)
      ensures if TooFull(size, old(deleted), |old(slots)|) then MovedInto(old(slots), 2 * |old(slots)|, hash, slots) && deleted == 0
              else slots == old(slots) && deleted == old(deleted)
    {
      if (size + deleted) * 4 > |slots| * 3 {
        S.UsedBound(Keys(slots));
        var out := MoveTable(slots, |slots| * 2, hash);
        MovedOk(slots, out, hash, decls, size, deleted);
        slots := out;
        deleted := 0;
      }
    }

    /** Probe for the name: where it is, or the free slot it would be after and the last tombstone on the way. */
    method Probe(name: string) returns (hit: bool, k: nat, del: Option<nat>, ghost delAt: nat)
      requires Valid()
      ensures k < |slots| && Probed(slots, hash(name), name, k, del, delAt)
      ensures var s := slots[S.At(hash(name), k, |slots|)]; if hit then s.Used? && s.name == name else s.Free?
    {
      var cap := |slots|;
      ghost var last := FreeRemains(slots, hash, decls, size, deleted, hash(name));
      hit, k, del, delAt := false, 0, None, 0;
      while k < cap
        invariant 0 <= k <= last && Probed(slots, hash(name), name, k, del, delAt)
        decreases cap - k
      {
        var i := S.At(hash(name), k, cap);
        match slots[i] {
          case Used(n, _, _) =>
            if n == name {
              hit := true;
              return;
            }
          case Deleted =>
            del, delAt := Some(i), k;
          case Free =>
            return;
        }
        assert MissedAt(slots, hash(name), name, k);
        k := k + 1;
      }
      assert false;
    }

    /** Record one declaration of the name. */
    method Insert(name: string)
      requires Valid()
      modifies this
      ensures Valid() && decls == old(decls)[name := if name in old(decls) then old(decls)[name] + 1 else 1]
      ensures |slots| == if 4 * (old(size) + old(deleted)) > 3 * |old(slots)| then 2 * |old(slots)| else |old(slots)|
      ensures old(deleted) == 0 ==> deleted == 0
      ensures old(deleted) == 0 && name !in old(decls) ==> Keys(slots) == S.Insert(Keys(old(slots)), name, hash)
      ensures old(deleted) == 0 && name in old(decls) ==> Keys(slots) == S.Grown(Keys(old(slots)), hash)
      ensures Inserted(old(slots), old(size), old(deleted), name in old(decls), name, hash, slots, size, deleted)
    {
      InsertMoved(name);
      if old(deleted) == 0 && name !in old(decls) {
        InsertIsPlace(name, Keys(old(slots)));
      }
    }

    /** Make room, and record the declaration. */
    method InsertMoved(name: string)
      requires Valid()
      modifies this
      ensures Valid() && decls == old(decls)[name := if name in old(decls) then old(decls)[name] + 1 else 1]
      ensures |slots| == if 4 * (old(size) + old(deleted)) > 3 * |old(slots)| then 2 * |old(slots)| else |old(slots)|
      ensures Inserted(old(slots), old(size), old(deleted), name in old(decls), name, hash, slots, size, deleted)
      ensures old(deleted) == 0 ==> deleted == 0 && var grown := S.Grown(Keys(old(slots)), hash);
        if name in old(decls) then Keys(slots) == grown
        else S.HasFree(grown) && Keys(slots) == S.Place(grown, hash(name), name)
    {
      MakeRoom();
      ghost var mid, room := slots, deleted;
      InsertHere(name);
      InsertedBy(old(slots), old(size), old(deleted), name in old(decls), name, hash, mid, room, slots, size, deleted);
    }

    /** Record the declaration in a table with room. */
    method InsertHere(name: string)
      requires Valid() && !TooFull(size, deleted, |slots|)
      modifies this
      ensures Valid() && decls == old(decls)[name := if name in old(decls) then old(decls)[name] + 1 else 1]
      ensures |slots| == |old(slots)|
      ensures AddedTo(old(slots), old(size), old(deleted), name in old(decls), name, hash, slots, size, deleted)
      ensures old(deleted) == 0 ==> deleted == 0
      ensures old(deleted) == 0 && name !in old(decls) ==>
        S.HasFree(Keys(old(slots))) && Keys(slots) == S.Place(Keys(old(slots)), hash(name), name)
      ensures name in old(decls) ==> Keys(slots) == Keys(old(slots))
    {
      var hit, k, del, delAt := Probe(name);
      var at := S.At(hash(name), k, |slots|);
      if hit {
        Entry(at);
        Recount(at, slots[at].count + 1);
        assert IsOf(old(slots)[at], name);
        return;
      }
      Store(name, k, del, delAt);
    }

    lemma {:induction false} InsertIsPlace(name: string, keys: S.Slots<string>)
      requires |keys| >= S.INITIAL_CAPACITY
      ensures S.HasFree(S.Grown(keys, hash))
      ensures S.Insert(keys, name, hash) == S.Place(S.Grown(keys, hash), hash(name), name)
    {
      S.PlaceAllStep(S.Grown(keys, hash), [], name, hash);
      assert [] + [name] == [name];
    }

    /** Put the name where the probes ended, or on the last tombstone they met. */
    method Store(name: string, k: nat, del: Option<nat>, ghost delAt: nat)
      requires Valid() && 4 * (size + deleted) <= 3 * |slots|
      requires Probed(slots, hash(name), name, k, del, delAt) && slots[S.At(hash(name), k, |slots|)].Free?
      modifies `slots, `size, `deleted, `decls
      ensures Valid() && name !in old(decls) && decls == old(decls)[name := 1]
      ensures slots == old(slots)[(if del.Some? then del.value else S.At(hash(name), k, |old(slots)|)) := Used(name, hash(name), 1)]
      ensures old(deleted) == 0 ==>
        deleted == 0 && S.HasFree(Keys(old(slots))) && Keys(slots) == S.Place(Keys(old(slots)), hash(name), name)
      ensures StoredNew(old(slots), old(size), old(deleted), name, hash(name), slots, size, deleted)
    {
      var at := if del.Some? then del.value else S.At(hash(name), k, |slots|);
      StoredOk(slots, hash, decls, size, deleted, name, k, del, delAt, at);
      ProbedLands(slots, hash(name), name, k, del, delAt);
      if deleted == 0 {
        StoredPlace(slots, hash, name, k, del, delAt);
      }
      if del.Some? {
        deleted := deleted - 1;
      }
      slots := slots[at := Used(name, hash(name), 1)];
      size := size + 1;
      decls := decls[name := 1];
      assert StoredIn(old(slots), old(deleted), name, hash(name), at, slots, deleted);
    }

    /** Drop one declaration of the name; the name leaves with its last one. */
    method Erase(name: string)
      requires Valid()
      modifies this
      ensures Valid() && |slots| == |old(slots)|
      ensures decls == if name !in old(decls) then old(decls)
                       else if old(decls)[name] > 1 then old(decls)[name := old(decls)[name] - 1]
                       else old(decls) - {name}
      ensures name !in old(decls) ==> slots == old(slots) && size == old(size) && deleted == old(deleted)
      ensures name in old(decls) ==>
        Erased(old(slots), old(size), old(deleted), old(decls)[name], name, hash, slots, size, deleted)
    {
      var hit, k, del, delAt := Probe(name);
      if !hit {
        ProbedAbsent(slots, hash, decls, name, k, del, delAt);
        return;
      }
      var i := S.At(hash(name), k, |slots|);
      var count := slots[i].count;
      Entry(i);
      assert IsOf(slots[i], name);
      if count > 1 {
        Recount(i, count - 1);
        assert Recounted(old(slots), name, -1, slots);
      } else {
        Remove(i);
      }
    }

    lemma {:induction false} Entry(i: nat)
      requires Valid() && i < |slots| && slots[i].Used?
      ensures slots[i].name in decls && decls[slots[i].name] == slots[i].count > 0
    {
      assert Found(slots, hash, i);
    }

    method Recount(i: nat, count: nat)
      requires Valid() && i < |slots| && slots[i].Used? && count > 0
      modifies `slots, `decls
      ensures Valid() && old(slots)[i].name in old(decls) && old(decls)[old(slots)[i].name] == old(slots)[i].count
      ensures decls == old(decls)[old(slots)[i].name := count] && Keys(slots) == Keys(old(slots))
      ensures slots == old(slots)[i := old(slots)[i].(count := count)]
    {
      RecountedOk(slots, hash, decls, size, deleted, i, count);
      decls := decls[slots[i].name := count];
      slots := slots[i := slots[i].(count := count)];
    }

    /** Free the slot if the next one is free, else leave a tombstone. */
    method Remove(i: nat)
      requires Valid() && i < |slots| && slots[i].Used?
      modifies `slots, `size, `deleted, `decls
      ensures Valid() && decls == old(decls) - {old(slots)[i].name} && |slots| == |old(slots)|
      ensures Dropped(old(slots), old(size), old(deleted), i, hash, slots, size, deleted)
    {
      var name, next := slots[i].name, (i + 1) % |slots|;
      if slots[next].Free? {
        RemovedOk(slots, hash, decls, size, deleted, i, Free);
        decls, size, slots := decls - {name}, size - 1, slots[i := Free];
        return;
      }
      RemovedOk(slots, hash, decls, size, deleted, i, Deleted);
      decls, size, deleted, slots := decls - {name}, size - 1, deleted + 1, slots[i := Deleted];
      if deleted > size && deleted > SMALL_TABLE_CAPACITY {
        Purge();
      }
    }

    /** Rid the table of its tombstones. */
    method Purge()
      requires Valid()
      modifies `slots, `deleted
      ensures Valid() && deleted == 0 && MovedInto(old(slots), |old(slots)|, hash, slots)
    {
      BusyCount(slots);
      var out := MoveTable(slots, |slots|, hash);
      MovedOk(slots, out, hash, decls, size, deleted);
      slots := out;
      deleted := 0;
    }

    /** Empty the table; one that was mostly free shrinks. */
    method Reset()
      requires Valid()
      modifies this
      ensures Valid() && decls == map[] && size == 0 && deleted == 0
      ensures var cap := |old(slots)|; var overhead := cap - old(size) - old(deleted);
        |slots| == if overhead < cap && cap > 16 && overhead * 4 > cap * 3 then cap / 2 else cap
    {
      if size == 0 && deleted == 0 {
        NoneUsed(slots, decls);
        return;
      }
      var cap, overhead := |slots|, 0;
      for i := 0 to |slots|
        invariant cap == |slots| && slots == old(slots) && overhead == Frees(slots[..i])
      {
        assert slots[..i + 1][..i] == slots[..i];
        if slots[i].Free? {
          overhead := overhead + 1;
        }
      }
      assert slots[..|slots|] == slots;
      FreeCount(slots);
      if cap > 16 && overhead * 4 > cap * 3 {
        cap := cap / 2;
      }
      slots, size, deleted, decls := seq(cap, _ => Free), 0, 0, map[];
      EmptyOk(slots, hash);
    }

    /** The declared names in the order of the slots. */
    method Names() returns (names: seq<string>)
      requires Valid()
      ensures names == S.Order(Keys(slots))
      ensures forall n :: n in names <==> n in decls
      ensures forall i, j :: 0 <= i < j < |names| ==> names[i] != names[j]
    {
      names := [];
      for i := 0 to |slots|
        invariant names == S.Order(Keys(slots)[..i])
      {
        S.OrderStep(Keys(slots), i);
        if slots[i].Used? {
          names := names + [slots[i].name];
        }
      }
      assert Keys(slots)[..|slots|] == Keys(slots);
      OrderListed(slots, |slots|);
      assert slots[..|slots|] == slots;
    }
  }

  /** The order of the slots lists each used name once. */
  lemma {:induction false} OrderListed(slots: seq<Slot>, k: nat)
    requires NoRepeats(slots) && k <= |slots|
    ensures var o := S.Order(Keys(slots)[..k]);
      && (forall n :: n in o <==> Listed(slots[..k], n))
      && forall i, j :: 0 <= i < j < |o| ==> o[i] != o[j]
    decreases k
  {
    if k > 0 {
      OrderListed(slots, k - 1);
      S.OrderStep(Keys(slots), k - 1);
      var x := slots[k - 1];
      forall n ensures Listed(slots[..k], n) <==> Listed(slots[..k - 1], n) || (x.Used? && x.name == n) {
        ListedStep(slots, k - 1, n);
      }
      assert x.Used? ==> x.name !in S.Order(Keys(slots)[..k - 1]);
    } else {
      assert Keys(slots)[..0] == [];
      forall n ensures !Listed(slots[..0], n) {
      }
    }
  }

  lemma {:induction false} ListedStep(slots: seq<Slot>, k: nat, n: string)
    requires k < |slots|
    ensures Listed(slots[..k + 1], n) <==> Listed(slots[..k], n) || (slots[k].Used? && slots[k].name == n)
  {
    if Listed(slots[..k], n) {
      var i :| 0 <= i < k && slots[..k][i].Used? && slots[..k][i].name == n;
      assert slots[..k + 1][i].name == n;
    }
    if slots[k].Used? && slots[k].name == n {
      assert slots[..k + 1][k].name == n;
    }
    if Listed(slots[..k + 1], n) {
      var i :| 0 <= i < k + 1 && slots[..k + 1][i].Used? && slots[..k + 1][i].name == n;
      assert i < k ==> slots[..k][i].name == n;
    }
  }

  /** One more insertion of a new name extends the layout of a run by it. */
  lemma {:induction false} RunExtends(names: seq<string>, name: string, hash: Hash)
    ensures S.Layout(names + [name], hash) == S.Insert(S.Layout(names, hash), name, hash)
  {
    assert (names + [name])[..|names|] == names;
  }

  /** Names inserted one by one into a new table: their slots, and the order they are listed in, are the replicas'. */
  method InsertRun(names: seq<string>, hash: Hash) returns (t: DeclTable, listed: seq<string>)
    requires forall i, j :: 0 <= i < j < |names| ==> names[i] != names[j]
    ensures fresh(t) && t.Valid() && t.hash == hash && Keys(t.slots) == S.Layout(names, hash)
    ensures forall n :: n in t.decls <==> n in names
    ensures forall n :: n in t.decls ==> t.decls[n] == 1
    ensures ListedAsReplicas(names, hash, listed)
  {
    t := new DeclTable(hash);
    var k := 0;
    while k < |names|
      invariant k <= |names| && fresh(t) && t.Valid() && t.hash == hash && t.deleted == 0
      invariant Keys(t.slots) == S.Layout(names[..k], hash) && RunCounts(names[..k], t.decls)
    {
      RunStep(names, k, hash, t.decls);
      t.Insert(names[k]);
      k := k + 1;
    }
    assert names[..|names|] == names;
    listed := t.Names();
    RunListed(names, hash);
  }

  ghost predicate RunCounts(names: seq<string>, decls: map<string, nat>) {
    (forall n :: n in decls <==> n in names) && (forall n :: n in decls ==> decls[n] == 1)
  }

  /** The names, each once, in the order of the slot layouts of their indices and of their hashes. */
  ghost predicate ListedAsReplicas(names: seq<string>, hash: Hash, listed: seq<string>) {
    && multiset(listed) == multiset(names)
    && listed == S.Mapped(NameAt(names), S.Order(S.Layout(S.Indices(|names|), S.HashAt(S.Mapped(hash, names)))))
    && S.Mapped(hash, listed) == S.Order(S.Layout(S.Mapped(hash, names), S.Itself))
  }

  function NameAt(names: seq<string>): nat -> string {
    (i: nat) => if i < |names| then names[i] else ""
  }

  lemma {:induction false} RunStep(names: seq<string>, k: nat, hash: Hash, decls: map<string, nat>)
    requires k < |names| && RunCounts(names[..k], decls) && forall i, j :: 0 <= i < j < |names| ==> names[i] != names[j]
    ensures names[k] !in decls && RunCounts(names[..k + 1], decls[names[k] := 1])
    ensures S.Layout(names[..k + 1], hash) == S.Insert(S.Layout(names[..k], hash), names[k], hash)
  {
    assert names[..k + 1] == names[..k] + [names[k]];
    RunExtends(names[..k], names[k], hash);
  }

  lemma {:induction false} RunListed(names: seq<string>, hash: Hash)
    ensures ListedAsReplicas(names, hash, S.Order(S.Layout(names, hash)))
  {
    S.LayoutPermutes(names, hash);
    S.ReplicasAgree(names, hash, S.Mapped(hash, names), NameAt(names));
    S.LayoutRenamed(hash, names, hash, S.Itself);
    S.OrderRenamed(hash, S.Layout(names, hash));
  }
}
