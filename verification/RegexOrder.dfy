/** Right-nested unions and intersections whose arms ascend by id, a complement counting as what it complements. */
module RegexOrder {
  import opened RegexTerms
  import opened RegexArena

  function KeyOf(nodes: seq<Node>, x: Id): Id {
    if x < |nodes| && nodes[x].IsUn(CompOp) then nodes[x].a else x
  }

  function SetOp(union: bool): BinOp {
    if union then UnionOp else InterOp
  }

  /** The arms of a right-nested set. */
  function Spine(nodes: seq<Node>, op: BinOp, t: Id): (s: seq<Id>)
    ensures s != []
    decreases t
  {
    if t < |nodes| && nodes[t].IsBin(op) && nodes[t].b < t then [nodes[t].a] + Spine(nodes, op, nodes[t].b) else [t]
  }

  /** The arms are no sets themselves, and their keys ascend. */
  ghost predicate Ascending(nodes: seq<Node>, op: BinOp, s: seq<Id>) {
    && (forall i :: 0 <= i < |s| ==> IsArm(nodes, op, s[i]))
    && (forall i, j :: 0 <= i < j < |s| ==> KeyOf(nodes, s[i]) < KeyOf(nodes, s[j]))
  }

  ghost predicate IsArm(nodes: seq<Node>, op: BinOp, x: Id) {
    x < |nodes| && !nodes[x].IsBin(op)
  }

  /** The set is sorted. */
  ghost predicate SortedSet(nodes: seq<Node>, op: BinOp, t: Id) {
    Ascending(nodes, op, Spine(nodes, op, t))
  }

  lemma {:induction false} SpineKept(nodes: seq<Node>, nodes': seq<Node>, op: BinOp, t: Id)
    requires nodes <= nodes' && t < |nodes|
    ensures Spine(nodes', op, t) == Spine(nodes, op, t)
    decreases t
  {
    assert nodes'[t] == nodes[t];
    if nodes[t].IsBin(op) && nodes[t].b < t {
      SpineKept(nodes, nodes', op, nodes[t].b);
    }
  }

  lemma {:induction false} AscendingKept(nodes: seq<Node>, nodes': seq<Node>, op: BinOp, s: seq<Id>)
    requires nodes <= nodes' && Ascending(nodes, op, s)
    ensures Ascending(nodes', op, s)
  {
    forall i | 0 <= i < |s| ensures IsArm(nodes', op, s[i]) && KeyOf(nodes', s[i]) == KeyOf(nodes, s[i]) {
      assert IsArm(nodes, op, s[i]) && nodes'[s[i]] == nodes[s[i]];
    }
  }

  lemma {:induction false} SortedKept(nodes: seq<Node>, nodes': seq<Node>, op: BinOp, t: Id)
    requires nodes <= nodes' && t < |nodes| && SortedSet(nodes, op, t)
    ensures SortedSet(nodes', op, t)
  {
    SpineKept(nodes, nodes', op, t);
    AscendingKept(nodes, nodes', op, Spine(nodes, op, t));
  }

  lemma {:induction false} ArmSorted(nodes: seq<Node>, op: BinOp, t: Id)
    requires IsArm(nodes, op, t)
    ensures SortedSet(nodes, op, t)
  {
  }

  /** Different arms that do not complement each other have different keys. */
  lemma {:induction false} KeysDiffer(nodes: seq<Node>, index: map<Node, Id>, trees: seq<Regex>, x: Id, y: Id)
    requires ArenaOk(nodes, index, trees) && x < |nodes| && y < |nodes| && x != y
    requires nodes[x] != Un(CompOp, y) && nodes[y] != Un(CompOp, x)
    ensures KeyOf(nodes, x) != KeyOf(nodes, y)
  {
    assert Indexed(nodes, index, x) && Indexed(nodes, index, y);
  }

  /** Leaving out what is between keeps the rest ascending. */
  lemma {:induction false} LeaveOut(nodes: seq<Node>, op: BinOp, a: seq<Id>, b: seq<Id>, c: seq<Id>)
    requires Ascending(nodes, op, a + b + c)
    ensures Ascending(nodes, op, a + c) && Ascending(nodes, op, a + b)
  {
    var all := a + b + c;
    forall i | 0 <= i < |a + c| ensures (a + c)[i] == all[if i < |a| then i else i + |b|] {
    }
    forall i | 0 <= i < |a + b| ensures (a + b)[i] == all[i] {
    }
  }

  /** What is less than the first of the rest goes before it. */
  lemma {:induction false} PutBefore(nodes: seq<Node>, op: BinOp, prefix: seq<Id>, x: Id, rest: seq<Id>)
    requires Ascending(nodes, op, prefix + [x]) && Ascending(nodes, op, prefix + rest)
    requires rest != [] && KeyOf(nodes, x) < KeyOf(nodes, rest[0])
    ensures Ascending(nodes, op, prefix + [x] + rest)
  {
    var n, all := |prefix|, prefix + [x] + rest;
    forall i | 0 <= i < |all| ensures IsArm(nodes, op, all[i]) {
      assert all[i] == if i <= n then (prefix + [x])[i] else (prefix + rest)[i - 1];
    }
    forall i, j | 0 <= i < j < |all| ensures KeyOf(nodes, all[i]) < KeyOf(nodes, all[j]) {
      assert (prefix + rest)[n] == rest[0] && (prefix + [x])[n] == x;
      assert all[j] == if j <= n then (prefix + [x])[j] else (prefix + rest)[j - 1];
      assert all[i] == if i <= n then (prefix + [x])[i] else (prefix + rest)[i - 1];
    }
  }

  // ----- merging two sets -----

  /** Both sets may follow the prefix. */
  ghost predicate InLine(nodes: seq<Node>, op: BinOp, prefix: seq<Id>, x: Id, y: Id) {
    Ascending(nodes, op, prefix + Spine(nodes, op, x)) && Ascending(nodes, op, prefix + Spine(nodes, op, y))
  }

  function Head(nodes: seq<Node>, op: BinOp, t: Id): Id {
    Spine(nodes, op, t)[0]
  }

  /** The lesser head moves to the prefix. */
  lemma {:induction false} LineMore(nodes: seq<Node>, op: BinOp, prefix: seq<Id>, x: Id, y: Id)
    requires InLine(nodes, op, prefix, x, y) && x < |nodes| && nodes[x].IsBin(op) && nodes[x].b < x
    requires KeyOf(nodes, nodes[x].a) < KeyOf(nodes, Head(nodes, op, y))
    ensures InLine(nodes, op, prefix + [nodes[x].a], nodes[x].b, y)
  {
    var a, rest := nodes[x].a, Spine(nodes, op, nodes[x].b);
    assert prefix + Spine(nodes, op, x) == prefix + [a] + rest;
    LeaveOut(nodes, op, prefix, [a], rest);
    PutBefore(nodes, op, prefix, a, Spine(nodes, op, y));
  }

  /** Equal heads move to the prefix as one. */
  lemma {:induction false} LineBoth(nodes: seq<Node>, op: BinOp, prefix: seq<Id>, x: Id, y: Id)
    requires InLine(nodes, op, prefix, x, y) && x < |nodes| && nodes[x].IsBin(op) && nodes[x].b < x
    requires y < |nodes| && nodes[y].IsBin(op) && nodes[y].b < y && nodes[x].a == nodes[y].a
    ensures InLine(nodes, op, prefix + [nodes[x].a], nodes[x].b, nodes[y].b)
  {
    var a := nodes[x].a;
    assert prefix + Spine(nodes, op, x) == prefix + [a] + Spine(nodes, op, nodes[x].b);
    assert prefix + Spine(nodes, op, y) == prefix + [a] + Spine(nodes, op, nodes[y].b);
  }

  /** A last arm less than the other set's head goes before it. */
  lemma {:induction false} LineLast(nodes: seq<Node>, op: BinOp, prefix: seq<Id>, x: Id, y: Id)
    requires InLine(nodes, op, prefix, x, y) && y < |nodes| && !nodes[y].IsBin(op)
    requires KeyOf(nodes, y) < KeyOf(nodes, Head(nodes, op, x))
    ensures InLine(nodes, op, prefix + [y], x, x)
  {
    PutBefore(nodes, op, prefix, y, Spine(nodes, op, x));
  }

  /** Putting the last arm of the prefix back, or leaving either side out, keeps the line. */
  lemma {:induction false} LinePop(nodes: seq<Node>, op: BinOp, prefix: seq<Id>, p: Id, t: Id, nodes': seq<Node>, r: Id)
    requires Ascending(nodes, op, prefix + [p] + Spine(nodes, op, t)) && p < |nodes| && t < |nodes| && nodes <= nodes'
    requires r == p || r == t || (r < |nodes'| && nodes'[r] == Bin(op, p, t) && t < r)
    ensures Ascending(nodes', op, prefix + Spine(nodes', op, r))
  {
    var rest := Spine(nodes, op, t);
    LeaveOut(nodes, op, prefix, [p], rest);
    assert (prefix + [p] + rest)[|prefix|] == p && IsArm(nodes, op, p);
    SpineKept(nodes, nodes', op, t);
    SpineKept(nodes, nodes', op, p);
    AscendingKept(nodes, nodes', op, prefix + [p] + rest);
    AscendingKept(nodes, nodes', op, prefix + rest);
    AscendingKept(nodes, nodes', op, prefix + [p]);
    if r != p && r != t {
      assert prefix + Spine(nodes', op, r) == prefix + [p] + rest;
    }
  }

  // ----- sorting nodes -----

  lemma {:induction false} OnceEach(s: seq<Id>, x: Id)
    requires forall i, j :: 0 <= i < j < |s| ==> s[i] != s[j]
    ensures multiset(s)[x] <= 1
  {
    if s != [] {
      var n := |s| - 1;
      assert s == s[..n] + [s[n]];
      OnceEach(s[..n], x);
      if x == s[n] {
        assert x !in s[..n];
      }
    }
  }

  lemma {:induction false} TwiceThere(s: seq<Id>, i: nat, j: nat)
    requires i < j < |s| && s[i] == s[j]
    ensures multiset(s)[s[i]] > 1
  {
    assert s == s[..j] + s[j..];
    assert s[..j][i] in multiset(s[..j]) && s[j..][0] in multiset(s[j..]);
  }

  /** Different leaves in the order of their ids ascend. */
  lemma {:induction false} LeavesAscend(nodes: seq<Node>, op: BinOp, rs: seq<Id>, sorted: seq<Id>)
    requires InOrder(sorted) && multiset(sorted) == multiset(rs)
    requires forall i, j :: 0 <= i < j < |rs| ==> rs[i] != rs[j]
    requires forall i :: 0 <= i < |rs| ==> rs[i] < |nodes| && nodes[rs[i]].Leaf?
    ensures Ascending(nodes, op, sorted)
  {
    forall i | 0 <= i < |sorted| ensures IsArm(nodes, op, sorted[i]) && KeyOf(nodes, sorted[i]) == sorted[i] {
      assert sorted[i] in multiset(sorted);
      assert sorted[i] in multiset(rs);
      assert sorted[i] in rs;
    }
    forall i, j | 0 <= i < j < |sorted| ensures sorted[i] < sorted[j] {
      if sorted[i] == sorted[j] {
        TwiceThere(sorted, i, j);
        OnceEach(rs, sorted[i]);
      }
    }
  }
}
