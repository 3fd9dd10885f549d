/** Union-find over character positions: each class may be pinned to a literal character. */
module CharClasses {
  import opened Options
  import opened WordEquations

  class Classes {
    var parent: seq<nat>
    /** The literal character the class of a representative is pinned to. */
    var pinned: seq<Option<Char>>
    /** The representative of each position, and a rank that grows along `parent`. */
    ghost var root: seq<nat>
    ghost var rank: seq<nat>
    ghost var top: nat

    ghost predicate Valid()
      reads this
    {
      |pinned| == |parent| && Forest(parent, root, rank, top)
    }

    constructor (n: nat)
      ensures Valid() && root == seq(n, i => i) && pinned == seq(n, _ => None)
    {
      parent := seq(n, i => i);
      pinned := seq(n, _ => None);
      root := seq(n, i => i);
      rank := seq(n, _ => 0);
      top := 0;
      new;
      assert forall i :: 0 <= i < n ==> NodeOk(parent, root, rank, top, i);
    }

    /** The representative of `x`, halving the path to it. */
    method Find(x: nat) returns (r: nat)
      requires Valid() && x < |parent|
      modifies this`parent
      ensures Valid() && r == root[x]
    {
      r := x;
      while parent[r] != r
        invariant Valid() && r < |parent| && root[r] == root[x]
        decreases top - rank[r]
      {
        Halved(parent, root, rank, top, r);
        parent := parent[r := parent[parent[r]]];
        r := parent[r];
      }
      assert NodeOk(parent, root, rank, top, r);
    }

    /** Make `x` the representative of the class of `y` too. */
    method Join(x: nat, y: nat)
      requires Valid() && x < |parent| && y < |parent| && root[x] == x && root[y] == y && x != y
      modifies this`parent, this`root, this`rank, this`top
      ensures Valid()
      ensures root == Joined(old(root), x, y)
    {
      Linked(parent, root, rank, top, x, y);
      parent := parent[y := x];
      root := Joined(root, x, y);
      rank := rank[x := if rank[x] > rank[y] then rank[x] else rank[y] + 1];
      top := top + 1;
    }

    /** Make two cells hold the same character; false when they cannot. */
    method Equate(a: Cell, b: Cell) returns (ok: bool)
      requires Valid() && Inside(a, |parent|) && Inside(b, |parent|)
      modifies this
      ensures Valid() && |parent| == |old(parent)|
      ensures ok ==> Narrowed(old(root), old(pinned), root, pinned, a, b)
      ensures !ok ==> Conflict(old(root), old(pinned), a, b)
      ensures forall o :: o in pinned && o.Some? ==> o in old(pinned) || a == Ch(o.value) || b == Ch(o.value)
    {
      match (a, b)
      case (Pos(i), Pos(k)) =>
        ok := EquatePositions(i, k);
      case (Pos(i), Ch(c)) =>
        ok := Pin(i, c);
      case (Ch(c), Pos(i)) =>
        ok := Pin(i, c);
      case (Ch(c), Ch(d)) =>
        ok := c == d;
    }

    method EquatePositions(i: nat, k: nat) returns (ok: bool)
      requires Valid() && i < |parent| && k < |parent|
      modifies this
      ensures Valid() && |parent| == |old(parent)|
      ensures ok ==> Narrowed(old(root), old(pinned), root, pinned, Pos(i), Pos(k))
      ensures !ok ==> Conflict(old(root), old(pinned), Pos(i), Pos(k))
      ensures forall o :: o in pinned ==> o in old(pinned)
    {
      var x := Find(i);
      var y := Find(k);
      assert NodeOk(parent, root, rank, top, i) && NodeOk(parent, root, rank, top, k);
      if x == y {
        return true;
      }
      if pinned[x].Some? && pinned[y].Some? && pinned[x] != pinned[y] {
        return false;
      }
      ghost var pinned0 := pinned;
      if pinned[x].None? && pinned[y].Some? {
        pinned := pinned[x := pinned[y]];
      }
      ghost var root0 := root;
      forall j | 0 <= j < |root| ensures root[j] < |root| && root[root[j]] == root[j] {
        assert NodeOk(parent, root, rank, top, j);
      }
      Join(x, y);
      forall u: Word
        ensures Consistent(root, pinned, u) <==> Consistent(root0, pinned0, u) && SameValue(Pos(i), Pos(k), u)
      {
        JoinedConsistent(root0, pinned0, pinned, x, y, i, k, u);
      }
      return true;
    }

    method Pin(i: nat, c: Char) returns (ok: bool)
      requires Valid() && i < |parent|
      modifies this
      ensures Valid() && |parent| == |old(parent)|
      ensures ok ==> Narrowed(old(root), old(pinned), root, pinned, Pos(i), Ch(c))
      ensures ok ==> Narrowed(old(root), old(pinned), root, pinned, Ch(c), Pos(i))
      ensures !ok ==> Conflict(old(root), old(pinned), Pos(i), Ch(c))
      ensures !ok ==> Conflict(old(root), old(pinned), Ch(c), Pos(i))
      ensures forall o :: o in pinned ==> o in old(pinned) || o == Some(c)
    {
      var x := Find(i);
      assert NodeOk(parent, root, rank, top, i);
      if pinned[x].Some? && pinned[x].value != c {
        return false;
      }
      pinned := pinned[x := Some(c)];
      forall u: Word ensures Consistent(root, pinned, u) <==> Consistent(root, old(pinned), u) && SameValue(Pos(i), Ch(c), u) {
        PinnedConsistent(root, old(pinned), x, i, c, u);
      }
      return true;
    }

    /** Do all consistent words have the same character in both cells? */
    method Forced(a: Cell, b: Cell) returns (same: bool)
      requires Valid() && Inside(a, |parent|) && Inside(b, |parent|)
      modifies this`parent
      ensures Valid() && |parent| == |old(parent)|
      ensures same ==> forall u: Word :: Consistent(root, pinned, u) ==> SameValue(a, b, u)
      ensures !same ==> forall used: set<Char>, u: Word ::
        Generic(root, pinned, used, u) && LiteralIn(a, used) && LiteralIn(b, used) ==> !SameValue(a, b, u)
    {
      match (a, b)
      case (Pos(i), Pos(k)) =>
        var x := Find(i);
        var y := Find(k);
        assert NodeOk(parent, root, rank, top, i) && NodeOk(parent, root, rank, top, k);
        same := x == y || (pinned[x].Some? && pinned[x] == pinned[y]);
      case (Pos(i), Ch(c)) =>
        same := IsPinned(i, c);
      case (Ch(c), Pos(i)) =>
        same := IsPinned(i, c);
      case (Ch(c), Ch(d)) =>
        same := c == d;
    }

    method IsPinned(i: nat, c: Char) returns (same: bool)
      requires Valid() && i < |parent|
      modifies this`parent
      ensures Valid() && |parent| == |old(parent)|
      ensures same ==> forall u: Word :: Consistent(root, pinned, u) ==> i < |u| && u[i] == c
      ensures !same ==> forall used: set<Char>, u: Word ::
        Generic(root, pinned, used, u) && c in used ==> i < |u| && u[i] != c
    {
      var x := Find(i);
      assert NodeOk(parent, root, rank, top, i);
      same := pinned[x] == Some(c);
    }
  }

  /** A literal cell holds one of the characters in use. */
  ghost predicate LiteralIn(c: Cell, used: set<Char>) {
    c.Ch? ==> c.c in used
  }

  /** A consistent word that keeps apart everything not forced together. */
  ghost predicate Generic(root: seq<nat>, pinned: seq<Option<Char>>, used: set<Char>, u: Word) {
    && Consistent(root, pinned, u)
    && (forall i, k :: 0 <= i < |root| && 0 <= k < |root| && root[i] == i && root[k] == k && i != k && u[i] == u[k] ==>
          pinned[i].Some? && pinned[i] == pinned[k])
    && (forall i :: 0 <= i < |root| && root[i] == i && pinned[i].None? ==> u[i] !in used)
  }

  /** Does the cell lie among `n` positions? */
  predicate Inside(c: Cell, n: nat) {
    c.Pos? ==> c.i < n
  }

  ghost predicate SameValue(a: Cell, b: Cell, u: Word) {
    CellValue(a, u) == CellValue(b, u)
  }

  /** The words consistent with the second state are those of the first in which the cells agree. */
  ghost predicate Narrowed(root: seq<nat>, pinned: seq<Option<Char>>, root': seq<nat>, pinned': seq<Option<Char>>,
                           a: Cell, b: Cell) {
    forall u: Word :: Consistent(root', pinned', u) <==> Consistent(root, pinned, u) && SameValue(a, b, u)
  }

  /** No word consistent with the state has the same character in both cells. */
  ghost predicate Conflict(root: seq<nat>, pinned: seq<Option<Char>>, a: Cell, b: Cell) {
    forall u: Word :: Consistent(root, pinned, u) ==> !SameValue(a, b, u)
  }

  ghost predicate NodeOk(parent: seq<nat>, root: seq<nat>, rank: seq<nat>, top: nat, i: nat)
    requires |parent| == |root| == |rank| && i < |parent|
  {
    && parent[i] < |parent| && root[i] < |parent|
    && root[parent[i]] == root[i] && root[root[i]] == root[i]
    && (parent[i] == i <==> root[i] == i)
    && (parent[i] != i ==> rank[i] < rank[parent[i]])
    && rank[i] <= top
  }

  /** `parent` is a forest whose trees are the classes of `root`. */
  ghost predicate Forest(parent: seq<nat>, root: seq<nat>, rank: seq<nat>, top: nat) {
    |parent| == |root| == |rank| && forall i :: 0 <= i < |parent| ==> NodeOk(parent, root, rank, top, i)
  }

  lemma {:induction false} Halved(parent: seq<nat>, root: seq<nat>, rank: seq<nat>, top: nat, r: nat)
    requires Forest(parent, root, rank, top) && r < |parent| && parent[r] != r
    ensures parent[r] < |parent|
    ensures var p := parent[parent[r]];
      Forest(parent[r := p], root, rank, top) && p < |parent| && root[p] == root[r] && rank[r] < rank[p] <= top
  {
    assert NodeOk(parent, root, rank, top, r);
    var q := parent[r];
    assert NodeOk(parent, root, rank, top, q);
    var p := parent[q];
    assert NodeOk(parent, root, rank, top, p);
    var parent' := parent[r := p];
    forall i | 0 <= i < |parent| ensures NodeOk(parent', root, rank, top, i) {
      assert NodeOk(parent, root, rank, top, i);
    }
  }

  lemma {:induction false} Linked(parent: seq<nat>, root: seq<nat>, rank: seq<nat>, top: nat, x: nat, y: nat)
    requires Forest(parent, root, rank, top) && x < |parent| && y < |parent|
    requires root[x] == x && root[y] == y && x != y
    ensures Forest(parent[y := x], Joined(root, x, y), rank[x := if rank[x] > rank[y] then rank[x] else rank[y] + 1], top + 1)
  {
    var parent', root' := parent[y := x], Joined(root, x, y);
    var rank' := rank[x := if rank[x] > rank[y] then rank[x] else rank[y] + 1];
    var top' := top + 1;
    assert NodeOk(parent, root, rank, top, x) && NodeOk(parent, root, rank, top, y);
    forall i | 0 <= i < |parent| ensures NodeOk(parent', root', rank', top', i) {
      assert NodeOk(parent, root, rank, top, i);
      assert NodeOk(parent, root, rank, top, root[i]);
    }
  }

  function Joined(root: seq<nat>, x: nat, y: nat): seq<nat> {
    seq(|root|, i requires 0 <= i < |root| => if root[i] == y then x else root[i])
  }

  /** `u` gives each class one character, the pinned one if there is one. */
  ghost predicate Consistent(root: seq<nat>, pinned: seq<Option<Char>>, u: Word) {
    && |u| == |root| == |pinned|
    && (forall i :: 0 <= i < |root| ==> root[i] < |root| && u[i] == u[root[i]])
    && (forall i :: 0 <= i < |root| && root[i] == i && pinned[i].Some? ==> u[i] == pinned[i].value)
  }

  /** Joining two classes leaves the words in which they have the same character. */
  lemma {:induction false} JoinedConsistent(root: seq<nat>, pinned: seq<Option<Char>>, pinned': seq<Option<Char>>, x: nat, y: nat,
                         i: nat, k: nat, u: Word)
    requires |pinned| == |root| && x < |root| && y < |root| && i < |root| && k < |root|
    requires root[x] == x && root[y] == y && x != y && root[i] == x && root[k] == y
    requires forall j :: 0 <= j < |root| ==> root[j] < |root| && root[root[j]] == root[j]
    requires pinned[x].Some? && pinned[y].Some? ==> pinned[x] == pinned[y]
    requires pinned' == if pinned[x].None? && pinned[y].Some? then pinned[x := pinned[y]] else pinned
    ensures Consistent(Joined(root, x, y), pinned', u) <==> Consistent(root, pinned, u) && SameValue(Pos(i), Pos(k), u)
  {
    var root' := Joined(root, x, y);
    if Consistent(root', pinned', u) {
      assert u[y] == u[root'[y]] == u[x];
      forall j | 0 <= j < |root| ensures u[j] == u[root[j]] {
        assert u[j] == u[root'[j]];
      }
      forall j | 0 <= j < |root| && root[j] == j && pinned[j].Some? ensures u[j] == pinned[j].value {
        assert j != y ==> root'[j] == j;
        assert root'[x] == x;
      }
      assert u[i] == u[root'[i]] && u[k] == u[root'[k]];
    }
    if Consistent(root, pinned, u) && SameValue(Pos(i), Pos(k), u) {
      assert u[x] == u[i] == u[k] == u[y];
      forall j | 0 <= j < |root| ensures root'[j] < |root| && u[j] == u[root'[j]] {
        assert u[j] == u[root[j]];
      }
      forall j | 0 <= j < |root| && root'[j] == j && pinned'[j].Some? ensures u[j] == pinned'[j].value {
        assert root[j] == j;
      }
    }
  }

  lemma {:induction false} PinnedConsistent(root: seq<nat>, pinned: seq<Option<Char>>, x: nat, i: nat, c: Char, u: Word)
    requires |pinned| == |root| && x < |root| && i < |root| && root[i] == x && root[x] == x
    requires pinned[x].Some? ==> pinned[x].value == c
    ensures Consistent(root, pinned[x := Some(c)], u) <==> Consistent(root, pinned, u) && SameValue(Pos(i), Ch(c), u)
  {
    var pinned' := pinned[x := Some(c)];
    if Consistent(root, pinned', u) {
      forall j | 0 <= j < |root| && root[j] == j && pinned[j].Some? ensures u[j] == pinned[j].value {
        assert pinned'[j] == pinned[j];
      }
      assert u[i] == u[root[i]];
    }
    if Consistent(root, pinned, u) && SameValue(Pos(i), Ch(c), u) {
      assert u[i] == u[root[i]];
    }
  }
}
