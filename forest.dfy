/** The parent-pointer forest behind the union-find structure, as values.

    `parent[i]` is the parent of element `i`; a root is its own parent. `rank` is a
    proof device only: it strictly increases from every non-root to its parent, which
    makes the forest acyclic and gives every walk to the root a termination measure. */
module Forest {

  /** `parent` is a forest over the elements [0, |parent|), ranked by `rank`. */
  predicate Ranked(parent: seq<int>, rank: seq<nat>) {
    && |rank| == |parent|
    && (forall i :: 0 <= i < |parent| ==> 0 <= parent[i] < |parent|)
    && (forall i :: 0 <= i < |parent| && parent[i] != i ==> rank[i] < rank[parent[i]])
  }

  /** An upper bound on every rank. */
  function MaxRank(rank: seq<nat>): (m: nat)
    ensures forall i :: 0 <= i < |rank| ==> rank[i] <= m
  {
    if |rank| == 0 then 0
    else
      var rest := MaxRank(rank[1..]);
      assert forall i :: 1 <= i < |rank| ==> rank[i] == rank[1..][i - 1];
      if rank[0] < rest then rest else rank[0]
  }

  /** The root reached by following `parent` from `a`. */
  function Find(parent: seq<int>, rank: seq<nat>, a: int): (r: int)
    requires Ranked(parent, rank) && 0 <= a < |parent|
    ensures 0 <= r < |parent| && parent[r] == r
    ensures rank[a] <= rank[r]
    decreases MaxRank(rank) - rank[a]
  {
    if parent[a] == a then a else Find(parent, rank, parent[a])
  }

  /** `x` lies on the walk from `a` to its root (both ends included). */
  predicate OnPath(parent: seq<int>, rank: seq<nat>, a: int, x: int)
    requires Ranked(parent, rank) && 0 <= a < |parent|
    decreases MaxRank(rank) - rank[a]
  {
    x == a || (parent[a] != a && OnPath(parent, rank, parent[a], x))
  }

  /** The two elements are in the same set. */
  predicate SameSet(parent: seq<int>, rank: seq<nat>, x: int, y: int)
    requires Ranked(parent, rank) && 0 <= x < |parent| && 0 <= y < |parent|
  {
    Find(parent, rank, x) == Find(parent, rank, y)
  }

  /** The forest of `n` singleton sets. */
  function Singletons(n: nat): seq<int>
  {
    seq(n, i => i)
  }

  lemma SingletonsAreApart(n: nat, rank: seq<nat>, x: int, y: int)
    requires |rank| == n && 0 <= x < n && 0 <= y < n
    ensures Ranked(Singletons(n), rank)
    ensures Find(Singletons(n), rank, x) == x
    ensures SameSet(Singletons(n), rank, x, y) <==> x == y
  {
  }

  // ---------------------------------------------------------------------------
  // Path halving

  /** One halving step at `a`: its parent pointer is replaced by its grandparent.
      Every element keeps its root and the ranking stays valid. */
  lemma {:induction false} ShortcutKeepsRoots(parent: seq<int>, rank: seq<nat>, a: int, x: int)
    requires Ranked(parent, rank) && 0 <= a < |parent| && 0 <= x < |parent|
    ensures Ranked(parent[a := parent[parent[a]]], rank)
    ensures Find(parent[a := parent[parent[a]]], rank, x) == Find(parent, rank, x)
    decreases MaxRank(rank) - rank[x]
  {
    var next := parent[a := parent[parent[a]]];
    assert Ranked(next, rank) by {
      forall i | 0 <= i < |next| && next[i] != i
        ensures rank[i] < rank[next[i]]
      {
        if i == a {
          assert parent[parent[a]] == parent[a] || rank[parent[a]] < rank[parent[parent[a]]];
        }
      }
    }
    if parent[x] == x {
      if x == a {
        assert next == parent;
      }
    } else if x == a {
      var gp := parent[parent[a]];
      ShortcutKeepsRoots(parent, rank, a, gp);
      assert Find(parent, rank, parent[a]) == Find(parent, rank, gp);
    } else {
      ShortcutKeepsRoots(parent, rank, a, parent[x]);
    }
  }

  /** Path halving from `a`, as `Root` performs it: point `a` at its grandparent, then
      continue from that grandparent, until a root is reached. The walk visits every
      other element of the path; the forest it leaves has the same root everywhere. */
  function Halve(parent: seq<int>, rank: seq<nat>, a: int): (r: seq<int>)
    requires Ranked(parent, rank) && 0 <= a < |parent|
    ensures Ranked(r, rank)
    ensures forall x :: 0 <= x < |parent| ==> Find(r, rank, x) == Find(parent, rank, x)
    decreases MaxRank(rank) - rank[a]
  {
    if parent[a] == a then parent
    else
      var next := parent[a := parent[parent[a]]];
      assert Ranked(next, rank) by {
        ShortcutKeepsRoots(parent, rank, a, a);
      }
      assert forall x :: 0 <= x < |parent| ==> Find(next, rank, x) == Find(parent, rank, x) by {
        forall x | 0 <= x < |parent|
          ensures Find(next, rank, x) == Find(parent, rank, x)
        {
          ShortcutKeepsRoots(parent, rank, a, x);
        }
      }
      Halve(next, rank, next[a])
  }

  /** Path halving from a root changes nothing, so a second walk from the root the
      first walk returned finds that same root and leaves the halved forest as it is. */
  lemma RootIsFixedPoint(parent: seq<int>, rank: seq<nat>, a: int)
    requires Ranked(parent, rank) && 0 <= a < |parent|
    ensures var halved, r := Halve(parent, rank, a), Find(parent, rank, a);
      && Find(halved, rank, r) == r
      && Halve(halved, rank, r) == halved
  {
  }

  lemma {:induction false} OnPathRank(parent: seq<int>, rank: seq<nat>, a: int, x: int)
    requires Ranked(parent, rank) && 0 <= a < |parent| && OnPath(parent, rank, a, x)
    ensures 0 <= x < |parent| && rank[a] <= rank[x]
    decreases MaxRank(rank) - rank[a]
  {
    if x != a {
      OnPathRank(parent, rank, parent[a], x);
    }
  }

  /** A walk that starts above `a` sees the same path whether or not `a` was shortcut. */
  lemma {:induction false} OnPathAboveShortcut(parent: seq<int>, rank: seq<nat>, a: int, b: int, x: int)
    requires Ranked(parent, rank) && 0 <= a < |parent| && 0 <= b < |parent|
    requires Ranked(parent[a := parent[parent[a]]], rank) && rank[a] < rank[b]
    requires OnPath(parent[a := parent[parent[a]]], rank, b, x)
    ensures OnPath(parent, rank, b, x)
    decreases MaxRank(rank) - rank[b]
  {
    var next := parent[a := parent[parent[a]]];
    if x != b {
      OnPathAboveShortcut(parent, rank, a, next[b], x);
    }
  }

  /** Halving from `a` writes only elements on the path from `a`, each to its old
      grandparent, and `a` itself is always pointed at its grandparent. */
  lemma {:induction false} HalveWritesGrandparents(parent: seq<int>, rank: seq<nat>, a: int, x: int)
    requires Ranked(parent, rank) && 0 <= a < |parent| && 0 <= x < |parent|
    ensures var r := Halve(parent, rank, a);
      && r[a] == parent[parent[a]]
      && (r[x] == parent[x] || (OnPath(parent, rank, a, x) && r[x] == parent[parent[x]]))
    decreases MaxRank(rank) - rank[a]
  {
    if parent[a] != a {
      var gp := parent[parent[a]];
      var next := parent[a := gp];
      ShortcutKeepsRoots(parent, rank, a, a);
      assert rank[a] < rank[gp] by {
        assert gp == parent[a] || rank[parent[a]] < rank[gp];
      }
      var r := Halve(next, rank, gp);
      assert r == Halve(parent, rank, a);
      HalveWritesGrandparents(next, rank, gp, x);
      HalveWritesGrandparents(next, rank, gp, a);
      if OnPath(next, rank, gp, a) {
        OnPathRank(next, rank, gp, a);
        assert false;
      }
      if r[x] != next[x] {
        assert OnPath(next, rank, gp, x) && r[x] == next[next[x]];
        OnPathRank(next, rank, gp, x);
        OnPathAboveShortcut(parent, rank, a, gp, x);
        assert OnPath(parent, rank, parent[a], x) by {
          if gp != parent[a] {
            assert parent[parent[a]] != parent[a];
          }
        }
        assert x != a && parent[x] != a;
      }
    }
  }

  // ---------------------------------------------------------------------------
  // Linking two roots

  /** The rank update that goes with pointing root `child` at root `root`. */
  function Lift(rank: seq<nat>, child: int, root: int): (r: seq<nat>)
    requires 0 <= child < |rank| && 0 <= root < |rank|
    ensures |r| == |rank| && r[root] > rank[child] && r[root] >= rank[root]
    ensures forall i :: 0 <= i < |rank| && i != root ==> r[i] == rank[i]
  {
    rank[root := if rank[root] <= rank[child] then rank[child] + 1 else rank[root]]
  }

  /** Pointing root `child` at root `root` moves exactly the set of `child` into the set
      of `root`; every other element keeps its root. */
  lemma {:induction false} LinkMovesOneSet(parent: seq<int>, rank: seq<nat>, child: int, root: int, x: int)
    requires Ranked(parent, rank) && 0 <= child < |parent| && 0 <= root < |parent|
    requires parent[child] == child && parent[root] == root && 0 <= x < |parent|
    ensures Ranked(parent[child := root], Lift(rank, child, root))
    ensures Find(parent[child := root], Lift(rank, child, root), x)
         == if Find(parent, rank, x) == child then root else Find(parent, rank, x)
    decreases MaxRank(rank) - rank[x]
  {
    var linked, lifted := parent[child := root], Lift(rank, child, root);
    assert Ranked(linked, lifted) by {
      forall i | 0 <= i < |linked| && linked[i] != i
        ensures lifted[i] < lifted[linked[i]]
      {
        if i != child {
          assert linked[i] == parent[i];
        }
      }
    }
    if parent[x] != x {
      LinkMovesOneSet(parent, rank, child, root, parent[x]);
    }
  }

  /** After linking, two elements are in the same set iff they were before, or one was
      in the set of `child` and the other in the set of `root`. */
  lemma LinkJoinsSets(parent: seq<int>, rank: seq<nat>, child: int, root: int, x: int, y: int)
    requires Ranked(parent, rank) && 0 <= child < |parent| && 0 <= root < |parent|
    requires parent[child] == child && parent[root] == root
    requires 0 <= x < |parent| && 0 <= y < |parent|
    ensures Ranked(parent[child := root], Lift(rank, child, root))
    ensures SameSet(parent[child := root], Lift(rank, child, root), x, y)
        <==> || SameSet(parent, rank, x, y)
             || (SameSet(parent, rank, x, child) && SameSet(parent, rank, y, root))
             || (SameSet(parent, rank, x, root) && SameSet(parent, rank, y, child))
  {
    LinkMovesOneSet(parent, rank, child, root, x);
    LinkMovesOneSet(parent, rank, child, root, y);
    LinkMovesOneSet(parent, rank, child, root, child);
    LinkMovesOneSet(parent, rank, child, root, root);
  }
}
