/** What `size[]` is meant to hold: the number of elements in each root's set. */
module Sizes {
  import opened Forest
  import Int32

  /** The elements whose root is `r`. */
  function Members(parent: seq<int>, rank: seq<nat>, r: int): set<int>
    requires Ranked(parent, rank)
  {
    set x | 0 <= x < |parent| && Find(parent, rank, x) == r
  }

  /** At every root, `size` holds the number of elements of that root's set. */
  predicate SizesCount(parent: seq<int>, rank: seq<nat>, size: seq<int>)
    requires Ranked(parent, rank)
  {
    && |size| == |parent|
    && forall r :: 0 <= r < |parent| && parent[r] == r ==> size[r] == |Members(parent, rank, r)|
  }

  /** The elements [0, n) as a set. */
  function Range(n: nat): (s: set<int>)
    ensures forall x :: x in s <==> 0 <= x < n
    ensures |s| == n
  {
    if n == 0 then {} else Range(n - 1) + {n - 1}
  }

  /** No set has more elements than the universe. */
  lemma MembersBounded(parent: seq<int>, rank: seq<nat>, r: int)
    requires Ranked(parent, rank)
    ensures |Members(parent, rank, r)| <= |parent|
  {
    var members, all := Members(parent, rank, r), Range(|parent|);
    assert all == members + (all - members);
  }

  /** Two forests with the same root everywhere have the same sets. */
  lemma SameRootsSameMembers(parent: seq<int>, other: seq<int>, rank: seq<nat>, r: int)
    requires Ranked(parent, rank) && Ranked(other, rank)
    requires forall x :: 0 <= x < |parent| ==> Find(other, rank, x) == Find(parent, rank, x)
    ensures Members(other, rank, r) == Members(parent, rank, r)
  {
  }

  /** Re-pointing elements without changing any root (as path halving does) keeps
      exact counts exact. */
  lemma SameRootsSameCounts(parent: seq<int>, other: seq<int>, rank: seq<nat>, size: seq<int>)
    requires Ranked(parent, rank) && Ranked(other, rank) && SizesCount(parent, rank, size)
    requires forall x :: 0 <= x < |parent| ==> Find(other, rank, x) == Find(parent, rank, x)
    ensures SizesCount(other, rank, size)
  {
    forall s | 0 <= s < |other| && other[s] == s
      ensures parent[s] == s && Members(other, rank, s) == Members(parent, rank, s)
    {
      assert Find(other, rank, s) == s;
      SameRootsSameMembers(parent, other, rank, s);
    }
  }

  /** The fresh structure of `n` singletons: every set has exactly one element. */
  lemma InitialSizesCount(n: nat)
    ensures Ranked(Singletons(n), seq(n, i => 0))
    ensures SizesCount(Singletons(n), seq(n, i => 0), seq(n, i => 1))
  {
    var parent, rank := Singletons(n), seq(n, i => 0);
    forall r | 0 <= r < n
      ensures |Members(parent, rank, r)| == 1
    {
      assert Members(parent, rank, r) == {r};
    }
  }

  /** Pointing root `child` at a different root `root` and adding the two counts, with
      Java's `int` addition, keeps every count exact; no addition wraps around. */
  lemma LinkCounts(parent: seq<int>, rank: seq<nat>, size: seq<int>, child: int, root: int)
    requires Ranked(parent, rank) && SizesCount(parent, rank, size) && Int32.AllInRange(size)
    requires |parent| <= Int32.MAX && 0 <= child < |parent| && 0 <= root < |parent| && child != root
    requires parent[child] == child && parent[root] == root
    ensures Ranked(parent[child := root], Lift(rank, child, root))
    ensures size[root] + size[child] == Int32.Add(size[root], size[child])
    ensures SizesCount(parent[child := root], Lift(rank, child, root),
                       size[root := Int32.Add(size[root], size[child])])
  {
    var linked, lifted := parent[child := root], Lift(rank, child, root);
    forall x | 0 <= x < |parent|
      ensures Find(linked, lifted, x) == if Find(parent, rank, x) == child then root else Find(parent, rank, x)
    {
      LinkMovesOneSet(parent, rank, child, root, x);
    }
    var joined := Members(linked, lifted, root);
    assert joined == Members(parent, rank, child) + Members(parent, rank, root);
    assert Members(parent, rank, child) * Members(parent, rank, root) == {};
    MembersBounded(linked, lifted, root);
    forall s | 0 <= s < |linked| && linked[s] == s && s != root
      ensures Members(linked, lifted, s) == Members(parent, rank, s)
    {
    }
  }
}
