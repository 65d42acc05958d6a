/** One `union` on the three sequences as the source writes it, the two ways its size
    bookkeeping goes wrong, and a corrected `union` that keeps the sizes exact. */
module UnionStep {
  import opened Forest
  import opened Sizes
  import Int32

  // ---------------------------------------------------------------------------
  // One `union` as the source writes it, once both roots are known

  /** The parent array after linking: the root of `p`'s set goes under the root of
      `q`'s set when its size is smaller or equal, otherwise the other way round. */
  function UnionParent(parent: seq<int>, size: seq<int>, rootP: int, rootQ: int): (r: seq<int>)
    requires |size| == |parent| && 0 <= rootP < |parent| && 0 <= rootQ < |parent|
    ensures |r| == |parent|
    ensures size[rootP] <= size[rootQ] ==> r[rootP] == rootQ
    ensures size[rootP] > size[rootQ] ==> r[rootQ] == rootP
    ensures var child := if size[rootP] <= size[rootQ] then rootP else rootQ;
      forall i :: 0 <= i < |parent| && i != child ==> r[i] == parent[i]
  {
    if size[rootP] <= size[rootQ] then parent[rootP := rootQ] else parent[rootQ := rootP]
  }

  /** The ranks that go with `UnionParent`. */
  function UnionRank(rank: seq<nat>, size: seq<int>, rootP: int, rootQ: int): seq<nat>
    requires |size| == |rank| && 0 <= rootP < |rank| && 0 <= rootQ < |rank|
  {
    if size[rootP] <= size[rootQ] then Lift(rank, rootP, rootQ) else Lift(rank, rootQ, rootP)
  }

  /** The size array after `union`: the smaller-or-equal branch adds the sizes; the other
      branch adds the index `rootQ`, not its size. Both use Java `int` addition. */
  function UnionSize(size: seq<int>, rootP: int, rootQ: int): (r: seq<int>)
    requires Int32.AllInRange(size) && |size| <= Int32.MAX && 0 <= rootP < |size| && 0 <= rootQ < |size|
    ensures |r| == |size| && Int32.AllInRange(r)
    ensures size[rootP] <= size[rootQ] ==> r[rootQ] == Int32.Add(size[rootQ], size[rootP])
    ensures size[rootP] > size[rootQ] ==> r[rootP] == Int32.Add(size[rootP], rootQ)
    ensures rootP == rootQ ==> r[rootQ] == Int32.Add(size[rootQ], size[rootQ])
    ensures var root := if size[rootP] <= size[rootQ] then rootQ else rootP;
      forall i :: 0 <= i < |size| && i != root ==> r[i] == size[i]
  {
    if size[rootP] <= size[rootQ] then size[rootQ := Int32.Add(size[rootQ], size[rootP])]
    else size[rootP := Int32.Add(size[rootP], rootQ)]
  }

  /** Linking two roots keeps the forest ranked, gives every element of either set the
      same new root, and leaves every other element's root alone. */
  lemma UnionLinks(parent: seq<int>, rank: seq<nat>, size: seq<int>, rootP: int, rootQ: int, x: int)
    requires Ranked(parent, rank) && |size| == |parent|
    requires 0 <= rootP < |parent| && 0 <= rootQ < |parent| && 0 <= x < |parent|
    requires parent[rootP] == rootP && parent[rootQ] == rootQ
    ensures Ranked(UnionParent(parent, size, rootP, rootQ), UnionRank(rank, size, rootP, rootQ))
    ensures var newRoot := if size[rootP] <= size[rootQ] then rootQ else rootP;
      Find(UnionParent(parent, size, rootP, rootQ), UnionRank(rank, size, rootP, rootQ), x)
      == if Find(parent, rank, x) == rootP || Find(parent, rank, x) == rootQ then newRoot else Find(parent, rank, x)
  {
    if size[rootP] <= size[rootQ] {
      LinkMovesOneSet(parent, rank, rootP, rootQ, x);
    } else {
      LinkMovesOneSet(parent, rank, rootQ, rootP, x);
    }
  }

  /** In the smaller-or-equal branch with two different roots, the sizes are added, no
      other size changes and exact counts stay exact. */
  lemma LessOrEqualBranchCounts(parent: seq<int>, rank: seq<nat>, size: seq<int>, rootP: int, rootQ: int)
    requires Ranked(parent, rank) && SizesCount(parent, rank, size) && Int32.AllInRange(size) && |parent| <= Int32.MAX
    requires 0 <= rootP < |parent| && 0 <= rootQ < |parent| && rootP != rootQ
    requires parent[rootP] == rootP && parent[rootQ] == rootQ && size[rootP] <= size[rootQ]
    ensures UnionSize(size, rootP, rootQ)[rootQ] == size[rootP] + size[rootQ]
    ensures forall i :: 0 <= i < |size| && i != rootQ ==> UnionSize(size, rootP, rootQ)[i] == size[i]
    ensures Ranked(UnionParent(parent, size, rootP, rootQ), UnionRank(rank, size, rootP, rootQ))
    ensures SizesCount(UnionParent(parent, size, rootP, rootQ), UnionRank(rank, size, rootP, rootQ),
                       UnionSize(size, rootP, rootQ))
  {
    LinkCounts(parent, rank, size, rootP, rootQ);
  }

  /** Linking two roots of a forest whose root at `x` is the same as in `parent`. */
  lemma LinkAfterSameRootsAt(parent: seq<int>, halved: seq<int>, rank: seq<nat>, size: seq<int>, rootP: int, rootQ: int, x: int)
    requires Ranked(parent, rank) && Ranked(halved, rank) && |size| == |parent|
    requires 0 <= rootP < |parent| && 0 <= rootQ < |parent| && 0 <= x < |parent|
    requires halved[rootP] == rootP && halved[rootQ] == rootQ
    requires Find(halved, rank, x) == Find(parent, rank, x)
    ensures var joined, lifted := UnionParent(halved, size, rootP, rootQ), UnionRank(rank, size, rootP, rootQ);
      var newRoot := if size[rootP] <= size[rootQ] then rootQ else rootP;
      && Ranked(joined, lifted)
      && Find(joined, lifted, x)
         == if Find(parent, rank, x) == rootP || Find(parent, rank, x) == rootQ then newRoot else Find(parent, rank, x)
  {
    UnionLinks(halved, rank, size, rootP, rootQ, x);
  }

  /** Linking two roots of a forest that has the same roots as `parent` everywhere. */
  lemma LinkAfterSameRoots(parent: seq<int>, halved: seq<int>, rank: seq<nat>, size: seq<int>, rootP: int, rootQ: int)
    requires Ranked(parent, rank) && Ranked(halved, rank) && |size| == |parent|
    requires forall x :: 0 <= x < |parent| ==> Find(halved, rank, x) == Find(parent, rank, x)
    requires 0 <= rootP < |parent| && 0 <= rootQ < |parent|
    requires parent[rootP] == rootP && parent[rootQ] == rootQ
    ensures var joined, lifted := UnionParent(halved, size, rootP, rootQ), UnionRank(rank, size, rootP, rootQ);
      var newRoot := if size[rootP] <= size[rootQ] then rootQ else rootP;
      && Ranked(joined, lifted)
      && forall x :: 0 <= x < |parent| ==>
           Find(joined, lifted, x) == if Find(parent, rank, x) == rootP || Find(parent, rank, x) == rootQ then newRoot else Find(parent, rank, x)
  {
    assert Find(halved, rank, rootP) == rootP && Find(halved, rank, rootQ) == rootQ;
    assert halved[rootP] == rootP && halved[rootQ] == rootQ;
    LinkAfterSameRootsAt(parent, halved, rank, size, rootP, rootQ, rootP);
    forall x | 0 <= x < |parent|
      ensures Find(UnionParent(halved, size, rootP, rootQ), UnionRank(rank, size, rootP, rootQ), x)
           == if Find(parent, rank, x) == rootP || Find(parent, rank, x) == rootQ then (if size[rootP] <= size[rootQ] then rootQ else rootP)
              else Find(parent, rank, x)
    {
      LinkAfterSameRootsAt(parent, halved, rank, size, rootP, rootQ, x);
    }
  }

  /** The whole of `union(p, q)` on values: halve from `p`, halve from `q`, then link
      the two roots. The forest stays ranked; every element of the sets of `p` and `q`
      gets the root chosen by size, and every other element keeps its root. */
  lemma UnionMovesTwoSets(parent: seq<int>, rank: seq<nat>, size: seq<int>, p: int, q: int)
    requires Ranked(parent, rank) && |size| == |parent| && 0 <= p < |parent| && 0 <= q < |parent|
    ensures var rootP, rootQ := Find(parent, rank, p), Find(parent, rank, q);
      var halved := Halve(Halve(parent, rank, p), rank, q);
      var joined, lifted := UnionParent(halved, size, rootP, rootQ), UnionRank(rank, size, rootP, rootQ);
      var newRoot := if size[rootP] <= size[rootQ] then rootQ else rootP;
      && Ranked(joined, lifted)
      && forall x :: 0 <= x < |parent| ==>
           Find(joined, lifted, x) == if Find(parent, rank, x) == rootP || Find(parent, rank, x) == rootQ then newRoot else Find(parent, rank, x)
  {
    var once := Halve(parent, rank, p);
    LinkAfterSameRoots(parent, Halve(once, rank, q), rank, size, Find(parent, rank, p), Find(parent, rank, q));
  }

  /** After `union(p, q)` two elements are in the same set iff they were before, or one
      was in `p`'s set and the other in `q`'s set. */
  lemma UnionJoinsSets(parent: seq<int>, rank: seq<nat>, size: seq<int>, p: int, q: int, x: int, y: int)
    requires Ranked(parent, rank) && |size| == |parent| && 0 <= p < |parent| && 0 <= q < |parent|
    requires 0 <= x < |parent| && 0 <= y < |parent|
    ensures var rootP, rootQ := Find(parent, rank, p), Find(parent, rank, q);
      var halved := Halve(Halve(parent, rank, p), rank, q);
      var joined, lifted := UnionParent(halved, size, rootP, rootQ), UnionRank(rank, size, rootP, rootQ);
      && Ranked(joined, lifted)
      && (SameSet(joined, lifted, x, y) <==>
            (|| SameSet(parent, rank, x, y)
             || (SameSet(parent, rank, x, p) && SameSet(parent, rank, y, q))
             || (SameSet(parent, rank, x, q) && SameSet(parent, rank, y, p))))
  {
    UnionMovesTwoSets(parent, rank, size, p, q);
  }

  /** In the smaller-or-equal branch with two different roots, the whole `union` keeps
      exact counts exact. */
  lemma UnionCountsWhenLessOrEqual(parent: seq<int>, rank: seq<nat>, size: seq<int>, p: int, q: int)
    requires Ranked(parent, rank) && SizesCount(parent, rank, size) && Int32.AllInRange(size) && |parent| <= Int32.MAX
    requires 0 <= p < |parent| && 0 <= q < |parent|
    requires Find(parent, rank, p) != Find(parent, rank, q)
    requires size[Find(parent, rank, p)] <= size[Find(parent, rank, q)]
    ensures var rootP, rootQ := Find(parent, rank, p), Find(parent, rank, q);
      var halved := Halve(Halve(parent, rank, p), rank, q);
      && Ranked(UnionParent(halved, size, rootP, rootQ), UnionRank(rank, size, rootP, rootQ))
      && SizesCount(UnionParent(halved, size, rootP, rootQ), UnionRank(rank, size, rootP, rootQ),
                    UnionSize(size, rootP, rootQ))
  {
    var rootP, rootQ := Find(parent, rank, p), Find(parent, rank, q);
    var once := Halve(parent, rank, p);
    var halved := Halve(once, rank, q);
    SameRootsSameCounts(parent, once, rank, size);
    SameRootsSameCounts(once, halved, rank, size);
    assert Find(halved, rank, rootP) == rootP && Find(halved, rank, rootQ) == rootQ;
    LessOrEqualBranchCounts(halved, rank, size, rootP, rootQ);
  }

  /** The other branch miscounts: with the sets {0, 1} (root 1, size 2) and {2}
      (root 2, size 1), `union(1, 2)` stores 2 + 2 = 4 for a set of three elements. */
  lemma ElseBranchMiscounts()
    ensures var parent, rank, size := [1, 1, 2], [0, 1, 0], [1, 2, 1];
      && Ranked(parent, rank) && SizesCount(parent, rank, size)
      && Find(parent, rank, 1) == 1 && Find(parent, rank, 2) == 2 && size[1] > size[2]
      && Ranked(UnionParent(parent, size, 1, 2), UnionRank(rank, size, 1, 2))
      && UnionSize(size, 1, 2)[1] == 4
      && |Members(UnionParent(parent, size, 1, 2), UnionRank(rank, size, 1, 2), 1)| == 3
      && !SizesCount(UnionParent(parent, size, 1, 2), UnionRank(rank, size, 1, 2), UnionSize(size, 1, 2))
  {
    var parent, rank, size := [1, 1, 2], [0, 1, 0], [1, 2, 1];
    assert Find(parent, rank, 0) == 1;
    assert Members(parent, rank, 1) == {0, 1};
    assert Members(parent, rank, 2) == {2};
    var linked, lifted := UnionParent(parent, size, 1, 2), UnionRank(rank, size, 1, 2);
    assert linked == [1, 1, 1];
    UnionLinks(parent, rank, size, 1, 2, 0);
    UnionLinks(parent, rank, size, 1, 2, 1);
    UnionLinks(parent, rank, size, 1, 2, 2);
    assert Members(linked, lifted, 1) == {0, 1, 2};
  }

  lemma OneElementMembers(rank: seq<nat>)
    requires |rank| == 1
    ensures Ranked([0], rank) && Members([0], rank, 0) == {0}
  {
  }

  /** With no same-root check, `union(0, 0)` on a single element leaves the forest as
      it is but doubles the element's size to 2. */
  lemma SameRootDoublesSize()
    ensures Ranked([0], [0]) && SizesCount([0], [0], [1])
    ensures UnionParent([0], [1], 0, 0) == [0]
    ensures UnionRank([0], [1], 0, 0) == [1] && UnionSize([1], 0, 0) == [2]
    ensures Ranked([0], [1]) && |Members([0], [1], 0)| == 1
    ensures !SizesCount([0], [1], [2])
  {
    OneElementMembers([0]);
    OneElementMembers([1]);
  }

  // ---------------------------------------------------------------------------
  // A corrected union: a no-op on one set, sizes added in both branches

  function IntendedRank(rank: seq<nat>, size: seq<int>, rootP: int, rootQ: int): seq<nat>
    requires |size| == |rank| && 0 <= rootP < |rank| && 0 <= rootQ < |rank|
  {
    if rootP == rootQ then rank else UnionRank(rank, size, rootP, rootQ)
  }

  function IntendedSize(size: seq<int>, rootP: int, rootQ: int): (r: seq<int>)
    requires Int32.AllInRange(size) && 0 <= rootP < |size| && 0 <= rootQ < |size|
    ensures |r| == |size| && Int32.AllInRange(r)
    ensures rootP == rootQ ==> r == size
    ensures rootP != rootQ ==>
      var root, child := if size[rootP] <= size[rootQ] then rootQ else rootP,
                         if size[rootP] <= size[rootQ] then rootP else rootQ;
      && r[root] == Int32.Add(size[root], size[child])
      && forall i :: 0 <= i < |size| && i != root ==> r[i] == size[i]
  {
    if rootP == rootQ then size
    else if size[rootP] <= size[rootQ] then size[rootQ := Int32.Add(size[rootQ], size[rootP])]
    else size[rootP := Int32.Add(size[rootP], size[rootQ])]
  }

  /** The corrected union keeps every count exact in every case, and joins the two sets.
      Its parent write is the source's own: on two roots, `UnionParent` already leaves
      the forest as it is when both roots are equal. */
  lemma IntendedUnionCounts(parent: seq<int>, rank: seq<nat>, size: seq<int>, rootP: int, rootQ: int)
    requires Ranked(parent, rank) && SizesCount(parent, rank, size) && Int32.AllInRange(size) && |parent| <= Int32.MAX
    requires 0 <= rootP < |parent| && 0 <= rootQ < |parent|
    requires parent[rootP] == rootP && parent[rootQ] == rootQ
    ensures Ranked(UnionParent(parent, size, rootP, rootQ), IntendedRank(rank, size, rootP, rootQ))
    ensures SizesCount(UnionParent(parent, size, rootP, rootQ), IntendedRank(rank, size, rootP, rootQ),
                       IntendedSize(size, rootP, rootQ))
    ensures Find(UnionParent(parent, size, rootP, rootQ), IntendedRank(rank, size, rootP, rootQ), rootP)
         == Find(UnionParent(parent, size, rootP, rootQ), IntendedRank(rank, size, rootP, rootQ), rootQ)
  {
    if rootP == rootQ {
      assert UnionParent(parent, size, rootP, rootQ) == parent;
    } else {
      UnionLinks(parent, rank, size, rootP, rootQ, rootP);
      UnionLinks(parent, rank, size, rootP, rootQ, rootQ);
      if size[rootP] <= size[rootQ] {
        LinkCounts(parent, rank, size, rootP, rootQ);
      } else {
        LinkCounts(parent, rank, size, rootQ, rootP);
      }
    }
  }
}
