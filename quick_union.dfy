/** The weighted quick-union structure with path halving: two `int` arrays updated in
    place, specified by the forest functions of module Forest and the size bookkeeping
    of module Sizes. */
module WeightedQuickUnion {
  import Forest
  import Sizes
  import UnionStep
  import Int32

  class QuickUnion {
    /** Parent pointers: `id[i] == i` exactly at the roots. */
    var id: array<int>
    /** The tree sizes; only the entries at roots are read. */
    var size: array<int>
    /** Proof-only ranks, strictly increasing from every non-root to its parent. */
    ghost var rank: seq<nat>

    /** The object invariant: `id` is an acyclic forest over [0, N) with N a Java `int`,
        and every size is a Java `int`. */
    ghost predicate Valid()
      reads this, id, size
    {
      && id != size
      && id.Length == size.Length <= Int32.MAX
      && Forest.Ranked(id[..], rank)
      && Int32.AllInRange(size[..])
    }

    /** The root reached by following `id` from `a`. */
    ghost function Find(a: int): int
      reads this, id, size
      requires Valid() && 0 <= a < id.Length
    {
      Forest.Find(id[..], rank, a)
    }

    ghost predicate SameSet(a: int, b: int)
      reads this, id, size
      requires Valid() && 0 <= a < id.Length && 0 <= b < id.Length
    {
      Find(a) == Find(b)
    }

    /** Every root's size is the number of elements in its set. */
    ghost predicate SizesExact()
      reads this, id, size
      requires Valid()
    {
      Sizes.SizesCount(id[..], rank, size[..])
    }

    /** `N` singleton sets: every element is its own root with size 1. */
    constructor (N: int)
      requires 0 <= N <= Int32.MAX
      ensures Valid() && fresh(id) && fresh(size) && id.Length == N
      ensures forall i :: 0 <= i < N ==> id[i] == i && size[i] == 1
      ensures forall a, b :: 0 <= a < N && 0 <= b < N ==> (SameSet(a, b) <==> a == b)
      ensures SizesExact()
    {
      var parents := new int[N];
      var sizes := new int[N];
      for i := 0 to N
        invariant forall j :: 0 <= j < i ==> parents[j] == j && sizes[j] == 1
      {
        parents[i] := i;
        sizes[i] := 1;
      }
      id, size, rank := parents, sizes, seq(N, i => 0);
      new;
      assert id[..] == Forest.Singletons(N);
      assert size[..] == seq(N, i => 1);
      Sizes.InitialSizesCount(N);
      forall a, b | 0 <= a < N && 0 <= b < N
        ensures SameSet(a, b) <==> a == b
      {
        Forest.SingletonsAreApart(N, rank, a, b);
      }
    }

    /** Returns the root of `a`'s set. On the way it points `a` at its grandparent and
        continues from there (path halving); no element changes its root and `size` is
        not touched, so the sizes are exact afterwards exactly when they were before. */
    method Root(a: int) returns (r: int)
      requires Valid() && 0 <= a < id.Length
      modifies id
      ensures Valid()
      ensures id[..] == Forest.Halve(old(id[..]), rank, a)
      ensures r == old(Find(a)) && id[r] == r
      ensures forall x :: 0 <= x < id.Length ==> Find(x) == old(Find(x))
      ensures SizesExact() <==> old(SizesExact())
      decreases Forest.MaxRank(rank) - rank[a]
    {
      ghost var id0 := id[..];
      if id[a] != a {
        ghost var before := id[..];
        id[a] := id[id[a]];
        assert id[..] == before[a := before[before[a]]];
        Forest.ShortcutKeepsRoots(before, rank, a, a);
        r := Root(id[a]);
        assert id[..] == Forest.Halve(before, rank, a);
      } else {
        r := a;
      }
      if Sizes.SizesCount(id0, rank, size[..]) {
        Sizes.SameRootsSameCounts(id0, id[..], rank, size[..]);
      }
      if Sizes.SizesCount(id[..], rank, size[..]) {
        Sizes.SameRootsSameCounts(id[..], id0, rank, size[..]);
      }
    }

    /** The linking step of `union` once both roots are known: the root with the
        smaller-or-equal size goes under the other. As in the source, the second branch
        adds the index `rootQ` to the size, not that root's size. */
    method Link(rootP: int, rootQ: int)
      requires Valid() && 0 <= rootP < id.Length && 0 <= rootQ < id.Length
      requires id[rootP] == rootP && id[rootQ] == rootQ
      modifies this, id, size
      ensures Valid() && id == old(id) && size == old(size)
      ensures id[..] == UnionStep.UnionParent(old(id[..]), old(size[..]), rootP, rootQ)
      ensures size[..] == UnionStep.UnionSize(old(size[..]), rootP, rootQ)
      ensures rank == UnionStep.UnionRank(old(rank), old(size[..]), rootP, rootQ)
    {
      ghost var id0, size0 := id[..], size[..];
      UnionStep.UnionLinks(id0, rank, size0, rootP, rootQ, rootP);
      rank := UnionStep.UnionRank(rank, size0, rootP, rootQ);
      if size[rootP] <= size[rootQ] {
        id[rootP] := rootQ;
        size[rootQ] := Int32.Add(size[rootQ], size[rootP]);
      } else {
        id[rootQ] := rootP;
        size[rootP] := Int32.Add(size[rootP], rootQ);
      }
      assert id[..] == UnionStep.UnionParent(id0, size0, rootP, rootQ);
      assert size[..] == UnionStep.UnionSize(size0, rootP, rootQ);
    }

    /** Merges the sets of `p` and `q`: the root of `p`'s set goes under the root of
        `q`'s set when its size is smaller or equal, otherwise the other way round. As in
        the source, there is no same-root check, and the second branch adds the index
        of `q`'s root to the size, not that root's size. */
    method Union(p: int, q: int)
      requires Valid() && 0 <= p < id.Length && 0 <= q < id.Length
      modifies this, id, size
      ensures Valid() && id == old(id) && size == old(size)
      ensures var rootP, rootQ := old(Find(p)), old(Find(q));
        var halved := Forest.Halve(Forest.Halve(old(id[..]), old(rank), p), old(rank), q);
        && id[..] == UnionStep.UnionParent(halved, old(size[..]), rootP, rootQ)
        && size[..] == UnionStep.UnionSize(old(size[..]), rootP, rootQ)
        && rank == UnionStep.UnionRank(old(rank), old(size[..]), rootP, rootQ)
      ensures Find(p) == Find(q)
      ensures var rootP, rootQ := old(Find(p)), old(Find(q));
        var newRoot := if old(size[rootP]) <= old(size[rootQ]) then rootQ else rootP;
        forall x :: 0 <= x < id.Length ==>
          Find(x) == if old(Find(x)) == rootP || old(Find(x)) == rootQ then newRoot else old(Find(x))
      ensures forall x, y :: 0 <= x < id.Length && 0 <= y < id.Length ==>
        (SameSet(x, y) <==>
          (|| old(SameSet(x, y))
           || (old(SameSet(x, p)) && old(SameSet(y, q)))
           || (old(SameSet(x, q)) && old(SameSet(y, p)))))
      ensures old(SizesExact()) && old(Find(p)) != old(Find(q)) && old(size[Find(p)]) <= old(size[Find(q)])
        ==> SizesExact()
    {
      ghost var id0, size0, rank0 := id[..], size[..], rank;
      var rootP := Root(p);
      var rootQ := Root(q);
      ghost var halved := id[..];
      assert size[..] == size0 && id != size;
      assert halved == Forest.Halve(Forest.Halve(id0, rank0, p), rank0, q);
      Link(rootP, rootQ);
      UnionStep.UnionMovesTwoSets(id0, rank0, size0, p, q);
      forall x, y | 0 <= x < id.Length && 0 <= y < id.Length
        ensures SameSet(x, y) <==>
          (|| Forest.SameSet(id0, rank0, x, y)
           || (Forest.SameSet(id0, rank0, x, p) && Forest.SameSet(id0, rank0, y, q))
           || (Forest.SameSet(id0, rank0, x, q) && Forest.SameSet(id0, rank0, y, p)))
      {
        UnionStep.UnionJoinsSets(id0, rank0, size0, p, q, x, y);
      }
      if Sizes.SizesCount(id0, rank0, size0) && rootP != rootQ && size0[rootP] <= size0[rootQ] {
        UnionStep.UnionCountsWhenLessOrEqual(id0, rank0, size0, p, q);
      }
    }
  }
}
