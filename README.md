# Weighted quick-union with path halving, in Dafny

This project models `QuickUnion.java`, a union-find (disjoint-set) structure over the
elements `0 .. N-1`. The structure has two `int` arrays:

- `id[]` holds parent pointers. An element is a root exactly when `id[i] == i`.
- `size[]` is meant to hold the number of elements in the tree below each root
  (QuickUnion.java:23); the code does not always keep it so, see Findings.

The structure has three operations:

- The constructor `QuickUnion(N)` creates `N` singleton sets.
- `Root(a)` walks to `a`'s root. Before each recursive step it points `id[a]` at its
  grandparent (path halving).
- `union(p, q)` finds both roots. The root whose size is smaller or equal goes under the
  other one, and the sizes are updated.

The Dafny files are organised as follows.

- `int32.dfy`, module `Int32`: Java's 32-bit `int` range and the wrap-around of `+` /
  `+=`.
- `forest.dfy`, module `Forest`: the parent-pointer forest as a sequence. It covers:
  - `Ranked`, the forest invariant, with a proof-only `rank` that strictly increases
    from every non-root to its parent;
  - `Find`, the root reached from an element;
  - `SameSet`;
  - `Halve`, path halving as a function;
  - `Lift`, linking two roots together with the rank update.
- `sizes.dfy`, module `Sizes`: what `size[]` is meant to hold. `Members(r)` is the set
  of elements whose root is `r`. `SizesCount` says that every root's size is the number
  of its members.
- `union_step.dfy`, module `UnionStep`: one `union` on sequences, as the source writes it,
  and its properties. It also holds the two counterexamples of the Findings section and a
  corrected union that keeps sizes exact.
- `quick_union.dfy`, module `WeightedQuickUnion`: the class `QuickUnion`.
  - The fields are `id: array<int>` and `size: array<int>`, plus a ghost `rank`.
  - The constructor fills both arrays in a loop.
  - `Root` halves the path recursively and in place.
  - `Union` calls `Root` twice and then `Link`, which writes one `id` entry and one `size`
    entry.
  - Every method is proved against the sequence functions above.

The code's `Root` is recursive, and so is the model's `Root`; its termination measure is
the ghost rank.

The class comment says `size[]` counts the elements of a set (QuickUnion.java:23) and
that the smaller tree goes under the larger (QuickUnion.java:25). A weighted union is
therefore expected to do nothing when both roots are equal, and to add the smaller
tree's size to the larger. The code does neither. It has no same-root check, so
`size[root]` doubles, and its second branch adds the index `root_q` instead of a size.
The class keeps the code's behaviour. Both points are listed under Findings.

## Model

| member | source | states |
|---|---|---|
| Forest.Find | QuickUnion.java:43-50 | The walk along parent pointers ends at an element that is its own parent, and it terminates on every ranked forest because rank grows along the walk. |
| Forest.SingletonsAreApart | QuickUnion.java:34-41 | In the forest of N singletons every element is its own root, and two elements are in the same set iff they are equal. |
| Forest.ShortcutKeepsRoots | QuickUnion.java:45 | Pointing an element at its grandparent keeps the forest ranked and acyclic and leaves every element's root unchanged. |
| Forest.Halve | QuickUnion.java:44-47 | Path halving from `a` leaves a ranked forest in which every element has the same root as before. |
| Forest.RootIsFixedPoint | QuickUnion.java:44-49 | After one walk from `a`, a walk from the root it returned returns that same root and changes no entry: Root(Root(a)) == Root(a). |
| Forest.HalveWritesGrandparents | QuickUnion.java:45-46 | Halving from `a` points `a` at its old grandparent. Every other entry is either unchanged or lies on the path from `a` and now holds its old grandparent. |
| Forest.Lift | QuickUnion.java:57 | The new root's rank ends above the linked root's rank and no lower than before; no other rank changes. |
| Forest.LinkMovesOneSet | QuickUnion.java:57 | Pointing one root at another keeps the forest ranked. Exactly the elements of the first root's set get the second root; every other element keeps its root. |
| Forest.LinkJoinsSets | QuickUnion.java:57 | After linking, two elements are in the same set iff they were before, or one was in each of the two linked sets. |
| Sizes.SameRootsSameCounts | QuickUnion.java:45 | A forest with the same roots everywhere, such as one after path halving, keeps exact sizes exact. |
| Sizes.InitialSizesCount | QuickUnion.java:37-40 | N singletons with all sizes 1 have exact sizes: every root's size equals the number of elements in its set. |
| Sizes.LinkCounts | QuickUnion.java:57-58 | Linking two distinct roots and adding their sizes with Java `int` addition keeps every size exact. The addition never wraps, because both sets together have at most N <= 2^31-1 elements. |
| UnionStep.UnionParent | QuickUnion.java:56-61 | The parent array after linking: with `size[root_p] <= size[root_q]` (ties included), `root_p` points at `root_q`; otherwise `root_q` points at `root_p`. No other entry changes. |
| UnionStep.UnionSize | QuickUnion.java:56-62 | The size array after linking, with Java `int` addition. The smaller-or-equal branch stores `size[root_q] + size[root_p]` at `root_q`. The other branch stores `size[root_p] + root_q` at `root_p`, adding the index rather than the size. When the roots are equal, the size is added to itself. No other entry changes. |
| UnionStep.IntendedSize | QuickUnion.java:56-62 | The corrected size update. It changes nothing when both roots are equal. Otherwise the larger root's entry becomes the sum of the two roots' sizes in either branch, and no other entry changes. |
| UnionStep.UnionLinks | QuickUnion.java:56-63 | The link step puts the root whose size is smaller or equal (ties included) under the other root. Both roots' sets get that root; all other elements keep theirs. |
| UnionStep.LessOrEqualBranchCounts | QuickUnion.java:56-58 | In the smaller-or-equal branch with two different roots: the new `size[root_q]` is the sum of the two old sizes, and no other size changes. Exact sizes stay exact. |
| UnionStep.UnionMovesTwoSets | QuickUnion.java:53-64 | For the whole `union(p, q)` (halve from `p`, halve from `q`, link): the forest stays ranked, both sets get the root chosen by size, and every other element keeps its root. |
| UnionStep.UnionJoinsSets | QuickUnion.java:53-64 | After `union(p, q)`, x and y are in the same set iff they were before, or one was in `p`'s set and the other in `q`'s. |
| UnionStep.UnionCountsWhenLessOrEqual | QuickUnion.java:53-58 | For the whole `union(p, q)` with different roots and `size[root_p] <= size[root_q]`, exact sizes stay exact. |
| UnionStep.ElseBranchMiscounts | QuickUnion.java:60-62 | A concrete state with exact sizes: sets {0,1} with root 1 and {2} with root 2. Linking with `root_p == 1` and `root_q == 2` stores 4 for a set of three elements. |
| UnionStep.SameRootDoublesSize | QuickUnion.java:56-58 | With a single element, linking its root to itself leaves the forest as it is but turns size 1 into 2, so the size is no longer exact. |
| UnionStep.IntendedUnionCounts | QuickUnion.java:53-64 | The corrected union does nothing on one set and adds sizes in both branches. It keeps every size exact in every case and puts both roots in one set. |
| Int32.Add | QuickUnion.java:58 | Java `int` addition: the result is a Java `int`, and it is the mathematical sum whenever that sum fits. |
| Int32.AddIsModular | QuickUnion.java:62 | The result of Java `int` addition differs from the mathematical sum by a multiple of 2^32. |
| WeightedQuickUnion.QuickUnion.constructor | QuickUnion.java:34-41 | Creates fresh arrays of length N with `id[i] == i` and `size[i] == 1`. Every element is its own set, and no two different elements are in one set. Sizes are exact. |
| WeightedQuickUnion.QuickUnion.Root | QuickUnion.java:43-51 | Returns the root reached from `a` (`id[r] == r`) and leaves `id` equal to path halving from `a`. Every element keeps its root. `size` is not written, sizes are exact afterwards iff they were before, and the forest invariant is kept. |
| WeightedQuickUnion.QuickUnion.Link | QuickUnion.java:56-63 | Writes `id` and `size` exactly as the union step on sequences does, and keeps the object invariant. |
| WeightedQuickUnion.QuickUnion.Union | QuickUnion.java:53-64 | The new arrays are the union step applied to the halved forest, and `p` and `q` end with one root. Only the two sets' elements change root, and the same-set relation gains exactly the pairs across the two sets. Sizes stay exact in the smaller-or-equal branch with different roots. |

## Left out

- The running-time claims in the class comment (QuickUnion.java:10-14). They are
  amortised cost statements, not functional behaviour.
- Java exceptions. A negative `N` and an out-of-range index raise exceptions in the
  source. In the model they are preconditions (`0 <= N`, `0 <= a < N`).
- Stack depth of the recursive `Root`. The model has no notion of call-stack depth, so a
  stack overflow on deep trees is not modelled.
- The percolation applications named in the class comment. The source has no code for
  them.
- A `connected` query or a set-size getter. The source has neither; the ghost predicate
  `SameSet` is used only to state properties.
- The tree-height bound behind the running-time claims (QuickUnion.java:14, 26) is not
  proved.
- WeightedQuickUnion.QuickUnion.Union: promises exact sizes only when the two roots
  differ and `size[root_p] <= size[root_q]`. This is because the source miscounts in the
  other two cases; see Findings.
- WeightedQuickUnion.QuickUnion.constructor: requires `N <= 2^31-1`. `N` is a Java
  `int`, and the bound keeps every exact size a Java `int`.

## Findings

| source | as written | input that shows it | evidently intended | confidence | as-written member | corrected member |
|---|---|---|---|---|---|---|
| QuickUnion.java:62 | `size[root_p] += root_q` adds the index of `q`'s root | sets {0,1} (root 1, size 2) and {2} (root 2, size 1); `union(1, 2)` stores 4 for three elements | `size[root_p] += size[root_q]` | high (not executed) | UnionStep.ElseBranchMiscounts | UnionStep.IntendedUnionCounts |
| QuickUnion.java:56-58 | no same-root check: when `root_p == root_q`, `size[root_q]` is added to itself | `QuickUnion(1)` then `union(0, 0)` stores size 2 for one element | return early when both roots are equal | high (not executed) | UnionStep.SameRootDoublesSize | UnionStep.IntendedUnionCounts |

The class `WeightedQuickUnion.QuickUnion` keeps the code's behaviour for both rows.
The corrected union keeps the source's parent write, `UnionStep.UnionParent`: on two
roots it already leaves the forest as it is when they are equal. Only the size update
changes, to `UnionStep.IntendedSize`, with `UnionStep.IntendedRank` as its rank update.
`UnionStep.IntendedUnionCounts` is proved about them.
