/**
 Diff extraction between a baseline tree and a newer tree
 (build_diff_tree).
 */
module DiffEngine {
  import opened Octree

  /** A leaf of `newer` belongs in the diff when the baseline has no node at
      its key, or when the two nodes report different occupancies. */
  predicate Differs(baseline: Tree, newer: Tree, occ: LogOdds -> Occupancy, k: Key): (d: bool)
    requires k in newer
    ensures k !in baseline ==> d
    ensures k in baseline ==> (d <==> occ(baseline[k]) != occ(newer[k]))
  {
    k !in baseline || occ(baseline[k]) != occ(newer[k])
  }

  /** The diff restricted to the leaves in `keys`: the differing leaves with
      the newer tree's log-odds. */
  function DiffOn(baseline: Tree, newer: Tree, occ: LogOdds -> Occupancy, keys: set<Key>): Tree
    requires keys <= newer.Keys
  {
    map k | k in keys && Differs(baseline, newer, occ, k) :: newer[k]
  }

  /** The diff of `newer` against `baseline`, over every leaf of `newer`. */
  function Diff(baseline: Tree, newer: Tree, occ: LogOdds -> Occupancy): (r: Tree)
    ensures r.Keys <= newer.Keys
    ensures forall k :: k in r ==> r[k] == newer[k]
  {
    DiffOn(baseline, newer, occ, newer.Keys)
  }

  /** The leaves of `newer` that the baseline does not have at all. */
  function NewKeys(baseline: Tree, newer: Tree): (r: set<Key>)
    ensures r <= newer.Keys
    ensures forall k :: k in r ==> k !in baseline
  {
    newer.Keys - baseline.Keys
  }

  /** Walks every leaf of `tree2`, looks its key up in `tree1`, writes the
      leaf into the diff tree when it is new or its occupancy changed, and
      counts the new leaves. `tree1` is only read. */
  method BuildDiffTree(tree1: Tree, tree2: Tree, treeDiff: Tree, occ: LogOdds -> Occupancy)
    returns (diff: Tree, numNewNodes: nat)
    ensures diff == treeDiff + Diff(tree1, tree2, occ)
    ensures numNewNodes == |NewKeys(tree1, tree2)|
  {
    diff := treeDiff;
    numNewNodes := 0;
    var remaining := tree2.Keys;
    ghost var counted: set<Key> := {};
    while remaining != {}
      invariant remaining <= tree2.Keys
      invariant forall x :: x in diff <==>
                  x in treeDiff || (x in tree2 && x !in remaining && Differs(tree1, tree2, occ, x))
      invariant forall x :: x in diff ==>
                  diff[x] == if x in tree2 && x !in remaining && Differs(tree1, tree2, occ, x)
                             then tree2[x] else treeDiff[x]
      invariant forall x :: x in counted <==> x in tree2 && x !in remaining && x !in tree1
      invariant numNewNodes == |counted|
      decreases remaining
    {
      var k :| k in remaining;
      if k in tree1 {
        if occ(tree1[k]) != occ(tree2[k]) {
          diff := diff[k := tree2[k]];
        }
      } else {
        diff := diff[k := tree2[k]];
        numNewNodes := numNewNodes + 1;
        assert k !in counted;
        counted := counted + {k};
      }
      remaining := remaining - {k};
    }
    DiffFromLeaves(tree1, tree2, occ, treeDiff, diff);
    CountedFromLeaves(tree1, tree2, counted);
  }

  /** A tree that agrees leaf by leaf with the diff written over `treeDiff` is that tree. */
  lemma DiffFromLeaves(baseline: Tree, newer: Tree, occ: LogOdds -> Occupancy, treeDiff: Tree, diff: Tree)
    requires forall x :: x in diff <==> x in treeDiff || (x in newer && Differs(baseline, newer, occ, x))
    requires forall x :: x in diff ==>
               diff[x] == if x in newer && Differs(baseline, newer, occ, x) then newer[x] else treeDiff[x]
    ensures diff == treeDiff + Diff(baseline, newer, occ)
  {
  }

  /** A set holding exactly the new leaves is NewKeys. */
  lemma CountedFromLeaves(baseline: Tree, newer: Tree, counted: set<Key>)
    requires forall x :: x in counted <==> x in newer && x !in baseline
    ensures counted == NewKeys(baseline, newer)
  {
  }

  /** With an empty diff tree, the diff holds exactly the new or changed
      leaves of the newer tree, each with the newer tree's log-odds. */
  lemma DiffContents(baseline: Tree, newer: Tree, occ: LogOdds -> Occupancy, k: Key)
    ensures k in Diff(baseline, newer, occ) <==>
              k in newer && (k !in baseline || occ(baseline[k]) != occ(newer[k]))
    ensures k in Diff(baseline, newer, occ) ==> Diff(baseline, newer, occ)[k] == newer[k]
  {
  }

  /** Diffing a tree against itself yields nothing and no new leaves. */
  lemma DiffSelf(t: Tree, occ: LogOdds -> Occupancy)
    ensures Diff(t, t, occ) == map[]
    ensures |NewKeys(t, t)| == 0
  {
    assert NewKeys(t, t) == {};
  }

  /** An empty newer tree yields an empty diff and no new leaves. */
  lemma DiffOfEmpty(baseline: Tree, occ: LogOdds -> Occupancy)
    ensures Diff(baseline, map[], occ) == map[]
    ensures |NewKeys(baseline, map[])| == 0
  {
    assert NewKeys(baseline, map[]) == {};
  }

  /** Every new leaf is in the diff, so the count of new leaves never exceeds
      the size of the diff; changed leaves are in the diff but not counted. */
  lemma NewKeysInDiff(baseline: Tree, newer: Tree, occ: LogOdds -> Occupancy)
    ensures NewKeys(baseline, newer) <= Diff(baseline, newer, occ).Keys
    ensures |NewKeys(baseline, newer)| <= |Diff(baseline, newer, occ)|
    ensures Diff(baseline, newer, occ).Keys - NewKeys(baseline, newer)
            == set k | k in newer && k in baseline && occ(baseline[k]) != occ(newer[k])
  {
    var d := Diff(baseline, newer, occ);
    assert NewKeys(baseline, newer) <= d.Keys;
    SubsetCard(NewKeys(baseline, newer), d.Keys);
  }

  /** Writing the diff over the baseline gives a tree that reports the newer
      tree's occupancy at every leaf of the newer tree. */
  lemma DiffRestoresOccupancy(baseline: Tree, newer: Tree, occ: LogOdds -> Occupancy, k: Key)
    requires k in newer
    ensures k in baseline + Diff(baseline, newer, occ)
    ensures occ((baseline + Diff(baseline, newer, occ))[k]) == occ(newer[k])
  {
  }

  lemma SubsetCard<T>(a: set<T>, b: set<T>)
    requires a <= b
    ensures |a| <= |b|
  {
    assert b == a + (b - a);
  }
}
