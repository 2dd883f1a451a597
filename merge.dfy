/**
 Folding a plain tree into a stamped tree under the three authority
 policies of merge_maps:
   replace                      authoritative: always write, stamp 1;
   !replace && overwrite        conditional: write new or unclaimed (stamp 0) nodes, stamp 0;
   !replace && !overwrite       add-only: write new nodes only, stamp 0.
 */
module MergeEngine {
  import opened Octree

  /** The stamp written nodes get. */
  function Stamp(replace: bool): (ts: nat)
    ensures ts <= 1
    ensures ts == 1 <==> replace
  {
    if replace then 1 else 0
  }

  /** Whether the leaf at `k` of the source is written into `dest`. */
  predicate Writes(dest: StampedTree, k: Key, replace: bool, overwrite: bool): (w: bool)
    ensures replace ==> w
    ensures !replace && !overwrite ==> (w <==> k !in dest)
    ensures !replace && overwrite ==> (w <==> k !in dest || dest[k].stamp == 0)
  {
    k !in dest || replace || (overwrite && dest[k].stamp == 0)
  }

  /** `dest` after the source leaves in `keys` have been folded into it. */
  function MergedOn(dest: StampedTree, src: Tree, keys: set<Key>, replace: bool, overwrite: bool): StampedTree
    requires keys <= src.Keys
  {
    map k | k in dest.Keys + keys ::
      if k in keys && Writes(dest, k, replace, overwrite)
      then StampedNode(src[k], Stamp(replace))
      else dest[k]
  }

  /** `dest` after every leaf of `src` has been folded into it. */
  function Merged(dest: StampedTree, src: Tree, replace: bool, overwrite: bool): (r: StampedTree)
    ensures dest.Keys <= r.Keys && src.Keys <= r.Keys
  {
    MergedOn(dest, src, src.Keys, replace, overwrite)
  }

  /** Walks every leaf of `tree2`, looks its key up in `tree1`, and writes the
      leaf with stamp `Stamp(replace)` when the key is new, or when `replace`
      holds, or when `overwrite` holds and the existing node is unclaimed. */
  method MergeMaps(tree1: StampedTree, tree2: Tree, replace: bool, overwrite: bool)
    returns (merged: StampedTree)
    ensures merged == Merged(tree1, tree2, replace, overwrite)
  {
    merged := tree1;
    var ts := Stamp(replace);
    var remaining := tree2.Keys;
    while remaining != {}
      invariant remaining <= tree2.Keys
      invariant forall x :: x in merged <==> x in tree1 || (x in tree2 && x !in remaining)
      invariant forall x :: x in merged ==>
                  merged[x] == if x in tree2 && x !in remaining && Writes(tree1, x, replace, overwrite)
                               then StampedNode(tree2[x], Stamp(replace)) else tree1[x]
      decreases remaining
    {
      var k :| k in remaining;
      if k in merged {
        if replace || (overwrite && merged[k].stamp == 0) {
          merged := merged[k := StampedNode(tree2[k], ts)];
        }
      } else {
        merged := merged[k := StampedNode(tree2[k], ts)];
      }
      remaining := remaining - {k};
    }
    MergedFromLeaves(tree1, tree2, replace, overwrite, merged);
  }

  /** A tree that agrees leaf by leaf with the merge result is that result. */
  lemma MergedFromLeaves(dest: StampedTree, src: Tree, replace: bool, overwrite: bool, merged: StampedTree)
    requires forall x :: x in merged <==> x in dest || x in src
    requires forall x :: x in merged ==>
               merged[x] == if x in src && Writes(dest, x, replace, overwrite)
                            then StampedNode(src[x], Stamp(replace)) else dest[x]
    ensures merged == Merged(dest, src, replace, overwrite)
  {
  }

  /** A merge never removes a node: the keys afterwards are the old keys and
      the source's keys, and nodes the source does not touch are unchanged. */
  lemma MergeKeepsNodes(dest: StampedTree, src: Tree, replace: bool, overwrite: bool)
    ensures Merged(dest, src, replace, overwrite).Keys == dest.Keys + src.Keys
    ensures forall k :: k in dest && k !in src ==> Merged(dest, src, replace, overwrite)[k] == dest[k]
  {
  }

  /** Authoritative merge: every source leaf ends with the source's value,
      claimed, whatever the destination held before. */
  lemma ReplaceWins(dest: StampedTree, src: Tree, overwrite: bool)
    ensures forall k :: k in src ==> Merged(dest, src, true, overwrite)[k] == StampedNode(src[k], 1)
  {
  }

  /** Non-authoritative merges never touch a claimed node, write the source
      value at unclaimed nodes exactly when `overwrite` holds, and give
      every written node stamp 0. */
  lemma NonReplacePolicy(dest: StampedTree, src: Tree, overwrite: bool, k: Key)
    requires k in dest || k in src
    ensures k in dest && dest[k].stamp != 0 ==> Merged(dest, src, false, overwrite)[k] == dest[k]
    ensures k in dest && !overwrite ==> Merged(dest, src, false, overwrite)[k] == dest[k]
    ensures k !in dest ==> Merged(dest, src, false, overwrite)[k] == StampedNode(src[k], 0)
    ensures k in dest && k in src && dest[k].stamp == 0 && overwrite ==>
              Merged(dest, src, false, overwrite)[k] == StampedNode(src[k], 0)
  {
  }

  /** Merging the same source twice with the same flags is merging it once. */
  lemma MergeIdempotent(dest: StampedTree, src: Tree, replace: bool, overwrite: bool)
    ensures Merged(Merged(dest, src, replace, overwrite), src, replace, overwrite)
            == Merged(dest, src, replace, overwrite)
  {
    var once := Merged(dest, src, replace, overwrite);
    var twice := Merged(once, src, replace, overwrite);
    assert twice.Keys == once.Keys;
    forall k | k in once ensures twice[k] == once[k] {
    }
  }

  /** If every stamp of the destination is 0 or 1, so is every stamp after a merge. */
  lemma MergeKeepsStampsBinary(dest: StampedTree, src: Tree, replace: bool, overwrite: bool)
    requires forall k :: k in dest ==> dest[k].stamp <= 1
    ensures forall k :: k in Merged(dest, src, replace, overwrite) ==> Merged(dest, src, replace, overwrite)[k].stamp <= 1
  {
  }
}
