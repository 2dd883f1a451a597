/**
 The messages the merger exchanges, reduced to what the merge logic reads:
 an encoded tree with its header sequence number, a list of encoded trees
 with its owner and declared count, and the neighbours' lists.
 */
module Messages {
  import opened Octree

  /** An encoded tree (octomap_msgs/Octomap): the header's sequence number
      and the encoded payload. */
  datatype OctomapMsg = OctomapMsg(headerSeq: nat, data: seq<bv8>)

  /** A list of encoded trees (OctomapArray): the owner's id, the declared
      count and the trees. */
  datatype OctomapArray = OctomapArray(owner: string, numOctomaps: nat, octomaps: seq<OctomapMsg>)

  /** The latest lists received from the neighbours (OctomapNeighbors). */
  datatype OctomapNeighbors = OctomapNeighbors(numNeighbors: nat, neighbors: seq<OctomapArray>)

  /** A payload decoder of the message library; None stands for a null tree. */
  type Decoder = seq<bv8> -> Option<Tree>

  /** The declared count does not exceed the list, so every index the
      merge loop visits exists. */
  predicate ArrayWellFormed(a: OctomapArray)
  {
    a.numOctomaps <= |a.octomaps|
  }

  /** The diffs of a list that the merge loop visits, in order. */
  function Listed(a: OctomapArray): (r: seq<OctomapMsg>)
    requires ArrayWellFormed(a)
    ensures |r| == a.numOctomaps
    ensures forall j :: 0 <= j < |r| ==> r[j] == a.octomaps[j]
  {
    a.octomaps[..a.numOctomaps]
  }

  predicate NeighborsWellFormed(n: OctomapNeighbors)
  {
    n.numNeighbors <= |n.neighbors|
  }

  /** The neighbour lists that the merge loop visits, in order. */
  function Visited(n: OctomapNeighbors): (r: seq<OctomapArray>)
    requires NeighborsWellFormed(n)
    ensures |r| == n.numNeighbors
    ensures forall i :: 0 <= i < |r| ==> r[i] == n.neighbors[i]
  {
    n.neighbors[..n.numNeighbors]
  }

  /** Every message of `msgs` decodes to a tree. */
  predicate AllDecode(decode: Decoder, msgs: seq<OctomapMsg>)
  {
    forall j :: 0 <= j < |msgs| ==> decode(msgs[j].data).Some?
  }

  /** Every list is well formed and every diff it lists decodes. */
  predicate ArraysDecode(decode: Decoder, arrays: seq<OctomapArray>)
  {
    forall i :: 0 <= i < |arrays| ==> ArrayWellFormed(arrays[i]) && AllDecode(decode, Listed(arrays[i]))
  }
}
