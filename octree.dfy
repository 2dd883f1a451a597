/**
 The occupancy trees seen through the merger's eyes. The octree library
 is abstracted to what the merger observes of it: after full expansion a
 tree is a finite map from leaf keys to stored log-odds values, and a
 stamped tree additionally carries a provenance stamp per leaf.
 Pruning and expansion change the representation only, never this map.
 */
module Octree {

  /** One coordinate of an octree key (three 16-bit integers in the library). */
  newtype Coord = x: int | 0 <= x < 0x1_0000

  /** A discretised 3D voxel coordinate. */
  datatype Key = Key(x: Coord, y: Coord, z: Coord)

  /** The value a tree stores at a leaf (a float log-odds in the library). */
  type LogOdds = real

  /** The occupancy probability a leaf reports, a function of its log-odds. */
  type Occupancy = real

  /** A plain occupancy tree: every leaf key with its log-odds value. */
  type Tree = map<Key, LogOdds>

  /** A leaf of a stamped tree: its log-odds and its provenance stamp
      (0 = not claimed by an authoritative source, 1 = claimed). */
  datatype StampedNode = StampedNode(logOdds: LogOdds, stamp: nat)

  /** A stamped occupancy tree. */
  type StampedTree = map<Key, StampedNode>

  /** The result of a decoder: a tree, or None where the library returns null. */
  datatype Option<T> = None | Some(value: T)
}
