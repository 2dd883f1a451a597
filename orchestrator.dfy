/**
 One agent's merger node: the state it keeps between cycles, the merge
 cycle (own diff, threshold gate, publication of the diff, then the
 neighbours' diffs) and the flag-driven loop that triggers it.
 */
module Orchestrator {
  import opened Octree
  import opened Messages
  import opened DiffEngine
  import opened MergeEngine
  import opened SequenceLedger

  /** The node's parameters and the message library it calls. */
  datatype Config = Config(
    agentType: string,                     // "robot" or "base"
    octoType: int,                         // 0: binary messages, otherwise full
    mapThresh: int,                        // new leaves needed to publish a diff
    occupancy: LogOdds -> Occupancy,       // getOccupancy of a leaf
    binaryMsgToMap: Decoder,
    fullMsgToMap: Decoder,
    binaryMapToMsg: Tree -> seq<bv8>,
    fullMapToMsg: Tree -> seq<bv8>)

  /** The decoder the configured message type selects. */
  function MsgToMap(cfg: Config): (d: Decoder)
    ensures cfg.octoType == 0 ==> d == cfg.binaryMsgToMap
    ensures cfg.octoType != 0 ==> d == cfg.fullMsgToMap
  {
    if cfg.octoType == 0 then cfg.binaryMsgToMap else cfg.fullMsgToMap
  }

  /** The encoding the configured message type selects. */
  function MapToMsg(cfg: Config, t: Tree): (bytes: seq<bv8>)
    ensures cfg.octoType == 0 ==> bytes == cfg.binaryMapToMsg(t)
    ensures cfg.octoType != 0 ==> bytes == cfg.fullMapToMsg(t)
  {
    if cfg.octoType == 0 then cfg.binaryMapToMsg(t) else cfg.fullMapToMsg(t)
  }

  /** What the node keeps between cycles, plus the log of neighbour merges. */
  datatype MergerState = MergerState(
    treeOld: Tree,
    treeMerged: StampedTree,
    numDiffs: nat,
    mapdiffs: OctomapArray,
    seqs: Ledger,
    history: seq<Applied>)

  /** The state of a freshly constructed node. */
  function Initial(): MergerState
  {
    MergerState(map[], map[], 0, OctomapArray("", 0, []), map[], [])
  }

  /** The invariant the node keeps: the outbound list holds one diff per
      publication, the i-th carrying sequence number i; every stamp is 0 or
      1; and the ledger matches the log of neighbour merges. */
  ghost predicate ValidState(s: MergerState)
  {
    && |s.mapdiffs.octomaps| == s.mapdiffs.numOctomaps == s.numDiffs
    && (forall i :: 0 <= i < |s.mapdiffs.octomaps| ==> s.mapdiffs.octomaps[i].headerSeq == i)
    && (forall k :: k in s.treeMerged ==> s.treeMerged[k].stamp <= 1)
    && ProgressOk(Progress(s.seqs, s.treeMerged, s.history))
  }

  /** The inputs a cycle can run on: a node on a robot gives up when its own
      map does not decode (a base would go on with a null tree); once the
      own map decodes, the neighbours' declared counts fit their lists and
      every listed diff decodes (the loop neither checks indices nor null
      trees). */
  predicate CanCycle(cfg: Config, myMap: OctomapMsg, neighbors: OctomapNeighbors): (ok: bool)
    ensures cfg.agentType == "robot" && MsgToMap(cfg)(myMap.data).None? ==> ok
    ensures ok ==> cfg.agentType == "robot" || MsgToMap(cfg)(myMap.data).Some?
  {
    match MsgToMap(cfg)(myMap.data)
    case None => cfg.agentType == "robot"
    case Some(_) => NeighborsWellFormed(neighbors) && ArraysDecode(MsgToMap(cfg), Visited(neighbors))
  }

  /** The own-map phase on the decoded map `sys`: diff it against the
      baseline; with more than `mapThresh` new leaves, make `sys` the
      baseline, merge the diff authoritatively and append it to the
      outbound list under the next sequence number. */
  function OwnPhase(cfg: Config, s: MergerState, sys: Tree): (r: MergerState)
    ensures r.seqs == s.seqs && r.history == s.history
    ensures s.treeMerged.Keys <= r.treeMerged.Keys
    ensures r.numDiffs == s.numDiffs || (r.numDiffs == s.numDiffs + 1 && r.treeOld == sys)
  {
    var diff := Diff(s.treeOld, sys, cfg.occupancy);
    if |NewKeys(s.treeOld, sys)| > cfg.mapThresh then
      s.(treeOld := sys,
         treeMerged := Merged(s.treeMerged, diff, true, false),
         numDiffs := s.numDiffs + 1,
         mapdiffs := s.mapdiffs.(octomaps := s.mapdiffs.octomaps + [OctomapMsg(s.numDiffs, MapToMsg(cfg, diff))],
                                 numOctomaps := s.numDiffs + 1))
    else s
  }

  /** The neighbour phase: every listed diff of every visited neighbour. */
  function NeighborPhase(cfg: Config, s: MergerState, neighbors: OctomapNeighbors): (r: MergerState)
    requires NeighborsWellFormed(neighbors) && ArraysDecode(MsgToMap(cfg), Visited(neighbors))
    ensures r.treeOld == s.treeOld && r.numDiffs == s.numDiffs && r.mapdiffs == s.mapdiffs
    ensures s.history <= r.history
  {
    var r := ApplyNeighbors(Progress(s.seqs, s.treeMerged, s.history), Visited(neighbors), MsgToMap(cfg));
    s.(seqs := r.ledger, treeMerged := r.merged, history := r.applied)
  }

  /** One merge cycle on the latest own map and neighbour lists. */
  function CycleSpec(cfg: Config, s: MergerState, myMap: OctomapMsg, neighbors: OctomapNeighbors): (r: MergerState)
    requires CanCycle(cfg, myMap, neighbors)
    ensures s.numDiffs <= r.numDiffs <= s.numDiffs + 1
    ensures s.history <= r.history
  {
    match MsgToMap(cfg)(myMap.data)
    case None => s
    case Some(sys) => NeighborPhase(cfg, OwnPhase(cfg, s, sys), neighbors)
  }

  /** The merger node (OctomapMerger). */
  class OctomapMerger {
    const cfg: Config
    var myMapNew: bool
    var otherMapsNew: bool
    var myMap: OctomapMsg
    var neighbors: OctomapNeighbors
    var treeMerged: StampedTree
    var treeOld: Tree
    var treeDiff: Tree
    var numDiffs: nat
    var mapdiffs: OctomapArray
    var seqs: Ledger
    /** The neighbour merges performed so far, oldest first. */
    ghost var history: seq<Applied>

    ghost function State(): MergerState
      reads this`treeOld, this`treeMerged, this`numDiffs, this`mapdiffs, this`seqs, this`history
    {
      MergerState(treeOld, treeMerged, numDiffs, mapdiffs, seqs, history)
    }

    ghost predicate Valid()
      reads this`treeOld, this`treeMerged, this`numDiffs, this`mapdiffs, this`seqs, this`history, this`treeDiff
    {
      ValidState(State()) && treeDiff == map[]
    }

    constructor (cfg: Config)
      ensures this.cfg == cfg && Valid() && State() == Initial()
      ensures !myMapNew && !otherMapsNew
    {
      this.cfg := cfg;
      myMapNew := false;
      otherMapsNew := false;
      myMap := OctomapMsg(0, []);
      neighbors := OctomapNeighbors(0, []);
      treeMerged := map[];
      treeOld := map[];
      treeDiff := map[];
      numDiffs := 0;
      mapdiffs := OctomapArray("", 0, []);
      seqs := map[];
      history := [];
    }

    /** A new own map arrived: store it and raise its flag. */
    method CallbackMyMap(msg: OctomapMsg)
      modifies this`myMap, this`myMapNew
      ensures myMap == msg && myMapNew
    {
      myMap := msg;
      myMapNew := true;
    }

    /** New neighbour lists arrived: store them and raise their flag. */
    method CallbackNeighborMaps(msg: OctomapNeighbors)
      modifies this`neighbors, this`otherMapsNew
      ensures neighbors == msg && otherMapsNew
    {
      neighbors := msg;
      otherMapsNew := true;
    }

    /** One merge cycle (OctomapMerger::merge). */
    method Merge()
      requires Valid() && CanCycle(cfg, myMap, neighbors)
      modifies this`treeOld, this`treeMerged, this`treeDiff, this`numDiffs, this`mapdiffs, this`seqs, this`history
      ensures Valid()
      ensures State() == CycleSpec(cfg, old(State()), myMap, neighbors)
    {
      var sys := MsgToMap(cfg)(myMap.data);
      if sys.None? && cfg.agentType == "robot" {
        return;
      }
      ghost var s0 := State();
      MergeOwnMap(sys.value);
      MergeNeighborMaps();
      CyclePreservesValid(cfg, s0, myMap, neighbors);
    }

    /** The own-map phase: build the diff against the baseline; when it has
        more than `mapThresh` new leaves, swap the baseline, merge the diff
        authoritatively and append it to the outbound list with sequence
        number `numDiffs - 1` after the increment; clear the diff either way. */
    method MergeOwnMap(treeSys: Tree)
      requires treeDiff == map[]
      modifies this`treeOld, this`treeMerged, this`treeDiff, this`numDiffs, this`mapdiffs
      ensures treeDiff == map[]
      ensures State() == OwnPhase(cfg, old(State()), treeSys)
    {
      ghost var s0 := State();
      var diff, numNodes := BuildDiffTree(treeOld, treeSys, treeDiff, cfg.occupancy);
      EmptyOverlay(Diff(treeOld, treeSys, cfg.occupancy));
      treeDiff := diff;
      ghost var d := Diff(s0.treeOld, treeSys, cfg.occupancy);
      assert treeDiff == d;
      if numNodes > cfg.mapThresh {
        PublishDiff(treeSys);
        OwnPhasePublishes(cfg, s0, treeSys);
        assert State() == OwnPhase(cfg, s0, treeSys);
      } else {
        assert State() == OwnPhase(cfg, s0, treeSys);
      }
      treeDiff := map[];
    }

    /** The publishing branch of the own-map phase: `treeSys` becomes the
        baseline, the diff is merged authoritatively and appended to the
        outbound list under sequence number `numDiffs - 1` after the
        increment. */
    method PublishDiff(treeSys: Tree)
      modifies this`treeOld, this`treeMerged, this`numDiffs, this`mapdiffs
      ensures State() == MergerState(treeSys, Merged(old(treeMerged), treeDiff, true, false), old(numDiffs) + 1,
                                     OctomapArray(old(mapdiffs).owner, old(numDiffs) + 1,
                                                  old(mapdiffs).octomaps + [OctomapMsg(old(numDiffs), MapToMsg(cfg, treeDiff))]),
                                     seqs, history)
    {
      treeOld := treeSys;
      treeMerged := MergeMaps(treeMerged, treeDiff, true, false);
      numDiffs := numDiffs + 1;
      var msg := OctomapMsg(numDiffs - 1, MapToMsg(cfg, treeDiff));
      mapdiffs := mapdiffs.(octomaps := mapdiffs.octomaps + [msg], numOctomaps := numDiffs);
    }

    /** The neighbour phase: every visited neighbour list in order. */
    method MergeNeighborMaps()
      requires NeighborsWellFormed(neighbors) && ArraysDecode(MsgToMap(cfg), Visited(neighbors))
      modifies this`treeMerged, this`seqs, this`history
      ensures State() == NeighborPhase(cfg, old(State()), neighbors)
    {
      ghost var arrays := Visited(neighbors);
      ghost var p0 := Progress(seqs, treeMerged, history);
      var i := 0;
      while i < neighbors.numNeighbors
        invariant i <= |arrays|
        invariant ArraysDecode(MsgToMap(cfg), arrays[..i])
        invariant Progress(seqs, treeMerged, history) == ApplyNeighbors(p0, arrays[..i], MsgToMap(cfg))
      {
        ApplyNeighborsStep(p0, arrays, i, MsgToMap(cfg));
        MergeNeighborList(i);
        i := i + 1;
      }
      assert arrays[..i] == arrays;
    }

    /** The diffs of neighbour list `i`: each one whose sequence number is
        not recorded for its owner is recorded, decoded and merged without
        replacing, overwriting unclaimed leaves only when it is the largest
        number recorded; the lookup gives an unknown owner an empty record. */
    method MergeNeighborList(i: nat)
      requires NeighborsWellFormed(neighbors) && i < neighbors.numNeighbors
      requires ArrayWellFormed(neighbors.neighbors[i])
      requires AllDecode(MsgToMap(cfg), Listed(neighbors.neighbors[i]))
      modifies this`treeMerged, this`seqs, this`history
      ensures Progress(seqs, treeMerged, history) ==
                ApplyDiffs(old(Progress(seqs, treeMerged, history)), neighbors.neighbors[i].owner,
                           Listed(neighbors.neighbors[i]), MsgToMap(cfg))
    {
      var decode := MsgToMap(cfg);
      var nid := neighbors.neighbors[i].owner;
      ghost var msgs := Listed(neighbors.neighbors[i]);
      ghost var p0 := Progress(seqs, treeMerged, history);
      var j := 0;
      while j < neighbors.neighbors[i].numOctomaps
        invariant j <= |msgs|
        invariant AllDecode(decode, msgs[..j])
        invariant Progress(seqs, treeMerged, history) == ApplyDiffs(p0, nid, msgs[..j], decode)
      {
        ApplyDiffsStep(p0, nid, msgs, j, decode);
        var octomap := neighbors.neighbors[i].octomaps[j];
        assert octomap == msgs[j];
        MergeNeighborDiff(nid, octomap);
        j := j + 1;
      }
      assert msgs[..j] == msgs;
    }

    /** One neighbour diff: the lookup gives an unknown owner an empty
        record; a recorded sequence number is skipped; otherwise it is
        recorded, the diff decoded and merged without replacing, with
        overwrite when the number is the largest recorded. */
    method MergeNeighborDiff(nid: string, octomap: OctomapMsg)
      requires Seen(seqs, nid, octomap.headerSeq) || MsgToMap(cfg)(octomap.data).Some?
      modifies this`treeMerged, this`seqs, this`history
      ensures Progress(seqs, treeMerged, history) ==
                ApplyDiff(old(Progress(seqs, treeMerged, history)), nid, octomap, MsgToMap(cfg))
    {
      var curSeq := octomap.headerSeq;
      var l := Touch(seqs, nid);
      seqs := l;
      var seen := Count(l[nid], curSeq) > 0;
      CountPositiveIffIn(l[nid], curSeq);
      if !seen {
        var recorded := l[nid] + [curSeq];
        seqs := l[nid := recorded];
        var treeTemp := MsgToMap(cfg)(octomap.data);
        var overwriteNode := curSeq >= Max(recorded);
        treeMerged := MergeMaps(treeMerged, treeTemp.value, false, overwriteNode);
        history := history + [Applied(nid, curSeq, overwriteNode)];
      }
    }

    /** One pass of the node's main loop: when either flag is raised, lower
        both and run a merge cycle; otherwise do nothing. */
    method Tick()
      requires Valid()
      requires myMapNew || otherMapsNew ==> CanCycle(cfg, myMap, neighbors)
      modifies this`myMapNew, this`otherMapsNew
      modifies this`treeOld, this`treeMerged, this`treeDiff, this`numDiffs, this`mapdiffs, this`seqs, this`history
      ensures Valid() && !myMapNew && !otherMapsNew
      ensures myMap == old(myMap) && neighbors == old(neighbors)
      ensures old(myMapNew || otherMapsNew) ==> State() == CycleSpec(cfg, old(State()), myMap, neighbors)
      ensures !old(myMapNew || otherMapsNew) ==> State() == old(State())
    {
      if myMapNew || otherMapsNew {
        ghost var s0 := State();
        myMapNew := false;
        otherMapsNew := false;
        assert State() == s0;
        Merge();
      }
    }
  }

  /** The own-map phase when the diff passes the threshold. */
  lemma OwnPhasePublishes(cfg: Config, s: MergerState, sys: Tree)
    requires |NewKeys(s.treeOld, sys)| > cfg.mapThresh
    ensures var diff := Diff(s.treeOld, sys, cfg.occupancy);
      OwnPhase(cfg, s, sys)
      == MergerState(sys, Merged(s.treeMerged, diff, true, false), s.numDiffs + 1,
                     OctomapArray(s.mapdiffs.owner, s.numDiffs + 1,
                                  s.mapdiffs.octomaps + [OctomapMsg(s.numDiffs, MapToMsg(cfg, diff))]),
                     s.seqs, s.history)
  {
  }

  /** Overlaying onto an empty tree gives the overlay. */
  lemma EmptyOverlay(m: Tree)
    ensures map[] + m == m
  {
  }

  // ---------------------------------------------------------------------
  // Properties of a cycle

  /** A cycle keeps the node's invariant. */
  lemma CyclePreservesValid(cfg: Config, s: MergerState, myMap: OctomapMsg, neighbors: OctomapNeighbors)
    requires ValidState(s) && CanCycle(cfg, myMap, neighbors)
    ensures ValidState(CycleSpec(cfg, s, myMap, neighbors))
    ensures Grows(s.seqs, CycleSpec(cfg, s, myMap, neighbors).seqs)
    ensures s.history <= CycleSpec(cfg, s, myMap, neighbors).history
  {
    var d := MsgToMap(cfg)(myMap.data);
    if d.Some? {
      var sys := d.value;
      var o := OwnPhase(cfg, s, sys);
      assert ValidState(o) by {
        if |NewKeys(s.treeOld, sys)| > cfg.mapThresh {
          var diff := Diff(s.treeOld, sys, cfg.occupancy);
          MergeKeepsStampsBinary(s.treeMerged, diff, true, false);
          ReplaceKeepsOk(Progress(s.seqs, s.treeMerged, s.history), Merged(s.treeMerged, diff, true, false));
          var os := o.mapdiffs.octomaps;
          assert forall i :: 0 <= i < |s.mapdiffs.octomaps| ==> os[i] == s.mapdiffs.octomaps[i];
        }
      }
      var p := Progress(o.seqs, o.treeMerged, o.history);
      ApplyNeighborsKeepsOk(p, Visited(neighbors), MsgToMap(cfg));
      ApplyNeighborsKeepsStamps(p, Visited(neighbors), MsgToMap(cfg));
    }
  }

  /** The ledger invariant does not depend on the merged tree. */
  lemma ReplaceKeepsOk(p: Progress, merged: StampedTree)
    requires ProgressOk(p)
    ensures ProgressOk(p.(merged := merged))
  {
  }

  /** The publish gate: a cycle publishes (one more diff) exactly when the
      own map has more than `mapThresh` leaves the baseline lacks. Then the
      baseline becomes the own map and the diff is appended under the old
      count; otherwise baseline, count and outbound list stay as they were,
      so the next cycle diffs against the same, older baseline. */
  lemma PublishGate(cfg: Config, s: MergerState, myMap: OctomapMsg, neighbors: OctomapNeighbors)
    requires CanCycle(cfg, myMap, neighbors) && MsgToMap(cfg)(myMap.data).Some?
    ensures var sys := MsgToMap(cfg)(myMap.data).value;
            var r := CycleSpec(cfg, s, myMap, neighbors);
            && (r.numDiffs == s.numDiffs + 1 <==> |NewKeys(s.treeOld, sys)| > cfg.mapThresh)
            && (r.numDiffs == s.numDiffs <==> |NewKeys(s.treeOld, sys)| <= cfg.mapThresh)
            && (|NewKeys(s.treeOld, sys)| <= cfg.mapThresh ==>
                  r.treeOld == s.treeOld && r.mapdiffs == s.mapdiffs)
            && (|NewKeys(s.treeOld, sys)| > cfg.mapThresh ==>
                  && r.treeOld == sys
                  && r.mapdiffs.octomaps == s.mapdiffs.octomaps
                       + [OctomapMsg(s.numDiffs, MapToMsg(cfg, Diff(s.treeOld, sys, cfg.occupancy)))]
                  && r.mapdiffs.numOctomaps == r.numDiffs)
  {
    var sys := MsgToMap(cfg)(myMap.data).value;
    assert CycleSpec(cfg, s, myMap, neighbors) == NeighborPhase(cfg, OwnPhase(cfg, s, sys), neighbors);
  }

  /** A robot whose own map does not decode leaves everything as it was. */
  lemma RobotDecodeFailure(cfg: Config, s: MergerState, myMap: OctomapMsg, neighbors: OctomapNeighbors)
    requires cfg.agentType == "robot" && MsgToMap(cfg)(myMap.data).None?
    ensures CanCycle(cfg, myMap, neighbors)
    ensures CycleSpec(cfg, s, myMap, neighbors) == s
  {
  }

  /** Published own leaves are authoritative: after a publishing cycle every
      leaf of the diff holds the own map's value, claimed, whatever the
      neighbours sent in the same cycle. */
  lemma OwnDiffAuthoritative(cfg: Config, s: MergerState, myMap: OctomapMsg, neighbors: OctomapNeighbors, k: Key)
    requires CanCycle(cfg, myMap, neighbors) && MsgToMap(cfg)(myMap.data).Some?
    requires var sys := MsgToMap(cfg)(myMap.data).value;
             |NewKeys(s.treeOld, sys)| > cfg.mapThresh && k in Diff(s.treeOld, sys, cfg.occupancy)
    ensures var sys := MsgToMap(cfg)(myMap.data).value;
            var merged := CycleSpec(cfg, s, myMap, neighbors).treeMerged;
            k in sys && k in merged && merged[k] == StampedNode(sys[k], 1)
  {
    var sys := MsgToMap(cfg)(myMap.data).value;
    var diff := Diff(s.treeOld, sys, cfg.occupancy);
    var o := OwnPhase(cfg, s, sys);
    DiffContents(s.treeOld, sys, cfg.occupancy, k);
    ReplaceWins(s.treeMerged, diff, false);
    ApplyNeighborsKeepsClaimed(Progress(o.seqs, o.treeMerged, o.history), Visited(neighbors), MsgToMap(cfg));
  }

  /** A cycle never removes a leaf from the merged tree, and leaves claimed
      before the cycle keep their value unless the own diff rewrites them. */
  lemma CycleKeepsNodes(cfg: Config, s: MergerState, myMap: OctomapMsg, neighbors: OctomapNeighbors)
    requires CanCycle(cfg, myMap, neighbors)
    ensures s.treeMerged.Keys <= CycleSpec(cfg, s, myMap, neighbors).treeMerged.Keys
    ensures forall k :: k in s.treeMerged && s.treeMerged[k].stamp != 0 && !OwnRewrites(cfg, s, myMap, k) ==>
              k in CycleSpec(cfg, s, myMap, neighbors).treeMerged &&
              CycleSpec(cfg, s, myMap, neighbors).treeMerged[k] == s.treeMerged[k]
  {
    var d := MsgToMap(cfg)(myMap.data);
    if d.Some? {
      var sys := d.value;
      var o := OwnPhase(cfg, s, sys);
      MergeKeepsNodes(s.treeMerged, Diff(s.treeOld, sys, cfg.occupancy), true, false);
      ApplyNeighborsKeepsClaimed(Progress(o.seqs, o.treeMerged, o.history), Visited(neighbors), MsgToMap(cfg));
    }
  }

  /** The own diff of this cycle is published and writes leaf `k`. */
  predicate OwnRewrites(cfg: Config, s: MergerState, myMap: OctomapMsg, k: Key)
  {
    match MsgToMap(cfg)(myMap.data)
    case None => false
    case Some(sys) => |NewKeys(s.treeOld, sys)| > cfg.mapThresh && k in Diff(s.treeOld, sys, cfg.occupancy)
  }

  /** Running a second cycle on the same messages changes nothing (with a
      non-negative threshold): the own map has no new leaves against the
      baseline it left, and every neighbour diff is recorded already. */
  lemma CycleTwiceIsOnce(cfg: Config, s: MergerState, myMap: OctomapMsg, neighbors: OctomapNeighbors)
    requires CanCycle(cfg, myMap, neighbors) && cfg.mapThresh >= 0
    ensures CycleSpec(cfg, CycleSpec(cfg, s, myMap, neighbors), myMap, neighbors) == CycleSpec(cfg, s, myMap, neighbors)
  {
    var d := MsgToMap(cfg)(myMap.data);
    if d.Some? {
      var sys := d.value;
      var o := OwnPhase(cfg, s, sys);
      var r := NeighborPhase(cfg, o, neighbors);
      assert OwnPhase(cfg, r, sys) == r by {
        if |NewKeys(s.treeOld, sys)| > cfg.mapThresh {
          DiffSelf(sys, cfg.occupancy);
        }
      }
      var p := Progress(o.seqs, o.treeMerged, o.history);
      ReplayIsNoop(p, Visited(neighbors), MsgToMap(cfg));
    }
  }

  /** The outbound sequence numbers are strictly increasing, so none is
      used twice. */
  lemma SequenceNumbersIncrease(s: MergerState, i: nat, j: nat)
    requires ValidState(s) && i < j < |s.mapdiffs.octomaps|
    ensures s.mapdiffs.octomaps[i].headerSeq < s.mapdiffs.octomaps[j].headerSeq
  {
  }

  /** A first publication: against an empty baseline, an own map with two
      leaves has two new leaves, which passes a threshold of 1; the map
      becomes the baseline and both leaves end claimed in the merged tree. */
  lemma FirstPublication(cfg: Config, s: MergerState, myMap: OctomapMsg, neighbors: OctomapNeighbors,
                         k1: Key, k2: Key, v1: LogOdds, v2: LogOdds)
    requires CanCycle(cfg, myMap, neighbors) && k1 != k2
    requires MsgToMap(cfg)(myMap.data) == Some(map[k1 := v1, k2 := v2])
    requires s.treeOld == map[] && cfg.mapThresh == 1
    ensures var r := CycleSpec(cfg, s, myMap, neighbors);
            && r.treeOld == map[k1 := v1, k2 := v2]
            && r.numDiffs == s.numDiffs + 1
            && k1 in r.treeMerged && r.treeMerged[k1] == StampedNode(v1, 1)
            && k2 in r.treeMerged && r.treeMerged[k2] == StampedNode(v2, 1)
  {
    var sys := map[k1 := v1, k2 := v2];
    assert NewKeys(s.treeOld, sys) == {k1, k2};
    assert |NewKeys(s.treeOld, sys)| == 2;
    PublishGate(cfg, s, myMap, neighbors);
    DiffContents(s.treeOld, sys, cfg.occupancy, k1);
    DiffContents(s.treeOld, sys, cfg.occupancy, k2);
    OwnDiffAuthoritative(cfg, s, myMap, neighbors, k1);
    OwnDiffAuthoritative(cfg, s, myMap, neighbors, k2);
  }
}
