/**
 The neighbour phase of a merge cycle: the per-neighbour record of applied
 sequence numbers, the skip of diffs already applied, and the choice between
 conditional overwrite (the diff is the newest seen from that neighbour) and
 add-only merge (an older diff arriving late).
 */
module SequenceLedger {
  import opened Octree
  import opened Messages
  import MergeEngine

  /** For each neighbour id, the sequence numbers of its diffs merged so
      far, in the order they were merged. */
  type Ledger = map<string, seq<nat>>

  /** The largest element of a non-empty list (std::max_element). */
  function Max(s: seq<nat>): (m: nat)
    requires |s| > 0
    ensures exists i :: 0 <= i < |s| && s[i] == m
    ensures forall i :: 0 <= i < |s| ==> s[i] <= m
  {
    if |s| == 1 then s[0]
    else
      var rest := Max(s[..|s| - 1]);
      assert forall i :: 0 <= i < |s| - 1 ==> s[..|s| - 1][i] == s[i];
      if s[|s| - 1] > rest then s[|s| - 1] else rest
  }

  /** The record a lookup of `nid` leaves behind: an unknown id gets an
      empty record, every other entry is left as it was. */
  function Touch(l: Ledger, nid: string): (r: Ledger)
    ensures nid in r && r[nid] == (if nid in l then l[nid] else [])
    ensures r.Keys == l.Keys + {nid}
    ensures forall n :: n in l ==> r[n] == l[n]
  {
    if nid in l then l else l[nid := []]
  }

  /** The sequence numbers recorded for `nid`, empty for an unknown id. */
  function Lookup(l: Ledger, nid: string): seq<nat>
  {
    if nid in l then l[nid] else []
  }

  /** Sequence number `s` of neighbour `nid` has been applied. */
  predicate Seen(l: Ledger, nid: string, s: nat)
  {
    nid in l && s in l[nid]
  }

  /** How many entries of `rec` equal `s` (std::count). */
  function Count(rec: seq<nat>, s: nat): (c: nat)
    ensures c <= |rec|
  {
    if rec == [] then 0 else (if rec[0] == s then 1 else 0) + Count(rec[1..], s)
  }

  /** A number is counted in a record exactly when it is one of its entries. */
  lemma {:induction false} CountPositiveIffIn(rec: seq<nat>, s: nat)
    ensures Count(rec, s) > 0 <==> s in rec
  {
    if rec != [] {
      CountPositiveIffIn(rec[1..], s);
      assert rec == [rec[0]] + rec[1..];
    }
  }

  /** The duplicate test on the looked-up record is `Seen`. */
  lemma SeenIsCounted(l: Ledger, nid: string, s: nat)
    ensures Seen(l, nid, s) <==> Count(Lookup(l, nid), s) > 0
  {
    CountPositiveIffIn(Lookup(l, nid), s);
  }

  /** `s` is no smaller than every sequence number recorded for `nid`. */
  predicate IsLatest(l: Ledger, nid: string, s: nat)
  {
    forall i :: 0 <= i < |Lookup(l, nid)| ==> Lookup(l, nid)[i] <= s
  }

  /** `IsLatest` is the comparison against the largest recorded number; an
      empty record has no largest number and every number is latest. */
  lemma LatestIsMax(l: Ledger, nid: string, s: nat)
    ensures IsLatest(l, nid, s) <==> Lookup(l, nid) == [] || Max(Lookup(l, nid)) <= s
  {
  }

  /** One neighbour diff merged into the merged tree. */
  datatype Applied = Applied(owner: string, seqNum: nat, overwrite: bool)

  /** The state the neighbour phase threads along: the ledger, the merged
      tree and the log of merges performed. */
  datatype Progress = Progress(ledger: Ledger, merged: StampedTree, applied: seq<Applied>)

  /** One diff of neighbour `nid`: look the neighbour up, skip the diff if its
      sequence number is recorded, otherwise record it, compare it with the
      largest recorded number (itself included) and merge it without
      replacing, overwriting unclaimed nodes only when it is the largest. */
  function ApplyDiff(p: Progress, nid: string, msg: OctomapMsg, decode: Decoder): (r: Progress)
    requires Seen(p.ledger, nid, msg.headerSeq) || decode(msg.data).Some?
    ensures Seen(r.ledger, nid, msg.headerSeq)
    ensures p.applied <= r.applied && |r.applied| <= |p.applied| + 1
  {
    var l := Touch(p.ledger, nid);
    if msg.headerSeq in l[nid] then p.(ledger := l)
    else
      var recorded := l[nid] + [msg.headerSeq];
      var overwrite := msg.headerSeq >= Max(recorded);
      Progress(l[nid := recorded],
               MergeEngine.Merged(p.merged, decode(msg.data).value, false, overwrite),
               p.applied + [Applied(nid, msg.headerSeq, overwrite)])
  }

  /** The diffs of one neighbour list, in order. */
  function ApplyDiffs(p: Progress, nid: string, msgs: seq<OctomapMsg>, decode: Decoder): (r: Progress)
    requires AllDecode(decode, msgs)
    ensures p.applied <= r.applied && |r.applied| <= |p.applied| + |msgs|
    decreases |msgs|
  {
    if msgs == [] then p
    else
      var init := msgs[..|msgs| - 1];
      assert AllDecode(decode, init) by {
        assert forall j :: 0 <= j < |init| ==> init[j] == msgs[j];
      }
      ApplyDiff(ApplyDiffs(p, nid, init, decode), nid, msgs[|msgs| - 1], decode)
  }

  /** Every neighbour list, in order. */
  function ApplyNeighbors(p: Progress, arrays: seq<OctomapArray>, decode: Decoder): (r: Progress)
    requires ArraysDecode(decode, arrays)
    ensures p.applied <= r.applied
    decreases |arrays|
  {
    if arrays == [] then p
    else
      var init := arrays[..|arrays| - 1];
      var last := arrays[|arrays| - 1];
      assert ArraysDecode(decode, init) by {
        assert forall i :: 0 <= i < |init| ==> init[i] == arrays[i];
      }
      ApplyDiffs(ApplyNeighbors(p, init, decode), last.owner, Listed(last), decode)
  }

  // ---------------------------------------------------------------------
  // The overwrite decision

  /** Comparing against the maximum after appending the new number is the
      same as comparing against every number recorded before it. */
  lemma OverwriteIffLatest(recorded: seq<nat>, cur: nat)
    ensures cur >= Max(recorded + [cur]) <==> forall i :: 0 <= i < |recorded| ==> recorded[i] <= cur
  {
    var all := recorded + [cur];
    if recorded == [] {
      assert all == [cur];
    } else {
      assert all[..|all| - 1] == recorded;
      var m := Max(recorded);
      assert Max(all) == if cur > m then cur else m;
      var j :| 0 <= j < |recorded| && recorded[j] == m;
      assert (forall i :: 0 <= i < |recorded| ==> recorded[i] <= cur) <==> m <= cur;
    }
  }

  /** What one diff does: an applied number is skipped and changes nothing
      but the lookup's record; an unapplied one is recorded, logged and
      merged with overwrite exactly when it is the latest. */
  lemma ApplyDiffEffect(p: Progress, nid: string, msg: OctomapMsg, decode: Decoder)
    requires Seen(p.ledger, nid, msg.headerSeq) || decode(msg.data).Some?
    ensures var r := ApplyDiff(p, nid, msg, decode);
      && r.ledger.Keys == p.ledger.Keys + {nid}
      && Seen(r.ledger, nid, msg.headerSeq)
      && (Seen(p.ledger, nid, msg.headerSeq) ==> r == p)
      && (!Seen(p.ledger, nid, msg.headerSeq) ==>
            var ow := IsLatest(p.ledger, nid, msg.headerSeq);
            && r.ledger == p.ledger[nid := Lookup(p.ledger, nid) + [msg.headerSeq]]
            && r.applied == p.applied + [Applied(nid, msg.headerSeq, ow)]
            && r.merged == MergeEngine.Merged(p.merged, decode(msg.data).value, false, ow))
  {
    if Seen(p.ledger, nid, msg.headerSeq) {
      ApplyDiffSkips(p, nid, msg, decode);
    } else {
      ApplyDiffRecords(p, nid, msg, decode);
    }
  }

  /** The skip branch of `ApplyDiffEffect`. */
  lemma ApplyDiffSkips(p: Progress, nid: string, msg: OctomapMsg, decode: Decoder)
    requires Seen(p.ledger, nid, msg.headerSeq)
    ensures ApplyDiff(p, nid, msg, decode) == p
  {
    assert Touch(p.ledger, nid) == p.ledger;
  }

  /** The record-and-merge branch of `ApplyDiffEffect`. */
  lemma ApplyDiffRecords(p: Progress, nid: string, msg: OctomapMsg, decode: Decoder)
    requires !Seen(p.ledger, nid, msg.headerSeq) && decode(msg.data).Some?
    ensures var r := ApplyDiff(p, nid, msg, decode);
      var ow := IsLatest(p.ledger, nid, msg.headerSeq);
      && r.ledger == p.ledger[nid := Lookup(p.ledger, nid) + [msg.headerSeq]]
      && r.applied == p.applied + [Applied(nid, msg.headerSeq, ow)]
      && r.merged == MergeEngine.Merged(p.merged, decode(msg.data).value, false, ow)
  {
    OverwriteIffLatest(Lookup(p.ledger, nid), msg.headerSeq);
    var l := Touch(p.ledger, nid);
    var rec := Lookup(p.ledger, nid) + [msg.headerSeq];
    assert l[nid] == Lookup(p.ledger, nid);
    assert l[nid := rec] == p.ledger[nid := rec];
  }

  // ---------------------------------------------------------------------
  // Walking a list one index at a time, as the merge loops do

  /** Applying the first `j + 1` diffs of a list is applying the first `j`
      and then diff `j`. */
  lemma ApplyDiffsStep(p: Progress, nid: string, msgs: seq<OctomapMsg>, j: nat, decode: Decoder)
    requires AllDecode(decode, msgs) && j < |msgs|
    ensures AllDecode(decode, msgs[..j]) && AllDecode(decode, msgs[..j + 1])
    ensures ApplyDiffs(p, nid, msgs[..j + 1], decode)
            == ApplyDiff(ApplyDiffs(p, nid, msgs[..j], decode), nid, msgs[j], decode)
  {
    assert forall k :: 0 <= k < j ==> msgs[..j][k] == msgs[k];
    assert msgs[..j + 1][..j] == msgs[..j];
  }

  /** Applying the first `i + 1` lists is applying the first `i` and then
      every listed diff of list `i`. */
  lemma ApplyNeighborsStep(p: Progress, arrays: seq<OctomapArray>, i: nat, decode: Decoder)
    requires ArraysDecode(decode, arrays) && i < |arrays|
    ensures ArraysDecode(decode, arrays[..i]) && ArraysDecode(decode, arrays[..i + 1])
    ensures ApplyNeighbors(p, arrays[..i + 1], decode)
            == ApplyDiffs(ApplyNeighbors(p, arrays[..i], decode), arrays[i].owner, Listed(arrays[i]), decode)
  {
    assert forall k :: 0 <= k < i ==> arrays[..i][k] == arrays[k];
    assert arrays[..i + 1][..i] == arrays[..i];
  }

  // ---------------------------------------------------------------------
  // The ledger invariant: no number twice, and the ledger records exactly
  // the merges logged.

  /** No neighbour's record holds a number twice. */
  predicate LedgerNoDup(l: Ledger)
  {
    forall n :: n in l ==> forall i, j :: 0 <= i < j < |l[n]| ==> l[n][i] != l[n][j]
  }

  /** Neighbour `nid`'s diff `s` appears in the merge log. */
  predicate Logged(h: seq<Applied>, nid: string, s: nat)
  {
    exists i :: 0 <= i < |h| && h[i].owner == nid && h[i].seqNum == s
  }

  /** No (neighbour, sequence number) pair is merged twice. */
  predicate OncePerPair(h: seq<Applied>)
  {
    forall i, j :: 0 <= i < j < |h| ==> h[i].owner != h[j].owner || h[i].seqNum != h[j].seqNum
  }

  /** The ledger invariant of the neighbour phase. */
  ghost predicate ProgressOk(p: Progress)
  {
    && LedgerNoDup(p.ledger)
    && OncePerPair(p.applied)
    && forall n, s :: Seen(p.ledger, n, s) <==> Logged(p.applied, n, s)
  }

  /** Every later record extends the earlier one, for every neighbour. */
  predicate Grows(l: Ledger, l': Ledger)
  {
    forall n :: n in l ==> n in l' && l[n] <= l'[n]
  }

  lemma ApplyDiffKeepsOk(p: Progress, nid: string, msg: OctomapMsg, decode: Decoder)
    requires Seen(p.ledger, nid, msg.headerSeq) || decode(msg.data).Some?
    requires ProgressOk(p)
    ensures ProgressOk(ApplyDiff(p, nid, msg, decode))
    ensures Grows(p.ledger, ApplyDiff(p, nid, msg, decode).ledger)
    ensures p.applied <= ApplyDiff(p, nid, msg, decode).applied
  {
    if Seen(p.ledger, nid, msg.headerSeq) {
      ApplyDiffSkips(p, nid, msg, decode);
    } else {
      ApplyDiffRecords(p, nid, msg, decode);
      RecordKeepsNoDup(p.ledger, nid, msg.headerSeq);
      LogKeepsOncePerPair(p, nid, msg.headerSeq, IsLatest(p.ledger, nid, msg.headerSeq));
      RecordMatchesLog(p, nid, msg.headerSeq, IsLatest(p.ledger, nid, msg.headerSeq));
    }
  }

  lemma RecordKeepsNoDup(l: Ledger, nid: string, s: nat)
    requires LedgerNoDup(l) && !Seen(l, nid, s)
    ensures LedgerNoDup(l[nid := Lookup(l, nid) + [s]])
  {
    var rec := Lookup(l, nid);
    var l' := l[nid := rec + [s]];
    forall n | n in l'
      ensures forall i, j :: 0 <= i < j < |l'[n]| ==> l'[n][i] != l'[n][j]
    {
      if n == nid {
        forall i, j | 0 <= i < j < |l'[n]| ensures l'[n][i] != l'[n][j] {
          if j == |rec| {
            assert l'[n][i] == rec[i];
          } else {
            assert n in l && l[n] == rec;
          }
        }
      }
    }
  }

  lemma LogKeepsOncePerPair(p: Progress, nid: string, s: nat, ow: bool)
    requires ProgressOk(p) && !Seen(p.ledger, nid, s)
    ensures OncePerPair(p.applied + [Applied(nid, s, ow)])
  {
    var h := p.applied + [Applied(nid, s, ow)];
    assert !Logged(p.applied, nid, s);
    forall i, j | 0 <= i < j < |h|
      ensures h[i].owner != h[j].owner || h[i].seqNum != h[j].seqNum
    {
      if j == |p.applied| {
        assert h[i] == p.applied[i];
      }
    }
  }

  lemma RecordMatchesLog(p: Progress, nid: string, s: nat, ow: bool)
    requires ProgressOk(p) && !Seen(p.ledger, nid, s)
    ensures forall n, q :: Seen(p.ledger[nid := Lookup(p.ledger, nid) + [s]], n, q) <==>
                           Logged(p.applied + [Applied(nid, s, ow)], n, q)
  {
    var rec := Lookup(p.ledger, nid);
    var l' := p.ledger[nid := rec + [s]];
    var h := p.applied + [Applied(nid, s, ow)];
    forall n, q ensures Seen(l', n, q) <==> Logged(h, n, q) {
      if Seen(l', n, q) {
        if n == nid && q == s {
          assert h[|p.applied|].owner == n;
        } else {
          if n == nid {
            assert q in rec;
          }
          assert Seen(p.ledger, n, q);
          var i :| 0 <= i < |p.applied| && p.applied[i].owner == n && p.applied[i].seqNum == q;
          assert h[i] == p.applied[i];
        }
      }
      if Logged(h, n, q) {
        var i :| 0 <= i < |h| && h[i].owner == n && h[i].seqNum == q;
        if i < |p.applied| {
          assert p.applied[i] == h[i];
          assert Logged(p.applied, n, q);
          assert Seen(p.ledger, n, q);
        } else {
          assert l'[nid][|rec|] == s;
        }
      }
    }
  }

  /** Applying one more diff after a list is applying the longer list. */
  lemma ApplyDiffsSnoc(p: Progress, nid: string, msgs: seq<OctomapMsg>, msg: OctomapMsg, decode: Decoder)
    requires AllDecode(decode, msgs) && decode(msg.data).Some?
    ensures AllDecode(decode, msgs + [msg])
    ensures ApplyDiffs(p, nid, msgs + [msg], decode) == ApplyDiff(ApplyDiffs(p, nid, msgs, decode), nid, msg, decode)
  {
    var all := msgs + [msg];
    assert all[..|all| - 1] == msgs;
  }

  lemma {:induction false} ApplyDiffsKeepsOk(p: Progress, nid: string, msgs: seq<OctomapMsg>, decode: Decoder)
    requires AllDecode(decode, msgs)
    requires ProgressOk(p)
    ensures ProgressOk(ApplyDiffs(p, nid, msgs, decode))
    ensures Grows(p.ledger, ApplyDiffs(p, nid, msgs, decode).ledger)
    ensures p.applied <= ApplyDiffs(p, nid, msgs, decode).applied
    decreases |msgs|
  {
    if msgs != [] {
      var init := msgs[..|msgs| - 1];
      assert forall j :: 0 <= j < |init| ==> init[j] == msgs[j];
      ApplyDiffsKeepsOk(p, nid, init, decode);
      var q := ApplyDiffs(p, nid, init, decode);
      ApplyDiffKeepsOk(q, nid, msgs[|msgs| - 1], decode);
      GrowsTransitive(p.ledger, q.ledger, ApplyDiffs(p, nid, msgs, decode).ledger);
    }
  }

  /** The neighbour phase keeps the ledger invariant, only extends each
      record and only appends to the merge log. */
  lemma {:induction false} ApplyNeighborsKeepsOk(p: Progress, arrays: seq<OctomapArray>, decode: Decoder)
    requires ArraysDecode(decode, arrays)
    requires ProgressOk(p)
    ensures ProgressOk(ApplyNeighbors(p, arrays, decode))
    ensures Grows(p.ledger, ApplyNeighbors(p, arrays, decode).ledger)
    ensures p.applied <= ApplyNeighbors(p, arrays, decode).applied
    decreases |arrays|
  {
    if arrays != [] {
      var init := arrays[..|arrays| - 1];
      var last := arrays[|arrays| - 1];
      assert forall i :: 0 <= i < |init| ==> init[i] == arrays[i];
      ApplyNeighborsKeepsOk(p, init, decode);
      var q := ApplyNeighbors(p, init, decode);
      ApplyDiffsKeepsOk(q, last.owner, Listed(last), decode);
      GrowsTransitive(p.ledger, q.ledger, ApplyNeighbors(p, arrays, decode).ledger);
    }
  }

  lemma GrowsTransitive(a: Ledger, b: Ledger, c: Ledger)
    requires Grows(a, b) && Grows(b, c)
    ensures Grows(a, c)
  {
    forall n | n in a ensures n in c && a[n] <= c[n] {
      assert a[n] <= b[n] && b[n] <= c[n];
      assert forall i :: 0 <= i < |a[n]| ==> a[n][i] == b[n][i] == c[n][i];
    }
  }

  /** A number seen stays seen as the ledger grows. */
  lemma SeenGrows(l: Ledger, l': Ledger, nid: string, s: nat)
    requires Grows(l, l') && Seen(l, nid, s)
    ensures Seen(l', nid, s)
  {
    var i :| 0 <= i < |l[nid]| && l[nid][i] == s;
    assert l'[nid][i] == s;
  }

  // ---------------------------------------------------------------------
  // Receiving the same lists again merges nothing.

  /** Every diff listed in `a` is seen in `l`. */
  predicate ListSeen(l: Ledger, a: OctomapArray)
    requires ArrayWellFormed(a)
  {
    forall j :: 0 <= j < |Listed(a)| ==> Seen(l, a.owner, Listed(a)[j].headerSeq)
  }

  predicate AllListsSeen(l: Ledger, arrays: seq<OctomapArray>)
  {
    forall i :: 0 <= i < |arrays| ==> ArrayWellFormed(arrays[i]) && ListSeen(l, arrays[i])
  }

  lemma {:induction false} ApplyDiffsSeesAll(p: Progress, nid: string, msgs: seq<OctomapMsg>, decode: Decoder)
    requires AllDecode(decode, msgs)
    ensures Grows(p.ledger, ApplyDiffs(p, nid, msgs, decode).ledger)
    ensures forall j :: 0 <= j < |msgs| ==> Seen(ApplyDiffs(p, nid, msgs, decode).ledger, nid, msgs[j].headerSeq)
    decreases |msgs|
  {
    if msgs != [] {
      var init := msgs[..|msgs| - 1];
      assert forall j :: 0 <= j < |init| ==> init[j] == msgs[j];
      ApplyDiffsSeesAll(p, nid, init, decode);
      var q := ApplyDiffs(p, nid, init, decode);
      var r := ApplyDiffs(p, nid, msgs, decode);
      assert r == ApplyDiff(q, nid, msgs[|msgs| - 1], decode);
      ApplyDiffGrows(q, nid, msgs[|msgs| - 1], decode);
      GrowsTransitive(p.ledger, q.ledger, r.ledger);
      forall j | 0 <= j < |msgs| ensures Seen(r.ledger, nid, msgs[j].headerSeq) {
        if j < |init| {
          SeenGrows(q.ledger, r.ledger, nid, msgs[j].headerSeq);
        }
      }
    }
  }

  /** One diff only extends the ledger. */
  lemma ApplyDiffGrows(p: Progress, nid: string, msg: OctomapMsg, decode: Decoder)
    requires Seen(p.ledger, nid, msg.headerSeq) || decode(msg.data).Some?
    ensures Grows(p.ledger, ApplyDiff(p, nid, msg, decode).ledger)
  {
    ApplyDiffEffect(p, nid, msg, decode);
  }

  /** After the neighbour phase every diff it visited is seen. */
  lemma {:induction false} ApplyNeighborsSeesAll(p: Progress, arrays: seq<OctomapArray>, decode: Decoder)
    requires ArraysDecode(decode, arrays)
    ensures Grows(p.ledger, ApplyNeighbors(p, arrays, decode).ledger)
    ensures AllListsSeen(ApplyNeighbors(p, arrays, decode).ledger, arrays)
    decreases |arrays|
  {
    if arrays != [] {
      var init := arrays[..|arrays| - 1];
      var last := arrays[|arrays| - 1];
      assert forall i :: 0 <= i < |init| ==> init[i] == arrays[i];
      ApplyNeighborsSeesAll(p, init, decode);
      var q := ApplyNeighbors(p, init, decode);
      var r := ApplyNeighbors(p, arrays, decode);
      ApplyDiffsSeesAll(q, last.owner, Listed(last), decode);
      GrowsTransitive(p.ledger, q.ledger, r.ledger);
      forall i | 0 <= i < |arrays| ensures ArrayWellFormed(arrays[i]) && ListSeen(r.ledger, arrays[i]) {
        if i < |init| {
          forall j | 0 <= j < |Listed(arrays[i])| ensures Seen(r.ledger, arrays[i].owner, Listed(arrays[i])[j].headerSeq) {
            assert ListSeen(q.ledger, init[i]);
            SeenGrows(q.ledger, r.ledger, arrays[i].owner, Listed(arrays[i])[j].headerSeq);
          }
        }
      }
    }
  }

  lemma {:induction false} ApplyDiffsSeenIsNoop(p: Progress, nid: string, msgs: seq<OctomapMsg>, decode: Decoder)
    requires AllDecode(decode, msgs)
    requires forall j :: 0 <= j < |msgs| ==> Seen(p.ledger, nid, msgs[j].headerSeq)
    ensures ApplyDiffs(p, nid, msgs, decode) == p
    decreases |msgs|
  {
    if msgs != [] {
      var init := msgs[..|msgs| - 1];
      assert forall j :: 0 <= j < |init| ==> init[j] == msgs[j];
      ApplyDiffsSeenIsNoop(p, nid, init, decode);
      ApplyDiffEffect(p, nid, msgs[|msgs| - 1], decode);
    }
  }

  lemma {:induction false} ApplyNeighborsSeenIsNoop(p: Progress, arrays: seq<OctomapArray>, decode: Decoder)
    requires ArraysDecode(decode, arrays)
    requires AllListsSeen(p.ledger, arrays)
    ensures ApplyNeighbors(p, arrays, decode) == p
    decreases |arrays|
  {
    if arrays != [] {
      var init := arrays[..|arrays| - 1];
      var last := arrays[|arrays| - 1];
      assert forall i :: 0 <= i < |init| ==> init[i] == arrays[i];
      ApplyNeighborsSeenIsNoop(p, init, decode);
      assert ListSeen(p.ledger, last);
      ApplyDiffsSeenIsNoop(p, last.owner, Listed(last), decode);
    }
  }

  /** Applying the same neighbour lists a second time changes nothing: every
      (neighbour, sequence number) pair is merged at most once. */
  lemma ReplayIsNoop(p: Progress, arrays: seq<OctomapArray>, decode: Decoder)
    requires ArraysDecode(decode, arrays)
    ensures ApplyNeighbors(ApplyNeighbors(p, arrays, decode), arrays, decode) == ApplyNeighbors(p, arrays, decode)
  {
    ApplyNeighborsSeesAll(p, arrays, decode);
    ApplyNeighborsSeenIsNoop(ApplyNeighbors(p, arrays, decode), arrays, decode);
  }

  // ---------------------------------------------------------------------
  // What the neighbour phase does to the merged tree

  /** The neighbour phase never removes a node, and never changes a node
      claimed by this agent's own diffs. */
  lemma {:induction false} ApplyDiffsKeepsClaimed(p: Progress, nid: string, msgs: seq<OctomapMsg>, decode: Decoder)
    requires AllDecode(decode, msgs)
    ensures p.merged.Keys <= ApplyDiffs(p, nid, msgs, decode).merged.Keys
    ensures forall k :: k in p.merged && p.merged[k].stamp != 0 ==>
              ApplyDiffs(p, nid, msgs, decode).merged[k] == p.merged[k]
    decreases |msgs|
  {
    if msgs != [] {
      var init := msgs[..|msgs| - 1];
      assert forall j :: 0 <= j < |init| ==> init[j] == msgs[j];
      ApplyDiffsKeepsClaimed(p, nid, init, decode);
      var q := ApplyDiffs(p, nid, init, decode);
      var msg := msgs[|msgs| - 1];
      ApplyDiffEffect(q, nid, msg, decode);
      if !Seen(q.ledger, nid, msg.headerSeq) {
        var src := decode(msg.data).value;
        var ow := IsLatest(q.ledger, nid, msg.headerSeq);
        MergeEngine.MergeKeepsNodes(q.merged, src, false, ow);
        forall k | k in q.merged && q.merged[k].stamp != 0
          ensures MergeEngine.Merged(q.merged, src, false, ow)[k] == q.merged[k]
        {
          MergeEngine.NonReplacePolicy(q.merged, src, ow, k);
        }
      }
    }
  }

  lemma {:induction false} ApplyNeighborsKeepsClaimed(p: Progress, arrays: seq<OctomapArray>, decode: Decoder)
    requires ArraysDecode(decode, arrays)
    ensures p.merged.Keys <= ApplyNeighbors(p, arrays, decode).merged.Keys
    ensures forall k :: k in p.merged && p.merged[k].stamp != 0 ==>
              ApplyNeighbors(p, arrays, decode).merged[k] == p.merged[k]
    decreases |arrays|
  {
    if arrays != [] {
      var init := arrays[..|arrays| - 1];
      var last := arrays[|arrays| - 1];
      assert forall i :: 0 <= i < |init| ==> init[i] == arrays[i];
      ApplyNeighborsKeepsClaimed(p, init, decode);
      ApplyDiffsKeepsClaimed(ApplyNeighbors(p, init, decode), last.owner, Listed(last), decode);
    }
  }

  // ---------------------------------------------------------------------
  // Out-of-order arrival

  /** The sequence numbers of a list of diffs, in order. */
  function Numbers(msgs: seq<OctomapMsg>): (r: seq<nat>)
    ensures |r| == |msgs| && forall i :: 0 <= i < |msgs| ==> r[i] == msgs[i].headerSeq
    decreases |msgs|
  {
    if msgs == [] then []
    else
      var init := msgs[..|msgs| - 1];
      assert forall i :: 0 <= i < |init| ==> init[i] == msgs[i];
      Numbers(init) + [msgs[|msgs| - 1].headerSeq]
  }

  /** No two diffs of the list carry the same sequence number. */
  predicate DistinctNumbers(msgs: seq<OctomapMsg>)
  {
    forall i, j :: 0 <= i < j < |msgs| ==> msgs[i].headerSeq != msgs[j].headerSeq
  }

  /** The merges a list of diffs with distinct numbers produces from a
      neighbour never heard of: every diff, in order, with overwrite exactly
      when no earlier diff of the list has a larger number. */
  function FirstContactLog(nid: string, msgs: seq<OctomapMsg>): (r: seq<Applied>)
    ensures |r| == |msgs|
    decreases |msgs|
  {
    if msgs == [] then []
    else
      var init := msgs[..|msgs| - 1];
      var last := msgs[|msgs| - 1];
      FirstContactLog(nid, init)
        + [Applied(nid, last.headerSeq, forall i :: 0 <= i < |init| ==> init[i].headerSeq <= last.headerSeq)]
  }

  /** Diffs with distinct numbers from a neighbour the ledger has never
      recorded are each recorded and merged once, in arrival order, and a
      diff overwrites exactly when it is the largest number so far. */
  lemma {:induction false} ApplyDiffsFirstContact(p: Progress, nid: string, msgs: seq<OctomapMsg>, decode: Decoder)
    requires AllDecode(decode, msgs) && DistinctNumbers(msgs) && nid !in p.ledger
    ensures msgs != [] ==> ApplyDiffs(p, nid, msgs, decode).ledger == p.ledger[nid := Numbers(msgs)]
    ensures ApplyDiffs(p, nid, msgs, decode).applied == p.applied + FirstContactLog(nid, msgs)
    decreases |msgs|
  {
    FirstContactLedger(p, nid, msgs, decode);
    if msgs != [] {
      var init := msgs[..|msgs| - 1];
      var msg := msgs[|msgs| - 1];
      FirstContactInit(decode, msgs);
      ApplyDiffsFirstContact(p, nid, init, decode);
      FirstContactLedger(p, nid, init, decode);
      var rec := Numbers(init);
      var ow := forall i :: 0 <= i < |init| ==> init[i].headerSeq <= msg.headerSeq;
      var q := ApplyDiffs(p, nid, init, decode);
      assert ApplyDiffs(p, nid, msgs, decode) == ApplyDiff(q, nid, msg, decode);
      FirstContactStep(q, nid, msg, decode, p.ledger, rec);
      var e := [Applied(nid, msg.headerSeq, ow)];
      assert FirstContactLog(nid, msgs) == FirstContactLog(nid, init) + e;
      AppendAssoc(p.applied, FirstContactLog(nid, init), e);
    }
  }

  /** The record half of `ApplyDiffsFirstContact`. */
  lemma {:induction false} FirstContactLedger(p: Progress, nid: string, msgs: seq<OctomapMsg>, decode: Decoder)
    requires AllDecode(decode, msgs) && DistinctNumbers(msgs) && nid !in p.ledger
    ensures msgs != [] ==> ApplyDiffs(p, nid, msgs, decode).ledger == p.ledger[nid := Numbers(msgs)]
    decreases |msgs|
  {
    if msgs != [] {
      var init := msgs[..|msgs| - 1];
      var msg := msgs[|msgs| - 1];
      FirstContactInit(decode, msgs);
      FirstContactLedger(p, nid, init, decode);
      var q := ApplyDiffs(p, nid, init, decode);
      assert ApplyDiffs(p, nid, msgs, decode) == ApplyDiff(q, nid, msg, decode);
      FirstContactStep(q, nid, msg, decode, p.ledger, Numbers(init));
    }
  }

  /** What the induction of `ApplyDiffsFirstContact` needs of the list
      without its last diff. */
  lemma FirstContactInit(decode: Decoder, msgs: seq<OctomapMsg>)
    requires AllDecode(decode, msgs) && DistinctNumbers(msgs) && msgs != []
    ensures var init := msgs[..|msgs| - 1];
      && AllDecode(decode, init) && DistinctNumbers(init)
      && decode(msgs[|msgs| - 1].data).Some?
      && msgs[|msgs| - 1].headerSeq !in Numbers(init)
      && Numbers(msgs) == Numbers(init) + [msgs[|msgs| - 1].headerSeq]
      && ((forall i :: 0 <= i < |init| ==> init[i].headerSeq <= msgs[|msgs| - 1].headerSeq)
          == (forall i :: 0 <= i < |init| ==> Numbers(init)[i] <= msgs[|msgs| - 1].headerSeq))
  {
    var init := msgs[..|msgs| - 1];
    assert forall j :: 0 <= j < |init| ==> init[j] == msgs[j];
  }

  lemma AppendAssoc(a: seq<Applied>, b: seq<Applied>, c: seq<Applied>)
    ensures (a + b) + c == a + (b + c)
  {
  }

  /** One new diff from a neighbour whose only record is `rec`, on top of a
      ledger `base` that does not know it. */
  lemma FirstContactStep(q: Progress, nid: string, msg: OctomapMsg, decode: Decoder, base: Ledger, rec: seq<nat>)
    requires decode(msg.data).Some? && msg.headerSeq !in rec && nid !in base
    requires q.ledger == base[nid := rec] || (rec == [] && q.ledger == base)
    ensures ApplyDiff(q, nid, msg, decode).ledger == base[nid := rec + [msg.headerSeq]]
    ensures ApplyDiff(q, nid, msg, decode).applied
            == q.applied + [Applied(nid, msg.headerSeq, forall i :: 0 <= i < |rec| ==> rec[i] <= msg.headerSeq)]
  {
    assert Lookup(q.ledger, nid) == rec;
    ApplyDiffEffect(q, nid, msg, decode);
    assert q.ledger[nid := rec + [msg.headerSeq]] == base[nid := rec + [msg.headerSeq]];
  }

  /** Neighbour "A" delivers its diffs 3, 1, 2 and then 1 again, to a
      merger that has never heard from it: only 3 is merged with overwrite,
      1 and 2 are merged add-only, and the repeated 1 is skipped. */
  lemma OutOfOrderArrival(merged: StampedTree, t3: seq<bv8>, t1: seq<bv8>, t2: seq<bv8>, decode: Decoder)
    requires decode(t3).Some? && decode(t1).Some? && decode(t2).Some?
    ensures var msgs := [OctomapMsg(3, t3), OctomapMsg(1, t1), OctomapMsg(2, t2), OctomapMsg(1, t1)];
      AllDecode(decode, msgs) &&
      var r := ApplyDiffs(Progress(map[], merged, []), "A", msgs, decode);
      && r.ledger == map["A" := [3, 1, 2]]
      && r.applied == [Applied("A", 3, true), Applied("A", 1, false), Applied("A", 2, false)]
  {
    var m3, m1, m2 := OctomapMsg(3, t3), OctomapMsg(1, t1), OctomapMsg(2, t2);
    var p0 := Progress(map[], merged, []);
    var s3 := [m3, m1, m2];
    ScenarioFirstThree(merged, t3, t1, t2, decode);
    ApplyDiffsSnoc(p0, "A", s3, m1, decode);
    assert s3 + [m1] == [m3, m1, m2, m1];
    ArrivalRepeat(ApplyDiffs(p0, "A", s3, decode), "A", m1, decode, [3, 1, 2]);
  }

  /** The first three diffs of that scenario, 3, 1 and 2, are all new. */
  lemma ScenarioFirstThree(merged: StampedTree, t3: seq<bv8>, t1: seq<bv8>, t2: seq<bv8>, decode: Decoder)
    requires decode(t3).Some? && decode(t1).Some? && decode(t2).Some?
    ensures var msgs := [OctomapMsg(3, t3), OctomapMsg(1, t1), OctomapMsg(2, t2)];
      AllDecode(decode, msgs) &&
      var r := ApplyDiffs(Progress(map[], merged, []), "A", msgs, decode);
      && r.ledger == map["A" := [3, 1, 2]]
      && r.applied == [Applied("A", 3, true), Applied("A", 1, false), Applied("A", 2, false)]
  {
    var m3, m1, m2 := OctomapMsg(3, t3), OctomapMsg(1, t1), OctomapMsg(2, t2);
    var p0 := Progress(map[], merged, []);
    ScenarioNumbers(m3, m1, m2);
    ScenarioLog(m3, m1, m2);
    ApplyDiffsFirstContact(p0, "A", [m3, m1, m2], decode);
    assert p0.ledger["A" := [3, 1, 2]] == map["A" := [3, 1, 2]];
  }

  /** The first three diffs of that scenario carry distinct numbers 3, 1, 2. */
  lemma ScenarioNumbers(m3: OctomapMsg, m1: OctomapMsg, m2: OctomapMsg)
    requires m3.headerSeq == 3 && m1.headerSeq == 1 && m2.headerSeq == 2
    ensures DistinctNumbers([m3, m1, m2]) && Numbers([m3, m1, m2]) == [3, 1, 2]
  {
  }

  /** Their first-contact log: 3 overwrites, 1 and 2 do not. */
  lemma ScenarioLog(m3: OctomapMsg, m1: OctomapMsg, m2: OctomapMsg)
    requires m3.headerSeq == 3 && m1.headerSeq == 1 && m2.headerSeq == 2
    ensures FirstContactLog("A", [m3, m1, m2])
            == [Applied("A", 3, true), Applied("A", 1, false), Applied("A", 2, false)]
  {
    assert [m3, m1, m2][..2] == [m3, m1];
    assert [m3, m1][..1] == [m3];
    assert [m3][..0] == [];
    assert FirstContactLog("A", [m3]) == [Applied("A", 3, true)];
    assert FirstContactLog("A", [m3, m1]) == [Applied("A", 3, true), Applied("A", 1, false)];
  }

  /** A diff from that neighbour whose number is recorded already. */
  lemma ArrivalRepeat(p: Progress, nid: string, msg: OctomapMsg, decode: Decoder, rec: seq<nat>)
    requires decode(msg.data).Some? && p.ledger == map[nid := rec] && msg.headerSeq in rec
    ensures ApplyDiff(p, nid, msg, decode) == p
  {
    ApplyDiffEffect(p, nid, msg, decode);
  }

  /** Neighbour merges only write stamp 0, so every stamp stays 0 or 1. */
  lemma {:induction false} ApplyDiffsKeepsStamps(p: Progress, nid: string, msgs: seq<OctomapMsg>, decode: Decoder)
    requires AllDecode(decode, msgs)
    requires forall k :: k in p.merged ==> p.merged[k].stamp <= 1
    ensures forall k :: k in ApplyDiffs(p, nid, msgs, decode).merged ==> ApplyDiffs(p, nid, msgs, decode).merged[k].stamp <= 1
    decreases |msgs|
  {
    if msgs != [] {
      var init := msgs[..|msgs| - 1];
      assert forall j :: 0 <= j < |init| ==> init[j] == msgs[j];
      ApplyDiffsKeepsStamps(p, nid, init, decode);
      var q := ApplyDiffs(p, nid, init, decode);
      var msg := msgs[|msgs| - 1];
      ApplyDiffEffect(q, nid, msg, decode);
      if !Seen(q.ledger, nid, msg.headerSeq) {
        MergeEngine.MergeKeepsStampsBinary(q.merged, decode(msg.data).value, false, IsLatest(q.ledger, nid, msg.headerSeq));
      }
    }
  }

  lemma {:induction false} ApplyNeighborsKeepsStamps(p: Progress, arrays: seq<OctomapArray>, decode: Decoder)
    requires ArraysDecode(decode, arrays)
    requires forall k :: k in p.merged ==> p.merged[k].stamp <= 1
    ensures forall k :: k in ApplyNeighbors(p, arrays, decode).merged ==> ApplyNeighbors(p, arrays, decode).merged[k].stamp <= 1
    decreases |arrays|
  {
    if arrays != [] {
      var init := arrays[..|arrays| - 1];
      var last := arrays[|arrays| - 1];
      assert forall i :: 0 <= i < |init| ==> init[i] == arrays[i];
      ApplyNeighborsKeepsStamps(p, init, decode);
      ApplyDiffsKeepsStamps(ApplyNeighbors(p, init, decode), last.owner, Listed(last), decode);
    }
  }
}
