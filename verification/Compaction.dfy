/** What a whole compaction does: a run of flushes and merges that keeps the map
    and leaves the level sizes in tiers. */
module Compaction {
  import opened Levels
  import opened Disk
  import opened Engine

  /** The whole disk trace and end state of a list of flushes and merges. */
  ghost predicate LegalCompaction(s: Store, reqs: seq<Request>)
    decreases |reqs|
  {
    reqs == [] || (Inv(s) && !Logs(reqs[0]) && Legal(s, reqs[0]) && LegalCompaction(After(s, reqs[0]), reqs[1..]))
  }

  ghost function Compacted(s: Store, reqs: seq<Request>): Store
    requires LegalCompaction(s, reqs)
    decreases |reqs|
  {
    if reqs == [] then s else Compacted(After(s, reqs[0]), reqs[1..])
  }

  /** Every disk operation of a compaction, in order. */
  ghost function CompactionOps(s: Store, reqs: seq<Request>): seq<DiskOp>
    requires LegalCompaction(s, reqs)
    decreases |reqs|
  {
    if reqs == [] then [] else Ops(s, reqs[0]) + CompactionOps(After(s, reqs[0]), reqs[1..])
  }

  lemma StartCompaction(s: Store)
    ensures LegalCompaction(s, []) && Compacted(s, []) == s && CompactionOps(s, []) == []
  {
  }

  lemma {:induction false} CompactedSnoc(s: Store, reqs: seq<Request>, req: Request)
    requires LegalCompaction(s, reqs)
    requires Inv(Compacted(s, reqs)) && !Logs(req) && Legal(Compacted(s, reqs), req)
    ensures LegalCompaction(s, reqs + [req])
    ensures Compacted(s, reqs + [req]) == After(Compacted(s, reqs), req)
    ensures CompactionOps(s, reqs + [req]) == CompactionOps(s, reqs) + Ops(Compacted(s, reqs), req)
    decreases |reqs|
  {
    hide After, Ops, Legal;
    var all := reqs + [req];
    if reqs == [] {
      assert all[1..] == [];
    } else {
      assert all[1..] == reqs[1..] + [req];
      CompactedSnoc(After(s, reqs[0]), reqs[1..], req);
    }
  }

  /** A compaction never changes the map. */
  lemma {:induction false} CompactionKeepsView(s: Store, reqs: seq<Request>)
    requires LegalCompaction(s, reqs)
    ensures View(Compacted(s, reqs)) == View(s)
    decreases |reqs|
  {
    if reqs != [] {
      CallsImplementTheMap(s, reqs[0]);
      CompactionKeepsView(After(s, reqs[0]), reqs[1..]);
    }
  }

  // ---- which merges a compaction makes ----

  /** The sizes call for merging levels i and i+1; with a factor of at most 1 they
      never do. */
  ghost predicate Wanted(levels: seq<Level>, g: real, i: nat) {
    g > 1.0 && i + 1 < |levels| && |levels[i + 1]| as real <= g * |levels[i]| as real
  }

  ghost predicate NoneWanted(levels: seq<Level>, g: real, from: nat, to: nat) {
    from <= to && forall i :: from <= i < to ==> !Wanted(levels, g, i)
  }

  /** The merges at `js` lead from `levels` to `now`: each is the first one wanted at or
      below the position of the merge before it, and none is wanted from the last one
      to position `to`. */
  ghost predicate Follows(levels: seq<Level>, g: real, js: seq<nat>, from: nat, to: nat, now: seq<Level>)
    decreases |js|
  {
    if js == [] then
      NoneWanted(levels, g, from, to) && now == levels
    else
      NoneWanted(levels, g, from, js[0]) && Wanted(levels, g, js[0]) &&
      Follows(Merged(levels, js[0]), g, js[1..], js[0], to, now)
  }

  function Merges(js: seq<nat>): (reqs: seq<Request>)
    ensures |reqs| == |js| && forall i :: 0 <= i < |js| ==> reqs[i] == Merge(js[i])
  {
    seq(|js|, i requires 0 <= i < |js| => Merge(js[i]))
  }

  lemma FollowsStart(levels: seq<Level>, g: real)
    ensures Follows(levels, g, [], 0, 0, levels) && Merges([]) == []
  {
  }

  lemma {:induction false} FollowsPast(levels: seq<Level>, g: real, js: seq<nat>, from: nat, to: nat, now: seq<Level>)
    requires Follows(levels, g, js, from, to, now) && !Wanted(now, g, to)
    ensures Follows(levels, g, js, from, to + 1, now)
    decreases |js|
  {
    hide Merged;
    if js != [] { FollowsPast(Merged(levels, js[0]), g, js[1..], js[0], to, now); }
  }

  lemma {:induction false} FollowsMerge(levels: seq<Level>, g: real, js: seq<nat>, from: nat, to: nat, now: seq<Level>)
    requires Follows(levels, g, js, from, to, now) && Wanted(now, g, to)
    ensures Follows(levels, g, js + [to], from, to, Merged(now, to)) && Merges(js + [to]) == Merges(js) + [Merge(to)]
    decreases |js|
  {
    hide Merged;
    var all := js + [to];
    if js == [] {
      assert all[1..] == [];
    } else {
      assert all[1..] == js[1..] + [to];
      FollowsMerge(Merged(levels, js[0]), g, js[1..], js[0], to, now);
    }
  }

  /** Where the levels end, nothing more is wanted. */
  lemma {:induction false} FollowsEnd(levels: seq<Level>, g: real, js: seq<nat>, from: nat, to: nat, now: seq<Level>)
    requires Follows(levels, g, js, from, to, now) && to + 1 >= |now|
    ensures Follows(levels, g, js, from, to + 1, now)
  {
    FollowsPast(levels, g, js, from, to, now);
  }

  /** Factors of at most 1 merge nothing. */
  lemma SmallFactorMergesNothing(levels: seq<Level>, g: real, js: seq<nat>, from: nat, to: nat, now: seq<Level>)
    requires Follows(levels, g, js, from, to, now) && g <= 1.0
    ensures js == [] && now == levels
  {
  }

  // ---- the shape a compaction leaves ----

  /** Level sizes grow geometrically, the last pair excepted: dropping tombstones
      may have shrunk the last level. */
  ghost predicate TieredUpTo(levels: seq<Level>, g: real, n: nat) {
    forall j :: 0 <= j < n && j + 2 < |levels| ==> |levels[j + 1]| as real > g * |levels[j]| as real
  }

  ghost predicate Tiered(levels: seq<Level>, g: real) {
    TieredUpTo(levels, g, |levels|)
  }

  lemma LargerStays(g: real, a: nat, b: nat, c: nat)
    requires b as real > g * a as real && c >= b
    ensures c as real > g * a as real
  {
  }

  /** A merge at `i` leaves the levels above as they are, and unless it is into
      the last level it only grows level `i`. */
  lemma MergedSizes(levels: seq<Level>, i: nat)
    requires i + 1 < |levels| && AllSorted(levels)
    ensures var r := Merged(levels, i);
      |r| == |levels| - 1 && (forall j :: 0 <= j < i ==> r[j] == levels[j]) &&
      (i + 1 < |r| ==> |r[i]| >= |levels[i]|)
  {
    EstimateSuffices(levels, i);
  }

  lemma MergeKeepsTiers(levels: seq<Level>, g: real, i: nat)
    requires i + 1 < |levels| && AllSorted(levels) && TieredUpTo(levels, g, i)
    ensures TieredUpTo(Merged(levels, i), g, i)
  {
    hide Merged;
    MergedSizes(levels, i);
    var r := Merged(levels, i);
    forall j | 0 <= j < i && j + 2 < |r| ensures |r[j + 1]| as real > g * |r[j]| as real {
      LargerStays(g, |levels[j]|, |levels[j + 1]|, |r[j + 1]|);
    }
  }

  lemma TiersStart(levels: seq<Level>, g: real)
    ensures TieredUpTo(levels, g, 0)
  {
  }

  /** A position the policy leaves alone extends the tiers by one. */
  lemma TiersExtend(levels: seq<Level>, g: real, i: nat)
    requires TieredUpTo(levels, g, i) && i + 1 < |levels|
    requires !(|levels[i + 1]| as real <= g * |levels[i]| as real)
    ensures TieredUpTo(levels, g, i + 1)
  {
  }

  lemma TiersComplete(levels: seq<Level>, g: real, i: nat)
    requires TieredUpTo(levels, g, i) && i + 1 >= |levels|
    ensures Tiered(levels, g)
  {
  }

  function Power(g: real, n: nat): real {
    if n == 0 then 1.0 else g * Power(g, n - 1)
  }

  lemma ScaleUp(g: real, a: real, b: real)
    requires g >= 0.0 && a <= b
    ensures g * a <= g * b
  {
  }

  lemma {:induction false} TierSize(levels: seq<Level>, g: real, i: nat)
    requires g > 1.0 && Tiered(levels, g) && Layered(levels) && i + 1 < |levels|
    ensures Power(g, i) <= |levels[i]| as real
  {
    if i > 0 {
      TierSize(levels, g, i - 1);
      ScaleUp(g, Power(g, i - 1), |levels[i - 1]| as real);
    }
  }

  lemma {:induction false} OneLevelInTotal(levels: seq<Level>, i: nat)
    requires i < |levels|
    ensures |levels[i]| <= TotalSize(levels)
  {
    if i > 0 { OneLevelInTotal(levels[1..], i - 1); }
  }

  /** With growth factor g > 1 the number of levels is at most two more than the
      logarithm to base g of the number of records. */
  lemma LevelCountIsLogarithmic(levels: seq<Level>, g: real)
    requires g > 1.0 && Tiered(levels, g) && Layered(levels) && |levels| >= 2
    ensures Power(g, |levels| - 2) <= TotalSize(levels) as real
  {
    TierSize(levels, g, |levels| - 2);
    OneLevelInTotal(levels, |levels| - 2);
  }
}
