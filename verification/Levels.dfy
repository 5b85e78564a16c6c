/** Levels of the LSM tree as values: a level is a strictly sorted run of records,
    a stack of levels is read newest first. The k-way merge of a stack is defined
    here by recursion; the cursors of MergeCursor.dfy are proved to walk it. */
module Levels {
  import opened Bytes

  datatype Record = Record(key: Bytes, val: Bytes, deleted: bool)

  type Level = seq<Record>

  ghost predicate Sorted(l: Level) {
    forall i, j :: 0 <= i < j < |l| ==> Less(l[i].key, l[j].key)
  }

  ghost predicate AllSorted(levels: seq<Level>) {
    forall j :: 0 <= j < |levels| ==> Sorted(levels[j])
  }

  /** How many leading keys of `l` are smaller than `k`: the insertion point that
      a search returns. */
  function Rank(l: Level, k: Bytes): (n: nat)
    ensures n <= |l|
  {
    if l != [] && Less(l[0].key, k) then 1 + Rank(l[1..], k) else 0
  }

  lemma {:induction false} RankSplits(l: Level, k: Bytes)
    requires Sorted(l)
    ensures forall i :: 0 <= i < Rank(l, k) ==> Less(l[i].key, k)
    ensures forall i :: Rank(l, k) <= i < |l| ==> AtMost(k, l[i].key)
  {
    if l != [] {
      Trichotomy(l[0].key, k);
      if Less(l[0].key, k) {
        RankSplits(l[1..], k);
        assert forall i :: 1 <= i < |l| ==> l[i] == l[1..][i - 1];
      } else {
        forall i | 0 <= i < |l| ensures AtMost(k, l[i].key) {
          if i > 0 { AtMostTransitive(k, l[0].key, l[i].key); }
        }
      }
    }
  }

  /** The two facts of RankSplits determine the rank. */
  lemma RankUnique(l: Level, k: Bytes, n: nat)
    requires Sorted(l) && n <= |l|
    requires n > 0 ==> Less(l[n - 1].key, k)
    requires n < |l| ==> AtMost(k, l[n].key)
    ensures n == Rank(l, k)
  {
    RankSplits(l, k);
    var r := Rank(l, k);
    if r < n {
      Trichotomy(l[n - 1].key, k);
    } else if n < r {
      Trichotomy(l[n].key, k);
    }
  }

  /** Linear lookup in one level. */
  function Find(l: Level, k: Bytes): Option<Record> {
    if l == [] then None else if l[0].key == k then Some(l[0]) else Find(l[1..], k)
  }

  lemma {:induction false} FindSound(l: Level, k: Bytes)
    ensures Find(l, k).Some? ==> Find(l, k).value in l && Find(l, k).value.key == k
    ensures Find(l, k).None? ==> forall r :: r in l ==> r.key != k
  {
    if l != [] {
      FindSound(l[1..], k);
      assert l == [l[0]] + l[1..];
    }
  }

  lemma {:induction false} FindAt(l: Level, i: nat)
    requires Sorted(l) && i < |l|
    ensures Find(l, l[i].key) == Some(l[i])
  {
    if i > 0 {
      LessAsymmetric(l[0].key, l[i].key);
      FindAt(l[1..], i - 1);
    }
  }

  /** Binary search and linear lookup agree: a key is found exactly at its rank. */
  lemma FindAtRank(l: Level, k: Bytes)
    requires Sorted(l)
    ensures Find(l, k) == if Rank(l, k) < |l| && l[Rank(l, k)].key == k then Some(l[Rank(l, k)]) else None
  {
    FindSound(l, k);
    RankSplits(l, k);
    var n := Rank(l, k);
    if n < |l| && l[n].key == k {
      FindAt(l, n);
    } else if Find(l, k).Some? {
      var i :| 0 <= i < |l| && l[i] == Find(l, k).value;
      LessIrreflexive(k);
      if i != n { LessAsymmetric(l[n].key, l[i].key); }
      assert false;
    }
  }

  /** The record a stack shows for `k`: the newest level that has one wins. */
  function FindFirst(levels: seq<Level>, k: Bytes): Option<Record> {
    if levels == [] then None
    else if Find(levels[0], k).Some? then Find(levels[0], k)
    else FindFirst(levels[1..], k)
  }

  // ---- the merge of a stack ----

  function MergeTwo(a: Level, b: Level): Level
    decreases |a| + |b|
  {
    if a == [] then b
    else if b == [] then a
    else if a[0].key == b[0].key then [a[0]] + MergeTwo(a[1..], b[1..])
    else if Less(a[0].key, b[0].key) then [a[0]] + MergeTwo(a[1..], b)
    else [b[0]] + MergeTwo(a, b[1..])
  }

  function MergeAll(levels: seq<Level>): Level {
    if levels == [] then [] else MergeTwo(levels[0], MergeAll(levels[1..]))
  }

  lemma MergePair(a: Level, b: Level)
    ensures MergeAll([a, b]) == MergeTwo(a, b)
  {
    var pair, one := [a, b], [b];
    assert pair[1..] == one && one[1..] == [];
    assert MergeAll(one) == MergeTwo(b, []) == b;
  }

  ghost predicate Above(k: Bytes, l: Level) {
    forall i :: 0 <= i < |l| ==> Less(k, l[i].key)
  }

  lemma {:induction false} MergeTwoAbove(a: Level, b: Level, k: Bytes)
    requires Above(k, a) && Above(k, b)
    ensures Above(k, MergeTwo(a, b))
    decreases |a| + |b|
  {
    if a != [] && b != [] {
      if a[0].key == b[0].key {
        MergeTwoAbove(a[1..], b[1..], k);
      } else if Less(a[0].key, b[0].key) {
        MergeTwoAbove(a[1..], b, k);
      } else {
        MergeTwoAbove(a, b[1..], k);
      }
    }
  }

  lemma SortedCons(r: Record, l: Level)
    requires Sorted(l) && Above(r.key, l)
    ensures Sorted([r] + l)
  {
  }

  lemma SortedHead(l: Level, k: Bytes)
    requires Sorted(l) && l != [] && Less(k, l[0].key)
    ensures Above(k, l)
  {
    forall i | 0 <= i < |l| ensures Less(k, l[i].key) {
      if i > 0 { LessTransitive(k, l[0].key, l[i].key); }
    }
  }

  lemma {:induction false} MergeTwoSorted(a: Level, b: Level)
    requires Sorted(a) && Sorted(b)
    ensures Sorted(MergeTwo(a, b))
    decreases |a| + |b|
  {
    if a != [] && b != [] {
      assert Above(a[0].key, a[1..]) && Above(b[0].key, b[1..]);
      if a[0].key == b[0].key {
        MergeTwoSorted(a[1..], b[1..]);
        MergeTwoAbove(a[1..], b[1..], a[0].key);
        SortedCons(a[0], MergeTwo(a[1..], b[1..]));
      } else if Less(a[0].key, b[0].key) {
        MergeTwoSorted(a[1..], b);
        SortedHead(b, a[0].key);
        MergeTwoAbove(a[1..], b, a[0].key);
        SortedCons(a[0], MergeTwo(a[1..], b));
      } else {
        Trichotomy(a[0].key, b[0].key);
        MergeTwoSorted(a, b[1..]);
        SortedHead(a, b[0].key);
        MergeTwoAbove(a, b[1..], b[0].key);
        SortedCons(b[0], MergeTwo(a, b[1..]));
      }
    }
  }

  lemma AboveNotFound(k: Bytes, l: Level, x: Bytes)
    requires Above(k, l) && AtMost(x, k)
    ensures Find(l, x) == None
  {
    FindSound(l, x);
    if Find(l, x).Some? { LessIrreflexive(x); AtMostTransitive(x, k, x); assert false; }
  }

  /** On a tie the upper level wins; otherwise whichever side has the key shows. */
  lemma {:induction false} MergeTwoFind(a: Level, b: Level, k: Bytes)
    requires Sorted(a) && Sorted(b)
    ensures Find(MergeTwo(a, b), k) == if Find(a, k).Some? then Find(a, k) else Find(b, k)
    decreases |a| + |b|
  {
    if a != [] && b != [] {
      var m := MergeTwo(a, b);
      assert Above(a[0].key, a[1..]) && Above(b[0].key, b[1..]);
      if a[0].key == b[0].key {
        MergeTwoFind(a[1..], b[1..], k);
        assert m[1..] == MergeTwo(a[1..], b[1..]);
      } else if Less(a[0].key, b[0].key) {
        MergeTwoFind(a[1..], b, k);
        assert m[1..] == MergeTwo(a[1..], b);
      } else {
        Trichotomy(a[0].key, b[0].key);
        SortedHead(a, b[0].key);
        MergeTwoFind(a, b[1..], k);
        assert m[1..] == MergeTwo(a, b[1..]);
        if k == b[0].key { AboveNotFound(k, a, k); }
      }
    }
  }

  /** The merged run is strictly sorted, so it holds no key twice. */
  lemma {:induction false} MergeAllSorted(levels: seq<Level>)
    requires AllSorted(levels)
    ensures Sorted(MergeAll(levels))
  {
    if levels != [] {
      MergeAllSorted(levels[1..]);
      MergeTwoSorted(levels[0], MergeAll(levels[1..]));
    }
  }

  /** The merged run shows for every key what the newest level having it shows. */
  lemma {:induction false} MergeAllFind(levels: seq<Level>, k: Bytes)
    requires AllSorted(levels)
    ensures Find(MergeAll(levels), k) == FindFirst(levels, k)
  {
    if levels != [] {
      MergeAllSorted(levels[1..]);
      MergeAllFind(levels[1..], k);
      MergeTwoFind(levels[0], MergeAll(levels[1..]), k);
    }
  }

  function TotalSize(levels: seq<Level>): nat {
    if levels == [] then 0 else |levels[0]| + TotalSize(levels[1..])
  }

  lemma {:induction false} MergeTwoSize(a: Level, b: Level)
    ensures |a| <= |MergeTwo(a, b)| <= |a| + |b|
    ensures |b| <= |MergeTwo(a, b)|
    decreases |a| + |b|
  {
    if a != [] && b != [] {
      if a[0].key == b[0].key {
        MergeTwoSize(a[1..], b[1..]);
      } else if Less(a[0].key, b[0].key) {
        MergeTwoSize(a[1..], b);
      } else {
        MergeTwoSize(a, b[1..]);
      }
    }
  }

  /** The sum of the level sizes bounds the size of the merge. */
  lemma {:induction false} MergeAllSize(levels: seq<Level>)
    ensures |MergeAll(levels)| <= TotalSize(levels)
  {
    if levels != [] {
      MergeAllSize(levels[1..]);
      MergeTwoSize(levels[0], MergeAll(levels[1..]));
    }
  }

  // ---- tombstones ----

  function DropDeleted(l: Level): Level {
    if l == [] then []
    else (if l[0].deleted then [] else [l[0]]) + DropDeleted(l[1..])
  }

  lemma {:induction false} DropDeletedAbove(l: Level, k: Bytes)
    requires Above(k, l)
    ensures Above(k, DropDeleted(l))
  {
    if l != [] { DropDeletedAbove(l[1..], k); }
  }

  lemma {:induction false} DropDeletedSorted(l: Level)
    requires Sorted(l)
    ensures Sorted(DropDeleted(l)) && |DropDeleted(l)| <= |l|
  {
    if l != [] {
      DropDeletedSorted(l[1..]);
      DropDeletedAbove(l[1..], l[0].key);
    }
  }

  lemma {:induction false} DropDeletedFind(l: Level, k: Bytes)
    requires Sorted(l)
    ensures Find(DropDeleted(l), k) ==
      if Find(l, k).Some? && !Find(l, k).value.deleted then Find(l, k) else None
  {
    if l != [] {
      DropDeletedFind(l[1..], k);
      if !l[0].deleted {
        assert DropDeleted(l)[1..] == DropDeleted(l[1..]);
      } else {
        assert DropDeleted(l) == DropDeleted(l[1..]);
        if l[0].key == k { AboveNotFound(k, l[1..], k); }
      }
    }
  }

  // ---- what a stack of levels means to a reader ----

  ghost function KeysOf(levels: seq<Level>): set<Bytes> {
    set j, i | 0 <= j < |levels| && 0 <= i < |levels[j]| :: levels[j][i].key
  }

  ghost predicate Shows(levels: seq<Level>, k: Bytes) {
    FindFirst(levels, k).Some? && !FindFirst(levels, k).value.deleted
  }

  lemma {:induction false} FoundIsKey(levels: seq<Level>, k: Bytes)
    ensures FindFirst(levels, k).Some? ==> k in KeysOf(levels)
  {
    if levels != [] {
      FindSound(levels[0], k);
      FoundIsKey(levels[1..], k);
      if Find(levels[0], k).None? && k in KeysOf(levels[1..]) {
        var j, i :| 0 <= j < |levels[1..]| && 0 <= i < |levels[1..][j]| && levels[1..][j][i].key == k;
        assert levels[j + 1][i].key == k;
      }
    }
  }

  /** The finite map from keys to values that a stack of levels stands for. */
  ghost function Live(levels: seq<Level>): (m: map<Bytes, Bytes>)
    ensures forall k :: k in m <==> Shows(levels, k)
    ensures forall k :: k in m ==> Shows(levels, k) && m[k] == FindFirst(levels, k).value.val
  {
    forall k ensures FindFirst(levels, k).Some? ==> k in KeysOf(levels) { FoundIsKey(levels, k); }
    map k | k in KeysOf(levels) && Shows(levels, k) :: FindFirst(levels, k).value.val
  }

  /** Stacks that show the same live records for every key mean the same map. */
  lemma SameLive(a: seq<Level>, b: seq<Level>)
    requires forall k :: Shows(a, k) <==> Shows(b, k)
    requires forall k :: Shows(a, k) && Shows(b, k) ==> FindFirst(a, k).value.val == FindFirst(b, k).value.val
    ensures Live(a) == Live(b)
  {
  }

  lemma {:induction false} FindFirstConcat(a: seq<Level>, b: seq<Level>, k: Bytes)
    ensures FindFirst(a + b, k) == if FindFirst(a, k).Some? then FindFirst(a, k) else FindFirst(b, k)
  {
    if a == [] {
      assert a + b == b;
    } else {
      assert (a + b)[1..] == a[1..] + b;
      FindFirstConcat(a[1..], b, k);
    }
  }

  /** Replacing two adjacent levels by their merge, with tombstones kept, leaves
      what every key shows unchanged, whatever lies above and below. */
  lemma MergePairKeepsFind(above: seq<Level>, upper: Level, lower: Level, below: seq<Level>, k: Bytes)
    requires Sorted(upper) && Sorted(lower)
    ensures FindFirst(above + [MergeAll([upper, lower])] + below, k)
         == FindFirst(above + [upper, lower] + below, k)
  {
    var pair, one := [upper, lower], [MergeAll([upper, lower])];
    MergeAllFind(pair, k);
    assert FindFirst(one, k) == FindFirst(pair, k) by {
      assert one[1..] == [];
    }
    FindFirstConcat(above, pair, k);
    FindFirstConcat(above, one, k);
    FindFirstConcat(above + pair, below, k);
    FindFirstConcat(above + one, below, k);
  }

  /** Dropping the tombstones of the last level keeps the meaning of the stack ... */
  lemma DropAtBottom(above: seq<Level>, last: Level)
    requires Sorted(last)
    ensures Live(above + [DropDeleted(last)]) == Live(above + [last])
  {
    forall k
      ensures Shows(above + [DropDeleted(last)], k) <==> Shows(above + [last], k)
      ensures Shows(above + [last], k) ==>
        FindFirst(above + [DropDeleted(last)], k) == FindFirst(above + [last], k)
    {
      DropDeletedFind(last, k);
      FindFirstConcat(above, [last], k);
      FindFirstConcat(above, [DropDeleted(last)], k);
      assert [last][1..] == [] && [DropDeleted(last)][1..] == [];
    }
    SameLive(above + [DropDeleted(last)], above + [last]);
  }

  /** ... and above another level it does so exactly when no dropped tombstone
      was hiding a live record further down. */
  lemma DropIsSafeExactlyWhen(above: seq<Level>, l: Level, below: seq<Level>)
    requires Sorted(l)
    ensures Live(above + [DropDeleted(l)] + below) == Live(above + [l] + below)
      <==> forall k :: FindFirst(above, k).None? && Find(l, k).Some? && Find(l, k).value.deleted ==> !Shows(below, k)
  {
    var a, b := above + [DropDeleted(l)] + below, above + [l] + below;
    forall k
      ensures FindFirst(above, k).None? && Find(l, k).Some? && Find(l, k).value.deleted ==>
        !Shows(b, k) && (Shows(a, k) <==> Shows(below, k))
      ensures !(FindFirst(above, k).None? && Find(l, k).Some? && Find(l, k).value.deleted) ==>
        FindFirst(a, k) == FindFirst(b, k)
    {
      DropDeletedFind(l, k);
      FindFirstConcat(above, [l], k);
      FindFirstConcat(above, [DropDeleted(l)], k);
      FindFirstConcat(above + [l], below, k);
      FindFirstConcat(above + [DropDeleted(l)], below, k);
      assert [l][1..] == [] && [DropDeleted(l)][1..] == [];
    }
    if forall k :: FindFirst(above, k).None? && Find(l, k).Some? && Find(l, k).value.deleted ==> !Shows(below, k) {
      SameLive(a, b);
    } else {
      var k :| FindFirst(above, k).None? && Find(l, k).Some? && Find(l, k).value.deleted && Shows(below, k);
      assert k in Live(a) && k !in Live(b);
    }
  }
}
