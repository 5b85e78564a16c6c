/** The tombstone filter and the range cursor on top of the merge cursor. */
module RangeScan {
  import opened Bytes
  import opened Levels
  import opened MergeCursor

  // ---- live records of a run ----

  lemma {:induction false} DropDeletedConcat(a: Level, b: Level)
    ensures DropDeleted(a + b) == DropDeleted(a) + DropDeleted(b)
  {
    if a == [] {
      assert a + b == b;
    } else {
      assert (a + b)[1..] == a[1..] + b;
      DropDeletedConcat(a[1..], b);
    }
  }

  /** How many live records precede index `i`. */
  ghost function LiveBefore(m: Level, i: nat): nat
    requires i <= |m|
  {
    |DropDeleted(m[..i])|
  }

  lemma LiveBeforeStep(m: Level, i: nat)
    requires i < |m|
    ensures LiveBefore(m, i + 1) == LiveBefore(m, i) + if m[i].deleted then 0 else 1
    ensures LiveBefore(m, i + 1) <= LiveBefore(m, |m|) == |DropDeleted(m)|
    ensures !m[i].deleted ==> DropDeleted(m)[LiveBefore(m, i)] == m[i]
  {
    assert m[..i + 1] == m[..i] + [m[i]] && m == m[..i + 1] + m[i + 1..] && m[..|m|] == m;
    DropDeletedConcat(m[..i], [m[i]]);
    DropDeletedConcat(m[..i + 1], m[i + 1..]);
    assert [m[i]][1..] == [];
  }

  lemma LiveBeforeBack(m: Level, i: nat)
    requires 0 < i <= |m|
    ensures LiveBefore(m, i - 1) == LiveBefore(m, i) - if m[i - 1].deleted then 0 else 1
  {
    LiveBeforeStep(m, i - 1);
  }

  lemma LiveBeforeEnds(m: Level)
    ensures LiveBefore(m, 0) == 0 && LiveBefore(m, |m|) == |DropDeleted(m)|
  {
    assert m[..0] == [] && m[..|m|] == m;
  }

  /** The rank of a key among the live records. */
  lemma {:induction false} LiveBeforeRank(m: Level, k: Bytes)
    requires Sorted(m)
    ensures LiveBefore(m, Rank(m, k)) == Rank(DropDeleted(m), k)
  {
    var c := Rank(m, k);
    RankSplits(m, k);
    assert m == m[..c] + m[c..];
    DropDeletedConcat(m[..c], m[c..]);
    DropDeletedSorted(m);
    var l := DropDeleted(m);
    var n := LiveBefore(m, c);
    if n > 0 { DropDeletedSound(m[..c], n - 1); }
    if n < |l| { DropDeletedSound(m[c..], 0); }
    RankUnique(l, k, n);
  }

  lemma {:induction false} DropDeletedSound(m: Level, i: nat)
    requires i < |DropDeleted(m)|
    ensures DropDeleted(m)[i] in m && !DropDeleted(m)[i].deleted
  {
    if m[0].deleted {
      DropDeletedSound(m[1..], i);
    } else if i > 0 {
      assert DropDeleted(m)[i] == DropDeleted(m[1..])[i - 1];
      DropDeletedSound(m[1..], i - 1);
    }
  }

  /** The position among the live records of a cursor resting on a live record. */
  ghost function LivePosition(m: Level, c: Position): (r: Position)
    requires InRun(m, c)
  {
    if c.Out? then Out else At(LiveBefore(m, c.i))
  }

  /** A step up over the whole run, then past its tombstones, is the step up over
      the live run. */
  lemma LiveStepUp(m: Level, i: nat, was: bool)
    requires i < |m| && !m[i].deleted
    ensures var l, c := DropDeleted(m), LiveBefore(m, i);
      c < |l| && StepMerged(l, At(c), was, false) ==
        if StepMerged(m, At(i), was, false).At? && LiveBefore(m, i + 1) < |l| then At(LiveBefore(m, i + 1)) else Out
  {
    LiveBeforeStep(m, i);
    LiveBeforeEnds(m);
  }

  // ---- what a range scan yields ----

  ghost function Ascending(l: Level, c: nat, stop: Bytes): Level
    decreases |l| - c
  {
    if c < |l| && AtMost(l[c].key, stop) then [l[c]] + Ascending(l, c + 1, stop) else []
  }

  ghost function Descending(l: Level, c: int, stop: Bytes): Level
    decreases c
  {
    if 0 <= c < |l| && AtMost(stop, l[c].key) then [l[c]] + Descending(l, c - 1, stop) else []
  }

  ghost predicate Within(r: Record, lo: Bytes, hi: Bytes) {
    AtMost(lo, r.key) && AtMost(r.key, hi)
  }

  lemma {:induction false} AscendingIsTail(l: Level, c: nat, stop: Bytes)
    requires Sorted(l) && c <= |l|
    ensures Sorted(Ascending(l, c, stop))
    ensures forall r :: r in Ascending(l, c, stop) <==> r in l[c..] && AtMost(r.key, stop)
    decreases |l| - c
  {
    if c < |l| {
      assert l[c..] == [l[c]] + l[c + 1..];
      if AtMost(l[c].key, stop) {
        AscendingIsTail(l, c + 1, stop);
        var rest := Ascending(l, c + 1, stop);
        forall i | 0 <= i < |rest| ensures Less(l[c].key, rest[i].key) {
          assert rest[i] in l[c + 1..];
        }
        SortedCons(l[c], rest);
      } else {
        forall r | r in l[c..] ensures !AtMost(r.key, stop) {
          Trichotomy(l[c].key, stop);
          Trichotomy(r.key, stop);
          if r != l[c] { AtMostTransitive(stop, l[c].key, r.key); }
        }
      }
    }
  }

  /** An ascending scan yields, in strictly increasing order, exactly the records
      with start <= key <= stop. */
  lemma AscendingExact(l: Level, start: Bytes, stop: Bytes)
    requires Sorted(l)
    ensures Sorted(Ascending(l, Rank(l, start), stop))
    ensures forall r :: r in Ascending(l, Rank(l, start), stop) <==> r in l && Within(r, start, stop)
  {
    var c := Rank(l, start);
    RankSplits(l, start);
    AscendingIsTail(l, c, stop);
    assert l == l[..c] + l[c..];
    forall r | r in l[..c] ensures !AtMost(start, r.key) { Trichotomy(r.key, start); }
  }

  ghost predicate Falling(l: Level) {
    forall i, j :: 0 <= i < j < |l| ==> Less(l[j].key, l[i].key)
  }

  lemma {:induction false} DescendingIsHead(l: Level, c: int, stop: Bytes)
    requires Sorted(l) && -1 <= c < |l|
    ensures Falling(Descending(l, c, stop))
    ensures forall r :: r in Descending(l, c, stop) <==> r in l[..c + 1] && AtMost(stop, r.key)
    decreases c
  {
    if c >= 0 {
      assert l[..c + 1] == l[..c] + [l[c]];
      if AtMost(stop, l[c].key) {
        DescendingIsHead(l, c - 1, stop);
        var rest := Descending(l, c - 1, stop);
        forall i | 0 <= i < |rest| ensures Less(rest[i].key, l[c].key) {
          assert rest[i] in l[..c];
        }
      } else {
        forall r | r in l[..c + 1] ensures !AtMost(stop, r.key) {
          Trichotomy(l[c].key, stop);
          Trichotomy(r.key, stop);
          if r != l[c] { AtMostTransitive(r.key, l[c].key, stop); }
        }
      }
    }
  }

  /** Where the code starts a descending scan: at the last key <= start, but on no
      key at all once the seek has run off the top, because the step back from
      there does not move an exhausted merge. */
  ghost function DescendingFrom(l: Level, start: Bytes): int {
    if Rank(l, start) == |l| then -1 else CountAtMost(l, start) - 1
  }

  lemma DescendingSound(l: Level, start: Bytes, stop: Bytes)
    requires Sorted(l)
    ensures Falling(Descending(l, DescendingFrom(l, start), stop))
    ensures forall r :: (r in Descending(l, DescendingFrom(l, start), stop)
      <==> Rank(l, start) < |l| && r in l && Within(r, stop, start))
  {
    var c := DescendingFrom(l, start);
    DescendingIsHead(l, c, stop);
    RankSplits(l, start);
    if Rank(l, start) < |l| { HeadIsAtMost(l, start); }
  }

  lemma HeadIsAtMost(l: Level, k: Bytes)
    requires Sorted(l)
    ensures forall r :: r in l[..CountAtMost(l, k)] <==> r in l && AtMost(r.key, k)
  {
    var n := CountAtMost(l, k);
    CountSplits(l, k);
    assert l == l[..n] + l[n..];
    forall r | r in l[n..] ensures !AtMost(r.key, k) { Trichotomy(k, r.key); }
  }

  /** A descending scan is complete exactly when some live key is at or above
      `start`, or nothing was there to be yielded. */
  lemma DescendingCompleteExactlyWhen(l: Level, start: Bytes, stop: Bytes)
    requires Sorted(l)
    ensures (forall r :: r in Descending(l, DescendingFrom(l, start), stop) <==> r in l && Within(r, stop, start))
      <==> (exists r :: r in l && AtMost(start, r.key)) || l == [] || Less(l[|l| - 1].key, stop)
  {
    DescendingSound(l, start, stop);
    RankSplits(l, start);
    if Rank(l, start) < |l| {
      assert l[Rank(l, start)] in l;
    } else if l != [] {
      var top := l[|l| - 1];
      assert top in l;
      Trichotomy(top.key, stop);
      forall r | r in l
        ensures !AtMost(start, r.key) && AtMost(r.key, top.key)
        ensures Less(top.key, stop) ==> !AtMost(stop, r.key)
      {
        var i :| 0 <= i < |l| && l[i] == r;
        Trichotomy(r.key, start);
        Trichotomy(r.key, stop);
        if Less(top.key, stop) { AtMostTransitive(r.key, top.key, stop); }
      }
    }
  }

  /** One live record, scanned downward from just above it: nothing is yielded. */
  lemma DescendingMissesTheTop(k: Bytes, v: Bytes)
    ensures var l, start := [Record(k, v, false)], k + [0];
      Sorted(l) && Within(l[0], k, start) && Descending(l, DescendingFrom(l, start), k) == []
  {
    var l, start := [Record(k, v, false)], k + [0];
    LessCommonPrefix(k, [], [0]);
    assert k + [] == k;
    Trichotomy(k, start);
    RankUnique(l, start, 1);
  }

  // ---- the cursors ----

  /** Skips tombstones in both directions; it always rests on a live record. */
  class NoDeletedIter {
    const iter: MergedIter

    ghost function LiveRun(): Level {
      DropDeleted(iter.View())
    }

    ghost predicate Inv()
      reads this, iter, iter.levels
    {
      iter.Inv() && (iter.at.At? ==> !iter.View()[iter.at.i].deleted)
    }

    /** The position in the live run. */
    ghost function Where(): Position
      requires Inv()
      reads this, iter, iter.levels
    {
      LivePosition(iter.View(), iter.at)
    }

    /** filterDeleted: moves a freshly opened merge to its first live record. */
    constructor (iter: MergedIter, ghost c: nat)
      requires iter.Inv() && !iter.desc && c <= |iter.View()|
      requires iter.at == if c < |iter.View()| then At(c) else Out
      modifies iter, iter.levels
      ensures this.iter == iter && Inv() && !iter.desc
      ensures Where() == if LiveBefore(iter.View(), c) < |LiveRun()| then At(LiveBefore(iter.View(), c)) else Out
      ensures Where().At? ==> Where().i < |LiveRun()|
    {
      this.iter := iter;
      new;
      SkipForward(c);
    }

    method SkipForward(ghost c: nat)
      requires iter.Inv() && !iter.desc && c <= |iter.View()|
      requires iter.at == if c < |iter.View()| then At(c) else Out
      modifies iter, iter.levels
      ensures Inv() && !iter.desc
      ensures Where() == if LiveBefore(iter.View(), c) < |LiveRun()| then At(LiveBefore(iter.View(), c)) else Out
    {
      hide MergedIter.Inv;
      ghost var m := iter.View();
      ghost var j := c;
      LiveBeforeEnds(m);
      iter.ValidIffAt();
      while iter.Valid() && iter.Current().deleted
        invariant iter.Inv() && !iter.desc && c <= j <= |m|
        invariant iter.at == if j < |m| then At(j) else Out
        invariant LiveBefore(m, j) == LiveBefore(m, c)
        decreases |m| - j
      {
        LiveBeforeStep(m, j);
        iter.Next();
        iter.ValidIffAt();
        j := j + 1;
      }
      iter.ValidIffAt();
      if j < |m| { LiveBeforeStep(m, j); }
    }

    method SkipBackward(ghost c: nat)
      requires iter.Inv() && iter.desc && c <= |iter.View()|
      requires iter.at == if c > 0 then At(c - 1) else Out
      modifies iter, iter.levels
      ensures Inv() && iter.desc
      ensures Where() == if LiveBefore(iter.View(), c) > 0 then At(LiveBefore(iter.View(), c) - 1) else Out
    {
      hide MergedIter.Inv;
      ghost var m := iter.View();
      ghost var j := c;
      LiveBeforeEnds(m);
      iter.ValidIffAt();
      while iter.Valid() && iter.Current().deleted
        invariant iter.Inv() && iter.desc && 0 <= j <= c
        invariant iter.at == if j > 0 then At(j - 1) else Out
        invariant LiveBefore(m, j) == LiveBefore(m, c)
        decreases j
      {
        LiveBeforeBack(m, j);
        iter.Prev();
        iter.ValidIffAt();
        j := j - 1;
      }
      iter.ValidIffAt();
      if j > 0 { LiveBeforeBack(m, j); }
    }

    predicate Valid()
      reads this, iter
    {
      iter.Valid()
    }

    function Current(): (r: Record)
      requires Inv() && Valid()
      reads this, iter, iter.levels
    {
      iter.Current()
    }

    /** What a reader sees through the filter is the record at the live position. */
    lemma CurrentIsLive()
      requires Inv()
      ensures Valid() <==> Where().At?
      ensures Where().At? ==> Where().i < |LiveRun()| && Current() == LiveRun()[Where().i]
    {
      if iter.at.At? { LiveBeforeStep(iter.View(), iter.at.i); }
    }

    method Next()
      requires Inv()
      modifies iter, iter.levels
      ensures Inv() && !iter.desc
      ensures old(InRun(LiveRun(), Where())) && Where() == StepMerged(LiveRun(), old(Where()), old(iter.desc), false)
    {
      ghost var c := iter.at;
      if c.At? { LiveStepUp(iter.View(), c.i, iter.desc); }
      iter.Next();
      if iter.Valid() {
        SkipForward(c.i + 1);
      }
    }

    method Prev()
      requires Inv()
      modifies iter, iter.levels
      ensures Inv() && iter.desc
      ensures old(InRun(LiveRun(), Where())) && Where() == StepMerged(LiveRun(), old(Where()), old(iter.desc), true)
    {
      ghost var m, c := iter.View(), iter.at;
      if c.At? { LiveBeforeStep(m, c.i); }
      iter.Prev();
      if iter.Valid() {
        SkipBackward(c.i);
      } else if c.At? {
        LiveBeforeEnds(m);
      }
    }
  }

  /** A scan of the closed key interval between where it starts and `stop`. */
  class RangedKVIter {
    const iter: NoDeletedIter
    const stop: Bytes
    const desc: bool

    ghost predicate Inv()
      reads this, iter, iter.iter, iter.iter.levels
    {
      iter.Inv()
    }

    /** The records this scan still has to yield, the current one first. */
    ghost function Remaining(): Level
      requires Inv()
      reads this, iter, iter.iter, iter.iter.levels
    {
      if iter.Where().Out? then []
      else if desc then Descending(iter.LiveRun(), iter.Where().i, stop)
      else Ascending(iter.LiveRun(), iter.Where().i, stop)
    }

    /** kv.Range: `iter` has just been sought to `start`. */
    constructor (iter: NoDeletedIter, start: Bytes, stop: Bytes, desc: bool)
      requires iter.Inv() && !iter.iter.desc && Sorted(iter.LiveRun())
      requires iter.Where() == if Rank(iter.LiveRun(), start) < |iter.LiveRun()|
        then At(Rank(iter.LiveRun(), start)) else Out
      modifies iter.iter, iter.iter.levels
      ensures this.iter == iter && this.desc == desc && this.stop == stop && Inv()
      ensures iter.iter.desc ==> desc
      ensures Remaining() ==
        if desc then Descending(iter.LiveRun(), DescendingFrom(iter.LiveRun(), start), stop)
        else Ascending(iter.LiveRun(), Rank(iter.LiveRun(), start), stop)
    {
      this.iter, this.stop, this.desc := iter, stop, desc;
      new;
      if desc { FixUp(start); }
    }

    /** Seek is always >=, so a descending scan steps back to the last key <= start. */
    method FixUp(start: Bytes)
      requires iter.Inv() && !iter.iter.desc && Sorted(iter.LiveRun())
      requires iter.Where() == if Rank(iter.LiveRun(), start) < |iter.LiveRun()|
        then At(Rank(iter.LiveRun(), start)) else Out
      modifies iter.iter, iter.iter.levels
      ensures iter.Inv()
      ensures var c := DescendingFrom(iter.LiveRun(), start);
        iter.Where() == if c >= 0 then At(c) else Out
    {
      RankSplits(iter.LiveRun(), start);
      iter.CurrentIsLive();
      if iter.Valid() { Trichotomy(iter.Current().key, start); }
      if !iter.Valid() || Compare(iter.Current().key, start) > 0 {
        iter.Prev();
      }
    }

    predicate Valid()
      requires Inv()
      reads this, iter, iter.iter, iter.iter.levels
    {
      if !iter.Valid() then false
      else
        var r := Compare(iter.Current().key, stop);
        !(desc && r < 0) && !(!desc && r > 0)
    }

    function Current(): Record
      requires Inv() && Valid()
      reads this, iter, iter.iter, iter.iter.levels
    {
      iter.Current()
    }

    /** The scan is valid as long as something remains, and shows the first of it. */
    lemma ValidWhileRemaining()
      requires Inv()
      ensures Valid() <==> Remaining() != []
      ensures Valid() ==> Current() == Remaining()[0]
    {
      iter.CurrentIsLive();
      if iter.Valid() { Trichotomy(iter.Current().key, stop); }
    }

    /** Steps in the scan direction, unless the scan has ended. As long as an ascending
        scan is not turned, what remains is what remained, without the first. */
    method Next()
      requires Inv()
      modifies iter.iter, iter.iter.levels
      ensures Inv() && old(InRun(iter.LiveRun(), iter.Where()))
      ensures iter.Where() == if !old(Valid()) then old(iter.Where())
        else StepMerged(iter.LiveRun(), old(iter.Where()), old(iter.iter.desc), desc)
      ensures iter.iter.desc == if old(Valid()) then desc else old(iter.iter.desc)
      ensures (old(iter.iter.desc) ==> desc) ==>
        Remaining() == if old(Remaining()) == [] then [] else old(Remaining())[1..]
    {
      ValidWhileRemaining();
      iter.CurrentIsLive();
      ghost var l, c := iter.LiveRun(), iter.Where();
      if Valid() {
        assert Remaining()[1..] == if desc then Descending(l, c.i - 1, stop) else Ascending(l, c.i + 1, stop);
        if desc {
          iter.Prev();
        } else {
          iter.Next();
        }
      }
    }

    /** Steps against the scan direction. */
    method Prev()
      requires Inv()
      modifies iter.iter, iter.iter.levels
      ensures Inv() && iter.iter.desc == !desc
      ensures old(InRun(iter.LiveRun(), iter.Where()))
      ensures iter.Where() == StepMerged(iter.LiveRun(), old(iter.Where()), old(iter.iter.desc), !desc)
    {
      if desc {
        iter.Next();
      } else {
        iter.Prev();
      }
    }
  }
}
