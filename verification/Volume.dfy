/** How much file space levels take, so that a compaction can be shown to fit. */
module Volume {
  import opened Bytes
  import opened Levels
  import opened MemTable
  import opened Engine
  import SSTable

  function Payload(l: Level): nat {
    if l == [] then 0 else 9 + |l[0].key| + |l[0].val| + Payload(l[1..])
  }

  lemma {:induction false} PayloadConcat(a: Level, b: Level)
    ensures Payload(a + b) == Payload(a) + Payload(b)
  {
    if a == [] {
      assert a + b == b;
    } else {
      assert (a + b)[1..] == a[1..] + b;
      PayloadConcat(a[1..], b);
    }
  }

  lemma {:induction false} RecordPosIsPayload(l: Level, est: nat, n: nat)
    requires n <= |l|
    ensures SSTable.RecordPos(l, est, n) == 8 + 8 * est + Payload(l[..n])
  {
    if n > 0 {
      RecordPosIsPayload(l, est, n - 1);
      assert l[..n] == l[..n - 1] + [l[n - 1]];
      PayloadConcat(l[..n - 1], [l[n - 1]]);
      assert [l[n - 1]][1..] == [];
    }
  }

  /** Header, slots and records of every level together. */
  function Weight(levels: seq<Level>): nat {
    if levels == [] then 0 else 8 * |levels[0]| + Payload(levels[0]) + Weight(levels[1..])
  }

  ghost predicate Roomy(levels: seq<Level>) {
    8 + Weight(levels) < I63 && forall j :: 0 <= j < |levels| ==> SSTable.AllSmall(levels[j])
  }

  lemma {:induction false} WeightConcat(a: seq<Level>, b: seq<Level>)
    ensures Weight(a + b) == Weight(a) + Weight(b)
  {
    if a == [] {
      assert a + b == b;
    } else {
      assert (a + b)[1..] == a[1..] + b;
      WeightConcat(a[1..], b);
    }
  }

  lemma {:induction false} MergeTwoPayload(a: Level, b: Level)
    requires SSTable.AllSmall(a) && SSTable.AllSmall(b)
    ensures Payload(MergeTwo(a, b)) <= Payload(a) + Payload(b)
    ensures SSTable.AllSmall(MergeTwo(a, b))
    decreases |a| + |b|
  {
    if a != [] && b != [] {
      var m := MergeTwo(a, b);
      if a[0].key == b[0].key {
        MergeTwoPayload(a[1..], b[1..]);
        assert m[1..] == MergeTwo(a[1..], b[1..]);
      } else if Less(a[0].key, b[0].key) {
        MergeTwoPayload(a[1..], b);
        assert m[1..] == MergeTwo(a[1..], b);
      } else {
        MergeTwoPayload(a, b[1..]);
        assert m[1..] == MergeTwo(a, b[1..]);
      }
    }
  }

  lemma {:induction false} DropDeletedPayload(l: Level)
    requires SSTable.AllSmall(l)
    ensures Payload(DropDeleted(l)) <= Payload(l) && SSTable.AllSmall(DropDeleted(l))
  {
    if l != [] {
      DropDeletedPayload(l[1..]);
      if l[0].deleted { assert DropDeleted(l) == DropDeleted(l[1..]); }
      else { assert DropDeleted(l)[1..] == DropDeleted(l[1..]); }
    }
  }

  lemma MergeSourcePayload(main: seq<Level>, i: nat)
    requires i + 1 < |main| && SSTable.AllSmall(main[i]) && SSTable.AllSmall(main[i + 1])
    ensures SSTable.AllSmall(MergeSource(main, i))
    ensures Payload(MergeSource(main, i)) <= Payload(main[i]) + Payload(main[i + 1])
  {
    var a, b := main[i], main[i + 1];
    MergePair(a, b);
    MergeTwoPayload(a, b);
    DropDeletedPayload(MergeTwo(a, b));
  }

  lemma WeightOfOne(l: Level)
    ensures Weight([l]) == 8 * |l| + Payload(l)
  {
    var one := [l];
    assert one[1..] == [];
  }

  lemma WeightAround(above: seq<Level>, mid: seq<Level>, below: seq<Level>)
    ensures Weight(above + mid + below) == Weight(above) + Weight(mid) + Weight(below)
  {
    WeightConcat(above + mid, below);
    WeightConcat(above, mid);
  }

  lemma MergeWeight(mem: Level, main: seq<Level>, i: nat)
    requires i + 1 < |main|
    requires |MergeSource(main, i)| <= |main[i]| + |main[i + 1]|
    requires Payload(MergeSource(main, i)) <= Payload(main[i]) + Payload(main[i + 1])
    ensures Weight([mem] + Merged(main, i)) <= Weight([mem] + main)
    ensures 8 * |main[i]| + Payload(main[i]) + 8 * |main[i + 1]| + Payload(main[i + 1]) <= Weight([mem] + main)
  {
    var a, b, l := main[i], main[i + 1], MergeSource(main, i);
    var above, below := [mem] + main[..i], main[i + 2..];
    assert [mem] + main == above + [a, b] + below && [mem] + Merged(main, i) == above + [l] + below;
    WeightAround(above, [a, b], below);
    WeightAround(above, [l], below);
    WeightConcat([a], [b]);
    assert [a] + [b] == [a, b];
    WeightOfOne(a);
    WeightOfOne(b);
    WeightOfOne(l);
  }

  /** Any merge in a roomy stack fits its file and leaves the stack roomy. */
  lemma MergeFits(mem: Level, main: seq<Level>, i: nat)
    requires Roomy([mem] + main) && AllSorted(main) && i + 1 < |main|
    ensures SSTable.Fits(MergeSource(main, i), MergeEstimate(main, i))
    ensures Roomy([mem] + Merged(main, i))
  {
    var l, est := MergeSource(main, i), MergeEstimate(main, i);
    var old_, new_ := [mem] + main, [mem] + Merged(main, i);
    assert forall j :: 0 <= j < |main| ==> main[j] == old_[j + 1];
    MergeSourcePayload(main, i);
    EstimateSuffices(main, i);
    MergeWeight(mem, main, i);
    RecordPosIsPayload(l, est, |l|);
    assert l[..|l|] == l;
    forall j | 0 <= j < |new_| ensures SSTable.AllSmall(new_[j]) {
      if j != i + 1 { assert new_[j] == old_[if j <= i then j else j + 1]; }
    }
  }

  /** So does flushing the MemTable. */
  lemma FlushFits(mem: Level, main: seq<Level>)
    requires Roomy([mem] + main)
    ensures SSTable.Fits(mem, |mem|)
    ensures Roomy([[]] + ([mem] + main))
  {
    var stack := [mem] + main;
    assert stack[0] == mem && stack[1..] == main;
    RecordPosIsPayload(mem, |mem|, |mem|);
    assert mem[..|mem|] == mem;
    var flushed := [[]] + stack;
    assert flushed[0] == [] && flushed[1..] == stack;
    assert forall j :: 1 <= j < |flushed| ==> flushed[j] == stack[j - 1];
  }

  lemma PayloadAround(a: Level, r: Record, b: Level)
    ensures Payload(a + ([r] + b)) == Payload(a) + 9 + |r.key| + |r.val| + Payload(b)
  {
    PayloadConcat(a, [r] + b);
    PayloadConcat([r], b);
    assert [r][1..] == [];
  }

  /** A write adds at most its own record. */
  lemma PutPayload(l: Level, r: Record)
    ensures |Put(l, r)| <= |l| + 1 && Payload(Put(l, r)) <= Payload(l) + 9 + |r.key| + |r.val|
  {
    hide Payload, Rank;
    var i := Rank(l, r.key);
    if i < |l| && l[i].key == r.key {
      assert Put(l, r) == l[..i] + ([r] + l[i + 1..]) && l == l[..i] + ([l[i]] + l[i + 1..]);
      PayloadAround(l[..i], r, l[i + 1..]);
      PayloadAround(l[..i], l[i], l[i + 1..]);
    } else {
      assert Put(l, r) == l[..i] + ([r] + l[i..]) && l == l[..i] + l[i..];
      PayloadAround(l[..i], r, l[i..]);
      PayloadConcat(l[..i], l[i..]);
    }
  }

  lemma PutStaysSmall(l: Level, r: Record)
    requires SSTable.AllSmall(l) && SSTable.Small(r)
    ensures SSTable.AllSmall(Put(l, r))
  {
    hide Rank, SSTable.Small;
    var p, i := Put(l, r), Rank(l, r.key);
    assert p[i] == r;
    forall q | 0 <= q < |p| ensures SSTable.Small(p[q]) {
      assert q == i || p[q] == if |p| == |l| || q < i then l[q] else l[q - 1];
    }
  }

  lemma SmallFits(l: Level)
    requires SSTable.AllSmall(l) && 8 + 8 * |l| + Payload(l) < I63
    ensures SSTable.Fits(l, |l|)
  {
    RecordPosIsPayload(l, |l|, |l|);
    assert l[..|l|] == l;
  }
}
