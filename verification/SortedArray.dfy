/** The MemTable: three parallel slices kept sorted by key. */
module MemTable {
  import opened Bytes
  import opened Levels
  import opened MergeCursor

  /** A level after one write: the record replaces the one with its key, or is
      inserted at its rank. */
  function Put(l: Level, r: Record): Level {
    var i := Rank(l, r.key);
    if i < |l| && l[i].key == r.key then l[i := r] else l[..i] + [r] + l[i..]
  }

  lemma PutSorted(l: Level, r: Record)
    requires Sorted(l)
    ensures Sorted(Put(l, r))
  {
    RankSplits(l, r.key);
    var i := Rank(l, r.key);
    if i < |l| && l[i].key != r.key {
      forall q | i <= q < |l| ensures Less(r.key, l[q].key) {
        if q > i { AtMostTransitive(r.key, l[i].key, l[q].key); }
      }
    }
  }

  /** A write changes what its own key shows and nothing else. */
  lemma PutFind(l: Level, r: Record, k: Bytes)
    requires Sorted(l)
    ensures Find(Put(l, r), k) == if k == r.key then Some(r) else Find(l, k)
  {
    hide Put, Rank, Find, Sorted;
    PutSorted(l, r);
    var p := Put(l, r);
    PutMembers(l, r);
    FindSound(l, k);
    FindSound(p, k);
    if k == r.key {
      var q :| 0 <= q < |p| && p[q] == r;
      FindAt(p, q);
    } else if Find(l, k).Some? {
      var x := Find(l, k).value;
      assert x in p;
      var q :| 0 <= q < |p| && p[q] == x;
      FindAt(p, q);
    }
  }

  /** Its own record, and every old one with another key. */
  lemma PutMembers(l: Level, r: Record)
    requires Sorted(l)
    ensures r in Put(l, r)
    ensures forall x :: x in Put(l, r) ==> x == r || x in l
    ensures forall x :: x in l && x.key != r.key ==> x in Put(l, r)
  {
    var p, i := Put(l, r), Rank(l, r.key);
    hide Rank, Sorted;
    assert p[i] == r;
    forall x | x in p ensures x == r || x in l {
      var q :| 0 <= q < |p| && p[q] == x;
      assert q == i || x == if |p| == |l| || q < i then l[q] else l[q - 1];
    }
    forall x | x in l && x.key != r.key ensures x in p {
      var q :| 0 <= q < |l| && l[q] == x;
      assert p[if |p| == |l| || q < i then q else q + 1] == x;
    }
  }

  datatype EntryState = Absent | Present(val: Bytes) | Tombstone

  /** Three parallel slices read as one run of records. */
  function Zip(keys: seq<Bytes>, vals: seq<Bytes>, deleted: seq<bool>): (l: Level)
    requires |keys| == |vals| == |deleted|
    ensures |l| == |keys|
    ensures forall i :: 0 <= i < |l| ==> l[i] == Record(keys[i], vals[i], deleted[i])
  {
    seq(|keys|, i requires 0 <= i < |keys| == |vals| == |deleted| => Record(keys[i], vals[i], deleted[i]))
  }

  lemma ZipUpdate(keys: seq<Bytes>, vals: seq<Bytes>, deleted: seq<bool>, i: nat, val: Bytes, del: bool)
    requires |keys| == |vals| == |deleted| && i < |keys|
    ensures Zip(keys, vals[i := val], deleted[i := del]) == Zip(keys, vals, deleted)[i := Record(keys[i], val, del)]
  {
  }

  lemma ZipInsert(keys: seq<Bytes>, vals: seq<Bytes>, deleted: seq<bool>, i: nat, key: Bytes, val: Bytes, del: bool)
    requires |keys| == |vals| == |deleted| && i <= |keys|
    ensures Zip(keys[..i] + [key] + keys[i..], vals[..i] + [val] + vals[i..], deleted[..i] + [del] + deleted[i..]) ==
      Zip(keys, vals, deleted)[..i] + [Record(key, val, del)] + Zip(keys, vals, deleted)[i..]
  {
  }

  lemma OneLevel(l: Level, key: Bytes)
    ensures FindFirst([l], key) == Find(l, key)
  {
    assert [l][1..] == [];
  }

  class SortedArray {
    var keys: seq<Bytes>
    var vals: seq<Bytes>
    var deleted: seq<bool>

    ghost predicate Parallel()
      reads this
    {
      |keys| == |vals| == |deleted|
    }

    ghost predicate Valid()
      reads this
    {
      Parallel() && Sorted(Contents())
    }

    function Contents(): (l: Level)
      requires Parallel()
      reads this
      ensures |l| == |keys|
    {
      Zip(keys, vals, deleted)
    }

    constructor ()
      ensures Valid() && Contents() == []
    {
      keys, vals, deleted := [], [], [];
    }

    function Size(): nat
      reads this
    {
      |keys|
    }

    method Clear()
      modifies this
      ensures Valid() && Contents() == []
    {
      keys, vals, deleted := [], [], [];
    }

    method Search(key: Bytes) returns (i: nat, found: bool)
      requires Valid()
      ensures i == Rank(Contents(), key)
      ensures found <==> i < |keys| && keys[i] == key
    {
      i := 0;
      var j := |keys|;
      while i < j
        invariant 0 <= i <= j <= |keys|
        invariant i > 0 ==> Less(keys[i - 1], key)
        invariant j < |keys| ==> AtMost(key, keys[j])
      {
        var h := (i + j) / 2;
        Trichotomy(keys[h], key);
        if Compare(keys[h], key) < 0 {
          i := h + 1;
        } else {
          j := h;
        }
      }
      RankUnique(Contents(), key, i);
      found := i < |keys| && keys[i] == key;
    }

    /** Tells present, tombstoned and absent keys of this array apart. */
    method State(key: Bytes) returns (st: EntryState)
      requires Valid()
      ensures st == match Find(Contents(), key)
                    case None => Absent
                    case Some(r) => if r.deleted then Tombstone else Present(r.val)
    {
      var i, found := Search(key);
      FindAtRank(Contents(), key);
      if !found {
        return Absent;
      }
      if deleted[i] {
        return Tombstone;
      }
      return Present(vals[i]);
    }

    method Set(key: Bytes, val: Bytes) returns (updated: bool)
      requires Valid()
      modifies this
      ensures Valid() && Contents() == Put(old(Contents()), Record(key, val, false))
      ensures updated <==> Shows([old(Contents())], key)
    {
      var i, found := Search(key);
      FindAtRank(Contents(), key);
      PutSorted(Contents(), Record(key, val, false));
      OneLevel(Contents(), key);
      hide Rank, Sorted, Zip, Find, FindFirst;
      if found {
        ZipUpdate(keys, vals, deleted, i, val, false);
        updated := !deleted[i];
        vals := vals[i := val];
        deleted := deleted[i := false];
      } else {
        ZipInsert(keys, vals, deleted, i, key, val, false);
        keys := keys[..i] + [key] + keys[i..];
        vals := vals[..i] + [val] + vals[i..];
        deleted := deleted[..i] + [false] + deleted[i..];
        updated := false;
      }
    }

    /** Deletion marks: a lower level may still hold the key. */
    method Del(key: Bytes)
      requires Valid()
      modifies this
      ensures Valid() && Contents() == Put(old(Contents()), Record(key, [], true))
    {
      var i, found := Search(key);
      PutSorted(Contents(), Record(key, [], true));
      hide Rank, Sorted, Zip;
      if found {
        ZipUpdate(keys, vals, deleted, i, [], true);
        vals := vals[i := []];
        deleted := deleted[i := true];
      } else {
        ZipInsert(keys, vals, deleted, i, key, [], true);
        keys := keys[..i] + [key] + keys[i..];
        vals := vals[..i] + [[]] + vals[i..];
        deleted := deleted[..i] + [true] + deleted[i..];
      }
    }

    method Seek(key: Bytes) returns (it: LevelCursor)
      requires Valid()
      ensures fresh(it) && it.Inv() && it.level == Contents() && it.pos == Rank(Contents(), key)
    {
      var pos, _ := Search(key);
      it := new LevelCursor(InMemory(Contents()), Contents(), pos);
    }
  }
}
