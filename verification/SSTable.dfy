/** The immutable on-disk run: key count, offset array, gap, records. */
module SSTable {
  import opened Bytes
  import opened Levels
  import LE = LittleEndian

  // ---- positioned writes ----

  function Zeros(n: nat): (z: Bytes)
    ensures |z| == n
  {
    seq(n, i => 0)
  }

  /** WriteAt: overwrites in place, and extends the file with zeros when needed. */
  function WriteAt(data: Bytes, off: nat, b: Bytes): (d: Bytes)
    ensures |d| == if |data| > off + |b| then |data| else off + |b|
  {
    var base := if |data| < off + |b| then data + Zeros(off + |b| - |data|) else data;
    base[..off] + b + base[off + |b|..]
  }

  lemma WriteAtReads(data: Bytes, off: nat, b: Bytes)
    ensures WriteAt(data, off, b)[off..off + |b|] == b
  {
  }

  lemma SubSlice(s: Bytes, a: nat, b: nat, i: nat, j: nat)
    requires a <= b <= |s| && i <= j <= b - a
    ensures s[a..b][i..j] == s[a + i..a + j]
  {
    var x, y := s[a..b][i..j], s[a + i..a + j];
    assert |x| == |y| && forall k :: 0 <= k < |x| ==> x[k] == s[a + i + k] == y[k];
  }

  /** A write leaves every range it does not touch as it was. */
  lemma WriteAtFrame(data: Bytes, off: nat, b: Bytes, i: nat, j: nat)
    requires i <= j <= |data| && (j <= off || off + |b| <= i)
    ensures WriteAt(data, off, b)[i..j] == data[i..j]
  {
  }

  // ---- records ----

  function EncodeKV(r: Record): (b: Bytes)
    ensures |b| == 9 + |r.key| + |r.val|
  {
    LE.Put(|r.key|, 4) + LE.Put(|r.val|, 4) + [if r.deleted then 1 else 0] + r.key + r.val
  }

  predicate Small(r: Record) {
    |r.key| + |r.val| < U32
  }

  predicate AllSmall(l: Level) {
    forall i :: 0 <= i < |l| ==> Small(l[i])
  }

  datatype SortedFile = SortedFile(data: Bytes, nkeys: nat)

  function OpenFile(data: Bytes): Option<SortedFile> {
    if |data| < 8 then None else Some(SortedFile(data, LE.Get(data[..8])))
  }

  /** The record at byte `off`; None stands for a read error or a panic. */
  function RecordAt(data: Bytes, off: nat): Option<Record> {
    if off + 9 > |data| then None
    else
      var klen, vlen := LE.Get(data[off..off + 4]), LE.Get(data[off + 4..off + 8]);
      var n := (klen + vlen) % U32;
      if off + 9 + n > |data| || klen > n then None
      else Some(Record(data[off + 9..off + 9 + klen], data[off + 9 + klen..off + 9 + n], data[off + 8] != 0))
  }

  function OffsetAt(data: Bytes, pos: nat): nat
    requires 16 + 8 * pos <= |data|
  {
    LE.Get(data[8 + 8 * pos..16 + 8 * pos])
  }

  /** The pos-th record by positioned reads. An offset that is negative as int64
      or points into the offset array is reported as corruption. */
  function Index(f: SortedFile, pos: nat): Option<Record> {
    if pos >= f.nkeys || 16 + 8 * pos > |f.data| then None
    else
      var off := OffsetAt(f.data, pos);
      if off >= I63 || off < 8 + 8 * f.nkeys then None else RecordAt(f.data, off)
  }

  /** The file stores exactly the run `l`. */
  ghost predicate Holds(f: SortedFile, l: Level) {
    f.nkeys == |l| && forall i :: 0 <= i < |l| ==> Index(f, i) == Some(l[i])
  }

  lemma HoldsUnique(f: SortedFile, a: Level, b: Level)
    requires Holds(f, a) && Holds(f, b)
    ensures a == b
  {
    forall i | 0 <= i < |a| ensures a[i] == b[i] {
      assert Index(f, i) == Some(a[i]) == Some(b[i]);
    }
  }

  lemma KVParts(a: Bytes, b: Bytes, f: byte, d: Bytes)
    requires |a| == |b| == 4
    ensures var s := a + b + [f] + d; s[..4] == a && s[4..8] == b && s[8] == f && s[9..] == d
  {
  }

  /** The fields of a byte string found at `off` in a file. */
  lemma FieldsAt(data: Bytes, off: nat, s: Bytes, k: nat)
    requires off + |s| <= |data| && data[off..off + |s|] == s && 9 + k <= |s|
    ensures data[off..off + 4] == s[..4] && data[off + 4..off + 8] == s[4..8] && data[off + 8] == s[8]
    ensures data[off + 9..off + 9 + k] == s[9..][..k] && data[off + 9 + k..off + |s|] == s[9..][k..]
  {
    SubSlice(data, off, off + |s|, 0, 4);
    SubSlice(data, off, off + |s|, 4, 8);
    SubSlice(data, off, off + |s|, 9, 9 + k);
    SubSlice(data, off, off + |s|, 9 + k, |s|);
    SubSlice(s, 9, |s|, 0, k);
    SubSlice(s, 9, |s|, k, |s| - 9);
    assert data[off + 8] == data[off..off + |s|][8];
  }

  /** Reading back a record from the bytes it was written to. */
  lemma RecordAtEncoded(data: Bytes, off: nat, r: Record)
    requires Small(r) && off + |EncodeKV(r)| <= |data|
    requires data[off..off + |EncodeKV(r)|] == EncodeKV(r)
    ensures RecordAt(data, off) == Some(r)
  {
    hide LE.Put, LE.Get, Power256;
    var f := if r.deleted then 1 else 0;
    assert EncodeKV(r) == LE.Put(|r.key|, 4) + LE.Put(|r.val|, 4) + [f] + (r.key + r.val);
    KVParts(LE.Put(|r.key|, 4), LE.Put(|r.val|, 4), f, r.key + r.val);
    FieldsAt(data, off, EncodeKV(r), |r.key|);
    LE.Widths();
    LE.GetPut(|r.key|, 4);
    LE.GetPut(|r.val|, 4);
  }

  // ---- what a record is, on the bytes ----

  /** The lengths, the flag, key and value of a record, and anything behind. */
  ghost predicate StartsWith(s: Bytes, r: Record, flag: byte, rest: Bytes) {
    (flag != 0 <==> r.deleted) && s == LE.Put(|r.key|, 4) + LE.Put(|r.val|, 4) + [flag] + (r.key + r.val) + rest
  }

  lemma RecordParts(k: Bytes, v: Bytes, flag: byte, body: Bytes, rest: Bytes)
    requires |k| == |v| == 4
    ensures var s := k + v + [flag] + body + rest;
      s[..4] == k && s[4..8] == v && s[8] == flag && s[9..9 + |body|] == body
  {
  }

  lemma SuffixFields(data: Bytes, off: nat, k: nat, n: nat)
    requires off + 9 + n <= |data| && k <= n
    ensures var s := data[off..];
      && s[0..4] == data[off..off + 4] && s[4..8] == data[off + 4..off + 8] && s[8] == data[off + 8]
      && s[9..9 + k] == data[off + 9..off + 9 + k] && s[9 + k..9 + n] == data[off + 9 + k..off + 9 + n]
  {
    assert data[off..|data|] == data[off..];
    SubSlice(data, off, |data|, 0, 4);
    SubSlice(data, off, |data|, 4, 8);
    SubSlice(data, off, |data|, 9, 9 + k);
    SubSlice(data, off, |data|, 9 + k, 9 + n);
  }

  /** A record is read the same from the bytes at its offset on. */
  lemma ReadFromOffset(data: Bytes, off: nat)
    requires off <= |data|
    ensures RecordAt(data, off) == RecordAt(data[off..], 0)
  {
    hide LE.Get;
    if off + 9 <= |data| {
      SuffixFields(data, off, 0, 0);
      var klen, n := LE.Get(data[off..off + 4]), (LE.Get(data[off..off + 4]) + LE.Get(data[off + 4..off + 8])) % U32;
      if off + 9 + n <= |data| && klen <= n { SuffixFields(data, off, klen, n); }
    }
  }

  lemma BodyFields(s: Bytes, body: Bytes, k: nat)
    requires |s| >= 9 + |body| && s[9..9 + |body|] == body && k <= |body|
    ensures s[9..9 + k] == body[..k] && s[9 + k..9 + |body|] == body[k..]
  {
    SubSlice(s, 9, 9 + |body|, 0, k);
    SubSlice(s, 9, 9 + |body|, k, |body|);
  }

  lemma ReadAtZero(s: Bytes, klen: nat, n: nat)
    requires |s| >= 9 + n && klen <= n && LE.Get(s[0..4]) == klen && (klen + LE.Get(s[4..8])) % U32 == n
    ensures RecordAt(s, 0) == Some(Record(s[9..9 + klen], s[9 + klen..9 + n], s[8] != 0))
  {
    hide LE.Get;
  }

  lemma ReadAtFront(s: Bytes, body: Bytes)
    requires |s| >= 9 + |body| && s[9..9 + |body|] == body
    requires var k, v := LE.Get(s[0..4]), LE.Get(s[4..8]); k + v == |body| < U32
    ensures var k := LE.Get(s[0..4]); RecordAt(s, 0) == Some(Record(body[..k], body[k..], s[8] != 0))
  {
    hide LE.Get, RecordAt;
    ReadAtZero(s, LE.Get(s[0..4]), |body|);
    BodyFields(s, body, LE.Get(s[0..4]));
  }

  lemma WrittenIsRead(s: Bytes, r: Record, flag: byte, rest: Bytes)
    requires StartsWith(s, r, flag, rest) && Small(r)
    ensures RecordAt(s, 0) == Some(r)
  {
    var k, v, body := LE.Put(|r.key|, 4), LE.Put(|r.val|, 4), r.key + r.val;
    LE.Widths();
    LE.GetPut(|r.key|, 4);
    LE.GetPut(|r.val|, 4);
    hide LE.Put, LE.Get, Power256, RecordAt;
    RecordParts(k, v, flag, body, rest);
    assert s[0..4] == s[..4];
    ReadAtFront(s, body);
    assert body[..|r.key|] == r.key && body[|r.key|..] == r.val;
  }

  lemma ReadIsSplit(s: Bytes, r: Record)
    requires RecordAt(s, 0) == Some(r)
    ensures Small(r) && 9 + |r.key| + |r.val| <= |s| && (s[8] != 0 <==> r.deleted)
    ensures LE.Get(s[0..4]) == |r.key| && LE.Get(s[4..8]) == |r.val|
    ensures s[9..9 + |r.key|] == r.key && s[9 + |r.key|..9 + |r.key| + |r.val|] == r.val
  {
    LE.GetBound(s[4..8]);
    LE.Widths();
    hide LE.Get;
  }

  lemma ReadIsWritten(s: Bytes, r: Record)
    requires RecordAt(s, 0) == Some(r)
    ensures Small(r) && exists flag, rest :: StartsWith(s, r, flag, rest)
  {
    hide LE.Put, LE.Get, RecordAt;
    ReadIsSplit(s, r);
    LE.PutGet(s[0..4]);
    LE.PutGet(s[4..8]);
    var end := 9 + |r.key| + |r.val|;
    assert s == s[0..4] + s[4..8] + [s[8]] + (s[9..9 + |r.key|] + s[9 + |r.key|..end]) + s[end..];
    assert StartsWith(s, r, s[8], s[end..]);
  }

  /** The pos-th record is read exactly when its slot holds an offset behind the slots,
      not negative as a 64-bit number, at which the bytes of the record stand. */
  lemma IndexedExactlyWhen(f: SortedFile, pos: nat, r: Record)
    ensures Index(f, pos) == Some(r) <==>
      && pos < f.nkeys && 16 + 8 * pos <= |f.data| && Small(r)
      && var off := LE.Get(f.data[8 + 8 * pos..16 + 8 * pos]);
         8 + 8 * f.nkeys <= off < I63 && off <= |f.data| &&
         exists flag, rest :: StartsWith(f.data[off..], r, flag, rest)
  {
    hide LE.Get, LE.Put, RecordAt, StartsWith;
    if pos < f.nkeys && 16 + 8 * pos <= |f.data| {
      var off := LE.Get(f.data[8 + 8 * pos..16 + 8 * pos]);
      BeyondTheEnd(f.data, off);
      if off <= |f.data| {
        ReadFromOffset(f.data, off);
        if RecordAt(f.data, off) == Some(r) { ReadIsWritten(f.data[off..], r); }
        if Small(r) {
          forall flag, rest | StartsWith(f.data[off..], r, flag, rest) ensures RecordAt(f.data, off) == Some(r) {
            WrittenIsRead(f.data[off..], r, flag, rest);
          }
        }
      }
    }
  }

  lemma BeyondTheEnd(data: Bytes, off: nat)
    ensures off > |data| ==> RecordAt(data, off) == None
  {
  }

  // ---- building a file ----

  /** Where record `n` goes when the offset array is sized for `est` records. */
  function RecordPos(src: Level, est: nat, n: nat): nat
    requires n <= |src|
  {
    if n == 0 then 8 + 8 * est else RecordPos(src, est, n - 1) + |EncodeKV(src[n - 1])|
  }

  /** The file after `n` turns of the writing loop, starting from any old bytes. */
  function BuildUpTo(prior: Bytes, src: Level, est: nat, n: nat): Bytes
    requires n <= |src|
  {
    if n == 0 then prior
    else
      var d := BuildUpTo(prior, src, est, n - 1);
      WriteAt(WriteAt(d, RecordPos(src, est, n - 1), EncodeKV(src[n - 1])),
              8 * n, LE.Put(RecordPos(src, est, n - 1), 8))
  }

  function BuildFile(prior: Bytes, src: Level, est: nat): Bytes {
    WriteAt(BuildUpTo(prior, src, est, |src|), 0, LE.Put(|src|, 8))
  }

  /** The offset array has a slot for every record, and every offset fits one. */
  predicate HasRoom(src: Level, est: nat) {
    |src| <= est && RecordPos(src, est, |src|) < I63
  }

  /** The size limits under which offsets and lengths are representable. */
  predicate Fits(src: Level, est: nat) {
    AllSmall(src) && HasRoom(src, est)
  }

  lemma {:induction false} RecordPosGrows(src: Level, est: nat, i: nat, n: nat)
    requires i <= n <= |src|
    ensures 8 + 8 * est <= RecordPos(src, est, i) <= RecordPos(src, est, n)
    ensures i < n ==> RecordPos(src, est, i) + |EncodeKV(src[i])| <= RecordPos(src, est, n)
    decreases n
  {
    if n > 0 {
      if i < n { RecordPosGrows(src, est, i, n - 1); } else { RecordPosGrows(src, est, i - 1, n - 1); }
    }
  }

  /** Slot `i` points at record `i`, and the bytes there are that record. */
  ghost predicate Stored(data: Bytes, src: Level, est: nat, i: nat)
    requires i < |src|
  {
    var p := RecordPos(src, est, i);
    && p + |EncodeKV(src[i])| <= |data| && 16 + 8 * i <= |data|
    && data[8 + 8 * i..16 + 8 * i] == LE.Put(p, 8)
    && data[p..p + |EncodeKV(src[i])|] == EncodeKV(src[i])
  }

  /** A write that stays clear of slot `i` and of record `i` keeps both. */
  lemma StoredFrame(data: Bytes, src: Level, est: nat, i: nat, off: nat, b: Bytes)
    requires i < |src| && Stored(data, src, est, i)
    requires off + |b| <= 8 + 8 * i || 16 + 8 * i <= off
    requires off + |b| <= RecordPos(src, est, i) || RecordPos(src, est, i) + |EncodeKV(src[i])| <= off
    ensures Stored(WriteAt(data, off, b), src, est, i)
  {
    var p := RecordPos(src, est, i);
    WriteAtFrame(data, off, b, 8 + 8 * i, 16 + 8 * i);
    WriteAtFrame(data, off, b, p, p + |EncodeKV(src[i])|);
  }

  /** No record ever overlaps a slot or another record, whatever the old bytes. */
  lemma {:induction false} BuildStores(prior: Bytes, src: Level, est: nat, n: nat)
    requires n <= |src| <= est
    ensures forall i :: 0 <= i < n ==> Stored(BuildUpTo(prior, src, est, n), src, est, i)
  {
    hide LE.Put, EncodeKV;
    if n > 0 {
      BuildStores(prior, src, est, n - 1);
      var d := BuildUpTo(prior, src, est, n - 1);
      var p, rec := RecordPos(src, est, n - 1), EncodeKV(src[n - 1]);
      var d1 := WriteAt(d, p, rec);
      var slot := LE.Put(p, 8);
      var d2 := WriteAt(d1, 8 * n, slot);
      hide Stored, WriteAt, RecordPos;
      forall i | 0 <= i < n - 1 ensures Stored(d2, src, est, i) {
        RecordPosGrows(src, est, i, n - 1);
        StoredFrame(d, src, est, i, p, rec);
        StoredFrame(d1, src, est, i, 8 * n, slot);
      }
      NewlyStored(d, src, est, n - 1);
    }
  }

  lemma NewlyStored(d: Bytes, src: Level, est: nat, i: nat)
    requires i < |src| <= est
    ensures Stored(WriteAt(WriteAt(d, RecordPos(src, est, i), EncodeKV(src[i])),
      8 * (i + 1), LE.Put(RecordPos(src, est, i), 8)),
                   src, est, i)
  {
    hide LE.Put, EncodeKV, WriteAt;
    var p, rec := RecordPos(src, est, i), EncodeKV(src[i]);
    var d1, slot := WriteAt(d, p, rec), LE.Put(p, 8);
    RecordPosGrows(src, est, i, i);
    WriteAtReads(d, p, rec);
    WriteAtReads(d1, 8 * (i + 1), slot);
    WriteAtFrame(d1, 8 * (i + 1), slot, p, p + |rec|);
  }

  /** What can be read back has lengths whose sum fits 32 bits. */
  lemma ReadIsSmall(f: SortedFile, src: Level)
    requires Holds(f, src)
    ensures AllSmall(src)
  {
    hide LE.Get;
    forall i | 0 <= i < |src| ensures Small(src[i]) {
      assert Index(f, i) == Some(src[i]);
    }
  }

  /** The round trip: the built file opens with its count, and gives back the whole
      run exactly when the lengths of each record fit the format. */
  lemma BuildFileHolds(prior: Bytes, src: Level, est: nat)
    requires HasRoom(src, est)
    ensures var f := SortedFile(BuildFile(prior, src, est), |src|);
      OpenFile(f.data) == Some(f) && (Holds(f, src) <==> AllSmall(src))
  {
    hide Holds;
    BuiltOpens(prior, src, est);
    var f := SortedFile(BuildFile(prior, src, est), |src|);
    if AllSmall(src) { SmallIsHeld(prior, src, est); }
    if Holds(f, src) { ReadIsSmall(f, src); }
  }

  lemma BuiltOpens(prior: Bytes, src: Level, est: nat)
    requires HasRoom(src, est)
    ensures var f := SortedFile(BuildFile(prior, src, est), |src|); OpenFile(f.data) == Some(f)
  {
    hide LE.Put, LE.Get, BuildUpTo, WriteAt;
    var d, head := BuildUpTo(prior, src, est, |src|), LE.Put(|src|, 8);
    WriteAtReads(d, 0, head);
    LE.Widths();
    RecordPosGrows(src, est, 0, |src|);
    LE.GetPut(|src|, 8);
    assert WriteAt(d, 0, head)[..8] == WriteAt(d, 0, head)[0..8];
  }

  lemma SmallIsHeld(prior: Bytes, src: Level, est: nat)
    requires Fits(src, est)
    ensures Holds(SortedFile(BuildFile(prior, src, est), |src|), src)
  {
    hide LE.Put, EncodeKV, BuildUpTo, RecordPos;
    BuildStores(prior, src, est, |src|);
    var d, head := BuildUpTo(prior, src, est, |src|), LE.Put(|src|, 8);
    var data := WriteAt(d, 0, head);
    LE.Widths();
    RecordPosGrows(src, est, 0, |src|);
    var f := SortedFile(data, |src|);
    forall i | 0 <= i < |src| ensures Index(f, i) == Some(src[i]) {
      RecordPosGrows(src, est, i, |src|);
      StoredFrame(d, src, est, i, 0, head);
      LE.GetPut(RecordPos(src, est, i), 8);
      RecordAtEncoded(data, RecordPos(src, est, i), src[i]);
    }
  }

  lemma BuildStep(prior: Bytes, src: Level, est: nat, n: nat)
    requires n < |src|
    ensures var pos, rec := RecordPos(src, est, n), EncodeKV(src[n]);
      RecordPos(src, est, n + 1) == pos + |rec| &&
      BuildUpTo(prior, src, est, n + 1) ==
        WriteAt(WriteAt(BuildUpTo(prior, src, est, n), pos, rec), 8 + 8 * n, LE.Put(pos, 8))
  {
  }

  /** One pass over the records: they stream into the data region while the slots
      are filled in behind. */
  method WriteRecords(prior: Bytes, src: Level, est: nat) returns (data: Bytes)
    ensures data == BuildUpTo(prior, src, est, |src|)
  {
    data := prior;
    var pos, n := 8 + 8 * est, 0;
    while n < |src|
      invariant 0 <= n <= |src|
      invariant pos == RecordPos(src, est, n)
      invariant data == BuildUpTo(prior, src, est, n)
    {
      BuildStep(prior, src, est, n);
      var rec := EncodeKV(src[n]);
      data := WriteAt(data, pos, rec);
      data := WriteAt(data, 8 + 8 * n, LE.Put(pos, 8));
      pos := pos + |rec|;
      n := n + 1;
    }
  }

  /** CreateFromSorted over the records its source yields; the true count goes
      into the header last. */
  method CreateFromSorted(prior: Bytes, src: Level, est: nat) returns (f: SortedFile)
    ensures f == SortedFile(BuildFile(prior, src, est), |src|)
    ensures HasRoom(src, est) ==> (Holds(f, src) <==> AllSmall(src))
  {
    var data := WriteRecords(prior, src, est);
    data := WriteAt(data, 0, LE.Put(|src|, 8));
    if HasRoom(src, est) { BuildFileHolds(prior, src, est); }
    f := SortedFile(data, |src|);
  }

  // ---- reading a file ----

  /** Binary search straight on the offset array. */
  method Search(f: SortedFile, ghost l: Level, target: Bytes) returns (pos: nat, found: bool)
    requires Holds(f, l) && Sorted(l)
    ensures pos == Rank(l, target) && (found <==> pos < |l| && l[pos].key == target)
  {
    hide Index;
    var lo, hi := 0, f.nkeys;
    while lo < hi
      invariant 0 <= lo <= hi <= |l|
      invariant lo > 0 ==> Less(l[lo - 1].key, target)
      invariant hi < |l| ==> Less(target, l[hi].key)
    {
      var mid := (lo + hi) / 2;
      var k := Index(f, mid).value.key;
      Trichotomy(k, target);
      var c := Compare(k, target);
      if c == 0 {
        RankAtKey(l, mid);
        return mid, true;
      } else if c == -1 {
        lo := mid + 1;
      } else {
        hi := mid;
      }
    }
    RankUnique(l, target, lo);
    if lo < |l| { LessIrreflexive(target); }
    return lo, false;
  }

  lemma RankAtKey(l: Level, i: nat)
    requires Sorted(l) && i < |l|
    ensures Rank(l, l[i].key) == i
  {
    RankUnique(l, l[i].key, i);
  }
}
