/** The reversible k-way merge cursor. Its specification is a cursor over the one
    merged run: a position in that run, or `Out` once it has run off an end. */
module MergeCursor {
  import opened Bytes
  import opened Levels
  import SSTable

  datatype Position = Out | At(i: nat)

  ghost predicate InRun(m: Level, c: Position) {
    c.At? ==> c.i < |m|
  }

  /** One step of a plain cursor over `m`; an exhausted cursor stays exhausted. */
  ghost function StepPlain(m: Level, c: Position, desc: bool): (r: Position)
    requires InRun(m, c)
    ensures InRun(m, r)
  {
    if c.Out? then Out
    else if desc then (if c.i > 0 then At(c.i - 1) else Out)
    else if c.i + 1 < |m| then At(c.i + 1) else Out
  }

  /** One step of the merge cursor, which was last moved in direction `was`. An
      empty key leaves no frontier behind (a nil slice), so turning upward on it
      exhausts the cursor. */
  ghost function StepMerged(m: Level, c: Position, was: bool, desc: bool): (r: Position)
    requires InRun(m, c)
    ensures InRun(m, r)
  {
    if c.At? && was && !desc && m[c.i].key == [] then Out else StepPlain(m, c, desc)
  }

  /** The position after a whole list of Next (false) and Prev (true) calls. */
  ghost function WalkPlain(m: Level, c: Position, dirs: seq<bool>): (r: Position)
    requires InRun(m, c)
    ensures InRun(m, r)
    decreases |dirs|
  {
    if dirs == [] then c else WalkPlain(m, StepPlain(m, c, dirs[0]), dirs[1..])
  }

  ghost function WalkMerged(m: Level, c: Position, was: bool, dirs: seq<bool>): (r: Position)
    requires InRun(m, c)
    ensures InRun(m, r)
    decreases |dirs|
  {
    if dirs == [] then c else WalkMerged(m, StepMerged(m, c, was, dirs[0]), dirs[0], dirs[1..])
  }

  /** A single step departs from the plain cursor in exactly one situation. */
  lemma StepDepartsExactlyWhen(m: Level, c: Position, was: bool, desc: bool)
    requires Sorted(m) && InRun(m, c)
    ensures StepMerged(m, c, was, desc) != StepPlain(m, c, desc)
      <==> c == At(0) && was && !desc && m[0].key == [] && |m| > 1
  {
    assert c.At? && c.i > 0 ==> Less(m[0].key, m[c.i].key);
  }

  /** Over every interleaving of Next and Prev, flips included, the merge cursor is
      where the plain cursor is, unless it can be turned at a stored empty key. */
  lemma {:induction false} WalksAgree(m: Level, c: Position, was: bool, dirs: seq<bool>)
    requires Sorted(m) && InRun(m, c)
    requires c.Out? || |m| <= 1 || m[0].key != []
    ensures WalkMerged(m, c, was, dirs) == WalkPlain(m, c, dirs)
    decreases |dirs|
  {
    if dirs != [] {
      StepDepartsExactlyWhen(m, c, was, dirs[0]);
      WalksAgree(m, StepPlain(m, c, dirs[0]), dirs[0], dirs[1..]);
    }
  }

  /** Down onto the empty key and up again: the merge is exhausted, the plain cursor
      is not. */
  lemma {:induction false} LosingWalk(m: Level, c: Position, was: bool) returns (dirs: seq<bool>)
    requires Sorted(m) && InRun(m, c) && c.At? && |m| > 1 && m[0].key == []
    ensures WalkMerged(m, c, was, dirs) != WalkPlain(m, c, dirs)
    decreases if c.i == 0 && !was then |m| else c.i
  {
    var desc := c.i > 0;
    StepDepartsExactlyWhen(m, c, was, desc);
    if c.i == 0 && was {
      dirs := [false];
      assert dirs[1..] == [];
    } else {
      var more := LosingWalk(m, StepPlain(m, c, desc), desc);
      dirs := [desc] + more;
      assert dirs[1..] == more;
    }
  }

  /** The two agree over every walk exactly when the cursor is exhausted, has nowhere
      to turn, or the run holds no empty key. */
  lemma WalksAgreeExactlyWhen(m: Level, c: Position, was: bool)
    requires Sorted(m) && InRun(m, c)
    ensures (forall dirs :: WalkMerged(m, c, was, dirs) == WalkPlain(m, c, dirs))
      <==> c.Out? || |m| <= 1 || m[0].key != []
  {
    if c.Out? || |m| <= 1 || m[0].key != [] {
      forall dirs ensures WalkMerged(m, c, was, dirs) == WalkPlain(m, c, dirs) { WalksAgree(m, c, was, dirs); }
    } else {
      var dirs := LosingWalk(m, c, was);
    }
  }

  /** With the empty key stored, walking back onto it and forward again is lost. */
  lemma EmptyKeyLosesTheWalk(v: Bytes, k: Bytes, w: Bytes)
    requires k != []
    ensures var m := [Record([], v, false), Record(k, w, false)];
      Sorted(m) &&
      WalkPlain(m, At(1), [true, false]) == At(1) &&
      WalkMerged(m, At(1), false, [true, false]) == Out
  {
    var m := [Record([], v, false), Record(k, w, false)];
    var dirs := [true, false];
    assert dirs[1..] == [false] && [false][1..] == [];
    assert WalkPlain(m, At(0), [false]) == WalkPlain(m, At(1), []);
    assert WalkMerged(m, At(0), true, [false]) == WalkMerged(m, Out, false, []);
    assert WalkPlain(m, At(1), dirs) == WalkPlain(m, At(0), [false]);
    assert WalkMerged(m, At(1), false, dirs) == WalkMerged(m, At(0), true, [false]);
  }

  // ---- where the level cursors stand ----

  /** How many records of `l` fall among the first `c` keys of the merged run. */
  function Cut(l: Level, m: Level, c: nat): (n: nat)
    ensures n <= |l|
  {
    if c < |m| then Rank(l, m[c].key) else |l|
  }

  function CountAtMost(l: Level, k: Bytes): (n: nat)
    ensures n <= |l|
  {
    if Rank(l, k) < |l| && l[Rank(l, k)].key == k then Rank(l, k) + 1 else Rank(l, k)
  }

  lemma CountSplits(l: Level, k: Bytes)
    requires Sorted(l)
    ensures forall i :: 0 <= i < CountAtMost(l, k) ==> AtMost(l[i].key, k)
    ensures forall i :: CountAtMost(l, k) <= i < |l| ==> Less(k, l[i].key)
  {
    RankSplits(l, k);
    forall i | CountAtMost(l, k) <= i < |l| ensures Less(k, l[i].key) {
      if i > Rank(l, k) { AtMostTransitive(k, l[Rank(l, k)].key, l[i].key); }
    }
  }

  /** Every record of a level has its key in the merged run. */
  lemma LevelKeyInMerge(levels: seq<Level>, m: Level, j: nat, q: nat) returns (x: nat)
    requires AllSorted(levels) && m == MergeAll(levels)
    requires j < |levels| && q < |levels[j]|
    ensures x < |m| && m[x].key == levels[j][q].key
  {
    var k := levels[j][q].key;
    MergeAllFind(levels, k);
    FindAt(levels[j], q);
    HitBelowIsHit(levels, j, k);
    FindSound(m, k);
    x :| 0 <= x < |m| && m[x] == Find(m, k).value;
  }

  lemma {:induction false} HitBelowIsHit(levels: seq<Level>, j: nat, k: Bytes)
    requires j < |levels| && Find(levels[j], k).Some?
    ensures FindFirst(levels, k).Some?
  {
    if j > 0 { HitBelowIsHit(levels[1..], j - 1, k); }
  }

  /** A level key past the c-th merged key is at or past the next one. */
  lemma NextMergedKey(levels: seq<Level>, m: Level, j: nat, c: nat, q: nat)
    requires AllSorted(levels) && m == MergeAll(levels) && Sorted(m)
    requires j < |levels| && c < |m| && q < |levels[j]| && Less(m[c].key, levels[j][q].key)
    ensures c + 1 < |m| && AtMost(m[c + 1].key, levels[j][q].key)
  {
    var x := LevelKeyInMerge(levels, m, j, q);
    if x == c { LessIrreflexive(m[c].key); }
    if x < c { LessAsymmetric(m[x].key, m[c].key); }
    assert c < x;
  }

  /** Stepping over one merged key moves the cut of exactly the levels having it. */
  lemma CutStep(levels: seq<Level>, m: Level, j: nat, c: nat)
    requires AllSorted(levels) && m == MergeAll(levels)
    requires j < |levels| && c < |m|
    ensures Cut(levels[j], m, c + 1) == CountAtMost(levels[j], m[c].key)
  {
    MergeAllSorted(levels);
    var l, k := levels[j], m[c].key;
    var n := CountAtMost(l, k);
    CountSplits(l, k);
    if n < |l| { NextMergedKey(levels, m, j, c, n); }
    if c + 1 < |m| {
      if n > 0 { AtMostTransitive(l[n - 1].key, k, m[c + 1].key); }
      RankUnique(l, m[c + 1].key, n);
    }
  }

  lemma CutZero(levels: seq<Level>, m: Level, j: nat)
    requires AllSorted(levels) && m == MergeAll(levels) && j < |levels|
    ensures Cut(levels[j], m, 0) == 0
  {
    var l := levels[j];
    if l != [] {
      MergeAllSorted(levels);
      var x := LevelKeyInMerge(levels, m, j, 0);
      if x > 0 { assert Less(m[0].key, m[x].key); }
      RankUnique(l, m[0].key, 0);
    }
  }

  /** Seeking every level to `k` puts them all at the cut of the merged rank. */
  lemma CutAtRank(levels: seq<Level>, m: Level, j: nat, k: Bytes)
    requires AllSorted(levels) && m == MergeAll(levels) && j < |levels|
    ensures Cut(levels[j], m, Rank(m, k)) == Rank(levels[j], k)
  {
    MergeAllSorted(levels);
    RankSplits(m, k);
    var l, c := levels[j], Rank(m, k);
    var n := Rank(l, k);
    RankSplits(l, k);
    if c < |m| {
      if n > 0 { AtMostTransitive(l[n - 1].key, k, m[c].key); }
      if n < |l| {
        var x := LevelKeyInMerge(levels, m, j, n);
        if x < c { Trichotomy(m[x].key, k); assert false; }
        if c < x { assert Less(m[c].key, m[x].key); }
      }
      RankUnique(l, m[c].key, n);
    } else if n < |l| {
      var x := LevelKeyInMerge(levels, m, j, n);
      Trichotomy(m[x].key, k);
      assert false;
    }
  }

  /** Where a level cursor stands when the merge is at cut `c`: on the next
      record upward, or on the next record downward. */
  function Side(l: Level, m: Level, c: nat, desc: bool): int {
    if desc then Cut(l, m, c) - 1 else Cut(l, m, c)
  }

  predicate Before(a: Bytes, b: Bytes, desc: bool) {
    if desc then Less(b, a) else Less(a, b)
  }

  predicate Stands(levels: seq<Level>, pos: seq<int>, j: nat)
    requires |pos| == |levels| && j < |levels|
  {
    0 <= pos[j] < |levels[j]|
  }

  function KeyAt(levels: seq<Level>, pos: seq<int>, j: nat): Bytes
    requires |pos| == |levels| && j < |levels| && Stands(levels, pos, j)
  {
    levels[j][pos[j]].key
  }

  /** Among the first `n` levels `w` holds the extreme current key, the lowest
      index winning a tie; -1 if none of them stands on a record. */
  ghost predicate IsExtremeOf(levels: seq<Level>, pos: seq<int>, n: nat, w: int, desc: bool)
    requires |pos| == |levels| && n <= |levels|
  {
    if w == -1 then
      forall j :: 0 <= j < n ==> !Stands(levels, pos, j)
    else
      && 0 <= w < n && Stands(levels, pos, w)
      && forall j :: 0 <= j < n && Stands(levels, pos, j) ==>
           && !Before(KeyAt(levels, pos, j), KeyAt(levels, pos, w), desc)
           && (j < w ==> KeyAt(levels, pos, j) != KeyAt(levels, pos, w))
  }

  ghost predicate IsExtreme(levels: seq<Level>, pos: seq<int>, w: int, desc: bool)
    requires |pos| == |levels|
  {
    IsExtremeOf(levels, pos, |levels|, w, desc)
  }

  /** One more level either takes over, when its key is strictly further out, or
      leaves the choice as it was. */
  lemma ExtremeOfNext(levels: seq<Level>, pos: seq<int>, n: nat, w: int, desc: bool)
    requires |pos| == |levels| && n < |levels| && IsExtremeOf(levels, pos, n, w, desc)
    ensures IsExtremeOf(levels, pos, n + 1,
      if Stands(levels, pos, n) && (w == -1 || Before(KeyAt(levels, pos, n), KeyAt(levels, pos, w), desc))
        then n else w, desc)
  {
    if Stands(levels, pos, n) {
      var k := KeyAt(levels, pos, n);
      LessIrreflexive(k);
      if w >= 0 && Before(k, KeyAt(levels, pos, w), desc) {
        forall j | 0 <= j < n && Stands(levels, pos, j)
          ensures !Before(KeyAt(levels, pos, j), k, desc) && KeyAt(levels, pos, j) != k
        {
          BeforeChain(k, KeyAt(levels, pos, w), KeyAt(levels, pos, j), desc);
        }
      }
    }
  }

  lemma {:induction false} FirstHolder(levels: seq<Level>, k: Bytes) returns (w: nat)
    requires FindFirst(levels, k).Some?
    ensures w < |levels| && Find(levels[w], k) == FindFirst(levels, k)
    ensures forall j :: 0 <= j < w ==> Find(levels[j], k).None?
  {
    if Find(levels[0], k).Some? {
      w := 0;
    } else {
      var v := FirstHolder(levels[1..], k);
      w := v + 1;
      forall j | 0 <= j < w ensures Find(levels[j], k).None? {
        if j > 0 { assert levels[j] == levels[1..][j - 1]; }
      }
    }
  }

  /** The merged key next in the direction of travel, if there is one. */
  ghost predicate HasNext(m: Level, c: nat, desc: bool) {
    if desc then 0 < c <= |m| else c < |m|
  }

  ghost function NextIndex(c: nat, desc: bool): int {
    if desc then c - 1 else c
  }

  /** No level cursor at cut `c` stands on a key short of the next merged key. */
  lemma NoneBeforeNext(levels: seq<Level>, m: Level, c: nat, desc: bool, j: nat)
    requires AllSorted(levels) && m == MergeAll(levels) && c <= |m| && j < |levels|
    requires 0 <= Side(levels[j], m, c, desc) < |levels[j]|
    ensures HasNext(m, c, desc)
    ensures !Before(levels[j][Side(levels[j], m, c, desc)].key, m[NextIndex(c, desc)].key, desc)
  {
    MergeAllSorted(levels);
    var l, q := levels[j], Side(levels[j], m, c, desc);
    var x := LevelKeyInMerge(levels, m, j, q);
    if c < |m| { RankSplits(l, m[c].key); }
    if desc {
      if c == 0 { CutZero(levels, m, j); assert false; }
      if c <= x { if c < x { LessAsymmetric(m[c].key, m[x].key); } else { LessIrreflexive(m[c].key); } assert false; }
      if x == c - 1 { LessIrreflexive(m[x].key); } else { LessAsymmetric(m[x].key, m[c - 1].key); }
    } else {
      Trichotomy(m[c].key, m[x].key);
      if x < c { assert false; }
      if x == c { LessIrreflexive(m[x].key); } else { LessAsymmetric(m[c].key, m[x].key); }
    }
  }

  /** The newest level having the next merged key stands right on its record. */
  lemma HolderStandsOnNext(levels: seq<Level>, m: Level, c: nat, desc: bool) returns (w: nat)
    requires AllSorted(levels) && m == MergeAll(levels) && c <= |m| && HasNext(m, c, desc)
    ensures w < |levels| && 0 <= Side(levels[w], m, c, desc) < |levels[w]|
    ensures levels[w][Side(levels[w], m, c, desc)] == m[NextIndex(c, desc)]
    ensures forall j :: 0 <= j < w ==> Find(levels[j], m[NextIndex(c, desc)].key).None?
  {
    MergeAllSorted(levels);
    var i: nat := NextIndex(c, desc);
    var k := m[i].key;
    MergeAllFind(levels, k);
    FindAt(m, i);
    w := FirstHolder(levels, k);
    FindAtRank(levels[w], k);
    CutStep(levels, m, w, i);
  }

  /** The extreme is the lowest level that stands on a key nothing is short of. */
  lemma ExtremeAgrees(levels: seq<Level>, pos: seq<int>, w: int, h: nat, desc: bool)
    requires |pos| == |levels| && IsExtreme(levels, pos, w, desc)
    requires h < |levels| && Stands(levels, pos, h)
    requires w >= 0 ==> !Before(KeyAt(levels, pos, w), KeyAt(levels, pos, h), desc)
    ensures 0 <= w <= h && KeyAt(levels, pos, w) == KeyAt(levels, pos, h)
  {
    if w >= 0 { Trichotomy(KeyAt(levels, pos, w), KeyAt(levels, pos, h)); }
  }

  /** Whatever `extreme` answers at cut `c` is the next record of the merged run. */
  lemma ExtremeIsNext(levels: seq<Level>, m: Level, c: nat, desc: bool, pos: seq<int>, w: int)
    requires AllSorted(levels) && m == MergeAll(levels) && c <= |m| && |pos| == |levels|
    requires forall j :: 0 <= j < |levels| ==> pos[j] == Side(levels[j], m, c, desc)
    requires IsExtreme(levels, pos, w, desc)
    ensures w == -1 <==> !HasNext(m, c, desc)
    ensures w >= 0 ==> Stands(levels, pos, w) && levels[w][pos[w]] == m[NextIndex(c, desc)]
  {
    if w >= 0 { NoneBeforeNext(levels, m, c, desc, w); }
    if HasNext(m, c, desc) {
      var h := HolderStandsOnNext(levels, m, c, desc);
      ExtremeAgrees(levels, pos, w, h, desc);
      assert levels[w][pos[w]] in levels[w];
      FindSound(levels[w], m[NextIndex(c, desc)].key);
      if w != h { assert false; }
    }
  }

  // ---- the cursors ----

  /** Where a level cursor reads its records: the MemTable or a file on disk. */
  datatype Source = InMemory(run: Level) | OnDisk(file: SSTable.SortedFile)
  {
    function Size(): nat {
      match this
      case InMemory(run) => |run|
      case OnDisk(file) => file.nkeys
    }

    function Read(i: nat): Option<Record> {
      match this
      case InMemory(run) => if i < |run| then Some(run[i]) else None
      case OnDisk(file) => SSTable.Index(file, i)
    }

    ghost predicate Yields(l: Level) {
      match this
      case InMemory(run) => run == l
      case OnDisk(file) => SSTable.Holds(file, l)
    }
  }

  /** A cursor over one level. It may stand one past either end, from where one
      step leads back into range. */
  class LevelCursor {
    const source: Source
    ghost const level: Level
    var pos: int

    ghost predicate Inv()
      reads this
    {
      -1 <= pos <= |level| && source.Yields(level)
    }

    constructor (source: Source, ghost level: Level, pos: int)
      requires source.Yields(level) && -1 <= pos <= |level|
      ensures Inv() && this.level == level && this.pos == pos
    {
      this.source, this.level, this.pos := source, level, pos;
    }

    predicate Valid()
      reads this
    {
      0 <= pos < source.Size()
    }

    lemma ValidWithin()
      requires Inv()
      ensures Valid() <==> 0 <= pos < |level|
    {
    }

    function Current(): (r: Record)
      requires Inv() && Valid()
      reads this
      ensures pos < |level| && r == level[pos]
    {
      source.Read(pos).value
    }

    method Next()
      requires Inv()
      modifies this
      ensures Inv() && pos == if old(pos) < |level| then old(pos) + 1 else old(pos)
    {
      if pos < source.Size() { pos := pos + 1; }
    }

    method Prev()
      requires Inv()
      modifies this
      ensures Inv() && pos == if old(pos) >= 0 then old(pos) - 1 else old(pos)
    {
      if pos >= 0 { pos := pos - 1; }
    }

    method Advance(desc: bool)
      requires Inv() && Valid()
      modifies this
      ensures Inv() && pos == if desc then old(pos) - 1 else old(pos) + 1
    {
      if desc { Prev(); } else { Next(); }
    }

    /** Moves to the first key strictly past `key` in direction `desc`. */
    method Reorient(key: Bytes, desc: bool)
      requires Inv() && Sorted(level)
      requires if desc then Rank(level, key) <= pos else pos < CountAtMost(level, key) || pos == -1
      modifies this
      ensures Inv() && pos == if desc then Rank(level, key) - 1 else CountAtMost(level, key)
    {
      if desc { ReorientDown(key); } else { ReorientUp(key); }
    }

    method ReorientDown(key: Bytes)
      requires Inv() && Sorted(level) && Rank(level, key) <= pos
      modifies this
      ensures Inv() && pos == Rank(level, key) - 1
    {
      RankSplits(level, key);
      LessIrreflexive(key);
      if !Valid() { Prev(); }
      while Valid() && Compare(Current().key, key) >= 0
        invariant Inv() && Rank(level, key) - 1 <= pos < |level|
        decreases pos
      {
        Prev();
      }
      if Valid() { Trichotomy(Current().key, key); }
    }

    method ReorientUp(key: Bytes)
      requires Inv() && Sorted(level) && (pos < CountAtMost(level, key) || pos == -1)
      modifies this
      ensures Inv() && pos == CountAtMost(level, key)
    {
      CountSplits(level, key);
      if !Valid() { Next(); }
      while Valid() && Compare(Current().key, key) <= 0
        invariant Inv() && 0 <= pos <= CountAtMost(level, key)
        decreases |level| - pos
      {
        Trichotomy(key, Current().key);
        Next();
      }
      if Valid() { Trichotomy(key, Current().key); }
    }
  }

  ghost predicate Separate(cs: seq<LevelCursor>) {
    forall i, j :: 0 <= i < j < |cs| ==> cs[i] != cs[j]
  }

  ghost function Runs(cs: seq<LevelCursor>): (r: seq<Level>)
    ensures |r| == |cs| && forall j :: 0 <= j < |cs| ==> r[j] == cs[j].level
  {
    seq(|cs|, j requires 0 <= j < |cs| => cs[j].level)
  }

  ghost function Positions(cs: seq<LevelCursor>): (r: seq<int>)
    reads cs
    ensures |r| == |cs| && forall j :: 0 <= j < |cs| ==> r[j] == cs[j].pos
  {
    seq(|cs|, j requires 0 <= j < |cs| reads cs => cs[j].pos)
  }

  /** All level cursors stand at cut `c` of the merged run, facing `desc`. */
  ghost predicate AllAt(cs: seq<LevelCursor>, m: Level, c: nat, desc: bool)
    reads cs
  {
    forall j :: 0 <= j < |cs| ==> cs[j].pos == Side(cs[j].level, m, c, desc)
  }

  class MergedIter {
    const levels: seq<LevelCursor>
    var which: int
    var frontier: Option<Bytes>
    var desc: bool
    ghost var at: Position

    ghost function View(): Level {
      MergeAll(Runs(levels))
    }

    ghost predicate Shape()
      reads this, levels
    {
      && Separate(levels)
      && AllSorted(Runs(levels))
      && (forall j :: 0 <= j < |levels| ==> levels[j].Inv())
    }

    /** What `which` and `frontier` record about an emitted key. */
    ghost predicate Emits(r: Record)
      reads this, levels
    {
      && 0 <= which < |levels| && levels[which].Inv() && levels[which].Valid() && levels[which].Current() == r
      && frontier == if r.key == [] then None else Some(r.key)
    }

    ghost predicate Inv()
      reads this, levels
    {
      && Shape()
      && InRun(View(), at)
      && (at.Out? ==> which == -1 && frontier == None)
      && (at.At? ==>
           && Emits(View()[at.i])
           && AllAt(levels, View(), if desc then at.i + 1 else at.i, desc))
    }

    /** A merged cursor over level cursors that have all been opened at `c`. */
    constructor (levels: seq<LevelCursor>, ghost c: nat)
      requires Separate(levels) && AllSorted(Runs(levels))
      requires forall j :: 0 <= j < |levels| ==> levels[j].Inv()
      requires c <= |MergeAll(Runs(levels))| && AllAt(levels, MergeAll(Runs(levels)), c, false)
      ensures Inv() && this.levels == levels && !desc
      ensures at == if c < |View()| then At(c) else Out
    {
      this.levels := levels;
      desc := false;
      frontier := None;
      which := -1;
      at := Out;
      new;
      Settle(c);
    }

    /** With every level past the cut, picks the record to emit. */
    method Settle(ghost c: nat)
      requires Shape() && c <= |View()| && AllAt(levels, View(), c, desc)
      modifies this`which, this`frontier, this`at
      ensures Inv()
      ensures at == if HasNext(View(), c, desc) then At(NextIndex(c, desc)) else Out
    {
      hide Side, MergeAll, IsExtreme, AllSorted, Separate, Source.Size, Source.Read, Source.Yields, FindFirst, Find,
        Less, Before;
      which := Extreme();
      ExtremeIsNext(Runs(levels), View(), c, desc, Positions(levels), which);
      if which >= 0 { levels[which].ValidWithin(); }
      assert which >= 0 ==> levels[which].Valid() && levels[which].Current() == View()[NextIndex(c, desc)];
      CaptureFrontier();
      at := if which >= 0 then At(NextIndex(c, desc)) else Out;
      assert at.At? ==> Emits(View()[at.i]);
    }

    method CaptureFrontier()
      requires -1 <= which < |levels| && (which >= 0 ==> levels[which].Inv() && levels[which].Valid())
      modifies this`frontier
      ensures frontier == if which < 0 || levels[which].Current().key == [] then None
        else Some(levels[which].Current().key)
    {
      if which < 0 || levels[which].Current().key == [] {
        frontier := None;
      } else {
        frontier := Some(levels[which].Current().key);
      }
    }

    predicate Valid()
      reads this
    {
      which >= 0
    }

    function Current(): (r: Record)
      requires Inv() && Valid()
      reads this, levels
      ensures at.At? && r == View()[at.i]
    {
      levels[which].Current()
    }

    lemma ValidIffAt()
      requires Inv()
      ensures Valid() <==> at.At?
      ensures at.At? ==> at.i < |View()|
    {
    }

    method Extreme() returns (best: int)
      requires forall j :: 0 <= j < |levels| ==> levels[j].Inv()
      ensures IsExtreme(Runs(levels), Positions(levels), best, desc) && -1 <= best < |levels|
    {
      best := -1;
      var i := 0;
      while i < |levels|
        invariant 0 <= i <= |levels|
        invariant IsExtremeOf(Runs(levels), Positions(levels), i, best, desc)
      {
        ExtremeOfNext(Runs(levels), Positions(levels), i, best, desc);
        if levels[i].Valid() {
          if best == -1 {
            best := i;
          } else {
            var c := Compare(levels[i].Current().key, levels[best].Current().key);
            Trichotomy(levels[i].Current().key, levels[best].Current().key);
            if (!desc && c < 0) || (desc && c > 0) {
              best := i;
            }
          }
        }
        i := i + 1;
      }
    }

    method Next()
      requires Inv()
      modifies this, levels
      ensures Inv() && !desc
      ensures at == StepMerged(View(), old(at), old(desc), false)
    {
      Step(false);
    }

    method Prev()
      requires Inv()
      modifies this, levels
      ensures Inv() && desc
      ensures at == StepMerged(View(), old(at), old(desc), true)
    {
      Step(true);
    }

    method Step(desc: bool)
      requires Inv()
      modifies this, levels
      ensures Inv() && this.desc == desc
      ensures at == StepMerged(View(), old(at), old(this.desc), desc)
    {
      hide Side, MergeAll, AllSorted, Source.Size, Source.Read, Source.Yields;
      if desc != this.desc {
        Turn(desc);
      } else if which >= 0 {
        AdvancePast(Current().key, desc);
        Settle(if desc then at.i else at.i + 1);
      }
    }

    method Turn(desc: bool)
      requires Inv() && this.desc != desc
      modifies this, levels
      ensures Inv() && this.desc == desc
      ensures at == StepMerged(View(), old(at), old(this.desc), desc)
    {
      hide AllAt;
      this.desc := desc;
      if frontier == None {
        which := -1;
        if at.At? { EmptyKeyIsFirst(at.i); }
        at := Out;
      } else {
        ReorientAll(frontier.value, desc);
        Settle(if desc then at.i else at.i + 1);
      }
    }

    lemma EmptyKeyIsFirst(i: nat)
      requires AllSorted(Runs(levels)) && i < |View()| && View()[i].key == []
      ensures i == 0
    {
      MergeAllSorted(Runs(levels));
      assert i > 0 ==> Less(View()[0].key, View()[i].key);
    }

    /** A change of direction: every level moves to the far side of the frontier. */
    method ReorientAll(key: Bytes, desc: bool)
      requires Shape() && at.At? && at.i < |View()| && key == View()[at.i].key
      requires AllAt(levels, View(), if desc then at.i else at.i + 1, !desc)
      modifies levels
      ensures Shape() && AllAt(levels, View(), if desc then at.i else at.i + 1, desc)
    {
      hide Side, MergeAll, AllSorted, Sorted, Rank, CountAtMost, Source.Size, Source.Read, Source.Yields;
      ghost var c := at.i;
      var i := 0;
      while i < |levels|
        invariant 0 <= i <= |levels| && Shape()
        invariant forall j :: 0 <= j < i ==>
          levels[j].pos == Side(levels[j].level, View(), if desc then c else c + 1, desc)
        invariant forall j :: i <= j < |levels| ==>
          levels[j].pos == Side(levels[j].level, View(), if desc then c else c + 1, !desc)
      {
        TurnMovesCut(i, c, desc);
        levels[i].Reorient(key, desc);
        i := i + 1;
      }
    }

    /** Where a level stands before a turn, and where the turn must bring it. */
    lemma TurnMovesCut(j: nat, c: nat, desc: bool)
      requires Shape() && j < |levels| && c < |View()|
      requires levels[j].pos == Side(levels[j].level, View(), if desc then c else c + 1, !desc)
      ensures var l, k, p := levels[j].level, View()[c].key, levels[j].pos;
        Sorted(l) && (if desc then Rank(l, k) <= p else p < CountAtMost(l, k) || p == -1) &&
        Side(l, View(), if desc then c else c + 1, desc) == if desc then Rank(l, k) - 1 else CountAtMost(l, k)
    {
      assert Sorted(Runs(levels)[j]);
      CutStep(Runs(levels), View(), j, c);
    }

    /** Steps every level still on the current key past it. */
    method AdvancePast(key: Bytes, desc: bool)
      requires Shape() && at.At? && at.i < |View()| && key == View()[at.i].key
      requires AllAt(levels, View(), if desc then at.i + 1 else at.i, desc)
      modifies levels
      ensures Shape() && AllAt(levels, View(), if desc then at.i else at.i + 1, desc)
    {
      hide Side, MergeAll, AllSorted, Source.Size, Source.Read, Source.Yields;
      ghost var c := at.i;
      var i := 0;
      while i < |levels|
        invariant 0 <= i <= |levels| && Shape()
        invariant forall j :: 0 <= j < i ==>
          levels[j].pos == Side(levels[j].level, View(), if desc then c else c + 1, desc)
        invariant forall j :: i <= j < |levels| ==>
          levels[j].pos == Side(levels[j].level, View(), if desc then c + 1 else c, desc)
      {
        AdvanceMovesCut(i, c, desc);
        if levels[i].Valid() && levels[i].Current().key == key {
          levels[i].Advance(desc);
        }
        i := i + 1;
      }
    }

    /** A level stands on the current key exactly when stepping over that key
        moves its cut. */
    lemma AdvanceMovesCut(j: nat, c: nat, desc: bool)
      requires Shape() && j < |levels| && c < |View()|
      requires levels[j].pos == Side(levels[j].level, View(), if desc then c + 1 else c, desc)
      ensures Side(levels[j].level, View(), if desc then c else c + 1, desc) ==
        if levels[j].Valid() && levels[j].Current().key == View()[c].key
        then (if desc then levels[j].pos - 1 else levels[j].pos + 1) else levels[j].pos
    {
      CutStep(Runs(levels), View(), j, c);
      var l, k := levels[j].level, View()[c].key;
      RankSplits(l, k);
      if desc && levels[j].Valid() && CountAtMost(l, k) == Rank(l, k) {
        LessIrreflexive(k);
      }
    }
  }

  lemma BeforeChain(a: Bytes, b: Bytes, c: Bytes, desc: bool)
    requires Before(a, b, desc) && !Before(c, b, desc)
    ensures !Before(c, a, desc) && c != a
  {
    Trichotomy(b, c);
    if desc {
      AtMostTransitive(c, b, a);
      LessAsymmetric(c, a);
    } else {
      AtMostTransitive(a, b, c);
      LessAsymmetric(a, c);
    }
  }
}
