/** The storage engine itself: MemTable, SSTable levels, log and metadata behind
    Get, SetEx, Del, Seek, Range and Compact. Each method is proved to take the
    step of the state machine in Engine.dfy that bears its name. */
module KVStore {
  import opened Bytes
  import opened Levels
  import opened MergeCursor
  import opened RangeScan
  import opened MemTable
  import opened Disk
  import opened Device
  import opened Engine
  import opened Compaction
  import CrashSafety
  import MetaSlots
  import LogFile
  import SSTable
  import Volume

  /** What a reader finds by scanning: the live pairs of the map, in key order. */
  ghost function LivePairs(stack: seq<Level>): Level {
    DropDeleted(MergeAll(stack))
  }

  lemma LivePairsExact(stack: seq<Level>)
    requires AllSorted(stack)
    ensures Sorted(LivePairs(stack))
    ensures forall r :: r in LivePairs(stack) <==> !r.deleted && r.key in Live(stack) && Live(stack)[r.key] == r.val
  {
    var m, l := MergeAll(stack), LivePairs(stack);
    MergeAllSorted(stack);
    DropDeletedSorted(m);
    forall r ensures r in l <==> !r.deleted && r.key in Live(stack) && Live(stack)[r.key] == r.val {
      MergeAllFind(stack, r.key);
      DropDeletedFind(m, r.key);
      FindSound(l, r.key);
      if r in l {
        var i :| 0 <= i < |l| && l[i] == r;
        FindAt(l, i);
      }
    }
  }

  /** Get and Seek agree: a key is live exactly when seeking it lands on it, and then
      on its value. */
  lemma SeekLandsOnLiveKeys(stack: seq<Level>, key: Bytes)
    requires AllSorted(stack)
    ensures var l, m := LivePairs(stack), Live(stack);
      (key in m <==> Rank(l, key) < |l| && l[Rank(l, key)].key == key) &&
      (key in m ==> l[Rank(l, key)].val == m[key])
  {
    hide LivePairs, Live, AllSorted;
    var l := LivePairs(stack);
    LivePairsExact(stack);
    FindAtRank(l, key);
    FindSound(l, key);
    if key in Live(stack) {
      var r := Record(key, Live(stack)[key], false);
      assert r in l;
      var i :| 0 <= i < |l| && l[i] == r;
      FindAt(l, i);
    }
    if Rank(l, key) < |l| && l[Rank(l, key)].key == key {
      assert l[Rank(l, key)] in l;
    }
  }

  /** Every named file exists and has a header to read. */
  predicate HeadersReadable(files: map<nat, Bytes>, tables: seq<nat>) {
    forall i :: 0 <= i < |tables| ==> tables[i] in files && SSTable.OpenFile(files[tables[i]]).Some?
  }

  /** The j-th file opened is the one that the j-th name stands for. */
  predicate OpensEach(fs: seq<SSTable.SortedFile>, files: map<nat, Bytes>, tables: seq<nat>) {
    |fs| == |tables| &&
    forall j :: 0 <= j < |tables| ==> tables[j] in files && SSTable.OpenFile(files[tables[j]]) == Some(fs[j])
  }

  lemma BackedIsReadable(files: map<nat, Bytes>, tables: seq<nat>, main: seq<Level>, version: nat)
    ensures Backed(files, tables, main, version) ==> HeadersReadable(files, tables)
  {
    hide SSTable.OpenFile, SSTable.Holds;
    if Backed(files, tables, main, version) {
      forall i | 0 <= i < |tables| ensures SSTable.OpenFile(files[tables[i]]).Some? {
        assert Stores(files[tables[i]], main[i]);
      }
    }
  }

  lemma BackedHolds(files: map<nat, Bytes>, tables: seq<nat>, main: seq<Level>, version: nat,
      fs: seq<SSTable.SortedFile>)
    requires OpensEach(fs, files, tables)
    ensures Backed(files, tables, main, version) ==>
      |fs| == |main| && forall i :: 0 <= i < |main| ==> SSTable.Holds(fs[i], main[i])
  {
    hide SSTable.OpenFile, SSTable.Holds;
    if Backed(files, tables, main, version) {
      forall i | 0 <= i < |main| ensures SSTable.Holds(fs[i], main[i]) {
        assert Stores(files[tables[i]], main[i]);
      }
    }
  }

  lemma OneMore(l: Level, n: nat)
    requires n < |l|
    ensures l[..n] + [l[n]] == l[..n + 1]
  {
  }

  lemma Whole(l: Level)
    ensures l[..|l|] == l
  {
  }

  /** Every record of a merge opened at its start. */
  method DrainAll(it: MergedIter) returns (out: Level)
    requires it.Inv() && !it.desc
    requires it.at == if |it.View()| > 0 then At(0) else Out
    modifies it, it.levels
    ensures out == it.View()
  {
    hide MergedIter.Inv, MergeAll;
    out := [];
    ghost var m := it.View();
    it.ValidIffAt();
    while it.Valid()
      invariant it.Inv() && !it.desc && |out| <= |m| && out == m[..|out|]
      invariant it.at == if |out| < |m| then At(|out|) else Out
      decreases |m| - |out|
    {
      it.ValidIffAt();
      OneMore(m, |out|);
      out := out + [it.Current()];
      it.Next();
      it.ValidIffAt();
    }
    it.ValidIffAt();
    Whole(m);
  }

  /** Every live record of a merge opened at its start. */
  method DrainLive(it: NoDeletedIter) returns (out: Level)
    requires it.Inv() && !it.iter.desc
    requires it.Where() == if |it.LiveRun()| > 0 then At(0) else Out
    modifies it.iter, it.iter.levels
    ensures out == it.LiveRun()
  {
    hide MergedIter.Inv, LivePosition, DropDeleted, MergeAll;
    out := [];
    ghost var l := it.LiveRun();
    while it.Valid()
      invariant it.Inv() && !it.iter.desc && |out| <= |l| && out == l[..|out|]
      invariant it.Where() == if |out| < |l| then At(|out|) else Out
      decreases |l| - |out|
    {
      it.CurrentIsLive();
      OneMore(l, |out|);
      out := out + [it.Current()];
      it.Next();
    }
    it.CurrentIsLive();
    Whole(l);
  }

  class KV {
    const dev: Device
    const log: Log
    const meta: MetaStore
    const mem: SortedArray
    var main: seq<SSTable.SortedFile>
    var version: nat
    const threshold: nat
    const growth: real
    ghost var levels: seq<Level>

    ghost function Abs(): Store
      requires mem.Parallel()
      reads this, dev, log, mem
    {
      Store(dev.Dir(), log.pos, mem.Contents(), levels, version)
    }

    ghost predicate Valid()
      reads this, dev, log, meta, mem
    {
      && log.dev == dev && meta.dev == dev && meta.slots == dev.slots
      && mem.Valid() && Inv(Abs())
      && |main| == |levels| && forall i :: 0 <= i < |main| ==> SSTable.Holds(main[i], levels[i])
    }

    lemma ParallelWhenValid()
      requires Valid()
      ensures mem.Parallel()
    {
    }

    /** Ready to be opened, as a new store is and a store in use. */
    ghost predicate Attached()
      reads this, dev, log, meta, mem
    {
      log.dev == dev && meta.dev == dev && meta.slots == dev.slots && mem.Valid()
    }

    constructor (dev: Device, threshold: nat, growth: real)
      ensures Attached() && this.dev == dev && fresh(log) && fresh(meta) && fresh(mem)
      ensures this.threshold == threshold && this.growth == growth
    {
      this.dev, this.threshold, this.growth := dev, threshold, growth;
      log := new Log(dev);
      meta := new MetaStore(dev);
      mem := new SortedArray();
      main := [];
      version := 0;
      levels := [];
    }

    /** Opens the directory: fails when a file that the metadata names is missing or
        has no header. When the named files are intact, as after every run of this
        engine, crashes included, the store is then the reopened one, whatever was in
        memory before. */
    method Open() returns (ok: bool)
      requires Attached() && !LogFile.Replay(dev.log).panicked
      modifies this, log, mem
      ensures ok <==> HeadersReadable(dev.files, MetaSlots.Get(dev.slots).tables)
      ensures ok ==> OpensEach(main, dev.files, MetaSlots.Get(dev.slots).tables)
      ensures Inv(Reopen(dev.Dir())) ==> ok && Valid() && Abs() == Reopen(dev.Dir())
    {
      version := meta.Get().version;
      log.Open();
      mem.Clear();
      ReplayLog();
      ok := OpenLevels(Reopen(dev.Dir()).main);
      hide LogFile.Replay, LogFile.ApplyAll, SSTable.Holds, Sorted;
    }

    /** Refills the empty MemTable from the log, record by record. */
    method ReplayLog()
      requires log.dev == dev && log.pos == 0 && mem.Valid() && mem.Contents() == []
      requires !LogFile.Replay(dev.log).panicked
      modifies log, mem
      ensures mem.Valid() && log.pos == LogFile.Replay(dev.log).used
      ensures mem.Contents() == LogFile.ApplyAll([], LogFile.Replay(dev.log).entries)
    {
      hide LogFile.Decode, Put, Shows;
      ghost var all := LogFile.Replay(dev.log);
      assert dev.log[0..] == dev.log;
      var done := false;
      while !done
        invariant mem.Valid() && log.pos <= |dev.log|
        invariant !done ==> var rest := LogFile.Replay(dev.log[log.pos..]);
          !rest.panicked && log.pos + rest.used == all.used &&
          LogFile.ApplyAll(mem.Contents(), rest.entries) == LogFile.ApplyAll([], all.entries)
        invariant done ==> log.pos == all.used && mem.Contents() == LogFile.ApplyAll([], all.entries)
        decreases !done, |dev.log| - log.pos
      {
        ghost var at, l := log.pos, mem.Contents();
        var ent := log.Read();
        match ent
        case None => done := true;
        case Some(e) =>
          assert dev.log[at..][log.pos - at..] == dev.log[log.pos..];
          assert ([e] + LogFile.Replay(dev.log[log.pos..]).entries)[1..] == LogFile.Replay(dev.log[log.pos..]).entries;
          if e.deleted {
            mem.Del(e.key);
          } else {
            var _ := mem.Set(e.key, e.val);
          }
      }
    }

    /** (Re)opens the files the metadata names, or stops at the first that fails. */
    method OpenLevels(ghost now: seq<Level>) returns (ok: bool)
      requires meta.dev == dev && meta.slots == dev.slots
      modifies this`main, this`levels
      ensures levels == now
      ensures ok <==> HeadersReadable(dev.files, meta.Get().tables)
      ensures ok ==> OpensEach(main, dev.files, meta.Get().tables)
      ensures Backed(dev.files, meta.Get().tables, now, meta.Get().version) ==>
        ok && |main| == |levels| && forall i :: 0 <= i < |main| ==> SSTable.Holds(main[i], levels[i])
    {
      hide SSTable.Holds, SSTable.OpenFile;
      main := [];
      levels := now;
      var tables := meta.Get().tables;
      var i := 0;
      while i < |tables|
        invariant 0 <= i <= |tables| && |main| == i && levels == now
        invariant forall j :: 0 <= j < i ==>
          tables[j] in dev.files && SSTable.OpenFile(dev.files[tables[j]]) == Some(main[j])
      {
        if tables[i] !in dev.files {
          return false;
        }
        var f := SSTable.OpenFile(dev.files[tables[i]]);
        if f.None? {
          BackedIsReadable(dev.files, tables, now, meta.Get().version);
          return false;
        }
        main := main + [f.value];
        i := i + 1;
      }
      BackedHolds(dev.files, tables, now, meta.Get().version, main);
      return true;
    }

    /** The newest level having the key decides; a tombstone there means absent. */
    method Get(key: Bytes) returns (val: Option<Bytes>)
      requires Valid()
      ensures val == if key in View(Abs()) then Some(View(Abs())[key]) else None
    {
      var st := mem.State(key);
      StackFind(mem.Contents(), levels, key);
      match st {
        case Present(v) => return Some(v);
        case Tombstone => return None;
        case Absent =>
      }
      var i := 0;
      SortedStack(mem.Contents(), levels);
      assert levels[0..] == levels;
      while i < |main|
        invariant 0 <= i <= |main|
        invariant FindFirst(levels[i..], key) == FindFirst(Stack(Abs()), key)
      {
        var pos, found := SSTable.Search(main[i], levels[i], key);
        FindAtRank(levels[i], key);
        assert levels[i..][1..] == levels[i + 1..];
        if found {
          var r := SSTable.Index(main[i], pos).value;
          if r.deleted {
            return None;
          }
          return Some(r.val);
        }
        i := i + 1;
      }
      return None;
    }

    method SetEx(key: Bytes, val: Bytes, mode: Mode) returns (written: bool)
      requires Valid()
      modifies this, dev, log, mem
      ensures Valid() && Abs() == After(old(Abs()), Write(key, val, mode))
      ensures dev.issued == old(dev.issued) + old(Ops(Abs(), Write(key, val, mode)))
      ensures written <==> (mode == Insert ==> key !in old(View(Abs()))) && (mode == Update ==> key in old(View(Abs())))
    {
      hide Layered, Stores, LogFile.Encode, LogFile.Replay, Put, SSTable.Holds;
      ghost var s, req := Abs(), Write(key, val, mode);
      CrashSafety.CallsKeepInv(s, req);
      CrashSafety.Prefixes(s.dir, Ops(s, req));
      var was := Get(key);
      if was.Some? && mode == Insert {
        return false;
      }
      if was.None? && mode == Update {
        return false;
      }
      log.Write(LogFile.Entry(key, val, false));
      var _ := mem.Set(key, val);
      return true;
    }

    /** Records a tombstone; reports whether the key was live. */
    method Del(key: Bytes) returns (deleted: bool)
      requires Valid()
      modifies this, dev, log, mem
      ensures Valid() && Abs() == After(old(Abs()), Delete(key))
      ensures dev.issued == old(dev.issued) + old(Ops(Abs(), Delete(key)))
      ensures deleted <==> key in old(View(Abs()))
    {
      hide Layered, Stores, LogFile.Encode, LogFile.Replay, Put, SSTable.Holds;
      ghost var s, req := Abs(), Delete(key);
      CrashSafety.CallsKeepInv(s, req);
      CrashSafety.Prefixes(s.dir, Ops(s, req));
      var was := Get(key);
      if was.None? {
        return false;
      }
      log.Write(LogFile.Entry(key, [], true));
      mem.Del(key);
      return true;
    }

    method OpenLevel(i: nat, key: Bytes) returns (c: LevelCursor)
      requires Valid() && i < |main|
      ensures fresh(c) && c.Inv() && c.level == levels[i] && c.pos == Rank(levels[i], key)
    {
      SortedStack(mem.Contents(), levels);
      var pos, _ := SSTable.Search(main[i], levels[i], key);
      c := new LevelCursor(OnDisk(main[i]), levels[i], pos);
    }

    /** One cursor per level, each at its first key >= key, newest level first. */
    method OpenCursors(key: Bytes) returns (cs: seq<LevelCursor>)
      requires Valid()
      ensures Separate(cs) && fresh(cs) && Runs(cs) == Stack(Abs())
      ensures forall j :: 0 <= j < |cs| ==> cs[j].Inv() && cs[j].pos == Rank(cs[j].level, key)
    {
      hide Inv, SSTable.Holds, SSTable.Index, Sorted, Rank;
      ghost var stack := Stack(Abs());
      var top := mem.Seek(key);
      cs := [top];
      var i := 0;
      while i < |main|
        invariant 0 <= i <= |main| && |cs| == i + 1
        invariant Separate(cs) && forall j :: 0 <= j <= i ==> fresh(cs[j])
        invariant forall j :: 0 <= j <= i ==> cs[j].Inv() && cs[j].level == stack[j] && cs[j].pos == Rank(stack[j], key)
      {
        var c := OpenLevel(i, key);
        cs := cs + [c];
        i := i + 1;
      }
    }

    /** A cursor over the merged, tombstone-filtered store at the first key >= key. */
    method Seek(key: Bytes) returns (it: NoDeletedIter)
      requires Valid()
      ensures it.Inv() && !it.iter.desc && fresh(it) && fresh(it.iter) && fresh(it.iter.levels)
      ensures it.LiveRun() == LivePairs(Stack(Abs())) && Sorted(it.LiveRun())
      ensures var l := LivePairs(Stack(Abs()));
        it.Where() == if Rank(l, key) < |l| then At(Rank(l, key)) else Out
    {
      ghost var stack := Stack(Abs());
      ghost var m := MergeAll(stack);
      ghost var c := Rank(m, key);
      var cs := OpenCursors(key);
      forall j | 0 <= j < |cs| ensures cs[j].pos == Side(cs[j].level, m, c, false) {
        CutAtRank(stack, m, j, key);
      }
      var merged := new MergedIter(cs, c);
      MergeAllSorted(stack);
      DropDeletedSorted(m);
      LiveBeforeRank(m, key);
      it := new NoDeletedIter(merged, c);
    }

    /** A scan of the closed interval between `start` and `stop`. */
    method Range(start: Bytes, stop: Bytes, desc: bool) returns (it: RangedKVIter)
      requires Valid()
      ensures it.Inv() && it.desc == desc && it.stop == stop && (it.iter.iter.desc ==> desc)
      ensures fresh(it) && fresh(it.iter.iter) && fresh(it.iter.iter.levels)
      ensures var l := LivePairs(Stack(Abs()));
        it.Remaining() == if desc then Descending(l, DescendingFrom(l, start), stop)
                          else Ascending(l, Rank(l, start), stop)
    {
      var kvit := Seek(start);
      it := new RangedKVIter(kvit, start, stop, desc);
    }

    ghost predicate Opened(now: seq<Level>)
      reads this
    {
      levels == now && |main| == |levels| && forall i :: 0 <= i < |main| ==> SSTable.Holds(main[i], levels[i])
    }

    /** Writes the new file, then points the metadata at it, then reopens. */
    method InstallLevels(name: nat, data: Bytes, tables: seq<nat>, ghost now: seq<Level>)
      requires meta.dev == dev && meta.slots == dev.slots && name > meta.Get().version
      requires Backed(dev.files[name := data], tables, now, name)
      modifies this`main, this`levels, this`version, dev, meta
      ensures meta.slots == dev.slots && Opened(now) && version == name
      ensures dev.issued == old(dev.issued) + [PutFile(name, data), WriteSlot(MetaSlots.Meta(name, tables))]
      ensures dev.Dir() == Exec(Exec(old(dev.Dir()), PutFile(name, data)), WriteSlot(MetaSlots.Meta(name, tables)))
    {
      version := name;
      dev.Issue(PutFile(name, data));
      var _ := meta.Set(MetaSlots.Meta(name, tables));
      var _ := OpenLevels(now);
    }

    /** ... and only then is the log emptied. */
    method InstallFlush(name: nat, data: Bytes, tables: seq<nat>, ghost now: seq<Level>)
      requires log.dev == dev && meta.dev == dev && meta.slots == dev.slots && name > meta.Get().version
      requires Backed(dev.files[name := data], tables, now, name)
      modifies this`main, this`levels, this`version, dev, meta, log, mem
      ensures meta.slots == dev.slots && Opened(now) && version == name
      ensures mem.Valid() && mem.Contents() == [] && log.pos == 0
      ensures dev.issued == old(dev.issued) +
        ([PutFile(name, data), WriteSlot(MetaSlots.Meta(name, tables))] + [TruncateLog])
      ensures dev.Dir() ==
        Exec(Exec(Exec(old(dev.Dir()), PutFile(name, data)), WriteSlot(MetaSlots.Meta(name, tables))), TruncateLog)
    {
      InstallLevels(name, data, tables, now);
      mem.Clear();
      log.Truncate();
    }

    /** ... and only then are the superseded files removed. */
    method InstallMerge(name: nat, data: Bytes, tables: seq<nat>, ghost now: seq<Level>, upper: nat, lower: nat)
      requires meta.dev == dev && meta.slots == dev.slots && name > meta.Get().version
      requires Backed(dev.files[name := data], tables, now, name)
      modifies this`main, this`levels, this`version, dev, meta
      ensures meta.slots == dev.slots && Opened(now) && version == name
      ensures dev.issued == old(dev.issued) +
        ([PutFile(name, data), WriteSlot(MetaSlots.Meta(name, tables))] + [RemoveFile(upper)] + [RemoveFile(lower)])
      ensures dev.Dir() ==
        Exec(Exec(Exec(Exec(old(dev.Dir()), PutFile(name, data)), WriteSlot(MetaSlots.Meta(name, tables))),
                  RemoveFile(upper)), RemoveFile(lower))
    {
      InstallLevels(name, data, tables, now);
      dev.Issue(RemoveFile(upper));
      dev.Issue(RemoveFile(lower));
    }

    /** The MemTable becomes the newest SSTable. */
    method CompactLog()
      requires Valid() && Legal(Abs(), Flush)
      modifies this, dev, log, meta, mem
      ensures Valid() && Abs() == After(old(Abs()), Flush)
      ensures mem.Contents() == [] && levels == [old(mem.Contents())] + old(levels)
      ensures dev.issued == old(dev.issued) + old(Ops(Abs(), Flush))
    {
      hide SSTable.BuildFile, After, Ops;
      ghost var s := Abs();
      var name, run := version + 1, mem.Contents();
      var prior := if name in dev.files then dev.files[name] else [];
      var names := [name] + meta.Get().tables;
      assert prior == Prior(s, name) && run == s.mem && names == [s.version + 1] + MetaSlots.Get(s.dir.slots).tables;
      hide Backed, Inv, SSTable.Holds, Prior, Exec;
      var nf := SSTable.CreateFromSorted(prior, run, |run|);
      CrashSafety.FlushResult(s, nf.data, names);
      InstallFlush(name, nf.data, names, [s.mem] + s.main);
      CrashSafety.FlushInstalled(s, nf.data, names, Abs());
    }

    /** A merged cursor at the start of files i and i+1. */
    method OpenPair(i: nat) returns (it: MergedIter)
      requires Valid() && i + 1 < |main|
      ensures fresh(it) && fresh(it.levels) && it.Inv() && !it.desc
      ensures it.View() == MergeAll([levels[i], levels[i + 1]])
      ensures it.at == if |it.View()| > 0 then At(0) else Out
    {
      SortedStack(mem.Contents(), levels);
      var upper := new LevelCursor(OnDisk(main[i]), levels[i], 0);
      var lower := new LevelCursor(OnDisk(main[i + 1]), levels[i + 1], 0);
      var cs := [upper, lower];
      ghost var pair := [levels[i], levels[i + 1]];
      assert Runs(cs) == pair;
      CutZero(pair, MergeAll(pair), 0);
      CutZero(pair, MergeAll(pair), 1);
      it := new MergedIter(cs, 0);
    }

    /** Drains that merge, tombstones filtered out only when the pair is the last. */
    method ReadMerged(i: nat) returns (src: Level)
      requires Valid() && i + 1 < |main|
      ensures src == MergeSource(levels, i)
    {
      hide MergedIter.Inv;
      var it := OpenPair(i);
      if i + 2 == |main| {
        LiveBeforeEnds(it.View());
        var live := new NoDeletedIter(it, 0);
        src := DrainLive(live);
      } else {
        src := DrainAll(it);
      }
    }

    /** Size-tiered policy: merge while the lower level is within the growth factor
        of the upper one. */
    predicate ShouldMerge(i: nat)
      requires i + 1 < |main|
      reads this
    {
      growth > 1.0 && main[i + 1].nkeys as real <= growth * main[i].nkeys as real
    }

    /** The policy asks for exactly the merges that the level sizes call for. */
    lemma PolicyIsWanted(i: nat)
      requires Valid() && i + 1 < |main|
      ensures ShouldMerge(i) <==> Wanted(levels, growth, i)
      ensures growth > 1.0 && !ShouldMerge(i) ==> !(|levels[i + 1]| as real <= growth * |levels[i]| as real)
    {
    }

    lemma KeyCounts()
      requires Valid()
      ensures |main| == |levels| && forall i :: 0 <= i < |main| ==> main[i].nkeys == |levels[i]|
    {
    }

    /** The file that merging levels i and i+1 writes. */
    method BuildMerged(i: nat) returns (data: Bytes)
      requires Valid() && Legal(Abs(), Merge(i))
      ensures data == SSTable.BuildFile(Prior(Abs(), version + 1), MergeSource(levels, i), MergeEstimate(levels, i))
    {
      hide SSTable.BuildFile, MergeSource, Inv, SSTable.Holds, SSTable.Fits;
      var prior := if version + 1 in dev.files then dev.files[version + 1] else [];
      assert prior == Prior(Abs(), version + 1);
      var src := ReadMerged(i);
      KeyCounts();
      assert main[i].nkeys + main[i + 1].nkeys == MergeEstimate(levels, i);
      hide Valid, Abs, Prior, MergeEstimate;
      var nf := SSTable.CreateFromSorted(prior, src, main[i].nkeys + main[i + 1].nkeys);
      data := nf.data;
    }

    method CompactSSTable(i: nat)
      requires Valid() && Legal(Abs(), Merge(i))
      modifies this, dev, log, meta
      ensures Valid() && Abs() == After(old(Abs()), Merge(i))
      ensures levels == Merged(old(levels), i)
      ensures dev.issued == old(dev.issued) + old(Ops(Abs(), Merge(i)))
    {
      hide SSTable.BuildFile, MergeSource, After, Ops;
      ghost var s := Abs();
      var was := meta.Get().tables;
      var names := was[..i] + [version + 1] + was[i + 2..];
      assert names == CrashSafety.MergedTables(s, i);
      hide Backed, Inv, SSTable.Holds, MergeEstimate, Prior, Exec;
      var data := BuildMerged(i);
      CrashSafety.MergeResult(s, i, data, names);
      InstallMerge(version + 1, data, names, Merged(s.main, i), was[i], was[i + 1]);
      CrashSafety.MergeInstalled(s, i, data, names, Abs());
    }

    /** This store was reached from `s` by the flushes and merges `reqs`, with
        exactly their disk operations issued after `was`. */
    ghost predicate Reached(s: Store, was: seq<DiskOp>, reqs: seq<Request>)
      reads this, dev, log, meta, mem
    {
      && Valid() && LegalCompaction(s, reqs) && Abs() == Compacted(s, reqs)
      && dev.issued == was + CompactionOps(s, reqs)
    }

    method FlushStep(ghost s: Store, ghost was: seq<DiskOp>, ghost reqs: seq<Request>)
      requires Reached(s, was, reqs) && mem.Size() > 0 && Volume.Roomy(Stack(Abs()))
      modifies this, dev, log, meta, mem
      ensures Reached(s, was, reqs + [Flush]) && Volume.Roomy(Stack(Abs()))
      ensures mem.Contents() == [] && levels == [old(mem.Contents())] + old(levels)
    {
      hide Compacted, LegalCompaction, CompactionOps, After, Ops, Inv, Volume.Roomy;
      Volume.FlushFits(mem.Contents(), levels);
      CompactedSnoc(s, reqs, Flush);
      CompactLog();
    }

    lemma LevelsSorted()
      requires Valid()
      ensures AllSorted(levels)
    {
      SortedStack(mem.Contents(), levels);
    }

    method MergeStep(i: nat, ghost s: Store, ghost was: seq<DiskOp>, ghost reqs: seq<Request>)
      requires Reached(s, was, reqs) && i + 1 < |main| && Volume.Roomy(Stack(Abs()))
      modifies this, dev, log, meta
      ensures Reached(s, was, reqs + [Merge(i)]) && Volume.Roomy(Stack(Abs()))
      ensures levels == Merged(old(levels), i) && mem.Contents() == old(mem.Contents())
      ensures |main| == old(|main|) - 1
    {
      hide Compacted, LegalCompaction, CompactionOps, After, Ops, Inv, Volume.Roomy, MergeSource;
      LevelsSorted();
      Volume.MergeFits(mem.Contents(), levels, i);
      CompactedSnoc(s, reqs, Merge(i));
      CompactSSTable(i);
    }

    /** Flushes a MemTable that has reached the threshold, then merges wherever the
        policy asks, and nowhere else, looking at the same position again after each
        merge. The map does not change, and the levels end up in tiers. */
    method Compact() returns (ghost reqs: seq<Request>, ghost js: seq<nat>)
      requires Valid() && Volume.Roomy(Stack(Abs()))
      modifies this, dev, log, meta, mem
      ensures Reached(old(Abs()), old(dev.issued), reqs)
      ensures View(Abs()) == old(View(Abs()))
      ensures mem.Contents() == if old(mem.Size()) > 0 && old(mem.Size()) >= threshold then [] else old(mem.Contents())
      ensures var flushed := old(mem.Size()) > 0 && old(mem.Size()) >= threshold;
        && reqs == (if flushed then [Flush] else []) + Merges(js)
        && Follows(if flushed then [old(mem.Contents())] + old(levels) else old(levels), growth, js,
                   0, |levels|, levels)
      ensures growth > 1.0 ==> Tiered(levels, growth)
    {
      hide Compacted, LegalCompaction, CompactionOps, View, Inv, Merged,
        SSTable.Holds, TieredUpTo, Tiered, Follows, Merges, Stack, AllSorted, Layered, Legal, ShouldMerge, Volume.Roomy;
      ghost var s, was := Abs(), dev.issued;
      reqs, js := [], [];
      StartCompaction(s);
      if mem.Size() > 0 && mem.Size() >= threshold {
        FlushStep(s, was, reqs);
        reqs := reqs + [Flush];
      }
      ghost var run, first, start := mem.Contents(), reqs, levels;
      var i := 0;
      FollowsStart(start, growth);
      assert first + [] == first;
      TiersStart(levels, growth);
      while i + 1 < |main|
        invariant Reached(s, was, reqs) && Volume.Roomy(Stack(Abs())) && mem.Contents() == run
        invariant reqs == first + Merges(js) && i <= |main| && Follows(start, growth, js, 0, i, levels)
        invariant TieredUpTo(levels, growth, i) || growth <= 1.0
        decreases 2 * |main| - i
      {
        KeyCounts();
        PolicyIsWanted(i);
        if ShouldMerge(i) {
          LevelsSorted();
          MergeKeepsTiers(levels, growth, i);
          FollowsMerge(start, growth, js, 0, i, levels);
          assert first + Merges(js) + [Merge(i)] == first + (Merges(js) + [Merge(i)]);
          js := js + [i];
          MergeStep(i, s, was, reqs);
          reqs := reqs + [Merge(i)];
        } else {
          if growth > 1.0 { TiersExtend(levels, growth, i); }
          FollowsPast(start, growth, js, 0, i, levels);
          i := i + 1;
        }
      }
      KeyCounts();
      if growth > 1.0 { TiersComplete(levels, growth, i); }
      if i < |levels| { FollowsEnd(start, growth, js, 0, i, levels); }
      CompactionKeepsView(s, reqs);
    }
  }
}
