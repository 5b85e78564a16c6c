/** Crash safety, step by step: what the disk operations of a call keep, and what a
    directory opens as when the power failed in the middle of one. */
module CrashSafety {
  import opened Bytes
  import opened Levels
  import opened MemTable
  import opened Disk
  import opened MetaSlots
  import opened Engine
  import LogFile
  import SSTable

  // ---- what the disk operations keep ----

  /** Writing a file under a new name disturbs no live level. */
  lemma NewFileKeepsBacked(files: map<nat, Bytes>, tables: seq<nat>, main: seq<Level>, version: nat, name: nat,
      data: Bytes)
    requires Backed(files, tables, main, version) && name > version
    ensures Backed(files[name := data], tables, main, version)
  {
  }

  lemma FlushedIsBacked(files: map<nat, Bytes>, tables: seq<nat>, main: seq<Level>, v: nat, l: Level)
    requires v > 0 && Backed(files, tables, main, v - 1) && v in files && Stores(files[v], l)
    ensures Backed(files, [v] + tables, [l] + main, v)
  {
    var ts, ms := [v] + tables, [l] + main;
    assert forall i :: 1 <= i < |ts| ==> ts[i] == tables[i - 1] && ms[i] == main[i - 1];
  }

  lemma MergedIsBacked(files: map<nat, Bytes>, tables: seq<nat>, main: seq<Level>, v: nat, i: nat)
    requires v > 0 && Backed(files, tables, main, v - 1) && i + 1 < |main|
    requires v in files && Stores(files[v], MergeSource(main, i))
    ensures Backed(files, tables[..i] + [v] + tables[i + 2..], Merged(main, i), v)
    ensures tables[i] !in tables[..i] + [v] + tables[i + 2..]
    ensures tables[i + 1] !in tables[..i] + [v] + tables[i + 2..]
  {
    var ts, ms := tables[..i] + [v] + tables[i + 2..], Merged(main, i);
    forall j | 0 <= j < |ts| && j != i
      ensures var q := if j < i then j else j + 1; ts[j] == tables[q] && ms[j] == main[q]
    {
    }
    assert ts[i] == v && ms[i] == MergeSource(main, i);
  }

  /** Removing a file no live level is named by. */
  lemma RemoveKeepsBacked(files: map<nat, Bytes>, tables: seq<nat>, main: seq<Level>, version: nat, name: nat)
    requires Backed(files, tables, main, version) && name !in tables
    ensures Backed(files - {name}, tables, main, version)
  {
  }

  // ---- the directories a flush or a merge passes through ----

  /** The new file is complete, the metadata still names the old levels. */
  ghost predicate Written(s: Store, d: Directory) {
    d.log == s.dir.log && d.slots == s.dir.slots && Backed(d.files, Get(d.slots).tables, s.main, s.version)
  }

  /** The metadata names the new levels. */
  ghost predicate Committed(s: Store, d: Directory, tables: seq<nat>, main: seq<Level>) {
    && d.log == s.dir.log && Get(d.slots) == Meta(s.version + 1, tables)
    && Backed(d.files, tables, main, s.version + 1)
  }

  lemma PutFileWrites(s: Store, data: Bytes)
    requires Inv(s)
    ensures var d := Exec(s.dir, PutFile(s.version + 1, data));
      Written(s, d) && d.files == s.dir.files[s.version + 1 := data]
  {
    NewFileKeepsBacked(s.dir.files, Get(s.dir.slots).tables, s.main, s.version, s.version + 1, data);
  }

  lemma WriteSlotCommits(s: Store, d: Directory, tables: seq<nat>, main: seq<Level>)
    requires Inv(s) && Written(s, d) && Backed(d.files, tables, main, s.version + 1)
    ensures Committed(s, Exec(d, WriteSlot(Meta(s.version + 1, tables))), tables, main)
  {
    SetThenGet(d.slots, Meta(s.version + 1, tables));
  }

  lemma TornSlotStaysWritten(s: Store, d: Directory, meta: Meta)
    requires Inv(s) && Written(s, d) && meta.version == s.version + 1
    ensures Get(d.slots[Target(d.slots) := Blank]) == Get(s.dir.slots)
  {
    TornSetKeepsOne(d.slots, meta, Blank);
  }

  lemma RemoveStaysCommitted(s: Store, d: Directory, tables: seq<nat>, main: seq<Level>, name: nat)
    requires Committed(s, d, tables, main) && name !in tables
    ensures Committed(s, Exec(d, RemoveFile(name)), tables, main)
  {
    RemoveKeepsBacked(d.files, tables, main, s.version + 1, name);
  }

  lemma FlushSteps(s: Store)
    requires Inv(s) && Legal(s, Flush)
    ensures var ops := Ops(s, Flush);
      var d1 := Exec(s.dir, ops[0]); var d2 := Exec(d1, ops[1]);
      Written(s, d1) && Committed(s, d2, [s.version + 1] + Get(s.dir.slots).tables, [s.mem] + s.main)
  {
    var v, ops, tables := s.version + 1, Ops(s, Flush), Get(s.dir.slots).tables;
    SSTable.BuildFileHolds(Prior(s, v), s.mem, |s.mem|);
    PutFileWrites(s, ops[0].data);
    FlushedIsBacked(s.dir.files[v := ops[0].data], tables, s.main, v, s.mem);
    WriteSlotCommits(s, Exec(s.dir, ops[0]), [v] + tables, [s.mem] + s.main);
  }

  ghost function MergedTables(s: Store, i: nat): seq<nat>
    requires i + 1 < |Get(s.dir.slots).tables|
  {
    Get(s.dir.slots).tables[..i] + [s.version + 1] + Get(s.dir.slots).tables[i + 2..]
  }

  lemma MergeCommits(s: Store, i: nat)
    requires Inv(s) && Legal(s, Merge(i))
    ensures var ops, ts := Ops(s, Merge(i)), MergedTables(s, i);
      var d1 := Exec(s.dir, ops[0]); var d2 := Exec(d1, ops[1]);
      Written(s, d1) && Committed(s, d2, ts, Merged(s.main, i)) && ops[2].name !in ts && ops[3].name !in ts
  {
    var v, ops, tables := s.version + 1, Ops(s, Merge(i)), Get(s.dir.slots).tables;
    SSTable.BuildFileHolds(Prior(s, v), MergeSource(s.main, i), MergeEstimate(s.main, i));
    PutFileWrites(s, ops[0].data);
    MergedIsBacked(s.dir.files[v := ops[0].data], tables, s.main, v, i);
    WriteSlotCommits(s, Exec(s.dir, ops[0]), MergedTables(s, i), Merged(s.main, i));
  }

  lemma MergeSteps(s: Store, i: nat)
    requires Inv(s) && Legal(s, Merge(i))
    ensures var ops, ts := Ops(s, Merge(i)), MergedTables(s, i);
      var d1 := Exec(s.dir, ops[0]); var d2 := Exec(d1, ops[1]); var d3 := Exec(d2, ops[2]);
      Written(s, d1) && Committed(s, d2, ts, Merged(s.main, i)) &&
      Committed(s, d3, ts, Merged(s.main, i)) && Committed(s, Exec(d3, ops[3]), ts, Merged(s.main, i))
  {
    MergeCommits(s, i);
    var ops, ts := Ops(s, Merge(i)), MergedTables(s, i);
    var d2 := Exec(Exec(s.dir, ops[0]), ops[1]);
    RemoveStaysCommitted(s, d2, ts, Merged(s.main, i), ops[2].name);
    RemoveStaysCommitted(s, Exec(d2, ops[2]), ts, Merged(s.main, i), ops[3].name);
  }

  // ---- completed calls ----

  lemma One(d: Directory, op: DiskOp)
    ensures ExecAll(d, [op]) == Exec(d, op)
  {
    assert [op][1..] == [];
  }

  lemma Extend(d: Directory, ops: seq<DiskOp>, n: nat)
    requires n < |ops|
    ensures ExecAll(d, ops[..n + 1]) == Exec(ExecAll(d, ops[..n]), ops[n])
  {
    assert ops[..n + 1] == ops[..n] + [ops[n]];
    ExecAllConcat(d, ops[..n], [ops[n]]);
    One(ExecAll(d, ops[..n]), ops[n]);
  }

  /** The directory after each prefix of a call's operations. */
  lemma Prefixes(d: Directory, ops: seq<DiskOp>)
    ensures ExecAll(d, ops[..0]) == d && ops[..|ops|] == ops
    ensures |ops| > 0 ==> ExecAll(d, ops[..1]) == Exec(d, ops[0])
    ensures |ops| > 1 ==> ExecAll(d, ops[..2]) == Exec(Exec(d, ops[0]), ops[1])
    ensures |ops| > 2 ==> ExecAll(d, ops[..3]) == Exec(Exec(Exec(d, ops[0]), ops[1]), ops[2])
    ensures |ops| > 3 ==> ExecAll(d, ops[..4]) == Exec(Exec(Exec(Exec(d, ops[0]), ops[1]), ops[2]), ops[3])
  {
    if |ops| > 0 { Extend(d, ops, 0); }
    if |ops| > 1 { Extend(d, ops, 1); }
    if |ops| > 2 { Extend(d, ops, 2); }
    if |ops| > 3 { Extend(d, ops, 3); }
  }

  lemma LoggedAfter(s: Store, req: Request, key: Bytes)
    requires Inv(s) && Logs(req) && key == EntryOf(req).key
    ensures Inv(After(s, req))
    ensures Synced(s) && CleanTail(s) && LogFile.Small(EntryOf(req)) ==>
      Synced(After(s, req)) && CleanTail(After(s, req))
  {
    var e := EntryOf(req);
    var t := After(s, req);
    Prefixes(s.dir, Ops(s, req));
    SortedStack(s.mem, s.main);
    PutSorted(s.mem, LogFile.RecordOf(e));
    SortedStack(t.mem, s.main);
    if Synced(s) && CleanTail(s) && LogFile.Small(e) && t != s {
      assert t.dir.log == s.dir.log + LogFile.Encode(e);
      LogFile.AppendToCleanLog(s.dir.log, e);
      var es := LogFile.Replay(s.dir.log).entries;
      LogFile.ApplyAllConcat([], es, [e]);
      assert [e][1..] == [];
    }
  }

  lemma FlushAfter(s: Store)
    requires Inv(s) && Legal(s, Flush)
    ensures Inv(After(s, Flush)) && Synced(After(s, Flush)) && CleanTail(After(s, Flush))
  {
    Prefixes(s.dir, Ops(s, Flush));
    FlushSteps(s);
    SortedStack(s.mem, s.main);
    SortedStack([], [s.mem] + s.main);
  }

  /** A flush from the file contents and the level list it installs. */
  lemma FlushResult(s: Store, data: Bytes, ts: seq<nat>)
    requires Inv(s) && Legal(s, Flush)
    requires data == SSTable.BuildFile(Prior(s, s.version + 1), s.mem, |s.mem|)
    requires ts == [s.version + 1] + Get(s.dir.slots).tables
    ensures var v := s.version + 1;
      Ops(s, Flush) == [PutFile(v, data), WriteSlot(Meta(v, ts))] + [TruncateLog] &&
      After(s, Flush) ==
        Store(Exec(Exec(Exec(s.dir, PutFile(v, data)), WriteSlot(Meta(v, ts))), TruncateLog),
          0, [], [s.mem] + s.main, v) &&
      Backed(s.dir.files[v := data], ts, [s.mem] + s.main, v)
  {
    Prefixes(s.dir, Ops(s, Flush));
    FlushSteps(s);
  }

  /** A merge likewise. */
  lemma MergeResult(s: Store, i: nat, data: Bytes, ts: seq<nat>)
    requires Inv(s) && Legal(s, Merge(i))
    requires data == SSTable.BuildFile(Prior(s, s.version + 1), MergeSource(s.main, i), MergeEstimate(s.main, i))
    requires ts == MergedTables(s, i)
    ensures var v, tables := s.version + 1, Get(s.dir.slots).tables;
      Ops(s, Merge(i)) ==
        [PutFile(v, data), WriteSlot(Meta(v, ts))] + [RemoveFile(tables[i])] + [RemoveFile(tables[i + 1])] &&
      After(s, Merge(i)) ==
        s.(dir := Exec(Exec(Exec(Exec(s.dir, PutFile(v, data)), WriteSlot(Meta(v, ts))),
                            RemoveFile(tables[i])), RemoveFile(tables[i + 1])),
           main := Merged(s.main, i), version := v) &&
      Backed(s.dir.files[v := data], ts, Merged(s.main, i), v)
  {
    hide SSTable.BuildFile, Stores, Prior, MergeSource, MergeEstimate, SSTable.Fits;
    Prefixes(s.dir, Ops(s, Merge(i)));
    MergeCommits(s, i);
  }

  lemma MergeAfter(s: Store, i: nat)
    requires Inv(s) && Legal(s, Merge(i))
    ensures var t := After(s, Merge(i));
      t.dir.log == s.dir.log && t.main == Merged(s.main, i) &&
      Committed(s, t.dir, MergedTables(s, i), t.main) && AllSorted(t.main) && Layered(t.main)
  {
    Prefixes(s.dir, Ops(s, Merge(i)));
    MergeSteps(s, i);
    SortedStack(s.mem, s.main);
    MergedShape(s.main, i);
  }

  /** Every completed call keeps the invariant. A write whose record fits the format
      keeps a clean log clean, and a flush makes it clean whatever it was before. */
  lemma CallsKeepInv(s: Store, req: Request)
    requires Inv(s) && Legal(s, req)
    ensures Inv(After(s, req))
    ensures Logs(req) && Synced(s) && CleanTail(s) && LogFile.Small(EntryOf(req)) ==>
      Synced(After(s, req)) && CleanTail(After(s, req))
    ensures req.Flush? ==> Synced(After(s, req)) && CleanTail(After(s, req))
    ensures req.Merge? ==> (Synced(s) <==> Synced(After(s, req))) && (CleanTail(s) <==> CleanTail(After(s, req)))
  {
    match req
    case Write(key, _, _) => LoggedAfter(s, req, key);
    case Delete(key) => LoggedAfter(s, req, key);
    case Flush => FlushAfter(s);
    case Merge(i) =>
      MergeAfter(s, i);
      SortedStack(s.mem, s.main);
      SortedStack(s.mem, Merged(s.main, i));
  }

  /** A store that has issued the operations of a flush is the store after it. */
  lemma FlushInstalled(s: Store, data: Bytes, ts: seq<nat>, t: Store)
    requires Inv(s) && Legal(s, Flush)
    requires data == SSTable.BuildFile(Prior(s, s.version + 1), s.mem, |s.mem|)
    requires ts == [s.version + 1] + Get(s.dir.slots).tables
    requires var v := s.version + 1;
      t == Store(Exec(Exec(Exec(s.dir, PutFile(v, data)), WriteSlot(Meta(v, ts))), TruncateLog),
        0, [], [s.mem] + s.main, v)
    ensures t == After(s, Flush) && Inv(t)
  {
    FlushResult(s, data, ts);
    CallsKeepInv(s, Flush);
  }

  /** A store that has issued the operations of a merge is the store after it. */
  lemma MergeInstalled(s: Store, i: nat, data: Bytes, ts: seq<nat>, t: Store)
    requires Inv(s) && Legal(s, Merge(i))
    requires data == SSTable.BuildFile(Prior(s, s.version + 1), MergeSource(s.main, i), MergeEstimate(s.main, i))
    requires ts == MergedTables(s, i)
    requires var v, tables := s.version + 1, Get(s.dir.slots).tables;
      t == s.(dir := Exec(Exec(Exec(Exec(s.dir, PutFile(v, data)), WriteSlot(Meta(v, ts))),
                               RemoveFile(tables[i])), RemoveFile(tables[i + 1])),
              main := Merged(s.main, i), version := v)
    ensures t == After(s, Merge(i)) && Inv(t)
  {
    MergeResult(s, i, data, ts);
    CallsKeepInv(s, Merge(i));
  }

  // ---- crashes ----

  ghost predicate CanCrash(s: Store, req: Request, k: nat, cut: Cut)
    requires Aligned(s) && Legal(s, req)
  {
    k < |Ops(s, req)| && Possible(Ops(s, req)[k], cut)
  }

  /** The directory left by a crash in the k-th disk operation of a call. */
  ghost function CrashDir(s: Store, req: Request, k: nat, cut: Cut): Directory
    requires Aligned(s) && Legal(s, req) && CanCrash(s, req, k, cut)
  {
    CrashIn(ExecAll(s.dir, Ops(s, req)[..k]), Ops(s, req)[k], cut)
  }

  /** What opening a directory gives: the MemTable `mem` over the levels `main`. */
  ghost predicate OpensAs(d: Directory, mem: Level, main: seq<Level>) {
    Inv(Reopen(d)) && Synced(Reopen(d)) && Reopen(d).mem == mem && Reopen(d).main == main
  }

  lemma LogOpens(d: Directory, main: seq<Level>, version: nat)
    requires AllSorted(main) && Layered(main) && Get(d.slots).version == version
    requires Backed(d.files, Get(d.slots).tables, main, version) && !LogFile.Replay(d.log).panicked
    ensures OpensAs(d, Recovered(d.log), main)
  {
    ReopenBacked(d, main);
  }

  /** The log after an append that was cut so. */
  function LogAfter(log: Bytes, pos: nat, data: Bytes, cut: Cut): Bytes {
    match cut
    case Untouched => log
    case Torn(left) => SSTable.WriteAt(log, pos, left)
    case Finished => SSTable.WriteAt(log, pos, data)
  }

  /** A crash in an append changes the log and nothing else; the store opens as the
      old levels under whatever that log replays to. */
  lemma CrashInLogged(s: Store, req: Request, k: nat, cut: Cut)
    requires Inv(s) && Logs(req) && CanCrash(s, req, k, cut)
    ensures var d := CrashDir(s, req, k, cut);
      d.log == LogAfter(s.dir.log, s.pos, LogFile.Encode(EntryOf(req)), cut) &&
      (!LogFile.Replay(d.log).panicked ==> OpensAs(d, Recovered(d.log), s.main))
  {
    hide OpensAs, Recovered, LogFile.Encode, LogFile.Replay, Stores;
    var d := CrashDir(s, req, k, cut);
    assert k == 0 && Ops(s, req)[..k] == [];
    SortedStack(s.mem, s.main);
    if !LogFile.Replay(d.log).panicked { LogOpens(d, s.main, s.version); }
  }

  /** A flush or merge changes the visible levels at the end of its metadata write. */
  predicate BeforeCommit(k: nat, cut: Cut) {
    k == 0 || (k == 1 && cut != Finished)
  }

  /** A crash in a flush: until the metadata is written the old levels open under the
      replayed log; then the new ones do, still under that log, until it is emptied. */
  lemma CrashInFlush(s: Store, k: nat, cut: Cut)
    requires Inv(s) && Legal(s, Flush) && CanCrash(s, Flush, k, cut)
    ensures var d := CrashDir(s, Flush, k, cut);
      d.log == (if k == 2 && cut == Finished then [] else s.dir.log) &&
      (!LogFile.Replay(d.log).panicked ==>
         OpensAs(d, Recovered(d.log), if BeforeCommit(k, cut) then s.main else [s.mem] + s.main))
  {
    hide SSTable.BuildFile, OpensAs, Reopen, Recovered, Stores, LogFile.Replay, Prior;
    var d, ops := CrashDir(s, Flush, k, cut), Ops(s, Flush);
    var v := s.version + 1;
    Prefixes(s.dir, ops);
    FlushSteps(s);
    SortedStack(s.mem, s.main);
    if k == 0 && cut.Torn? {
      NewFileKeepsBacked(s.dir.files, Get(s.dir.slots).tables, s.main, s.version, v, cut.left);
    }
    if k == 1 && cut.Torn? {
      TornSlotStaysWritten(s, Exec(s.dir, ops[0]), ops[1].meta);
    }
    if !LogFile.Replay(d.log).panicked {
      if BeforeCommit(k, cut) {
        LogOpens(d, s.main, s.version);
      } else {
        LogOpens(d, [s.mem] + s.main, v);
      }
    }
  }

  /** Until the slot write has finished the old levels are live ... */
  lemma CrashBeforeCommit(s: Store, i: nat, k: nat, cut: Cut)
    requires Inv(s) && Legal(s, Merge(i)) && CanCrash(s, Merge(i), k, cut)
    requires BeforeCommit(k, cut)
    ensures var d := CrashDir(s, Merge(i), k, cut);
      d.log == s.dir.log && Backed(d.files, Get(d.slots).tables, s.main, s.version) && Get(d.slots).version == s.version
  {
    var ops := Ops(s, Merge(i));
    Prefixes(s.dir, ops);
    MergeCommits(s, i);
    if k == 0 && cut.Torn? {
      NewFileKeepsBacked(s.dir.files, Get(s.dir.slots).tables, s.main, s.version, s.version + 1, cut.left);
    }
    if k == 1 && cut.Torn? {
      TornSlotStaysWritten(s, Exec(s.dir, ops[0]), ops[1].meta);
    }
  }

  /** ... and from then on the new ones are. */
  lemma CrashAfterCommit(s: Store, i: nat, k: nat, cut: Cut)
    requires Inv(s) && Legal(s, Merge(i)) && CanCrash(s, Merge(i), k, cut)
    requires !BeforeCommit(k, cut)
    ensures Committed(s, CrashDir(s, Merge(i), k, cut), MergedTables(s, i), Merged(s.main, i))
  {
    Prefixes(s.dir, Ops(s, Merge(i)));
    MergeSteps(s, i);
  }

  /** A crash in a merge leaves the log alone; the old or the merged levels open
      under what it replays to. */
  lemma CrashInMerge(s: Store, i: nat, k: nat, cut: Cut)
    requires Inv(s) && Legal(s, Merge(i)) && CanCrash(s, Merge(i), k, cut)
    ensures var d := CrashDir(s, Merge(i), k, cut);
      d.log == s.dir.log &&
      (!LogFile.Replay(d.log).panicked ==>
         OpensAs(d, Recovered(d.log), if BeforeCommit(k, cut) then s.main else Merged(s.main, i)))
  {
    hide OpensAs, Recovered, LogFile.Replay, Stores;
    var d := CrashDir(s, Merge(i), k, cut);
    SortedStack(s.mem, s.main);
    if BeforeCommit(k, cut) {
      CrashBeforeCommit(s, i, k, cut);
      if !LogFile.Replay(d.log).panicked { LogOpens(d, s.main, s.version); }
    } else {
      CrashAfterCommit(s, i, k, cut);
      MergeAfter(s, i);
      if !LogFile.Replay(d.log).panicked { LogOpens(d, Merged(s.main, i), s.version + 1); }
    }
  }

  const EMPTY := Directory([], [Blank, Blank], map[])

  /** Runs start from an empty directory. */
  lemma EmptyDirectoryOpens()
    ensures var s := Reopen(EMPTY); Inv(s) && Synced(s) && CleanTail(s) && View(s) == map[]
  {
    ReopenBacked(EMPTY, []);
    var s := Reopen(EMPTY);
    forall k ensures !Shows(Stack(s), k) { StackFind([], [], k); }
  }

  /** A compaction never writes over a live file and never removes one. */
  lemma FilesAreNeverClobbered(s: Store, req: Request, op: DiskOp)
    requires Inv(s) && Legal(s, req) && op in Ops(s, req)
    ensures op.PutFile? ==> op.name !in Get(s.dir.slots).tables
    ensures op.RemoveFile? ==> op.name !in Get(After(s, req).dir.slots).tables
  {
    hide SSTable.BuildFile, MergeSource, MergeEstimate, Stores, Prior, Committed, Written, Layered;
    if req.Merge? {
      RemovedAreSuperseded(s, req.i);
    }
  }

  lemma RemovedAreSuperseded(s: Store, i: nat)
    requires Inv(s) && Legal(s, Merge(i))
    ensures var tables, now := Get(s.dir.slots).tables, Get(After(s, Merge(i)).dir.slots).tables;
      tables[i] !in now && tables[i + 1] !in now
  {
    hide SSTable.BuildFile, MergeSource, MergeEstimate, Stores, Prior;
    MergeAfter(s, i);
    MergeCommits(s, i);
  }
}
