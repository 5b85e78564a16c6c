/** The storage engine as a state machine: what each call does to memory and disk,
    step by step, what a crash between or inside those steps leaves, and what
    reopening recovers from it. */
module Engine {
  import opened Bytes
  import opened Levels
  import opened MemTable
  import opened Disk
  import opened MetaSlots
  import LogFile
  import SSTable

  /** `pos` is the position of the next log append. */
  datatype Store = Store(dir: Directory, pos: nat, mem: Level, main: seq<Level>, version: nat)

  function Stack(s: Store): seq<Level> {
    [s.mem] + s.main
  }

  /** The map the store stands for. */
  ghost function View(s: Store): map<Bytes, Bytes> {
    Live(Stack(s))
  }

  // ---- opening a directory ----

  ghost predicate Stores(data: Bytes, l: Level) {
    SSTable.OpenFile(data).Some? && SSTable.Holds(SSTable.OpenFile(data).value, l)
  }

  ghost function StoredLevel(data: Bytes): Level {
    if exists l :: Stores(data, l) then (var l :| Stores(data, l); l) else []
  }

  lemma StoredLevelIs(data: Bytes, l: Level)
    requires Stores(data, l)
    ensures StoredLevel(data) == l
  {
    SSTable.HoldsUnique(SSTable.OpenFile(data).value, StoredLevel(data), l);
  }

  /** The named files exist, are distinct, no newer than `version`, and hold `main`. */
  ghost predicate Backed(files: map<nat, Bytes>, tables: seq<nat>, main: seq<Level>, version: nat) {
    && |tables| == |main|
    && (forall i, j :: 0 <= i < j < |tables| ==> tables[i] != tables[j])
    && (forall i :: 0 <= i < |tables| ==> tables[i] <= version && tables[i] in files)
    && (forall i :: 0 <= i < |tables| ==> tables[i] in files && Stores(files[tables[i]], main[i]))
  }

  ghost function LevelOf(files: map<nat, Bytes>, name: nat): Level {
    if name in files then StoredLevel(files[name]) else []
  }

  /** The MemTable that replaying a log rebuilds. */
  ghost function Recovered(log: Bytes): Level {
    LogFile.ApplyAll([], LogFile.Replay(log).entries)
  }

  /** kv.Open: the metadata names the levels, the log refills the MemTable. */
  ghost function Reopen(d: Directory): Store {
    var meta := Get(d.slots);
    Store(d, LogFile.Replay(d.log).used, Recovered(d.log),
          seq(|meta.tables|, i requires 0 <= i < |meta.tables| => LevelOf(d.files, meta.tables[i])),
          meta.version)
  }

  /** Only the last level may be empty. */
  ghost predicate Layered(main: seq<Level>) {
    forall i :: 0 <= i < |main| - 1 ==> main[i] != []
  }

  ghost predicate Inv(s: Store) {
    && AllSorted(Stack(s)) && Layered(s.main)
    && s.version == Get(s.dir.slots).version
    && Backed(s.dir.files, Get(s.dir.slots).tables, s.main, s.version)
  }

  /** The MemTable is what replaying the log would rebuild: true of every store
      just opened. */
  ghost predicate Synced(s: Store) {
    s.mem == Recovered(s.dir.log) && !LogFile.Replay(s.dir.log).panicked
  }

  /** ... and the next append goes behind a log without a torn tail. */
  ghost predicate CleanTail(s: Store) {
    LogFile.CleanLog(s.dir.log) && s.pos == |s.dir.log|
  }

  /** A directory whose named files are intact opens as exactly those levels. */
  lemma ReopenBacked(d: Directory, main: seq<Level>)
    requires AllSorted(main) && Layered(main)
    requires Backed(d.files, Get(d.slots).tables, main, Get(d.slots).version)
    requires !LogFile.Replay(d.log).panicked
    ensures Reopen(d).main == main && Inv(Reopen(d)) && Synced(Reopen(d))
  {
    ReadsBack(d.files, Get(d.slots).tables, main, Get(d.slots).version);
    var r := Reopen(d);
    assert r.main == main;
    LogFile.ApplyAllFind([], LogFile.Replay(d.log).entries, []);
    SortedStack(r.mem, main);
  }

  lemma ReadsBack(files: map<nat, Bytes>, tables: seq<nat>, main: seq<Level>, version: nat)
    requires Backed(files, tables, main, version)
    ensures forall i :: 0 <= i < |main| ==> LevelOf(files, tables[i]) == main[i]
  {
    forall i | 0 <= i < |main| ensures LevelOf(files, tables[i]) == main[i] {
      StoredLevelIs(files[tables[i]], main[i]);
    }
  }

  lemma SortedStack(mem: Level, main: seq<Level>)
    ensures AllSorted([mem] + main) <==> Sorted(mem) && AllSorted(main)
  {
    var stack := [mem] + main;
    assert stack[0] == mem && forall j :: 0 <= j < |main| ==> main[j] == stack[j + 1];
  }

  // ---- the calls ----

  datatype Mode = Upsert | Insert | Update

  datatype Request =
    | Write(key: Bytes, val: Bytes, mode: Mode)
    | Delete(key: Bytes)
    | Flush
    | Merge(i: nat)

  predicate Logs(req: Request) {
    req.Write? || req.Delete?
  }

  /** Whether a write or delete happens, given whether the key is live. */
  predicate Proceeds(req: Request, live: bool)
    requires Logs(req)
  {
    match req
    case Write(_, _, mode) => !(live && mode == Insert) && !(!live && mode == Update)
    case Delete(_) => live
  }

  function EntryOf(req: Request): LogFile.Entry
    requires Logs(req)
  {
    match req
    case Write(key, val, _) => LogFile.Entry(key, val, false)
    case Delete(key) => LogFile.Entry(key, [], true)
  }

  /** The records a merge of levels i and i+1 writes; only into the last level are
      tombstones dropped. */
  function MergeSource(main: seq<Level>, i: nat): Level
    requires i + 1 < |main|
  {
    var m := MergeAll([main[i], main[i + 1]]);
    if i + 2 == |main| then DropDeleted(m) else m
  }

  function MergeEstimate(main: seq<Level>, i: nat): nat
    requires i + 1 < |main|
  {
    |main[i]| + |main[i + 1]|
  }

  /** The estimate never falls short of what the merge yields. */
  lemma EstimateSuffices(main: seq<Level>, i: nat)
    requires i + 1 < |main| && Sorted(main[i]) && Sorted(main[i + 1])
    ensures |MergeSource(main, i)| <= MergeEstimate(main, i)
    ensures Sorted(MergeSource(main, i))
    ensures i + 2 < |main| ==> |main[i + 1]| <= |MergeSource(main, i)|
    ensures i + 2 < |main| ==> |main[i]| <= |MergeSource(main, i)|
  {
    var pair := [main[i], main[i + 1]];
    MergePair(main[i], main[i + 1]);
    MergeTwoSize(main[i], main[i + 1]);
    MergeAllSorted(pair);
    DropDeletedSorted(MergeAll(pair));
  }

  ghost predicate Aligned(s: Store) {
    |Get(s.dir.slots).tables| == |s.main|
  }

  /** What the engine can be asked: a write of any size, a flush or merge whose file
      the format can carry. */
  predicate Legal(s: Store, req: Request) {
    match req
    case Write(_, _, _) | Delete(_) => true
    case Flush => s.mem != [] && SSTable.Fits(s.mem, |s.mem|)
    case Merge(i) => i + 1 < |s.main| && SSTable.Fits(MergeSource(s.main, i), MergeEstimate(s.main, i))
  }

  function Prior(s: Store, name: nat): Bytes {
    if name in s.dir.files then s.dir.files[name] else []
  }

  /** The disk operations a call issues, in order. */
  ghost function Ops(s: Store, req: Request): seq<DiskOp>
    requires Aligned(s) && Legal(s, req)
  {
    var v, tables := s.version + 1, Get(s.dir.slots).tables;
    match req
    case Write(key, _, _) =>
      if Proceeds(req, Shows(Stack(s), key)) then [WriteLog(s.pos, LogFile.Encode(EntryOf(req)))] else []
    case Delete(key) =>
      if Proceeds(req, Shows(Stack(s), key)) then [WriteLog(s.pos, LogFile.Encode(EntryOf(req)))] else []
    case Flush =>
      [PutFile(v, SSTable.BuildFile(Prior(s, v), s.mem, |s.mem|)), WriteSlot(Meta(v, [v] + tables)), TruncateLog]
    case Merge(i) =>
      [PutFile(v, SSTable.BuildFile(Prior(s, v), MergeSource(s.main, i), MergeEstimate(s.main, i))),
       WriteSlot(Meta(v, tables[..i] + [v] + tables[i + 2..])),
       RemoveFile(tables[i]), RemoveFile(tables[i + 1])]
  }

  /** The store when the call has returned. */
  ghost function After(s: Store, req: Request): Store
    requires Aligned(s) && Legal(s, req)
  {
    var dir := ExecAll(s.dir, Ops(s, req));
    match req
    case Write(key, _, _) => AfterLogged(s, req, dir, key)
    case Delete(key) => AfterLogged(s, req, dir, key)
    case Flush => Store(dir, 0, [], [s.mem] + s.main, s.version + 1)
    case Merge(i) =>
      s.(dir := dir, main := s.main[..i] + [MergeSource(s.main, i)] + s.main[i + 2..], version := s.version + 1)
  }

  ghost function AfterLogged(s: Store, req: Request, dir: Directory, key: Bytes): Store
    requires Logs(req)
  {
    if !Proceeds(req, Shows(Stack(s), key)) then s
    else s.(dir := dir, pos := s.pos + |LogFile.Encode(EntryOf(req))|,
            mem := Put(s.mem, LogFile.RecordOf(EntryOf(req))))
  }

  // ---- the plain map every call implements ----

  ghost function Apply(m: map<Bytes, Bytes>, req: Request): map<Bytes, Bytes> {
    match req
    case Write(key, val, _) => if Proceeds(req, key in m) then m[key := val] else m
    case Delete(key) => m - {key}
    case Flush | Merge(_) => m
  }

  lemma StackFind(mem: Level, main: seq<Level>, k: Bytes)
    ensures FindFirst([mem] + main, k) == if Find(mem, k).Some? then Find(mem, k) else FindFirst(main, k)
  {
    assert ([mem] + main)[1..] == main;
  }

  lemma PutView(mem: Level, main: seq<Level>, r: Record)
    requires Sorted(mem)
    ensures var m := Live([mem] + main);
      Live([Put(mem, r)] + main) == if r.deleted then m - {r.key} else m[r.key := r.val]
  {
    var a, m := Live([Put(mem, r)] + main), Live([mem] + main);
    forall k
      ensures FindFirst([Put(mem, r)] + main, k) == if k == r.key then Some(r) else FindFirst([mem] + main, k)
    {
      PutFind(mem, r, k);
      StackFind(Put(mem, r), main, k);
      StackFind(mem, main, k);
    }
    var b := if r.deleted then m - {r.key} else m[r.key := r.val];
    assert forall k :: k in a <==> k in b;
  }

  /** A MemTable and an SSTable with the same records show what one of them shows:
      replaying a log that was already flushed is harmless. */
  lemma FlushedTwiceIsHarmless(mem: Level, main: seq<Level>)
    ensures Live([mem] + ([mem] + main)) == Live([mem] + main)
    ensures Live([[]] + ([mem] + main)) == Live([mem] + main)
  {
    forall k
      ensures FindFirst([mem] + ([mem] + main), k) == FindFirst([mem] + main, k)
      ensures FindFirst([[]] + ([mem] + main), k) == FindFirst([mem] + main, k)
    {
      StackFind(mem, [mem] + main, k);
      StackFind(mem, main, k);
      StackFind([], [mem] + main, k);
    }
    SameLive([mem] + ([mem] + main), [mem] + main);
    SameLive([[]] + ([mem] + main), [mem] + main);
  }

  ghost function Merged(main: seq<Level>, i: nat): seq<Level>
    requires i + 1 < |main|
  {
    main[..i] + [MergeSource(main, i)] + main[i + 2..]
  }

  lemma MergedShape(main: seq<Level>, i: nat)
    requires i + 1 < |main| && AllSorted(main) && Layered(main)
    ensures AllSorted(Merged(main, i)) && Layered(Merged(main, i))
  {
    EstimateSuffices(main, i);
    var r := Merged(main, i);
    forall j | 0 <= j < |r| ensures Sorted(r[j]) && (j < |r| - 1 ==> r[j] != []) {
      if j != i { assert r[j] == main[if j < i then j else j + 1]; }
    }
  }

  /** Merging two adjacent SSTables changes no key's visible value, wherever the
      pair lies and whatever is above it. */
  lemma MergeKeepsView(mem: Level, main: seq<Level>, i: nat)
    requires i + 1 < |main| && AllSorted(main)
    ensures Live([mem] + Merged(main, i)) == Live([mem] + main)
  {
    var above, below := [mem] + main[..i], main[i + 2..];
    var m := MergeAll([main[i], main[i + 1]]);
    assert [mem] + main == above + [main[i], main[i + 1]] + below;
    forall k ensures FindFirst(above + [m] + below, k) == FindFirst([mem] + main, k) {
      MergePairKeepsFind(above, main[i], main[i + 1], below, k);
    }
    SameLive(above + [m] + below, [mem] + main);
    if i + 2 == |main| {
      MergeAllSorted([main[i], main[i + 1]]);
      DropAtBottom(above, m);
      assert above + [DropDeleted(m)] == [mem] + Merged(main, i);
      assert above + [m] + below == above + [m];
    } else {
      assert above + [m] + below == [mem] + Merged(main, i);
    }
  }

  lemma LoggedCallView(s: Store, req: Request, key: Bytes)
    requires Inv(s) && Logs(req) && EntryOf(req).key == key
    ensures var t := AfterLogged(s, req, s.dir, key);
      Live([t.mem] + s.main) == Apply(View(s), req)
  {
    SortedStack(s.mem, s.main);
    PutView(s.mem, s.main, LogFile.RecordOf(EntryOf(req)));
    assert key !in View(s) ==> View(s) - {key} == View(s);
  }

  /** Every completed call changes the map exactly as the plain map is changed. */
  lemma CallsImplementTheMap(s: Store, req: Request)
    requires Inv(s) && Legal(s, req)
    ensures View(After(s, req)) == Apply(View(s), req)
  {
    match req
    case Write(key, _, _) => LoggedCallView(s, req, key);
    case Delete(key) => LoggedCallView(s, req, key);
    case Flush => FlushedTwiceIsHarmless(s.mem, s.main);
    case Merge(i) =>
      SortedStack(s.mem, s.main);
      MergeKeepsView(s.mem, s.main, i);
  }

  /** What the modes mean to a reader: upsert always writes, insert only an absent key,
      update only a live one, delete removes a live one. */
  lemma ModesMean(s: Store, key: Bytes, val: Bytes)
    requires Inv(s)
    ensures var m, live := View(s), key in View(s);
      && View(After(s, Write(key, val, Upsert))) == m[key := val]
      && View(After(s, Write(key, val, Insert))) == (if live then m else m[key := val])
      && View(After(s, Write(key, val, Update))) == (if live then m[key := val] else m)
      && View(After(s, Delete(key))) == m - {key}
  {
    CallsImplementTheMap(s, Write(key, val, Upsert));
    CallsImplementTheMap(s, Write(key, val, Insert));
    CallsImplementTheMap(s, Write(key, val, Update));
    CallsImplementTheMap(s, Delete(key));
    hide Inv, Live, After;
  }

  /** A refused call leaves the store as it was and issues no disk operation; any other
      appends one record. */
  lemma RefusedTouchesNothing(s: Store, key: Bytes, val: Bytes)
    requires Inv(s)
    ensures key in View(s) ==> var req := Write(key, val, Insert); After(s, req) == s && Ops(s, req) == []
    ensures key !in View(s) ==> var req := Write(key, val, Update); After(s, req) == s && Ops(s, req) == []
    ensures key !in View(s) ==> After(s, Delete(key)) == s && Ops(s, Delete(key)) == []
    ensures key in View(s) ==> |Ops(s, Write(key, val, Update))| == |Ops(s, Delete(key))| == 1
    ensures key !in View(s) ==> |Ops(s, Write(key, val, Insert))| == 1
    ensures |Ops(s, Write(key, val, Upsert))| == 1
  {
    hide LogFile.Encode, Put, Live;
  }

  /** What a merge writes: for every key the newer of the two records, and no tombstone
      exactly when the pair is the last. */
  lemma MergeWrites(main: seq<Level>, i: nat, k: Bytes)
    requires i + 1 < |main| && Sorted(main[i]) && Sorted(main[i + 1])
    ensures var found := if Find(main[i], k).Some? then Find(main[i], k) else Find(main[i + 1], k);
      Find(MergeSource(main, i), k) ==
        if i + 2 == |main| && found.Some? && found.value.deleted then None else found
  {
    var pair := [main[i], main[i + 1]];
    MergeAllSorted(pair);
    MergeAllFind(pair, k);
    DropDeletedFind(MergeAll(pair), k);
    assert FindFirst(pair[1..], k) == Find(main[i + 1], k) by { assert pair[1..][1..] == []; }
  }
}
