/** What the engine amounts to over whole runs, crashes included: a map in memory
    over a map on disk and a log of raw bytes, exactly. */
module MapOverLog {
  import opened Bytes
  import opened Levels
  import opened MemTable
  import opened Disk
  import opened Engine
  import opened CrashSafety
  import LogFile
  import SSTable

  // ---- the machine ----

  /** `live` is what readers see, `base` what the SSTables hold, `pos` where the next
      append to `log` goes. */
  datatype LogMap = LogMap(live: map<Bytes, Bytes>, base: map<Bytes, Bytes>, log: Bytes, pos: nat)

  ghost function Recorded(m: map<Bytes, Bytes>, e: LogFile.Entry): map<Bytes, Bytes> {
    if e.deleted then m - {e.key} else m[e.key := e.val]
  }

  ghost function Played(m: map<Bytes, Bytes>, es: seq<LogFile.Entry>): map<Bytes, Bytes>
    decreases |es|
  {
    if es == [] then m else Played(Recorded(m, es[0]), es[1..])
  }

  /** The map that the disk would reopen to. */
  ghost function OnDisk(a: LogMap): map<Bytes, Bytes> {
    Played(a.base, LogFile.Replay(a.log).entries)
  }

  ghost function Reopened(a: LogMap): LogMap {
    LogMap(OnDisk(a), a.base, a.log, LogFile.Replay(a.log).used)
  }

  ghost function Appended(a: LogMap, req: Request): LogMap
    requires Logs(req)
  {
    var data := LogFile.Encode(EntryOf(req));
    LogMap(Apply(a.live, req), a.base, SSTable.WriteAt(a.log, a.pos, data), a.pos + |data|)
  }

  datatype Event = Done(req: Request) | Crash(req: Request, k: nat, cut: Cut) | PowerLoss

  ghost function Step(a: LogMap, e: Event): LogMap {
    match e
    case Done(Flush) => LogMap(a.live, a.live, [], 0)
    case Done(Merge(_)) => a
    case Done(req) => if Proceeds(req, EntryOf(req).key in a.live) then Appended(a, req) else a
    case Crash(Flush, k, cut) =>
      if BeforeCommit(k, cut) then Reopened(a)
      else if k == 2 && cut == Finished then Reopened(LogMap(a.live, a.live, [], 0))
      else Reopened(a.(base := a.live))
    case Crash(Merge(_), _, _) => Reopened(a)
    case Crash(req, _, cut) => Reopened(a.(log := LogAfter(a.log, a.pos, LogFile.Encode(EntryOf(req)), cut)))
    case PowerLoss => Reopened(a)
  }

  ghost function Steps(a: LogMap, es: seq<Event>): LogMap
    decreases |es|
  {
    if es == [] then a else Steps(Step(a, es[0]), es[1..])
  }

  // ---- runs of the engine ----

  /** Any call at any time, cut anywhere; the only thing asked is that opening the
      directory afterwards does not panic. */
  ghost predicate LegalEvent(s: Store, e: Event)
    requires Aligned(s)
  {
    match e
    case Done(req) => Legal(s, req)
    case Crash(req, k, cut) =>
      Legal(s, req) && CanCrash(s, req, k, cut) && !LogFile.Replay(CrashDir(s, req, k, cut).log).panicked
    case PowerLoss => !LogFile.Replay(s.dir.log).panicked
  }

  /** No moment is left out: power can go before, in or after every disk operation of
      every call, as long as what is left can be opened. */
  lemma EveryCrashIsAnEvent(s: Store, req: Request, k: nat, cut: Cut)
    requires Aligned(s) && Legal(s, req)
    ensures k < |Ops(s, req)| && Possible(Ops(s, req)[k], cut) ==>
      var d := CrashIn(ExecAll(s.dir, Ops(s, req)[..k]), Ops(s, req)[k], cut);
      LegalEvent(s, Crash(req, k, cut)) <==> !LogFile.Replay(d.log).panicked
    ensures LegalEvent(s, Done(req))
    ensures LegalEvent(s, PowerLoss) <==> !LogFile.Replay(s.dir.log).panicked
  {
    hide LogFile.Replay, Ops, Possible;
  }

  ghost function Next(s: Store, e: Event): Store
    requires Aligned(s) && LegalEvent(s, e)
  {
    match e
    case Done(req) => After(s, req)
    case Crash(req, k, cut) => Reopen(CrashDir(s, req, k, cut))
    case PowerLoss => Reopen(s.dir)
  }

  ghost predicate LegalRun(s: Store, es: seq<Event>)
    decreases |es|
  {
    es == [] || (Aligned(s) && LegalEvent(s, es[0]) && LegalRun(Next(s, es[0]), es[1..]))
  }

  ghost function Run(s: Store, es: seq<Event>): Store
    requires LegalRun(s, es)
    decreases |es|
  {
    if es == [] then s else Run(Next(s, es[0]), es[1..])
  }

  ghost function Abs(s: Store): LogMap {
    LogMap(View(s), Live(s.main), s.dir.log, s.pos)
  }

  lemma EmptyOnTop(main: seq<Level>)
    ensures Live([[]] + main) == Live(main)
  {
    forall k ensures FindFirst([[]] + main, k) == FindFirst(main, k) { StackFind([], main, k); }
    SameLive([[]] + main, main);
  }

  /** Replaying records into the MemTable changes the visible map as playing them on
      the map does. */
  lemma {:induction false} PlayedIsApplied(l: Level, es: seq<LogFile.Entry>, main: seq<Level>)
    requires Sorted(l)
    ensures Live([LogFile.ApplyAll(l, es)] + main) == Played(Live([l] + main), es)
    decreases |es|
  {
    hide Live, Put, Sorted;
    if es != [] {
      var r := LogFile.RecordOf(es[0]);
      PutView(l, main, r);
      PutSorted(l, r);
      PlayedIsApplied(Put(l, r), es[1..], main);
    }
  }

  lemma RecoveredIsPlayed(log: Bytes, main: seq<Level>)
    ensures Live([Recovered(log)] + main) == Played(Live(main), LogFile.Replay(log).entries)
  {
    hide Live, Played, LogFile.ApplyAll;
    EmptyOnTop(main);
    PlayedIsApplied([], LogFile.Replay(log).entries, main);
  }

  /** A directory that opens as `main` under its log is the reopened machine. */
  lemma OpenedIsReopened(d: Directory, main: seq<Level>)
    requires OpensAs(d, Recovered(d.log), main)
    ensures Inv(Reopen(d)) && Reopen(d).dir == d
    ensures Abs(Reopen(d)) == Reopened(LogMap(map[], Live(main), d.log, 0))
  {
    hide Recovered, Inv, Synced, Live, Played, LogFile.Replay;
    RecoveredIsPlayed(d.log, main);
  }

  lemma LoggedStep(s: Store, req: Request)
    requires Inv(s) && Logs(req)
    ensures Inv(After(s, req)) && Abs(After(s, req)) == Step(Abs(s), Done(req))
  {
    LoggedAfter(s, req, EntryOf(req).key);
    CallsImplementTheMap(s, req);
    Prefixes(s.dir, Ops(s, req));
    hide Inv, Live, Apply, LogFile.Encode, Put, SSTable.WriteAt;
  }

  lemma FlushStep(s: Store)
    requires Inv(s) && Legal(s, Flush)
    ensures Inv(After(s, Flush)) && Abs(After(s, Flush)) == Step(Abs(s), Done(Flush))
  {
    FlushAfter(s);
    CallsImplementTheMap(s, Flush);
    Prefixes(s.dir, Ops(s, Flush));
    hide Inv, Live, Synced, CleanTail;
  }

  /** A merge changes nothing that the machine knows of. */
  lemma MergeKeepsBase(s: Store, i: nat)
    requires Inv(s) && i + 1 < |s.main|
    ensures Live(Merged(s.main, i)) == Live(s.main)
  {
    hide Live, MergeSource;
    SortedStack(s.mem, s.main);
    MergeKeepsView([], s.main, i);
    EmptyOnTop(s.main);
    EmptyOnTop(Merged(s.main, i));
  }

  lemma MergeStep(s: Store, i: nat)
    requires Inv(s) && Legal(s, Merge(i))
    ensures Inv(After(s, Merge(i))) && Abs(After(s, Merge(i))) == Step(Abs(s), Done(Merge(i)))
  {
    CallsKeepInv(s, Merge(i));
    CallsImplementTheMap(s, Merge(i));
    MergeAfter(s, i);
    MergeKeepsBase(s, i);
    hide Inv, Live, MergeSource, Committed, Synced, CleanTail;
  }

  lemma CrashStep(s: Store, req: Request, k: nat, cut: Cut)
    requires Inv(s) && LegalEvent(s, Crash(req, k, cut))
    ensures Inv(Reopen(CrashDir(s, req, k, cut)))
    ensures Abs(Reopen(CrashDir(s, req, k, cut))) == Step(Abs(s), Crash(req, k, cut))
  {
    hide OpensAs, Recovered, LogFile.Replay, LogFile.Encode, Played, Stores, MergeSource, LogAfter, Merged, View, Live;
    var d := CrashDir(s, req, k, cut);
    match req
    case Write(_, _, _) | Delete(_) =>
      CrashInLogged(s, req, k, cut);
      OpenedIsReopened(d, s.main);
    case Flush =>
      CrashInFlush(s, k, cut);
      assert View(s) == Live([s.mem] + s.main) by { ViewIs(s); }
      OpenedIsReopened(d, if BeforeCommit(k, cut) then s.main else [s.mem] + s.main);
    case Merge(i) =>
      CrashInMerge(s, i, k, cut);
      MergeKeepsBase(s, i);
      OpenedIsReopened(d, if BeforeCommit(k, cut) then s.main else Merged(s.main, i));
  }

  lemma ViewIs(s: Store)
    ensures View(s) == Live([s.mem] + s.main)
  {
  }

  lemma PowerLossStep(s: Store)
    requires Inv(s) && !LogFile.Replay(s.dir.log).panicked
    ensures Inv(Reopen(s.dir)) && Abs(Reopen(s.dir)) == Step(Abs(s), PowerLoss)
  {
    SortedStack(s.mem, s.main);
    LogOpens(s.dir, s.main, s.version);
    hide OpensAs, Recovered, LogFile.Replay, Played, Live;
    OpenedIsReopened(s.dir, s.main);
  }

  /** Every event, whatever state the log is in, is exactly one step of the machine. */
  lemma StepIsExact(s: Store, e: Event)
    requires Inv(s) && LegalEvent(s, e)
    ensures Inv(Next(s, e)) && Abs(Next(s, e)) == Step(Abs(s), e)
  {
    hide Step, Abs, Reopen, Inv, CrashDir, CanCrash, After;
    match e
    case Done(req) =>
      match req {
        case Write(_, _, _) => LoggedStep(s, req);
        case Delete(_) => LoggedStep(s, req);
        case Flush => FlushStep(s);
        case Merge(i) => MergeStep(s, i);
      }
    case Crash(req, k, cut) => CrashStep(s, req, k, cut);
    case PowerLoss => PowerLossStep(s);
  }

  /** Over every run of calls, crashes and power losses, whatever they leave at the end
      of the log, the engine is this machine. */
  lemma {:induction false} EngineIsAMapOverALog(s: Store, es: seq<Event>)
    requires Inv(s) && LegalRun(s, es)
    ensures Inv(Run(s, es)) && Abs(Run(s, es)) == Steps(Abs(s), es)
    decreases |es|
  {
    hide Inv, Abs, Step, Next;
    if es != [] {
      StepIsExact(s, es[0]);
      EngineIsAMapOverALog(Next(s, es[0]), es[1..]);
    }
  }

  // ---- playing records ----

  lemma {:induction false} PlayedConcat(m: map<Bytes, Bytes>, a: seq<LogFile.Entry>, b: seq<LogFile.Entry>)
    ensures Played(m, a + b) == Played(Played(m, a), b)
    decreases |a|
  {
    hide Recorded;
    if a == [] {
      assert a + b == b;
    } else {
      assert (a + b)[1..] == a[1..] + b;
      PlayedConcat(Recorded(m, a[0]), a[1..], b);
    }
  }

  lemma PlayedOne(m: map<Bytes, Bytes>, e: LogFile.Entry)
    ensures Played(m, [e]) == Recorded(m, e)
  {
    assert [e][1..] == [];
  }

  /** The map shows what the record says about its key. */
  ghost predicate Agrees(m: map<Bytes, Bytes>, r: Record) {
    if r.deleted then r.key !in m else r.key in m && m[r.key] == r.val
  }

  /** After playing, a key shows its last record, or what it showed before. */
  lemma {:induction false} PlayedShowsLast(m: map<Bytes, Bytes>, es: seq<LogFile.Entry>, k: Bytes)
    ensures var p, last := Played(m, es), LogFile.LastFor(es, k);
      if last.Some? then last.value.key == k && Agrees(p, last.value)
      else (k in p <==> k in m) && (k in m ==> p[k] == m[k])
    decreases |es|
  {
    if es != [] {
      var n := |es| - 1;
      assert es == es[..n] + [es[n]];
      PlayedConcat(m, es[..n], [es[n]]);
      PlayedOne(Played(m, es[..n]), es[n]);
      PlayedShowsLast(m, es[..n], k);
    }
  }

  /** Playing the same records once more changes nothing exactly when the map already
      agrees with the last of them for every key. */
  lemma PlayedIsSameExactlyWhen(m: map<Bytes, Bytes>, es: seq<LogFile.Entry>)
    ensures Played(m, es) == m <==> forall r :: r in LogFile.ApplyAll([], es) ==> Agrees(m, r)
  {
    hide LogFile.ApplyAll, Played, Agrees;
    var l, p := LogFile.ApplyAll([], es), Played(m, es);
    forall r ensures r in l <==> LogFile.LastFor(es, r.key) == Some(r) {
      LogFile.ApplyAllFind([], es, r.key);
      FindSound(l, r.key);
      if r in l {
        var i :| 0 <= i < |l| && l[i] == r;
        FindAt(l, i);
      }
    }
    if p == m {
      forall r | r in l ensures Agrees(m, r) { PlayedShowsLast(m, es, r.key); }
    }
    if forall r :: r in l ==> Agrees(m, r) { SameWherePlayed(m, es, l); }
  }

  lemma SameWherePlayed(m: map<Bytes, Bytes>, es: seq<LogFile.Entry>, l: Level)
    requires forall r :: r in l <==> LogFile.LastFor(es, r.key) == Some(r)
    requires forall r :: r in l ==> Agrees(m, r)
    ensures Played(m, es) == m
  {
    hide LogFile.LastFor, Played;
    var p := Played(m, es);
    forall k ensures (k in p <==> k in m) && (k in m ==> p[k] == m[k]) {
      PlayedShowsLast(m, es, k);
      if LogFile.LastFor(es, k).Some? { assert LogFile.LastFor(es, k).value in l; }
    }
  }

  lemma PlayedTwice(m: map<Bytes, Bytes>, es: seq<LogFile.Entry>)
    ensures Played(Played(m, es), es) == Played(m, es)
  {
    hide LogFile.LastFor, Played;
    var p := Played(m, es);
    var q := Played(p, es);
    forall k ensures (k in q <==> k in p) && (k in p ==> q[k] == p[k]) {
      PlayedShowsLast(m, es, k);
      PlayedShowsLast(p, es, k);
    }
  }

  // ---- reading it off ----

  lemma LiveIsView(s: Store)
    ensures Abs(s).live == View(s)
  {
  }

  /** A power loss falls back to the map on disk, and costs nothing the next time. */
  lemma PowerLossFallsBack(a: LogMap)
    ensures Step(a, PowerLoss).live == OnDisk(a) == OnDisk(Step(a, PowerLoss))
  {
  }
}
