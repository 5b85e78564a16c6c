/** A log that ends in torn bytes: which writes behind them are lost, what a flush
    saves, and when a flush that is cut short shows old values again. */
module TornTail {
  import opened Bytes
  import opened Levels
  import opened MemTable
  import opened Disk
  import opened Engine
  import opened CrashSafety
  import opened MapOverLog
  import LogFile
  import SSTable
  import Volume

  // ---- live map and disk map ----

  /** How the two maps move, whatever the log looks like: calls act on the live one, a
      finished flush makes the disk one equal to it. */
  lemma LiveAndDisk(a: LogMap, req: Request)
    ensures Step(a, Done(req)).live == Apply(a.live, req)
    ensures OnDisk(Step(a, Done(Flush))) == a.live
    ensures req.Merge? ==> OnDisk(Step(a, Done(req))) == OnDisk(a)
  {
    hide LogFile.Encode, LogFile.Decode;
    EmptyLog();
    if Logs(req) && !Proceeds(req, EntryOf(req).key in a.live) { Unchanged(a.live, req); }
  }

  lemma EmptyLog()
    ensures LogFile.Replay([]) == LogFile.Replayed([], 0, false)
  {
  }

  lemma Unchanged(m: map<Bytes, Bytes>, req: Request)
    requires Logs(req) && !Proceeds(req, EntryOf(req).key in m)
    ensures Apply(m, req) == m
  {
  }

  /** The map after these calls. */
  ghost function ApplyEach(m: map<Bytes, Bytes>, reqs: seq<Request>): map<Bytes, Bytes>
    decreases |reqs|
  {
    if reqs == [] then m else ApplyEach(Apply(m, reqs[0]), reqs[1..])
  }

  function Calls(reqs: seq<Request>): (es: seq<Event>)
    ensures |es| == |reqs|
  {
    seq(|reqs|, i requires 0 <= i < |reqs| => Done(reqs[i]))
  }

  /** Between two openings readers see exactly what the calls did. */
  lemma {:induction false} CallsActOnLive(a: LogMap, reqs: seq<Request>)
    ensures Steps(a, Calls(reqs)).live == ApplyEach(a.live, reqs)
    decreases |reqs|
  {
    hide Step, Apply;
    if reqs != [] {
      assert Calls(reqs)[1..] == Calls(reqs[1..]);
      LiveAndDisk(a, reqs[0]);
      CallsActOnLive(Step(a, Done(reqs[0])), reqs[1..]);
    }
  }

  /** Compactions, crashes in them, and power losses. */
  predicate Quiet(e: Event) {
    e.PowerLoss? || !Logs(e.req)
  }

  lemma {:induction false} QuietKeepsFlushed(a: LogMap, es: seq<Event>)
    requires a.live == a.base && a.log == [] && a.pos == 0 && forall e :: e in es ==> Quiet(e)
    ensures Steps(a, es) == a
    decreases |es|
  {
    EmptyLog();
    if es != [] {
      assert es[0] in es;
      QuietKeepsFlushed(a, es[1..]);
    }
  }

  lemma {:induction false} StepsConcat(a: LogMap, es: seq<Event>, fs: seq<Event>)
    ensures Steps(a, es + fs) == Steps(Steps(a, es), fs)
    decreases |es|
  {
    hide Step;
    if es == [] {
      assert es + fs == fs;
    } else {
      assert (es + fs)[1..] == es[1..] + fs;
      StepsConcat(Step(a, es[0]), es[1..], fs);
    }
  }

  /** Writes made behind any tail whatever, once flushed, survive every crash in a
      compaction and every power loss. */
  lemma FlushedWritesLast(s: Store, reqs: seq<Request>, quiet: seq<Event>)
    requires Inv(s) && LegalRun(s, Calls(reqs) + ([Done(Flush)] + quiet)) && forall e :: e in quiet ==> Quiet(e)
    ensures View(Run(s, Calls(reqs) + ([Done(Flush)] + quiet))) == ApplyEach(View(s), reqs)
  {
    var calls, rest := Calls(reqs), [Done(Flush)] + quiet;
    EngineIsAMapOverALog(s, calls + rest);
    LiveIsView(s);
    LiveIsView(Run(s, calls + rest));
    hide Abs, Run, LegalRun, Inv, View, Apply;
    var a := Abs(s);
    StepsConcat(a, calls, rest);
    CallsActOnLive(a, reqs);
    var b := Steps(a, calls);
    assert rest[1..] == quiet;
    QuietKeepsFlushed(Step(b, Done(Flush)), quiet);
  }

  // ---- writes behind a torn tail ----

  /** The log is whole records `f` and then torn bytes `x`, and the next append goes
      `at` bytes into those. */
  ghost predicate TornAt(a: LogMap, f: Bytes, x: Bytes, at: nat) {
    a.log == f + x && LogFile.CleanLog(f) && LogFile.Torn(x) && a.pos == |f| + at
  }

  /** So it is after every opening, whatever the log; the position is where reading
      the torn bytes stopped. */
  lemma OpenedAt(a: LogMap)
    requires !LogFile.Replay(a.log).panicked
    ensures var n := LogFile.WholeLen(a.log); var x := a.log[n..];
      TornAt(Reopened(a), a.log[..n], x, LogFile.Replay(x).used)
  {
    var n := LogFile.WholeLen(a.log);
    LogFile.EveryLogSplits(a.log);
    hide LogFile.Decode, LogFile.CleanLog;
    LogFile.CleanLogExtends(a.log[..n], a.log[n..]);
  }

  lemma AppendedBehindTear(a: LogMap, req: Request, f: Bytes, x: Bytes, at: nat)
    requires Logs(req) && TornAt(a, f, x, at)
    ensures var b, w := Appended(a, req), LogFile.Encode(EntryOf(req)); var y := SSTable.WriteAt(x, at, w);
      && (LogFile.Torn(y) <==>
            LogFile.Replay(b.log).entries == LogFile.Replay(a.log).entries && !LogFile.Replay(b.log).panicked)
      && (LogFile.Torn(y) ==> TornAt(b, f, y, at + |w|) && OnDisk(b) == OnDisk(a))
  {
    hide LogFile.Encode, LogFile.Replay, LogFile.Torn, LogFile.CleanLog, SSTable.WriteAt, Played, Apply;
    var w := LogFile.Encode(EntryOf(req));
    LogFile.WriteIsLostExactlyWhen(f, x, at, w);
    LogFile.WriteBehind(f, x, at, w);
  }

  /** A write behind torn bytes is acknowledged and visible. The log replays nothing
      new exactly when those bytes are still torn with it; then the next power loss
      takes the write back. */
  lemma WriteIsLostExactlyWhen(s: Store, req: Request, f: Bytes, x: Bytes, at: nat)
    requires Inv(s) && Logs(req) && Proceeds(req, EntryOf(req).key in View(s)) && TornAt(Abs(s), f, x, at)
    ensures var t, w := After(s, req), LogFile.Encode(EntryOf(req)); var y := SSTable.WriteAt(x, at, w);
      && View(t) == Apply(View(s), req)
      && (LogFile.Torn(y) <==>
            LogFile.Replay(t.dir.log).entries == LogFile.Replay(s.dir.log).entries &&
            !LogFile.Replay(t.dir.log).panicked)
      && (LogFile.Torn(y) ==> View(Reopen(t.dir)) == View(Reopen(s.dir)) && TornAt(Abs(t), f, y, at + |w|))
  {
    var t, w := After(s, req), LogFile.Encode(EntryOf(req));
    LoggedStep(s, req);
    AppendedBehindTear(Abs(s), req, f, x, at);
    TornReopens(s, f, x, at);
    hide LogFile.Encode, LogFile.Replay, LogFile.Torn, SSTable.WriteAt, Played, Inv, Live, Reopen, TornAt, Apply, After;
    if LogFile.Torn(SSTable.WriteAt(x, at, w)) {
      TornReopens(t, f, SSTable.WriteAt(x, at, w), at + |w|);
    }
  }

  lemma TornReopens(s: Store, f: Bytes, x: Bytes, at: nat)
    requires Inv(s) && TornAt(Abs(s), f, x, at)
    ensures View(Reopen(s.dir)) == OnDisk(Abs(s))
  {
    LogFile.CleanLogExtends(f, x);
    LogFile.TornReplaysNothing(x);
    PowerLossStep(s);
    LiveIsView(Reopen(s.dir));
    PowerLossFallsBack(Abs(s));
  }

  /** So is every write, for one, that is shorter than what is missing of a record cut
      behind its header. */
  lemma ShortWriteIsLost(s: Store, req: Request, es: seq<LogFile.Entry>, e: LogFile.Entry, n: nat)
    requires Inv(s) && Logs(req) && Proceeds(req, EntryOf(req).key in View(s))
    requires LogFile.AllSmall(es) && LogFile.Small(e) && LogFile.HEADER_LEN <= n
    requires n + |LogFile.Encode(EntryOf(req))| < |LogFile.Encode(e)|
    requires s.pos == |s.dir.log| && s.dir.log == LogFile.EncodeAll(es) + LogFile.Encode(e)[..n]
    ensures var t := After(s, req);
      View(t) == Apply(View(s), req) && View(Reopen(t.dir)) == View(Reopen(s.dir))
  {
    var f, x, w := LogFile.EncodeAll(es), LogFile.Encode(e)[..n], LogFile.Encode(EntryOf(req));
    LogFile.EncodedIsClean(es);
    LogFile.TornRecordIsRefused(e, n, []);
    LogFile.TornRecordIsRefused(e, n, w);
    assert x + [] == x;
    WrittenAtEnd(x, w);
    hide LogFile.Encode, LogFile.EncodeAll, LogFile.Decode, SSTable.WriteAt, Inv, View, Reopen, After, Apply;
    WriteIsLostExactlyWhen(s, req, f, x, n);
  }

  lemma WrittenAtEnd(x: Bytes, w: Bytes)
    ensures SSTable.WriteAt(x, |x|, w) == x + w
  {
  }

  /** ... and of a record with a bad checksum they always are: behind one, every write
      is lost, however many follow. */
  lemma {:induction false} NothingLastsBehindABadSum(a: LogMap, f: Bytes, x: Bytes, at: nat, reqs: seq<Request>)
    requires TornAt(a, f, x, at) && LogFile.Decode(x).BadSum? && LogFile.Replay(x).used <= at
    requires forall i :: 0 <= i < |reqs| ==> !reqs[i].Flush?
    ensures OnDisk(Steps(a, Calls(reqs))) == OnDisk(a)
    decreases |reqs|
  {
    hide LogFile.Encode, LogFile.Decode, LogFile.CleanLog, SSTable.WriteAt, Played, Apply;
    if reqs != [] {
      var b := Step(a, Done(reqs[0]));
      assert Calls(reqs)[1..] == Calls(reqs[1..]);
      if b == a {
        NothingLastsBehindABadSum(a, f, x, at, reqs[1..]);
      } else {
        var w := LogFile.Encode(EntryOf(reqs[0]));
        var y := SSTable.WriteAt(x, at, w);
        LogFile.BadSumIsForever(x, at, w);
        LogFile.WriteBehind(f, x, at, w);
        LogFile.WriteIsLostExactlyWhen(f, x, at, w);
        NothingLastsBehindABadSum(b, f, y, at + |w|, reqs[1..]);
      }
    }
  }

  // ---- a flush cut short ----

  /** Between its metadata write and the truncation a flush is atomic exactly when the
      log replays to nothing that the store has since changed. */
  lemma FlushCrashIsAtomicExactlyWhen(s: Store, k: nat, cut: Cut)
    requires Inv(s) && LegalEvent(s, Crash(Flush, k, cut))
    requires !BeforeCommit(k, cut) && !(k == 2 && cut == Finished)
    ensures View(Reopen(CrashDir(s, Flush, k, cut))) == View(s) <==>
      forall r :: r in Recovered(s.dir.log) ==> Agrees(View(s), r)
  {
    CrashStep(s, Flush, k, cut);
    LiveIsView(s);
    LiveIsView(Reopen(CrashDir(s, Flush, k, cut)));
    hide Inv, Live, View, Played, LogFile.Replay, LogFile.ApplyAll, CrashDir, Reopen;
    PlayedIsSameExactlyWhen(View(s), LogFile.Replay(s.dir.log).entries);
  }

  // ---- a run in which it is not ----

  /** One record, then a second one cut behind its header. */
  function CutLog(k: Bytes, was: Bytes, e: LogFile.Entry, n: nat): Directory
    requires n <= |LogFile.Encode(e)|
  {
    Directory(LogFile.Encode(LogFile.Entry(k, was, false)) + LogFile.Encode(e)[..n], EMPTY.slots, map[])
  }

  lemma CutLogReplays(k: Bytes, was: Bytes, e: LogFile.Entry, n: nat, fs: seq<LogFile.Entry>)
    requires LogFile.Small(LogFile.Entry(k, was, false)) && LogFile.Small(e)
    requires LogFile.HEADER_LEN <= n && n + |LogFile.EncodeAll(fs)| < |LogFile.Encode(e)|
    ensures var log := CutLog(k, was, e, n).log + LogFile.EncodeAll(fs);
      LogFile.Replay(log) == LogFile.Replayed([LogFile.Entry(k, was, false)], |log|, false)
  {
    var first := LogFile.Entry(k, was, false);
    assert LogFile.EncodeAll([first]) == LogFile.Encode(first) by { assert [first][1..] == []; }
    LogFile.AppendsBehindTearAreLost([first], e, n, fs);
  }

  /** A directory without SSTables whose log holds one record opens with just that. */
  lemma OneRecordOpens(log: Bytes, e: LogFile.Entry)
    requires LogFile.Replay(log) == LogFile.Replayed([e], |log|, false)
    ensures var d := Directory(log, EMPTY.slots, map[]);
      Inv(Reopen(d)) && Reopen(d).dir == d && Reopen(d).main == [] && Reopen(d).mem == [LogFile.RecordOf(e)] &&
      Reopen(d).version == 0
    ensures Abs(Reopen(Directory(log, EMPTY.slots, map[]))) == LogMap(Recorded(map[], e), map[], log, |log|)
  {
    hide LogFile.Replay, LogFile.RecordOf, Recorded;
    var d := Directory(log, EMPTY.slots, map[]);
    ReopenBacked(d, []);
    OneRecordReplayed(e);
    hide Put, LogFile.ApplyAll, Inv, Backed;
    RecoveredIsPlayed(log, []);
    PlayedOne(map[], e);
    NothingLive();
  }

  lemma OneRecordReplayed(e: LogFile.Entry)
    ensures LogFile.ApplyAll([], [e]) == [LogFile.RecordOf(e)]
  {
    hide LogFile.RecordOf;
    assert [e][1..] == [];
    assert Put([], LogFile.RecordOf(e)) == [LogFile.RecordOf(e)];
  }

  lemma NothingLive()
    ensures Live([]) == map[]
  {
  }

  lemma CutLogOpens(k: Bytes, was: Bytes, e: LogFile.Entry, n: nat)
    requires LogFile.Small(LogFile.Entry(k, was, false)) && LogFile.Small(e)
    requires LogFile.HEADER_LEN <= n < |LogFile.Encode(e)|
    ensures var d := CutLog(k, was, e, n); var s := Reopen(d);
      Inv(s) && s.dir == d && s.main == [] && s.mem == [Record(k, was, false)] && s.version == 0 &&
      Abs(s) == LogMap(map[k := was], map[], d.log, |d.log|)
  {
    hide LogFile.Encode, LogFile.Replay, Inv, Reopen, Abs;
    var d := CutLog(k, was, e, n);
    CutLogReplays(k, was, e, n, []);
    assert d.log + LogFile.EncodeAll([]) == d.log;
    OneRecordOpens(d.log, LogFile.Entry(k, was, false));
  }

  /** An upsert at the end of the log. */
  lemma Upserted(s: Store, key: Bytes, val: Bytes)
    requires Inv(s) && s.pos == |s.dir.log|
    ensures var t, w := After(s, Write(key, val, Upsert)), LogFile.Encode(LogFile.Entry(key, val, false));
      && Inv(t) && View(t) == View(s)[key := val]
      && t.mem == Put(s.mem, Record(key, val, false)) && t.main == s.main
      && t.dir.log == s.dir.log + w && t.pos == |t.dir.log|
  {
    var req := Write(key, val, Upsert);
    LoggedAfter(s, req, key);
    CallsImplementTheMap(s, req);
    Prefixes(s.dir, Ops(s, req));
    WrittenAtEnd(s.dir.log, LogFile.Encode(EntryOf(req)));
    hide Inv, Put, LogFile.Encode, View, SSTable.WriteAt;
  }

  lemma EncodeTwo(a: LogFile.Entry, b: LogFile.Entry)
    ensures LogFile.EncodeAll([a, b]) == LogFile.Encode(a) + LogFile.Encode(b)
  {
    hide LogFile.Encode;
    assert [a, b][1..] == [b] && [b][1..] == [];
    assert LogFile.EncodeAll([b]) == LogFile.Encode(b) + LogFile.EncodeAll([]);
  }

  /** A MemTable of three small writes can be flushed. */
  lemma SmallTableFits(l: Level, r: Record, q: Record)
    requires |l| == 1 && SSTable.Small(l[0]) && SSTable.Small(r) && SSTable.Small(q)
    ensures var mem := Put(Put(l, r), q); mem != [] && SSTable.Fits(mem, |mem|)
  {
    var mem := Put(Put(l, r), q);
    assert mem != [];
    assert Volume.Payload(l) == 9 + |l[0].key| + |l[0].val| by { assert l[1..] == []; }
    hide Put, Volume.Payload;
    Volume.PutPayload(l, r);
    Volume.PutPayload(Put(l, r), q);
    Volume.PutStaysSmall(l, r);
    Volume.PutStaysSmall(Put(l, r), q);
    Volume.SmallFits(mem);
  }

  /** A store after two upserts: its map, its log, and a MemTable fit to be flushed. */
  lemma TwoUpserts(s: Store, r: Record, k: Bytes, now: Bytes, j: Bytes, v: Bytes)
    requires Inv(s) && s.mem == [r] && SSTable.Small(r) && s.pos == |s.dir.log|
    requires |k| + |now| < U32 && |j| + |v| < U32
    ensures var t := After(s, Write(k, now, Upsert));
      Inv(t) && View(t) == View(s)[k := now] && Inv(After(t, Write(j, v, Upsert)))
    ensures var u := After(After(s, Write(k, now, Upsert)), Write(j, v, Upsert));
      var more := LogFile.EncodeAll([LogFile.Entry(k, now, false), LogFile.Entry(j, v, false)]);
      Legal(u, Flush) && View(u) == View(s)[k := now][j := v] && u.dir.log == s.dir.log + more
  {
    SmallTableFits(s.mem, Record(k, now, false), Record(j, v, false));
    hide *;
    WritesAreLegal(s, k, now);
    var t := After(s, Write(k, now, Upsert));
    Upserted(s, k, now);
    WritesAreLegal(t, j, v);
    var u := After(t, Write(j, v, Upsert));
    Upserted(t, j, v);
    EncodeTwo(LogFile.Entry(k, now, false), LogFile.Entry(j, v, false));
    FlushIsLegal(u);
    AppendTwice(s.dir.log, LogFile.Encode(LogFile.Entry(k, now, false)), LogFile.Encode(LogFile.Entry(j, v, false)));
  }

  lemma AppendTwice(a: Bytes, b: Bytes, c: Bytes)
    ensures a + b + c == a + (b + c)
  {
  }

  lemma WritesAreLegal(s: Store, key: Bytes, val: Bytes)
    requires Inv(s)
    ensures Aligned(s) && Legal(s, Write(key, val, Upsert))
  {
  }

  lemma FlushIsLegal(s: Store)
    requires s.mem != [] && SSTable.Fits(s.mem, |s.mem|)
    ensures Legal(s, Flush)
  {
  }

  /** A flush cut short behind a tear is not atomic: on a log with one record for `k`
      and a cut one, overwrite `k`, write `j`, flush, and lose power between the
      metadata write and the truncation. The store reopens with the old `k` beside
      the new `j`: neither the map before the flush nor any that it ever held. */
  lemma FlushBringsBackOldValues(k: Bytes, was: Bytes, now: Bytes, j: Bytes, v: Bytes, e: LogFile.Entry, n: nat)
    requires k != j && was != now
    requires LogFile.Small(LogFile.Entry(k, was, false)) && LogFile.Small(e) && LogFile.HEADER_LEN <= n
    requires var more := [LogFile.Entry(k, now, false), LogFile.Entry(j, v, false)];
      n + |LogFile.EncodeAll(more)| < |LogFile.Encode(e)|
    ensures Inv(Reopen(CutLog(k, was, e, n))) && View(Reopen(CutLog(k, was, e, n))) == map[k := was]
    ensures var t := After(Reopen(CutLog(k, was, e, n)), Write(k, now, Upsert)); Inv(t) && View(t) == map[k := now]
    ensures var u := After(After(Reopen(CutLog(k, was, e, n)), Write(k, now, Upsert)), Write(j, v, Upsert));
      Inv(u) && LegalEvent(u, Crash(Flush, 1, Finished)) && View(u) == map[k := now, j := v] &&
      View(Next(u, Crash(Flush, 1, Finished))) == map[k := was, j := v]
  {
    hide LogFile.Encode, LogFile.EncodeAll, LogFile.Replay, Live, Reopen, After, View, CutLog, Inv, Abs, SSTable.Fits;
    var more := [LogFile.Entry(k, now, false), LogFile.Entry(j, v, false)];
    EncodedLength(more[0], more[1], e);
    CutLogOpens(k, was, e, n);
    var s := Reopen(CutLog(k, was, e, n));
    CutLogView(s, map[k := was]);
    TwoUpserts(s, Record(k, was, false), k, now, j, v);
    WritesAreLegal(s, k, now);
    WritesAreLegal(After(s, Write(k, now, Upsert)), j, v);
    var u := After(After(s, Write(k, now, Upsert)), Write(j, v, Upsert));
    CutLogReplays(k, was, e, n, more);
    CutAfterCommit(u, LogFile.Entry(k, was, false));
  }

  lemma CutLogView(s: Store, m: map<Bytes, Bytes>)
    requires Abs(s) == LogMap(m, map[], s.dir.log, |s.dir.log|)
    ensures View(s) == m && s.pos == |s.dir.log|
  {
    hide View;
  }

  /** A flush cut between its metadata write and the truncation replays the log on top. */
  lemma CutAfterCommit(s: Store, first: LogFile.Entry)
    requires Inv(s) && Legal(s, Flush) && LogFile.Replay(s.dir.log).entries == [first]
    requires !LogFile.Replay(s.dir.log).panicked
    ensures LegalEvent(s, Crash(Flush, 1, Finished))
    ensures View(Next(s, Crash(Flush, 1, Finished))) == Recorded(View(s), first)
  {
    FlushCanBeCut(s);
    LiveIsView(s);
    LiveIsView(Next(s, Crash(Flush, 1, Finished)));
    hide Inv, LogFile.Replay, Live, View, CanCrash, Legal, CrashDir, Recorded;
    CrashStep(s, Flush, 1, Finished);
    PlayedOne(View(s), first);
  }

  lemma EncodedLength(a: LogFile.Entry, b: LogFile.Entry, e: LogFile.Entry)
    requires LogFile.Small(e) && |LogFile.EncodeAll([a, b])| < |LogFile.Encode(e)|
    ensures LogFile.Small(a) && LogFile.Small(b)
  {
    LogFile.EncodedParts(a, []);
    LogFile.EncodedParts(b, []);
    LogFile.EncodedParts(e, []);
    hide LogFile.Encode;
    EncodeTwo(a, b);
  }

  lemma FlushCanBeCut(s: Store)
    requires Inv(s) && Legal(s, Flush)
    ensures CanCrash(s, Flush, 1, Finished) && CrashDir(s, Flush, 1, Finished).log == s.dir.log
  {
    assert CanCrash(s, Flush, 1, Finished);
    CrashInFlush(s, 1, Finished);
  }
}
