/** When that machine is an atomic durable map: as long as writes are made behind a
    clean log tail. */
module DurableMap {
  import opened Bytes
  import opened Disk
  import opened Engine
  import opened CrashSafety
  import opened MapOverLog
  import LogFile
  import SSTable

  // ---- behind a clean tail ----

  ghost predicate CleanTailed(a: LogMap) {
    LogFile.CleanLog(a.log) && a.pos == |a.log|
  }

  lemma CleanWrite(a: LogMap, data: Bytes)
    requires CleanTailed(a)
    ensures SSTable.WriteAt(a.log, a.pos, data) == a.log + data
  {
  }

  /** An append behind a clean tail is on disk, and the tail stays clean. */
  lemma CleanAppend(a: LogMap, req: Request)
    requires CleanTailed(a) && Logs(req) && LogFile.Small(EntryOf(req))
    ensures CleanTailed(Appended(a, req))
    ensures OnDisk(Appended(a, req)) == Recorded(OnDisk(a), EntryOf(req))
  {
    var e := EntryOf(req);
    CleanWrite(a, LogFile.Encode(e));
    LogFile.AppendToCleanLog(a.log, e);
    hide LogFile.Encode, LogFile.Replay, Played, Recorded, SSTable.WriteAt;
    PlayedConcat(a.base, LogFile.Replay(a.log).entries, [e]);
    PlayedOne(OnDisk(a), e);
  }

  /** A torn one leaves the disk as it was. */
  lemma CleanTornAppend(a: LogMap, left: Bytes)
    requires CleanTailed(a) && LogFile.Torn(left)
    ensures OnDisk(a.(log := SSTable.WriteAt(a.log, a.pos, left))) == OnDisk(a)
  {
    CleanWrite(a, left);
    LogFile.TornAppendToCleanLog(a.log, left);
  }

  /** What a write records is what it does to the map, when it proceeds. */
  lemma RecordedIsApplied(m: map<Bytes, Bytes>, req: Request)
    requires Logs(req) && Proceeds(req, EntryOf(req).key in m)
    ensures Recorded(m, EntryOf(req)) == Apply(m, req)
  {
  }

  /** Memory and disk agree. */
  ghost predicate Settled(a: LogMap) {
    a.live == OnDisk(a)
  }

  /** Writes of records that fit the format, behind a clean tail. */
  ghost predicate Careful(s: Store, e: Event) {
    e.PowerLoss? || (Logs(e.req) ==> CleanTail(s) && LogFile.Small(EntryOf(e.req)))
  }

  lemma DoneIsSettled(s: Store, req: Request)
    requires Inv(s) && LegalEvent(s, Done(req)) && Careful(s, Done(req)) && Settled(Abs(s))
    ensures Settled(Step(Abs(s), Done(req)))
  {
    var a := Abs(s);
    if Logs(req) && Proceeds(req, EntryOf(req).key in a.live) {
      CleanAppend(a, req);
      hide LogFile.Encode, LogFile.Replay, Played, Recorded, SSTable.WriteAt;
      RecordedIsApplied(a.live, req);
    }
  }

  lemma CrashedWriteProceeds(s: Store, req: Request, k: nat, cut: Cut)
    requires Inv(s) && Logs(req) && CanCrash(s, req, k, cut)
    ensures Proceeds(req, EntryOf(req).key in View(s)) && (cut.Torn? ==> LogFile.Torn(cut.left))
  {
    hide LogFile.Encode, LogFile.Torn;
  }

  lemma CrashedWriteIsAtomic(s: Store, req: Request, k: nat, cut: Cut)
    requires Inv(s) && LegalEvent(s, Crash(req, k, cut)) && Logs(req)
    requires Settled(Abs(s)) && CleanTail(s) && LogFile.Small(EntryOf(req))
    ensures Step(Abs(s), Crash(req, k, cut)).live == if cut == Finished then Apply(View(s), req) else View(s)
  {
    var a := Abs(s);
    CrashedWriteProceeds(s, req, k, cut);
    match cut
    case Untouched =>
    case Torn(left) => CleanTornAppend(a, left);
    case Finished =>
      CleanAppend(a, req);
      hide LogFile.Encode, LogFile.Replay, Played, Recorded, SSTable.WriteAt;
      RecordedIsApplied(a.live, req);
  }

  lemma CrashedFlushIsHarmless(a: LogMap, k: nat, cut: Cut)
    requires Settled(a)
    ensures Step(a, Crash(Flush, k, cut)).live == a.live
  {
    hide LogFile.Decode;
    PlayedTwice(a.base, LogFile.Replay(a.log).entries);
  }

  /** When memory and disk agree and, for a write, the tail is clean, a crash in any
      disk operation of any call recovers the map before the call or after it. */
  lemma CrashIsAtomic(s: Store, req: Request, k: nat, cut: Cut)
    requires Inv(s) && LegalEvent(s, Crash(req, k, cut))
    ensures var t := Next(s, Crash(req, k, cut));
      Inv(t) && Synced(t) && Settled(Abs(t)) &&
      (Settled(Abs(s)) && Careful(s, Crash(req, k, cut)) ==> View(t) == View(s) || View(t) == Apply(View(s), req))
  {
    var e := Crash(req, k, cut);
    StepIsExact(s, e);
    ReopenedIsSettled(s, e);
    hide Inv, Synced, Reopen, CrashDir, Abs, Played, LogFile.Replay, LogFile.Encode, CleanTail;
    if Settled(Abs(s)) && Careful(s, e) {
      if Logs(req) {
        CrashedWriteIsAtomic(s, req, k, cut);
      } else if req.Flush? {
        CrashedFlushIsHarmless(Abs(s), k, cut);
      }
      LiveIsView(s);
      LiveIsView(Next(s, e));
    }
  }

  lemma OpenedIsSynced(d: Directory)
    requires !LogFile.Replay(d.log).panicked
    ensures Synced(Reopen(d))
  {
  }

  lemma OpenedIsSettled(a: LogMap)
    ensures Settled(Reopened(a))
  {
    hide LogFile.Replay, Played;
  }

  /** A store just opened agrees with its disk. */
  lemma ReopenedIsSettled(s: Store, e: Event)
    requires Inv(s) && LegalEvent(s, e) && !e.Done?
    ensures Synced(Next(s, e)) && Settled(Step(Abs(s), e))
  {
    var a := Abs(s);
    hide Synced, Settled, Reopened, Reopen, Abs, LogFile.Replay, CrashDir, CanCrash, Legal, BeforeCommit, LogAfter;
    match e
    case PowerLoss =>
      OpenedIsSynced(s.dir);
      OpenedIsSettled(a);
    case Crash(req, k, cut) =>
      OpenedIsSynced(CrashDir(s, req, k, cut));
      OpenedIsSettled(a);
      OpenedIsSettled(LogMap(a.live, a.live, [], 0));
      OpenedIsSettled(a.(base := a.live));
      if Logs(req) { OpenedIsSettled(a.(log := LogAfter(a.log, a.pos, LogFile.Encode(EntryOf(req)), cut))); }
  }

  // ---- whole runs ----

  ghost predicate CarefulRun(s: Store, es: seq<Event>)
    requires LegalRun(s, es)
    decreases |es|
  {
    es == [] || (Careful(s, es[0]) && CarefulRun(Next(s, es[0]), es[1..]))
  }

  /** The maps an atomic durable map may hold after the same events. */
  ghost function Outcomes(m: map<Bytes, Bytes>, es: seq<Event>): set<map<Bytes, Bytes>>
    decreases |es|
  {
    if es == [] then {m}
    else match es[0]
      case Done(req) => Outcomes(Apply(m, req), es[1..])
      case Crash(req, _, _) => Outcomes(m, es[1..]) + Outcomes(Apply(m, req), es[1..])
      case PowerLoss => Outcomes(m, es[1..])
  }

  lemma OneEvent(s: Store, e: Event)
    requires Inv(s) && Settled(Abs(s)) && LegalEvent(s, e) && Careful(s, e)
    ensures var t := Next(s, e);
      Inv(t) && Settled(Abs(t)) && (View(t) == View(s) || (!e.PowerLoss? && View(t) == Apply(View(s), e.req))) &&
      (e.Done? ==> View(t) == Apply(View(s), e.req))
  {
    StepIsExact(s, e);
    LiveIsView(s);
    LiveIsView(Next(s, e));
    hide Inv, Abs, Reopen, CrashDir, CanCrash, LogFile.Replay, LogFile.Encode, Played, CleanTail, Step;
    match e
    case Done(req) =>
      DoneIsSettled(s, req);
      CallsImplementTheMap(s, req);
    case Crash(req, k, cut) => CrashIsAtomic(s, req, k, cut);
    case PowerLoss => PowerLossFallsBack(Abs(s));
  }

  /** As long as the writes of a run are made behind a clean tail, the engine is an
      atomic durable map: no acknowledged write is ever lost, no interrupted one is
      ever half there. */
  lemma {:induction false} EngineIsAtomicDurableMap(s: Store, es: seq<Event>)
    requires Inv(s) && LegalRun(s, es)
    ensures Settled(Abs(s)) && CarefulRun(s, es) ==> View(Run(s, es)) in Outcomes(View(s), es)
    decreases |es|
  {
    hide Inv, Abs, LegalEvent, Settled, Careful, Next, View;
    if es != [] && Settled(Abs(s)) && CarefulRun(s, es) {
      OneEvent(s, es[0]);
      EngineIsAtomicDurableMap(Next(s, es[0]), es[1..]);
    }
  }

  // ---- runs without torn appends ----

  /** Nothing but a torn append, or a record that does not fit the format, can spoil the
      end of the log. */
  predicate Tidy(e: Event) {
    match e
    case PowerLoss => true
    case Done(req) => Logs(req) ==> LogFile.Small(EntryOf(req))
    case Crash(req, _, cut) => Logs(req) ==> LogFile.Small(EntryOf(req)) && !cut.Torn?
  }

  lemma ReopenedStaysClean(a: LogMap)
    requires LogFile.CleanLog(a.log)
    ensures CleanTailed(Reopened(a))
  {
    hide LogFile.Decode, Played;
    LogFile.CleanLogExtends(a.log, []);
  }

  lemma AppendedIsClean(a: LogMap, req: Request)
    requires CleanTailed(a) && Logs(req) && LogFile.Small(EntryOf(req))
    ensures LogFile.CleanLog(SSTable.WriteAt(a.log, a.pos, LogFile.Encode(EntryOf(req))))
  {
    CleanWrite(a, LogFile.Encode(EntryOf(req)));
    LogFile.AppendToCleanLog(a.log, EntryOf(req));
  }

  lemma TidyKeepsClean(a: LogMap, e: Event)
    requires CleanTailed(a) && Tidy(e)
    ensures CleanTailed(Step(a, e))
  {
    EmptyIsClean();
    if !e.PowerLoss? && Logs(e.req) {
      CleanAppend(a, e.req);
      AppendedIsClean(a, e.req);
    }
    hide LogFile.Encode, LogFile.CleanLog, LogFile.Replay, Played, Recorded, SSTable.WriteAt, Apply, Reopened,
      CleanTailed;
    Parts(a);
    match e
    case Done(_) => if e.req.Flush? { Parts(LogMap(a.live, a.live, [], 0)); }
    case PowerLoss => ReopenedStaysClean(a);
    case Crash(req, k, cut) =>
      ReopenedStaysClean(a);
      ReopenedStaysClean(LogMap(a.live, a.live, [], 0));
      ReopenedStaysClean(a.(base := a.live));
      if Logs(req) { ReopenedStaysClean(a.(log := LogAfter(a.log, a.pos, LogFile.Encode(EntryOf(req)), cut))); }
  }

  lemma Parts(a: LogMap)
    ensures CleanTailed(a) <==> LogFile.CleanLog(a.log) && a.pos == |a.log|
  {
  }

  lemma EmptyIsClean()
    ensures LogFile.CleanLog([])
  {
  }

  /** Every run in which no append is torn, whatever else is cut short, writes behind a
      clean tail throughout. */
  lemma {:induction false} TidyRunsAreCareful(s: Store, es: seq<Event>)
    requires Inv(s) && LegalRun(s, es) && CleanTail(s) && forall e :: e in es ==> Tidy(e)
    ensures CarefulRun(s, es) && CleanTail(Run(s, es))
    decreases |es|
  {
    hide Inv, Abs, LegalEvent, Next, Step, LogFile.CleanLog;
    if es != [] {
      assert es[0] in es;
      StepIsExact(s, es[0]);
      CleanIsClean(s);
      CleanIsClean(Next(s, es[0]));
      TidyKeepsClean(Abs(s), es[0]);
      TidyRunsAreCareful(Next(s, es[0]), es[1..]);
    }
  }

  lemma CleanIsClean(s: Store)
    ensures CleanTail(s) <==> CleanTailed(Abs(s))
  {
  }
}
