/** What each working condition of the trade protocol is for: the exact outcome without it. */
module TradeHazards {
  import opened Base
  import opened Wal
  import opened TradeCodec
  import opened TradeMachine

  /** Nothing that a sync has covered is missing from both the table and the memory. */
  ghost predicate NothingLost(s: State, h: History) {
    forall r :: r in h.covered ==> Stored(s.table, r) || InMemory(s, r)
  }

  // ----- runs, piece by piece -----

  predicate Stages(events: seq<Event>) {
    forall i :: 0 <= i < |events| ==> events[i].Append? || events[i].AppendFailed? || events[i].Push?
  }

  /** The trades that such a piece of a run logs. */
  function Appended(events: seq<Event>): seq<Trade> {
    if events == [] then []
    else (if events[0].Append? then [events[0].trade] else []) + Appended(events[1..])
  }

  lemma Peel(s: State, h: History, e: Event, rest: seq<Event>)
    requires Possible(s, [e] + rest)
    ensures Enabled(s, e) && Possible(Next(s, e), rest) && After(s, [e] + rest) == After(Next(s, e), rest)
    ensures HistoryAfter(s, h, [e] + rest) == HistoryAfter(Next(s, e), NextHistory(s, h, e), rest)
  {
    hide Enabled, Next, NextHistory;
    assert ([e] + rest)[1..] == rest;
  }

  lemma OneStage(s: State, h: History, e: Event)
    requires Enabled(s, e) && Stages([e])
    ensures var s', h' := Next(s, e), NextHistory(s, h, e);
            && s'.table == s.table && s'.synced == s.synced && s'.phase == s.phase
            && h'.records == h.records + Appended([e]) && h'.covered == h.covered && h'.dropped == h.dropped
  {
    hide Record, Encoded, Loggable, RowOf;
    assert [e][0] == e && [e][1..] == [];
    assert h.records + [] == h.records;
  }

  lemma FirstStage(events: seq<Event>)
    requires Stages(events) && events != []
    ensures Stages([events[0]]) && Stages(events[1..])
    ensures Appended(events) == Appended([events[0]]) + Appended(events[1..])
  {
    assert [events[0]][1..] == [];
  }

  /** Stages change only the log and the memory. */
  lemma {:induction false} PeelStages(s: State, h: History, events: seq<Event>, rest: seq<Event>)
    returns (s': State, h': History)
    requires Stages(events) && Possible(s, events + rest)
    ensures Possible(s', rest) && After(s, events + rest) == After(s', rest)
    ensures HistoryAfter(s, h, events + rest) == HistoryAfter(s', h', rest)
    ensures s'.table == s.table && s'.synced == s.synced && s'.phase == s.phase
    ensures h'.records == h.records + Appended(events) && h'.covered == h.covered && h'.dropped == h.dropped
    ensures Possible(s, events) && s' == After(s, events)
    decreases events
  {
    hide HistoryAfter, Next, NextHistory, Enabled, Stages;
    if events == [] {
      assert events + rest == rest && h.records + Appended(events) == h.records;
      s', h' := s, h;
    } else {
      var e, more := events[0], events[1..];
      assert events + rest == [e] + (more + rest);
      Peel(s, h, e, more + rest);
      FirstStage(events);
      OneStage(s, h, e);
      s', h' := PeelStages(Next(s, e), NextHistory(s, h, e), more, rest);
      Unfold(s, h, e, more);
      assert events == [e] + more;
      assert h.records + (Appended([e]) + Appended(more)) == h.records + Appended([e]) + Appended(more);
    }
  }

  /** What is left when the log has been emptied and the memory is gone. */
  predicate OnlyTable(s: State, table: seq<Row>) {
    s.table == table && s.file == [] && s.buffer == [] && s.half == [] && s.phase == Idle
  }

  // ----- stages inside a flush -----

  function TruncateThenCrash(): seq<Event> {
    [TruncateOk] + ([Crash(0)] + ([Restart] + []))
  }

  /** A flush with stages `a` before its sync, `b` before its INSERT and `c` before its truncation; then
      a crash. */
  function FlushWithStages(a: seq<Event>, b: seq<Event>, c: seq<Event>): seq<Event> {
    [Take] + (a + ([SyncOk] + (b + ([InsertOk] + (c + TruncateThenCrash())))))
  }

  lemma FlushWithStagesRuns(s: State, h: History, a: seq<Event>, b: seq<Event>, c: seq<Event>)
    requires Stages(a) && Stages(b) && Stages(c) && Possible(s, FlushWithStages(a, b, c))
    ensures s.phase == Idle && s.buffer != []
    ensures OnlyTable(After(s, FlushWithStages(a, b, c)), InsertedRows(s.table, RowsOf(s.buffer)))
    ensures HistoryAfter(s, h, FlushWithStages(a, b, c)).covered == h.covered + RowsOf(h.records + Appended(a))
  {
    hide RowsOf, RowOf, InsertedRows, Recovered, Possible, After, HistoryAfter, Record, Encoded, Loggable, Stages,
         TruncateThenCrash;
    var r6 := TruncateThenCrash();
    var r5 := c + r6;
    var r4 := [InsertOk] + r5;
    var r3 := b + r4;
    var r2 := [SyncOk] + r3;
    Peel(s, h, Take, a + r2);
    var s1, h1 := PeelStages(Next(s, Take), NextHistory(s, h, Take), a, r2);
    Peel(s1, h1, SyncOk, r3);
    var s2, h2 := PeelStages(Next(s1, SyncOk), NextHistory(s1, h1, SyncOk), b, r4);
    Peel(s2, h2, InsertOk, r5);
    var s3, h3 := PeelStages(Next(s2, InsertOk), NextHistory(s2, h2, InsertOk), c, r6);
    CrashAfterTruncate(s3, h3);
  }

  lemma CrashAfterTruncate(s: State, h: History)
    requires Possible(s, TruncateThenCrash())
    ensures OnlyTable(After(s, TruncateThenCrash()), s.table)
    ensures HistoryAfter(s, h, TruncateThenCrash()).covered == h.covered
  {
    hide RowsOf, RowOf, InsertedRows, Recovered;
    NothingInEmptyFile();
    Peel(s, h, TruncateOk, [Crash(0)] + ([Restart] + []));
    var s1, h1 := Next(s, TruncateOk), NextHistory(s, h, TruncateOk);
    Peel(s1, h1, Crash(0), [Restart] + []);
    var s2, h2 := Next(s1, Crash(0)), NextHistory(s1, h1, Crash(0));
    Peel(s2, h2, Restart, []);
  }

  lemma NothingInEmptyFile()
    ensures Recovered([]) == [] && Replayed([]) == []
  {}

  /** The table accounts for `r`, or the batch does. */
  ghost predicate Brought(table: seq<Row>, batch: seq<Trade>, r: Row) {
    Stored(table, r) || exists q :: q in RowsOf(batch) && StoresAs(q, r)
  }

  ghost predicate Accounted(trades: seq<Trade>, table: seq<Row>, batch: seq<Trade>) {
    forall t :: t in trades ==> Brought(table, batch, RowOf(t))
  }

  /** Trades staged between the take and the truncation of a flush are truncated away with the batch,
      and so is a trade whose stage had not reached the buffer by then. All that is left is the table:
      nothing a sync has covered is lost exactly when the table and the batch bring their keys as well. */
  lemma StagesInsideFlushAreSafeIff(s: State, h: History, a: seq<Event>, b: seq<Event>, c: seq<Event>)
    requires Inv(s, h) && !h.dropped
    requires Stages(a) && Stages(b) && Stages(c) && Possible(s, FlushWithStages(a, b, c))
    ensures var s' := After(s, FlushWithStages(a, b, c));
            var h' := HistoryAfter(s, h, FlushWithStages(a, b, c));
            && OnlyTable(s', InsertedRows(s.table, RowsOf(s.buffer)))
            && (NothingLost(s', h') <==> Accounted(s.half + Appended(a), s.table, s.buffer))
  {
    hide RowsOf, RowOf, InsertedRows, Stored, KeysUnique, Holds, LogsTo, Possible, After, HistoryAfter,
         FlushWithStages, Stages, Appended, Loggable, LogOf;
    FlushWithStagesRuns(s, h, a, b, c);
    var table := InsertedRows(s.table, RowsOf(s.buffer));
    var late := Appended(a);
    forall r
      ensures !Holds([], r)
      ensures r in RowsOf(h.records + late) <==> Holds(h.records, r) || Holds(late, r)
      ensures Stored(s.table, r) || Holds(s.buffer, r) ==> Stored(table, r)
      ensures Holds(h.records[..h.durable], r) ==> Holds(h.records, r)
      ensures Holds(s.half, r) ==> Holds(h.records, r)
      ensures Holds(s.half + late, r) <==> Holds(s.half, r) || Holds(late, r)
      ensures Stored(table, r) <==> Brought(s.table, s.buffer, r)
    {
      InsertStores(s.table, RowsOf(s.buffer), r);
      NothingHeld(r);
      HoldsRows(h.records + late, r);
      HoldsConcat(h.records, late, r);
      HoldsConcat(s.half, late, r);
      CommitStores(s.table, s.buffer, r);
      HoldsConcat(h.records[..h.durable], h.records[h.durable..], r);
      assert h.records[..h.durable] + h.records[h.durable..] == h.records;
    }
    AllHeld(s.half + late, s.table, s.buffer);
  }

  lemma SlipInEnabled(s: State, u: Trade)
    requires s.phase == Idle && s.buffer != [] && Loggable(u)
    ensures Enabled(s, Take) && Enabled(Next(s, Take), Append(u))
    ensures Enabled(Next(Next(s, Take), Append(u)), SyncOk)
    ensures Enabled(Next(Next(Next(s, Take), Append(u)), SyncOk), InsertOk)
    ensures Enabled(Next(Next(Next(Next(s, Take), Append(u)), SyncOk), InsertOk), TruncateOk)
  {
    hide Loggable, Encoded, Record, RowsOf, RowOf, InsertedRows;
  }

  lemma CrashIsPossible(s: State, h: History)
    requires Enabled(s, TruncateOk)
    ensures Possible(s, TruncateThenCrash())
  {
    hide Recovered;
    var s1 := Next(s, TruncateOk);
    var s2 := Next(s1, Crash(0));
    Unfold(s2, h, Restart, []);
    Unfold(s1, h, Crash(0), [Restart] + []);
    Unfold(s, h, TruncateOk, [Crash(0)] + ([Restart] + []));
  }

  lemma EmptyFirst(events: seq<Event>)
    ensures [] + events == events
  {}

  /** And such a run exists: nothing in the code keeps a stage from slipping in. */
  lemma AStageCanSlipIn(s: State, h: History, u: Trade)
    requires s.phase == Idle && s.buffer != [] && Loggable(u)
    ensures Stages([Append(u)]) && Possible(s, FlushWithStages([Append(u)], [], []))
  {
    SlipInEnabled(s, u);
    hide Enabled, Next, NextHistory, HistoryAfter, After, Possible, TruncateThenCrash, FlushWithStages;
    var e := Append(u);
    var s1 := Next(s, Take);
    var s2 := Next(s1, e);
    var s3 := Next(s2, SyncOk);
    var s4 := Next(s3, InsertOk);
    var end := TruncateThenCrash();
    CrashIsPossible(s4, h);
    Unfold(s3, h, InsertOk, end);
    Unfold(s2, h, SyncOk, [InsertOk] + end);
    Unfold(s1, h, e, [SyncOk] + ([InsertOk] + end));
    Unfold(s, h, Take, [e] + ([SyncOk] + ([InsertOk] + end)));
    SlippedIn(e);
  }

  lemma SlippedIn(e: Event)
    ensures FlushWithStages([e], [], []) == [Take] + ([e] + ([SyncOk] + ([InsertOk] + TruncateThenCrash())))
  {
    hide TruncateThenCrash;
    EmptyFirst(TruncateThenCrash());
    EmptyFirst([InsertOk] + TruncateThenCrash());
  }

  lemma AllHeld(trades: seq<Trade>, table: seq<Row>, batch: seq<Trade>)
    ensures Accounted(trades, table, batch) <==> forall r :: Holds(trades, r) ==> Brought(table, batch, r)
  {
    hide RowOf, Brought;
    forall t | t in trades ensures Holds(trades, RowOf(t)) {
      var i :| 0 <= i < |trades| && trades[i] == t;
      assert RowOf(trades[i]) == RowOf(t);
    }
  }

  // ----- a flush after a failed one -----

  /** The two ways in which a flush drops its batch without having stored it for certain. */
  predicate Drops(e: Event) {
    e.SyncFailed? || e.InsertFailed?
  }

  predicate Commits(e: Event) {
    e == InsertFailed(true)
  }

  function NextFlush(): seq<Event> {
    [Take] + ([SyncOk] + ([InsertOk] + TruncateThenCrash()))
  }

  /** A failed sync or INSERT, some stages, the next flush, and a crash. */
  function FlushAfterFailure(e: Event, a: seq<Event>): seq<Event> {
    [e] + (a + NextFlush())
  }

  lemma FlushAfterFailureRuns(s: State, h: History, e: Event, a: seq<Event>) returns (next: seq<Trade>)
    requires Drops(e) && Stages(a) && Possible(s, FlushAfterFailure(e, a))
    ensures Enabled(s, e) && Possible(s, [e] + a) && next == After(s, [e] + a).buffer
    ensures OnlyTable(After(s, FlushAfterFailure(e, a)), InsertedRows(Next(s, e).table, RowsOf(next)))
  {
    hide RowsOf, RowOf, InsertedRows, Recovered, Possible, After, HistoryAfter, Record, Encoded, Loggable, Stages,
         TruncateThenCrash, OnlyTable;
    var r4 := TruncateThenCrash();
    var r3 := [InsertOk] + r4;
    var r2 := [SyncOk] + r3;
    var r1 := [Take] + r2;
    Peel(s, h, e, a + r1);
    var s1, h1 := PeelStages(Next(s, e), NextHistory(s, h, e), a, r1);
    Unfold(s, h, e, a);
    next := s1.buffer;
    Peel(s1, h1, Take, r2);
    var s2, h2 := Next(s1, Take), NextHistory(s1, h1, Take);
    Peel(s2, h2, SyncOk, r3);
    var s3, h3 := Next(s2, SyncOk), NextHistory(s2, h2, SyncOk);
    Peel(s3, h3, InsertOk, r4);
    CrashAfterTruncate(Next(s3, InsertOk), NextHistory(s3, h3, InsertOk));
  }

  /** The trades of the dropped batch that a sync has covered: all of them once this batch's own sync
      has succeeded, else those recovered from an earlier crash. */
  ghost predicate CoveredInBatch(s: State, h: History, r: Row) {
    Holds(BatchOf(s.phase), r) && r in h.covered
  }

  /** After a failed sync or INSERT the batch is only in the log, and the next flush truncates it.
      Everything covered before is still accounted for afterwards exactly when the failed INSERT had
      committed after all, or the table and the next batch between them bring the key of each covered
      trade of the dropped batch. */
  lemma FlushAfterFailureIsSafeIff(s: State, h: History, e: Event, a: seq<Event>)
    requires Inv(s, h) && Drops(e) && Stages(a) && Possible(s, FlushAfterFailure(e, a))
    ensures Possible(s, [e] + a)
    ensures e.InsertFailed? ==> forall r :: Holds(BatchOf(s.phase), r) ==> r in h.covered
    ensures var s' := After(s, FlushAfterFailure(e, a));
            var next := After(s, [e] + a).buffer;
            (forall r :: r in h.covered ==> Stored(s'.table, r) || InMemory(s', r))
            <==> Commits(e) || forall r :: CoveredInBatch(s, h, r) ==> Brought(s.table, next, r)
  {
    hide RowsOf, RowOf, InsertedRows, Stored, KeysUnique, Holds, LogsTo, LogOf, After, Possible, StoresAs,
         FlushAfterFailure, Stages, TruncatedSafe, OnlyStaged;
    var next := FlushAfterFailureRuns(s, h, e, a);
    var batch := BatchOf(s.phase);
    var first := Next(s, e).table;
    forall r
      ensures !Holds([], r)
      ensures Stored(s.table, r) || (Commits(e) && Holds(batch, r)) ==> Stored(first, r)
      ensures Stored(InsertedRows(first, RowsOf(next)), r) <==> Brought(first, next, r)
      ensures Holds(h.records[..h.durable], r) ==> Holds(h.records, r)
    {
      NothingHeld(r);
      CommitStores(s.table, batch, r);
      InsertStores(first, RowsOf(next), r);
      HoldsPrefix(h.records, h.durable, |h.records|, r);
      assert h.records[..|h.records|] == h.records;
    }
  }

  function OneMoreTrade(u: Trade): seq<Event> {
    [Append(u)] + ([Push(0)] + [])
  }

  lemma NextFlushIsPossible(s: State, h: History)
    requires s.phase == Idle && s.buffer != []
    ensures Possible(s, NextFlush())
  {
    hide RowsOf, RowOf, InsertedRows, NextHistory, HistoryAfter, After, Possible, TruncateThenCrash;
    var s1 := Next(s, Take);
    var s2 := Next(s1, SyncOk);
    var s3 := Next(s2, InsertOk);
    CrashIsPossible(s3, h);
    Unfold(s2, h, InsertOk, TruncateThenCrash());
    Unfold(s1, h, SyncOk, [InsertOk] + TruncateThenCrash());
    Unfold(s, h, Take, [SyncOk] + ([InsertOk] + TruncateThenCrash()));
  }

  lemma {:induction false} RunsConcat(s: State, a: seq<Event>, b: seq<Event>)
    requires Possible(s, a) && Possible(After(s, a), b)
    ensures Possible(s, a + b)
    decreases a
  {
    hide Enabled, Next;
    if a == [] {
      EmptyFirst(b);
    } else {
      RunsConcat(Next(s, a[0]), a[1..], b);
      assert (a + b)[1..] == a[1..] + b;
    }
  }

  lemma OneMoreIsStages(u: Trade)
    ensures Stages(OneMoreTrade(u))
  {
    assert OneMoreTrade(u) == [Append(u), Push(0)];
  }

  lemma OneMoreTradeIsPossible(s: State, h: History, e: Event, u: Trade)
    requires Drops(e) && Enabled(s, e) && Loggable(u) && s.half == [] && s.buffer == []
    ensures Stages(OneMoreTrade(u)) && Possible(s, [e] + OneMoreTrade(u))
    ensures var s' := After(s, [e] + OneMoreTrade(u)); s'.buffer == [u] && s'.phase == Idle
  {
    hide Enabled, Next, NextHistory, HistoryAfter, Possible, After, Loggable, Drops, Stages;
    FollowEnabled(s, e, u);
    OneMoreIsStages(u);
    var e1, e2 := Append(u), Push(0);
    var s1 := Next(s, e);
    var s2 := Next(s1, e1);
    NoSteps(Next(s2, e2));
    Unfold(s2, h, e2, []);
    Unfold(s1, h, e1, [e2] + []);
    Unfold(s, h, e, OneMoreTrade(u));
  }

  /** And nothing in the code keeps the next flush from coming: from any state in which a sync or an
      INSERT can fail, it may fail, one more trade be staged, and the flush follow. */
  lemma AFlushCanFollow(s: State, h: History, e: Event, u: Trade)
    requires Drops(e) && Enabled(s, e) && Loggable(u) && s.half == [] && s.buffer == []
    ensures Stages(OneMoreTrade(u)) && Possible(s, FlushAfterFailure(e, OneMoreTrade(u)))
    ensures Possible(s, [e] + OneMoreTrade(u)) && After(s, [e] + OneMoreTrade(u)).buffer == [u]
  {
    hide Enabled, Possible, After, NextFlush, OneMoreTrade, Stages, Loggable, Drops;
    OneMoreTradeIsPossible(s, h, e, u);
    NextFlushIsPossible(After(s, [e] + OneMoreTrade(u)), h);
    RunsConcat(s, [e] + OneMoreTrade(u), NextFlush());
    assert [e] + OneMoreTrade(u) + NextFlush() == [e] + (OneMoreTrade(u) + NextFlush());
  }

  lemma FollowEnabled(s: State, e: Event, u: Trade)
    requires Drops(e) && Enabled(s, e) && Loggable(u) && s.half == [] && s.buffer == []
    ensures Enabled(Next(s, e), Append(u))
    ensures Enabled(Next(Next(s, e), Append(u)), Push(0))
    ensures var s' := Next(Next(Next(s, e), Append(u)), Push(0)); s'.buffer == [u] && s'.phase == Idle
  {
    hide Loggable, Encoded, Record, RowsOf, RowOf, InsertedRows;
  }

  lemma LostBehindFailure(s: State, h: History, e: Event, t: Trade, u: Trade)
    requires Drops(e) && !Commits(e) && Enabled(s, e) && s.table == [] && s.half == [] && s.buffer == []
    requires Loggable(u) && !StoresAs(RowOf(u), RowOf(t))
    ensures var run := FlushAfterFailure(e, OneMoreTrade(u));
            Possible(s, run) && !Stored(After(s, run).table, RowOf(t)) && OnlyTable(After(s, run), After(s, run).table)
  {
    hide Loggable, RowOf, StoresAs, Stored, After, Possible, FlushAfterFailure, OneMoreTrade, Stages, InsertedRows;
    AFlushCanFollow(s, h, e, u);
    var next := FlushAfterFailureRuns(s, h, e, OneMoreTrade(u));
    InsertStores(s.table, RowsOf(next), RowOf(t));
    NotStoredInNothing(RowOf(t));
  }

  /** The smallest loss: a trade is staged and synced, its INSERT fails, another trade is staged and
      flushed. The first trade was covered and is nowhere any more. */
  lemma CoveredTradeIsLost(t: Trade, u: Trade)
    requires Loggable(t) && Loggable(u) && !StoresAs(RowOf(u), RowOf(t))
    ensures Possible(START, StagedAndSynced(t))
    ensures var s, h := After(START, StagedAndSynced(t)), HistoryAfter(START, BLANK, StagedAndSynced(t));
            var run := FlushAfterFailure(InsertFailed(false), OneMoreTrade(u));
            && Possible(s, run) && RowOf(t) in h.covered
            && !Stored(After(s, run).table, RowOf(t)) && OnlyTable(After(s, run), After(s, run).table)
  {
    hide Loggable, RowOf, StoresAs, Stored, After, HistoryAfter, Possible, DisciplinedRun, StagedAndSynced,
         FlushAfterFailure, OneMoreTrade, OnlyTable;
    EveryTradeCanBeCovered(t);
    var s, h := After(START, StagedAndSynced(t)), HistoryAfter(START, BLANK, StagedAndSynced(t));
    LostBehindFailure(s, h, InsertFailed(false), t, u);
  }

  function CrashRecoverTake(n: nat): seq<Event> {
    [Crash(n)] + ([Restart] + ([Take] + []))
  }

  lemma RecoveredAndTaken(s: State, h: History, r: Row) returns (s': State, h': History)
    requires Inv(s, h) && s.table == [] && r in h.covered
    ensures Possible(s, CrashRecoverTake(|s.file|)) && s' == After(s, CrashRecoverTake(|s.file|))
    ensures s'.phase.Taken? && s'.table == [] && s'.half == [] && s'.buffer == []
    ensures Holds(BatchOf(s'.phase), r) && r in h'.covered && Inv(s', h')
  {
    hide Holds, Stored, LogsTo, LogOf, RowOf, Recovered, Kept, KeysUnique, OnlyStaged, TruncatedSafe, HistoryAfter;
    var e := Crash(|s.file|);
    var s1, h1 := Next(s, e), NextHistory(s, h, e);
    StepKeeps(s, h, e);
    StepKeeps(s1, h1, Restart);
    var s2, h2 := Next(s1, Restart), NextHistory(s1, h1, Restart);
    NotStoredInNothing(r);
    HoldsPrefix(h2.records, h2.durable, |h2.records|, r);
    assert h2.records[..|h2.records|] == h2.records;
    NothingHeld(r);
    StepKeeps(s2, h2, Take);
    s', h' := Next(s2, Take), NextHistory(s2, h2, Take);
    Unfold(s2, h2, Take, []);
    Unfold(s1, h1, Restart, [Take] + []);
    Unfold(s, h, e, [Restart] + ([Take] + []));
  }

  /** The same loss behind a failed sync: a trade is staged and synced, a crash and recovery bring it
      back into a batch, that batch's sync fails, another trade is staged and flushed. */
  lemma RecoveredTradeIsLost(t: Trade, u: Trade)
    requires Loggable(t) && Loggable(u) && !StoresAs(RowOf(u), RowOf(t))
    ensures Possible(START, StagedAndSynced(t))
    ensures var s := After(START, StagedAndSynced(t));
            var run := FlushAfterFailure(SyncFailed, OneMoreTrade(u));
            && Possible(s, CrashRecoverTake(|s.file|))
            && (var s' := After(s, CrashRecoverTake(|s.file|));
                && Possible(s', run) && Holds(BatchOf(s'.phase), RowOf(t))
                && !Stored(After(s', run).table, RowOf(t)) && OnlyTable(After(s', run), After(s', run).table))
  {
    hide Loggable, RowOf, StoresAs, Stored, After, HistoryAfter, Possible, DisciplinedRun, StagedAndSynced,
         FlushAfterFailure, OneMoreTrade, OnlyTable, Inv, Next, Holds, CrashRecoverTake;
    EveryTradeCanBeCovered(t);
    StartHolds();
    RunKeeps(START, BLANK, StagedAndSynced(t));
    var s, h := After(START, StagedAndSynced(t)), HistoryAfter(START, BLANK, StagedAndSynced(t));
    var s', h' := RecoveredAndTaken(s, h, RowOf(t));
    LostBehindFailure(s', h', SyncFailed, t, u);
  }

  lemma NotStoredInNothing(r: Row)
    ensures !Stored([], r)
  {}

  // ----- what no sync has covered, and what lies behind a torn record -----

  function StagedThenCrash(t: Trade): seq<Event> {
    [Append(t)] + ([Push(0)] + ([Crash(0)] + ([Restart] + [])))
  }

  /** A trade that was staged, and its `stage` returned, is gone after a crash that comes before a sync. */
  lemma StagedOnlyCanBeLost(t: Trade)
    requires Loggable(t)
    ensures Possible(START, StagedThenCrash(t)) && DisciplinedRun(START, BLANK, StagedThenCrash(t))
    ensures After(START, StagedThenCrash(t)) == START
    ensures HistoryAfter(START, BLANK, StagedThenCrash(t)).staged == [RowOf(t)]
  {
    hide Loggable, Encoded, Record, RowOf, Recovered;
    NothingInEmptyFile();
    var e1, e2, e3 := Append(t), Push(0), Crash(0);
    var s1 := Next(START, e1); var h1 := NextHistory(START, BLANK, e1);
    var s2 := Next(s1, e2);    var h2 := NextHistory(s1, h1, e2);
    var s3 := Next(s2, e3);    var h3 := NextHistory(s2, h2, e3);
    Unfold(s3, h3, Restart, []);
    UnfoldDisciplined(s3, h3, Restart, []);
    Unfold(s2, h2, e3, [Restart] + []);
    UnfoldDisciplined(s2, h2, e3, [Restart] + []);
    Unfold(s1, h1, e2, [e3] + ([Restart] + []));
    UnfoldDisciplined(s1, h1, e2, [e3] + ([Restart] + []));
    Unfold(START, BLANK, e1, [e2] + ([e3] + ([Restart] + [])));
    UnfoldDisciplined(START, BLANK, e1, [e2] + ([e3] + ([Restart] + [])));
  }

  /** One byte of a torn record left at the head of the log hides all trades staged behind it: as long
      as the first of them is under 16 MiB and the log is under 256 times its size, nothing at all is
      recovered. */
  lemma OneTornByteHidesAll(b: byte, trades: seq<Trade>)
    requires AllLoggable(trades) && trades != [] && |Encoded(trades[0])| < 0x100_0000
    requires |LogOf(trades)| <= 256 * |Encoded(trades[0])|
    ensures Recovered([b] + LogOf(trades)) == []
  {
    hide Encoded, Decoded, Record, Crc32.Crc, Crc32.WordAt, Crc32.WordLe, Loggable;
    LoggableStorable(trades);
    assert LogOf(trades) == Record(Encoded(trades[0])) + Log(Payloads(trades)[1..]);
    TornLength(b, Encoded(trades[0]), Log(Payloads(trades)[1..]));
  }

  lemma TornLength(b: byte, payload: Bytes, rest: Bytes)
    requires |payload| < 0x100_0000 && |Record(payload) + rest| <= 256 * |payload|
    ensures FirstRecord([b] + (Record(payload) + rest)).None?
  {
    hide Crc32.Crc, Crc32.WordAt, Crc32.WordLe;
    var file, len := [b] + (Record(payload) + rest), U32Le(|payload|);
    assert file[..4] == [b] + len[..3];
    var a := FromLe(len[..3]);
    assert FromLe([b] + len[..3]) == b + 256 * a by { assert ([b] + len[..3])[1..] == len[..3]; }
    LowThree(|payload|);
  }

  lemma LowThree(n: nat)
    requires n < 0x100_0000
    ensures FromLe(ToLe(n, 4)[..3]) == n
  {
    assert ToLe(n, 4) == [n % 256] + ToLe(n / 256, 3);
    assert ToLe(n / 256, 3) == [n / 256 % 256] + ToLe(n / 256 / 256, 2);
    assert ToLe(n / 256 / 256, 2) == [n / 256 / 256 % 256] + ToLe(n / 256 / 256 / 256, 1);
    var x, y, z := n % 256, n / 256 % 256, n / 256 / 256;
    assert z % 256 == z;
    assert ToLe(n, 4)[..3] == [x] + ([y] + ([z] + []));
    FromLeCons(z, []);
    FromLeCons(y, [z] + []);
    FromLeCons(x, [y] + ([z] + []));
  }

  /** Committing the same batch again, as recovery does after a crash between commit and truncation,
      leaves the table as it was exactly when every trade in the batch carries a trade id. */
  lemma RepeatedCommitIsIdleIffAllHaveIds(table: seq<Row>, rows: seq<Row>)
    ensures var once := InsertedRows(table, rows);
            InsertedRows(once, rows) == once <==> forall r :: r in rows ==> r.tradeId.Some?
  {
    var once := InsertedRows(table, rows);
    if forall r :: r in rows ==> r.tradeId.Some? {
      forall r | r in rows ensures HasConflict(once, r) {
        InsertStores(table, rows, r);
        assert StoresAs(r, r);
      }
      AllConflictIsIdle(once, rows);
    } else {
      var r :| r in rows && r.tradeId.None?;
      NullGrows(once, rows, r);
    }
  }

  /** The smallest case: one trade without an id, inserted twice, is there twice. */
  lemma NullIdIsStoredTwice(r: Row)
    requires r.tradeId.None?
    ensures InsertedRows(InsertedRows([], [r]), [r]) == [r, r]
  {
    assert [r][1..] == [];
    assert InsertedRows([r], [r]) == InsertedRows(InsertedRow([r], r), []);
  }

  lemma {:induction false} AllConflictIsIdle(table: seq<Row>, rows: seq<Row>)
    requires forall r :: r in rows ==> HasConflict(table, r)
    ensures InsertedRows(table, rows) == table
    decreases rows
  {
    if rows != [] {
      AllConflictIsIdle(table, rows[1..]);
    }
  }

  lemma {:induction false} InsertGrows(table: seq<Row>, rows: seq<Row>)
    ensures |InsertedRows(table, rows)| >= |table|
    decreases rows
  {
    if rows != [] {
      InsertGrows(InsertedRow(table, rows[0]), rows[1..]);
    }
  }

  lemma {:induction false} NullGrows(table: seq<Row>, rows: seq<Row>, r: Row)
    requires r in rows && r.tradeId.None?
    ensures |InsertedRows(table, rows)| > |table|
    decreases rows
  {
    var next := InsertedRow(table, rows[0]);
    InsertGrows(next, rows[1..]);
    if rows[0] != r {
      NullGrows(next, rows[1..], r);
    }
  }
}
