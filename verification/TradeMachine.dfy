/** The stage / sync / insert / truncate / recover protocol of crates/persistence/src/trade_writer.rs
    as a state machine whose steps are what happens between two points where other tasks or a
    crash can get in. */
module TradeMachine {
  import opened Base
  import opened Wal
  import opened TradeCodec

  // ----- the table -----

  /** A row of `public.trades`, which keeps microseconds. */
  datatype Row = Row(
    micros: int,
    assetId: i32,
    price: Float,
    amount: i64,
    buyerId: Option<i32>,
    sellerId: Option<i32>,
    aggressorSide: Option<i16>,
    tradeId: Option<Bytes>,
    isDirect: bool)

  /** Every `DateTime<Utc>` is in range. */
  type Trade = t: StagedTrade | t.time.Valid()
    witness StagedTrade(DateTime(0, 0), 0, 0, 0, None, None, None, None, false)

  function RowOf(t: Trade): Row {
    Row(t.time.TimestampMicros(), t.assetId, t.price, t.amount, t.buyerId, t.sellerId, t.aggressorSide,
        t.tradeId, t.isDirect)
  }

  /** Conflict on `(time, asset_id, trade_id)`; a null id conflicts with nothing. */
  predicate Conflicts(r: Row, q: Row) {
    r.tradeId.Some? && r.micros == q.micros && r.assetId == q.assetId && r.tradeId == q.tradeId
  }

  predicate HasConflict(table: seq<Row>, r: Row) {
    exists i :: 0 <= i < |table| && Conflicts(r, table[i])
  }

  /** `INSERT ... ON CONFLICT DO NOTHING`, row by row. */
  function InsertedRow(table: seq<Row>, r: Row): seq<Row> {
    if HasConflict(table, r) then table else table + [r]
  }

  function InsertedRows(table: seq<Row>, rows: seq<Row>): seq<Row>
    decreases rows
  {
    if rows == [] then table else InsertedRows(InsertedRow(table, rows[0]), rows[1..])
  }

  function RowsOf(trades: seq<Trade>): (rows: seq<Row>)
    ensures |rows| == |trades| && forall i :: 0 <= i < |trades| ==> rows[i] == RowOf(trades[i])
  {
    seq(|trades|, i requires 0 <= i < |trades| => RowOf(trades[i]))
  }

  /** The table accounts for `r`: by a row of the same time, asset and trade id if `r` has an id, else
      by `r` itself. */
  ghost predicate Stored(table: seq<Row>, r: Row) {
    if r.tradeId.Some? then
      exists i :: 0 <= i < |table| && table[i].micros == r.micros && table[i].assetId == r.assetId
                  && table[i].tradeId == r.tradeId
    else r in table
  }

  ghost predicate KeysUnique(table: seq<Row>) {
    forall i, j :: 0 <= i < j < |table| && table[i].tradeId.Some? ==>
      table[i].micros != table[j].micros || table[i].assetId != table[j].assetId
      || table[i].tradeId != table[j].tradeId
  }

  // ----- which rows an INSERT adds -----

  /** No earlier row has the time, the asset and the trade id of `r`. */
  ghost predicate NewKey(earlier: seq<Row>, r: Row) {
    r.tradeId.Some? ==>
      forall q :: q in earlier ==> q.micros != r.micros || q.assetId != r.assetId || q.tradeId != r.tradeId
  }

  /** The rows without an id, and of those with one the first of each key. */
  ghost function FirstOfKeys(earlier: seq<Row>, rows: seq<Row>): seq<Row>
    decreases rows
  {
    if rows == [] then []
    else (if NewKey(earlier, rows[0]) then [rows[0]] else []) + FirstOfKeys(earlier + [rows[0]], rows[1..])
  }

  /** A batch insert appends exactly the rows whose key has not come before, in the table or in the batch. */
  lemma InsertAppendsFirsts(table: seq<Row>, rows: seq<Row>)
    ensures InsertedRows(table, rows) == table + FirstOfKeys(table, rows)
  {
    InsertAfter(table, table, rows);
  }

  /** `seen` are the rows that came before, those the table did not take included. */
  lemma {:induction false} InsertAfter(table: seq<Row>, seen: seq<Row>, rows: seq<Row>)
    requires forall r :: NewKey(table, r) <==> NewKey(seen, r)
    ensures InsertedRows(table, rows) == table + FirstOfKeys(seen, rows)
    decreases rows
  {
    hide NewKey, HasConflict;
    if rows == [] {
      assert table + [] == table;
    } else {
      var r := rows[0];
      var next := InsertedRow(table, r);
      ConflictsIffOld(table, r);
      NewKeysAfter(table, seen, r);
      InsertAfter(next, seen + [r], rows[1..]);
      var rest := FirstOfKeys(seen + [r], rows[1..]);
      assert table + [r] + rest == table + ([r] + rest);
      assert table + ([] + rest) == table + rest;
    }
  }

  lemma {:induction false} FirstIsTaken(earlier: seq<Row>, rows: seq<Row>, i: nat)
    requires i < |rows| && NewKey(earlier + rows[..i], rows[i])
    ensures rows[i] in FirstOfKeys(earlier, rows)
    decreases rows
  {
    hide NewKey;
    if i == 0 {
      assert earlier + rows[..0] == earlier;
    } else {
      assert earlier + [rows[0]] + rows[1..][..i - 1] == earlier + rows[..i];
      FirstIsTaken(earlier + [rows[0]], rows[1..], i - 1);
    }
  }

  /** A trade without an id, or the first of its time, asset and id, gets a row with all its columns. */
  lemma NewTradeIsStoredWhole(table: seq<Row>, batch: seq<Trade>, i: nat)
    requires i < |batch|
    requires batch[i].tradeId.Some? ==>
      && (forall q :: q in table ==>
            || q.micros != batch[i].time.second * 1_000_000 + batch[i].time.nanos / 1000
            || q.assetId != batch[i].assetId || q.tradeId != batch[i].tradeId)
      && (forall j :: 0 <= j < i ==>
            || batch[j].time.TimestampMicros() != batch[i].time.TimestampMicros()
            || batch[j].assetId != batch[i].assetId || batch[j].tradeId != batch[i].tradeId)
    ensures var t := batch[i];
            Row(t.time.second * 1_000_000 + t.time.nanos / 1000, t.assetId, t.price, t.amount, t.buyerId, t.sellerId,
                t.aggressorSide, t.tradeId, t.isDirect) in InsertedRows(table, RowsOf(batch))
  {
    hide InsertedRows, FirstOfKeys;
    var rows := RowsOf(batch);
    assert NewKey(table + rows[..i], rows[i]);
    FirstIsTaken(table, rows, i);
    InsertAppendsFirsts(table, rows);
  }

  lemma ConflictsIffOld(table: seq<Row>, r: Row)
    ensures HasConflict(table, r) <==> !NewKey(table, r)
  {
    if HasConflict(table, r) {
      var i :| 0 <= i < |table| && Conflicts(r, table[i]);
      assert table[i] in table;
    }
    if !NewKey(table, r) {
      var q :| q in table && q.micros == r.micros && q.assetId == r.assetId && q.tradeId == r.tradeId;
      var i :| 0 <= i < |table| && table[i] == q;
      assert Conflicts(r, table[i]);
    }
  }

  lemma NewKeyAfter(earlier: seq<Row>, r: Row, x: Row)
    ensures NewKey(earlier + [r], x)
       <==> NewKey(earlier, x)
            && (x.tradeId.Some? ==> r.micros != x.micros || r.assetId != x.assetId || r.tradeId != x.tradeId)
  {
    assert r in earlier + [r];
    assert forall q :: q in earlier ==> q in earlier + [r];
  }

  /** Taking `r` or finding its key in the table leaves the same keys used up. */
  lemma NewKeysAfter(table: seq<Row>, seen: seq<Row>, r: Row)
    requires forall x :: NewKey(table, x) <==> NewKey(seen, x)
    ensures forall x :: NewKey(InsertedRow(table, r), x) <==> NewKey(seen + [r], x)
  {
    hide NewKey, HasConflict;
    ConflictsIffOld(table, r);
    forall x ensures NewKey(InsertedRow(table, r), x) <==> NewKey(seen + [r], x) {
      NewKeyAfter(table, r, x);
      NewKeyAfter(seen, r, x);
      if !NewKey(table, r) { SameKeyAsOld(table, r, x); }
    }
  }

  /** A row whose key is old adds no key. */
  lemma SameKeyAsOld(table: seq<Row>, r: Row, x: Row)
    requires !NewKey(table, r)
    ensures NewKey(table, x) ==> x.tradeId.Some? ==>
      r.micros != x.micros || r.assetId != x.assetId || r.tradeId != x.tradeId
  {}

  lemma {:induction false} InsertStores(table: seq<Row>, rows: seq<Row>, r: Row)
    ensures Stored(InsertedRows(table, rows), r) <==> Stored(table, r) || exists q :: q in rows && StoresAs(q, r)
    ensures forall q :: q in InsertedRows(table, rows) ==> q in table || q in rows
    decreases rows
  {
    if rows != [] {
      var next := InsertedRow(table, rows[0]);
      InsertStores(next, rows[1..], r);
      InsertOneStores(table, rows[0], r);
      assert rows == [rows[0]] + rows[1..];
    }
  }

  /** Inserting `q` is enough to account for `r`. */
  predicate StoresAs(q: Row, r: Row) {
    if r.tradeId.Some? then q.micros == r.micros && q.assetId == r.assetId && q.tradeId == r.tradeId else q == r
  }

  lemma InsertOneStores(table: seq<Row>, q: Row, r: Row)
    ensures Stored(InsertedRow(table, q), r) <==> Stored(table, r) || StoresAs(q, r)
  {
    var next := InsertedRow(table, q);
    if !HasConflict(table, q) {
      assert next[|table|] == q;
      assert forall i :: 0 <= i < |table| ==> next[i] == table[i];
      if HasConflict(next, r) {
        var i :| 0 <= i < |next| && Conflicts(r, next[i]);
        assert i < |table| ==> Conflicts(r, table[i]);
      }
    } else {
      var i :| 0 <= i < |table| && Conflicts(q, table[i]);
      assert Conflicts(r, q) ==> Conflicts(r, table[i]);
    }
  }

  lemma {:induction false} InsertKeepsKeys(table: seq<Row>, rows: seq<Row>)
    requires KeysUnique(table)
    ensures KeysUnique(InsertedRows(table, rows))
    decreases rows
  {
    if rows != [] {
      InsertKeepsKeys(InsertedRow(table, rows[0]), rows[1..]);
    }
  }

  // ----- the log -----

  /** A trade the writer can both log and recover. */
  predicate Loggable(t: Trade) {
    && t.Valid() && Storable(Encoded(t))
    && FromTimestampMicros(t.time.TimestampMicros()).Some?
  }

  /** All trades but those with an id of almost 4 GiB and those within a leap second at the very end of
      time. */
  lemma LoggableIff(t: Trade)
    ensures Loggable(t) <==>
      && (t.tradeId.Some? ==> Utf8(t.tradeId.value))
      && 29 + (if t.buyerId.Some? then 4 else 0) + (if t.sellerId.Some? then 4 else 0)
         + (if t.aggressorSide.Some? then 2 else 0) + (if t.tradeId.Some? then 4 + |t.tradeId.value| else 0)
         < 4_294_967_296
      && (t.time.second < 8_210_266_876_799 || t.time.nanos < 1_000_000_000)
  {
    hide Encoded, Utf8, FromTimestampMicros, FromLe;
    OptionalLayout(t);
    TimeRange(t.time.TimestampMicros());
  }

  ghost predicate AllLoggable(trades: seq<Trade>) {
    forall i :: 0 <= i < |trades| ==> Loggable(trades[i])
  }

  function Payloads(trades: seq<Trade>): (ps: seq<Bytes>)
    ensures |ps| == |trades| && forall i :: 0 <= i < |ps| ==> ps[i] == Encoded(trades[i])
  {
    seq(|trades|, i requires 0 <= i < |trades| => Encoded(trades[i]))
  }

  function LogOf(trades: seq<Trade>): Bytes
    requires AllLoggable(trades)
  {
    Log(Payloads(trades))
  }

  /** `recover_from_wal`: the records that decode, in order. */
  function DecodedAll(payloads: seq<Bytes>): (trades: seq<Trade>)
    ensures forall i :: 0 <= i < |trades| ==> trades[i].Valid()
  {
    if payloads == [] then []
    else
      var rest := DecodedAll(payloads[1..]);
      var first := Decoded(payloads[0]);
      DecodedRange(payloads[0]);
      if first.Some? then [first.value] + rest else rest
  }

  /** A record that does not decode is passed over; those before and after it are not. */
  lemma {:induction false} UndecodableIsSkipped(a: seq<Bytes>, bad: Bytes, b: seq<Bytes>)
    requires Decoded(bad).None?
    ensures DecodedAll(a + [bad] + b) == DecodedAll(a) + DecodedAll(b)
  {
    hide Decoded;
    if a == [] {
      assert a + [bad] + b == [bad] + b && ([bad] + b)[1..] == b;
    } else {
      UndecodableIsSkipped(a[1..], bad, b);
      assert (a + [bad] + b)[1..] == a[1..] + [bad] + b;
    }
  }

  function Recovered(file: Bytes): seq<Trade> {
    DecodedAll(Replayed(file))
  }

  lemma DecodedRow(t: Trade)
    requires Loggable(t)
    ensures Decoded(Encoded(t)).Some? && Decoded(Encoded(t)).value.Valid()
    ensures RowOf(Decoded(Encoded(t)).value) == RowOf(t)
  {
    hide Decoded, Utf8, Header, OptionalI32, OptionalI16, ToLe;
    DecodeOfPrefix(t, [], |Encoded(t)|);
    assert (Encoded(t) + [])[..|Encoded(t)|] == Encoded(t);
    DecodedRange(Encoded(t));
  }

  lemma {:induction false} DecodedAllRows(trades: seq<Trade>)
    requires AllLoggable(trades)
    ensures RowsOf(DecodedAll(Payloads(trades))) == RowsOf(trades)
  {
    hide Decoded, Encoded, Utf8, RowOf;
    if trades != [] {
      DecodedRow(trades[0]);
      DecodedAllRows(trades[1..]);
      assert Payloads(trades)[1..] == Payloads(trades[1..]);
    }
  }

  /** Replaying a log of trades recovers their rows, all of them and in order. */
  lemma RecoveredRows(trades: seq<Trade>)
    requires AllLoggable(trades)
    ensures RowsOf(Recovered(LogOf(trades))) == RowsOf(trades)
    ensures Intact(LogOf(trades))
  {
    hide Replayed, Unread, Decoded, Encoded, Utf8, Log, RowOf;
    ReplayInvertsLog(Payloads(trades));
    DecodedAllRows(trades);
  }

  // ----- states and steps -----

  datatype Phase =
    | Idle
    | Taken(batch: seq<Trade>)
    | Synced(batch: seq<Trade>)
    | Committed
    | Down

  /** `file` is everything appended since the last truncation and `synced` the part of it that no
      crash can take back. Truncating does not sync: until the next sync a crash may bring back `stale`,
      the log as it was. `half` holds trades whose `stage` has appended but not yet pushed. */
  datatype State = State(
    table: seq<Row>,
    file: Bytes,
    synced: nat,
    buffer: seq<Trade>,
    half: seq<Trade>,
    phase: Phase,
    stale: Option<Bytes>)

  const START: State := State([], [], 0, [], [], Idle, None)

  datatype Event =
    | Append(trade: Trade)
    | AppendFailed(trade: Trade, written: nat)
    | Push(at: nat)
    | Take
    | SyncOk
    | SyncFailed
    | InsertOk
    | InsertFailed(committed: bool)
    | TruncateOk
    | TruncateFailed(emptied: bool)
    | Crash(cut: nat)
    | TruncationUndone(cut: nat)
    | Restart

  /** The order the code imposes; the rest is up to the scheduler and the outside world. */
  predicate Enabled(s: State, e: Event) {
    match e
    case Append(t) => !s.phase.Down? && Loggable(t)
    case AppendFailed(t, written) => !s.phase.Down? && Loggable(t) && written < |Record(Encoded(t))|
    case Push(at) => !s.phase.Down? && at < |s.half|
    case Take => s.phase.Idle? && s.buffer != []
    case SyncOk => s.phase.Taken?
    case SyncFailed => s.phase.Taken?
    case InsertOk => s.phase.Synced?
    case InsertFailed(_) => s.phase.Synced?
    case TruncateOk => s.phase.Committed?
    case TruncateFailed(_) => s.phase.Committed?
    case Crash(cut) => s.synced <= cut <= |s.file|
    case TruncationUndone(cut) => s.stale.Some? && cut <= |s.stale.value|
    case Restart => s.phase.Down?
  }

  function Next(s: State, e: Event): State
    requires Enabled(s, e)
  {
    match e
    case Append(t) => s.(file := s.file + Record(Encoded(t)), half := s.half + [t])
    case AppendFailed(t, written) => s.(file := s.file + Record(Encoded(t))[..written])
    case Push(at) => s.(buffer := s.buffer + [s.half[at]], half := s.half[..at] + s.half[at + 1..])
    case Take => s.(buffer := [], phase := Taken(s.buffer))
    case SyncOk => s.(synced := |s.file|, stale := None, phase := Synced(s.phase.batch))
    case SyncFailed => s.(phase := Idle)
    case InsertOk => s.(table := InsertedRows(s.table, RowsOf(s.phase.batch)), phase := Committed)
    case InsertFailed(committed) =>
      s.(table := if committed then InsertedRows(s.table, RowsOf(s.phase.batch)) else s.table, phase := Idle)
    case TruncateOk => s.(file := [], synced := 0, stale := Some(s.file), phase := Idle)
    case TruncateFailed(emptied) =>
      if emptied then s.(file := [], synced := 0, stale := Some(s.file), phase := Idle) else s.(phase := Idle)
    case Crash(cut) => State(s.table, s.file[..cut], s.synced, [], [], Down, s.stale)
    case TruncationUndone(cut) => State(s.table, s.stale.value[..cut], 0, [], [], Down, None)
    case Restart => s.(buffer := Recovered(s.file), phase := Idle)
  }

  // ----- history: what the guarantee is about -----

  /** `records` are the trades logged in the file, the first `durable` of them for good, and `truncated` those
      of the log before an unsynced truncation; `covered` are the rows a completed sync has covered;
      `staged` all rows ever logged; `dropped` says that a batch left memory without a commit since the
      last restart. */
  datatype History = History(
    records: seq<Trade>,
    durable: nat,
    truncated: seq<Trade>,
    covered: seq<Row>,
    staged: seq<Row>,
    dropped: bool)

  const BLANK: History := History([], 0, [], [], [], false)

  /** How many of `trades` a file still replays after a crash. */
  function Kept(file: Bytes, trades: seq<Trade>): (k: nat)
    ensures k <= |trades|
  {
    var n := |Replayed(file)|;
    if n <= |trades| then n else |trades|
  }

  function NextHistory(s: State, h: History, e: Event): History
    requires Enabled(s, e)
  {
    match e
    case Append(t) => h.(records := h.records + [t], staged := h.staged + [RowOf(t)])
    case SyncOk => h.(durable := |h.records|, truncated := [], covered := h.covered + RowsOf(h.records))
    case SyncFailed => h.(dropped := true)
    case InsertFailed(_) => h.(dropped := true)
    case TruncateOk => h.(records := [], durable := 0, truncated := h.records)
    case TruncateFailed(emptied) => if emptied then h.(records := [], durable := 0, truncated := h.records) else h
    case Crash(cut) => h.(records := h.records[..Kept(s.file[..cut], h.records)], dropped := false)
    case TruncationUndone(cut) =>
      h.(records := h.truncated[..Kept(s.stale.value[..cut], h.truncated)], durable := 0, truncated := [],
         dropped := false)
    case _ => h
  }

  /** The working conditions of the protocol: no stage between the moment a flush takes the buffer and
      its truncation, no flush after a batch was dropped until a restart has recovered it, and nothing
      appended behind a torn record, be it a crash or a failed write that tore it. */
  predicate Disciplined(s: State, h: History, e: Event) {
    match e
    case Append(_) => s.phase.Idle? && Intact(s.file)
    case AppendFailed(_, _) => Intact(s.file)
    case Push(_) => s.phase.Idle?
    case Take => s.half == [] && !h.dropped
    case _ => true
  }

  predicate Possible(s: State, events: seq<Event>)
    decreases events
  {
    events != [] ==> Enabled(s, events[0]) && Possible(Next(s, events[0]), events[1..])
  }

  function After(s: State, events: seq<Event>): State
    requires Possible(s, events)
    decreases events
  {
    if events == [] then s else After(Next(s, events[0]), events[1..])
  }

  function HistoryAfter(s: State, h: History, events: seq<Event>): History
    requires Possible(s, events)
    decreases events
  {
    if events == [] then h
    else HistoryAfter(Next(s, events[0]), NextHistory(s, h, events[0]), events[1..])
  }

  predicate DisciplinedRun(s: State, h: History, events: seq<Event>)
    requires Possible(s, events)
    decreases events
  {
    events != [] ==>
      && Disciplined(s, h, events[0])
      && DisciplinedRun(Next(s, events[0]), NextHistory(s, h, events[0]), events[1..])
  }

  // ----- the invariant -----

  /** Some trade of the list is the row `r`. */
  ghost predicate Holds(trades: seq<Trade>, r: Row) {
    exists i :: 0 <= i < |trades| && RowOf(trades[i]) == r
  }

  function BatchOf(phase: Phase): seq<Trade> {
    if phase.Taken? || phase.Synced? then phase.batch else []
  }

  ghost predicate InMemory(s: State, r: Row) {
    Holds(s.buffer, r) || Holds(s.half, r) || Holds(BatchOf(s.phase), r)
  }

  /** `file` is a log of trades, and perhaps a torn record behind it. */
  ghost predicate LogsTo(file: Bytes, trades: seq<Trade>) {
    AllLoggable(trades) && LogOf(trades) <= file && FirstRecord(file[|LogOf(trades)|..]).None?
  }

  ghost predicate LogMatches(s: State, h: History) {
    && LogsTo(s.file, h.records)
    && h.durable <= |h.records| && |LogOf(h.records[..h.durable])| <= s.synced <= |s.file|
  }

  /** What a sync has covered is in the table or in the durable part of the log. */
  ghost predicate CoveredSafe(s: State, h: History)
    requires h.durable <= |h.records|
  {
    forall r :: r in h.covered ==> Stored(s.table, r) || Holds(h.records[..h.durable], r)
  }

  /** A truncation that a crash may still undo has removed only what is in the table. */
  ghost predicate TruncatedSafe(s: State, h: History) {
    s.stale.Some? ==>
      && LogsTo(s.stale.value, h.truncated) && h.durable == 0
      && forall r :: Holds(h.truncated, r) ==> Stored(s.table, r) && r in h.staged
  }

  /** Every logged trade is in the table or in memory, ready for the next flush; once the batch is
      committed they are all in the table. What is in memory has been logged, and a synced batch is
      covered. */
  ghost predicate LoggedSafe(s: State, h: History) {
    && (!s.phase.Idle? ==> s.half == [] && s.buffer == [])
    && (forall r :: InMemory(s, r) ==> Holds(h.records, r))
    && (s.phase.Synced? ==> forall r :: Holds(s.phase.batch, r) ==> r in h.covered)
    && (!s.phase.Idle? ==> !h.dropped)
    && (!s.phase.Down? && !h.dropped ==> forall r :: Holds(h.records, r) ==> Stored(s.table, r) || InMemory(s, r))
  }

  /** Nothing anywhere was invented. */
  ghost predicate OnlyStaged(s: State, h: History) {
    forall r :: r in s.table || Holds(h.records, r) || InMemory(s, r) ==> r in h.staged
  }

  ghost predicate Inv(s: State, h: History) {
    && LogMatches(s, h) && CoveredSafe(s, h) && LoggedSafe(s, h) && TruncatedSafe(s, h) && OnlyStaged(s, h)
    && KeysUnique(s.table)
  }

  // ----- one step at a time -----

  lemma HoldsConcat(a: seq<Trade>, b: seq<Trade>, r: Row)
    ensures Holds(a + b, r) <==> Holds(a, r) || Holds(b, r)
  {
    hide RowOf;
    forall i | 0 <= i < |a| && RowOf(a[i]) == r ensures Holds(a + b, r) { assert (a + b)[i] == a[i]; }
    forall i | 0 <= i < |b| && RowOf(b[i]) == r ensures Holds(a + b, r) { assert (a + b)[|a| + i] == b[i]; }
  }

  lemma HoldsOne(t: Trade, r: Row)
    ensures Holds([t], r) <==> RowOf(t) == r
  {
    hide RowOf;
    assert [t][0] == t;
  }

  lemma NothingHeld(r: Row)
    ensures !Holds([], r)
  {}

  lemma HoldsRows(trades: seq<Trade>, r: Row)
    ensures Holds(trades, r) <==> r in RowsOf(trades)
  {
    hide RowOf;
  }

  lemma LogOfSnoc(trades: seq<Trade>, t: Trade)
    requires AllLoggable(trades) && Loggable(t)
    ensures AllLoggable(trades + [t]) && LogOf(trades + [t]) == LogOf(trades) + Record(Encoded(t))
  {
    hide Log, Record, Encoded, Decoded, Utf8;
    assert Payloads(trades + [t]) == Payloads(trades) + [Encoded(t)];
    LogSnoc(Payloads(trades), Encoded(t));
  }

  /** What is replayed from such a file, and when nothing is torn. */
  lemma LogsToReplays(file: Bytes, trades: seq<Trade>)
    requires LogsTo(file, trades)
    ensures Replayed(file) == Payloads(trades)
    ensures Intact(file) <==> file == LogOf(trades)
  {
    hide Replayed, Unread, FirstRecord, Log, Encoded, Loggable;
    var tail := file[|LogOf(trades)|..];
    LoggableStorable(trades);
    assert file == LogOf(trades) + tail;
    ReplayAfterLog(Payloads(trades), tail);
    NothingRead(tail);
    assert Payloads(trades) + [] == Payloads(trades);
  }

  lemma NothingRead(tail: Bytes)
    requires FirstRecord(tail).None?
    ensures Replayed(tail) == [] && Unread(tail) == tail
  {
    hide FirstRecord;
  }

  lemma WholeLog(trades: seq<Trade>)
    requires AllLoggable(trades)
    ensures LogsTo(LogOf(trades), trades)
  {
    hide LogOf, AllLoggable;
    assert LogOf(trades)[|LogOf(trades)|..] == [];
  }

  lemma AppendKeeps(s: State, h: History, t: Trade)
    requires Inv(s, h) && Enabled(s, Append(t)) && Disciplined(s, h, Append(t))
    ensures Inv(Next(s, Append(t)), NextHistory(s, h, Append(t)))
  {
    hide LogOf, RowOf, Encoded, Record, Stored, KeysUnique, Holds, FirstRecord, Intact, LogsTo;
    LogsToReplays(s.file, h.records);
    LogsToIsLoggable(s.file, h.records);
    AppendLogs(s.file, h.records, t);
    assert (h.records + [t])[..h.durable] == h.records[..h.durable];
    forall r
      ensures Holds(h.records + [t], r) <==> Holds(h.records, r) || RowOf(t) == r
      ensures Holds(s.half + [t], r) <==> Holds(s.half, r) || RowOf(t) == r
    {
      HoldsConcat(h.records, [t], r);
      HoldsConcat(s.half, [t], r);
      HoldsOne(t, r);
    }
  }

  lemma AppendLogs(file: Bytes, trades: seq<Trade>, t: Trade)
    requires AllLoggable(trades) && file == LogOf(trades) && Loggable(t)
    ensures LogsTo(file + Record(Encoded(t)), trades + [t])
    ensures AllLoggable(trades + [t])
  {
    hide LogOf, AllLoggable, Loggable, Record, Encoded, LogsTo;
    LogOfSnoc(trades, t);
    WholeLog(trades + [t]);
  }

  lemma TornAppendLogs(file: Bytes, trades: seq<Trade>, t: Trade, written: nat)
    requires AllLoggable(trades) && file == LogOf(trades) && Loggable(t) && written < |Record(Encoded(t))|
    ensures LogsTo(file + Record(Encoded(t))[..written], trades)
  {
    hide LogOf, AllLoggable, Encoded, FirstRecord;
    TornRecord(Encoded(t), written);
    var torn := Record(Encoded(t))[..written];
    assert (file + torn)[|file|..] == torn;
  }

  lemma AppendFailedKeeps(s: State, h: History, t: Trade, written: nat)
    requires Inv(s, h) && Enabled(s, AppendFailed(t, written)) && Disciplined(s, h, AppendFailed(t, written))
    ensures Inv(Next(s, AppendFailed(t, written)), NextHistory(s, h, AppendFailed(t, written)))
  {
    hide LogOf, RowOf, Encoded, Record, Stored, KeysUnique, Holds, FirstRecord, Intact, LogsTo, Loggable;
    LogsToReplays(s.file, h.records);
    assert AllLoggable(h.records) by { LogsToIsLoggable(s.file, h.records); }
    TornAppendLogs(s.file, h.records, t, written);
    var s', h' := Next(s, AppendFailed(t, written)), NextHistory(s, h, AppendFailed(t, written));
    assert LogMatches(s', h') && CoveredSafe(s', h') && LoggedSafe(s', h') && TruncatedSafe(s', h') && OnlyStaged(s', h');
  }

  lemma LogsToIsLoggable(file: Bytes, trades: seq<Trade>)
    requires LogsTo(file, trades)
    ensures AllLoggable(trades)
  {}

  lemma PushKeeps(s: State, h: History, at: nat)
    requires Inv(s, h) && Enabled(s, Push(at)) && Disciplined(s, h, Push(at))
    ensures Inv(Next(s, Push(at)), NextHistory(s, h, Push(at)))
  {
    hide LogOf, RowOf, Encoded, Record, Stored, KeysUnique, Holds, AllLoggable;
    var t, left := s.half[at], s.half[..at] + s.half[at + 1..];
    assert s.half == s.half[..at] + ([t] + s.half[at + 1..]);
    forall r
      ensures Holds(s.buffer + [t], r) <==> Holds(s.buffer, r) || RowOf(t) == r
      ensures Holds(s.half, r) <==> Holds(left, r) || RowOf(t) == r
    {
      HoldsConcat(s.buffer, [t], r);
      HoldsOne(t, r);
      HoldsConcat(s.half[..at], s.half[at + 1..], r);
      HoldsConcat(s.half[..at], [t] + s.half[at + 1..], r);
      HoldsConcat([t], s.half[at + 1..], r);
    }
  }

  lemma FlushStepKeeps(s: State, h: History, e: Event)
    requires Inv(s, h) && Enabled(s, e) && Disciplined(s, h, e)
    requires e.Take? || e.SyncFailed? || e == TruncateFailed(false)
    ensures Inv(Next(s, e), NextHistory(s, h, e))
  {
    hide LogOf, RowOf, Stored, KeysUnique, AllLoggable, Holds;
    forall r ensures !Holds([], r) { NothingHeld(r); }
    var s', h' := Next(s, e), NextHistory(s, h, e);
    assert LogMatches(s', h') && CoveredSafe(s', h') && LoggedSafe(s', h') && TruncatedSafe(s', h') && OnlyStaged(s', h');
  }

  lemma SyncKeeps(s: State, h: History)
    requires Inv(s, h) && Enabled(s, SyncOk)
    ensures Inv(Next(s, SyncOk), NextHistory(s, h, SyncOk))
  {
    hide LogOf, RowOf, RowsOf, Stored, KeysUnique, AllLoggable, Holds, FirstRecord;
    assert h.records[..|h.records|] == h.records;
    forall r
      ensures r in RowsOf(h.records) <==> Holds(h.records, r)
      ensures Holds(h.records[..h.durable], r) ==> Holds(h.records, r)
    {
      HoldsRows(h.records, r);
      HoldsConcat(h.records[..h.durable], h.records[h.durable..], r);
      assert h.records[..h.durable] + h.records[h.durable..] == h.records;
    }
    var s', h' := Next(s, SyncOk), NextHistory(s, h, SyncOk);
    assert LogMatches(s', h') && CoveredSafe(s', h') && LoggedSafe(s', h') && TruncatedSafe(s', h') && OnlyStaged(s', h');
  }

  /** A committed batch is in the table, and what was there stays. */
  lemma CommitStores(table: seq<Row>, batch: seq<Trade>, r: Row)
    ensures var next := InsertedRows(table, RowsOf(batch));
            && (Stored(table, r) || Holds(batch, r) ==> Stored(next, r))
            && (r in next ==> r in table || Holds(batch, r))
  {
    hide RowOf, InsertedRows, Stored, HasConflict, Holds, KeysUnique;
    InsertStores(table, RowsOf(batch), r);
    HoldsRows(batch, r);
    if Holds(batch, r) {
      StoresItself(r);
    }
  }

  lemma StoresItself(r: Row)
    ensures StoresAs(r, r)
  {}

  lemma InsertKeeps(s: State, h: History, e: Event)
    requires Inv(s, h) && Enabled(s, e) && (e.InsertOk? || e.InsertFailed?)
    ensures Inv(Next(s, e), NextHistory(s, h, e))
  {
    hide LogOf, RowOf, Stored, KeysUnique, AllLoggable, InsertedRows, Holds;
    var batch := s.phase.batch;
    forall r
      ensures var next := InsertedRows(s.table, RowsOf(batch));
              && (Stored(s.table, r) || Holds(batch, r) ==> Stored(next, r))
              && (r in next ==> r in s.table || Holds(batch, r))
    {
      CommitStores(s.table, batch, r);
    }
    InsertKeepsKeys(s.table, RowsOf(batch));
    forall r ensures !Holds([], r) { NothingHeld(r); }
    var s', h' := Next(s, e), NextHistory(s, h, e);
    assert LogMatches(s', h') && CoveredSafe(s', h') && LoggedSafe(s', h') && TruncatedSafe(s', h') && OnlyStaged(s', h');
  }

  lemma EmptyLog()
    ensures AllLoggable([]) && LogOf([]) == []
  {}

  lemma TruncateKeeps(s: State, h: History, e: Event)
    requires Inv(s, h) && Enabled(s, e) && (e.TruncateOk? || e == TruncateFailed(true))
    ensures Inv(Next(s, e), NextHistory(s, h, e))
  {
    hide RowOf, Stored, KeysUnique, LogOf, Holds, LogsTo;
    forall r
      ensures !Holds([], r)
      ensures Holds(h.records[..h.durable], r) ==> Holds(h.records, r)
    {
      NothingHeld(r);
      HoldsConcat(h.records[..h.durable], h.records[h.durable..], r);
      assert h.records[..h.durable] + h.records[h.durable..] == h.records;
    }
    EmptyLog();
    WholeLog([]);
    var s', h' := Next(s, e), NextHistory(s, h, e);
    assert h'.records[..0] == [];
    assert LogMatches(s', h') && CoveredSafe(s', h') && LoggedSafe(s', h') && TruncatedSafe(s', h') && OnlyStaged(s', h');
  }

  lemma PayloadsPrefix(trades: seq<Trade>, k: nat)
    requires k <= |trades|
    ensures Payloads(trades[..k]) == Payloads(trades)[..k]
  {
    hide Encoded;
  }

  /** A crash leaves the log of the first few trades, the durable ones among them, and perhaps a torn
      record behind it. */
  lemma CrashLeavesRecords(file: Bytes, trades: seq<Trade>, durable: nat, cut: nat) returns (k: nat)
    requires LogsTo(file, trades) && durable <= |trades| && |LogOf(trades[..durable])| <= cut <= |file|
    ensures k == Kept(file[..cut], trades) && durable <= k <= |trades|
    ensures LogsTo(file[..cut], trades[..k])
  {
    hide LogOf, FirstRecord, Replayed, Loggable, Payloads;
    var whole := LogOf(trades);
    if cut <= |whole| {
      assert file[..cut] == whole[..cut];
      k := PrefixLeavesRecords(trades, durable, cut);
    } else {
      k := |trades|;
      var tail := file[|whole|..];
      UnreadablePrefix(tail, cut - |whole|);
      assert file[..cut][|whole|..] == tail[..cut - |whole|];
      assert trades[..k] == trades;
      LogsToReplays(file[..cut], trades);
      PayloadsLength(trades);
    }
  }

  lemma PayloadsLength(trades: seq<Trade>)
    ensures |Payloads(trades)| == |trades|
  {}

  lemma PrefixLeavesRecords(trades: seq<Trade>, durable: nat, cut: nat) returns (k: nat)
    requires AllLoggable(trades) && durable <= |trades| && |LogOf(trades[..durable])| <= cut <= |LogOf(trades)|
    ensures k == |Replayed(LogOf(trades)[..cut])| && durable <= k <= |trades|
    ensures LogsTo(LogOf(trades)[..cut], trades[..k])
  {
    hide Log, Encoded, Replayed, Unread, Loggable, Record, FirstRecord;
    var ps := Payloads(trades);
    LoggableStorable(trades);
    k := ReplayOfPrefix(ps, cut);
    var file := LogOf(trades)[..cut];
    ReplaySplitsFile(file);
    PayloadsPrefix(trades, k);
    PayloadsPrefix(trades, durable);
    assert file[|Log(ps[..k])|..] == Unread(file);
    if k < durable {
      LongerOrEqual(ps[..k + 1], ps[..durable]);
    }
  }

  lemma LongerOrEqual(a: seq<Bytes>, b: seq<Bytes>)
    requires AllStorable(a) && AllStorable(b) && a <= b
    ensures |Log(a)| <= |Log(b)|
  {
    hide Log, Record;
    LogConcat(a, b[|a|..]);
    assert a + b[|a|..] == b;
  }

  lemma LoggableStorable(trades: seq<Trade>)
    requires AllLoggable(trades)
    ensures AllStorable(Payloads(trades))
  {
    hide Encoded;
  }

  lemma HoldsPrefix(trades: seq<Trade>, j: nat, k: nat, r: Row)
    requires j <= k <= |trades|
    ensures Holds(trades[..j], r) ==> Holds(trades[..k], r)
    ensures Holds(trades[..k], r) ==> Holds(trades, r)
  {
    hide Holds;
    HoldsConcat(trades[..j], trades[j..k], r);
    assert trades[..j] + trades[j..k] == trades[..k];
    HoldsConcat(trades[..k], trades[k..], r);
    assert trades[..k] + trades[k..] == trades;
  }

  lemma CrashKeeps(s: State, h: History, cut: nat)
    requires Inv(s, h) && Enabled(s, Crash(cut))
    ensures Inv(Next(s, Crash(cut)), NextHistory(s, h, Crash(cut)))
  {
    hide RowOf, Stored, KeysUnique, LogOf, Holds, LogsTo, Kept;
    LogsToIsLoggable(s.file, h.records);
    var k := CrashLeavesRecords(s.file, h.records, h.durable, cut);
    LogsToIsLoggable(s.file[..cut], h.records[..k]);
    assert h.records[..k][..h.durable] == h.records[..h.durable];
    forall r
      ensures !Holds([], r)
      ensures Holds(h.records[..k], r) ==> Holds(h.records, r)
    {
      NothingHeld(r);
      HoldsPrefix(h.records, h.durable, k, r);
    }
    var s', h' := Next(s, Crash(cut)), NextHistory(s, h, Crash(cut));
    assert LogMatches(s', h') && CoveredSafe(s', h') && LoggedSafe(s', h') && TruncatedSafe(s', h') && OnlyStaged(s', h');
  }

  /** A crash that undoes a truncation brings back trades that are all in the table. */
  lemma UndoneKeeps(s: State, h: History, cut: nat)
    requires Inv(s, h) && Enabled(s, TruncationUndone(cut))
    ensures Inv(Next(s, TruncationUndone(cut)), NextHistory(s, h, TruncationUndone(cut)))
  {
    hide RowOf, Stored, KeysUnique, LogOf, Holds, LogsTo, Kept;
    EmptyLog();
    LogsToIsLoggable(s.file, h.records);
    LogsToIsLoggable(s.stale.value, h.truncated);
    assert h.truncated[..0] == [] && h.records[..0] == [];
    var k := CrashLeavesRecords(s.stale.value, h.truncated, 0, cut);
    LogsToIsLoggable(s.stale.value[..cut], h.truncated[..k]);
    assert h.truncated[..k][..0] == [];
    forall r
      ensures !Holds([], r)
      ensures Holds(h.truncated[..k], r) ==> Holds(h.truncated, r)
    {
      NothingHeld(r);
      HoldsPrefix(h.truncated, 0, k, r);
    }
    var s', h' := Next(s, TruncationUndone(cut)), NextHistory(s, h, TruncationUndone(cut));
    assert LogMatches(s', h') && CoveredSafe(s', h') && LoggedSafe(s', h') && TruncatedSafe(s', h') && OnlyStaged(s', h');
  }

  lemma RecoveredHolds(trades: seq<Trade>, file: Bytes, r: Row)
    requires LogsTo(file, trades)
    ensures Holds(Recovered(file), r) <==> Holds(trades, r)
  {
    hide RowOf, Holds, RowsOf, LogsTo, Decoded, Encoded, Replayed;
    LogsToIsLoggable(file, trades);
    LogsToReplays(file, trades);
    DecodedAllRows(trades);
    HoldsRows(Recovered(file), r);
    HoldsRows(trades, r);
  }

  lemma RestartKeeps(s: State, h: History)
    requires Inv(s, h) && Enabled(s, Restart)
    ensures Inv(Next(s, Restart), NextHistory(s, h, Restart))
  {
    hide RowOf, Stored, KeysUnique, LogOf, Holds, AllLoggable, Recovered, RowsOf;
    forall r
      ensures !Holds([], r)
      ensures Holds(Recovered(s.file), r) <==> Holds(h.records, r)
    {
      NothingHeld(r);
      RecoveredHolds(h.records, s.file, r);
    }
    var s', h' := Next(s, Restart), NextHistory(s, h, Restart);
    assert LogMatches(s', h') && CoveredSafe(s', h') && LoggedSafe(s', h') && TruncatedSafe(s', h') && OnlyStaged(s', h');
  }

  lemma StepKeeps(s: State, h: History, e: Event)
    requires Inv(s, h) && Enabled(s, e) && Disciplined(s, h, e)
    ensures Inv(Next(s, e), NextHistory(s, h, e))
  {
    hide Inv, Next, NextHistory;
    match e
    case Append(t) => AppendKeeps(s, h, t);
    case AppendFailed(t, written) => AppendFailedKeeps(s, h, t, written);
    case Push(at) => PushKeeps(s, h, at);
    case Take => FlushStepKeeps(s, h, e);
    case SyncOk => SyncKeeps(s, h);
    case SyncFailed => FlushStepKeeps(s, h, e);
    case InsertOk => InsertKeeps(s, h, e);
    case InsertFailed(_) => InsertKeeps(s, h, e);
    case TruncateOk => TruncateKeeps(s, h, e);
    case TruncateFailed(emptied) => if emptied { TruncateKeeps(s, h, e); } else { FlushStepKeeps(s, h, e); }
    case Crash(cut) => CrashKeeps(s, h, cut);
    case TruncationUndone(cut) => UndoneKeeps(s, h, cut);
    case Restart => RestartKeeps(s, h);
  }

  // ----- runs -----

  lemma {:induction false} RunKeeps(s: State, h: History, events: seq<Event>)
    requires Inv(s, h) && Possible(s, events) && DisciplinedRun(s, h, events)
    ensures Inv(After(s, events), HistoryAfter(s, h, events))
    decreases events
  {
    hide Inv, Next, NextHistory, Enabled, Disciplined;
    if events != [] {
      StepKeeps(s, h, events[0]);
      RunKeeps(Next(s, events[0]), NextHistory(s, h, events[0]), events[1..]);
    }
  }

  lemma StartHolds()
    ensures Inv(START, BLANK)
  {}

  /** No trade is lost: whenever a crash `e` cuts a disciplined run short, wherever it cuts the file and
      whether or not it undoes the last truncation, every row a sync has covered is in the table or in
      what recovery will read back. */
  lemma CoveredRowsSurvive(events: seq<Event>, e: Event)
    requires Possible(START, events) && DisciplinedRun(START, BLANK, events)
    requires (e.Crash? || e.TruncationUndone?) && Enabled(After(START, events), e)
    ensures forall r :: r in HistoryAfter(START, BLANK, events).covered ==>
      Stored(After(START, events).table, r) || Holds(Recovered(Next(After(START, events), e).file), r)
  {
    hide Inv, Stored, Holds, Recovered, Next, NextHistory, After, HistoryAfter, Possible, DisciplinedRun, Enabled;
    StartHolds();
    RunKeeps(START, BLANK, events);
    CrashRecovers(After(START, events), HistoryAfter(START, BLANK, events), e);
  }

  lemma CrashRecovers(s: State, h: History, e: Event)
    requires Inv(s, h) && (e.Crash? || e.TruncationUndone?) && Enabled(s, e)
    ensures forall r :: r in h.covered ==> Stored(s.table, r) || Holds(Recovered(Next(s, e).file), r)
  {
    hide LogOf, Stored, Holds, Recovered, KeysUnique, LogsTo, OnlyStaged, LoggedSafe;
    StepKeeps(s, h, e);
    var s', h' := Next(s, e), NextHistory(s, h, e);
    LogsToIsLoggable(s'.file, h'.records);
    forall r ensures Holds(h'.records[..h'.durable], r) ==> Holds(Recovered(s'.file), r) {
      RecoveredHolds(h'.records, s'.file, r);
      HoldsPrefix(h'.records, h'.durable, |h'.records|, r);
    }
  }

  // ----- what a sync covers -----

  /** Neither a crash nor a truncation, failed halfway or not. */
  predicate KeepsRecords(e: Event) {
    !e.Crash? && !e.TruncationUndone? && !e.TruncateOk? && e != TruncateFailed(true)
  }

  lemma StepKeepsCovered(s: State, h: History, e: Event)
    requires Enabled(s, e)
    ensures forall r :: r in h.covered ==> r in NextHistory(s, h, e).covered
    ensures KeepsRecords(e) ==> forall t :: t in h.records ==> t in NextHistory(s, h, e).records
    ensures e.SyncOk? ==> forall t :: t in h.records ==> RowOf(t) in NextHistory(s, h, e).covered
    ensures e.Append? ==> e.trade in NextHistory(s, h, e).records
  {
    hide RowOf, Kept;
    if e.SyncOk? {
      forall t | t in h.records ensures RowOf(t) in RowsOf(h.records) {
        var i :| 0 <= i < |h.records| && h.records[i] == t;
        assert RowsOf(h.records)[i] == RowOf(t);
      }
    }
  }

  lemma {:induction false} RunKeepsCovered(s: State, h: History, events: seq<Event>, r: Row)
    requires Possible(s, events) && r in h.covered
    ensures r in HistoryAfter(s, h, events).covered
    decreases events
  {
    hide Enabled, Next, NextHistory;
    if events != [] {
      StepKeepsCovered(s, h, events[0]);
      RunKeepsCovered(Next(s, events[0]), NextHistory(s, h, events[0]), events[1..], r);
    }
  }

  lemma {:induction false} SyncCoversRecord(s: State, h: History, t: Trade, between: seq<Event>, rest: seq<Event>)
    requires Possible(s, between + ([SyncOk] + rest)) && t in h.records
    requires forall i :: 0 <= i < |between| ==> KeepsRecords(between[i])
    ensures RowOf(t) in HistoryAfter(s, h, between + ([SyncOk] + rest)).covered
    decreases between
  {
    hide Enabled, Next, NextHistory, RowOf, KeepsRecords;
    var events := between + ([SyncOk] + rest);
    StepKeepsCovered(s, h, events[0]);
    if between == [] {
      assert events[0] == SyncOk;
      RunKeepsCovered(Next(s, SyncOk), NextHistory(s, h, SyncOk), events[1..], RowOf(t));
    } else {
      assert events[1..] == between[1..] + ([SyncOk] + rest);
      SyncCoversRecord(Next(s, between[0]), NextHistory(s, h, between[0]), t, between[1..], rest);
    }
  }

  /** A trade that was appended is covered by the next sync, unless a crash or a truncation comes between
      them, and stays covered for ever after. */
  lemma SyncCovers(s: State, h: History, t: Trade, between: seq<Event>, rest: seq<Event>)
    requires Possible(s, [Append(t)] + (between + ([SyncOk] + rest)))
    requires forall i :: 0 <= i < |between| ==> KeepsRecords(between[i])
    ensures RowOf(t) in HistoryAfter(s, h, [Append(t)] + (between + ([SyncOk] + rest))).covered
  {
    hide Enabled, Next, NextHistory, RowOf, KeepsRecords;
    var events := [Append(t)] + (between + ([SyncOk] + rest));
    assert events[1..] == between + ([SyncOk] + rest);
    StepKeepsCovered(s, h, Append(t));
    SyncCoversRecord(Next(s, Append(t)), NextHistory(s, h, Append(t)), t, between, rest);
  }

  function FullFlush(): seq<Event> {
    [Take] + ([SyncOk] + ([InsertOk] + ([TruncateOk] + [])))
  }

  function RecoverAndFlush(): seq<Event> {
    [Restart] + FullFlush()
  }

  /** How many rows have the time, the asset and the trade id of `r`. */
  function RowCount(table: seq<Row>, r: Row): nat {
    if table == [] then 0
    else
      var last := table[|table| - 1];
      (if last.micros == r.micros && last.assetId == r.assetId && last.tradeId == r.tradeId then 1 else 0)
      + RowCount(table[..|table| - 1], r)
  }

  lemma {:induction false} CountIsOne(table: seq<Row>, r: Row)
    requires KeysUnique(table) && r.tradeId.Some?
    ensures RowCount(table, r) == if Stored(table, r) then 1 else 0
  {
    if table != [] {
      var front, last := table[..|table| - 1], table[|table| - 1];
      CountIsOne(front, r);
      assert table == front + [last] && last == table[|front|];
      assert forall i :: 0 <= i < |front| ==> front[i] == table[i];
    }
  }

  /** And once that restart's recovery has been flushed, the table holds every covered row, a row
      with a trade id exactly once, and only rows that were staged. */
  lemma RecoveryCompletes(events: seq<Event>)
    requires Possible(START, events) && DisciplinedRun(START, BLANK, events)
    requires After(START, events).phase.Down? && Recovered(After(START, events).file) != []
    ensures Possible(After(START, events), RecoverAndFlush())
    ensures var s := After(After(START, events), RecoverAndFlush());
            var h := HistoryAfter(START, BLANK, events);
            && s.file == [] && s.phase == Idle
            && (forall r :: r in h.covered ==> Stored(s.table, r))
            && (forall r :: r in h.covered && r.tradeId.Some? ==> RowCount(s.table, r) == 1)
            && (forall r :: r in s.table ==> r in h.staged)
  {
    StartHolds();
    RunKeeps(START, BLANK, events);
    FlushAfterRestart(After(START, events), HistoryAfter(START, BLANK, events));
  }

  lemma FlushAfterRestart(s: State, h: History)
    requires Inv(s, h) && s.phase.Down? && Recovered(s.file) != []
    ensures Possible(s, RecoverAndFlush())
    ensures var s' := After(s, RecoverAndFlush());
            && s'.file == [] && s'.phase == Idle
            && (forall r :: r in h.covered ==> Stored(s'.table, r))
            && (forall r :: r in h.covered && r.tradeId.Some? ==> RowCount(s'.table, r) == 1)
            && (forall r :: r in s'.table ==> r in h.staged)
  {
    hide LogOf, AllLoggable, Recovered, RowsOf, RowOf, InsertedRows, RecoverAndFlush, After, Possible;
    var s1 := Next(s, Restart);   var h1 := NextHistory(s, h, Restart);    StepKeeps(s, h, Restart);
    var s2 := Next(s1, Take);     var h2 := NextHistory(s1, h1, Take);     StepKeeps(s1, h1, Take);
    var s3 := Next(s2, SyncOk);   var h3 := NextHistory(s2, h2, SyncOk);   StepKeeps(s2, h2, SyncOk);
    var s4 := Next(s3, InsertOk); var h4 := NextHistory(s3, h3, InsertOk); StepKeeps(s3, h3, InsertOk);
    var s5 := Next(s4, TruncateOk); var h5 := NextHistory(s4, h4, TruncateOk); StepKeeps(s4, h4, TruncateOk);
    FiveSteps(s);
    EmptyLogStores(s5, h5);
  }

  lemma Unfold(s: State, h: History, e: Event, rest: seq<Event>)
    requires Enabled(s, e) && Possible(Next(s, e), rest)
    ensures Possible(s, [e] + rest) && After(s, [e] + rest) == After(Next(s, e), rest)
    ensures HistoryAfter(s, h, [e] + rest) == HistoryAfter(Next(s, e), NextHistory(s, h, e), rest)
  {
    hide Enabled, Next, NextHistory;
    assert ([e] + rest)[1..] == rest;
  }

  lemma UnfoldDisciplined(s: State, h: History, e: Event, rest: seq<Event>)
    requires Enabled(s, e) && Disciplined(s, h, e) && Possible(Next(s, e), rest)
    requires DisciplinedRun(Next(s, e), NextHistory(s, h, e), rest)
    ensures Possible(s, [e] + rest) && DisciplinedRun(s, h, [e] + rest)
  {
    hide Enabled, Disciplined, Next, NextHistory;
    assert ([e] + rest)[1..] == rest;
  }

  function StagedAndSynced(t: Trade): seq<Event> {
    [Append(t)] + ([Push(0)] + ([Take] + ([SyncOk] + [])))
  }

  /** Such runs exist for every trade that can be logged: staged and synced, it is covered, still in
      flight, and not yet in the table. */
  lemma EveryTradeCanBeCovered(t: Trade)
    requires Loggable(t)
    ensures Possible(START, StagedAndSynced(t)) && DisciplinedRun(START, BLANK, StagedAndSynced(t))
    ensures var s, h := After(START, StagedAndSynced(t)), HistoryAfter(START, BLANK, StagedAndSynced(t));
            && s.phase == Synced([t]) && s.table == [] && s.buffer == [] && s.half == []
            && h.covered == [RowOf(t)] && s.synced == |s.file|
  {
    hide Loggable, Encoded, Record, RowOf;
    var e1, e2 := Append(t), Push(0);
    var s1 := Next(START, e1); var h1 := NextHistory(START, BLANK, e1);
    var s2 := Next(s1, e2);    var h2 := NextHistory(s1, h1, e2);
    var s3 := Next(s2, Take);  var h3 := NextHistory(s2, h2, Take);
    Unfold(s3, h3, SyncOk, []);
    UnfoldDisciplined(s3, h3, SyncOk, []);
    Unfold(s2, h2, Take, [SyncOk] + []);
    UnfoldDisciplined(s2, h2, Take, [SyncOk] + []);
    Unfold(s1, h1, e2, [Take] + ([SyncOk] + []));
    UnfoldDisciplined(s1, h1, e2, [Take] + ([SyncOk] + []));
    Unfold(START, BLANK, e1, [e2] + ([Take] + ([SyncOk] + [])));
    UnfoldDisciplined(START, BLANK, e1, [e2] + ([Take] + ([SyncOk] + [])));
    assert RowsOf([] + [t]) == [RowOf(t)];
  }

  function StagedAndFlushed(t: Trade): seq<Event> {
    [Append(t)] + ([Push(0)] + FullFlush())
  }

  /** Nothing staged, nothing in flight, nothing dropped. */
  predicate Quiet(s: State, h: History) {
    s.file == [] && s.buffer == [] && s.half == [] && s.phase == Idle && !h.dropped
  }

  /** The first two steps of the cycle. */
  lemma StageOne(s: State, h: History, t: Trade) returns (s': State, h': History)
    requires Quiet(s, h) && Loggable(t)
    ensures Enabled(s, Append(t)) && Disciplined(s, h, Append(t))
    ensures var s1, h1 := Next(s, Append(t)), NextHistory(s, h, Append(t));
            && Enabled(s1, Push(0)) && Disciplined(s1, h1, Push(0))
            && s' == Next(s1, Push(0)) && h' == NextHistory(s1, h1, Push(0))
    ensures s'.table == s.table && s'.buffer == [t] && s'.half == [] && s'.phase == Idle && !h'.dropped
  {
    hide Loggable, Encoded, Record, RowOf, Replayed;
    s' := Next(Next(s, Append(t)), Push(0));
    h' := NextHistory(Next(s, Append(t)), NextHistory(s, h, Append(t)), Push(0));
    assert [] + [t] == [t];
  }

  lemma FlushSteps(s: State, h: History)
    requires s.half == [] && s.buffer != [] && s.phase == Idle && !h.dropped
    ensures Enabled(s, Take) && Disciplined(s, h, Take)
    ensures var s1, h1 := Next(s, Take), NextHistory(s, h, Take);
            && Enabled(s1, SyncOk) && Disciplined(s1, h1, SyncOk)
            && var s2, h2 := Next(s1, SyncOk), NextHistory(s1, h1, SyncOk);
               && Enabled(s2, InsertOk) && Disciplined(s2, h2, InsertOk)
               && var s3, h3 := Next(s2, InsertOk), NextHistory(s2, h2, InsertOk);
                  && Enabled(s3, TruncateOk) && Disciplined(s3, h3, TruncateOk)
                  && Next(s3, TruncateOk).table == InsertedRows(s.table, RowsOf(s.buffer))
                  && Quiet(Next(s3, TruncateOk), NextHistory(s3, h3, TruncateOk))
  {
    hide RowOf, RowsOf, InsertedRows;
  }

  lemma FlushRuns(s: State, h: History)
    requires s.half == [] && s.buffer != [] && s.phase == Idle && !h.dropped
    ensures Possible(s, FullFlush()) && DisciplinedRun(s, h, FullFlush())
    ensures Quiet(After(s, FullFlush()), HistoryAfter(s, h, FullFlush()))
    ensures After(s, FullFlush()).table == InsertedRows(s.table, RowsOf(s.buffer))
  {
    FlushSteps(s, h);
    hide Enabled, Disciplined, Next, NextHistory, Possible, After, HistoryAfter, DisciplinedRun, InsertedRows, RowsOf,
         Quiet;
    var s1, h1 := Next(s, Take), NextHistory(s, h, Take);
    var s2, h2 := Next(s1, SyncOk), NextHistory(s1, h1, SyncOk);
    var s3, h3 := Next(s2, InsertOk), NextHistory(s2, h2, InsertOk);
    NothingFurther(Next(s3, TruncateOk), NextHistory(s3, h3, TruncateOk));
    Unfold(s3, h3, TruncateOk, []);
    UnfoldDisciplined(s3, h3, TruncateOk, []);
    Unfold(s2, h2, InsertOk, [TruncateOk] + []);
    UnfoldDisciplined(s2, h2, InsertOk, [TruncateOk] + []);
    Unfold(s1, h1, SyncOk, [InsertOk] + ([TruncateOk] + []));
    UnfoldDisciplined(s1, h1, SyncOk, [InsertOk] + ([TruncateOk] + []));
    Unfold(s, h, Take, [SyncOk] + ([InsertOk] + ([TruncateOk] + [])));
    UnfoldDisciplined(s, h, Take, [SyncOk] + ([InsertOk] + ([TruncateOk] + [])));
  }

  lemma NothingFurther(s: State, h: History)
    ensures Possible(s, []) && After(s, []) == s && HistoryAfter(s, h, []) == h && DisciplinedRun(s, h, [])
  {}

  /** And they go on for ever: from any quiet state one more trade can be staged and flushed, after which
      the state is quiet again and the table has been offered its row. */
  lemma ACycleStores(s: State, h: History, t: Trade)
    requires Quiet(s, h) && Loggable(t)
    ensures Possible(s, StagedAndFlushed(t)) && DisciplinedRun(s, h, StagedAndFlushed(t))
    ensures Quiet(After(s, StagedAndFlushed(t)), HistoryAfter(s, h, StagedAndFlushed(t)))
    ensures After(s, StagedAndFlushed(t)).table == s.table + FirstOfKeys(s.table, [RowOf(t)])
  {
    hide Enabled, Disciplined, Next, NextHistory, Possible, After, HistoryAfter, DisciplinedRun, Loggable, RowOf,
         InsertedRows, FirstOfKeys, Quiet, FullFlush;
    var s2, h2 := StageOne(s, h, t);
    var s1, h1 := Next(s, Append(t)), NextHistory(s, h, Append(t));
    FlushRuns(s2, h2);
    Unfold(s1, h1, Push(0), FullFlush());
    UnfoldDisciplined(s1, h1, Push(0), FullFlush());
    Unfold(s, h, Append(t), [Push(0)] + FullFlush());
    UnfoldDisciplined(s, h, Append(t), [Push(0)] + FullFlush());
    InsertAppendsFirsts(s.table, RowsOf([t]));
    assert RowsOf([t]) == [RowOf(t)];
  }

  lemma OneStep(s: State, e: Event)
    requires Enabled(s, e)
    ensures Possible(s, [e]) && After(s, [e]) == Next(s, e)
  {
    hide Enabled, Next, NextHistory, HistoryAfter;
    NoSteps(Next(s, e));
    Unfold(s, BLANK, e, []);
    assert [e] == [e] + [];
  }

  /** What a crash may do: cut the file anywhere behind its synced part, or bring back any prefix of the
      log before the last truncation; a failed write may leave any strict prefix of its record. */
  lemma CrashesAreArbitrary(s: State, t: Trade, n: nat)
    ensures s.synced <= n <= |s.file| ==>
      Possible(s, [Crash(n)])
      && After(s, [Crash(n)]) == State(s.table, s.file[..n], s.synced, [], [], Down, s.stale)
    ensures s.stale.Some? && n <= |s.stale.value| ==>
      Possible(s, [TruncationUndone(n)])
      && After(s, [TruncationUndone(n)]) == State(s.table, s.stale.value[..n], 0, [], [], Down, None)
    ensures s.phase.Idle? && Loggable(t) && n < |Record(Encoded(t))| ==>
      Possible(s, [AppendFailed(t, n)])
      && After(s, [AppendFailed(t, n)]) == s.(file := s.file + Record(Encoded(t))[..n])
  {
    hide Loggable, Encoded, Record, Possible, After;
    if Enabled(s, Crash(n)) { OneStep(s, Crash(n)); }
    if Enabled(s, TruncationUndone(n)) { OneStep(s, TruncationUndone(n)); }
    if Enabled(s, AppendFailed(t, n)) { OneStep(s, AppendFailed(t, n)); }
  }

  lemma NoSteps(s: State)
    ensures Possible(s, []) && After(s, []) == s
  {}

  lemma FiveEnabled(s: State)
    requires s.phase.Down? && Recovered(s.file) != []
    ensures Enabled(s, Restart)
    ensures Enabled(Next(s, Restart), Take)
    ensures Enabled(Next(Next(s, Restart), Take), SyncOk)
    ensures Enabled(Next(Next(Next(s, Restart), Take), SyncOk), InsertOk)
    ensures Enabled(Next(Next(Next(Next(s, Restart), Take), SyncOk), InsertOk), TruncateOk)
  {
    hide Recovered, RowsOf, InsertedRows;
  }

  lemma FiveSteps(s: State)
    requires s.phase.Down? && Recovered(s.file) != []
    ensures Possible(s, RecoverAndFlush())
    ensures After(s, RecoverAndFlush())
         == Next(Next(Next(Next(Next(s, Restart), Take), SyncOk), InsertOk), TruncateOk)
  {
    FiveEnabled(s);
    hide Enabled, Next, NextHistory, After, Possible, HistoryAfter, Recovered;
    var s1 := Next(s, Restart);
    var s2 := Next(s1, Take);
    var s3 := Next(s2, SyncOk);
    var s4 := Next(s3, InsertOk);
    var s5 := Next(s4, TruncateOk);
    NoSteps(s5);
    Unfold(s4, BLANK, TruncateOk, []);
    Unfold(s3, BLANK, InsertOk, [TruncateOk] + []);
    Unfold(s2, BLANK, SyncOk, [InsertOk] + ([TruncateOk] + []));
    Unfold(s1, BLANK, Take, [SyncOk] + ([InsertOk] + ([TruncateOk] + [])));
    Unfold(s, BLANK, Restart, [Take] + ([SyncOk] + ([InsertOk] + ([TruncateOk] + []))));
  }

  lemma EmptyLogStores(s: State, h: History)
    requires Inv(s, h) && h.records == []
    ensures forall r :: r in h.covered ==> Stored(s.table, r)
    ensures forall r :: r in h.covered && r.tradeId.Some? ==> RowCount(s.table, r) == 1
    ensures forall r :: r in s.table ==> r in h.staged
  {
    hide LogOf, AllLoggable, RowOf;
    forall r | r in h.covered && r.tradeId.Some? ensures RowCount(s.table, r) == 1 {
      CountIsOne(s.table, r);
    }
  }

  /** With nothing to recover there is nothing to flush: the table is already complete. */
  lemma NothingToRecover(events: seq<Event>, s: State, h: History)
    requires Possible(START, events) && DisciplinedRun(START, BLANK, events)
    requires s == After(START, events) && h == HistoryAfter(START, BLANK, events)
    requires s.phase.Down? && Recovered(s.file) == []
    ensures forall r :: r in h.covered ==> Stored(s.table, r)
    ensures forall r :: r in h.covered && r.tradeId.Some? ==> RowCount(s.table, r) == 1
    ensures forall r :: r in s.table ==> r in h.staged
  {
    hide LogOf, Stored, AllLoggable, Recovered, KeysUnique, RowOf, Holds, LogsTo;
    StartHolds();
    RunKeeps(START, BLANK, events);
    forall r ensures !Holds(h.records, r) {
      RecoveredHolds(h.records, s.file, r);
      NothingHeld(r);
    }
    NoneHeld(h.records);
    EmptyLogStores(s, h);
  }

  lemma NoneHeld(trades: seq<Trade>)
    requires forall r :: !Holds(trades, r)
    ensures trades == []
  {
    hide RowOf, Holds;
    if trades != [] {
      FirstIsHeld(trades);
    }
  }

  lemma FirstIsHeld(trades: seq<Trade>)
    requires trades != []
    ensures Holds(trades, RowOf(trades[0]))
  {
    hide RowOf;
  }
}
