/** The batching writer (crates/persistence/src/trade_writer.rs:199-340) run from one task: each
    method is a path of the state machine in TradeMachine. */
module TradeWriters {
  import opened Base
  import opened Wal
  import opened TradeCodec
  import opened TradeMachine

  /** The connection pool: an INSERT that reports failure may or may not have committed. */
  class Database {
    var rows: seq<Row>

    constructor (rows: seq<Row>)
      ensures this.rows == rows
    {
      this.rows := rows;
    }

    method Insert(batch: seq<Trade>) returns (ok: bool)
      modifies this
      ensures ok ==> rows == InsertedRows(old(rows), RowsOf(batch))
      ensures !ok ==> rows == old(rows) || rows == InsertedRows(old(rows), RowsOf(batch))
      ensures rows == old(rows) || rows == old(rows) + FirstOfKeys(old(rows), RowsOf(batch))
    {
      hide InsertedRows, FirstOfKeys;
      InsertAppendsFirsts(rows, RowsOf(batch));
      var committed: bool := *;
      var reported: bool := *;
      if committed {
        rows := InsertedRows(rows, RowsOf(batch));
      }
      ok := committed && reported;
    }
  }

  datatype FlushFailure = AtSync | AtInsert(committed: bool) | AtTruncate(emptied: bool)

  function FailedFlush(f: FlushFailure): seq<Event> {
    match f
    case AtSync => [Take] + ([SyncFailed] + [])
    case AtInsert(committed) => [Take] + ([SyncOk] + ([InsertFailed(committed)] + []))
    case AtTruncate(emptied) => [Take] + ([SyncOk] + ([InsertOk] + ([TruncateFailed(emptied)] + [])))
  }

  /** A flush as a path: nothing to do, success, or one of the ways to fail. */
  ghost predicate IsFlush(s: State, s': State, ok: bool) {
    if s.buffer == [] then s' == s && ok
    else if ok then Possible(s, FullFlush()) && s' == After(s, FullFlush())
    else exists f :: Possible(s, FailedFlush(f)) && s' == After(s, FailedFlush(f))
  }

  /** The outcome of a flush that fails, in one step. */
  function FailedOutcome(s: State, f: FlushFailure): State {
    var stored := InsertedRows(s.table, RowsOf(s.buffer));
    match f
    case AtSync => s.(buffer := [])
    case AtInsert(committed) =>
      State(if committed then stored else s.table, s.file, |s.file|, [], s.half, Idle, None)
    case AtTruncate(emptied) =>
      if emptied then State(stored, [], 0, [], s.half, Idle, Some(s.file))
      else State(stored, s.file, |s.file|, [], s.half, Idle, None)
  }

  lemma FullFlushPath(s: State)
    requires s.phase == Idle && s.buffer != []
    ensures Possible(s, FullFlush())
    ensures After(s, FullFlush()) == State(InsertedRows(s.table, RowsOf(s.buffer)), [], 0, [], s.half, Idle, Some(s.file))
  {
    hide RowsOf, RowOf, InsertedRows, NextHistory;
    var s1 := Next(s, Take);
    var s2 := Next(s1, SyncOk);
    var s3 := Next(s2, InsertOk);
    Unfold(s3, BLANK, TruncateOk, []);
    Unfold(s2, BLANK, InsertOk, [TruncateOk] + []);
    Unfold(s1, BLANK, SyncOk, [InsertOk] + ([TruncateOk] + []));
    Unfold(s, BLANK, Take, [SyncOk] + ([InsertOk] + ([TruncateOk] + [])));
  }

  lemma FailedFlushPath(s: State, f: FlushFailure)
    requires s.phase == Idle && s.buffer != []
    ensures Possible(s, FailedFlush(f)) && After(s, FailedFlush(f)) == FailedOutcome(s, f)
  {
    hide RowsOf, RowOf, InsertedRows, NextHistory;
    var s1 := Next(s, Take);
    match f
    case AtSync =>
      Unfold(s1, BLANK, SyncFailed, []);
      Unfold(s, BLANK, Take, [SyncFailed] + []);
    case AtInsert(committed) =>
      var e := InsertFailed(committed);
      var s2 := Next(s1, SyncOk);
      Unfold(s2, BLANK, e, []);
      Unfold(s1, BLANK, SyncOk, [e] + []);
      Unfold(s, BLANK, Take, [SyncOk] + ([e] + []));
    case AtTruncate(emptied) =>
      var e := TruncateFailed(emptied);
      var s2 := Next(s1, SyncOk);
      var s3 := Next(s2, InsertOk);
      Unfold(s3, BLANK, e, []);
      Unfold(s2, BLANK, InsertOk, [e] + []);
      Unfold(s1, BLANK, SyncOk, [InsertOk] + ([e] + []));
      Unfold(s, BLANK, Take, [SyncOk] + ([InsertOk] + ([e] + [])));
  }

  class TradeWriter {
    const db: Database
    const wal: TradeWal
    const batchSize: nat
    var buffer: seq<Trade>

    ghost function View(): State
      reads this, db, wal
    {
      State(db.rows, wal.Contents(), wal.synced, buffer, [], Idle, wal.stale)
    }

    constructor Connect(db: Database, wal: TradeWal, batchSize: nat)
      ensures this.db == db && this.wal == wal && buffer == []
    {
      this.db := db;
      this.wal := wal;
      this.batchSize := batchSize;
      buffer := [];
    }

    /** A refused trade leaves no trace, and one whose append fails leaves a torn record and nothing
        else. Any other is staged, which may be followed by a flush of the full buffer. */
    method Stage(t: Trade) returns (ok: bool)
      requires wal.Valid()
      modifies this`buffer, wal, db
      ensures wal.Valid()
      ensures !Storable(Encoded(t)) ==> !ok && View() == old(View())
      ensures Storable(Encoded(t)) ==>
        || (!ok && exists n: nat :: n < |Record(Encoded(t))|
                      && View() == old(View()).(file := old(View()).file + Record(Encoded(t))[..n]))
        || (var staged := old(View()).(file := old(View()).file + Record(Encoded(t)), buffer := old(buffer) + [t]);
            if |old(buffer)| + 1 < batchSize then ok && View() == staged else IsFlush(staged, View(), ok))
    {
      hide RowsOf, RowOf, InsertedRows, Encoded, Record, IsFlush;
      var encoded := EncodeWal(t);
      var appended;
      ghost var n;
      appended, n := wal.Append(encoded);
      if appended.Failure? {
        return false;
      }
      assert Record(encoded)[..n] == Record(encoded);
      buffer := buffer + [t];
      ok := true;
      if |buffer| >= batchSize {
        ok := Flush();
      }
    }

    method Flush() returns (ok: bool)
      requires wal.Valid()
      modifies this`buffer, wal, db
      ensures wal.Valid()
      ensures IsFlush(old(View()), View(), ok)
    {
      hide RowsOf, RowOf, InsertedRows, After, Possible, FailedFlush;
      var drained := buffer;
      if |drained| == 0 {
        return true;
      }
      ghost var before := View();
      FullFlushPath(before);
      buffer := [];
      ghost var f;
      ok, f := FlushDrained(drained);
      if !ok {
        FailedFlushPath(before, f);
        assert Possible(before, FailedFlush(f)) && View() == After(before, FailedFlush(f));
      }
    }

    /** `f` says where it failed, if it did. */
    method FlushDrained(batch: seq<Trade>) returns (ok: bool, ghost f: FlushFailure)
      requires wal.Valid() && batch != []
      modifies wal, db
      ensures wal.Valid()
      ensures ok ==> db.rows == InsertedRows(old(db.rows), RowsOf(batch))
      ensures ok ==> wal.Contents() == [] && wal.synced == 0 && wal.stale == Some(old(wal.Contents()))
      ensures !ok ==>
        State(db.rows, wal.Contents(), wal.synced, [], [], Idle, wal.stale)
          == FailedOutcome(State(old(db.rows), old(wal.Contents()), old(wal.synced), batch, [], Idle, old(wal.stale)), f)
    {
      hide RowsOf, InsertedRows;
      f := AtSync;
      ok := wal.Sync();
      if !ok {
        return;
      }
      ghost var rows := db.rows;
      ok := db.Insert(batch);
      if !ok {
        f := AtInsert(db.rows != rows);
        return;
      }
      ok := wal.Truncate();
      f := AtTruncate(wal.stale.Some?);
    }

    /** Replayed records that decode join the buffer; the others are only counted elsewhere. If the
        log cannot be read nothing changes. */
    method RecoverFromWal() returns (r: Result<nat, WalError>)
      requires wal.Valid()
      modifies this`buffer, wal
      ensures wal.Valid()
      ensures r.Failure? ==> View() == old(View())
      ensures r.Success? ==>
        && View() == old(View()).(buffer := old(buffer) + Recovered(old(wal.Contents())))
        && r.value == |Recovered(old(wal.Contents()))|
    {
      hide Decoded, Replayed;
      var replayed := wal.Replay();
      if replayed.Failure? {
        return Failure(replayed.error);
      }
      var records := replayed.value;
      var recovered := 0;
      for i := 0 to |records|
        invariant wal.Valid() && wal.Contents() == old(wal.Contents())
        invariant wal.synced == old(wal.synced) && wal.stale == old(wal.stale)
        invariant old(buffer) + DecodedAll(records) == buffer + DecodedAll(records[i..])
        invariant recovered + |DecodedAll(records[i..])| == |DecodedAll(records)|
      {
        var trade := DecodeWal(records[i]);
        DecodedRange(records[i]);
        if trade.Some? {
          buffer := buffer + [trade.value];
          recovered := recovered + 1;
        }
        assert records[i..][1..] == records[i + 1..];
      }
      r := Success(recovered);
    }
  }
}
