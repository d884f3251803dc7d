/** The append-only trade log (crates/persistence/src/wal.rs): its record format, the replay loop
    that survives torn tails and bit rot, and the buffered writer in front of the file. */
module Wal {
  import opened Base
  import opened Crc32

  // ----- the record format (wal.rs:8-14) -----

  predicate Storable(payload: Bytes) {
    |payload| < U32_LIMIT
  }

  ghost predicate AllStorable(payloads: seq<Bytes>) {
    forall i :: 0 <= i < |payloads| ==> Storable(payloads[i])
  }

  function Checksum(payload: Bytes): (c: Bytes)
    requires Storable(payload)
    ensures |c| == 4
  {
    WordLe(Crc(U32Le(|payload|) + payload))
  }

  function Record(payload: Bytes): (r: Bytes)
    requires Storable(payload)
    ensures |r| == |payload| + 8
  {
    U32Le(|payload|) + payload + Checksum(payload)
  }

  /** The length comes first, least significant byte first, then the payload; every length that four
      bytes can hold is stored. */
  lemma RecordLayout(payload: Bytes)
    ensures Storable(payload) <==> |payload| < 4_294_967_296
    ensures Storable(payload) ==>
      var r := Record(payload);
      && r[0] + 256 * (r[1] as int) + 65_536 * (r[2] as int) + 16_777_216 * (r[3] as int) == |payload|
      && r[4..4 + |payload|] == payload
  {
    hide Crc, WordLe, ToLe, FromLe;
    if Storable(payload) {
      U32RoundTrip(|payload|);
      PlaceValues(U32Le(|payload|));
      assert Record(payload)[..4] == U32Le(|payload|);
    }
  }

  lemma ChecksumBytes()
    ensures WordLe(0xFA99_AFAB) == [0xAB, 0xAF, 0x99, 0xFA]
  {}

  lemma LengthOfOne()
    ensures U32Le(1) == [1, 0, 0, 0]
  {
    assert ToLe(1, 4) == [1] + ToLe(0, 3) && ToLe(0, 3) == [0] + ToLe(0, 2) && ToLe(0, 2) == [0] + ToLe(0, 1);
  }

  /** The record of the payload `A`, byte by byte. */
  lemma KnownRecord()
    ensures Record([65]) == [1, 0, 0, 0, 65, 0xAB, 0xAF, 0x99, 0xFA]
  {
    hide Crc, WordLe, U32Le;
    KnownChecksum();
    ChecksumBytes();
    LengthOfOne();
    assert [1, 0, 0, 0] + [65] == [1, 0, 0, 0, 65];
  }

  /** The file that results from appending `payloads` in order. */
  function Log(payloads: seq<Bytes>): Bytes
    requires AllStorable(payloads)
  {
    if payloads == [] then [] else Record(payloads[0]) + Log(payloads[1..])
  }

  // ----- replay -----

  /** The first record of `buf`, if it is complete and its checksum matches. */
  function FirstRecord(buf: Bytes): (r: Option<Bytes>)
    ensures r.Some? ==> |r.value| + 8 <= |buf|
  {
    if |buf| < 4 then None
    else
      var len := U32At(buf[..4]);
      if 4 + len + 4 > |buf| then None
      else
        var payload := buf[4..4 + len];
        if WordAt(buf[4 + len..4 + len + 4]) == Crc(U32Le(len) + payload) then Some(payload) else None
  }

  function Replayed(buf: Bytes): seq<Bytes> {
    match FirstRecord(buf)
    case None => []
    case Some(payload) => [payload] + Replayed(buf[|payload| + 8..])
  }

  /** What replay leaves unread. */
  function Unread(buf: Bytes): (t: Bytes)
    ensures |t| <= |buf|
  {
    match FirstRecord(buf)
    case None => buf
    case Some(payload) => Unread(buf[|payload| + 8..])
  }

  /** A log that is an exact sequence of records. */
  predicate Intact(buf: Bytes) {
    Unread(buf) == []
  }

  /** The loop of `replay` over the bytes of the file (wal.rs:117-138). */
  method ReplayBytes(buf: Bytes) returns (out: seq<Bytes>)
    ensures out == Replayed(buf)
  {
    hide Crc, WordAt, WordLe, ToLe, FromLe;
    out := [];
    var pos := 0;
    while pos + 4 <= |buf|
      invariant pos <= |buf|
      invariant Replayed(buf) == out + Replayed(buf[pos..])
    {
      ghost var rest := buf[pos..];
      assert buf[pos..pos + 4] == rest[..4];
      var len: u32 := U32At(buf[pos..pos + 4]);
      pos := pos + 4;
      if pos + len + 4 > |buf| {
        return;
      }
      var payload := buf[pos..pos + len];
      assert payload == rest[4..4 + len];
      assert buf[pos + len..pos + len + 4] == rest[4 + len..4 + len + 4];
      var storedCrc := WordAt(buf[pos + len..pos + len + 4]);
      var expected := ComputeCrc32(len, payload);
      if storedCrc != expected {
        return;
      }
      out := out + [payload];
      pos := pos + len + 4;
      assert rest[|payload| + 8..] == buf[pos..];
    }
  }

  // ----- round trip, torn tails, corruption -----

  lemma FirstOfRecord(payload: Bytes, rest: Bytes)
    requires Storable(payload)
    ensures FirstRecord(Record(payload) + rest) == Some(payload)
    ensures (Record(payload) + rest)[|payload| + 8..] == rest
  {
    hide Crc, WordAt, WordLe, ToLe, FromLe;
    var buf, len := Record(payload) + rest, |payload|;
    assert buf[..4] == U32Le(len);
    U32RoundTrip(len);
    assert buf[4..4 + len] == payload;
    assert buf[4 + len..4 + len + 4] == Checksum(payload);
    WordRoundTrip(Crc(U32Le(len) + payload));
  }

  /** The converse: a record is only ever read off its own exact bytes. */
  lemma FirstIsRecord(buf: Bytes)
    requires FirstRecord(buf).Some?
    ensures var payload := FirstRecord(buf).value;
            Storable(payload) && buf == Record(payload) + buf[|payload| + 8..]
  {
    hide Crc, WordAt, WordLe, ToLe, FromLe;
    var len: u32 := U32At(buf[..4]);
    var payload := buf[4..4 + len];
    ToLeFromLe(buf[..4]);
    WordRoundTrip(Crc(U32Le(len) + payload));
    WordInjective(buf[4 + len..4 + len + 4], Checksum(payload));
    assert buf == buf[..4] + buf[4..4 + len] + buf[4 + len..4 + len + 4] + buf[len + 8..];
  }

  lemma {:induction false} ReplayAfterLog(payloads: seq<Bytes>, rest: Bytes)
    requires AllStorable(payloads)
    ensures Replayed(Log(payloads) + rest) == payloads + Replayed(rest)
    ensures Unread(Log(payloads) + rest) == Unread(rest)
  {
    hide Crc, WordAt, WordLe, ToLe, FromLe;
    if payloads == [] {
      assert Log(payloads) + rest == rest;
    } else {
      var tail := Log(payloads[1..]) + rest;
      assert Log(payloads) + rest == Record(payloads[0]) + tail;
      FirstOfRecord(payloads[0], tail);
      ReplayAfterLog(payloads[1..], rest);
    }
  }

  /** Everything appended comes back, in order, and nothing is left over. */
  lemma ReplayInvertsLog(payloads: seq<Bytes>)
    requires AllStorable(payloads)
    ensures Replayed(Log(payloads)) == payloads && Intact(Log(payloads))
  {
    hide Crc, WordAt, WordLe, ToLe, FromLe;
    ReplayAfterLog(payloads, []);
    assert Log(payloads) + [] == Log(payloads);
  }

  lemma {:induction false} LogConcat(a: seq<Bytes>, b: seq<Bytes>)
    requires AllStorable(a) && AllStorable(b)
    ensures AllStorable(a + b) && Log(a + b) == Log(a) + Log(b)
  {
    hide Crc, WordAt, WordLe, ToLe, FromLe;
    if a == [] {
      assert a + b == b;
    } else {
      LogConcat(a[1..], b);
      assert (a + b)[1..] == a[1..] + b;
    }
  }

  lemma LogSnoc(payloads: seq<Bytes>, p: Bytes)
    requires AllStorable(payloads) && Storable(p)
    ensures AllStorable(payloads + [p]) && Log(payloads + [p]) == Log(payloads) + Record(p)
  {
    hide Crc, WordAt, WordLe, ToLe, FromLe;
    LogConcat(payloads, [p]);
    assert [p][1..] == [];
    assert Log([p]) == Record(p) + Log([]);
  }

  /** Cutting bytes that do not begin with a record leaves bytes that do not either. */
  lemma UnreadablePrefix(buf: Bytes, n: nat)
    requires FirstRecord(buf).None? && n <= |buf|
    ensures FirstRecord(buf[..n]).None?
  {
    hide Crc, WordAt, ToLe, FromLe;
    var cut := buf[..n];
    if n >= 4 {
      assert cut[..4] == buf[..4];
      var len := U32At(buf[..4]);
      if 8 + len <= n {
        assert cut[4..4 + len] == buf[4..4 + len];
        assert cut[4 + len..4 + len + 4] == buf[4 + len..4 + len + 4];
      }
    }
  }

  /** A strict prefix of one record is never read as a record. */
  lemma TornRecord(payload: Bytes, n: nat)
    requires Storable(payload) && n < |payload| + 8
    ensures FirstRecord(Record(payload)[..n]).None?
  {
    hide Crc, WordAt, WordLe, ToLe, FromLe;
    var torn := Record(payload)[..n];
    if n >= 4 {
      assert torn[..4] == U32Le(|payload|);
      U32RoundTrip(|payload|);
    }
  }

  /** Cut the file anywhere: replay returns exactly the records that lie wholly before the cut. */
  lemma {:induction false} ReplayOfPrefix(payloads: seq<Bytes>, n: nat) returns (k: nat)
    requires AllStorable(payloads) && n <= |Log(payloads)|
    ensures k <= |payloads| && |Log(payloads[..k])| <= n
    ensures k < |payloads| ==> n < |Log(payloads[..k + 1])|
    ensures Replayed(Log(payloads)[..n]) == payloads[..k]
  {
    hide Crc, WordAt, WordLe, FirstRecord, ToLe, FromLe;
    if payloads == [] {
      k := 0;
    } else {
      var r := Record(payloads[0]);
      if n < |r| {
        k := 0;
        assert Log(payloads)[..n] == r[..n];
        TornRecord(payloads[0], n);
        assert payloads[..1][1..] == [];
        assert Log(payloads[..1]) == r + Log([]);
      } else {
        var j := ReplayOfPrefix(payloads[1..], n - |r|);
        k := j + 1;
        assert Log(payloads)[..n] == r + Log(payloads[1..])[..n - |r|];
        FirstOfRecord(payloads[0], Log(payloads[1..])[..n - |r|]);
        assert payloads[..k][1..] == payloads[1..][..j];
        assert payloads[..k] == [payloads[0]] + payloads[1..][..j];
        if k < |payloads| {
          assert payloads[..k + 1][1..] == payloads[1..][..j + 1];
        }
      }
    }
  }

  /** The bytes of a log whose record `k` has been overwritten in place. */
  function Overwritten(payloads: seq<Bytes>, k: nat, damaged: Bytes, stored: Bytes): Bytes
    requires AllStorable(payloads) && k < |payloads| && |damaged| == |payloads[k]| && |stored| == 4
  {
    Log(payloads[..k]) + (U32Le(|damaged|) + damaged + stored + Log(payloads[k + 1..]))
  }

  /** `Overwritten` really is the log with only those bytes of record `k` exchanged. */
  lemma OverwrittenInPlace(payloads: seq<Bytes>, k: nat, damaged: Bytes, stored: Bytes)
    requires AllStorable(payloads) && k < |payloads| && |damaged| == |payloads[k]| && |stored| == 4
    ensures var at := |Log(payloads[..k])| + 4;
            var file := Log(payloads);
            && at + |damaged| + 4 <= |file|
            && Overwritten(payloads, k, damaged, stored)
               == file[..at] + damaged + stored + file[at + |damaged| + 4..]
  {
    hide Crc, WordAt, WordLe, ToLe, FromLe;
    var front, back := Log(payloads[..k]), Log(payloads[k + 1..]);
    assert payloads == payloads[..k] + payloads[k..];
    LogConcat(payloads[..k], payloads[k..]);
    assert payloads[k..][1..] == payloads[k + 1..];
    Splice(front, U32Le(|damaged|), payloads[k], Checksum(payloads[k]), back, damaged, stored);
  }

  lemma Splice(a: Bytes, h: Bytes, p: Bytes, c: Bytes, z: Bytes, p': Bytes, c': Bytes)
    requires |p| == |p'| && |c| == |c'|
    ensures var file, at, end := a + (h + p + c + z), |a| + |h|, |a| + |h| + |p| + |c|;
            a + (h + p' + c' + z) == file[..at] + p' + c' + file[end..]
  {
    var file := a + (h + p + c + z);
    assert file[..|a| + |h|] == a + h;
    assert file[|a| + |h| + |p| + |c|..] == z;
  }

  /** Damage to the payload or the checksum of record `k`, or across both, that stays within 32
      consecutive bits ends the replay there: records `0..k` come back untouched and nothing else does. */
  lemma DamageStopsReplay(payloads: seq<Bytes>, k: nat, damaged: Bytes, stored: Bytes)
    requires AllStorable(payloads) && k < |payloads| && |damaged| == |payloads[k]| && |stored| == 4
    requires DifferInBurst(payloads[k] + Checksum(payloads[k]), damaged + stored)
    ensures Replayed(Overwritten(payloads, k, damaged, stored)) == payloads[..k]
  {
    hide Crc, WordAt, WordLe, ToLe, FromLe, FirstRecord, DifferInBurst, Checksum;
    var rest := U32Le(|damaged|) + damaged + stored + Log(payloads[k + 1..]);
    ReplayAfterLog(payloads[..k], rest);
    DamagedRecordUnread(payloads[k], damaged, stored, Log(payloads[k + 1..]));
  }

  lemma DamagedRecordUnread(payload: Bytes, damaged: Bytes, stored: Bytes, back: Bytes)
    requires Storable(payload) && |damaged| == |payload| && |stored| == 4
    requires DifferInBurst(payload + Checksum(payload), damaged + stored)
    ensures FirstRecord(U32Le(|damaged|) + damaged + stored + back).None?
  {
    hide Crc, WordAt, WordLe, ToLe, FromLe, DifferInBurst, Checksum;
    var len := |damaged|;
    var rest := U32Le(len) + damaged + stored + back;
    assert rest[..4] == U32Le(len);
    U32RoundTrip(len);
    assert rest[4..4 + len] == damaged;
    assert rest[4 + len..4 + len + 4] == stored;
    DamageChangesCheck(payload, damaged, stored);
  }

  /** Both strings are run through the CRC up to the end of the checksum: only an undamaged one ends
      in the residue. */
  lemma DamageChangesCheck(payload: Bytes, damaged: Bytes, stored: Bytes)
    requires Storable(payload) && |damaged| == |payload| && |stored| == 4
    requires DifferInBurst(payload + Checksum(payload), damaged + stored)
    ensures WordAt(stored) != Crc(U32Le(|damaged|) + damaged)
  {
    hide Crc, Update, WordAt, WordLe, ToLe, DifferInBurst;
    var len := U32Le(|payload|);
    var good, bad := payload + Checksum(payload), damaged + stored;
    WordRoundTrip(Crc(len + payload));
    ChecksumIsResidue(len + payload, Checksum(payload));
    ChecksumIsResidue(len + damaged, stored);
    BurstInContext(len, good, bad);
    UpdateTellsApart(ALL_ONES, len + good, len + bad);
    assert len + payload + Checksum(payload) == len + good && len + damaged + stored == len + bad;
  }

  /** Changing up to four consecutive payload bytes, or the checksum alone, is such damage. */
  lemma PayloadOrChecksumIsBurst(payload: Bytes, damaged: Bytes, stored: Bytes, i: nat, j: nat)
    requires Storable(payload) && |damaged| == |payload| && |stored| == 4
    requires || (stored == Checksum(payload) && damaged != payload && i <= j <= |payload| && j - i <= 4
                 && payload[..i] == damaged[..i] && payload[j..] == damaged[j..])
             || (damaged == payload && stored != Checksum(payload))
    ensures DifferInBurst(payload + Checksum(payload), damaged + stored)
  {
    hide Crc, ToLe, WordLe, DifferInBurst, Checksum;
    var good, bad := payload + Checksum(payload), damaged + stored;
    assert good[..|payload|] == payload && bad[..|payload|] == damaged;
    assert good[|payload|..] == Checksum(payload) && bad[|payload|..] == stored;
    if damaged == payload {
      assert good[..|payload|] == bad[..|payload|] && good[|good|..] == bad[|bad|..];
      FourBytesAreBurst(good, bad, |payload|, |good|);
    } else {
      assert good[..i] == payload[..i] && bad[..i] == damaged[..i];
      assert good[j..] == payload[j..] + Checksum(payload) && bad[j..] == damaged[j..] + stored;
      FourBytesAreBurst(good, bad, i, j);
    }
  }

  // ----- reopening after a crash -----

  lemma {:induction false} ReplaySplitsFile(buf: Bytes)
    ensures AllStorable(Replayed(buf)) && buf == Log(Replayed(buf)) + Unread(buf)
    ensures FirstRecord(Unread(buf)).None?
    decreases |buf|
  {
    hide Crc, WordAt, WordLe, ToLe, FromLe;
    if FirstRecord(buf).Some? {
      FirstIsRecord(buf);
      var payload := FirstRecord(buf).value;
      var rest := buf[|payload| + 8..];
      ReplaySplitsFile(rest);
      assert Replayed(buf)[1..] == Replayed(rest);
      assert Record(payload) + (Log(Replayed(rest)) + Unread(rest))
          == Record(payload) + Log(Replayed(rest)) + Unread(rest);
    }
  }

  ghost predicate KeepsAllAppends(file: Bytes) {
    forall payloads: seq<Bytes> | AllStorable(payloads) ::
      Replayed(file + Log(payloads)) == Replayed(file) + payloads
  }

  /** `open` (wal.rs:44-63) keeps whatever bytes the file holds and appends behind them. Later
      replays return every record appended since exactly when the file it opened ended on a
      record boundary: behind a torn tail, appended records are lost. */
  lemma ReopenKeepsAppendsIffIntact(file: Bytes)
    ensures KeepsAllAppends(file) <==> Intact(file)
  {
    hide Crc, WordAt, WordLe, ToLe, FromLe;
    var kept, torn := Replayed(file), Unread(file);
    ReplaySplitsFile(file);
    if Intact(file) {
      forall payloads: seq<Bytes> | AllStorable(payloads)
        ensures Replayed(file + Log(payloads)) == kept + payloads
      {
        assert file == Log(kept);
        ReplayAfterLog(kept, Log(payloads));
        ReplayInvertsLog(payloads);
      }
    } else {
      var probe: Bytes := if torn[0] == 0 then [0] else [];
      LengthByte(probe);
      TornTailHides(file, probe);
      assert AllStorable([probe]);
    }
  }

  lemma LengthByte(payload: Bytes)
    requires |payload| < 256
    ensures U32Le(|payload|)[0] == |payload|
  {}

  lemma StartsWithLength(buf: Bytes)
    requires FirstRecord(buf).Some?
    ensures |FirstRecord(buf).value| < U32_LIMIT && buf[0] == U32Le(|FirstRecord(buf).value|)[0]
  {
    hide Crc, WordAt, WordLe, FirstRecord, ToLe, FromLe;
    FirstIsRecord(buf);
    var payload := FirstRecord(buf).value;
    assert (Record(payload) + buf[|payload| + 8..])[0] == Record(payload)[0];
  }

  /** A torn tail hides any record whose length byte differs from the tail's first byte. */
  lemma TornTailHides(file: Bytes, payload: Bytes)
    requires !Intact(file) && Storable(payload) && U32Le(|payload|)[0] != Unread(file)[0]
    ensures Replayed(file + Log([payload])) != Replayed(file) + [payload]
  {
    hide Crc, WordAt, WordLe, FirstRecord, ToLe, FromLe;
    var kept, torn, added := Replayed(file), Unread(file), Log([payload]);
    ReplaySplitsFile(file);
    assert file + added == Log(kept) + (torn + added);
    ReplayAfterLog(kept, torn + added);
    assert (torn + added)[0] == torn[0];
    if Replayed(file + added) == kept + [payload] {
      assert Replayed(torn + added) == (kept + [payload])[|kept|..] == [payload];
      StartsWithLength(torn + added);
    }
  }

  // ----- the writer -----

  datatype WalError = InvalidTrade | Io

  /** `TradeWal`: a file with a buffered writer. `disk` is what the operating system holds,
      `pending` the writer's buffer, and `synced` how much of `disk` has been fsynced. `stale` is what the
      medium still holds of a log that was truncated since the last sync. Every call into the operating
      system may fail, having done part of its work. */
  class TradeWal {
    static const CAPACITY: nat := 65536

    var disk: Bytes
    var pending: Bytes
    var bytesWritten: nat
    ghost var synced: nat
    ghost var stale: Option<Bytes>

    ghost predicate Valid()
      reads this
    {
      |pending| <= CAPACITY && synced <= |disk|
    }

    /** All bytes appended since the last truncation, written out or not. */
    ghost function Contents(): Bytes
      reads this`disk, this`pending
    {
      disk + pending
    }

    /** Opening syncs nothing: `durable` bytes of the file survive a power loss, and a truncation from
        before may still be undone. */
    constructor Open(file: Bytes, ghost durable: nat, ghost stale: Option<Bytes>)
      requires durable <= |file|
      ensures Valid() && Contents() == file && disk == file && bytesWritten == |file|
      ensures synced == durable && this.stale == stale
    {
      disk := file;
      pending := [];
      bytesWritten := |file|;
      synced := durable;
      this.stale := stale;
    }

    /** `flush_buf`: what could not be written stays in the buffer. */
    method FlushBuffer() returns (ok: bool)
      requires Valid()
      modifies this`disk, this`pending
      ensures Valid() && Contents() == old(Contents()) && old(disk) <= disk
      ensures ok ==> disk == Contents() && pending == []
    {
      var written: nat :| written <= |pending|;
      disk := disk + pending[..written];
      pending := pending[written..];
      ok := pending == [];
    }

    /** `BufWriter::write_all`: `n` bytes of `data` joined the contents. */
    method WriteAll(data: Bytes) returns (ok: bool, ghost n: nat)
      requires Valid()
      modifies this`disk, this`pending
      ensures Valid() && old(disk) <= disk
      ensures n <= |data| && (ok <==> n == |data|) && Contents() == old(Contents()) + data[..n]
    {
      if |data| > CAPACITY - |pending| {
        ok := FlushBuffer();
        if !ok {
          assert data[..0] == [];
          return false, 0;
        }
      }
      if |data| >= CAPACITY {
        var written: nat :| written <= |data|;
        disk := disk + data[..written];
        ok, n := written == |data|, written;
      } else {
        pending := pending + data;
        ok, n := true, |data|;
      }
      assert data[..|data|] == data;
    }

    /** On success one whole record has been appended. On failure it is refused outright, or a strict
        prefix of it is left behind: the torn record that replay has to survive. */
    method Append(payload: Bytes) returns (r: Result<nat, WalError>, ghost n: nat)
      requires Valid()
      modifies this`disk, this`pending, this`bytesWritten
      ensures Valid() && old(disk) <= disk
      ensures !Storable(payload) <==> r == Failure(InvalidTrade)
      ensures !Storable(payload) ==> Contents() == old(Contents())
      ensures Storable(payload) ==>
        && n <= |Record(payload)| && (r.Success? <==> n == |Record(payload)|)
        && Contents() == old(Contents()) + Record(payload)[..n]
      ensures bytesWritten == old(bytesWritten) + (if r.Success? then |Record(payload)| else 0)
      ensures r.Success? ==> r.value == bytesWritten
    {
      hide Crc, WordAt, WordLe, ToLe, FromLe;
      n := 0;
      if |payload| >= U32_LIMIT {
        return Failure(InvalidTrade), 0;
      }
      var len: u32 := |payload|;
      var crc := ComputeCrc32(len, payload);
      ghost var r0 := Record(payload);
      var ok;
      ghost var k: nat;
      ok, k := WriteAll(U32Le(len));
      assert r0[..4] == U32Le(len) && r0[..k] == U32Le(len)[..k];
      if !ok {
        return Failure(Io), k;
      }
      ok, k := WriteAll(payload);
      assert r0[..4 + k] == U32Le(len) + payload[..k];
      if !ok {
        return Failure(Io), 4 + k;
      }
      ok, k := WriteAll(WordLe(crc));
      assert r0[..4 + len + k] == U32Le(len) + payload + WordLe(crc)[..k];
      if !ok {
        return Failure(Io), 4 + len + k;
      }
      bytesWritten := bytesWritten + 4 + len + 4;
      r, n := Success(bytesWritten), |r0|;
    }

    method Sync() returns (ok: bool)
      requires Valid()
      modifies this`disk, this`pending, this`synced, this`stale
      ensures Valid() && Contents() == old(Contents()) && old(disk) <= disk
      ensures ok ==> disk == Contents() && synced == |disk| && stale == None
      ensures !ok ==> synced == old(synced) && stale == old(stale)
    {
      ok := FlushBuffer();
      if !ok {
        return;
      }
      var fsync: bool := *;
      if !fsync {
        return false;
      }
      synced := |disk|;
      stale := None;
    }

    method Replay() returns (r: Result<seq<Bytes>, WalError>)
      requires Valid()
      modifies this`disk, this`pending
      ensures Valid() && Contents() == old(Contents())
      ensures r.Success? ==> r.value == Replayed(Contents())
    {
      hide Replayed;
      var ok := FlushBuffer();
      var readable: bool := *;
      if !ok || !readable {
        return Failure(Io);
      }
      var out := ReplayBytes(disk);
      r := Success(out);
    }

    /** The shortened length is not synced, so the medium still holds the old log. A truncation that
        fails leaves the log alone, unless it failed after `set_len`. */
    method Truncate() returns (ok: bool)
      requires Valid()
      modifies this
      ensures Valid()
      ensures ok ==> Contents() == [] && bytesWritten == 0 && synced == 0 && stale == Some(old(Contents()))
      ensures !ok ==> bytesWritten == old(bytesWritten)
      ensures !ok ==> || (Contents() == old(Contents()) && synced == old(synced) && stale == old(stale))
                      || (Contents() == [] && synced == 0 && stale == Some(old(Contents())))
    {
      ok := FlushBuffer();
      if !ok {
        return;
      }
      var shortened: bool := *;
      if !shortened {
        return false;
      }
      stale := Some(disk);
      disk := [];
      synced := 0;
      var rewound: bool := *;
      if !rewound {
        return false;
      }
      bytesWritten := 0;
    }
  }
}
