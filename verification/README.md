# A verified model of the market-data ingest daemon

The daemon connects to the Cedro feed, splits its bytes into frames, parses them into typed messages,
keeps an order book per ticker, logs trades ahead of writing them to a database, and publishes
coalesced updates. This project models the state-heavy parts of that path in Dafny and proves what
they are for. `dafny verify dfyconfig.toml` checks all of it.

## How it is organised

| file | what it models |
|---|---|
| `Base.dfy`, `Types.dfy` | bytes, little-endian and two's-complement integers, UTF-8; the message types |
| `OrderBook.dfy`, `BookEngine.dfy` | one ticker's book with its patched id index; the sharded registry against one plain map |
| `Crc32.dfy`, `Wal.dfy` | the bitwise CRC against section 8 of RFC 1952; log records, replay, the buffered writer |
| `TradeCodec.dfy` | the binary encoding of a trade |
| `TradeMachine.dfy`, `TradeHazards.dfy`, `TradeWriter.dfy` | stage, sync, insert, truncate, crash and recover as a state machine; what each working condition is for; the writer whose methods are paths of that machine |
| `Frame.dfy`, `Reader.dfy` | the frame splitter; the reader loop in front of a bounded channel |
| `Handshake.dfy` | the prompt and reply exchange that opens a connection |
| `Coalescer.dfy` | pending payloads, flushes and publication order |
| `Scanner.dfy`, `Layout.dfy` | tokens and numbers; the documented frame layouts as tables of fields |
| `Bqt.dfy`, `Sqt.dfy`, `Gqt.dfy`, `Nem.dfy`, `Parser.dfy` | the book, quote, trade and news frames; dispatch, and whole streams there and back |

Wherever the source changes state in place, the model has a class with the same fields and methods
with the same branches. Each method is proved against a specification function on values, and the
theorems (invariants, round trips, equivalences) are lemmas about those functions. The specification
functions are never the last word: the book is proved against a positional specification and its index
against the vectors, replay against appending, parsing against printing and against the documented tables, the flush
protocol against the trades a sync has covered. Where a number or a text is fixed by the outside world
(the CRC polynomial, the prompts, the field offsets, the conflict key), some theorem states it as such.

## Modelling choices

- An `f64` is its 64-bit pattern. `str::parse::<f64>` is a function parameter, and a printed float is
  any text which that parser reads back.
- A hash function, a shard count, the order in which a hash map is visited, the chunking of a socket,
  the pace of a channel's consumer and the outcome of an INSERT are all arbitrary.
- A method that holds a lock, and each step between two locks, is one atomic step. In the trade machine
  the two halves of `stage` (log, then buffer) are separate steps; in the book engine an operation and
  its look at the allow-list are one, as if a concurrent change of the list came just after.
- In the trade machine the file is everything appended, with a prefix that a sync has made durable. A
  crash may cut the file anywhere behind that prefix, inside a record too, and a write that fails may
  leave any strict prefix of a record. Surviving a crash makes no byte durable, and a truncation can be
  undone by a crash until the next sync.
- Every call into the file system may fail, having done part of its work; the buffered writer keeps what
  it could not write.
- `usize` has 64 bits, so `position + 1` and `pos + len + 4` do not overflow.

## What the code does that its comments do not say

- `frame.rs:8-9` says that terminators cannot occur in a payload. News text is free text, and
  `Parsing.NewsArrivesIff` gives the exact condition under which it arrives (an exclamation mark is
  enough: `Parsing.ExclamationCutsHeadline`).
- `parser/mod.rs:71-73` says that the terminator is checked against the header. The code ignores it.
- `handshake.rs:20-21` says that prompts may come in different orders. The code asks for them in one
  order; a prompt that comes early is skipped over (`Handshake.EarlyPromptIsSkipped`).
- `handshake.rs:28-29` says that the stream is left right behind the last prompt. The surplus of the last
  read is dropped with the buffer; `Handshake.Perform` states exactly when there is none, and
  `Handshake.SurplusIsDropped` is a case in which there is.
- `order_book.rs:3-7` describes insertion-ordered maps. The code has two vectors and a hash map.
- `wal.rs:3-6` says that every staged trade is synced before it is acknowledged. Only a flush syncs, so
  the guarantee is about trades that a completed sync has covered. `TradeHazards.StagedOnlyCanBeLost` is
  the run that loses one that none has.
- `trade_writer.rs:322-323` says that processing a batch again is safe. It is exactly when every trade
  has an id (`TradeHazards.RepeatedCommitIsIdleIffAllHaveIds`), since a null id never conflicts
  (`TradeHazards.NullIdIsStoredTwice`).
- Section 4.1.1 of `api.md` gives each quote index a type. The code reads the theoretical quantity (83) and
  the price type (124) as floats instead of integers, the month of expiry (120) as a float, the tick direction
  (106) as one byte although `0+` has two, the date of the reference price (141) as a number instead of text,
  and the group phase (88) as two bytes. All others agree (`QuoteFrames.ReadAsDocumentedIff`).

## Laws that hold only under a condition

The code meets each of these exactly when the condition holds; the lemmas state the equivalence.

- The id index is complete: arriving ids are not in the book yet, on either side
  (`OrderBooks.AppliedExactIffNew`; the smallest failure is `OrderBooks.DuplicateHidesFirst`).
- Records appended after a reopen are replayed: the file ended on a record boundary (`Wal.ReopenKeepsAppendsIffIntact`).
- A trade survives its encoding: whole microseconds and an id under 4 GiB (`TradeCodec.RoundTripIff`).
- Stages inside a flush lose nothing: the flushed batch brings their keys as well
  (`TradeHazards.StagesInsideFlushAreSafeIff`).
- A flush after a failed sync or INSERT loses nothing: the INSERT had committed, or the table or the next
  batch brings the key of each covered trade of the dropped batch
  (`TradeHazards.FlushAfterFailureIsSafeIff`; the runs that lose one are `TradeHazards.CoveredTradeIsLost`
  and `TradeHazards.RecoveredTradeIsLost`).
- Every run publishes a key's updates in order: one flusher at most, or no window
  (`Coalescing.OrderKeptIff`). With more flushers a run is in order if no two flushes overlap.
- A snapshot trade parses back: its last field is not empty (`TradeFrames.AddReadsBackIff`).
- A history item parses back: its agency is not `END` (`NewsFrames.NewsReadsBackIff`).
- A signed integer parses back: it is not -2^63 (`Scanning.SignedReadsBackIff`).

## Model

| member | source | states |
|---|---|---|
| OrderBooks.EveryRunIsSound | crates/market-engine/src/book/order_book.rs:44-157 | After any operations whatsoever, duplicate ids and out-of-range positions included, each entry of the id index points inside the right side at an entry carrying that id |
| OrderBooks.AppliedSound | crates/market-engine/src/book/order_book.rs:44-139 | One operation of any kind keeps that soundness |
| OrderBooks.RemovedIndex | crates/market-engine/src/book/order_book.rs:81-93 | A single removal leaves every other id at its own position, one lower behind the gap; the `new >= 0` guard skips no id that stays, although the shift runs before the id is dropped |
| OrderBooks.PrefixRemovedIndex | crates/market-engine/src/book/order_book.rs:121-132 | The same for a prefix removal, where ids are dropped before the shift |
| OrderBooks.PrefixIsRepeatedSingle | crates/market-engine/src/book/order_book.rs:121-132 | On every sound book, deleting the prefix `0..=p` equals `p + 1` single deletes at 0, index included |
| OrderBooks.UpdateIsDeleteThenAdd | crates/market-engine/src/book/order_book.rs:75-106 | The update's own removal, insert, two shifts and index write equal a single delete at the old position followed by an add, on the whole state, in range or not |
| OrderBooks.UpdateDisplaces | crates/market-engine/src/book/order_book.rs:89-105 | On every sound book, the net effect of an in-range update on the index: the ids between the old and the new position move by one towards the gap, the new id is where its entry is, nothing else moves |
| OrderBooks.ClearIsTwoPrefixes | crates/market-engine/src/book/order_book.rs:133-137 | On every sound book, clearing equals two prefix deletes that reach the end of both sides |
| OrderBooks.AppliedExactIffNew | crates/market-engine/src/book/order_book.rs:56-139 | From an exact index (the inverse of the two vectors), an operation leads to an exact index if and only if the arriving id is not in the book, save at the position an update replaces |
| OrderBooks.DuplicateHidesFirst | crates/market-engine/src/book/order_book.rs:70-73 | The same id added on both sides of an empty book leaves an index that is sound and knows only the second entry |
| OrderBooks.RunsOfNewIdsAreExact | crates/market-engine/src/book/order_book.rs:44-157 | A whole run of such operations keeps the index the exact inverse of the vectors |
| OrderBooks.ExactIndexIsUnique | crates/market-engine/src/book/order_book.rs:33-35 | Books with the same vectors and exact indexes have the same index: it is a function of the vectors |
| OrderBooks.AppliedFlag | crates/market-engine/src/book/order_book.rs:44-54 | Only the end of the initial snapshot sets the flag that is the answer, and nothing takes it back |
| OrderBooks.FlagOfRun | crates/market-engine/src/book/order_book.rs:44-54 | After any run the answer is yes exactly if the end of the initial snapshot was in it |
| OrderBooks.VectorsArePositional | crates/market-engine/src/book/order_book.rs:56-139 | The vectors follow a positional specification with clamped inserts that knows nothing of ids |
| OrderBooks.InsertedExactOnlyIfNew | crates/market-engine/src/book/order_book.rs:56-73 | If an insert ends in an exact index, its id was nowhere in the book before |
| OrderBooks.OrderBook.Apply | crates/market-engine/src/book/order_book.rs:44-54 | The new vectors, index and flag are those of the specified book, and the result says whether the initial snapshot has ended |
| OrderBooks.OrderBook.AddEntry | crates/market-engine/src/book/order_book.rs:56-73 | The vector insert, the shift and the index write together are the specified insert |
| OrderBooks.OrderBook.UpdateEntry | crates/market-engine/src/book/order_book.rs:75-106 | The out-of-range fallback and the in-range branch with its own insert, second shift and index write are the specified update |
| OrderBooks.OrderBook.RemoveAt | crates/market-engine/src/book/order_book.rs:114-119 | Removing, shifting and then dropping the id is the specified removal |
| OrderBooks.OrderBook.DeleteEntries | crates/market-engine/src/book/order_book.rs:108-139 | The three kinds of delete are the specified ones |
| OrderBooks.OrderBook.RemoveIds | crates/market-engine/src/book/order_book.rs:126-130 | The loop drops the ids of all drained entries and no other |
| OrderBooks.OrderBook.ShiftIndicesAfter | crates/market-engine/src/book/order_book.rs:148-157 | Visiting the index in any order moves each affected slot exactly once |
| BookEngines.BooksAreIndependent | crates/market-engine/src/book/engine.rs:64-89 | For any interleaving of operations and allow-list changes, a ticker's book is that of its own admitted operations in order, and it is absent exactly when none was admitted |
| BookEngines.ObservableIff | crates/market-engine/src/book/engine.rs:72-89 | A ticker's updates are observable exactly when the end of its own initial snapshot has been admitted |
| BookEngines.BookEngine.constructor | crates/market-engine/src/book/engine.rs:43-53 | An empty registry that admits everything, in eight shards if none are asked for |
| BookEngines.BookEngine.SetAllowedTickers | crates/market-engine/src/book/engine.rs:58-60 | Replaces the allow-list of the plain map and nothing else |
| BookEngines.BookEngine.IsAllowed | crates/market-engine/src/book/engine.rs:64-70 | Answers for the plain map's allow-list |
| BookEngines.BookEngine.EntryOrDefault | crates/market-engine/src/book/engine.rs:83-85 | The ticker's own book, or a new empty one registered in its shard, aliasing no other ticker's |
| BookEngines.BookEngine.Apply | crates/market-engine/src/book/engine.rs:77-89 | For any hash and shard count the shards change as the one plain map does; a ticker that is not admitted changes nothing and yields `false` |
| BookEngines.BookEngine.WithBook | crates/market-engine/src/book/engine.rs:93-97 | The closure is given the plain map's book of that ticker, or nothing |
| BookEngines.BookEngine.Len | crates/market-engine/src/book/engine.rs:101-106 | The shard sizes add up to the number of tickers of the plain map |
| Crc32.ComputeCrc32 | crates/persistence/src/wal.rs:156-166 | The masked nested loop over length and payload computes the CRC-32 of section 8 of RFC 1952 |
| Crc32.UpdateByteIsEightSteps | crates/persistence/src/wal.rs:158-164 | The RFC's table step for a byte equals eight conditional-xor bit steps on the byte xored in |
| Crc32.PolynomialInTable | crates/persistence/src/wal.rs:156-166 | Entry 128 of the RFC's table is 0xEDB88320 |
| Crc32.KnownChecksum | crates/persistence/src/wal.rs:156-166 | The checksum of the payload `A` behind its length is 0xFA99AFAB |
| Crc32.ByteIsNumber | crates/persistence/src/wal.rs:158-159 | The bits of a byte are those of its number |
| Crc32.UpdateInjective | crates/persistence/src/wal.rs:156-166 | Reading the same bytes never merges two different CRC states |
| Crc32.BurstDetected | crates/persistence/src/wal.rs:156-166 | Inputs of equal length that differ only within 32 consecutive bits, wherever they begin, never share a checksum |
| Crc32.FourBytesAreBurst | crates/persistence/src/wal.rs:156-166 | A change within four consecutive bytes is such a burst |
| Crc32.ChecksumIsResidue | crates/persistence/src/wal.rs:128-131 | A stored checksum matches exactly when running the CRC on over its four bytes ends in 0xDEBB20E3 |
| Wal.ReplayBytes | crates/persistence/src/wal.rs:117-138 | The replay loop stays in bounds, terminates and returns the valid records up to the first bad one |
| Wal.RecordLayout | crates/persistence/src/wal.rs:8-14 | A record is the length in four bytes, least significant first, the payload, and four bytes of checksum; every payload under 2^32 bytes is stored |
| Wal.KnownRecord | crates/persistence/src/wal.rs:71-87 | The record of the payload `A`, byte by byte |
| Wal.ReplayInvertsLog | crates/persistence/src/wal.rs:71-87 | Everything appended is replayed, in order, with nothing left over |
| Wal.ReplayAfterLog | crates/persistence/src/wal.rs:107-139 | Replay of whole records followed by any bytes is those records and then the replay of the rest |
| Wal.ReplayOfPrefix | crates/persistence/src/wal.rs:117-138 | For every byte prefix of a log, replay returns exactly the payloads whose records lie wholly inside it |
| Wal.UnreadablePrefix | crates/persistence/src/wal.rs:119-134 | Cutting a tail that does not begin with a record leaves one that does not either |
| Wal.FirstIsRecord | crates/persistence/src/wal.rs:119-136 | A payload is read only off the exact bytes that appending it writes |
| Wal.ReplaySplitsFile | crates/persistence/src/wal.rs:107-139 | Any file whatever is the log of what replay returns, followed by an unreadable tail |
| Wal.OverwrittenInPlace | crates/persistence/src/wal.rs:8-14 | The damaged file of the next lemma is the log with only one record's payload and checksum bytes exchanged |
| Wal.DamageStopsReplay | crates/persistence/src/wal.rs:117-138 | Changing record k anywhere behind its length field, payload, checksum or across both, within 32 consecutive bits makes replay return exactly records 0 to k-1 |
| Wal.PayloadOrChecksumIsBurst | crates/persistence/src/wal.rs:117-138 | Changing up to four consecutive payload bytes, or the stored checksum in any way, is such damage |
| Wal.ReopenKeepsAppendsIffIntact | crates/persistence/src/wal.rs:44-63 | Records appended after reopening a file are all replayed if and only if the file ended on a record boundary |
| Wal.TornTailHides | crates/persistence/src/wal.rs:44-63 | Behind a torn tail, a record whose first length byte differs from the tail's first byte is lost |
| Wal.TradeWal.Open | crates/persistence/src/wal.rs:44-63 | Keeps the file's bytes, whatever they are, and counts them; it syncs nothing, so only what was durable before stays so |
| Wal.TradeWal.Append | crates/persistence/src/wal.rs:71-87 | Adds exactly one record and returns the new length; a payload of 4 GiB or more is refused and leaves no trace; a write that fails leaves a strict prefix of the record and does not count it |
| Wal.TradeWal.WriteAll | crates/persistence/src/wal.rs:78-80 | The 64 KiB buffered writer loses and reorders nothing, whatever is spilled to the file and when; if it fails, a prefix of the data has been taken |
| Wal.TradeWal.Sync | crates/persistence/src/wal.rs:90-95 | Success means that everything appended is on disk and synced, and an earlier truncation is final; failure changes no content and claims nothing synced |
| Wal.TradeWal.Replay | crates/persistence/src/wal.rs:107-139 | Returns the records of everything appended, buffered bytes included, or an error; changes no content either way |
| Wal.TradeWal.Truncate | crates/persistence/src/wal.rs:143-151 | Success leaves an empty log, which the medium will not hold before the next sync; failure leaves the log as it was, or empty with a stale byte count |
| TradeCodec.EncodeWal | crates/persistence/src/trade_writer.rs:57-108 | Growing the buffer flag by flag yields the specified layout |
| TradeCodec.DecodeWal | crates/persistence/src/trade_writer.rs:111-165 | Advancing the cursor yields the specified trade, or nothing on any truncation, bad text or out-of-range time |
| TradeCodec.DecodeFields | crates/persistence/src/trade_writer.rs:126-151 | The cursor reads the four optional fields that the flags announce, or finds one truncated or not UTF-8 |
| TradeCodec.ReadFlagI32 | crates/persistence/src/trade_writer.rs:170-183 | An absent field, a field with the cursor behind it, or a truncation |
| TradeCodec.HeaderLayout | crates/persistence/src/trade_writer.rs:61-92 | Time, asset, price, amount and flags by offset, negative numbers in two's complement, each flag bit for its own field |
| TradeCodec.OptionalLayout | crates/persistence/src/trade_writer.rs:93-107 | Buyer, seller, aggressor and id follow in this order if they are there; a length of 4 GiB or more is written as 0xFFFFFFFF |
| TradeCodec.DecodesIff | crates/persistence/src/trade_writer.rs:111-153 | Exactly which byte strings decode: all flagged fields are there, the id is UTF-8, the time is in range; unknown flags and trailing bytes do not matter |
| TradeCodec.DecodedLayout | crates/persistence/src/trade_writer.rs:111-165 | What they decode to, by offset: the fixed fields and the flags |
| TradeCodec.DecodedOptionals | crates/persistence/src/trade_writer.rs:126-151 | The same for the optional fields |
| TradeCodec.TimeRange | crates/persistence/src/trade_writer.rs:153 | Exactly the microseconds of the years a `DateTime` can hold are accepted, and the time they give counts them again |
| Base.PlaceValues | crates/persistence/src/trade_writer.rs:74-77 | The place value of each byte of the integers on disk |
| Base.Utf8Iff | crates/persistence/src/trade_writer.rs:147 | A byte string is taken for text exactly when it is the encoding of character numbers by section 3 of RFC 3629 |
| Base.AsciiIsUtf8 | crates/persistence/src/trade_writer.rs:147 | ASCII is text |
| TradeCodec.DecodeOfPrefix | crates/persistence/src/trade_writer.rs:57-165 | Decoding any prefix of an encoding followed by anything: all of the encoding is needed and nothing behind it is read |
| TradeCodec.RoundTripIff | crates/persistence/src/trade_writer.rs:57-165 | Decoding inverts encoding, also before trailing bytes, if and only if the time is a whole number of microseconds and the id is shorter than 4 GiB |
| TradeCodec.TruncationRejected | crates/persistence/src/trade_writer.rs:111-165 | Every strict prefix of an encoding is rejected |
| TradeCodec.PrefixFree | crates/persistence/src/trade_writer.rs:57-108 | No encoding of a trade with an id under 4 GiB is a strict prefix of another, over all flag combinations and all times, and equal encodings of whole microseconds are equal trades |
| TradeMachine.InsertStores | crates/persistence/src/trade_writer.rs:298-300 | What a conflict-ignoring batch insert accounts for: what was there and what the batch brings, and it invents nothing |
| TradeMachine.InsertAppendsFirsts | crates/persistence/src/trade_writer.rs:298-300 | A batch insert appends exactly the rows without an id and, of those with one, the first of each time, asset and id, counted over the table and the batch |
| TradeMachine.NewTradeIsStoredWhole | crates/persistence/src/trade_writer.rs:279-300 | A trade without an id, or the first of its time, asset and id, gets a row with all nine columns, its time in microseconds |
| TradeMachine.LoggableIff | crates/persistence/src/trade_writer.rs:237-239 | Every trade can be logged and recovered, but for ids of almost 4 GiB and the last leap second of all |
| TradeMachine.UndecodableIsSkipped | crates/persistence/src/trade_writer.rs:328-335 | Recovery passes over a record that does not decode and keeps those around it |
| TradeMachine.RecoveredRows | crates/persistence/src/trade_writer.rs:324-339 | Recovery from a log of trades gives back their rows, all and in order |
| TradeMachine.StepKeeps | crates/persistence/src/trade_writer.rs:237-339 | Every step (append, push, take, sync, insert, truncate, any of them failing, a crash that cuts the unsynced part of the file anywhere or undoes the last unsynced truncation, restart) keeps the invariant that synced trades are stored or durably logged |
| TradeMachine.RunKeeps | crates/persistence/src/trade_writer.rs:237-339 | So does every run, with any number of crashes, in which no stage falls inside a flush, a failed flush is followed by restart and recovery, and nothing is appended behind a torn record |
| TradeMachine.CoveredRowsSurvive | crates/persistence/src/trade_writer.rs:252-313 | No loss: wherever a crash hits such a run, wherever it cuts the file, and whether or not it undoes a truncation, every trade a completed sync covered is in the table (under its own time, asset and id, or as itself if it has no id) or will be read back from the log |
| TradeMachine.RecoveryCompletes | crates/persistence/src/trade_writer.rs:319-339 | After any crash of such a run, recovery and a successful flush leave every covered trade in the table, each with a trade id exactly once, nothing that was not staged, and an empty log |
| TradeMachine.EveryTradeCanBeCovered | crates/persistence/src/trade_writer.rs:237-276 | Such runs exist for every trade that can be logged: staged and synced it is covered, in flight, and not yet in the table |
| TradeMachine.ACycleStores | crates/persistence/src/trade_writer.rs:237-313 | And they never end: from any quiet state one more trade can be staged and flushed, which appends its row if its key is new and leads to a quiet state again |
| TradeMachine.SyncCovers | crates/persistence/src/trade_writer.rs:272-276 | What a sync covers: every trade appended since the last crash or truncation, and for ever after |
| TradeMachine.CrashesAreArbitrary | crates/persistence/src/wal.rs:3-14 | A crash may cut the file at any byte behind its synced part or bring back any prefix of a truncated log, and a failed write may leave any strict prefix of its record |
| TradeMachine.NothingToRecover | crates/persistence/src/trade_writer.rs:324-339 | If a restart finds nothing to recover, the table holds every covered trade, each with a trade id exactly once, and nothing that was not staged |
| TradeHazards.StagesInsideFlushAreSafeIff | crates/persistence/src/trade_writer.rs:254-305 | With any stages before the sync, before the INSERT and before the truncate of a flush, and stages half done at its take, only the table is left after a crash; nothing covered is lost if and only if the table or the flushed batch already brings the key of each trade appended before the sync or half staged |
| TradeHazards.AStageCanSlipIn | crates/persistence/src/trade_writer.rs:254-276 | Such a run exists from every idle state with something to flush: nothing in the code keeps a stage out |
| TradeHazards.FlushAfterFailureIsSafeIff | crates/persistence/src/trade_writer.rs:276-305 | When stages and the next flush follow a failed sync or a failed INSERT without recovery, the covered trades survive if and only if the INSERT had committed after all, or the table or the next batch brings the key of each covered trade of the dropped batch (after a failed INSERT: of each trade in it) |
| TradeHazards.AFlushCanFollow | crates/persistence/src/trade_writer.rs:254-305 | Such a run exists from every state in which a sync or an INSERT can fail |
| TradeHazards.CoveredTradeIsLost | crates/persistence/src/trade_writer.rs:300-305 | A trade is staged and synced, its INSERT fails, another trade is staged and flushed: the first is in neither the table nor the log nor memory |
| TradeHazards.RecoveredTradeIsLost | crates/persistence/src/trade_writer.rs:276-305 | A synced trade that a crash and recovery bring into a batch whose sync fails is lost in the same way |
| TradeHazards.StagedOnlyCanBeLost | crates/persistence/src/trade_writer.rs:237-250 | A trade whose stage has returned but which no sync has covered is gone after a crash |
| TradeHazards.OneTornByteHidesAll | crates/persistence/src/wal.rs:44-63 | One byte of a torn record at the head of the log hides every trade staged behind it, as long as the first one's encoding is under 16 MiB and the log under 256 times that size |
| TradeHazards.RepeatedCommitIsIdleIffAllHaveIds | crates/persistence/src/trade_writer.rs:298-300 | Inserting a batch a second time changes nothing if and only if every trade in it has an id |
| TradeHazards.NullIdIsStoredTwice | crates/persistence/src/trade_writer.rs:298-300 | A trade without an id, inserted twice, is in the table twice |
| TradeWriters.Database.Insert | crates/persistence/src/trade_writer.rs:298-301 | The table after the insert, which may have committed although it reports failure; rows of different assets, times or ids never conflict |
| TradeWriters.TradeWriter.Stage | crates/persistence/src/trade_writer.rs:237-250 | A staged trade is logged and buffered, and a full buffer is flushed at once; a refused trade leaves no trace, and one whose append fails leaves a torn record and nothing else |
| TradeWriters.TradeWriter.Flush | crates/persistence/src/trade_writer.rs:254-265 | A flush is one of the machine's paths: nothing to do, success, or a failed sync, INSERT or truncate |
| TradeWriters.TradeWriter.FlushDrained | crates/persistence/src/trade_writer.rs:267-313 | Success stores the batch and empties the log; each failure leaves table and log exactly as the machine's failing step does |
| TradeWriters.TradeWriter.RecoverFromWal | crates/persistence/src/trade_writer.rs:324-339 | Appends exactly the decodable records to the buffer, in order, and counts them; changes nothing if the log cannot be read |
| Framing.FrameSplitter.NextFrame | crates/cedro-protocol/src/frame.rs:77-93 | Peels off exactly the first frame of the stream, or leaves the buffer alone when there is none |
| Framing.FrameSplitter.ExtendFromSlice | crates/cedro-protocol/src/frame.rs:63-65 | Appends behind the unread bytes |
| Framing.FrameSplitter.Drain | crates/cedro-protocol/src/frame.rs:98-102 | Hands out all complete frames in order and keeps the rest |
| Framing.SplitInvertsJoin | crates/cedro-protocol/src/frame.rs:77-93 | Terminator-free payloads come back once each, in order, with the right kind |
| Framing.JoinInvertsSplit | crates/cedro-protocol/src/frame.rs:77-93 | Frames re-joined with their terminators and the unread rest are every byte of the stream; no frame contains a terminator |
| Framing.FramesOfPieces | crates/cedro-protocol/src/frame.rs:63-93 | The frames of a stream do not depend on where it was cut |
| Framing.OneFrameIff | crates/cedro-protocol/src/frame.rs:8-9 | A payload sent with its `!` or newline arrives as one frame if and only if it holds neither of these bytes |
| Readers.ReaderLoop | crates/cedro-client/src/reader.rs:142-197 | Whatever the chunking and however often the channel is full, the channel has accepted exactly the frames of the bytes read, or a prefix of them if the consumer hung up |
| Readers.SendFrames | crates/cedro-client/src/reader.rs:178-195 | All complete frames reach the channel in order, or a prefix of them if the consumer hung up |
| Readers.BytesInOrder | crates/cedro-client/src/reader.rs:147-176 | Reads deliver their chunks in order, and an interrupted one nothing |
| Readers.FrameChannel.TrySendFrame | crates/cedro-client/src/reader.rs:185-193 | Accepts the frame, or says full or disconnected and accepts nothing |
| Readers.FrameChannel.SendFrame | crates/cedro-client/src/reader.rs:189-191 | Accepts the frame unless the consumer has hung up |
| Handshake.Perform | crates/cedro-client/src/handshake.rs:32-53 | For any chunking and any failing write: succeeds exactly when all four prompts are found in turn and all three lines can be sent; has written exactly key, username and password, each only after its prompt; a failure names the first prompt that did not arrive or the first line that could not be sent; and the reader that takes over misses no byte if and only if a read ended right behind the last prompt |
| Handshake.OutcomeInBytes | crates/cedro-client/src/handshake.rs:32-53 | That outcome byte by byte: success exactly when `Welcome to Cedro`, `Username:`, `Password:` and `You are connected`, given as bytes, can be placed in order and all writes succeed; the log is key, username and password with their line ends, each behind its prompt, or the beginning of that; timeout, failed read, closed connection, failed write and failed flush are told apart |
| Handshake.Converse | crates/cedro-client/src/handshake.rs:41-52 | The four waits and three lines by themselves; on success the bytes behind the last prompt are all still there |
| Handshake.HandshakeBuf.ConsumeUntil | crates/cedro-client/src/handshake.rs:74-101 | Finds the leftmost prompt of the whole stream however it is chunked, keeps the surplus for the next step, and reads no further than it must |
| Handshake.HandshakeBuf.WriteLine | crates/cedro-client/src/handshake.rs:103-115 | Sends the payload with a line end, or reports a failed write or a failed flush as the source does |
| Handshake.BoundaryIff | crates/cedro-client/src/handshake.rs:80-100 | After reads that were each needed, nothing is left in the buffer if and only if a read ended where the used bytes end |
| Handshake.FindInPrefix | crates/cedro-client/src/handshake.rs:82-85 | A prompt found in the bytes so far is the leftmost one of the whole stream |
| Handshake.GreedyIsComplete | crates/cedro-client/src/handshake.rs:41-50 | The leftmost search gets through k prompts if and only if they can be placed in order without overlap at all |
| Handshake.SucceedsIffPlaceable | crates/cedro-client/src/handshake.rs:41-50 | All four prompts are found if and only if `Welcome to Cedro`, `Username:`, `Password:` and `You are connected`, given as bytes, can be placed in order without overlap |
| Handshake.ScriptBytes | crates/cedro-client/src/handshake.rs:41-50 | The conversation step by step: key, username and password, each with carriage return and line feed behind it, each after its own prompt |
| Handshake.UsableInOrder | crates/cedro-client/src/handshake.rs:91-99 | Chunks join in order, and nothing behind the first end, deadline or failure counts |
| Handshake.EndingIsFirst | crates/cedro-client/src/handshake.rs:86-98 | The input ends in the first read that brings no bytes, and in a closed connection if there is none |
| Handshake.EarlyPromptIsSkipped | crates/cedro-client/src/handshake.rs:41-50 | A password prompt that comes first is skipped over, and the conversation stops after the username |
| Handshake.SurplusIsDropped | crates/cedro-client/src/handshake.rs:38-53 | When one read brings all four prompts and more, the handshake finds them all, the surplus is exactly what it leaves, and no read ends where it begins: it is lost to the reader |
| Coalescing.StepKeepsUnbuffered | crates/fanout/src/coalescer.rs:57-77 | A key with a zero window is published at once and never buffered, whatever the flushers do |
| Coalescing.StepKeepsOrder | crates/fanout/src/coalescer.rs:57-77 | For a key with a window, a submission, a publication, or a taking of the pending map while no batch is in flight keeps the order and the place of the newest submission |
| Coalescing.RunKeepsOrder | crates/fanout/src/coalescer.rs:57-96 | So does every run whose flushes do not overlap |
| Coalescing.SerialFlushesKeepOrder | crates/fanout/src/coalescer.rs:57-96 | Any number of flushers: a zero-window key publishes every submission; any other key, if flushes do not overlap, publishes a subsequence of its submissions, whose newest is pending, in the batch being sent, or last published |
| Coalescing.OneFlusherNeverOverlaps | crates/fanout/src/coalescer.rs:89-94 | The flush task by itself meets that condition |
| Coalescing.OrderKeptIff | crates/fanout/src/coalescer.rs:57-96 | Every run of n flushers keeps a key's order if and only if n is at most one or the key has no window |
| Coalescing.TwoFlushersReorder | crates/fanout/src/coalescer.rs:69-77 | From two flushers on, some run publishes a windowed key's submissions in the wrong order and leaves the older one standing |
| Coalescing.ClosedWindowLetsOvertake | crates/fanout/src/coalescer.rs:57-65 | A window set to zero while a payload waits: newer ones overtake it, and the next flush publishes the older one last |
| Coalescing.WholeFlushDrains | crates/fanout/src/coalescer.rs:69-77 | An undisturbed flush publishes every pending payload once and leaves nothing pending |
| Coalescing.Windows.MinNonzero | crates/fanout/src/coalescer.rs:106-111 | The smallest window in use: none exactly when no kind has a window |
| Coalescing.Windows.Tick | crates/fanout/src/coalescer.rs:85-87 | The flush task never sleeps zero, nor longer than any window in use, and 50 ms if none is |
| Coalescing.Coalescer.constructor | crates/fanout/src/coalescer.rs:32-42 | Quotes wait 50 ms, books 100 ms, trades not at all; nothing is pending |
| Coalescing.Coalescer.SetWindow | crates/fanout/src/coalescer.rs:46-52 | Changes the window of that kind only |
| Coalescing.Coalescer.SubmitUpdate | crates/fanout/src/coalescer.rs:57-65 | Is the machine's submit step |
| Coalescing.Coalescer.FlushOnce | crates/fanout/src/coalescer.rs:69-77 | Is a whole flush of the machine, in some order of the keys |
| Scanning.Scanner.Next | crates/cedro-protocol/src/parser/scanner.rs:40-62 | Returns the tokens one by one in all three positions (inside, at the end, past the end) |
| Scanning.Scanner.Required | crates/cedro-protocol/src/parser/scanner.rs:70-75 | The next token, or an error that counts the tokens before it |
| Scanning.Scanner.RequiredU64 | crates/cedro-protocol/src/parser/scanner.rs:78-81 | The next token as a number, a missing token reported before a bad one |
| Scanning.Scanner.RequiredU32 | crates/cedro-protocol/src/parser/scanner.rs:84-87 | The same for 32 bits |
| Scanning.Scanner.RequiredF64 | crates/cedro-protocol/src/parser/scanner.rs:90-93 | The same for floats |
| Scanning.Scanner.TakeRest | crates/cedro-protocol/src/parser/scanner.rs:109-117 | Returns the remaining tokens joined again, and exhausts the scanner |
| Scanning.JoinInvertsSplit | crates/cedro-protocol/src/parser/scanner.rs:40-62 | The tokens joined are the frame, they contain no separator, and there is one more of them than there are separators |
| Scanning.ColonSeparates | crates/cedro-protocol/src/parser/scanner.rs:40-62 | Tokens end at `:` and nowhere else |
| Scanning.SplitInvertsJoin | crates/cedro-protocol/src/parser/scanner.rs:40-62 | Separator-free tokens survive joining and splitting |
| Scanning.RestIsSuffix | crates/cedro-protocol/src/parser/scanner.rs:109-117 | After k tokens, the rest is the exact untouched suffix of the frame |
| Scanning.RestIsVerbatim | crates/cedro-protocol/src/parser/scanner.rs:109-117 | A text behind separator-free fields comes back verbatim, separators and all |
| Scanning.ParseDigits | crates/cedro-protocol/src/parser/scanner.rs:124-134 | The overflow-checked loop accepts exactly the digit strings whose value is below the limit, leading zeros of any length included: it never gives up too early |
| Scanning.FirstDigitWeighsMost | crates/cedro-protocol/src/parser/scanner.rs:124-134 | The value read digit by digit is the positional one: each digit weighs ten times the next |
| Scanning.ParseU64 | crates/cedro-protocol/src/parser/scanner.rs:120-135 | Succeeds exactly on non-empty digit strings below 2^64, with their value |
| Scanning.ParseU32 | crates/cedro-protocol/src/parser/scanner.rs:137-140 | The same below 2^32 |
| Scanning.ParseU16 | crates/cedro-protocol/src/parser/scanner.rs:142-145 | The same below 2^16 |
| Scanning.ParseI64 | crates/cedro-protocol/src/parser/scanner.rs:147-170 | Accepts exactly the optionally signed digit strings of magnitude below 2^63 |
| Scanning.NumberReadsBack | crates/cedro-protocol/src/parser/scanner.rs:120-145 | A number printed with any zero padding parses back |
| Scanning.SignedReadsBackIff | crates/cedro-protocol/src/parser/scanner.rs:147-170 | A printed 64-bit integer parses back if and only if it is not the smallest one |
| BookFrames.Parse | crates/cedro-protocol/src/parser/bqt.rs:25-51 | Means of a frame what its tokens mean by position, with the same errors in the same order |
| BookFrames.ReadEntryTail | crates/cedro-protocol/src/parser/bqt.rs:84-119 | Both entry layouts, and the error when only one of the last two fields is there |
| BookFrames.ParseAdd | crates/cedro-protocol/src/parser/bqt.rs:66-70 | The add by token position |
| BookFrames.ParseUpdate | crates/cedro-protocol/src/parser/bqt.rs:72-80 | The update by token position, new position before old |
| BookFrames.ParseDelete | crates/cedro-protocol/src/parser/bqt.rs:121-143 | The three deletes by token position |
| BookFrames.BookReadsBackIff | crates/cedro-protocol/src/parser/bqt.rs:5-143 | Every operation printed in its documented layout parses back, an add or update exactly when it has both an order id and an offer type or neither |
| BookFrames.BookByTable | crates/cedro-protocol/src/parser/bqt.rs:5-143 | Any frame whatever against the documented table of fields: its error is that of the first field missing or malformed, and without one the message says what the tokens say, by position |
| QuoteFrames.Parse | crates/cedro-protocol/src/parser/sqt.rs:71-102 | The loop reads all index/value pairs up to the end or a dangling separator |
| QuoteFrames.DecodeValue | crates/cedro-protocol/src/parser/sqt.rs:104-135 | Decodes a value by the type of its index |
| QuoteFrames.PairsReadBackIff | crates/cedro-protocol/src/parser/sqt.rs:81-95 | A printed list of pairs of any length reads back exactly when each value fits its index |
| QuoteFrames.QuoteReadsBackIff | crates/cedro-protocol/src/parser/sqt.rs:3-135 | A printed quote with any number of changed fields, with or without one dangling separator, parses back exactly when each value has its index's type and none is the smallest integer |
| QuoteFrames.QuoteByTable | crates/cedro-protocol/src/parser/sqt.rs:3-135 | The same for quotes, pair by pair |
| QuoteFrames.TypesByTable | api.md:134-287 | The code's types by index are those of the documented table, row by row, with six exceptions, and floats where nothing is documented |
| QuoteFrames.ReadAsDocumentedIff | api.md:134-287 | A documented index is read as a value of its documented type if and only if it is none of 83, 88, 106, 120, 124 and 141 |
| TradeFrames.Parse | crates/cedro-protocol/src/parser/gqt.rs:24-54 | Means of a frame what its tokens mean by position |
| TradeFrames.ParseAdd | crates/cedro-protocol/src/parser/gqt.rs:56-110 | The drained fields decide the layout: nine, ten, or an error |
| TradeFrames.AddReadsBackIff | crates/cedro-protocol/src/parser/gqt.rs:56-110 | A printed trade in the 9-field or the 10-field layout, with or without one dangling separator, parses back with its request id if and only if it is an `A`, its unknown codes are none of the known ones and, in a snapshot, its last field is not empty |
| TradeFrames.OtherReadsBackIff | crates/cedro-protocol/src/parser/gqt.rs:33-51 | The other operations parse back, the end of a snapshot exactly when its request id is not empty |
| TradeFrames.TradeFrameByTable | crates/cedro-protocol/src/parser/gqt.rs:5-110 | Any frame whatever against the documented table, the number of fields deciding the layout: first error, or what the tokens say |
| TradeFrames.SomeFieldCount | crates/cedro-protocol/src/parser/gqt.rs:56-72 | The fields of an add are all there are, or those before the first empty one with nine before it |
| NewsFrames.Parse | crates/cedro-protocol/src/parser/nem.rs:25-71 | Means of a frame what its leading tokens and its verbatim rest mean |
| NewsFrames.ReadHeadline | crates/cedro-protocol/src/parser/nem.rs:78-106 | Reads a headline whose agency may have been read already; the title is the untouched rest |
| NewsFrames.NewsReadsBackIff | crates/cedro-protocol/src/parser/nem.rs:5-106 | Printed news comes back with titles and bodies verbatim, separators included, exactly when no history item's agency is `END` |
| NewsFrames.NewsByTable | crates/cedro-protocol/src/parser/nem.rs:5-106 | Any frame whatever against the documented table: first error, or what the tokens and the text behind them say |
| Parsing.ParseFrame | crates/cedro-protocol/src/parser/mod.rs:74-116 | Dispatches on the first token, whatever the terminator |
| Parsing.PrefixIsFirstToken | crates/cedro-protocol/src/parser/mod.rs:79-110 | The prefix test of the dispatch asks exactly for a first token followed by another |
| Parsing.DispatchByPrefix | crates/cedro-protocol/src/parser/mod.rs:74-116 | `T:`, `B:`, `V:` and `O:` frames go to the parser of their kind; `Z:`, `VAP:`, `GTC:`, `C:`, `G:` and `E:` frames are handed on whole under their own header; any other frame is of an unknown header, and an empty one is empty |
| Parsing.MessageSurvivesIff | crates/cedro-protocol/src/parser/mod.rs:74-116 | A message whose fields hold no separator or terminator occupies one frame, which parses to it exactly when the message fits its layout; a frame handed on is any that begins with its header |
| Parsing.MessagesSurviveChunking | crates/cedro-protocol/src/frame.rs:77-93 | Any sequence of such messages, printed, terminated, cut into arbitrary chunks, split and parsed, yields one result per message in order, equal to it exactly when it fits its layout |
| Parsing.NewsArrivesIff | crates/cedro-protocol/src/frame.rs:8-9 | News sent with its newline arrives whole if and only if its text holds neither `!` nor a newline (and no history item's agency is `END`) |
| Parsing.ExclamationCutsHeadline | crates/cedro-protocol/src/frame.rs:8-9 | A headline with an exclamation mark, sent with its newline, never arrives whole |

## Left out

- Sockets, CPU pinning, the watchdog, timeouts as durations, metrics and logging: reads are chunks, the end of the stream, an interruption or a failure.
- Wal.TradeWal.Open: models an open that succeeds; one that fails yields an error and no log.
- TradeMachine.CoveredRowsSurvive: assumes no stage between the take and the truncate of a flush, no flush after a failed one until a restart, and no append behind a torn record. Without them it is false: see `TradeHazards.AStageCanSlipIn` with `StagesInsideFlushAreSafeIff`, `TradeHazards.CoveredTradeIsLost`, and `TradeHazards.OneTornByteHidesAll`. The crashes themselves may tear anything.
- TradeMachine.RecoveryCompletes: the same conditions; it says "exactly once" of trades with an id only, because a null id conflicts with nothing.
- A log that already holds records of another writer when the daemon first starts: the machine starts with an empty one. A trade at the last representable instant within a leap second, which recovery could not decode, is not staged in it.
- Two flushes of the trade writer in flight at once: the machine has one flush at a time next to any number of stages.
- Crashes that mix old and new bytes of a truncated log: a truncation is undone as a whole or not at all.
- `financial_volume` and the conversion of prices to decimals: library arithmetic on a column the conflict key does not use. The limit on bind parameters of one INSERT.
- `parse_f64`: its library call is a parameter; its empty and malformed text errors are modelled.
- `Scanner::rest`, `fields_consumed`, `FrameSplitter::advance`, `reserve` and `pending`, `OrderBook::stats`: one-line accessors, and `rest` repeats `take_rest`.
- The parsers of `sab`, `vap`, `gtc`, `mqc`, `gpn` and server errors: `Parsing.ParseFrame` hands their frames on unparsed.
- The debug assertions on frame headers: the dispatch guarantees them.
- OrderBooks.OrderBook.RemoveAt: one method for a removal that the source spells out in two places, with the index loop as its own method.
- TradeCodec.DecodeFields: with `Readers.SendFrames`, a part of one source function as a method of its own.
- QuoteFrames.ReadPair: one method for three lines that the source has inside its loop.
- BookEngines.BookEngine.Register: with `Lookup`, `InsertDefault` and `NewBook`, the hash-map entry of one shard as methods of their own.
- Handshake.HandshakeBuf.Take: with `Discard`, one line each of the source's loop.
- Coalescing.Coalescer.FlushOnce: run by one task; several flushers interleaving with submissions are the machine in the same module. Sink failures are ignored by the source and not modelled.
- The timer of the coalescer's flush task: only its choice of tick is modelled.
- The wiring of the daemon, Redis, NATS, HTTP, the raw archive and configuration: thin layers over libraries; several workers sharing one frame channel would give up the per-ticker order.
