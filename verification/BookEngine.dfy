/** The sharded registry of books (crates/market-engine/src/book/engine.rs) against one plain map. */
module BookEngines {
  import opened Base
  import opened Types
  import opened OrderBooks

  // ----- the plain map -----

  datatype Registry = Registry(books: map<Bytes, BookState>, allowed: Option<set<Bytes>>)

  predicate Admits(r: Registry, ticker: Bytes) {
    r.allowed.Some? ==> ticker in r.allowed.value
  }

  function BookOr(r: Registry, ticker: Bytes): BookState {
    if ticker in r.books then r.books[ticker] else EMPTY
  }

  datatype Event = Operation(ticker: Bytes, op: BookOp) | SetAllowed(allowed: Option<set<Bytes>>)

  function Step(r: Registry, e: Event): Registry {
    match e
    case Operation(ticker, op) =>
      if Admits(r, ticker) then r.(books := r.books[ticker := Applied(BookOr(r, ticker), op)]) else r
    case SetAllowed(allowed) => r.(allowed := allowed)
  }

  function Run(events: seq<Event>): Registry {
    if events == [] then Registry(map[], None) else Step(Run(events[..|events| - 1]), events[|events| - 1])
  }

  /** The allow-list in force after `events`: the last one set. */
  function AllowedAfter(events: seq<Event>): Option<set<Bytes>> {
    if events == [] then None
    else if events[|events| - 1].SetAllowed? then events[|events| - 1].allowed
    else AllowedAfter(events[..|events| - 1])
  }

  /** The operations of one ticker that the allow-list of their moment let through, in order. */
  function Admitted(events: seq<Event>, ticker: Bytes): seq<BookOp> {
    if events == [] then []
    else
      var front, last := events[..|events| - 1], events[|events| - 1];
      var before := Admitted(front, ticker);
      if last.Operation? && last.ticker == ticker
         && (AllowedAfter(front).None? || ticker in AllowedAfter(front).value)
      then before + [last.op]
      else before
  }

  /** Every ticker's book is that of its own admitted operations, absent if there were none. */
  lemma {:induction false} BooksAreIndependent(events: seq<Event>, ticker: Bytes)
    ensures Run(events).allowed == AllowedAfter(events)
    ensures ticker in Run(events).books <==> Admitted(events, ticker) != []
    ensures ticker in Run(events).books ==>
      Run(events).books[ticker] == AppliedAll(EMPTY, Admitted(events, ticker))
  {
    hide Applied;
    if events != [] {
      var front := events[..|events| - 1];
      BooksAreIndependent(front, ticker);
      var before, after := Admitted(front, ticker), Admitted(events, ticker);
      if after != before {
        assert after[..|after| - 1] == before;
      }
    }
  }

  /** So a ticker's updates are observable once the end of its own initial snapshot has been admitted. */
  lemma ObservableIff(events: seq<Event>, ticker: Bytes)
    ensures ticker in Run(events).books && Run(events).books[ticker].initialised
       <==> EndOfInitial in Admitted(events, ticker)
  {
    hide Run, Admitted, AppliedAll;
    BooksAreIndependent(events, ticker);
    FlagOfRun(Admitted(events, ticker));
  }

  // ----- the engine -----

  /** `shard_for` is any hash reduced modulo the shard count. The ghost `books` is the union of
      the shards and the ghost `registry` the plain map it stands for. */
  class BookEngine {
    const hash: Bytes -> nat
    var shards: seq<map<Bytes, OrderBook>>
    var allowed: Option<set<Bytes>>
    ghost var books: map<Bytes, OrderBook>
    ghost var registry: Registry
    ghost var repr: set<OrderBook>

    function ShardFor(ticker: Bytes): (i: nat)
      reads this`shards
      requires |shards| > 0
      ensures i < |shards|
    {
      hash(ticker) % |shards|
    }

    ghost predicate Sharded()
      reads this`shards, this`books
    {
      && |shards| > 0
      && (forall t :: t in books ==> t in shards[ShardFor(t)] && shards[ShardFor(t)][t] == books[t])
      && (forall i, t :: 0 <= i < |shards| && t in shards[i] ==> t in books && ShardFor(t) == i)
      && (forall t, u :: t in books && u in books && t != u ==> books[t] != books[u])
    }

    ghost predicate Mirrors()
      reads this, repr
    {
      && registry.allowed == allowed
      && (forall t :: t in books ==> books[t] in repr)
      && registry.books.Keys == books.Keys
      && forall t :: t in books ==> books[t].State() == registry.books[t]
    }

    ghost predicate Valid()
      reads this, repr
    {
      Sharded() && Mirrors()
    }

    constructor (hash: Bytes -> nat, n: nat)
      ensures Valid() && repr == {} && registry == Registry(map[], None)
      ensures |shards| == if n == 0 then 8 else n
    {
      this.hash := hash;
      shards := seq(if n == 0 then 8 else n, i => map[]);
      allowed := None;
      books := map[];
      registry := Registry(map[], None);
      repr := {};
    }

    method SetAllowedTickers(allowed: Option<set<Bytes>>)
      requires Valid()
      modifies this`allowed, this`registry
      ensures Valid() && registry == Step(old(registry), SetAllowed(allowed))
    {
      hide Sharded;
      this.allowed := allowed;
      registry := registry.(allowed := allowed);
    }

    method IsAllowed(ticker: Bytes) returns (r: bool)
      requires Valid()
      ensures r == Admits(registry, ticker)
    {
      r := match allowed case None => true case Some(tickers) => ticker in tickers;
    }

    /** The other tickers' books are those of the registry, and `book` is none of them. */
    ghost predicate OthersMirror(ticker: Bytes, book: OrderBook)
      reads this, repr
    {
      && registry.allowed == allowed
      && books.Keys == registry.books.Keys + {ticker} && books[ticker] == book && book in repr
      && forall t :: t in books && t != ticker ==>
           books[t] in repr && books[t] != book && books[t].State() == registry.books[t]
    }

    method Register(ticker: Bytes, book: OrderBook)
      requires Sharded() && ticker !in books && forall t :: t in books ==> books[t] != book
      modifies this`shards, this`books
      ensures Sharded() && |shards| == old(|shards|) && books == old(books)[ticker := book]
    {
      var idx := ShardFor(ticker);
      shards := shards[idx := shards[idx][ticker := book]];
      books := books[ticker := book];
    }

    method Lookup(ticker: Bytes) returns (r: Option<OrderBook>)
      requires Sharded()
      ensures r == if ticker in books then Some(books[ticker]) else None
      ensures ticker in books ==> forall t :: t in books && t != ticker ==> books[t] != books[ticker]
    {
      var shard := shards[ShardFor(ticker)];
      r := if ticker in shard then Some(shard[ticker]) else None;
    }

    /** A new, empty book for a ticker that has none. */
    method InsertDefault(ticker: Bytes) returns (book: OrderBook)
      requires Sharded() && ticker !in books
      modifies this`shards, this`books
      ensures Sharded() && |shards| == old(|shards|) && books == old(books)[ticker := book]
      ensures fresh(book) && book.State() == EMPTY
    {
      hide Sharded;
      book := new OrderBook();
      Register(ticker, book);
    }

    /** And the other tickers' books are as they were. */
    method NewBook(ticker: Bytes) returns (book: OrderBook)
      requires Valid() && ticker !in books
      modifies this`shards, this`books
      ensures Sharded() && |shards| == old(|shards|) && fresh(book) && book.State() == EMPTY
      ensures books.Keys == registry.books.Keys + {ticker} && books[ticker] == book
      ensures forall t :: t in books && t != ticker ==>
                books[t] in repr && books[t] != book && books[t].State() == registry.books[t]
    {
      hide Sharded;
      book := InsertDefault(ticker);
    }

    /** `entry(ticker).or_default()`. */
    method EntryOrDefault(ticker: Bytes) returns (book: OrderBook)
      requires Valid()
      modifies this`shards, this`books, this`repr
      ensures Sharded() && |shards| == old(|shards|) && repr == old(repr) + {book}
      ensures book in old(repr) || fresh(book)
      ensures OthersMirror(ticker, book) && book.State() == BookOr(registry, ticker)
    {
      hide Sharded;
      var found := Lookup(ticker);
      if found.Some? {
        book := found.value;
      } else {
        book := NewBook(ticker);
      }
      repr := repr + {book};
    }

    method ApplyTo(book: OrderBook, ticker: Bytes, op: BookOp) returns (observable: bool)
      requires OthersMirror(ticker, book) && book.State() == BookOr(registry, ticker)
      modifies this`registry, book
      ensures Mirrors()
      ensures registry == old(registry).(books :=
                old(registry).books[ticker := Applied(BookOr(old(registry), ticker), op)])
      ensures observable == registry.books[ticker].initialised
    {
      hide Applied;
      ghost var state := Applied(BookOr(registry, ticker), op);
      observable := book.Apply(op);
      registry := registry.(books := registry.books[ticker := state]);
    }

    method Apply(ticker: Bytes, op: BookOp) returns (observable: bool)
      requires Valid()
      modifies this`shards, this`books, this`registry, this`repr, repr
      ensures Valid() && |shards| == old(|shards|)
      ensures fresh(repr - old(repr))
      ensures registry == Step(old(registry), Operation(ticker, op))
      ensures observable == (Admits(old(registry), ticker) && registry.books[ticker].initialised)
    {
      hide Applied, Sharded, Mirrors, OthersMirror;
      var ok := IsAllowed(ticker);
      if !ok {
        return false;
      }
      var book := EntryOrDefault(ticker);
      observable := ApplyTo(book, ticker, op);
    }

    /** `with_book` hands the book, if any, to its closure. */
    method WithBook<R>(ticker: Bytes, f: Option<BookState> -> R) returns (r: R)
      requires Valid()
      ensures r == f(if ticker in registry.books then Some(registry.books[ticker]) else None)
    {
      var found := Lookup(ticker);
      if found.Some? {
        var b := found.value;
        r := f(Some(BookState(b.bids, b.asks, b.byOrderId, b.initialised)));
      } else {
        r := f(None);
      }
    }

    ghost function TickersBelow(n: nat): set<Bytes>
      reads this
      requires |shards| > 0
    {
      set t | t in books && ShardFor(t) < n
    }

    lemma TickersOfShard(n: nat)
      requires Sharded() && n < |shards|
      ensures |TickersBelow(n + 1)| == |TickersBelow(n)| + |shards[n]|
    {
      assert TickersBelow(n + 1) == TickersBelow(n) + shards[n].Keys;
      assert TickersBelow(n) !! shards[n].Keys;
    }

    lemma AllTickers()
      requires Sharded()
      ensures |shards| > 0
      ensures |TickersBelow(0)| == 0 && |TickersBelow(|shards|)| == |books|
    {
      assert TickersBelow(0) == {};
      assert TickersBelow(|shards|) == books.Keys;
    }

    lemma SameSize()
      requires Mirrors()
      ensures |books| == |registry.books|
    {
      assert |books.Keys| == |registry.books.Keys|;
    }

    method Len() returns (n: nat)
      requires Valid()
      ensures n == |registry.books|
    {
      hide TickersBelow, Sharded, Mirrors;
      AllTickers();
      SameSize();
      n := 0;
      for i := 0 to |shards|
        invariant n == |TickersBelow(i)|
      {
        TickersOfShard(i);
        n := n + |shards[i]|;
      }
    }
  }
}
