/** The per-key coalescing publisher (crates/fanout/src/coalescer.rs): submissions overwrite a
    pending payload, and a flusher takes the whole pending map and publishes it key by key. */
module Coalescing {
  import opened Base

  datatype Kind = Quote | Book | Trade

  datatype Key = Key(kind: Kind, ticker: Bytes)

  datatype Message = Message(key: Key, payload: Bytes)

  datatype Windows = Windows(quote: nat, book: nat, trade: nat) {
    function For(kind: Kind): nat {
      match kind
      case Quote => quote
      case Book => book
      case Trade => trade
    }

    /** The tick of the flush task: no kind with a window waits longer than that window. */
    function MinNonzero(): (tick: Option<nat>)
      ensures tick.None? <==> forall k :: For(k) == 0
      ensures tick.Some? ==> tick.value > 0 && exists k :: For(k) == tick.value
      ensures tick.Some? ==> forall k :: For(k) > 0 ==> tick.value <= For(k)
    {
      var q := MinOf(None, For(Quote));
      var b := MinOf(q, For(Book));
      var t := MinOf(b, For(Trade));
      assert t.Some? ==> For(Quote) == t.value || For(Book) == t.value || For(Trade) == t.value;
      t
    }

    /** What the flush task sleeps: never zero, and no longer than any window in use. */
    function Tick(): (tick: nat)
      ensures tick > 0 && forall k :: For(k) > 0 ==> tick <= For(k)
      ensures (forall k :: For(k) == 0) ==> tick == 50
      ensures (exists k :: For(k) > 0) ==> exists k :: For(k) == tick
    {
      match MinNonzero()
      case Some(tick) => tick
      case None => 50
    }
  }

  function MinOf(tick: Option<nat>, window: nat): Option<nat> {
    if window == 0 then tick
    else if tick.None? || window < tick.value then Some(window)
    else tick
  }

  // ----- the machine -----

  /** `batches[f]` is what flusher `f` has taken and not yet published. */
  datatype State = State(pending: map<Key, Bytes>, batches: seq<seq<Message>>, published: seq<Message>)

  datatype Event =
    | Submit(m: Message)
    | Begin(flusher: nat, order: seq<Key>)
    | Send(flusher: nat)

  /** A map is iterated in some order that visits every key once. */
  predicate Enumerates(order: seq<Key>, keys: set<Key>) {
    && (forall i, j :: 0 <= i < j < |order| ==> order[i] != order[j])
    && (forall i :: 0 <= i < |order| ==> order[i] in keys)
    && (forall k :: k in keys ==> k in order)
  }

  predicate Enabled(s: State, e: Event) {
    match e
    case Submit(_) => true
    case Begin(f, order) => f < |s.batches| && s.batches[f] == [] && Enumerates(order, s.pending.Keys)
    case Send(f) => f < |s.batches| && s.batches[f] != []
  }

  function Messages(order: seq<Key>, pending: map<Key, Bytes>): seq<Message>
    requires forall i :: 0 <= i < |order| ==> order[i] in pending
  {
    if order == [] then [] else [Message(order[0], pending[order[0]])] + Messages(order[1..], pending)
  }

  function Next(w: Windows, s: State, e: Event): State
    requires Enabled(s, e)
  {
    match e
    case Submit(m) =>
      if w.For(m.key.kind) == 0 then s.(published := s.published + [m])
      else s.(pending := s.pending[m.key := m.payload])
    case Begin(f, order) => s.(pending := map[], batches := s.batches[f := Messages(order, s.pending)])
    case Send(f) => s.(published := s.published + [s.batches[f][0]], batches := s.batches[f := s.batches[f][1..]])
  }

  predicate Possible(w: Windows, s: State, events: seq<Event>)
    decreases events
  {
    events != [] ==> Enabled(s, events[0]) && Possible(w, Next(w, s, events[0]), events[1..])
  }

  function After(w: Windows, s: State, events: seq<Event>): State
    requires Possible(w, s, events)
    decreases events
  {
    if events == [] then s else After(w, Next(w, s, events[0]), events[1..])
  }

  /** The payloads of one key. */
  function Of(log: seq<Message>, k: Key): seq<Bytes> {
    if log == [] then []
    else Of(log[..|log| - 1], k) + (if log[|log| - 1].key == k then [log[|log| - 1].payload] else [])
  }

  function Submitted(events: seq<Event>): seq<Message> {
    if events == [] then []
    else (if events[0].Submit? then [events[0].m] else []) + Submitted(events[1..])
  }

  /** `a` is `b` with some elements left out. */
  predicate Subsequence(a: seq<Bytes>, b: seq<Bytes>) {
    if a == [] then true
    else if b == [] then false
    else
      || (a[|a| - 1] == b[|b| - 1] && Subsequence(a[..|a| - 1], b[..|b| - 1]))
      || Subsequence(a, b[..|b| - 1])
  }

  lemma SubsequenceWider(a: seq<Bytes>, b: seq<Bytes>, x: Bytes)
    requires Subsequence(a, b)
    ensures Subsequence(a, b + [x]) && Subsequence(a + [x], b + [x])
  {
    assert (b + [x])[..|b|] == b && (a + [x])[..|a|] == a;
  }

  lemma {:induction false} SubsequenceDropLast(a: seq<Bytes>, b: seq<Bytes>)
    requires a != [] && Subsequence(a, b)
    ensures Subsequence(a[..|a| - 1], b)
    decreases |b|
  {
    var a', b' := a[..|a| - 1], b[..|b| - 1];
    assert b' + [b[|b| - 1]] == b;
    if a[|a| - 1] == b[|b| - 1] && Subsequence(a', b') {
      SubsequenceWider(a', b', b[|b| - 1]);
    } else {
      SubsequenceDropLast(a, b');
      SubsequenceWider(a', b', b[|b| - 1]);
    }
  }

  lemma OfSnoc(log: seq<Message>, m: Message, k: Key)
    ensures Of(log + [m], k) == Of(log, k) + (if m.key == k then [m.payload] else [])
  {
    assert (log + [m])[..|log|] == log;
  }

  lemma {:induction false} OfConcat(a: seq<Message>, b: seq<Message>, k: Key)
    ensures Of(a + b, k) == Of(a, k) + Of(b, k)
  {
    if b == [] {
      assert a + b == a;
    } else {
      var front, last := b[..|b| - 1], b[|b| - 1];
      OfConcat(a, front, k);
      OfSnoc(a + front, last, k);
      assert a + b == a + front + [last];
    }
  }

  lemma EmptyOf(k: Key)
    ensures Of([], k) == []
  {}

  lemma {:induction false} OfMessages(order: seq<Key>, pending: map<Key, Bytes>, k: Key)
    requires forall i :: 0 <= i < |order| ==> order[i] in pending
    requires forall i, j :: 0 <= i < j < |order| ==> order[i] != order[j]
    ensures Of(Messages(order, pending), k) == if k in order then [pending[k]] else []
  {
    if order != [] {
      OfMessages(order[1..], pending, k);
      var first := Message(order[0], pending[order[0]]);
      OfConcat([first], Messages(order[1..], pending), k);
      OfSnoc([], first, k);
      assert [] + [first] == [first];
    }
  }

  lemma OfSubmitted(e: Event, k: Key, submitted: seq<Bytes>)
    ensures submitted + Of(Submitted([e]), k)
         == submitted + (if e.Submit? && e.m.key == k then [e.m.payload] else [])
    ensures !e.Submit? ==> submitted + Of(Submitted([e]), k) == submitted
  {
    assert [e][1..] == [];
    EmptyOf(k);
    if e.Submit? {
      assert Submitted([e]) == [e.m] == [] + [e.m];
      OfSnoc([], e.m, k);
    }
  }

  lemma Associates(a: seq<Bytes>, b: seq<Bytes>, c: seq<Bytes>)
    ensures a + b + c == a + (b + c)
  {}

  lemma SubmittedCons(events: seq<Event>)
    requires events != []
    ensures Submitted(events) == Submitted([events[0]]) + Submitted(events[1..])
  {
    assert [events[0]][1..] == [];
  }

  lemma OfSubmittedCons(events: seq<Event>, k: Key, submitted: seq<Bytes>)
    requires events != []
    ensures submitted + Of(Submitted([events[0]]), k) + Of(Submitted(events[1..]), k)
         == submitted + Of(Submitted(events), k)
  {
    hide Of, Submitted;
    var first, rest := Submitted([events[0]]), Submitted(events[1..]);
    SubmittedCons(events);
    OfConcat(first, rest, k);
    Associates(submitted, Of(first, k), Of(rest, k));
  }

  // ----- keys without a window: any number of flushers, overlapping or not -----

  /** Such a key is never buffered, so nothing can overtake it. */
  ghost predicate Unbuffered(s: State, k: Key, submitted: seq<Bytes>) {
    && Of(s.published, k) == submitted && k !in s.pending
    && forall f :: 0 <= f < |s.batches| ==> Of(s.batches[f], k) == []
  }

  lemma StepKeepsUnbuffered(w: Windows, s: State, e: Event, k: Key, submitted: seq<Bytes>)
    requires w.For(k.kind) == 0 && Unbuffered(s, k, submitted) && Enabled(s, e)
    ensures Unbuffered(Next(w, s, e), k, submitted + Of(Submitted([e]), k))
  {
    hide Of, Messages, Submitted;
    EmptyOf(k);
    OfSubmitted(e, k, submitted);
    match e
    case Submit(m) => OfSnoc(s.published, m, k);
    case Begin(f, order) => OfMessages(order, s.pending, k);
    case Send(f) =>
      var head, rest := s.batches[f][0], s.batches[f][1..];
      assert s.batches[f] == [head] + rest;
      OfConcat([head], rest, k);
      OfConcat(s.published, [head], k);
  }

  lemma {:induction false} RunKeepsUnbuffered(w: Windows, s: State, events: seq<Event>, k: Key, submitted: seq<Bytes>)
    requires w.For(k.kind) == 0 && Unbuffered(s, k, submitted) && Possible(w, s, events)
    ensures Unbuffered(After(w, s, events), k, submitted + Of(Submitted(events), k))
    decreases events
  {
    hide Unbuffered, Enabled, Next;
    if events == [] {
      assert submitted + Of(Submitted(events), k) == submitted;
    } else {
      StepKeepsUnbuffered(w, s, events[0], k, submitted);
      RunKeepsUnbuffered(w, Next(w, s, events[0]), events[1..], k, submitted + Of(Submitted([events[0]]), k));
      OfSubmittedCons(events, k, submitted);
    }
  }

  // ----- keys with a window: flushes that do not overlap -----

  predicate AllSent(batches: seq<seq<Message>>) {
    forall f :: 0 <= f < |batches| ==> batches[f] == []
  }

  /** Each flush begins only when no other one has anything left to send. */
  predicate NonOverlapping(w: Windows, s: State, events: seq<Event>)
    requires Possible(w, s, events)
    decreases events
  {
    events != [] ==>
      && (events[0].Begin? ==> AllSent(s.batches))
      && NonOverlapping(w, Next(w, s, events[0]), events[1..])
  }

  predicate OneAtMost(batches: seq<seq<Message>>) {
    forall f, g :: 0 <= f < |batches| && 0 <= g < |batches| && batches[f] != [] && batches[g] != [] ==> f == g
  }

  /** What the flushers have taken and not yet published. */
  function Flying(batches: seq<seq<Message>>): seq<Message> {
    if batches == [] then [] else batches[0] + Flying(batches[1..])
  }

  lemma {:induction false} NothingFlying(batches: seq<seq<Message>>)
    requires AllSent(batches)
    ensures Flying(batches) == []
  {
    if batches != [] {
      NothingFlying(batches[1..]);
    }
  }

  lemma {:induction false} OneFlying(batches: seq<seq<Message>>, f: nat)
    requires f < |batches| && forall g :: 0 <= g < |batches| && g != f ==> batches[g] == []
    ensures Flying(batches) == batches[f]
  {
    if f == 0 {
      NothingFlying(batches[1..]);
      assert batches[0] + [] == batches[0];
    } else {
      OneFlying(batches[1..], f - 1);
      assert [] + batches[f] == batches[f];
    }
  }

  function Waiting(s: State, k: Key): seq<Bytes> {
    if k in s.pending then [s.pending[k]] else []
  }

  /** Everything of key `k` that has left or will leave, oldest first. */
  function Chain(s: State, k: Key): seq<Bytes> {
    Of(s.published, k) + Of(Flying(s.batches), k) + Waiting(s, k)
  }

  /** The invariant of one key with a window, `submitted` being its submissions so far. */
  ghost predicate KeyInOrder(s: State, k: Key, submitted: seq<Bytes>) {
    && OneAtMost(s.batches)
    && Subsequence(Chain(s, k), submitted)
    && (submitted != [] ==> Chain(s, k) != [] && Chain(s, k)[|Chain(s, k)| - 1] == submitted[|submitted| - 1])
  }

  /** Without the waiting payload, which the next submission replaces, the rest is still in order. */
  lemma SentInOrder(s: State, k: Key, submitted: seq<Bytes>)
    requires KeyInOrder(s, k, submitted)
    ensures Subsequence(Of(s.published, k) + Of(Flying(s.batches), k), submitted)
  {
    hide Subsequence, Of, Flying, OneAtMost;
    var sent := Of(s.published, k) + Of(Flying(s.batches), k);
    if k in s.pending {
      assert Chain(s, k)[..|Chain(s, k)| - 1] == sent;
      SubsequenceDropLast(Chain(s, k), submitted);
    } else {
      assert Chain(s, k) == sent;
    }
  }

  lemma SubmitKeepsOrder(w: Windows, s: State, m: Message, k: Key, submitted: seq<Bytes>)
    requires w.For(k.kind) > 0 && KeyInOrder(s, k, submitted)
    ensures KeyInOrder(Next(w, s, Submit(m)), k, submitted + (if m.key == k then [m.payload] else []))
  {
    hide Subsequence, Of, Flying, OneAtMost;
    OfSnoc(s.published, m, k);
    var s' := Next(w, s, Submit(m));
    if m.key != k {
      assert Chain(s', k) == Chain(s, k);
      assert submitted + [] == submitted;
    } else {
      var sent := Of(s.published, k) + Of(Flying(s.batches), k);
      SentInOrder(s, k, submitted);
      SubsequenceWider(sent, submitted, m.payload);
      assert Chain(s', k) == sent + [m.payload];
    }
  }

  lemma BeginKeepsOrder(w: Windows, s: State, f: nat, order: seq<Key>, k: Key, submitted: seq<Bytes>)
    requires KeyInOrder(s, k, submitted) && Enabled(s, Begin(f, order)) && AllSent(s.batches)
    ensures KeyInOrder(Next(w, s, Begin(f, order)), k, submitted)
  {
    hide Subsequence, Of, Messages, Flying;
    EmptyOf(k);
    OfMessages(order, s.pending, k);
    NothingFlying(s.batches);
    var s' := Next(w, s, Begin(f, order));
    OneFlying(s'.batches, f);
    assert Chain(s', k) == Chain(s, k);
  }

  lemma SendKeepsOrder(w: Windows, s: State, f: nat, k: Key, submitted: seq<Bytes>)
    requires KeyInOrder(s, k, submitted) && Enabled(s, Send(f))
    ensures KeyInOrder(Next(w, s, Send(f)), k, submitted)
  {
    hide Subsequence, Of, Flying;
    var head, rest := s.batches[f][0], s.batches[f][1..];
    assert s.batches[f] == [head] + rest;
    OneFlying(s.batches, f);
    var s' := Next(w, s, Send(f));
    OneFlying(s'.batches, f);
    OfConcat([head], rest, k);
    OfConcat(s.published, [head], k);
    assert Chain(s', k) == Chain(s, k);
  }

  lemma StepKeepsOrder(w: Windows, s: State, e: Event, k: Key, submitted: seq<Bytes>)
    requires w.For(k.kind) > 0 && KeyInOrder(s, k, submitted) && Enabled(s, e)
    requires e.Begin? ==> AllSent(s.batches)
    ensures KeyInOrder(Next(w, s, e), k, submitted + Of(Submitted([e]), k))
  {
    hide KeyInOrder, Of, Submitted;
    OfSubmitted(e, k, submitted);
    match e
    case Submit(m) => SubmitKeepsOrder(w, s, m, k, submitted);
    case Begin(f, order) => BeginKeepsOrder(w, s, f, order, k, submitted);
    case Send(f) => SendKeepsOrder(w, s, f, k, submitted);
  }

  lemma {:induction false} RunKeepsOrder(w: Windows, s: State, events: seq<Event>, k: Key, submitted: seq<Bytes>)
    requires w.For(k.kind) > 0 && KeyInOrder(s, k, submitted)
    requires Possible(w, s, events) && NonOverlapping(w, s, events)
    ensures KeyInOrder(After(w, s, events), k, submitted + Of(Submitted(events), k))
    decreases events
  {
    hide KeyInOrder, Enabled, Next;
    if events == [] {
      assert submitted + Of(Submitted(events), k) == submitted;
    } else {
      StepKeepsOrder(w, s, events[0], k, submitted);
      RunKeepsOrder(w, Next(w, s, events[0]), events[1..], k, submitted + Of(Submitted([events[0]]), k));
      OfSubmittedCons(events, k, submitted);
    }
  }

  // ----- whole runs from the start -----

  /** `n` flushers, nothing submitted. */
  function Start(n: nat): State {
    State(map[], seq(n, _ => []), [])
  }

  const START: State := Start(1)

  lemma StartInOrder(n: nat, k: Key)
    ensures KeyInOrder(Start(n), k, []) && Unbuffered(Start(n), k, [])
  {
    assert AllSent(Start(n).batches);
    NothingFlying(Start(n).batches);
  }

  /** Any number of flushers, fixed windows. A key with a zero window publishes every submission. Any
      other key, if flushes do not overlap, publishes a subsequence of its submissions, and its newest
      one is always pending, in the batch being sent, or the last one published. */
  lemma SerialFlushesKeepOrder(w: Windows, n: nat, events: seq<Event>, k: Key)
    requires Possible(w, Start(n), events)
    ensures var s, submitted := After(w, Start(n), events), Of(Submitted(events), k);
            && (w.For(k.kind) == 0 ==> Of(s.published, k) == submitted)
            && (w.For(k.kind) > 0 && NonOverlapping(w, Start(n), events) ==>
                  && Subsequence(Of(s.published, k), submitted)
                  && (submitted != [] ==>
                        var newest := submitted[|submitted| - 1];
                        var flying := Of(Flying(s.batches), k);
                        if k in s.pending then s.pending[k] == newest
                        else if flying != [] then flying[|flying| - 1] == newest
                        else Of(s.published, k) != [] && Of(s.published, k)[|Of(s.published, k)| - 1] == newest))
  {
    hide Possible, After, Next, Of, Submitted, Subsequence, Flying, NonOverlapping, OneAtMost, Start;
    StartInOrder(n, k);
    var s, submitted := After(w, Start(n), events), Of(Submitted(events), k);
    assert [] + submitted == submitted;
    if w.For(k.kind) == 0 {
      RunKeepsUnbuffered(w, Start(n), events, k, []);
    } else if NonOverlapping(w, Start(n), events) {
      RunKeepsOrder(w, Start(n), events, k, []);
      var unsent := Of(Flying(s.batches), k) + Waiting(s, k);
      assert Of(s.published, k) + unsent == Chain(s, k);
      SubsequencePrefix(Of(s.published, k), unsent, submitted);
    }
  }

  lemma {:induction false} SubsequencePrefix(a: seq<Bytes>, more: seq<Bytes>, b: seq<Bytes>)
    ensures Subsequence(a + more, b) ==> Subsequence(a, b)
    decreases more
  {
    if more == [] {
      assert a + more == a;
    } else if Subsequence(a + more, b) {
      SubsequenceDropLast(a + more, b);
      assert (a + more)[..|a + more| - 1] == a + more[..|more| - 1];
      SubsequencePrefix(a, more[..|more| - 1], b);
    }
  }

  lemma {:induction false} SubsequenceOfItself(a: seq<Bytes>)
    ensures Subsequence(a, a)
  {
    if a != [] {
      SubsequenceOfItself(a[..|a| - 1]);
    }
  }

  /** A single flusher cannot overlap with itself: it begins again only once its batch is sent. */
  lemma {:induction false} OneFlusherNeverOverlaps(w: Windows, s: State, events: seq<Event>)
    requires |s.batches| <= 1 && Possible(w, s, events)
    ensures NonOverlapping(w, s, events)
    decreases events
  {
    hide Messages, Enumerates;
    if events != [] {
      OneFlusherNeverOverlaps(w, Next(w, s, events[0]), events[1..]);
    }
  }

  ghost predicate KeepsOrder(w: Windows, n: nat, k: Key) {
    forall events: seq<Event> | Possible(w, Start(n), events) ::
      Subsequence(Of(After(w, Start(n), events).published, k), Of(Submitted(events), k))
  }

  /** Every run of `n` flushers keeps a key's order exactly when there is at most one of them, or the
      key has no window. */
  lemma OrderKeptIff(w: Windows, n: nat, k: Key)
    ensures KeepsOrder(w, n, k) <==> n <= 1 || w.For(k.kind) == 0
  {
    hide Possible, After, Of, Submitted, Subsequence, NonOverlapping, Flying, Next;
    if n <= 1 || w.For(k.kind) == 0 {
      forall events: seq<Event> | Possible(w, Start(n), events)
        ensures Subsequence(Of(After(w, Start(n), events).published, k), Of(Submitted(events), k))
      {
        if n <= 1 { OneFlusherNeverOverlaps(w, Start(n), events); }
        SerialFlushesKeepOrder(w, n, events, k);
        SubsequenceOfItself(Of(Submitted(events), k));
      }
    } else {
      var events := TwoFlushersReorder(w, n, k, [1], [2]);
      TwoOutOfOrder([1], [2]);
    }
  }

  lemma TwoOutOfOrder(v1: Bytes, v2: Bytes)
    requires v1 != v2
    ensures !Subsequence([v2, v1], [v1, v2])
  {
    assert [v1, v2][..1] == [v1] && [v1][..0] == [];
    assert !Subsequence([v2, v1], [v1]);
  }

  /** Two flushers can publish a key's submissions in the wrong order, and the newest one is not the
      one that stands. */
  lemma TwoFlushersReorder(w: Windows, n: nat, k: Key, v1: Bytes, v2: Bytes) returns (events: seq<Event>)
    requires n >= 2 && w.For(k.kind) > 0 && v1 != v2
    ensures Possible(w, Start(n), events)
    ensures Of(Submitted(events), k) == [v1, v2]
    ensures Of(After(w, Start(n), events).published, k) == [v2, v1]
    ensures After(w, Start(n), events) == State(map[], Start(n).batches, [Message(k, v2), Message(k, v1)])
  {
    hide Possible, After, Submitted, Of, Messages, Enumerates;
    var m1, m2 := Message(k, v1), Message(k, v2);
    var s0 := Start(n);
    var none := s0.batches;
    var e1, e2, e3, e4, e5, e6 := Submit(m1), Begin(0, [k]), Submit(m2), Begin(1, [k]), Send(1), Send(0);
    OneMessage(k, v1);
    OneMessage(k, v2);
    assert [m1][1..] == [] && [m2][1..] == [];
    var s1 := State(map[k := v1], none, []);
    assert s1 == Next(w, s0, e1);
    var s2 := State(map[], none[0 := [m1]], []);
    assert s2 == Next(w, s1, e2);
    var s3 := State(map[k := v2], none[0 := [m1]], []);
    assert s3 == Next(w, s2, e3);
    var s4 := State(map[], none[0 := [m1]][1 := [m2]], []);
    assert s4 == Next(w, s3, e4);
    var s5 := State(map[], none[0 := [m1]], [m2]);
    assert s5.batches == s4.batches[1 := []];
    assert s5 == Next(w, s4, e5);
    var s6 := State(map[], none, [m2, m1]);
    assert s6.batches == s5.batches[0 := []];
    assert s6 == Next(w, s5, e6);
    Finished(w, s6);
    Unfold(w, s5, e6, []);
    Unfold(w, s4, e5, [e6] + []);
    Unfold(w, s3, e4, [e5] + ([e6] + []));
    Unfold(w, s2, e3, [e4] + ([e5] + ([e6] + [])));
    Unfold(w, s1, e2, [e3] + ([e4] + ([e5] + ([e6] + []))));
    Unfold(w, s0, e1, [e2] + ([e3] + ([e4] + ([e5] + ([e6] + [])))));
    events := [e1] + ([e2] + ([e3] + ([e4] + ([e5] + ([e6] + [])))));
    assert Submitted(events) == [m1, m2];
    OfTwo(m1, m2, k);
    OfTwo(m2, m1, k);
  }

  lemma OfTwo(m1: Message, m2: Message, k: Key)
    requires m1.key == k && m2.key == k
    ensures Of([m1, m2], k) == [m1.payload, m2.payload]
  {
    EmptyOf(k);
    OfSnoc([], m1, k);
    OfSnoc([m1], m2, k);
    assert [] + [m1] == [m1] && [m1] + [m2] == [m1, m2];
  }

  lemma Finished(w: Windows, s: State)
    ensures Possible(w, s, []) && After(w, s, []) == s && Submitted([]) == []
  {}

  lemma OneMessage(k: Key, v: Bytes)
    ensures Messages([k], map[k := v]) == [Message(k, v)]
    ensures Enumerates([k], map[k := v].Keys)
  {
    assert [k][1..] == [];
    assert [k][0] == k;
  }

  lemma Unfold(w: Windows, s: State, e: Event, rest: seq<Event>)
    requires Enabled(s, e) && Possible(w, Next(w, s, e), rest)
    ensures Possible(w, s, [e] + rest) && After(w, s, [e] + rest) == After(w, Next(w, s, e), rest)
    ensures Submitted([e] + rest) == (if e.Submit? then [e.m] else []) + Submitted(rest)
  {
    hide Enabled, Next;
    assert ([e] + rest)[1..] == rest;
  }

  /** A window that is closed while a payload waits lets newer ones overtake it: the next flush publishes
      the waiting payload last, and it is the older one that stands. */
  lemma ClosedWindowLetsOvertake(before: Windows, after: Windows, k: Key, v1: Bytes, v2: Bytes)
    requires before.For(k.kind) > 0 && after.For(k.kind) == 0
    ensures var waiting := Next(before, Start(1), Submit(Message(k, v1)));
            var flush := [Submit(Message(k, v2))] + ([Begin(0, [k])] + ([Send(0)] + []));
            && waiting.pending == map[k := v1] && waiting.published == []
            && Possible(after, waiting, flush)
            && After(after, waiting, flush) == State(map[], [[]], [Message(k, v2), Message(k, v1)])
  {
    hide Possible, After, Messages, Enumerates;
    OneMessage(k, v1);
    var s0 := Next(before, Start(1), Submit(Message(k, v1)));
    assert s0 == State(map[k := v1], [[]], []);
    var s1 := Next(after, s0, Submit(Message(k, v2)));
    assert s1 == State(map[k := v1], [[]], [Message(k, v2)]);
    var s2 := Next(after, s1, Begin(0, [k]));
    assert s2 == State(map[], [[Message(k, v1)]], [Message(k, v2)]);
    var s3 := Next(after, s2, Send(0));
    assert [Message(k, v1)][1..] == [] && s2.batches[0 := []] == [[]];
    assert s3 == State(map[], [[]], [Message(k, v2), Message(k, v1)]);
    Finished(after, s3);
    Unfold(after, s2, Send(0), []);
    Unfold(after, s1, Begin(0, [k]), [Send(0)] + []);
    Unfold(after, s0, Submit(Message(k, v2)), [Begin(0, [k])] + ([Send(0)] + []));
  }

  // ----- an undisturbed flush -----

  function Sends(n: nat): seq<Event> {
    if n == 0 then [] else [Send(0)] + Sends(n - 1)
  }

  /** Taking the pending map and sending all of it. */
  function WholeFlush(order: seq<Key>): seq<Event> {
    [Begin(0, order)] + Sends(|order|)
  }

  lemma {:induction false} SendsDrain(w: Windows, s: State)
    requires |s.batches| == 1
    ensures Possible(w, s, Sends(|s.batches[0]|))
    ensures After(w, s, Sends(|s.batches[0]|)) == State(s.pending, [[]], s.published + s.batches[0])
    decreases |s.batches[0]|
  {
    var batch := s.batches[0];
    if batch == [] {
      assert s.published + batch == s.published;
    } else {
      var next := Next(w, s, Send(0));
      SendsDrain(w, next);
      Unfold(w, s, Send(0), Sends(|batch| - 1));
      assert s.published + [batch[0]] + batch[1..] == s.published + batch;
    }
  }

  lemma {:induction false} MessagesLength(order: seq<Key>, pending: map<Key, Bytes>)
    requires forall i :: 0 <= i < |order| ==> order[i] in pending
    ensures |Messages(order, pending)| == |order|
  {
    if order != [] {
      MessagesLength(order[1..], pending);
    }
  }

  lemma WholeFlushDrains(w: Windows, s: State, order: seq<Key>)
    requires |s.batches| == 1 && Enabled(s, Begin(0, order))
    ensures Possible(w, s, WholeFlush(order))
    ensures After(w, s, WholeFlush(order)) == State(map[], [[]], s.published + Messages(order, s.pending))
  {
    hide Messages, Possible, After;
    var next := Next(w, s, Begin(0, order));
    MessagesLength(order, s.pending);
    SendsDrain(w, next);
    Unfold(w, s, Begin(0, order), Sends(|order|));
  }

  // ----- the struct -----

  /** `published` is what the sink has been given; a single task runs these methods. */
  class Coalescer {
    var pending: map<Key, Bytes>
    var windows: Windows
    var published: seq<Message>

    ghost function View(): State
      reads this
    {
      State(pending, [[]], published)
    }

    constructor ()
      ensures View() == START && windows.For(Quote) == 50 && windows.For(Book) == 100 && windows.For(Trade) == 0
    {
      pending := map[];
      windows := Windows(50, 100, 0);
      published := [];
    }

    method SetWindow(kind: Kind, window: nat)
      modifies this`windows
      ensures forall k: Kind :: windows.For(k) == if k == kind then window else old(windows).For(k)
    {
      match kind
      case Quote => windows := windows.(quote := window);
      case Book => windows := windows.(book := window);
      case Trade => windows := windows.(trade := window);
    }

    method SubmitUpdate(key: Key, payload: Bytes)
      modifies this`pending, this`published
      ensures View() == Next(windows, old(View()), Submit(Message(key, payload)))
    {
      var window := windows.For(key.kind);
      if window == 0 {
        published := published + [Message(key, payload)];
        return;
      }
      pending := pending[key := payload];
    }

    /** Publishes every pending payload once, in some order, and leaves nothing pending. */
    method FlushOnce()
      modifies this`pending, this`published
      ensures pending == map[]
      ensures exists order :: && Enumerates(order, old(pending).Keys)
                              && Possible(windows, old(View()), WholeFlush(order))
                              && View() == After(windows, old(View()), WholeFlush(order))
    {
      hide Possible, After;
      var taken := pending;
      pending := map[];
      var rest := taken.Keys;
      ghost var order: seq<Key> := [];
      while rest != {}
        invariant rest <= taken.Keys && pending == map[]
        invariant Enumerates(order, taken.Keys - rest)
        invariant published == old(published) + Messages(order, taken)
        decreases rest
      {
        var key :| key in rest;
        published := published + [Message(key, taken[key])];
        MessagesSnoc(order, key, taken);
        order := order + [key];
        rest := rest - {key};
      }
      assert taken.Keys - rest == taken.Keys;
      WholeFlushDrains(windows, old(View()), order);
    }
  }

  lemma {:induction false} MessagesSnoc(order: seq<Key>, key: Key, pending: map<Key, Bytes>)
    requires key in pending && forall i :: 0 <= i < |order| ==> order[i] in pending
    ensures Messages(order + [key], pending) == Messages(order, pending) + [Message(key, pending[key])]
  {
    if order == [] {
      assert order + [key] == [key];
      assert [key][1..] == [];
    } else {
      MessagesSnoc(order[1..], key, pending);
      assert (order + [key])[1..] == order[1..] + [key];
    }
  }
}
