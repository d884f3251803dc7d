/** The connection handshake (crates/cedro-client/src/handshake.rs): four prompts are awaited in
    turn, wherever they turn up in the server's bytes, and three lines are sent in between. */
module Handshake {
  import opened Base

  // ----- searching -----

  predicate Occurs(s: Bytes, needle: Bytes, p: nat) {
    p + |needle| <= |s| && s[p..p + |needle|] == needle
  }

  /** `memmem::find` from position `from` on. */
  function FindFrom(s: Bytes, needle: Bytes, from: nat): (r: Option<nat>)
    requires from <= |s|
    ensures r.Some? ==> from <= r.value && Occurs(s, needle, r.value)
    ensures r.Some? ==> forall q :: from <= q < r.value ==> !Occurs(s, needle, q)
    ensures r.None? ==> forall q :: from <= q ==> !Occurs(s, needle, q)
    decreases |s| - from
  {
    if Occurs(s, needle, from) then Some(from)
    else if from == |s| then None
    else FindFrom(s, needle, from + 1)
  }

  function Find(s: Bytes, needle: Bytes): Option<nat> {
    FindFrom(s, needle, 0)
  }

  lemma FoundNowhere(s: Bytes, needle: Bytes)
    requires Find(s, needle).None?
    ensures forall q :: !Occurs(s, needle, q)
  {
    hide Occurs;
  }

  lemma FoundThere(s: Bytes, needle: Bytes)
    requires Find(s, needle).Some?
    ensures Occurs(s, needle, Find(s, needle).value) && Find(s, needle).value + |needle| <= |s|
  {}

  /** A match in the bytes so far is the leftmost match of the whole stream. */
  lemma FindInPrefix(s: Bytes, rest: Bytes, needle: Bytes)
    requires Find(s, needle).Some?
    ensures Find(s + rest, needle) == Find(s, needle)
  {
    var p := Find(s, needle).value;
    assert (s + rest)[p..p + |needle|] == s[p..p + |needle|];
    assert Occurs(s + rest, needle, p);
    forall q: nat | q < p ensures !Occurs(s + rest, needle, q) {
      assert (s + rest)[q..q + |needle|] == s[q..q + |needle|];
      assert !Occurs(s, needle, q);
    }
  }

  // ----- placing several prompts -----

  /** How many of the prompts the leftmost search finds one after the other. */
  function Greedy(s: Bytes, needles: seq<Bytes>): (n: nat)
    ensures n <= |needles|
    decreases needles
  {
    if needles == [] then 0
    else
      match Find(s, needles[0])
      case None => 0
      case Some(p) => 1 + Greedy(s[p + |needles[0]|..], needles[1..])
  }

  /** What is left of the stream behind the last prompt, once all are found. */
  function Rest(s: Bytes, needles: seq<Bytes>): (r: Bytes)
    ensures |r| <= |s|
    decreases needles
  {
    if needles == [] then s
    else
      match Find(s, needles[0])
      case None => s
      case Some(p) => FoundThere(s, needles[0]); Rest(s[p + |needles[0]|..], needles[1..])
  }

  /** `at` places the prompts in order and without overlap. */
  ghost predicate Placed(s: Bytes, needles: seq<Bytes>, at: seq<nat>) {
    && |at| == |needles|
    && (forall i :: 0 <= i < |at| ==> Occurs(s, needles[i], at[i]))
    && (forall i, j :: 0 <= i < j < |at| ==> at[i] + |needles[i]| <= at[j])
  }

  lemma OccursShifted(s: Bytes, needle: Bytes, from: nat, p: nat)
    requires from <= p && from <= |s|
    ensures Occurs(s, needle, p) <==> Occurs(s[from..], needle, p - from)
  {
    if p + |needle| <= |s| {
      assert s[p..p + |needle|] == s[from..][p - from..p - from + |needle|];
    }
  }

  lemma PlacedShifts(s: Bytes, needles: seq<Bytes>, at: seq<nat>)
    requires needles != [] && Placed(s, needles, at) && Find(s, needles[0]).Some?
    ensures var from := Find(s, needles[0]).value + |needles[0]|;
            exists at' :: Placed(s[from..], needles[1..], at')
  {
    var from := Find(s, needles[0]).value + |needles[0]|;
    assert from <= |s|;
    ShiftedPlacement(s, needles, at, from);
  }

  lemma ShiftedPlacement(s: Bytes, needles: seq<Bytes>, at: seq<nat>, from: nat)
    requires needles != [] && Placed(s, needles, at) && Find(s, needles[0]).Some?
    requires from == Find(s, needles[0]).value + |needles[0]| <= |s|
    ensures exists at' :: Placed(s[from..], needles[1..], at')
  {
    hide Occurs;
    assert at[0] + |needles[0]| >= from by { assert Occurs(s, needles[0], at[0]); }
    var at' := seq(|at| - 1, i requires 0 <= i < |at| - 1 =>
                 (assert at[0] + |needles[0]| <= at[i + 1]; at[i + 1] - from));
    forall i | 0 <= i < |at'| ensures Occurs(s[from..], needles[1..][i], at'[i]) {
      assert Occurs(s, needles[i + 1], at[i + 1]);
      OccursShifted(s, needles[i + 1], from, at[i + 1]);
    }
    assert Placed(s[from..], needles[1..], at');
  }

  /** The leftmost search misses nothing: it gets through the first `k` prompts exactly when they can
      be placed at all. */
  lemma {:induction false} GreedyIsComplete(s: Bytes, needles: seq<Bytes>, k: nat)
    requires k <= |needles|
    ensures Greedy(s, needles) >= k <==> exists at :: Placed(s, needles[..k], at)
    decreases needles
  {
    hide Occurs, Find;
    if k == 0 {
      assert Placed(s, needles[..0], []);
    } else {
      var found := Find(s, needles[0]);
      assert needles[..k][0] == needles[0];
      if found.None? {
        FoundNowhere(s, needles[0]);
        forall at ensures !Placed(s, needles[..k], at) {
          assert |at| > 0 ==> !Occurs(s, needles[0], at[0]);
        }
      } else {
        FoundThere(s, needles[0]);
        var from := found.value + |needles[0]|;
        GreedyIsComplete(s[from..], needles[1..], k - 1);
        assert needles[..k][1..] == needles[1..][..k - 1];
        if at :| Placed(s, needles[..k], at) {
          PlacedShifts(s, needles[..k], at);
        }
        var rest, others := s[from..], needles[1..][..k - 1];
        if at' :| Placed(rest, others, at') {
          PlacedExtends(s, needles[..k], found.value, at');
        }
      }
    }
  }

  lemma PlacedExtends(s: Bytes, needles: seq<Bytes>, p: nat, at': seq<nat>)
    requires needles != [] && Occurs(s, needles[0], p) && p + |needles[0]| <= |s|
    requires Placed(s[p + |needles[0]|..], needles[1..], at')
    ensures exists at :: Placed(s, needles, at)
  {
    hide Occurs;
    var from := p + |needles[0]|;
    var at := [p] + seq(|at'|, i requires 0 <= i < |at'| => at'[i] + from);
    forall i | 0 <= i < |at| ensures Occurs(s, needles[i], at[i]) {
      if i > 0 {
        assert Occurs(s[from..], needles[1..][i - 1], at'[i - 1]);
        OccursShifted(s, needles[i], from, at[i]);
      }
    }
    assert Placed(s, needles, at);
  }

  // ----- the connection -----

  /** What the wait for more bytes ends in: bytes, or one of the ways to give up. */
  datatype ReadResult = Data(chunk: Bytes) | Eof | DeadlinePassed | IoFailed

  /** Line `k` is sent after prompt `k`. */
  datatype HandshakeStep = Await(prompt: nat) | Send(line: nat)

  datatype WriteResult = Written | WriteFailed | FlushFailed

  datatype ClientError =
    | HandshakeTimeout(step: HandshakeStep)
    | HandshakeIo(step: HandshakeStep)
    | UnexpectedEof
    | CommandWrite

  /** The bytes that arrive before the first end of stream, deadline or failure. */
  function Usable(input: seq<ReadResult>): Bytes {
    if input == [] || !input[0].Data? then [] else input[0].chunk + Usable(input[1..])
  }

  lemma NoneUsable(input: seq<ReadResult>)
    requires input == [] || !input[0].Data?
    ensures Usable(input) == []
  {}

  /** Chunks join in order, and nothing behind the first end, deadline or failure counts. */
  lemma {:induction false} UsableInOrder(input: seq<ReadResult>, more: seq<ReadResult>, chunk: Bytes)
    requires forall i :: 0 <= i < |input| ==> input[i].Data?
    ensures Usable([Data(chunk)]) == chunk
    ensures Usable(input + more) == Usable(input) + Usable(more)
    ensures more != [] && !more[0].Data? ==> Usable(more) == []
    decreases input
  {
    assert [Data(chunk)][1..] == [] && chunk + [] == chunk && Usable([]) == [];
    if input == [] {
      assert input + more == more;
    } else {
      UsableInOrder(input[1..], more, chunk);
      assert (input + more)[1..] == input[1..] + more;
      assert input[0].chunk + (Usable(input[1..]) + Usable(more)) == input[0].chunk + Usable(input[1..]) + Usable(more);
    }
  }

  /** How the input ends once its usable bytes are spent; a closed connection if nothing is said. */
  function Ending(input: seq<ReadResult>): (e: ReadResult)
    ensures !e.Data?
  {
    if input == [] then Eof
    else if input[0].Data? then Ending(input[1..])
    else input[0]
  }

  lemma {:induction false} EndingIsFirst(input: seq<ReadResult>)
    ensures (forall i :: 0 <= i < |input| ==> input[i].Data?) ==> Ending(input) == Eof
    ensures forall k :: 0 <= k < |input| && !input[k].Data? && (forall i :: 0 <= i < k ==> input[i].Data?) ==>
      Ending(input) == input[k]
  {
    if input != [] && input[0].Data? {
      EndingIsFirst(input[1..]);
      forall k | 0 <= k < |input| && !input[k].Data? && (forall i :: 0 <= i < k ==> input[i].Data?)
        ensures Ending(input) == input[k]
      {
        assert input[k] == input[1..][k - 1];
        assert forall i :: 0 <= i < k - 1 ==> input[1..][i] == input[i + 1];
      }
    }
  }

  /** The error of a wait that ended in `e` during step `step`. */
  function ErrorOf(e: ReadResult, step: HandshakeStep): ClientError
    requires !e.Data?
  {
    match e
    case Eof => UnexpectedEof
    case DeadlinePassed => HandshakeTimeout(step)
    case IoFailed => HandshakeIo(step)
  }

  function WriteError(w: WriteResult, step: HandshakeStep): ClientError {
    if w.FlushFailed? then CommandWrite else HandshakeIo(step)
  }

  /** How many of the writes succeed before one fails. */
  function SuccessfulWrites(writes: seq<WriteResult>): (n: nat)
    ensures n <= |writes|
    ensures n < |writes| ==> !writes[n].Written?
    ensures forall i :: 0 <= i < n ==> writes[i].Written?
  {
    if writes == [] || !writes[0].Written? then 0 else 1 + SuccessfulWrites(writes[1..])
  }

  /** `Wrote` is a line sent to its end; a failed write may have sent a part of its line. */
  datatype Action = Saw(prompt: nat) | Wrote(line: Bytes)

  datatype Config = Config(softwareKey: Bytes, username: Bytes, password: Bytes)

  function Ascii(s: string): Bytes {
    seq(|s|, i requires 0 <= i < |s| => s[i] as int % 256)
  }

  const PROMPTS: seq<Bytes> :=
    [Ascii("Welcome to Cedro"), Ascii("Username:"), Ascii("Password:"), Ascii("You are connected")]

  /** The bytes of `Welcome to Cedro`, `Username:`, `Password:` and `You are connected`. */
  lemma PromptBytes()
    ensures PROMPTS
         == [[87, 101, 108, 99, 111, 109, 101, 32, 116, 111, 32, 67, 101, 100, 114, 111],
             [85, 115, 101, 114, 110, 97, 109, 101, 58], [80, 97, 115, 115, 119, 111, 114, 100, 58],
             [89, 111, 117, 32, 97, 114, 101, 32, 99, 111, 110, 110, 101, 99, 116, 101, 100]]
  {
    hide Ascii;
    WelcomeBytes();
    LoginBytes();
    ConnectedBytes();
  }

  lemma WelcomeBytes()
    ensures Ascii("Welcome to Cedro") == [87, 101, 108, 99, 111, 109, 101, 32, 116, 111, 32, 67, 101, 100, 114, 111]
  {}

  lemma LoginBytes()
    ensures Ascii("Username:") == [85, 115, 101, 114, 110, 97, 109, 101, 58]
    ensures Ascii("Password:") == [80, 97, 115, 115, 119, 111, 114, 100, 58]
  {}

  lemma ConnectedBytes()
    ensures Ascii("You are connected")
         == [89, 111, 117, 32, 97, 114, 101, 32, 99, 111, 110, 110, 101, 99, 116, 101, 100]
  {}

  const CRLF: Bytes := [13, 10]

  function Lines(c: Config): seq<Bytes> {
    [c.softwareKey + CRLF, c.username + CRLF, c.password + CRLF]
  }

  /** What the client does once `k` prompts have arrived: each line right after its prompt. */
  function Script(c: Config, k: nat): seq<Action> {
    if k == 0 then []
    else Script(c, k - 1) + [Saw(k - 1)] + (if k <= 3 then [Wrote(Lines(c)[k - 1])] else [])
  }

  /** The whole conversation, and that a shorter one is its beginning. */
  lemma ScriptBytes(c: Config)
    ensures Script(c, 4)
         == [Saw(0), Wrote(c.softwareKey + [13, 10]), Saw(1), Wrote(c.username + [13, 10]), Saw(2),
             Wrote(c.password + [13, 10]), Saw(3)]
    ensures forall k: nat :: k < 4 ==> |Script(c, k)| == 2 * k && Script(c, k) + [Saw(k)] <= Script(c, 4)
  {
    hide Script;
    ScriptSteps(c);
    var s1, s2, s3, s4 := Script(c, 1), Script(c, 2), Script(c, 3), Script(c, 4);
    assert s1 == [Saw(0), Wrote(c.softwareKey + [13, 10])];
    assert s2 == s1 + [Saw(1), Wrote(c.username + [13, 10])];
    assert s3 == s2 + [Saw(2), Wrote(c.password + [13, 10])];
    assert s4 == s3 + [Saw(3)];
    forall k: nat | k < 4 ensures |Script(c, k)| == 2 * k && Script(c, k) + [Saw(k)] <= s4 {
      if k == 0 {} else if k == 1 {} else if k == 2 {} else {}
    }
  }

  // ----- where the reads end -----

  /** How many bytes the first `k` reads deliver. */
  function Delivered(input: seq<ReadResult>, k: nat): nat
    requires k <= |input|
  {
    |Usable(input[..k])|
  }

  ghost predicate AllData(input: seq<ReadResult>, k: nat) {
    k <= |input| && forall i :: 0 <= i < k ==> input[i].Data?
  }

  /** One of the reads ends exactly behind the first `n` bytes. */
  ghost predicate ReadEndsAt(input: seq<ReadResult>, n: nat) {
    exists k :: AllData(input, k) && Delivered(input, k) == n
  }

  lemma {:induction false} DeliveredStep(input: seq<ReadResult>, k: nat)
    requires AllData(input, k + 1)
    ensures Delivered(input, k + 1) == Delivered(input, k) + |input[k].chunk|
  {
    if k == 0 {
      assert input[..1] == [input[0]] && input[..1][1..] == [];
      assert Usable([]) == [] && input[0].chunk + [] == input[0].chunk;
      assert input[..0] == [];
    } else {
      DeliveredStep(input[1..], k - 1);
      assert input[..k + 1][1..] == input[1..][..k] && input[..k][1..] == input[1..][..k - 1];
    }
  }

  lemma {:induction false} DeliveredGrows(input: seq<ReadResult>, j: nat, k: nat)
    requires AllData(input, k) && j <= k
    ensures Delivered(input, j) <= Delivered(input, k)
    decreases k - j
  {
    if j < k {
      DeliveredStep(input, j);
      DeliveredGrows(input, j + 1, k);
    }
  }

  /** With no read ending in between, `used` is the end of a read only if nothing is buffered. */
  lemma BoundaryIff(input: seq<ReadResult>, taken: nat, used: nat, buffered: nat)
    requires AllData(input, taken) && Delivered(input, taken) == used + buffered
    requires buffered > 0 ==> taken > 0 && Delivered(input, taken - 1) < used
    ensures buffered == 0 <==> ReadEndsAt(input, used)
  {
    hide Delivered;
    if buffered > 0 {
      forall k: nat | AllData(input, k) ensures Delivered(input, k) != used {
        if k < taken {
          DeliveredGrows(input, k, taken - 1);
        } else {
          DeliveredGrows(input, taken, k);
        }
      }
    }
  }

  /** `HandshakeBuf` together with the connection behind it. The ghosts remember the whole input, how
      many reads were taken from it, and how many bytes the steps have used up. */
  class HandshakeBuf {
    var input: seq<ReadResult>
    var buf: Bytes
    var log: seq<Action>
    ghost var all: seq<ReadResult>
    ghost var taken: nat
    ghost var used: nat

    /** The server's bytes that no step has used up. */
    function Stream(): Bytes
      reads this`input, this`buf
    {
      buf + Usable(input)
    }

    ghost predicate Accounted()
      reads this`input, this`buf, this`all, this`taken, this`used
    {
      AllData(all, taken) && input == all[taken..] && Delivered(all, taken) == used + |buf|
    }

    /** No read was made before the bytes at hand were used up. */
    ghost predicate Frugal()
      reads this`input, this`buf, this`all, this`taken, this`used
    {
      Accounted() && (buf != [] ==> taken > 0 && Delivered(all, taken - 1) < used)
    }

    /** The last read was made in vain search of `needle`. */
    ghost predicate Searched(needle: Bytes)
      reads this`input, this`buf, this`all, this`taken, this`used
    {
      && Accounted() && taken > 0 && used <= Delivered(all, taken - 1) <= used + |buf|
      && Find(buf[..Delivered(all, taken - 1) - used], needle).None?
    }

    constructor (input: seq<ReadResult>)
      ensures Stream() == Usable(input) && log == [] && all == this.input == input && used == 0 && Frugal()
    {
      this.input := input;
      buf := [];
      log := [];
      all := input;
      taken := 0;
      used := 0;
    }

    method ConsumeUntil(needle: Bytes, step: nat) returns (r: Result<(), ClientError>)
      requires Frugal()
      modifies this
      ensures all == old(all)
      ensures r.Success? <==> Find(old(Stream()), needle).Some?
      ensures r.Success? ==>
        && Stream() == old(Stream())[Find(old(Stream()), needle).value + |needle|..]
        && log == old(log) + [Saw(step)]
      ensures r.Success? ==> Frugal() && used - old(used) == |old(Stream())| - |Stream()|
      ensures r.Success? ==> Ending(input) == Ending(old(input))
      ensures r.Failure? ==> log == old(log) && r.error == ErrorOf(Ending(old(input)), Await(step))
    {
      hide Find, Usable, Accounted, Frugal, Searched;
      while true
        invariant Stream() == old(Stream()) && log == old(log) && Ending(input) == Ending(old(input))
        invariant all == old(all) && used == old(used)
        invariant Frugal() || Searched(needle)
        decreases |input|
      {
        var pos := Find(buf, needle);
        if pos.Some? {
          Discard(needle, pos.value);
          log := log + [Saw(step)];
          return Success(());
        }
        if input == [] || !input[0].Data? {
          assert Stream() == buf by { NoneUsable(input); }
          return Failure(if input == [] || input[0].Eof? then UnexpectedEof
                         else if input[0].DeadlinePassed? then HandshakeTimeout(Await(step))
                         else HandshakeIo(Await(step)));
        }
        Take(needle);
      }
    }

    /** The `drain` that ends a step. */
    method Discard(needle: Bytes, pos: nat)
      requires Find(buf, needle) == Some(pos) && (Frugal() || Searched(needle))
      modifies this`buf, this`used
      ensures Frugal()
      ensures Find(old(Stream()), needle) == Some(pos)
      ensures pos + |needle| <= |old(Stream())| && Stream() == old(Stream())[pos + |needle|..]
      ensures used == old(used) + pos + |needle|
    {
      hide Find, Delivered, Usable;
      var end := pos + |needle|;
      FoundThere(buf, needle);
      FindInPrefix(buf, Usable(input), needle);
      assert Stream()[end..] == buf[end..] + Usable(input);
      if Searched(needle) { LaterThan(buf, needle, Delivered(all, taken - 1) - used); }
      buf := buf[end..];
      used := used + end;
    }

    /** One read. */
    method Take(ghost needle: Bytes)
      requires (Frugal() || Searched(needle)) && input != [] && input[0].Data? && Find(buf, needle).None?
      modifies this`input, this`buf, this`taken
      ensures buf == old(buf) + old(input)[0].chunk && input == old(input)[1..]
      ensures Searched(needle) && Stream() == old(Stream())
    {
      hide Find;
      assert all[..taken + 1][..taken] == all[..taken];
      assert AllData(all, taken + 1);
      DeliveredStep(all, taken);
      assert buf + Usable(input) == buf + input[0].chunk + Usable(input[1..]);
      assert (buf + input[0].chunk)[..|buf|] == buf;
      buf := buf + input[0].chunk;
      input := input[1..];
      taken := taken + 1;
    }

    /** `outcome` is what the writes and the flush of this line end in. */
    method WriteLine(payload: Bytes, line: nat, outcome: WriteResult) returns (r: Result<(), ClientError>)
      modifies this`log
      ensures r.Success? <==> outcome.Written?
      ensures log == if r.Success? then old(log) + [Wrote(payload + CRLF)] else old(log)
      ensures r.Failure? ==> r.error == WriteError(outcome, Send(line))
    {
      var out := payload;
      out := out + CRLF;
      match outcome
      case WriteFailed => return Failure(HandshakeIo(Send(line)));
      case FlushFailed => return Failure(CommandWrite);
      case Written =>
        log := log + [Wrote(out)];
        r := Success(());
    }
  }

  /** A match that the first `m` bytes do not hold ends behind them. */
  lemma LaterThan(s: Bytes, needle: Bytes, m: nat)
    requires m <= |s| && Find(s[..m], needle).None? && Find(s, needle).Some?
    ensures Find(s, needle).value + |needle| > m
  {
    hide Find, Occurs;
    FoundThere(s, needle);
    FoundNowhere(s[..m], needle);
    OccursWithin(s, m, needle, Find(s, needle).value);
  }

  lemma OccursWithin(s: Bytes, m: nat, needle: Bytes, p: nat)
    requires m <= |s| && Occurs(s, needle, p)
    ensures p + |needle| <= m ==> Occurs(s[..m], needle, p)
  {
    assert p + |needle| <= m ==> s[..m][p..p + |needle|] == s[p..p + |needle|];
  }

  /** The prompt behind which the conversation breaks off because its line cannot be sent. */
  predicate BreaksOff(prompts: nat, lines: nat) {
    lines < 3 && lines < prompts
  }

  /** The handshake succeeds exactly when all four prompts are found and all three lines can be sent.
      Up to its end or failure it has written exactly the lines of the prompts that arrived, each after
      its prompt; and a failure is put down to the first prompt that did not arrive, or the first line
      that could not be sent, whichever comes first. */
  ghost predicate Outcome(s: Bytes, ending: ReadResult, writes: seq<WriteResult>, c: Config,
      r: Result<(), ClientError>, log: seq<Action>)
    requires |writes| == 3 && !ending.Data?
  {
    var prompts, lines := Greedy(s, PROMPTS), SuccessfulWrites(writes);
    && (r.Success? <==> prompts == 4 && lines == 3)
    && log == (if BreaksOff(prompts, lines) then Script(c, lines) + [Saw(lines)] else Script(c, prompts))
    && (r.Failure? ==> r.error == if BreaksOff(prompts, lines) then WriteError(writes[lines], Send(lines))
                                  else ErrorOf(ending, Await(prompts)))
  }

  /** The buffer ends with the handshake: the reader goes on with `left`, and misses nothing exactly when
      a read ended right behind the last prompt. */
  method Perform(input: seq<ReadResult>, writes: seq<WriteResult>, c: Config)
    returns (r: Result<(), ClientError>, log: seq<Action>, left: seq<ReadResult>)
    requires |writes| == 3
    ensures Outcome(Usable(input), Ending(input), writes, c, r, log)
    ensures r.Success? ==>
      var rest := Rest(Usable(input), PROMPTS);
      (Usable(left) == rest <==> ReadEndsAt(input, |Usable(input)| - |rest|))
  {
    hide Find, Ascii, Greedy, Rest, Ending, ReadEndsAt, Delivered, AllData, SuccessfulWrites, Outcome,
         HandshakeBuf.Accounted;
    var hs := new HandshakeBuf(input);
    r := Converse(hs, writes, c);
    log, left := hs.log, hs.input;
    if r.Success? {
      SpentBuffer(hs);
      assert hs.used == |Usable(input)| - |Rest(Usable(input), PROMPTS)|;
      assert hs.buf == [] ==> Usable(left) == hs.Stream();
    }
  }

  /** The same outcome byte by byte. The server's bytes decide by the four prompts `Welcome to Cedro`,
      `Username:`, `Password:` and `You are connected`; the log is the whole conversation or its beginning,
      and how long it is tells which prompt or which line the failure is put down to. */
  lemma OutcomeInBytes(input: seq<ReadResult>, writes: seq<WriteResult>, c: Config,
      r: Result<(), ClientError>, log: seq<Action>)
    requires |writes| == 3 && Outcome(Usable(input), Ending(input), writes, c, r, log)
    ensures r.Success? <==>
      && writes == [Written, Written, Written]
      && exists at :: Placed(Usable(input),
           [[87, 101, 108, 99, 111, 109, 101, 32, 116, 111, 32, 67, 101, 100, 114, 111],
            [85, 115, 101, 114, 110, 97, 109, 101, 58], [80, 97, 115, 115, 119, 111, 114, 100, 58],
            [89, 111, 117, 32, 97, 114, 101, 32, 99, 111, 110, 110, 101, 99, 116, 101, 100]], at)
    ensures var whole := [Saw(0), Wrote(c.softwareKey + [13, 10]), Saw(1), Wrote(c.username + [13, 10]), Saw(2),
                          Wrote(c.password + [13, 10]), Saw(3)];
            if r.Success? then log == whole else log < whole
    ensures r.Failure? && |log| % 2 == 1 ==>
      r.error == match writes[|log| / 2] case FlushFailed => CommandWrite case _ => HandshakeIo(Send(|log| / 2))
    ensures r.Failure? && |log| % 2 == 0 ==>
      && ((forall i :: 0 <= i < |input| ==> input[i].Data?) ==> r.error == UnexpectedEof)
      && forall k :: 0 <= k < |input| && !input[k].Data? && (forall i :: 0 <= i < k ==> input[i].Data?) ==>
           r.error == match input[k]
                      case DeadlinePassed => HandshakeTimeout(Await(|log| / 2))
                      case IoFailed => HandshakeIo(Await(|log| / 2))
                      case _ => UnexpectedEof
  {
    hide Ascii, Greedy, Usable, Ending, ErrorOf, WriteError, BreaksOff, SuccessfulWrites, Script, Placed;
    var prompts, lines := Greedy(Usable(input), PROMPTS), SuccessfulWrites(writes);
    ThreeWrites(writes);
    if r.Success? {
      SucceedsIffPlaceable(input);
      ScriptBytes(c);
      assert log == Script(c, 4) by { NoBreak(prompts, lines); }
    } else {
      HowFar(c, prompts, lines);
      ScriptBytes(c);
      if BreaksOff(prompts, lines) {
        assert |log| == 2 * lines + 1 && |log| / 2 == lines;
      } else {
        assert |log| == 2 * prompts && |log| / 2 == prompts;
        ErrorOfEnding(input, Await(prompts));
      }
      SucceedsIffPlaceable(input);
    }
  }

  lemma NoBreak(prompts: nat, lines: nat)
    requires lines == 3
    ensures !BreaksOff(prompts, lines)
  {}

  lemma ThreeWrites(writes: seq<WriteResult>)
    requires |writes| == 3
    ensures SuccessfulWrites(writes) == 3 <==> writes == [Written, Written, Written]
    ensures var lines := SuccessfulWrites(writes);
            lines < 3 ==>
              WriteError(writes[lines], Send(lines))
              == match writes[lines] case FlushFailed => CommandWrite case _ => HandshakeIo(Send(lines))
  {
    hide SuccessfulWrites;
  }

  /** How long the log is tells what went wrong: it breaks off behind a prompt or before one. */
  lemma HowFar(c: Config, prompts: nat, lines: nat)
    requires prompts <= 4 && lines <= 3 && !(prompts == 4 && lines == 3)
    ensures BreaksOff(prompts, lines) ==>
      var log := Script(c, lines) + [Saw(lines)]; lines < 3 && |log| == 2 * lines + 1 && log < Script(c, 4)
    ensures !BreaksOff(prompts, lines) ==> |Script(c, prompts)| == 2 * prompts && Script(c, prompts) < Script(c, 4)
  {
    hide Script;
    ScriptBytes(c);
    if !BreaksOff(prompts, lines) {
      assert prompts < 4 && Script(c, prompts) + [Saw(prompts)] <= Script(c, 4);
    }
  }

  lemma ErrorOfEnding(input: seq<ReadResult>, step: HandshakeStep)
    ensures (forall i :: 0 <= i < |input| ==> input[i].Data?) ==> ErrorOf(Ending(input), step) == UnexpectedEof
    ensures forall k :: 0 <= k < |input| && !input[k].Data? && (forall i :: 0 <= i < k ==> input[i].Data?) ==>
      ErrorOf(Ending(input), step)
      == match input[k]
         case DeadlinePassed => HandshakeTimeout(step)
         case IoFailed => HandshakeIo(step)
         case _ => UnexpectedEof
  {
    hide Ending;
    EndingIsFirst(input);
  }

  lemma SpentBuffer(hs: HandshakeBuf)
    requires hs.Frugal()
    ensures hs.buf == [] <==> ReadEndsAt(hs.all, hs.used)
  {
    BoundaryIff(hs.all, hs.taken, hs.used, |hs.buf|);
  }

  method Converse(hs: HandshakeBuf, writes: seq<WriteResult>, c: Config) returns (r: Result<(), ClientError>)
    requires hs.log == [] && hs.used == 0 && hs.Frugal() && |writes| == 3
    modifies hs
    ensures hs.all == old(hs.all)
    ensures Outcome(old(hs.Stream()), Ending(old(hs.input)), writes, c, r, hs.log)
    ensures r.Success? ==> hs.Frugal() && hs.Stream() == Rest(old(hs.Stream()), PROMPTS)
    ensures r.Success? ==> hs.used == |old(hs.Stream())| - |hs.Stream()|
  {
    hide Find, Ascii, Greedy, Rest, Along, Ending, Usable, Script, SuccessfulWrites, HandshakeBuf.Stream, HandshakeBuf.Frugal;
    ghost var s0 := hs.Stream();
    AlongStart(s0);
    ScriptSteps(c);
    AlongStep(s0, hs.Stream(), 0);
    r := hs.ConsumeUntil(PROMPTS[0], 0);
    if r.Failure? { return; }
    r := hs.WriteLine(c.softwareKey, 0, writes[0]);
    if r.Failure? { return; }
    AlongStep(s0, hs.Stream(), 1);
    r := hs.ConsumeUntil(PROMPTS[1], 1);
    if r.Failure? { return; }
    r := hs.WriteLine(c.username, 1, writes[1]);
    if r.Failure? { return; }
    AlongStep(s0, hs.Stream(), 2);
    r := hs.ConsumeUntil(PROMPTS[2], 2);
    if r.Failure? { return; }
    r := hs.WriteLine(c.password, 2, writes[2]);
    if r.Failure? { return; }
    AlongStep(s0, hs.Stream(), 3);
    r := hs.ConsumeUntil(PROMPTS[3], 3);
    if r.Failure? { return; }
    AlongEnd(s0, hs.Stream());
  }

  /** `stream` is what `s0` leaves behind its first `k` prompts. */
  ghost predicate Along(s0: Bytes, stream: Bytes, k: nat)
    requires k <= 4
  {
    Greedy(s0, PROMPTS) == k + Greedy(stream, PROMPTS[k..]) && Rest(s0, PROMPTS) == Rest(stream, PROMPTS[k..])
  }

  lemma AlongStart(s0: Bytes)
    ensures Along(s0, s0, 0)
  {
    hide Ascii, Greedy, Rest;
    assert PROMPTS[0..] == PROMPTS;
  }

  lemma AlongStep(s0: Bytes, stream: Bytes, k: nat)
    requires k < 4 && Along(s0, stream, k)
    ensures Find(stream, PROMPTS[k]).None? ==> Greedy(s0, PROMPTS) == k
    ensures Find(stream, PROMPTS[k]).Some? ==>
      var end := Find(stream, PROMPTS[k]).value + |PROMPTS[k]|;
      end <= |stream| && Greedy(s0, PROMPTS) > k && Along(s0, stream[end..], k + 1)
  {
    hide Ascii, Find, Greedy, Rest;
    assert PROMPTS[k..][0] == PROMPTS[k] && PROMPTS[k..][1..] == PROMPTS[k + 1..];
    FirstPrompt(stream, PROMPTS[k..]);
  }

  lemma FirstPrompt(s: Bytes, needles: seq<Bytes>)
    requires needles != []
    ensures Find(s, needles[0]).None? ==> Greedy(s, needles) == 0
    ensures Find(s, needles[0]).Some? ==>
      var end := Find(s, needles[0]).value + |needles[0]|;
      && end <= |s| && Greedy(s, needles) == 1 + Greedy(s[end..], needles[1..])
      && Rest(s, needles) == Rest(s[end..], needles[1..])
  {
    hide Find;
    if Find(s, needles[0]).Some? {
      FoundThere(s, needles[0]);
    }
  }

  lemma AlongEnd(s0: Bytes, stream: Bytes)
    requires Along(s0, stream, 4)
    ensures Greedy(s0, PROMPTS) == 4 && Rest(s0, PROMPTS) == stream
  {
    hide Ascii;
    assert PROMPTS[4..] == [];
  }

  lemma ScriptSteps(c: Config)
    ensures Script(c, 0) == []
    ensures Script(c, 1) == Script(c, 0) + [Saw(0)] + [Wrote(c.softwareKey + CRLF)]
    ensures Script(c, 2) == Script(c, 1) + [Saw(1)] + [Wrote(c.username + CRLF)]
    ensures Script(c, 3) == Script(c, 2) + [Saw(2)] + [Wrote(c.password + CRLF)]
    ensures Script(c, 4) == Script(c, 3) + [Saw(3)]
  {
    assert forall k :: 0 < k <= 4 ==>
      Script(c, k) == Script(c, k - 1) + [Saw(k - 1)] + (if k <= 3 then [Wrote(Lines(c)[k - 1])] else []);
  }

  /** So success depends on the bytes alone, not on how they were chunked, and misses no placement of
      `Welcome to Cedro`, `Username:`, `Password:` and `You are connected`. */
  lemma SucceedsIffPlaceable(input: seq<ReadResult>)
    ensures Greedy(Usable(input), PROMPTS) == 4 <==>
      exists at :: Placed(Usable(input),
        [[87, 101, 108, 99, 111, 109, 101, 32, 116, 111, 32, 67, 101, 100, 114, 111],
         [85, 115, 101, 114, 110, 97, 109, 101, 58], [80, 97, 115, 115, 119, 111, 114, 100, 58],
         [89, 111, 117, 32, 97, 114, 101, 32, 99, 111, 110, 110, 101, 99, 116, 101, 100]], at)
  {
    hide Ascii, Occurs, Placed, Greedy;
    PromptBytes();
    assert PROMPTS[..4] == PROMPTS;
    GreedyIsComplete(Usable(input), PROMPTS, 4);
  }

  // ----- two things the comments do not say -----

  /** A prompt that comes before its turn is skipped over: here `Password:` comes first, and the
      conversation never gets past the username. */
  lemma EarlyPromptIsSkipped()
    ensures Greedy(PROMPTS[2] + PROMPTS[0] + PROMPTS[1], PROMPTS) == 2
  {
    var s := PROMPTS[2] + PROMPTS[0] + PROMPTS[1];
    PromptLengths();
    hide Ascii, Greedy, Occurs;
    GreedyIsComplete(s, PROMPTS, 2);
    GreedyIsComplete(s, PROMPTS, 3);
    TwoPlaced(s);
    assert s[0] == PROMPTS[2][0];
    forall at ensures !Placed(s, PROMPTS[..3], at) {
      if Placed(s, PROMPTS[..3], at) {
        TightPlacement(s, at);
      }
    }
  }

  lemma PromptLengths()
    ensures |PROMPTS[0]| == 16 && |PROMPTS[1]| == 9 && |PROMPTS[2]| == 9
    ensures PROMPTS[0][0] != PROMPTS[2][0]
  {}

  lemma TwoPlaced(s: Bytes)
    requires s == PROMPTS[2] + PROMPTS[0] + PROMPTS[1]
    ensures Placed(s, PROMPTS[..2], [9, 25])
  {
    PromptLengths();
    hide Ascii;
    assert s[9..25] == PROMPTS[0] && s[25..34] == PROMPTS[1];
  }

  /** The first three prompts fill 34 bytes. */
  lemma TightPlacement(s: Bytes, at: seq<nat>)
    requires |s| == 34 && Placed(s, PROMPTS[..3], at)
    ensures s[0] == PROMPTS[0][0]
  {
    PromptLengths();
    hide Ascii;
    var ps := PROMPTS[..3];
    assert at[0] + |ps[0]| <= at[1] && at[1] + |ps[1]| <= at[2];
    assert Occurs(s, ps[2], at[2]) && Occurs(s, ps[0], at[0]);
    assert s[..16][0] == PROMPTS[0][0];
  }

  lemma NoReadEndsInside(chunk: Bytes, n: nat)
    requires 0 < n < |chunk|
    ensures !ReadEndsAt([Data(chunk)], n) && Usable([Data(chunk)]) == chunk
  {
    var input := [Data(chunk)];
    assert input[1..] == [] && chunk + [] == chunk;
    assert Usable(input) == chunk + Usable([]);
    forall k: nat | AllData(input, k) ensures Delivered(input, k) != n {
      if k == 0 {
        assert input[..0] == [];
      } else {
        assert input[..1] == input;
      }
    }
  }

  lemma FoundFirst(needle: Bytes, rest: Bytes)
    ensures Find(needle + rest, needle) == Some(0) && (needle + rest)[|needle|..] == rest
  {
    assert (needle + rest)[0..|needle|] == needle;
  }

  function AllPrompts(extra: Bytes): Bytes {
    PROMPTS[0] + (PROMPTS[1] + (PROMPTS[2] + (PROMPTS[3] + extra)))
  }

  lemma AllPromptsFound(extra: Bytes)
    ensures Greedy(AllPrompts(extra), PROMPTS) == 4 && Rest(AllPrompts(extra), PROMPTS) == extra
  {
    hide Ascii, Find, Greedy, Rest, Along;
    var s := AllPrompts(extra);
    AlongStart(s);
    FoundFirst(PROMPTS[0], PROMPTS[1] + (PROMPTS[2] + (PROMPTS[3] + extra)));
    AlongStep(s, s, 0);
    FoundFirst(PROMPTS[1], PROMPTS[2] + (PROMPTS[3] + extra));
    AlongStep(s, PROMPTS[1] + (PROMPTS[2] + (PROMPTS[3] + extra)), 1);
    FoundFirst(PROMPTS[2], PROMPTS[3] + extra);
    AlongStep(s, PROMPTS[2] + (PROMPTS[3] + extra), 2);
    FoundFirst(PROMPTS[3], extra);
    AlongStep(s, PROMPTS[3] + extra, 3);
    AlongEnd(s, extra);
  }

  /** What a read brings behind the last prompt is lost to the reader: here one read brings all four
      prompts and `extra`. The handshake finds them all, `extra` is what it leaves, and no read ends
      where `extra` begins. */
  lemma SurplusIsDropped(extra: Bytes)
    requires extra != []
    ensures var input := [Data(AllPrompts(extra))];
            && Greedy(Usable(input), PROMPTS) == 4 && Rest(Usable(input), PROMPTS) == extra
            && !ReadEndsAt(input, |Usable(input)| - |extra|)
  {
    hide Ascii, ReadEndsAt, Usable;
    var s := AllPrompts(extra);
    AllPromptsFound(extra);
    PromptLengths();
    NoReadEndsInside(s, |s| - |extra|);
  }
}
