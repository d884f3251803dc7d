/** Trade frames (crates/cedro-protocol/src/parser/gqt.rs): the layout of an add is decided by the
    number of fields. */
module TradeFrames {
  import opened Base
  import opened Types
  import opened Scanning
  import opened Layouts

  const TAG_A: Bytes := [65]
  const TAG_D: Bytes := [68]
  const TAG_R: Bytes := [82]
  const TAG_E: Bytes := [69]

  // ----- codes -----

  function ConditionFromCode(code: u16): TradeCondition {
    if code == 0 then NotDirect
    else if code == 1 then Direct
    else if code == 2 then Rlp
    else if code == 3 then Rfq
    else if code == 4 then MidpointTrade
    else if code == 5 then OpeningPrice
    else if code == 6 then PointInTimeAuction
    else UnknownCondition(code)
  }

  function ConditionCode(c: TradeCondition): u16 {
    match c
    case NotDirect => 0
    case Direct => 1
    case Rlp => 2
    case Rfq => 3
    case MidpointTrade => 4
    case OpeningPrice => 5
    case PointInTimeAuction => 6
    case UnknownCondition(code) => code
  }

  function AggressorFromByte(b: byte): TradeAggressor {
    if b == 73 then Undefined else if b == 65 then Buyer else if b == 86 then Seller else UnknownAggressor(b)
  }

  function AggressorByte(a: TradeAggressor): byte {
    match a
    case Undefined => 73
    case Buyer => 65
    case Seller => 86
    case UnknownAggressor(b) => b
  }

  // ----- what a frame means -----

  /** The fields of an add: all tokens, but reading stops at an empty one once nine are there. */
  function Drained(ts: seq<Bytes>, k: nat, fields: seq<Bytes>): seq<Bytes>
    decreases |ts| - k
  {
    if k >= |ts| then fields
    else if ts[k] == [] && |fields| >= 9 then fields
    else Drained(ts, k + 1, fields + [ts[k]])
  }

  function TradeOf(f: seq<Bytes>, requestId: Option<Bytes>, pf: FloatParser): Parsed<TradeOperation>
    requires |f| == 9
  {
    var time :- ParsedU32(f[0], "trade time");
    var price :- ParsedF64(pf, f[1], "trade price");
    var buyer :- ParsedU32(f[2], "trade broker buy");
    var seller :- ParsedU32(f[3], "trade broker sell");
    var quantity :- ParsedU64(f[4], "trade quantity");
    var condition :- ParsedU16(f[6], "trade condition");
    if |f[7]| != 1 then Failure(InvalidField("trade aggressor", "expected exactly one byte"))
    else
      Success(AddTrade(Trade(65, time, price, buyer, seller, quantity, f[5], requestId,
                             ConditionFromCode(condition), AggressorFromByte(f[7][0]), f[8])))
  }

  function ParsedAdd(fields: seq<Bytes>, pf: FloatParser): Parsed<TradeOperation> {
    if |fields| == 9 then TradeOf(fields, None, pf)
    else if |fields| == 10 then TradeOf(fields[..6] + fields[7..], Some(fields[6]), pf)
    else Failure(InvalidField("trade fields", "expected 9 (subscribe) or 10 (snapshot) fields after A"))
  }

  function ParsedOp(ts: seq<Bytes>, pf: FloatParser): Parsed<TradeOperation> {
    var code :- Field(ts, 2, "trade op");
    if code == TAG_A then ParsedAdd(Drained(ts, 3, []), pf)
    else if code == TAG_D then
      var id :- Field(ts, 3, "trade id");
      Success(DeleteTrade(id))
    else if code == TAG_R then Success(RemoveAll)
    else if code == TAG_E then
      if |ts| <= 3 || ts[3] == [] then Success(EndOfSubscribe) else Success(EndOfSnapshot(ts[3]))
    else Failure(InvalidField("trade op", "expected A, D, R or E"))
  }

  function ParsedTrade(ts: seq<Bytes>, pf: FloatParser): Parsed<ProtocolMessage> {
    var header :- Field(ts, 0, "V header");
    var ticker :- Field(ts, 1, "ticker");
    var op :- ParsedOp(ts, pf);
    Success(TradeUpdate(ticker, op))
  }

  // ----- the parser -----

  method ParseAdd(scanner: Scanner, pf: FloatParser, ghost ts: seq<Bytes>) returns (r: Parsed<TradeOperation>)
    requires scanner.At(ts, 3)
    modifies scanner
    ensures r == ParsedAdd(Drained(ts, 3, []), pf)
  {
    hide Scanner.Remaining, ParsedU32, ParsedU64, ParsedU16, ParsedF64;
    var fields: seq<Bytes> := [];
    ghost var k := 3;
    while true
      invariant scanner.At(ts, k) && Drained(ts, 3, []) == Drained(ts, k, fields)
      decreases |ts| - k
    {
      var token := scanner.Next();
      if token.None? {
        break;
      }
      if token.value == [] && |fields| >= 9 {
        break;
      }
      fields := fields + [token.value];
      k := k + 1;
    }
    assert fields == Drained(ts, 3, []);
    var requestId: Option<Bytes>;
    if |fields| == 9 {
      requestId := None;
    } else if |fields| == 10 {
      requestId := Some(fields[6]);
      fields := fields[..6] + fields[7..];
    } else {
      return Failure(InvalidField("trade fields", "expected 9 (subscribe) or 10 (snapshot) fields after A"));
    }
    r := AssembleTrade(fields, requestId, pf);
  }

  method AssembleTrade(f: seq<Bytes>, requestId: Option<Bytes>, pf: FloatParser) returns (r: Parsed<TradeOperation>)
    requires |f| == 9
    ensures r == TradeOf(f, requestId, pf)
  {
    hide ParsedU32, ParsedU64, ParsedU16, ParsedF64;
    var time :- ParseU32(f[0], "trade time");
    var price := ParsedF64(pf, f[1], "trade price");
    if price.Failure? { return Failure(price.error); }
    var buyer :- ParseU32(f[2], "trade broker buy");
    var seller :- ParseU32(f[3], "trade broker sell");
    var quantity :- ParseU64(f[4], "trade quantity");
    var condition :- ParseU16(f[6], "trade condition");
    if |f[7]| != 1 {
      return Failure(InvalidField("trade aggressor", "expected exactly one byte"));
    }
    r := Success(AddTrade(Trade(65, time, price.value, buyer, seller, quantity, f[5], requestId,
                                ConditionFromCode(condition), AggressorFromByte(f[7][0]), f[8])));
  }

  method Parse(frame: Bytes, pf: FloatParser) returns (r: Parsed<ProtocolMessage>)
    ensures r == ParsedTrade(Split(frame), pf)
  {
    hide Scanner.Remaining, Split, ParsedAdd, Drained;
    ghost var ts := Split(frame);
    var scanner := new Scanner(frame);
    var header :- scanner.Required("V header");
    var ticker :- scanner.Required("ticker");
    var code :- scanner.Required("trade op");
    var op;
    if code == TAG_A {
      op :- ParseAdd(scanner, pf, ts);
    } else if code == TAG_D {
      var id :- scanner.Required("trade id");
      op := DeleteTrade(id);
    } else if code == TAG_R {
      op := RemoveAll;
    } else if code == TAG_E {
      var request := scanner.Next();
      op := if request.None? || request.value == [] then EndOfSubscribe else EndOfSnapshot(request.value);
    } else {
      return Failure(InvalidField("trade op", "expected A, D, R or E"));
    }
    r := Success(TradeUpdate(ticker, op));
  }

  // ----- the same by the documented table (gqt.rs:5-16), field by field -----

  /** `n` is the number of fields behind `A`: all there are, or those before the first empty one that
      has nine before it. */
  predicate FieldCount(ts: seq<Bytes>, n: nat) {
    && 3 + n <= |ts|
    && (3 + n < |ts| ==> n >= 9 && ts[3 + n] == [])
    && forall i :: 12 <= i < 3 + n ==> ts[i] != []
  }

  const TRADE_FIELDS: seq<Spec> :=
    [Spec("trade time", U32_DIGITS), Spec("trade price", FloatText), Spec("trade broker buy", U32_DIGITS),
     Spec("trade broker sell", U32_DIGITS), Spec("trade quantity", U64_DIGITS)]

  const CODE_FIELDS: seq<Spec> :=
    [Spec("trade condition", U16_DIGITS), Spec("trade aggressor", OneByte("expected exactly one byte"))]

  /** The error of an add with `n` fields; with ten of them the seventh is the request id. */
  function AddError(ts: seq<Bytes>, n: nat, pf: FloatParser): Option<ParseError> {
    if n == 9 then Or(FirstError(ts, 3, TRADE_FIELDS, pf), FirstError(ts, 9, CODE_FIELDS, pf))
    else if n == 10 then Or(FirstError(ts, 3, TRADE_FIELDS, pf), FirstError(ts, 10, CODE_FIELDS, pf))
    else Some(InvalidField("trade fields", "expected 9 (subscribe) or 10 (snapshot) fields after A"))
  }

  predicate ConditionIs(token: Bytes, c: TradeCondition) {
    match c
    case NotDirect => Denotes(token, 0)
    case Direct => Denotes(token, 1)
    case Rlp => Denotes(token, 2)
    case Rfq => Denotes(token, 3)
    case MidpointTrade => Denotes(token, 4)
    case OpeningPrice => Denotes(token, 5)
    case PointInTimeAuction => Denotes(token, 6)
    case UnknownCondition(code) => code > 6 && Denotes(token, code)
  }

  predicate AggressorIs(token: Bytes, a: TradeAggressor) {
    match a
    case Undefined => token == [73]
    case Buyer => token == [65]
    case Seller => token == [86]
    case UnknownAggressor(code) => code != 73 && code != 65 && code != 86 && token == [code]
  }

  /** The tokens of an add with nine or ten fields say what is in `t`. */
  predicate AddSays(ts: seq<Bytes>, n: nat, t: Trade, pf: FloatParser) {
    && (n == 9 || n == 10) && |ts| >= 3 + n
    && Denotes(ts[3], t.time) && pf(ts[4]) == Some(t.price)
    && Denotes(ts[5], t.brokerBuyId) && Denotes(ts[6], t.brokerSellId) && Denotes(ts[7], t.quantity)
    && t.tradeId == ts[8] && t.requestId == (if n == 10 then Some(ts[9]) else None)
    && ConditionIs(ts[n], t.condition) && AggressorIs(ts[n + 1], t.aggressor) && t.originalConditions == ts[n + 2]
    && t.operationCode == 65
  }

  lemma SomeFieldCount(ts: seq<Bytes>) returns (n: nat)
    requires |ts| >= 3
    ensures FieldCount(ts, n) && Drained(ts, 3, []) == ts[3..3 + n]
  {
    n := StopFrom(ts, 3, []);
    assert [] + ts[3..3 + n] == ts[3..3 + n];
  }

  lemma {:induction false} StopFrom(ts: seq<Bytes>, k: nat, fields: seq<Bytes>) returns (n: nat)
    requires k <= |ts|
    ensures k + n <= |ts| && Drained(ts, k, fields) == fields + ts[k..k + n]
    ensures k + n < |ts| ==> |fields| + n >= 9 && ts[k + n] == []
    ensures forall i :: k <= i < k + n && |fields| + (i - k) >= 9 ==> ts[i] != []
    decreases |ts| - k
  {
    if k == |ts| || (ts[k] == [] && |fields| >= 9) {
      n := 0;
      assert fields + ts[k..k] == fields;
    } else {
      var m := StopFrom(ts, k + 1, fields + [ts[k]]);
      n := m + 1;
      assert fields + [ts[k]] + ts[k + 1..k + 1 + m] == fields + ts[k..k + n];
    }
  }

  lemma ConditionByTable(token: Bytes, pf: FloatParser)
    ensures var e, r := FieldError(token, Spec("trade condition", U16_DIGITS), pf), ParsedU16(token, "trade condition");
            if e.Some? then r == Failure(e.value) else r.Success? && ConditionIs(token, ConditionFromCode(r.value))
  {
    U16ByTable(token, "trade condition", pf);
  }

  lemma AggressorByTable(token: Bytes, pf: FloatParser)
    ensures var e := FieldError(token, Spec("trade aggressor", OneByte("expected exactly one byte")), pf);
            if |token| == 1 then e.None? && AggressorIs(token, AggressorFromByte(token[0]))
            else e == Some(InvalidField("trade aggressor", "expected exactly one byte"))
  {}

  /** The first five of the nine fields of an add. */
  lemma FiveByTable(f: seq<Bytes>, pf: FloatParser)
    requires |f| == 9
    ensures FirstError(f, 0, TRADE_FIELDS, pf)
         == Or(FieldError(f[0], Spec("trade time", U32_DIGITS), pf),
            Or(FieldError(f[1], Spec("trade price", FloatText), pf),
            Or(FieldError(f[2], Spec("trade broker buy", U32_DIGITS), pf),
            Or(FieldError(f[3], Spec("trade broker sell", U32_DIGITS), pf),
               FieldError(f[4], Spec("trade quantity", U64_DIGITS), pf)))))
  {
    hide FieldError, FirstError;
    var g := TRADE_FIELDS;
    FirstOfFive(f, 0, g[0], g[1], g[2], g[3], g[4], pf);
    assert g == [g[0], g[1], g[2], g[3], g[4]];
  }

  lemma CodesByTable(f: seq<Bytes>, pf: FloatParser)
    requires |f| == 9
    ensures FirstError(f, 6, CODE_FIELDS, pf)
         == Or(FieldError(f[6], Spec("trade condition", U16_DIGITS), pf),
               FieldError(f[7], Spec("trade aggressor", OneByte("expected exactly one byte")), pf))
  {
    hide FieldError, FirstError;
    var c := CODE_FIELDS;
    FirstOfTwo(f, 6, c[0], c[1], pf);
    assert c == [c[0], c[1]];
  }

  /** The nine fields of an add, wherever they came from. */
  lemma TradeByTable(f: seq<Bytes>, requestId: Option<Bytes>, pf: FloatParser)
    requires |f| == 9
    ensures var e := Or(FirstError(f, 0, TRADE_FIELDS, pf), FirstError(f, 6, CODE_FIELDS, pf));
            var r := TradeOf(f, requestId, pf);
            if e.Some? then r == Failure(e.value)
            else
              && r.Success? && r.value.AddTrade?
              && var t := r.value.trade;
                 && Denotes(f[0], t.time) && pf(f[1]) == Some(t.price) && Denotes(f[2], t.brokerBuyId)
                 && Denotes(f[3], t.brokerSellId) && Denotes(f[4], t.quantity) && t.tradeId == f[5]
                 && t.requestId == requestId && ConditionIs(f[6], t.condition) && AggressorIs(f[7], t.aggressor)
                 && t.originalConditions == f[8] && t.operationCode == 65
  {
    hide FirstError, ParsedU32, ParsedU64, ParsedU16, ParsedF64, Denotes, ConditionFromCode, AggressorFromByte,
         ConditionIs, AggressorIs, FieldError;
    FiveByTable(f, pf);
    CodesByTable(f, pf);
    U32ByTable(f[0], "trade time", pf);
    F64ByTable(f[1], "trade price", pf);
    U32ByTable(f[2], "trade broker buy", pf);
    U32ByTable(f[3], "trade broker sell", pf);
    U64ByTable(f[4], "trade quantity", pf);
    ConditionByTable(f[6], pf);
    AggressorByTable(f[7], pf);
  }

  /** Errors depend on the tokens read only, as long as none of them is missing. */
  lemma {:induction false} SameErrors(ts: seq<Bytes>, k: nat, us: seq<Bytes>, j: nat, specs: seq<Spec>, pf: FloatParser)
    requires k + |specs| <= |ts| && j + |specs| <= |us| && ts[k..k + |specs|] == us[j..j + |specs|]
    ensures FirstError(ts, k, specs, pf) == FirstError(us, j, specs, pf)
    decreases specs
  {
    hide FieldError;
    if specs != [] {
      assert ts[k] == ts[k..k + |specs|][0] == us[j..j + |specs|][0] == us[j];
      assert ts[k + 1..k + |specs|] == ts[k..k + |specs|][1..] == us[j + 1..j + |specs|];
      SameErrors(ts, k + 1, us, j + 1, specs[1..], pf);
    }
  }

  lemma AddByTable(ts: seq<Bytes>, n: nat, pf: FloatParser)
    requires |ts| >= 3 + n && (n == 9 || n == 10)
    ensures var e, r := AddError(ts, n, pf), ParsedAdd(ts[3..3 + n], pf);
            if e.Some? then r == Failure(e.value)
            else r.Success? && r.value.AddTrade? && AddSays(ts, n, r.value.trade, pf)
  {
    hide FirstError, TradeOf, Denotes, ConditionIs, AggressorIs;
    var fields := ts[3..3 + n];
    var f := if n == 9 then fields else fields[..6] + fields[7..];
    TradeByTable(f, if n == 9 then None else Some(fields[6]), pf);
    assert f[..5] == ts[3..8] && f[6..8] == ts[n..n + 2] && f[8] == ts[n + 2] && f[5] == ts[8];
    assert f[0] == ts[3] && f[1] == ts[4] && f[2] == ts[5] && f[3] == ts[6] && f[4] == ts[7];
    assert f[6] == ts[n] && f[7] == ts[n + 1];
    assert f[0..5] == f[..5];
    SameErrors(ts, 3, f, 0, TRADE_FIELDS, pf);
    SameErrors(ts, n, f, 6, CODE_FIELDS, pf);
  }

  /** The error of a frame of at least three tokens. */
  function OpError(ts: seq<Bytes>, n: nat, pf: FloatParser): Option<ParseError>
    requires |ts| >= 3
  {
    if ts[2] == [65] then AddError(ts, n, pf)
    else if ts[2] == [68] then if |ts| == 3 then Some(MissingField(4, "trade id")) else None
    else if ts[2] == [82] || ts[2] == [69] then None
    else Some(InvalidField("trade op", "expected A, D, R or E"))
  }

  predicate OpSays(ts: seq<Bytes>, n: nat, op: TradeOperation, pf: FloatParser) {
    && |ts| >= 3
    && match op
       case AddTrade(t) => ts[2] == [65] && AddSays(ts, n, t, pf)
       case DeleteTrade(id) => ts[2] == [68] && |ts| >= 4 && ts[3] == id
       case RemoveAll => ts[2] == [82]
       case EndOfSubscribe => ts[2] == [69] && (|ts| == 3 || ts[3] == [])
       case EndOfSnapshot(request) => ts[2] == [69] && |ts| >= 4 && ts[3] == request != []
  }

  /** A frame of any tokens: the first field of the table that is missing or malformed is the error, and
      with none of them the frame says what its tokens say. */
  lemma TradeFrameByTable(ts: seq<Bytes>, n: nat, pf: FloatParser)
    requires |ts| >= 3 ==> FieldCount(ts, n)
    ensures var r := ParsedTrade(ts, pf);
            if |ts| < 3 then r == Failure(MissingField(|ts| + 1, ["V header", "ticker", "trade op"][|ts|]))
            else if OpError(ts, n, pf).Some? then r == Failure(OpError(ts, n, pf).value)
            else r.Success? && r.value.TradeUpdate? && r.value.ticker == ts[1] && OpSays(ts, n, r.value.trade, pf)
  {
    if |ts| >= 3 {
      var m := SomeFieldCount(ts);
      hide ParsedAdd, Drained, AddError, AddSays;
      assert m == n;
      if n == 9 || n == 10 {
        AddByTable(ts, n, pf);
      } else {
        OddCount(ts, n, pf);
      }
    }
  }

  lemma OddCount(ts: seq<Bytes>, n: nat, pf: FloatParser)
    requires |ts| >= 3 + n && n != 9 && n != 10
    ensures AddError(ts, n, pf).Some? && ParsedAdd(ts[3..3 + n], pf) == Failure(AddError(ts, n, pf).value)
  {}

  // ----- the documented wire layout (gqt.rs:5-16) and the round trip -----

  /** The fields behind `A`; a snapshot has its request id after the trade id. */
  function TradeFields(t: Trade, show: FloatPrinter): seq<Bytes> {
    [Padded(t.time, 6), show(t.price), Decimal(t.brokerBuyId), Decimal(t.brokerSellId), Decimal(t.quantity), t.tradeId]
    + (if t.requestId.Some? then [t.requestId.value] else [])
    + [Decimal(ConditionCode(t.condition)), [AggressorByte(t.aggressor)], t.originalConditions]
  }

  function TradeTokens(ticker: Bytes, op: TradeOperation, show: FloatPrinter): seq<Bytes> {
    match op
    case AddTrade(t) => [[86], ticker, [65]] + TradeFields(t, show)
    case DeleteTrade(id) => [[86], ticker, [68], id]
    case RemoveAll => [[86], ticker, [82]]
    case EndOfSubscribe => [[86], ticker, [69]]
    case EndOfSnapshot(request) => [[86], ticker, [69], request]
  }

  /** What the codes on the wire make of a trade: operation `A`, and no `Unknown` wrapped around a
      code that is known. */
  function Normal(t: Trade): Trade {
    t.(operationCode := 65, condition := ConditionFromCode(ConditionCode(t.condition)),
       aggressor := AggressorFromByte(AggressorByte(t.aggressor)))
  }

  ghost predicate PricePrintable(op: TradeOperation, pf: FloatParser, show: FloatPrinter) {
    op.AddTrade? ==> FloatPrintable(op.trade.price, pf, show)
  }

  /** What the wire can carry: an add of operation `A` whose unknown codes are unknown indeed, with a last
      field that is not empty in a snapshot; and no end of a snapshot without a request id. */
  predicate HasLayout(op: TradeOperation) {
    match op
    case AddTrade(t) =>
      && t.operationCode == 65
      && (t.condition.UnknownCondition? ==> t.condition.code > 6)
      && (t.aggressor.UnknownAggressor? ==>
            t.aggressor.code != 65 && t.aggressor.code != 73 && t.aggressor.code != 86)
      && (t.requestId.Some? ==> t.originalConditions != [])
    case EndOfSnapshot(request) => request != []
    case _ => true
  }

  lemma NormalIff(t: Trade)
    ensures t == Normal(t) <==>
      && t.operationCode == 65
      && (t.condition.UnknownCondition? ==> t.condition.code > 6)
      && (t.aggressor.UnknownAggressor? ==>
            t.aggressor.code != 65 && t.aggressor.code != 73 && t.aggressor.code != 86)
  {}

  lemma FieldsReadBack(t: Trade, pf: FloatParser, show: FloatPrinter)
    requires FloatPrintable(t.price, pf, show)
    ensures ParsedAdd(TradeFields(t, show), pf) == Success(AddTrade(Normal(t)))
  {
    hide Decimal, Padded, ParsedU32, ParsedU64, ParsedU16, Utf8, ColonFree, ConditionFromCode, ConditionCode,
         AggressorFromByte, AggressorByte;
    var all := TradeFields(t, show);
    var f := if t.requestId.Some? then all[..6] + all[7..] else all;
    NumberReadsBack(t.time, 6, "trade time");
    UnpaddedReadsBack(t.brokerBuyId, "trade broker buy");
    UnpaddedReadsBack(t.brokerSellId, "trade broker sell");
    UnpaddedReadsBack(t.quantity, "trade quantity");
    UnpaddedReadsBack(ConditionCode(t.condition), "trade condition");
    assert f == [Padded(t.time, 6), show(t.price), Decimal(t.brokerBuyId), Decimal(t.brokerSellId), Decimal(t.quantity),
                 t.tradeId, Decimal(ConditionCode(t.condition)), [AggressorByte(t.aggressor)], t.originalConditions];
  }

  lemma {:induction false} DrainsAll(ts: seq<Bytes>, k: nat, fields: seq<Bytes>)
    requires k <= |ts| && forall i :: k <= i < |ts| && |fields| + (i - k) >= 9 ==> ts[i] != []
    ensures Drained(ts, k, fields) == fields + ts[k..]
    decreases |ts| - k
  {
    if k < |ts| {
      DrainsAll(ts, k + 1, fields + [ts[k]]);
      assert fields + [ts[k]] + ts[k + 1..] == fields + ts[k..];
    } else {
      assert fields + ts[k..] == fields;
    }
  }

  lemma {:induction false} DrainsUntil(ts: seq<Bytes>, k: nat, fields: seq<Bytes>, stop: nat)
    requires k <= stop < |ts| && ts[stop] == [] && |fields| + (stop - k) >= 9
    requires forall i :: k <= i < stop && |fields| + (i - k) >= 9 ==> ts[i] != []
    ensures Drained(ts, k, fields) == fields + ts[k..stop]
    decreases stop - k
  {
    if k < stop {
      DrainsUntil(ts, k + 1, fields + [ts[k]], stop);
      assert fields + [ts[k]] + ts[k + 1..stop] == fields + ts[k..stop];
    } else {
      assert fields + ts[k..stop] == fields;
    }
  }

  function Dangling(dangling: bool): seq<Bytes> {
    if dangling then [[]] else []
  }

  /** Reading a printed add, with or without one dangling separator behind it: a normal subscribe
      trade always comes back, a normal snapshot trade if and only if its last field is not empty. */
  lemma AddReadsBackIff(ticker: Bytes, t: Trade, dangling: bool, pf: FloatParser, show: FloatPrinter)
    requires FloatPrintable(t.price, pf, show)
    ensures ParsedTrade(TradeTokens(ticker, AddTrade(t), show) + Dangling(dangling), pf)
         == Success(TradeUpdate(ticker, AddTrade(t)))
       <==> HasLayout(AddTrade(t))
  {
    hide Decimal, Padded, ParsedAdd, Drained, FloatPrintable, Normal, ConditionCode, AggressorByte;
    var fields := TradeFields(t, show);
    var ts := TradeTokens(ticker, AddTrade(t), show) + Dangling(dangling);
    assert ts == [[86], ticker, [65]] + fields + Dangling(dangling);
    FieldsReadBack(t, pf, show);
    NormalIff(t);
    LastFields(t, show);
    var n := |fields|;
    if t.requestId.Some? && t.originalConditions == [] {
      DrainsUntil(ts, 3, [], 12);
      assert [] + ts[3..12] == fields[..9];
      NineFieldsHaveNoRequest(fields[..9], pf);
    } else if dangling {
      DrainsUntil(ts, 3, [], 3 + n);
      assert [] + ts[3..3 + n] == fields;
    } else {
      DrainsAll(ts, 3, []);
      assert [] + ts[3..] == fields;
    }
  }

  lemma LastFields(t: Trade, show: FloatPrinter)
    ensures var fields := TradeFields(t, show);
            && |fields| == (if t.requestId.Some? then 10 else 9)
            && (t.requestId.Some? ==> fields[9] == t.originalConditions)
  {}

  lemma NineFieldsHaveNoRequest(fields: seq<Bytes>, pf: FloatParser)
    requires |fields| == 9
    ensures ParsedAdd(fields, pf).Success? ==>
              ParsedAdd(fields, pf).value.AddTrade? && ParsedAdd(fields, pf).value.trade.requestId == None
  {
    hide ParsedU32, ParsedU64, ParsedU16, ParsedF64;
  }

  /** The other operations; the end of a snapshot needs a request id that is not empty. */
  lemma OtherReadsBackIff(ticker: Bytes, op: TradeOperation, pf: FloatParser, show: FloatPrinter)
    requires !op.AddTrade?
    ensures ParsedTrade(TradeTokens(ticker, op, show), pf) == Success(TradeUpdate(ticker, op))
       <==> HasLayout(op)
  {}
}
