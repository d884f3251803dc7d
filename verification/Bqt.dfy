/** Book frames (crates/cedro-protocol/src/parser/bqt.rs). */
module BookFrames {
  import opened Base
  import opened Types
  import opened Scanning
  import opened Layouts

  const TAG_A: Bytes := [65]
  const TAG_U: Bytes := [85]
  const TAG_D: Bytes := [68]
  const TAG_E: Bytes := [69]
  const KIND_1: Bytes := [49]
  const KIND_2: Bytes := [50]
  const KIND_3: Bytes := [51]

  // ----- sides -----

  function SideFromByte(b: byte): Option<Side> {
    if b == 65 then Some(Buy) else if b == 86 then Some(Sell) else None
  }

  function SideByte(side: Side): byte {
    if side.Buy? then 65 else 86
  }

  function ParsedSide(b: Bytes): Parsed<Side> {
    if |b| != 1 then Failure(InvalidField("book side", "expected one byte (A or V)"))
    else
      match SideFromByte(b[0])
      case Some(side) => Success(side)
      case None => Failure(InvalidField("book side", "expected A (buy) or V (sell)"))
  }

  // ----- what a frame means, by token position -----

  /** The optional last two fields: both, or neither. */
  datatype Tail = Tail(orderId: Option<Bytes>, offerType: Option<byte>)

  function ParsedTail(ts: seq<Bytes>, k: nat): Parsed<Tail> {
    if k >= |ts| then Success(Tail(None, None))
    else
      var offer :- Field(ts, k + 1, "offer type");
      if |offer| != 1 then Failure(InvalidField("offer type", "expected one byte (L or O)"))
      else Success(Tail(Some(ts[k]), Some(offer[0])))
  }

  function ParsedEntry(ts: seq<Bytes>, k: nat, position: u32, pf: FloatParser): Parsed<BookEntry> {
    var sideBytes :- Field(ts, k, "side");
    var side :- ParsedSide(sideBytes);
    var priceBytes :- Field(ts, k + 1, "price");
    var price :- ParsedF64(pf, priceBytes, "price");
    var quantityBytes :- Field(ts, k + 2, "quantity");
    var quantity :- ParsedU64(quantityBytes, "quantity");
    var brokerBytes :- Field(ts, k + 3, "broker id");
    var broker :- ParsedU32(brokerBytes, "broker id");
    var stampBytes :- Field(ts, k + 4, "DDMMHHMM");
    var stamp :- ParsedU32(stampBytes, "DDMMHHMM");
    var tail :- ParsedTail(ts, k + 5);
    Success(BookEntry(position, side, price, quantity, broker, stamp, tail.orderId, tail.offerType))
  }

  function ParsedSidePosition(ts: seq<Bytes>, k: nat): Parsed<(Side, u32)> {
    var sideBytes :- Field(ts, k, "side");
    var side :- ParsedSide(sideBytes);
    var positionBytes :- Field(ts, k + 1, "position");
    var position :- ParsedU32(positionBytes, "position");
    Success((side, position))
  }

  function ParsedDelete(ts: seq<Bytes>): Parsed<BookOp> {
    var kind :- Field(ts, 3, "delete kind");
    if kind == KIND_1 then
      var at :- ParsedSidePosition(ts, 4);
      Success(Delete(Single(at.0, at.1)))
    else if kind == KIND_2 then
      var at :- ParsedSidePosition(ts, 4);
      Success(Delete(PrefixInclusive(at.0, at.1)))
    else if kind == KIND_3 then Success(Delete(ClearAll))
    else Failure(InvalidField("delete kind", "expected 1, 2 or 3"))
  }

  function ParsedOp(ts: seq<Bytes>, pf: FloatParser): Parsed<BookOp> {
    var code :- Field(ts, 2, "book op");
    if code == TAG_A then
      var positionBytes :- Field(ts, 3, "position");
      var position :- ParsedU32(positionBytes, "position");
      var entry :- ParsedEntry(ts, 4, position, pf);
      Success(Add(entry))
    else if code == TAG_U then
      var newBytes :- Field(ts, 3, "new position");
      var newPos :- ParsedU32(newBytes, "new position");
      var oldBytes :- Field(ts, 4, "old position");
      var oldPos :- ParsedU32(oldBytes, "old position");
      var entry :- ParsedEntry(ts, 5, newPos, pf);
      Success(Update(oldPos, entry))
    else if code == TAG_D then ParsedDelete(ts)
    else if code == TAG_E then Success(EndOfInitial)
    else Failure(InvalidField("book op", "expected A, U, D, or E"))
  }

  function ParsedBook(ts: seq<Bytes>, pf: FloatParser): Parsed<ProtocolMessage> {
    var header :- Field(ts, 0, "B header");
    var ticker :- Field(ts, 1, "ticker");
    var op :- ParsedOp(ts, pf);
    Success(Book(ticker, op))
  }

  // ----- the parser -----

  method ReadSide(scanner: Scanner, ghost ts: seq<Bytes>, ghost k: nat) returns (r: Parsed<Side>)
    requires scanner.At(ts, k)
    modifies scanner
    ensures r == (var b :- Field(ts, k, "side"); ParsedSide(b))
    ensures r.Success? ==> scanner.At(ts, k + 1)
  {
    hide Scanner.Remaining;
    var b :- scanner.Required("side");
    if |b| != 1 {
      return Failure(InvalidField("book side", "expected one byte (A or V)"));
    }
    var side := SideFromByte(b[0]);
    r := if side.Some? then Success(side.value)
         else Failure(InvalidField("book side", "expected A (buy) or V (sell)"));
  }

  method ReadEntryTail(scanner: Scanner, position: u32, pf: FloatParser, ghost ts: seq<Bytes>, ghost k: nat)
    returns (r: Parsed<BookEntry>)
    requires scanner.At(ts, k)
    modifies scanner
    ensures r == ParsedEntry(ts, k, position, pf)
  {
    hide Scanner.Remaining, ParsedSide, ParsedU32, ParsedU64, ParsedF64;
    var side :- ReadSide(scanner, ts, k);
    var price :- scanner.RequiredF64("price", pf, ts, k + 1);
    var quantity :- scanner.RequiredU64("quantity", ts, k + 2);
    var broker :- scanner.RequiredU32("broker id", ts, k + 3);
    var stamp :- scanner.RequiredU32("DDMMHHMM", ts, k + 4);
    var id := scanner.Next();
    if id.None? {
      return Success(BookEntry(position, side, price, quantity, broker, stamp, None, None));
    }
    var offer :- scanner.Required("offer type");
    if |offer| != 1 {
      return Failure(InvalidField("offer type", "expected one byte (L or O)"));
    }
    r := Success(BookEntry(position, side, price, quantity, broker, stamp, id, Some(offer[0])));
  }

  method ParseAdd(scanner: Scanner, pf: FloatParser, ghost ts: seq<Bytes>) returns (r: Parsed<BookOp>)
    requires scanner.At(ts, 3) && ts[2] == TAG_A
    modifies scanner
    ensures r == ParsedOp(ts, pf)
  {
    hide Scanner.Remaining, ParsedEntry, ParsedU32;
    var position :- scanner.RequiredU32("position", ts, 3);
    var entry :- ReadEntryTail(scanner, position, pf, ts, 4);
    r := Success(Add(entry));
  }

  method ParseUpdate(scanner: Scanner, pf: FloatParser, ghost ts: seq<Bytes>) returns (r: Parsed<BookOp>)
    requires scanner.At(ts, 3) && ts[2] == TAG_U
    modifies scanner
    ensures r == ParsedOp(ts, pf)
  {
    hide Scanner.Remaining, ParsedEntry, ParsedU32;
    var newPos :- scanner.RequiredU32("new position", ts, 3);
    var oldPos :- scanner.RequiredU32("old position", ts, 4);
    var entry :- ReadEntryTail(scanner, newPos, pf, ts, 5);
    r := Success(Update(oldPos, entry));
  }

  method ParseDelete(scanner: Scanner, ghost ts: seq<Bytes>) returns (r: Parsed<BookOp>)
    requires scanner.At(ts, 3)
    modifies scanner
    ensures r == ParsedDelete(ts)
  {
    hide Scanner.Remaining, ParsedSide, ParsedU32;
    var kind :- scanner.Required("delete kind");
    if kind == KIND_1 {
      var side :- ReadSide(scanner, ts, 4);
      var position :- scanner.RequiredU32("position", ts, 5);
      return Success(Delete(Single(side, position)));
    }
    if kind == KIND_2 {
      var side :- ReadSide(scanner, ts, 4);
      var position :- scanner.RequiredU32("position", ts, 5);
      return Success(Delete(PrefixInclusive(side, position)));
    }
    r := if kind == KIND_3 then Success(Delete(ClearAll))
         else Failure(InvalidField("delete kind", "expected 1, 2 or 3"));
  }

  method Parse(frame: Bytes, pf: FloatParser) returns (r: Parsed<ProtocolMessage>)
    ensures r == ParsedBook(Split(frame), pf)
  {
    hide Scanner.Remaining, ParsedEntry, ParsedDelete, ParsedU32, Split;
    ghost var ts := Split(frame);
    var scanner := new Scanner(frame);
    var header :- scanner.Required("B header");
    var ticker :- scanner.Required("ticker");
    var code :- scanner.Required("book op");
    var op;
    if code == TAG_A {
      op :- ParseAdd(scanner, pf, ts);
    } else if code == TAG_U {
      op :- ParseUpdate(scanner, pf, ts);
    } else if code == TAG_D {
      op :- ParseDelete(scanner, ts);
    } else if code == TAG_E {
      op := EndOfInitial;
    } else {
      return Failure(InvalidField("book op", "expected A, U, D, or E"));
    }
    r := Success(Book(ticker, op));
  }

  // ----- the same by the documented table (bqt.rs:5-12), field by field -----

  const ENTRY_FIELDS: seq<Spec> :=
    [Spec("side", SideLetter), Spec("price", FloatText), Spec("quantity", U64_DIGITS),
     Spec("broker id", U32_DIGITS), Spec("DDMMHHMM", U32_DIGITS)]

  /** Nothing may be left, or an order id with an offer type of one byte; what comes behind them is not
      looked at. */
  function TailError(ts: seq<Bytes>, k: nat, pf: FloatParser): Option<ParseError> {
    if k >= |ts| then None
    else FirstError(ts, k + 1, [Spec("offer type", OneByte("expected one byte (L or O)"))], pf)
  }

  function EntryError(ts: seq<Bytes>, k: nat, pf: FloatParser): Option<ParseError> {
    Or(FirstError(ts, k, ENTRY_FIELDS, pf), TailError(ts, k + 5, pf))
  }

  /** The error of a frame of at least three tokens. */
  function OpError(ts: seq<Bytes>, pf: FloatParser): Option<ParseError>
    requires |ts| >= 3
  {
    if ts[2] == [65] then
      Or(FirstError(ts, 3, [Spec("position", U32_DIGITS)], pf), EntryError(ts, 4, pf))
    else if ts[2] == [85] then
      Or(FirstError(ts, 3, [Spec("new position", U32_DIGITS), Spec("old position", U32_DIGITS)], pf),
         EntryError(ts, 5, pf))
    else if ts[2] == [68] then
      if |ts| == 3 then Some(MissingField(4, "delete kind"))
      else if ts[3] == [49] || ts[3] == [50] then
        FirstError(ts, 4, [Spec("side", SideLetter), Spec("position", U32_DIGITS)], pf)
      else if ts[3] == [51] then None
      else Some(InvalidField("delete kind", "expected 1, 2 or 3"))
    else if ts[2] == [69] then None
    else Some(InvalidField("book op", "expected A, U, D, or E"))
  }

  function BookError(ts: seq<Bytes>, pf: FloatParser): Option<ParseError> {
    if |ts| < 3 then Some(MissingField(|ts| + 1, ["B header", "ticker", "book op"][|ts|])) else OpError(ts, pf)
  }

  predicate SideIs(token: Bytes, side: Side) {
    token == if side.Buy? then [65] else [86]
  }

  /** The tokens from `k` on say what is in `e`. */
  predicate EntrySays(ts: seq<Bytes>, k: nat, e: BookEntry, pf: FloatParser) {
    && |ts| >= k + 5
    && SideIs(ts[k], e.side) && pf(ts[k + 1]) == Some(e.price)
    && Denotes(ts[k + 2], e.quantity) && Denotes(ts[k + 3], e.brokerId) && Denotes(ts[k + 4], e.timestamp)
    && (if |ts| == k + 5 then e.orderId == None && e.offerType == None
        else |ts| >= k + 7 && |ts[k + 6]| == 1 && e.orderId == Some(ts[k + 5]) && e.offerType == Some(ts[k + 6][0]))
  }

  predicate OpSays(ts: seq<Bytes>, op: BookOp, pf: FloatParser) {
    && |ts| >= 3
    && match op
       case Add(e) => ts[2] == [65] && |ts| >= 4 && Denotes(ts[3], e.position) && EntrySays(ts, 4, e, pf)
       case Update(oldPos, e) =>
         && ts[2] == [85] && |ts| >= 5
         && Denotes(ts[3], e.position) && Denotes(ts[4], oldPos) && EntrySays(ts, 5, e, pf)
       case Delete(Single(side, pos)) =>
         ts[2] == [68] && |ts| >= 6 && ts[3] == [49] && SideIs(ts[4], side) && Denotes(ts[5], pos)
       case Delete(PrefixInclusive(side, pos)) =>
         ts[2] == [68] && |ts| >= 6 && ts[3] == [50] && SideIs(ts[4], side) && Denotes(ts[5], pos)
       case Delete(ClearAll) => ts[2] == [68] && |ts| >= 4 && ts[3] == [51]
       case EndOfInitial => ts[2] == [69]
  }

  lemma SideByTable(token: Bytes, pf: FloatParser)
    ensures var e, r := FieldError(token, Spec("side", SideLetter), pf), ParsedSide(token);
            if e.Some? then r == Failure(e.value) else r.Success? && SideIs(token, r.value)
  {}

  lemma TailByTable(ts: seq<Bytes>, k: nat, pf: FloatParser)
    ensures var e, r := TailError(ts, k, pf), ParsedTail(ts, k);
            if e.Some? then r == Failure(e.value)
            else
              && r.Success?
              && if k >= |ts| then r.value == Tail(None, None)
                 else |ts| >= k + 2 && |ts[k + 1]| == 1 && r.value == Tail(Some(ts[k]), Some(ts[k + 1][0]))
  {}

  lemma EntryByTable(ts: seq<Bytes>, k: nat, position: u32, pf: FloatParser)
    requires k <= |ts|
    ensures var e, r := EntryError(ts, k, pf), ParsedEntry(ts, k, position, pf);
            if e.Some? then r == Failure(e.value)
            else r.Success? && r.value.position == position && EntrySays(ts, k, r.value, pf)
  {
    hide FieldError, FirstError, ParsedSide, ParsedU32, ParsedU64, ParsedF64, ParsedTail, TailError, SideIs, Denotes;
    var f := ENTRY_FIELDS;
    FirstOfFive(ts, k, f[0], f[1], f[2], f[3], f[4], pf);
    assert f == [f[0], f[1], f[2], f[3], f[4]];
    if k < |ts| { SideByTable(ts[k], pf); }
    if k + 1 < |ts| { F64ByTable(ts[k + 1], "price", pf); }
    if k + 2 < |ts| { U64ByTable(ts[k + 2], "quantity", pf); }
    if k + 3 < |ts| { U32ByTable(ts[k + 3], "broker id", pf); }
    if k + 4 < |ts| { U32ByTable(ts[k + 4], "DDMMHHMM", pf); }
    TailByTable(ts, k + 5, pf);
  }

  lemma SidePositionByTable(ts: seq<Bytes>, pf: FloatParser)
    requires |ts| >= 4
    ensures var e := FirstError(ts, 4, [Spec("side", SideLetter), Spec("position", U32_DIGITS)], pf);
            var r := ParsedSidePosition(ts, 4);
            if e.Some? then r == Failure(e.value)
            else r.Success? && |ts| >= 6 && SideIs(ts[4], r.value.0) && Denotes(ts[5], r.value.1)
  {
    hide FieldError, FirstError, ParsedSide, ParsedU32, SideIs, Denotes;
    FirstOfTwo(ts, 4, Spec("side", SideLetter), Spec("position", U32_DIGITS), pf);
    if 4 < |ts| { SideByTable(ts[4], pf); }
    if 5 < |ts| { U32ByTable(ts[5], "position", pf); }
  }

  lemma OpByTable(ts: seq<Bytes>, pf: FloatParser)
    requires |ts| >= 3
    ensures var e, r := OpError(ts, pf), ParsedOp(ts, pf);
            if e.Some? then r == Failure(e.value) else r.Success? && OpSays(ts, r.value, pf)
  {
    hide FieldError, FirstError, ParsedU32, ParsedEntry, ParsedSidePosition, EntryError, EntrySays, SideIs, Denotes;
    var position, newPos, oldPos :=
      Spec("position", U32_DIGITS), Spec("new position", U32_DIGITS), Spec("old position", U32_DIGITS);
    if ts[2] == [65] {
      FirstOfOne(ts, 3, position, pf);
      if 3 < |ts| {
        U32ByTable(ts[3], "position", pf);
        var p := ParsedU32(ts[3], "position");
        if p.Success? { EntryByTable(ts, 4, p.value, pf); }
      }
    } else if ts[2] == [85] {
      FirstOfTwo(ts, 3, newPos, oldPos, pf);
      if 3 < |ts| { U32ByTable(ts[3], "new position", pf); }
      if 4 < |ts| {
        U32ByTable(ts[4], "old position", pf);
        var p := ParsedU32(ts[3], "new position");
        if p.Success? { EntryByTable(ts, 5, p.value, pf); }
      }
    } else if 3 < |ts| {
      SidePositionByTable(ts, pf);
    }
  }

  /** A frame of any tokens: the first field of the table that is missing or malformed is the error, and
      with none of them the frame says what its tokens say. */
  lemma BookByTable(ts: seq<Bytes>, pf: FloatParser)
    ensures var e, r := BookError(ts, pf), ParsedBook(ts, pf);
            if e.Some? then r == Failure(e.value)
            else |ts| >= 3 && r.Success? && r.value.Book? && r.value.ticker == ts[1] && OpSays(ts, r.value.op, pf)
  {
    hide OpError, ParsedOp, OpSays;
    if |ts| >= 3 {
      OpByTable(ts, pf);
    } else {
      TooShort(ts, pf);
    }
  }

  lemma TooShort(ts: seq<Bytes>, pf: FloatParser)
    requires |ts| < 3
    ensures ParsedBook(ts, pf) == Failure(MissingField(|ts| + 1, ["B header", "ticker", "book op"][|ts|]))
  {}

  // ----- the documented wire layout (bqt.rs:5-12) and the round trip -----

  function EntryTokens(e: BookEntry, show: FloatPrinter): seq<Bytes> {
    [[SideByte(e.side)], show(e.price), Decimal(e.quantity), Decimal(e.brokerId), Padded(e.timestamp, 8)]
    + (if e.orderId.Some? && e.offerType.Some? then [e.orderId.value, [e.offerType.value]] else [])
  }

  function OpTokens(op: BookOp, show: FloatPrinter): seq<Bytes> {
    match op
    case Add(e) => [[65], Decimal(e.position)] + EntryTokens(e, show)
    case Update(oldPos, e) => [[85], Decimal(e.position), Decimal(oldPos)] + EntryTokens(e, show)
    case Delete(Single(side, pos)) => [[68], [49], [SideByte(side)], Decimal(pos)]
    case Delete(PrefixInclusive(side, pos)) => [[68], [50], [SideByte(side)], Decimal(pos)]
    case Delete(ClearAll) => [[68], [51]]
    case EndOfInitial => [[69]]
  }

  function BookTokens(ticker: Bytes, op: BookOp, show: FloatPrinter): seq<Bytes> {
    [[66], ticker] + OpTokens(op, show)
  }

  /** The two layouts there are: with order id and offer type, or with neither. */
  predicate HasLayout(op: BookOp) {
    op.Add? || op.Update? ==> (op.entry.orderId.Some? <==> op.entry.offerType.Some?)
  }

  ghost predicate PricePrintable(op: BookOp, pf: FloatParser, show: FloatPrinter) {
    op.Add? || op.Update? ==> FloatPrintable(op.entry.price, pf, show)
  }

  /** The part of an entry that the wire can carry. */
  function Carried(e: BookEntry): BookEntry {
    if e.orderId.Some? && e.offerType.Some? then e else e.(orderId := None, offerType := None)
  }

  lemma EntryReadsBack(ts: seq<Bytes>, k: nat, e: BookEntry, pf: FloatParser, show: FloatPrinter)
    requires k <= |ts| && ts[k..] == EntryTokens(e, show) && FloatPrintable(e.price, pf, show)
    ensures ParsedEntry(ts, k, e.position, pf) == Success(Carried(e))
  {
    hide Decimal, Padded, ParsedU32, ParsedU64, Utf8, ColonFree;
    var et := EntryTokens(e, show);
    assert forall i :: 0 <= i < |et| ==> ts[k + i] == et[i];
    UnpaddedReadsBack(e.quantity, "quantity");
    UnpaddedReadsBack(e.brokerId, "broker id");
    NumberReadsBack(e.timestamp, 8, "DDMMHHMM");
    assert ts[k] == et[0] && ts[k + 1] == et[1] && ts[k + 2] == et[2] && ts[k + 3] == et[3] && ts[k + 4] == et[4];
    assert ParsedTail(ts, k + 5) == Success(Tail(Carried(e).orderId, Carried(e).offerType)) by {
      if e.orderId.Some? && e.offerType.Some? {
        assert ts[k + 5] == et[5] && ts[k + 6] == et[6];
      }
    }
  }

  /** Every operation parses back from its tokens, an add or update exactly when it fits one of the
      two layouts. */
  lemma BookReadsBackIff(ticker: Bytes, op: BookOp, pf: FloatParser, show: FloatPrinter)
    requires PricePrintable(op, pf, show)
    ensures ParsedBook(BookTokens(ticker, op, show), pf) == Success(Book(ticker, op)) <==> HasLayout(op)
  {
    hide Decimal, ParsedU32, EntryTokens, ParsedEntry, FloatPrintable;
    var ts := BookTokens(ticker, op, show);
    match op {
      case Add(e) =>
        UnpaddedReadsBack(e.position, "position");
        assert ts[4..] == EntryTokens(e, show);
        EntryReadsBack(ts, 4, e, pf, show);
      case Update(oldPos, e) =>
        UnpaddedReadsBack(e.position, "new position");
        UnpaddedReadsBack(oldPos, "old position");
        assert ts[5..] == EntryTokens(e, show);
        EntryReadsBack(ts, 5, e, pf, show);
      case Delete(Single(side, pos)) => UnpaddedReadsBack(pos, "position");
      case Delete(PrefixInclusive(side, pos)) => UnpaddedReadsBack(pos, "position");
      case Delete(ClearAll) =>
      case EndOfInitial =>
    }
  }
}
