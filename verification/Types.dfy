/** The messages of crates/cedro-protocol/src/types.rs and the codes of enums.rs that they use. */
module Types {
  import opened Base

  datatype FrameKind = Bang | Newline

  // ----- order book -----

  datatype Side = Buy | Sell

  datatype BookEntry = BookEntry(
    position: u32,
    side: Side,
    price: Float,
    quantity: u64,
    brokerId: u32,
    timestamp: u32,
    orderId: Option<Bytes>,
    offerType: Option<byte>)

  datatype BookDelete =
    | Single(side: Side, position: u32)
    | PrefixInclusive(side: Side, position: u32)
    | ClearAll

  datatype BookOp =
    | Add(entry: BookEntry)
    | Update(oldPos: u32, entry: BookEntry)
    | Delete(what: BookDelete)
    | EndOfInitial

  // ----- quotes -----

  datatype QuoteFieldValue =
    | FloatValue(float: Float)
    | IntValue(number: i64)
    | TimeValue(time: u32)
    | DateValue(date: u32)
    | DateTimeValue(dateTime: u64)
    | CharValue(ch: byte)
    | PhaseValue(first: byte, second: byte)
    | StrValue(text: Bytes)

  type QuotePair = (u16, QuoteFieldValue)
  type QuoteDiff = seq<QuotePair>

  // ----- trades -----

  datatype TradeCondition =
    | NotDirect | Direct | Rlp | Rfq | MidpointTrade | OpeningPrice | PointInTimeAuction
    | UnknownCondition(code: u16)

  datatype TradeAggressor = Undefined | Buyer | Seller | UnknownAggressor(code: byte)

  datatype Trade = Trade(
    operationCode: byte,
    time: u32,
    price: Float,
    brokerBuyId: u32,
    brokerSellId: u32,
    quantity: u64,
    tradeId: Bytes,
    requestId: Option<Bytes>,
    condition: TradeCondition,
    aggressor: TradeAggressor,
    originalConditions: Bytes)

  datatype TradeOperation =
    | AddTrade(trade: Trade)
    | DeleteTrade(tradeId: Bytes)
    | RemoveAll
    | EndOfSubscribe
    | EndOfSnapshot(requestId: Bytes)

  // ----- news -----

  datatype NewsHeadline = NewsHeadline(
    agency: Bytes,
    code: Bytes,
    date: u32,
    time: u32,
    category: u32,
    title: Bytes)

  datatype NewsMessage =
    | Headline(headline: NewsHeadline)
    | HistoryItem(requestId: Bytes, headline: NewsHeadline)
    | HistoryEnd(requestId: Bytes)
    | Body(requestId: Bytes, agency: Bytes, code: Bytes, bodyRaw: Bytes)

  // ----- messages and errors -----

  /** The headers whose parsers stay outside this model. */
  datatype OtherHeader = AggBook | VolumeAtPrice | ServerTime | Catalog | Broker | WireError

  datatype ProtocolMessage =
    | Quote(ticker: Bytes, time: u32, diff: QuoteDiff)
    | Book(ticker: Bytes, op: BookOp)
    | TradeUpdate(ticker: Bytes, trade: TradeOperation)
    | News(news: NewsMessage)
    | Delegated(header: OtherHeader, frame: Bytes)

  datatype ParseError =
    | EmptyFrame
    | UnknownHeader(frame: Bytes)
    | MissingField(position: nat, expected: string)
    | InvalidField(field: string, reason: string)
    | BadEncoding(field: string)
    | BadInteger(field: string)
    | BadFloat(field: string)

  type Parsed<T> = Result<T, ParseError>
}
