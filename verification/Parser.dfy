/** Dispatch on the functional header (crates/cedro-protocol/src/parser/mod.rs), and the whole way
    from messages over the wire and back. */
module Parsing {
  import opened Base
  import opened Types
  import opened Scanning
  import opened Framing
  import BookFrames
  import QuoteFrames
  import TradeFrames
  import NewsFrames

  const HEAD_T: Bytes := [84]
  const HEAD_B: Bytes := [66]
  const HEAD_Z: Bytes := [90]
  const HEAD_V: Bytes := [86]
  const HEAD_O: Bytes := [79]
  const HEAD_VAP: Bytes := [86, 65, 80]
  const HEAD_GTC: Bytes := [71, 84, 67]
  const HEAD_C: Bytes := [67]
  const HEAD_G: Bytes := [71]
  const HEAD_E: Bytes := [69]

  /** A frame means what its first token says, if there is a second one. */
  function ParsedFrame(frame: Bytes, pf: FloatParser): Parsed<ProtocolMessage> {
    var ts := Split(frame);
    if frame == [] then Failure(EmptyFrame)
    else if |ts| < 2 then Failure(UnknownHeader(frame))
    else if ts[0] == HEAD_T then QuoteFrames.ParsedQuote(ts, pf)
    else if ts[0] == HEAD_B then BookFrames.ParsedBook(ts, pf)
    else if ts[0] == HEAD_Z then Success(Delegated(AggBook, frame))
    else if ts[0] == HEAD_V then TradeFrames.ParsedTrade(ts, pf)
    else if ts[0] == HEAD_O then NewsFrames.ParsedNews(ts)
    else if ts[0] == HEAD_VAP then Success(Delegated(VolumeAtPrice, frame))
    else if ts[0] == HEAD_GTC then Success(Delegated(ServerTime, frame))
    else if ts[0] == HEAD_C then Success(Delegated(Catalog, frame))
    else if ts[0] == HEAD_G then Success(Delegated(Broker, frame))
    else if ts[0] == HEAD_E then Success(Delegated(WireError, frame))
    else Failure(UnknownHeader(frame))
  }

  /** `starts_with(b"<header>:")` asks for the first token. */
  lemma PrefixIsFirstToken(frame: Bytes, header: Bytes)
    requires ColonFree(header)
    ensures header + [COLON] <= frame <==> |Split(frame)| >= 2 && Split(frame)[0] == header
  {
    hide FirstColon, ColonFree;
    if header + [COLON] <= frame {
      var rest := frame[|header| + 1..];
      assert frame == header + [COLON] + rest;
      SplitCons(header, rest);
      NewsFrames.SplitIsNonEmpty(rest);
    }
    if |Split(frame)| >= 2 {
      Scanning.JoinInvertsSplit(frame);
      assert Join(Split(frame)) == Split(frame)[0] + [COLON] + Join(Split(frame)[1..]);
    }
  }

  /** The terminator is not looked at. */
  method ParseFrame(kind: FrameKind, frame: Bytes, pf: FloatParser) returns (r: Parsed<ProtocolMessage>)
    ensures r == ParsedFrame(frame, pf)
  {
    hide Split, QuoteFrames.ParsedQuote, BookFrames.ParsedBook, TradeFrames.ParsedTrade, NewsFrames.ParsedNews;
    if |frame| == 0 {
      return Failure(EmptyFrame);
    }
    PrefixIsFirstToken(frame, HEAD_T);
    PrefixIsFirstToken(frame, HEAD_B);
    PrefixIsFirstToken(frame, HEAD_Z);
    PrefixIsFirstToken(frame, HEAD_V);
    PrefixIsFirstToken(frame, HEAD_O);
    PrefixIsFirstToken(frame, HEAD_VAP);
    PrefixIsFirstToken(frame, HEAD_GTC);
    PrefixIsFirstToken(frame, HEAD_C);
    PrefixIsFirstToken(frame, HEAD_G);
    PrefixIsFirstToken(frame, HEAD_E);
    if HEAD_T + [COLON] <= frame {
      r := QuoteFrames.Parse(frame, pf);
    } else if HEAD_B + [COLON] <= frame {
      r := BookFrames.Parse(frame, pf);
    } else if HEAD_Z + [COLON] <= frame {
      r := Success(Delegated(AggBook, frame));
    } else if HEAD_V + [COLON] <= frame {
      r := TradeFrames.Parse(frame, pf);
    } else if HEAD_O + [COLON] <= frame {
      r := NewsFrames.Parse(frame);
    } else if HEAD_VAP + [COLON] <= frame {
      r := Success(Delegated(VolumeAtPrice, frame));
    } else if HEAD_GTC + [COLON] <= frame {
      r := Success(Delegated(ServerTime, frame));
    } else if HEAD_C + [COLON] <= frame {
      r := Success(Delegated(Catalog, frame));
    } else if HEAD_G + [COLON] <= frame {
      r := Success(Delegated(Broker, frame));
    } else if HEAD_E + [COLON] <= frame {
      r := Success(Delegated(WireError, frame));
    } else {
      r := Failure(UnknownHeader(frame));
    }
  }

  // ----- the dispatch by the bytes a frame begins with -----

  /** How the headers whose parsers stay outside are written: `Z`, `VAP`, `GTC`, `C`, `G`, `E`. */
  function HeaderText(h: OtherHeader): Bytes {
    match h
    case AggBook => [90]
    case VolumeAtPrice => [86, 65, 80]
    case ServerTime => [71, 84, 67]
    case Catalog => [67]
    case Broker => [71]
    case WireError => [69]
  }

  lemma HeadersAreColonFree()
    ensures ColonFree([84]) && ColonFree([66]) && ColonFree([86]) && ColonFree([79])
    ensures forall h :: ColonFree(HeaderText(h))
  {}

  /** Begins with this header and a `:`. */
  predicate Begins(frame: Bytes, header: Bytes) {
    header + [58] <= frame
  }

  /** `T:`, `B:`, `V:` and `O:` frames go to the parser of their kind, a frame with another known header
      is handed on under that header, and all other frames are of an unknown header. */
  lemma DispatchByPrefix(frame: Bytes, pf: FloatParser)
    ensures frame == [] ==> ParsedFrame(frame, pf) == Failure(EmptyFrame)
    ensures Begins(frame, [84]) ==> ParsedFrame(frame, pf) == QuoteFrames.ParsedQuote(Split(frame), pf)
    ensures Begins(frame, [66]) ==> ParsedFrame(frame, pf) == BookFrames.ParsedBook(Split(frame), pf)
    ensures Begins(frame, [86]) ==> ParsedFrame(frame, pf) == TradeFrames.ParsedTrade(Split(frame), pf)
    ensures Begins(frame, [79]) ==> ParsedFrame(frame, pf) == NewsFrames.ParsedNews(Split(frame))
    ensures forall h :: Begins(frame, HeaderText(h)) ==> ParsedFrame(frame, pf) == Success(Delegated(h, frame))
    ensures frame != [] && !Begins(frame, [84]) && !Begins(frame, [66]) && !Begins(frame, [86]) && !Begins(frame, [79])
            && (forall h :: !Begins(frame, HeaderText(h)))
            ==> ParsedFrame(frame, pf) == Failure(UnknownHeader(frame))
  {
    hide Split, ColonFree, Begins, HeaderText, QuoteFrames.ParsedQuote, BookFrames.ParsedBook,
         TradeFrames.ParsedTrade, NewsFrames.ParsedNews;
    HeadersAreColonFree();
    BeginsIff(frame, [84]);
    BeginsIff(frame, [66]);
    BeginsIff(frame, [86]);
    BeginsIff(frame, [79]);
    forall h
      ensures Begins(frame, HeaderText(h)) <==> |Split(frame)| >= 2 && Split(frame)[0] == HeaderText(h)
      ensures Begins(frame, HeaderText(h)) ==> frame != []
    {
      BeginsIff(frame, HeaderText(h));
    }
    FirstLetters();
    SameHeaders();
    forall h | Begins(frame, HeaderText(h)) ensures ParsedFrame(frame, pf) == Success(Delegated(h, frame)) {
      match h case AggBook => case VolumeAtPrice => case ServerTime => case Catalog => case Broker => case WireError =>
    }
    if frame != [] && (forall h :: !Begins(frame, HeaderText(h))) {
      assert !Begins(frame, HeaderText(AggBook)) && !Begins(frame, HeaderText(VolumeAtPrice));
      assert !Begins(frame, HeaderText(ServerTime)) && !Begins(frame, HeaderText(Catalog));
      assert !Begins(frame, HeaderText(Broker)) && !Begins(frame, HeaderText(WireError));
    }
  }

  /** No header equals another. */
  lemma FirstLetters()
    ensures |HEAD_T| == 1 && HEAD_T[0] == 84 && |HEAD_B| == 1 && HEAD_B[0] == 66 && |HEAD_Z| == 1 && HEAD_Z[0] == 90
    ensures |HEAD_V| == 1 && HEAD_V[0] == 86 && |HEAD_O| == 1 && HEAD_O[0] == 79 && |HEAD_VAP| == 3
    ensures HEAD_VAP[0] == 86 && |HEAD_GTC| == 3 && HEAD_GTC[0] == 71 && |HEAD_C| == 1 && HEAD_C[0] == 67
    ensures |HEAD_G| == 1 && HEAD_G[0] == 71 && |HEAD_E| == 1 && HEAD_E[0] == 69
  {}

  lemma BeginsIff(frame: Bytes, header: Bytes)
    requires ColonFree(header)
    ensures Begins(frame, header) <==> |Split(frame)| >= 2 && Split(frame)[0] == header
    ensures Begins(frame, header) ==> frame != []
  {
    hide Split, ColonFree;
    PrefixIsFirstToken(frame, header);
  }

  lemma SameHeaders()
    ensures HEAD_Z == HeaderText(AggBook) && HEAD_VAP == HeaderText(VolumeAtPrice)
    ensures HEAD_GTC == HeaderText(ServerTime) && HEAD_C == HeaderText(Catalog)
    ensures HEAD_G == HeaderText(Broker) && HEAD_E == HeaderText(WireError)
  {}

  // ----- printing a message -----

  function Tokens(m: ProtocolMessage, show: FloatPrinter): seq<Bytes>
    requires m.Quote? || m.Book? || m.TradeUpdate?
  {
    match m
    case Quote(ticker, time, diff) => QuoteFrames.QuoteTokens(ticker, time, diff, show)
    case Book(ticker, op) => BookFrames.BookTokens(ticker, op, show)
    case TradeUpdate(ticker, op) => TradeFrames.TradeTokens(ticker, op, show)
  }

  function Payload(m: ProtocolMessage, show: FloatPrinter): Bytes {
    match m
    case News(news) => NewsFrames.NewsFrame(news)
    case Delegated(_, frame) => frame
    case _ => Join(Tokens(m, show))
  }

  function FrameOf(m: ProtocolMessage, show: FloatPrinter): Frame {
    Frame(if m.Quote? then Bang else Newline, Payload(m, show))
  }

  function FramesFor(ms: seq<ProtocolMessage>, show: FloatPrinter): (fs: seq<Frame>)
    ensures |fs| == |ms| && forall i :: 0 <= i < |ms| ==> fs[i] == FrameOf(ms[i], show)
  {
    seq(|ms|, i requires 0 <= i < |ms| => FrameOf(ms[i], show))
  }

  function Wire(ms: seq<ProtocolMessage>, show: FloatPrinter): Bytes {
    Joined(FramesFor(ms, show))
  }

  // ----- which messages can be printed -----

  /** Neither separator nor terminator. */
  predicate Clean(s: Bytes) {
    ColonFree(s) && Plain(s)
  }

  ghost predicate AllClean(ts: seq<Bytes>) {
    forall i :: 0 <= i < |ts| ==> Clean(ts[i])
  }

  ghost predicate ValueClean(v: QuoteFieldValue, show: FloatPrinter) {
    match v
    case FloatValue(f) => Clean(show(f))
    case CharValue(c) => Clean([c])
    case PhaseValue(a, b) => Clean([a, b])
    case StrValue(s) => Clean(s)
    case _ => true
  }

  ghost predicate FieldsClean(m: ProtocolMessage, show: FloatPrinter) {
    match m
    case Quote(ticker, _, diff) => Clean(ticker) && forall i :: 0 <= i < |diff| ==> ValueClean(diff[i].1, show)
    case Book(ticker, op) =>
      && Clean(ticker)
      && (op.Add? || op.Update? ==>
            && Clean(show(op.entry.price))
            && (op.entry.orderId.Some? ==> Clean(op.entry.orderId.value))
            && (op.entry.offerType.Some? ==> Clean([op.entry.offerType.value])))
    case TradeUpdate(ticker, op) =>
      && Clean(ticker)
      && (op.AddTrade? ==>
            && Clean(show(op.trade.price)) && Clean(op.trade.tradeId) && Clean(op.trade.originalConditions)
            && Clean([TradeFrames.AggressorByte(op.trade.aggressor)])
            && (op.trade.requestId.Some? ==> Clean(op.trade.requestId.value)))
      && (op.DeleteTrade? ==> Clean(op.tradeId))
      && (op.EndOfSnapshot? ==> Clean(op.requestId))
    case News(Headline(h)) => Clean(h.agency) && Clean(h.code) && Plain(h.title)
    case News(HistoryItem(request, h)) => Clean(request) && Clean(h.agency) && Clean(h.code) && Plain(h.title)
    case News(HistoryEnd(request)) => Clean(request)
    case News(Body(request, agency, code, body)) => Clean(request) && Clean(agency) && Clean(code) && Plain(body)
    case Delegated(_, frame) => Plain(frame)
  }

  /** What the layout of its own kind asks of a message, whatever its strings. */
  predicate HasLayout(m: ProtocolMessage) {
    match m
    case Quote(_, _, diff) => QuoteFrames.HasLayout(diff)
    case Book(_, op) => BookFrames.HasLayout(op)
    case TradeUpdate(_, op) => TradeFrames.HasLayout(op)
    case News(news) => NewsFrames.HasLayout(news)
    case Delegated(header, frame) => Begins(frame, HeaderText(header))
  }

  ghost predicate PricesPrintable(m: ProtocolMessage, pf: FloatParser, show: FloatPrinter) {
    match m
    case Quote(_, _, diff) => QuoteFrames.FloatsPrintable(diff, pf, show)
    case Book(_, op) => BookFrames.PricePrintable(op, pf, show)
    case TradeUpdate(_, op) => TradeFrames.PricePrintable(op, pf, show)
    case _ => true
  }

  /** No separator or terminator in its fields (free text may hold separators), and floats that read
      back. */
  ghost predicate Printable(m: ProtocolMessage, pf: FloatParser, show: FloatPrinter) {
    FieldsClean(m, show) && PricesPrintable(m, pf, show)
  }

  // ----- printed tokens are clean -----

  lemma DigitsAreClean(s: Bytes)
    requires AllDigits(s)
    ensures Clean(s)
  {}

  lemma NumbersAreClean(n: nat)
    ensures Clean(Decimal(n)) && forall w :: Clean(Padded(n, w))
  {
    hide Decimal, Padded, Clean;
    UnpaddedReadsBack(n, "");
    DigitsAreClean(Decimal(n));
    forall w ensures Clean(Padded(n, w)) {
      NumberReadsBack(n, w, "");
      DigitsAreClean(Padded(n, w));
    }
  }

  lemma SignedIsClean(v: i64)
    ensures Clean(SignedDecimal(v))
  {
    hide Decimal;
    NumbersAreClean(if v < 0 then -(v as int) else v);
  }

  lemma ValueTextIsClean(v: QuoteFieldValue, show: FloatPrinter)
    requires ValueClean(v, show)
    ensures Clean(QuoteFrames.ValueText(v, show))
  {
    hide Decimal, Padded, SignedDecimal;
    match v {
      case IntValue(i) => SignedIsClean(i);
      case TimeValue(t) => NumbersAreClean(t);
      case DateValue(d) => NumbersAreClean(d);
      case DateTimeValue(d) => NumbersAreClean(d);
      case PhaseValue(a, b) => assert [a, b][0] == a && [a, b][1] == b;
      case _ =>
    }
  }

  lemma {:induction false} PairTokensAreClean(diff: QuoteDiff, show: FloatPrinter)
    requires forall i :: 0 <= i < |diff| ==> ValueClean(diff[i].1, show)
    ensures AllClean(QuoteFrames.PairTokens(diff, show))
  {
    hide Decimal, Clean, ValueClean, QuoteFrames.ValueText;
    if diff != [] {
      NumbersAreClean(diff[0].0);
      ValueTextIsClean(diff[0].1, show);
      PairTokensAreClean(diff[1..], show);
    }
  }

  lemma SidesAreClean()
    ensures Clean([BookFrames.SideByte(Buy)]) && Clean([BookFrames.SideByte(Sell)])
  {}

  lemma TagsAreClean()
    ensures Clean([65]) && Clean([66]) && Clean([68]) && Clean([69]) && Clean([82])
         && Clean([84]) && Clean([85]) && Clean([86])
    ensures Clean([49]) && Clean([50]) && Clean([51])
  {}

  lemma BookTokensAreClean(ticker: Bytes, op: BookOp, show: FloatPrinter)
    requires FieldsClean(Book(ticker, op), show)
    ensures AllClean(BookFrames.BookTokens(ticker, op, show))
  {
    hide Decimal, Padded, Clean;
    SidesAreClean();
    TagsAreClean();
    match op {
      case Add(e) =>
        NumbersAreClean(e.position); NumbersAreClean(e.quantity);
        NumbersAreClean(e.brokerId); NumbersAreClean(e.timestamp);
      case Update(oldPos, e) =>
        NumbersAreClean(e.position); NumbersAreClean(e.quantity);
        NumbersAreClean(e.brokerId); NumbersAreClean(e.timestamp);
        NumbersAreClean(oldPos);
      case Delete(Single(_, pos)) => NumbersAreClean(pos);
      case Delete(PrefixInclusive(_, pos)) => NumbersAreClean(pos);
      case _ =>
    }
  }

  lemma TradeTokensAreClean(ticker: Bytes, op: TradeOperation, show: FloatPrinter)
    requires FieldsClean(TradeUpdate(ticker, op), show)
    ensures AllClean(TradeFrames.TradeTokens(ticker, op, show))
  {
    hide Decimal, Padded, Clean, TradeFrames.ConditionCode, TradeFrames.AggressorByte;
    TagsAreClean();
    match op {
      case AddTrade(t) =>
        NumbersAreClean(t.time); NumbersAreClean(t.brokerBuyId); NumbersAreClean(t.brokerSellId);
        NumbersAreClean(t.quantity); NumbersAreClean(TradeFrames.ConditionCode(t.condition));
      case _ =>
    }
  }

  lemma TokensAreClean(m: ProtocolMessage, show: FloatPrinter)
    requires FieldsClean(m, show) && (m.Quote? || m.Book? || m.TradeUpdate?)
    ensures AllClean(Tokens(m, show)) && |Tokens(m, show)| >= 2
  {
    hide Clean, ValueClean, Decimal, Padded, BookFrames.OpTokens, TradeFrames.TradeFields, QuoteFrames.PairTokens;
    match m {
      case Quote(ticker, time, diff) =>
        TagsAreClean();
        NumbersAreClean(time);
        PairTokensAreClean(diff, show);
      case Book(ticker, op) => BookTokensAreClean(ticker, op, show);
      case TradeUpdate(ticker, op) => TradeTokensAreClean(ticker, op, show);
    }
  }

  lemma PlainConcat(a: Bytes, b: Bytes)
    ensures Plain(a + b) <==> Plain(a) && Plain(b)
  {
    assert forall i :: 0 <= i < |a| ==> (a + b)[i] == a[i];
    assert forall i :: 0 <= i < |b| ==> (a + b)[|a| + i] == b[i];
  }

  lemma {:induction false} JoinIsPlain(ts: seq<Bytes>)
    requires AllClean(ts)
    ensures Plain(Join(ts))
  {
    hide Plain, ColonFree;
    if |ts| == 1 {
    } else if |ts| > 1 {
      JoinIsPlain(ts[1..]);
      ColonIsPlain();
      PlainConcat(ts[0], [COLON]);
      PlainConcat(ts[0] + [COLON], Join(ts[1..]));
    } else {
      ColonIsPlain();
    }
  }

  lemma ColonIsPlain()
    ensures Plain([COLON]) && Plain([])
  {}

  lemma {:induction false} LeadingIsPlain(ts: seq<Bytes>)
    requires AllClean(ts)
    ensures Plain(Leading(ts))
  {
    hide Plain, ColonFree;
    ColonIsPlain();
    if ts != [] {
      LeadingIsPlain(ts[1..]);
      PlainConcat(ts[0], [COLON]);
      PlainConcat(ts[0] + [COLON], Leading(ts[1..]));
    }
  }

  lemma CleanIsColonFree(ts: seq<Bytes>)
    requires AllClean(ts)
    ensures AllColonFree(ts)
  {}

  lemma NewsHeadIsClean(m: NewsMessage, show: FloatPrinter)
    requires FieldsClean(News(m), show)
    ensures AllClean(NewsFrames.NewsHead(m))
  {
    hide Decimal, Padded, Clean;
    NewsTagsAreClean();
    if m.Headline? || m.HistoryItem? {
      var h := m.headline;
      NumbersAreClean(h.date);
      NumbersAreClean(h.time);
      NumbersAreClean(h.category);
      NumbersAreClean(|h.title|);
    }
  }

  lemma NewsTagsAreClean()
    ensures Clean([79]) && Clean([65]) && Clean([76]) && Clean([78])
  {}

  // ----- one message -----

  lemma TokensReadBackIff(m: ProtocolMessage, pf: FloatParser, show: FloatPrinter)
    requires Printable(m, pf, show) && (m.Quote? || m.Book? || m.TradeUpdate?)
    ensures match m
            case Quote(_, _, _) => QuoteFrames.ParsedQuote(Tokens(m, show), pf) == Success(m) <==> HasLayout(m)
            case Book(_, _) => BookFrames.ParsedBook(Tokens(m, show), pf) == Success(m) <==> HasLayout(m)
            case TradeUpdate(_, _) => TradeFrames.ParsedTrade(Tokens(m, show), pf) == Success(m) <==> HasLayout(m)
  {
    hide FieldsClean, QuoteFrames.ParsedQuote, BookFrames.ParsedBook, TradeFrames.ParsedTrade,
         QuoteFrames.QuoteTokens, BookFrames.BookTokens, TradeFrames.TradeTokens,
         QuoteFrames.FloatsPrintable, BookFrames.PricePrintable, FloatPrintable,
         QuoteFrames.HasLayout, BookFrames.HasLayout, TradeFrames.HasLayout;
    match m {
      case Quote(ticker, time, diff) =>
        QuoteFrames.QuoteReadsBackIff(ticker, time, diff, false, pf, show);
        assert Tokens(m, show) + [] == Tokens(m, show);
      case Book(ticker, op) => BookFrames.BookReadsBackIff(ticker, op, pf, show);
      case TradeUpdate(ticker, AddTrade(t)) =>
        TradeFrames.AddReadsBackIff(ticker, t, false, pf, show);
        assert Tokens(m, show) + [] == Tokens(m, show);
      case TradeUpdate(ticker, op) => TradeFrames.OtherReadsBackIff(ticker, op, pf, show);
    }
  }

  lemma FirstTokens(m: ProtocolMessage, show: FloatPrinter)
    requires m.Quote? || m.Book? || m.TradeUpdate?
    ensures |Tokens(m, show)| >= 2
    ensures Tokens(m, show)[0] == (if m.Quote? then HEAD_T else if m.Book? then HEAD_B else HEAD_V)
  {
    hide QuoteFrames.PairTokens, BookFrames.OpTokens, TradeFrames.TradeFields, Padded;
  }

  /** A printable message occupies one frame, and that frame parses to it exactly when the message
      fits the layout of its kind. */
  lemma MessageSurvivesIff(m: ProtocolMessage, pf: FloatParser, show: FloatPrinter)
    requires Printable(m, pf, show)
    ensures Plain(Payload(m, show))
    ensures ParsedFrame(Payload(m, show), pf) == Success(m) <==> HasLayout(m)
  {
    hide Plain, Split, Join, Tokens, Clean, FieldsClean, HasLayout, PricesPrintable,
         QuoteFrames.ParsedQuote, BookFrames.ParsedBook,
         TradeFrames.ParsedTrade, NewsFrames.ParsedNews, NewsFrames.NewsFrame;
    if m.News? {
      NewsSurvivesIff(m.news, pf, show);
    } else if m.Delegated? {
      DelegatedSurvivesIff(m.header, m.frame, pf, show);
    } else {
      var ts := Tokens(m, show);
      TokensAreClean(m, show);
      CleanIsColonFree(ts);
      JoinIsPlain(ts);
      ManyTokens(ts);
      FirstTokens(m, show);
      TokensReadBackIff(m, pf, show);
    }
  }

  lemma DelegatedSurvivesIff(header: OtherHeader, frame: Bytes, pf: FloatParser, show: FloatPrinter)
    requires Printable(Delegated(header, frame), pf, show)
    ensures Plain(Payload(Delegated(header, frame), show))
    ensures ParsedFrame(frame, pf) == Success(Delegated(header, frame)) <==> HasLayout(Delegated(header, frame))
  {
    DispatchByPrefix(frame, pf);
    OnlyOtherHeaders(Split(frame), pf);
  }

  lemma OnlyOtherHeaders(ts: seq<Bytes>, pf: FloatParser)
    ensures QuoteFrames.ParsedQuote(ts, pf).Success? ==> QuoteFrames.ParsedQuote(ts, pf).value.Quote?
    ensures BookFrames.ParsedBook(ts, pf).Success? ==> BookFrames.ParsedBook(ts, pf).value.Book?
    ensures TradeFrames.ParsedTrade(ts, pf).Success? ==> TradeFrames.ParsedTrade(ts, pf).value.TradeUpdate?
    ensures NewsFrames.ParsedNews(ts).Success? ==> NewsFrames.ParsedNews(ts).value.News?
  {
    hide QuoteFrames.ParsedPairs, BookFrames.ParsedOp, TradeFrames.ParsedOp, NewsFrames.ParsedNewsMessage, ParsedU32;
  }

  lemma ManyTokens(ts: seq<Bytes>)
    requires |ts| >= 2 && AllColonFree(ts)
    ensures Split(Join(ts)) == ts && Join(ts) != []
  {
    hide Split;
    Scanning.SplitInvertsJoin(ts);
  }

  lemma NewsSurvivesIff(m: NewsMessage, pf: FloatParser, show: FloatPrinter)
    requires Printable(News(m), pf, show)
    ensures Plain(NewsFrames.NewsFrame(m))
    ensures ParsedFrame(NewsFrames.NewsFrame(m), pf) == Success(News(m)) <==> HasLayout(News(m))
  {
    NewsParts(m, show);
    NewsTextIsPlain(m, show);
    hide Plain, Split, Clean, NewsFrames.NewsHead, NewsFrames.NewsText, Leading, NewsFrames.ParsedNews, FieldsClean,
         NewsFrames.HasLayout;
    NewsFrames.NewsReadsBackIff(m);
    PlainConcat(Leading(NewsFrames.NewsHead(m)), NewsFrames.NewsText(m));
  }

  lemma NewsTextIsPlain(m: NewsMessage, show: FloatPrinter)
    requires FieldsClean(News(m), show)
    ensures Plain(NewsFrames.NewsText(m)) && NewsFrames.NewsPrintable(m)
  {}

  lemma NewsParts(m: NewsMessage, show: FloatPrinter)
    requires FieldsClean(News(m), show)
    ensures Plain(Leading(NewsFrames.NewsHead(m)))
    ensures NewsFrames.NewsFrame(m) != []
    ensures |Split(NewsFrames.NewsFrame(m))| >= 2 && Split(NewsFrames.NewsFrame(m))[0] == HEAD_O
  {
    hide Plain, Split, Clean, Decimal, Padded;
    var head := NewsFrames.NewsHead(m);
    NewsHeadIsClean(m, show);
    CleanIsColonFree(head);
    LeadingIsPlain(head);
    RestIsVerbatim(head, NewsFrames.NewsText(m));
    NewsFrames.SplitIsNonEmpty(NewsFrames.NewsText(m));
  }

  // ----- streams -----

  /** What the daemon makes of a byte stream. */
  function Received(s: Bytes, pf: FloatParser): (rs: seq<Parsed<ProtocolMessage>>)
    ensures |rs| == |FramesOf(s)| && forall i :: 0 <= i < |rs| ==> rs[i] == ParsedFrame(FramesOf(s)[i].payload, pf)
  {
    seq(|FramesOf(s)|, i requires 0 <= i < |FramesOf(s)| => ParsedFrame(FramesOf(s)[i].payload, pf))
  }

  /** What a splitter yields that is fed chunk by chunk, `held` being its buffer. */
  function Fed(held: Bytes, chunks: seq<Bytes>): seq<Frame>
    decreases chunks
  {
    if chunks == [] then []
    else FramesOf(held + chunks[0]) + Fed(TailOf(held + chunks[0]), chunks[1..])
  }

  function Flat(chunks: seq<Bytes>): Bytes {
    if chunks == [] then [] else chunks[0] + Flat(chunks[1..])
  }

  lemma {:induction false} FedIsSplit(held: Bytes, chunks: seq<Bytes>)
    requires Plain(held)
    ensures Fed(held, chunks) == FramesOf(held + Flat(chunks))
    decreases chunks
  {
    hide FramesOf, TailOf, Plain;
    if chunks == [] {
      PlainHasNoFrames(held);
      assert held + Flat(chunks) == held;
    } else {
      var first, rest := held + chunks[0], Flat(chunks[1..]);
      Framing.JoinInvertsSplit(first);
      FedIsSplit(TailOf(first), chunks[1..]);
      FramesOfPieces(first, rest);
      assert held + Flat(chunks) == first + rest;
    }
  }

  lemma PlainHasNoFrames(s: Bytes)
    requires Plain(s)
    ensures FramesOf(s) == []
  {
    hide FirstTerminator;
    PlainHasNone(s);
  }

  ghost predicate AllPrintable(ms: seq<ProtocolMessage>, pf: FloatParser, show: FloatPrinter) {
    forall i :: 0 <= i < |ms| ==> Printable(ms[i], pf, show)
  }

  /** Print any messages, cut the bytes anywhere, split and parse: one result for each message, in
      order, and it is that message exactly when the message fits the layout of its kind. */
  lemma MessagesSurviveChunking(ms: seq<ProtocolMessage>, chunks: seq<Bytes>, pf: FloatParser, show: FloatPrinter)
    requires AllPrintable(ms, pf, show) && Flat(chunks) == Wire(ms, show)
    ensures Fed([], chunks) == FramesFor(ms, show)
    ensures |Received(Flat(chunks), pf)| == |ms|
    ensures forall i :: 0 <= i < |ms| ==> (Received(Flat(chunks), pf)[i] == Success(ms[i]) <==> HasLayout(ms[i]))
  {
    hide Plain, FramesOf, TailOf, Joined, Fed, Printable, HasLayout, Payload, ParsedFrame, Flat;
    var fs := FramesFor(ms, show);
    forall i | 0 <= i < |ms|
      ensures Plain(fs[i].payload) && (ParsedFrame(fs[i].payload, pf) == Success(ms[i]) <==> HasLayout(ms[i]))
    {
      MessageSurvivesIff(ms[i], pf, show);
    }
    ColonIsPlain();
    Framing.SplitInvertsJoin(fs, []);
    assert Joined(fs) + [] == Joined(fs);
    FedIsSplit([], chunks);
    assert [] + Flat(chunks) == Flat(chunks);
  }

  /** News is free text, and the framing does not know that: an item sent with its newline arrives
      whole exactly when its text holds no `!` and no newline (and no history item's agency is `END`). */
  lemma NewsArrivesIff(m: NewsMessage, pf: FloatParser, show: FloatPrinter)
    requires NewsFrames.NewsPrintable(m) && AllClean(NewsFrames.NewsHead(m))
    ensures Received(Terminated(FrameOf(News(m), show)), pf) == [Success(News(m))]
       <==> Plain(NewsFrames.NewsText(m)) && NewsFrames.HasLayout(m)
  {
    hide Plain, FramesOf, TailOf, Joined, Split, Clean, NewsFrames.NewsHead, NewsFrames.NewsText, Leading,
         NewsFrames.ParsedNews, NewsFrames.HasLayout, AllClean;
    var f := FrameOf(News(m), show);
    LeadingIsPlain(NewsFrames.NewsHead(m));
    PlainConcat(Leading(NewsFrames.NewsHead(m)), NewsFrames.NewsText(m));
    OneFrameIff(f);
    if Plain(f.payload) {
      assert FramesOf(Terminated(f)) == [f];
      NewsFrames.NewsReadsBackIff(m);
      HeadOfNews(m);
      assert ParsedFrame(f.payload, pf) == NewsFrames.ParsedNews(Split(f.payload));
      assert Received(Terminated(f), pf) == [ParsedFrame(f.payload, pf)];
    } else if |FramesOf(Terminated(f))| == 1 {
      SoleFrame(f);
    }
  }

  /** A headline with an exclamation mark, sent with its newline, never arrives whole. */
  lemma ExclamationCutsHeadline(h: NewsHeadline, pf: FloatParser, show: FloatPrinter)
    requires ColonFree(h.agency) && ColonFree(h.code) && AllClean(NewsFrames.NewsHead(Headline(h)))
    requires Framing.BANG in h.title
    ensures Received(Terminated(FrameOf(News(Headline(h)), show)), pf) != [Success(News(Headline(h)))]
  {
    hide Received, AllClean, NewsFrames.NewsHead;
    NewsArrivesIff(Headline(h), pf, show);
    var i :| 0 <= i < |h.title| && h.title[i] == Framing.BANG;
    assert Terminates(h.title[i]);
  }

  lemma HeadOfNews(m: NewsMessage)
    requires NewsFrames.NewsPrintable(m)
    ensures NewsFrames.NewsFrame(m) != []
    ensures |Split(NewsFrames.NewsFrame(m))| >= 2 && Split(NewsFrames.NewsFrame(m))[0] == HEAD_O
  {
    hide Split, Decimal, Padded, ColonFree;
    var head := NewsFrames.NewsHead(m);
    NewsFrames.HeadsAreColonFree(m);
    RestIsVerbatim(head, NewsFrames.NewsText(m));
    NewsFrames.SplitIsNonEmpty(NewsFrames.NewsText(m));
  }

  /** A payload that arrives as a single frame holds no terminator. */
  lemma SoleFrame(f: Frame)
    requires |FramesOf(Terminated(f))| == 1
    ensures Plain(f.payload)
  {
    hide FramesOf, TailOf;
    var s := Terminated(f);
    Framing.JoinInvertsSplit(s);
    var g, tail := FramesOf(s)[0], TailOf(s);
    assert FramesOf(s)[1..] == [];
    assert s == Terminated(g) + tail;
    assert Terminates(s[|s| - 1]);
    LastOfConcat(Terminated(g), tail);
    assert tail == [];
    assert f.payload == s[..|s| - 1] == g.payload;
  }

  lemma LastOfConcat(a: Bytes, b: Bytes)
    requires a != []
    ensures b == [] || b[|b| - 1] == (a + b)[|a + b| - 1]
  {}
}
