/** News frames (crates/cedro-protocol/src/parser/nem.rs): titles and bodies keep their colons. */
module NewsFrames {
  import opened Base
  import opened Types
  import opened Scanning
  import opened Layouts

  const TAG_A: Bytes := [65]
  const TAG_L: Bytes := [76]
  const TAG_N: Bytes := [78]
  const END: Bytes := [69, 78, 68]

  // ----- what a frame means -----

  /** A headline whose agency is token `k - 1` and whose code is token `k`. */
  function ParsedHeadline(ts: seq<Bytes>, k: nat, agency: Bytes): Parsed<NewsHeadline> {
    var code :- Field(ts, k, "code");
    var dateBytes :- Field(ts, k + 1, "news date");
    var date :- ParsedU32(dateBytes, "news date");
    var timeBytes :- Field(ts, k + 2, "news time");
    var time :- ParsedU32(timeBytes, "news time");
    var categoryBytes :- Field(ts, k + 3, "news category");
    var category :- ParsedU32(categoryBytes, "news category");
    var length :- Field(ts, k + 4, "news title length");
    Success(NewsHeadline(agency, code, date, time, category, RestFrom(ts, k + 5)))
  }

  function ParsedNewsMessage(ts: seq<Bytes>): Parsed<NewsMessage> {
    var kind :- Field(ts, 1, "news kind");
    if kind == TAG_A then
      var agency :- Field(ts, 2, "agency");
      var headline :- ParsedHeadline(ts, 3, agency);
      Success(Headline(headline))
    else if kind == TAG_L then
      var request :- Field(ts, 2, "request id");
      var next :- Field(ts, 3, "agency or END");
      if next == END then Success(HistoryEnd(request))
      else
        var headline :- ParsedHeadline(ts, 4, next);
        Success(HistoryItem(request, headline))
    else if kind == TAG_N then
      var request :- Field(ts, 2, "request id");
      var agency :- Field(ts, 3, "agency");
      var code :- Field(ts, 4, "code");
      Success(Body(request, agency, code, RestFrom(ts, 5)))
    else Failure(InvalidField("news kind", "expected A, L, or N"))
  }

  function ParsedNews(ts: seq<Bytes>): Parsed<ProtocolMessage> {
    var header :- Field(ts, 0, "O header");
    var news :- ParsedNewsMessage(ts);
    Success(News(news))
  }

  // ----- the parser -----

  /** `preConsumed` is the agency when the caller has read it already. */
  method ReadHeadline(scanner: Scanner, preConsumed: Option<Bytes>, ghost ts: seq<Bytes>, ghost k: nat)
    returns (r: Parsed<NewsHeadline>)
    requires scanner.At(ts, if preConsumed.Some? then k + 1 else k)
    modifies scanner
    ensures preConsumed.Some? ==> r == ParsedHeadline(ts, k + 1, preConsumed.value)
    ensures preConsumed.None? ==> r == (var agency :- Field(ts, k, "agency"); ParsedHeadline(ts, k + 1, agency))
  {
    hide Scanner.Remaining, ParsedU32, Join;
    var agency;
    if preConsumed.Some? {
      agency := preConsumed.value;
    } else {
      agency :- scanner.Required("agency");
    }
    var code :- scanner.Required("code");
    var date :- scanner.RequiredU32("news date", ts, k + 2);
    var time :- scanner.RequiredU32("news time", ts, k + 3);
    var category :- scanner.RequiredU32("news category", ts, k + 4);
    var titleLength :- scanner.Required("news title length");
    var title := scanner.TakeRest();
    assert title == RestFrom(ts, k + 6) by { JoinNothing(); }
    r := Success(NewsHeadline(agency, code, date, time, category, title));
  }

  lemma JoinNothing()
    ensures Join([]) == []
  {}

  method Parse(frame: Bytes) returns (r: Parsed<ProtocolMessage>)
    ensures r == ParsedNews(Split(frame))
  {
    hide Scanner.Remaining, ParsedHeadline, Split, Join;
    ghost var ts := Split(frame);
    var scanner := new Scanner(frame);
    var header :- scanner.Required("O header");
    var kind :- scanner.Required("news kind");
    if kind == TAG_A {
      var headline :- ReadHeadline(scanner, None, ts, 2);
      return Success(News(Headline(headline)));
    }
    if kind == TAG_L {
      var request :- scanner.Required("request id");
      var next :- scanner.Required("agency or END");
      if next == END {
        return Success(News(HistoryEnd(request)));
      }
      var headline :- ReadHeadline(scanner, Some(next), ts, 3);
      return Success(News(HistoryItem(request, headline)));
    }
    if kind == TAG_N {
      var request :- scanner.Required("request id");
      var agency :- scanner.Required("agency");
      var code :- scanner.Required("code");
      var body := scanner.TakeRest();
      assert body == RestFrom(ts, 5) by { JoinNothing(); }
      return Success(News(Body(request, agency, code, body)));
    }
    r := Failure(InvalidField("news kind", "expected A, L, or N"));
  }

  // ----- the same by the documented table (nem.rs:5-11), field by field -----

  const NO_FLOATS: FloatParser := _ => None

  /** The fields of a headline behind its agency. */
  const HEADLINE_FIELDS: seq<Spec> :=
    [Spec("code", Anything), Spec("news date", U32_DIGITS), Spec("news time", U32_DIGITS),
     Spec("news category", U32_DIGITS), Spec("news title length", Anything)]

  /** The error of a frame of at least two tokens. */
  function MessageError(ts: seq<Bytes>): Option<ParseError>
    requires |ts| >= 2
  {
    if ts[1] == [65] then
      if |ts| == 2 then Some(MissingField(3, "agency")) else FirstError(ts, 3, HEADLINE_FIELDS, NO_FLOATS)
    else if ts[1] == [76] then
      if |ts| == 2 then Some(MissingField(3, "request id"))
      else if |ts| == 3 then Some(MissingField(4, "agency or END"))
      else if ts[3] == [69, 78, 68] then None
      else FirstError(ts, 4, HEADLINE_FIELDS, NO_FLOATS)
    else if ts[1] == [78] then
      if |ts| < 5 then Some(MissingField(|ts| + 1, ["request id", "agency", "code"][|ts| - 2])) else None
    else Some(InvalidField("news kind", "expected A, L, or N"))
  }

  /** The tokens from `k` on, and the text behind them, say what is in `h`. */
  predicate HeadlineSays(ts: seq<Bytes>, k: nat, h: NewsHeadline) {
    && 0 < k && k + 5 <= |ts|
    && h.agency == ts[k - 1] && h.code == ts[k] && Denotes(ts[k + 1], h.date) && Denotes(ts[k + 2], h.time)
    && Denotes(ts[k + 3], h.category) && h.title == RestFrom(ts, k + 5)
  }

  predicate MessageSays(ts: seq<Bytes>, m: NewsMessage) {
    && |ts| >= 2
    && match m
       case Headline(h) => ts[1] == [65] && HeadlineSays(ts, 3, h)
       case HistoryItem(request, h) =>
         ts[1] == [76] && |ts| >= 4 && ts[2] == request && ts[3] != [69, 78, 68] && HeadlineSays(ts, 4, h)
       case HistoryEnd(request) => ts[1] == [76] && |ts| >= 4 && ts[2] == request && ts[3] == [69, 78, 68]
       case Body(request, agency, code, body) =>
         ts[1] == [78] && |ts| >= 5 && ts[2] == request && ts[3] == agency && ts[4] == code && body == RestFrom(ts, 5)
  }

  lemma HeadlineByTable(ts: seq<Bytes>, k: nat)
    requires 0 < k <= |ts|
    ensures var e, r := FirstError(ts, k, HEADLINE_FIELDS, NO_FLOATS), ParsedHeadline(ts, k, ts[k - 1]);
            if e.Some? then r == Failure(e.value) else r.Success? && HeadlineSays(ts, k, r.value)
  {
    hide FirstError, FieldError, ParsedU32, Denotes, RestFrom;
    var f := HEADLINE_FIELDS;
    FirstOfFive(ts, k, f[0], f[1], f[2], f[3], f[4], NO_FLOATS);
    assert f == [f[0], f[1], f[2], f[3], f[4]];
    if k < |ts| { AnyField(ts[k], "code"); }
    if k + 1 < |ts| { U32ByTable(ts[k + 1], "news date", NO_FLOATS); }
    if k + 2 < |ts| { U32ByTable(ts[k + 2], "news time", NO_FLOATS); }
    if k + 3 < |ts| { U32ByTable(ts[k + 3], "news category", NO_FLOATS); }
    if k + 4 < |ts| { AnyField(ts[k + 4], "news title length"); }
  }

  lemma AnyField(token: Bytes, name: string)
    ensures FieldError(token, Spec(name, Anything), NO_FLOATS) == None
  {}

  /** A frame of any tokens: the first field of the table that is missing or malformed is the error, and
      with none of them the frame says what its tokens say. */
  lemma NewsByTable(ts: seq<Bytes>)
    ensures var r := ParsedNews(ts);
            if |ts| < 2 then r == Failure(MissingField(|ts| + 1, ["O header", "news kind"][|ts|]))
            else if MessageError(ts).Some? then r == Failure(MessageError(ts).value)
            else r.Success? && r.value.News? && MessageSays(ts, r.value.news)
  {
    hide FirstError, ParsedHeadline, HeadlineSays, RestFrom;
    if |ts| >= 3 { HeadlineByTable(ts, 3); }
    if |ts| >= 4 { HeadlineByTable(ts, 4); }
  }

  // ----- the documented wire layout (nem.rs:5-11) and the round trip -----

  /** The tokens before the free text. */
  function HeadlineHead(h: NewsHeadline): seq<Bytes> {
    [h.agency, h.code, Padded(h.date, 8), Padded(h.time, 6), Decimal(h.category), Decimal(|h.title|)]
  }

  function NewsHead(m: NewsMessage): seq<Bytes> {
    match m
    case Headline(h) => [[79], [65]] + HeadlineHead(h)
    case HistoryItem(request, h) => [[79], [76], request] + HeadlineHead(h)
    case HistoryEnd(request) => [[79], [76], request]
    case Body(request, agency, code, _) => [[79], [78], request, agency, code]
  }

  function NewsText(m: NewsMessage): Bytes {
    match m
    case Headline(h) => h.title
    case HistoryItem(_, h) => h.title
    case HistoryEnd(_) => [69, 78, 68]
    case Body(_, _, _, body) => body
  }

  function NewsFrame(m: NewsMessage): Bytes {
    Leading(NewsHead(m)) + NewsText(m)
  }

  /** Only the free text may contain colons. */
  predicate NewsPrintable(m: NewsMessage) {
    match m
    case Headline(h) => ColonFree(h.agency) && ColonFree(h.code)
    case HistoryItem(request, h) => ColonFree(request) && ColonFree(h.agency) && ColonFree(h.code)
    case HistoryEnd(request) => ColonFree(request)
    case Body(request, agency, code, _) => ColonFree(request) && ColonFree(agency) && ColonFree(code)
  }

  /** A history item of the agency `END` looks like the end of the list. */
  predicate HasLayout(m: NewsMessage) {
    m.HistoryItem? ==> m.headline.agency != [69, 78, 68]
  }

  lemma HeadlineReadsBack(ts: seq<Bytes>, k: nat, h: NewsHeadline)
    requires k + 6 < |ts| && ts[k..k + 6] == HeadlineHead(h) && RestFrom(ts, k + 6) == h.title
    ensures ParsedHeadline(ts, k + 1, h.agency) == Success(h)
  {
    hide Decimal, Padded, ParsedU32, Join, RestFrom;
    var hd := HeadlineHead(h);
    assert forall i :: 0 <= i < 6 ==> ts[k + i] == ts[k..k + 6][i] == hd[i];
    assert ts[k + 1] == hd[1] && ts[k + 2] == hd[2] && ts[k + 3] == hd[3] && ts[k + 4] == hd[4] && ts[k + 5] == hd[5];
    NumberReadsBack(h.date, 8, "news date");
    NumberReadsBack(h.time, 6, "news time");
    UnpaddedReadsBack(h.category, "news category");
  }

  lemma HeadsAreColonFree(m: NewsMessage)
    requires NewsPrintable(m)
    ensures AllColonFree(NewsHead(m))
  {
    hide Decimal, Padded;
    if m.Headline? || m.HistoryItem? {
      var h := m.headline;
      NumberReadsBack(h.date, 8, "");
      NumberReadsBack(h.time, 6, "");
      UnpaddedReadsBack(h.category, "");
      UnpaddedReadsBack(|h.title|, "");
    }
  }

  lemma SplitIsNonEmpty(s: Bytes)
    ensures Split(s) != []
  {
    hide FirstColon;
  }

  /** News comes back with its text verbatim, colons and all; only a history item whose agency reads
      `END` does not, being taken for the end of the list. */
  lemma NewsReadsBackIff(m: NewsMessage)
    requires NewsPrintable(m)
    ensures ParsedNews(Split(NewsFrame(m))) == Success(News(m))
       <==> HasLayout(m)
  {
    hide Split, Join, Decimal, Padded, ParsedHeadline, RestFrom, Leading;
    HeadsAreColonFree(m);
    var head, text := NewsHead(m), NewsText(m);
    RestIsVerbatim(head, text);
    SplitIsNonEmpty(text);
    var ts := head + Split(text);
    match m {
      case Headline(h) =>
        assert ts[2..8] == HeadlineHead(h);
        HeadlineReadsBack(ts, 2, h);
      case HistoryItem(request, h) =>
        assert ts[3..9] == HeadlineHead(h);
        HeadlineReadsBack(ts, 3, h);
      case HistoryEnd(request) =>
        SplitOne(END);
      case Body(_, _, _, _) =>
    }
  }
}
