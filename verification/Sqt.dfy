/** Quote frames (crates/cedro-protocol/src/parser/sqt.rs). */
module QuoteFrames {
  import opened Base
  import opened Types
  import opened Scanning
  import opened Layouts

  datatype FieldType = FloatField | IntField | TimeField | TimeMsField | DateField | DateTimeField | CharField
                     | PhaseField | StrField

  function TypeOf(idx: u16): FieldType {
    if idx in {0, 5, 15, 16, 58, 59} then TimeField
    else if 142 <= idx <= 145 then TimeMsField
    else if idx in {1, 54, 64, 87, 129, 141, 154, 208} then DateField
    else if idx in {50, 51, 125} then DateTimeField
    else if idx in {6, 7, 8, 9, 19, 20, 44, 45, 46, 49, 57, 60, 61, 62, 63, 65, 67, 84, 100, 101, 102, 110, 111,
                    113, 114, 115, 118, 119, 130, 136, 137, 138, 203, 205, 209, 213} then IntField
    else if idx == 88 then PhaseField
    else if idx in {56, 72, 74, 106} then CharField
    else if idx in {47, 48, 52, 53, 66, 81, 96, 105, 109, 116, 117, 122, 126, 139, 204, 206,
                    207, 214, 215} then StrField
    else FloatField
  }

  // ----- what a frame means -----

  function ParsedValue(idx: u16, raw: Bytes, pf: FloatParser): Parsed<QuoteFieldValue> {
    match TypeOf(idx)
    case FloatField => var v :- ParsedF64(pf, raw, "quote float"); Success(FloatValue(v))
    case IntField => var v :- ParsedI64(raw, "quote int"); Success(IntValue(v))
    case TimeField => var v :- ParsedU32(raw, "quote time"); Success(TimeValue(v))
    case TimeMsField => var v :- ParsedU32(raw, "quote time-ms"); Success(TimeValue(v))
    case DateField => var v :- ParsedU32(raw, "quote date"); Success(DateValue(v))
    case DateTimeField => var v :- ParsedU64(raw, "quote datetime"); Success(DateTimeValue(v))
    case CharField =>
      if |raw| != 1 then Failure(InvalidField("quote char", "expected exactly one byte"))
      else Success(CharValue(raw[0]))
    case PhaseField =>
      Success(PhaseValue(if |raw| > 0 then raw[0] else 0, if |raw| > 1 then raw[1] else 0))
    case StrField => Success(StrValue(raw))
  }

  /** A pair whose index token is `field` and whose value is token `k`. */
  function ParsedPair(field: Bytes, ts: seq<Bytes>, k: nat, pf: FloatParser): Parsed<QuotePair> {
    var idx :- ParsedU16(field, "quote index");
    var raw :- Field(ts, k, "quote value");
    var value :- ParsedValue(idx, raw, pf);
    Success((idx, value))
  }

  /** The index/value pairs from token `k` on, up to the end or an empty index token. */
  function ParsedPairs(ts: seq<Bytes>, k: nat, pf: FloatParser): Parsed<QuoteDiff>
    decreases |ts| - k
  {
    if k >= |ts| || ts[k] == [] then Success([])
    else
      var pair :- ParsedPair(ts[k], ts, k + 1, pf);
      var rest :- ParsedPairs(ts, k + 2, pf);
      Success([pair] + rest)
  }

  function ParsedQuote(ts: seq<Bytes>, pf: FloatParser): Parsed<ProtocolMessage> {
    var header :- Field(ts, 0, "T header");
    var ticker :- Field(ts, 1, "ticker");
    var timeBytes :- Field(ts, 2, "HHMMSS");
    var time :- ParsedU32(timeBytes, "HHMMSS");
    var diff :- ParsedPairs(ts, 3, pf);
    Success(Quote(ticker, time, diff))
  }

  // ----- the parser -----

  method DecodeValue(idx: u16, raw: Bytes, pf: FloatParser) returns (r: Parsed<QuoteFieldValue>)
    ensures r == ParsedValue(idx, raw, pf)
  {
    hide ParsedU32, ParsedU64, ParsedI64, ParsedF64, TypeOf;
    match TypeOf(idx)
    case FloatField =>
      r := match ParsedF64(pf, raw, "quote float")
           case Success(v) => Success(FloatValue(v))
           case Failure(e) => Failure(e);
    case IntField =>
      var v :- ParseI64(raw, "quote int");
      r := Success(IntValue(v));
    case TimeField =>
      var v :- ParseU32(raw, "quote time");
      r := Success(TimeValue(v));
    case TimeMsField =>
      r := DecodeTimeMs(raw);
    case DateField =>
      var v :- ParseU32(raw, "quote date");
      r := Success(DateValue(v));
    case DateTimeField =>
      var v :- ParseU64(raw, "quote datetime");
      r := Success(DateTimeValue(v));
    case CharField =>
      if |raw| != 1 {
        return Failure(InvalidField("quote char", "expected exactly one byte"));
      }
      r := Success(CharValue(raw[0]));
    case PhaseField =>
      var buf: Bytes := [0, 0];
      var n := if |raw| < 2 then |raw| else 2;
      buf := raw[..n] + buf[n..];
      r := Success(PhaseValue(buf[0], buf[1]));
    case StrField =>
      r := Success(StrValue(raw));
  }

  method DecodeTimeMs(raw: Bytes) returns (r: Parsed<QuoteFieldValue>)
    ensures r == (var v :- ParsedU32(raw, "quote time-ms"); Success(TimeValue(v)))
  {
    var n :- ParseU64(raw, "quote time-ms");
    r := if n < U32_LIMIT then Success(TimeValue(n)) else Failure(BadInteger("quote time-ms"));
  }

  /** `front` read already, then the rest. */
  function Onto(front: QuoteDiff, rest: Parsed<QuoteDiff>): Parsed<QuoteDiff> {
    var diff :- rest;
    Success(front + diff)
  }

  method ReadPair(field: Bytes, scanner: Scanner, ghost ts: seq<Bytes>, ghost k: nat, pf: FloatParser)
    returns (r: Parsed<QuotePair>)
    requires scanner.At(ts, k)
    modifies scanner
    ensures r == ParsedPair(field, ts, k, pf)
    ensures r.Success? ==> scanner.At(ts, k + 1)
  {
    hide Scanner.Remaining, ParsedU16, ParsedValue;
    var idx :- ParseU16(field, "quote index");
    var raw :- scanner.Required("quote value");
    var value :- DecodeValue(idx, raw, pf);
    r := Success((idx, value));
  }

  method Parse(frame: Bytes, pf: FloatParser) returns (r: Parsed<ProtocolMessage>)
    ensures r == ParsedQuote(Split(frame), pf)
  {
    hide Scanner.Remaining, Split, ParsedU32, ParsedPair, ParsedPairs, Onto;
    ghost var ts := Split(frame);
    var scanner := new Scanner(frame);
    var header :- scanner.Required("T header");
    var ticker :- scanner.Required("ticker");
    var timeBytes :- scanner.Required("HHMMSS");
    var time :- ParseU32(timeBytes, "HHMMSS");
    var diff: QuoteDiff := [];
    ghost var k := 3;
    OntoNothing(ParsedPairs(ts, 3, pf));
    while true
      invariant fresh(scanner) && scanner.At(ts, k)
      invariant ParsedPairs(ts, 3, pf) == Onto(diff, ParsedPairs(ts, k, pf))
      decreases |ts| - k
    {
      PairsStep(ts, k, pf);
      OntoUnits(diff, ParsedPairs(ts, k, pf));
      var idxField := scanner.Next();
      if idxField.None? {
        break;
      }
      if idxField.value == [] {
        break;
      }
      var pair :- ReadPair(idxField.value, scanner, ts, k + 1, pf);
      OntoAssociates(diff, pair, ParsedPairs(ts, k + 2, pf));
      diff := diff + [pair];
      k := k + 2;
    }
    r := Success(Quote(ticker, time, diff));
  }

  /** One turn of the loop. */
  lemma PairsStep(ts: seq<Bytes>, k: nat, pf: FloatParser)
    ensures ParsedPairs(ts, k, pf)
         == if k >= |ts| || ts[k] == [] then Success([])
            else
              var pair :- ParsedPair(ts[k], ts, k + 1, pf);
              Onto([pair], ParsedPairs(ts, k + 2, pf))
  {
    hide ParsedPair;
  }

  lemma OntoNothing(rest: Parsed<QuoteDiff>)
    ensures Onto([], rest) == rest
  {
    if rest.Success? {
      assert [] + rest.value == rest.value;
    }
  }

  lemma OntoUnits(front: QuoteDiff, rest: Parsed<QuoteDiff>)
    ensures rest == Success([]) ==> Onto(front, rest) == Success(front)
    ensures rest.Failure? ==> Onto(front, rest) == rest
  {
    assert front + [] == front;
  }

  lemma OntoAssociates(front: QuoteDiff, pair: QuotePair, rest: Parsed<QuoteDiff>)
    ensures Onto(front, Onto([pair], rest)) == Onto(front + [pair], rest)
  {
    if rest.Success? {
      assert front + ([pair] + rest.value) == front + [pair] + rest.value;
    }
  }

  // ----- the same by the documented table (section 4.1.1 of api.md), index by index -----

  /** The column of types in that table. */
  datatype DocumentedType = Clock | ClockMillis | Day | Moment | Month | Whole | Fraction | Letter | Text

  /** Its rows, top to bottom. */
  function Documented(idx: u16): Option<DocumentedType> {
    if idx <= 0 then Some(Clock) else if idx <= 1 then Some(Day) else if idx <= 4 then Some(Fraction)
    else if idx <= 5 then Some(Clock) else if idx <= 9 then Some(Whole) else if idx <= 14 then Some(Fraction)
    else if idx <= 16 then Some(Clock) else if idx <= 18 then Some(Fraction) else if idx <= 20 then Some(Whole)
    else if idx <= 21 then Some(Fraction) else if idx <= 35 then None else if idx <= 43 then Some(Fraction)
    else if idx <= 46 then Some(Whole) else if idx <= 48 then Some(Text) else if idx <= 49 then Some(Whole)
    else if idx <= 51 then Some(Moment) else if idx <= 53 then Some(Text) else if idx <= 54 then Some(Day)
    else if idx <= 55 then None else if idx <= 56 then Some(Letter) else if idx <= 57 then Some(Whole)
    else if idx <= 59 then Some(Clock) else if idx <= 63 then Some(Whole) else if idx <= 64 then Some(Day)
    else if idx <= 65 then Some(Whole) else if idx <= 66 then Some(Text) else if idx <= 67 then Some(Whole)
    else if idx <= 71 then None else if idx <= 72 then Some(Letter) else if idx <= 73 then None
    else if idx <= 74 then Some(Letter) else if idx <= 80 then None else if idx <= 81 then Some(Text)
    else if idx <= 82 then Some(Fraction) else if idx <= 84 then Some(Whole)
    else if idx <= 86 then Some(Fraction) else if idx <= 87 then Some(Day) else if idx <= 88 then Some(Text)
    else if idx <= 90 then Some(Fraction) else if idx <= 93 then None else if idx <= 95 then Some(Fraction)
    else if idx <= 96 then Some(Text) else if idx <= 99 then Some(Fraction) else if idx <= 102 then Some(Whole)
    else if idx <= 104 then Some(Fraction) else if idx <= 106 then Some(Text)
    else if idx <= 108 then Some(Fraction) else if idx <= 109 then Some(Text)
    else if idx <= 111 then Some(Whole) else if idx <= 112 then Some(Fraction)
    else if idx <= 115 then Some(Whole) else if idx <= 117 then Some(Text) else if idx <= 119 then Some(Whole)
    else if idx <= 120 then Some(Month) else if idx <= 121 then Some(Fraction)
    else if idx <= 122 then Some(Text) else if idx <= 123 then Some(Fraction)
    else if idx <= 124 then Some(Whole) else if idx <= 125 then Some(Moment) else if idx <= 126 then Some(Text)
    else if idx <= 128 then Some(Fraction) else if idx <= 129 then Some(Day)
    else if idx <= 130 then Some(Whole) else if idx <= 133 then None else if idx <= 135 then Some(Fraction)
    else if idx <= 138 then Some(Whole) else if idx <= 139 then Some(Text)
    else if idx <= 140 then Some(Fraction) else if idx <= 141 then Some(Text)
    else if idx <= 145 then Some(ClockMillis) else if idx <= 153 then Some(Fraction)
    else if idx <= 154 then Some(Day) else if idx <= 160 then Some(Fraction) else if idx <= 199 then None
    else if idx <= 202 then Some(Fraction) else if idx <= 203 then Some(Whole)
    else if idx <= 204 then Some(Text) else if idx <= 205 then Some(Whole) else if idx <= 207 then Some(Text)
    else if idx <= 208 then Some(Day) else if idx <= 209 then Some(Whole)
    else if idx <= 212 then Some(Fraction) else if idx <= 213 then Some(Whole)
    else if idx <= 215 then Some(Text)
    else None
  }

  /** What the code makes of an index: what is documented, but for six of them; and a float if nothing is. */
  function WireType(idx: u16): FieldType {
    if idx == 83 || idx == 120 || idx == 124 then FloatField
    else if idx == 88 then PhaseField
    else if idx == 106 then CharField
    else if idx == 141 then DateField
    else
      match Documented(idx)
      case None => FloatField
      case Some(Clock) => TimeField
      case Some(ClockMillis) => TimeMsField
      case Some(Day) => DateField
      case Some(Moment) => DateTimeField
      case Some(Month) => DateField
      case Some(Whole) => IntField
      case Some(Fraction) => FloatField
      case Some(Letter) => CharField
      case Some(Text) => StrField
  }

  lemma TypesTo59(idx: u16)
    requires idx <= 59
    ensures TypeOf(idx) == WireType(idx)
  {}

  lemma TypesTo105(idx: u16)
    requires 60 <= idx <= 105
    ensures TypeOf(idx) == WireType(idx)
  {}

  lemma TypesTo141(idx: u16)
    requires 106 <= idx <= 141
    ensures TypeOf(idx) == WireType(idx)
  {}

  lemma TypesFrom142(idx: u16)
    requires 142 <= idx
    ensures TypeOf(idx) == WireType(idx)
  {}

  lemma TypesByTable(idx: u16)
    ensures TypeOf(idx) == WireType(idx)
  {
    hide TypeOf, WireType;
    if idx <= 59 { TypesTo59(idx); }
    else if idx <= 105 { TypesTo105(idx); }
    else if idx <= 141 { TypesTo141(idx); }
    else { TypesFrom142(idx); }
  }

  /** A value of the kind that the documented type stands for; a month has none. */
  predicate IsDocumented(v: QuoteFieldValue, t: DocumentedType) {
    match t
    case Clock => v.TimeValue?
    case ClockMillis => v.TimeValue?
    case Day => v.DateValue?
    case Moment => v.DateTimeValue?
    case Month => false
    case Whole => v.IntValue?
    case Fraction => v.FloatValue?
    case Letter => v.CharValue?
    case Text => v.StrValue?
  }

  ghost predicate ReadAsDocumented(idx: u16)
    requires Documented(idx).Some?
  {
    forall raw: Bytes, pf: FloatParser ::
      ParsedValue(idx, raw, pf).Success? ==> IsDocumented(ParsedValue(idx, raw, pf).value, Documented(idx).value)
  }

  /** Every documented index is read as documented, but for the theoretical quantity (83), the group phase
      (88), the tick direction (106), the month of expiry (120), the price type (124) and the date of the
      reference price (141). */
  lemma ReadAsDocumentedIff(idx: u16)
    requires Documented(idx).Some?
    ensures ReadAsDocumented(idx) <==> idx !in {83, 88, 106, 120, 124, 141}
  {
    hide Documented, TypeOf;
    TypesByTable(idx);
    SixDocumented(idx);
    if idx in {83, 88, 106, 120, 124, 141} {
      var pf: FloatParser := _ => Some(0);
      ZeroIsRead(idx, pf);
      assert ParsedValue(idx, [48], pf).Success?;
    } else {
      forall raw: Bytes, pf: FloatParser | ParsedValue(idx, raw, pf).Success?
        ensures IsDocumented(ParsedValue(idx, raw, pf).value, Documented(idx).value)
      {
        KindOfValue(idx, raw, pf);
      }
    }
  }

  lemma SixDocumented(idx: u16)
    ensures idx == 83 || idx == 124 ==> Documented(idx) == Some(Whole)
    ensures idx == 88 || idx == 106 || idx == 141 ==> Documented(idx) == Some(Text)
    ensures idx == 120 <==> Documented(idx) == Some(Month)
  {}

  /** `0` is a value of every type. */
  lemma ZeroIsRead(idx: u16, pf: FloatParser)
    requires pf([48]) == Some(0)
    ensures ParsedValue(idx, [48], pf).Success?
  {
    hide TypeOf;
    assert [48][..0] == [] && DecimalValue([48]) == 0;
    assert [48][1..] == [] && Utf8([48]);
  }

  /** The value's kind is that of the index. */
  predicate KindMatches(t: FieldType, v: QuoteFieldValue) {
    match t
    case FloatField => v.FloatValue?
    case IntField => v.IntValue?
    case TimeField => v.TimeValue?
    case TimeMsField => v.TimeValue?
    case DateField => v.DateValue?
    case DateTimeField => v.DateTimeValue?
    case CharField => v.CharValue?
    case PhaseField => v.PhaseValue?
    case StrField => v.StrValue?
  }

  lemma KindOfValue(idx: u16, raw: Bytes, pf: FloatParser)
    ensures ParsedValue(idx, raw, pf).Success? ==> KindMatches(TypeOf(idx), ParsedValue(idx, raw, pf).value)
  {
    hide TypeOf, ParsedU32, ParsedU64, ParsedI64, ParsedF64;
  }

  /** Under which name and in which form a value of each type is expected. */
  function ValueSpec(t: FieldType): Spec {
    match t
    case FloatField => Spec("quote float", FloatText)
    case IntField => Spec("quote int", SignedDigits)
    case TimeField => Spec("quote time", U32_DIGITS)
    case TimeMsField => Spec("quote time-ms", U32_DIGITS)
    case DateField => Spec("quote date", U32_DIGITS)
    case DateTimeField => Spec("quote datetime", U64_DIGITS)
    case CharField => Spec("quote char", OneByte("expected exactly one byte"))
    case PhaseField => Spec("quote value", Anything)
    case StrField => Spec("quote value", Anything)
  }

  predicate ValueSays(t: FieldType, raw: Bytes, v: QuoteFieldValue, pf: FloatParser) {
    match t
    case FloatField => v.FloatValue? && pf(raw) == Some(v.float)
    case IntField => v.IntValue? && SignedDenotes(raw, v.number)
    case TimeField => v.TimeValue? && Denotes(raw, v.time)
    case TimeMsField => v.TimeValue? && Denotes(raw, v.time)
    case DateField => v.DateValue? && Denotes(raw, v.date)
    case DateTimeField => v.DateTimeValue? && Denotes(raw, v.dateTime)
    case CharField => v.CharValue? && raw == [v.ch]
    case PhaseField =>
      && v.PhaseValue? && v.first == (if raw == [] then 0 else raw[0])
      && v.second == (if |raw| < 2 then 0 else raw[1])
    case StrField => v.StrValue? && v.text == raw
  }

  /** The error of the pairs from token `k` on. */
  function PairsError(ts: seq<Bytes>, k: nat, pf: FloatParser): Option<ParseError>
    decreases |ts| - k
  {
    if k >= |ts| || ts[k] == [] then None
    else if !Numeral(ts[k], 65_536) then Some(BadInteger("quote index"))
    else if k + 1 == |ts| then Some(MissingField(|ts| + 1, "quote value"))
    else Or(FieldError(ts[k + 1], ValueSpec(WireType(DecimalValue(ts[k]))), pf), PairsError(ts, k + 2, pf))
  }

  predicate PairsSay(ts: seq<Bytes>, k: nat, diff: QuoteDiff, pf: FloatParser)
    decreases |ts| - k
  {
    if k >= |ts| || ts[k] == [] then diff == []
    else
      && diff != [] && k + 1 < |ts|
      && Denotes(ts[k], diff[0].0) && ValueSays(WireType(diff[0].0), ts[k + 1], diff[0].1, pf)
      && PairsSay(ts, k + 2, diff[1..], pf)
  }

  lemma ValueByTable(idx: u16, raw: Bytes, pf: FloatParser)
    ensures var e, r := FieldError(raw, ValueSpec(WireType(idx)), pf), ParsedValue(idx, raw, pf);
            if e.Some? then r == Failure(e.value) else r.Success? && ValueSays(WireType(idx), raw, r.value, pf)
  {
    hide WireType, TypeOf, ParsedU32, ParsedU64, ParsedI64, ParsedF64, FieldError, Denotes, SignedDenotes;
    TypesByTable(idx);
    match TypeOf(idx)
    case FloatField => F64ByTable(raw, "quote float", pf);
    case IntField => I64ByTable(raw, "quote int", pf);
    case TimeField => U32ByTable(raw, "quote time", pf);
    case TimeMsField => U32ByTable(raw, "quote time-ms", pf);
    case DateField => U32ByTable(raw, "quote date", pf);
    case DateTimeField => U64ByTable(raw, "quote datetime", pf);
    case CharField => OneByteByTable(raw, "quote char", pf);
    case PhaseField => AnythingByTable(raw, pf);
    case StrField => AnythingByTable(raw, pf);
  }

  lemma OneByteByTable(raw: Bytes, name: string, pf: FloatParser)
    ensures FieldError(raw, Spec(name, OneByte("expected exactly one byte")), pf)
         == if |raw| == 1 then None else Some(InvalidField(name, "expected exactly one byte"))
  {}

  lemma AnythingByTable(raw: Bytes, pf: FloatParser)
    ensures FieldError(raw, Spec("quote value", Anything), pf) == None
  {}

  lemma PairByTable(ts: seq<Bytes>, k: nat, pf: FloatParser)
    requires k < |ts| && ts[k] != []
    ensures var r := ParsedPair(ts[k], ts, k + 1, pf);
            if !Numeral(ts[k], 65_536) then r == Failure(BadInteger("quote index"))
            else if k + 1 == |ts| then r == Failure(MissingField(|ts| + 1, "quote value"))
            else
              var e := FieldError(ts[k + 1], ValueSpec(WireType(DecimalValue(ts[k]))), pf);
              if e.Some? then r == Failure(e.value)
              else
                && r.Success? && Denotes(ts[k], r.value.0)
                && ValueSays(WireType(r.value.0), ts[k + 1], r.value.1, pf)
  {
    hide WireType, ParsedValue, ParsedU16, ValueSpec, ValueSays;
    U16ByTable(ts[k], "quote index", pf);
    if k + 1 < |ts| && Numeral(ts[k], 65_536) {
      ValueByTable(DecimalValue(ts[k]), ts[k + 1], pf);
    }
  }

  lemma {:induction false} PairsByTable(ts: seq<Bytes>, k: nat, pf: FloatParser)
    ensures var e, r := PairsError(ts, k, pf), ParsedPairs(ts, k, pf);
            if e.Some? then r == Failure(e.value) else r.Success? && PairsSay(ts, k, r.value, pf)
    decreases |ts| - k
  {
    hide WireType, ParsedPair, FieldError, ValueSpec, ValueSays, Numeral, Denotes;
    if k < |ts| && ts[k] != [] {
      PairByTable(ts, k, pf);
      if k + 1 < |ts| {
        PairsByTable(ts, k + 2, pf);
      }
    }
  }

  /** A frame of any tokens: the first field of the table that is missing or malformed is the error, and
      with none of them the frame says what its tokens say. */
  lemma QuoteByTable(ts: seq<Bytes>, pf: FloatParser)
    ensures var r := ParsedQuote(ts, pf);
            if |ts| < 3 then r == Failure(MissingField(|ts| + 1, ["T header", "ticker", "HHMMSS"][|ts|]))
            else if !Numeral(ts[2], 4_294_967_296) then r == Failure(BadInteger("HHMMSS"))
            else if PairsError(ts, 3, pf).Some? then r == Failure(PairsError(ts, 3, pf).value)
            else
              && r.Success? && r.value.Quote? && r.value.ticker == ts[1] && Denotes(ts[2], r.value.time)
              && PairsSay(ts, 3, r.value.diff, pf)
  {
    hide PairsError, PairsSay, ParsedPairs, ParsedU32;
    if |ts| >= 3 {
      U32ByTable(ts[2], "HHMMSS", pf);
      PairsByTable(ts, 3, pf);
    }
  }

  // ----- the documented wire layout (sqt.rs:3-4) and the round trip -----

  /** The text of a value; a phase of one byte is sent as one byte. */
  function ValueText(v: QuoteFieldValue, show: FloatPrinter): Bytes {
    match v
    case FloatValue(f) => show(f)
    case IntValue(i) => SignedDecimal(i)
    case TimeValue(t) => Decimal(t)
    case DateValue(d) => Padded(d, 8)
    case DateTimeValue(d) => Padded(d, 14)
    case CharValue(c) => [c]
    case PhaseValue(a, b) => if b != 0 then [a, b] else if a != 0 then [a] else []
    case StrValue(s) => s
  }

  /** A value of its index's own type; the smallest integer has no text that parses. */
  predicate PairHasLayout(p: QuotePair) {
    KindMatches(WireType(p.0), p.1) && (p.1.IntValue? ==> p.1.number != -9_223_372_036_854_775_808)
  }

  predicate HasLayout(diff: QuoteDiff) {
    forall i :: 0 <= i < |diff| ==> PairHasLayout(diff[i])
  }

  ghost predicate FloatsPrintable(diff: QuoteDiff, pf: FloatParser, show: FloatPrinter) {
    forall i :: 0 <= i < |diff| && diff[i].1.FloatValue? ==> FloatPrintable(diff[i].1.float, pf, show)
  }

  function PairTokens(diff: QuoteDiff, show: FloatPrinter): seq<Bytes> {
    if diff == [] then []
    else [Decimal(diff[0].0), ValueText(diff[0].1, show)] + PairTokens(diff[1..], show)
  }

  function QuoteTokens(ticker: Bytes, time: u32, diff: QuoteDiff, show: FloatPrinter): seq<Bytes> {
    [[84], ticker, Padded(time, 6)] + PairTokens(diff, show)
  }

  lemma PairReadsBackIff(ts: seq<Bytes>, k: nat, p: QuotePair, pf: FloatParser, show: FloatPrinter)
    requires k + 1 < |ts| && ts[k] == Decimal(p.0) && ts[k + 1] == ValueText(p.1, show)
    requires p.1.FloatValue? ==> FloatPrintable(p.1.float, pf, show)
    ensures ParsedPair(ts[k], ts, k + 1, pf) == Success(p) <==> PairHasLayout(p)
  {
    hide TypeOf, WireType, Decimal, ParsedU16, ParsedValue, ValueText, FloatPrintable;
    UnpaddedReadsBack(p.0, "quote index");
    ValueReadsBackIff(p.0, p.1, pf, show);
  }

  lemma ValueReadsBackIff(idx: u16, v: QuoteFieldValue, pf: FloatParser, show: FloatPrinter)
    requires v.FloatValue? ==> FloatPrintable(v.float, pf, show)
    ensures ParsedValue(idx, ValueText(v, show), pf) == Success(v) <==> PairHasLayout((idx, v))
  {
    hide TypeOf, WireType, Decimal, Padded, SignedDecimal, ParsedU32, ParsedU64, ParsedI64, Utf8, ColonFree;
    TypesByTable(idx);
    match v {
      case FloatValue(f) =>
      case IntValue(i) => SignedReadsBackIff(i, "quote int");
      case TimeValue(t) =>
        UnpaddedReadsBack(t, "quote time");
        UnpaddedReadsBack(t, "quote time-ms");
      case DateValue(d) => NumberReadsBack(d, 8, "quote date");
      case DateTimeValue(d) => NumberReadsBack(d, 14, "quote datetime");
      case CharValue(c) =>
      case PhaseValue(a, b) =>
      case StrValue(s) =>
    }
  }

  function Dangling(dangling: bool): seq<Bytes> {
    if dangling then [[]] else []
  }

  lemma {:induction false} PairsReadBackIff(ts: seq<Bytes>, k: nat, diff: QuoteDiff, dangling: bool,
      pf: FloatParser, show: FloatPrinter)
    requires k <= |ts| && ts[k..] == PairTokens(diff, show) + Dangling(dangling)
    requires FloatsPrintable(diff, pf, show)
    ensures ParsedPairs(ts, k, pf) == Success(diff) <==> HasLayout(diff)
    decreases |diff|
  {
    hide ParsedPair, Decimal, ValueText, FloatPrintable, PairHasLayout;
    if diff == [] {
      assert dangling ==> ts[k..][0] == ts[k];
    } else {
      var pt := PairTokens(diff, show);
      assert ts[k] == ts[k..][0] == pt[0] && ts[k + 1] == ts[k..][1] == pt[1];
      assert pt[2..] == PairTokens(diff[1..], show);
      assert ts[k + 2..] == ts[k..][2..] == pt[2..] + Dangling(dangling);
      PairReadsBackIff(ts, k, diff[0], pf, show);
      PairsReadBackIff(ts, k + 2, diff[1..], dangling, pf, show);
      assert diff == [diff[0]] + diff[1..];
      HeadAndTail(diff);
    }
  }

  lemma HeadAndTail(diff: QuoteDiff)
    requires diff != []
    ensures HasLayout(diff) <==> PairHasLayout(diff[0]) && HasLayout(diff[1..])
    ensures forall p, rest: QuoteDiff :: [p] + rest == diff <==> p == diff[0] && rest == diff[1..]
  {
    hide PairHasLayout;
    forall p, rest: QuoteDiff ensures [p] + rest == diff <==> p == diff[0] && rest == diff[1..] {
      assert ([p] + rest)[0] == p && ([p] + rest)[1..] == rest;
    }
  }

  /** A quote with any number of changed fields parses back, also with one dangling separator,
      exactly when every value has its index's type and none is the smallest integer. */
  lemma QuoteReadsBackIff(ticker: Bytes, time: u32, diff: QuoteDiff, dangling: bool,
      pf: FloatParser, show: FloatPrinter)
    requires FloatsPrintable(diff, pf, show)
    ensures ParsedQuote(QuoteTokens(ticker, time, diff, show) + Dangling(dangling), pf)
         == Success(Quote(ticker, time, diff))
       <==> HasLayout(diff)
  {
    hide Padded, ParsedU32, ParsedPairs, FloatsPrintable, HasLayout, PairTokens;
    var ts := QuoteTokens(ticker, time, diff, show) + Dangling(dangling);
    NumberReadsBack(time, 6, "HHMMSS");
    assert ts[3..] == PairTokens(diff, show) + Dangling(dangling);
    PairsReadBackIff(ts, 3, diff, dangling, pf, show);
  }
}
