/** The hand-written log encoding of a trade (crates/persistence/src/trade_writer.rs:57-206). */
module TradeCodec {
  import opened Base

  // ----- times -----

  const MICROS_PER_SECOND: int := 1_000_000
  const NANOS_PER_SECOND: int := 1_000_000_000

  /** The seconds a `DateTime<Utc>` can hold. */
  const MIN_SECOND: int := -8_334_601_228_800
  const MAX_SECOND: int := 8_210_266_876_799

  /** A leap second is a `nanos` of a full second or more. */
  datatype DateTime = DateTime(second: int, nanos: nat) {
    predicate Valid() {
      MIN_SECOND <= second <= MAX_SECOND && nanos < 2 * NANOS_PER_SECOND
    }

    /** What survives the trip through microseconds. */
    predicate WholeMicros() {
      nanos < NANOS_PER_SECOND && nanos % 1000 == 0
    }

    function TimestampMicros(): (m: int)
      requires Valid()
      ensures -I64_LIMIT <= m < I64_LIMIT
    {
      second * MICROS_PER_SECOND + nanos / 1000
    }
  }

  function FromTimestampMicros(micros: int): (r: Option<DateTime>)
    ensures r.Some? ==> r.value.Valid() && r.value.WholeMicros()
  {
    var second := micros / MICROS_PER_SECOND;
    if MIN_SECOND <= second <= MAX_SECOND
    then Some(DateTime(second, micros % MICROS_PER_SECOND * 1000))
    else None
  }

  lemma MicrosRoundTrip(t: DateTime)
    requires t.Valid() && t.WholeMicros()
    ensures FromTimestampMicros(t.TimestampMicros()) == Some(t)
  {
    var sub := t.nanos / 1000;
    assert t.nanos == sub * 1000 && sub < MICROS_PER_SECOND;
  }

  /** Exactly the microseconds between the first and the last second of a `DateTime` are accepted, and
      the result counts them again. */
  lemma TimeRange(micros: int)
    ensures FromTimestampMicros(micros).Some?
       <==> -8_334_601_228_800_000_000 <= micros <= 8_210_266_876_799_999_999
    ensures FromTimestampMicros(micros).Some? ==>
      var t := FromTimestampMicros(micros).value;
      t.second * 1_000_000 + t.nanos / 1000 == micros && t.nanos < 1_000_000_000
  {}

  // ----- trades -----

  datatype StagedTrade = StagedTrade(
    time: DateTime,
    assetId: i32,
    price: Float,
    amount: i64,
    buyerId: Option<i32>,
    sellerId: Option<i32>,
    aggressorSide: Option<i16>,
    tradeId: Option<Bytes>,
    isDirect: bool)
  {
    /** What the Rust types guarantee of every trade. */
    predicate Valid() {
      time.Valid() && (tradeId.Some? ==> Utf8(tradeId.value))
    }
  }

  // ----- encoding -----

  function OptionalI32(v: Option<i32>): Bytes {
    PowersOf256();
    if v.Some? then SignedLe(v.value, 4) else []
  }

  function OptionalI16(v: Option<i16>): Bytes {
    PowersOf256();
    if v.Some? then SignedLe(v.value, 2) else []
  }

  /** `u32::try_from(len).unwrap_or(u32::MAX)`. */
  function LengthField(n: nat): u32 {
    if n < U32_LIMIT then n else U32_LIMIT - 1
  }

  function OptionalId(id: Option<Bytes>): Bytes {
    if id.Some? then U32Le(LengthField(|id.value|)) + id.value else []
  }

  function Bit(b: bool, weight: nat): nat {
    if b then weight else 0
  }

  function Flags(t: StagedTrade): byte {
    Bit(t.buyerId.Some?, 1) + Bit(t.sellerId.Some?, 2) + Bit(t.aggressorSide.Some?, 4)
    + Bit(t.tradeId.Some?, 8) + Bit(t.isDirect, 16)
  }

  predicate FlagSet(flags: byte, weight: nat)
    requires weight > 0
  {
    flags / weight % 2 == 1
  }

  const HEADER: nat := 29

  function Header(t: StagedTrade): (h: Bytes)
    requires t.time.Valid()
    ensures |h| == HEADER
  {
    PowersOf256();
    SignedLe(t.time.TimestampMicros(), 8) + SignedLe(t.assetId, 4) + ToLe(t.price, 8)
    + SignedLe(t.amount, 8) + [Flags(t)]
  }

  function Encoded(t: StagedTrade): Bytes
    requires t.time.Valid()
  {
    Header(t) + OptionalI32(t.buyerId) + OptionalI32(t.sellerId) + OptionalI16(t.aggressorSide)
    + OptionalId(t.tradeId)
  }

  // ----- where each field is -----

  lemma WrappedWidths(v: int)
    ensures -0x8000_0000_0000_0000 <= v < 0x8000_0000_0000_0000 ==>
      -Pow256(8) <= 2 * v < Pow256(8) && FromLe(SignedLe(v, 8)) == v % 18_446_744_073_709_551_616
    ensures -0x8000_0000 <= v < 0x8000_0000 ==>
      -Pow256(4) <= 2 * v < Pow256(4) && FromLe(SignedLe(v, 4)) == v % 4_294_967_296
    ensures -0x8000 <= v < 0x8000 ==>
      -Pow256(2) <= 2 * v < Pow256(2) && FromLe(SignedLe(v, 2)) == v % 65_536
  {
    hide SignedLe, FromLe, Pow256;
    PowersOf256();
    if -Pow256(8) <= 2 * v < Pow256(8) { SignedBytes(v, 8); }
    if -Pow256(4) <= 2 * v < Pow256(4) { SignedBytes(v, 4); }
    if -Pow256(2) <= 2 * v < Pow256(2) { SignedBytes(v, 2); }
  }

  /** The fixed fields by offset, negative numbers in two's complement, and the bits of the flag byte. */
  lemma HeaderLayout(t: StagedTrade)
    requires t.time.Valid()
    ensures var s := Encoded(t);
            && |s| >= 29
            && FromLe(s[0..8]) == (t.time.second * 1_000_000 + t.time.nanos / 1000) % 18_446_744_073_709_551_616
            && FromLe(s[8..12]) == t.assetId % 4_294_967_296
            && FromLe(s[12..20]) == t.price
            && FromLe(s[20..28]) == t.amount % 18_446_744_073_709_551_616
            && s[28] < 32 && (s[28] % 2 == 1 <==> t.buyerId.Some?) && (s[28] / 2 % 2 == 1 <==> t.sellerId.Some?)
            && (s[28] / 4 % 2 == 1 <==> t.aggressorSide.Some?) && (s[28] / 8 % 2 == 1 <==> t.tradeId.Some?)
            && (s[28] / 16 % 2 == 1 <==> t.isDirect)
  {
    HeaderParts(t);
    FlagBits(t);
    hide ToLe, FromLe, SignedLe, Pow256, Flags, Header, OptionalI32, OptionalI16, OptionalId;
    var s, h := Encoded(t), Header(t);
    assert s[..29] == h;
    assert s[0..8] == h[0..8] && s[8..12] == h[8..12] && s[12..20] == h[12..20] && s[20..28] == h[20..28];
  }

  lemma FlagBits(t: StagedTrade)
    ensures Flags(t) < 32
    ensures Flags(t) % 2 == 1 <==> t.buyerId.Some?
    ensures Flags(t) / 2 % 2 == 1 <==> t.sellerId.Some?
    ensures Flags(t) / 4 % 2 == 1 <==> t.aggressorSide.Some?
    ensures Flags(t) / 8 % 2 == 1 <==> t.tradeId.Some?
    ensures Flags(t) / 16 % 2 == 1 <==> t.isDirect
  {}

  lemma HeaderParts(t: StagedTrade)
    requires t.time.Valid()
    ensures var h := Header(t);
            && FromLe(h[0..8]) == (t.time.second * 1_000_000 + t.time.nanos / 1000) % 18_446_744_073_709_551_616
            && FromLe(h[8..12]) == t.assetId % 4_294_967_296
            && FromLe(h[12..20]) == t.price
            && FromLe(h[20..28]) == t.amount % 18_446_744_073_709_551_616
            && h[28] == Flags(t)
  {
    hide ToLe, FromLe, SignedLe, Pow256, Flags;
    PowersOf256();
    WrappedWidths(t.time.TimestampMicros());
    WrappedWidths(t.assetId);
    WrappedWidths(t.amount);
    FromLeToLe(t.price, 8);
    var h := Header(t);
    assert h[0..8] == SignedLe(t.time.TimestampMicros(), 8);
    assert h[8..12] == SignedLe(t.assetId, 4);
    assert h[12..20] == ToLe(t.price, 8);
    assert h[20..28] == SignedLe(t.amount, 8);
  }

  /** The optional fields follow in this order, each only if it is there; an id has its length before
      it, which four bytes may be too few to say. */
  lemma OptionalLayout(t: StagedTrade)
    requires t.time.Valid()
    ensures var s := Encoded(t);
            var p1 := 29 + (if t.buyerId.Some? then 4 else 0);
            var p2 := p1 + (if t.sellerId.Some? then 4 else 0);
            var p3 := p2 + (if t.aggressorSide.Some? then 2 else 0);
            && |s| == p3 + (if t.tradeId.Some? then 4 + |t.tradeId.value| else 0)
            && (t.buyerId.Some? ==> FromLe(s[29..33]) == t.buyerId.value % 4_294_967_296)
            && (t.sellerId.Some? ==> FromLe(s[p1..p1 + 4]) == t.sellerId.value % 4_294_967_296)
            && (t.aggressorSide.Some? ==> FromLe(s[p2..p2 + 2]) == t.aggressorSide.value % 65_536)
            && (t.tradeId.Some? ==>
                  && FromLe(s[p3..p3 + 4])
                     == (if |t.tradeId.value| <= 4_294_967_295 then |t.tradeId.value| else 4_294_967_295)
                  && s[p3 + 4..] == t.tradeId.value)
  {
    hide ToLe, FromLe, SignedLe, Pow256, Flags, Header;
    PowersOf256();
    var h, b, se, ag, id :=
      Header(t), OptionalI32(t.buyerId), OptionalI32(t.sellerId), OptionalI16(t.aggressorSide), OptionalId(t.tradeId);
    var s := Encoded(t);
    Pieces(h, b, se, ag, id);
    if t.buyerId.Some? { WrappedWidths(t.buyerId.value); }
    if t.sellerId.Some? { WrappedWidths(t.sellerId.value); }
    if t.aggressorSide.Some? { WrappedWidths(t.aggressorSide.value); }
    if t.tradeId.Some? {
      var len := LengthField(|t.tradeId.value|);
      U32RoundTrip(len);
      assert id[..4] == U32Le(len) && id[4..] == t.tradeId.value;
      assert s[|s| - |id|..|s| - |id| + 4] == id[..4] && s[|s| - |id| + 4..] == id[4..];
    }
  }

  lemma Pieces(a: Bytes, b: Bytes, c: Bytes, d: Bytes, e: Bytes)
    ensures var s := a + b + c + d + e;
            && |s| == |a| + |b| + |c| + |d| + |e|
            && s[|a|..|a| + |b|] == b
            && s[|a| + |b|..|a| + |b| + |c|] == c
            && s[|a| + |b| + |c|..|a| + |b| + |c| + |d|] == d
            && s[|a| + |b| + |c| + |d|..] == e
  {}

  method EncodeWal(t: StagedTrade) returns (out: Bytes)
    requires t.time.Valid()
    ensures out == Encoded(t)
  {
    hide ToLe;
    PowersOf256();
    out := SignedLe(t.time.TimestampMicros(), 8);
    out := out + SignedLe(t.assetId, 4);
    out := out + ToLe(t.price, 8);
    out := out + SignedLe(t.amount, 8);
    var flags: byte := 0;
    if t.buyerId.Some? { flags := flags + 1; }
    if t.sellerId.Some? { flags := flags + 2; }
    if t.aggressorSide.Some? { flags := flags + 4; }
    if t.tradeId.Some? { flags := flags + 8; }
    if t.isDirect { flags := flags + 16; }
    out := out + [flags];
    assert out == Header(t);
    if t.buyerId.Some? { out := out + SignedLe(t.buyerId.value, 4); }
    assert out == Header(t) + OptionalI32(t.buyerId);
    if t.sellerId.Some? { out := out + SignedLe(t.sellerId.value, 4); }
    assert out == Header(t) + OptionalI32(t.buyerId) + OptionalI32(t.sellerId);
    if t.aggressorSide.Some? { out := out + SignedLe(t.aggressorSide.value, 2); }
    assert out == Header(t) + OptionalI32(t.buyerId) + OptionalI32(t.sellerId) + OptionalI16(t.aggressorSide);
    if t.tradeId.Some? {
      var id := t.tradeId.value;
      out := out + U32Le(LengthField(|id|));
      out := out + id;
    }
  }

  // ----- decoding -----

  datatype Read<T> = Read(value: T, next: nat)

  function ReadI32(s: Bytes, p: nat, present: bool): (r: Option<Read<Option<i32>>>)
    requires p <= |s|
    ensures r.Some? ==> r.value.next <= |s|
  {
    if !present then Some(Read(None, p))
    else if |s| < p + 4 then None
    else
      SignedRange(s[p..p + 4]);
      PowersOf256();
      Some(Read(Some(SignedAt(s[p..p + 4])), p + 4))
  }

  function ReadI16(s: Bytes, p: nat, present: bool): (r: Option<Read<Option<i16>>>)
    requires p <= |s|
    ensures r.Some? ==> r.value.next <= |s|
  {
    if !present then Some(Read(None, p))
    else if |s| < p + 2 then None
    else
      SignedRange(s[p..p + 2]);
      PowersOf256();
      Some(Read(Some(SignedAt(s[p..p + 2])), p + 2))
  }

  function ReadId(s: Bytes, p: nat, present: bool): (r: Option<Option<Bytes>>)
    requires p <= |s|
    ensures r.Some? && r.value.Some? ==> |r.value.value| < U32_LIMIT && Utf8(r.value.value)
  {
    if !present then Some(None)
    else if |s| < p + 4 then None
    else
      var len := U32At(s[p..p + 4]);
      if |s| < p + 4 + len then None
      else if Utf8(s[p + 4..p + 4 + len]) then Some(Some(s[p + 4..p + 4 + len]))
      else None
  }

  function I64At(s: Bytes): i64
    requires |s| == 8
  {
    SignedRange(s);
    PowersOf256();
    SignedAt(s)
  }

  function I16At(s: Bytes): i16
    requires |s| == 2
  {
    SignedRange(s);
    PowersOf256();
    SignedAt(s)
  }

  function I32At(s: Bytes): i32
    requires |s| == 4
  {
    SignedRange(s);
    PowersOf256();
    SignedAt(s)
  }

  function U64At(s: Bytes): u64
    requires |s| == 8
  {
    FromLeBound(s);
    PowersOf256();
    FromLe(s)
  }

  datatype Fields = Fields(buyer: Option<i32>, seller: Option<i32>, aggressor: Option<i16>, id: Option<Bytes>)

  /** The optional fields behind the header. */
  function ReadFields(s: Bytes, flags: byte): Option<Fields>
    requires |s| >= HEADER
  {
    var buyer :- ReadI32(s, HEADER, FlagSet(flags, 1));
    var seller :- ReadI32(s, buyer.next, FlagSet(flags, 2));
    var aggressor :- ReadI16(s, seller.next, FlagSet(flags, 4));
    var id :- ReadId(s, aggressor.next, FlagSet(flags, 8));
    Some(Fields(buyer.value, seller.value, aggressor.value, id))
  }

  function Decoded(s: Bytes): (r: Option<StagedTrade>)
  {
    if |s| < HEADER then None
    else
      var fields :- ReadFields(s, s[28]);
      var time :- FromTimestampMicros(I64At(s[0..8]));
      Some(StagedTrade(time, I32At(s[8..12]), U64At(s[12..20]), I64At(s[20..28]),
                       fields.buyer, fields.seller, fields.aggressor, fields.id, FlagSet(s[28], 16)))
  }

  /** Advances `p` past an optional field; `None` is a truncated field. */
  method ReadFlagI32(s: Bytes, p: nat, present: bool) returns (r: Option<Option<i32>>, next: nat)
    requires p <= |s|
    ensures r.Some? <==> ReadI32(s, p, present).Some?
    ensures r.Some? ==> ReadI32(s, p, present) == Some(Read(r.value, next))
  {
    next := p;
    if !present {
      return Some(None), next;
    }
    if |s| < p + 4 {
      return None, next;
    }
    var v := I32At(s[p..p + 4]);
    next := next + 4;
    r := Some(Some(v));
  }

  /** The part of the decoder behind the header; `p` is the cursor after it. */
  method DecodeFields(s: Bytes, flags: byte, start: nat) returns (r: Option<Fields>)
    requires start == HEADER <= |s|
    ensures r == ReadFields(s, flags)
  {
    hide FromLe, Utf8, FlagSet;
    var p := start;
    var buyer, seller;
    buyer, p := ReadFlagI32(s, p, FlagSet(flags, 1));
    if buyer.None? { return None; }
    seller, p := ReadFlagI32(s, p, FlagSet(flags, 2));
    if seller.None? { return None; }
    var aggressor: Option<i16> := None;
    if FlagSet(flags, 4) {
      if |s| < p + 2 { return None; }
      aggressor := Some(I16At(s[p..p + 2]));
      p := p + 2;
    }
    var id: Option<Bytes> := None;
    if FlagSet(flags, 8) {
      if |s| < p + 4 { return None; }
      var len := U32At(s[p..p + 4]);
      p := p + 4;
      if |s| < p + len { return None; }
      if !Utf8(s[p..p + len]) { return None; }
      id := Some(s[p..p + len]);
    }
    r := Some(Fields(buyer.value, seller.value, aggressor, id));
  }

  method DecodeWal(s: Bytes) returns (r: Option<StagedTrade>)
    ensures r == Decoded(s)
  {
    hide FromLe, Utf8, ReadFields, FlagSet;
    if |s| < 8 + 4 + 8 + 8 + 1 {
      return None;
    }
    var p := 0;
    var micros := I64At(s[p..p + 8]);
    p := p + 8;
    var assetId := I32At(s[p..p + 4]);
    p := p + 4;
    var price := U64At(s[p..p + 8]);
    p := p + 8;
    var amount := I64At(s[p..p + 8]);
    p := p + 8;
    var flags := s[p];
    p := p + 1;
    var fields := DecodeFields(s, flags, p);
    if fields.None? { return None; }
    var f := fields.value;
    var time := FromTimestampMicros(micros);
    if time.None? { return None; }
    r := Some(StagedTrade(time.value, assetId, price, amount, f.buyer, f.seller, f.aggressor, f.id, FlagSet(flags, 16)));
  }

  /** The number that two's complement of this width stands for. */
  function Unwrapped(n: nat, modulus: nat): int {
    if 2 * n >= modulus then n - modulus else n
  }

  /** Which byte strings decode: the flagged fields have to be there, the id has to be UTF-8 and the
      time in range. Unknown flags and trailing bytes do not matter. */
  lemma DecodesIff(s: Bytes)
    ensures |s| < 29 ==> Decoded(s).None?
    ensures |s| >= 29 ==>
      var p1 := 29 + (if s[28] % 2 == 1 then 4 else 0);
      var p2 := p1 + (if s[28] / 2 % 2 == 1 then 4 else 0);
      var p3 := p2 + (if s[28] / 4 % 2 == 1 then 2 else 0);
      Decoded(s).Some? <==>
        && |s| >= p3
        && (s[28] / 8 % 2 == 1 ==>
              && |s| >= p3 + 4 && |s| >= p3 + 4 + FromLe(s[p3..p3 + 4])
              && Utf8(s[p3 + 4..p3 + 4 + FromLe(s[p3..p3 + 4])]))
        && -8_334_601_228_800_000_000 <= Unwrapped(FromLe(s[0..8]), 18_446_744_073_709_551_616)
           <= 8_210_266_876_799_999_999
  {
    hide FromLe, Utf8;
    PowersOf256();
    if |s| >= 29 {
      TimeRange(I64At(s[0..8]));
    }
  }

  /** And what they decode to, by offset. */
  lemma DecodedLayout(s: Bytes)
    requires Decoded(s).Some?
    ensures |s| >= 29
    ensures var t := Decoded(s).value;
            && t.time.second * 1_000_000 + t.time.nanos / 1000
               == Unwrapped(FromLe(s[0..8]), 18_446_744_073_709_551_616)
            && t.time.nanos < 1_000_000_000 && t.time.nanos % 1000 == 0
            && t.assetId == Unwrapped(FromLe(s[8..12]), 4_294_967_296)
            && t.price == FromLe(s[12..20])
            && t.amount == Unwrapped(FromLe(s[20..28]), 18_446_744_073_709_551_616)
            && (t.buyerId.Some? <==> s[28] % 2 == 1) && (t.sellerId.Some? <==> s[28] / 2 % 2 == 1)
            && (t.aggressorSide.Some? <==> s[28] / 4 % 2 == 1) && (t.tradeId.Some? <==> s[28] / 8 % 2 == 1)
            && (t.isDirect <==> s[28] / 16 % 2 == 1)
  {
    hide FromLe, Utf8;
    PowersOf256();
    TimeRange(I64At(s[0..8]));
  }

  lemma I32Offset(s: Bytes, p: nat, present: bool)
    requires p <= |s| && ReadI32(s, p, present).Some?
    ensures var r := ReadI32(s, p, present).value;
            && (r.value.Some? <==> present) && r.next == p + (if present then 4 else 0)
            && (present ==> r.value.value == Unwrapped(FromLe(s[p..p + 4]), 4_294_967_296))
  {
    hide FromLe;
    PowersOf256();
  }

  lemma I16Offset(s: Bytes, p: nat, present: bool)
    requires p <= |s| && ReadI16(s, p, present).Some?
    ensures var r := ReadI16(s, p, present).value;
            && (r.value.Some? <==> present) && r.next == p + (if present then 2 else 0)
            && (present ==> r.value.value == Unwrapped(FromLe(s[p..p + 2]), 65_536))
  {
    hide FromLe;
    PowersOf256();
  }

  lemma IdOffset(s: Bytes, p: nat, present: bool)
    requires p <= |s| && ReadId(s, p, present).Some?
    ensures var id := ReadId(s, p, present).value;
            && (id.Some? <==> present)
            && (present ==>
                  && |s| >= p + 4 + |id.value| && |id.value| == FromLe(s[p..p + 4])
                  && id.value == s[p + 4..p + 4 + |id.value|])
  {
    hide FromLe, Utf8;
  }

  lemma FieldOffsets(s: Bytes)
    requires |s| >= 29 && ReadFields(s, s[28]).Some?
    ensures var f := ReadFields(s, s[28]).value;
            var p1 := 29 + (if f.buyer.Some? then 4 else 0);
            var p2 := p1 + (if f.seller.Some? then 4 else 0);
            var p3 := p2 + (if f.aggressor.Some? then 2 else 0);
            && |s| >= p3 + (if f.id.Some? then 4 + |f.id.value| else 0)
            && (f.buyer.Some? ==> f.buyer.value == Unwrapped(FromLe(s[29..33]), 4_294_967_296))
            && (f.seller.Some? ==> f.seller.value == Unwrapped(FromLe(s[p1..p1 + 4]), 4_294_967_296))
            && (f.aggressor.Some? ==> f.aggressor.value == Unwrapped(FromLe(s[p2..p2 + 2]), 65_536))
            && (f.id.Some? ==>
                  && |f.id.value| == FromLe(s[p3..p3 + 4])
                  && f.id.value == s[p3 + 4..p3 + 4 + |f.id.value|])
  {
    hide FromLe, Utf8, Pow256, ReadI32, ReadI16, ReadId, FlagSet, Unwrapped;
    I32Offset(s, 29, FlagSet(s[28], 1));
    var buyer := ReadI32(s, 29, FlagSet(s[28], 1)).value;
    I32Offset(s, buyer.next, FlagSet(s[28], 2));
    var seller := ReadI32(s, buyer.next, FlagSet(s[28], 2)).value;
    I16Offset(s, seller.next, FlagSet(s[28], 4));
    var aggressor := ReadI16(s, seller.next, FlagSet(s[28], 4)).value;
    IdOffset(s, aggressor.next, FlagSet(s[28], 8));
  }

  lemma DecodedOptionals(s: Bytes)
    requires Decoded(s).Some?
    ensures var t := Decoded(s).value;
            var p1 := 29 + (if t.buyerId.Some? then 4 else 0);
            var p2 := p1 + (if t.sellerId.Some? then 4 else 0);
            var p3 := p2 + (if t.aggressorSide.Some? then 2 else 0);
            && |s| >= p3 + (if t.tradeId.Some? then 4 + |t.tradeId.value| else 0)
            && (t.buyerId.Some? ==> t.buyerId.value == Unwrapped(FromLe(s[29..33]), 4_294_967_296))
            && (t.sellerId.Some? ==> t.sellerId.value == Unwrapped(FromLe(s[p1..p1 + 4]), 4_294_967_296))
            && (t.aggressorSide.Some? ==> t.aggressorSide.value == Unwrapped(FromLe(s[p2..p2 + 2]), 65_536))
            && (t.tradeId.Some? ==>
                  && |t.tradeId.value| == FromLe(s[p3..p3 + 4])
                  && t.tradeId.value == s[p3 + 4..p3 + 4 + |t.tradeId.value|])
  {
    hide FromLe, Utf8, ReadFields, FromTimestampMicros, I64At, I32At, U64At, Unwrapped;
    FieldOffsets(s);
  }

  // ----- the two are inverse -----

  lemma FlagsReadBack(t: StagedTrade)
    ensures FlagSet(Flags(t), 1) == t.buyerId.Some?
    ensures FlagSet(Flags(t), 2) == t.sellerId.Some?
    ensures FlagSet(Flags(t), 4) == t.aggressorSide.Some?
    ensures FlagSet(Flags(t), 8) == t.tradeId.Some?
    ensures FlagSet(Flags(t), 16) == t.isDirect
  {}

  lemma HeaderReadsBack(t: StagedTrade, s: Bytes)
    requires t.time.Valid() && HEADER <= |s| && s[..HEADER] == Header(t)
    ensures I64At(s[0..8]) == t.time.TimestampMicros() && I32At(s[8..12]) == t.assetId
    ensures U64At(s[12..20]) == t.price && I64At(s[20..28]) == t.amount && s[28] == Flags(t)
  {
    hide ToLe, FromLe, Flags;
    PowersOf256();
    var h := s[..HEADER];
    assert s[0..8] == h[0..8] == SignedLe(t.time.TimestampMicros(), 8);
    assert s[8..12] == h[8..12] == SignedLe(t.assetId, 4);
    assert s[12..20] == h[12..20] == ToLe(t.price, 8);
    assert s[20..28] == h[20..28] == SignedLe(t.amount, 8);
    assert s[28] == h[28];
    SignedRoundTrip(t.time.TimestampMicros(), 8);
    SignedRoundTrip(t.assetId, 4);
    FromLeToLe(t.price, 8);
    SignedRoundTrip(t.amount, 8);
  }

  /** The first `n` bytes of `a + field + b`, read at the end of `a`: the field, or a truncation. */
  lemma I32ReadsBack(s: Bytes, a: Bytes, v: Option<i32>, b: Bytes)
    requires a <= s <= a + OptionalI32(v) + b
    ensures ReadI32(s, |a|, v.Some?)
         == if |s| >= |a + OptionalI32(v)| then Some(Read(v, |a + OptionalI32(v)|)) else None
  {
    hide ToLe, FromLe;
    PowersOf256();
    if v.Some? && |s| >= |a| + 4 {
      assert s[|a|..|a| + 4] == SignedLe(v.value, 4);
      SignedRoundTrip(v.value, 4);
    }
  }

  lemma I16ReadsBack(s: Bytes, a: Bytes, v: Option<i16>, b: Bytes)
    requires a <= s <= a + OptionalI16(v) + b
    ensures ReadI16(s, |a|, v.Some?)
         == if |s| >= |a + OptionalI16(v)| then Some(Read(v, |a + OptionalI16(v)|)) else None
  {
    hide ToLe, FromLe;
    PowersOf256();
    if v.Some? && |s| >= |a| + 2 {
      assert s[|a|..|a| + 2] == SignedLe(v.value, 2);
      SignedRoundTrip(v.value, 2);
    }
  }

  lemma MiddleOf(s: Bytes, a: Bytes, field: Bytes, b: Bytes)
    requires s <= a + field + b && |s| >= |a + field|
    ensures s[|a|..|a| + |field|] == field
  {
    assert s[..|a + field|] == a + field;
  }

  lemma Regroup(a: Bytes, x: Bytes, y: Bytes, b: Bytes)
    ensures a + (x + y) + b == a + x + (y + b) == a + x + y + b
  {}

  lemma IdBytes(s: Bytes, a: Bytes, id: Bytes, b: Bytes)
    requires |id| < U32_LIMIT && a <= s <= a + (U32Le(|id|) + id) + b
    ensures |s| >= |a| + 4 ==> U32At(s[|a|..|a| + 4]) == |id|
    ensures |s| >= |a| + 4 + |id| ==> s[|a| + 4..|a| + 4 + |id|] == id
  {
    hide U32Le, U32At;
    U32RoundTrip(|id|);
    Regroup(a, U32Le(|id|), id, b);
    if |s| >= |a| + 4 {
      MiddleOf(s, a, U32Le(|id|), id + b);
    }
    if |s| >= |a| + 4 + |id| {
      MiddleOf(s, a + U32Le(|id|), id, b);
    }
  }

  lemma IdReadsBack(s: Bytes, a: Bytes, id: Option<Bytes>, b: Bytes)
    requires a <= s <= a + OptionalId(id) + b
    requires id.Some? ==> |id.value| < U32_LIMIT && Utf8(id.value)
    ensures ReadId(s, |a|, id.Some?) == if |s| >= |a + OptionalId(id)| then Some(id) else None
  {
    hide U32Le, U32At, Utf8;
    if id.Some? {
      IdBytes(s, a, id.value, b);
    }
  }

  predicate ShortId(t: StagedTrade) {
    t.tradeId.Some? ==> |t.tradeId.value| < U32_LIMIT
  }

  lemma FieldsOfPrefix(t: StagedTrade, rest: Bytes, s: Bytes)
    requires t.Valid() && ShortId(t) && HEADER <= |s| && s <= Encoded(t) + rest
    ensures ReadFields(s, Flags(t))
         == if |s| < |Encoded(t)| then None else Some(Fields(t.buyerId, t.sellerId, t.aggressorSide, t.tradeId))
  {
    hide ToLe, FromLe, Flags, FlagSet, OptionalI32, OptionalI16, OptionalId, Utf8, Header, ReadI32, ReadI16, ReadId;
    var h, b, se, ag, id :=
      Header(t), OptionalI32(t.buyerId), OptionalI32(t.sellerId), OptionalI16(t.aggressorSide), OptionalId(t.tradeId);
    assert s[..HEADER] == h;
    FlagsReadBack(t);
    I32ReadsBack(s, h, t.buyerId, se + ag + id + rest);
    if |s| >= |h + b| {
      I32ReadsBack(s, h + b, t.sellerId, ag + id + rest);
      if |s| >= |h + b + se| {
        I16ReadsBack(s, h + b + se, t.aggressorSide, id + rest);
        if |s| >= |h + b + se + ag| {
          IdReadsBack(s, h + b + se + ag, t.tradeId, rest);
        }
      }
    }
  }

  /** Decoding any prefix of an encoding followed by anything: all of the encoding is needed and
      nothing behind it is read. */
  lemma DecodeOfPrefix(t: StagedTrade, rest: Bytes, n: nat)
    requires t.Valid() && ShortId(t) && n <= |Encoded(t) + rest|
    ensures var time := FromTimestampMicros(t.time.TimestampMicros());
            Decoded((Encoded(t) + rest)[..n])
              == if n < |Encoded(t)| || time.None? then None else Some(t.(time := time.value))
  {
    hide ToLe, FromLe, Flags, FlagSet, Utf8, Header, ReadFields, OptionalI32, OptionalI16, OptionalId;
    var s := (Encoded(t) + rest)[..n];
    if n >= HEADER {
      assert s[..HEADER] == Header(t);
      HeaderReadsBack(t, s);
      FlagsReadBack(t);
      FieldsOfPrefix(t, rest, s);
    }
  }

  lemma DecodedRange(s: Bytes)
    ensures Decoded(s).Some? ==>
      var t := Decoded(s).value;
      t.Valid() && t.time.WholeMicros() && ShortId(t)
  {
    hide Utf8, FromLe;
  }

  /** Decoding gives the trade back exactly when its time is a whole number of microseconds and
      its id is shorter than 4 GiB; trailing bytes never matter then. */
  lemma RoundTripIff(t: StagedTrade, rest: Bytes)
    requires t.Valid()
    ensures t.time.WholeMicros() && ShortId(t) ==> Decoded(Encoded(t) + rest) == Some(t)
    ensures Decoded(Encoded(t)) == Some(t) <==> t.time.WholeMicros() && ShortId(t)
  {
    hide Decoded, Encoded, Utf8;
    DecodedRange(Encoded(t));
    if t.time.WholeMicros() && ShortId(t) {
      MicrosRoundTrip(t.time);
      forall x ensures Decoded(Encoded(t) + x) == Some(t) {
        DecodeOfPrefix(t, x, |Encoded(t) + x|);
        assert (Encoded(t) + x)[..|Encoded(t) + x|] == Encoded(t) + x;
      }
      assert Encoded(t) + [] == Encoded(t);
    }
  }

  /** Every strict prefix of an encoding is rejected. */
  lemma TruncationRejected(t: StagedTrade, n: nat)
    requires t.Valid() && ShortId(t) && n < |Encoded(t)|
    ensures Decoded(Encoded(t)[..n]) == None
  {
    hide Decoded, Encoded, Utf8;
    DecodeOfPrefix(t, [], n);
    assert (Encoded(t) + [])[..n] == Encoded(t)[..n];
  }

  const EPOCH: DateTime := DateTime(0, 0)

  /** The time takes the first eight bytes and no others. */
  lemma TimeIsFirst(t: StagedTrade)
    requires t.time.Valid()
    ensures |Encoded(t)| >= 8 && Encoded(t)[8..] == Encoded(t.(time := EPOCH))[8..]
  {
    hide ToLe, OptionalI32, OptionalI16, OptionalId, Flags;
    PowersOf256();
    var u := t.(time := EPOCH);
    assert Flags(t) == Flags(u) by { SameFlags(t); }
    var back := SignedLe(t.assetId, 4) + ToLe(t.price, 8) + SignedLe(t.amount, 8) + [Flags(t)];
    assert Header(t) == SignedLe(t.time.TimestampMicros(), 8) + back;
    assert Header(u) == SignedLe(EPOCH.TimestampMicros(), 8) + back;
    assert Header(t)[8..] == back == Header(u)[8..];
    var rest := OptionalI32(t.buyerId) + OptionalI32(t.sellerId) + OptionalI16(t.aggressorSide) + OptionalId(t.tradeId);
    assert Encoded(t) == Header(t) + rest && Encoded(u) == Header(u) + rest;
  }

  lemma SameFlags(t: StagedTrade)
    ensures Flags(t) == Flags(t.(time := EPOCH))
  {}

  /** So no encoding is a strict prefix of another, whatever the times, and equal encodings of whole
      microseconds mean equal trades. */
  lemma PrefixFree(t: StagedTrade, u: StagedTrade)
    requires t.Valid() && ShortId(t) && u.Valid() && ShortId(u)
    requires Encoded(t) <= Encoded(u)
    ensures Encoded(t) == Encoded(u)
    ensures t.time.WholeMicros() && u.time.WholeMicros() ==> t == u
  {
    hide Decoded, Encoded, Utf8;
    var t0, u0 := t.(time := EPOCH), u.(time := EPOCH);
    TimeIsFirst(t);
    TimeIsFirst(u);
    TimeIsFirst(t0);
    EpochFirst(t, u);
    RoundTripIff(t0, []);
    assert Encoded(t0) == Encoded(u0)[..|Encoded(t0)|];
    if |Encoded(t0)| < |Encoded(u0)| {
      TruncationRejected(u0, |Encoded(t0)|);
    }
    RoundTripIff(t, []);
    RoundTripIff(u, []);
  }

  lemma EpochFirst(t: StagedTrade, u: StagedTrade)
    requires t.Valid() && u.Valid() && Encoded(t) <= Encoded(u)
    ensures Encoded(t.(time := EPOCH)) <= Encoded(u.(time := EPOCH))
    ensures |Encoded(t.(time := EPOCH))| == |Encoded(t)| && |Encoded(u.(time := EPOCH))| == |Encoded(u)|
  {
    hide OptionalI32, OptionalI16, OptionalId, Flags, ToLe, Header;
    PowersOf256();
    var t0, u0 := t.(time := EPOCH), u.(time := EPOCH);
    TimeIsFirst(t);
    TimeIsFirst(u);
    SameStart(t0, u0);
    assert Encoded(t0) == Encoded(t0)[..8] + Encoded(t0)[8..] && Encoded(u0) == Encoded(u0)[..8] + Encoded(u0)[8..];
    assert Encoded(u)[..|Encoded(t)|] == Encoded(t);
    assert Encoded(u)[8..][..|Encoded(t)| - 8] == Encoded(t)[8..];
  }

  lemma SameStart(t: StagedTrade, u: StagedTrade)
    requires t.time == u.time && t.time.Valid()
    ensures Encoded(t)[..8] == Encoded(u)[..8]
  {
    hide OptionalI32, OptionalI16, OptionalId, Flags, ToLe;
    PowersOf256();
    assert Header(t)[..8] == SignedLe(t.time.TimestampMicros(), 8) == Header(u)[..8];
  }
}
