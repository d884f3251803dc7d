/** The colon tokenizer and the number parsers (crates/cedro-protocol/src/parser/scanner.rs). */
module Scanning {
  import opened Base
  import opened Types

  const COLON: byte := 58

  // ----- what tokens are -----

  predicate ColonFree(s: Bytes) {
    forall i :: 0 <= i < |s| ==> s[i] != COLON
  }

  ghost predicate AllColonFree(ts: seq<Bytes>) {
    forall i :: 0 <= i < |ts| ==> ColonFree(ts[i])
  }

  /** `memchr`: the index of the first colon, or the length if there is none. */
  function FirstColon(s: Bytes): (i: nat)
    ensures i <= |s| && ColonFree(s[..i]) && (i < |s| ==> s[i] == COLON)
  {
    if s == [] || s[0] == COLON then 0
    else
      var rest := FirstColon(s[1..]);
      assert s[..rest + 1] == [s[0]] + s[1..][..rest];
      rest + 1
  }

  /** The tokens of a frame. */
  function Split(s: Bytes): seq<Bytes> {
    var i := FirstColon(s);
    if i == |s| then [s] else [s[..i]] + Split(s[i + 1..])
  }

  /** Tokens joined by colons. */
  function Join(ts: seq<Bytes>): Bytes {
    if ts == [] then []
    else if |ts| == 1 then ts[0]
    else ts[0] + [COLON] + Join(ts[1..])
  }

  function Colons(s: Bytes): nat {
    if s == [] then 0 else (if s[0] == COLON then 1 else 0) + Colons(s[1..])
  }

  lemma FirstColonUnique(s: Bytes, j: nat)
    requires j < |s| && ColonFree(s[..j]) && s[j] == COLON
    ensures FirstColon(s) == j
  {
    var i := FirstColon(s);
    assert forall k :: 0 <= k < j ==> s[..j][k] == s[k];
    assert forall k :: 0 <= k < i ==> s[..i][k] == s[k];
  }

  lemma SplitCons(t: Bytes, rest: Bytes)
    requires ColonFree(t)
    ensures Split(t + [COLON] + rest) == [t] + Split(rest)
  {
    hide FirstColon;
    var s := t + [COLON] + rest;
    assert s[..|t|] == t && s[|t| + 1..] == rest;
    FirstColonUnique(s, |t|);
  }

  lemma SplitOne(t: Bytes)
    requires ColonFree(t)
    ensures Split(t) == [t]
  {
    hide FirstColon;
  }

  /** Tokens end at `:` and nowhere else. */
  lemma ColonSeparates(t: Bytes, rest: Bytes)
    requires forall i :: 0 <= i < |t| ==> t[i] != 58
    ensures Split(t) == [t] && Split(t + [58] + rest) == [t] + Split(rest)
  {
    hide Split;
    SplitOne(t);
    SplitCons(t, rest);
  }

  lemma {:induction false} SplitInvertsJoin(ts: seq<Bytes>)
    requires ts != [] && AllColonFree(ts)
    ensures Split(Join(ts)) == ts
  {
    hide FirstColon, Split, ColonFree;
    if |ts| == 1 {
      SplitOne(ts[0]);
    } else {
      SplitInvertsJoin(ts[1..]);
      SplitCons(ts[0], Join(ts[1..]));
    }
  }

  /** The tokens, joined again, are the frame; there is one more of them than there are colons. */
  lemma {:induction false} JoinInvertsSplit(s: Bytes)
    ensures Join(Split(s)) == s && AllColonFree(Split(s)) && |Split(s)| == Colons(s) + 1
    decreases |s|
  {
    hide FirstColon, Colons, ColonFree;
    var i := FirstColon(s);
    if i == |s| {
      assert s[..i] == s;
      NoColons(s);
    } else {
      JoinInvertsSplit(s[i + 1..]);
      assert s == s[..i] + [COLON] + s[i + 1..];
      ColonsAcross(s[..i], s[i + 1..]);
      assert Split(s)[1..] == Split(s[i + 1..]);
    }
  }

  lemma {:induction false} NoColons(s: Bytes)
    requires ColonFree(s)
    ensures Colons(s) == 0
  {
    if s != [] {
      NoColons(s[1..]);
    }
  }

  lemma {:induction false} ColonsAcross(a: Bytes, b: Bytes)
    requires ColonFree(a)
    ensures Colons(a + [COLON] + b) == 1 + Colons(b)
  {
    if a == [] {
      assert (a + [COLON] + b)[1..] == b;
    } else {
      ColonsAcross(a[1..], b);
      assert (a + [COLON] + b)[1..] == a[1..] + [COLON] + b;
    }
  }

  /** The bytes of `k` leading tokens, each with the colon behind it. */
  function Leading(ts: seq<Bytes>): Bytes {
    if ts == [] then [] else ts[0] + [COLON] + Leading(ts[1..])
  }

  /** The bytes `take_rest` returns when `k` tokens have been read. */
  function RestFrom(ts: seq<Bytes>, k: nat): Bytes {
    if k < |ts| then Join(ts[k..]) else []
  }

  /** After `k` tokens the rest is the exact untouched suffix of the frame. */
  lemma {:induction false} RestIsSuffix(s: Bytes, k: nat)
    requires k < |Split(s)|
    ensures s == Leading(Split(s)[..k]) + RestFrom(Split(s), k)
  {
    JoinInvertsSplit(s);
    LeadingThenRest(Split(s), k);
  }

  lemma {:induction false} LeadingThenRest(ts: seq<Bytes>, k: nat)
    requires k < |ts|
    ensures Join(ts) == Leading(ts[..k]) + Join(ts[k..])
  {
    if k == 0 {
      assert ts[0..] == ts;
    } else {
      LeadingThenRest(ts[1..], k - 1);
      assert ts[..k][1..] == ts[1..][..k - 1];
      assert ts[1..][k - 1..] == ts[k..];
      assert ts[0] + [COLON] + (Leading(ts[1..][..k - 1]) + Join(ts[k..]))
          == ts[0] + [COLON] + Leading(ts[1..][..k - 1]) + Join(ts[k..]);
    }
  }

  /** The rest of tokens that end in an arbitrary text is that text, colons and all. */
  lemma {:induction false} RestIsVerbatim(head: seq<Bytes>, text: Bytes)
    requires AllColonFree(head)
    ensures Split(Leading(head) + text) == head + Split(text)
    ensures RestFrom(head + Split(text), |head|) == text
  {
    hide Split, ColonFree, Join;
    if head == [] {
      assert Leading(head) + text == text && head + Split(text) == Split(text);
    } else {
      RestIsVerbatim(head[1..], text);
      SplitCons(head[0], Leading(head[1..]) + text);
      assert Leading(head) + text == head[0] + [COLON] + (Leading(head[1..]) + text);
      assert [head[0]] + (head[1..] + Split(text)) == head + Split(text);
    }
    assert (head + Split(text))[|head|..] == Split(text);
    JoinInvertsSplit(text);
  }

  // ----- the scanner -----

  class Scanner {
    var buf: Bytes
    var pos: nat
    var fieldIndex: nat

    /** `k` tokens of `ts` have been read. */
    ghost predicate At(ts: seq<Bytes>, k: nat)
      reads this
    {
      k <= |ts| && Remaining() == ts[k..] && fieldIndex == k
    }

    /** The tokens still to come: none once `pos` is past the end, one empty one when it is at the end. */
    function Remaining(): seq<Bytes>
      reads this
    {
      if pos > |buf| then [] else Split(buf[pos..])
    }

    constructor (frame: Bytes)
      ensures Remaining() == Split(frame) && fieldIndex == 0
    {
      buf := frame;
      pos := 0;
      fieldIndex := 0;
      new;
      assert buf[0..] == frame;
    }

    method Next() returns (r: Option<Bytes>)
      modifies this
      ensures r.None? <==> old(Remaining()) == []
      ensures r.None? ==> Remaining() == [] && fieldIndex == old(fieldIndex)
      ensures r.Some? ==> old(Remaining()) == [r.value] + Remaining() && fieldIndex == old(fieldIndex) + 1
    {
      if pos > |buf| {
        return None;
      }
      if pos == |buf| {
        assert buf[pos..] == [];
        pos := |buf| + 1;
        fieldIndex := fieldIndex + 1;
        return Some([]);
      }
      fieldIndex := fieldIndex + 1;
      var rest := buf[pos..];
      var rel := FirstColon(rest);
      if rel < |rest| {
        var token := buf[pos..pos + rel];
        assert token == rest[..rel] && buf[pos + rel + 1..] == rest[rel + 1..];
        pos := pos + rel + 1;
        return Some(token);
      } else {
        pos := |buf| + 1;
        return Some(rest);
      }
    }

    method Required(expected: string) returns (r: Parsed<Bytes>)
      modifies this
      ensures old(Remaining()) == [] ==>
        r == Failure(MissingField(old(fieldIndex) + 1, expected)) && Remaining() == [] && fieldIndex == old(fieldIndex)
      ensures old(Remaining()) != [] ==>
        r == Success(old(Remaining())[0]) && Remaining() == old(Remaining())[1..] && fieldIndex == old(fieldIndex) + 1
    {
      hide Split;
      var next := Next();
      r := if next.Some? then Success(next.value) else Failure(MissingField(fieldIndex + 1, expected));
    }

    method RequiredU32(field: string, ghost ts: seq<Bytes>, ghost k: nat) returns (r: Parsed<u32>)
      requires At(ts, k)
      modifies this
      ensures r == (var b :- Field(ts, k, field); ParsedU32(b, field))
      ensures r.Success? ==> At(ts, k + 1)
    {
      hide Remaining;
      var b :- Required(field);
      r := ParseU32(b, field);
    }

    method RequiredU64(field: string, ghost ts: seq<Bytes>, ghost k: nat) returns (r: Parsed<u64>)
      requires At(ts, k)
      modifies this
      ensures r == (var b :- Field(ts, k, field); ParsedU64(b, field))
      ensures r.Success? ==> At(ts, k + 1)
    {
      hide Remaining;
      var b :- Required(field);
      r := ParseU64(b, field);
    }

    method RequiredF64(field: string, pf: FloatParser, ghost ts: seq<Bytes>, ghost k: nat) returns (r: Parsed<Float>)
      requires At(ts, k)
      modifies this
      ensures r == (var b :- Field(ts, k, field); ParsedF64(pf, b, field))
      ensures r.Success? ==> At(ts, k + 1)
    {
      hide Remaining;
      var b :- Required(field);
      r := ParsedF64(pf, b, field);
    }

    method TakeRest() returns (out: Bytes)
      modifies this
      ensures out == Join(old(Remaining())) && Remaining() == []
    {
      if pos > |buf| {
        out := [];
      } else {
        out := buf[pos..];
        JoinInvertsSplit(out);
      }
      pos := |buf| + 1;
    }
  }

  /** Token `k` of a frame, or the error the scanner reports for it. */
  function Field(ts: seq<Bytes>, k: nat, expected: string): Parsed<Bytes> {
    if k < |ts| then Success(ts[k]) else Failure(MissingField(|ts| + 1, expected))
  }

  // ----- integers -----

  predicate IsDigit(c: byte) {
    48 <= c <= 57
  }

  predicate AllDigits(s: Bytes) {
    forall i :: 0 <= i < |s| ==> IsDigit(s[i])
  }

  /** The number a digit string denotes, of any length. */
  function DecimalValue(s: Bytes): nat
    requires AllDigits(s)
  {
    if s == [] then 0 else 10 * DecimalValue(s[..|s| - 1]) + (s[|s| - 1] - 48)
  }

  function ParsedU64(b: Bytes, field: string): Parsed<u64> {
    if b != [] && AllDigits(b) && DecimalValue(b) < U64_LIMIT then Success(DecimalValue(b))
    else Failure(BadInteger(field))
  }

  function ParsedU32(b: Bytes, field: string): Parsed<u32> {
    if b != [] && AllDigits(b) && DecimalValue(b) < U32_LIMIT then Success(DecimalValue(b))
    else Failure(BadInteger(field))
  }

  function ParsedU16(b: Bytes, field: string): Parsed<u16> {
    if b != [] && AllDigits(b) && DecimalValue(b) < U16_LIMIT then Success(DecimalValue(b))
    else Failure(BadInteger(field))
  }

  const MINUS: byte := 45

  function Magnitude(b: Bytes): Bytes {
    if b != [] && b[0] == MINUS then b[1..] else b
  }

  function ParsedI64(b: Bytes, field: string): Parsed<i64> {
    var m := Magnitude(b);
    if m != [] && AllDigits(m) && DecimalValue(m) < I64_LIMIT then
      Success(if b[0] == MINUS then -(DecimalValue(m) as int) else DecimalValue(m))
    else Failure(BadInteger(field))
  }

  function Pow10(k: nat): nat {
    if k == 0 then 1 else 10 * Pow10(k - 1)
  }

  /** The decimal value again, from the first digit on: each digit weighs ten times the next. */
  lemma {:induction false} FirstDigitWeighsMost(s: Bytes)
    requires s != [] && forall i :: 0 <= i < |s| ==> 48 <= s[i] <= 57
    ensures AllDigits(s) && AllDigits(s[1..])
    ensures DecimalValue(s) == (s[0] - 48) * Pow10(|s| - 1) + DecimalValue(s[1..])
  {
    if |s| > 1 {
      var front := s[..|s| - 1];
      FirstDigitWeighsMost(front);
      assert s[1..][..|s| - 2] == front[1..];
      var d, p := s[0] - 48, Pow10(|s| - 2);
      assert 10 * (d * p) == d * (10 * p);
    }
  }

  lemma {:induction false} PrefixNoLarger(s: Bytes, k: nat)
    requires AllDigits(s) && k <= |s|
    ensures DecimalValue(s[..k]) <= DecimalValue(s)
  {
    if k < |s| {
      PrefixNoLarger(s[..|s| - 1], k);
      assert s[..|s| - 1][..k] == s[..k];
    } else {
      assert s[..k] == s;
    }
  }

  lemma DigitStep(s: Bytes, i: nat)
    requires i < |s| && AllDigits(s[..i + 1])
    ensures AllDigits(s[..i]) && DecimalValue(s[..i + 1]) == 10 * DecimalValue(s[..i]) + (s[i] - 48)
  {
    assert s[..i + 1][..i] == s[..i];
    assert forall j :: 0 <= j < i ==> s[..i][j] == s[..i + 1][j];
    assert s[..i + 1][i] == s[i];
  }

  /** The loop of the integer parsers: `checked_mul(10)`, then `checked_add` of the digit. */
  method ParseDigits(b: Bytes, limit: nat) returns (r: Option<nat>)
    requires limit > 0
    ensures r == if AllDigits(b) && DecimalValue(b) < limit then Some(DecimalValue(b)) else None
  {
    var n: nat := 0;
    for i := 0 to |b|
      invariant AllDigits(b[..i]) && n == DecimalValue(b[..i]) < limit
    {
      if !IsDigit(b[i]) {
        return None;
      }
      assert AllDigits(b[..i + 1]);
      DigitStep(b, i);
      if n * 10 >= limit || n * 10 + (b[i] - 48) >= limit {
        if AllDigits(b) { PrefixNoLarger(b, i + 1); }
        return None;
      }
      n := n * 10 + (b[i] - 48);
    }
    assert b[..|b|] == b;
    r := Some(n);
  }

  method ParseU64(b: Bytes, field: string) returns (r: Parsed<u64>)
    ensures r == ParsedU64(b, field)
    ensures r.Success? <==>
      b != [] && (forall i :: 0 <= i < |b| ==> 48 <= b[i] <= 57) && DecimalValue(b) <= 18_446_744_073_709_551_615
    ensures r == if r.Success? then Success(DecimalValue(b)) else Failure(BadInteger(field))
  {
    if |b| == 0 {
      return Failure(BadInteger(field));
    }
    var n := ParseDigits(b, U64_LIMIT);
    r := if n.Some? then Success(n.value) else Failure(BadInteger(field));
  }

  method ParseU32(b: Bytes, field: string) returns (r: Parsed<u32>)
    ensures r == ParsedU32(b, field)
    ensures r.Success? <==>
      b != [] && (forall i :: 0 <= i < |b| ==> 48 <= b[i] <= 57) && DecimalValue(b) <= 4_294_967_295
    ensures r == if r.Success? then Success(DecimalValue(b)) else Failure(BadInteger(field))
  {
    var n :- ParseU64(b, field);
    r := if n < U32_LIMIT then Success(n) else Failure(BadInteger(field));
  }

  method ParseU16(b: Bytes, field: string) returns (r: Parsed<u16>)
    ensures r == ParsedU16(b, field)
    ensures r.Success? <==>
      b != [] && (forall i :: 0 <= i < |b| ==> 48 <= b[i] <= 57) && DecimalValue(b) <= 65_535
    ensures r == if r.Success? then Success(DecimalValue(b)) else Failure(BadInteger(field))
  {
    var n :- ParseU64(b, field);
    r := if n < U16_LIMIT then Success(n) else Failure(BadInteger(field));
  }

  method ParseI64(b: Bytes, field: string) returns (r: Parsed<i64>)
    ensures r == ParsedI64(b, field)
    ensures var m := if b != [] && b[0] == 45 then b[1..] else b;
            if m != [] && (forall i :: 0 <= i < |m| ==> 48 <= m[i] <= 57)
               && DecimalValue(m) <= 9_223_372_036_854_775_807
            then r == Success(if b[0] == 45 then -(DecimalValue(m) as int) else DecimalValue(m))
            else r == Failure(BadInteger(field))
  {
    if |b| == 0 {
      return Failure(BadInteger(field));
    }
    var sign: int := if b[0] == MINUS then -1 else 1;
    var rest := if b[0] == MINUS then b[1..] else b;
    if |rest| == 0 {
      return Failure(BadInteger(field));
    }
    var n := ParseDigits(rest, I64_LIMIT);
    r := if n.Some? then Success(sign * n.value) else Failure(BadInteger(field));
  }

  // ----- floats -----

  /** `str::parse::<f64>`, which this model leaves open. */
  type FloatParser = Bytes -> Option<Float>

  function ParsedF64(pf: FloatParser, b: Bytes, field: string): Parsed<Float> {
    if b == [] then Failure(BadFloat(field))
    else if !Utf8(b) then Failure(BadEncoding(field))
    else
      match pf(b)
      case Some(v) => Success(v)
      case None => Failure(BadFloat(field))
  }

  // ----- printing -----

  /** How a feed prints floats: any text that the parser reads back. */
  type FloatPrinter = Float -> Bytes

  ghost predicate FloatPrintable(v: Float, pf: FloatParser, show: FloatPrinter) {
    ColonFree(show(v)) && Utf8(show(v)) && show(v) != [] && pf(show(v)) == Some(v)
  }

  function Decimal(n: nat): (s: Bytes)
    ensures s != []
  {
    if n < 10 then [48 + n] else Decimal(n / 10) + [48 + n % 10]
  }

  /** At least `width` digits. */
  function Padded(n: nat, width: nat): (s: Bytes)
    ensures s != []
  {
    var s := Decimal(n);
    Zeros(if |s| < width then width - |s| else 0) + s
  }

  function Zeros(k: nat): Bytes {
    seq(k, _ => 48)
  }

  function SignedDecimal(v: int): Bytes {
    if v < 0 then [MINUS] + Decimal(-v) else Decimal(v)
  }

  lemma {:induction false} DecimalReadsBack(n: nat)
    ensures AllDigits(Decimal(n)) && DecimalValue(Decimal(n)) == n
  {
    if n < 10 {
      assert [48 + n][..0] == [];
    } else {
      DecimalReadsBack(n / 10);
      assert Decimal(n)[..|Decimal(n)| - 1] == Decimal(n / 10);
    }
  }

  lemma {:induction false} ZerosAddNothing(k: nat, s: Bytes)
    requires AllDigits(s)
    ensures AllDigits(Zeros(k) + s) && DecimalValue(Zeros(k) + s) == DecimalValue(s)
  {
    if s == [] {
      if k > 0 {
        ZerosAddNothing(k - 1, []);
        assert (Zeros(k) + [])[..k - 1] == Zeros(k - 1) + [];
      }
    } else {
      var front := s[..|s| - 1];
      ZerosAddNothing(k, front);
      assert (Zeros(k) + s)[..|Zeros(k) + s| - 1] == Zeros(k) + front;
    }
  }

  /** Printed numbers parse back, leading zeros included. */
  lemma NumberReadsBack(n: nat, width: nat, field: string)
    ensures AllDigits(Padded(n, width)) && ColonFree(Padded(n, width))
    ensures n < U64_LIMIT ==> ParsedU64(Padded(n, width), field) == Success(n)
    ensures n < U32_LIMIT ==> ParsedU32(Padded(n, width), field) == Success(n)
    ensures n < U16_LIMIT ==> ParsedU16(Padded(n, width), field) == Success(n)
  {
    hide Decimal, DecimalValue;
    DecimalReadsBack(n);
    var s := Decimal(n);
    ZerosAddNothing(if |s| < width then width - |s| else 0, s);
  }

  lemma UnpaddedReadsBack(n: nat, field: string)
    ensures AllDigits(Decimal(n)) && ColonFree(Decimal(n))
    ensures n < U64_LIMIT ==> ParsedU64(Decimal(n), field) == Success(n)
    ensures n < U32_LIMIT ==> ParsedU32(Decimal(n), field) == Success(n)
    ensures n < U16_LIMIT ==> ParsedU16(Decimal(n), field) == Success(n)
  {
    hide Decimal;
    NumberReadsBack(n, 0, field);
    assert Zeros(0) + Decimal(n) == Decimal(n);
  }

  /** Signed numbers parse back, all but the smallest: its magnitude does not fit. */
  lemma SignedReadsBackIff(v: i64, field: string)
    ensures ColonFree(SignedDecimal(v)) && SignedDecimal(v) != []
    ensures ParsedI64(SignedDecimal(v), field) == Success(v) <==> v != -I64_LIMIT
  {
    hide Decimal, DecimalValue;
    var m: nat := if v < 0 then -(v as int) else v;
    DecimalReadsBack(m);
    if v < 0 {
      assert SignedDecimal(v)[1..] == Decimal(m);
    } else {
      assert IsDigit(Decimal(m)[0]);
    }
  }
}
