/** The documented layouts as tables: a frame is a list of named fields, and what is wrong with it is
    what is wrong with the first field that is missing or malformed. The parsers are compared with
    these tables. */
module Layouts {
  import opened Base
  import opened Types
  import opened Scanning

  datatype Shape =
    | Anything
    | Digits(limit: nat)
    | SignedDigits
    | FloatText
    | SideLetter
    | OneByte(reason: string)

  datatype Spec = Spec(name: string, shape: Shape)

  const U64_DIGITS: Shape := Digits(18_446_744_073_709_551_616)
  const U32_DIGITS: Shape := Digits(4_294_967_296)
  const U16_DIGITS: Shape := Digits(65_536)

  /** Decimal digits only, leading zeros allowed. */
  predicate Numeral(token: Bytes, limit: nat) {
    token != [] && (forall i :: 0 <= i < |token| ==> 48 <= token[i] <= 57) && DecimalValue(token) < limit
  }

  predicate Denotes(token: Bytes, value: nat) {
    (forall i :: 0 <= i < |token| ==> 48 <= token[i] <= 57) && DecimalValue(token) == value
  }

  function Unsigned(token: Bytes): Bytes {
    if token != [] && token[0] == 45 then token[1..] else token
  }

  predicate SignedDenotes(token: Bytes, value: int) {
    if token != [] && token[0] == 45 then value <= 0 && Denotes(token[1..], -value)
    else value >= 0 && Denotes(token, value)
  }

  /** What is wrong with a field that is there. */
  function FieldError(token: Bytes, spec: Spec, pf: FloatParser): Option<ParseError> {
    match spec.shape
    case Anything => None
    case Digits(limit) => if Numeral(token, limit) then None else Some(BadInteger(spec.name))
    case SignedDigits =>
      if Numeral(Unsigned(token), 9_223_372_036_854_775_808) then None else Some(BadInteger(spec.name))
    case FloatText =>
      if token != [] && !Utf8(token) then Some(BadEncoding(spec.name))
      else if token == [] || pf(token).None? then Some(BadFloat(spec.name))
      else None
    case SideLetter =>
      if |token| != 1 then Some(InvalidField("book side", "expected one byte (A or V)"))
      else if token[0] != 65 && token[0] != 86 then Some(InvalidField("book side", "expected A (buy) or V (sell)"))
      else None
    case OneByte(reason) => if |token| == 1 then None else Some(InvalidField(spec.name, reason))
  }

  /** The first error among the fields `specs` from token `k` on. A missing field is reported with the
      number of tokens there are, plus one. */
  function FirstError(ts: seq<Bytes>, k: nat, specs: seq<Spec>, pf: FloatParser): Option<ParseError>
    decreases specs
  {
    if specs == [] then None
    else if k >= |ts| then Some(MissingField(|ts| + 1, specs[0].name))
    else
      var error := FieldError(ts[k], specs[0], pf);
      if error.Some? then error else FirstError(ts, k + 1, specs[1..], pf)
  }

  /** The error of one field, missing or malformed. */
  function ErrorAt(ts: seq<Bytes>, k: nat, spec: Spec, pf: FloatParser): Option<ParseError> {
    if k >= |ts| then Some(MissingField(|ts| + 1, spec.name)) else FieldError(ts[k], spec, pf)
  }

  /** The earlier of two errors. */
  function Or(first: Option<ParseError>, second: Option<ParseError>): Option<ParseError> {
    if first.Some? then first else second
  }

  lemma FirstErrorStep(ts: seq<Bytes>, k: nat, spec: Spec, rest: seq<Spec>, pf: FloatParser)
    ensures FirstError(ts, k, [spec] + rest, pf)
         == Or(ErrorAt(ts, k, spec, pf), FirstError(ts, k + 1, rest, pf))
  {
    hide FieldError;
    assert ([spec] + rest)[1..] == rest;
  }

  lemma FirstOfOne(ts: seq<Bytes>, k: nat, a: Spec, pf: FloatParser)
    ensures FirstError(ts, k, [a], pf) == ErrorAt(ts, k, a, pf)
  {
    hide ErrorAt;
    FirstErrorStep(ts, k, a, [], pf);
    assert [a] == [a] + [];
  }

  lemma FirstOfTwo(ts: seq<Bytes>, k: nat, a: Spec, b: Spec, pf: FloatParser)
    ensures FirstError(ts, k, [a, b], pf) == Or(ErrorAt(ts, k, a, pf), ErrorAt(ts, k + 1, b, pf))
  {
    hide ErrorAt;
    FirstErrorStep(ts, k, a, [b], pf);
    FirstErrorStep(ts, k + 1, b, [], pf);
    assert [a, b] == [a] + [b] && [b] == [b] + [];
  }

  lemma FirstOfFive(ts: seq<Bytes>, k: nat, a: Spec, b: Spec, c: Spec, d: Spec, e: Spec, pf: FloatParser)
    ensures FirstError(ts, k, [a, b, c, d, e], pf)
         == Or(ErrorAt(ts, k, a, pf), Or(ErrorAt(ts, k + 1, b, pf), Or(ErrorAt(ts, k + 2, c, pf),
            Or(ErrorAt(ts, k + 3, d, pf), ErrorAt(ts, k + 4, e, pf)))))
  {
    hide ErrorAt;
    FirstErrorStep(ts, k, a, [b, c, d, e], pf);
    FirstErrorStep(ts, k + 1, b, [c, d, e], pf);
    FirstErrorStep(ts, k + 2, c, [d, e], pf);
    FirstOfTwo(ts, k + 3, d, e, pf);
    assert [a, b, c, d, e] == [a] + [b, c, d, e] && [b, c, d, e] == [b] + [c, d, e] && [c, d, e] == [c] + [d, e];
  }

  // ----- the field parsers follow the tables -----

  lemma U64ByTable(token: Bytes, name: string, pf: FloatParser)
    ensures var e, r := FieldError(token, Spec(name, U64_DIGITS), pf), ParsedU64(token, name);
            if e.Some? then r == Failure(e.value) else r.Success? && Denotes(token, r.value)
  {}

  lemma U32ByTable(token: Bytes, name: string, pf: FloatParser)
    ensures var e, r := FieldError(token, Spec(name, U32_DIGITS), pf), ParsedU32(token, name);
            if e.Some? then r == Failure(e.value) else r.Success? && Denotes(token, r.value)
  {}

  lemma U16ByTable(token: Bytes, name: string, pf: FloatParser)
    ensures var e, r := FieldError(token, Spec(name, U16_DIGITS), pf), ParsedU16(token, name);
            if e.Some? then r == Failure(e.value) else r.Success? && Denotes(token, r.value)
  {}

  lemma I64ByTable(token: Bytes, name: string, pf: FloatParser)
    ensures var e, r := FieldError(token, Spec(name, SignedDigits), pf), ParsedI64(token, name);
            if e.Some? then r == Failure(e.value) else r.Success? && SignedDenotes(token, r.value)
  {}

  lemma F64ByTable(token: Bytes, name: string, pf: FloatParser)
    ensures var e, r := FieldError(token, Spec(name, FloatText), pf), ParsedF64(pf, token, name);
            if e.Some? then r == Failure(e.value) else pf(token).Some? && r == Success(pf(token).value)
  {
    hide Utf8;
  }
}
