/** Bytes, failure types and the little-endian integers every other module shares. */
module Base {
  type byte = x: int | 0 <= x < 256
  type Bytes = seq<byte>

  const U16_LIMIT: int := 0x1_0000
  const U32_LIMIT: int := 0x1_0000_0000
  const I64_LIMIT: int := 0x8000_0000_0000_0000
  const U64_LIMIT: int := 0x1_0000_0000_0000_0000

  type u16 = x: int | 0 <= x < U16_LIMIT
  type u32 = x: int | 0 <= x < U32_LIMIT
  type u64 = x: int | 0 <= x < U64_LIMIT
  type i16 = x: int | -0x8000 <= x < 0x8000
  type i32 = x: int | -0x8000_0000 <= x < 0x8000_0000
  type i64 = x: int | -I64_LIMIT <= x < I64_LIMIT

  /** An `f64` is its bit pattern: no module here does arithmetic on one. */
  type Float = u64

  datatype Option<+T> = None | Some(value: T) {
    predicate IsFailure() {
      None?
    }

    function PropagateFailure<U>(): Option<U>
      requires None?
    {
      None
    }

    function Extract(): T
      requires Some?
    {
      value
    }
  }

  datatype Result<+T, +E> = Success(value: T) | Failure(error: E) {
    predicate IsFailure() {
      Failure?
    }

    function PropagateFailure<U>(): Result<U, E>
      requires Failure?
    {
      Failure(error)
    }

    function Extract(): T
      requires Success?
    {
      value
    }
  }

  // ----- little-endian integers -----

  function Pow256(k: nat): (p: int)
    ensures p > 0
  {
    if k == 0 then 1 else 256 * Pow256(k - 1)
  }

  /** The `k` low-order bytes of `n`, least significant first. */
  function ToLe(n: nat, k: nat): (s: Bytes)
    ensures |s| == k
  {
    if k == 0 then [] else [n % 256] + ToLe(n / 256, k - 1)
  }

  function FromLe(s: Bytes): nat {
    if s == [] then 0 else s[0] + 256 * FromLe(s[1..])
  }

  lemma {:induction false} FromLeToLe(n: nat, k: nat)
    requires n < Pow256(k)
    ensures FromLe(ToLe(n, k)) == n
  {
    if k > 0 {
      FromLeToLe(n / 256, k - 1);
      assert ToLe(n, k)[1..] == ToLe(n / 256, k - 1);
    }
  }

  lemma {:induction false} FromLeBound(s: Bytes)
    ensures FromLe(s) < Pow256(|s|)
  {
    if s != [] {
      FromLeBound(s[1..]);
    }
  }

  lemma {:induction false} ToLeFromLe(s: Bytes)
    ensures ToLe(FromLe(s), |s|) == s
  {
    if s != [] {
      var n, rest := FromLe(s), FromLe(s[1..]);
      ToLeFromLe(s[1..]);
      assert n % 256 == s[0] && n / 256 == rest;
      assert s == [s[0]] + s[1..];
    }
  }

  lemma PowersOf256()
    ensures Pow256(2) == U16_LIMIT && Pow256(4) == U32_LIMIT && Pow256(8) == U64_LIMIT
  {
    assert Pow256(1) == 256 * Pow256(0);
    assert Pow256(2) == 256 * Pow256(1);
    assert Pow256(3) == 256 * Pow256(2);
    assert Pow256(4) == 256 * Pow256(3);
    assert Pow256(5) == 256 * Pow256(4);
    assert Pow256(6) == 256 * Pow256(5);
    assert Pow256(7) == 256 * Pow256(6);
    assert Pow256(8) == 256 * Pow256(7);
  }

  lemma FromLeCons(x: byte, s: Bytes)
    ensures FromLe([x] + s) == x + 256 * FromLe(s)
  {
    assert ([x] + s)[1..] == s;
  }

  lemma FourBytesAt(s: Bytes)
    requires |s| == 4
    ensures FromLe(s) == s[0] + 256 * (s[1] as int) + 65_536 * (s[2] as int) + 16_777_216 * (s[3] as int)
  {
    assert s == [s[0]] + ([s[1]] + ([s[2]] + ([s[3]] + [])));
    FromLeCons(s[3], []);
    FromLeCons(s[2], [s[3]] + []);
    FromLeCons(s[1], [s[2]] + ([s[3]] + []));
    FromLeCons(s[0], [s[1]] + ([s[2]] + ([s[3]] + [])));
  }

  /** The place value of each byte of the integers on disk. */
  lemma PlaceValues(s: Bytes)
    ensures |s| == 2 ==> FromLe(s) == s[0] + 256 * (s[1] as int)
    ensures |s| == 4 ==> FromLe(s) == s[0] + 256 * (s[1] as int) + 65_536 * (s[2] as int) + 16_777_216 * (s[3] as int)
    ensures |s| == 8 ==>
      FromLe(s) == s[0] + 256 * (s[1] as int) + 65_536 * (s[2] as int) + 16_777_216 * (s[3] as int)
                 + 4_294_967_296 * (s[4] + 256 * (s[5] as int) + 65_536 * (s[6] as int) + 16_777_216 * (s[7] as int))
  {
    hide FromLe;
    if |s| == 2 {
      assert s == [s[0]] + ([s[1]] + []);
      FromLeCons(s[1], []);
      FromLeCons(s[0], [s[1]] + []);
      assert FromLe([]) == 0 by { NothingIsZero(); }
    } else if |s| == 4 {
      FourBytesAt(s);
    } else if |s| == 8 {
      FourBytesAt(s[4..]);
      var r4 := s[4..];
      assert s == [s[0]] + ([s[1]] + ([s[2]] + ([s[3]] + r4)));
      FromLeCons(s[3], r4);
      FromLeCons(s[2], [s[3]] + r4);
      FromLeCons(s[1], [s[2]] + ([s[3]] + r4));
      FromLeCons(s[0], [s[1]] + ([s[2]] + ([s[3]] + r4)));
    }
  }

  lemma NothingIsZero()
    ensures FromLe([]) == 0
  {}

  function U32Le(n: u32): (s: Bytes)
    ensures |s| == 4
  {
    ToLe(n, 4)
  }

  function U32At(s: Bytes): (n: u32)
    requires |s| == 4
  {
    FromLeBound(s);
    PowersOf256();
    FromLe(s)
  }

  lemma U32RoundTrip(n: u32)
    ensures U32At(U32Le(n)) == n
  {
    PowersOf256();
    FromLeToLe(n, 4);
  }

  // ----- two's complement -----

  function SignedLe(v: int, k: nat): (s: Bytes)
    requires -Pow256(k) <= 2 * v < Pow256(k)
    ensures |s| == k
  {
    ToLe(if v < 0 then v + Pow256(k) else v, k)
  }

  function SignedAt(s: Bytes): (v: int)
  {
    var n := FromLe(s);
    if 2 * n >= Pow256(|s|) then n - Pow256(|s|) else n
  }

  lemma SignedRoundTrip(v: int, k: nat)
    requires -Pow256(k) <= 2 * v < Pow256(k)
    ensures SignedAt(SignedLe(v, k)) == v
  {
    FromLeToLe(if v < 0 then v + Pow256(k) else v, k);
  }

  /** A negative number is stored as itself plus the modulus. */
  lemma SignedBytes(v: int, k: nat)
    requires -Pow256(k) <= 2 * v < Pow256(k)
    ensures FromLe(SignedLe(v, k)) == if v < 0 then v + Pow256(k) else v
  {
    FromLeToLe(if v < 0 then v + Pow256(k) else v, k);
  }

  lemma SignedRange(s: Bytes)
    ensures -Pow256(|s|) <= 2 * SignedAt(s) < Pow256(|s|)
  {
    FromLeBound(s);
  }

  // ----- strings -----

  predicate Continuation(b: byte) {
    0x80 <= b <= 0xBF
  }

  /** Well-formed UTF-8, what a `String` holds and `String::from_utf8` accepts. */
  predicate Utf8(s: Bytes) {
    if s == [] then true
    else if s[0] <= 0x7F then Utf8(s[1..])
    else if 0xC2 <= s[0] <= 0xDF then
      |s| >= 2 && Continuation(s[1]) && Utf8(s[2..])
    else if 0xE0 <= s[0] <= 0xEF then
      && |s| >= 3 && Continuation(s[1]) && Continuation(s[2])
      && (s[0] == 0xE0 ==> s[1] >= 0xA0) && (s[0] == 0xED ==> s[1] <= 0x9F) && Utf8(s[3..])
    else
      && 0xF0 <= s[0] <= 0xF4
      && |s| >= 4 && Continuation(s[1]) && Continuation(s[2]) && Continuation(s[3])
      && (s[0] == 0xF0 ==> s[1] >= 0x90) && (s[0] == 0xF4 ==> s[1] <= 0x8F) && Utf8(s[4..])
  }

  // ----- UTF-8 against the encoding of section 3 of RFC 3629 -----

  /** A character number that is not a surrogate. */
  predicate Scalar(c: nat) {
    c <= 0xD7FF || 0xE000 <= c <= 0x10_FFFF
  }

  predicate AllScalar(text: seq<nat>) {
    forall i :: 0 <= i < |text| ==> Scalar(text[i])
  }

  function EncodedScalar(c: nat): (s: Bytes)
    requires Scalar(c)
    ensures s != []
  {
    if c <= 0x7F then [c]
    else if c <= 0x7FF then [0xC0 + c / 0x40, 0x80 + c % 0x40]
    else if c <= 0xFFFF then [0xE0 + c / 0x1000, 0x80 + c / 0x40 % 0x40, 0x80 + c % 0x40]
    else [0xF0 + c / 0x4_0000, 0x80 + c / 0x1000 % 0x40, 0x80 + c / 0x40 % 0x40, 0x80 + c % 0x40]
  }

  function EncodedText(text: seq<nat>): Bytes
    requires AllScalar(text)
  {
    if text == [] then [] else EncodedScalar(text[0]) + EncodedText(text[1..])
  }

  lemma ScalarIsUtf8(c: nat, rest: Bytes)
    requires Scalar(c)
    ensures Utf8(EncodedScalar(c) + rest) <==> Utf8(rest)
  {
    var e := EncodedScalar(c);
    hide EncodedScalar;
    var s := e + rest;
    assert s[|e|..] == rest;
    if c <= 0x7F {
      assert s[0] == c && |e| == 1;
    } else if c <= 0x7FF {
      assert 0xC2 <= s[0] <= 0xDF && Continuation(s[1]) && |e| == 2;
    } else if c <= 0xFFFF {
      assert 0xE0 <= s[0] <= 0xEF && Continuation(s[1]) && Continuation(s[2]) && |e| == 3;
    } else {
      assert 0xF0 <= s[0] <= 0xF4 && Continuation(s[1]) && Continuation(s[2]) && Continuation(s[3]) && |e| == 4;
    }
  }

  lemma {:induction false} TextIsUtf8(text: seq<nat>)
    requires AllScalar(text)
    ensures Utf8(EncodedText(text))
  {
    if text != [] {
      TextIsUtf8(text[1..]);
      ScalarIsUtf8(text[0], EncodedText(text[1..]));
    }
  }

  lemma TwoByteScalar(a: byte, b: byte) returns (c: nat)
    requires 0xC2 <= a <= 0xDF && Continuation(b)
    ensures Scalar(c) && EncodedScalar(c) == [a, b]
  {
    c := 0x40 * (a as int - 0xC0) + (b - 0x80);
    assert c / 0x40 == a - 0xC0 && c % 0x40 == b - 0x80;
  }

  lemma ThreeByteScalar(a: byte, b: byte, d: byte) returns (c: nat)
    requires 0xE0 <= a <= 0xEF && Continuation(b) && Continuation(d)
    requires (a == 0xE0 ==> b >= 0xA0) && (a == 0xED ==> b <= 0x9F)
    ensures Scalar(c) && EncodedScalar(c) == [a, b, d]
  {
    var top: nat := 0x40 * (a as int - 0xE0) + (b - 0x80);
    c := 0x40 * top + (d - 0x80);
    assert c / 0x40 == top && c % 0x40 == d - 0x80;
    assert top / 0x40 == a - 0xE0 && top % 0x40 == b - 0x80;
    assert c / 0x1000 == top / 0x40;
  }

  lemma FourByteScalar(a: byte, b: byte, d: byte, e: byte) returns (c: nat)
    requires 0xF0 <= a <= 0xF4 && Continuation(b) && Continuation(d) && Continuation(e)
    requires (a == 0xF0 ==> b >= 0x90) && (a == 0xF4 ==> b <= 0x8F)
    ensures Scalar(c) && EncodedScalar(c) == [a, b, d, e]
  {
    var top: nat := 0x40 * (a as int - 0xF0) + (b - 0x80);
    var mid: nat := 0x40 * top + (d - 0x80);
    c := 0x40 * mid + (e - 0x80);
    assert c / 0x40 == mid && c % 0x40 == e - 0x80;
    assert mid / 0x40 == top && mid % 0x40 == d - 0x80;
    assert top / 0x40 == a - 0xF0 && top % 0x40 == b - 0x80;
    assert c / 0x1000 == mid / 0x40 && c / 0x4_0000 == top / 0x40;
  }

  lemma FirstScalar(s: Bytes) returns (c: nat)
    requires Utf8(s) && s != []
    ensures Scalar(c) && EncodedScalar(c) <= s && Utf8(s[|EncodedScalar(c)|..])
  {
    hide EncodedScalar;
    if s[0] <= 0x7F {
      c := s[0];
      assert EncodedScalar(c) == [s[0]] by { OneByteScalar(s[0]); }
    } else if s[0] <= 0xDF {
      c := TwoByteScalar(s[0], s[1]);
    } else if s[0] <= 0xEF {
      c := ThreeByteScalar(s[0], s[1], s[2]);
    } else {
      c := FourByteScalar(s[0], s[1], s[2], s[3]);
    }
  }

  lemma OneByteScalar(b: byte)
    requires b <= 0x7F
    ensures EncodedScalar(b) == [b]
  {}

  lemma {:induction false} TextOf(s: Bytes) returns (text: seq<nat>)
    requires Utf8(s)
    ensures AllScalar(text) && EncodedText(text) == s
    decreases |s|
  {
    if s == [] {
      text := [];
    } else {
      var c := FirstScalar(s);
      var e := EncodedScalar(c);
      var rest := TextOf(s[|e|..]);
      text := [c] + rest;
      assert text[1..] == rest && s == e + s[|e|..];
    }
  }

  /** Exactly the encodings of character numbers are accepted: no surrogate, no overlong form,
      nothing past the last character, nothing cut short. */
  lemma Utf8Iff(s: Bytes)
    ensures Utf8(s) <==> exists text :: AllScalar(text) && EncodedText(text) == s
  {
    hide Utf8, EncodedText;
    if Utf8(s) {
      var text := TextOf(s);
    }
    if text :| AllScalar(text) && EncodedText(text) == s {
      TextIsUtf8(text);
    }
  }

  lemma {:induction false} AsciiIsUtf8(s: Bytes)
    requires forall i :: 0 <= i < |s| ==> s[i] <= 127
    ensures Utf8(s)
  {
    if s != [] {
      AsciiIsUtf8(s[1..]);
    }
  }
}
