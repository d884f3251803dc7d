/** The write-ahead log's bitwise CRC-32 (crates/persistence/src/wal.rs:156-166) against the
    table-driven code of section 8 of RFC 1952, and the burst errors it is sure to catch. */
module Crc32 {
  import opened Base

  const POLYNOMIAL: bv32 := 0xEDB8_8320
  const ALL_ONES: bv32 := 0xFFFF_FFFF

  // ----- bytes as bit vectors, one nibble at a time -----

  type nibble = x: int | 0 <= x < 16

  function NibbleBits(n: nibble): bv32 {
    if n == 0 then 0 else if n == 1 then 1 else if n == 2 then 2 else if n == 3 then 3
    else if n == 4 then 4 else if n == 5 then 5 else if n == 6 then 6 else if n == 7 then 7
    else if n == 8 then 8 else if n == 9 then 9 else if n == 10 then 10 else if n == 11 then 11
    else if n == 12 then 12 else if n == 13 then 13 else if n == 14 then 14 else 15
  }

  function BitsNibble(x: bv32): nibble {
    if x == 0 then 0 else if x == 1 then 1 else if x == 2 then 2 else if x == 3 then 3
    else if x == 4 then 4 else if x == 5 then 5 else if x == 6 then 6 else if x == 7 then 7
    else if x == 8 then 8 else if x == 9 then 9 else if x == 10 then 10 else if x == 11 then 11
    else if x == 12 then 12 else if x == 13 then 13 else if x == 14 then 14 else 15
  }

  function JoinNibbles(hi: bv32, lo: bv32): bv32 { (hi << 4) | lo }
  function HighNibble(x: bv32): bv32 { (x >> 4) & 15 }
  function LowNibble(x: bv32): bv32 { x & 15 }

  /** `u32::from(byte)`. */
  function Bits(b: byte): bv32 {
    JoinNibbles(NibbleBits(b / 16), NibbleBits(b % 16))
  }

  /** The low-order byte of a word. */
  function LowByte(x: bv32): byte {
    16 * BitsNibble(HighNibble(x)) + BitsNibble(LowNibble(x))
  }

  lemma NibbleThereAndBack(n: nibble)
    ensures BitsNibble(NibbleBits(n)) == n && NibbleBits(n) <= 15
  {}

  lemma NibbleBackAndThere(x: bv32)
    requires x <= 15
    ensures NibbleBits(BitsNibble(x)) == x
  {}

  lemma NibbleIsNumber(n: nibble)
    ensures NibbleBits(n) as int == n
  {}

  /** A byte's bits are those of its number. */
  lemma ByteIsNumber(b: byte, hi: bv32, lo: bv32)
    requires hi as int == b / 16 && lo as int == b % 16
    ensures Bits(b) == (hi << 4) | lo
  {
    NibbleIsNumber(b / 16);
    NibbleIsNumber(b % 16);
    assert NibbleBits(b / 16) == hi;
    assert NibbleBits(b % 16) == lo;
  }

  lemma SplitJoined(hi: bv32, lo: bv32)
    requires hi <= 15 && lo <= 15
    ensures HighNibble(JoinNibbles(hi, lo)) == hi && LowNibble(JoinNibbles(hi, lo)) == lo
    ensures JoinNibbles(hi, lo) <= 255
  {}

  lemma JoinSplit(x: bv32)
    ensures JoinNibbles(HighNibble(x), LowNibble(x)) == x & 255 && HighNibble(x) <= 15 && LowNibble(x) <= 15
  {}

  lemma LowByteOfBits(b: byte)
    ensures LowByte(Bits(b)) == b && Bits(b) <= 255
  {
    NibbleThereAndBack(b / 16);
    NibbleThereAndBack(b % 16);
    SplitJoined(NibbleBits(b / 16), NibbleBits(b % 16));
  }

  lemma BitsOfLowByte(x: bv32)
    ensures Bits(LowByte(x)) == x & 255
  {
    JoinSplit(x);
    NibbleBackAndThere(HighNibble(x));
    NibbleBackAndThere(LowNibble(x));
  }

  /** `u32::to_le_bytes` and `u32::from_le_bytes` on the checksum. */
  function WordLe(x: bv32): (s: Bytes)
    ensures |s| == 4
  {
    [LowByte(x), LowByte(x >> 8), LowByte(x >> 16), LowByte(x >> 24)]
  }

  function Assemble(b0: bv32, b1: bv32, b2: bv32, b3: bv32): bv32 {
    b0 | (b1 << 8) | (b2 << 16) | (b3 << 24)
  }

  function WordAt(s: Bytes): bv32
    requires |s| == 4
  {
    Assemble(Bits(s[0]), Bits(s[1]), Bits(s[2]), Bits(s[3]))
  }

  lemma AssembleParts(x: bv32)
    ensures Assemble(x & 255, (x >> 8) & 255, (x >> 16) & 255, (x >> 24) & 255) == x
  {}

  lemma PartsOfAssembled(b0: bv32, b1: bv32, b2: bv32, b3: bv32)
    requires b0 <= 255 && b1 <= 255 && b2 <= 255 && b3 <= 255
    ensures var x := Assemble(b0, b1, b2, b3);
            x & 255 == b0 && (x >> 8) & 255 == b1 && (x >> 16) & 255 == b2 && (x >> 24) & 255 == b3
  {}

  lemma WordRoundTrip(x: bv32)
    ensures WordAt(WordLe(x)) == x
  {
    BitsOfLowByte(x);
    BitsOfLowByte(x >> 8);
    BitsOfLowByte(x >> 16);
    BitsOfLowByte(x >> 24);
    AssembleParts(x);
  }

  lemma AssembleInjective(a0: bv32, a1: bv32, a2: bv32, a3: bv32, b0: bv32, b1: bv32, b2: bv32, b3: bv32)
    requires a0 <= 255 && a1 <= 255 && a2 <= 255 && a3 <= 255 && b0 <= 255 && b1 <= 255 && b2 <= 255 && b3 <= 255
    requires Assemble(a0, a1, a2, a3) == Assemble(b0, b1, b2, b3)
    ensures a0 == b0 && a1 == b1 && a2 == b2 && a3 == b3
  {
    hide Assemble;
    PartsOfAssembled(a0, a1, a2, a3);
    PartsOfAssembled(b0, b1, b2, b3);
  }

  lemma BitsInjective(b: byte, d: byte)
    requires Bits(b) == Bits(d)
    ensures b == d
  {
    hide Bits, LowByte;
    LowByteOfBits(b);
    LowByteOfBits(d);
  }

  lemma BitsBound(b: byte)
    ensures Bits(b) <= 255
  {
    hide Bits, LowByte;
    LowByteOfBits(b);
  }

  /** The four bytes are recovered from the word, so different stored checksums read differently. */
  lemma WordInjective(s: Bytes, t: Bytes)
    requires |s| == |t| == 4 && WordAt(s) == WordAt(t)
    ensures s == t
  {
    hide Bits, Assemble;
    BitsBound(s[0]); BitsBound(s[1]); BitsBound(s[2]); BitsBound(s[3]);
    BitsBound(t[0]); BitsBound(t[1]); BitsBound(t[2]); BitsBound(t[3]);
    AssembleInjective(Bits(s[0]), Bits(s[1]), Bits(s[2]), Bits(s[3]), Bits(t[0]), Bits(t[1]), Bits(t[2]), Bits(t[3]));
    BitsInjective(s[0], t[0]);
    BitsInjective(s[1], t[1]);
    BitsInjective(s[2], t[2]);
    BitsInjective(s[3], t[3]);
  }

  // ----- RFC 1952, section 8 -----

  /** One turn of the inner loop of the RFC's `make_crc_table`. */
  function BitStep(c: bv32): bv32 {
    if c & 1 == 1 then POLYNOMIAL ^ (c >> 1) else c >> 1
  }

  function BitSteps(c: bv32, k: nat): bv32
    decreases k
  {
    if k == 0 then c else BitStep(BitSteps(c, k - 1))
  }

  /** Entry `n` of the RFC's table. */
  function TableEntry(n: bv32): bv32 {
    BitSteps(n, 8)
  }

  function Xor(a: bv32, b: bv32): bv32 { a ^ b }
  function Low8(x: bv32): bv32 { x & 255 }
  function Drop8(x: bv32): bv32 { x >> 8 }
  function Raise8(x: bv32): bv32 { x << 8 }

  /** The RFC's `update_crc` for one byte. */
  function UpdateByte(c: bv32, b: byte): bv32 {
    Xor(TableEntry(Low8(Xor(c, Bits(b)))), Drop8(c))
  }

  function Update(c: bv32, s: Bytes): bv32
    decreases s
  {
    if s == [] then c else UpdateByte(Update(c, s[..|s| - 1]), s[|s| - 1])
  }

  /** The RFC's `crc`. */
  function Crc(s: Bytes): bv32 {
    Xor(Update(ALL_ONES, s), ALL_ONES)
  }

  // ----- the bit step is linear and injective -----

  lemma LowBit(a: bv32)
    ensures a & 1 == 0 || a & 1 == 1
  {}

  lemma RawBitStepLinear(a: bv32, b: bv32)
    ensures BitStep(a ^ b) == BitStep(a) ^ BitStep(b)
  {
    assert (a ^ b) >> 1 == (a >> 1) ^ (b >> 1);
    assert (a ^ b) & 1 == (a & 1) ^ (b & 1);
    LowBit(a);
    LowBit(b);
    if a & 1 == 1 {
      if b & 1 == 1 {} else {}
    } else {
      if b & 1 == 1 {} else {}
    }
  }

  lemma BitStepLinear(a: bv32, b: bv32)
    ensures BitStep(Xor(a, b)) == Xor(BitStep(a), BitStep(b))
  {
    RawBitStepLinear(a, b);
  }

  lemma BitStepInjective(a: bv32, b: bv32)
    requires BitStep(a) == BitStep(b)
    ensures a == b
  {}

  lemma {:induction false} BitStepsLinear(a: bv32, b: bv32, k: nat)
    ensures BitSteps(Xor(a, b), k) == Xor(BitSteps(a, k), BitSteps(b, k))
    decreases k
  {
    if k > 0 {
      BitStepsLinear(a, b, k - 1);
      BitStepLinear(BitSteps(a, k - 1), BitSteps(b, k - 1));
    }
  }

  lemma {:induction false} BitStepsInjective(a: bv32, b: bv32, k: nat)
    requires BitSteps(a, k) == BitSteps(b, k)
    ensures a == b
    decreases k
  {
    if k > 0 {
      BitStepInjective(BitSteps(a, k - 1), BitSteps(b, k - 1));
      BitStepsInjective(a, b, k - 1);
    }
  }

  lemma {:induction false} BitStepsCompose(a: bv32, j: nat, k: nat)
    ensures BitSteps(BitSteps(a, j), k) == BitSteps(a, j + k)
    decreases k
  {
    if k > 0 {
      BitStepsCompose(a, j, k - 1);
    }
  }

  lemma BitStepShift(a: bv32)
    requires a <= 0x7FFF_FFFF
    ensures BitStep(a << 1) == a
  {}

  function Double(a: bv32): bv32 { a << 1 }

  lemma ShiftByEight(a: bv32)
    ensures Raise8(a) == Double(Double(Double(Double(Double(Double(Double(Double(a))))))))
  {}

  lemma DoubleStays(a: bv32, bound: bv32)
    requires a <= bound <= 0x7FFF_FFFF
    ensures Double(a) <= Double(bound) && BitStep(Double(a)) == a
  {
    BitStepShift(a);
  }

  /** Eight steps push eight zero bits out again. */
  lemma EightStepsUndoShift(a: bv32)
    requires a <= 0x00FF_FFFF
    ensures BitSteps(Raise8(a), 8) == a
  {
    var a1 := Double(a);  DoubleStays(a, 0x00FF_FFFF);
    var a2 := Double(a1); DoubleStays(a1, 0x01FF_FFFE);
    var a3 := Double(a2); DoubleStays(a2, 0x03FF_FFFC);
    var a4 := Double(a3); DoubleStays(a3, 0x07FF_FFF8);
    var a5 := Double(a4); DoubleStays(a4, 0x0FFF_FFF0);
    var a6 := Double(a5); DoubleStays(a5, 0x1FFF_FFE0);
    var a7 := Double(a6); DoubleStays(a6, 0x3FFF_FFC0);
    var a8 := Double(a7); DoubleStays(a7, 0x7FFF_FF80);
    ShiftByEight(a);
    assert BitSteps(a8, 0) == a8;
    assert BitSteps(a8, 1) == a7;
    assert BitSteps(a8, 2) == a6;
    assert BitSteps(a8, 3) == a5;
    assert BitSteps(a8, 4) == a4;
    assert BitSteps(a8, 5) == a3;
    assert BitSteps(a8, 6) == a2;
    assert BitSteps(a8, 7) == a1;
    assert BitSteps(a8, 8) == a;
  }

  /** The table step and the eight bit steps of the log's loop are the same function. */
  lemma UpdateByteIsEightSteps(c: bv32, b: byte)
    ensures UpdateByte(c, b) == BitSteps(Xor(c, Bits(b)), 8)
  {
    LowByteOfBits(b);
    TableStep(c, Bits(b));
  }

  lemma TableStep(c: bv32, d: bv32)
    requires d <= 255
    ensures Xor(TableEntry(Low8(Xor(c, d))), Drop8(c)) == BitSteps(Xor(c, d), 8)
  {
    var x := Xor(c, d);
    TopPart(c, d);
    TwoParts(x);
    BitStepsLinear(Low8(x), Raise8(Drop8(x)), 8);
    EightStepsUndoShift(Drop8(x));
  }

  lemma TopPart(c: bv32, d: bv32)
    requires d <= 255
    ensures Drop8(Xor(c, d)) == Drop8(c)
  {}

  lemma TwoParts(x: bv32)
    ensures Xor(Low8(x), Raise8(Drop8(x))) == x
    ensures Drop8(x) <= 0x00FF_FFFF
  {}

  // ----- the numbers of CRC-32 -----

  /** Entry 128 of the RFC's table is the reflected polynomial itself. */
  lemma PolynomialInTable()
    ensures TableEntry(0x80) == 0xEDB8_8320
  {}

  lemma OneByte(c: bv32, b: byte, x: bv32, t: bv32, e: bv32, d: bv32)
    requires Bits(b) == x && Low8(Xor(c, x)) == t && TableEntry(t) == e && Xor(e, Drop8(c)) == d
    ensures UpdateByte(c, b) == d
  {
    hide Bits, Low8, Xor, TableEntry, Drop8;
  }

  lemma FirstBytes()
    ensures UpdateByte(0xFFFF_FFFF, 1) == 0x5AFA_20E4 && UpdateByte(0x5AFA_20E4, 0) == 0xA73D_DC41
  {
    OneByte(0xFFFF_FFFF, 1, 0x01, 0xFE, 0x5A05_DF1B, 0x5AFA_20E4);
    OneByte(0x5AFA_20E4, 0, 0x00, 0xE4, 0xA767_2661, 0xA73D_DC41);
  }

  lemma NextBytes()
    ensures UpdateByte(0xA73D_DC41, 0) == 0x017C_4CDA && UpdateByte(0x017C_4CDA, 0) == 0x6607_4786
  {
    OneByte(0xA73D_DC41, 0, 0x00, 0x41, 0x01DB_7106, 0x017C_4CDA);
    OneByte(0x017C_4CDA, 0, 0x00, 0xDA, 0x6606_3BCA, 0x6607_4786);
  }

  lemma LastByte()
    ensures UpdateByte(0x6607_4786, 65) == 0x0566_5054
  {
    OneByte(0x6607_4786, 65, 0x41, 0xC7, 0x0500_5713, 0x0566_5054);
  }

  lemma ByteAfter(s: Bytes, b: byte)
    ensures Update(ALL_ONES, s + [b]) == UpdateByte(Update(ALL_ONES, s), b)
  {
    hide UpdateByte;
    assert (s + [b])[..|s|] == s;
  }

  /** The checksum of the one-byte payload `A` behind its length, as a number. */
  lemma KnownChecksum()
    ensures Crc([1, 0, 0, 0, 65]) == 0xFA99_AFAB
  {
    hide UpdateByte;
    FirstBytes();
    NextBytes();
    LastByte();
    ByteAfter([], 1);
    ByteAfter([1], 0);
    ByteAfter([1, 0], 0);
    ByteAfter([1, 0, 0], 0);
    ByteAfter([1, 0, 0, 0], 65);
    assert [] + [1] == [1] && [1] + [0] == [1, 0] && [1, 0] + [0] == [1, 0, 0];
    assert [1, 0, 0] + [0] == [1, 0, 0, 0] && [1, 0, 0, 0] + [65] == [1, 0, 0, 0, 65];
  }

  // ----- the log's own loop -----

  /** The body of the inner loop. */
  function MaskedStep(c: bv32): bv32 {
    var mask := !(c & 1) + 1;
    (c >> 1) ^ (POLYNOMIAL & mask)
  }

  /** The mask trick of the inner loop selects the polynomial exactly when the low bit is set. */
  lemma MaskSelects(c: bv32)
    ensures MaskedStep(c) == BitStep(c)
  {
    LowBit(c);
    if c & 1 == 1 {
    } else {
      assert !(c & 1) + 1 == 0;
    }
  }

  lemma ComplementIsXor(c: bv32)
    ensures !c == Xor(c, ALL_ONES)
  {}

  method ComputeCrc32(len: u32, payload: Bytes) returns (r: bv32)
    ensures r == Crc(U32Le(len) + payload)
  {
    hide Xor, Bits, BitStep, MaskedStep, UpdateByte, ToLe;
    var crc: bv32 := ALL_ONES;
    var bytes := U32Le(len) + payload;
    for i := 0 to |bytes|
      invariant crc == Update(ALL_ONES, bytes[..i])
    {
      ghost var before := crc;
      crc := Xor(crc, Bits(bytes[i]));
      for k := 0 to 8
        invariant crc == BitSteps(Xor(before, Bits(bytes[i])), k)
      {
        MaskSelects(crc);
        crc := MaskedStep(crc);
      }
      UpdateByteIsEightSteps(before, bytes[i]);
      assert bytes[..i + 1][..i] == bytes[..i];
    }
    assert bytes[..|bytes|] == bytes;
    ComplementIsXor(crc);
    r := !crc;
  }

  // ----- burst detection -----

  lemma {:induction false} UpdateConcat(c: bv32, s: Bytes, t: Bytes)
    ensures Update(c, s + t) == Update(Update(c, s), t)
    decreases t
  {
    if t == [] {
      assert s + t == s;
    } else {
      UpdateConcat(c, s, t[..|t| - 1]);
      assert (s + t)[..|s + t| - 1] == s + t[..|t| - 1];
    }
  }

  /** Reading the same bytes never merges two different states. */
  lemma {:induction false} UpdateInjective(c: bv32, d: bv32, s: Bytes)
    requires Update(c, s) == Update(d, s)
    ensures c == d
    decreases s
  {
    if s != [] {
      var front, last := s[..|s| - 1], s[|s| - 1];
      var c', d' := Update(c, front), Update(d, front);
      UpdateByteIsEightSteps(c', last);
      UpdateByteIsEightSteps(d', last);
      BitStepsInjective(Xor(c', Bits(last)), Xor(d', Bits(last)), 8);
      XorCancel(c', d', Bits(last));
      UpdateInjective(c, d, front);
    }
  }

  lemma XorCancel(a: bv32, b: bv32, x: bv32)
    requires Xor(a, x) == Xor(b, x)
    ensures a == b
  {}

  lemma XorCancelLeft(x: bv32, a: bv32, b: bv32)
    requires Xor(x, a) == Xor(x, b)
    ensures a == b
  {}

  lemma UpdateFirst(c: bv32, s: Bytes)
    requires s != []
    ensures Update(c, s) == Update(UpdateByte(c, s[0]), s[1..])
  {
    assert s == [s[0]] + s[1..];
    UpdateConcat(c, [s[0]], s[1..]);
    assert [s[0]][..0] == [];
    assert Update(c, []) == c;
  }

  // ----- the same bit by bit, in the order in which the CRC takes the bits -----

  function Halve(x: bv32): bv32 { x >> 1 }
  function Bit(b: bool): bv32 { if b then 1 else 0 }
  function LowestBit(x: bv32): bool { x & 1 == 1 }

  /** The `k` low-order bits of `x`, lowest first. */
  function LowBits(x: bv32, k: nat): (s: seq<bool>)
    ensures |s| == k
    decreases k
  {
    if k == 0 then [] else [LowestBit(x)] + LowBits(Halve(x), k - 1)
  }

  /** The bits of a byte string, each byte lowest bit first. */
  function BitStream(s: Bytes): (t: seq<bool>)
    ensures |t| == 8 * |s|
    decreases s
  {
    if s == [] then [] else LowBits(Bits(s[0]), 8) + BitStream(s[1..])
  }

  /** The word with the bits `s`, the first one lowest. */
  function Word(s: seq<bool>): bv32 {
    if s == [] then 0 else Xor(Bit(s[0]), Double(Word(s[1..])))
  }

  function Feed(c: bv32, s: seq<bool>): bv32
    decreases s
  {
    if s == [] then c else Feed(BitStep(Xor(c, Bit(s[0]))), s[1..])
  }

  lemma {:induction false} FeedConcat(c: bv32, s: seq<bool>, t: seq<bool>)
    ensures Feed(c, s + t) == Feed(Feed(c, s), t)
    decreases s
  {
    if s == [] {
      assert s + t == t;
    } else {
      FeedConcat(BitStep(Xor(c, Bit(s[0]))), s[1..], t);
      assert (s + t)[1..] == s[1..] + t;
    }
  }

  lemma {:induction false} FeedInjective(c: bv32, d: bv32, s: seq<bool>)
    requires Feed(c, s) == Feed(d, s)
    ensures c == d
    decreases s
  {
    if s != [] {
      var b := Bit(s[0]);
      FeedInjective(BitStep(Xor(c, b)), BitStep(Xor(d, b)), s[1..]);
      BitStepInjective(Xor(c, b), Xor(d, b));
      XorCancel(c, d, b);
    }
  }

  // ----- words of up to 32 bits -----

  /** 2 to the power `k`. */
  function Limit(k: nat): (p: bv32)
    requires k <= 31
    ensures p <= 0x8000_0000
    decreases 31 - k
  {
    if k == 31 then 0x8000_0000 else Halve(Limit(k + 1))
  }

  function Drop4(x: bv32): bv32 { x >> 4 }

  lemma LimitHalves(k: nat)
    requires k < 31
    ensures Limit(k) == Halve(Limit(k + 1))
  {
    hide Halve;
  }

  lemma HalvedFourTimes(x: bv32)
    ensures Halve(Halve(Halve(Halve(x)))) == Drop4(x)
  {}

  lemma FourHalves(k: nat)
    requires k <= 27
    ensures Limit(k) == Drop4(Limit(k + 4))
  {
    hide Halve, Drop4, Limit;
    HalvedFourTimes(Limit(k + 4));
    LimitHalves(k);
    LimitHalves(k + 1);
    LimitHalves(k + 2);
    LimitHalves(k + 3);
  }

  lemma LimitOfNothing()
    ensures Limit(0) == 1
  {
    FourHalves(27);
    FourHalves(23);
    FourHalves(19);
    FourHalves(15);
    FourHalves(11);
    FourHalves(7);
    FourHalves(3);
    LimitHalves(2);
    LimitHalves(1);
    LimitHalves(0);
  }

  /** `w` has no more than its `k` lowest bits. */
  predicate Fits(w: bv32, k: nat)
    requires k <= 31
  {
    w < Limit(k)
  }

  lemma NothingFits()
    ensures Fits(0, 0)
  {
    LimitOfNothing();
  }

  lemma BelowTop(b: bool, w: bv32, p: bv32)
    requires p <= 0x8000_0000 && w < Halve(p)
    ensures Xor(Bit(b), Double(w)) < p
  {}

  lemma OneMoreBit(b: bool, w: bv32, k: nat)
    requires k < 31 && Fits(w, k)
    ensures Fits(Xor(Bit(b), Double(w)), k + 1)
  {
    hide Xor, Double, Halve, Bit, Limit;
    LimitHalves(k);
    BelowTop(b, w, Limit(k + 1));
  }

  lemma {:induction false} WordFits(s: seq<bool>)
    requires |s| <= 31
    ensures Fits(Word(s), |s|)
  {
    hide Xor, Double, Bit, Fits;
    if s == [] {
      NothingFits();
    } else {
      WordFits(s[1..]);
      OneMoreBit(s[0], Word(s[1..]), |s| - 1);
    }
  }

  lemma FitsBelowTop(w: bv32, k: nat)
    requires k <= 31 && Fits(w, k)
    ensures w < 0x8000_0000
  {
    hide Limit;
  }

  lemma FirstBitApart(b: bool, d: bool, v: bv32, w: bv32)
    requires v < 0x8000_0000 && w < 0x8000_0000 && Xor(Bit(b), Double(v)) == Xor(Bit(d), Double(w))
    ensures b == d && v == w
  {
    assert (Bit(b) ^ (v << 1)) & 1 == Bit(b) && (Bit(d) ^ (w << 1)) & 1 == Bit(d);
  }

  lemma {:induction false} WordInjectiveOnBits(s: seq<bool>, t: seq<bool>)
    requires |s| == |t| <= 32 && Word(s) == Word(t)
    ensures s == t
  {
    hide Xor, Double, Bit, Fits;
    if s != [] {
      WordFits(s[1..]);
      FitsBelowTop(Word(s[1..]), |s| - 1);
      WordFits(t[1..]);
      FitsBelowTop(Word(t[1..]), |s| - 1);
      FirstBitApart(s[0], t[0], Word(s[1..]), Word(t[1..]));
      WordInjectiveOnBits(s[1..], t[1..]);
    }
  }

  lemma XorAssociates(a: bv32, b: bv32, c: bv32)
    ensures Xor(Xor(a, b), c) == Xor(a, Xor(b, c))
  {}

  /** Feeding up to 32 bits is xoring their word into the state, then one step for each of them. */
  lemma {:induction false} FeedIsWord(c: bv32, s: seq<bool>)
    requires |s| <= 32
    ensures Feed(c, s) == BitSteps(Xor(c, Word(s)), |s|)
    decreases s
  {
    hide Double, Bit, Fits, BitStep;
    if s == [] {
      assert Xor(c, 0) == c;
    } else {
      var b, w := Bit(s[0]), Word(s[1..]);
      FeedIsWord(BitStep(Xor(c, b)), s[1..]);
      WordFits(s[1..]);
      FitsBelowTop(w, |s| - 1);
      DoubleStays(w, 0x7FFF_FFFF);
      BitStepLinear(Xor(c, b), Double(w));
      XorAssociates(c, b, Double(w));
      BitStepsCompose(Xor(c, Word(s)), 1, |s| - 1);
      assert BitSteps(Xor(c, Word(s)), 1) == BitStep(BitSteps(Xor(c, Word(s)), 0));
    }
  }

  // ----- bytes are their bits -----

  predicate FitsBits(x: bv32, k: nat)
    decreases k
  {
    if k == 0 then x == 0 else FitsBits(Halve(x), k - 1)
  }

  lemma BytesFit(x: bv32)
    requires x <= 255
    ensures FitsBits(x, 8)
  {
    var x1 := Halve(x);  assert x1 <= 127;
    var x2 := Halve(x1); assert x2 <= 63;
    var x3 := Halve(x2); assert x3 <= 31;
    var x4 := Halve(x3); assert x4 <= 15;
    var x5 := Halve(x4); assert x5 <= 7;
    var x6 := Halve(x5); assert x6 <= 3;
    var x7 := Halve(x6); assert x7 <= 1;
    assert FitsBits(x7, 1);
    assert FitsBits(x6, 2);
    assert FitsBits(x5, 3);
    assert FitsBits(x4, 4);
    assert FitsBits(x3, 5);
    assert FitsBits(x2, 6);
    assert FitsBits(x1, 7);
  }

  function Doubled(w: bv32, k: nat): bv32
    decreases k
  {
    if k == 0 then w else Double(Doubled(w, k - 1))
  }

  function LowestPart(x: bv32): bv32 { x & 1 }

  lemma BitOfLowest(x: bv32)
    ensures Bit(LowestBit(x)) == LowestPart(x)
  {
    LowBit(x);
  }

  lemma LowestAndRest(x: bv32)
    ensures Xor(LowestPart(x), Double(Halve(x))) == x
  {
    assert (x >> 1) << 1 == x & 0xFFFF_FFFE;
  }

  lemma DoubleLinear(x: bv32, y: bv32)
    ensures Double(Xor(x, y)) == Xor(Double(x), Double(y))
  {}

  lemma PeelLowestBit(x: bv32, y: bv32)
    ensures Xor(Bit(LowestBit(x)), Double(Xor(Halve(x), y))) == Xor(x, Double(y))
  {
    hide Xor, Double, Halve, Bit, LowestBit, LowestPart;
    BitOfLowest(x);
    LowestAndRest(x);
    DoubleLinear(Halve(x), y);
    XorAssociates(Bit(LowestBit(x)), Double(Halve(x)), Double(y));
  }

  lemma {:induction false} WordOfLowBits(x: bv32, k: nat, rest: seq<bool>)
    requires FitsBits(x, k)
    ensures Word(LowBits(x, k) + rest) == Xor(x, Doubled(Word(rest), k))
    decreases k
  {
    if k == 0 {
      assert LowBits(x, k) + rest == rest;
      assert Xor(0, Word(rest)) == Word(rest);
    } else {
      WordOfLowBits(Halve(x), k - 1, rest);
      assert (LowBits(x, k) + rest)[1..] == LowBits(Halve(x), k - 1) + rest;
      PeelLowestBit(x, Doubled(Word(rest), k - 1));
    }
  }

  lemma DoubledByEight(w: bv32)
    ensures Doubled(w, 8) == Raise8(w)
  {
    assert Doubled(w, 2) == Double(Doubled(w, 1));
    assert Doubled(w, 4) == Double(Double(Doubled(w, 2)));
    assert Doubled(w, 6) == Double(Double(Doubled(w, 4)));
    assert Doubled(w, 8) == Double(Double(Doubled(w, 6)));
    ShiftByEight(w);
  }

  /** The word of a byte and what follows it. */
  lemma WordOfByte(b: byte, rest: seq<bool>)
    ensures Word(LowBits(Bits(b), 8) + rest) == Xor(Bits(b), Raise8(Word(rest)))
  {
    LowByteOfBits(b);
    BytesFit(Bits(b));
    WordOfLowBits(Bits(b), 8, rest);
    DoubledByEight(Word(rest));
  }

  lemma NothingRaised(x: bv32)
    ensures Xor(x, Raise8(0)) == x
  {}

  lemma UpdateByteIsFeed(c: bv32, b: byte)
    ensures UpdateByte(c, b) == Feed(c, LowBits(Bits(b), 8))
  {
    UpdateByteIsEightSteps(c, b);
    WordOfByte(b, []);
    NothingRaised(Bits(b));
    assert LowBits(Bits(b), 8) + [] == LowBits(Bits(b), 8);
    FeedIsWord(c, LowBits(Bits(b), 8));
  }

  lemma {:induction false} UpdateIsFeed(c: bv32, s: Bytes)
    ensures Update(c, s) == Feed(c, BitStream(s))
    decreases s
  {
    if s != [] {
      UpdateFirst(c, s);
      UpdateByteIsFeed(c, s[0]);
      UpdateIsFeed(UpdateByte(c, s[0]), s[1..]);
      FeedConcat(c, LowBits(Bits(s[0]), 8), BitStream(s[1..]));
    }
  }

  lemma {:induction false} BitStreamConcat(s: Bytes, t: Bytes)
    ensures BitStream(s + t) == BitStream(s) + BitStream(t)
    decreases s
  {
    hide LowBits, Bits;
    if s == [] {
      assert s + t == t;
    } else {
      BitStreamConcat(s[1..], t);
      assert (s + t)[1..] == s[1..] + t;
      var first := LowBits(Bits(s[0]), 8);
      assert first + (BitStream(s[1..]) + BitStream(t)) == first + BitStream(s[1..]) + BitStream(t);
    }
  }

  lemma ByteOfBits(b: byte, d: byte)
    requires LowBits(Bits(b), 8) == LowBits(Bits(d), 8)
    ensures b == d
  {
    WordOfByte(b, []);
    WordOfByte(d, []);
    NothingRaised(Bits(b));
    NothingRaised(Bits(d));
    LowByteOfBits(b);
    LowByteOfBits(d);
  }

  lemma {:induction false} BitStreamInjective(s: Bytes, t: Bytes)
    requires |s| == |t| && BitStream(s) == BitStream(t)
    ensures s == t
  {
    if s != [] {
      assert LowBits(Bits(s[0]), 8) == BitStream(s)[..8] == BitStream(t)[..8] == LowBits(Bits(t[0]), 8);
      assert BitStream(s[1..]) == BitStream(s)[8..] == BitStream(t)[8..] == BitStream(t[1..]);
      ByteOfBits(s[0], t[0]);
      BitStreamInjective(s[1..], t[1..]);
    }
  }

  // ----- burst detection -----

  /** Different, of equal length, and equal outside some 32 consecutive bits, wherever they begin. */
  ghost predicate DifferInBurst(s: Bytes, t: Bytes) {
    |s| == |t| && s != t && exists p, q :: BurstSpan(BitStream(s), BitStream(t), p, q)
  }

  ghost predicate BurstSpan(s: seq<bool>, t: seq<bool>, p: nat, q: nat) {
    p <= q <= |s| == |t| && q - p <= 32 && s[..p] == t[..p] && s[q..] == t[q..]
  }

  lemma ThreePieces(s: seq<bool>, p: nat, q: nat)
    requires p <= q <= |s|
    ensures s == s[..p] + s[p..q] + s[q..]
  {}

  lemma FeedTellsApart(c: bv32, s: seq<bool>, t: seq<bool>, p: nat, q: nat)
    requires BurstSpan(s, t, p, q) && Feed(c, s) == Feed(c, t)
    ensures s == t
  {
    hide Feed, Word, BitSteps, Xor;
    ThreePieces(s, p, q);
    ThreePieces(t, p, q);
    FeedConcat(c, s[..p] + s[p..q], s[q..]);
    FeedConcat(c, t[..p] + t[p..q], t[q..]);
    FeedConcat(c, s[..p], s[p..q]);
    FeedConcat(c, t[..p], t[p..q]);
    var c' := Feed(c, s[..p]);
    FeedInjective(Feed(c', s[p..q]), Feed(c', t[p..q]), s[q..]);
    FeedIsWord(c', s[p..q]);
    FeedIsWord(c', t[p..q]);
    BitStepsInjective(Xor(c', Word(s[p..q])), Xor(c', Word(t[p..q])), q - p);
    XorCancelLeft(c', Word(s[p..q]), Word(t[p..q]));
    WordInjectiveOnBits(s[p..q], t[p..q]);
  }

  lemma UpdateTellsApart(c: bv32, s: Bytes, t: Bytes)
    requires DifferInBurst(s, t)
    ensures Update(c, s) != Update(c, t)
  {
    var p: nat, q: nat :| BurstSpan(BitStream(s), BitStream(t), p, q);
    UpdateIsFeed(c, s);
    UpdateIsFeed(c, t);
    if Update(c, s) == Update(c, t) {
      FeedTellsApart(c, BitStream(s), BitStream(t), p, q);
      BitStreamInjective(s, t);
    }
  }

  /** Every burst is caught: inputs of equal length that differ, but only within 32 consecutive bits,
      never share a checksum. */
  lemma BurstDetected(s: Bytes, t: Bytes)
    requires DifferInBurst(s, t)
    ensures Crc(s) != Crc(t)
  {
    UpdateTellsApart(ALL_ONES, s, t);
    if Crc(s) == Crc(t) {
      XorCancel(Update(ALL_ONES, s), Update(ALL_ONES, t), ALL_ONES);
    }
  }

  lemma SpanInContext(h: seq<bool>, s: seq<bool>, t: seq<bool>, p: nat, q: nat)
    requires BurstSpan(s, t, p, q)
    ensures BurstSpan(h + s, h + t, |h| + p, |h| + q)
  {
    assert (h + s)[..|h| + p] == h + s[..p] && (h + t)[..|h| + p] == h + t[..p];
    assert (h + s)[|h| + q..] == s[q..] && (h + t)[|h| + q..] == t[q..];
  }

  lemma BurstInContext(prefix: Bytes, s: Bytes, t: Bytes)
    requires DifferInBurst(s, t)
    ensures DifferInBurst(prefix + s, prefix + t)
  {
    hide BitStream, BurstSpan;
    var p: nat, q: nat :| BurstSpan(BitStream(s), BitStream(t), p, q);
    BitStreamConcat(prefix, s);
    BitStreamConcat(prefix, t);
    SpanInContext(BitStream(prefix), BitStream(s), BitStream(t), p, q);
    assert (prefix + s)[|prefix|..] == s && (prefix + t)[|prefix|..] == t;
  }

  /** Up to four consecutive bytes are such a burst. */
  lemma FourBytesAreBurst(s: Bytes, t: Bytes, i: nat, j: nat)
    requires |s| == |t| && s != t && i <= j <= |s| && j - i <= 4 && s[..i] == t[..i] && s[j..] == t[j..]
    ensures DifferInBurst(s, t)
  {
    assert s == s[..i] + s[i..] && t == t[..i] + t[i..] && s == s[..j] + s[j..] && t == t[..j] + t[j..];
    BitStreamConcat(s[..i], s[i..]);
    BitStreamConcat(t[..i], t[i..]);
    BitStreamConcat(s[..j], s[j..]);
    BitStreamConcat(t[..j], t[j..]);
    assert BurstSpan(BitStream(s), BitStream(t), 8 * i, 8 * j);
  }

  // ----- a string with its checksum behind it -----

  const RESIDUE: bv32 := 0xDEBB_20E3

  lemma EightSteps()
    ensures BitSteps(0xFFFF_FFFF, 8) == 0x2DFD_1072 && BitSteps(0x2DFD_1072, 8) == 0xBE26_ED00
    ensures BitSteps(0xBE26_ED00, 8) == 0x00BE_26ED && BitSteps(0x00BE_26ED, 8) == 0xDEBB_20E3
  {}

  /** The residue is what 32 steps make of the state that a matching checksum leads to. */
  lemma ResidueIsReached()
    ensures BitSteps(ALL_ONES, 32) == RESIDUE
  {
    EightSteps();
    BitStepsCompose(ALL_ONES, 8, 8);
    BitStepsCompose(ALL_ONES, 16, 8);
    BitStepsCompose(ALL_ONES, 24, 8);
  }

  lemma AssembleIsNested(b0: bv32, b1: bv32, b2: bv32, b3: bv32)
    requires b0 <= 255 && b1 <= 255 && b2 <= 255 && b3 <= 255
    ensures Xor(b0, Raise8(Xor(b1, Raise8(Xor(b2, Raise8(Xor(b3, Raise8(0)))))))) == Assemble(b0, b1, b2, b3)
  {}

  lemma WordOfFourBytes(s: Bytes)
    requires |s| == 4
    ensures Word(BitStream(s)) == WordAt(s)
  {
    hide Bits, LowBits, Xor, Raise8, Assemble;
    assert BitStream(s[4..]) == [];
    assert s[1..][1..] == s[2..] && s[2..][1..] == s[3..] && s[3..][1..] == s[4..];
    WordOfByte(s[0], BitStream(s[1..]));
    WordOfByte(s[1], BitStream(s[2..]));
    WordOfByte(s[2], BitStream(s[3..]));
    WordOfByte(s[3], BitStream(s[4..]));
    BitsBound(s[0]);
    BitsBound(s[1]);
    BitsBound(s[2]);
    BitsBound(s[3]);
    AssembleIsNested(Bits(s[0]), Bits(s[1]), Bits(s[2]), Bits(s[3]));
  }

  lemma XorTwice(c: bv32, w: bv32)
    ensures Xor(c, Xor(c, w)) == w
  {}

  lemma ResidueIsAllOnes(c: bv32, w: bv32)
    ensures Xor(c, w) == ALL_ONES <==> w == Xor(c, ALL_ONES)
  {
    hide Xor;
    XorTwice(c, w);
    XorTwice(c, ALL_ONES);
  }

  /** A stored checksum matches exactly when running on over its four bytes ends in the residue. */
  lemma ChecksumIsResidue(s: Bytes, stored: Bytes)
    requires |stored| == 4
    ensures WordAt(stored) == Crc(s) <==> Update(0xFFFF_FFFF, s + stored) == 0xDEBB_20E3
  {
    hide Bits, Assemble, Xor, Word, Feed, BitStep;
    ResidueIsReached();
    var c, w := Update(ALL_ONES, s), WordAt(stored);
    UpdateConcat(ALL_ONES, s, stored);
    UpdateIsFeed(c, stored);
    WordOfFourBytes(stored);
    FeedIsWord(c, BitStream(stored));
    assert Update(ALL_ONES, s + stored) == BitSteps(Xor(c, w), 32);
    ResidueIsAllOnes(c, w);
    if BitSteps(Xor(c, w), 32) == RESIDUE {
      BitStepsInjective(Xor(c, w), ALL_ONES, 32);
    }
  }
}
