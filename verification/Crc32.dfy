/** The table-driven CRC-32 (src/CRC32.cpp). A word is its bits, the lowest first. */
module Crc32 {
  import opened Machine

  type Bits = seq<bool>
  type Word = w: Bits | |w| == 32 witness seq(32, _ => false)
  type Byte = w: Bits | |w| == 8 witness seq(8, _ => false)

  function ToBits(n: nat, w: nat): (r: Bits)
    ensures |r| == w
  {
    if w == 0 then [] else [n % 2 == 1] + ToBits(n / 2, w - 1)
  }

  function Value(b: Bits): (n: nat)
    ensures n < Pow2(|b|)
  {
    if b == [] then 0 else (if b[0] then 1 else 0) + 2 * Value(b[1..])
  }

  lemma {:induction false} ValueOfBits(n: nat, w: nat)
    requires n < Pow2(w)
    ensures Value(ToBits(n, w)) == n
  {
    if w > 0 {
      ValueOfBits(n / 2, w - 1);
      assert ToBits(n, w)[1..] == ToBits(n / 2, w - 1);
    }
  }

  lemma {:induction false} BitsOfValue(b: Bits)
    ensures ToBits(Value(b), |b|) == b
  {
    if b != [] {
      BitsOfValue(b[1..]);
      assert Value(b) / 2 == Value(b[1..]);
    }
  }

  function Zeros(n: nat): Bits {
    seq(n, _ => false)
  }

  function Xor(a: Bits, b: Bits): (r: Bits)
    requires |a| == |b|
    ensures |r| == |a|
  {
    seq(|a|, i requires 0 <= i < |a| == |b| => a[i] != b[i])
  }

  function Reverse(a: Bits): (r: Bits)
    ensures |r| == |a|
  {
    seq(|a|, i requires 0 <= i < |a| => a[|a| - 1 - i])
  }

  /** Shifts towards the high and the low end. */
  function Up(a: Word): Word {
    [false] + a[..31]
  }

  function Down(a: Word): Word {
    a[1..] + [false]
  }

  function Polynomial(): Word {
    ToBits(0x04C1_1DB7, 32)
  }

  /** The polynomial of section 8 of RFC 1952, bit-reversed. */
  function ReflectedPolynomial(): Word {
    ToBits(0xEDB8_8320, 32)
  }

  /** One step of the table construction: shift up, and subtract the polynomial when a bit drops out. */
  function UpStep(a: Word): Word {
    if a[31] then Xor(Up(a), Polynomial()) else Up(a)
  }

  /** One bit of the reflected CRC. */
  function BitStep(a: Word): Word {
    if a[0] then Xor(Down(a), ReflectedPolynomial()) else Down(a)
  }

  function UpSteps(a: Word, n: nat): Word {
    if n == 0 then a else UpStep(UpSteps(a, n - 1))
  }

  function BitSteps(a: Word, n: nat): Word {
    if n == 0 then a else BitStep(BitSteps(a, n - 1))
  }

  /** The bits of a hexadecimal digit. */
  function Four(d: nat): Bits {
    [d % 2 == 1, d / 2 % 2 == 1, d / 4 % 2 == 1, d / 8 % 2 == 1]
  }

  lemma TakeBit(m: nat, r: nat, w: nat)
    requires w > 0
    ensures ToBits(2 * m + r, w) == [r % 2 == 1] + ToBits(m + r / 2, w - 1)
  {
    assert (2 * m + r) % 2 == r % 2 && (2 * m + r) / 2 == m + r / 2;
  }

  lemma Nibble(q: nat, d: nat, w: nat)
    requires d < 16 && w >= 4
    ensures ToBits(16 * q + d, w) == Four(d) + ToBits(q, w - 4)
  {
    hide ToBits;
    TakeBit(8 * q, d, w);
    TakeBit(4 * q, d / 2, w - 1);
    TakeBit(2 * q, d / 4, w - 2);
    TakeBit(q, d / 8, w - 3);
  }

  lemma PolynomialDigits()
    ensures Polynomial() == Four(0x7) + Four(0xB) + Four(0xD) + Four(0x1) + Four(0x1) + Four(0xC) + Four(0x4) + Four(0x0)
  {
    hide ToBits, Four;
    Nibble(0x4C11DB, 0x7, 32);
    Nibble(0x4C11D, 0xB, 28);
    Nibble(0x4C11, 0xD, 24);
    Nibble(0x4C1, 0x1, 20);
    Nibble(0x4C, 0x1, 16);
    Nibble(0x4, 0xC, 12);
    Nibble(0x0, 0x4, 8);
    Nibble(0x0, 0x0, 4);
    NoBits();
  }

  lemma ReflectedDigits()
    ensures ReflectedPolynomial() == Four(0x0) + Four(0x2) + Four(0x3) + Four(0x8) + Four(0x8) + Four(0xB) + Four(0xD) + Four(0xE)
  {
    hide ToBits, Four;
    Nibble(0xEDB8832, 0x0, 32);
    Nibble(0xEDB883, 0x2, 28);
    Nibble(0xEDB88, 0x3, 24);
    Nibble(0xEDB8, 0x8, 20);
    Nibble(0xEDB, 0x8, 16);
    Nibble(0xED, 0xB, 12);
    Nibble(0xE, 0xD, 8);
    Nibble(0x0, 0xE, 4);
    NoBits();
  }

  lemma NoBits()
    ensures ToBits(0, 0) == []
  {
  }

  lemma ReverseAppend(a: Bits, b: Bits)
    ensures Reverse(a + b) == Reverse(b) + Reverse(a)
  {
  }

  lemma ReverseFour(d: nat)
    requires d < 16
    ensures Reverse(Four(d)) == Four(d % 2 * 8 + d / 2 % 2 * 4 + d / 4 % 2 * 2 + d / 8)
  {
  }

  /** The two polynomials are each other's mirror image. */
  lemma PolynomialsMirror()
    ensures Reverse(Polynomial()) == ReflectedPolynomial()
  {
    hide Polynomial, ReflectedPolynomial, Reverse, Four;
    PolynomialDigits();
    ReflectedDigits();
    ReverseAppend(Four(0x7), Four(0xB));
    ReverseAppend(Four(0x7) + Four(0xB), Four(0xD));
    ReverseAppend(Four(0x7) + Four(0xB) + Four(0xD), Four(0x1));
    ReverseAppend(Four(0x7) + Four(0xB) + Four(0xD) + Four(0x1), Four(0x1));
    ReverseAppend(Four(0x7) + Four(0xB) + Four(0xD) + Four(0x1) + Four(0x1), Four(0xC));
    ReverseAppend(Four(0x7) + Four(0xB) + Four(0xD) + Four(0x1) + Four(0x1) + Four(0xC), Four(0x4));
    ReverseAppend(Four(0x7) + Four(0xB) + Four(0xD) + Four(0x1) + Four(0x1) + Four(0xC) + Four(0x4), Four(0x0));
    ReverseFour(0x0);
    ReverseFour(0x1);
    ReverseFour(0x4);
    ReverseFour(0x7);
    ReverseFour(0xB);
    ReverseFour(0xC);
    ReverseFour(0xD);
  }

  lemma StepsMirror(a: Word)
    ensures Reverse(UpStep(a)) == BitStep(Reverse(a))
  {
    hide Polynomial, ReflectedPolynomial;
    PolynomialsMirror();
  }

  /** The construction on reflected words is the reflection of the construction. */
  lemma {:induction false} UpStepsMirror(a: Word, n: nat)
    ensures Reverse(UpSteps(a, n)) == BitSteps(Reverse(a), n)
  {
    hide UpStep, BitStep, Reverse;
    if n > 0 {
      UpStepsMirror(a, n - 1);
      StepsMirror(UpSteps(a, n - 1));
    }
  }

  // ---- eight steps at once

  lemma StepIsLinear(a: Word, b: Word)
    ensures BitStep(Xor(a, b)) == Xor(BitStep(a), BitStep(b))
  {
    hide ReflectedPolynomial;
  }

  lemma {:induction false} StepsAreLinear(a: Word, b: Word, n: nat)
    ensures BitSteps(Xor(a, b), n) == Xor(BitSteps(a, n), BitSteps(b, n))
  {
    hide BitStep, Xor;
    if n > 0 {
      StepsAreLinear(a, b, n - 1);
      StepIsLinear(BitSteps(a, n - 1), BitSteps(b, n - 1));
    }
  }

  /** As long as zeros drop out the steps only shift. */
  lemma {:induction false} StepsOverZeros(a: Word, n: nat)
    requires n <= 32 && forall i :: 0 <= i < n ==> !a[i]
    ensures BitSteps(a, n) == a[n..] + Zeros(n)
  {
    hide ReflectedPolynomial;
    if n > 0 {
      StepsOverZeros(a, n - 1);
      assert BitSteps(a, n - 1)[0] == a[n - 1];
    }
  }

  /** A byte into the CRC, bit by bit (section 8 of RFC 1952). */
  function ByteStep(crc: Word, byte: Byte): Word {
    BitSteps(Xor(crc, byte + Zeros(24)), 8)
  }

  /** What a table entry stands for: a byte run through an empty CRC. */
  function Entry(byte: Byte): Word {
    BitSteps(byte + Zeros(24), 8)
  }

  function TableStep(crc: Word, byte: Byte): Word {
    Xor(crc[8..] + Zeros(8), Entry(Xor(crc[..8], byte)))
  }

  /** One table lookup does what eight bit steps do. */
  lemma LookupIsByteStep(crc: Word, byte: Byte)
    ensures TableStep(crc, byte) == ByteStep(crc, byte)
  {
    hide BitSteps;
    var high: Word := Zeros(8) + crc[8..];
    var low: Word := Xor(crc[..8], byte) + Zeros(24);
    assert Xor(crc, byte + Zeros(24)) == Xor(high, low);
    StepsAreLinear(high, low, 8);
    StepsOverZeros(high, 8);
    assert high[8..] == crc[8..];
  }

  /** The table, built with the forward polynomial between two reflections, holds these entries. */
  lemma TableIsEntries(byte: Byte)
    ensures Reverse(UpSteps(Zeros(24) + Reverse(byte), 8)) == Entry(byte)
  {
    hide UpSteps, BitSteps;
    UpStepsMirror(Zeros(24) + Reverse(byte), 8);
    assert Reverse(Zeros(24) + Reverse(byte)) == byte + Zeros(24);
  }

  // ---- the checksum of a string

  function Not(a: Word): Word {
    seq(32, i requires 0 <= i < 32 => !a[i])
  }

  function Fold(data: seq<u8>, crc: Word): Word {
    if data == [] then crc else ByteStep(Fold(data[..|data| - 1], crc), ToBits(data[|data| - 1], 8))
  }

  /** The CRC-32 of RFC 1952, going on from an earlier one. */
  function Crc(data: seq<u8>, start: Word): Word {
    Not(Fold(data, Not(start)))
  }

  lemma {:induction false} FoldAppends(a: seq<u8>, b: seq<u8>, crc: Word)
    ensures Fold(a + b, crc) == Fold(b, Fold(a, crc))
  {
    if b == [] {
      assert a + b == a;
    } else {
      hide ByteStep;
      var k := |b| - 1;
      assert (a + b)[..|a + b| - 1] == a + b[..k];
      FoldAppends(a, b[..k], crc);
    }
  }

  /** The checksum of a concatenation goes on from the checksum of its first part. */
  lemma CrcAppends(a: seq<u8>, b: seq<u8>, start: Word)
    ensures Crc(a + b, start) == Crc(b, Crc(a, start))
  {
    FoldAppends(a, b, Not(start));
    assert Not(Not(Fold(a, Not(start)))) == Fold(a, Not(start));
  }

  // ---- the program

  /** _reflect: the low ch bits mirrored. */
  method Reflect(value: Word, ch: nat) returns (mirrored: Word)
    requires ch <= 32
    ensures mirrored == Reverse(value[..ch]) + Zeros(32 - ch)
  {
    var refl := value;
    mirrored := Zeros(32);
    for i := 1 to ch + 1
      invariant refl == value[i - 1..] + Zeros(i - 1)
      invariant forall j :: 0 <= j < 32 ==> mirrored[j] == (ch - i < j < ch && value[ch - 1 - j])
    {
      if refl[0] {
        mirrored := mirrored[ch - i := true];
      }
      refl := Down(refl);
    }
  }

  method GetCRC32Table() returns (table: seq<Word>)
    ensures |table| == 0x100 && forall i :: 0 <= i < 0x100 ==> table[i] == Entry(ToBits(i, 8))
  {
    hide Entry, UpSteps, UpStep, ToBits;
    table := [];
    for i := 0 to 0x100
      invariant |table| == i && forall k :: 0 <= k < i ==> table[k] == Entry(ToBits(k, 8))
    {
      var word: Word := ToBits(i, 8) + Zeros(24);
      var entry := Reflect(word, 8);
      entry := Zeros(24) + entry[..8];
      ghost var first := entry;
      assert word[..8] == ToBits(i, 8);
      assert first == Zeros(24) + Reverse(ToBits(i, 8));
      NoSteps(first);
      for j := 0 to 8
        invariant entry == UpSteps(first, j)
      {
        OneMoreStep(first, j);
        entry := UpStep(entry);
      }
      TableIsEntries(ToBits(i, 8));
      entry := Reflect(entry, 32);
      AllReversed(UpSteps(first, 8), entry);
      table := table + [entry];
    }
  }

  lemma NoSteps(a: Word)
    ensures UpSteps(a, 0) == a
  {
  }

  lemma OneMoreStep(a: Word, n: nat)
    ensures UpSteps(a, n + 1) == UpStep(UpSteps(a, n))
  {
  }

  lemma AllReversed(a: Word, r: Word)
    requires r == Reverse(a[..32]) + Zeros(0)
    ensures r == Reverse(a)
  {
    assert a[..32] == a;
  }

  lemma IndexOfByte(b: Byte)
    ensures Value(b) < 0x100 && ToBits(Value(b), 8) == b
  {
    BitsOfValue(b);
    assert Pow2(8) == 0x100;
  }

  /** Byte by byte through the table. */
  method CRC32(data: seq<u8>, start: Word) returns (crc: Word)
    ensures crc == Crc(data, start)
  {
    hide Entry, ByteStep, ToBits, Value;
    var table := GetCRC32Table();
    crc := Not(start);
    for i := 0 to |data|
      invariant crc == Fold(data[..i], Not(start))
    {
      var byte := ToBits(data[i], 8);
      var index := Xor(crc[..8], byte);
      IndexOfByte(index);
      LookupIsByteStep(crc, byte);
      assert data[..i + 1][..i] == data[..i];
      crc := Xor(crc[8..] + Zeros(8), table[Value(index)]);
    }
    assert data[..|data|] == data;
    crc := Not(crc);
  }
}
