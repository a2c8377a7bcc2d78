/** Block encryption as the DSi crypto code uses it: AES itself is an arbitrary function on 16-byte
    blocks, a 16-byte call of AES_CTR_xcrypt_buffer XORs with E(Iv) and increments Iv as a big-endian
    number. */
module CounterMode {
  import opened Machine
  import opened Division

  type Block = b: seq<u8> | |b| == 16 witness seq(16, _ => 0)
  type Cipher = Block -> Block

  function XorBits(a: nat, b: nat, bits: nat): (r: nat)
    requires a < Pow2(bits) && b < Pow2(bits)
    ensures r < Pow2(bits)
  {
    if bits == 0 then 0
    else 2 * XorBits(a / 2, b / 2, bits - 1) + (a % 2 + b % 2) % 2
  }

  lemma XorOfNothing()
    ensures XorBits(0, 0, 0) == 0
  {
  }

  lemma ParityTwice(p: nat, q: nat)
    requires p <= 1 && q <= 1
    ensures ((p + q) % 2 + q) % 2 == p
  {
  }

  lemma XorBitsStep(a: nat, b: nat, bits: nat)
    requires bits > 0 && a < Pow2(bits) && b < Pow2(bits)
    ensures XorBits(a, b, bits) == 2 * XorBits(a / 2, b / 2, bits - 1) + (a % 2 + b % 2) % 2
    ensures XorBits(a, b, bits) / 2 == XorBits(a / 2, b / 2, bits - 1)
    ensures XorBits(a, b, bits) % 2 == (a % 2 + b % 2) % 2
  {
  }

  lemma {:induction false} XorBitsTwice(a: nat, b: nat, bits: nat)
    requires a < Pow2(bits) && b < Pow2(bits)
    ensures XorBits(XorBits(a, b, bits), b, bits) == a
  {
    hide XorBits;
    if bits == 0 {
      XorOfNothing();
    } else {
      var x, c := XorBits(a / 2, b / 2, bits - 1), (a % 2 + b % 2) % 2;
      XorBitsTwice(a / 2, b / 2, bits - 1);
      XorBitsStep(a, b, bits);
      XorBitsStep(2 * x + c, b, bits);
      ParityTwice(a % 2, b % 2);
    }
  }

  /** The text comes back under no other key. */
  lemma {:induction false} XorBitsKey(a: nat, b: nat, c: nat, bits: nat)
    requires a < Pow2(bits) && b < Pow2(bits) && c < Pow2(bits) && XorBits(XorBits(a, b, bits), c, bits) == a
    ensures b == c
  {
    hide XorBits;
    if bits > 0 {
      var x, y := XorBits(a / 2, b / 2, bits - 1), (a % 2 + b % 2) % 2;
      XorBitsStep(a, b, bits);
      XorBitsStep(2 * x + y, c, bits);
      XorBitsKey(a / 2, b / 2, c / 2, bits - 1);
      SameParity(a % 2, b % 2, c % 2);
    }
  }

  lemma SameParity(p: nat, q: nat, r: nat)
    requires p <= 1 && q <= 1 && r <= 1 && ((p + q) % 2 + r) % 2 == p
    ensures q == r
  {
  }

  lemma Pow2Of8()
    ensures Pow2(8) == 0x100
  {
    assert Pow2(4) == 16;
  }

  function XorByte(a: u8, b: u8): u8 {
    Pow2Of8();
    XorBits(a, b, 8)
  }

  function Bit(x: nat, k: nat): nat {
    x / Pow2(k) % 2
  }

  lemma {:induction false} XorBitsBit(a: nat, b: nat, bits: nat, k: nat)
    requires a < Pow2(bits) && b < Pow2(bits) && k < bits
    ensures Bit(XorBits(a, b, bits), k) == (Bit(a, k) + Bit(b, k)) % 2
  {
    XorBitsStep(a, b, bits);
    Halved(a, bits);
    Halved(b, bits);
    hide XorBits, Pow2, Bit;
    var x := XorBits(a, b, bits);
    if k == 0 {
      LowBit(a);
      LowBit(b);
      LowBit(x);
    } else {
      XorBitsBit(a / 2, b / 2, bits - 1, k - 1);
      HigherBit(a, k);
      HigherBit(b, k);
      HigherBit(x, k);
    }
  }

  lemma Halved(a: nat, bits: nat)
    requires bits > 0 && a < Pow2(bits)
    ensures a / 2 < Pow2(bits - 1)
  {
  }

  lemma LowBit(x: nat)
    ensures Bit(x, 0) == x % 2
  {
    assert Pow2(0) == 1;
  }

  lemma HigherBit(x: nat, k: nat)
    requires k > 0
    ensures Bit(x, k) == Bit(x / 2, k - 1)
  {
    Nested(x, 2, Pow2(k - 1));
  }

  /** XorByte is the exclusive or: each bit of the result is set when it is set in one of the two and not in both. */
  lemma XorByteBits(a: u8, b: u8)
    ensures forall k: nat :: k < 8 ==> (Bit(XorByte(a, b), k) == 1 <==> Bit(a, k) != Bit(b, k))
  {
    Pow2Of8();
    forall k: nat | k < 8 ensures Bit(XorByte(a, b), k) == 1 <==> Bit(a, k) != Bit(b, k) {
      XorBitsBit(a, b, 8, k);
    }
  }

  function Xor(a: Block, b: Block): Block {
    seq(16, i requires 0 <= i < 16 => XorByte(a[i], b[i]))
  }

  /** XOR with the same key twice gives the text back. */
  lemma XorTwice(a: Block, key: Block)
    ensures Xor(Xor(a, key), key) == a
  {
    Pow2Of8();
    forall i | 0 <= i < 16 ensures Xor(Xor(a, key), key)[i] == a[i] {
      XorBitsTwice(a[i], key[i], 8);
    }
  }

  /** Bswap128. */
  function Reverse(a: Block): Block {
    seq(16, i requires 0 <= i < 16 => a[15 - i])
  }

  lemma ReverseIs(a: Block)
    ensures forall i :: 0 <= i < 16 ==> Reverse(a)[i] == a[15 - i]
  {
  }

  lemma ReverseTwice(a: Block)
    ensures Reverse(Reverse(a)) == a
  {
  }

  /** The carry loop of AES_CTR_xcrypt_buffer, from byte i upwards. */
  function IncrementFrom(iv: Block, i: nat): Block
    requires i < 16
    decreases i
  {
    if iv[i] < 0xFF then iv[i := iv[i] + 1]
    else if i == 0 then iv[0 := 0]
    else IncrementFrom(iv[i := 0], i - 1)
  }

  function Increment(iv: Block): Block {
    IncrementFrom(iv, 15)
  }

  /** A block or the front of one as a big-endian number. */
  function BigEndian(b: seq<u8>): nat {
    if b == [] then 0 else 0x100 * BigEndian(b[..|b| - 1]) + b[|b| - 1]
  }

  function Pow256(n: nat): (p: nat)
    ensures p > 0
  {
    if n == 0 then 1 else 0x100 * Pow256(n - 1)
  }

  lemma {:induction false} BigEndianBound(b: seq<u8>)
    ensures BigEndian(b) < Pow256(|b|)
  {
    if b != [] {
      BigEndianBound(b[..|b| - 1]);
    }
  }

  lemma {:induction false} KeepsAbove(iv: Block, i: nat)
    requires i < 16
    ensures IncrementFrom(iv, i)[i + 1..] == iv[i + 1..]
    decreases i
  {
    if iv[i] == 0xFF && i > 0 {
      KeepsAbove(iv[i := 0], i - 1);
    }
  }

  lemma Small(x: nat, m: nat)
    requires x < m
    ensures x % m == x
  {
    QuotientOf(x, 0, m, x);
  }

  /** Adding one to a number whose last byte is d, on top of p < q. */
  lemma AddWithCarry(p: nat, d: u8, q: nat)
    requires p < q
    ensures d < 0xFF ==> (0x100 * p + d + 1) % (0x100 * q) == 0x100 * p + d + 1
    ensures d == 0xFF ==> (0x100 * p + d + 1) % (0x100 * q) == 0x100 * ((p + 1) % q)
  {
    if d < 0xFF || p + 1 < q {
      Small(0x100 * p + d + 1, 0x100 * q);
    }
    if p + 1 < q {
      Small(p + 1, q);
    } else {
      QuotientOf(p + 1, 1, q, 0);
      QuotientOf(0x100 * q, 1, 0x100 * q, 0);
    }
  }

  lemma {:induction false} IncrementFromAdds(iv: Block, i: nat)
    requires i < 16
    ensures BigEndian(IncrementFrom(iv, i)[..i + 1]) == (BigEndian(iv[..i + 1]) + 1) % Pow256(i + 1)
    decreases i
  {
    var next := IncrementFrom(iv, i);
    LastByte(iv, i);
    LastByte(next, i);
    BigEndianBound(iv[..i]);
    AddWithCarry(BigEndian(iv[..i]), iv[i], Pow256(i));
    IncrementedByte(iv, i);
    assert Pow256(i + 1) == 0x100 * Pow256(i);
    hide BigEndian, Pow256;
    if iv[i] == 0xFF {
      if i == 0 {
        FirstByte();
        assert iv[..0] == [] && next[..0] == [];
      } else {
        IncrementFromAdds(iv[i := 0], i - 1);
        assert iv[i := 0][..i] == iv[..i];
      }
    }
  }

  lemma FirstByte()
    ensures BigEndian([]) == 0 && Pow256(0) == 1
  {
  }

  lemma LastByte(b: Block, i: nat)
    requires i < 16
    ensures BigEndian(b[..i + 1]) == 0x100 * BigEndian(b[..i]) + b[i]
  {
    assert b[..i + 1][..i] == b[..i];
  }

  lemma IncrementedByte(iv: Block, i: nat)
    requires i < 16
    ensures var next := IncrementFrom(iv, i);
      && (iv[i] < 0xFF ==> next[..i] == iv[..i] && next[i] == iv[i] + 1)
      && (iv[i] == 0xFF ==> next[i] == 0 && (i > 0 ==> next[..i] == IncrementFrom(iv[i := 0], i - 1)[..i]))
  {
    if iv[i] == 0xFF && i > 0 {
      KeepsAbove(iv[i := 0], i - 1);
      assert IncrementFrom(iv, i)[i] == iv[i := 0][i..][0];
    }
  }

  /** The carry loop adds one to the counter block as a 128-bit big-endian number. */
  lemma IncrementAdds(iv: Block)
    ensures BigEndian(Increment(iv)) == (BigEndian(iv) + 1) % Pow256(16)
  {
    IncrementFromAdds(iv, 15);
    assert iv[..16] == iv && Increment(iv)[..16] == Increment(iv);
  }

  /** The counter k blocks on. */
  function CounterPlus(iv: Block, k: nat): Block {
    if k == 0 then iv else Increment(CounterPlus(iv, k - 1))
  }

  lemma {:induction false} CounterPlusAdds(iv: Block, k: nat)
    ensures BigEndian(CounterPlus(iv, k)) == (BigEndian(iv) + k) % Pow256(16)
  {
    BigEndianBound(iv);
    hide BigEndian, Increment, Pow256;
    if k == 0 {
      Small(BigEndian(iv), Pow256(16));
    } else {
      CounterPlusAdds(iv, k - 1);
      IncrementAdds(CounterPlus(iv, k - 1));
      NextModulo(BigEndian(iv) + (k - 1), Pow256(16));
    }
  }

  lemma NextModulo(x: nat, m: nat)
    requires m > 0
    ensures (x % m + 1) % m == (x + 1) % m
  {
    var q, r := x / m, x % m;
    Divides(x, m);
    if r + 1 < m {
      QuotientOf(x + 1, q, m, r + 1);
      QuotientOf(r + 1, 0, m, r + 1);
    } else {
      Distribute(q, 1, m);
      QuotientOf(x + 1, q + 1, m, 0);
      QuotientOf(r + 1, 1, m, 0);
    }
  }

  lemma CounterZeroIs(iv: Block)
    ensures CounterZero(iv)[..13] == iv[..13] && CounterZero(iv)[13] == CounterZero(iv)[14] == CounterZero(iv)[15] == 0
  {
  }

  /** Block number 0 of the counter: the last three bytes zeroed. */
  function CounterZero(iv: Block): Block {
    iv[..13] + [0, 0, 0]
  }
}
