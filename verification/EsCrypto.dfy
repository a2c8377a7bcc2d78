/** ES encryption of the DSi system files (src/DSi_NAND.cpp): CCM in place over a buffer of len bytes
    followed by a 0x20-byte footer: 16 bytes of MAC, one flag byte, 12 nonce bytes, 3 length bytes. */
module EsCrypto {
  import opened Machine
  import opened Ccm
  import opened CounterMode
  import opened CcmReference

  const FOOTER: nat := 0x20

  function Zero(): Block {
    seq(16, _ => 0)
  }

  function Bytes24(n: nat): (r: seq<u8>)
    ensures |r| == 3
  {
    var n2: u8, n1: u8, n0: u8 := n / 0x10000 % 0x100, n / 0x100 % 0x100, n % 0x100;
    [n2, n1, n0]
  }

  function Value24(b: seq<u8>): nat
    requires |b| == 3
  {
    ((b[0] as int) * 0x100 + b[1]) * 0x100 + b[2]
  }

  lemma ValueOfBytes(n: nat)
    ensures Value24(Bytes24(n)) == n % 0x100_0000
  {
    assert n / 0x100 / 0x100 == n / 0x10000;
  }

  /** The nonce, last byte first. */
  function Nonce(s: seq<u8>, len: nat): (r: seq<u8>)
    requires |s| >= len + FOOTER
    ensures |r| == 12
  {
    seq(12, i requires 0 <= i < 12 => s[len + 0x1C - i])
  }

  function CounterBlock(nonce: seq<u8>, n: nat): Block
    requires |nonce| == 12
  {
    [2] + nonce + Bytes24(n)
  }

  /** The first counter block, and B0 already encrypted. */
  function Start(e: Cipher, nonce: seq<u8>, len: u32): Core
    requires |nonce| == 12
  {
    var rounded := (len + 0xF) % TWO_32 / 16 * 16;
    Core(CounterBlock(nonce, 1), e([0x3A] + nonce + Bytes24(rounded)))
  }

  /** The key stream of the footer. */
  function FooterKey(e: Cipher, nonce: seq<u8>): Block
    requires |nonce| == 12
  {
    e([0, 0, 0] + nonce + [0])
  }

  function Modes(mode: nat, n: nat): seq<nat> {
    seq(n, _ => mode)
  }

  /** The first n blocks of a buffer. */
  function Chop(s: seq<u8>, n: nat): (r: seq<Block>)
    requires |s| >= 16 * n
    ensures |r| == n
  {
    seq(n, i requires 0 <= i < n => Chunk(s, i, n))
  }

  function Chunk(s: seq<u8>, i: nat, n: nat): Block
    requires i < n && |s| >= 16 * n
  {
    s[16 * i..16 * i + 16]
  }

  function Bytes(blocks: seq<Block>): (r: seq<u8>)
    ensures |r| == 16 * |blocks|
  {
    if blocks == [] then [] else Bytes(blocks[..|blocks| - 1]) + blocks[|blocks| - 1]
  }

  /** A partial block completed with the last bytes of another one. */
  function Padded(tail: seq<u8>, pad: Block): Block
    requires |tail| < 16
  {
    tail + pad[|tail|..]
  }

  /** The first n blocks of a buffer through one mode. */
  ghost function Blocks(e: Cipher, mode: nat, core: Core, s: seq<u8>, n: nat): (r: (Core, seq<u8>))
    requires |s| >= 16 * n
    ensures |r.1| == 16 * n
  {
    var (core', outs) := StepAll(e, core, Modes(mode, n), Chop(s, n));
    (core', Bytes(outs))
  }

  /** All whole blocks of a buffer. */
  ghost function Coarse(e: Cipher, mode: nat, core: Core, s: seq<u8>, len: nat): (r: (Core, seq<u8>))
    requires |s| >= len
    ensures |r.1| == len / 16 * 16
  {
    Blocks(e, mode, core, s, len / 16)
  }

  /** The last, partial block of an encryption: padded with zeros. */
  ghost function EncryptTail(e: Cipher, core: Core, tail: seq<u8>): (r: (Core, seq<u8>))
    requires |tail| < 16
    ensures |r.1| == |tail|
  {
    if tail == [] then (core, [])
    else
      var (core', out) := Step(e, 1, core, Padded(tail, Zero()));
      (core', out[..|tail|])
  }

  /** The last, partial block of a decryption: padded with key stream made from a rebuilt counter. */
  ghost function DecryptTail(e: Cipher, core: Core, counter: Block, tail: seq<u8>): (r: (Core, seq<u8>))
    requires |tail| < 16
    ensures |r.1| == |tail|
  {
    if tail == [] then (core, [])
    else
      var pad := Reverse(Xor(Zero(), e(counter)));
      var (core', out) := Step(e, 0, Core(counter, core.mac), Padded(tail, pad));
      (core', out[..|tail|])
  }

  /** The MAC as stored, and the body encrypted. */
  ghost function EncryptBody(e: Cipher, nonce: seq<u8>, s: seq<u8>, len: u32): (r: (Block, seq<u8>))
    requires |nonce| == 12 && |s| >= len
    ensures |r.1| == len
  {
    var (core, coarse) := Coarse(e, 1, Start(e, nonce, len), s, len);
    var (core', tail) := EncryptTail(e, core, s[len / 16 * 16..len]);
    (Reverse(FinalMac(e, core')), coarse + tail)
  }

  ghost function DecryptBody(e: Cipher, nonce: seq<u8>, s: seq<u8>, len: u32): (r: (Block, seq<u8>))
    requires |nonce| == 12 && |s| >= len
    ensures |r.1| == len
  {
    var (core, coarse) := Coarse(e, 0, Start(e, nonce, len), s, len);
    var (core', tail) := DecryptTail(e, core, CounterBlock(nonce, len / 16 + 1), s[len / 16 * 16..len]);
    (Reverse(FinalMac(e, core')), coarse + tail)
  }

  /** The three length bytes under the key stream of the footer. */
  function SizeBytes(size: seq<u8>, key: Block): seq<u8>
    requires |size| == 3
  {
    [XorByte(size[0], key[2]), XorByte(size[1], key[1]), XorByte(size[2], key[0])]
  }

  ghost function Encrypted(e: Cipher, s: seq<u8>, len: u32): (r: seq<u8>)
    requires |s| >= len + FOOTER
    ensures |r| == |s|
  {
    var nonce := Nonce(s, len);
    var (mac, body) := EncryptBody(e, nonce, s, len);
    var key := FooterKey(e, nonce);
    body + mac + [XorByte(0x3A, key[15])] + s[len + 0x11..len + 0x1D] + SizeBytes(Bytes24(len), key) + s[len + FOOTER..]
  }

  /** The verdict, length and MAC both having to agree, and the buffer after decryption. */
  ghost function Decrypted(e: Cipher, s: seq<u8>, len: u32): (r: (bool, seq<u8>))
    requires |s| >= len + FOOTER
    ensures |r.1| == |s|
  {
    var nonce := Nonce(s, len);
    var (mac, body) := DecryptBody(e, nonce, s, len);
    var key := FooterKey(e, nonce);
    var stored := s[len..len + 0x10];
    var size := SizeBytes(s[len + 0x1D..len + FOOTER], key);
    (Value24(size) == len && stored == mac,
     body + stored + [XorByte(s[len + 0x10], key[15])] + s[len + 0x11..len + 0x1D] + size + s[len + FOOTER..])
  }

  // ---- the counter

  lemma BytesOfDigits(n2: u8, n1: u8, n0: u8)
    ensures Bytes24(((n2 as int) * 0x100 + n1) * 0x100 + n0) == [n2, n1, n0]
  {
    var high: int := (n2 as int) * 0x100 + n1;
    var n := high * 0x100 + n0;
    assert n / 0x100 == high && n % 0x100 == n0;
    assert high / 0x100 == n2 && high % 0x100 == n1;
    assert n / 0x10000 == n / 0x100 / 0x100;
  }

  lemma NextBytes24(n: nat)
    requires n + 1 < 0x100_0000
    ensures var b := Bytes24(n);
            Bytes24(n + 1) == if b[2] < 0xFF then [b[0], b[1], b[2] + 1]
                              else if b[1] < 0xFF then [b[0], b[1] + 1, 0]
                              else if b[0] < 0xFF then [b[0] + 1, 0, 0] else [0, 0, 0]
    ensures Bytes24(n)[2] == Bytes24(n)[1] == 0xFF ==> Bytes24(n)[0] < 0xFF
  {
    ValueOfBytes(n);
    var b := Bytes24(n);
    hide Bytes24;
    if b[2] < 0xFF {
      BytesOfDigits(b[0], b[1], b[2] + 1);
    } else if b[1] < 0xFF {
      BytesOfDigits(b[0], b[1] + 1, 0);
    } else {
      assert b[0] < 0xFF;
      BytesOfDigits(b[0] + 1, 0, 0);
    }
  }

  /** The carry loop on a counter block is an addition of one to its 24-bit block number. */
  lemma IncrementCounts(nonce: seq<u8>, n: nat)
    requires |nonce| == 12 && n + 1 < 0x100_0000
    ensures Increment(CounterBlock(nonce, n)) == CounterBlock(nonce, n + 1)
  {
    NextBytes24(n);
    hide Bytes24;
    var iv, next := CounterBlock(nonce, n), CounterBlock(nonce, n + 1);
    var b := Bytes24(n);
    assert iv[15] == b[2] && iv[14] == b[1] && iv[13] == b[0];
    if b[2] < 0xFF {
      assert next == iv[15 := b[2] + 1];
    } else if b[1] < 0xFF {
      assert IncrementFrom(iv, 15) == IncrementFrom(iv[15 := 0], 14);
      assert next == iv[15 := 0][14 := b[1] + 1];
    } else {
      assert IncrementFrom(iv, 15) == IncrementFrom(iv[15 := 0], 14) == IncrementFrom(iv[15 := 0][14 := 0], 13);
      assert next == iv[15 := 0][14 := 0][13 := b[0] + 1];
    }
  }

  lemma {:induction false} CounterAfter(e: Cipher, mac: Block, nonce: seq<u8>, modes: seq<nat>, blocks: seq<Block>)
    requires |nonce| == 12 && |modes| == |blocks| && |blocks| + 1 < 0x100_0000
    ensures StepAll(e, Core(CounterBlock(nonce, 1), mac), modes, blocks).0.iv == CounterBlock(nonce, |blocks| + 1)
  {
    if blocks != [] {
      hide CounterBlock, Increment, Reverse, Xor;
      var last := |blocks| - 1;
      CounterAfter(e, mac, nonce, modes[..last], blocks[..last]);
      IncrementCounts(nonce, |blocks|);
    }
  }

  // ---- the parts undone one by one

  lemma {:induction false} ChopBytes(blocks: seq<Block>, n: nat, rest: seq<u8>)
    requires n == |blocks|
    ensures Chop(Bytes(blocks) + rest, n) == blocks
  {
    if n > 0 {
      var s := Bytes(blocks) + rest;
      var last := n - 1;
      ChopBytes(blocks[..last], last, blocks[last] + rest);
      assert s == Bytes(blocks[..last]) + (blocks[last] + rest);
      assert Chunk(s, last, n) == blocks[last];
      forall i | 0 <= i < last ensures Chop(s, n)[i] == blocks[i] {
        assert Chunk(s, i, n) == Chunk(s, i, last) == Chop(s, last)[i];
      }
    }
  }

  lemma {:induction false} BytesChop(s: seq<u8>, n: nat)
    requires |s| >= 16 * n
    ensures Bytes(Chop(s, n)) == s[..16 * n]
  {
    if n > 0 {
      BytesChop(s, n - 1);
      assert Chop(s, n)[..n - 1] == Chop(s, n - 1);
      assert s[..16 * n] == s[..16 * (n - 1)] + Chunk(s, n - 1, n);
    }
  }

  /** The whole blocks come back, with the same counter and MAC, whatever follows them in the buffer. */
  lemma CoarseUndoes(e: Cipher, core: Core, s: seq<u8>, len: nat, rest: seq<u8>)
    requires |s| >= len && |rest| >= len % 16
    ensures Coarse(e, 0, core, Coarse(e, 1, core, s, len).1 + rest, len)
         == (Coarse(e, 1, core, s, len).0, s[..len / 16 * 16])
  {
    hide StepAll, Chop, Bytes;
    var n := len / 16;
    var outs := StepAll(e, core, Modes(1, n), Chop(s, n)).1;
    ChopBytes(outs, n, rest);
    BytesChop(s, n);
    StreamUndoes(e, 1, core, Modes(1, n), Modes(0, n), Chop(s, n));
  }

  /** The key stream in the padding makes the decryptor see the block the encryptor produced. */
  lemma TailUndoes(e: Cipher, core: Core, tail: seq<u8>)
    requires |tail| < 16
    ensures DecryptTail(e, core, core.iv, EncryptTail(e, core, tail).1) == (EncryptTail(e, core, tail).0, tail)
  {
    if tail != [] {
      hide XorByte, Increment;
      var block := Padded(tail, Zero());
      var out := Step(e, 1, core, block).1;
      assert out == Padded(out[..|tail|], Reverse(Xor(Zero(), e(core.iv))));
      StepUndoes(e, 1, core, block);
      assert block[..|tail|] == tail;
    }
  }

  lemma XorByteTwice(a: u8, key: u8)
    ensures XorByte(XorByte(a, key), key) == a
  {
    Pow2Of8();
    XorBitsTwice(a, key, 8);
  }

  lemma XorByteKey(a: u8, b: u8, c: u8)
    ensures XorByte(XorByte(a, b), c) == a <==> b == c
  {
    Pow2Of8();
    if b == c {
      XorBitsTwice(a, b, 8);
    } else if XorByte(XorByte(a, b), c) == a {
      XorBitsKey(a, b, c, 8);
    }
  }

  /** The first n bytes of a block of key stream, in the order of the data. */
  function KeyStream(e: Cipher, counter: Block, n: nat): seq<u8>
    requires n <= 16
  {
    Reverse(e(counter))[..n]
  }

  /** Whatever counter the decryptor puts in: the partial last block comes back exactly when it has the key stream
      bytes of the encryptor's counter. */
  lemma TailComesBackIff(e: Cipher, core: Core, core': Core, counter: Block, tail: seq<u8>)
    requires |tail| < 16
    ensures DecryptTail(e, core', counter, EncryptTail(e, core, tail).1).1 == tail <==>
              KeyStream(e, core.iv, |tail|) == KeyStream(e, counter, |tail|)
  {
    if tail != [] {
      hide XorByte, Increment;
      var coded := EncryptTail(e, core, tail).1;
      var back := DecryptTail(e, core', counter, coded).1;
      forall i | 0 <= i < |tail|
        ensures back[i] == tail[i] <==> KeyStream(e, core.iv, |tail|)[i] == KeyStream(e, counter, |tail|)[i]
      {
        EncryptedByte(e, core, tail, i);
        DecryptedByte(e, core', counter, coded, i);
        XorByteKey(tail[i], e(core.iv)[15 - i], e(counter)[15 - i]);
      }
    }
  }

  lemma EncryptedByte(e: Cipher, core: Core, tail: seq<u8>, i: nat)
    requires i < |tail| < 16
    ensures EncryptTail(e, core, tail).1[i] == XorByte(tail[i], e(core.iv)[15 - i])
  {
    hide XorByte, Increment;
  }

  lemma DecryptedByte(e: Cipher, core: Core, counter: Block, tail: seq<u8>, i: nat)
    requires i < |tail| < 16
    ensures DecryptTail(e, core, counter, tail).1[i] == XorByte(tail[i], e(counter)[15 - i])
  {
    hide XorByte, Increment;
  }

  /** The last four bytes of a counter as a number. */
  function Low(iv: Block): (n: nat)
    ensures n < TWO_32
  {
    (((iv[12] as int) * 0x100 + iv[13]) * 0x100 + iv[14]) * 0x100 + iv[15]
  }

  lemma IncrementLow(iv: Block)
    ensures Low(Increment(iv)) == (Low(iv) + 1) % TWO_32
  {
    if iv[15] < 0xFF {
    } else if iv[14] < 0xFF {
      assert Increment(iv) == iv[15 := 0][14 := iv[14] + 1];
    } else if iv[13] < 0xFF {
      assert Increment(iv) == IncrementFrom(iv[15 := 0][14 := 0], 13) == iv[15 := 0][14 := 0][13 := iv[13] + 1];
    } else {
      var low := iv[15 := 0][14 := 0][13 := 0];
      assert Increment(iv) == IncrementFrom(iv[15 := 0][14 := 0], 13) == IncrementFrom(low, 12);
      IncrementAbove(low);
    }
  }

  lemma IncrementAbove(iv: Block)
    ensures IncrementFrom(iv, 12)[12] == (if iv[12] < 0xFF then iv[12] + 1 else 0)
    ensures IncrementFrom(iv, 12)[13..] == iv[13..]
  {
    if iv[12] == 0xFF {
      KeepsAbove(iv[12 := 0], 11);
    }
  }

  lemma {:induction false} CountedLow(nonce: seq<u8>, k: nat)
    requires |nonce| == 12
    ensures Low(CounterPlus(CounterBlock(nonce, 1), k)) == (Low(CounterBlock(nonce, 1)) + k) % TWO_32
  {
    hide CounterBlock, Increment, Low;
    if k > 0 {
      CountedLow(nonce, k - 1);
      IncrementLow(CounterPlus(CounterBlock(nonce, 1), k - 1));
      OneMore(Low(CounterBlock(nonce, 1)) + (k - 1));
    }
  }

  lemma OneMore(x: nat)
    ensures (x % TWO_32 + 1) % TWO_32 == (x + 1) % TWO_32
  {
  }

  lemma LowOfNumber(nonce: seq<u8>, n: nat)
    requires |nonce| == 12
    ensures Low(CounterBlock(nonce, n)) == (nonce[11] as int) * 0x100_0000 + n % 0x100_0000
  {
    ValueOfBytes(n);
    hide Bytes24;
  }

  /** The decryptor's counter is the encryptor's exactly as long as the block number fits its three bytes. */
  lemma {:induction false} CountersAgreeIff(nonce: seq<u8>, k: nat)
    requires |nonce| == 12 && k < 0x1000_0000
    ensures CounterPlus(CounterBlock(nonce, 1), k) == CounterBlock(nonce, k + 1) <==> k + 1 < 0x100_0000
  {
    hide CounterBlock, Low, Increment;
    CountedLow(nonce, k);
    LowOfNumber(nonce, 1);
    LowOfNumber(nonce, k + 1);
    if k + 1 < 0x100_0000 {
      CountedFits(nonce, k);
    } else {
      Carried(nonce[11], k + 1);
    }
  }

  lemma Carried(top: u8, n: nat)
    requires 0x100_0000 <= n <= 0x1000_0000
    ensures ((top as int) * 0x100_0000 + 1 + (n - 1)) % TWO_32 != (top as int) * 0x100_0000 + n % 0x100_0000
  {
    var q, r := n / 0x100_0000, n % 0x100_0000;
    assert n == q * 0x100_0000 + r && 1 <= q <= 16;
  }

  lemma {:induction false} CountedFits(nonce: seq<u8>, k: nat)
    requires |nonce| == 12 && k + 1 < 0x100_0000
    ensures CounterPlus(CounterBlock(nonce, 1), k) == CounterBlock(nonce, k + 1)
  {
    if k > 0 {
      hide CounterBlock, Increment;
      CountedFits(nonce, k - 1);
      IncrementCounts(nonce, k);
    }
  }

  /** The body ends with a whole block, or both sides use the same key stream for the partial one. */
  predicate SameKeyStream(e: Cipher, nonce: seq<u8>, len: nat)
    requires |nonce| == 12
  {
    KeyStream(e, CounterPlus(CounterBlock(nonce, 1), len / 16), len % 16) == KeyStream(e, CounterBlock(nonce, len / 16 + 1), len % 16)
  }

  /** That holds for every cipher exactly when there is no partial block or its number fits three bytes. */
  lemma SameForAllCiphers(nonce: seq<u8>, len: u32)
    requires |nonce| == 12
    ensures (forall e: Cipher :: SameKeyStream(e, nonce, len)) <==> len % 16 == 0 || len / 16 + 1 < 0x100_0000
  {
    hide CounterBlock, CounterPlus;
    CountersAgreeIff(nonce, len / 16);
    var c, d := CounterPlus(CounterBlock(nonce, 1), len / 16), CounterBlock(nonce, len / 16 + 1);
    if len % 16 != 0 && c != d {
      var e: Cipher := b => if b == c then seq(16, _ => 0) else seq(16, _ => 1);
      assert e(c)[15] == 0 && e(d)[15] == 1;
      assert KeyStream(e, c, len % 16)[0] != KeyStream(e, d, len % 16)[0];
      assert !SameKeyStream(e, nonce, len);
    }
  }

  // ---- the round trip

  lemma Layout(a: seq<u8>, mac: seq<u8>, flag: u8, nonce: seq<u8>, size: seq<u8>, rest: seq<u8>)
    requires |mac| == 16 && |nonce| == 12 && |size| == 3
    ensures var t, len := a + mac + [flag] + nonce + size + rest, |a|;
            && |t| == len + FOOTER + |rest|
            && t[..len] == a && t[len..len + 0x10] == mac && t[len + 0x10] == flag
            && t[len + 0x11..len + 0x1D] == nonce && t[len + 0x1D..len + FOOTER] == size
            && t[len + FOOTER..] == rest
  {
  }

  lemma SameNonce(s: seq<u8>, t: seq<u8>, len: nat)
    requires |s| == |t| >= len + FOOTER && s[len + 0x11..len + 0x1D] == t[len + 0x11..len + 0x1D]
    ensures Nonce(s, len) == Nonce(t, len)
  {
    forall i | 0 <= i < 12 ensures Nonce(s, len)[i] == Nonce(t, len)[i] {
      assert s[len + 0x1C - i] == s[len + 0x11..len + 0x1D][11 - i];
      assert t[len + 0x1C - i] == t[len + 0x11..len + 0x1D][11 - i];
    }
  }

  /** Decrypting an encrypted body gives the body and the MAC it was encrypted to, as long as the block number
      the decryptor puts in the counter fits its three bytes or is not used. */
  lemma BodyUndoes(e: Cipher, nonce: seq<u8>, s: seq<u8>, rest: seq<u8>, len: u32)
    requires |nonce| == 12 && |s| >= len && (len / 16 + 1 < 0x100_0000 || len % 16 == 0)
    ensures var (mac, body) := EncryptBody(e, nonce, s, len);
            DecryptBody(e, nonce, body + rest, len) == (mac, s[..len])
  {
    hide StepAll, Chop, Bytes, Step, Coarse, EncryptTail, DecryptTail, CounterBlock;
    var start := Start(e, nonce, len);
    var (core, coarse) := Coarse(e, 1, start, s, len);
    var tail := EncryptTail(e, core, s[len / 16 * 16..len]).1;
    var t := coarse + tail + rest;
    assert t == coarse + (tail + rest);
    assert t[len / 16 * 16..len] == tail;
    CoarseUndoes(e, start, s, len, tail + rest);
    TailUndoes(e, core, s[len / 16 * 16..len]);
    if len % 16 != 0 {
      CounterOfCoarse(e, nonce, s, len);
    } else {
      NoTail(e, core, CounterBlock(nonce, len / 16 + 1));
    }
    assert s[..len] == s[..len / 16 * 16] + s[len / 16 * 16..len];
  }

  lemma NoTail(e: Cipher, core: Core, counter: Block)
    ensures EncryptTail(e, core, []) == (core, []) == DecryptTail(e, core, counter, [])
  {
  }

  lemma CounterOfCoarse(e: Cipher, nonce: seq<u8>, s: seq<u8>, len: u32)
    requires |nonce| == 12 && |s| >= len && len / 16 + 1 < 0x100_0000
    ensures Coarse(e, 1, Start(e, nonce, len), s, len).0.iv == CounterBlock(nonce, len / 16 + 1)
  {
    hide StepAll, Chop, Bytes, CounterBlock;
    var n := len / 16;
    CounterAfter(e, Start(e, nonce, len).mac, nonce, Modes(1, n), Chop(s, n));
  }

  lemma SizeUndoes(len: nat, key: Block)
    ensures SizeBytes(SizeBytes(Bytes24(len), key), key) == Bytes24(len)
  {
    var b := Bytes24(len);
    XorByteTwice(b[0], key[2]);
    XorByteTwice(b[1], key[1]);
    XorByteTwice(b[2], key[0]);
  }

  /** Without a bound on the length, the body comes back exactly when both sides use the same key stream. */
  lemma BodyComesBackIff(e: Cipher, nonce: seq<u8>, s: seq<u8>, rest: seq<u8>, len: u32)
    requires |nonce| == 12 && |s| >= len
    ensures DecryptBody(e, nonce, EncryptBody(e, nonce, s, len).1 + rest, len).1 == s[..len] <==> SameKeyStream(e, nonce, len)
  {
    hide StepAll, Chop, Bytes, Step, Coarse, EncryptTail, DecryptTail, CounterBlock, KeyStream;
    var start := Start(e, nonce, len);
    var (core, coarse) := Coarse(e, 1, start, s, len);
    var whole, last := s[..len / 16 * 16], s[len / 16 * 16..len];
    var tail := EncryptTail(e, core, last).1;
    var t := coarse + tail + rest;
    assert t == coarse + (tail + rest);
    assert t[len / 16 * 16..len] == tail;
    CoarseUndoes(e, start, s, len, tail + rest);
    TailComesBackIff(e, core, core, CounterBlock(nonce, len / 16 + 1), last);
    CoarseCounter(e, nonce, s, len);
    var back := DecryptTail(e, core, CounterBlock(nonce, len / 16 + 1), tail).1;
    assert DecryptBody(e, nonce, t, len).1 == whole + back;
    assert s[..len] == whole + last;
    SameEnds(whole, back, last);
  }

  lemma SameEnds(a: seq<u8>, b: seq<u8>, c: seq<u8>)
    requires |b| == |c|
    ensures a + b == a + c <==> b == c
  {
    assert (a + b)[|a|..] == b && (a + c)[|a|..] == c;
  }

  lemma CoarseCounter(e: Cipher, nonce: seq<u8>, s: seq<u8>, len: u32)
    requires |nonce| == 12 && |s| >= len
    ensures Coarse(e, 1, Start(e, nonce, len), s, len).0.iv == CounterPlus(CounterBlock(nonce, 1), len / 16)
  {
    hide StepAll, Chop, CounterPlus, CounterBlock;
    StreamIsCcm(e, Start(e, nonce, len), Modes(1, len / 16), Chop(s, len / 16));
  }

  /** ESDecrypt after ESEncrypt, for every block function: it succeeds exactly for lengths below 2^24, the
      largest the footer can store; the body comes back, partial last block included, exactly when both sides use
      the same key stream for that block, as they do below 2^28 - 16 bytes; the nonce and whatever follows the
      footer are untouched, and the flag and the length appear in clear. */
  lemma RoundTrip(e: Cipher, s: seq<u8>, len: u32)
    requires |s| >= len + FOOTER
    ensures var (ok, u) := Decrypted(e, Encrypted(e, s, len), len);
            && (ok <==> len < 0x100_0000)
            && (u[..len] == s[..len] <==> SameKeyStream(e, Nonce(s, len), len))
            && (len / 16 + 1 < 0x100_0000 || len % 16 == 0 ==> u[..len] == s[..len])
            && u[len + 0x10] == 0x3A && u[len + 0x1D..len + FOOTER] == Bytes24(len)
            && u[len + 0x11..len + 0x1D] == Encrypted(e, s, len)[len + 0x11..len + 0x1D] == s[len + 0x11..len + 0x1D]
            && u[len + FOOTER..] == s[len + FOOTER..]
  {
    hide EncryptBody, DecryptBody, XorByte, SizeBytes, Bytes24, Value24, FooterKey, Nonce, SameKeyStream;
    var nonce, t := Nonce(s, len), Encrypted(e, s, len);
    var key := FooterKey(e, nonce);
    var (mac, body) := EncryptBody(e, nonce, s, len);
    var flag := XorByte(0x3A, key[15]);
    var size := SizeBytes(Bytes24(len), key);
    var mid, rest := s[len + 0x11..len + 0x1D], s[len + FOOTER..];
    SizeLength(Bytes24(len), key);
    Layout(body, mac, flag, mid, size, rest);
    SameNonce(s, t, len);
    XorByteTwice(0x3A, key[15]);
    SizeUndoes(len, key);
    ValueOfBytes(len);
    var (mac', body') := DecryptBody(e, nonce, t, len);
    Layout(body', mac, 0x3A, mid, Bytes24(len), rest);
    assert t == body + t[len..];
    BodyComesBackIff(e, nonce, s, t[len..], len);
    if len / 16 + 1 < 0x100_0000 || len % 16 == 0 {
      BodyUndoes(e, nonce, s, t[len..], len);
    }
  }

  lemma SizeLength(size: seq<u8>, key: Block)
    requires |size| == 3
    ensures |SizeBytes(size, key)| == 3
  {
  }

  // ---- the stored file in terms of CCM

  /** The first block of CCM (section 2.2 of RFC 3610) for a message of len bytes: no associated data, M = 16 and
      L = 3, the nonce, and the message length rounded up to whole blocks, as far as it fits three bytes. */
  ghost predicate IsFirstBlock(b: Block, nonce: seq<u8>, len: nat) {
    && b[0] / 64 == 0 && b[0] / 8 % 8 == (16 - 2) / 2 && b[0] % 8 == 3 - 1 && b[1..13] == nonce
    && exists v: nat :: v % 16 == 0 && len <= v < len + 16 && ((b[13] as int) * 0x100 + b[14]) * 0x100 + b[15] == v % 0x100_0000
  }

  /** The message in blocks, the last one filled up with zeros. */
  function TextBlocks(s: seq<u8>, len: nat): seq<Block>
    requires |s| >= len
  {
    seq((len + 15) / 16, k requires 0 <= k < (len + 15) / 16 => TextBlock(s, len, k))
  }

  function TextBlock(s: seq<u8>, len: nat, k: nat): Block
    requires |s| >= len
  {
    seq(16, i requires 0 <= i < 16 => if 16 * k + i < len then s[16 * k + i] else 0)
  }

  lemma StartIsCcm(e: Cipher, nonce: seq<u8>, len: u32) returns (b0: Block)
    requires |nonce| == 12
    ensures IsFirstBlock(b0, nonce, len) && Start(e, nonce, len) == Core([2] + nonce + [0, 0, 1], e(b0))
  {
    var rounded := (len + 0xF) % TWO_32 / 16 * 16;
    b0 := [0x3A] + nonce + Bytes24(rounded);
    ValueOfBytes(rounded);
    RoundedUp(len);
    var v := (len + 15) / 16 * 16;
    assert Value24(Bytes24(rounded)) == v % 0x100_0000;
    assert b0[13..] == Bytes24(rounded) && b0[1..13] == nonce;
    assert Bytes24(1) == [0, 0, 1];
  }

  lemma RoundedUp(len: u32)
    ensures var v := (len + 15) / 16 * 16;
      v % 16 == 0 && len <= v < len + 16 && (len + 0xF) % TWO_32 / 16 * 16 % 0x100_0000 == v % 0x100_0000
  {
  }

  lemma {:induction false} BytesAt(blocks: seq<Block>, j: nat)
    requires j < 16 * |blocks|
    ensures Bytes(blocks)[j] == blocks[j / 16][j % 16]
  {
    var last := |blocks| - 1;
    if j < 16 * last {
      BytesAt(blocks[..last], j);
    }
  }

  /** The text of the whole blocks and of the padded tail is the text of the message. */
  lemma WholeAndTail(s: seq<u8>, len: nat, tail: seq<u8>)
    requires |s| >= len && tail == s[len / 16 * 16..len]
    ensures TextBlocks(s, len) == Chop(s, len / 16) + if tail == [] then [] else [Padded(tail, Zero())]
  {
    var n := len / 16;
    var texts := Chop(s, n) + if tail == [] then [] else [Padded(tail, Zero())];
    assert |texts| == (len + 15) / 16;
    forall k | 0 <= k < |texts| ensures texts[k] == TextBlock(s, len, k) {
      if k < n {
        assert texts[k] == s[16 * k..16 * k + 16];
      }
    }
  }

  /** Byte j of a message under the key stream: counter j / 16, and the bytes of a block last one first. */
  function StreamByte(e: Cipher, iv: Block, s: seq<u8>, j: nat): u8
    requires j < |s|
  {
    XorByte(s[j], e(CounterPlus(iv, j / 16))[15 - j % 16])
  }

  lemma CoarseIsCcm(e: Cipher, mode: nat, core: Core, s: seq<u8>, len: nat)
    requires |s| >= len && mode <= 1
    ensures var (end, out) := Coarse(e, mode, core, s, len);
      && end.iv == CounterPlus(core.iv, len / 16)
      && end.mac == CbcMac(e, core.mac, Chop(if mode == 1 then s else out, len / 16))
      && forall j :: 0 <= j < len / 16 * 16 ==> out[j] == StreamByte(e, core.iv, s, j)
  {
    hide XorByte, StepAll, CbcMac, CounterPlus, Bytes;
    var n := len / 16;
    var outs := StepAll(e, core, Modes(mode, n), Chop(s, n)).1;
    StreamIsCcm(e, core, Modes(mode, n), Chop(s, n));
    if mode == 1 {
      TextsIn(Modes(mode, n), Chop(s, n), outs);
    } else {
      TextsOut(Modes(mode, n), Chop(s, n), outs);
      ChopBytes(outs, n, []);
      assert Bytes(outs) + [] == Bytes(outs);
    }
    forall j | 0 <= j < n * 16 ensures Bytes(outs)[j] == StreamByte(e, core.iv, s, j) {
      BytesAt(outs, j);
      assert Chop(s, n)[j / 16][j % 16] == s[j];
    }
  }

  /** t is the file s encrypted: the body is the message under the key stream of the counters from 1 on; the MAC
      behind it is the CBC-MAC over the first block and the zero-padded message, under the key stream of counter block
      0; flag and length are under the key stream of the footer; the nonce and what follows stay as they are. */
  ghost predicate IsEncryption(e: Cipher, s: seq<u8>, t: seq<u8>, len: u32)
    requires |s| == |t| >= len + FOOTER
  {
    var nonce := seq(12, i requires 0 <= i < 12 => s[len + 0x1C - i]);
    var first: Block := [2] + nonce + [0, 0, 1];
    var zero: Block := CounterPlus(first, (len + 15) / 16)[..13] + [0, 0, 0];
    var key := e([0, 0, 0] + nonce + [0]);
    && (forall j :: 0 <= j < len ==> t[j] == StreamByte(e, first, s, j))
    && (exists b0 :: IsFirstBlock(b0, nonce, len) && t[len..len + 16] == Reverse(Xor(CbcMac(e, e(b0), TextBlocks(s, len)), e(zero))))
    && XorByte(t[len + 0x10], key[15]) == 0x3A && ReadLength(t, key, len) == len % 0x100_0000
    && t[len + 0x11..len + 0x1D] == s[len + 0x11..len + 0x1D] && t[len + FOOTER..] == s[len + FOOTER..]
  }

  /** The length stored in a footer, in three bytes from the highest down. */
  function ReadLength(t: seq<u8>, key: Block, len: nat): nat
    requires |t| >= len + FOOTER
  {
    ((XorByte(t[len + 0x1D], key[2]) as int) * 0x100 + XorByte(t[len + 0x1E], key[1])) * 0x100 + XorByte(t[len + 0x1F], key[0])
  }

  lemma EncryptedIsCcm(e: Cipher, s: seq<u8>, len: u32)
    requires |s| >= len + FOOTER
    ensures IsEncryption(e, s, Encrypted(e, s, len), len)
  {
    hide XorByte, CbcMac, CounterPlus, EncryptBody, StreamByte, IsFirstBlock, Reverse, Xor, TextBlocks, Nonce;
    NonceIs(s, len);
    var nonce := Nonce(s, len);
    var b0 := EncryptBodyIsCcm(e, nonce, s, len);
    var t := Encrypted(e, s, len);
    assert t[..len] == EncryptBody(e, nonce, s, len).1 && t[len..len + 16] == EncryptBody(e, nonce, s, len).0;
    forall j | 0 <= j < len ensures t[j] == StreamByte(e, [2] + nonce + [0, 0, 1], s, j) {
      assert t[j] == t[..len][j];
    }
    FooterReads(e, s, len);
  }

  lemma FooterReads(e: Cipher, s: seq<u8>, len: u32)
    requires |s| >= len + FOOTER
    ensures var t, key := Encrypted(e, s, len), FooterKey(e, Nonce(s, len));
      && XorByte(t[len + 0x10], key[15]) == 0x3A && ReadLength(t, key, len) == len % 0x100_0000
      && t[len + 0x11..len + 0x1D] == s[len + 0x11..len + 0x1D] && t[len + FOOTER..] == s[len + FOOTER..]
  {
    hide XorByte, EncryptBody, Nonce, Bytes24, FooterKey, Xor, Reverse;
    var nonce, size := Nonce(s, len), Bytes24(len);
    var key := FooterKey(e, nonce);
    var (mac, body) := EncryptBody(e, nonce, s, len);
    var coded := SizeBytes(size, key);
    Layout(body, mac, XorByte(0x3A, key[15]), s[len + 0x11..len + 0x1D], coded, s[len + FOOTER..]);
    var t := Encrypted(e, s, len);
    assert t[len + 0x1D..len + FOOTER] == coded;
    assert t[len + 0x1D] == coded[0] && t[len + 0x1E] == coded[1] && t[len + 0x1F] == coded[2];
    XorByteTwice(0x3A, key[15]);
    XorByteTwice(size[0], key[2]);
    XorByteTwice(size[1], key[1]);
    XorByteTwice(size[2], key[0]);
    ValueOfBytes(len);
  }

  lemma NonceIs(s: seq<u8>, len: nat)
    requires |s| >= len + FOOTER
    ensures Nonce(s, len) == seq(12, i requires 0 <= i < 12 => s[len + 0x1C - i])
  {
  }

  lemma EncryptBodyIsCcm(e: Cipher, nonce: seq<u8>, s: seq<u8>, len: u32) returns (b0: Block)
    requires |nonce| == 12 && |s| >= len
    ensures
      var (mac, body) := EncryptBody(e, nonce, s, len);
      var first: Block := [2] + nonce + [0, 0, 1];
      var zero: Block := CounterPlus(first, (len + 15) / 16)[..13] + [0, 0, 0];
      && IsFirstBlock(b0, nonce, len) && (forall j :: 0 <= j < len ==> body[j] == StreamByte(e, first, s, j))
      && mac == Reverse(Xor(CbcMac(e, e(b0), TextBlocks(s, len)), e(zero)))
  {
    hide XorByte, CbcMac, CounterPlus, Bytes, Coarse, Increment, EncryptTail, IsFirstBlock, Start, FinalMac, Reverse, Xor, TextBlocks, Padded, Chop;
    b0 := StartIsCcm(e, nonce, len);
    var start := Start(e, nonce, len);
    var tail := s[len / 16 * 16..len];
    var (core, coarse) := Coarse(e, 1, start, s, len);
    var (core', last) := EncryptTail(e, core, tail);
    CoarseIsCcm(e, 1, start, s, len);
    WholeAndTail(s, len, tail);
    EncryptTailIsCcm(e, core, tail);
    CbcAppends(e, start.mac, Chop(s, len / 16), if tail == [] then [] else [Padded(tail, Zero())]);
    FinalMacIs(e, core');
    CounterStep(start.iv, len / 16);
    forall j | 0 <= j < len ensures (coarse + last)[j] == StreamByte(e, start.iv, s, j) {
      if j >= len / 16 * 16 {
        LastBlock(len, j);
        assert last[j - len / 16 * 16] == (coarse + last)[j] && tail[j - len / 16 * 16] == s[j];
      }
    }
  }

  lemma LastBlock(len: nat, j: nat)
    requires len / 16 * 16 <= j < len
    ensures j / 16 == len / 16 && j % 16 == j - len / 16 * 16
  {
  }

  lemma CounterStep(iv: Block, k: nat)
    ensures CounterPlus(iv, k + 1) == Increment(CounterPlus(iv, k))
  {
  }

  lemma EncryptTailIsCcm(e: Cipher, core: Core, tail: seq<u8>)
    requires |tail| < 16
    ensures var (end, out) := EncryptTail(e, core, tail);
      && end.iv == (if tail == [] then core.iv else Increment(core.iv))
      && end.mac == CbcMac(e, core.mac, if tail == [] then [] else [Padded(tail, Zero())])
      && forall i :: 0 <= i < |tail| ==> out[i] == XorByte(tail[i], e(core.iv)[15 - i])
  {
    hide XorByte, Increment, Step;
    if tail != [] {
      OneStep(e, 1, core, Padded(tail, Zero()));
      forall i | 0 <= i < |tail| ensures EncryptTail(e, core, tail).1[i] == XorByte(tail[i], e(core.iv)[15 - i]) {
        EncryptedByte(e, core, tail, i);
      }
    }
  }

  lemma DecryptTailIsCcm(e: Cipher, core: Core, counter: Block, tail: seq<u8>)
    requires |tail| < 16
    ensures var (end, out) := DecryptTail(e, core, counter, tail);
      && end.iv == (if tail == [] then core.iv else Increment(counter))
      && end.mac == CbcMac(e, core.mac, if tail == [] then [] else [Padded(out, Zero())])
      && forall i :: 0 <= i < |tail| ==> out[i] == XorByte(tail[i], e(counter)[15 - i])
  {
    hide XorByte, Increment, Step;
    if tail != [] {
      var pad := Reverse(Xor(Zero(), e(counter)));
      OneStep(e, 0, Core(counter, core.mac), Padded(tail, pad));
      var full := Step(e, 0, Core(counter, core.mac), Padded(tail, pad)).1;
      forall i | |tail| <= i < 16 ensures full[i] == 0 {
        assert Padded(tail, pad)[i] == pad[i] == XorByte(0, e(counter)[15 - i]);
        XorByteTwice(0, e(counter)[15 - i]);
      }
      assert full == Padded(full[..|tail|], Zero());
    }
  }

  /** u is what decryption makes of the file t, and ok whether it is accepted: the counter of a partial last block is
      rebuilt from its number, and the length and the MAC of the text that comes out must be those stored. */
  ghost predicate IsDecryption(e: Cipher, t: seq<u8>, ok: bool, u: seq<u8>, len: u32)
    requires |t| == |u| >= len + FOOTER
  {
    var nonce := seq(12, i requires 0 <= i < 12 => t[len + 0x1C - i]);
    var first: Block := [2] + nonce + [0, 0, 1];
    var rebuilt := CounterBlock(nonce, len / 16 + 1);
    var zero: Block := (if len % 16 == 0 then CounterPlus(first, len / 16) else Increment(rebuilt))[..13] + [0, 0, 0];
    var key := e([0, 0, 0] + nonce + [0]);
    && (forall j :: 0 <= j < len / 16 * 16 ==> u[j] == StreamByte(e, first, t, j))
    && (forall j :: len / 16 * 16 <= j < len ==> u[j] == XorByte(t[j], e(rebuilt)[15 - j % 16]))
    && (exists b0 :: IsFirstBlock(b0, nonce, len) &&
          (ok <==> ReadLength(t, key, len) == len && t[len..len + 16] == Reverse(Xor(CbcMac(e, e(b0), TextBlocks(u, len)), e(zero)))))
    && u[len..len + 16] == t[len..len + 16] && u[len + 0x10] == XorByte(t[len + 0x10], key[15])
    && u[len + 0x11..len + 0x1D] == t[len + 0x11..len + 0x1D] && u[len + FOOTER..] == t[len + FOOTER..]
    && ((u[len + 0x1D] as int) * 0x100 + u[len + 0x1E]) * 0x100 + u[len + 0x1F] == ReadLength(t, key, len)
  }

  lemma DecryptedIsCcm(e: Cipher, t: seq<u8>, len: u32)
    requires |t| >= len + FOOTER
    ensures var (ok, u) := Decrypted(e, t, len); IsDecryption(e, t, ok, u, len)
  {
    hide XorByte, CbcMac, CounterPlus, DecryptBody, StreamByte, IsFirstBlock, Reverse, Xor, TextBlocks, Nonce, Increment, CounterBlock;
    NonceIs(t, len);
    var nonce := Nonce(t, len);
    var b0 := DecryptBodyIsCcm(e, nonce, t, len);
    var (mac, body) := DecryptBody(e, nonce, t, len);
    var (ok, u) := Decrypted(e, t, len);
    var size := SizeBytes(t[len + 0x1D..len + FOOTER], FooterKey(e, nonce));
    Layout(body, t[len..len + 0x10], XorByte(t[len + 0x10], FooterKey(e, nonce)[15]), t[len + 0x11..len + 0x1D], size, t[len + FOOTER..]);
    assert u[len + 0x1D..len + FOOTER] == size;
    assert u[len + 0x1D] == size[0] && u[len + 0x1E] == size[1] && u[len + 0x1F] == size[2];
    SameTexts(u, body, len);
    forall j | 0 <= j < len ensures u[j] == body[j] {
      assert u[j] == u[..len][j];
    }
  }

  lemma SameTexts(a: seq<u8>, b: seq<u8>, len: nat)
    requires |a| >= len == |b| && a[..len] == b
    ensures TextBlocks(a, len) == TextBlocks(b, len)
  {
    forall k | 0 <= k < (len + 15) / 16 ensures TextBlock(a, len, k) == TextBlock(b, len, k) {
      assert forall j :: 0 <= j < len ==> a[j] == a[..len][j];
    }
  }

  lemma DecryptBodyIsCcm(e: Cipher, nonce: seq<u8>, t: seq<u8>, len: u32) returns (b0: Block)
    requires |nonce| == 12 && |t| >= len
    ensures
      var (mac, body) := DecryptBody(e, nonce, t, len);
      var first: Block := [2] + nonce + [0, 0, 1];
      var end := if len % 16 == 0 then CounterPlus(first, len / 16) else Increment(CounterBlock(nonce, len / 16 + 1));
      var zero: Block := end[..13] + [0, 0, 0];
      && IsFirstBlock(b0, nonce, len)
      && (forall j :: 0 <= j < len / 16 * 16 ==> body[j] == StreamByte(e, first, t, j))
      && (forall j :: len / 16 * 16 <= j < len ==> body[j] == XorByte(t[j], e(CounterBlock(nonce, len / 16 + 1))[15 - j % 16]))
      && mac == Reverse(Xor(CbcMac(e, e(b0), TextBlocks(body, len)), e(zero)))
  {
    hide XorByte, CbcMac, CounterPlus, Bytes, Coarse, Increment, DecryptTail, IsFirstBlock, Start, FinalMac, Reverse, Xor, TextBlocks, Padded, Chop, CounterBlock;
    b0 := StartIsCcm(e, nonce, len);
    var start, rebuilt := Start(e, nonce, len), CounterBlock(nonce, len / 16 + 1);
    var tail := t[len / 16 * 16..len];
    var (core, coarse) := Coarse(e, 0, start, t, len);
    var (core', last) := DecryptTail(e, core, rebuilt, tail);
    var body := coarse + last;
    CoarseIsCcm(e, 0, start, t, len);
    DecryptTailIsCcm(e, core, rebuilt, tail);
    assert body[..len / 16 * 16] == coarse == coarse[..len / 16 * 16] && body[len / 16 * 16..len] == last;
    SameChop(coarse, body, len / 16);
    WholeAndTail(body, len, last);
    CbcAppends(e, start.mac, Chop(body, len / 16), if last == [] then [] else [Padded(last, Zero())]);
    FinalMacIs(e, core');
    forall j | len / 16 * 16 <= j < len ensures body[j] == XorByte(t[j], e(rebuilt)[15 - j % 16]) {
      LastBlock(len, j);
      assert last[j - len / 16 * 16] == body[j] && tail[j - len / 16 * 16] == t[j];
    }
  }

  lemma SameChop(a: seq<u8>, b: seq<u8>, n: nat)
    requires |a| >= 16 * n && |b| >= 16 * n && a[..16 * n] == b[..16 * n]
    ensures Chop(a, n) == Chop(b, n)
  {
    forall k | 0 <= k < n ensures Chop(a, n)[k] == Chop(b, n)[k] {
      assert a[16 * k..16 * k + 16] == a[..16 * n][16 * k..16 * k + 16];
      assert b[16 * k..16 * k + 16] == b[..16 * n][16 * k..16 * k + 16];
    }
  }

  // ---- the routines in place

  method LoadBlock(data: array<u8>, at: nat) returns (b: Block)
    requires at + 16 <= data.Length
    ensures b == Reverse(data[at..at + 16])
  {
    b := seq(16, i requires 0 <= i < 16 && at + 16 <= data.Length reads data => data[at + 15 - i]);
  }

  method StoreBlock(data: array<u8>, at: nat, b: Block)
    requires at + 16 <= data.Length
    modifies data
    ensures data[..] == old(data[..at]) + Reverse(b) + old(data[at + 16..])
  {
    forall i | 0 <= i < 16 {
      data[at + i] := b[15 - i];
    }
  }

  lemma SetReversed(rem: Block, i: nat, v: u8)
    requires i < 16
    ensures Reverse(rem[15 - i := v]) == Reverse(rem)[i := v]
  {
  }

  method LoadTail(data: array<u8>, at: nat, n: nat, pad: Block) returns (rem: Block)
    requires at + n <= data.Length && n < 16
    ensures Reverse(rem) == Padded(data[at..at + n], Reverse(pad))
  {
    hide Reverse;
    rem := pad;
    for i := 0 to n
      invariant Reverse(rem) == Padded(data[at..at + i], Reverse(pad))
    {
      SetReversed(rem, i, data[at + i]);
      rem := rem[15 - i := data[at + i]];
    }
  }

  method StoreTail(data: array<u8>, at: nat, n: nat, rem: Block)
    requires at + n <= data.Length && n < 16
    modifies data
    ensures data[..] == old(data[..at]) + Reverse(rem)[..n] + old(data[at + n..])
  {
    ghost var s, b := data[..], Reverse(rem);
    for i := 0 to n
      invariant data[..] == s[..at] + b[..i] + s[at + i..]
    {
      assert rem[15 - i] == b[i];
      data[at + i] := rem[15 - i];
    }
  }

  lemma CoarseStep(e: Cipher, mode: nat, start: Core, s: seq<u8>, n: nat)
    requires |s| >= 16 * (n + 1)
    ensures var (core, done) := Blocks(e, mode, start, s, n);
            var (core', out) := Step(e, mode, core, s[16 * n..16 * n + 16]);
            Blocks(e, mode, start, s, n + 1) == (core', done + out)
  {
    hide Step;
    var modes, blocks := Modes(mode, n + 1), Chop(s, n + 1);
    assert modes[..n] == Modes(mode, n);
    assert blocks[..n] == Chop(s, n);
    var (core, outs) := StepAll(e, start, Modes(mode, n), Chop(s, n));
    var out := Step(e, mode, core, blocks[n]).1;
    assert (outs + [out])[..n] == outs;
  }

  /** One block stored behind those already done. */
  lemma Advance(done: seq<u8>, block: seq<u8>, s: seq<u8>, k: nat)
    requires |done| == 16 * k && |block| == 16 && |s| >= 16 * (k + 1)
    ensures var t := done + s[16 * k..];
            t[16 * k..16 * k + 16] == s[16 * k..16 * k + 16]
            && t[..16 * k] + block + t[16 * k + 16..] == (done + block) + s[16 * (k + 1)..]
  {
  }

  lemma NoBlocks(e: Cipher, mode: nat, start: Core, s: seq<u8>)
    ensures Blocks(e, mode, start, s, 0) == (start, [])
  {
  }

  /** The turn of the loop of ESEncrypt: the text goes into the MAC before it is encrypted. */
  method EncryptBlock(e: Cipher, data: array<u8>, at: nat, core: Core) returns (after: Core)
    requires at + 16 <= data.Length
    modifies data
    ensures after == Step(e, 1, core, old(data[at..at + 16])).0
    ensures data[..] == old(data[..at]) + Step(e, 1, core, old(data[at..at + 16])).1 + old(data[at + 16..])
  {
    hide Reverse, Xor, Increment;
    var tmp := LoadBlock(data, at);
    var iv, mac := core.iv, Xor(core.mac, tmp);
    tmp := Xor(tmp, e(iv));
    iv := Increment(iv);
    mac := e(mac);
    StoreBlock(data, at, tmp);
    after := Core(iv, mac);
  }

  /** The turn of the loop of ESDecrypt: the text goes into the MAC after it is decrypted. */
  method DecryptBlock(e: Cipher, data: array<u8>, at: nat, core: Core) returns (after: Core)
    requires at + 16 <= data.Length
    modifies data
    ensures after == Step(e, 0, core, old(data[at..at + 16])).0
    ensures data[..] == old(data[..at]) + Step(e, 0, core, old(data[at..at + 16])).1 + old(data[at + 16..])
  {
    hide Reverse, Xor, Increment;
    var tmp := LoadBlock(data, at);
    var iv := core.iv;
    tmp := Xor(tmp, e(iv));
    iv := Increment(iv);
    var mac := e(Xor(core.mac, tmp));
    StoreBlock(data, at, tmp);
    after := Core(iv, mac);
  }

  /** The loop over the whole blocks, of ESEncrypt (mode 1) and ESDecrypt (mode 0). */
  method CryptCoarse(e: Cipher, mode: nat, data: array<u8>, len: u32, start: Core) returns (core: Core)
    requires mode <= 1 && len <= data.Length
    modifies data
    ensures core == Coarse(e, mode, start, old(data[..]), len).0
    ensures data[..] == Coarse(e, mode, start, old(data[..]), len).1 + old(data[len / 16 * 16..])
  {
    hide Step, Blocks;
    ghost var s := data[..];
    core := start;
    NoBlocks(e, mode, start, s);
    var k := 0;
    while k < len / 16
      invariant k <= len / 16
      invariant core == Blocks(e, mode, start, s, k).0
      invariant data[..] == Blocks(e, mode, start, s, k).1 + s[16 * k..]
    {
      CoarseStep(e, mode, start, s, k);
      ghost var done := Blocks(e, mode, start, s, k).1;
      Advance(done, Step(e, mode, core, s[16 * k..16 * k + 16]).1, s, k);
      assert data[..][16 * k..16 * k + 16] == data[16 * k..16 * k + 16];
      if mode == 1 {
        core := EncryptBlock(e, data, 16 * k, core);
      } else {
        core := DecryptBlock(e, data, 16 * k, core);
      }
      k := k + 1;
    }
    assert s[16 * k..] == s[len / 16 * 16..];
  }

  method EncryptRest(e: Cipher, data: array<u8>, at: nat, n: nat, core: Core) returns (after: Core)
    requires at + n <= data.Length && n < 16
    modifies data
    ensures after == EncryptTail(e, core, old(data[at..at + n])).0
    ensures data[..] == old(data[..at]) + EncryptTail(e, core, old(data[at..at + n])).1 + old(data[at + n..])
  {
    hide Reverse, Xor, Increment, Padded;
    after := core;
    if n > 0 {
      ZeroReversed();
      var rem := LoadTail(data, at, n, Zero());
      ReverseTwice(rem);
      var iv, mac := core.iv, Xor(core.mac, rem);
      rem := Xor(rem, e(iv));
      iv := Increment(iv);
      mac := e(mac);
      StoreTail(data, at, n, rem);
      after := Core(iv, mac);
    } else {
      assert data[..] == data[..at] + data[at..];
    }
  }

  /** The unused bytes of the last block are filled with key stream before the ciphertext is put over it. */
  method DecryptRest(e: Cipher, data: array<u8>, at: nat, n: nat, core: Core, counter: Block) returns (after: Core)
    requires at + n <= data.Length && n < 16
    modifies data
    ensures after == DecryptTail(e, core, counter, old(data[at..at + n])).0
    ensures data[..] == old(data[..at]) + DecryptTail(e, core, counter, old(data[at..at + n])).1 + old(data[at + n..])
  {
    hide Reverse, Xor, Increment, Padded;
    after := core;
    if n > 0 {
      var iv := counter;
      var rem := LoadTail(data, at, n, Xor(Zero(), e(iv)));
      ReverseTwice(rem);
      rem := Xor(rem, e(iv));
      iv := Increment(iv);
      var mac := e(Xor(core.mac, rem));
      StoreTail(data, at, n, rem);
      after := Core(iv, mac);
    } else {
      assert data[..] == data[..at] + data[at..];
    }
  }

  lemma ZeroReversed()
    ensures Reverse(Zero()) == Zero()
  {
  }

  method LoadNonce(data: array<u8>, len: nat) returns (nonce: seq<u8>)
    requires data.Length >= len + FOOTER
    ensures nonce == Nonce(data[..], len)
  {
    nonce := [];
    for i := 0 to 12
      invariant nonce == Nonce(data[..], len)[..i]
    {
      nonce := nonce + [data[len + 0x1C - i]];
    }
  }

  method CompareMac(data: array<u8>, at: nat, mac: Block) returns (same: bool)
    requires at + 16 <= data.Length
    ensures same <==> data[at..at + 16] == Reverse(mac)
  {
    for i := 0 to 16
      invariant data[at..at + i] == Reverse(mac)[..i]
    {
      if data[at + i] != mac[15 - i] {
        assert data[at..at + 16][i] != Reverse(mac)[i];
        return false;
      }
    }
    return true;
  }

  /** The body loop and the partial block, of both routines. */
  method CryptBody(e: Cipher, mode: nat, data: array<u8>, len: u32, nonce: seq<u8>) returns (mac: Block)
    requires mode <= 1 && data.Length >= len + FOOTER && |nonce| == 12
    modifies data
    ensures mode == 1 ==> (Reverse(mac), data[..len]) == EncryptBody(e, nonce, old(data[..]), len)
    ensures mode == 0 ==> (Reverse(mac), data[..len]) == DecryptBody(e, nonce, old(data[..]), len)
    ensures data[len..] == old(data[len..])
  {
    hide Start, Coarse, EncryptTail, DecryptTail, Reverse, CounterBlock, FinalMac;
    ghost var s := data[..];
    var at := len / 16 * 16;
    var core := CryptCoarse(e, mode, data, len, Start(e, nonce, len));
    ghost var done := data[..at];
    assert data[at..len] == s[at..len] && data[len..] == s[len..];
    if mode == 1 {
      core := EncryptRest(e, data, at, len - at, core);
    } else {
      core := DecryptRest(e, data, at, len - at, core, CounterBlock(nonce, len / 16 + 1));
    }
    assert data[..len] == done + data[at..len];
    mac := FinalMac(e, core);
  }

  method StoreFooter(data: array<u8>, len: u32, footer: Block)
    requires data.Length >= len + FOOTER
    modifies data
    ensures data[..] == old(data[..len + 0x10]) + [footer[15]] + old(data[len + 0x11..len + 0x1D])
                      + [footer[2], footer[1], footer[0]] + old(data[len + FOOTER..])
  {
    data[len + 0x10] := footer[15];
    data[len + 0x1D] := footer[2];
    data[len + 0x1E] := footer[1];
    data[len + 0x1F] := footer[0];
  }

  lemma TailSlice(head: seq<u8>, s: seq<u8>, i: nat, j: nat)
    requires |head| <= i <= j <= |s|
    ensures var t := head + s[|head|..]; |t| == |s| && t[i..j] == s[i..j] && (i < |s| ==> t[i] == s[i])
  {
    var t := head + s[|head|..];
    forall k | i <= k < j ensures t[k] == s[k] {
      assert s[|head|..][k - |head|] == s[k];
    }
  }

  /** The slices of a buffer made of a body, 16 bytes and the end of another buffer. */
  lemma Behind(body: seq<u8>, mac: seq<u8>, s: seq<u8>, len: nat)
    requires |body| == len && |mac| == 16 && |s| >= len + FOOTER
    ensures var t := body + mac + s[len + 0x10..];
            && |t| == |s| && t[..len + 0x10] == body + mac && t[len + 0x10] == s[len + 0x10]
            && t[len + 0x11..len + 0x1D] == s[len + 0x11..len + 0x1D]
            && t[len + 0x1D..len + FOOTER] == s[len + 0x1D..len + FOOTER] && t[len + FOOTER..] == s[len + FOOTER..]
            && t[len + 0x10..len + FOOTER] == s[len + 0x10..len + FOOTER]
            && t[len..len + 0x10] == mac
  {
    var head := body + mac;
    TailSlice(head, s, len + 0x10, len + FOOTER);
    TailSlice(head, s, len + 0x11, len + 0x1D);
    TailSlice(head, s, len + 0x1D, len + FOOTER);
    TailSlice(head, s, len + FOOTER, |s|);
    var t := head + s[len + 0x10..];
    assert t[..len + 0x10] == head && t[len..len + 0x10] == head[len..] == mac;
  }

  /** The footer bytes that are not read stay open: the source leaves them uninitialised. */
  method EsEncrypt(e: Cipher, data: array<u8>, len: u32, junk: Block) returns (ok: bool)
    requires data.Length >= len + FOOTER
    modifies data
    ensures ok && data[..] == Encrypted(e, old(data[..]), len)
    ensures IsEncryption(e, old(data[..]), data[..], len)
  {
    hide IsEncryption, EncryptBody, Reverse, XorByte, Bytes24, Nonce;
    ghost var s := data[..];
    var nonce := LoadNonce(data, len);
    var mac := CryptBody(e, 1, data, len, nonce);
    ghost var body := data[..len];
    assert data[len + 0x10..] == data[len..][0x10..] == s[len + 0x10..];
    StoreBlock(data, len, mac);
    Behind(body, Reverse(mac), s, len);
    SameNonce(s, data[..], len);
    nonce := LoadNonce(data, len);
    var size := Bytes24(len);
    var footer: Block := junk[15 := 0x3A][2 := size[0]][1 := size[1]][0 := size[2]];
    footer := Xor(footer, e([0, 0, 0] + nonce + [0]));
    StoreFooter(data, len, footer);
    EncryptedIsCcm(e, s, len);
    return true;
  }

  /** The footer as loaded, reversed, and decrypted: the flag and the three length bytes. */
  lemma FooterDecrypts(s: seq<u8>, len: nat, key: Block)
    requires |s| >= len + FOOTER
    ensures var f := Xor(Reverse(s[len + 0x10..len + FOOTER]), key);
            && f[15] == XorByte(s[len + 0x10], key[15])
            && [f[2], f[1], f[0]] == SizeBytes(s[len + 0x1D..len + FOOTER], key)
  {
    hide XorByte;
    var f := Reverse(s[len + 0x10..len + FOOTER]);
    assert f[15] == s[len + 0x10] && f[2] == s[len + 0x1D] && f[1] == s[len + 0x1E] && f[0] == s[len + 0x1F];
  }

  /** The two outputs of ESDecrypt from its parts. */
  lemma DecryptedFrom(e: Cipher, s: seq<u8>, len: u32, footer: Block)
    requires |s| >= len + FOOTER
    requires footer == Xor(Reverse(s[len + 0x10..len + FOOTER]), FooterKey(e, Nonce(s, len)))
    ensures var (mac, body) := DecryptBody(e, Nonce(s, len), s, len);
            var stored := s[len..len + 0x10];
            Decrypted(e, s, len) ==
              (Value24([footer[2], footer[1], footer[0]]) == len && stored == mac,
               body + stored + [footer[15]] + s[len + 0x11..len + 0x1D] + [footer[2], footer[1], footer[0]] + s[len + FOOTER..])
  {
    hide DecryptBody, Nonce, Xor, Reverse, Value24, SizeBytes, FooterKey, XorByte;
    FooterDecrypts(s, len, FooterKey(e, Nonce(s, len)));
  }

  method EsDecrypt(e: Cipher, data: array<u8>, len: u32) returns (ok: bool)
    requires data.Length >= len + FOOTER
    modifies data
    ensures (ok, data[..]) == Decrypted(e, old(data[..]), len)
    ensures IsDecryption(e, old(data[..]), ok, data[..], len)
  {
    hide IsDecryption, DecryptBody, Decrypted, Xor, XorByte, Nonce, Reverse, Value24;
    ghost var s := data[..];
    var nonce := LoadNonce(data, len);
    var mac := CryptBody(e, 0, data, len, nonce);
    ghost var body, stored := data[..len], s[len..len + 0x10];
    assert data[len..] == s[len..] == stored + s[len + 0x10..];
    assert data[..] == body + data[len..] == body + stored + s[len + 0x10..];
    Behind(body, stored, s, len);
    SameNonce(s, data[..], len);
    nonce := LoadNonce(data, len);
    var footer := LoadBlock(data, len + 0x10);
    assert data[len + 0x10..len + FOOTER] == data[..][len + 0x10..len + FOOTER];
    footer := Xor(footer, e([0, 0, 0] + nonce + [0]));
    DecryptedFrom(e, s, len, footer);
    DecryptedIsCcm(e, s, len);
    StoreFooter(data, len, footer);
    assert data[len..len + 0x10] == stored;
    if Value24([footer[2], footer[1], footer[0]]) != len {
      return false;
    }
    ok := CompareMac(data, len, mac);
  }
}
