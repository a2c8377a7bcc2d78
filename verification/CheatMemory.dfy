/** What the writes of a cheat (src/AREngine.cpp) do to memory, byte by byte. Memory here is the plain RAM behind
    ARM7Read and ARM7Write of src/NDS.cpp, which drop the low bits of the address of a halfword or word. */
module CheatMemory {
  import opened Machine
  import opened CheatEngine
  import Division

  type Bytes = u32 -> u8

  /** Memory after one write. */
  function Put(m: Bytes, w: Access): Bytes {
    (x: u32) => if w.size > 0 && x / w.size == w.addr / w.size then Byte(w.val, x % w.size) else m(x)
  }

  /** Byte j of a value in memory order. */
  function Byte(v: u32, j: nat): u8 {
    if j == 0 then v % 0x100 else Byte(v / 0x100, j - 1)
  }

  /** Memory after a sequence of writes. */
  function After(m: Bytes, log: seq<Access>): Bytes {
    if log == [] then m else Put(After(m, log[..|log| - 1]), log[|log| - 1])
  }

  lemma AfterOne(m: Bytes, log: seq<Access>, w: Access)
    ensures After(m, log + [w]) == Put(After(m, log), w)
  {
    assert (log + [w])[..|log + [w]| - 1] == log;
  }

  /** What a read of 1, 2 or 4 bytes returns. */
  function Fetch(m: Bytes, size: nat, addr: u32): u32 {
    if size == 1 then m(addr)
    else if size == 2 then m(addr / 2 * 2) + 0x100 * m(addr / 2 * 2 + 1)
    else var w := addr / 4 * 4; m(w) + 0x100 * m(w + 1) + 0x1_0000 * m(w + 2) + 0x100_0000 * m(w + 3)
  }

  /** A bus that reads what has been written, and the given memory where nothing has. */
  function Ram(m: Bytes): Bus {
    (log, size, addr) => Fetch(After(m, log), size, addr)
  }

  // ---- single writes and reads

  lemma WordBytes(v: u32)
    ensures Byte(v, 0) + 0x100 * Byte(v, 1) + 0x1_0000 * Byte(v, 2) + 0x100_0000 * Byte(v, 3) == v
  {
    assert v == v / 0x100 * 0x100 + v % 0x100;
    assert Byte(v, 1) == Byte(v / 0x100, 0) && Byte(v, 2) == Byte(v / 0x100, 1) == Byte(v / 0x100 / 0x100, 0);
    assert Byte(v, 3) == Byte(v / 0x100, 2) == Byte(v / 0x100 / 0x100, 1) == Byte(v / 0x100 / 0x100 / 0x100, 0);
  }

  lemma HalfBytes(v: u16)
    ensures Byte(v, 0) + 0x100 * Byte(v, 1) == v
  {
    assert Byte(v, 1) == Byte(v / 0x100, 0);
  }

  lemma PutAt(m: Bytes, size: nat, addr: u32, v: u32, j: nat)
    requires j < size && (size == 1 || size == 2 || size == 4)
    ensures addr / size * size + j < TWO_32 && Put(m, Write(size, addr, v))(addr / size * size + j) == Byte(v, j)
  {
    hide Byte;
    var x := addr / size * size + j;
    assert x / size == addr / size && x % size == j;
  }

  /** A read sees the last write to the same place. */
  lemma FetchPut(m: Bytes, size: nat, addr: u32, v: u32)
    requires size == 4 || (size == 2 && v < 0x1_0000) || (size == 1 && v < 0x100)
    ensures Fetch(Put(m, Write(size, addr, v)), size, addr) == v
  {
    PutAt(m, size, addr, v, 0);
    if size == 1 {
      assert Byte(v, 0) == v;
    } else {
      hide Put, Byte;
      PutAt(m, size, addr, v, 1);
      if size == 2 {
        HalfBytes(v);
      } else {
        PutAt(m, size, addr, v, 2);
        PutAt(m, size, addr, v, 3);
        WordBytes(v);
      }
    }
  }

  lemma ReadsRam(m: Bytes, log: seq<Access>, size: nat, addr: u32)
    requires size == 1 || size == 2 || size == 4
    ensures Read(Ram(m), log, size, addr) == Fetch(After(m, log), size, addr)
  {
  }

  lemma ReadBack(m: Bytes, log: seq<Access>, size: nat, addr: u32, v: u32)
    requires size == 4 || (size == 2 && v < 0x1_0000) || (size == 1 && v < 0x100)
    ensures Read(Ram(m), log + [Write(size, addr, v)], size, addr) == v
  {
    hide After, Put, Fetch, Read;
    AfterOne(m, log, Write(size, addr, v));
    FetchPut(After(m, log), size, addr, v);
    ReadsRam(m, log + [Write(size, addr, v)], size, addr);
  }

  /** D6, D7 and D8 store the low bytes of the data register and step past them; D9, DA and DB, one word, halfword
      or byte back, load what was stored. */
  lemma StoreThenLoad(m: Bytes, op: u8, a: u32, b: u32, r: Regs, log: seq<Access>)
    requires 0xD6 <= op <= 0xD8
    ensures var size := if op == 0xD6 then 4 else if op == 0xD7 then 2 else 1;
            var r' := SimpleRegs(op, a, b, r, log, Ram(m));
            var back := SimpleRegs(op + 3, a, (b - size) % TWO_32, r', SimpleLog(op, a, b, r, log), Ram(m));
            && r' == r.(offset := (r.offset + size) % TWO_32)
            && back == r'.(datareg := if size == 4 then r.datareg else r.datareg % (if size == 2 then 0x1_0000 else 0x100))
  {
    hide Read, Ram;
    var size := if op == 0xD6 then 4 else if op == 0xD7 then 2 else 1;
    var v := if size == 4 then r.datareg else r.datareg % (if size == 2 then 0x1_0000 else 0x100);
    SameSum(b, r.offset, size);
    ReadBack(m, log, size, Add(b, r.offset), v);
  }

  lemma SameSum(b: u32, offset: u32, size: nat)
    requires size <= 4
    ensures Add((b - size) % TWO_32, Add(offset, size)) == Add(b, offset)
  {
    assert (b - size) % TWO_32 == if b >= size then b - size else b - size + TWO_32;
    assert (offset + size) % TWO_32 == if offset + size < TWO_32 then offset + size else offset + size - TWO_32;
    assert b - size + TWO_32 + offset + size == b + offset + TWO_32;
    Cycle(b + offset);
  }

  lemma Cycle(x: int)
    ensures (x + TWO_32) % TWO_32 == x % TWO_32 == (x - TWO_32) % TWO_32
  {
  }

  /** Opcode 0 writes a word at the address plus the offset: B reads it into the offset, and with the offset at zero
      the IFs 3 to 6 compare with it. */
  lemma WordThenIf(m: Bytes, op: u8, a: u32, b: u32, r: Regs, log: seq<Access>, c: u32)
    requires op < 0x10 && a % 0x1000_0000 != 0
    ensures var (log', bus) := (SimpleLog(op, a, b, r, log), Ram(m));
            && SimpleRegs(0xB0, a, c, r, log', bus) == r.(offset := b)
            && (r.offset == 0 ==>
                  && (Test(0x30, a, c, 0, log', bus) <==> c > b) && (Test(0x40, a, c, 0, log', bus) <==> c < b)
                  && (Test(0x50, a, c, 0, log', bus) <==> c == b) && (Test(0x60, a, c, 0, log', bus) <==> c != b))
  {
    hide Read, Ram, And16;
    ReadBack(m, log, 4, Add(a % 0x1000_0000, r.offset), b);
  }

  /** Opcode 1 writes a halfword: the IFs 7 to 10 compare with its bits outside the mask. */
  lemma HalfThenIf(m: Bytes, op: u8, a: u32, b: u32, r: Regs, log: seq<Access>, c: u16, mask: u16)
    requires 0x10 <= op < 0x20 && a % 0x1000_0000 != 0 && r.offset == 0
    ensures var (log', bus, cm) := (SimpleLog(op, a, b, r, log), Ram(m), c + 0x1_0000 * mask);
            var v := And16(0xFFFF - mask, b % 0x1_0000);
            && (Test(0x70, a, cm, 0, log', bus) <==> c > v) && (Test(0x80, a, cm, 0, log', bus) <==> c < v)
            && (Test(0x90, a, cm, 0, log', bus) <==> c == v) && (Test(0xA0, a, cm, 0, log', bus) <==> c != v)
  {
    hide Read, Ram, And16;
    var cm: u32 := c + 0x1_0000 * mask;
    assert cm / 0x1_0000 == mask && cm % 0x1_0000 == c;
    ReadBack(m, log, 2, Add(a % 0x1000_0000, r.offset), b % 0x1_0000);
  }

  /** Opcode 2 writes a byte, C6 the offset. */
  lemma ByteAndOffset(m: Bytes, op: u8, a: u32, b: u32, r: Regs, log: seq<Access>)
    requires 0x20 <= op < 0x30 || op == 0xC6
    ensures var m' := After(m, SimpleLog(op, a, b, r, log));
            if op == 0xC6 then Fetch(m', 4, b) == r.offset
            else Fetch(m', 1, (a % 0x1000_0000 + r.offset) % TWO_32) == b % 0x100
  {
    hide After, Put, Fetch;
    var (size, addr, v) := if op == 0xC6 then (4, b, r.offset) else (1, Add(a % 0x1000_0000, r.offset), b % 0x100);
    AfterOne(m, log, Write(size, addr, v));
    FetchPut(After(m, log), size, addr, v);
  }

  // ---- E: copying the payload

  lemma {:induction false} SameByte(w: u32, j: nat)
    requires j < 4
    ensures ByteOf(w, j) == Byte(w, j)
  {
    assert w / 0x1_0000 == w / 0x100 / 0x100 && w / 0x100_0000 == w / 0x100 / 0x100 / 0x100;
    assert Byte(w, 1) == Byte(w / 0x100, 0) && Byte(w, 2) == Byte(w / 0x100, 1) == Byte(w / 0x100 / 0x100, 0);
    assert Byte(w, 3) == Byte(w / 0x100, 2) == Byte(w / 0x100 / 0x100, 1) == Byte(w / 0x100 / 0x100 / 0x100, 0);
  }

  /** How far x lies above an address, round the end of memory. */
  function Above(x: u32, base: u32): u32 {
    (x - base) % TWO_32
  }

  function Base(addr: u32): u32 {
    addr / 4 * 4
  }

  lemma AboveIs(x: u32, base: u32)
    ensures Above(x, base) == if x >= base then x - base else x - base + TWO_32
  {
  }

  lemma AddIs(x: u32, y: u32)
    ensures Add(x, y) == if x + y < TWO_32 then x + y else x + y - TWO_32
  {
  }

  /** The word k words on from an address is the one whose bytes lie 4 * k to 4 * k + 3 above its first. */
  lemma InWord(x: u32, dst: u32, k: nat)
    requires 4 * k < TWO_32
    ensures x / 4 == Add(dst, 4 * k) / 4 <==> Above(x, Base(dst)) / 4 == k
    ensures Above(x, Base(dst)) / 4 == k ==> x % 4 == Above(x, Base(dst)) % 4
  {
    AboveIs(x, Base(dst));
    AddIs(dst, 4 * k);
    var (q, e) := (dst / 4, dst % 4);
    assert dst == 4 * q + e;
    assert (dst + 4 * k) / 4 == q + k;
    assert (dst + 4 * k - TWO_32) / 4 == q + k - 0x4000_0000;
  }

  lemma AtByte(x: u32, dst: u32, j: nat)
    requires j < TWO_32
    ensures x == Add(dst, j) <==> Above(x, dst) == j
  {
    AboveIs(x, dst);
    AddIs(dst, j);
  }

  /** The first n writes of a copy: whole words, then single bytes. */
  lemma {:induction false} CopyPrefix(m: Bytes, log: seq<Access>, code: seq<u32>, at: nat, dst: u32, b: u32, n: nat, x: u32)
    requires at + Payload(b) <= |code| && n <= b / 4
    ensures n <= |CopyLog(code, at, dst, b)|
    ensures var i := Above(x, Base(dst));
            (i < 4 * n ==> at + i / 4 < |code|)
            && After(m, log + CopyLog(code, at, dst, b)[..n])(x) == if i < 4 * n then Byte(code[at + i / 4], i % 4) else After(m, log)(x)
  {
    hide CopyLog, After, Byte, Base, Payload;
    var all := CopyLog(code, at, dst, b);
    CopyLength(code, at, dst, b);
    PayloadCovers(b);
    if n == 0 {
      assert log + all[..0] == log;
    } else {
      CopyPrefix(m, log, code, at, dst, b, n - 1, x);
      CopyWordAt(code, at, dst, b, n - 1);
      assert log + all[..n] == (log + all[..n - 1]) + [all[n - 1]];
      AfterOne(m, log + all[..n - 1], all[n - 1]);
      InWord(x, dst, n - 1);
    }
  }

  lemma {:induction false} CopyTail(m: Bytes, log: seq<Access>, code: seq<u32>, at: nat, dst: u32, b: u32, j: nat, x: u32)
    requires at + Payload(b) <= |code| && j <= b % 4
    ensures var all := CopyLog(code, at, dst, b);
            var (w, i) := (b / 4, Above(x, Add(dst, 4 * (b / 4))));
            && w + j <= |all| && (j > 0 ==> at + w < |code|)
            && After(m, log + all[..w + j])(x) == if i < j then Byte(code[at + w], i) else After(m, log + all[..w])(x)
  {
    hide CopyLog, After, Byte, Payload, ByteOf;
    var all := CopyLog(code, at, dst, b);
    CopyLength(code, at, dst, b);
    PayloadCovers(b);
    var w := b / 4;
    if j > 0 {
      CopyTail(m, log, code, at, dst, b, j - 1, x);
      CopyByteAt(code, at, dst, b, j - 1);
      assert log + all[..w + j] == (log + all[..w + j - 1]) + [all[w + j - 1]];
      AfterOne(m, log + all[..w + j - 1], all[w + j - 1]);
      Adds(dst, 4 * w, j - 1);
      AtByte(x, Add(dst, 4 * w), j - 1);
      SameByte(code[at + w], j - 1);
      ByteZero(code[at + w], j - 1);
    }
  }

  lemma ByteZero(w: u32, j: nat)
    requires j < 4
    ensures Byte(Byte(w, j), 0) == Byte(w, j)
  {
  }

  /** What an E opcode leaves in memory, for every destination: the whole words of the payload from the word the
      destination lies in, then the bytes left over where the destination itself says. */
  lemma CopyIsExact(m: Bytes, log: seq<Access>, code: seq<u32>, at: nat, dst: u32, b: u32, x: u32)
    requires at + Payload(b) <= |code|
    ensures var (whole, tail) := (Above(x, Base(dst)), Above(x, Add(dst, 4 * (b / 4))));
            && (tail < b % 4 ==> at + b / 4 < |code|) && (whole < 4 * (b / 4) ==> at + whole / 4 < |code|)
            && After(m, log + CopyLog(code, at, dst, b))(x)
               == if tail < b % 4 then Byte(code[at + b / 4], tail)
                  else if whole < 4 * (b / 4) then Byte(code[at + whole / 4], whole % 4)
                  else After(m, log)(x)
  {
    hide CopyLog, After, Byte, Base, Payload;
    CopyLength(code, at, dst, b);
    CopyTail(m, log, code, at, dst, b, b % 4, x);
    CopyPrefix(m, log, code, at, dst, b, b / 4, x);
    var all := CopyLog(code, at, dst, b);
    assert all[..b / 4 + b % 4] == all;
  }

  /** At a word boundary, or with less than a word to copy, byte i of the payload lands i bytes above the
      destination, and nothing else changes. */
  lemma CopyIsPlain(m: Bytes, log: seq<Access>, code: seq<u32>, at: nat, dst: u32, b: u32, x: u32)
    requires at + Payload(b) <= |code| && (dst % 4 == 0 || b < 4)
    ensures var i := Above(x, dst);
            && (i < b ==> at + i / 4 < |code|)
            && After(m, log + CopyLog(code, at, dst, b))(x) == if i < b then Byte(code[at + i / 4], i % 4) else After(m, log)(x)
  {
    hide CopyLog, After, Byte, Payload;
    CopyIsExact(m, log, code, at, dst, b, x);
    PayloadCovers(b);
    AddIs(dst, 4 * (b / 4));
    AboveIs(x, dst);
    AboveIs(x, Add(dst, 4 * (b / 4)));
  }

  // ---- F: copying memory

  /** After how many bytes a forward copy meets its own output. */
  function Period(src: u32, dst: u32): (p: nat)
    ensures 0 < p <= TWO_32
  {
    if src == dst then TWO_32 else Above(dst, src)
  }

  /** Memory after a forward copy of n bytes: what lies between the source and a destination less than n bytes
      above it is repeated. */
  function Slid(m: Bytes, src: u32, dst: u32, n: nat): Bytes {
    (x: u32) => SlidAt(m, src, dst, n, x)
  }

  function SlidAt(m: Bytes, src: u32, dst: u32, n: nat, x: u32): u8 {
    if Above(x, dst) < n then m(Add(src, Above(x, dst) % Period(src, dst))) else m(x)
  }

  /** Copying one unit, a byte or an aligned word, and then the rest one unit on, is copying all. */
  lemma SlideStep(m: Bytes, m1: Bytes, src: u32, dst: u32, u: nat, n: u32, x: u32)
    requires (u == 1 || u == 4) && src % u == dst % u == n % u == 0 && u <= n
    requires forall y :: m1(y) == if Above(y, dst) < u then m(Add(src, Above(y, dst))) else m(y)
    ensures Slid(m1, Add(src, u), Add(dst, u), n - u)(x) == Slid(m, src, dst, n)(x)
  {
    hide Above, Period, Add;
    var (i, p) := (Above(x, dst), Period(src, dst));
    Ahead(x, dst, u);
    PeriodKept(src, dst, u);
    PeriodUnits(src, dst, u);
    if i < u {
      Small(i, p);
    } else if i < n {
      var j := (i - u) % p;
      Turn(i, u, p);
      Adds(src, u, j);
      var z := Add(src, u + j);
      SourceByte(src, dst, u, j);
    }
  }

  lemma Small(i: nat, p: nat)
    requires i < p
    ensures i % p == i
  {
  }

  lemma Ahead(x: u32, dst: u32, u: nat)
    requires 0 < u <= 4
    ensures Above(x, Add(dst, u)) == if Above(x, dst) >= u then Above(x, dst) - u else Above(x, dst) - u + TWO_32
  {
    AddIs(dst, u);
    AboveIs(x, dst);
    AboveIs(x, Add(dst, u));
  }

  lemma PeriodKept(src: u32, dst: u32, u: nat)
    requires 0 < u <= 4
    ensures Period(Add(src, u), Add(dst, u)) == Period(src, dst)
  {
    AddIs(dst, u);
    AddIs(src, u);
    AboveIs(dst, src);
    AboveIs(Add(dst, u), Add(src, u));
  }

  lemma PeriodUnits(src: u32, dst: u32, u: nat)
    requires (u == 1 || u == 4) && src % u == dst % u == 0
    ensures Period(src, dst) % u == 0 && u <= Period(src, dst) <= TWO_32
  {
    AboveIs(dst, src);
  }

  lemma Turn(i: nat, u: nat, p: nat)
    requires 0 < u <= i && u <= p
    ensures var j := (i - u) % p;
            && u + j < p + u && i % p == if u + j < p then u + j else u + j - p
  {
    var (q, j) := ((i - u) / p, (i - u) % p);
    Division.Divides(i - u, p);
    if u + j < p {
      Division.QuotientOf(i, q, p, u + j);
    } else {
      Division.Distribute(q, 1, p);
      Division.QuotientOf(i, q + 1, p, u + j - p);
    }
  }

  lemma SourceByte(src: u32, dst: u32, u: nat, j: nat)
    requires (u == 1 || u == 4) && src % u == dst % u == 0 && j < Period(src, dst) && u + j < TWO_32
    ensures var (z, p) := (Above(Add(src, u + j), dst), Period(src, dst));
            if u + j < p then z >= u else z == u + j - p < u
  {
    AddIs(src, u + j);
    AboveIs(dst, src);
    AboveIs(Add(src, u + j), dst);
  }

  lemma BytesOfWord(b0: u8, b1: u8, b2: u8, b3: u8)
    ensures var v := b0 + 0x100 * b1 + 0x1_0000 * b2 + 0x100_0000 * b3;
            Byte(v, 0) == b0 && Byte(v, 1) == b1 && Byte(v, 2) == b2 && Byte(v, 3) == b3
  {
    var v := b0 + 0x100 * b1 + 0x1_0000 * b2 + 0x100_0000 * b3;
    var w := b1 + 0x100 * b2 + 0x1_0000 * b3;
    assert v % 0x100 == b0 && v / 0x100 == w;
    assert w % 0x100 == b1 && w / 0x100 == b2 + 0x100 * b3;
    assert Byte(v, 1) == Byte(w, 0) && Byte(v, 2) == Byte(w, 1) == Byte(b2 + 0x100 * b3, 0);
    assert Byte(v, 3) == Byte(w, 2) == Byte(b2 + 0x100 * b3, 1) == Byte(b3, 0);
  }

  lemma WordMoved(m: Bytes, src: u32, dst: u32, y: u32)
    ensures Put(m, Write(4, dst, Fetch(m, 4, src)))(y)
         == if Above(y, Base(dst)) < 4 then m(Add(Base(src), Above(y, Base(dst)))) else m(y)
  {
    hide Above, Byte;
    InWord(y, dst, 0);
    AddsNothing(dst);
    BytesOfWord(m(Base(src)), m(Base(src) + 1), m(Base(src) + 2), m(Base(src) + 3));
    if y / 4 == dst / 4 {
      AddIs(Base(src), y % 4);
    }
  }

  lemma ByteMoved(m: Bytes, src: u32, dst: u32, y: u32)
    ensures Put(m, Write(1, dst, Fetch(m, 1, src)))(y) == if Above(y, dst) < 1 then m(Add(src, Above(y, dst))) else m(y)
  {
    AtByte(y, dst, 0);
    AddsNothing(dst);
    AddsNothing(src);
    assert y / 1 == y && dst / 1 == dst && y % 1 == 0;
    assert Byte(m(src), 0) == m(src);
  }

  /** The last bytes of an F opcode, one at a time. */
  lemma {:induction false} MoveTail(m: Bytes, log: seq<Access>, src: u32, dst: u32, left: nat, x: u32)
    requires left < 4
    ensures After(m, MoveLog(Ram(m), log, src, dst, left))(x) == Slid(After(m, log), src, dst, left)(x)
    decreases left
  {
    hide After, Put, Fetch, Ram, Read, Above, Period;
    if left > 0 {
      var w := Write(1, dst, Read(Ram(m), log, 1, src));
      MoveTail(m, log + [w], Add(src, 1), Add(dst, 1), left - 1, x);
      AfterOne(m, log, w);
      ReadsRam(m, log, 1, src);
      forall y: u32 ensures After(m, log + [w])(y) == if Above(y, dst) < 1 then After(m, log)(Add(src, Above(y, dst))) else After(m, log)(y) {
        ByteMoved(After(m, log), src, dst, y);
      }
      assert src % 1 == 0 && dst % 1 == 0 && left % 1 == 0;
      SlideStep(After(m, log), After(m, log + [w]), src, dst, 1, left, x);
    }
  }

  /** What an F opcode leaves in memory, for every source and destination: first the whole words, from the word the
      source lies in to the word the destination lies in, then the bytes left over. */
  lemma {:induction false} MoveIsExact(m: Bytes, log: seq<Access>, src: u32, dst: u32, b: u32, x: u32)
    ensures var n := b / 4 * 4;
            After(m, MoveLog(Ram(m), log, src, dst, b))(x)
            == Slid(Slid(After(m, log), Base(src), Base(dst), n), Add(src, n), Add(dst, n), b % 4)(x)
    decreases b
  {
    hide After, Put, Fetch, Ram, Read, Above, Period, Base, Add, SlidAt;
    var m0 := After(m, log);
    if b < 4 {
      MoveTail(m, log, src, dst, b, x);
      AddsNothing(src);
      AddsNothing(dst);
      NothingSlid(m0, src, dst, b, x);
    } else {
      WordThenRest(m, log, src, dst, b, x);
      MoveIsExact(m, log + [Write(4, dst, Read(Ram(m), log, 4, src))], Add(src, 4), Add(dst, 4), b - 4, x);
    }
  }

  lemma WordThenRest(m: Bytes, log: seq<Access>, src: u32, dst: u32, b: u32, x: u32)
    requires b >= 4
    ensures var (n, left) := (b / 4 * 4, (b - 4) / 4 * 4);
            var m1 := After(m, log + [Write(4, dst, Read(Ram(m), log, 4, src))]);
            Slid(Slid(m1, Base(Add(src, 4)), Base(Add(dst, 4)), left), Add(Add(src, 4), left), Add(Add(dst, 4), left), (b - 4) % 4)(x)
            == Slid(Slid(After(m, log), Base(src), Base(dst), n), Add(src, n), Add(dst, n), b % 4)(x)
  {
    hide After, Put, Fetch, Ram, Read, Above, Period, Base, Add, SlidAt;
    var (n, m0) := (b / 4 * 4, After(m, log));
    var w := Write(4, dst, Read(Ram(m), log, 4, src));
    var m1 := After(m, log + [w]);
    AfterOne(m, log, w);
    ReadsRam(m, log, 4, src);
    forall y: u32 ensures m1(y) == if Above(y, Base(dst)) < 4 then m0(Add(Base(src), Above(y, Base(dst)))) else m0(y) {
      WordMoved(m0, src, dst, y);
    }
    assert (b - 4) / 4 * 4 == n - 4 && (b - 4) % 4 == b % 4;
    Adds(src, 4, n - 4);
    Adds(dst, 4, n - 4);
    AllSteps(m0, m1, src, dst, n);
    SameSlid(Slid(m1, Base(Add(src, 4)), Base(Add(dst, 4)), n - 4), Slid(m0, Base(src), Base(dst), n), Add(src, n), Add(dst, n), b % 4, x);
  }

  lemma AllSteps(m0: Bytes, m1: Bytes, src: u32, dst: u32, n: u32)
    requires n % 4 == 0 && 4 <= n
    requires forall y :: m1(y) == if Above(y, Base(dst)) < 4 then m0(Add(Base(src), Above(y, Base(dst)))) else m0(y)
    ensures forall y: u32 :: Slid(m1, Base(Add(src, 4)), Base(Add(dst, 4)), n - 4)(y) == Slid(m0, Base(src), Base(dst), n)(y)
  {
    hide Above, Period, Base, Add, SlidAt;
    BaseNext(src);
    BaseNext(dst);
    forall y: u32 ensures Slid(m1, Base(Add(src, 4)), Base(Add(dst, 4)), n - 4)(y) == Slid(m0, Base(src), Base(dst), n)(y) {
      SlideStep(m0, m1, Base(src), Base(dst), 4, n, y);
    }
  }

  lemma SameSlid(m: Bytes, m': Bytes, src: u32, dst: u32, n: nat, x: u32)
    requires forall y :: m(y) == m'(y)
    ensures Slid(m, src, dst, n)(x) == Slid(m', src, dst, n)(x)
  {
  }

  lemma NothingSlid(m: Bytes, src: u32, dst: u32, n: nat, x: u32)
    ensures Slid(Slid(m, Base(src), Base(dst), 0), src, dst, n)(x) == Slid(m, src, dst, n)(x)
  {
  }

  lemma BaseNext(a: u32)
    ensures Base(Add(a, 4)) == Add(Base(a), 4) && Base(a) % 4 == 0
  {
    AddIs(a, 4);
    AddIs(Base(a), 4);
    assert a == 4 * (a / 4) + a % 4;
    assert (a + 4) / 4 == a / 4 + 1;
    assert (a + 4 - TWO_32) / 4 == a / 4 + 1 - 0x4000_0000;
  }

  lemma FurtherOn(x: u32, dst: u32, n: u32)
    ensures Above(x, Add(dst, n)) == if Above(x, dst) >= n then Above(x, dst) - n else Above(x, dst) - n + TWO_32
  {
    AddIs(dst, n);
    AboveIs(x, dst);
    AboveIs(x, Add(dst, n));
  }

  lemma PeriodFurther(src: u32, dst: u32, n: u32)
    ensures Period(Add(src, n), Add(dst, n)) == Period(src, dst)
  {
    AddIs(dst, n);
    AddIs(src, n);
    AboveIs(dst, src);
    AboveIs(Add(dst, n), Add(src, n));
  }

  lemma OwnOutput(src: u32, dst: u32, i: u32)
    ensures Above(Add(src, i), dst) == if i < Period(src, dst) < TWO_32 then i - Period(src, dst) + TWO_32
                                       else if Period(src, dst) == TWO_32 then i else i - Period(src, dst)
  {
    AddIs(src, i);
    AboveIs(dst, src);
    AboveIs(Add(src, i), dst);
  }

  lemma OneTurnLess(i: nat, p: nat)
    requires 0 < p <= i
    ensures (i - p) % p == i % p
  {
    Division.Divides(i, p);
    Division.Multiple(i / p, p);
    Division.Distribute(i / p, -1, p);
    Division.QuotientOf(i - p, i / p - 1, p, i % p);
  }

  /** Between word boundaries the words and the bytes left over make up one copy. */
  lemma SlidTwice(m: Bytes, src: u32, dst: u32, n: nat, r: nat, x: u32)
    requires src % 4 == dst % 4 == n % 4 == 0 && r < 4 && n + r < TWO_32
    ensures SlidAt(Slid(m, src, dst, n), Add(src, n), Add(dst, n), r, x) == SlidAt(m, src, dst, n + r, x)
  {
    hide Above, Period, Add;
    var (i, p) := (Above(x, dst), Period(src, dst));
    FurtherOn(x, dst, n);
    PeriodFurther(src, dst, n);
    PeriodUnits(src, dst, 4);
    if n <= i < n + r {
      Small(i - n, p);
      Adds(src, n, i - n);
      OwnOutput(src, dst, i);
      if p <= i {
        OneTurnLess(i, p);
      } else {
        Small(i, p);
      }
    }
  }

  lemma AlignedBase(a: u32)
    requires a % 4 == 0
    ensures Base(a) == a
  {
  }

  lemma MoveAligned(m: Bytes, log: seq<Access>, src: u32, dst: u32, b: u32, x: u32)
    requires src % 4 == dst % 4 == 0
    ensures After(m, MoveLog(Ram(m), log, src, dst, b))(x) == SlidAt(After(m, log), src, dst, b, x)
  {
    hide After, Above, Period, Base, Add, SlidAt, MoveLog, Ram, Put, Fetch;
    AlignedBase(src);
    AlignedBase(dst);
    MoveIsExact(m, log, src, dst, b, x);
    SlidTwice(After(m, log), src, dst, b / 4 * 4, b % 4, x);
  }

  /** Whether an F opcode leaves every byte i of the source i bytes above the destination, and nothing else. */
  predicate MovesPlainly(m: Bytes, src: u32, dst: u32, b: u32, x: u32) {
    After(m, MoveLog(Ram(m), [], src, dst, b))(x) == if Above(x, dst) < b then m(Add(src, Above(x, dst))) else m(x)
  }

  /** Between word boundaries the copy is a plain one, whatever memory holds, if and only if the destination is the
      source itself or does not begin among the source's bytes. */
  lemma MovesPlainlyIff(src: u32, dst: u32, b: u32)
    requires src % 4 == dst % 4 == 0
    ensures (forall m: Bytes, x: u32 :: MovesPlainly(m, src, dst, b, x)) <==> src == dst || Above(dst, src) >= b
  {
    hide MoveLog, Ram, Above;
    if src == dst || Above(dst, src) >= b {
      forall m: Bytes, x: u32 ensures MovesPlainly(m, src, dst, b, x) {
        MoveAligned(m, [], src, dst, b, x);
        if Above(x, dst) < b {
          Small(Above(x, dst), Period(src, dst));
        }
      }
    } else {
      var mark: Bytes := (y: u32) => if y == src then 1 else 0;
      var d := Above(dst, src);
      var x := Add(dst, d);
      MoveAligned(mark, [], src, dst, b, x);
      AtByte(x, dst, d);
      AtByte(dst, src, d);
      AddsNothing(src);
      assert d % d == 0;
      assert !MovesPlainly(mark, src, dst, b, x);
    }
  }
}
