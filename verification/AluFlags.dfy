/** Flag arithmetic of the ARM cores (src/ARMInterpreter_ALU.cpp), the condition table (src/ARM.cpp) and the
    test that uses it (src/ARM.h). */
module AluFlags {
  import opened Machine

  const SIGN: int := 0x8000_0000

  datatype Flags = Flags(n: bool, z: bool, c: bool, v: bool)

  function Signed(x: u32): int {
    if x >= SIGN then x - TWO_32 else x
  }

  predicate Negative(x: u32) {
    x >= SIGN
  }

  /** A result cut to 32 bits. */
  function Wrap(x: int): u32 {
    x % TWO_32
  }

  lemma WrapIs(x: int)
    requires -TWO_32 <= x < 2 * TWO_32
    ensures Wrap(x) == if x < 0 then x + TWO_32 else if x < TWO_32 then x else x - TWO_32
  {
  }

  // ---- the source's tests on words

  predicate CarryAdd(a: u32, b: u32) {
    0xFFFF_FFFF - a < b
  }

  predicate CarrySub(a: u32, b: u32) {
    a >= b
  }

  predicate OverflowAdd(a: u32, b: u32) {
    Negative(a) == Negative(b) && Negative(a) != Negative(Wrap(a + b))
  }

  predicate OverflowSub(a: u32, b: u32) {
    Negative(a) != Negative(b) && Negative(a) != Negative(Wrap(a - b))
  }

  predicate OverflowAdc(a: u32, b: u32, carry: nat) {
    Signed(Wrap(a + b + carry)) != Signed(a) + Signed(b) + carry
  }

  predicate OverflowSbc(a: u32, b: u32, carry: nat) {
    Signed(Wrap(a - b - carry)) != Signed(a) - Signed(b) - carry
  }

  function Bit(c: bool): nat {
    if c then 1 else 0
  }

  // ---- the instructions

  function Adds(a: u32, b: u32): (u32, Flags) {
    var res := Wrap(a + b);
    (res, Flags(Negative(res), res == 0, CarryAdd(a, b), OverflowAdd(a, b)))
  }

  function Adcs(a: u32, b: u32, c: bool): (u32, Flags) {
    var tmp := Wrap(a + b);
    var res := Wrap(tmp + Bit(c));
    (res, Flags(Negative(res), res == 0, CarryAdd(a, b) || CarryAdd(tmp, Bit(c)), OverflowAdc(a, b, Bit(c))))
  }

  function Subs(a: u32, b: u32): (u32, Flags) {
    var res := Wrap(a - b);
    (res, Flags(Negative(res), res == 0, CarrySub(a, b), OverflowSub(a, b)))
  }

  function Sbcs(a: u32, b: u32, c: bool): (u32, Flags) {
    var tmp, borrow := Wrap(a - b), Bit(!c);
    var res := Wrap(tmp - borrow);
    (res, Flags(Negative(res), res == 0, CarrySub(a, b) && CarrySub(tmp, borrow), OverflowSbc(a, b, borrow)))
  }

  predicate InRange(x: int) {
    -SIGN <= x < SIGN
  }

  /** One word: C is the carry out of the unsigned sum and V tells that the signed sum does not fit. */
  lemma AdcIsExact(a: u32, b: u32, c: bool)
    ensures var (res, f) := Adcs(a, b, c);
            && res + TWO_32 * Bit(f.c) == a + b + Bit(c)
            && (f.v <==> !InRange(Signed(a) + Signed(b) + Bit(c)))
            && f.n == Negative(res) && f.z == (res == 0)
  {
    hide Wrap;
    WrapIs(a + b);
    WrapIs(Wrap(a + b) + Bit(c));
    WrapIs(a + b + Bit(c));
  }

  lemma AddIsAdc(a: u32, b: u32)
    ensures Adds(a, b) == Adcs(a, b, false)
  {
    hide Wrap;
    WrapIs(a + b);
    WrapIs(Wrap(a + b) + 0);
  }

  /** One word of a difference: C clear is the borrow. */
  lemma SbcIsExact(a: u32, b: u32, c: bool)
    ensures var (res, f) := Sbcs(a, b, c);
            && res - TWO_32 * Bit(!f.c) == a - b - Bit(!c)
            && (f.v <==> !InRange(Signed(a) - Signed(b) - Bit(!c)))
            && f.n == Negative(res) && f.z == (res == 0)
  {
    hide Wrap;
    WrapIs(a - b);
    WrapIs(Wrap(a - b) - Bit(!c));
    WrapIs(a - b - Bit(!c));
  }

  lemma SubIsSbc(a: u32, b: u32)
    ensures Subs(a, b) == Sbcs(a, b, true)
  {
    hide Wrap;
    WrapIs(a - b);
    WrapIs(Wrap(a - b) - 0);
  }

  // ---- chains over any number of words, lowest word first

  function Weight(n: nat): (w: nat)
    ensures w > 0
  {
    if n == 0 then 1 else TWO_32 * Weight(n - 1)
  }

  function Value(ws: seq<u32>): nat {
    if ws == [] then 0 else Value(ws[..|ws| - 1]) + Weight(|ws| - 1) * ws[|ws| - 1]
  }

  /** The number a two's-complement word sequence stands for. */
  function SignedValue(ws: seq<u32>): int
    requires ws != []
  {
    Value(ws[..|ws| - 1]) + Weight(|ws| - 1) * Signed(ws[|ws| - 1])
  }

  /** ADDS on the lowest words, ADCS on the rest. */
  function AddChain(a: seq<u32>, b: seq<u32>): (r: (seq<u32>, Flags))
    requires |a| == |b| > 0
    ensures |r.0| == |a|
  {
    var k := |a| - 1;
    if k == 0 then
      var (res, f) := Adds(a[0], b[0]);
      ([res], f)
    else
      var (low, f) := AddChain(a[..k], b[..k]);
      var (res, f') := Adcs(a[k], b[k], f.c);
      (low + [res], f')
  }

  /** SUBS on the lowest words, SBCS on the rest. */
  function SubChain(a: seq<u32>, b: seq<u32>): (r: (seq<u32>, Flags))
    requires |a| == |b| > 0
    ensures |r.0| == |a|
  {
    var k := |a| - 1;
    if k == 0 then
      var (res, f) := Subs(a[0], b[0]);
      ([res], f)
    else
      var (low, f) := SubChain(a[..k], b[..k]);
      var (res, f') := Sbcs(a[k], b[k], f.c);
      (low + [res], f')
  }

  lemma {:induction false} ValueBound(ws: seq<u32>)
    ensures Value(ws) < Weight(|ws|)
  {
    if ws != [] {
      var k := |ws| - 1;
      ValueBound(ws[..k]);
      Scale(Weight(k), ws[k]);
    }
  }

  lemma Scale(w: nat, x: u32)
    ensures w * x <= w * 0xFFFF_FFFF
  {
  }

  lemma ValueSnoc(low: seq<u32>, top: u32)
    ensures Value(low + [top]) == Value(low) + Weight(|low|) * top
    ensures SignedValue(low + [top]) == Value(low) + Weight(|low|) * Signed(top)
  {
    assert (low + [top])[..|low|] == low;
  }

  /** Whether n words of two's complement hold a number. */
  predicate Fits(x: int, n: nat)
    requires n > 0
  {
    -(Weight(n - 1) * SIGN) <= x < Weight(n - 1) * SIGN
  }

  lemma Columns(w: int, la: int, lb: int, lr: int, a: int, b: int, r: int, mid: int, out: int)
    requires lr + w * mid == la + lb && r + TWO_32 * out == a + b + mid
    ensures (lr + w * r) + (TWO_32 * w) * out == (la + w * a) + (lb + w * b)
  {
    assert w * r == w * (a + b + mid - TWO_32 * out) == w * a + w * b + w * mid - w * (TWO_32 * out);
    assert w * (TWO_32 * out) == (TWO_32 * w) * out;
  }

  lemma FitsIffTopFits(n: nat, low: int, top: int)
    requires n > 0 && 0 <= low < Weight(n - 1)
    ensures Fits(low + Weight(n - 1) * top, n) <==> InRange(top)
  {
    hide Weight;
    var w: int := Weight(n - 1);
    if top >= SIGN {
      Monotone(w, SIGN, top);
    } else if top < -SIGN {
      Monotone(w, top, -SIGN - 1);
      assert w * (-SIGN - 1) == -(w * SIGN) - w;
    } else {
      Monotone(w, top, SIGN - 1);
      Monotone(w, -SIGN, top);
      assert w * (SIGN - 1) == w * SIGN - w;
      assert w * -SIGN == -(w * SIGN);
    }
  }

  lemma Monotone(w: int, x: int, y: int)
    requires w >= 0 && x <= y
    ensures w * x <= w * y
  {
  }

  lemma Distribute(w: int, x: int, y: int, z: int)
    ensures w * (x + y + z) == w * x + w * y + w * z && w * (x - y - z) == w * x - w * y - w * z
    ensures w * -x == -(w * x)
  {
  }

  lemma OneWord(x: u32)
    ensures Value([x]) == x && SignedValue([x]) == Signed(x) && Weight(0) == 1
  {
    ValueSnoc([], x);
    assert [] + [x] == [x];
  }

  lemma ChainTop(ws: seq<u32>, k: nat)
    requires |ws| == k + 1
    ensures ws[..k] + [ws[k]] == ws
    ensures Value(ws) == Value(ws[..k]) + Weight(k) * ws[k] && SignedValue(ws) == Value(ws[..k]) + Weight(k) * Signed(ws[k])
    ensures Weight(k + 1) == TWO_32 * Weight(k)
  {
  }

  /** An ADDS/ADCS chain over n words, for every n, is the n-word sum: the result and the final C make up the
      exact sum, V is set exactly when the two's-complement sum does not fit n words, and N is its sign bit. */
  lemma {:induction false} AddChainIsSum(a: seq<u32>, b: seq<u32>)
    requires |a| == |b| > 0
    ensures var (res, f) := AddChain(a, b);
            && Value(res) + Weight(|a|) * Bit(f.c) == Value(a) + Value(b)
            && (f.v <==> !Fits(SignedValue(a) + SignedValue(b), |a|))
            && f.n == Negative(res[|a| - 1])
  {
    hide Adds, Adcs, Value, SignedValue, Fits, Weight;
    var k := |a| - 1;
    if k == 0 {
      AddIsAdc(a[0], b[0]);
      AdcIsExact(a[0], b[0], false);
      OneWord(a[0]);
      OneWord(b[0]);
      OneWord(Adds(a[0], b[0]).0);
      assert a == [a[0]] && b == [b[0]];
      ChainTop(a, 0);
      FitsIffTopFits(1, 0, Signed(a[0]) + Signed(b[0]));
    } else {
      AddChainIsSum(a[..k], b[..k]);
      var (low, f) := AddChain(a[..k], b[..k]);
      var (top, f') := Adcs(a[k], b[k], f.c);
      AdcIsExact(a[k], b[k], f.c);
      ValueSnoc(low, top);
      ChainTop(a, k);
      ChainTop(b, k);
      Columns(Weight(k), Value(a[..k]), Value(b[..k]), Value(low), a[k], b[k], top, Bit(f.c), Bit(f'.c));
      ValueBound(low);
      Distribute(Weight(k), Signed(a[k]), Signed(b[k]), Bit(f.c));
      FitsIffTopFits(k + 1, Value(low), Signed(a[k]) + Signed(b[k]) + Bit(f.c));
    }
  }

  /** A SUBS/SBCS chain is the n-word difference: C clear is the final borrow. */
  lemma {:induction false} SubChainIsDifference(a: seq<u32>, b: seq<u32>)
    requires |a| == |b| > 0
    ensures var (res, f) := SubChain(a, b);
            && Value(res) - Weight(|a|) * Bit(!f.c) == Value(a) - Value(b)
            && (f.v <==> !Fits(SignedValue(a) - SignedValue(b), |a|))
            && f.n == Negative(res[|a| - 1])
  {
    hide Subs, Sbcs, Value, SignedValue, Fits, Weight;
    var k := |a| - 1;
    if k == 0 {
      SubIsSbc(a[0], b[0]);
      SbcIsExact(a[0], b[0], true);
      OneWord(a[0]);
      OneWord(b[0]);
      OneWord(Subs(a[0], b[0]).0);
      assert a == [a[0]] && b == [b[0]];
      ChainTop(a, 0);
      FitsIffTopFits(1, 0, Signed(a[0]) - Signed(b[0]));
    } else {
      SubChainIsDifference(a[..k], b[..k]);
      var (low, f) := SubChain(a[..k], b[..k]);
      var (top, f') := Sbcs(a[k], b[k], f.c);
      SbcIsExact(a[k], b[k], f.c);
      ValueSnoc(low, top);
      ChainTop(a, k);
      ChainTop(b, k);
      var borrow, out := Bit(!f.c), Bit(!f'.c);
      Distribute(Weight(k), b[k], 0, 0);
      Distribute(Weight(k), borrow, 0, 0);
      Distribute(TWO_32 * Weight(k), out, 0, 0);
      Columns(Weight(k), Value(a[..k]), -(Value(b[..k]) as int), Value(low), a[k], -(b[k] as int), top, -(borrow as int), -(out as int));
      ValueBound(low);
      Distribute(Weight(k), Signed(a[k]), Signed(b[k]), borrow);
      FitsIffTopFits(k + 1, Value(low), Signed(a[k]) - Signed(b[k]) - borrow);
    }
  }

  // ---- conditions

  /** Bit nzcv of row `code` says whether the condition holds under those flags. */
  const CONDITION_TABLE: seq<u16> := [
    0xF0F0, 0x0F0F, 0xCCCC, 0x3333, 0xFF00, 0x00FF, 0xAAAA, 0x5555,
    0x0C0C, 0xF3F3, 0xAA55, 0x55AA, 0x0A05, 0xF5FA, 0xFFFF, 0x0000]

  function Nibble(f: Flags): nat {
    8 * Bit(f.n) + 4 * Bit(f.z) + 2 * Bit(f.c) + Bit(f.v)
  }

  predicate CheckCondition(code: nat, f: Flags)
    requires code < 16
  {
    code == 0xE || CONDITION_TABLE[code] / Pow2(Nibble(f)) % 2 == 1
  }

  /** The conditions in terms of the flags. */
  predicate Holds(code: nat, f: Flags) {
    match code
    case 0 => f.z
    case 1 => !f.z
    case 2 => f.c
    case 3 => !f.c
    case 4 => f.n
    case 5 => !f.n
    case 6 => f.v
    case 7 => !f.v
    case 8 => f.c && !f.z
    case 9 => !f.c || f.z
    case 10 => f.n == f.v
    case 11 => f.n != f.v
    case 12 => !f.z && f.n == f.v
    case 13 => f.z || f.n != f.v
    case 14 => true
    case _ => false
  }

  function Shift(n: nat): (r: nat)
    requires n < 16
    ensures r == Pow2(n)
  {
    Powers();
    [1, 2, 4, 8, 0x10, 0x20, 0x40, 0x80, 0x100, 0x200, 0x400, 0x800, 0x1000, 0x2000, 0x4000, 0x8000][n]
  }

  lemma Powers()
    ensures Pow2(0) == 1 && Pow2(1) == 2 && Pow2(2) == 4 && Pow2(3) == 8
    ensures Pow2(4) == 0x10 && Pow2(5) == 0x20 && Pow2(6) == 0x40 && Pow2(7) == 0x80
    ensures Pow2(8) == 0x100 && Pow2(9) == 0x200 && Pow2(10) == 0x400 && Pow2(11) == 0x800
    ensures Pow2(12) == 0x1000 && Pow2(13) == 0x2000 && Pow2(14) == 0x4000 && Pow2(15) == 0x8000
  {
  }

  /** Each row of the table spells out its condition for all sixteen flag combinations. */
  lemma TableIsConditions(code: nat, f: Flags)
    requires code < 16
    ensures CheckCondition(code, f) <==> Holds(code, f)
  {
    var k := Nibble(f);
    assert Pow2(k) == Shift(k);
    hide Pow2;
    if code < 4 {
      RowsTo4(code, f);
    } else if code < 8 {
      RowsTo8(code, f);
    } else if code < 12 {
      RowsTo12(code, f);
    } else {
      RowsTo16(code, f);
    }
  }

  lemma RowsTo4(code: nat, f: Flags)
    requires code < 4
    ensures CONDITION_TABLE[code] / Shift(Nibble(f)) % 2 == 1 <==> Holds(code, f)
  {
    hide Pow2;
  }

  lemma RowsTo8(code: nat, f: Flags)
    requires 4 <= code < 8
    ensures CONDITION_TABLE[code] / Shift(Nibble(f)) % 2 == 1 <==> Holds(code, f)
  {
    hide Pow2;
  }

  lemma RowsTo12(code: nat, f: Flags)
    requires 8 <= code < 12
    ensures CONDITION_TABLE[code] / Shift(Nibble(f)) % 2 == 1 <==> Holds(code, f)
  {
    hide Pow2;
  }

  lemma RowsTo16(code: nat, f: Flags)
    requires 12 <= code < 16
    ensures CONDITION_TABLE[code] / Shift(Nibble(f)) % 2 == 1 <==> Holds(code, f)
  {
    hide Pow2;
  }

  /** After CMP a, b the table-driven test is the comparison its name says. */
  lemma CompareConditions(a: u32, b: u32)
    ensures var f := Subs(a, b).1;
            && (CheckCondition(0, f) <==> a == b) && (CheckCondition(1, f) <==> a != b)
            && (CheckCondition(2, f) <==> a >= b) && (CheckCondition(3, f) <==> a < b)
            && (CheckCondition(8, f) <==> a > b) && (CheckCondition(9, f) <==> a <= b)
            && (CheckCondition(10, f) <==> Signed(a) >= Signed(b)) && (CheckCondition(11, f) <==> Signed(a) < Signed(b))
            && (CheckCondition(12, f) <==> Signed(a) > Signed(b)) && (CheckCondition(13, f) <==> Signed(a) <= Signed(b))
  {
    hide CheckCondition, Sbcs;
    var f := Subs(a, b).1;
    SubIsSbc(a, b);
    SbcIsExact(a, b, true);
    TableIsConditions(0, f);
    TableIsConditions(1, f);
    TableIsConditions(2, f);
    TableIsConditions(3, f);
    TableIsConditions(8, f);
    TableIsConditions(9, f);
    TableIsConditions(10, f);
    TableIsConditions(11, f);
    TableIsConditions(12, f);
    TableIsConditions(13, f);
    WrapIs(a - b);
  }

  // ---- saturating arithmetic and the zero count

  function Saturate(x: int): int {
    if x < -SIGN then -SIGN else if x >= SIGN then SIGN - 1 else x
  }

  /** A_QADD: the result and whether the Q flag is set. */
  function Qadd(rm: u32, rn: u32): (u32, bool) {
    var res := Wrap(rm + rn);
    if OverflowAdd(rm, rn) then (if Negative(res) then 0x7FFF_FFFF else 0x8000_0000, true) else (res, false)
  }

  function Qsub(rm: u32, rn: u32): (u32, bool) {
    var res := Wrap(rm - rn);
    if OverflowSub(rm, rn) then (if Negative(res) then 0x7FFF_FFFF else 0x8000_0000, true) else (res, false)
  }

  /** The doubling of A_QDADD and A_QDSUB. */
  function Qdouble(rn: u32): (u32, bool) {
    if OverflowAdd(rn, rn) then (if Negative(rn) then 0x8000_0000 else 0x7FFF_FFFF, true) else (Wrap(2 * rn), false)
  }

  /** The saturating instructions clamp the exact signed result and set Q exactly when they had to. */
  lemma SaturationIsExact(rm: u32, rn: u32)
    ensures Signed(Qadd(rm, rn).0) == Saturate(Signed(rm) + Signed(rn)) && (Qadd(rm, rn).1 <==> !InRange(Signed(rm) + Signed(rn)))
    ensures Signed(Qsub(rm, rn).0) == Saturate(Signed(rm) - Signed(rn)) && (Qsub(rm, rn).1 <==> !InRange(Signed(rm) - Signed(rn)))
    ensures Signed(Qdouble(rn).0) == Saturate(2 * Signed(rn)) && (Qdouble(rn).1 <==> !InRange(2 * Signed(rn)))
  {
    hide Wrap;
    WrapIs(rm + rn);
    WrapIs(rm - rn);
    WrapIs(rn + rn);
    assert rn + rn == 2 * rn;
  }

  datatype SaturatingOp = QADD | QSUB | QDADD | QDSUB

  /** The four saturating instructions, on the two operands and the Q flag: the flag is set or left alone. */
  function Saturating(op: SaturatingOp, rm: u32, rn: u32, q: bool): (u32, bool) {
    match op
    case QADD => var (res, sat) := Qadd(rm, rn); (res, q || sat)
    case QSUB => var (res, sat) := Qsub(rm, rn); (res, q || sat)
    case QDADD =>
      var (twice, sat) := Qdouble(rn);
      var (res, sat') := Qadd(rm, twice);
      (res, q || sat || sat')
    case QDSUB =>
      var (twice, sat) := Qdouble(rn);
      var (res, sat') := Qsub(rm, twice);
      (res, q || sat || sat')
  }

  /** The second operand as the sum sees it: the doubling saturates on its own. */
  function Addend(op: SaturatingOp, n: int): int {
    match op
    case QADD => n
    case QSUB => -n
    case QDADD => Saturate(2 * n)
    case QDSUB => -Saturate(2 * n)
  }

  /** Each of the four clamps the exact sum, after clamping the double where there is one, and the Q flag is set
      afterwards exactly when it was set before or one of the two had to be clamped. */
  lemma SaturatingIsExact(op: SaturatingOp, rm: u32, rn: u32, q: bool)
    ensures
      var (res, q') := Saturating(op, rm, rn, q);
      && Signed(res) == Saturate(Signed(rm) + Addend(op, Signed(rn)))
      && (q' <==> q || ((op.QDADD? || op.QDSUB?) && !InRange(2 * Signed(rn))) || !InRange(Signed(rm) + Addend(op, Signed(rn))))
  {
    hide Qadd, Qsub, Qdouble, Signed, Saturate, InRange;
    SaturationIsExact(rm, rn);
    SaturationIsExact(rm, Qdouble(rn).0);
  }

  /** The two roundings matter: doubling and adding in one step would give another result. */
  lemma DoubleClampsFirst()
    ensures Signed(Saturating(QDADD, 0xFFFF_FFFF, 0x4000_0000, false).0) == SIGN - 2
    ensures Saturate(-1 + 2 * 0x4000_0000) == SIGN - 1
  {
    SaturatingIsExact(QDADD, 0xFFFF_FFFF, 0x4000_0000, false);
  }

  lemma {:induction false} Pow2Product(m: nat, n: nat)
    ensures Pow2(m) * Pow2(n) == Pow2(m + n)
  {
    if m > 0 {
      Pow2Product(m - 1, n);
      assert Pow2(m) * Pow2(n) == 2 * (Pow2(m - 1) * Pow2(n));
    }
  }

  /** A_CLZ: ones are shifted in from below until bit 31 is set; what comes out is the number of zeros above the
      highest set bit, 32 for zero. */
  method CountLeadingZeros(x: u32) returns (res: nat)
    ensures res <= 32 && x < Pow2(32 - res) && (res < 32 ==> x >= Pow2(31 - res))
  {
    hide Pow2;
    var val: int := x;
    res := 0;
    PowerFacts();
    while val < 0x100_0000
      invariant res <= 32 && 0 <= val < TWO_32 && val + 1 == (x + 1) * Pow2(res) && res % 8 == 0 && (res == 32 ==> val >= SIGN)
      decreases TWO_32 - val
    {
      Shifted(x, res, 8);
      val := val * 0x100 + 0xFF;
      res := res + 8;
      AtLeast(x, res);
    }
    while val < SIGN
      invariant res <= 32 && 0 <= val < TWO_32 && val + 1 == (x + 1) * Pow2(res) && (res == 32 ==> val >= SIGN)
      decreases TWO_32 - val
    {
      Shifted(x, res, 1);
      val := val * 2 + 1;
      res := res + 1;
      AtLeast(x, res);
    }
    LeadingZeros(x, res);
  }

  lemma PowerFacts()
    ensures Pow2(0) == 1 && Pow2(1) == 2 && Pow2(8) == 0x100 && Pow2(24) == 0x100_0000 && Pow2(31) == SIGN && Pow2(32) == TWO_32
  {
    assert Pow2(4) == 0x10;
    assert Pow2(16) == 0x1_0000;
  }

  lemma Shifted(x: u32, res: nat, more: nat)
    ensures (x + 1) * Pow2(res + more) == (x + 1) * Pow2(res) * Pow2(more)
  {
    Pow2Product(res, more);
    assert (x + 1) * Pow2(res) * Pow2(more) == (x + 1) * (Pow2(res) * Pow2(more));
  }

  lemma AtLeast(x: u32, res: nat)
    ensures (x + 1) * Pow2(res) >= Pow2(res)
  {
  }

  lemma LeadingZeros(x: u32, res: nat)
    requires res <= 32 && SIGN < (x + 1) * Pow2(res) <= TWO_32
    ensures x < Pow2(32 - res) && (res < 32 ==> x >= Pow2(31 - res))
  {
    PowerFacts();
    Pow2Product(32 - res, res);
    hide Pow2;
    Cancels(x + 1, Pow2(32 - res), Pow2(res));
    if res < 32 {
      Pow2Product(31 - res, res);
      Cancels(x + 1, Pow2(31 - res), Pow2(res));
    }
  }

  lemma Cancels(x: nat, y: nat, p: nat)
    requires p > 0
    ensures x * p <= y * p <==> x <= y
  {
    if x <= y {
      Monotone(p, x, y);
    } else {
      Monotone(p, y + 1, x);
      assert p * (y + 1) == p * y + p;
    }
  }
}
