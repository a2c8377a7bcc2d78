/** Multiple-register transfers (src/ARMInterpreter_LoadStore.cpp): A_LDM, A_STM, T_PUSH, T_POP, T_STMIA
    and T_LDMIA over a memory of words. */
module BlockTransfer {
  import opened Machine

  const WORDS: int := 0x4000_0000

  /** Memory by word number; the rest reads as zero. */
  type Memory = map<int, u32>

  function Load(mem: Memory, w: int): u32 {
    if w in mem then mem[w] else 0
  }

  /** The word an address falls into, wrapping at 4 GB. */
  function Word(addr: int): int {
    addr / 4 % WORDS
  }

  lemma WordOfWrapped(addr: int)
    ensures Word(addr % TWO_32) == Word(addr)
  {
    var q, m := addr / TWO_32, addr % TWO_32;
    assert addr == 4 * (q * WORDS) + m;
    assert addr / 4 == q * WORDS + m / 4;
    WrapAway(m / 4, q);
  }

  lemma WrapAway(a: int, q: int)
    ensures (q * WORDS + a) % WORDS == a % WORDS
  {
  }

  lemma WordStep(addr: int, k: int)
    ensures Word(addr + 4 * k) == (addr / 4 + k) % WORDS
  {
    assert (addr + 4 * k) / 4 == addr / 4 + k;
  }

  /** Up to WORDS consecutive words are all different. */
  lemma WordsDiffer(addr: int, j: int, k: int)
    requires 0 <= j < k < WORDS
    ensures Word(addr + 4 * j) != Word(addr + 4 * k)
  {
    WordStep(addr, j);
    WordStep(addr, k);
    assert addr / 4 + k == addr / 4 + j + (k - j);
  }

  lemma Plus(a: int, b: int)
    ensures (a % TWO_32 + b) % TWO_32 == (a + b) % TWO_32
  {
    var k := a / TWO_32;
    assert a + b == a % TWO_32 + b + k * TWO_32;
  }

  /** A register list: bit i says whether register i takes part. */
  type RegList = l: seq<bool> | |l| == 16 witness seq(16, _ => false)

  /** How many of the registers below i take part. */
  function Count(list: RegList, i: nat): (n: nat)
    requires i <= 16
    ensures n <= i
  {
    if i == 0 then 0 else Count(list, i - 1) + if list[i - 1] then 1 else 0
  }

  lemma {:induction false} CountGrows(list: RegList, i: nat, j: nat)
    requires i <= j <= 16
    ensures Count(list, i) <= Count(list, j)
    ensures i < j && list[i] ==> Count(list, i) < Count(list, j)
    decreases j
  {
    if i < j {
      CountGrows(list, i, j - 1);
    }
  }

  /** The address of the lowest word a transfer touches: the four addressing modes IA, IB, DA and DB. */
  function Start(base: u32, n: nat, up: bool, pre: bool): u32 {
    (if up then (if pre then base + 4 else base)
     else if pre then base - 4 * n else base - 4 * n + 4) % TWO_32
  }

  function WriteBack(base: u32, n: nat, up: bool): u32 {
    (if up then base + 4 * n else base - 4 * n) % TWO_32
  }

  /** Both follow from the base the loops start at and from whether they step before each word. */
  lemma Ends(base: u32, n: nat, up: bool, pre: bool)
    ensures var b0 := if up then base else (base - 4 * n) % TWO_32;
            && Start(base, n, up, pre) == First(b0, pre == up)
            && WriteBack(base, n, up) == if up then Offset(b0, n) else b0
  {
    Plus(base - 4 * n, 4);
    Plus(base - 4 * n, 0);
  }

  /** Memory after the listed registers below i have been stored, lowest register at the lowest address. */
  function Stored(mem: Memory, vals: Regs16, list: RegList, i: nat, start: int): Memory
    requires i <= 16
  {
    if i == 0 then mem
    else
      var m := Stored(mem, vals, list, i - 1, start);
      if list[i - 1] then m[Word(start + 4 * Count(list, i - 1)) := vals[i - 1]] else m
  }

  /** The registers after the listed ones below i have been loaded. */
  function Loaded(mem: Memory, r: Regs16, list: RegList, i: nat, start: int): (r': Regs16)
    requires i <= 16
    ensures forall k :: i <= k < 16 ==> r'[k] == r[k]
  {
    if i == 0 then r
    else
      var r' := Loaded(mem, r, list, i - 1, start);
      if list[i - 1] then r'[i - 1 := Load(mem, Word(start + 4 * Count(list, i - 1)))] else r'
  }

  /** Each listed register ends up in its own word. */
  lemma {:induction false} StoredAt(mem: Memory, vals: Regs16, list: RegList, i: nat, start: int, k: nat)
    requires k < i <= 16 && list[k]
    ensures Load(Stored(mem, vals, list, i, start), Word(start + 4 * Count(list, k))) == vals[k]
  {
    if k < i - 1 {
      StoredAt(mem, vals, list, i - 1, start, k);
      if list[i - 1] {
        CountGrows(list, k, i - 1);
        WordsDiffer(start, Count(list, k), Count(list, i - 1));
      }
    }
  }

  /** No word but the n consecutive ones from the start address is touched. */
  lemma {:induction false} StoredFrame(mem: Memory, vals: Regs16, list: RegList, i: nat, start: int, w: int)
    requires i <= 16 && forall k :: 0 <= k < Count(list, i) ==> w != Word(start + 4 * k)
    ensures Load(Stored(mem, vals, list, i, start), w) == Load(mem, w)
  {
    if i > 0 {
      CountGrows(list, i - 1, i);
      StoredFrame(mem, vals, list, i - 1, start, w);
    }
  }

  lemma {:induction false} LoadedAt(mem: Memory, r: Regs16, list: RegList, i: nat, start: int, k: nat)
    requires k < 16 && i <= 16
    ensures Loaded(mem, r, list, i, start)[k]
         == if k < i && list[k] then Load(mem, Word(start + 4 * Count(list, k))) else r[k]
  {
    if i > 0 {
      LoadedAt(mem, r, list, i - 1, start, k);
    }
  }

  /** Loading a list from where it was stored gives the stored values back, whatever the listed registers held
      in between, and leaves the other registers alone. */
  lemma LoadedAfterStored(mem: Memory, vals: Regs16, r: Regs16, list: RegList, start: int)
    ensures forall k :: 0 <= k < 16 ==>
      Loaded(Stored(mem, vals, list, 16, start), r, list, 16, start)[k] == if list[k] then vals[k] else r[k]
  {
    hide Stored, Loaded, Count, Word, Load;
    forall k | 0 <= k < 16
      ensures Loaded(Stored(mem, vals, list, 16, start), r, list, 16, start)[k] == if list[k] then vals[k] else r[k]
    {
      LoadedAt(Stored(mem, vals, list, 16, start), r, list, 16, start, k);
      if list[k] {
        StoredAt(mem, vals, list, 16, start, k);
      }
    }
  }

  /** The address n words further on. */
  function Offset(addr: int, n: nat): u32 {
    (addr + 4 * n) % TWO_32
  }

  function Bump(addr: u32): u32 {
    (addr + 4) % TWO_32
  }

  /** The first word touched when the running base starts at b0 and steps before or after each word. */
  function First(b0: u32, preinc: bool): u32 {
    (if preinc then b0 + 4 else b0) % TWO_32
  }

  /** Where the word after the first n lies, as the loops compute it from the running base. */
  lemma Next(b0: u32, n: nat, preinc: bool, base: u32)
    requires base == Offset(b0, n)
    ensures var addr := if preinc then Bump(base) else base;
            && addr == Offset(First(b0, preinc), n) && Word(addr) == Word(First(b0, preinc) + 4 * n)
            && Bump(base) == Offset(b0, n + 1)
  {
    var s := if preinc then b0 + 4 else b0;
    Plus(s, 4 * n);
    Plus(b0 + 4 * n, 4);
    WordOfWrapped(s % TWO_32 + 4 * n);
  }

  lemma NoOffset(b0: u32)
    ensures Offset(b0, 0) == b0 && First(b0, false) == b0
  {
  }

  /** The part of an instruction word the transfers read; the S bit is not part of this model. */
  datatype Transfer = Transfer(list: RegList, baseId: nat, up: bool, pre: bool, writeBack: bool)
  {
    predicate Valid() {
      baseId < 16
    }
  }

  function Total(t: Transfer): nat {
    Count(t.list, 16)
  }

  /** What is stored for each register: for the base, its old value on the ARM9 and when it comes first in the
      list, else the address being written. */
  function StoredValues(num: nat, r: Regs16, t: Transfer, oldbase: u32, start: u32): Regs16
    requires t.Valid()
  {
    var c := Count(t.list, t.baseId);
    r[t.baseId := if num == 0 || c == 0 then oldbase else Offset(start, c)]
  }

  function StmValues(num: nat, r: Regs16, t: Transfer): Regs16
    requires t.Valid()
  {
    var base := r[t.baseId];
    StoredValues(num, r, t, base, Start(base, Total(t), t.up, t.pre))
  }

  /** The registers after LDM: a base register in the list keeps the loaded value, except on the ARM9 when it
      is the only one or not the highest. */
  function LdmRegs(num: nat, mem: Memory, r: Regs16, t: Transfer): Regs16
    requires t.Valid()
  {
    var base := r[t.baseId];
    var l := Loaded(mem, r, t.list, 15, Start(base, Total(t), t.up, t.pre));
    var wb := WriteBack(base, Total(t), t.up);
    if !t.writeBack then l
    else if !t.list[t.baseId] then l[t.baseId := wb]
    else if num == 0 && (Total(t) == 1 || Count(t.list, t.baseId + 1) < Total(t)) then l[t.baseId := wb]
    else l
  }

  function LdmTarget(num: nat, mem: Memory, r: Regs16, t: Transfer): Option<u32>
    requires t.Valid()
  {
    if !t.list[15] then None
    else
      var pc := Load(mem, Word(Start(r[t.baseId], Total(t), t.up, t.pre) + 4 * Count(t.list, 15)));
      Some(if num == 1 then pc / 2 * 2 else pc)
  }

  type LowList = l: seq<bool> | |l| == 8 witness seq(8, _ => false)

  /** The register list of a Thumb transfer. */
  function Widen(low: LowList, lr: bool, pc: bool): RegList {
    low + [false, false, false, false, false, false, lr, pc]
  }

  lemma {:induction false} NoneBetween(mem: Memory, r: Regs16, list: RegList, i: nat, j: nat, start: int)
    requires i <= j <= 16 && forall k :: i <= k < j ==> !list[k]
    ensures Count(list, j) == Count(list, i) && Stored(mem, r, list, j, start) == Stored(mem, r, list, i, start)
    ensures Loaded(mem, r, list, j, start) == Loaded(mem, r, list, i, start)
    decreases j
  {
    if i < j {
      NoneBetween(mem, r, list, i, j - 1, start);
    }
  }

  lemma {:induction false} SamePrefix(mem: Memory, r: Regs16, a: RegList, b: RegList, i: nat, start: int)
    requires i <= 16 && a[..i] == b[..i]
    ensures Count(a, i) == Count(b, i) && Stored(mem, r, a, i, start) == Stored(mem, r, b, i, start)
    ensures Loaded(mem, r, a, i, start) == Loaded(mem, r, b, i, start)
  {
    if i > 0 {
      assert a[i - 1] == a[..i][i - 1] == b[..i][i - 1] == b[i - 1];
      assert a[..i - 1] == a[..i][..i - 1] == b[..i][..i - 1] == b[..i - 1];
      SamePrefix(mem, r, a, b, i - 1, start);
    }
  }

  lemma WidenStored(mem: Memory, r: Regs16, low: LowList, lr: bool, start: int)
    ensures var list, plain := Widen(low, lr, false), Widen(low, false, false);
            && Count(list, 8) == Count(plain, 8) && Count(list, 16) == Count(plain, 8) + (if lr then 1 else 0)
            && var m := Stored(mem, r, plain, 8, start);
               Stored(mem, r, list, 16, start) == if lr then m[Word(start + 4 * Count(plain, 8)) := r[14]] else m
  {
    hide Word;
    var list, plain := Widen(low, lr, false), Widen(low, false, false);
    SamePrefix(mem, r, list, plain, 8, start);
    NoneBetween(mem, r, list, 8, 14, start);
    NoneBetween(mem, r, list, 15, 16, start);
  }

  /** R13 is not stored by a push, so lowering it first changes nothing. */
  lemma WidenValues(mem: Memory, r: Regs16, low: LowList, lr: bool, k: nat, v: u32, start: int)
    requires 8 <= k < 14
    ensures Stored(mem, r[k := v], Widen(low, false, false), 8, start) == Stored(mem, r, Widen(low, false, false), 8, start)
  {
    OnlyListed(mem, r, r[k := v], Widen(low, false, false), 8, start);
  }

  lemma {:induction false} OnlyListed(mem: Memory, r: Regs16, s: Regs16, list: RegList, i: nat, start: int)
    requires i <= 16 && r[..i] == s[..i]
    ensures Stored(mem, r, list, i, start) == Stored(mem, s, list, i, start)
  {
    if i > 0 {
      assert r[i - 1] == r[..i][i - 1] == s[..i][i - 1] == s[i - 1];
      assert r[..i - 1] == r[..i][..i - 1] == s[..i][..i - 1] == s[..i - 1];
      OnlyListed(mem, r, s, list, i - 1, start);
    }
  }

  lemma WidenLoaded(mem: Memory, r: Regs16, low: LowList, pc: bool, start: int)
    ensures var list, plain := Widen(low, false, pc), Widen(low, false, false);
            && Count(list, 15) == Count(plain, 8) && Count(list, 16) == Count(plain, 8) + (if pc then 1 else 0)
            && Loaded(mem, r, list, 15, start) == Loaded(mem, r, plain, 8, start)
  {
    var list, plain := Widen(low, false, pc), Widen(low, false, false);
    SamePrefix(mem, r, list, plain, 8, start);
    NoneBetween(mem, r, list, 8, 15, start);
  }

  class Core {
    /** 0 is the ARM9, 1 the ARM7. */
    const num: nat
    var r: Regs16
    var mem: Memory

    /** The two loops of A_LDM and A_STM that lower the base by the size of the list. */
    method Lower(list: RegList, base: u32) returns (lowered: u32)
      ensures lowered == (base - 4 * Count(list, 16)) % TWO_32
    {
      lowered := base;
      for i := 0 to 16
        invariant lowered == (base - 4 * Count(list, i)) % TWO_32
      {
        if list[i] {
          Plus(base - 4 * Count(list, i), -4);
          lowered := (lowered - 4) % TWO_32;
        }
      }
    }

    /** The storing loop of A_STM; `oldbase` is the base register before any write-back. */
    method StoreLoop(t: Transfer, b0: u32, oldbase: u32, preinc: bool) returns (base: u32)
      requires t.Valid()
      modifies `mem
      ensures base == Offset(b0, Total(t))
      ensures var start := First(b0, preinc);
              mem == Stored(old(mem), StoredValues(num, r, t, oldbase, start), t.list, 16, start)
    {
      hide Word, Offset, Bump, First;
      NoOffset(b0);
      base := b0;
      ghost var start := First(b0, preinc);
      ghost var vals := StoredValues(num, r, t, oldbase, start);
      for i := 0 to 16
        invariant base == Offset(b0, Count(t.list, i))
        invariant mem == Stored(old(mem), vals, t.list, i, start)
      {
        if t.list[i] {
          Next(b0, Count(t.list, i), preinc, base);
          if preinc {
            base := Bump(base);
          }
          var val := if i != t.baseId then r[i] else if num == 0 || Count(t.list, i) == 0 then oldbase else base;
          mem := mem[Word(base) := val];
          if !preinc {
            base := Bump(base);
          }
        }
      }
    }

    method Stm(t: Transfer)
      requires t.Valid()
      modifies this
      ensures mem == Stored(old(mem), StmValues(num, old(r), t), t.list, 16, Start(old(r[t.baseId]), Total(t), t.up, t.pre))
      ensures r == if t.writeBack then old(r)[t.baseId := WriteBack(old(r[t.baseId]), Total(t), t.up)] else old(r)
    {
      hide Stored, Word, Start, WriteBack, Count, Offset, Bump, First;
      var base, oldbase, preinc := r[t.baseId], r[t.baseId], t.pre;
      Ends(base, Total(t), t.up, t.pre);
      if !t.up {
        base := Lower(t.list, base);
        if t.writeBack {
          r := r[t.baseId := base];
        }
        preinc := !preinc;
      }
      ghost var start := Start(oldbase, Total(t), t.up, t.pre);
      assert StoredValues(num, r, t, oldbase, start) == StmValues(num, old(r), t);
      base := StoreLoop(t, base, oldbase, preinc);
      if t.up && t.writeBack {
        r := r[t.baseId := base];
      }
    }

    /** The loading loop of A_LDM over the registers below i. */
    method LoadLoop(list: RegList, b0: u32, preinc: bool) returns (base: u32)
      modifies `r
      ensures base == Offset(b0, Count(list, 15))
      ensures r == Loaded(mem, old(r), list, 15, First(b0, preinc))
    {
      hide Word, Offset, Bump, First;
      NoOffset(b0);
      base := b0;
      ghost var start := First(b0, preinc);
      for i := 0 to 15
        invariant base == Offset(b0, Count(list, i))
        invariant r == Loaded(mem, old(r), list, i, start)
      {
        if list[i] {
          Next(b0, Count(list, i), preinc, base);
          if preinc {
            base := Bump(base);
          }
          r := r[i := Load(mem, Word(base))];
          if !preinc {
            base := Bump(base);
          }
        }
      }
    }

    /** The jump a loaded PC asks for is returned. */
    method Ldm(t: Transfer) returns (jump: Option<u32>)
      requires t.Valid()
      modifies `r
      ensures r == LdmRegs(num, mem, old(r), t) && jump == LdmTarget(num, mem, old(r), t)
    {
      hide Loaded, Word, Start, WriteBack, Offset, Bump, First;
      var base, preinc := r[t.baseId], t.pre;
      Ends(base, Total(t), t.up, t.pre);
      var wbbase := 0;
      if !t.up {
        base := Lower(t.list, base);
        wbbase := base;
        preinc := !preinc;
      }
      var b0 := base;
      base := LoadLoop(t.list, base, preinc);
      jump := None;
      if t.list[15] {
        Next(b0, Count(t.list, 15), preinc, base);
        var pc := Load(mem, Word(if preinc then Bump(base) else base));
        base := Bump(base);
        jump := Some(if num == 1 then pc / 2 * 2 else pc);
      }
      if t.writeBack {
        if t.up {
          wbbase := base;
        }
        if t.list[t.baseId] {
          if num == 0 && (Count(t.list, 16) == 1 || Count(t.list, t.baseId + 1) < Count(t.list, 16)) {
            r := r[t.baseId := wbbase];
          }
        } else {
          r := r[t.baseId := wbbase];
        }
      }
    }

    /** The storing loop of T_PUSH and T_STMIA over R0-R7. */
    method StoreLow(low: LowList, b0: u32) returns (base: u32)
      modifies `mem
      ensures base == Offset(b0, Count(Widen(low, false, false), 8))
      ensures mem == Stored(old(mem), r, Widen(low, false, false), 8, b0)
    {
      hide Word, Offset, Bump, First;
      NoOffset(b0);
      base := b0;
      ghost var list := Widen(low, false, false);
      for i := 0 to 8
        invariant base == Offset(b0, Count(list, i))
        invariant mem == Stored(old(mem), r, list, i, b0)
      {
        if low[i] {
          Next(b0, Count(list, i), false, base);
          mem := mem[Word(base) := r[i]];
          base := Bump(base);
        }
      }
    }

    /** The loading loop of T_POP and T_LDMIA over R0-R7. */
    method LoadLow(low: LowList, b0: u32) returns (base: u32)
      modifies `r
      ensures base == Offset(b0, Count(Widen(low, false, false), 8))
      ensures r == Loaded(mem, old(r), Widen(low, false, false), 8, b0)
    {
      hide Word, Offset, Bump, First;
      NoOffset(b0);
      base := b0;
      ghost var list := Widen(low, false, false);
      for i := 0 to 8
        invariant base == Offset(b0, Count(list, i))
        invariant r == Loaded(mem, old(r), list, i, b0)
      {
        if low[i] {
          Next(b0, Count(list, i), false, base);
          r := r[i := Load(mem, Word(base))];
          base := Bump(base);
        }
      }
    }

    method CountLow(low: LowList) returns (nregs: nat)
      ensures nregs == Count(Widen(low, false, false), 8)
    {
      nregs := 0;
      for i := 0 to 8
        invariant nregs == Count(Widen(low, false, false), i)
      {
        if low[i] {
          nregs := nregs + 1;
        }
      }
    }

    /** T_PUSH is STMDB on R13. */
    method Push(low: LowList, lr: bool)
      modifies this
      ensures var t := Transfer(Widen(low, lr, false), 13, false, true, true);
              && mem == Stored(old(mem), old(r), t.list, 16, Start(old(r[13]), Total(t), false, true))
              && r == old(r)[13 := WriteBack(old(r[13]), Total(t), false)]
    {
      hide Stored, Word, Start, WriteBack, Count, Widen, Offset, Bump, First;
      var nregs := CountLow(low);
      if lr {
        nregs := nregs + 1;
      }
      WidenStored(mem, r, low, lr, (r[13] - 4 * nregs) % TWO_32);
      Ends(r[13], nregs, false, true);
      var base := (r[13] - 4 * nregs) % TWO_32;
      WidenValues(mem, r, low, lr, 13, base, base);
      r := r[13 := base];
      NoOffset(base);
      ghost var b0 := base;
      base := StoreLow(low, base);
      if lr {
        Next(b0, Count(Widen(low, false, false), 8), false, base);
        mem := mem[Word(base) := r[14]];
      }
    }

    /** T_POP is LDMIA on R13; a popped PC keeps the ARM7 in Thumb state. */
    method Pop(low: LowList, pc: bool) returns (jump: Option<u32>)
      modifies `r
      ensures var t := Transfer(Widen(low, false, pc), 13, true, false, true);
              && r == LdmRegs(0, mem, old(r), t)
              && jump == if !pc then None else
                   var v := LdmTarget(0, mem, old(r), t).value; Some(if num == 1 then v / 2 * 2 + 1 else v)
    {
      hide Loaded, Word, Offset, Bump, First;
      var b0 := r[13];
      WidenLoaded(mem, r, low, pc, b0);
      Ends(b0, Count(Widen(low, false, pc), 16), true, false);
      var base := LoadLow(low, b0);
      jump := None;
      if pc {
        Next(b0, Count(Widen(low, false, false), 8), false, base);
        var v := Load(mem, Word(base));
        jump := Some(if num == 1 then v / 2 * 2 + 1 else v);
        base := Bump(base);
      }
      r := r[13 := base];
    }

    /** T_STMIA stores the base as it was, also when it is in the list. */
    method StmiaLow(low: LowList, b: nat)
      requires b < 8
      modifies this
      ensures var list := Widen(low, false, false);
              && mem == Stored(old(mem), old(r), list, 16, old(r[b]))
              && r == old(r)[b := WriteBack(old(r[b]), Count(list, 16), true)]
    {
      hide Stored, Word, Loaded, Offset, Bump, First;
      NoneBetween(mem, r, Widen(low, false, false), 8, 16, r[b]);
      Ends(r[b], Count(Widen(low, false, false), 16), true, false);
      var base := StoreLow(low, r[b]);
      r := r[b := base];
    }

    /** T_LDMIA is LDMIA with the base rule of the ARM7 on both cores. */
    method LdmiaLow(low: LowList, b: nat)
      requires b < 8
      modifies `r
      ensures r == LdmRegs(1, mem, old(r), Transfer(Widen(low, false, false), b, true, false, true))
    {
      hide Stored, Word, Loaded, Offset, Bump, First;
      NoneBetween(mem, r, Widen(low, false, false), 8, 15, r[b]);
      NoneBetween(mem, r, Widen(low, false, false), 8, 16, r[b]);
      Ends(r[b], Count(Widen(low, false, false), 16), true, false);
      var base := LoadLow(low, r[b]);
      if !low[b] {
        r := r[b := base];
      }
    }
  }

  // ---- where each register goes, without counting up

  /** The listed registers from lo up to hi. */
  function Members(list: RegList, lo: nat, hi: nat): set<int> {
    set k | lo <= k < hi && k < 16 && list[k]
  }

  lemma {:induction false} CountIsSize(list: RegList, i: nat)
    requires i <= 16
    ensures Count(list, i) == |Members(list, 0, i)|
  {
    if i > 0 {
      CountIsSize(list, i - 1);
      assert Members(list, 0, i) == Members(list, 0, i - 1) + if list[i - 1] then {i - 1} else {};
    } else {
      assert Members(list, 0, 0) == {};
    }
  }

  lemma Around(list: RegList, k: nat)
    requires k < 16 && list[k]
    ensures Count(list, 16) == Count(list, k) + 1 + |Members(list, k + 1, 16)|
  {
    CountIsSize(list, 16);
    CountIsSize(list, k);
    assert Members(list, 0, 16) == Members(list, 0, k) + {k} + Members(list, k + 1, 16);
  }

  /** The address of register k: an ascending transfer puts it one word above the base for each listed register
      below it, a descending one as far below the base as there are listed registers above it, and a transfer that
      steps first one word further. */
  function Address(t: Transfer, base: u32, k: nat): int {
    if t.up then base + 4 * |Members(t.list, 0, k)| + (if t.pre then 4 else 0)
    else base - 4 * |Members(t.list, k + 1, 16)| - if t.pre then 4 else 0
  }

  lemma AddressOf(t: Transfer, base: u32, k: nat)
    requires k < 16 && t.list[k]
    ensures var start := Start(base, Total(t), t.up, t.pre);
            && Offset(start, Count(t.list, k)) == Address(t, base, k) % TWO_32
            && Word(start + 4 * Count(t.list, k)) == Word(Address(t, base, k))
  {
    var c := Count(t.list, k);
    var start := if t.up then (if t.pre then base + 4 else base) else if t.pre then base - 4 * Total(t) else base - 4 * Total(t) + 4;
    Around(t.list, k);
    CountIsSize(t.list, k);
    assert start + 4 * c == Address(t, base, k);
    hide Count, Members, Word, Address;
    Plus(start, 4 * c);
    WordOfWrapped(start % TWO_32 + 4 * c);
    WordOfWrapped(start + 4 * c);
  }

  lemma {:induction false} Numbered(list: RegList, i: nat, q: nat) returns (k: nat)
    requires i <= 16 && q < Count(list, i)
    ensures k < i && list[k] && Count(list, k) == q
  {
    if q < Count(list, i - 1) {
      k := Numbered(list, i - 1, q);
    } else {
      k := i - 1;
    }
  }

  lemma NoneBelow(list: RegList, k: nat)
    requires k < 16
    ensures Count(list, k) == 0 <==> forall j :: 0 <= j < k ==> !list[j]
  {
    forall j | 0 <= j < k && list[j] ensures Count(list, k) > 0 {
      CountGrows(list, j, k);
    }
    if forall j :: 0 <= j < k ==> !list[j] {
      CountIsSize(list, k);
      assert Members(list, 0, k) == {};
    }
  }

  /** A store puts every listed register at its address and touches no other word; the base register is stored as it
      was, except on the ARM7 when a lower register is listed: there its own address is stored. */
  lemma StmIsExact(num: nat, mem: Memory, r: Regs16, t: Transfer)
    requires t.Valid()
    ensures var base := r[t.baseId];
            var mem' := Stored(mem, StmValues(num, r, t), t.list, 16, Start(base, Total(t), t.up, t.pre));
            && (forall k :: 0 <= k < 16 && t.list[k] ==>
                  Load(mem', Word(Address(t, base, k)))
                  == if k == t.baseId && num != 0 && exists j :: 0 <= j < k && t.list[j] then Address(t, base, k) % TWO_32 else r[k])
            && (forall w :: (forall k :: 0 <= k < 16 && t.list[k] ==> w != Word(Address(t, base, k))) ==> Load(mem', w) == Load(mem, w))
  {
    hide Stored, Word, Start, Address, Count, Load, Offset;
    var base := r[t.baseId];
    var start := Start(base, Total(t), t.up, t.pre);
    var vals := StmValues(num, r, t);
    var mem' := Stored(mem, vals, t.list, 16, start);
    forall k | 0 <= k < 16 && t.list[k]
      ensures Load(mem', Word(Address(t, base, k)))
           == if k == t.baseId && num != 0 && exists j :: 0 <= j < k && t.list[j] then Address(t, base, k) % TWO_32 else r[k]
    {
      StoredAt(mem, vals, t.list, 16, start, k);
      AddressOf(t, base, k);
      NoneBelow(t.list, k);
    }
    forall w | forall k :: 0 <= k < 16 && t.list[k] ==> w != Word(Address(t, base, k)) ensures Load(mem', w) == Load(mem, w) {
      forall q | 0 <= q < Total(t) ensures w != Word(start + 4 * q) {
        var k := Numbered(t.list, 16, q);
        AddressOf(t, base, k);
      }
      StoredFrame(mem, vals, t.list, 16, start, w);
    }
  }

  /** Whether a base register that is to be written back keeps the new base: always when it is not loaded itself;
      when it is, on the ARM9 alone, if it is the only register loaded or not the highest. */
  predicate BaseWins(num: nat, t: Transfer)
    requires t.Valid()
  {
    !t.list[t.baseId]
    || (num == 0 && ((exists j :: t.baseId < j < 16 && t.list[j]) || forall j :: 0 <= j < 16 && t.list[j] ==> j == t.baseId))
  }

  lemma BaseRule(t: Transfer)
    requires t.Valid() && t.list[t.baseId]
    ensures Total(t) == 1 <==> forall j :: 0 <= j < 16 && t.list[j] ==> j == t.baseId
    ensures Count(t.list, t.baseId + 1) < Total(t) <==> exists j :: t.baseId < j < 16 && t.list[j]
  {
    var (b, above, below) := (t.baseId, Members(t.list, t.baseId + 1, 16), Members(t.list, 0, t.baseId));
    Around(t.list, b);
    CountIsSize(t.list, b);
    assert Count(t.list, b + 1) == Count(t.list, b) + 1;
    Empty(above);
    Empty(below);
    assert forall j :: j in above <==> b < j < 16 && t.list[j];
    assert forall j :: j in below <==> 0 <= j < b && t.list[j];
  }

  lemma Empty(s: set<int>)
    ensures |s| == 0 <==> forall j :: j !in s
  {
    if forall j :: j !in s {
      assert s == {};
    }
  }

  /** A load fills every listed register but R15 from its address, moves the base by a word per listed register
      where the base rule says so, and changes nothing else. */
  lemma LdmIsExact(num: nat, mem: Memory, r: Regs16, t: Transfer, k: nat)
    requires t.Valid() && k < 16
    ensures var base := r[t.baseId];
            var n := |Members(t.list, 0, 16)|;
            LdmRegs(num, mem, r, t)[k]
            == if k == t.baseId && t.writeBack && BaseWins(num, t) then (if t.up then base + 4 * n else base - 4 * n) % TWO_32
               else if k < 15 && t.list[k] then Load(mem, Word(Address(t, base, k)))
               else r[k]
  {
    hide Loaded, Count, Members, Address, Word, Start, Load;
    LoadedAt(mem, r, t.list, 15, Start(r[t.baseId], Total(t), t.up, t.pre), k);
    CountIsSize(t.list, 16);
    if t.list[k] {
      AddressOf(t, r[t.baseId], k);
    }
    if t.list[t.baseId] {
      BaseRule(t);
    }
  }

  /** A listed R15 is the highest register; the jump goes to its word, on the ARM7 always in ARM state. */
  lemma LdmJump(num: nat, mem: Memory, r: Regs16, t: Transfer)
    requires t.Valid()
    ensures LdmTarget(num, mem, r, t)
         == if !t.list[15] then None
            else var v := Load(mem, Word(Address(t, r[t.baseId], 15))); Some(if num == 1 then v - v % 2 else v)
  {
    hide Count, Address, Word, Start, Load;
    if t.list[15] {
      AddressOf(t, r[t.baseId], 15);
    }
  }

  // ---- round trips

  /** The transfer that walks the same words the other way. */
  function Opposite(t: Transfer): Transfer {
    t.(up := !t.up, pre := !t.pre)
  }

  lemma OppositeStarts(base: u32, n: nat, up: bool, pre: bool)
    ensures var b := WriteBack(base, n, up);
            && Start(b, n, !up, !pre) == Start(base, n, up, pre) && WriteBack(b, n, !up) == base
  {
    var d: int := if up then 4 * n else -4 * n;
    There(base, d);
    ThereAndOne(base, d);
    var b := WriteBack(base, n, up);
    assert b == (base + d) % TWO_32 && WriteBack(b, n, !up) == (b - d) % TWO_32;
    assert Start(base, n, up, pre) == (if up then (if pre then base + 4 else base) else if pre then base + d else base + d + 4) % TWO_32;
    assert Start(b, n, !up, !pre) == (if up then (if pre then b - d + 4 else b - d) else if pre then b else b + 4) % TWO_32;
  }

  lemma There(base: u32, d: int)
    ensures ((base + d) % TWO_32 - d) % TWO_32 == base
  {
    Plus(base + d, -d);
  }

  lemma ThereAndOne(base: u32, d: int)
    ensures ((base + d) % TWO_32 - d + 4) % TWO_32 == (base + 4) % TWO_32
    ensures ((base + d) % TWO_32 + 4) % TWO_32 == (base + d + 4) % TWO_32
  {
    Plus(base + d, 4 - d);
    Plus(base + d, 4);
  }

  /** STM followed by the opposite LDM (STMDB and LDMIA, STMIA and LDMDB, and so on), both with write-back and
      with whatever in the listed registers in between, restores the listed registers and the base, leaves the
      other registers as they were in between, and has written the n words from the start address and no
      others. */
  lemma StmThenLdm(num: nat, mem: Memory, r: Regs16, between: Regs16, t: Transfer)
    requires t.Valid() && t.writeBack && !t.list[t.baseId] && !t.list[15]
    requires between[t.baseId] == WriteBack(r[t.baseId], Total(t), t.up)
    ensures var start := Start(r[t.baseId], Total(t), t.up, t.pre);
            var mem' := Stored(mem, StmValues(num, r, t), t.list, 16, start);
            var r' := LdmRegs(num, mem', between, Opposite(t));
            && (forall k :: 0 <= k < 16 ==> r'[k] == if t.list[k] || k == t.baseId then r[k] else between[k])
            && (forall w :: (forall k :: 0 <= k < Total(t) ==> w != Word(start + 4 * k)) ==> Load(mem', w) == Load(mem, w))
  {
    hide Stored, Loaded, Word, Start, WriteBack, Load;
    var base, n := r[t.baseId], Total(t);
    var start := Start(base, n, t.up, t.pre);
    var vals := StmValues(num, r, t);
    var mem' := Stored(mem, vals, t.list, 16, start);
    OppositeStarts(base, n, t.up, t.pre);
    LoadedAfterStored(mem, vals, between, t.list, start);
    NoneBetween(mem', between, t.list, 15, 16, start);
    forall w | forall k :: 0 <= k < n ==> w != Word(start + 4 * k) ensures Load(mem', w) == Load(mem, w) {
      StoredFrame(mem, vals, t.list, 16, start, w);
    }
  }

  /** PUSH {low, LR} and POP {low, PC}: the low registers come back, R13 too, and the jump is to what was in the
      link register. */
  lemma PushThenPop(mem: Memory, r: Regs16, between: Regs16, low: LowList)
    requires var t := Transfer(Widen(low, true, false), 13, false, true, true);
             between[13] == WriteBack(r[13], Total(t), false)
    ensures var t := Transfer(Widen(low, true, false), 13, false, true, true);
            var p := Transfer(Widen(low, false, true), 13, true, false, true);
            var mem' := Stored(mem, r, t.list, 16, Start(r[13], Total(t), false, true));
            var r' := LdmRegs(0, mem', between, p);
            && (forall k :: 0 <= k < 16 ==> r'[k] == if k == 13 || (k < 8 && low[k]) then r[k] else between[k])
            && LdmTarget(0, mem', between, p) == Some(r[14])
  {
    hide Word, Start, WriteBack;
    var plain := Widen(low, false, false);
    var t := Transfer(Widen(low, true, false), 13, false, true, true);
    var p := Transfer(Widen(low, false, true), 13, true, false, true);
    var start := Start(r[13], Total(t), false, true);
    var mem' := Stored(mem, r, t.list, 16, start);
    WidenStored(mem, r, low, true, start);
    WidenLoaded(mem', between, low, true, start);
    OppositeStarts(r[13], Total(t), false, true);
    LoadsBack(mem, r, between, low, start);
  }

  lemma LoadsBack(mem: Memory, r: Regs16, between: Regs16, low: LowList, start: int)
    ensures var mem' := Stored(mem, r, Widen(low, true, false), 16, start);
            var got := Loaded(mem', between, Widen(low, false, false), 8, start);
            && (forall k :: 0 <= k < 16 ==> got[k] == if k < 8 && low[k] then r[k] else between[k])
            && Load(mem', Word(start + 4 * Count(Widen(low, false, false), 8))) == r[14]
  {
    hide Stored, Loaded, Word, Load;
    var list, plain := Widen(low, true, false), Widen(low, false, false);
    var mem' := Stored(mem, r, list, 16, start);
    SamePrefix(mem', between, list, plain, 8, start);
    NoneBetween(mem', between, list, 8, 14, start);
    StoredAt(mem, r, list, 16, start, 14);
    forall k | 0 <= k < 16
      ensures Loaded(mem', between, plain, 8, start)[k] == if k < 8 && low[k] then r[k] else between[k]
    {
      LoadedAt(mem', between, list, 8, start, k);
      if k < 8 && low[k] {
        StoredAt(mem, r, list, 16, start, k);
      }
    }
  }
}
