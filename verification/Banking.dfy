/** Mode banking and exceptions of the ARM cores (src/ARM.cpp, src/ARMInterpreter.cpp). The core keeps the
    registers of the current mode in R and swaps the others in and out; here that is proved to be a
    faithful picture of one register file per mode. */
module Banking {
  import opened Machine
  import Division

  // ---- status registers

  type Mode = m: nat | m < 0x20

  /** A status register by its bit fields: bits 24-31, 16-23, 8-15, 7, 6, 5 and 0-4. */
  datatype Psr = Psr(f: u8, s: u8, x: u8, irqOff: bool, fiqOff: bool, thumb: bool, mode: Mode)
  {
    /** Bit 4 of every status register is always set. */
    predicate Sound() {
      mode >= 0x10
    }

    /** psr |= 0x10 */
    function ForceBit4(): Psr {
      if mode < 0x10 then this.(mode := mode + 0x10) else this
    }
  }

  function Decode(v: u32): Psr {
    Psr(v / 0x100_0000, v / 0x1_0000 % 0x100, v / 0x100 % 0x100, v / 0x80 % 2 == 1, v / 0x40 % 2 == 1, v / 0x20 % 2 == 1, v % 0x20)
  }

  /** The word of four bytes. */
  function Join(f: bv8, s: bv8, x: bv8, c: bv8): bv32 {
    ((f as bv32) << 24) | ((s as bv32) << 16) | ((x as bv32) << 8) | (c as bv32)
  }

  function Byte(b: u8): bv8 {
    b as bv8
  }

  /** The control byte of a status register. */
  function Control(p: Psr): bv8 {
    Flags(p.irqOff, p.fiqOff, p.thumb, Byte(p.mode))
  }

  function Flags(irqOff: bool, fiqOff: bool, thumb: bool, mode: bv8): bv8 {
    (if irqOff then 0x80 else 0) | (if fiqOff then 0x40 else 0) | (if thumb then 0x20 else 0) | mode
  }

  /** The 32-bit value of a status register, as bits and as a number. */
  function Word(p: Psr): bv32 {
    Join(Byte(p.f), Byte(p.s), Byte(p.x), Control(p))
  }

  function Number(p: Psr): nat {
    p.f * 0x100_0000 + p.s * 0x1_0000 + p.x * 0x100 + Low(p.irqOff, p.fiqOff, p.thumb, p.mode)
  }

  function Low(irqOff: bool, fiqOff: bool, thumb: bool, mode: Mode): u8 {
    (if irqOff then 0x80 else 0) + (if fiqOff then 0x40 else 0) + (if thumb then 0x20 else 0) + mode
  }

  lemma TwiceAndMore(k: nat, x: nat)
    ensures (2 * k + x) % 2 == x % 2
  {
  }

  lemma Bit7(h: nat, low: u8)
    ensures (h * 0x100 + low) / 0x80 % 2 == low / 0x80 % 2 && (h * 0x100 + low) % 0x80 == low % 0x80
  {
    Division.QuotientOf(h * 0x100 + low, 2 * h + low / 0x80, 0x80, low % 0x80);
    TwiceAndMore(h, low / 0x80);
  }

  lemma Bit6(h: nat, low: u8)
    ensures (h * 0x100 + low) / 0x40 % 2 == low / 0x40 % 2 && (h * 0x100 + low) % 0x40 == low % 0x40
  {
    Division.QuotientOf(h * 0x100 + low, 4 * h + low / 0x40, 0x40, low % 0x40);
    TwiceAndMore(2 * h, low / 0x40);
  }

  lemma Bit5(h: nat, low: u8)
    ensures (h * 0x100 + low) / 0x20 % 2 == low / 0x20 % 2 && (h * 0x100 + low) % 0x20 == low % 0x20
  {
    Division.QuotientOf(h * 0x100 + low, 8 * h + low / 0x20, 0x20, low % 0x20);
    TwiceAndMore(4 * h, low / 0x20);
  }

  lemma LowBits(h: nat, low: u8)
    ensures var v := h * 0x100 + low;
            && v / 0x80 % 2 == low / 0x80 && v / 0x40 % 2 == low / 0x40 % 2 && v / 0x20 % 2 == low / 0x20 % 2 && v % 0x20 == low % 0x20
  {
    Bit7(h, low);
    Bit6(h, low);
    Bit5(h, low);
    assert low / 0x80 < 2;
  }

  lemma LowBack(low: u8)
    ensures Low(low / 0x80 == 1, low / 0x40 % 2 == 1, low / 0x20 % 2 == 1, low % 0x20) == low
  {
  }

  lemma LowParts(irqOff: bool, fiqOff: bool, thumb: bool, mode: Mode)
    ensures var low := Low(irqOff, fiqOff, thumb, mode);
            && (low / 0x80 == 1 <==> irqOff) && (low / 0x40 % 2 == 1 <==> fiqOff) && (low / 0x20 % 2 == 1 <==> thumb) && low % 0x20 == mode
  {
  }

  lemma Digits(v: nat)
    ensures v == v / 0x100_0000 * 0x100_0000 + v / 0x1_0000 % 0x100 * 0x1_0000 + v / 0x100 % 0x100 * 0x100 + v % 0x100
  {
    var (a, b) := (v / 0x100, v / 0x1_0000);
    Division.Nested(v, 0x100, 0x100);
    Division.Nested(v, 0x1_0000, 0x100);
    assert v == a * 0x100 + v % 0x100 && a == b * 0x100 + a % 0x100 && b == v / 0x100_0000 * 0x100 + b % 0x100;
  }

  lemma DecodedNumber(v: u32)
    ensures Number(Decode(v)) == v
  {
    hide Low;
    LowBits(v / 0x100, v % 0x100);
    LowBack(v % 0x100);
    Digits(v);
  }

  lemma HighParts(f: u8, s: u8, x: u8, low: u8)
    ensures var v := f * 0x100_0000 + s * 0x1_0000 + x * 0x100 + low;
            v / 0x100_0000 == f && v / 0x1_0000 % 0x100 == s && v / 0x100 % 0x100 == x
  {
    var v := f * 0x100_0000 + s * 0x1_0000 + x * 0x100 + low;
    Division.QuotientOf(v, f, 0x100_0000, s * 0x1_0000 + x * 0x100 + low);
    Division.QuotientOf(v, f * 0x100 + s, 0x1_0000, x * 0x100 + low);
    Division.QuotientOf(f * 0x100 + s, f, 0x100, s);
    Division.QuotientOf(v, f * 0x1_0000 + s * 0x100 + x, 0x100, low);
    Division.QuotientOf(f * 0x1_0000 + s * 0x100 + x, f * 0x100 + s, 0x100, x);
  }

  lemma NumberDecoded(p: Psr)
    ensures Number(p) < TWO_32 && Decode(Number(p)) == p
  {
    hide Low;
    var low := Low(p.irqOff, p.fiqOff, p.thumb, p.mode);
    LowParts(p.irqOff, p.fiqOff, p.thumb, p.mode);
    LowBits(p.f * 0x1_0000 + p.s * 0x100 + p.x, low);
    HighParts(p.f, p.s, p.x, low);
  }

  /** Every 32-bit number is the value of exactly one status register. */
  lemma DecodeIsExact(v: u32, p: Psr)
    ensures Number(p) == v <==> p == Decode(v)
  {
    DecodedNumber(v);
    NumberDecoded(p);
    hide *;
  }

  // ---- the banked register file

  datatype Bank = User | Fiq | Irq | Svc | Abt | Und

  /** The modes UpdateMode knows have registers of their own, the others share those of user mode. */
  function RegBank(mode: nat): Bank {
    match mode
    case 0x11 => Fiq
    case 0x12 => Irq
    case 0x13 => Svc
    case 0x17 => Abt
    case 0x1B => Und
    case _ => User
  }

  /** The saved status register a mode has access to; User stands for none. */
  function SpsrBank(mode: nat): Bank {
    if mode == 0x11 then Fiq
    else if mode == 0x12 then Irq
    else if mode == 0x13 then Svc
    else if 0x14 <= mode <= 0x17 then Abt
    else if 0x18 <= mode <= 0x1B then Und
    else User
  }

  /** The saved status registers. */
  datatype Saved = Saved(fiq: Psr, irq: Psr, svc: Psr, abt: Psr, und: Psr)
  {
    predicate Sound() {
      fiq.Sound() && irq.Sound() && svc.Sound() && abt.Sound() && und.Sound()
    }

    function Get(bank: Bank): Psr
      requires bank != User
    {
      match bank
      case Fiq => fiq
      case Irq => irq
      case Svc => svc
      case Abt => abt
      case Und => und
    }

    function Put(bank: Bank, v: Psr): (r: Saved)
      requires bank != User
      ensures r.Get(bank) == v && forall b :: b != User && b != bank ==> r.Get(b) == Get(b)
    {
      match bank
      case Fiq => this.(fiq := v)
      case Irq => this.(irq := v)
      case Svc => this.(svc := v)
      case Abt => this.(abt := v)
      case Und => this.(und := v)
    }
  }

  /** One register file per bank: R0-R7, the banked R8-R14, R15. */
  datatype Regs = Regs(common: seq<u32>, user: seq<u32>, fiq: seq<u32>, irq: seq<u32>, svc: seq<u32>,
                       abt: seq<u32>, und: seq<u32>, pc: u32)
  {
    predicate Valid() {
      |common| == 8 && |user| == |fiq| == 7 && |irq| == |svc| == |abt| == |und| == 2
    }

    /** Register i as a mode of the bank sees it. */
    function Get(bank: Bank, i: nat): u32
      requires Valid() && i < 16
    {
      if i < 8 then common[i]
      else if i == 15 then pc
      else if bank == Fiq then fiq[i - 8]
      else if i < 13 || bank == User then user[i - 8]
      else match bank
        case Irq => irq[i - 13]
        case Svc => svc[i - 13]
        case Abt => abt[i - 13]
        case Und => und[i - 13]
    }

    function Put(bank: Bank, i: nat, v: u32): (r: Regs)
      requires Valid() && i < 16
      ensures r.Valid() && r.Get(bank, i) == v
      ensures forall b, j :: 0 <= j < 16 && !(j == i && Slot(b, j) == Slot(bank, i)) ==> r.Get(b, j) == Get(b, j)
    {
      if i < 8 then this.(common := common[i := v])
      else if i == 15 then this.(pc := v)
      else if bank == Fiq then this.(fiq := fiq[i - 8 := v])
      else if i < 13 || bank == User then this.(user := user[i - 8 := v])
      else match bank
        case Irq => this.(irq := irq[i - 13 := v])
        case Svc => this.(svc := svc[i - 13 := v])
        case Abt => this.(abt := abt[i - 13 := v])
        case Und => this.(und := und[i - 13 := v])
    }
  }

  /** Which bank's copy of register i a mode uses. */
  function Slot(bank: Bank, i: nat): Bank {
    if i < 8 || i >= 15 || (i < 13 && bank != Fiq) then User else bank
  }

  /** The core's registers and status registers with every bank spelled out. */
  datatype State = State(regs: Regs, cpsr: Psr, spsr: Saved)
  {
    predicate Valid() {
      regs.Valid() && cpsr.Sound() && spsr.Sound() && Aligned(cpsr, regs.pc)
    }

    function Reg(i: nat): u32
      requires regs.Valid() && i < 16
    {
      regs.Get(RegBank(cpsr.mode), i)
    }
  }

  predicate Aligned(psr: Psr, pc: u32) {
    if psr.thumb then pc % 2 == 0 else pc % 4 == 0
  }

  // ---- what the operations do to the banked file

  /** JumpTo without restoring the status register. */
  function Jumped(s: State, addr: u32): State {
    if addr % 2 == 1 then
      s.(regs := s.regs.(pc := (addr - 1 + 2) % TWO_32), cpsr := s.cpsr.(thumb := true))
    else
      s.(regs := s.regs.(pc := (addr / 4 * 4 + 4) % TWO_32), cpsr := s.cpsr.(thumb := false))
  }

  function Restored(s: State): State
    requires s.Valid()
  {
    var b := SpsrBank(s.cpsr.mode);
    s.(cpsr := if b == User then s.cpsr else s.spsr.Get(b))
  }

  /** JumpTo with the status register restored: the low bit of the address is replaced by the T bit. */
  function Returned(s: State, addr: u32): State
    requires s.Valid()
  {
    var s' := Restored(s);
    Jumped(s', addr / 2 * 2 + if s'.cpsr.thumb then 1 else 0)
  }

  datatype Exception = Undefined | SoftwareInterrupt | PrefetchAbort | DataAbort | Interrupt

  /** The status register on entry: interrupts masked, ARM state, the mode of the exception; an interrupt
      masks FIQs as well. */
  function EntryPsr(psr: Psr, x: Exception): Psr {
    match x
    case Undefined => psr.(irqOff := true, thumb := false, mode := 0x1B)
    case SoftwareInterrupt => psr.(irqOff := true, thumb := false, mode := 0x13)
    case PrefetchAbort => psr.(irqOff := true, thumb := false, mode := 0x17)
    case DataAbort => psr.(irqOff := true, thumb := false, mode := 0x17)
    case Interrupt => psr.(irqOff := true, fiqOff := true, thumb := false, mode := 0x12)
  }

  /** What goes into the link register, relative to R15. */
  function LinkOffset(x: Exception, thumb: bool): int {
    match x
    case Undefined => if thumb then -2 else -4
    case SoftwareInterrupt => if thumb then -2 else -4
    case PrefetchAbort => if thumb then 2 else 0
    case DataAbort => if thumb then 4 else 0
    case Interrupt => if thumb then 2 else 0
  }

  function Vector(x: Exception): nat {
    match x
    case Undefined => 0x04
    case SoftwareInterrupt => 0x08
    case PrefetchAbort => 0x0C
    case DataAbort => 0x10
    case Interrupt => 0x18
  }

  function Link(s: State, x: Exception): u32 {
    (s.regs.pc + LinkOffset(x, s.cpsr.thumb)) % TWO_32
  }

  /** Exception entry on the banked file: the exception's bank gets the return address and the old status. */
  function Entered(s: State, x: Exception, base: u32): State
    requires s.Valid()
  {
    var psr := EntryPsr(s.cpsr, x);
    var b := RegBank(psr.mode);
    Jumped(State(s.regs.Put(b, 14, Link(s, x)), psr, s.spsr.Put(b, s.cpsr)), (base + Vector(x)) % TWO_32)
  }

  lemma JumpAligns(s: State, addr: u32)
    ensures Aligned(Jumped(s, addr).cpsr, Jumped(s, addr).regs.pc)
  {
    if addr % 2 == 1 {
      assert (addr - 1 + 2) % TWO_32 == if addr + 1 >= TWO_32 then addr + 1 - TWO_32 else addr + 1;
    } else {
      var a := addr / 4 * 4 + 4;
      assert a % TWO_32 == if a >= TWO_32 then a - TWO_32 else a;
    }
  }

  /** After a jump R15 is one instruction ahead: two bytes in Thumb code, which an odd address selects, four in ARM
      code, whose address is cut down to a whole word. Nothing else changes. */
  lemma JumpIsAhead(s: State, addr: u32)
    ensures var t := Jumped(s, addr);
            && t.spsr == s.spsr && t.regs == s.regs.(pc := t.regs.pc) && t.cpsr == s.cpsr.(thumb := t.cpsr.thumb)
            && (t.cpsr.thumb <==> addr % 2 == 1)
            && var width := if t.cpsr.thumb then 2 else 4;
               t.regs.pc == (addr - addr % width + width) % TWO_32
  {
    if addr % 2 == 1 {
      assert (addr - 1) % 2 == 0;
    } else {
      assert addr / 4 * 4 % 4 == 0;
    }
  }

  lemma VectorIsEven(x: Exception, base: u32)
    requires base % 4 == 0
    ensures (base + Vector(x)) % TWO_32 % 4 == 0
  {
    var a := base + Vector(x);
    assert a % TWO_32 == if a >= TWO_32 then a - TWO_32 else a;
  }

  function EntryBank(x: Exception): Bank {
    match x
    case Undefined => Und
    case SoftwareInterrupt => Svc
    case PrefetchAbort => Abt
    case DataAbort => Abt
    case Interrupt => Irq
  }

  lemma EntryPsrParts(psr: Psr, x: Exception)
    ensures RegBank(EntryPsr(psr, x).mode) == EntryBank(x) == SpsrBank(EntryPsr(psr, x).mode)
    ensures EntryPsr(psr, x).irqOff && !EntryPsr(psr, x).thumb && EntryPsr(psr, x).Sound()
  {
  }

  lemma EntryIsValid(s: State, x: Exception, base: u32)
    requires s.Valid() && base % 4 == 0
    ensures Entered(s, x, base).Valid() && Entered(s, x, base).cpsr == EntryPsr(s.cpsr, x)
    ensures Entered(s, x, base).Reg(14) == Link(s, x)
  {
    EntryPsrParts(s.cpsr, x);
    VectorIsEven(x, base);
    hide EntryPsr, RegBank, SpsrBank, LinkOffset, Vector;
    JumpAligns(State(s.regs.Put(EntryBank(x), 14, Link(s, x)), EntryPsr(s.cpsr, x), s.spsr.Put(EntryBank(x), s.cpsr)),
               (base + Vector(x)) % TWO_32);
  }

  /** What an entry sets: the status bits kept and set, the address of the vector and the distance of the link
      register from R15. */
  datatype Effect = Effect(keep: bv32, put: bv32, vector: nat, link: int)

  function EffectOf(x: Exception, thumb: bool): Effect {
    match x
    case Undefined => Effect(!0xBF, 0x9B, 0x04, if thumb then -2 else -4)
    case SoftwareInterrupt => Effect(!0xBF, 0x93, 0x08, if thumb then -2 else -4)
    case PrefetchAbort => Effect(!0xBF, 0x97, 0x0C, if thumb then 2 else 0)
    case DataAbort => Effect(!0xBF, 0x97, 0x10, if thumb then 4 else 0)
    case Interrupt => Effect(!0xFF, 0xD2, 0x18, if thumb then 2 else 0)
  }

  /** The bits of keep stay, those of put are set. */
  function Rewrite(w: bv32, keep: bv32, put: bv32): bv32 {
    (w & keep) | put
  }

  function RewriteByte(b: bv8, keep: bv8, put: bv8): bv8 {
    (b & keep) | put
  }

  lemma EntryControl(psr: Psr, x: Exception)
    ensures Control(EntryPsr(psr, x)) == RewriteByte(Control(psr), KeptControl(x), PutControl(x))
  {
    SmallMode(psr.mode);
    hide Byte;
    Constants();
  }

  function KeptControl(x: Exception): bv8 {
    if x == Interrupt then 0 else 0x40
  }

  function PutControl(x: Exception): bv8 {
    match x
    case Undefined => 0x9B
    case SoftwareInterrupt => 0x93
    case PrefetchAbort => 0x97
    case DataAbort => 0x97
    case Interrupt => 0xD2
  }

  lemma Constants()
    ensures Byte(0x1B) == 0x1B && Byte(0x13) == 0x13 && Byte(0x17) == 0x17 && Byte(0x12) == 0x12
  {
  }

  lemma EntryJoin(b3: bv8, b2: bv8, b1: bv8, b0: bv8, keep: bv8, put: bv8)
    ensures Rewrite(Join(b3, b2, b1, b0), Join(0xFF, 0xFF, 0xFF, keep), Join(0, 0, 0, put)) == Join(b3, b2, b1, RewriteByte(b0, keep, put))
  {
  }

  lemma EntryMasks(x: Exception, thumb: bool)
    ensures Join(0xFF, 0xFF, 0xFF, KeptControl(x)) == EffectOf(x, thumb).keep && Join(0, 0, 0, PutControl(x)) == EffectOf(x, thumb).put
  {
  }

  lemma EntryWord(psr: Psr, x: Exception)
    ensures Word(EntryPsr(psr, x)) == Rewrite(Word(psr), EffectOf(x, psr.thumb).keep, EffectOf(x, psr.thumb).put)
  {
    hide Join, Control, Byte, EffectOf, KeptControl, PutControl, Rewrite, RewriteByte;
    EntryControl(psr, x);
    EntryMasks(x, psr.thumb);
    EntryJoin(Byte(psr.f), Byte(psr.s), Byte(psr.x), Control(psr), KeptControl(x), PutControl(x));
  }

  lemma EntryLands(x: Exception, base: u32, thumb: bool)
    requires base % 4 == 0
    ensures ((base + Vector(x)) % TWO_32 / 4 * 4 + 4) % TWO_32 == (base + EffectOf(x, thumb).vector + 4) % TWO_32
  {
    var v := EffectOf(x, thumb).vector;
    VectorIsEven(x, base);
    Landings((base + v) % TWO_32 / 4);
    Wrap(base + v, -4);
  }

  /** What an exception entry leaves behind, in numbers: the new status word, the old one in the exception's own
      saved status register, the return address in its own link register, the program counter one instruction past
      the vector, and no other register of any bank changed. */
  lemma EntryIsExact(s: State, x: Exception, base: u32)
    requires s.Valid() && base % 4 == 0
    ensures var t, e := Entered(s, x, base), EffectOf(x, s.cpsr.thumb);
            && t.Valid() && Word(t.cpsr) == Rewrite(Word(s.cpsr), e.keep, e.put)
            && t.Reg(15) == (base + e.vector + 4) % TWO_32 && t.Reg(14) == (s.Reg(15) + e.link) % TWO_32
            && (forall b, i :: 0 <= i < 15 && !(i == 14 && b == EntryBank(x)) ==> t.regs.Get(b, i) == s.regs.Get(b, i))
            && t.spsr == match x
                         case Undefined => s.spsr.(und := s.cpsr)
                         case SoftwareInterrupt => s.spsr.(svc := s.cpsr)
                         case PrefetchAbort => s.spsr.(abt := s.cpsr)
                         case DataAbort => s.spsr.(abt := s.cpsr)
                         case Interrupt => s.spsr.(irq := s.cpsr)
  {
    hide Word, RegBank, EntryPsr, SpsrBank, Rewrite;
    EntryIsValid(s, x, base);
    EntryPsrParts(s.cpsr, x);
    EntryWord(s.cpsr, x);
    EntryLands(x, base, s.cpsr.thumb);
    VectorIsEven(x, base);
  }

  // ---- the masked writes of MSR

  datatype Fields = Fields(c: bool, x: bool, s: bool, f: bool)

  /** A status register after MSR, byte by byte: the control byte gets bit 4 set, in CPSR keeps its T bit,
      and is out of reach in user mode. */
  function MsrValue(was: Psr, val: Psr, fields: Fields, toCpsr: bool, userMode: bool): Psr {
    var v := val.ForceBit4();
    var control := if !fields.c || userMode then was else if toCpsr then v.(thumb := was.thumb) else v;
    control.(x := if fields.x then v.x else was.x, s := if fields.s then v.s else was.s, f := if fields.f then v.f else was.f)
  }

  /** In user mode nothing but the upper three bytes can be written; elsewhere bit 4 stays set, and a write to
      CPSR leaves the T bit alone. */
  lemma MsrKeeps(was: Psr, val: Psr, fields: Fields, toCpsr: bool, userMode: bool)
    requires was.Sound()
    ensures var p := MsrValue(was, val, fields, toCpsr, userMode);
            && p.Sound() && (toCpsr ==> p.thumb == was.thumb)
            && (userMode ==> p.mode == was.mode && p.irqOff == was.irqOff && p.fiqOff == was.fiqOff && p.thumb == was.thumb)
  {
  }

  /** The bits an MSR may write: those of the chosen bytes, in CPSR all but the T bit, in user mode none of the
      control byte. */
  function Writable(fields: Fields, toCpsr: bool, userMode: bool): bv32 {
    var chosen: bv32 := (if fields.c then 0xFF else 0) | (if fields.x then 0xFF00 else 0)
                        | (if fields.s then 0xFF_0000 else 0) | (if fields.f then 0xFF00_0000 else 0);
    chosen & (if toCpsr then 0xFFFF_FFDF else 0xFFFF_FFFF) & (if userMode then 0xFFFF_FF00 else 0xFFFF_FFFF)
  }

  lemma WritableBytes(fields: Fields, toCpsr: bool, userMode: bool)
    ensures Writable(fields, toCpsr, userMode)
         == Join(if fields.f then 0xFF else 0, if fields.s then 0xFF else 0, if fields.x then 0xFF else 0,
                 if !fields.c || userMode then 0 else if toCpsr then 0xDF else 0xFF)
  {
  }

  lemma ForcedMode(mode: Mode)
    requires mode < 0x10
    ensures Byte(mode + 0x10) == Byte(mode) | 0x10
  {
    assert mode < 8 ==> mode == 0 || mode == 1 || mode == 2 || mode == 3 || mode == 4 || mode == 5 || mode == 6 || mode == 7;
    assert 8 <= mode ==> mode == 8 || mode == 9 || mode == 10 || mode == 11 || mode == 12 || mode == 13 || mode == 14 || mode == 15;
  }

  lemma SoundMode(mode: Mode)
    requires mode >= 0x10
    ensures Byte(mode) == Byte(mode) | 0x10
  {
    ForcedMode(mode - 0x10);
  }

  lemma SmallMode(mode: Mode)
    ensures Byte(mode) & 0xE0 == 0
  {
    if mode >= 0x10 {
      ForcedMode(mode - 0x10);
    }
    var low := if mode >= 0x10 then mode - 0x10 else mode;
    assert low < 8 ==> low == 0 || low == 1 || low == 2 || low == 3 || low == 4 || low == 5 || low == 6 || low == 7;
    assert 8 <= low ==> low == 8 || low == 9 || low == 10 || low == 11 || low == 12 || low == 13 || low == 14 || low == 15;
  }

  lemma ForcedControl(p: Psr)
    ensures Control(p.ForceBit4()) == ForcedByte(Control(p))
  {
    if p.mode < 0x10 {
      ForcedMode(p.mode);
    } else {
      SoundMode(p.mode);
    }
  }

  function Forced(v: bv32): bv32 {
    v | 0x10
  }

  function ForcedByte(b: bv8): bv8 {
    b | 0x10
  }

  /** The bits of the mask taken from v, the others from w. */
  function Merged(w: bv32, v: bv32, mask: bv32): bv32 {
    (w & !mask) | (v & mask)
  }

  function MergedByte(w: bv8, v: bv8, mask: bv8): bv8 {
    (w & !mask) | (v & mask)
  }

  lemma AllButThumb(w: bv8, wasThumb: bool, irqOff: bool, fiqOff: bool, thumb: bool, mode: bv8)
    requires mode & 0xE0 == 0 && (w & 0x20 == if wasThumb then 0x20 else 0)
    ensures MergedByte(w, Flags(irqOff, fiqOff, thumb, mode), 0xDF) == Flags(irqOff, fiqOff, wasThumb, mode)
  {
  }

  lemma ThumbBit(irqOff: bool, fiqOff: bool, thumb: bool, mode: bv8)
    requires mode & 0xE0 == 0
    ensures Flags(irqOff, fiqOff, thumb, mode) & 0x20 == if thumb then 0x20 else 0
  {
  }

  lemma ControlWrite(was: Psr, val: Psr, fields: Fields, toCpsr: bool, userMode: bool)
    ensures var mask: bv8 := if !fields.c || userMode then 0 else if toCpsr then 0xDF else 0xFF;
            Control(MsrValue(was, val, fields, toCpsr, userMode)) == MergedByte(Control(was), ForcedByte(Control(val)), mask)
  {
    hide Byte, Flags, MergedByte, ForcedByte;
    ForcedControl(val);
    Merge(Control(was), ForcedByte(Control(val)), fields.c && !userMode);
    SmallMode(was.mode);
    ThumbBit(was.irqOff, was.fiqOff, was.thumb, Byte(was.mode));
    var v := val.ForceBit4();
    SmallMode(v.mode);
    AllButThumb(Control(was), was.thumb, v.irqOff, v.fiqOff, v.thumb, Byte(v.mode));
  }

  lemma MaskedField(was: u8, val: u8, chosen: bool)
    ensures var mask: bv8 := if chosen then 0xFF else 0;
            Byte(if chosen then val else was) == MergedByte(Byte(was), Byte(val), mask)
  {
    Merge(Byte(was), Byte(val), chosen);
    hide Byte;
  }

  lemma Merge(was: bv8, val: bv8, chosen: bool)
    ensures var mask: bv8 := if chosen then 0xFF else 0;
            (if chosen then val else was) == MergedByte(was, val, mask)
  {
  }

  lemma MaskedJoin(wf: bv8, ws: bv8, wx: bv8, wc: bv8, vf: bv8, vs: bv8, vx: bv8, vc: bv8, mf: bv8, ms: bv8, mx: bv8, mc: bv8)
    ensures Merged(Join(wf, ws, wx, wc), Forced(Join(vf, vs, vx, vc)), Join(mf, ms, mx, mc))
         == Join(MergedByte(wf, vf, mf), MergedByte(ws, vs, ms), MergedByte(wx, vx, mx), MergedByte(wc, ForcedByte(vc), mc))
  {
  }

  lemma MsrBytes(was: Psr, val: Psr, fields: Fields, toCpsr: bool, userMode: bool)
    ensures var p := MsrValue(was, val, fields, toCpsr, userMode);
            && p.f == (if fields.f then val.f else was.f) && p.s == (if fields.s then val.s else was.s) && p.x == (if fields.x then val.x else was.x)
  {
  }

  /** The new value is the old one with the writable bits taken from the value given, whose bit 4 counts as set. */
  lemma MsrIsMaskedWrite(was: Psr, val: Psr, fields: Fields, toCpsr: bool, userMode: bool)
    ensures var mask := Writable(fields, toCpsr, userMode);
            Word(MsrValue(was, val, fields, toCpsr, userMode)) == Merged(Word(was), Forced(Word(val)), mask)
  {
    hide Join, Control, Writable, Byte, MsrValue, Merged, MergedByte, Forced, ForcedByte;
    WritableBytes(fields, toCpsr, userMode);
    MsrBytes(was, val, fields, toCpsr, userMode);
    ControlWrite(was, val, fields, toCpsr, userMode);
    MaskedField(was.f, val.f, fields.f);
    MaskedField(was.s, val.s, fields.s);
    MaskedField(was.x, val.x, fields.x);
    MaskedJoin(Byte(was.f), Byte(was.s), Byte(was.x), Control(was), Byte(val.f), Byte(val.s), Byte(val.x), Control(val),
               if fields.f then 0xFF else 0, if fields.s then 0xFF else 0, if fields.x then 0xFF else 0,
               if !fields.c || userMode then 0 else if toCpsr then 0xDF else 0xFF);
  }

  /** MSR on the banked file; without a saved status register it does nothing. */
  function Msr(s: State, toSpsr: bool, val: Psr, fields: Fields): State
    requires s.Valid()
  {
    var userMode := s.cpsr.mode == 0x10;
    var b := SpsrBank(s.cpsr.mode);
    if !toSpsr then s.(cpsr := MsrValue(s.cpsr, val, fields, true, userMode))
    else if b == User then s
    else s.(spsr := s.spsr.Put(b, MsrValue(s.spsr.Get(b), val, fields, false, userMode)))
  }

  // ---- the core

  type FiqRegs = r: seq<u32> | |r| == 7 witness seq(7, _ => 0)
  type BankRegs = r: seq<u32> | |r| == 2 witness seq(2, _ => 0)

  /** The banked file, read off R and the bank arrays when the registers of the given bank are swapped in. */
  function FileOf(bank: Bank, r: Regs16, fiq: FiqRegs, irq: BankRegs, svc: BankRegs, abt: BankRegs, und: BankRegs): (regs: Regs)
    ensures regs.Valid()
  {
    var user :=
      match bank
      case User => r[8..15]
      case Fiq => fiq
      case Irq => r[8..13] + irq
      case Svc => r[8..13] + svc
      case Abt => r[8..13] + abt
      case Und => r[8..13] + und;
    Regs(r[..8], user,
         if bank == Fiq then r[8..15] else fiq,
         if bank == Irq then r[13..15] else irq,
         if bank == Svc then r[13..15] else svc,
         if bank == Abt then r[13..15] else abt,
         if bank == Und then r[13..15] else und,
         r[15])
  }

  /** R always holds what the current mode sees. */
  lemma ReadsCurrent(bank: Bank, r: Regs16, fiq: FiqRegs, irq: BankRegs, svc: BankRegs, abt: BankRegs, und: BankRegs, i: nat)
    requires i < 16
    ensures FileOf(bank, r, fiq, irq, svc, abt, und).Get(bank, i) == r[i]
  {
  }

  lemma WriteInJoin(a: seq<u32>, b: seq<u32>, k: nat, v: u32)
    requires k < |a|
    ensures (a + b)[k := v] == a[k := v] + b
  {
  }

  lemma WriteInSlice(r: Regs16, i: nat, v: u32, lo: nat, hi: nat)
    requires i < 16 && lo <= hi <= 16
    ensures r[i := v][lo..hi] == if lo <= i < hi then r[lo..hi][i - lo := v] else r[lo..hi]
  {
  }

  lemma WritesCurrent(bank: Bank, r: Regs16, fiq: FiqRegs, irq: BankRegs, svc: BankRegs, abt: BankRegs, und: BankRegs, i: nat, v: u32)
    requires i < 16
    ensures FileOf(bank, r[i := v], fiq, irq, svc, abt, und) == FileOf(bank, r, fiq, irq, svc, abt, und).Put(bank, i, v)
  {
    assert r[i := v][..8] == r[i := v][0..8] && r[..8] == r[0..8];
    WriteInSlice(r, i, v, 0, 8);
    WriteInSlice(r, i, v, 8, 13);
    WriteInSlice(r, i, v, 8, 15);
    WriteInSlice(r, i, v, 13, 15);
    if 8 <= i < 13 {
      WriteInJoin(r[8..13], irq, i - 8, v);
      WriteInJoin(r[8..13], svc, i - 8, v);
      WriteInJoin(r[8..13], abt, i - 8, v);
      WriteInJoin(r[8..13], und, i - 8, v);
    }
  }

  lemma SwapFiq(r: Regs16, fiq: FiqRegs, irq: BankRegs, svc: BankRegs, abt: BankRegs, und: BankRegs)
    ensures var r', fiq' := r[..8] + fiq + r[15..], r[8..15];
            && FileOf(Fiq, r', fiq', irq, svc, abt, und) == FileOf(User, r, fiq, irq, svc, abt, und)
            && FileOf(User, r', fiq', irq, svc, abt, und) == FileOf(Fiq, r, fiq, irq, svc, abt, und)
  {
  }

  lemma SwapTwo(r: Regs16, fiq: FiqRegs, own: BankRegs, b1: BankRegs, b2: BankRegs, b3: BankRegs)
    ensures var r', own' := r[..13] + own + r[15..], r[13..15];
            && FileOf(Irq, r', fiq, own', b1, b2, b3) == FileOf(User, r, fiq, own, b1, b2, b3)
            && FileOf(User, r', fiq, own', b1, b2, b3) == FileOf(Irq, r, fiq, own, b1, b2, b3)
            && FileOf(Svc, r', fiq, b1, own', b2, b3) == FileOf(User, r, fiq, b1, own, b2, b3)
            && FileOf(User, r', fiq, b1, own', b2, b3) == FileOf(Svc, r, fiq, b1, own, b2, b3)
            && FileOf(Abt, r', fiq, b1, b2, own', b3) == FileOf(User, r, fiq, b1, b2, own, b3)
            && FileOf(User, r', fiq, b1, b2, own', b3) == FileOf(Abt, r, fiq, b1, b2, own, b3)
            && FileOf(Und, r', fiq, b1, b2, b3, own') == FileOf(User, r, fiq, b1, b2, b3, own)
            && FileOf(User, r', fiq, b1, b2, b3, own') == FileOf(Und, r, fiq, b1, b2, b3, own)
  {
    var r', own' := r[..13] + own + r[15..], r[13..15];
    assert r'[..8] == r[..8] && r'[8..13] == r[8..13] && r'[13..15] == own;
    assert r[8..15] == r[8..13] + own' && r'[8..15] == r'[8..13] + own;
  }

  /** What Reset sets up before it jumps: supervisor mode with interrupts masked, all registers zero. */
  function Cleared(): State {
    State(Regs(seq(8, _ => 0), seq(7, _ => 0), seq(7, _ => 0), [0, 0], [0, 0], [0, 0], [0, 0], 0), Decode(0xD3),
          Saved(Decode(0x10), Decode(0x10), Decode(0x10), Decode(0x10), Decode(0x10)))
  }

  lemma ClearedFile()
    ensures FileOf(Svc, seq(16, _ => 0), seq(7, _ => 0), [0, 0], [0, 0], [0, 0], [0, 0]) == Cleared().regs
    ensures Cleared().cpsr.mode == 0x13
  {
  }

  /** The core starts in a valid state, in ARM code in supervisor mode, at the reset vector. */
  lemma AfterReset(base: u32)
    requires base == 0 || base == 0xFFFF_0000
    ensures var s := Jumped(Cleared(), base);
      s.Valid() && s.cpsr == Decode(0xD3) && s.Reg(15) == base + 4 && forall i :: 0 <= i < 15 ==> s.Reg(i) == 0
  {
  }

  /** The core: the registers swapped in, and for each bank the ones swapped out (R_FIQ[0..6], R_IRQ[0..1]
      and so on) and the saved status register (R_FIQ[7], R_IRQ[2] and so on). */
  class Arm {
    var r: Regs16
    var fiq: FiqRegs
    var irq: BankRegs
    var svc: BankRegs
    var abt: BankRegs
    var und: BankRegs
    var cpsr: Psr
    var spsr: Saved
    var exceptionBase: u32

    ghost function File(bank: Bank): Regs
      reads this
    {
      FileOf(bank, r, fiq, irq, svc, abt, und)
    }

    ghost function View(): State
      reads this
    {
      State(File(RegBank(cpsr.mode)), cpsr, spsr)
    }

    ghost predicate Valid()
      reads this
    {
      View().Valid() && exceptionBase % 4 == 0
    }

    /** Reset: supervisor mode with interrupts masked, all registers zero, then the jump to the reset vector. */
    constructor (num: nat)
      ensures Valid() && exceptionBase == (if num == 0 then 0xFFFF_0000 else 0)
      ensures View() == Jumped(Cleared(), exceptionBase)
    {
      r, fiq := seq(16, _ => 0), seq(7, _ => 0);
      irq, svc, abt, und := [0, 0], [0, 0], [0, 0], [0, 0];
      cpsr, spsr := Cleared().cpsr, Cleared().spsr;
      exceptionBase := if num == 0 then 0xFFFF_0000 else 0;
      new;
      hide Jumped, FileOf, Decode;
      ClearedFile();
      JumpTo(exceptionBase, false);
      AfterReset(exceptionBase);
    }

    /** One of the two switches of UpdateMode. */
    method SwapBank(mode: Mode)
      modifies `r, `fiq, `irq, `svc, `abt, `und
      ensures File(RegBank(mode)) == old(File(User)) && File(User) == old(File(RegBank(mode)))
    {
      hide FileOf;
      match mode {
        case 0x11 =>
          SwapFiq(r, fiq, irq, svc, abt, und);
          r, fiq := r[..8] + fiq + r[15..], r[8..15];
        case 0x12 =>
          SwapTwo(r, fiq, irq, svc, abt, und);
          r, irq := r[..13] + irq + r[15..], r[13..15];
        case 0x13 =>
          SwapTwo(r, fiq, svc, irq, abt, und);
          r, svc := r[..13] + svc + r[15..], r[13..15];
        case 0x17 =>
          SwapTwo(r, fiq, abt, irq, svc, und);
          r, abt := r[..13] + abt + r[15..], r[13..15];
        case 0x1B =>
          SwapTwo(r, fiq, und, irq, svc, abt);
          r, und := r[..13] + und + r[15..], r[13..15];
        case _ =>
      }
    }

    /** Changing the mode, between any two mode values, changes no register of any bank. */
    method UpdateMode(oldmode: Mode, newmode: Mode)
      modifies `r, `fiq, `irq, `svc, `abt, `und
      ensures File(RegBank(newmode)) == old(File(RegBank(oldmode)))
    {
      hide FileOf, RegBank;
      if oldmode == newmode {
        return;
      }
      SwapBank(oldmode);
      SwapBank(newmode);
    }

    method RestoreCPSR()
      requires Valid()
      modifies `r, `fiq, `irq, `svc, `abt, `und, `cpsr
      ensures View() == Restored(old(View()))
    {
      hide FileOf, RegBank;
      var oldmode := cpsr.mode;
      match cpsr.mode {
        case 0x11 => cpsr := spsr.fiq;
        case 0x12 => cpsr := spsr.irq;
        case 0x13 => cpsr := spsr.svc;
        case 0x14 | 0x15 | 0x16 | 0x17 => cpsr := spsr.abt;
        case 0x18 | 0x19 | 0x1A | 0x1B => cpsr := spsr.und;
        case _ =>
      }
      assert cpsr == Restored(old(View())).cpsr;
      cpsr := cpsr.ForceBit4();
      UpdateMode(oldmode, cpsr.mode);
    }

    lemma JumpFile(bank: Bank, pc: u32)
      ensures FileOf(bank, r[15 := pc], fiq, irq, svc, abt, und) == File(bank).(pc := pc)
    {
      WritesCurrent(bank, r, fiq, irq, svc, abt, und, 15, pc);
    }

    lemma FilePc(bank: Bank)
      ensures File(bank).pc == r[15]
    {
    }

    /** A jump, with the status register restored first when the instruction says so. */
    method JumpTo(target: u32, restorecpsr: bool)
      requires if restorecpsr then Valid() else exceptionBase % 4 == 0
      modifies `r, `fiq, `irq, `svc, `abt, `und, `cpsr
      ensures View() == if restorecpsr then Returned(old(View()), target) else Jumped(old(View()), target)
    {
      hide FileOf, RegBank;
      var addr: int := target;
      if restorecpsr {
        RestoreCPSR();
        addr := addr / 2 * 2 + if cpsr.thumb then 1 else 0;
      }
      if addr % 2 == 1 {
        addr := addr - 1;
        JumpFile(RegBank(cpsr.mode), (addr + 2) % TWO_32);
        r := r[15 := (addr + 2) % TWO_32];
        cpsr := cpsr.(thumb := true);
      } else {
        addr := addr / 4 * 4;
        JumpFile(RegBank(cpsr.mode), (addr + 4) % TWO_32);
        r := r[15 := (addr + 4) % TWO_32];
        cpsr := cpsr.(thumb := false);
      }
    }

    /** A_SVC, T_SVC, A_UNK, T_UNK, PrefetchAbort, DataAbort and the taken half of TriggerIRQ. */
    method Enter(x: Exception)
      requires Valid()
      modifies this
      ensures Valid() && exceptionBase == old(exceptionBase)
      ensures View() == Entered(old(View()), x, exceptionBase)
    {
      hide FileOf, RegBank, EntryPsr, Jumped, LinkOffset, Vector, Regs.Put, Regs.Get, State.Valid;
      var oldcpsr := cpsr;
      EntryIsValid(View(), x, exceptionBase);
      EntryPsrParts(cpsr, x);
      cpsr := EntryPsr(cpsr, x);
      UpdateMode(oldcpsr.mode, cpsr.mode);
      match x {
        case Undefined => spsr := spsr.(und := oldcpsr);
        case SoftwareInterrupt => spsr := spsr.(svc := oldcpsr);
        case PrefetchAbort => spsr := spsr.(abt := oldcpsr);
        case DataAbort => spsr := spsr.(abt := oldcpsr);
        case Interrupt => spsr := spsr.(irq := oldcpsr);
      }
      assert spsr == old(spsr).Put(EntryBank(x), oldcpsr);
      FilePc(EntryBank(x));
      var link := (r[15] + LinkOffset(x, oldcpsr.thumb)) % TWO_32;
      WritesCurrent(EntryBank(x), r, fiq, irq, svc, abt, und, 14, link);
      r := r[14 := link];
      JumpTo((exceptionBase + Vector(x)) % TWO_32, false);
    }

    method TriggerIRQ()
      requires Valid()
      modifies this
      ensures Valid()
      ensures View() == if old(cpsr).irqOff then old(View()) else Entered(old(View()), Interrupt, old(exceptionBase))
    {
      if cpsr.irqOff {
        return;
      }
      Enter(Interrupt);
    }

    /** MSR with an immediate or a register value: no register of any bank changes. */
    method WritePsr(toSpsr: bool, val: Psr, fields: Fields)
      requires Valid()
      modifies this
      ensures Valid() && View() == Msr(old(View()), toSpsr, val, fields)
    {
      hide FileOf, RegBank, MsrValue;
      MsrKeeps(cpsr, val, fields, true, cpsr.mode == 0x10);
      if toSpsr {
        WriteSpsr(val, fields);
      } else {
        var oldmode := cpsr.mode;
        cpsr := MsrValue(cpsr, val, fields, true, cpsr.mode == 0x10);
        UpdateMode(oldmode, cpsr.mode);
      }
    }

    method WriteSpsr(val: Psr, fields: Fields)
      requires Valid()
      modifies `spsr
      ensures Valid() && View() == Msr(old(View()), true, val, fields)
    {
      hide FileOf, RegBank, MsrValue;
      var userMode := cpsr.mode == 0x10;
      var b := SpsrBank(cpsr.mode);
      if b != User {
        MsrKeeps(spsr.Get(b), val, fields, false, userMode);
      }
      match cpsr.mode {
        case 0x11 => spsr := spsr.(fiq := MsrValue(spsr.fiq, val, fields, false, userMode));
        case 0x12 => spsr := spsr.(irq := MsrValue(spsr.irq, val, fields, false, userMode));
        case 0x13 => spsr := spsr.(svc := MsrValue(spsr.svc, val, fields, false, userMode));
        case 0x14 | 0x15 | 0x16 | 0x17 => spsr := spsr.(abt := MsrValue(spsr.abt, val, fields, false, userMode));
        case 0x18 | 0x19 | 0x1A | 0x1B => spsr := spsr.(und := MsrValue(spsr.und, val, fields, false, userMode));
        case _ =>
      }
    }

    /** The user-bank form of STM: between its two changes of mode R holds the user registers, whatever the mode,
        and afterwards nothing has changed. */
    method UserRegs() returns (vals: Regs16)
      requires Valid()
      modifies `r, `fiq, `irq, `svc, `abt, `und
      ensures Valid() && View() == old(View())
      ensures forall i :: 0 <= i < 16 ==> vals[i] == View().regs.Get(User, i)
    {
      hide FileOf;
      UpdateMode(cpsr.mode, 0x10);
      vals := r;
      forall i | 0 <= i < 16 ensures vals[i] == File(User).Get(User, i) {
        ReadsCurrent(User, r, fiq, irq, svc, abt, und, i);
      }
      UpdateMode(0x10, cpsr.mode);
    }

    /** The user-bank form of LDM: in any mode exactly the user bank's copies of the listed registers are loaded. */
    method LoadUserRegs(list: seq<bool>, vals: Regs16)
      requires Valid() && |list| == 16
      modifies `r, `fiq, `irq, `svc, `abt, `und
      ensures View() == old(View()).(regs := PutAll(old(View()).regs, User, list, vals, 15))
    {
      hide FileOf;
      UpdateMode(cpsr.mode, 0x10);
      ghost var regs := File(User);
      for i := 0 to 15
        invariant File(User) == PutAll(regs, User, list, vals, i)
      {
        WritesCurrent(User, r, fiq, irq, svc, abt, und, i, vals[i]);
        if list[i] {
          r := r[i := vals[i]];
        }
      }
      UpdateMode(0x10, cpsr.mode);
    }

    method MsrReg(toSpsr: bool, m: nat, fields: Fields)
      requires Valid() && m < 16
      modifies this
      ensures Valid() && View() == Msr(old(View()), toSpsr, Decode(old(View().Reg(m))), fields)
    {
      ReadsCurrent(RegBank(cpsr.mode), r, fiq, irq, svc, abt, und, m);
      WritePsr(toSpsr, Decode(r[m]), fields);
    }
  }

  /** The listed registers below n of a bank replaced. */
  function PutAll(regs: Regs, bank: Bank, list: seq<bool>, vals: Regs16, n: nat): (r: Regs)
    requires regs.Valid() && n <= 16 == |list|
    ensures r.Valid()
  {
    if n == 0 then regs
    else
      var before := PutAll(regs, bank, list, vals, n - 1);
      if list[n - 1] then before.Put(bank, n - 1, vals[n - 1]) else before
  }

  /** Each bank's copy of a register changes exactly when that copy is the one the bank uses and is listed. */
  lemma {:induction false} PutAllGets(regs: Regs, bank: Bank, list: seq<bool>, vals: Regs16, n: nat, b: Bank, i: nat)
    requires regs.Valid() && n <= 16 == |list| && i < 16
    ensures PutAll(regs, bank, list, vals, n).Get(b, i)
         == if i < n && list[i] && Slot(b, i) == Slot(bank, i) then vals[i] else regs.Get(b, i)
  {
    if n > 0 {
      PutAllGets(regs, bank, list, vals, n - 1, b, i);
      var before := PutAll(regs, bank, list, vals, n - 1);
      if list[n - 1] && i == n - 1 && Slot(b, i) == Slot(bank, i) {
        SameSlot(before.Put(bank, i, vals[i]), bank, b, i);
      }
    }
  }

  lemma SameSlot(regs: Regs, a: Bank, b: Bank, i: nat)
    requires regs.Valid() && i < 16 && Slot(a, i) == Slot(b, i)
    ensures regs.Get(a, i) == regs.Get(b, i)
  {
  }

  // ---- what follows about runs

  /** How far before the link register the instruction to go back to lies. */
  function ReturnOffset(x: Exception): nat {
    match x
    case Undefined => 0
    case SoftwareInterrupt => 0
    case PrefetchAbort => 4
    case DataAbort => 8
    case Interrupt => 4
  }

  /** A data abort comes back to the instruction that caused it, the others to where they were entered. */
  function ResumeAt(x: Exception, thumb: bool, pc: u32): u32 {
    if x != DataAbort then pc else if thumb then (pc - 2) % TWO_32 else (pc - 4) % TWO_32
  }

  lemma Back(pc: u32, d: nat)
    requires d == 2 || d == 4 || d == 8
    ensures var back := (pc - d) % TWO_32;
            && (pc % 2 == 0 ==> back % 2 == 0) && (pc % 4 == 0 && d != 2 ==> back % 4 == 0)
            && (back + 2) % TWO_32 == (pc - d + 2) % TWO_32 && (back + 4) % TWO_32 == (pc - d + 4) % TWO_32
  {
    Wrap(pc - d, -2);
    Wrap(pc - d, -4);
    StaysAligned(pc, d);
  }

  lemma SameLowBits(a: int)
    ensures (a + TWO_32) % 2 == a % 2 && (a + TWO_32) % 4 == a % 4
  {
    Even(a, 2, -0x8000_0000);
    Even(a, 4, -0x4000_0000);
  }

  lemma LessEven(pc: u32, d: nat)
    requires d == 2 || d == 4 || d == 8
    ensures (pc % 2 == 0 ==> (pc - d) % 2 == 0) && (pc % 4 == 0 && d != 2 ==> (pc - d) % 4 == 0)
  {
    Even(pc, 2, d / 2);
    if d != 2 {
      Even(pc, 4, d / 4);
    }
  }

  lemma Even(a: int, n: int, k: int)
    requires n == 2 || n == 4
    ensures (a - n * k) % n == a % n
  {
  }

  lemma StaysAligned(pc: u32, d: nat)
    requires d == 2 || d == 4 || d == 8
    ensures var back := (pc - d) % TWO_32;
            (pc % 2 == 0 ==> back % 2 == 0) && (pc % 4 == 0 && d != 2 ==> back % 4 == 0)
  {
    LessEven(pc, d);
    SameLowBits(pc - d);
    assert (pc - d) % TWO_32 == if pc >= d then pc - d else pc - d + TWO_32;
  }

  lemma Wrap(a: int, b: int)
    ensures (a % TWO_32 - b) % TWO_32 == (a - b) % TWO_32
  {
    var k := a / TWO_32;
    assert a - b == a % TWO_32 - b + k * TWO_32;
  }

  lemma Landings(k: int)
    ensures (2 * k) / 2 * 2 == 2 * k && (4 * k) / 2 * 2 == 4 * k && (4 * k) / 4 * 4 == 4 * k
  {
  }

  /** The address a handler returns to, and where the core then stands. */
  function ReturnAddress(x: Exception, link: u32): u32 {
    (link - ReturnOffset(x)) % TWO_32
  }

  function Landing(addr: u32, thumb: bool): u32 {
    var a := addr / 2 * 2 + if thumb then 1 else 0;
    if thumb then (a - 1 + 2) % TWO_32 else (a / 4 * 4 + 4) % TWO_32
  }

  lemma LandingOf(back: u32, thumb: bool)
    requires if thumb then back % 2 == 0 else back % 4 == 0
    ensures Landing(back, thumb) == (back + if thumb then 2 else 4) % TWO_32
  {
    if thumb {
      Landings(back / 2);
    } else {
      Landings(back / 4);
    }
  }

  lemma AddressBack(x: Exception, psr: Psr, pc: u32)
    requires Aligned(psr, pc)
    ensures Landing(ReturnAddress(x, (pc + LinkOffset(x, psr.thumb)) % TWO_32), psr.thumb) == ResumeAt(x, psr.thumb, pc)
  {
    hide Landing;
    Wrap(pc + LinkOffset(x, psr.thumb), ReturnOffset(x));
    var d := ReturnOffset(x) - LinkOffset(x, psr.thumb);
    Back(pc, d);
    LandingOf((pc - d) % TWO_32, psr.thumb);
    Resume(x, psr.thumb, pc);
  }

  lemma Resume(x: Exception, thumb: bool, pc: u32)
    ensures ResumeAt(x, thumb, pc) == (pc - (ReturnOffset(x) - LinkOffset(x, thumb)) + if thumb then 2 else 4) % TWO_32
  {
  }

  lemma ReturnLands(t: State, addr: u32)
    requires t.Valid()
    ensures Returned(t, addr) == State(t.regs.(pc := Landing(addr, Restored(t).cpsr.thumb)), Restored(t).cpsr, t.spsr)
  {
    var a := addr / 2 * 2;
    assert (a + 1) % 2 == 1 && a % 2 == 0;
  }

  /** An exception entered from a mode outside its bank and left again, by a jump to the link register less the
      exception's offset that restores the status register, gives back the status register, the program counter
      (for a data abort, that of the instruction before) and every register of every bank but the exception's
      link register; beside it only the exception's saved status register has changed. */
  lemma EntryAndReturn(s: State, x: Exception, base: u32)
    requires s.Valid() && base % 4 == 0 && RegBank(s.cpsr.mode) != EntryBank(x)
    ensures var t := Entered(s, x, base);
            t.Valid() && Returned(t, ReturnAddress(x, t.Reg(14)))
            == State(s.regs.Put(EntryBank(x), 14, Link(s, x)).(pc := ResumeAt(x, s.cpsr.thumb, s.regs.pc)), s.cpsr, s.spsr.Put(EntryBank(x), s.cpsr))
  {
    EntryIsValid(s, x, base);
    EntryPsrParts(s.cpsr, x);
    AddressBack(x, s.cpsr, s.regs.pc);
    var t := Entered(s, x, base);
    ReturnLands(t, ReturnAddress(x, t.Reg(14)));
    hide LinkOffset, ReturnOffset, ResumeAt, Landing, ReturnAddress, RegBank, EntryPsr, Vector, Returned, EntryBank, Regs.Put;
    var (pc, regs) := (t.regs.pc, s.regs.Put(EntryBank(x), 14, Link(s, x)));
    assert t.regs == regs.(pc := pc);
    assert Restored(t).cpsr == s.cpsr;
  }

  datatype MsrWrite = MsrWrite(toSpsr: bool, val: Psr, fields: Fields)

  function MsrRun(s: State, writes: seq<MsrWrite>): (t: State)
    requires s.Valid()
    ensures t.Valid()
    decreases |writes|
  {
    if writes == [] then s
    else
      var w := writes[0];
      MsrStep(s, w);
      MsrRun(Msr(s, w.toSpsr, w.val, w.fields), writes[1..])
  }

  lemma MsrStep(s: State, w: MsrWrite)
    requires s.Valid()
    ensures var t := Msr(s, w.toSpsr, w.val, w.fields);
            && t.Valid() && t.regs == s.regs && t.cpsr.thumb == s.cpsr.thumb
            && (s.cpsr.mode == 0x10 ==> t.spsr == s.spsr && t.cpsr.mode == 0x10 && t.cpsr.irqOff == s.cpsr.irqOff && t.cpsr.fiqOff == s.cpsr.fiqOff)
  {
    MsrKeeps(s.cpsr, w.val, w.fields, true, s.cpsr.mode == 0x10);
    var b := SpsrBank(s.cpsr.mode);
    if b != User {
      MsrKeeps(s.spsr.Get(b), w.val, w.fields, false, false);
    }
  }

  /** Whatever is written to the status registers, in whatever order, no register of any bank changes and the
      instruction set stays; started in user mode, the mode and both interrupt masks stay as well, and no saved
      status register can be touched. */
  lemma {:induction false} MsrRunKeeps(s: State, writes: seq<MsrWrite>)
    requires s.Valid()
    ensures var t := MsrRun(s, writes);
            && t.regs == s.regs && t.cpsr.thumb == s.cpsr.thumb
            && (s.cpsr.mode == 0x10 ==> t.spsr == s.spsr && t.cpsr.mode == 0x10 && t.cpsr.irqOff == s.cpsr.irqOff && t.cpsr.fiqOff == s.cpsr.fiqOff)
    decreases |writes|
  {
    if writes != [] {
      hide Msr;
      MsrStep(s, writes[0]);
      MsrRunKeeps(Msr(s, writes[0].toSpsr, writes[0].val, writes[0].fields), writes[1..]);
    }
  }
}
