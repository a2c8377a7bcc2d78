/** How the JIT reads the memory map (src/ARMJIT_Memory.cpp: ClassifyAddress9, ClassifyAddress7,
    GetMirrorLocation, LocaliseAddress, IsFastmemCompatible).  Masking an address with a power of two
    minus one is written as a remainder. */
module MemoryMap {
  import opened Machine
  import opened PageProtection
  import opened Division

  const REGION_OTHER: int := 0
  const REGION_ITCM: int := 1
  const REGION_BIOS9: int := 3
  const REGION_MAIN_RAM: int := 4
  const REGION_SHARED_WRAM: int := 5
  const REGION_IO9: int := 6
  const REGION_VRAM: int := 7
  const REGION_BIOS7: int := 8
  const REGION_WRAM7: int := 9
  const REGION_IO7: int := 10
  const REGION_WIFI: int := 11
  const REGION_VWRAM: int := 12
  const REGION_BIOS9_DSI: int := 13
  const REGION_BIOS7_DSI: int := 14
  const REGION_NWRAM_A: int := 15
  const REGION_NWRAM_B: int := 16
  const REGION_NWRAM_C: int := 17

  /** A window onto memory that may be absent: base offset and size. */
  datatype Window = Absent | Present(offset: nat, size: nat)

  /** The settings the memory map depends on.  `nwram(num, bank, slot)` is the offset NWRAMMap_A/B/C
      points to; `nwramStart`, `nwramEnd` are per CPU and bank; the SCFG_BIOS bits are split up. */
  datatype Config = Config(
    dsi: bool, itcmSize: nat, dtcmBase: nat, dtcmSize: nat, mainRamSize: nat,
    swram9: Window, swram7: Window,
    nwramStart: (int, int) -> int, nwramEnd: (int, int) -> int, nwramSlots: (int, int) -> nat,
    nwram: (int, int, int) -> Window,
    bios9Half: bool, bios9Hidden: bool, bios7Half: bool, bios7Hidden: bool)

  predicate InNwram(c: Config, num: int, bank: int, addr: u32) {
    c.nwramStart(num, bank) <= addr < c.nwramEnd(num, bank)
  }

  predicate InDtcm(c: Config, addr: u32) {
    c.dtcmBase <= addr < c.dtcmBase + c.dtcmSize
  }

  function ClassifyAddress9(c: Config, addr: u32): int {
    if addr < c.itcmSize then REGION_ITCM
    else if InDtcm(c, addr) then DTCM
    else if c.dsi && addr >= 0xFFFF_0000 && !c.bios9Hidden then
      if addr >= 0xFFFF_8000 && c.bios9Half then REGION_OTHER else REGION_BIOS9_DSI
    else if 0xFFFF_0000 <= addr < 0xFFFF_1000 then REGION_BIOS9
    else
      match addr / 0x100_0000
      case 0x02 => REGION_MAIN_RAM
      case 0x03 =>
        if c.dsi && InNwram(c, 0, 0, addr) then REGION_NWRAM_A
        else if c.dsi && InNwram(c, 0, 1, addr) then REGION_NWRAM_B
        else if c.dsi && InNwram(c, 0, 2, addr) then REGION_NWRAM_C
        else if c.swram9.Present? then REGION_SHARED_WRAM
        else REGION_OTHER
      case 0x04 => REGION_IO9
      case 0x06 => REGION_VRAM
      case 0x0C => if c.dsi then REGION_MAIN_RAM else REGION_OTHER
      case _ => REGION_OTHER
  }

  function ClassifyAddress7(c: Config, addr: u32): int {
    if c.dsi && addr < 0x1_0000 && !c.bios7Hidden then
      if addr >= 0x8000 && c.bios7Half then REGION_OTHER else REGION_BIOS7_DSI
    else if addr < 0x4000 then REGION_BIOS7
    else
      match addr / 0x80_0000
      case 0x04 => REGION_MAIN_RAM
      case 0x05 => REGION_MAIN_RAM
      case 0x06 =>
        if c.dsi && InNwram(c, 1, 0, addr) then REGION_NWRAM_A
        else if c.dsi && InNwram(c, 1, 1, addr) then REGION_NWRAM_B
        else if c.dsi && InNwram(c, 1, 2, addr) then REGION_NWRAM_C
        else if c.swram7.Present? then REGION_SHARED_WRAM
        else REGION_WRAM7
      case 0x07 => REGION_WRAM7
      case 0x08 => REGION_IO7
      case 0x09 => REGION_WIFI
      case 0x0C => REGION_VWRAM
      case 0x0D => REGION_VWRAM
      case 0x18 => if c.dsi then REGION_MAIN_RAM else REGION_OTHER
      case 0x19 => if c.dsi then REGION_MAIN_RAM else REGION_OTHER
      case _ => REGION_OTHER
  }

  function Classify(c: Config, num: int, addr: u32): int {
    if num == 0 then ClassifyAddress9(c, addr) else ClassifyAddress7(c, addr)
  }

  /** GetMirrorLocation: start and size of the stretch of addresses that shows the same piece of memory as
      `addr`, and the offset of that piece. */
  datatype Mirror = NoMirror | Mirror(offset: nat, start: int, size: nat)

  function AlignedMirror(offset: nat, addr: u32, size: nat): Mirror
    requires size > 0
  {
    Mirror(offset, addr - addr % size, size)
  }

  function WindowMirror(w: Window, addr: u32, size: nat): Mirror
    requires size > 0
  {
    if w.Present? then AlignedMirror(w.offset, addr, size) else NoMirror
  }

  function NwramSlot(c: Config, num: int, bank: int, addr: u32): int {
    if bank == 0 then addr / 0x1_0000 % (c.nwramSlots(num, bank) + 1) else addr / 0x8000 % (c.nwramSlots(num, bank) + 1)
  }

  function GetMirrorLocation(c: Config, region: int, num: int, addr: u32): Mirror
    requires Sizes(c)
  {
    if region == REGION_ITCM && num == 0 then AlignedMirror(0, addr, 0x8000)
    else if region == DTCM && num == 0 then AlignedMirror(0, addr, 0x4000)
    else if region == REGION_MAIN_RAM then AlignedMirror(0, addr, c.mainRamSize)
    else if region == REGION_BIOS9 && num == 0 then AlignedMirror(0, addr, 0x1000)
    else if region == REGION_BIOS7 && num == 1 then Mirror(0, 0, 0x4000)
    else if region == REGION_SHARED_WRAM && num == 0 && c.swram9.Present? then
      AlignedMirror(c.swram9.offset, addr, c.swram9.size)
    else if region == REGION_SHARED_WRAM && num == 1 && c.swram7.Present? then
      AlignedMirror(c.swram7.offset, addr, c.swram7.size)
    else if region == REGION_WRAM7 && num == 1 then AlignedMirror(0, addr, 0x1_0000)
    else if region == REGION_VRAM && num == 0 then AlignedMirror(0, addr, 0x10_0000)
    else if region == REGION_VWRAM && num == 1 then AlignedMirror(0, addr, 0x4_0000)
    else if region == REGION_NWRAM_A then WindowMirror(c.nwram(num, 0, NwramSlot(c, num, 0, addr)), addr, 0x1_0000)
    else if region == REGION_NWRAM_B then WindowMirror(c.nwram(num, 1, NwramSlot(c, num, 1, addr)), addr, 0x8000)
    else if region == REGION_NWRAM_C then WindowMirror(c.nwram(num, 2, NwramSlot(c, num, 2, addr)), addr, 0x8000)
    else if region == REGION_BIOS9_DSI && num == 0 then
      Mirror(0, addr - addr % 0x1_0000, if c.bios9Half then 0x8000 else 0x1_0000)
    else if region == REGION_BIOS7_DSI && num == 1 then
      Mirror(0, addr - addr % 0x1_0000, if c.bios7Half then 0x8000 else 0x1_0000)
    else NoMirror
  }

  /** LocaliseAddress, without the region number in its top five bits: an offset, or None for an address
      that shows no memory. */
  function LocaliseAddress(c: Config, region: int, num: int, addr: u32): Option<nat>
    requires Sizes(c)
  {
    if region == REGION_ITCM then Some(addr % 0x8000)
    else if region == REGION_MAIN_RAM then Some(addr % c.mainRamSize)
    else if region == REGION_BIOS9 then Some(addr % 0x1000)
    else if region == REGION_BIOS7 then Some(addr % 0x4000)
    else if region == REGION_SHARED_WRAM then
      var w := if num == 0 then c.swram9 else c.swram7;
      if w.Present? then Some(addr % w.size + w.offset) else None
    else if region == REGION_WRAM7 then Some(addr % 0x1_0000)
    else if region == REGION_VRAM then Some(addr % 0x10_0000)
    else if region == REGION_VWRAM then Some(addr % 0x4_0000)
    else if region == REGION_NWRAM_A then
      var w := c.nwram(num, 0, NwramSlot(c, num, 0, addr)); if w.Present? then Some(w.offset + addr % 0x1_0000) else None
    else if region == REGION_NWRAM_B then
      var w := c.nwram(num, 1, NwramSlot(c, num, 1, addr)); if w.Present? then Some(w.offset + addr % 0x8000) else None
    else if region == REGION_NWRAM_C then
      var w := c.nwram(num, 2, NwramSlot(c, num, 2, addr)); if w.Present? then Some(w.offset + addr % 0x8000) else None
    else if region == REGION_BIOS9_DSI || region == REGION_BIOS7_DSI then Some(addr % 0x1_0000)
    else None
  }

  /** The settings the hardware registers can produce: main RAM of 4 or 16 MiB, shared WRAM windows of 16
      or 32 KiB, a data TCM that is absent or an aligned power of two of at least 4 KiB, new-WRAM windows in
      steps of 64 KiB (bank A) and 32 KiB (banks B and C). */
  ghost predicate Sizes(c: Config) {
    && (c.mainRamSize == 0x40_0000 || c.mainRamSize == 0x100_0000)
    && (c.swram9.Present? ==> c.swram9.size == 0x4000 || c.swram9.size == 0x8000)
    && (c.swram7.Present? ==> c.swram7.size == 0x4000 || c.swram7.size == 0x8000)
    && DtcmSizes(c)
    && (forall num, bank :: 0 <= num <= 1 && 0 <= bank <= 2 ==> WindowSteps(c, num, bank))
  }

  ghost predicate DtcmSizes(c: Config) {
    && c.dtcmSize % 0x1000 == 0
    && (c.dtcmSize > 0 ==>
          c.dtcmBase % 0x1000 == 0 && c.dtcmBase + c.dtcmSize <= TWO_32 && Aligned(c.dtcmBase / 0x1000, c.dtcmSize / 0x1000))
  }

  ghost predicate WindowSteps(c: Config, num: int, bank: int) {
    var step := if bank == 0 then 0x1_0000 else 0x8000;
    c.nwramStart(num, bank) >= 0 && c.nwramStart(num, bank) % step == 0
    && c.nwramEnd(num, bank) >= 0 && c.nwramEnd(num, bank) % step == 0
  }

  /** MapNWRAMRange: start, end and slot mask of a window from a write to its register. */
  function WindowOf(bank: int, val: u32): (int, int, nat) {
    var size := val / 0x1000 % 4;
    if bank == 0 then
      (0x0300_0000 + val / 0x10 % 0x100 * 0x1_0000, 0x0300_0000 + val / 0x10_0000 % 0x200 * 0x1_0000,
       if size == 3 then 3 else if size == 2 then 1 else 0)
    else
      (0x0300_0000 + val / 8 % 0x200 * 0x8000, 0x0300_0000 + val / 0x8_0000 % 0x400 * 0x8000,
       if size == 3 then 7 else if size == 2 then 3 else if size == 1 then 1 else 0)
  }

  /** Whatever is written to the window registers, windows begin and end at whole slots, from 0x03000000 on, and never
      repeat more slots than the bank has parts. */
  lemma WindowsStep(c: Config, num: int, bank: int, val: u32)
    requires (c.nwramStart(num, bank), c.nwramEnd(num, bank), c.nwramSlots(num, bank)) == WindowOf(bank, val)
    ensures WindowSteps(c, num, bank) && c.nwramStart(num, bank) >= 0x0300_0000
    ensures
      var size := val / 0x1000 % 4;
      if bank == 0 then
        && c.nwramStart(num, bank) / 0x1_0000 == 0x300 + val / 0x10 % 0x100 && c.nwramEnd(num, bank) / 0x1_0000 == 0x300 + val / 0x10_0000 % 0x200
        && c.nwramSlots(num, bank) + 1 == [1, 1, 2, 4][size]
      else
        && c.nwramStart(num, bank) / 0x8000 == 0x600 + val / 8 % 0x200 && c.nwramEnd(num, bank) / 0x8000 == 0x600 + val / 0x8_0000 % 0x400
        && c.nwramSlots(num, bank) + 1 == [1, 2, 4, 8][size]
  {
    InSteps(val / 0x10 % 0x100);
    InSteps(val / 0x10_0000 % 0x200);
    InSteps(val / 8 % 0x200);
    InSteps(val / 0x8_0000 % 0x400);
  }

  lemma InSteps(k: nat)
    ensures (0x0300_0000 + k * 0x1_0000) % 0x1_0000 == 0 && (0x0300_0000 + k * 0x8000) % 0x8000 == 0
    ensures (0x0300_0000 + k * 0x1_0000) / 0x1_0000 == 0x300 + k && (0x0300_0000 + k * 0x8000) / 0x8000 == 0x600 + k
  {
  }

  /** An address belongs to its region: the BIOS regions are no larger than their mirrors, and a processor sees
      only its own regions. */
  ghost predicate Inside(c: Config, region: int, num: int, addr: u32) {
    && (num != 0 ==> region !in {REGION_ITCM, REGION_BIOS9, REGION_VRAM, REGION_BIOS9_DSI})
    && (num != 1 ==> region !in {REGION_BIOS7, REGION_WRAM7, REGION_VWRAM, REGION_BIOS7_DSI})
    && (region == REGION_BIOS7 ==> addr < 0x4000)
    && (region == REGION_BIOS9_DSI && c.bios9Half ==> addr % 0x1_0000 < 0x8000)
    && (region == REGION_BIOS7_DSI && c.bios7Half ==> addr % 0x1_0000 < 0x8000)
  }

  lemma ClassifiedInside(c: Config, num: int, addr: u32)
    requires 0 <= num <= 1
    ensures Inside(c, Classify(c, num, addr), num, addr)
  {
    hide InDtcm, InNwram;
  }

  lemma MirrorIsAligned(offset: nat, addr: u32, size: nat)
    requires size > 0
    ensures var m := AlignedMirror(offset, addr, size); 0 <= m.start <= addr < m.start + m.size && addr - m.start == addr % size
  {
    assert addr == addr / size * size + addr % size;
    assert addr / size * size >= 0;
  }

  lemma RegionAgrees(c: Config, region: int, num: int, addr: u32)
    requires Sizes(c) && Inside(c, region, num, addr) && region != DTCM && 0 <= num <= 1
    ensures var m := GetMirrorLocation(c, region, num, addr);
            && (m.Mirror? <==> LocaliseAddress(c, region, num, addr).Some?)
            && (m.Mirror? ==> 0 <= m.start <= addr < m.start + m.size
                              && LocaliseAddress(c, region, num, addr) == Some(m.offset + (addr - m.start)))
  {
    hide DtcmSizes, WindowSteps, NwramSlot;
    var m := GetMirrorLocation(c, region, num, addr);
    if m.NoMirror? {
    } else if region == REGION_SHARED_WRAM || region == REGION_MAIN_RAM || region >= REGION_NWRAM_A {
      MirrorIsAligned(m.offset, addr, m.size);
    }
  }

  /** The two ways to a place in the block tables agree: they exist for the same addresses (the data TCM, which
      has no code, aside), walking from the start of a mirror leads to the offset LocaliseAddress computes, and
      the walk stays inside the mirror. */
  lemma LocaliseAgreesWithMirror(c: Config, num: int, addr: u32)
    requires Sizes(c) && 0 <= num <= 1
    requires Classify(c, num, addr) != DTCM
    ensures var m := GetMirrorLocation(c, Classify(c, num, addr), num, addr);
            && (m.Mirror? <==> LocaliseAddress(c, Classify(c, num, addr), num, addr).Some?)
            && (m.Mirror? ==> 0 <= m.start <= addr < m.start + m.size
                              && LocaliseAddress(c, Classify(c, num, addr), num, addr) == Some(m.offset + (addr - m.start)))
  {
    hide GetMirrorLocation, LocaliseAddress, Classify, Sizes, Inside;
    ClassifiedInside(c, num, addr);
    RegionAgrees(c, Classify(c, num, addr), num, addr);
  }

  // ---- the memory map from the memory's side

  /** What the ARM9 sees where: the instruction TCM first, then the data TCM, then the rest by address. */
  lemma Regions9(c: Config, addr: u32)
    ensures
      var region := Classify(c, 0, addr);
      var rest := addr >= c.itcmSize && !(c.dtcmBase <= addr < c.dtcmBase + c.dtcmSize);
      var bios := c.dsi && !c.bios9Hidden;
      var window := (bank: int) => c.dsi && c.nwramStart(0, bank) <= addr < c.nwramEnd(0, bank);
      var shared := 0x0300_0000 <= addr < 0x0400_0000;
      && (region == REGION_ITCM <==> addr < c.itcmSize)
      && (region == DTCM <==> addr >= c.itcmSize && c.dtcmBase <= addr < c.dtcmBase + c.dtcmSize)
      && (region == REGION_BIOS9_DSI <==> rest && bios && addr >= 0xFFFF_0000 && (c.bios9Half ==> addr < 0xFFFF_8000))
      && (region == REGION_BIOS9 <==> rest && !bios && 0xFFFF_0000 <= addr < 0xFFFF_1000)
      && (region == REGION_MAIN_RAM <==> rest && (0x0200_0000 <= addr < 0x0300_0000 || (c.dsi && 0x0C00_0000 <= addr < 0x0D00_0000)))
      && (region == REGION_IO9 <==> rest && 0x0400_0000 <= addr < 0x0500_0000)
      && (region == REGION_VRAM <==> rest && 0x0600_0000 <= addr < 0x0700_0000)
      && (region == REGION_NWRAM_A <==> rest && shared && window(0))
      && (region == REGION_NWRAM_B <==> rest && shared && window(1) && !window(0))
      && (region == REGION_NWRAM_C <==> rest && shared && window(2) && !window(0) && !window(1))
      && (region == REGION_SHARED_WRAM <==> rest && shared && !window(0) && !window(1) && !window(2) && c.swram9.Present?)
      && region in {REGION_OTHER, REGION_ITCM, DTCM, REGION_BIOS9_DSI, REGION_BIOS9, REGION_MAIN_RAM, REGION_IO9, REGION_VRAM,
                    REGION_NWRAM_A, REGION_NWRAM_B, REGION_NWRAM_C, REGION_SHARED_WRAM}
  {
  }

  /** What the ARM7 sees where. */
  lemma Regions7(c: Config, addr: u32)
    ensures
      var region := Classify(c, 1, addr);
      var bios := c.dsi && !c.bios7Hidden;
      var window := (bank: int) => c.dsi && c.nwramStart(1, bank) <= addr < c.nwramEnd(1, bank);
      var shared := 0x0300_0000 <= addr < 0x0380_0000;
      var open := shared && !window(0) && !window(1) && !window(2);
      && (region == REGION_BIOS7_DSI <==> bios && addr < 0x1_0000 && (c.bios7Half ==> addr < 0x8000))
      && (region == REGION_BIOS7 <==> !bios && addr < 0x4000)
      && (region == REGION_MAIN_RAM <==> 0x0200_0000 <= addr < 0x0300_0000 || (c.dsi && 0x0C00_0000 <= addr < 0x0D00_0000))
      && (region == REGION_NWRAM_A <==> shared && window(0))
      && (region == REGION_NWRAM_B <==> shared && window(1) && !window(0))
      && (region == REGION_NWRAM_C <==> shared && window(2) && !window(0) && !window(1))
      && (region == REGION_SHARED_WRAM <==> open && c.swram7.Present?)
      && (region == REGION_WRAM7 <==> (open && c.swram7.Absent?) || 0x0380_0000 <= addr < 0x0400_0000)
      && (region == REGION_IO7 <==> 0x0400_0000 <= addr < 0x0480_0000)
      && (region == REGION_WIFI <==> 0x0480_0000 <= addr < 0x0500_0000)
      && (region == REGION_VWRAM <==> 0x0600_0000 <= addr < 0x0700_0000)
      && region in {REGION_OTHER, REGION_BIOS7_DSI, REGION_BIOS7, REGION_MAIN_RAM, REGION_NWRAM_A, REGION_NWRAM_B, REGION_NWRAM_C,
                    REGION_SHARED_WRAM, REGION_WRAM7, REGION_IO7, REGION_WIFI, REGION_VWRAM}
  {
  }

  /** Byte o of mirror j of a memory is byte o of the memory. */
  lemma MirrorsShowMemory(c: Config, num: int, j: nat, o: nat)
    requires Sizes(c)
    ensures o < 0x8000 && j * 0x8000 + o < TWO_32 ==> LocaliseAddress(c, REGION_ITCM, num, j * 0x8000 + o) == Some(o)
    ensures o < c.mainRamSize && j * c.mainRamSize + o < TWO_32 ==>
              LocaliseAddress(c, REGION_MAIN_RAM, num, j * c.mainRamSize + o) == Some(o)
    ensures o < 0x1000 && j * 0x1000 + o < TWO_32 ==> LocaliseAddress(c, REGION_BIOS9, num, j * 0x1000 + o) == Some(o)
    ensures o < 0x4000 && j * 0x4000 + o < TWO_32 ==> LocaliseAddress(c, REGION_BIOS7, num, j * 0x4000 + o) == Some(o)
    ensures o < 0x1_0000 && j * 0x1_0000 + o < TWO_32 ==>
              LocaliseAddress(c, REGION_WRAM7, num, j * 0x1_0000 + o) == LocaliseAddress(c, REGION_BIOS9_DSI, num, j * 0x1_0000 + o)
              == LocaliseAddress(c, REGION_BIOS7_DSI, num, j * 0x1_0000 + o) == Some(o)
    ensures o < 0x10_0000 && j * 0x10_0000 + o < TWO_32 ==> LocaliseAddress(c, REGION_VRAM, num, j * 0x10_0000 + o) == Some(o)
    ensures o < 0x4_0000 && j * 0x4_0000 + o < TWO_32 ==> LocaliseAddress(c, REGION_VWRAM, num, j * 0x4_0000 + o) == Some(o)
    ensures var w := if num == 0 then c.swram9 else c.swram7;
      w.Present? && o < w.size && j * w.size + o < TWO_32 ==>
        LocaliseAddress(c, REGION_SHARED_WRAM, num, j * w.size + o) == Some(w.offset + o)
  {
    hide DtcmSizes, WindowSteps, NwramSlot;
    InMirror(j, 0x8000, o);
    InMirror(j, c.mainRamSize, o);
    InMirror(j, 0x1000, o);
    InMirror(j, 0x4000, o);
    InMirror(j, 0x1_0000, o);
    InMirror(j, 0x10_0000, o);
    InMirror(j, 0x4_0000, o);
    var w := if num == 0 then c.swram9 else c.swram7;
    if w.Present? {
      InMirror(j, w.size, o);
    }
  }

  lemma InMirror(j: nat, size: nat, o: nat)
    requires size > 0
    ensures o < size ==> (j * size + o) % size == o
  {
    if o < size {
      QuotientOf(j * size + o, j, size, o);
    }
  }

  /** New WRAM: slot k of a bank, in every image of the slots the mask leaves, shows the memory mapped at slot k. The
      slots of bank A are of 64 KiB, those of banks B and C of 32 KiB. */
  lemma SlotsShowParts(c: Config, num: int, bank: int, j: nat, k: nat, o: nat)
    requires Sizes(c) && 0 <= bank <= 2 && k <= c.nwramSlots(num, bank)
    requires o < (if bank == 0 then 0x1_0000 else 0x8000)
    requires (if bank == 0 then 0x1_0000 else 0x8000) * (j * (c.nwramSlots(num, bank) + 1) + k) + o < TWO_32
    ensures
      var w := c.nwram(num, bank, k);
      LocaliseAddress(c, REGION_NWRAM_A + bank, num, (if bank == 0 then 0x1_0000 else 0x8000) * (j * (c.nwramSlots(num, bank) + 1) + k) + o)
      == if w.Present? then Some(w.offset + o) else None
  {
    hide Sizes;
    var n := c.nwramSlots(num, bank) + 1;
    var q := j * n + k;
    QuotientOf(q, j, n, k);
    if bank == 0 {
      QuotientOf(0x1_0000 * q + o, q, 0x1_0000, o);
    } else {
      QuotientOf(0x8000 * q + o, q, 0x8000, o);
    }
  }

  // ---- when the fast-memory mirrors are separated ------------------------------------------------

  predicate IsFastmemCompatible(region: int) {
    region == DTCM || region == REGION_MAIN_RAM || region == REGION_SHARED_WRAM || region == REGION_WRAM7 ||
    region == REGION_NWRAM_A || region == REGION_NWRAM_B || region == REGION_NWRAM_C
  }

  function FastMirror(c: Config, num: int, addr: int): Option<Mapping>
    requires Sizes(c)
  {
    if !(0 <= num <= 1 && 0 <= addr < TWO_32) || !IsFastmemCompatible(Classify(c, num, addr)) then None
    else
      var m := GetMirrorLocation(c, Classify(c, num, addr), num, addr);
      if m.NoMirror? || m.start < 0 then None
      else Some(Mapping(Classify(c, num, addr), num, m.start / 0x1000, m.size / 0x1000, m.offset / 0x1000))
  }

  ghost function FastMirrors(c: Config): Mirrors
    requires Sizes(c)
  {
    (num, addr) => FastMirror(c, num, addr)
  }

  function DtcmHole(c: Config): Hole {
    Hole(c.dtcmBase / 0x1000, c.dtcmSize / 0x1000)
  }

  /** The region an address has without the two TCMs. */
  function Base(c: Config, num: int, addr: u32): int {
    Classify(c.(itcmSize := 0, dtcmSize := 0), num, addr)
  }

  predicate BehindTcms(c: Config, num: int, addr: u32) {
    num == 0 ==> addr >= c.itcmSize && !InDtcm(c, addr)
  }

  predicate ShowsDtcm(c: Config, num: int, addr: u32) {
    num == 0 && addr >= c.itcmSize && InDtcm(c, addr)
  }

  /** Fast memory that is not the data TCM is what lies behind the TCMs. */
  lemma FastIsBase(c: Config, num: int, addr: u32)
    requires 0 <= num <= 1
    ensures Classify(c, num, addr) == DTCM <==> ShowsDtcm(c, num, addr)
    ensures Base(c, num, addr) != DTCM
    ensures BehindTcms(c, num, addr) ==> Classify(c, num, addr) == Base(c, num, addr)
    ensures !BehindTcms(c, num, addr) && !ShowsDtcm(c, num, addr) ==> Classify(c, num, addr) == REGION_ITCM
  {
  }

  // ---- blocks of addresses

  ghost predicate MirrorSize(size: nat) {
    size == 0x4000 || size == 0x8000 || size == 0x1_0000 || size == 0x40_0000 || size == 0x100_0000
  }

  /** Number of bytes in a mirror of a fast region. */
  function Bytes(c: Config, region: int, num: int): nat {
    if region == DTCM then 0x4000
    else if region == REGION_MAIN_RAM then c.mainRamSize
    else if region == REGION_WRAM7 || region == REGION_NWRAM_A then 0x1_0000
    else if region == REGION_NWRAM_B || region == REGION_NWRAM_C then 0x8000
    else
      var w := if num == 0 then c.swram9 else c.swram7;
      if w.Present? then w.size else 0x4000
  }

  lemma BytesOfRegion(c: Config, region: int, num: int)
    requires Sizes(c)
    ensures MirrorSize(Bytes(c, region, num))
  {
    hide DtcmSizes, WindowSteps;
  }

  lemma MirrorOfRegion(c: Config, region: int, num: int, addr: u32)
    requires Sizes(c) && IsFastmemCompatible(region) && GetMirrorLocation(c, region, num, addr).Mirror?
    ensures var m := GetMirrorLocation(c, region, num, addr);
            Bytes(c, region, num) > 0 && m == AlignedMirror(m.offset, addr, Bytes(c, region, num))
  {
    hide DtcmSizes, WindowSteps, NwramSlot;
  }

  /** The pages of the block of `size` bytes around an address. */
  function FirstPage(addr: u32, size: nat): nat
    requires size > 0
  {
    addr / size * (size / 0x1000)
  }

  predicate InBlock(addr: u32, size: nat, p: int)
    requires size > 0
  {
    FirstPage(addr, size) <= p < FirstPage(addr, size) + size / 0x1000
  }

  lemma PagesOfSize(size: nat)
    requires MirrorSize(size)
    ensures var pages := size / 0x1000;
      && pages >= 4 && pages % 4 == 0 && size == pages * 0x1000 && PAGES % pages == 0 && exists e: nat :: pages == Pow2(e)
  {
    assert Pow2(2) == 4 && Pow2(3) == 8 && Pow2(4) == 16;
    assert Pow2(6) == 64 && Pow2(8) == 256 && Pow2(10) == 0x400 && Pow2(12) == 0x1000;
  }

  lemma BlockStart(addr: u32, size: nat)
    requires MirrorSize(size)
    ensures addr - addr % size == FirstPage(addr, size) * 0x1000
    ensures FirstPage(addr, size) == (addr - addr % size) / 0x1000 && InBlock(addr, size, addr / 0x1000)
  {
    PagesOfSize(size);
    var q, r, pages := addr / size, addr % size, size / 0x1000;
    hide MirrorSize;
    assert addr == q * size + r;
    assert q * size == q * pages * 0x1000 by {
      Regrouped(q, pages);
    }
    var first := q * pages;
    assert first == FirstPage(addr, size);
    QuotientOf(first * 0x1000, first, 0x1000, 0);
    QuotientOf(addr, first + r / 0x1000, 0x1000, r % 0x1000);
  }

  lemma Regrouped(q: nat, pages: nat)
    ensures q * (pages * 0x1000) == q * pages * 0x1000
  {
  }

  /** The address space is made of whole blocks, and every address on a page of a block has its quotient. */
  lemma PageInBlock(addr: u32, size: nat, p: nat)
    requires MirrorSize(size) && InBlock(addr, size, p)
    ensures FirstPage(addr, size) + size / 0x1000 <= PAGES
    ensures p * 0x1000 < TWO_32 && p * 0x1000 / size == addr / size
  {
    PagesOfSize(size);
    var q, pages := addr / size, size / 0x1000;
    hide MirrorSize;
    var n := PAGES / pages;
    assert n * pages == PAGES;
    Regrouped(n, pages);
    assert n * size == TWO_32;
    QuotientBelow(addr, q, n, size);
    MulMonotone(q + 1, n, pages);
    Regrouped(q, pages);
    QuotientOf(p * 0x1000, q, size, (p - q * pages) * 0x1000);
  }

  /** Blocks of one size that share a page are one block. */
  lemma SamePageSameBlock(a: u32, b: u32, size: nat, p: nat)
    requires MirrorSize(size) && InBlock(a, size, p) && InBlock(b, size, p)
    ensures a / size == b / size
  {
    PageInBlock(a, size, p);
    PageInBlock(b, size, p);
  }

  /** The mapping made for an address is the block of its region's size around it. */
  lemma FastMirrorIs(c: Config, num: int, addr: int)
    requires Sizes(c) && FastMirror(c, num, addr).Some?
    ensures 0 <= num <= 1 && 0 <= addr < TWO_32
    ensures var m := FastMirror(c, num, addr).value; var size := Bytes(c, m.region, num);
            && m.region == Classify(c, num, addr) && IsFastmemCompatible(m.region) && m.num == num && MirrorSize(size)
            && m.start == FirstPage(addr, size) && m.size == size / 0x1000 && InBlock(addr, size, addr / 0x1000)
            && GetMirrorLocation(c, m.region, num, addr).Mirror?
  {
    hide Sizes, Classify, GetMirrorLocation, Bytes, FirstPage, InBlock;
    var region := Classify(c, num, addr);
    MirrorOfRegion(c, region, num, addr);
    BytesOfRegion(c, region, num);
    BlockStart(addr, Bytes(c, region, num));
  }

  lemma FastMirrorExists(c: Config, num: int, addr: u32)
    requires Sizes(c) && 0 <= num <= 1 && IsFastmemCompatible(Classify(c, num, addr))
    requires GetMirrorLocation(c, Classify(c, num, addr), num, addr).Mirror?
    ensures FastMirror(c, num, addr).Some?
  {
    hide Sizes, Classify, GetMirrorLocation, Bytes;
    var region := Classify(c, num, addr);
    MirrorOfRegion(c, region, num, addr);
    BytesOfRegion(c, region, num);
    BlockStart(addr, Bytes(c, region, num));
  }

  // ---- the mirrors of every configuration are aligned stretches outside the data TCM

  lemma DtcmPage(c: Config, addr: u32)
    requires Sizes(c)
    ensures InDtcm(c, addr) <==> InHole(DtcmHole(c), addr / 0x1000)
  {
    hide Aligned, WindowSteps;
  }

  lemma FirstPageAligned(addr: u32, size: nat)
    requires MirrorSize(size)
    ensures Aligned(FirstPage(addr, size), size / 0x1000)
  {
    hide Pow2, MirrorSize;
    PagesOfSize(size);
    var e: nat :| size / 0x1000 == Pow2(e);
    assert FirstPage(addr, size) == addr / size * Pow2(e);
  }

  lemma FastMirrorOK(c: Config, num: int, addr: nat)
    requires Sizes(c)
    ensures MirrorOK(FastMirrors(c), DtcmHole(c), num, addr)
  {
    hide Sizes, Classify, GetMirrorLocation, Bytes, FirstPage, Aligned, FastMirror, DtcmHole;
    if FastMirror(c, num, addr).Some? {
      FastMirrorIs(c, num, addr);
      var m := FastMirror(c, num, addr).value;
      var size := Bytes(c, m.region, num);
      PageInBlock(addr, size, addr / 0x1000);
      FirstPageAligned(addr, size);
      FastIsBase(c, num, addr);
      DtcmPage(c, addr);
    }
  }

  // ---- within a block, memory does not change

  /** A window in whole steps holds all addresses of a step or none. */
  lemma WindowUniform(start: int, end: int, step: nat, a: u32, b: u32)
    requires step == 0x8000 || step == 0x1_0000
    requires start % step == 0 && end % step == 0 && a / step == b / step
    ensures start <= a < end <==> start <= b < end
  {
    if step == 0x8000 {
      SameSide(start / 0x8000, 0x8000, a, b);
      SameSide(end / 0x8000, 0x8000, a, b);
    } else {
      SameSide(start / 0x1_0000, 0x1_0000, a, b);
      SameSide(end / 0x1_0000, 0x1_0000, a, b);
    }
  }

  lemma SameSide(k: int, step: int, a: u32, b: u32)
    requires (step == 0x8000 || step == 0x1_0000) && a / step == b / step
    ensures k * step <= a <==> k * step <= b
  {
    if step == 0x8000 {
      assert k * 0x8000 <= a <==> k <= a / 0x8000;
    } else {
      assert k * 0x1_0000 <= a <==> k <= a / 0x1_0000;
    }
  }

  /** Smaller blocks lie in larger ones. */
  lemma SameLarger(a: u32, b: u32)
    ensures a / 0x4000 == b / 0x4000 ==> a / 0x8000 == b / 0x8000
    ensures a / 0x8000 == b / 0x8000 ==> a / 0x1_0000 == b / 0x1_0000
    ensures a / 0x1_0000 == b / 0x1_0000 ==> a / 0x40_0000 == b / 0x40_0000
    ensures a / 0x40_0000 == b / 0x40_0000 ==> a / 0x80_0000 == b / 0x80_0000
    ensures a / 0x80_0000 == b / 0x80_0000 ==> a / 0x100_0000 == b / 0x100_0000
  {
    Coarser(a, b, 0x4000, 2);
    Coarser(a, b, 0x8000, 2);
    Coarser(a, b, 0x1_0000, 0x40);
    Coarser(a, b, 0x40_0000, 2);
    Coarser(a, b, 0x80_0000, 2);
  }

  lemma Coarser(a: u32, b: u32, n: nat, k: nat)
    requires n > 0 && k > 0
    ensures n * k > 0 && (a / n == b / n ==> a / (n * k) == b / (n * k))
  {
    Nested(a, n, k);
    Nested(b, n, k);
  }

  /** Addresses of the same 32 KiB, or for bank A of the same 64 KiB, are in the same windows and slots. */
  lemma NwramUniform(c: Config, num: int, bank: int, a: u32, b: u32)
    requires Sizes(c) && 0 <= num <= 1 && 0 <= bank <= 2
    requires a / 0x8000 == b / 0x8000 || (bank == 0 && a / 0x1_0000 == b / 0x1_0000)
    ensures InNwram(c, num, bank, a) <==> InNwram(c, num, bank, b)
    ensures NwramSlot(c, num, bank, a) == NwramSlot(c, num, bank, b)
  {
    hide DtcmSizes, NwramSlot;
    assert WindowSteps(c, num, bank);
    SameLarger(a, b);
    SlotUniform(c, num, bank, a, b);
    WindowUniform(c.nwramStart(num, bank), c.nwramEnd(num, bank), if bank == 0 then 0x1_0000 else 0x8000, a, b);
  }

  lemma SlotUniform(c: Config, num: int, bank: int, a: u32, b: u32)
    requires if bank == 0 then a / 0x1_0000 == b / 0x1_0000 else a / 0x8000 == b / 0x8000
    ensures NwramSlot(c, num, bank, a) == NwramSlot(c, num, bank, b)
  {
  }

  lemma SameWindows(c: Config, num: int, a: u32, b: u32)
    requires Sizes(c) && 0 <= num <= 1 && a / 0x8000 == b / 0x8000
    ensures forall bank :: 0 <= bank <= 2 ==> (InNwram(c, num, bank, a) <==> InNwram(c, num, bank, b))
  {
    NwramUniform(c, num, 0, a, b);
    NwramUniform(c, num, 1, a, b);
    NwramUniform(c, num, 2, a, b);
  }

  /** The region behind the TCMs depends on the area and the windows alone. */
  lemma BaseOf9(c: Config, addr: u32)
    ensures var area := addr / 0x100_0000; var region := Base(c, 0, addr);
      && (region == REGION_MAIN_RAM <==> area == 2 || (area == 0xC && c.dsi))
      && (region == REGION_NWRAM_A <==> area == 3 && c.dsi && InNwram(c, 0, 0, addr))
      && (region == REGION_NWRAM_B <==> area == 3 && c.dsi && InNwram(c, 0, 1, addr) && !InNwram(c, 0, 0, addr))
      && (region == REGION_NWRAM_C <==>
            area == 3 && c.dsi && InNwram(c, 0, 2, addr) && !InNwram(c, 0, 0, addr) && !InNwram(c, 0, 1, addr))
      && (region == REGION_SHARED_WRAM <==>
            area == 3 && c.swram9.Present? && !(c.dsi && (InNwram(c, 0, 0, addr) || InNwram(c, 0, 1, addr) || InNwram(c, 0, 2, addr))))
      && region != REGION_WRAM7
  {
  }

  lemma BaseOf7(c: Config, addr: u32)
    ensures var area := addr / 0x80_0000; var region := Base(c, 1, addr);
      var window := c.dsi && (InNwram(c, 1, 0, addr) || InNwram(c, 1, 1, addr) || InNwram(c, 1, 2, addr));
      && (region == REGION_MAIN_RAM <==> area == 4 || area == 5 || ((area == 0x18 || area == 0x19) && c.dsi))
      && (region == REGION_NWRAM_A <==> area == 6 && c.dsi && InNwram(c, 1, 0, addr))
      && (region == REGION_NWRAM_B <==> area == 6 && c.dsi && InNwram(c, 1, 1, addr) && !InNwram(c, 1, 0, addr))
      && (region == REGION_NWRAM_C <==>
            area == 6 && c.dsi && InNwram(c, 1, 2, addr) && !InNwram(c, 1, 0, addr) && !InNwram(c, 1, 1, addr))
      && (region == REGION_SHARED_WRAM <==> area == 6 && c.swram7.Present? && !window)
      && (region == REGION_WRAM7 <==> area == 7 || (area == 6 && c.swram7.Absent? && !window))
  {
  }

  /** Two addresses in one block of the first one's region show the same region, unless that is the ARM7's WRAM,
      which may share its block with a window of bank B or C. */
  lemma BlockUniform(c: Config, num: int, a: u32, b: u32)
    requires Sizes(c) && 0 <= num <= 1
    requires IsFastmemCompatible(Base(c, num, a)) && Bytes(c, Base(c, num, a), num) > 0
    requires a / Bytes(c, Base(c, num, a), num) == b / Bytes(c, Base(c, num, a), num)
    ensures Base(c, num, a) != REGION_WRAM7 ==> Base(c, num, b) == Base(c, num, a)
    ensures Base(c, num, a) == REGION_WRAM7 ==> Base(c, num, b) in {REGION_WRAM7, REGION_NWRAM_B, REGION_NWRAM_C}
  {
    hide Base, Sizes, InNwram;
    var region := Base(c, num, a);
    FastIsBase(c, num, a);
    BytesCases(c, region, num);
    SameLarger(a, b);
    if num == 0 {
      BaseOf9(c, a);
      BaseOf9(c, b);
    } else {
      BaseOf7(c, a);
      BaseOf7(c, b);
    }
    if a / 0x8000 == b / 0x8000 {
      SameWindows(c, num, a, b);
    } else if a / 0x1_0000 == b / 0x1_0000 {
      NwramUniform(c, num, 0, a, b);
    }
  }

  lemma BytesCases(c: Config, region: int, num: int)
    requires Sizes(c)
    ensures region == REGION_MAIN_RAM ==> Bytes(c, region, num) in {0x40_0000, 0x100_0000}
    ensures region == REGION_SHARED_WRAM ==> Bytes(c, region, num) in {0x4000, 0x8000}
    ensures region == REGION_NWRAM_B || region == REGION_NWRAM_C ==> Bytes(c, region, num) == 0x8000
    ensures region == REGION_NWRAM_A || region == REGION_WRAM7 ==> Bytes(c, region, num) == 0x1_0000
  {
    hide DtcmSizes, WindowSteps;
  }

  /** And whether there is memory at all is the same for both. */
  lemma PresenceUniform(c: Config, num: int, region: int, a: u32, b: u32)
    requires Sizes(c) && 0 <= num <= 1 && IsFastmemCompatible(region)
    requires Bytes(c, region, num) > 0 && a / Bytes(c, region, num) == b / Bytes(c, region, num)
    ensures GetMirrorLocation(c, region, num, a).Mirror? <==> GetMirrorLocation(c, region, num, b).Mirror?
  {
    hide NwramSlot;
    if region == REGION_NWRAM_A {
      NwramUniform(c, num, 0, a, b);
    } else if region == REGION_NWRAM_B {
      NwramUniform(c, num, 1, a, b);
    } else if region == REGION_NWRAM_C {
      NwramUniform(c, num, 2, a, b);
    }
  }

  // ---- which settings make two mirrors overlap

  /** A data TCM smaller than its 16 KiB mirror lies in fast memory, and both can be reached: the ITCM leaves part of
      the data TCM, and of the mirror around it, uncovered. */
  ghost predicate DtcmClash(c: Config)
    requires Sizes(c)
  {
    && 0 < c.dtcmSize < 0x4000 && c.itcmSize < c.dtcmBase + c.dtcmSize
    && var region := Base(c, 0, c.dtcmBase);
    && var m := GetMirrorLocation(c, region, 0, c.dtcmBase);
    && IsFastmemCompatible(region) && m.Mirror?
    && c.itcmSize < if c.dtcmBase + c.dtcmSize == m.start + m.size then c.dtcmBase else m.start + m.size
  }

  /** Some 64 KiB block of the ARM7 shows its own WRAM and, in the other half, a part of new-WRAM bank B or C. */
  ghost predicate WramClash(c: Config)
    requires Sizes(c)
  {
    exists a: u32, b: u32 :: a / 0x1_0000 == b / 0x1_0000 && Base(c, 1, a) == REGION_WRAM7 && ShowsHalf(c, b)
  }

  predicate ShowsHalf(c: Config, b: u32)
    requires Sizes(c)
  {
    Base(c, 1, b) in {REGION_NWRAM_B, REGION_NWRAM_C} && GetMirrorLocation(c, Base(c, 1, b), 1, b).Mirror?
  }

  /** Two different fast regions share a page of their mirrors only in the two clashes. */
  lemma RegionsMeet(c: Config, num: int, a: u32, b: u32, p: nat)
    requires Sizes(c) && FastMirror(c, num, a).Some? && FastMirror(c, num, b).Some?
    requires Classify(c, num, a) != DTCM && Classify(c, num, b) != DTCM && Classify(c, num, a) != Classify(c, num, b)
    requires InBlock(a, Bytes(c, Classify(c, num, a), num), p) && InBlock(b, Bytes(c, Classify(c, num, b), num), p)
    ensures num == 1 && WramClash(c)
  {
    hide Sizes, Classify, Base, GetMirrorLocation, Bytes, InBlock, FastMirror;
    FastMirrorIs(c, num, a);
    FastMirrorIs(c, num, b);
    FastIsBase(c, num, a);
    FastIsBase(c, num, b);
    var r, q := Base(c, num, a), Base(c, num, b);
    assert r == Classify(c, num, a) && q == Classify(c, num, b);
    PageInBlock(a, Bytes(c, r, num), p);
    PageInBlock(b, Bytes(c, q, num), p);
    var x := p * 0x1000;
    BlockUniform(c, num, a, x);
    BlockUniform(c, num, b, x);
    BytesCases(c, r, num);
    BytesCases(c, q, num);
    if num == 0 {
      BaseOf9(c, a);
      BaseOf9(c, b);
    } else if r == REGION_WRAM7 {
      SameLarger(x, b);
      assert ShowsHalf(c, b);
    } else {
      SameLarger(x, a);
      assert ShowsHalf(c, a);
    }
  }

  /** Mirrors of one region that share a page cover the same addresses. */
  lemma SameRegionCovers(c: Config, num: int, a: u32, b: u32, p: nat)
    requires Sizes(c) && FastMirror(c, num, a).Some? && FastMirror(c, num, b).Some? && Classify(c, num, a) == Classify(c, num, b)
    requires InBlock(a, Bytes(c, Classify(c, num, a), num), p) && InBlock(b, Bytes(c, Classify(c, num, b), num), p)
    ensures Covers(FastMirror(c, num, a).value, DtcmHole(c), num, b / 0x1000)
  {
    hide Sizes, Classify, Bytes, FastMirror, MirrorSize, DtcmHole, Base;
    FastMirrorIs(c, num, a);
    FastMirrorIs(c, num, b);
    SamePageSameBlock(a, b, Bytes(c, Classify(c, num, a), num), p);
    FastIsBase(c, num, b);
    DtcmPage(c, b);
  }

  // ---- the data TCM and the mirrors around it

  /** The 16 KiB block of a page of a small data TCM holds the whole TCM, and lies in the block of any fast region it
      meets. */
  lemma DtcmNests(c: Config, a: u32, b: u32, size: nat, p: nat)
    requires Sizes(c) && InDtcm(c, a) && MirrorSize(size) && InBlock(a, 0x4000, p) && InBlock(b, size, p)
    ensures c.dtcmSize >= 0x4000 ==> InHole(DtcmHole(c), p)
    ensures c.dtcmSize < 0x4000 ==> InBlock(b, size, c.dtcmBase / 0x1000) && c.dtcmBase + c.dtcmSize <= (FirstPage(b, size) + size / 0x1000) * 0x1000
    ensures c.dtcmSize < 0x4000 ==> forall q :: InBlock(a, 0x4000, q) ==> InBlock(b, size, q)
  {
    hide Aligned, FirstPage, MirrorSize, WindowSteps;
    var d := DtcmHole(c);
    var s, t := FirstPage(a, 0x4000), FirstPage(b, size);
    SmallestSize();
    DtcmPage(c, a);
    BlockStart(a, 0x4000);
    FirstPageAligned(a, 0x4000);
    FirstPageAligned(b, size);
    PagesOfSize(size);
    AlignedRegionsNest(s, 4, d.start, d.size);
    AlignedRegionsNest(s, 4, t, size / 0x1000);
  }

  lemma SmallestSize()
    ensures MirrorSize(0x4000)
  {
  }

  /** The mirror of the data TCM shares a page outside the TCM with another fast mirror only in the first clash. */
  lemma DtcmMeets(c: Config, a: u32, b: u32, p: nat)
    requires Sizes(c) && FastMirror(c, 0, a).Some? && FastMirror(c, 0, b).Some?
    requires Classify(c, 0, a) == DTCM && Classify(c, 0, b) != DTCM
    requires InBlock(a, 0x4000, p) && InBlock(b, Bytes(c, Classify(c, 0, b), 0), p) && !InHole(DtcmHole(c), p)
    ensures DtcmClash(c)
  {
    hide Sizes, Classify, Base, GetMirrorLocation, Bytes, InBlock, FastMirror, FirstPage, DtcmHole;
    FastMirrorIs(c, 0, b);
    FastIsBase(c, 0, a);
    FastIsBase(c, 0, b);
    var region := Base(c, 0, b);
    var size := Bytes(c, region, 0);
    DtcmNests(c, a, b, size, p);
    DtcmIsSmall(c);
    PageInBlock(b, size, c.dtcmBase / 0x1000);
    BaseOf9(c, b);
    BlockUniform(c, 0, b, c.dtcmBase);
    PresenceUniform(c, 0, region, b, c.dtcmBase);
    MirrorOfRegion(c, region, 0, c.dtcmBase);
    BlockStart(c.dtcmBase, size);
    SameFirstPage(b, c.dtcmBase, size);
    BlockEnd(b, size);
  }

  /** A data TCM begins on a page of the address space. */
  lemma DtcmIsSmall(c: Config)
    requires Sizes(c) && c.dtcmSize > 0
    ensures c.dtcmBase < TWO_32 && c.dtcmBase / 0x1000 * 0x1000 == c.dtcmBase
  {
    hide Aligned, WindowSteps;
  }

  lemma SameFirstPage(a: u32, b: u32, size: nat)
    requires size > 0 && a / size == b / size
    ensures FirstPage(a, size) == FirstPage(b, size)
  {
  }

  lemma BlockEnd(addr: u32, size: nat)
    requires MirrorSize(size)
    ensures FirstPage(addr, size) * 0x1000 <= addr < (FirstPage(addr, size) + size / 0x1000) * 0x1000
    ensures (FirstPage(addr, size) + size / 0x1000) * 0x1000 == FirstPage(addr, size) * 0x1000 + size <= TWO_32
  {
    BlockStart(addr, size);
    PagesOfSize(size);
    PageInBlock(addr, size, addr / 0x1000);
  }

  // ---- the clashes are failures

  /** The two addresses of a DTCM clash: one in the TCM, one beside it in the mirror around it. */
  lemma DtcmClashAddresses(c: Config) returns (a: u32, b: u32)
    requires Sizes(c) && DtcmClash(c)
    ensures ShowsDtcm(c, 0, a) && BehindTcms(c, 0, b)
    ensures var region := Base(c, 0, b); var size := Bytes(c, region, 0);
      && IsFastmemCompatible(region) && GetMirrorLocation(c, region, 0, b).Mirror? && MirrorSize(size)
      && forall p: nat :: InBlock(a, 0x4000, p) ==> InBlock(b, size, p)
  {
    hide Sizes, Base, GetMirrorLocation, Bytes, InBlock, FirstPage;
    DtcmIsSmall(c);
    var base: u32, end := c.dtcmBase, c.dtcmBase + c.dtcmSize;
    var region := Base(c, 0, base);
    var size := Bytes(c, region, 0);
    BytesOfRegion(c, region, 0);
    MirrorOfRegion(c, region, 0, base);
    BlockStart(base, size);
    BlockEnd(base, size);
    var top := FirstPage(base, size) * 0x1000 + size;
    a := if c.itcmSize > base then c.itcmSize else base;
    DtcmInSpace(c);
    SmallestBlock(c, base, size);
    b := if end == top then base - 1 else top - 1;
    InsideBlock(base, b, size);
    BaseOf9(c, base);
    BlockUniform(c, 0, base, b);
    PresenceUniform(c, 0, region, base, b);
    SameFirstPage(base, b, size);
    forall p: nat | InBlock(a, 0x4000, p) ensures InBlock(b, size, p) {
      SmallDtcmInBlock(c, a, base, size, p);
      SameInBlock(base, b, size, p);
    }
  }

  lemma DtcmInSpace(c: Config)
    requires Sizes(c) && c.dtcmSize > 0
    ensures c.dtcmBase + c.dtcmSize <= TWO_32
  {
    hide Aligned, WindowSteps;
  }

  /** A small data TCM ends within any block it begins in. */
  lemma SmallestBlock(c: Config, base: u32, size: nat)
    requires Sizes(c) && 0 < c.dtcmSize < 0x4000 && base == c.dtcmBase && MirrorSize(size)
    ensures c.dtcmBase + c.dtcmSize <= FirstPage(base, size) * 0x1000 + size
  {
    hide FirstPage, MirrorSize, Sizes, Aligned;
    BlockStart(base, size);
    BlockEnd(base, size);
    SmallestSize();
    BlockStart(base, 0x4000);
    DtcmNests(c, base, base, size, base / 0x1000);
  }

  lemma InsideBlock(a: u32, b: u32, size: nat)
    requires MirrorSize(size) && FirstPage(a, size) * 0x1000 <= b < FirstPage(a, size) * 0x1000 + size
    ensures a / size == b / size
  {
    BlockStart(a, size);
    var q := a / size;
    assert a - a % size == q * size;
    QuotientOf(b, q, size, b - q * size);
  }

  /** The mirror of a small data TCM lies in the block around it. */
  lemma SmallDtcmInBlock(c: Config, a: u32, base: u32, size: nat, p: nat)
    requires Sizes(c) && c.dtcmSize < 0x4000 && InDtcm(c, a) && base == c.dtcmBase && MirrorSize(size) && InBlock(a, 0x4000, p)
    ensures InBlock(base, size, p)
  {
    hide FirstPage, MirrorSize, Sizes, Aligned, DtcmHole;
    SmallestSize();
    BlockStart(a, 0x4000);
    BlockStart(base, size);
    DtcmNests(c, a, a, 0x4000, a / 0x1000);
    SmallestSize();
    DtcmNests(c, a, base, size, base / 0x1000);
  }

  lemma SameInBlock(a: u32, b: u32, size: nat, p: int)
    requires size > 0 && a / size == b / size && InBlock(a, size, p)
    ensures InBlock(b, size, p)
  {
  }

  /** Four pages are more than a small data TCM has. */
  lemma PageOutside(c: Config, a: u32) returns (p: nat)
    requires Sizes(c) && 0 < c.dtcmSize < 0x4000
    ensures InBlock(a, 0x4000, p) && !InHole(DtcmHole(c), p)
  {
    hide FirstPage, Aligned, WindowSteps;
    p := FirstPage(a, 0x4000);
    if InHole(DtcmHole(c), p) {
      p := p + 3;
    }
  }

  lemma DtcmClashFails(c: Config)
    requires Sizes(c) && DtcmClash(c)
    ensures !Separated(FastMirrors(c), DtcmHole(c))
  {
    hide Sizes, Classify, Base, GetMirrorLocation, Bytes, InBlock, FastMirror, FirstPage, DtcmHole, InDtcm;
    var a, b := DtcmClashAddresses(c);
    SmallDtcm(c);
    var mirror, d := FastMirrors(c), DtcmHole(c);
    FastIsBase(c, 0, a);
    FastIsBase(c, 0, b);
    DtcmHasMirror(c, a);
    FastMirrorExists(c, 0, a);
    FastMirrorExists(c, 0, b);
    FastMirrorIs(c, 0, a);
    FastMirrorIs(c, 0, b);
    DtcmPage(c, a);
    var m, n := FastMirror(c, 0, a).value, FastMirror(c, 0, b).value;
    var p := PageOutside(c, a);
    InMapping(n, a, b, Bytes(c, n.region, 0), p);
    DtcmBytes(c);
    BlockPages(m, a, 0x4000, p);
    BlockPages(n, b, Bytes(c, n.region, 0), p);
    assert Covers(n, d, 0, p) && Covers(m, d, 0, p);
    assert !Covers(n, d, 0, a / 0x1000);
    assert Overlap(n, m, d);
    assert !SeparatedAt(mirror, d, 0, b, a);
  }

  lemma SmallDtcm(c: Config)
    requires Sizes(c) && DtcmClash(c)
    ensures 0 < c.dtcmSize < 0x4000
  {
  }

  lemma DtcmBytes(c: Config)
    ensures Bytes(c, DTCM, 0) == 0x4000
  {
  }

  lemma DtcmHasMirror(c: Config, a: u32)
    requires Sizes(c)
    ensures GetMirrorLocation(c, DTCM, 0, a).Mirror?
  {
    hide Sizes;
  }

  lemma InMapping(n: Mapping, a: u32, b: u32, size: nat, p: nat)
    requires size > 0 && (forall q: nat :: InBlock(a, 0x4000, q) ==> InBlock(b, size, q)) && InBlock(a, 0x4000, p)
    ensures InBlock(b, size, p)
  {
  }

  lemma BlockPages(m: Mapping, addr: u32, size: nat, p: nat)
    requires size > 0 && m.start == FirstPage(addr, size) && m.size == size / 0x1000
    ensures m.start <= p < m.start + m.size <==> InBlock(addr, size, p)
  {
  }

  lemma WramClashFails(c: Config)
    requires Sizes(c) && WramClash(c)
    ensures !Separated(FastMirrors(c), DtcmHole(c))
  {
    hide Sizes, Classify, Base, GetMirrorLocation, FastMirror, DtcmHole;
    var a: u32, b: u32 :| a / 0x1_0000 == b / 0x1_0000 && Base(c, 1, a) == REGION_WRAM7 && ShowsHalf(c, b);
    var mirror, d := FastMirrors(c), DtcmHole(c);
    FastIsBase(c, 1, a);
    FastIsBase(c, 1, b);
    WramHasMirror(c, a);
    FastMirrorExists(c, 1, a);
    FastMirrorExists(c, 1, b);
    FastMirrorIs(c, 1, a);
    FastMirrorIs(c, 1, b);
    BlockStart(b, 0x1_0000);
    BlockStart(b, 0x8000);
    SameFirstPage(a, b, 0x1_0000);
    var m, n := FastMirror(c, 1, a).value, FastMirror(c, 1, b).value;
    assert Covers(m, d, 1, b / 0x1000) && Covers(n, d, 1, b / 0x1000);
    assert Overlap(n, m, d);
    if Covers(n, d, 1, a / 0x1000) {
      BlockStart(a, 0x8000);
      SamePageSameBlock(a, b, 0x8000, a / 0x1000);
      BlockUniform(c, 1, b, a);
      assert false;
    }
    assert !SeparatedAt(mirror, d, 1, b, a);
  }

  lemma WramHasMirror(c: Config, a: u32)
    requires Sizes(c)
    ensures GetMirrorLocation(c, REGION_WRAM7, 1, a).Mirror?
  {
    hide Sizes;
  }

  // ---- the exact condition

  lemma SeparatedUnlessClash(c: Config, num: int, a: nat, b: nat)
    requires Sizes(c) && !DtcmClash(c) && !WramClash(c)
    ensures SeparatedAt(FastMirrors(c), DtcmHole(c), num, a, b)
  {
    hide Sizes, Classify, Base, GetMirrorLocation, Bytes, InBlock, FastMirror, FirstPage, DtcmHole, DtcmClash, WramClash;
    var mirror, d := FastMirrors(c), DtcmHole(c);
    if FastMirror(c, num, a).Some? && FastMirror(c, num, b).Some? {
      FastMirrorIs(c, num, a);
      FastMirrorIs(c, num, b);
      var m, n := FastMirror(c, num, a).value, FastMirror(c, num, b).value;
      if p :| Covers(m, d, m.num, p) && Covers(n, d, m.num, p) {
        BlockPages(m, a, Bytes(c, m.region, num), p);
        BlockPages(n, b, Bytes(c, n.region, num), p);
        DtcmBytes(c);
        FastIsBase(c, num, a);
        FastIsBase(c, num, b);
        if m.region == n.region {
          SameRegionCovers(c, num, a, b, p);
        } else if m.region == DTCM {
          DtcmMeets(c, a, b, p);
        } else if n.region == DTCM {
          DtcmMeets(c, b, a, p);
        } else {
          RegionsMeet(c, num, a, b, p);
        }
      }
    }
  }

  /** For every setting of the memory map, no assertion of the page map fails on any run exactly when the settings
      avoid the two clashes. */
  lemma FastMapIsSafeIff(c: Config)
    requires Sizes(c)
    ensures WellFormed(FastMirrors(c), DtcmHole(c))
    ensures (forall ops :: Run(ops, FastMirrors(c), DtcmHole(c)).Some?) <==> !DtcmClash(c) && !WramClash(c)
  {
    hide Sizes, Classify, Base, GetMirrorLocation, FastMirror, DtcmHole, DtcmClash, WramClash, Aligned, MirrorOK, SeparatedAt;
    var mirror, d := FastMirrors(c), DtcmHole(c);
    forall num: int, addr: nat ensures MirrorOK(mirror, d, num, addr) {
      FastMirrorOK(c, num, addr);
    }
    HoleAligned(c);
    NoAssertionFailsIffSeparated(mirror, d);
    if DtcmClash(c) {
      DtcmClashFails(c);
    } else if WramClash(c) {
      WramClashFails(c);
    } else {
      forall num: int, a: nat, b: nat ensures SeparatedAt(mirror, d, num, a, b) {
        SeparatedUnlessClash(c, num, a, b);
      }
    }
  }

  lemma HoleAligned(c: Config)
    requires Sizes(c)
    ensures DtcmHole(c).size > 0 ==> Aligned(DtcmHole(c).start, DtcmHole(c).size)
  {
    hide Aligned, WindowSteps;
  }

  /** On a DS only the data TCM can clash. */
  lemma DsMapIsSafeIff(c: Config)
    requires Sizes(c) && !c.dsi
    ensures (forall ops :: Run(ops, FastMirrors(c), DtcmHole(c)).Some?) <==> !DtcmClash(c)
  {
    hide Sizes, FastMirrors, DtcmHole, DtcmClash, Run;
    FastMapIsSafeIff(c);
    forall b: u32 ensures !ShowsHalf(c, b) {
      BaseOf7(c, b);
    }
  }

  /** A 4 KiB data TCM inside main RAM. */
  function SmallDtcmConfig(): Config {
    Config(false, 0, 0x027C_0000, 0x1000, 0x40_0000, Absent, Absent,
           (_, _) => 0, (_, _) => 0, (_, _) => 0, (_, _, _) => Absent, false, false, false, false)
  }

  lemma SmallDtcmSizes()
    ensures Sizes(SmallDtcmConfig())
  {
    assert Aligned(0x27C0, 1) by {
      assert 1 == Pow2(0) && 0x27C0 == 0x27C0 * Pow2(0);
    }
  }

  lemma SmallDtcmRegions()
    ensures Classify(SmallDtcmConfig(), 0, 0x027C_0000) == DTCM && Classify(SmallDtcmConfig(), 0, 0x0270_0000) == REGION_MAIN_RAM
  {
  }

  lemma SmallDtcmMirror()
    requires Sizes(SmallDtcmConfig())
    ensures FastMirror(SmallDtcmConfig(), 0, 0x027C_0000) == Some(Mapping(DTCM, 0, 0x27C0, 4, 0))
  {
    SmallDtcmRegions();
    hide Classify, Sizes;
  }

  lemma MainRamMirror()
    requires Sizes(SmallDtcmConfig())
    ensures FastMirror(SmallDtcmConfig(), 0, 0x0270_0000) == Some(Mapping(REGION_MAIN_RAM, 0, 0x2400, 0x400, 0))
  {
    SmallDtcmRegions();
    hide Classify, Sizes;
  }

  /** With such a TCM, an access to it followed by one to main RAM fails an assertion of MapAtAddress:
      the 16 KiB mirror of the TCM reaches over pages that main RAM still shows. */
  lemma SmallDtcmBreaksTheMap()
    ensures Sizes(SmallDtcmConfig())
    ensures Run([Touch(0, 0x027C_0000), Touch(0, 0x0270_0000)], FastMirrors(SmallDtcmConfig()), DtcmHole(SmallDtcmConfig())).None?
  {
    SmallDtcmSizes();
    assert DtcmHole(SmallDtcmConfig()) == Hole(0x27C0, 1);
    hide Sizes, FastMirror, SmallDtcmConfig;
    SmallDtcmMirror();
    MainRamMirror();
    OverlapFails(SmallDtcmConfig(), 0, 0x027C_0000, 0x0270_0000, 0x27C1);
  }

  /** Two accesses to overlapping mirrors, the second outside the first mirror. */
  lemma OverlapFails(c: Config, num: int, a: nat, b: nat, p: int)
    requires Sizes(c) && FastMirror(c, num, a).Some? && FastMirror(c, num, b).Some?
    requires var m, n, d := FastMirror(c, num, a).value, FastMirror(c, num, b).value, DtcmHole(c);
      m.num == num && Covers(m, d, num, p) && Covers(n, d, num, p) && !Covers(m, d, num, b / 0x1000)
    ensures Run([Touch(num, a), Touch(num, b)], FastMirrors(c), DtcmHole(c)).None?
  {
    hide Sizes, FastMirror, DtcmHole, DtcmClash, WramClash;
    var mirror, d := FastMirrors(c), DtcmHole(c);
    FastMapIsSafeIff(c);
    assert Overlap(mirror(num, a).value, mirror(num, b).value, d);
    assert !SeparatedAt(mirror, d, num, a, b);
    TwoTouchesFail(mirror, d, num, a, b);
  }

  /** A DSi whose ARM7 sees 32 KiB of new-WRAM bank B at the start of its own WRAM's first mirror. */
  function HalfWindowConfig(): Config {
    Config(true, 0, 0, 0, 0x100_0000, Absent, Absent,
           (num, bank) => if num == 1 && bank == 1 then 0x0300_0000 else 0, (num, bank) => if num == 1 && bank == 1 then 0x0300_8000 else 0,
           (_, _) => 0, (num, bank, slot) => if num == 1 && bank == 1 && slot == 0 then Present(0, 0x8000) else Absent,
           false, false, false, false)
  }

  lemma HalfWindowSizes()
    ensures Sizes(HalfWindowConfig())
  {
    hide Aligned;
  }

  lemma HalfWindowMirrors()
    ensures var c := HalfWindowConfig();
      && Sizes(c) && DtcmHole(c) == Hole(0, 0)
      && FastMirror(c, 1, 0x0300_0000) == Some(Mapping(REGION_NWRAM_B, 1, 0x3000, 8, 0))
      && FastMirror(c, 1, 0x0300_8000) == Some(Mapping(REGION_WRAM7, 1, 0x3000, 0x10, 0))
  {
    HalfWindowSizes();
    HalfWindowRegions();
    hide Classify, Sizes;
  }

  lemma HalfWindowRegions()
    ensures Classify(HalfWindowConfig(), 1, 0x0300_0000) == REGION_NWRAM_B
    ensures Classify(HalfWindowConfig(), 1, 0x0300_8000) == REGION_WRAM7
  {
  }

  /** An access to that window followed by one to the WRAM behind it fails the same assertion. */
  lemma HalfWindowBreaksTheMap()
    ensures Sizes(HalfWindowConfig())
    ensures Run([Touch(1, 0x0300_0000), Touch(1, 0x0300_8000)], FastMirrors(HalfWindowConfig()), DtcmHole(HalfWindowConfig())).None?
  {
    hide Sizes, FastMirror, HalfWindowConfig;
    HalfWindowMirrors();
    OverlapFails(HalfWindowConfig(), 1, 0x0300_0000, 0x0300_8000, 0x3000);
  }
}
