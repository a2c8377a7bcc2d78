/** The DMA channels of both processors (src/DMA.cpp): a transfer is cut into slices by the clock, by stalls
    and, towards the geometry FIFO, into chunks of 112 units. */
module DmaChannels {
  import opened Machine

  const GX_CHUNK: nat := 112

  /** One unit moved over the bus: the addresses read and written. */
  datatype Unit = Unit(src: u32, dst: u32)

  /** The address of unit k of a transfer from `base`. */
  function UnitAt(base: u32, step: int, k: nat): u32 {
    (base + k * step) % TWO_32
  }

  lemma Advance(base: u32, step: int, k: nat)
    ensures UnitAt(base, step, 0) == base
    ensures (UnitAt(base, step, k) + step) % TWO_32 == UnitAt(base, step, k + 1)
  {
    var a := base + k * step;
    assert a + step == a % TWO_32 + step + a / TWO_32 * TWO_32;
    assert a + step == base + (k + 1) * step;
    ModShift(a % TWO_32 + step, a / TWO_32);
  }

  lemma ModShift(a: int, q: int)
    ensures (a + q * TWO_32) % TWO_32 == a % TWO_32
  {
  }

  /** The units moved since the addresses were last set, and the addresses then; `skipped` counts the units of
      the transfer moved before that. */
  datatype Track = Track(units: seq<Unit>, src: u32, dst: u32, skipped: nat)
  {
    /** The units read and wrote evenly spaced addresses, and the next ones are as given. */
    ghost predicate Spaced(srcStep: int, dstStep: int, nextSrc: u32, nextDst: u32) {
      && (forall k :: 0 <= k < |units| ==> units[k] == Unit(UnitAt(src, srcStep, k), UnitAt(dst, dstStep, k)))
      && nextSrc == UnitAt(src, srcStep, |units|) && nextDst == UnitAt(dst, dstStep, |units|)
    }
  }

  lemma SpacedStart(src: u32, dst: u32, skipped: nat, srcStep: int, dstStep: int)
    ensures Track([], src, dst, skipped).Spaced(srcStep, dstStep, src, dst)
  {
    Advance(src, srcStep, 0);
    Advance(dst, dstStep, 0);
  }

  lemma SpacedStep(t: Track, srcStep: int, dstStep: int, nextSrc: u32, nextDst: u32)
    requires t.Spaced(srcStep, dstStep, nextSrc, nextDst)
    ensures t.(units := t.units + [Unit(nextSrc, nextDst)]).Spaced(srcStep, dstStep, (nextSrc + srcStep) % TWO_32, (nextDst + dstStep) % TWO_32)
  {
    hide UnitAt;
    Advance(t.src, srcStep, |t.units|);
    Advance(t.dst, dstStep, |t.units|);
  }

  /** The control register by its fields: bits 31, 30, 26, 25, 23-24, 21-22, 27-29 (ARM9) or 28-29 (ARM7) and
      the count below. */
  datatype Control = Control(enable: bool, irq: bool, word: bool, repeat: bool, srcMode: nat, dstMode: nat, timing: nat, count: nat)
  {
    predicate Valid(cpu: nat) {
      srcMode < 4 && dstMode < 4 && timing < (if cpu == 0 then 8 else 4) && count < 0x20_0000
    }

    /** An increment in bytes. */
    function Size(inc: int): int {
      if word then 4 * inc else 2 * inc
    }
  }

  /** Modes 0 to 3 of either address: up, down, fixed, up with reload. */
  function IncOf(mode: nat): (inc: int)
    ensures -1 <= inc <= 1 && (inc == -1 <==> mode == 1) && (inc == 0 <==> mode == 2)
  {
    if mode == 1 then -1 else if mode == 2 then 0 else 1
  }

  method SelectInc(mode: nat) returns (inc: int)
    requires mode < 4
    ensures inc == IncOf(mode)
  {
    match mode {
      case 0 => inc := 1;
      case 1 => inc := -1;
      case 2 => inc := 0;
      case _ => inc := 1;
    }
  }

  /** The programmed number of units: zero stands for one more than the mask. */
  function CountOf(cpu: nat, num: nat, count: nat): (n: nat)
    ensures var most := if cpu == 0 then 0x20_0000 else if num == 3 then 0x1_0000 else 0x4000;
            0 < n <= most && n % most == count % most
  {
    var size := if cpu == 0 then 0x20_0000 else if num == 3 then 0x1_0000 else 0x4000;
    if count % size == 0 then size else count % size
  }

  class Dma {
    const cpu: nat
    const num: nat
    var srcAddr: u32
    var dstAddr: u32
    var cnt: Control
    var startMode: nat
    var curSrcAddr: u32
    var curDstAddr: u32
    var remCount: nat
    var iterCount: nat
    var srcAddrInc: int
    var dstAddrInc: int
    var running: bool
    var inProgress: bool
    var irqs: nat
    /** Of the transfer in progress: its length, and how many units have been moved. */
    ghost var total: nat
    ghost var done: nat
    ghost var track: Track

    ghost predicate Valid()
      reads this
    {
      && cnt.Valid(cpu)
      && (running ==> inProgress && iterCount > 0)
      && (inProgress ==> iterCount <= remCount && remCount > 0 && done + remCount == total)
      && done == track.skipped + |track.units|
      && track.Spaced(cnt.Size(srcAddrInc), cnt.Size(dstAddrInc), curSrcAddr, curDstAddr)
    }

    constructor (cpu: nat, num: nat)
      ensures Valid() && !running && !inProgress && this.cpu == cpu && this.num == num
    {
      this.cpu, this.num := cpu, num;
      srcAddr, dstAddr, startMode, curSrcAddr, curDstAddr, remCount, iterCount := 0, 0, 0, 0, 0, 0, 0;
      cnt := Control(false, false, false, false, 0, 0, 0, 0);
      srcAddrInc, dstAddrInc, running, inProgress, irqs := 0, 0, false, false, 0;
      total, done, track := 0, 0, Track([], 0, 0, 0);
    }

    /** The addresses are taken as they stand; what was moved before no longer counts towards the spacing. */
    ghost method Rebase()
      requires cnt.Valid(cpu)
      modifies `track
      ensures track == Track([], curSrcAddr, curDstAddr, done)
      ensures track.Spaced(cnt.Size(srcAddrInc), cnt.Size(dstAddrInc), curSrcAddr, curDstAddr)
    {
      track := Track([], curSrcAddr, curDstAddr, done);
      SpacedStart(curSrcAddr, curDstAddr, done, cnt.Size(srcAddrInc), cnt.Size(dstAddrInc));
    }

    /** The two reload modes start every chunk from the programmed address again. */
    method Reload()
      requires cnt.Valid(cpu)
      modifies `curSrcAddr, `curDstAddr, `track
      ensures curSrcAddr == (if cnt.srcMode == 3 then srcAddr else old(curSrcAddr))
      ensures curDstAddr == (if cnt.dstMode == 3 then dstAddr else old(curDstAddr))
      ensures if cnt.srcMode == 3 || cnt.dstMode == 3 then track == Track([], curSrcAddr, curDstAddr, done) else track == old(track)
      ensures cnt.srcMode == 3 || cnt.dstMode == 3 ==> track.Spaced(cnt.Size(srcAddrInc), cnt.Size(dstAddrInc), curSrcAddr, curDstAddr)
    {
      hide Control.Size, Track.Spaced;
      if cnt.srcMode == 3 {
        curSrcAddr := srcAddr;
      }
      if cnt.dstMode == 3 {
        curDstAddr := dstAddr;
      }
      if cnt.srcMode == 3 || cnt.dstMode == 3 {
        Rebase();
      }
    }

    method Programmed() returns (n: nat)
      ensures n == CountOf(cpu, num, cnt.count)
    {
      var countmask := if cpu == 0 then 0x1F_FFFF else if num == 3 then 0xFFFF else 0x3FFF;
      n := cnt.count % (countmask + 1);
      if n == 0 {
        n := countmask + 1;
      }
    }

    /** A transfer starts with the programmed count; one in progress goes on with its next chunk. Without the
        reload modes the addresses go on from where they are. */
    method Start()
      requires Valid()
      modifies `remCount, `iterCount, `curSrcAddr, `curDstAddr, `running, `inProgress, `total, `done, `track
      ensures Valid() && running && inProgress
      ensures old(running) ==> total == old(total) && done == old(done) && track == old(track) && iterCount == old(iterCount)
      ensures !old(running) ==> iterCount == if startMode == 7 && remCount > 112 then 112 else remCount
      ensures !old(inProgress) ==> total == CountOf(cpu, num, cnt.count) && done == 0
      ensures !old(inProgress) ==>
        track == Track([], if cnt.srcMode == 3 then srcAddr else old(curSrcAddr), if cnt.dstMode == 3 then dstAddr else old(curDstAddr), 0)
      ensures old(inProgress) ==> total == old(total) && done == old(done)
      ensures old(inProgress) && cnt.srcMode != 3 && cnt.dstMode != 3 ==> track == old(track)
      ensures !old(running) && (cnt.srcMode == 3 || cnt.dstMode == 3) ==> track == Track([], curSrcAddr, curDstAddr, done)
      ensures curSrcAddr == if !old(running) && cnt.srcMode == 3 then srcAddr else old(curSrcAddr)
      ensures curDstAddr == if !old(running) && cnt.dstMode == 3 then dstAddr else old(curDstAddr)
    {
      hide Track.Spaced, CountOf, Control.Size;
      if running {
        return;
      }
      if !inProgress {
        remCount := Programmed();
        total, done := remCount, 0;
        Rebase();
      }
      iterCount := if startMode == 7 && remCount > GX_CHUNK then GX_CHUNK else remCount;
      Reload();
      running, inProgress := true, true;
    }

    method StartIfNeeded(mode: nat)
      requires Valid()
      modifies `remCount, `iterCount, `curSrcAddr, `curDstAddr, `running, `inProgress, `total, `done, `track
      ensures Valid()
      ensures mode == startMode && cnt.enable ==> running
      ensures mode != startMode || !cnt.enable ==> running == old(running) && done == old(done) && track == old(track)
      ensures old(inProgress) ==> total == old(total) && done == old(done)
      ensures old(inProgress) && cnt.srcMode != 3 && cnt.dstMode != 3 ==> track == old(track)
    {
      if mode == startMode && cnt.enable {
        Start();
      }
    }

    method StopIfNeeded(mode: nat)
      requires Valid()
      modifies `cnt
      ensures Valid() && cnt == if mode == startMode then old(cnt).(enable := false) else old(cnt)
    {
      if mode == startMode {
        cnt := cnt.(enable := false);
      }
    }

    /** Only a rising enable bit loads addresses and modes; immediate transfers start at once. Any other write keeps
        the transfer in progress, with its units still evenly spaced unless the unit size changes. */
    method WriteCnt(val: Control)
      requires Valid() && val.Valid(cpu)
      modifies this
      ensures Valid() && cnt == val && srcAddr == old(srcAddr) && dstAddr == old(dstAddr) && irqs == old(irqs)
      ensures old(inProgress) ==> total == old(total) && done == old(done)
      ensures old(cnt).enable || !val.enable ==>
        && curSrcAddr == old(curSrcAddr) && curDstAddr == old(curDstAddr) && startMode == old(startMode)
        && srcAddrInc == old(srcAddrInc) && dstAddrInc == old(dstAddrInc) && remCount == old(remCount) && iterCount == old(iterCount)
        && running == old(running) && inProgress == old(inProgress) && total == old(total) && done == old(done)
        && (val.word == old(cnt).word ==> track == old(track))
      ensures !old(cnt).enable && val.enable ==>
        && curSrcAddr == srcAddr && curDstAddr == dstAddr && srcAddrInc == IncOf(val.srcMode) && dstAddrInc == IncOf(val.dstMode)
        && startMode == (if cpu == 0 then val.timing else val.timing + 0x10) && track == Track([], curSrcAddr, curDstAddr, done)
        && (if startMode % 8 == 0 then running && inProgress else running == old(running) && inProgress == old(inProgress))
        && (!old(inProgress) && inProgress ==> total == CountOf(cpu, num, val.count) && done == 0)
    {
      hide Track.Spaced, CountOf;
      var was := cnt;
      cnt := val;
      if was.enable || !val.enable {
        if val.word != was.word {
          Rebase();
        }
        return;
      }
      Program();
      Rebase();
      if startMode % 8 == 0 {
        Start();
      }
    }

    method Program()
      requires cnt.Valid(cpu)
      modifies `curSrcAddr, `curDstAddr, `dstAddrInc, `srcAddrInc, `startMode
      ensures curSrcAddr == srcAddr && curDstAddr == dstAddr
      ensures srcAddrInc == IncOf(cnt.srcMode) && dstAddrInc == IncOf(cnt.dstMode)
      ensures startMode == if cpu == 0 then cnt.timing else cnt.timing + 0x10
    {
      curSrcAddr, curDstAddr := srcAddr, dstAddr;
      dstAddrInc := SelectInc(cnt.dstMode);
      srcAddrInc := SelectInc(cnt.srcMode);
      startMode := if cpu == 0 then cnt.timing else cnt.timing + 0x10;
    }

    /** One slice: up to `cut` units (at least one) until the clock target or a stall ends it. Whatever the cuts,
        the units follow each other; the last one ends the transfer. */
    method Run(cut: nat)
      requires Valid() && cut > 0
      modifies `cnt, `curSrcAddr, `curDstAddr, `remCount, `iterCount, `running, `inProgress, `irqs, `done, `track
      ensures Valid()
      ensures !old(running) ==> track == old(track) && done == old(done) && irqs == old(irqs) && inProgress == old(inProgress) && cnt == old(cnt)
      ensures old(running) ==> done == old(done) + (if cut < old(iterCount) then cut else old(iterCount)) && done <= total
      ensures track == old(track).(units := track.units) && old(track).units <= track.units
      ensures old(running) && done < total ==> inProgress && cnt == old(cnt) && irqs == old(irqs) && (running <==> cut < old(iterCount))
      ensures old(running) && done == total ==>
        !running && !inProgress && cnt.enable == (old(cnt).enable && cnt.repeat) && irqs == old(irqs) + if cnt.irq then 1 else 0
    {
      hide Track.Spaced;
      if !running {
        return;
      }
      Slice(cut);
      if remCount > 0 {
        if iterCount == 0 {
          running := false;
        }
        return;
      }
      if !cnt.repeat {
        cnt := cnt.(enable := false);
      }
      if cnt.irq {
        irqs := irqs + 1;
      }
      running, inProgress := false, false;
    }

    method Slice(cut: nat)
      requires Valid() && running && cut > 0
      modifies `curSrcAddr, `curDstAddr, `remCount, `iterCount, `done, `track
      ensures done == old(done) + (if cut < old(iterCount) then cut else old(iterCount))
      ensures iterCount == old(iterCount) - (done - old(done)) && remCount == old(remCount) - (done - old(done))
      ensures track == old(track).(units := track.units) && old(track).units <= track.units
      ensures done == track.skipped + |track.units|
      ensures track.Spaced(cnt.Size(srcAddrInc), cnt.Size(dstAddrInc), curSrcAddr, curDstAddr)
    {
      hide Track.Spaced, Control.Size;
      var n := 0;
      while iterCount > 0 && n < cut
        invariant n <= cut && iterCount == old(iterCount) - n && iterCount <= remCount == old(remCount) - n
        invariant done == old(done) + n && done == track.skipped + |track.units|
        invariant track == old(track).(units := track.units) && old(track).units <= track.units
        invariant track.Spaced(cnt.Size(srcAddrInc), cnt.Size(dstAddrInc), curSrcAddr, curDstAddr)
        decreases iterCount
      {
        SpacedStep(track, cnt.Size(srcAddrInc), cnt.Size(dstAddrInc), curSrcAddr, curDstAddr);
        track := track.(units := track.units + [Unit(curSrcAddr, curDstAddr)]);
        curSrcAddr := (curSrcAddr + cnt.Size(srcAddrInc)) % TWO_32;
        curDstAddr := (curDstAddr + cnt.Size(dstAddrInc)) % TWO_32;
        iterCount, remCount, done, n := iterCount - 1, remCount - 1, done + 1, n + 1;
      }
    }

    /** At the end of a transfer whose addresses were set only at its start, exactly the programmed number of
        units has been moved, each as far beyond the one before as it is wide, in the direction of its mode. */
    lemma WholeTransfer()
      requires Valid() && done == total && track.skipped == 0
      ensures |track.units| == total
      ensures var width := if cnt.word then 4 else 2;
              forall k :: 0 <= k < total ==>
                && track.units[k].src == (track.src + width * srcAddrInc * k) % TWO_32
                && track.units[k].dst == (track.dst + width * dstAddrInc * k) % TWO_32
    {
    }
  }
}
