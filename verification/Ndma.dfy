/** The DSi's new DMA channels (src/DSi_NDMA.cpp): a transfer of a total length moved in blocks, each started
    by a trigger and cut into slices like an old DMA transfer. Units are always words. */
module NdmaChannels {
  import opened Machine
  import opened DmaChannels
  import opened Division

  /** The control register by its fields: bits 31, 30, 29, 24-28, 15, 13-14, 12 and 10-11. */
  datatype NControl = NControl(enable: bool, irq: bool, repeat: bool, timing: nat, srcReload: bool, srcMode: nat, dstReload: bool, dstMode: nat)
  {
    predicate Valid() {
      timing < 0x20 && srcMode < 4 && dstMode < 4
    }
  }

  const IMMEDIATE: nat := 0x10
  const GX_FIFO: nat := 0x0A

  /** Source mode 3 fills from a register and stays in place; destination mode 3 counts as up. */
  function SrcIncOf(mode: nat): (inc: int)
    ensures -1 <= inc <= 1 && (inc == 1 <==> mode == 0) && (inc == -1 <==> mode == 1)
  {
    if mode == 0 then 1 else if mode == 1 then -1 else 0
  }

  method SelectSrcInc(mode: nat) returns (inc: int)
    requires mode < 4
    ensures inc == SrcIncOf(mode)
  {
    match mode {
      case 0 => inc := 1;
      case 1 => inc := -1;
      case _ => inc := 0;
    }
  }

  /** One block: a block length of zero stands for 2^24. */
  function BlockOf(length: u32): (n: u32)
    ensures n > 0 && (length < 0x100_0000 ==> n <= 0x100_0000 && n % 0x100_0000 == length)
  {
    if length == 0 then 0x100_0000 else length
  }

  /** The bookkeeping of a transfer that ends with its total length, since its enable bit rose: for the GX FIFO or
      not, the block length register, the total, the units left of it, of the block and of the slice, and how
      often the end was reported. */
  datatype Transfer = Transfer(gx: bool, block: u32, total: nat, left: nat, rem: nat, iter: nat, running: bool, inProgress: bool, enabled: bool, reports: nat)
  {
    function Moved(): int {
      total - left
    }
  }

  function Fresh(gx: bool, block: u32, total: nat): (t: Transfer)
    ensures Sound(t)
  {
    Transfer(gx, block, total, total, 0, 0, false, false, true, 0)
  }

  /** The units of the next slice of a block of which `rem` are left. */
  function Chunk(gx: bool, rem: nat): nat {
    if gx && rem > GX_CHUNK then GX_CHUNK else rem
  }

  /** A trigger starts the next block or goes on with the block in progress; both are cut down to what is left of
      the total when the slice would pass it. */
  function Triggered(t: Transfer): Transfer {
    if t.running || !t.enabled then t else
      var rem := if t.inProgress then t.rem else BlockOf(t.block);
      var chunk := Chunk(t.gx, rem);
      if chunk > t.left then t.(iter := t.left, rem := t.left, running := true, inProgress := true)
      else t.(iter := chunk, rem := rem, running := true, inProgress := true)
  }

  /** At most `cut` units are moved. */
  function Sliced(t: Transfer, cut: nat): Transfer
    requires SlicesOf(t)
  {
    var n := if cut < t.iter then cut else t.iter;
    t.(left := t.left - n, rem := t.rem - n, iter := t.iter - n)
  }

  /** A block with units left waits for its next chunk when the slice is over; the end of a block reports the end of
      the transfer when nothing is left. */
  function Closed(t: Transfer): Transfer {
    if t.rem > 0 then t.(running := t.iter > 0)
    else if t.left > 0 then t.(running := false, inProgress := false, iter := 0)
    else t.(running := false, inProgress := false, iter := 0, enabled := false, reports := t.reports + 1)
  }

  function Ran(t: Transfer, cut: nat): Transfer
    requires Sound(t)
  {
    if t.running then Closed(Sliced(t, cut)) else t
  }

  /** How far into its block a transfer is after so many units. */
  function Position(block: u32, moved: nat): (at: nat)
    ensures at < BlockOf(block)
  {
    moved % BlockOf(block)
  }

  /** The last chunk uses up the total before its block is over. */
  predicate Late(t: Transfer) {
    t.gx && Position(t.block, t.total) != 0 && Position(t.block, t.total) % GX_CHUNK == 0
  }

  /** Where the block in progress stands: it began at a multiple of the block length and goes on in whole chunks,
      or it was cut down to the rest of the total. */
  predicate InBlock(t: Transfer)
    requires t.left <= t.total
  {
    var at := Position(t.block, t.Moved());
    if t.running && t.iter == t.rem == t.left then t.left > 0 ==> !Late(t)
    else
      && t.rem == BlockOf(t.block) - at
      && (t.running ==> t.iter == t.rem || (t.gx && (at + t.iter) % GX_CHUNK == 0))
      && (!t.running ==> t.gx && at > 0 && at % GX_CHUNK == 0)
  }

  predicate Sound(t: Transfer) {
    && t.left <= t.total && t.reports == (if t.enabled then 0 else 1)
    && (t.running ==> t.inProgress && t.iter <= t.left && (t.iter == 0 ==> t.rem == t.left == 0))
    && (t.inProgress ==> t.enabled && t.iter <= t.rem && InBlock(t))
    && (!t.inProgress && t.enabled ==> Position(t.block, t.Moved()) == 0 && (t.left > 0 || t.total == 0))
    && (!t.enabled ==> t.left == 0)
  }

  lemma ModOfSum(m: nat, n: nat, b: nat)
    requires b > 0 && m % b + n <= b
    ensures (m + n) % b == if m % b + n == b then 0 else m % b + n
  {
    var q := m / b;
    assert m + n == q * b + (m % b + n);
    if m % b + n == b {
      assert m + n == (q + 1) * b + 0;
      QuotientOf(m + n, q + 1, b, 0);
    } else {
      QuotientOf(m + n, q, b, m % b + n);
    }
  }

  lemma ChunkSum(at: nat, n: nat)
    requires at % GX_CHUNK == 0 && 0 < n <= GX_CHUNK
    ensures (at + n) % GX_CHUNK == 0 <==> n == GX_CHUNK
  {
    ModOfSum(at, n, GX_CHUNK);
  }

  /** What is left to do: every trigger of a resting channel and every slice of a running one brings it down. */
  function Measure(t: Transfer): nat {
    if !t.enabled then 0 else 3 * t.left + if t.running then 1 else 2
  }

  lemma PositionAfter(block: u32, m: nat, n: nat)
    requires Position(block, m) + n <= BlockOf(block)
    ensures Position(block, m + n) == if Position(block, m) + n == BlockOf(block) then 0 else Position(block, m) + n
  {
    ModOfSum(m, n, BlockOf(block));
  }

  lemma TriggerKeeps(t: Transfer)
    requires Sound(t)
    ensures Sound(Triggered(t))
    ensures !t.running && t.enabled ==> Triggered(t).running && Measure(Triggered(t)) < Measure(t)
  {
    hide Position, BlockOf;
    if t.enabled && !t.running {
      var b := BlockOf(t.block);
      var at := Position(t.block, t.Moved());
      var rem := if t.inProgress then t.rem else b;
      assert rem == b - at;
      var chunk := Chunk(t.gx, rem);
      if chunk > t.left {
        if t.left > 0 {
          PositionAfter(t.block, t.Moved(), t.left);
          if t.gx {
            ChunkSum(at, t.left);
          }
        }
      } else if chunk < rem {
        ChunkSum(at, chunk);
      } else if rem == t.left {
        PositionAfter(t.block, t.Moved(), rem);
      }
    }
  }

  /** A slice keeps the bookkeeping sound, brings the end nearer, and when it moves the last unit the end is
      reported at once unless that chunk leaves its block open. */
  lemma CutKeeps(t: Transfer, cut: nat)
    requires Sound(t)
    ensures Sound(Ran(t, cut))
    ensures t.running && cut > 0 ==> Measure(Ran(t, cut)) < Measure(t)
    ensures t.left > 0 == Ran(t, cut).left ==> (Ran(t, cut).reports == 1 <==> !Late(t))
  {
    hide Position, BlockOf;
    if t.running {
      var b := BlockOf(t.block);
      var at := Position(t.block, t.Moved());
      var n := if cut < t.iter then cut else t.iter;
      if !(t.iter == t.rem == t.left) {
        PositionAfter(t.block, t.Moved(), n);
        assert Ran(t, cut).Moved() == t.Moved() + n;
      }
    }
  }

  /** What a trigger may do, and at most how many units the channel then moves before it lets the core run. */
  datatype Event = Trigger | Cut(units: nat)

  function Drive(t: Transfer, events: seq<Event>): (u: Transfer)
    requires Sound(t)
    ensures Sound(u) && u.gx == t.gx && u.block == t.block && u.total == t.total && u.left <= t.left
    decreases |events|
  {
    if events == [] then t else
      match events[0]
      case Trigger => TriggerKeeps(t); Drive(Triggered(t), events[1..])
      case Cut(n) => CutKeeps(t, n); Drive(Ran(t, n), events[1..])
  }

  /** A trigger before every slice. */
  function Offered(cuts: seq<nat>): seq<Event> {
    if cuts == [] then [] else [Trigger, Cut(cuts[0])] + Offered(cuts[1..])
  }

  lemma OneOffer(t: Transfer, cuts: seq<nat>)
    requires Sound(t) && cuts != []
    ensures Sound(Triggered(t)) && Sound(Ran(Triggered(t), cuts[0]))
    ensures Drive(t, Offered(cuts)) == Drive(Ran(Triggered(t), cuts[0]), Offered(cuts[1..]))
  {
    hide Sound, Triggered, Ran;
    TriggerKeeps(t);
    CutKeeps(Triggered(t), cuts[0]);
    var rest := Offered(cuts[1..]);
    assert Offered(cuts)[1..] == [Cut(cuts[0])] + rest;
    assert ([Cut(cuts[0])] + rest)[1..] == rest;
  }

  /** Triggers and slices of at least one unit end every transfer, whatever the block length: all of the total is
      then moved, and the end was reported once. */
  lemma {:induction false} EveryTransferEnds(t: Transfer, cuts: seq<nat>)
    requires Sound(t) && |cuts| >= Measure(t) && forall i :: 0 <= i < |cuts| ==> cuts[i] > 0
    ensures var u := Drive(t, Offered(cuts)); u.left == 0 && u.reports == 1 && !u.enabled && !u.inProgress
    decreases |cuts|
  {
    if cuts == [] {
      assert !t.enabled;
    } else {
      OneOffer(t, cuts);
      TriggerKeeps(t);
      CutKeeps(Triggered(t), cuts[0]);
      EveryTransferEnds(Ran(Triggered(t), cuts[0]), cuts[1..]);
    }
  }

  /** One block let run to its end. */
  lemma OneBlock(t: Transfer, cut: nat)
    requires Sound(t) && !t.gx && t.enabled && !t.inProgress && cut >= BlockOf(t.block)
    ensures Sound(Triggered(t))
    ensures var u := Ran(Triggered(t), cut);
      && Sound(u) && !u.gx && !u.inProgress && u.block == t.block && u.left == (if BlockOf(t.block) < t.left then t.left - BlockOf(t.block) else 0)
      && (u.enabled <==> u.left > 0) && u.reports == if u.enabled then 0 else 1
  {
    hide Position, BlockOf;
    TriggerKeeps(t);
    CutKeeps(Triggered(t), cut);
  }

  /** Blocks that are let run to their end: each trigger moves one block length, the last one what is left, and the
      end is reported with the block that reaches the total. */
  lemma {:induction false} WholeBlocks(t: Transfer, cuts: seq<nat>)
    requires Sound(t) && !t.gx && t.enabled && !t.inProgress
    requires cuts != [] && forall i :: 0 <= i < |cuts| ==> cuts[i] >= BlockOf(t.block)
    ensures var u := Drive(t, Offered(cuts));
      && u.left == (if |cuts| * BlockOf(t.block) < t.left then t.left - |cuts| * BlockOf(t.block) else 0)
      && (u.reports == 1 <==> |cuts| * BlockOf(t.block) >= t.left)
    decreases |cuts|
  {
    hide Drive, Offered, Sound, Triggered, Ran, BlockOf;
    var b := BlockOf(t.block);
    OneOffer(t, cuts);
    var u := Ran(Triggered(t), cuts[0]);
    OneBlock(t, cuts[0]);
    assert |cuts| * b == (|cuts| - 1) * b + b;
    if |cuts| == 1 {
      assert cuts[1..] == [];
      NoEvents(u);
    } else if u.enabled {
      WholeBlocks(u, cuts[1..]);
    } else {
      assert (|cuts| - 1) * b >= 0;
      Ended(u, Offered(cuts[1..]));
    }
  }

  lemma {:induction false} Ended(t: Transfer, events: seq<Event>)
    requires Sound(t) && !t.enabled
    ensures Drive(t, events) == t
    decreases |events|
  {
    if events != [] {
      Ended(t, events[1..]);
    }
  }

  /** The move of the last unit reports the end exactly when its chunk ends the block: always, but for a transfer to
      the GX FIFO whose last block is a whole number of chunks and shorter than the block length. */
  lemma LastUnitReports(gx: bool, block: u32, total: nat, events: seq<Event>, cut: nat)
    requires var t := Drive(Fresh(gx, block, total), events); t.left > 0 == Ran(t, cut).left
    ensures
      var rest := total % BlockOf(block);
      Ran(Drive(Fresh(gx, block, total), events), cut).reports == 1 <==> !(gx && rest != 0 && rest % GX_CHUNK == 0)
  {
    CutKeeps(Drive(Fresh(gx, block, total), events), cut);
  }

  lemma NoEvents(t: Transfer)
    requires Sound(t)
    ensures Drive(t, Offered([])) == t
  {
  }

  /** 112 words to the GX FIFO in blocks of 200: the first chunk moves them all, and 88 units of the block, the
      enable bit and the report stay open until the next trigger. */
  lemma ReportComesLate(cut: nat)
    requires cut >= GX_CHUNK
    ensures
      var t := Drive(Fresh(true, 200, 112), Offered([cut]));
      && t.left == 0 && t.rem == 88 && t.inProgress && !t.running && t.enabled && t.reports == 0
      && Drive(t, Offered([cut])).reports == 1
  {
    hide Sound, Drive, Measure;
    var start := Fresh(true, 200, 112);
    OneOffer(start, [cut]);
    assert Triggered(start) == start.(rem := 200, iter := 112, running := true, inProgress := true);
    var t := Ran(Triggered(Fresh(true, 200, 112)), cut);
    assert [cut][1..] == [];
    assert t == start.(left := 0, rem := 88, inProgress := true);
    NoEvents(t);
    OneOffer(t, [cut]);
    NoEvents(Ran(Triggered(t), cut));
  }

  /** What was moved and what is left make up the total, up to wrap-around of the counter. */
  ghost predicate Adds(moved: nat, left: u32, budget: u32) {
    (moved + left) % TWO_32 == budget
  }

  /** The counter of the units left, counted down. */
  function Less(left: u32): u32 {
    (left - 1) % TWO_32
  }

  lemma TakeOne(moved: nat, left: u32, budget: u32)
    requires Adds(moved, left, budget)
    ensures Adds(moved + 1, Less(left), budget)
    ensures left > 0 ==> Less(left) == left - 1
  {
    if left == 0 {
      assert (left - 1) % TWO_32 == TWO_32 - 1;
      ModShift(moved, 1);
    }
  }

  predicate SlicesOf(t: Transfer) {
    t.iter <= t.rem && t.iter <= t.left
  }

  lemma SoundSlices(t: Transfer)
    requires Sound(t)
    ensures t.running ==> SlicesOf(t)
  {
  }

  class Ndma {
    const cpu: nat
    var srcAddr: u32
    var dstAddr: u32
    var totalLength: u32
    var blockLength: u32
    var cnt: NControl
    var startMode: nat
    var curSrcAddr: u32
    var curDstAddr: u32
    var remCount: u32
    var iterCount: u32
    var totalRemCount: u32
    var srcAddrInc: int
    var dstAddrInc: int
    var running: bool
    var inProgress: bool
    var irqs: nat
    /** Since the enable bit last rose: the total length then, the units moved, how often the channel reported
        the end, and whether the control register was written over again or the channel was still busy. */
    ghost var budget: u32
    ghost var moved: nat
    ghost var completions: nat
    ghost var disturbed: bool
    ghost var track: Track

    ghost function View(): Transfer
      reads `startMode, `blockLength, `budget, `totalRemCount, `remCount, `iterCount, `running, `inProgress, `cnt, `completions
    {
      Transfer(startMode == GX_FIFO, blockLength, budget, totalRemCount, if inProgress then remCount else 0, if inProgress then iterCount else 0,
               running, inProgress, cnt.enable, completions)
    }

    /** Programmed once, left alone, and to end with its total length. */
    ghost predicate Tracked()
      reads `startMode, `cnt, `disturbed
    {
      !disturbed && Limited()
    }

    predicate Immediate()
      reads `startMode
    {
      startMode % 0x20 == IMMEDIATE
    }

    /** Transfers that end with their total length. */
    predicate Limited()
      reads `startMode, `cnt
    {
      !Immediate() && !cnt.repeat
    }

    ghost predicate Counts()
      reads `startMode, `blockLength, `budget, `totalRemCount, `remCount, `iterCount, `running, `inProgress, `cnt, `completions, `disturbed, `moved
    {
      && cnt.Valid()
      && (running ==> inProgress && (iterCount == 0 ==> remCount == 0))
      && (inProgress ==> iterCount <= remCount && (!running ==> remCount > 0))
      && Adds(moved, totalRemCount, budget)
      && (Tracked() ==> moved + totalRemCount == budget)
      && (Tracked() ==> Sound(View()))
    }

    ghost predicate Valid()
      reads this
    {
      && Counts() && moved == track.skipped + |track.units|
      && track.Spaced(4 * srcAddrInc, 4 * dstAddrInc, curSrcAddr, curDstAddr)
    }

    constructor (cpu: nat)
      ensures Valid() && !running && !inProgress && this.cpu == cpu
    {
      this.cpu := cpu;
      srcAddr, dstAddr, totalLength, blockLength, startMode, curSrcAddr, curDstAddr := 0, 0, 0, 0, 0, 0, 0;
      cnt := NControl(false, false, false, 0, false, 0, false, 0);
      remCount, iterCount, totalRemCount, srcAddrInc, dstAddrInc, running, inProgress, irqs := 0, 0, 0, 0, 0, false, false, 0;
      budget, moved, completions, disturbed, track := 0, 0, 0, true, Track([], 0, 0, 0);
    }

    ghost method Rebase()
      modifies `track
      ensures track == Track([], curSrcAddr, curDstAddr, moved)
      ensures track.Spaced(4 * srcAddrInc, 4 * dstAddrInc, curSrcAddr, curDstAddr)
    {
      track := Track([], curSrcAddr, curDstAddr, moved);
      SpacedStart(curSrcAddr, curDstAddr, moved, 4 * srcAddrInc, 4 * dstAddrInc);
    }

    method BlockUnits() returns (n: u32)
      ensures n == BlockOf(blockLength)
    {
      n := blockLength;
      if n == 0 {
        n := 0x100_0000;
      }
    }

    /** The sizes of the next slice and of the block it belongs to. */
    method SetCounts()
      requires Counts() && !running && cnt.enable
      modifies `remCount, `iterCount, `running, `inProgress
      ensures Counts() && running && inProgress
      ensures Tracked() ==> View() == Triggered(old(View()))
      ensures
        var rem := if old(inProgress) then old(remCount) else BlockOf(blockLength);
        var chunk := if startMode == 0x0A && rem > 112 then 112 else rem;
        if Limited() && chunk > totalRemCount then iterCount == remCount == totalRemCount else iterCount == chunk && remCount == rem
    {
      hide Sound, Adds, BlockOf;
      if Tracked() {
        TriggerKeeps(View());
      }
      if !inProgress {
        remCount := BlockUnits();
      }
      iterCount := if startMode == GX_FIFO && remCount > GX_CHUNK then GX_CHUNK else remCount;
      if !Immediate() && !cnt.repeat {
        if iterCount > totalRemCount {
          iterCount := totalRemCount;
          remCount := iterCount;
        }
      }
      running, inProgress := true, true;
    }

    method Reload()
      requires track.Spaced(4 * srcAddrInc, 4 * dstAddrInc, curSrcAddr, curDstAddr) && moved == track.skipped + |track.units|
      modifies `curSrcAddr, `curDstAddr, `track
      ensures track.Spaced(4 * srcAddrInc, 4 * dstAddrInc, curSrcAddr, curDstAddr) && moved == track.skipped + |track.units|
      ensures !cnt.srcReload && !cnt.dstReload ==> track == old(track)
      ensures curDstAddr == (if cnt.dstReload then dstAddr else old(curDstAddr))
      ensures curSrcAddr == (if cnt.srcReload then srcAddr else old(curSrcAddr))
    {
      hide Track.Spaced;
      if cnt.dstReload {
        curDstAddr := dstAddr;
      }
      if cnt.srcReload {
        curSrcAddr := srcAddr;
      }
      if cnt.dstReload || cnt.srcReload {
        Rebase();
      }
    }

    method Begin()
      requires Valid() && cnt.enable && !running
      modifies `remCount, `iterCount, `curSrcAddr, `curDstAddr, `running, `inProgress, `track
      ensures Valid() && running && inProgress
      ensures Tracked() ==> View() == Triggered(old(View()))
      ensures !cnt.srcReload && !cnt.dstReload ==> track == old(track)
      ensures curDstAddr == (if cnt.dstReload then dstAddr else old(curDstAddr))
      ensures curSrcAddr == (if cnt.srcReload then srcAddr else old(curSrcAddr))
      ensures
        var rem := if old(inProgress) then old(remCount) else BlockOf(blockLength);
        var chunk := if startMode == 0x0A && rem > 112 then 112 else rem;
        if Limited() && chunk > totalRemCount then iterCount == remCount == totalRemCount else iterCount == chunk && remCount == rem
    {
      hide Track.Spaced, Counts, Triggered, Chunk, BlockOf;
      SetCounts();
      Reload();
    }

    /** The next block, or the next chunk of the block in progress. */
    method Start()
      requires Valid() && cnt.enable
      modifies `remCount, `iterCount, `curSrcAddr, `curDstAddr, `running, `inProgress, `track
      ensures Valid() && running && inProgress
      ensures old(Tracked()) ==> Tracked() && View() == Triggered(old(View()))
      ensures (!cnt.srcReload && !cnt.dstReload) || old(running) ==> track == old(track)
      ensures curDstAddr == (if !old(running) && cnt.dstReload then dstAddr else old(curDstAddr))
      ensures curSrcAddr == (if !old(running) && cnt.srcReload then srcAddr else old(curSrcAddr))
      ensures old(running) ==> iterCount == old(iterCount) && remCount == old(remCount)
      ensures !old(running) ==>
        var rem := if old(inProgress) then old(remCount) else BlockOf(blockLength);
        var chunk := if startMode == 0x0A && rem > 112 then 112 else rem;
        if Limited() && chunk > totalRemCount then iterCount == remCount == totalRemCount else iterCount == chunk && remCount == rem
    {
      hide Track.Spaced, Sound, Adds;
      if running {
        return;
      }
      Begin();
    }

    method StartIfNeeded(mode: nat)
      requires Valid()
      modifies `remCount, `iterCount, `curSrcAddr, `curDstAddr, `running, `inProgress, `track
      ensures Valid() && (mode == startMode && cnt.enable ==> running)
      ensures mode == startMode && old(Tracked()) ==> Tracked() && View() == Triggered(old(View()))
      ensures mode != startMode || !cnt.enable ==> View() == old(View()) && track == old(track)
    {
      if mode == startMode && cnt.enable {
        Start();
      }
    }

    /** The block length register: a new block takes the length written last. */
    method WriteBlockLength(val: u32)
      requires Valid()
      modifies `blockLength, `disturbed
      ensures Valid() && blockLength == val % 0x100_0000 && disturbed
    {
      blockLength, disturbed := val % 0x100_0000, true;
    }

    /** Only a rising enable bit loads the addresses, the modes and the total length. */
    method WriteCnt(val: NControl)
      requires Valid() && val.Valid()
      modifies `cnt, `remCount, `iterCount, `running, `inProgress, `curSrcAddr, `curDstAddr, `totalRemCount, `srcAddrInc, `dstAddrInc, `startMode, `budget, `moved, `completions, `disturbed, `track
      ensures Valid() && cnt == val
      ensures old(cnt).enable || !val.enable ==>
        && disturbed && moved == old(moved) && track == old(track) && totalRemCount == old(totalRemCount) && startMode == old(startMode)
        && curSrcAddr == old(curSrcAddr) && curDstAddr == old(curDstAddr) && srcAddrInc == old(srcAddrInc) && dstAddrInc == old(dstAddrInc)
        && running == old(running) && inProgress == old(inProgress) && remCount == old(remCount) && iterCount == old(iterCount)
      ensures !old(cnt).enable && val.enable ==>
        && disturbed == old(inProgress) && moved == completions == 0 && budget == totalRemCount == totalLength && curSrcAddr == srcAddr && curDstAddr == dstAddr && srcAddrInc == SrcIncOf(cnt.srcMode) && dstAddrInc == IncOf(cnt.dstMode)
        && startMode == (if cnt.timing > 0x10 then 0x10 else cnt.timing) + (if cpu == 1 then 0x20 else 0)
        && track.skipped == 0 && track.units == [] && (old(inProgress) || Immediate() || !running)
        && (!old(inProgress) && Immediate() ==> running && iterCount == remCount == BlockOf(blockLength))
        && (Tracked() ==> View() == Fresh(startMode == GX_FIFO, blockLength, totalLength))
    {
      hide Track.Spaced, BlockOf, SrcIncOf, IncOf;
      var rising := !cnt.enable && val.enable;
      cnt := val;
      if !rising {
        disturbed := true;
        return;
      }
      Rise();
    }

    method Load()
      requires cnt.Valid() && cnt.enable && (running ==> inProgress && (iterCount == 0 ==> remCount == 0))
      requires inProgress ==> iterCount <= remCount && (!running ==> remCount > 0)
      modifies `curSrcAddr, `curDstAddr, `totalRemCount, `srcAddrInc, `dstAddrInc, `startMode, `budget, `moved, `completions, `disturbed, `track
      ensures Valid() && disturbed == inProgress && moved == completions == 0 && budget == totalRemCount == totalLength
      ensures track.skipped == 0 && track.units == []
      ensures curSrcAddr == srcAddr && curDstAddr == dstAddr && srcAddrInc == SrcIncOf(cnt.srcMode) && dstAddrInc == IncOf(cnt.dstMode)
      ensures startMode == (if cnt.timing > 0x10 then 0x10 else cnt.timing) + if cpu == 1 then 0x20 else 0
      ensures Tracked() ==> View() == Fresh(startMode == GX_FIFO, blockLength, totalLength)
    {
      hide Track.Spaced, SrcIncOf, IncOf;
      disturbed := inProgress;
      Program();
      Rebase();
      assert Adds(moved, totalRemCount, budget);
      if Tracked() {
        assert View() == Fresh(startMode == GX_FIFO, blockLength, totalLength);
      }
    }

    method Rise()
      requires cnt.Valid() && cnt.enable && (running ==> inProgress && (iterCount == 0 ==> remCount == 0))
      requires inProgress ==> iterCount <= remCount && (!running ==> remCount > 0)
      modifies `remCount, `iterCount, `running, `inProgress, `curSrcAddr, `curDstAddr, `totalRemCount, `srcAddrInc, `dstAddrInc, `startMode, `budget, `moved, `completions, `disturbed, `track
      ensures Valid() && curSrcAddr == srcAddr && curDstAddr == dstAddr && srcAddrInc == SrcIncOf(cnt.srcMode) && dstAddrInc == IncOf(cnt.dstMode)
      ensures startMode == (if cnt.timing > 0x10 then 0x10 else cnt.timing) + if cpu == 1 then 0x20 else 0
      ensures disturbed == old(inProgress) && moved == completions == 0 && budget == totalRemCount == totalLength
      ensures track.skipped == 0 && track.units == [] && (old(inProgress) || Immediate() || !running)
      ensures !old(inProgress) && Immediate() ==> running && iterCount == remCount == BlockOf(blockLength)
      ensures Tracked() ==> View() == Fresh(startMode == GX_FIFO, blockLength, totalLength)
    {
      hide Track.Spaced, BlockOf, Sound, Adds;
      Load();
      if startMode % 0x20 == IMMEDIATE {
        Start();
      }
    }

    method Program()
      requires cnt.Valid()
      modifies `curSrcAddr, `curDstAddr, `totalRemCount, `srcAddrInc, `dstAddrInc, `startMode, `budget, `moved, `completions
      ensures curSrcAddr == srcAddr && curDstAddr == dstAddr && totalRemCount == totalLength == budget
      ensures srcAddrInc == SrcIncOf(cnt.srcMode) && dstAddrInc == IncOf(cnt.dstMode) && moved == completions == 0
      ensures startMode == (if cnt.timing > 0x10 then 0x10 else cnt.timing) + if cpu == 1 then 0x20 else 0
    {
      curSrcAddr, curDstAddr, totalRemCount := srcAddr, dstAddr, totalLength;
      dstAddrInc := SelectInc(cnt.dstMode);
      srcAddrInc := SelectSrcInc(cnt.srcMode);
      startMode := if cnt.timing > IMMEDIATE then IMMEDIATE else cnt.timing;
      if cpu == 1 {
        startMode := startMode + 0x20;
      }
      budget, moved, completions := totalLength, 0, 0;
    }

    method Slice(cut: nat)
      requires Valid() && running && cut > 0
      modifies `curSrcAddr, `curDstAddr, `remCount, `iterCount, `totalRemCount, `moved, `track
      ensures moved == old(moved) + if cut < old(iterCount) then cut else old(iterCount)
      ensures iterCount == old(iterCount) - (moved - old(moved)) && remCount == old(remCount) - (moved - old(moved))
      ensures Adds(moved, totalRemCount, budget)
      ensures old(iterCount) <= old(totalRemCount) ==> totalRemCount == old(totalRemCount) - (moved - old(moved))
      ensures old(Tracked()) ==> SlicesOf(old(View())) && View() == Sliced(old(View()), cut) && moved + totalRemCount == budget
      ensures track == old(track).(units := track.units) && old(track).units <= track.units
      ensures moved == track.skipped + |track.units|
      ensures track.Spaced(4 * srcAddrInc, 4 * dstAddrInc, curSrcAddr, curDstAddr)
    {
      hide Track.Spaced, Adds, Less, Sound;
      if Tracked() {
        SoundSlices(View());
      }
      var n := 0;
      while iterCount > 0 && n < cut
        invariant n <= cut && iterCount == old(iterCount) - n && iterCount <= remCount == old(remCount) - n
        invariant moved == old(moved) + n && moved == track.skipped + |track.units|
        invariant Adds(moved, totalRemCount, budget)
        invariant old(iterCount) <= old(totalRemCount) ==> totalRemCount == old(totalRemCount) - n
        invariant track == old(track).(units := track.units) && old(track).units <= track.units
        invariant track.Spaced(4 * srcAddrInc, 4 * dstAddrInc, curSrcAddr, curDstAddr)
        decreases iterCount
      {
        SpacedStep(track, 4 * srcAddrInc, 4 * dstAddrInc, curSrcAddr, curDstAddr);
        TakeOne(moved, totalRemCount, budget);
        track := track.(units := track.units + [Unit(curSrcAddr, curDstAddr)]);
        curSrcAddr := (curSrcAddr + 4 * srcAddrInc) % TWO_32;
        curDstAddr := (curDstAddr + 4 * dstAddrInc) % TWO_32;
        iterCount, remCount, moved, n := iterCount - 1, remCount - 1, moved + 1, n + 1;
        totalRemCount := Less(totalRemCount);
      }
    }

    /** After a slice: the block goes on, waits, or is over. */
    method Close()
      requires running && inProgress && iterCount <= remCount && cnt.Valid() && Adds(moved, totalRemCount, budget)
      requires Tracked() ==> Sound(Closed(View())) && moved + totalRemCount == budget
      modifies `cnt, `running, `inProgress, `irqs, `completions
      ensures Counts() && (old(Tracked()) ==> Tracked() && View() == Closed(old(View())))
      ensures running == (iterCount > 0) && inProgress == (remCount > 0)
      ensures
        var ended := remCount == 0 && (Immediate() || (!old(cnt).repeat && totalRemCount == 0));
        && cnt == (if ended then old(cnt).(enable := false) else old(cnt))
        && irqs == old(irqs) + (if ended && cnt.irq then 1 else 0)
        && completions == old(completions) + (if ended then 1 else 0)
    {
      hide Sound, Adds;
      if remCount > 0 {
        if iterCount == 0 {
          running := false;
        }
        return;
      }
      if startMode % 0x20 == IMMEDIATE || (!cnt.repeat && totalRemCount == 0) {
        cnt := cnt.(enable := false);
        if cnt.irq {
          irqs := irqs + 1;
        }
        completions := completions + 1;
      }
      running, inProgress := false, false;
    }

    /** One slice. The end of a block ends an immediate transfer; a triggered one ends with the block that uses
        up its total length, unless it repeats. The end is reported once. */
    method Run(cut: nat)
      requires Valid() && cut > 0
      modifies `cnt, `curSrcAddr, `curDstAddr, `remCount, `iterCount, `totalRemCount, `running, `inProgress, `irqs, `moved, `completions, `track
      ensures Valid()
      ensures old(Tracked()) ==> Tracked() && View() == Ran(old(View()), cut)
      ensures !old(running) ==> moved == old(moved) && irqs == old(irqs) && cnt == old(cnt)
      ensures old(running) ==> moved == old(moved) + if cut < old(iterCount) then cut else old(iterCount)
      ensures track == old(track).(units := track.units) && old(track).units <= track.units
      ensures old(running) && cut < old(remCount) && old(iterCount) < old(remCount) ==> inProgress && cnt == old(cnt) && irqs == old(irqs)
      ensures old(running) && cut >= old(iterCount) == old(remCount) ==> !running && !inProgress
      ensures
        var ended := old(running) && cut >= old(iterCount) == old(remCount) && (Immediate() || (!old(cnt).repeat && totalRemCount == 0));
        && cnt == (if ended then old(cnt).(enable := false) else old(cnt))
        && irqs == old(irqs) + (if ended && cnt.irq then 1 else 0)
        && completions == old(completions) + (if ended then 1 else 0)
    {
      hide Track.Spaced, Adds, Sound, Closed, Sliced, Measure, InBlock, Late, BlockOf, Pow2;
      if !running {
        return;
      }
      if Tracked() {
        CutKeeps(View(), cut);
      }
      Slice(cut);
      Close();
    }

    /** In every state of a limited transfer that was programmed once and left alone, the units moved and those left
        make up the total length, and the end has been reported at most once, with all of it moved and the channel
        disabled; without the reload bits, unit k went from src + 4 k inc to dst + 4 k inc. */
    lemma BlocksSumToTotal()
      requires Valid() && Tracked()
      ensures moved + totalRemCount == budget && completions == if cnt.enable then 0 else 1
      ensures completions == 1 ==> moved == budget && !running && !inProgress
      ensures track.skipped == 0 ==> |track.units| == moved && forall k :: 0 <= k < moved ==>
        && track.units[k].src == (track.src + 4 * srcAddrInc * k) % TWO_32
        && track.units[k].dst == (track.dst + 4 * dstAddrInc * k) % TWO_32
    {
    }
  }
}
