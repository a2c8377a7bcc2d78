/** The DSi AES engine (src/DSi_AES.cpp): blocks streamed through two 16-word FIFOs in CCM decryption
    (mode 0), CCM encryption (mode 1) or CTR (modes 2 and 3). */
module AesEngine {
  import opened Machine
  import opened Ccm
  import opened CounterMode
  import opened Fifos
  import opened CcmReference

  const FIFO_SIZE: nat := 16

  /** A FIFO word, by its bytes in memory order. */
  type Word = w: seq<u8> | |w| == 4 witness [0, 0, 0, 0]

  function Split(b: Block): (w: seq<Word>)
    ensures |w| == 4
  {
    [b[..4], b[4..8], b[8..12], b[12..]]
  }

  function Join(w: seq<Word>): Block
    requires |w| == 4
  {
    seq(16, i requires 0 <= i < 16 => w[i / 4][i % 4])
  }

  lemma SplitJoin(w: seq<Word>)
    requires |w| == 4
    ensures Split(Join(w)) == w
  {
    var s := Split(Join(w));
    assert s[0] == w[0] && s[1] == w[1] && s[2] == w[2] && s[3] == w[3];
  }

  lemma JoinSplit(b: Block)
    ensures Join(Split(b)) == b
  {
  }

  /** Word j of a block holds its bytes 4 j to 4 j + 3, in that order. */
  lemma SplitIs(b: Block)
    ensures forall j, i :: 0 <= j < 4 && 0 <= i < 4 ==> Split(b)[j][i] == b[4 * j + i]
  {
  }

  lemma {:induction false} WordsAt(blocks: seq<Block>, k: nat, j: nat, i: nat)
    requires k < |blocks| && j < 4 && i < 4
    ensures Words(blocks)[4 * k + j][i] == blocks[k][4 * j + i]
  {
    SplitIs(blocks[|blocks| - 1]);
    if k < |blocks| - 1 {
      WordsAt(blocks[..|blocks| - 1], k, j, i);
    }
  }

  ghost function Words(blocks: seq<Block>): (w: seq<Word>)
    ensures |w| == 4 * |blocks|
  {
    if blocks == [] then [] else Words(blocks[..|blocks| - 1]) + Split(blocks[|blocks| - 1])
  }

  lemma {:induction false} WordsInjective(a: seq<Block>, b: seq<Block>)
    requires Words(a) == Words(b)
    ensures a == b
  {
    assert |a| == |b|;
    if a != [] {
      hide Split, Join;
      var last := |a| - 1;
      var wa, wb := Words(a), Words(b);
      assert wa[..4 * last] == Words(a[..last]) && wb[..4 * last] == Words(b[..last]);
      assert wa[4 * last..] == Split(a[last]) && wb[4 * last..] == Split(b[last]);
      WordsInjective(a[..last], b[..last]);
      JoinSplit(a[last]);
      JoinSplit(b[last]);
      assert a == a[..last] + [a[last]] && b == b[..last] + [b[last]];
    }
  }

  /** What the control register write that starts a run sets up: counter and running MAC. In the CCM modes
      the counter is flags 2, the 12 nonce bytes and block number 1, and the MAC starts as block B0. */
  function StartIv(ccm: bool, ivReg: Block): Block {
    var iv := Reverse(ivReg);
    if ccm then [2] + iv[4..] + [0, 0, 1] else iv
  }

  function FirstBlock(iv: Block, macLen: nat, extra: nat, blocks: nat): Block
    requires 1 <= macLen <= 7 && blocks < TWO_16
  {
    var flags: u8 := 2 + 8 * macLen + if extra != 0 then 0x40 else 0;
    var n2: u8, n1: u8, n0: u8 := blocks / 0x1000, blocks / 0x10 % 0x100, blocks * 0x10 % 0x100;
    [flags] + iv[1..13] + [n2, n1, n0]
  }

  /** B0 has the form of section 2.2 of RFC 3610 with L = 3: the flags byte 64 Adata + 8 M' + L', the nonce,
      and the message length in bytes as a three-byte big-endian number. */
  lemma FirstBlockIsCcm(iv: Block, macLen: nat, extra: nat, blocks: nat)
    requires 1 <= macLen <= 7 && blocks < TWO_16
    ensures var b := FirstBlock(iv, macLen, extra, blocks);
            && b[0] % 8 == 3 - 1 && b[0] / 8 % 8 == macLen && (b[0] / 64 == 1 <==> extra != 0) && b[0] < 128
            && b[1..13] == iv[1..13]
            && ((b[13] as int) * 0x100 + b[14]) * 0x100 + b[15] == 16 * blocks
  {
    assert blocks / 0x10 / 0x100 == blocks / 0x1000;
  }

  /** Where a run in a CCM mode starts: the counter is flags 2, the nonce from the upper 12 bytes of the register and
      block number 1, and the MAC the encrypted first block of CCM; in the CTR modes the counter is the register, and
      the MAC stays. */
  lemma StartCoreIs(e: Cipher, mode: nat, ivReg: Block, macLen: nat, extra: nat, blocks: nat, mac: Block) returns (b0: Block)
    requires 1 <= macLen <= 7 && blocks < TWO_16
    ensures var c := StartCore(e, mode, ivReg, macLen, extra, blocks, mac);
      if mode < 2 then
        && c.iv[0] == 2 && c.iv[1..13] == seq(12, j requires 0 <= j < 12 => ivReg[11 - j]) && c.iv[13..] == [0, 0, 1]
        && c.mac == e(b0) && b0[0] % 8 == 3 - 1 && b0[0] / 8 % 8 == macLen && (b0[0] / 64 == if extra != 0 then 1 else 0)
        && b0[1..13] == c.iv[1..13] && ((b0[13] as int) * 0x100 + b0[14]) * 0x100 + b0[15] == 16 * blocks
      else (forall j :: 0 <= j < 16 ==> c.iv[j] == ivReg[15 - j]) && c.mac == mac
  {
    hide FirstBlock;
    var iv := StartIv(mode < 2, ivReg);
    b0 := FirstBlock(iv, macLen, extra, blocks);
    FirstBlockIsCcm(iv, macLen, extra, blocks);
    if mode < 2 {
      assert iv[13..] == [0, 0, 1];
      assert iv[1..13] == Reverse(ivReg)[4..];
    }
  }

  function StartCore(e: Cipher, mode: nat, ivReg: Block, macLen: nat, extra: nat, blocks: nat, mac: Block): Core
    requires 1 <= macLen <= 7 && blocks < TWO_16
  {
    var iv := StartIv(mode < 2, ivReg);
    Core(iv, if mode < 2 then e(FirstBlock(iv, macLen, extra, blocks)) else mac)
  }

  /** The history of one run: where it started, what it consumed, what it gave out. */
  datatype Run = Run(
    e: Cipher,
    start: Core,
    extraTotal: nat,
    blockTotal: nat,
    extras: seq<Block>,
    modes: seq<nat>,
    datas: seq<Block>,
    inWords: seq<Word>,
    outWords: seq<Word>,
    stale: seq<Word>,
    completions: nat,
    doneMode: nat,
    macSent: bool)
  {
    ghost predicate WellFormed() {
      |modes| == |datas|
    }

    ghost function Result(): (Core, seq<Block>)
      requires WellFormed()
    {
      StepAll(e, ExtraAll(e, start, extras), modes, datas)
    }

    /** The MAC the run ends with, as it appears in the FIFO and the MAC register. */
    ghost function Mac(): Block
      requires WellFormed()
    {
      Reverse(FinalMac(e, Result().0))
    }

    /** Everything the run puts in the output FIFO. */
    ghost function Produced(): seq<Word>
      requires WellFormed()
    {
      Words(Result().1) + if macSent then Split(Mac()) else []
    }

    /** Counts, input and output of the run agree with the reference transform. */
    ghost predicate Balanced(remExtra: nat, remBlocks: nat, input: seq<Word>, output: seq<Word>) {
      && WellFormed()
      && |extras| + remExtra == extraTotal && |datas| + remBlocks == blockTotal
      && (datas != [] ==> remExtra == 0)
      && inWords == Words(extras) + Words(datas) + input
      && outWords + output == stale + Produced()
    }

    function WithExtra(b: Block): Run {
      this.(extras := extras + [b])
    }

    function WithData(mode: nat, b: Block): Run {
      this.(modes := modes + [mode], datas := datas + [b])
    }

    /** The run went on from r: blocks were only added, all processed in the mode given, and it may have ended. */
    ghost predicate ProgressedFrom(r: Run, mode: nat) {
      && SameStart(r) && r.modes <= modes && r.datas <= datas
      && (forall i :: |r.modes| <= i < |modes| ==> modes[i] == mode)
      && (completions == r.completions || (completions == r.completions + 1 && doneMode == mode))
    }

    /** Nothing of the run's set-up differs. */
    ghost predicate SameStart(r: Run) {
      && e == r.e && start == r.start && extraTotal == r.extraTotal && blockTotal == r.blockTotal
      && stale == r.stale
    }
  }

  /** What a run computes, in terms of CCM: output block k is data block k under the key stream of the start counter
      plus k, both last byte first; the MAC is the CBC-MAC over the associated blocks and then the text (the data where
      it is encrypted, the output where it is decrypted), under the key stream of counter block 0. */
  lemma RunIsCcm(r: Run)
    requires r.WellFormed()
    ensures
      var (core, outs) := r.Result();
      && (forall k, i :: 0 <= k < |r.datas| && 0 <= i < 16 ==>
            outs[k][i] == XorByte(r.datas[k][i], r.e(CounterPlus(r.start.iv, k))[15 - i]))
      && core.iv == CounterPlus(r.start.iv, |r.datas|)
      && core.mac == CbcMac(r.e, r.start.mac, r.extras + Texts(r.modes, r.datas, outs))
      && r.Mac() == Reverse(Xor(core.mac, r.e(core.iv[..13] + [0, 0, 0])))
  {
    hide StepAll, ExtraAll, XorByte, CbcMac, CounterPlus, Xor, Reverse, FinalMac, Texts;
    ExtrasAreCbc(r.e, r.start, r.extras);
    StreamIsCcm(r.e, ExtraAll(r.e, r.start, r.extras), r.modes, r.datas);
    var (core, outs) := r.Result();
    CbcAppends(r.e, r.start.mac, r.extras, Texts(r.modes, r.datas, outs));
    FinalMacIs(r.e, core);
  }

  lemma Regroup(a: seq<Word>, b: seq<Word>, c: seq<Word>, d: seq<Word>, more: seq<Word>)
    requires a + b == c + d
    ensures a + (b + more) == c + (d + more)
  {
    assert a + (b + more) == (a + b) + more;
  }

  lemma AfterExtra(r: Run, remExtra: nat, remBlocks: nat, input: seq<Word>, output: seq<Word>)
    requires r.Balanced(remExtra, remBlocks, input, output) && |input| >= 4 && remExtra > 0
    ensures var b := Join(input[..4]);
            && r.WithExtra(b).WellFormed()
            && r.WithExtra(b).Result().0 == Extra(r.e, r.Result().0, b)
            && (!r.macSent ==> r.WithExtra(b).Balanced(remExtra - 1, remBlocks, input[4..], output))
  {
    hide Extra, Join, Split, Step;
    var b := Join(input[..4]);
    var r' := r.WithExtra(b);
    assert r.datas == [] && r.modes == [];
    assert r'.extras[..|r.extras|] == r.extras;
    SplitJoin(input[..4]);
    assert Words(r'.extras) == Words(r.extras) + input[..4];
    assert input == input[..4] + input[4..];
    assert r.inWords == Words(r'.extras) + Words(r'.datas) + input[4..];
    assert Words(r.Result().1) == [] == Words(r'.Result().1);
  }

  lemma AfterData(r: Run, mode: nat, remBlocks: nat, input: seq<Word>, output: seq<Word>)
    requires r.Balanced(0, remBlocks, input, output) && |input| >= 4 && remBlocks > 0 && !r.macSent
    ensures var b := Join(input[..4]);
            && r.WithData(mode, b).WellFormed()
            && r.WithData(mode, b).Result().0 == Step(r.e, mode, r.Result().0, b).0
            && r.WithData(mode, b).Balanced(0, remBlocks - 1, input[4..], output + Split(Step(r.e, mode, r.Result().0, b).1))
  {
    hide Step, Join, Split, ExtraAll;
    var b := Join(input[..4]);
    var r' := r.WithData(mode, b);
    var n := |r.datas|;
    assert r'.datas[..n] == r.datas && r'.modes[..n] == r.modes;
    SplitJoin(input[..4]);
    assert Words(r'.datas) == Words(r.datas) + input[..4];
    assert input == input[..4] + input[4..];
    assert r.inWords == Words(r'.extras) + Words(r'.datas) + input[4..];
    var outs := r'.Result().1;
    assert outs[..n] == r.Result().1;
    assert Words(outs) == Words(r.Result().1) + Split(outs[n]);
    Regroup(r.outWords, output, r.stale, Words(r.Result().1), Split(outs[n]));
  }

  lemma AfterMac(r: Run, remExtra: nat, remBlocks: nat, input: seq<Word>, output: seq<Word>)
    requires r.Balanced(remExtra, remBlocks, input, output) && !r.macSent
    ensures var r' := r.(macSent := true);
            r'.Balanced(remExtra, remBlocks, input, output + Split(r.Mac())) && r'.Result() == r.Result() && r'.Mac() == r.Mac()
  {
    hide StepAll, ExtraAll, Words, Split, Reverse, FinalMac;
    var r' := r.(macSent := true);
    assert r'.Result() == r.Result() && r'.Mac() == r.Mac();
    Regroup(r.outWords, output, r.stale, Words(r.Result().1), Split(r.Mac()));
  }

  lemma AfterInput(r: Run, remExtra: nat, remBlocks: nat, input: seq<Word>, output: seq<Word>, val: Word)
    requires r.Balanced(remExtra, remBlocks, input, output)
    ensures var r' := r.(inWords := r.inWords + [val]);
            r'.Balanced(remExtra, remBlocks, input + [val], output) && r'.Result() == r.Result() && r'.Mac() == r.Mac()
  {
    hide StepAll, ExtraAll, Words, Split, Reverse, FinalMac;
    assert r.inWords + [val] == Words(r.extras) + Words(r.datas) + (input + [val]);
    assert r.(inWords := r.inWords + [val]).Result() == r.Result();
  }

  lemma AfterOutput(r: Run, remExtra: nat, remBlocks: nat, input: seq<Word>, output: seq<Word>)
    requires r.Balanced(remExtra, remBlocks, input, output) && output != []
    ensures var r' := r.(outWords := r.outWords + [output[0]]);
            r'.Balanced(remExtra, remBlocks, input, output[1..]) && r'.Result() == r.Result() && r'.Mac() == r.Mac()
  {
    hide StepAll, ExtraAll, Words, Split, Reverse, FinalMac;
    assert (r.outWords + [output[0]]) + output[1..] == r.outWords + output;
    assert r.(outWords := r.outWords + [output[0]]).Result() == r.Result();
  }

  lemma AfterCompletion(r: Run, mode: nat, remExtra: nat, remBlocks: nat, input: seq<Word>, output: seq<Word>)
    requires r.Balanced(remExtra, remBlocks, input, output)
    ensures var r' := r.(completions := 1, doneMode := mode);
            r'.Balanced(remExtra, remBlocks, input, output) && r'.Result() == r.Result() && r'.Mac() == r.Mac()
  {
    hide StepAll, ExtraAll, Words, Split, Reverse, FinalMac;
    assert r.(completions := 1, doneMode := mode).Result() == r.Result();
  }

  function NewRun(e: Cipher, start: Core, extraTotal: nat, blockTotal: nat, input: seq<Word>, output: seq<Word>): Run {
    Run(e, start, extraTotal, blockTotal, [], [], [], input, [], output, 0, 0, false)
  }

  lemma AtStart(e: Cipher, start: Core, extraTotal: nat, blockTotal: nat, input: seq<Word>, output: seq<Word>)
    ensures var r := NewRun(e, start, extraTotal, blockTotal, input, output);
            r.Balanced(extraTotal, blockTotal, input, output) && r.Result().0 == start
  {
  }

  lemma TotalLeft(r: Run, remExtra: nat, remBlocks: nat, input: seq<Word>, output: seq<Word>)
    requires r.Balanced(remExtra, remBlocks, input, output) && remExtra + remBlocks > 0
    ensures r.extraTotal + r.blockTotal > 0
  {
  }

  lemma NoProgress(r: Run, mode: nat)
    ensures r.ProgressedFrom(r, mode)
  {
  }

  lemma ProgressGoesOn(r0: Run, r1: Run, r2: Run, mode: nat)
    requires r1.ProgressedFrom(r0, mode) && r2.ProgressedFrom(r1, mode) && r2.completions == 0
    ensures r2.ProgressedFrom(r0, mode)
  {
  }

  lemma TotalKept(r0: Run, r: Run, mode: nat)
    requires r.ProgressedFrom(r0, mode)
    ensures r.extraTotal == r0.extraTotal && r.blockTotal == r0.blockTotal
  {
  }

  lemma SameTotals(r0: Run, r: Run, mode: nat)
    requires r.ProgressedFrom(r0, mode)
    ensures r.SameStart(r0)
    ensures r.e == r0.e && r.start == r0.start && r.extraTotal == r0.extraTotal && r.blockTotal == r0.blockTotal && r.stale == r0.stale
  {
  }

  lemma EndIsProgress(r0: Run, r: Run, mode: nat)
    requires r.ProgressedFrom(r0, mode) && r0.completions == 0
    ensures r.(completions := 1, doneMode := mode, macSent := true).ProgressedFrom(r0, mode)
    ensures r.(completions := 1, doneMode := mode, macSent := false).ProgressedFrom(r0, mode)
  {
  }

  /** The words that went in and out have no part in that. */
  lemma WordsDoNotMatter(r: Run, inWords: seq<Word>, outWords: seq<Word>, mode: nat)
    ensures forall s: Run {:trigger s.ProgressedFrom(r, mode)} ::
      s.ProgressedFrom(r.(inWords := inWords, outWords := outWords), mode) ==> s.ProgressedFrom(r, mode)
    ensures r.(inWords := inWords, outWords := outWords).ProgressedFrom(r, mode)
    ensures r.(inWords := inWords, outWords := outWords, macSent := true).ProgressedFrom(r, mode)
  {
  }

  /** Four words written to a FIFO, as the block routines and the MAC output do. */
  function PushBlock(queue: seq<Word>, b: Block): seq<Word> {
    var w := Split(b);
    Pushed(Pushed(Pushed(Pushed(queue, FIFO_SIZE, w[0]), FIFO_SIZE, w[1]), FIFO_SIZE, w[2]), FIFO_SIZE, w[3])
  }

  lemma PushFits(queue: seq<Word>, b: Block)
    requires |queue| <= 12
    ensures PushBlock(queue, b) == queue + Split(b)
  {
  }

  /** The control register, by its fields: bits 31, 30, 24, 26-27, 28-29 and 16-18. */
  datatype Control = Control(enable: bool, irq: bool, loadKey: bool, slot: nat, mode: nat, macLen: nat)
  {
    predicate Valid() {
      slot < 4 && mode < 4 && macLen < 8
    }
  }

  class Aes {
    var busy: bool
    var irqEnable: bool
    var macOk: bool
    var mode: nat
    var extraCount: u16
    var blockCount: u16
    var remExtra: nat
    var remBlocks: nat
    var input: seq<Word>
    var output: seq<Word>
    var ivReg: Block
    var macReg: Block
    /** Block encryption under KeyNormal[slot], CurKey and the key schedule in use. */
    var keys: seq<Cipher>
    var curKey: Cipher
    var cipher: Cipher
    var core: Core
    var outputMac: Block
    var outputMacDue: bool
    /** How often IRQ2_DSi_AES was raised. */
    var irqs: nat
    ghost var run: Run

    ghost predicate Bounded()
      reads this
    {
      |input| <= FIFO_SIZE && |output| <= FIFO_SIZE && |keys| == 4 && mode < 4
    }

    /** A run with blocks left, or in the middle of Update. */
    ghost predicate Running()
      reads this
    {
      && Bounded() && run.Balanced(remExtra, remBlocks, input, output)
      && cipher == run.e && core == run.Result().0
      && run.completions == 0 && !run.macSent && !outputMacDue
    }

    /** No blocks left: the run completed once if there was anything to do, and a CCM encryption has put its
        MAC in the output FIFO once or still owes it. */
    ghost predicate Idle()
      reads this
    {
      && Bounded() && remExtra == remBlocks == 0 && !busy
      && run.Balanced(0, 0, input, output)
      && run.completions == (if run.extraTotal + run.blockTotal > 0 then 1 else 0)
      && (outputMacDue || run.macSent ==> outputMac == run.Mac())
      && (outputMacDue != run.macSent <==> run.completions == 1 && run.doneMode == 1)
      && (outputMacDue ==> |output| > 12 && !run.macSent)
    }

    ghost predicate Valid()
      reads this
    {
      if remExtra > 0 || remBlocks > 0 then Running() else Idle()
    }

    /** A busy engine has stopped for want of a block of input, or of room for a block of output. */
    ghost predicate Waiting()
      reads this
    {
      busy ==> (remExtra > 0 ==> |input| < 4) && (remExtra == 0 ==> |input| < 4 || |output| > 12)
    }

    /** What any step does: the run progresses; completing it raises the interrupt once if it is enabled,
        switches the engine off and sets bit 21 exactly when a decryption ends with the MAC in the register; short
        of that nothing of this changes. */
    twostate predicate Progressed()
      reads this
    {
      && run.ProgressedFrom(old(run), mode)
      && (if run.completions == old(run.completions)
          then irqs == old(irqs) && macOk == old(macOk) && busy == old(busy)
          else !busy && irqs == old(irqs) + (if irqEnable then 1 else 0)
               && run.WellFormed() && (macOk <==> mode == 0 && macReg == run.Mac()))
    }

    constructor (keys: seq<Cipher>)
      requires |keys| == 4
      ensures Valid() && !busy && input == [] && output == [] && irqs == 0
    {
      busy, irqEnable, macOk, mode, extraCount, blockCount, remExtra, remBlocks := false, false, false, 0, 0, 0, 0, 0;
      var zero: Block := seq(16, _ => 0);
      input, output, ivReg, macReg, outputMac, outputMacDue, irqs := [], [], zero, zero, zero, false, 0;
      core := Core(zero, zero);
      this.keys, curKey, cipher := keys, keys[0], keys[0];
      run := Run(keys[0], Core(zero, zero), 0, 0, [], [], [], [], [], [], 0, 0, false);
    }

    method ProcessExtras()
      requires Running()
      modifies `remExtra, `input, `core, `run
      ensures Running()
      ensures remExtra == 0 || |input| < 4
      ensures run.ProgressedFrom(old(run), mode) && run.inWords == old(run.inWords) && run.outWords == old(run.outWords)
    {
      hide Join, Extra, Run.Balanced, Run.Result;
      while |input| >= 4 && remExtra > 0
        invariant Running()
        invariant run.SameStart(old(run)) && run.inWords == old(run.inWords) && run.outWords == old(run.outWords)
        invariant run.modes == old(run.modes) && run.datas == old(run.datas)
        decreases remExtra
      {
        var data := Join(input[..4]);
        AfterExtra(run, remExtra, remBlocks, input, output);
        core := Extra(cipher, core, data);
        run := run.WithExtra(data);
        input, remExtra := input[4..], remExtra - 1;
      }
    }

    method ProcessBlocks()
      requires Running() && remExtra == 0
      modifies `remBlocks, `input, `output, `core, `run
      ensures Running()
      ensures remBlocks == 0 || |input| < 4 || |output| > 12
      ensures run.ProgressedFrom(old(run), mode) && run.inWords == old(run.inWords) && run.outWords == old(run.outWords)
    {
      hide Join, Step, Split, PushBlock, Run.Balanced, Run.Result;
      while |input| >= 4 && |output| <= 12 && remBlocks > 0
        invariant Running()
        invariant run.SameStart(old(run)) && run.inWords == old(run.inWords) && run.outWords == old(run.outWords)
        invariant run.extras == old(run.extras)
        invariant old(run.datas) <= run.datas && old(run.modes) <= run.modes
        invariant forall i :: |old(run.modes)| <= i < |run.modes| ==> run.modes[i] == mode
        decreases remBlocks
      {
        var data := Join(input[..4]);
        AfterData(run, mode, remBlocks, input, output);
        var (core', out) := Step(cipher, mode, core, data);
        PushFits(output, out);
        core, output := core', PushBlock(output, out);
        run := run.WithData(mode, data);
        input, remBlocks := input[4..], remBlocks - 1;
      }
    }

    method SendMac()
      requires run.Balanced(0, 0, input, output) && !run.macSent && |output| <= 12 && outputMac == run.Mac()
      modifies `output, `run
      ensures run == old(run).(macSent := true) && run.Balanced(0, 0, input, output)
      ensures run.Mac() == old(run).Mac() && output == old(output) + Split(outputMac)
    {
      hide Split, PushBlock, Run.Balanced, Run.Result, Run.Mac;
      AfterMac(run, 0, 0, input, output);
      PushFits(output, outputMac);
      output := PushBlock(output, outputMac);
      run := run.(macSent := true);
    }

    /** The end of a run: the MAC is checked (mode 0) or put out (mode 1), and the interrupt raised. */
    method Finish()
      requires Running() && remExtra == remBlocks == 0 && run.extraTotal + run.blockTotal > 0
      modifies `busy, `macOk, `core, `output, `outputMac, `outputMacDue, `irqs, `run
      ensures Idle() && !busy && run.doneMode == mode
      ensures macOk <==> mode == 0 && macReg == run.Mac()
      ensures irqs == old(irqs) + if irqEnable then 1 else 0
      ensures run == old(run).(completions := 1, doneMode := mode, macSent := run.macSent)
      ensures mode != 1 ==> output == old(output)
    {
      hide Split, Increment, Xor, CounterZero, FinalMac, Reverse, PushBlock, Run.Balanced, Run.Result;
      AfterCompletion(run, mode, 0, 0, input, output);
      run := run.(completions := 1, doneMode := mode);
      macOk := false;
      if mode < 2 {
        var mac := FinalMac(cipher, core);
        core := Core(Increment(CounterZero(core.iv)), mac);
        if mode == 0 {
          ReverseTwice(mac);
          macOk := Reverse(mac) == macReg;
        } else {
          outputMac := Reverse(mac);
          if |output| <= 12 {
            SendMac();
          } else {
            outputMacDue := true;
          }
        }
      }
      busy := false;
      if irqEnable {
        irqs := irqs + 1;
      }
    }

    /** The two loops of Update. */
    method ProcessAll()
      requires Running()
      modifies `remExtra, `remBlocks, `input, `output, `core, `run
      ensures Running() && run.ProgressedFrom(old(run), mode)
      ensures run.inWords == old(run.inWords) && run.outWords == old(run.outWords)
      ensures remExtra > 0 ==> |input| < 4
      ensures remExtra == 0 && remBlocks > 0 ==> |input| < 4 || |output| > 12
    {
      hide Run.Balanced, Run.Result, Run.Mac, Run.ProgressedFrom;
      ghost var r0 := run;
      ProcessExtras();
      ghost var r1 := run;
      NoProgress(r1, mode);
      if remExtra == 0 {
        ProcessBlocks();
      }
      ProgressGoesOn(r0, r1, run, mode);
    }

    /** Everything the FIFOs allow is processed; the step that uses up the last block completes the run. */
    method Update()
      requires Valid() && (remExtra > 0 || remBlocks > 0)
      modifies `busy, `macOk, `remExtra, `remBlocks, `input, `output, `core, `outputMac, `outputMacDue, `irqs, `run
      ensures Valid() && Progressed()
      ensures run.inWords == old(run.inWords) && run.outWords == old(run.outWords)
      ensures remExtra > 0 ==> |input| < 4
      ensures remExtra == 0 && remBlocks > 0 ==> |input| < 4 || |output| > 12
      ensures run.completions == 1 <==> remExtra == remBlocks == 0
    {
      TotalLeft(run, remExtra, remBlocks, input, output);
      assert run.WellFormed();
      hide Run.Balanced, Run.Result, Run.Mac, Run.ProgressedFrom, Idle;
      ghost var r0 := run;
      ProcessAll();
      TotalKept(r0, run, mode);
      EndIsProgress(r0, run, mode);
      if remBlocks == 0 && remExtra == 0 {
        Finish();
      }
    }

    /** A word for the engine: dropped when the FIFO is full, processed at once when the engine is on. */
    method WriteInputFIFO(val: Word)
      requires Valid()
      modifies `busy, `macOk, `remExtra, `remBlocks, `input, `output, `core, `outputMac, `outputMacDue, `irqs, `run
      ensures Valid() && Progressed() && run.outWords == old(run.outWords)
      ensures run.inWords == if |old(input)| < 16 then old(run.inWords) + [val] else old(run.inWords)
      ensures Waiting() && (!old(busy) ==> run == old(run).(inWords := run.inWords))
    {
      hide Run.Balanced, Run.Result, Run.Mac, Run.ProgressedFrom;
      WordsDoNotMatter(run, run.inWords + [val], run.outWords, mode);
      WordsDoNotMatter(run, run.inWords, run.outWords, mode);
      if |input| < FIFO_SIZE {
        AfterInput(run, remExtra, remBlocks, input, output, val);
        run := run.(inWords := run.inWords + [val]);
      }
      input := Pushed(input, FIFO_SIZE, val);
      if !busy {
        return;
      }
      Update();
    }

    method CheckInputDMA()
      requires Valid()
      modifies `busy, `macOk, `remExtra, `remBlocks, `input, `output, `core, `outputMac, `outputMacDue, `irqs, `run
      ensures Valid() && Progressed()
      ensures run.inWords == old(run.inWords) && run.outWords == old(run.outWords)
      ensures remExtra > 0 ==> |input| < 4
      ensures remExtra == 0 && remBlocks > 0 ==> |input| < 4 || |output| > 12
    {
      if remBlocks == 0 && remExtra == 0 {
        return;
      }
      Update();
    }

    /** The oldest word of the output FIFO. The value read from an empty FIFO is left open. */
    method ReadOutputFIFO() returns (ret: Word)
      requires Valid()
      modifies `busy, `macOk, `remExtra, `remBlocks, `input, `output, `core, `outputMac, `outputMacDue, `irqs, `run
      ensures Valid() && Progressed() && run.inWords == old(run.inWords)
      ensures old(output) != [] ==> ret == old(output)[0] && run.outWords == old(run.outWords) + [ret]
      ensures old(output) == [] ==> run.outWords == old(run.outWords)
      ensures Waiting() && (!old(busy) ==> run == old(run).(outWords := run.outWords, macSent := run.macSent))
    {
      hide Run.Balanced, Run.Result, Run.Mac, Split, PushBlock, Run.ProgressedFrom;
      WordsDoNotMatter(run, run.inWords, run.outWords, mode);
      if output != [] {
        WordsDoNotMatter(run, run.inWords, run.outWords + [output[0]], mode);
      }
      ret := *;
      if output != [] {
        ret := output[0];
        AfterOutput(run, remExtra, remBlocks, input, output);
        run := run.(outWords := run.outWords + [ret]);
        output := output[1..];
      }
      if busy {
        CheckInputDMA();
      } else if outputMacDue && |output| <= 12 {
        SendMac();
        outputMacDue := false;
      }
    }

    /** The start of a run: the counts are loaded and, unless both are zero, counter and MAC set up. */
    method StartRun(macLen: nat)
      requires Bounded() && 1 <= macLen <= 7
      modifies `busy, `remExtra, `remBlocks, `cipher, `core, `outputMacDue, `run
      ensures Valid()
      ensures remExtra == (if mode < 2 then extraCount else 0) && remBlocks == blockCount
      ensures busy <==> old(busy) && (remExtra > 0 || remBlocks > 0)
      ensures run == NewRun(cipher, core, remExtra, remBlocks, input, output)
      ensures remExtra > 0 || remBlocks > 0 ==>
        cipher == curKey && core == StartCore(curKey, mode, ivReg, macLen, extraCount, blockCount, old(core).mac)
    {
      hide StartCore, Run.Balanced, Run.Result, Run.Mac, Run.Produced, Run.WellFormed, Words, Split, Reverse, StepAll, ExtraAll;
      remExtra := if mode < 2 then extraCount else 0;
      remBlocks := blockCount;
      outputMacDue := false;
      if remBlocks > 0 || remExtra > 0 {
        cipher := curKey;
        core := StartCore(cipher, mode, ivReg, macLen, extraCount, blockCount, core.mac);
      } else {
        busy := false;
      }
      AtStart(cipher, core, remExtra, remBlocks, input, output);
      run := NewRun(cipher, core, remExtra, remBlocks, input, output);
    }

    method SetControl(val: Control)
      requires Valid() && val.Valid()
      modifies `busy, `irqEnable, `macOk, `mode, `curKey
      ensures Bounded() && (old(busy) || !val.enable ==> Valid())
      ensures busy == val.enable && mode == val.mode && irqEnable == val.irq && !macOk
      ensures curKey == if val.loadKey then keys[val.slot] else old(curKey)
    {
      hide Run.Balanced, Run.Result, Run.Mac;
      busy, irqEnable, macOk, mode := val.enable, val.irq, false, val.mode;
      if val.loadKey {
        curKey := keys[val.slot];
      }
    }

    /** A write of the control register. Only the rising edge of the enable bit starts a run; lowering it
        halts the engine where it is, and the mode of a run in progress can be changed under way. */
    method WriteCnt(val: Control)
      requires Valid() && val.Valid()
      modifies `busy, `irqEnable, `macOk, `mode, `remExtra, `remBlocks, `curKey, `cipher, `core, `outputMacDue, `run
      ensures Valid() && mode == val.mode && irqEnable == val.irq && !macOk
      ensures curKey == if val.loadKey then keys[val.slot] else old(curKey)
      ensures !val.enable || old(busy) ==> busy == val.enable && run == old(run)
      ensures val.enable && !old(busy) ==>
        && remExtra == (if mode < 2 then extraCount else 0) && remBlocks == blockCount
        && (busy <==> remExtra > 0 || remBlocks > 0)
        && run == NewRun(cipher, core, remExtra, remBlocks, input, output)
      ensures val.enable && !old(busy) && busy ==>
        var macLen := if val.macLen < 1 then 1 else val.macLen;
        cipher == curKey && core == StartCore(curKey, mode, ivReg, macLen, extraCount, blockCount, old(core).mac)
    {
      hide Valid, StartCore, NewRun, Run.Balanced, Run.Result, Run.Mac, Run.Produced, Run.WellFormed, Words, Split, Reverse, StepAll, ExtraAll;
      var wasBusy := busy;
      SetControl(val);
      if !wasBusy && val.enable {
        StartRun(if val.macLen < 1 then 1 else val.macLen);
      }
    }

    method WriteBlkCnt(extra: u16, blocks: u16)
      requires Valid()
      modifies `extraCount, `blockCount
      ensures Valid() && extraCount == extra && blockCount == blocks
    {
      extraCount, blockCount := extra, blocks;
    }

    /** The levels of the two FIFOs follow from the words taken in and given out and the blocks left. */
    lemma LevelsAreCounts()
      requires Valid()
      ensures |run.inWords| == 4 * (run.extraTotal - remExtra) + 4 * (run.blockTotal - remBlocks) + |input|
      ensures |run.outWords| + |output| == |run.stale| + 4 * (run.blockTotal - remBlocks) + if run.macSent then 4 else 0
    {
      hide StepAll, ExtraAll, Split, Reverse, FinalMac, Words;
    }

    /** When a run has ended: unless the engine was switched off on the way, exactly when all its input words have
        been written and all but the last 16 words of its output have been read. */
    lemma EndsExactlyWhenServed()
      requires Valid() && Waiting() && (busy || remExtra == remBlocks == 0) && run.extraTotal + run.blockTotal > 0
      ensures run.completions == 1 <==>
                && |run.inWords| >= 4 * (run.extraTotal + run.blockTotal)
                && |run.outWords| + 16 >= |run.stale| + 4 * run.blockTotal
    {
      hide Run.Balanced, Run.Result, Run.Mac;
      LevelsAreCounts();
    }

    /** What is left to do: a data block still to come counts for itself and the four words it will put out. */
    ghost function Work(): nat
      reads this
    {
      remExtra + 5 * remBlocks + |output|
    }

    /** A read while the engine is on, with all it can hold or needs in the input FIFO, brings the end nearer. */
    method Take() returns (got: seq<Word>)
      requires Valid() && busy && (|input| == FIFO_SIZE || |run.inWords| >= 4 * (run.extraTotal + run.blockTotal))
      modifies `busy, `macOk, `remExtra, `remBlocks, `input, `output, `core, `outputMac, `outputMacDue, `irqs, `run
      ensures Valid() && Progressed() && run.inWords == old(run.inWords) && run.outWords == old(run.outWords) + got
      ensures busy ==> Work() < old(Work())
    {
      hide Run.Balanced, Run.Result, Run.Mac, Run.ProgressedFrom;
      LevelsAreCounts();
      var some := output != [];
      var w := ReadOutputFIFO();
      got := if some then [w] else [];
      SameTotals(old(run), run, mode);
      LevelsAreCounts();
    }

    /** A reader and a writer that take turns: from every state with the engine on, the missing input words end the
        run, with one completion and one interrupt, however the FIFOs were filled before. */
    method Serve(words: seq<Word>) returns (used: nat, got: seq<Word>)
      requires Valid() && busy && |run.inWords| + |words| >= 4 * (run.extraTotal + run.blockTotal)
      modifies `busy, `macOk, `remExtra, `remBlocks, `input, `output, `core, `outputMac, `outputMacDue, `irqs, `run
      ensures Valid() && !busy && run.completions == 1 && run.SameStart(old(run)) && run.doneMode == mode
      ensures irqs == old(irqs) + if irqEnable then 1 else 0
      ensures used <= |words| && run.inWords == old(run.inWords) + words[..used] && run.outWords == old(run.outWords) + got
    {
      hide Run.Balanced, Run.Result, Run.Mac, Work;
      used, got := 0, [];
      while busy
        invariant Valid() && run.SameStart(old(run))
        invariant busy ==> irqs == old(irqs)
        invariant !busy ==> run.completions == 1 && run.doneMode == mode && irqs == old(irqs) + if irqEnable then 1 else 0
        invariant used <= |words| && run.inWords == old(run.inWords) + words[..used] && run.outWords == old(run.outWords) + got
        decreases busy, |words| - used, Work()
      {
        if |input| < FIFO_SIZE && used < |words| {
          assert words[..used + 1] == words[..used] + [words[used]];
          WriteInputFIFO(words[used]);
          used := used + 1;
        } else {
          var more := Take();
          got := got + more;
        }
      }
    }

    /** In every reachable state the words given out since the start are a prefix of what was in the FIFO before
        and what the run produces, and the words taken in are those of the blocks consumed, then the FIFO. */
    lemma OutputIsTheTransform()
      requires Valid()
      ensures run.outWords <= run.stale + run.Produced()
      ensures run.inWords == Words(run.extras) + Words(run.datas) + input
      ensures |run.datas| + remBlocks == run.blockTotal
      ensures run.Produced() == Words(run.Result().1) + if run.macSent then Split(run.Mac()) else []
      ensures forall k, i :: 0 <= k < |run.datas| && 0 <= i < 16 ==>
                run.Result().1[k][i] == XorByte(run.datas[k][i], run.e(CounterPlus(run.start.iv, k))[15 - i])
      ensures
        var zero: Block := CounterPlus(run.start.iv, |run.datas|)[..13] + [0, 0, 0];
        var texts := run.extras + Texts(run.modes, run.datas, run.Result().1);
        run.Mac() == Reverse(Xor(CbcMac(run.e, run.start.mac, texts), run.e(zero)))
    {
      hide StepAll, ExtraAll, XorByte, CbcMac, CounterPlus, Xor, Reverse, FinalMac, Texts, Words, Split;
      RunIsCcm(run);
    }
  }

  lemma WordsParts(a: seq<Word>, b: seq<Word>, c: seq<Word>, d: seq<Word>)
    requires a + b == c + d && |a| == |c|
    ensures a == c && b == d
  {
    assert a == (a + b)[..|a|] && b == (a + b)[|a|..] && c == (c + d)[..|c|] && d == (c + d)[|c|..];
  }

  /** Encrypting a message in mode 1 and feeding the same associated blocks and the ciphertext back in mode 0,
      from the same start, gives the message again, and the MAC the decryption checks its register against is
      the MAC the encryption put out last. */
  lemma CcmRoundTrip(enc: Run, dec: Run)
    requires enc.Balanced(0, 0, [], []) && dec.Balanced(0, 0, [], []) && enc.stale == dec.stale == []
    requires enc.macSent && !dec.macSent
    requires enc.e == dec.e && enc.start == dec.start
    requires enc.extraTotal == dec.extraTotal && enc.blockTotal == dec.blockTotal
    requires forall i :: 0 <= i < |enc.modes| ==> enc.modes[i] == 1
    requires forall i :: 0 <= i < |dec.modes| ==> dec.modes[i] == 0
    requires dec.inWords == enc.inWords[..4 * enc.extraTotal] + enc.outWords[..4 * enc.blockTotal]
    ensures dec.outWords == enc.inWords[4 * enc.extraTotal..]
    ensures Split(dec.Mac()) == enc.outWords[4 * enc.blockTotal..]
  {
    hide StepAll, ExtraAll, Words, Split, FinalMac, Reverse;
    var outs := enc.Result().1;
    assert enc.outWords + [] == enc.outWords && enc.stale + enc.Produced() == enc.Produced();
    assert enc.outWords == Words(outs) + Split(enc.Mac());
    assert enc.outWords[..4 * enc.blockTotal] == Words(outs) && enc.outWords[4 * enc.blockTotal..] == Split(enc.Mac());
    assert enc.inWords[..4 * enc.extraTotal] == Words(enc.extras);
    assert enc.inWords[4 * enc.extraTotal..] == Words(enc.datas);
    WordsParts(Words(dec.extras), Words(dec.datas), Words(enc.extras), Words(outs));
    WordsInjective(dec.extras, enc.extras);
    WordsInjective(dec.datas, outs);
    StreamUndoes(enc.e, 1, ExtraAll(enc.e, enc.start, enc.extras), enc.modes, dec.modes, enc.datas);
    assert dec.outWords + [] == dec.outWords && dec.stale + dec.Produced() == Words(dec.Result().1);
  }
}
