/** What CCM of RFC 3610 is, without the engine's steps: a CBC-MAC over blocks of text and a key stream from a
    counter; and that the steps of `Ccm` compute it. Data blocks lie in memory last byte first, so each is
    reversed on its way to the cipher and back. */
module CcmReference {
  import opened Machine
  import opened CounterMode
  import opened Ccm

  /** The CBC-MAC: the text is added to the running value before every encryption. */
  function CbcMac(e: Cipher, mac: Block, texts: seq<Block>): Block {
    if texts == [] then mac else e(Xor(CbcMac(e, mac, texts[..|texts| - 1]), Reverse(texts[|texts| - 1])))
  }

  /** The blocks of text of a stream: what goes in where it is encrypted (mode 1), what comes out where it is
      decrypted (mode 0), and nothing in the CTR modes. */
  function Texts(modes: seq<nat>, ins: seq<Block>, outs: seq<Block>): seq<Block>
    requires |modes| == |ins| == |outs|
  {
    if modes == [] then []
    else
      var last := |modes| - 1;
      Texts(modes[..last], ins[..last], outs[..last]) +
      if modes[last] == 0 then [outs[last]] else if modes[last] == 1 then [ins[last]] else []
  }

  lemma {:induction false} CbcAppends(e: Cipher, mac: Block, a: seq<Block>, b: seq<Block>)
    ensures CbcMac(e, CbcMac(e, mac, a), b) == CbcMac(e, mac, a + b)
  {
    if b == [] {
      assert a + b == a;
    } else {
      CbcAppends(e, mac, a, b[..|b| - 1]);
      assert (a + b)[..|a + b| - 1] == a + b[..|b| - 1];
    }
  }

  /** The associated blocks go into the MAC and leave the counter alone. */
  lemma {:induction false} ExtrasAreCbc(e: Cipher, core: Core, blocks: seq<Block>)
    ensures ExtraAll(e, core, blocks) == Core(core.iv, CbcMac(e, core.mac, blocks))
  {
    if blocks != [] {
      ExtrasAreCbc(e, core, blocks[..|blocks| - 1]);
    }
  }

  lemma LastStep(e: Cipher, core: Core, modes: seq<nat>, blocks: seq<Block>)
    requires |modes| == |blocks| > 0
    ensures var last := |blocks| - 1;
      var (before, front) := StepAll(e, core, modes[..last], blocks[..last]);
      var (next, out) := Step(e, modes[last], before, blocks[last]);
      StepAll(e, core, modes, blocks) == (next, front + [out])
  {
    hide Step;
  }

  lemma {:induction false} StreamCounter(e: Cipher, core: Core, modes: seq<nat>, blocks: seq<Block>)
    requires |modes| == |blocks|
    ensures StepAll(e, core, modes, blocks).0.iv == CounterPlus(core.iv, |blocks|)
  {
    if blocks != [] {
      hide Step, StepAll, Increment, XorByte, CbcMac;
      var last := |blocks| - 1;
      LastStep(e, core, modes, blocks);
      StreamCounter(e, core, modes[..last], blocks[..last]);
      OneStep(e, modes[last], StepAll(e, core, modes[..last], blocks[..last]).0, blocks[last]);
    }
  }

  lemma {:induction false} StreamOutput(e: Cipher, core: Core, modes: seq<nat>, blocks: seq<Block>, k: nat, i: nat)
    requires |modes| == |blocks| && k < |blocks| && i < 16
    ensures StepAll(e, core, modes, blocks).1[k][i] == XorByte(blocks[k][i], e(CounterPlus(core.iv, k))[15 - i])
  {
    hide Step, StepAll, CounterPlus, XorByte, CbcMac;
    var last := |blocks| - 1;
    LastStep(e, core, modes, blocks);
    if k < last {
      StreamOutput(e, core, modes[..last], blocks[..last], k, i);
    } else {
      StreamCounter(e, core, modes[..last], blocks[..last]);
      OneStep(e, modes[last], StepAll(e, core, modes[..last], blocks[..last]).0, blocks[last]);
    }
  }

  lemma {:induction false} StreamMac(e: Cipher, core: Core, modes: seq<nat>, blocks: seq<Block>)
    requires |modes| == |blocks|
    ensures var (end, outs) := StepAll(e, core, modes, blocks); end.mac == CbcMac(e, core.mac, Texts(modes, blocks, outs))
  {
    if blocks != [] {
      hide Step, CbcMac, XorByte;
      var last := |blocks| - 1;
      var (before, front) := StepAll(e, core, modes[..last], blocks[..last]);
      var out := Step(e, modes[last], before, blocks[last]).1;
      LastStep(e, core, modes, blocks);
      StreamMac(e, core, modes[..last], blocks[..last]);
      OneStep(e, modes[last], before, blocks[last]);
      assert (front + [out])[..last] == front;
      CbcAppends(e, core.mac, Texts(modes[..last], blocks[..last], front),
                 if modes[last] == 0 then [out] else if modes[last] == 1 then [blocks[last]] else []);
    }
  }

  /** The data blocks: output k is input k under the key stream of counter k, and the MAC is the CBC-MAC of the
      text. */
  lemma StreamIsCcm(e: Cipher, core: Core, modes: seq<nat>, blocks: seq<Block>)
    requires |modes| == |blocks|
    ensures var (end, outs) := StepAll(e, core, modes, blocks);
      && end.iv == CounterPlus(core.iv, |blocks|) && end.mac == CbcMac(e, core.mac, Texts(modes, blocks, outs))
      && forall k, i :: 0 <= k < |blocks| && 0 <= i < 16 ==> outs[k][i] == XorByte(blocks[k][i], e(CounterPlus(core.iv, k))[15 - i])
  {
    hide StepAll, CbcMac, Texts, CounterPlus, XorByte;
    StreamCounter(e, core, modes, blocks);
    StreamMac(e, core, modes, blocks);
    forall k, i | 0 <= k < |blocks| && 0 <= i < 16
      ensures StepAll(e, core, modes, blocks).1[k][i] == XorByte(blocks[k][i], e(CounterPlus(core.iv, k))[15 - i])
    {
      StreamOutput(e, core, modes, blocks, k, i);
    }
  }

  lemma OneStep(e: Cipher, mode: nat, core: Core, data: Block)
    ensures var (next, out) := Step(e, mode, core, data);
      && next.iv == Increment(core.iv)
      && next.mac == CbcMac(e, core.mac, if mode == 0 then [out] else if mode == 1 then [data] else [])
      && forall i :: 0 <= i < 16 ==> out[i] == XorByte(data[i], e(core.iv)[15 - i])
  {
    hide XorByte, Increment;
    var (next, out) := Step(e, mode, core, data);
    ReverseTwice(Xor(Reverse(data), e(core.iv)));
    assert [out][..0] == [] && [data][..0] == [];
  }

  /** The MAC that ends a stream: the CBC-MAC under the key stream of counter block 0. */
  lemma FinalMacIs(e: Cipher, core: Core)
    ensures FinalMac(e, core) == Xor(core.mac, e(core.iv[..13] + [0, 0, 0]))
  {
    hide XorByte;
  }

  lemma {:induction false} TextsIn(modes: seq<nat>, ins: seq<Block>, outs: seq<Block>)
    requires |modes| == |ins| == |outs| && forall i :: 0 <= i < |modes| ==> modes[i] == 1
    ensures Texts(modes, ins, outs) == ins
  {
    if modes != [] {
      TextsIn(modes[..|modes| - 1], ins[..|modes| - 1], outs[..|modes| - 1]);
    }
  }

  lemma {:induction false} TextsOut(modes: seq<nat>, ins: seq<Block>, outs: seq<Block>)
    requires |modes| == |ins| == |outs| && forall i :: 0 <= i < |modes| ==> modes[i] == 0
    ensures Texts(modes, ins, outs) == outs
  {
    if modes != [] {
      TextsOut(modes[..|modes| - 1], ins[..|modes| - 1], outs[..|modes| - 1]);
    }
  }
}
