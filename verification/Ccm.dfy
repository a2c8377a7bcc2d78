/** One-block steps of CCM and CTR as the AES engine (src/DSi_AES.cpp) and the ES routines
    (src/DSi_NAND.cpp) share them, and their composition over a message. */
module Ccm {
  import opened CounterMode

  /** Counter and running MAC. */
  datatype Core = Core(iv: Block, mac: Block)

  function Extra(e: Cipher, core: Core, data: Block): Core {
    core.(mac := e(Xor(core.mac, Reverse(data))))
  }

  /** One block through the engine: the new core and the output block. */
  function Step(e: Cipher, mode: nat, core: Core, data: Block): (Core, Block) {
    var rev := Reverse(data);
    var out := Xor(rev, e(core.iv));
    var mac :=
      if mode == 0 then e(Xor(core.mac, out))
      else if mode == 1 then e(Xor(core.mac, rev))
      else core.mac;
    (Core(Increment(core.iv), mac), Reverse(out))
  }

  /** Decryption undoes encryption and CTR undoes itself, leaving the same counter and MAC. */
  lemma StepUndoes(e: Cipher, mode: nat, core: Core, data: Block)
    requires mode >= 1
    ensures Step(e, if mode == 1 then 0 else mode, core, Step(e, mode, core, data).1)
         == (Step(e, mode, core, data).0, data)
  {
    hide Reverse, Xor, Increment;
    var rev := Reverse(data);
    ReverseTwice(data);
    ReverseTwice(Xor(rev, e(core.iv)));
    XorTwice(rev, e(core.iv));
  }

  ghost function ExtraAll(e: Cipher, core: Core, blocks: seq<Block>): Core {
    if blocks == [] then core
    else Extra(e, ExtraAll(e, core, blocks[..|blocks| - 1]), blocks[|blocks| - 1])
  }

  /** The reference transform: the blocks one after the other, each in its own mode. */
  ghost function StepAll(e: Cipher, core: Core, modes: seq<nat>, blocks: seq<Block>): (r: (Core, seq<Block>))
    requires |modes| == |blocks|
    ensures |r.1| == |blocks|
  {
    if blocks == [] then (core, [])
    else
      var last := |blocks| - 1;
      var (core', outs) := StepAll(e, core, modes[..last], blocks[..last]);
      var (core'', out) := Step(e, modes[last], core', blocks[last]);
      (core'', outs + [out])
  }

  /** The MAC at the end of a CCM run: encrypted with counter block 0. */
  function FinalMac(e: Cipher, core: Core): Block {
    Xor(core.mac, e(CounterZero(core.iv)))
  }

  lemma StepAllLast(e: Cipher, core: Core, modes: seq<nat>, blocks: seq<Block>)
    requires |modes| == |blocks| > 0
    ensures var last := |blocks| - 1;
            var (core', outs) := StepAll(e, core, modes[..last], blocks[..last]);
            var (core'', out) := Step(e, modes[last], core', blocks[last]);
            StepAll(e, core, modes, blocks) == (core'', outs + [out])
  {
    hide Step;
  }

  /** A whole message through a mode and back: mode 0 undoes mode 1, modes 2 and 3 undo themselves; both
      directions end with the same counter and the same MAC. */
  lemma {:induction false} StreamUndoes(e: Cipher, mode: nat, core: Core, modes: seq<nat>, back: seq<nat>, blocks: seq<Block>)
    requires mode >= 1
    requires |modes| == |back| == |blocks|
    requires forall i :: 0 <= i < |blocks| ==> modes[i] == mode && back[i] == if mode == 1 then 0 else mode
    ensures StepAll(e, core, back, StepAll(e, core, modes, blocks).1) == (StepAll(e, core, modes, blocks).0, blocks)
  {
    if blocks == [] {
      assert StepAll(e, core, modes, blocks) == (core, []);
    } else {
      hide Step, StepAll;
      var last := |blocks| - 1;
      StreamUndoes(e, mode, core, modes[..last], back[..last], blocks[..last]);
      var outs := StepAll(e, core, modes, blocks).1;
      StepAllLast(e, core, modes, blocks);
      StepAllLast(e, core, back, outs);
      assert outs[..last] == StepAll(e, core, modes[..last], blocks[..last]).1;
      StepUndoes(e, mode, StepAll(e, core, modes[..last], blocks[..last]).0, blocks[last]);
      assert blocks[..last] + [blocks[last]] == blocks;
    }
  }
}
