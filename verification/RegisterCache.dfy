/** The JIT's register allocator (src/ARMJIT_RegisterCache.h).

    Bit masks over guest registers are sets of register numbers; walking a BitSet16 visits its
    members in ascending order.  The copies the allocator asks its compiler to emit (SaveReg,
    LoadReg) are carried out at once on the guest register array and on an array of native
    registers, so the model runs a straight-line block while it is being allocated. */
module RegisterCaching {
  import opened Machine
  import opened InstrInfo

  type Regs = set<int>

  /** What the allocator knows of one fetched instruction, and what the instruction does to
      R0-R14 and to the rest of the machine state (flags, memory, PC: the type X).
      `always` is the allocator's test `thumb || Cond() >= 0xE`; `compiled` is false when the
      back end has no code for the instruction and calls the interpreter instead. */
  datatype Instr<!X> = Instr(
    info: Info,
    always: bool, compiled: bool,
    run: (seq<u32>, X) -> (seq<u32>, X))

  ghost predicate InRange(s: Regs) {
    forall r :: r in s ==> 0 <= r < 16
  }

  ghost predicate AgreeOn(s: seq<u32>, t: seq<u32>, on: Regs)
    requires |s| == |t| == 15
  {
    forall r :: r in on && 0 <= r < 15 ==> s[r] == t[r]
  }

  /** The old register values an instruction may depend on: its sources, and, when it may be
      skipped by a failing condition, its destinations too. */
  function DependsOn<X>(ins: Instr<X>): Regs {
    if ins.always then ins.info.src else ins.info.src + ins.info.dst
  }

  /** The shape of the metadata: registers are in range, and those in `notStrictlyNeeded` (the
      register list of a block transfer) are sources or destinations other than the PC. */
  ghost predicate WellFormed<X>(ins: Instr<X>) {
    InRange(ins.info.dst) && InRange(ins.info.src) && ins.info.notStrictlyNeeded <= ins.info.src + ins.info.dst - {15}
  }

  /** Loads and stores of register lists, whatever the list and the base. */
  lemma TransfersAreWellFormed<X>(ins: Instr<X>, list: Regs, base: int)
    requires InRange(list) && 0 <= base < 16 && ins.info.notStrictlyNeeded <= list - {15}
    requires (ins.info.dst == list + {base} && ins.info.src == {base}) || (ins.info.src == list + {base} && ins.info.dst == {base})
    ensures WellFormed(ins)
  {
  }

  /** The metadata describes the instruction: nothing outside `dst` is written, and the outcome
      depends on nothing outside `DependsOn`. */
  ghost predicate Truthful<X(!new)>(ins: Instr<X>) {
    && (forall s: seq<u32>, x: X :: |s| == 15 ==>
          var out := ins.run(s, x).0;
          |out| == 15 && forall r :: 0 <= r < 15 && r !in ins.info.dst ==> out[r] == s[r])
    && (forall s: seq<u32>, t: seq<u32>, x: X {:trigger ins.run(s, x), ins.run(t, x)} ::
          |s| == 15 && |t| == 15 && AgreeOn(s, t, DependsOn(ins)) &&
          |ins.run(s, x).0| == 15 && |ins.run(t, x).0| == 15 ==>
            ins.run(s, x).1 == ins.run(t, x).1 && AgreeOn(ins.run(s, x).0, ins.run(t, x).0, ins.info.dst))
  }

  /** MOV r0,r1 under a condition that is part of the other state: what it leaves in r0 depends on r0 as well. */
  lemma ConditionalMoveIsTruthful()
    ensures Truthful(Instr(Info({0}, {1}, {}, {}, {}, {}, false, false), false, true,
                           (s: seq<u32>, x: bool) => (if x && |s| > 1 then s[0 := s[1]] else s, x)))
  {
  }

  /** ADD r0,r0,r1: a destination that is also a source. */
  lemma AddIsTruthful()
    ensures Truthful(Instr(Info({0}, {0, 1}, {}, {}, {}, {}, false, false), true, true,
                           (s: seq<u32>, x: bool) => (if |s| > 1 then s[0 := (s[0] + s[1]) % TWO_32] else s, x)))
  {
  }

  /** Direct execution of a straight line of instructions on R0-R14. */
  ghost function Direct<X>(block: seq<Instr<X>>, regs: seq<u32>, x: X): (seq<u32>, X) {
    if block == [] then (regs, x)
    else
      var (regs', x') := Direct(block[..|block| - 1], regs, x);
      block[|block| - 1].run(regs', x')
  }

  function NeededBy<X>(ins: Instr<X>): Regs {
    (ins.info.src - {15}) + ins.info.dst
  }

  /** Registers some instruction from `from` on still uses. */
  ghost predicate NeededFrom<X>(block: seq<Instr<X>>, from: nat, reg: int) {
    exists j :: from <= j < |block| && reg in NeededBy(block[j])
  }

  /** Some instruction from `from` on names the register as a destination, or as a source other than the PC. */
  ghost predicate Named<X>(block: seq<Instr<X>>, from: nat, reg: int) {
    exists j :: from <= j < |block| && (reg in block[j].info.dst || (reg in block[j].info.src && reg != PC))
  }

  lemma NamedIsNeeded<X>(block: seq<Instr<X>>, from: nat)
    ensures forall r :: Named(block, from, r) <==> NeededFrom(block, from, r)
  {
    forall r, j | from <= j < |block| ensures r in NeededBy(block[j]) <==> (r in block[j].info.dst || (r in block[j].info.src && r != PC)) {
    }
  }

  lemma NecessaryAndOptional<X>(ins: Instr<X>, pcAllocatableAsSrc: bool)
    requires WellFormed(ins)
    ensures forall r :: r in Necessary(ins, pcAllocatableAsSrc) <==>
              (r in ins.info.dst || (r in ins.info.src && (r != PC || pcAllocatableAsSrc))) && r !in ins.info.notStrictlyNeeded
    ensures forall r :: r in ins.info.notStrictlyNeeded ==> r in NeededBy(ins)
  {
  }

  /** How many instructions in [from, to) strictly need the register. */
  ghost function Uses<X>(block: seq<Instr<X>>, from: nat, to: nat, reg: int): (n: nat)
    requires from <= to <= |block|
    ensures n <= to - from
  {
    if from == to then 0
    else Uses(block, from, to - 1, reg) +
         if reg in NeededBy(block[to - 1]) - block[to - 1].info.notStrictlyNeeded then 1 else 0
  }

  /** That is the number of later instructions that name the register, as a source other than the PC or as a
      destination, and do not list it as not strictly needed. */
  lemma {:induction false} UsesCounts<X>(block: seq<Instr<X>>, from: nat, to: nat, reg: int)
    requires from <= to <= |block|
    ensures Uses(block, from, to, reg) == |set j | from <= j < to && StrictlyNamed(block[j].info, reg)|
  {
    var uses := set j | from <= j < to && StrictlyNamed(block[j].info, reg);
    if from < to {
      UsesCounts(block, from, to - 1, reg);
      var before := set j | from <= j < to - 1 && StrictlyNamed(block[j].info, reg);
      assert uses == before + if StrictlyNamed(block[to - 1].info, reg) then {to - 1} else {};
    } else {
      assert uses == {};
    }
  }

  predicate StrictlyNamed(info: Info, reg: int) {
    (reg in info.dst || (reg in info.src && reg != PC)) && reg !in info.notStrictlyNeeded
  }

  function Necessary<X>(ins: Instr<X>, pcAllocatableAsSrc: bool): Regs {
    ((if pcAllocatableAsSrc then ins.info.src else ins.info.src - {15}) + ins.info.dst) - ins.info.notStrictlyNeeded
  }

  /** Destinations whose old value the instruction never looks at: their native registers may be
      handed out without loading a value. */
  function FreshDestinations<X>(ins: Instr<X>): Regs {
    if ins.always then ins.info.dst - ins.info.src else {}
  }

  lemma SubsetSize(small: Regs, big: Regs)
    requires small <= big
    ensures |small| <= |big|
    ensures |small| == |big| ==> small == big
  {
    assert big == small + (big - small);
  }

  lemma SplitSize(part: Regs, whole: Regs)
    ensures part <= whole ==> |part| + |whole - part| == |whole|
  {
    if part <= whole {
      assert whole == part + (whole - part);
    }
  }

  lemma {:induction false} DistinctSize(order: seq<int>)
    requires forall i, j :: 0 <= i < j < |order| ==> order[i] != order[j]
    ensures |set i | 0 <= i < |order| :: order[i]| == |order|
  {
    if order != [] {
      var last := |order| - 1;
      DistinctSize(order[..last]);
      var prefix := set i | 0 <= i < last :: order[..last][i];
      assert (set i | 0 <= i < |order| :: order[i]) == prefix + {order[last]};
    }
  }

  /** `mapping` is a bijection between `loaded` and `used`, witnessed by its inverse `owner`. */
  ghost predicate Bijection(mapping: seq<int>, loaded: Regs, used: set<int>, owner: map<int, int>)
  {
    && |mapping| == 16 && InRange(loaded) && owner.Keys == used && |used| == |loaded|
    && (forall r :: 0 <= r < 16 && r !in loaded ==> mapping[r] == -1)
    && (forall r :: r in loaded ==> mapping[r] in used && owner[mapping[r]] == r)
    && (forall n :: n in used ==> owner[n] in loaded && mapping[owner[n]] == n)
  }

  lemma BijectionAfterUnload(mapping: seq<int>, loaded: Regs, used: set<int>, owner: map<int, int>, reg: int)
    requires Bijection(mapping, loaded, used, owner) && reg in loaded
    ensures Bijection(mapping[reg := -1], loaded - {reg}, used - {mapping[reg]}, owner - {mapping[reg]})
    ensures mapping[reg] in used && |mapping| == 16 && InRange(loaded)
  {
  }

  lemma BijectionAfterLoad(mapping: seq<int>, loaded: Regs, used: set<int>, owner: map<int, int>, reg: int, n: int)
    requires Bijection(mapping, loaded, used, owner) && 0 <= reg < 16 && reg !in loaded && n !in used
    ensures Bijection(mapping[reg := n], loaded + {reg}, used + {n}, owner[n := reg])
    ensures |mapping| == 16 && InRange(loaded) && forall r :: r in loaded ==> mapping[r] in used
  {
  }

  lemma BijectionInjective(mapping: seq<int>, loaded: Regs, used: set<int>, owner: map<int, int>, reg: int)
    requires Bijection(mapping, loaded, used, owner) && reg in loaded
    ensures |mapping| == 16 && mapping[reg] in used
    ensures forall r :: 0 <= r < 16 && r != reg && r in loaded ==> mapping[r] != mapping[reg]
  {
  }

  /** Guest register r as the generated code sees it. */
  function Visible(mapping: seq<int>, loaded: Regs, guest: seq<u32>, native: map<int, u32>, r: int): u32
    requires 0 <= r < 16 == |mapping| == |guest|
  {
    if r in loaded && mapping[r] in native then native[mapping[r]] else guest[r]
  }

  lemma VisibleWhenUnloaded(mapping: seq<int>, guest: seq<u32>, native: map<int, u32>)
    requires |mapping| == |guest| == 16
    ensures forall r :: 0 <= r < 15 ==> Visible(mapping, {}, guest, native, r) == guest[r]
  {
  }

  class RegisterCache<!X(!new)> {
    const order: seq<int>               // NativeRegAllocOrder
    const instrs: seq<Instr<X>>
    const pcAllocatableAsSrc: bool

    var mapping: seq<int>               // Mapping[16]: guest register -> native register, -1 when unmapped
    var nativeRegsUsed: set<int>
    var loadedRegs: Regs
    var dirtyRegs: Regs
    var literalsLoaded: Regs
    var literalValues: map<int, u32>

    var guest: seq<u32>                 // R[0..15] of the ARM core
    var native: map<int, u32>           // the native registers that may be allocated

    ghost var owner: map<int, int>      // inverse of `mapping`

    /** Mapping is injective, LoadedRegs is its domain, NativeRegsUsed its image. */
    ghost predicate Valid()
      reads this
    {
      && |guest| == 16 && |mapping| == 16 && InRange(loadedRegs)
      && (forall i, j :: 0 <= i < j < |order| ==> order[i] != order[j])
      && (forall i :: 0 <= i < |order| ==> order[i] in native)
      && Bijection(mapping, loadedRegs, nativeRegsUsed, owner)
      && nativeRegsUsed <= native.Keys && (forall n :: n in nativeRegsUsed ==> n in order)
      && dirtyRegs <= loadedRegs - {15}
      && InRange(literalsLoaded) && literalsLoaded <= literalValues.Keys
    }

    ghost function At(r: int): u32
      requires 0 <= r < 16 == |mapping| == |guest|
      reads this
    {
      Visible(mapping, loadedRegs, guest, native, r)
    }

    /** Clean loaded registers hold the value that is in memory, apart from those in `stale`. */
    ghost predicate CoherentExcept(stale: Regs)
      requires |mapping| == |guest| == 16
      reads this
    {
      forall r :: 0 <= r < 15 && r !in dirtyRegs && r !in stale ==> At(r) == guest[r]
    }

    constructor (order: seq<int>, instrs: seq<Instr<X>>, pcAllocatableAsSrc: bool, guest: seq<u32>, native: map<int, u32>)
      requires |guest| == 16
      requires forall i, j :: 0 <= i < j < |order| ==> order[i] != order[j]
      requires forall i :: 0 <= i < |order| ==> order[i] in native
      ensures Valid() && CoherentExcept({})
      ensures this.order == order && this.instrs == instrs && this.pcAllocatableAsSrc == pcAllocatableAsSrc
      ensures this.guest == guest && this.native == native
      ensures loadedRegs == {} && literalsLoaded == {}
    {
      this.order, this.instrs, this.pcAllocatableAsSrc := order, instrs, pcAllocatableAsSrc;
      this.guest, this.native := guest, native;
      mapping := seq(16, _ => -1);
      nativeRegsUsed, loadedRegs, dirtyRegs, owner := {}, {}, {}, map[];
      literalsLoaded, literalValues := {}, map[];
    }

    /** Write a register back if it is dirty and free its native register.  No register visible to
        the program changes. */
    method UnloadRegister(reg: int, ghost stale: Regs)
      requires Valid() && CoherentExcept(stale) && reg in loadedRegs && reg !in stale
      modifies `dirtyRegs, `loadedRegs, `nativeRegsUsed, `owner, `mapping, `guest
      ensures Valid() && CoherentExcept(stale)
      ensures loadedRegs == old(loadedRegs) - {reg} && dirtyRegs == old(dirtyRegs) - {reg}
      ensures forall r :: 0 <= r < 15 ==> At(r) == old(At(r))
    {
      hide Bijection;
      BijectionAfterUnload(mapping, loadedRegs, nativeRegsUsed, owner, reg);
      if reg in dirtyRegs {
        guest := guest[reg := native[mapping[reg]]];   // SaveReg
      }
      owner := owner - {mapping[reg]};
      dirtyRegs := dirtyRegs - {reg};
      loadedRegs := loadedRegs - {reg};
      nativeRegsUsed := nativeRegsUsed - {mapping[reg]};
      mapping := mapping[reg := -1];
    }

    lemma FreeRegisterExists()
      requires Valid() && |loadedRegs| < |order|
      ensures exists i :: 0 <= i < |order| && order[i] !in nativeRegsUsed
    {
      if forall i :: 0 <= i < |order| ==> order[i] in nativeRegsUsed {
        DistinctSize(order);
        SubsetSize(set i | 0 <= i < |order| :: order[i], nativeRegsUsed);
      }
    }

    /** The body of the allocation loop once a free native register is found. */
    method Bind(reg: int, nativeReg: int, loadValue: bool, ghost stale: Regs)
      requires Valid() && CoherentExcept(stale) && 0 <= reg < 16 && reg !in loadedRegs
      requires nativeReg in native && nativeReg in order && nativeReg !in nativeRegsUsed && (loadValue || reg in stale)
      modifies `loadedRegs, `nativeRegsUsed, `owner, `mapping, `native
      ensures Valid() && CoherentExcept(stale)
      ensures loadedRegs == old(loadedRegs) + {reg} && mapping == old(mapping)[reg := nativeReg]
      ensures forall r :: 0 <= r < 15 && (r != reg || loadValue) ==> At(r) == old(At(r))
    {
      hide Bijection;
      BijectionAfterLoad(mapping, loadedRegs, nativeRegsUsed, owner, reg, nativeReg);
      owner := owner[nativeReg := reg];
      mapping := mapping[reg := nativeReg];
      nativeRegsUsed := nativeRegsUsed + {nativeReg};
      loadedRegs := loadedRegs + {reg};
      if loadValue {
        native := native[nativeReg := guest[reg]];   // LoadReg
      }
    }

    /** Give the register the first free native register in allocation order.  One is always found
        when fewer registers are loaded than there are native ones, so the abort is unreachable. */
    method LoadRegister(reg: int, loadValue: bool, ghost stale: Regs)
      requires Valid() && CoherentExcept(stale) && 0 <= reg < 16 && reg !in loadedRegs
      requires |loadedRegs| < |order| && (loadValue || reg in stale)
      modifies `loadedRegs, `nativeRegsUsed, `owner, `mapping, `native
      ensures Valid() && CoherentExcept(stale)
      ensures loadedRegs == old(loadedRegs) + {reg} && |loadedRegs| == old(|loadedRegs|) + 1
      ensures exists i :: 0 <= i < |order| && mapping == old(mapping)[reg := order[i]] && order[i] !in old(nativeRegsUsed) &&
                          forall k :: 0 <= k < i ==> order[k] in old(nativeRegsUsed)
      ensures forall r :: 0 <= r < 15 && (r != reg || loadValue) ==> At(r) == old(At(r))
    {
      FreeRegisterExists();
      for i := 0 to |order|
        invariant forall k :: 0 <= k < i ==> order[k] in nativeRegsUsed
      {
        var nativeReg := order[i];
        if nativeReg !in nativeRegsUsed {
          Bind(reg, nativeReg, loadValue, stale);
          return;
        }
      }
      assert false;
    }

    method UnloadAll(regs: Regs)
      requires Valid() && CoherentExcept({}) && regs <= loadedRegs
      modifies `dirtyRegs, `loadedRegs, `nativeRegsUsed, `owner, `mapping, `guest
      ensures Valid() && CoherentExcept({})
      ensures loadedRegs == old(loadedRegs) - regs && dirtyRegs == old(dirtyRegs) - regs
      ensures forall r :: 0 <= r < 15 ==> At(r) == old(At(r))
    {
      hide Bijection, Visible;
      ghost var rest := regs;
      for reg := 0 to 16
        invariant Valid() && CoherentExcept({}) && rest <= regs
        invariant forall r :: r in regs ==> (r in rest <==> reg <= r)
        invariant loadedRegs == old(loadedRegs) - (regs - rest)
        invariant dirtyRegs == old(dirtyRegs) - (regs - rest)
        invariant forall r :: 0 <= r < 15 ==> At(r) == old(At(r))
      {
        if reg in regs {
          UnloadRegister(reg, {});
          rest := rest - {reg};
        }
      }
    }

    /** Write back every dirty register and forget the allocation: memory alone now holds R0-R14. */
    method Flush()
      requires Valid() && CoherentExcept({})
      modifies this
      ensures Valid() && CoherentExcept({})
      ensures loadedRegs == {} && literalsLoaded == {}
      ensures forall r :: 0 <= r < 15 ==> guest[r] == old(At(r))
      ensures forall r :: 0 <= r < 15 ==> At(r) == old(At(r))
    {
      UnloadAll(loadedRegs);
      literalsLoaded := {};
    }

    /** Write back every dirty register on a path that leaves the block, keeping the allocation for
        the path that goes on. */
    method PrepareExit()
      requires Valid() && CoherentExcept({})
      modifies `guest
      ensures Valid()
      ensures forall r :: 0 <= r < 15 ==> guest[r] == old(At(r))
    {
      for reg := 0 to 16
        invariant |guest| == 16
        invariant forall r :: 0 <= r < 15 ==> guest[r] == if r < reg && r in dirtyRegs then old(At(r)) else old(guest[r])
      {
        if reg in dirtyRegs {
          BijectionInjective(mapping, loadedRegs, nativeRegsUsed, owner, reg);
          guest := guest[reg := native[mapping[reg]]];   // SaveReg
        }
      }
    }

    /** For every register the number of instructions from i on that strictly need it, and the set
        of registers needed at all. */
    method Rank(i: nat) returns (ranking: seq<int>, futureNeeded: Regs)
      requires i < |instrs| && forall j :: i <= j < |instrs| ==> InRange(NeededBy(instrs[j]))
      ensures |ranking| == 16 && forall r :: 0 <= r < 16 ==> ranking[r] == Uses(instrs, i, |instrs|, r)
      ensures forall r :: 0 <= r < 16 ==> ranking[r] == |set j | i <= j < |instrs| && StrictlyNamed(instrs[j].info, r)|
      ensures forall r :: r in futureNeeded <==> NeededFrom(instrs, i, r)
      ensures forall r :: r in futureNeeded <==>
                exists j :: i <= j < |instrs| && (r in instrs[j].info.dst || (r in instrs[j].info.src && r != PC))
    {
      forall r | 0 <= r < 16 ensures Uses(instrs, i, |instrs|, r) == |set j | i <= j < |instrs| && StrictlyNamed(instrs[j].info, r)| {
        UsesCounts(instrs, i, |instrs|, r);
      }
      futureNeeded := {};
      ranking := seq(16, _ => 0);
      for j := i to |instrs|
        invariant |ranking| == 16 && forall r :: 0 <= r < 16 ==> ranking[r] == Uses(instrs, i, j, r)
        invariant forall r :: r in futureNeeded <==> exists k :: i <= k < j && r in NeededBy(instrs[k])
      {
        var regsNeeded := NeededBy(instrs[j]);
        futureNeeded := futureNeeded + regsNeeded;
        regsNeeded := regsNeeded - instrs[j].info.notStrictlyNeeded;
        var before := ranking;
        for reg := 0 to 16
          invariant |ranking| == 16
          invariant forall r :: 0 <= r < 16 ==>
                      ranking[r] == before[r] + if r < reg && r in regsNeeded then 1 else 0
        {
          if reg in regsNeeded {
            ranking := ranking[reg := ranking[reg] + 1];
          }
        }
      }
    }

    /** The eviction victim: the lowest-ranked loaded register the instruction does not need, the
        lowest-numbered one on ties. */
    method PickVictim(loadedSet: Regs, necessaryRegs: Regs, ranking: seq<int>) returns (leastReg: int)
      requires InRange(loadedSet) && |ranking| == 16 && forall r :: 0 <= r < 16 ==> ranking[r] < 1000
      ensures leastReg == -1 <==> loadedSet <= necessaryRegs
      ensures leastReg != -1 ==>
                && leastReg in loadedSet && leastReg !in necessaryRegs
                && forall r :: r in loadedSet && r !in necessaryRegs ==>
                     ranking[leastReg] < ranking[r] || (ranking[leastReg] == ranking[r] && leastReg <= r)
    {
      leastReg := -1;
      var rank := 1000;
      for reg := 0 to 16
        invariant leastReg == -1 ==> rank == 1000 && forall r :: 0 <= r < reg && r in loadedSet ==> r in necessaryRegs
        invariant leastReg != -1 ==>
                    && leastReg < reg && leastReg in loadedSet && leastReg !in necessaryRegs && rank == ranking[leastReg]
                    && forall r :: 0 <= r < reg && r in loadedSet && r !in necessaryRegs ==>
                         rank < ranking[r] || (rank == ranking[r] && leastReg <= r)
      {
        if reg in loadedSet && reg !in necessaryRegs && ranking[reg] < rank {
          leastReg := reg;
          rank := ranking[reg];
        }
      }
      if leastReg == -1 {
        assert forall r :: r in loadedSet ==> r in necessaryRegs;
      }
    }

    /** Evict until the needed registers fit.  A victim is always found, so the assertion in the
        loop cannot fail, and nothing the instruction needs is evicted. */
    method MakeRoom(necessaryRegs: Regs, neededCount: int, ranking: seq<int>)
      requires Valid() && CoherentExcept({})
      requires neededCount == |necessaryRegs - loadedRegs| && |necessaryRegs| <= |order|
      requires |ranking| == 16 && forall r :: 0 <= r < 16 ==> ranking[r] < 1000
      modifies `dirtyRegs, `loadedRegs, `nativeRegsUsed, `owner, `mapping, `guest
      ensures Valid() && CoherentExcept({})
      ensures loadedRegs <= old(loadedRegs) && old(loadedRegs) * necessaryRegs <= loadedRegs
      ensures |loadedRegs| + neededCount <= |order|
      ensures old(|loadedRegs|) + neededCount <= |order| ==> loadedRegs == old(loadedRegs)
      ensures old(|loadedRegs|) + neededCount > |order| ==> |loadedRegs| + neededCount == |order|
      ensures LeastUsedEvicted(old(loadedRegs), loadedRegs, necessaryRegs, ranking)
      ensures forall r :: 0 <= r < 15 ==> At(r) == old(At(r))
    {
      while |loadedRegs| + neededCount > |order|
        invariant Valid() && CoherentExcept({})
        invariant loadedRegs <= old(loadedRegs) && old(loadedRegs) * necessaryRegs <= loadedRegs
        invariant old(|loadedRegs|) + neededCount <= |order| ==> loadedRegs == old(loadedRegs)
        invariant old(|loadedRegs|) + neededCount > |order| ==> |loadedRegs| + neededCount >= |order|
        invariant LeastUsedEvicted(old(loadedRegs), loadedRegs, necessaryRegs, ranking)
        invariant forall r :: 0 <= r < 15 ==> At(r) == old(At(r))
        decreases |loadedRegs|
      {
        var leastReg := PickVictim(loadedRegs, necessaryRegs, ranking);
        SplitSize(loadedRegs, necessaryRegs);
        assert necessaryRegs - loadedRegs == necessaryRegs - old(loadedRegs);
        UnloadRegister(leastReg, {});
      }
    }

    /** Whatever was evicted comes before everything kept that the instruction does not need, by rank and then by
        number. */
    static ghost predicate LeastUsedEvicted(before: Regs, after: Regs, necessaryRegs: Regs, ranking: seq<int>)
      requires |ranking| == 16
    {
      forall e, k :: e in before - after && k in after - necessaryRegs && 0 <= e < 16 && 0 <= k < 16 ==>
        ranking[e] < ranking[k] || (ranking[e] == ranking[k] && e < k)
    }

    /** Load registers in ascending order, skipping the value of those outside `valued`. */
    method LoadAll(toLoad: Regs, valued: Regs, ghost stale: Regs)
      requires Valid() && CoherentExcept(stale) && InRange(toLoad) && toLoad !! loadedRegs
      requires toLoad - valued <= stale && |loadedRegs| + |toLoad| <= |order|
      modifies `loadedRegs, `nativeRegsUsed, `owner, `mapping, `native
      ensures Valid() && CoherentExcept(stale)
      ensures loadedRegs == old(loadedRegs) + toLoad
      ensures forall r :: 0 <= r < 15 && r !in stale ==> At(r) == old(At(r))
    {
      hide Bijection, Visible;
      ghost var rest := toLoad;
      for reg := 0 to 16
        invariant Valid() && CoherentExcept(stale)
        invariant rest <= toLoad && forall r :: r in toLoad ==> (r in rest <==> reg <= r)
        invariant loadedRegs == old(loadedRegs) + (toLoad - rest)
        invariant |loadedRegs| + |rest| <= |order|
        invariant forall r :: 0 <= r < 15 && r !in stale ==> At(r) == old(At(r))
      {
        if reg in toLoad {
          rest := rest - {reg};
          LoadRegister(reg, reg in valued, stale);
        }
      }
    }

    /** Load wanted registers in ascending order while native registers are left. */
    method LoadWhileRoom(wanted: Regs, valued: Regs, ghost stale: Regs)
      requires Valid() && CoherentExcept(stale) && InRange(wanted) && wanted !! loadedRegs
      requires wanted - valued <= stale && |loadedRegs| <= |order|
      modifies `loadedRegs, `nativeRegsUsed, `owner, `mapping, `native
      ensures Valid() && CoherentExcept(stale)
      ensures old(loadedRegs) <= loadedRegs <= old(loadedRegs) + wanted && |loadedRegs| <= |order|
      ensures wanted <= loadedRegs || |loadedRegs| == |order|
      ensures forall r :: 0 <= r < 15 && r !in stale ==> At(r) == old(At(r))
    {
      hide Bijection, Visible;
      ghost var rest := wanted;
      var left := |order| - |loadedRegs|;
      for reg := 0 to 16
        invariant Valid() && CoherentExcept(stale)
        invariant rest <= wanted && forall r :: r in wanted ==> (r in rest <==> reg <= r)
        invariant loadedRegs == old(loadedRegs) + (wanted - rest)
        invariant left == |order| - |loadedRegs| >= 0
        invariant forall r :: 0 <= r < 15 && r !in stale ==> At(r) == old(At(r))
      {
        if reg in wanted {
          if left == 0 {
            break;
          }
          left := left - 1;
          rest := rest - {reg};
          LoadRegister(reg, reg in valued, stale);
        }
      }
    }

    /** The PC is never kept across instructions, nor is a literal the instruction overwrites. */
    method DropPC(i: nat)
      requires Valid() && CoherentExcept({}) && |loadedRegs| <= |order| && i < |instrs|
      modifies this
      ensures Valid() && CoherentExcept({}) && |loadedRegs| <= |order|
      ensures loadedRegs == old(loadedRegs) - {15} && literalsLoaded == old(literalsLoaded) - instrs[i].info.dst
      ensures forall r :: 0 <= r < 15 ==> At(r) == old(At(r))
    {
      hide Bijection, Visible;
      if 15 in loadedRegs {
        UnloadRegister(15, {});
      }
      literalsLoaded := literalsLoaded - instrs[i].info.dst;
    }

    /** Free every register the rest of the block does not use. */
    method DropUnneeded(i: nat) returns (ranking: seq<int>, futureNeeded: Regs)
      requires Valid() && CoherentExcept({}) && |loadedRegs| <= |order|
      requires i < |instrs| < 1000 && forall j :: i <= j < |instrs| ==> InRange(NeededBy(instrs[j]))
      modifies `dirtyRegs, `loadedRegs, `nativeRegsUsed, `owner, `mapping, `guest
      ensures Valid() && CoherentExcept({}) && |loadedRegs| <= |order|
      ensures |ranking| == 16 && forall r :: 0 <= r < 16 ==> ranking[r] == Uses(instrs, i, |instrs|, r)
      ensures forall r :: r in futureNeeded <==> NeededFrom(instrs, i, r)
      ensures loadedRegs == old(loadedRegs) * futureNeeded
      ensures forall r :: 0 <= r < 15 ==> At(r) == old(At(r))
    {
      hide Bijection, Visible, NeededFrom, Uses;
      ranking, futureNeeded := Rank(i);
      SubsetSize(loadedRegs - (loadedRegs - futureNeeded), loadedRegs);
      UnloadAll(loadedRegs - futureNeeded);
    }

    /** Load what the instruction cannot do without. */
    method LoadNecessary(i: nat, necessaryRegs: Regs, ranking: seq<int>)
      requires Valid() && CoherentExcept({}) && i < |instrs| && WellFormed(instrs[i])
      requires necessaryRegs == Necessary(instrs[i], pcAllocatableAsSrc) && |necessaryRegs| <= |order|
      requires |loadedRegs| <= |order|
      requires |ranking| == 16 && forall r :: 0 <= r < 16 ==> ranking[r] < 1000
      modifies `dirtyRegs, `loadedRegs, `nativeRegsUsed, `owner, `mapping, `guest, `native
      ensures Valid() && CoherentExcept(FreshDestinations(instrs[i])) && |loadedRegs| <= |order|
      ensures necessaryRegs <= loadedRegs <= old(loadedRegs) + necessaryRegs
      ensures LeastUsedEvicted(old(loadedRegs), loadedRegs, necessaryRegs, ranking)
      ensures old(loadedRegs) <= loadedRegs || |loadedRegs| == |order|
      ensures forall r :: 0 <= r < 15 && r !in FreshDestinations(instrs[i]) ==> At(r) == old(At(r))
    {
      hide Bijection, Visible;
      var instr := instrs[i];
      var needToBeLoaded := necessaryRegs - loadedRegs;
      if needToBeLoaded != {} {
        MakeRoom(necessaryRegs, |needToBeLoaded|, ranking);
        assert needToBeLoaded == necessaryRegs - loadedRegs;
        LoadAll(needToBeLoaded, if instr.always then instr.info.src else needToBeLoaded, FreshDestinations(instr));
      }
    }

    /** Load the registers of a block transfer that are not strictly needed, while there is room. */
    method LoadOptional(i: nat, futureNeeded: Regs)
      requires i < |instrs| && WellFormed(instrs[i])
      requires Valid() && CoherentExcept(FreshDestinations(instrs[i])) && |loadedRegs| <= |order|
      modifies `loadedRegs, `nativeRegsUsed, `owner, `mapping, `native
      ensures Valid() && CoherentExcept(FreshDestinations(instrs[i])) && |loadedRegs| <= |order|
      ensures old(loadedRegs) <= loadedRegs <= old(loadedRegs) + instrs[i].info.notStrictlyNeeded * futureNeeded
      ensures instrs[i].info.notStrictlyNeeded * futureNeeded <= loadedRegs || |loadedRegs| == |order|
      ensures forall r :: 0 <= r < 15 && r !in FreshDestinations(instrs[i]) ==> At(r) == old(At(r))
    {
      hide Bijection, Visible;
      var instr := instrs[i];
      var loadRegs := instr.info.notStrictlyNeeded * futureNeeded - loadedRegs;
      if loadRegs != {} && |loadedRegs| < |order| {
        LoadWhileRoom(loadRegs, if instr.always then instr.info.src else loadRegs, FreshDestinations(instr));
      }
    }

    lemma NeededNow(i: nat)
      requires i < |instrs|
      ensures forall r :: r in Necessary(instrs[i], pcAllocatableAsSrc) && r != 15 ==> NeededFrom(instrs, i, r)
    {
      assert forall r :: r in NeededBy(instrs[i]) ==> NeededFrom(instrs, i, r);
    }

    /** Make the native registers ready for instruction i.  Whatever is evicted, written back or
        loaded, no guest register changes its visible value, except destinations whose old value the
        instruction ignores.  Every register the instruction names has a native register of its own then, apart
        from those of a block transfer that found no room, and a register the block still uses is only evicted
        when all native ones are taken. */
    method Prepare(i: nat)
      requires Valid() && CoherentExcept({}) && |loadedRegs| <= |order|
      requires i < |instrs| < 1000 && forall j :: 0 <= j < |instrs| ==> WellFormed(instrs[j])
      requires |Necessary(instrs[i], pcAllocatableAsSrc)| <= |order|
      modifies this
      ensures Valid() && CoherentExcept({}) && |loadedRegs| <= |order|
      ensures forall r :: r in instrs[i].info.dst || (r in instrs[i].info.src && (r != PC || pcAllocatableAsSrc)) ==>
                r in loadedRegs || r in instrs[i].info.notStrictlyNeeded
      ensures forall r :: r in instrs[i].info.notStrictlyNeeded ==> r in loadedRegs || |loadedRegs| == |order|
      ensures forall r :: r in loadedRegs ==> 0 <= r < 16 && mapping[r] in order
      ensures forall r, q :: r in loadedRegs && q in loadedRegs && r != q ==> mapping[r] != mapping[q]
      ensures loadedRegs - old(loadedRegs) <= instrs[i].info.dst + instrs[i].info.src
      ensures forall r :: r in old(loadedRegs) - loadedRegs && r != PC && Named(instrs, i, r) ==> |loadedRegs| == |order|
      ensures forall r :: r in loadedRegs && r != PC ==> Named(instrs, i, r)
      ensures (loadedRegs * instrs[i].info.dst) - {PC} <= dirtyRegs
      ensures literalsLoaded == old(literalsLoaded) - instrs[i].info.dst
      ensures forall r :: 0 <= r < 15 && r !in FreshDestinations(instrs[i]) ==> At(r) == old(At(r))
    {
      hide Bijection, Visible, Valid, CoherentExcept, FreshDestinations;
      ghost var before := loadedRegs;
      Allocate(i);
      MappedApart();
      NamedIsNeeded(instrs, i);
      NecessaryAndOptional(instrs[i], pcAllocatableAsSrc);
    }

    method Allocate(i: nat)
      requires Valid() && CoherentExcept({}) && |loadedRegs| <= |order|
      requires i < |instrs| < 1000 && forall j :: 0 <= j < |instrs| ==> WellFormed(instrs[j])
      requires |Necessary(instrs[i], pcAllocatableAsSrc)| <= |order|
      modifies this
      ensures Valid() && CoherentExcept({}) && |loadedRegs| <= |order|
      ensures Necessary(instrs[i], pcAllocatableAsSrc) <= loadedRegs
      ensures loadedRegs - old(loadedRegs) <= Necessary(instrs[i], pcAllocatableAsSrc) + instrs[i].info.notStrictlyNeeded
      ensures forall r :: r in instrs[i].info.notStrictlyNeeded && NeededFrom(instrs, i, r) ==> r in loadedRegs || |loadedRegs| == |order|
      ensures forall r :: r in old(loadedRegs) - loadedRegs && r != PC && NeededFrom(instrs, i, r) ==> |loadedRegs| == |order|
      ensures (loadedRegs * instrs[i].info.dst) - {PC} <= dirtyRegs
      ensures forall r :: r in loadedRegs && r != PC ==> NeededFrom(instrs, i, r)
      ensures literalsLoaded == old(literalsLoaded) - instrs[i].info.dst
      ensures forall r :: 0 <= r < 15 && r !in FreshDestinations(instrs[i]) ==> At(r) == old(At(r))
    {
      hide Bijection, Visible, NeededFrom, Uses, LeastUsedEvicted, Necessary, WellFormed, FreshDestinations;
      var instr := instrs[i];
      NeededInRange();
      DropPC(i);
      var ranking, futureNeeded := DropUnneeded(i);
      ghost var kept := loadedRegs;
      var necessaryRegs := Necessary(instr, pcAllocatableAsSrc);
      NeededNow(i);
      LoadNecessary(i, necessaryRegs, ranking);
      ghost var full := |loadedRegs| == |order|;
      ghost var next := loadedRegs;
      LoadOptional(i, futureNeeded);
      SubsetSize(next, loadedRegs);
      MarkDirty(i);
    }

    lemma NeededInRange()
      requires forall j :: 0 <= j < |instrs| ==> WellFormed(instrs[j])
      ensures forall j :: 0 <= j < |instrs| ==> InRange(NeededBy(instrs[j]))
    {
    }

    lemma Unmapped()
      requires Valid()
      ensures |mapping| == 16 && 15 !in dirtyRegs && forall i :: 0 <= i <= 15 && i !in loadedRegs ==> mapping[i] == -1
    {
    }

    lemma MappedHere()
      requires Valid()
      ensures |mapping| == 16 && forall r :: r in loadedRegs ==> 0 <= r < 16 && mapping[r] in native
    {
    }

    lemma MappedApart()
      requires Valid()
      ensures forall r :: r in loadedRegs ==> 0 <= r < 16 && mapping[r] in order
      ensures forall r, q :: r in loadedRegs && q in loadedRegs && r != q ==> mapping[r] != mapping[q]
    {
      forall r | r in loadedRegs ensures 0 <= r < 16 && mapping[r] in order {
        var n := mapping[r];
        assert n in nativeRegsUsed;
        assert n in order;
      }
    }

    method MarkDirty(i: nat)
      requires Valid() && i < |instrs| && CoherentExcept(FreshDestinations(instrs[i]))
      modifies `dirtyRegs
      ensures Valid() && CoherentExcept({})
      ensures dirtyRegs == old(dirtyRegs) + (loadedRegs * instrs[i].info.dst - {15})
    {
      dirtyRegs := dirtyRegs + (loadedRegs * instrs[i].info.dst - {15});
    }

    /** Store results: into the native register of a loaded destination, straight into the guest
        register file otherwise. */
    method WriteResults(dst: Regs, results: seq<u32>)
      requires Valid() && CoherentExcept({}) && |results| == 15 && loadedRegs * dst - {15} <= dirtyRegs
      modifies `guest, `native
      ensures Valid() && CoherentExcept({})
      ensures forall r :: 0 <= r < 15 ==> At(r) == if r in dst then results[r] else old(At(r))
    {
      hide Bijection;
      for reg := 0 to 15
        invariant Valid() && CoherentExcept({})
        invariant forall r :: 0 <= r < 15 ==> At(r) == if r < reg && r in dst then results[r] else old(At(r))
      {
        if reg in dst {
          if reg in loadedRegs {
            BijectionInjective(mapping, loadedRegs, nativeRegsUsed, owner, reg);
            native := native[mapping[reg] := results[reg]];
          } else {
            guest := guest[reg := results[reg]];
          }
        }
      }
    }

    /** Run the code emitted for instruction i.  It takes the registers it names from their native registers, only a
        block transfer finds some of its list in memory; fresh destinations hold garbage.  The outcome is that of
        running on the true register values. */
    method Execute(i: nat, x: X, ghost direct: seq<u32>) returns (x': X)
      requires Valid() && CoherentExcept({}) && i < |instrs| && |direct| == 15
      requires Truthful(instrs[i]) && loadedRegs * instrs[i].info.dst - {15} <= dirtyRegs
      requires instrs[i].compiled ==> forall r :: 0 <= r < 15 && StrictlyNamed(instrs[i].info, r) ==> r in loadedRegs
      requires forall r :: 0 <= r < 15 && r !in FreshDestinations(instrs[i]) ==> At(r) == direct[r]
      modifies `guest, `native
      ensures Valid() && CoherentExcept({})
      ensures |instrs[i].run(direct, x).0| == 15 && x' == instrs[i].run(direct, x).1
      ensures forall r :: 0 <= r < 15 ==> At(r) == instrs[i].run(direct, x).0[r]
    {
      hide Bijection;
      MappedHere();
      var m, l, g, n, info, compiled := mapping, loadedRegs, guest, native, instrs[i].info, instrs[i].compiled;
      var seen := seq(15, r requires 0 <= r < 15 => if compiled && StrictlyNamed(info, r) then n[m[r]] else Visible(m, l, g, n, r));
      var out := instrs[i].run(seen, x);
      assert AgreeOn(seen, direct, DependsOn(instrs[i]));
      WriteResults(instrs[i].info.dst, out.0);
      x' := out.1;
    }

    /** What the back ends do with a block: prepare and run each instruction (or flush and call the
        interpreter for it), for the first `count` instructions.  Control then leaves the block, over
        PrepareExit when instructions are left and over the final Flush otherwise.  However registers
        were allocated and evicted on the way, R0-R14 in memory are those of direct execution. */
    method RunBlock(count: nat, x: X) returns (x': X)
      requires Valid() && CoherentExcept({}) && loadedRegs == {}
      requires count <= |instrs| < 1000
      requires forall j :: 0 <= j < |instrs| ==> WellFormed(instrs[j]) && Truthful(instrs[j])
      requires forall j :: 0 <= j < |instrs| ==> |Necessary(instrs[j], pcAllocatableAsSrc)| <= |order|
      modifies this
      ensures |guest| == 16
      ensures (guest[..15], x') == Direct(instrs[..count], old(guest[..15]), x)
    {
      hide Bijection, Visible, Truthful;
      x' := x;
      ghost var direct := guest[..15];
      VisibleWhenUnloaded(mapping, guest, native);
      for i := 0 to count
        invariant Valid() && CoherentExcept({}) && |loadedRegs| <= |order|
        invariant |direct| == 15 && (direct, x') == Direct(instrs[..i], old(guest[..15]), x)
        invariant forall r :: 0 <= r < 15 ==> At(r) == direct[r]
      {
        if instrs[i].compiled {
          Prepare(i);
        } else {
          Flush();
        }
        assert instrs[..i + 1][..i] == instrs[..i];
        ghost var before := x';
        x' := Execute(i, x', direct);
        direct := instrs[i].run(direct, before).0;
      }
      if count < |instrs| {
        PrepareExit();
      } else {
        Flush();
      }
      assert guest[..15] == direct;
    }
  }
}
