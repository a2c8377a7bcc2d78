/** Dead-flag elimination in the JIT (src/ARMJIT.cpp, FloodFillSetFlags and its calls).

    Four-bit flag masks are sets over {0,1,2,3} (V, C, Z, N).  A CPU flag state is the set of flags
    that are 1. */
module DeadFlags {
  import opened InstrInfo

  type Flags = set<int>

  /** Flag metadata of an instruction.  `readsAll` is secondaryFlagReadCond: the interpreter is called for it, or it is a
      conditional branch the block follows.  `interpreted` marks the first of these two cases. */
  datatype Instr<!X> = Instr(
    info: Info,
    readsAll: bool, interpreted: bool,
    run: (Flags, X) -> (Flags, X))

  function Demand<X>(ins: Instr<X>): Flags {
    if ins.readsAll then ALL_FLAGS else ins.info.read
  }

  function Written<X>(ins: Instr<X>): Flags {
    ins.info.always + ins.info.maybe
  }

  /** Flags of `flags` that no instruction in [i, end) always writes. */
  ghost function Through<X>(instrs: seq<Instr<X>>, i: nat, end: nat, flags: Flags): Flags
    requires i <= end <= |instrs|
    decreases end - i
  {
    if i == end then flags else Through(instrs, i + 1, end, flags) - instrs[i].info.always
  }

  /** Backward liveness: the flags whose values matter just before instruction i, when those in
      `exit` matter after the instructions up to `end`. */
  ghost function Live<X>(instrs: seq<Instr<X>>, i: nat, end: nat, exit: Flags): Flags
    requires i <= end <= |instrs|
    decreases end - i
  {
    if i == end then exit
    else Demand(instrs[i]) + (Live(instrs, i + 1, end, exit) - instrs[i].info.always)
  }

  lemma ThroughStep<X>(instrs: seq<Instr<X>>, i: nat, end: nat, flags: Flags)
    requires i <= end <= |instrs|
    ensures Through(instrs, i, end, flags) == if i == end then flags else Through(instrs, i + 1, end, flags) - instrs[i].info.always
  {
  }

  lemma LiveStep<X>(instrs: seq<Instr<X>>, i: nat, end: nat, exit: Flags)
    requires i <= end <= |instrs|
    ensures Live(instrs, i, end, exit) ==
            if i == end then exit else Demand(instrs[i]) + (Live(instrs, i + 1, end, exit) - instrs[i].info.always)
  {
  }

  lemma {:induction false} LiveUnion<X>(instrs: seq<Instr<X>>, i: nat, end: nat, exit: Flags)
    requires i <= end <= |instrs|
    ensures Live(instrs, i, end, exit) == Live(instrs, i, end, {}) + Through(instrs, i, end, exit)
    decreases end - i
  {
    if i < end {
      LiveUnion(instrs, i + 1, end, exit);
    }
  }

  lemma {:induction false} LiveOneMore<X>(instrs: seq<Instr<X>>, i: nat, end: nat)
    requires i <= end < |instrs|
    ensures Live(instrs, i, end + 1, {}) == Live(instrs, i, end, {}) + Through(instrs, i, end, Demand(instrs[end]))
    decreases end - i
  {
    if i < end {
      LiveOneMore(instrs, i + 1, end);
    }
  }

  /** Point p demands flag f, and nothing from i up to p always overwrites it. */
  ghost predicate Reaches<X>(instrs: seq<Instr<X>>, i: nat, p: nat, exit: Flags, f: int)
    requires i <= p <= |instrs|
  {
    && f in (if p < |instrs| then Demand(instrs[p]) else exit)
    && forall k :: i <= k < p ==> f !in instrs[k].info.always
  }

  /** A flag is live exactly when some later point demands it and nothing before that point always
      overwrites it. */
  lemma {:induction false} LiveMeansDemanded<X>(instrs: seq<Instr<X>>, i: nat, exit: Flags, f: int)
    requires i <= |instrs|
    ensures f in Live(instrs, i, |instrs|, exit) <==> exists p :: i <= p <= |instrs| && Reaches(instrs, i, p, exit, f)
    decreases |instrs| - i
  {
    if i == |instrs| {
      assert f in exit <==> Reaches(instrs, i, i, exit, f);
    } else {
      LiveMeansDemanded(instrs, i + 1, exit, f);
      assert f in Demand(instrs[i]) <==> Reaches(instrs, i, i, exit, f);
      forall p | i < p <= |instrs|
        ensures Reaches(instrs, i, p, exit, f) <==> f !in instrs[i].info.always && Reaches(instrs, i + 1, p, exit, f)
      {
      }
      if p :| i <= p <= |instrs| && Reaches(instrs, i, p, exit, f) && p > i {
        assert Reaches(instrs, i + 1, p, exit, f);
      }
      var j := i + 1;
      if p :| j <= p <= |instrs| && Reaches(instrs, j, p, exit, f) && f !in instrs[i].info.always {
        assert Reaches(instrs, i, p, exit, f);
      }
    }
  }

  lemma MarkingStep(set0: Flags, always: Flags, maybe: Flags, flags: Flags)
    ensures set0 + maybe * flags + always * flags == set0 + (always + maybe) * flags
    ensures always * flags == {} ==> set0 + maybe * flags == set0 + (always + maybe) * flags
    ensures flags - always * flags == flags - always
  {
    assert (always + maybe) * flags == always * flags + maybe * flags;
  }

  /** Walk back from `start`, marking writers of the wanted flags until each has met an instruction
      that always writes it. */
  method FloodFillSetFlags<X>(instrs: seq<Instr<X>>, setFlags: array<Flags>, start: int, wanted: Flags)
    requires -1 <= start < |instrs| <= setFlags.Length
    modifies setFlags
    ensures forall j :: 0 <= j <= start ==>
              setFlags[j] == old(setFlags[j]) + (Written(instrs[j]) * Through(instrs, j + 1, start + 1, wanted))
    ensures forall j :: start < j < setFlags.Length ==> setFlags[j] == old(setFlags[j])
  {
    hide Through;
    ThroughStep(instrs, start + 1, start + 1, wanted);
    var flags := wanted;
    var j := start;
    while j >= 0
      invariant -1 <= j <= start
      invariant flags == Through(instrs, j + 1, start + 1, wanted)
      invariant forall k :: j < k <= start ==>
                  setFlags[k] == old(setFlags[k]) + (Written(instrs[k]) * Through(instrs, k + 1, start + 1, wanted))
      invariant forall k :: 0 <= k < setFlags.Length && (k <= j || k > start) ==> setFlags[k] == old(setFlags[k])
    {
      MarkingStep(setFlags[j], instrs[j].info.always, instrs[j].info.maybe, flags);
      ThroughStep(instrs, j, start + 1, wanted);
      var matched := instrs[j].info.always * flags;
      var matchMaybe := instrs[j].info.maybe * flags;
      setFlags[j] := setFlags[j] + matchMaybe;
      if matched != {} {
        setFlags[j] := setFlags[j] + matched;
        flags := flags - matched;
        if flags == {} {
          ThroughOfNothing(instrs, j, start + 1, wanted);
          return;
        }
      }
      j := j - 1;
    }
  }

  /** Once nothing is wanted any more, nothing further back is marked. */
  lemma {:induction false} ThroughOfNothing<X>(instrs: seq<Instr<X>>, i: nat, end: nat, flags: Flags)
    requires i <= end <= |instrs| && Through(instrs, i, end, flags) == {}
    ensures forall k :: 0 <= k <= i ==> Through(instrs, k, end, flags) == {}
  {
    if i > 0 {
      ThroughOfNothing(instrs, i - 1, end, flags);
    }
  }

  /** The marking a finished block carries: each instruction keeps exactly the flags it writes that
      are live after it. */
  ghost predicate Marked<X>(instrs: seq<Instr<X>>, setFlags: seq<Flags>, exit: Flags) {
    |setFlags| == |instrs| &&
    forall j :: 0 <= j < |instrs| ==> setFlags[j] == Written(instrs[j]) * Live(instrs, j + 1, |instrs|, exit)
  }

  /** The calls CompileBlock makes: one per appended instruction for what it reads, one at the end for
      the state the block leaves behind. */
  method MarkBlock<X>(instrs: seq<Instr<X>>, setFlags: array<Flags>)
    requires setFlags.Length == |instrs|
    modifies setFlags
    ensures Marked(instrs, setFlags[..], ALL_FLAGS)
  {
    hide Live, Through;
    for i := 0 to |instrs|
      invariant forall j :: 0 <= j < i ==> setFlags[j] == Written(instrs[j]) * Live(instrs, j + 1, i, {})
    {
      setFlags[i] := {};
      ghost var before := setFlags[..];
      if instrs[i].info.read != {} || instrs[i].readsAll {
        FloodFillSetFlags(instrs, setFlags, i - 1, if !instrs[i].readsAll then instrs[i].info.read else ALL_FLAGS);
      } else {
        ThroughStep(instrs, i, i, {});
        ThroughOfNothing(instrs, i, i, {});
      }
      LiveStep(instrs, i + 1, i + 1, {});
      forall j | 0 <= j < i
        ensures setFlags[j] == Written(instrs[j]) * Live(instrs, j + 1, i + 1, {})
      {
        LiveOneMore(instrs, j + 1, i);
        assert setFlags[j] == before[j] + Written(instrs[j]) * Through(instrs, j + 1, i, Demand(instrs[i]));
      }
    }
    ghost var before := setFlags[..];
    FloodFillSetFlags(instrs, setFlags, |instrs| - 1, ALL_FLAGS);
    forall j | 0 <= j < |instrs|
      ensures setFlags[j] == Written(instrs[j]) * Live(instrs, j + 1, |instrs|, ALL_FLAGS)
    {
      LiveUnion(instrs, j + 1, |instrs|, ALL_FLAGS);
      assert setFlags[j] == before[j] + Written(instrs[j]) * Through(instrs, j + 1, |instrs|, ALL_FLAGS);
    }
  }

  // ---- meaning --------------------------------------------------------------------------------

  ghost predicate AgreeOn(a: Flags, b: Flags, on: Flags) {
    forall f :: f in on ==> (f in a <==> f in b)
  }

  /** The metadata describes the instruction: flags outside Written keep their value; started from
      flag states that agree on what is read, the rest of the machine ends the same, and so does every
      flag that is always written or was equal before. */
  ghost predicate Truthful<X(!new)>(ins: Instr<X>) {
    && (ins.interpreted ==> ins.readsAll)
    && (forall a: Flags, x: X :: AgreeOn(a, ins.run(a, x).0, ALL_FLAGS - Written(ins)))
    && (forall a: Flags, b: Flags, x: X {:trigger ins.run(a, x), ins.run(b, x)} ::
          AgreeOn(a, b, ins.info.read) ==>
            && ins.run(a, x).1 == ins.run(b, x).1
            && forall f :: f in ALL_FLAGS && (f in ins.info.always || (f in a <==> f in b)) ==>
                 (f in ins.run(a, x).0 <==> f in ins.run(b, x).0))
  }

  /** ADCS, as far as its flags go: C decides the sum, and all four flags are written. */
  lemma AdcsIsTruthful()
    ensures Truthful(Instr(Info({0}, {1, 2}, {}, {FLAG_C}, ALL_FLAGS, {}, false, false), false, false,
                           (c: Flags, x: int) => (if FLAG_C in c && x >= 0 then {FLAG_Z} else {FLAG_N, FLAG_C}, if FLAG_C in c then x + 1 else x)))
  {
  }

  /** MOVEQS: C is written only when Z is set; the other flags stay. */
  lemma ConditionalMoveIsTruthful()
    ensures Truthful(Instr(Info({0}, {1}, {}, {FLAG_Z}, {}, {FLAG_C}, false, false), true, true,
                           (c: Flags, x: bool) => (if FLAG_Z !in c then c else if x then c + {FLAG_C} else c - {FLAG_C}, !x)))
  {
  }

  /** Full execution of the first n instructions. */
  ghost function Full<X>(instrs: seq<Instr<X>>, n: nat, flags: Flags, x: X): (Flags, X)
    requires n <= |instrs|
  {
    if n == 0 then (flags, x)
    else var (c, y) := Full(instrs, n - 1, flags, x); instrs[n - 1].run(c, y)
  }

  /** Execution of compiled code: an instruction commits only its marked flags, the other flags it
      writes become garbage; the interpreter commits everything. */
  ghost function Compiled<X>(instrs: seq<Instr<X>>, setFlags: seq<Flags>, garbage: seq<Flags>, n: nat, flags: Flags, x: X): (Flags, X)
    requires n <= |instrs| == |setFlags| == |garbage|
  {
    if n == 0 then (flags, x)
    else
      var (c, y) := Compiled(instrs, setFlags, garbage, n - 1, flags, x);
      var ins := instrs[n - 1];
      var (out, y') := ins.run(c, y);
      if ins.interpreted then (out, y')
      else
        var dropped := Written(ins) - setFlags[n - 1];
        ((out - dropped) + (garbage[n - 1] * dropped), y')
  }

  /** What the last compiled instruction leaves: any value in the flags it writes without their being marked, unless the
      interpreter runs it, and the instruction's own outcome in the others. */
  lemma GarbageIsAny<X>(instrs: seq<Instr<X>>, setFlags: seq<Flags>, garbage: seq<Flags>, n: nat, flags: Flags, x: X, f: int)
    requires 0 < n <= |instrs| == |setFlags| == |garbage|
    ensures var ins := instrs[n - 1];
            var (c, y) := Compiled(instrs, setFlags, garbage, n - 1, flags, x);
            f in Compiled(instrs, setFlags, garbage, n, flags, x).0
            <==> f in (if !ins.interpreted && f in ins.info.always + ins.info.maybe && f !in setFlags[n - 1] then garbage[n - 1] else ins.run(c, y).0)
  {
  }

  /** Dead-flag elimination preserves meaning: whatever garbage the dropped flags hold, before every
      instruction the compiled block agrees with full execution on the flags that instruction reads
      (all four before an interpreter call or a followed conditional branch), on all four flags at the
      end, and on the rest of the machine throughout. */
  lemma {:induction false} EliminationPreservesMeaning<X(!new)>(
      instrs: seq<Instr<X>>, setFlags: seq<Flags>, garbage: seq<Flags>, n: nat, flags: Flags, x: X)
    requires Marked(instrs, setFlags, ALL_FLAGS) && |garbage| == |instrs| && n <= |instrs|
    requires forall j :: 0 <= j < |instrs| ==> Truthful(instrs[j]) && Written(instrs[j]) <= ALL_FLAGS && instrs[j].info.read <= ALL_FLAGS
    ensures Compiled(instrs, setFlags, garbage, n, flags, x).1 == Full(instrs, n, flags, x).1
    ensures AgreeOn(Compiled(instrs, setFlags, garbage, n, flags, x).0, Full(instrs, n, flags, x).0,
                    if n < |instrs| then Demand(instrs[n]) else ALL_FLAGS)
    ensures AgreeOn(Compiled(instrs, setFlags, garbage, n, flags, x).0, Full(instrs, n, flags, x).0,
                    Live(instrs, n, |instrs|, ALL_FLAGS))
  {
    hide Live, Truthful;
    LiveStep(instrs, n, |instrs|, ALL_FLAGS);
    if n > 0 {
      LiveStep(instrs, n - 1, |instrs|, ALL_FLAGS);
      EliminationPreservesMeaning(instrs, setFlags, garbage, n - 1, flags, x);
      var jit := Compiled(instrs, setFlags, garbage, n - 1, flags, x);
      var full := Full(instrs, n - 1, flags, x);
      LiveInRange(instrs, n);
      assert setFlags[n - 1] == Written(instrs[n - 1]) * Live(instrs, n, |instrs|, ALL_FLAGS);
      StepAgrees(instrs[n - 1], setFlags[n - 1], garbage[n - 1], jit.0, full.0, full.1, Live(instrs, n, |instrs|, ALL_FLAGS));
    }
  }

  lemma {:induction false} LiveInRange<X>(instrs: seq<Instr<X>>, i: nat)
    requires i <= |instrs| && forall j :: 0 <= j < |instrs| ==> instrs[j].info.read <= ALL_FLAGS
    ensures Live(instrs, i, |instrs|, ALL_FLAGS) <= ALL_FLAGS
    decreases |instrs| - i
  {
    if i < |instrs| {
      LiveInRange(instrs, i + 1);
    }
  }

  lemma StepAgrees<X(!new)>(ins: Instr<X>, setFlags: Flags, garbage: Flags, jit: Flags, full: Flags, x: X, live: Flags)
    requires Truthful(ins) && live <= ALL_FLAGS && setFlags == Written(ins) * live
    requires AgreeOn(jit, full, Demand(ins) + (live - ins.info.always)) && ins.info.read <= ALL_FLAGS
    ensures ins.run(jit, x).1 == ins.run(full, x).1
    ensures var dropped := Written(ins) - setFlags;
            AgreeOn(if ins.interpreted then ins.run(jit, x).0 else (ins.run(jit, x).0 - dropped) + (garbage * dropped),
                    ins.run(full, x).0, live)
  {
    assert AgreeOn(jit, full, ins.info.read);
  }
}
