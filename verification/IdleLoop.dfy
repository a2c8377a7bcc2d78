/** Idle-loop detection in the JIT (src/ARMJIT.cpp, IsIdleLoop). */
module IdleLoops {
  import opened Machine
  import opened InstrInfo

  /** R0-R14 and the four flags; memory does not change while the loop spins. */
  datatype State = State(regs: seq<u32>, flags: seq<bool>)

  ghost predicate Shaped(s: State) {
    |s.regs| == 15 && |s.flags| == 4
  }

  /** `unconditional` is false for ARM instructions with a condition below 0xE. */
  datatype Instr = Instr(info: Info, unconditional: bool, run: State -> State)

  /** Registers the first n instructions write. */
  ghost function WrittenRegs(instrs: seq<Instr>, n: nat): set<int>
    requires n <= |instrs|
  {
    if n == 0 then {} else WrittenRegs(instrs, n - 1) + instrs[n - 1].info.dst
  }

  lemma {:induction false} WrittenSomewhere(instrs: seq<Instr>, n: nat, r: int)
    requires n <= |instrs|
    ensures r in WrittenRegs(instrs, n) <==> exists k :: 0 <= k < n && r in instrs[k].info.dst
  {
    if n > 0 {
      WrittenSomewhere(instrs, n - 1, r);
    }
  }

  /** Register r is a source of instruction j and nothing before j writes it. */
  ghost predicate ReadFirst(instrs: seq<Instr>, j: nat, r: int)
    requires j < |instrs|
  {
    r != PC && r in instrs[j].info.src && r !in WrittenRegs(instrs, j)
  }

  ghost predicate AcceptsAt(thumb: bool, instrs: seq<Instr>, i: nat)
    requires i < |instrs|
  {
    && !instrs[i].info.writesMem
    && (thumb || !instrs[i].info.system)
    && (i < |instrs| - 1 ==> !instrs[i].info.Branches())
    && forall j, r :: 0 <= j <= i && r in instrs[i].info.dst ==> !ReadFirst(instrs, j, r)
  }

  /** What the detector accepts: no stores, no PSR or coprocessor access, no branch before the last
      instruction, and no instruction writes a register that it or an earlier one read first. */
  ghost predicate Accepted(thumb: bool, instrs: seq<Instr>) {
    forall i :: 0 <= i < |instrs| ==> AcceptsAt(thumb, instrs, i)
  }

  method IsIdleLoop(thumb: bool, instrs: seq<Instr>) returns (idle: bool)
    ensures idle <==> Accepted(thumb, instrs)
  {
    var regsWrittenTo: set<int> := {};
    var regsDisallowedToWrite: set<int> := {};
    for i := 0 to |instrs|
      invariant regsWrittenTo == WrittenRegs(instrs, i) - {PC}
      invariant forall r :: r in regsDisallowedToWrite <==> exists j :: 0 <= j < i && ReadFirst(instrs, j, r)
      invariant forall k :: 0 <= k < i ==> AcceptsAt(thumb, instrs, k)
    {
      if instrs[i].info.writesMem || (!thumb && instrs[i].info.system)
        || (i < |instrs| - 1 && instrs[i].info.Branches()) {
        assert !AcceptsAt(thumb, instrs, i);
        return false;
      }
      var srcRegs := instrs[i].info.src - {PC};
      var dstRegs := instrs[i].info.dst - {PC};
      assert forall r :: r in srcRegs - regsWrittenTo <==> ReadFirst(instrs, i, r);
      regsDisallowedToWrite := regsDisallowedToWrite + (srcRegs - regsWrittenTo);
      assert forall r :: r in regsDisallowedToWrite <==> exists j :: 0 <= j <= i && ReadFirst(instrs, j, r);
      if r :| r in dstRegs && r in regsDisallowedToWrite {
        assert !AcceptsAt(thumb, instrs, i);
        return false;
      }
      assert AcceptsAt(thumb, instrs, i) by {
        forall j, r | 0 <= j <= i && r in instrs[i].info.dst ensures !ReadFirst(instrs, j, r) {
          assert r != PC ==> r in dstRegs;
        }
      }
      regsWrittenTo := regsWrittenTo + dstRegs;
    }
    return true;
  }

  // ---- why an accepted loop is idle ----------------------------------------------------------

  ghost function Run(instrs: seq<Instr>, n: nat, s: State): State
    requires n <= |instrs|
  {
    if n == 0 then s else instrs[n - 1].run(Run(instrs, n - 1, s))
  }

  ghost function Iterate(instrs: seq<Instr>, n: nat, s: State): State {
    if n == 0 then s else Run(instrs, |instrs|, Iterate(instrs, n - 1, s))
  }

  // ---- the places an instruction reads and writes

  /** A register or a flag. */
  datatype Place = R(r: nat) | F(f: nat)

  predicate InState(x: Place) {
    match x
    case R(r) => r < 15
    case F(f) => f < 4
  }

  function Get(s: State, x: Place): int {
    match x
    case R(r) => if r < |s.regs| && r < 15 then s.regs[r] else 0
    case F(f) => if f < |s.flags| && s.flags[f] then 1 else 0
  }

  predicate Reads(ins: Instr, x: Place) {
    match x
    case R(r) => r in ins.info.src
    case F(f) => f in ins.info.read
  }

  predicate Touches(ins: Instr, x: Place) {
    match x
    case R(r) => r in ins.info.dst
    case F(f) => f in ins.info.always || f in ins.info.maybe
  }

  /** Written whenever the instruction is reached. */
  predicate Settles(ins: Instr, x: Place) {
    match x
    case R(r) => r in ins.info.dst && ins.unconditional
    case F(f) => f in ins.info.always
  }

  /** The metadata describes the instruction: runs from states that agree on its sources (the PC is the
      same in every iteration) and on the flags it reads agree on what it settles; anything else it writes is
      written to the same value by both or left alone by both; nothing else changes. */
  ghost predicate Truthful(ins: Instr) {
    && (forall s: State :: Shaped(s) ==> Shaped(ins.run(s)) && Frame(ins, s, ins.run(s)))
    && (forall s: State, t: State {:trigger ins.run(s), ins.run(t)} ::
          Shaped(s) && Shaped(t) && SameInputs(ins, s, t) ==> SameOutputs(ins, s, t, ins.run(s), ins.run(t)))
  }

  ghost predicate Frame(ins: Instr, s: State, s': State) {
    forall x :: InState(x) && !Touches(ins, x) ==> Get(s', x) == Get(s, x)
  }

  ghost predicate SameInputs(ins: Instr, s: State, t: State) {
    forall x :: InState(x) && Reads(ins, x) ==> Get(s, x) == Get(t, x)
  }

  ghost predicate SameOutputs(ins: Instr, s: State, t: State, s': State, t': State) {
    forall x :: InState(x) && Touches(ins, x) ==>
      Get(s', x) == Get(t', x) || (!Settles(ins, x) && Get(s', x) == Get(s, x) && Get(t', x) == Get(t, x))
  }

  ghost predicate AllTruthful(instrs: seq<Instr>) {
    forall i :: 0 <= i < |instrs| ==> Truthful(instrs[i])
  }

  // ---- when the passes repeat

  ghost predicate SettledBefore(instrs: seq<Instr>, i: nat, x: Place)
    requires i <= |instrs|
  {
    exists k :: 0 <= k < i && Settles(instrs[k], x)
  }

  ghost predicate UntouchedFrom(instrs: seq<Instr>, i: nat, x: Place) {
    forall k :: i <= k < |instrs| ==> !Touches(instrs[k], x)
  }

  /** Whatever an instruction reads was settled earlier in the body, or is not written from there to its end. */
  ghost predicate SelfContained(instrs: seq<Instr>) {
    forall i, x :: 0 <= i < |instrs| && InState(x) && Reads(instrs[i], x) ==> SettledBefore(instrs, i, x) || UntouchedFrom(instrs, i, x)
  }

  /** Some earlier instruction always writes the register, or nothing writes it from instruction i on. */
  ghost predicate RegisterReady(instrs: seq<Instr>, i: nat, r: nat)
    requires i <= |instrs|
  {
    || (exists k :: 0 <= k < i && r in instrs[k].info.dst && instrs[k].unconditional)
    || (forall k :: i <= k < |instrs| ==> r !in instrs[k].info.dst)
  }

  ghost predicate FlagReady(instrs: seq<Instr>, i: nat, f: nat)
    requires i <= |instrs|
  {
    || (exists k :: 0 <= k < i && f in instrs[k].info.always)
    || (forall k :: i <= k < |instrs| ==> f !in instrs[k].info.always + instrs[k].info.maybe)
  }

  /** In terms of the metadata alone. */
  lemma SelfContainedMeans(instrs: seq<Instr>)
    ensures SelfContained(instrs) <==>
      && (forall i, r: nat :: 0 <= i < |instrs| && r < 15 && r in instrs[i].info.src ==> RegisterReady(instrs, i, r))
      && (forall i, f: nat :: 0 <= i < |instrs| && f < 4 && f in instrs[i].info.read ==> FlagReady(instrs, i, f))
  {
    forall i, r: nat | 0 <= i < |instrs| ensures RegisterReady(instrs, i, r) <==> SettledBefore(instrs, i, R(r)) || UntouchedFrom(instrs, i, R(r)) {
      RegisterPlace(instrs, i, r);
    }
    forall i, f: nat | 0 <= i < |instrs| ensures FlagReady(instrs, i, f) <==> SettledBefore(instrs, i, F(f)) || UntouchedFrom(instrs, i, F(f)) {
      FlagPlace(instrs, i, f);
    }
    hide RegisterReady, FlagReady, SettledBefore, UntouchedFrom;
    forall i, x | 0 <= i < |instrs| && InState(x) && Reads(instrs[i], x)
      ensures match x case R(r) => r < 15 && r in instrs[i].info.src case F(f) => f < 4 && f in instrs[i].info.read
    {
    }
    forall i, r: nat | 0 <= i < |instrs| && r < 15 && r in instrs[i].info.src ensures InState(R(r)) && Reads(instrs[i], R(r)) {
    }
    forall i, f: nat | 0 <= i < |instrs| && f < 4 && f in instrs[i].info.read ensures InState(F(f)) && Reads(instrs[i], F(f)) {
    }
  }

  lemma RegisterPlace(instrs: seq<Instr>, i: nat, r: nat)
    requires i <= |instrs|
    ensures RegisterReady(instrs, i, r) <==> SettledBefore(instrs, i, R(r)) || UntouchedFrom(instrs, i, R(r))
  {
    assert forall k :: 0 <= k < |instrs| ==> (Settles(instrs[k], R(r)) <==> r in instrs[k].info.dst && instrs[k].unconditional);
    assert forall k :: 0 <= k < |instrs| ==> (Touches(instrs[k], R(r)) <==> r in instrs[k].info.dst);
  }

  lemma FlagPlace(instrs: seq<Instr>, i: nat, f: nat)
    requires i <= |instrs|
    ensures FlagReady(instrs, i, f) <==> SettledBefore(instrs, i, F(f)) || UntouchedFrom(instrs, i, F(f))
  {
    assert forall k :: 0 <= k < |instrs| ==> (Settles(instrs[k], F(f)) <==> f in instrs[k].info.always);
    assert forall k :: 0 <= k < |instrs| ==> (Touches(instrs[k], F(f)) <==> f in instrs[k].info.always + instrs[k].info.maybe);
  }

  /** In a second pass every instruction, the closing branch included, finds the inputs it found in the first. */
  ghost predicate Repeats(instrs: seq<Instr>, s: State) {
    forall i :: 0 <= i < |instrs| ==> SameInputs(instrs[i], Run(instrs, i, s), Run(instrs, i, Run(instrs, |instrs|, s)))
  }

  /** How a run s -> s' relates to a run t -> t' of the same first n instructions: every place is equal in both, or
      not settled and unchanged in both. */
  ghost predicate InStep(instrs: seq<Instr>, n: nat, s: State, t: State, s': State, t': State)
    requires n <= |instrs|
  {
    forall x :: InState(x) ==>
      Get(s', x) == Get(t', x) || (!SettledBefore(instrs, n, x) && Get(s', x) == Get(s, x) && Get(t', x) == Get(t, x))
  }

  lemma TruthfulStep(ins: Instr, s: State, t: State)
    requires Truthful(ins) && Shaped(s) && Shaped(t)
    ensures Shaped(ins.run(s)) && Frame(ins, s, ins.run(s)) && Shaped(ins.run(t)) && Frame(ins, t, ins.run(t))
    ensures SameInputs(ins, s, t) ==> SameOutputs(ins, s, t, ins.run(s), ins.run(t))
  {
  }

  lemma StepInStep(instrs: seq<Instr>, n: nat, s: State, t: State, s': State, t': State)
    requires n < |instrs| && Truthful(instrs[n]) && Shaped(s') && Shaped(t')
    requires InStep(instrs, n, s, t, s', t') && SameInputs(instrs[n], s', t')
    ensures InStep(instrs, n + 1, s, t, instrs[n].run(s'), instrs[n].run(t'))
  {
    hide Truthful, Get, Touches, Settles;
    TruthfulStep(instrs[n], s', t');
    forall x | InState(x) ensures SettledBefore(instrs, n + 1, x) ==> SettledBefore(instrs, n, x) || Settles(instrs[n], x) {
    }
    forall x | Settles(instrs[n], x) ensures Touches(instrs[n], x) {
      SettlingTouches(instrs[n], x);
    }
  }

  lemma SettlingTouches(ins: Instr, x: Place)
    requires Settles(ins, x)
    ensures Touches(ins, x)
  {
  }

  lemma {:induction false} StaysShaped(instrs: seq<Instr>, n: nat, s: State)
    requires n <= |instrs| && AllTruthful(instrs) && Shaped(s)
    ensures Shaped(Run(instrs, n, s))
  {
    hide Truthful, Frame, SameInputs, SameOutputs;
    if n > 0 {
      StaysShaped(instrs, n - 1, s);
      TruthfulStep(instrs[n - 1], Run(instrs, n - 1, s), Run(instrs, n - 1, s));
    }
  }

  /** A place that is not written from instruction i to instruction n keeps its value. */
  lemma {:induction false} UntouchedKeeps(instrs: seq<Instr>, i: nat, n: nat, x: Place, s: State)
    requires i <= n <= |instrs| && AllTruthful(instrs) && Shaped(s) && InState(x) && UntouchedFrom(instrs, i, x)
    ensures Get(Run(instrs, n, s), x) == Get(Run(instrs, i, s), x)
    decreases n
  {
    hide Get, Touches, Truthful;
    if n > i {
      UntouchedKeeps(instrs, i, n - 1, x, s);
      StaysShaped(instrs, n - 1, s);
      TruthfulStep(instrs[n - 1], Run(instrs, n - 1, s), Run(instrs, n - 1, s));
    }
  }

  /** The first n instructions of a second pass, which starts from t, move in step with the first pass from s. */
  lemma {:induction false} PassesInStep(instrs: seq<Instr>, n: nat, s: State, t: State)
    requires n <= |instrs| && AllTruthful(instrs) && SelfContained(instrs) && Shaped(s) && t == Run(instrs, |instrs|, s)
    ensures Shaped(t) && InStep(instrs, n, s, t, Run(instrs, n, s), Run(instrs, n, t))
    ensures n < |instrs| ==> SameInputs(instrs[n], Run(instrs, n, s), Run(instrs, n, t))
  {
    hide Get, Truthful, Touches, Reads;
    StaysShaped(instrs, |instrs|, s);
    if n > 0 {
      PassesInStep(instrs, n - 1, s, t);
      StaysShaped(instrs, n - 1, s);
      StaysShaped(instrs, n - 1, t);
      StepInStep(instrs, n - 1, s, t, Run(instrs, n - 1, s), Run(instrs, n - 1, t));
    }
    if n < |instrs| {
      forall x | InState(x) && Reads(instrs[n], x) ensures Get(Run(instrs, n, s), x) == Get(Run(instrs, n, t), x) {
        if !SettledBefore(instrs, n, x) {
          UntouchedKeeps(instrs, n, |instrs|, x, s);
        }
      }
    }
  }

  lemma SameState(s: State, t: State)
    requires Shaped(s) && Shaped(t) && forall x :: InState(x) ==> Get(s, x) == Get(t, x)
    ensures s == t
  {
    forall r | 0 <= r < 15 ensures s.regs[r] == t.regs[r] {
      assert Get(s, R(r)) == Get(t, R(r));
    }
    forall f | 0 <= f < 4 ensures s.flags[f] == t.flags[f] {
      assert Get(s, F(f)) == Get(t, F(f));
    }
    assert s.regs == t.regs && s.flags == t.flags;
  }

  /** A self-contained body repeats: its second pass finds the same inputs and ends in the same state. */
  lemma OnePassIsEnough(instrs: seq<Instr>, s: State)
    requires SelfContained(instrs) && AllTruthful(instrs) && Shaped(s)
    ensures Repeats(instrs, s)
    ensures Run(instrs, |instrs|, Run(instrs, |instrs|, s)) == Run(instrs, |instrs|, s)
  {
    hide AllTruthful, SelfContained, SameInputs;
    var n := |instrs|;
    var t := Run(instrs, n, s);
    forall i | 0 <= i < n ensures SameInputs(instrs[i], Run(instrs, i, s), Run(instrs, i, t)) {
      PassesInStep(instrs, i, s, t);
    }
    PassesInStep(instrs, n, s, t);
    StaysShaped(instrs, n, t);
    SameState(Run(instrs, n, t), t);
  }

  /** Idle-loop soundness: with memory unchanged, one pass over a self-contained body reaches a fixed point, so any
      number n >= 1 of passes equals one pass. */
  lemma {:induction false} IdleLoopIsIdle(instrs: seq<Instr>, n: nat, s: State)
    requires SelfContained(instrs) && AllTruthful(instrs) && Shaped(s) && n >= 1
    ensures Iterate(instrs, n, s) == Iterate(instrs, 1, s) == Run(instrs, |instrs|, s)
  {
    hide AllTruthful, SelfContained, Run;
    assert Iterate(instrs, 0, s) == s;
    if n > 1 {
      IdleLoopIsIdle(instrs, n - 1, s);
      OnePassIsEnough(instrs, s);
    }
  }

  /** What the detector leaves to be checked: in an accepted body a source register that no earlier instruction names
      as a destination is never written, so only flags and the destinations of conditional instructions are open. */
  ghost predicate OpenReadsSettled(instrs: seq<Instr>) {
    forall i, x :: 0 <= i < |instrs| && InState(x) && Reads(instrs[i], x) && (x.R? ==> x.r in WrittenRegs(instrs, i)) ==>
      SettledBefore(instrs, i, x) || UntouchedFrom(instrs, i, x)
  }

  lemma AcceptedLeavesOpen(thumb: bool, instrs: seq<Instr>)
    requires Accepted(thumb, instrs)
    ensures SelfContained(instrs) <==> OpenReadsSettled(instrs)
  {
    hide Accepted;
    if OpenReadsSettled(instrs) {
      forall i, x | 0 <= i < |instrs| && InState(x) && Reads(instrs[i], x)
        ensures SettledBefore(instrs, i, x) || UntouchedFrom(instrs, i, x)
      {
        if x.R? && x.r !in WrittenRegs(instrs, i) {
          ReadFirstIsNeverWritten(thumb, instrs, i, x.r);
        }
      }
    }
  }

  /** An accepted body never writes a register it reads first. */
  lemma ReadFirstIsNeverWritten(thumb: bool, instrs: seq<Instr>, j: nat, r: nat)
    requires Accepted(thumb, instrs) && j < |instrs| && ReadFirst(instrs, j, r)
    ensures UntouchedFrom(instrs, j, R(r))
  {
    forall k | j <= k < |instrs| ensures !Touches(instrs[k], R(r)) {
      assert AcceptsAt(thumb, instrs, k);
    }
  }

  // ---- the condition is exact: metadata that violates it has an implementation that does not repeat

  /** The same body as far as the detector can see. */
  ghost predicate SameMetadata(a: seq<Instr>, b: seq<Instr>) {
    |a| == |b| && forall k :: 0 <= k < |a| ==> a[k].info == b[k].info && a[k].unconditional == b[k].unconditional
  }

  /** Write zero to everything an instruction may write, but leave `x` alone or, `late`, write one to it. */
  function Marked(ins: Instr, late: bool, x: Place, s: State): State {
    State(seq(|s.regs|, r requires 0 <= r < |s.regs| => if !Touches(ins, R(r)) || (R(r) == x && !late) then s.regs[r] else if R(r) == x then 1 else 0),
          seq(|s.flags|, f requires 0 <= f < |s.flags| => if !Touches(ins, F(f)) || (F(f) == x && !late) then s.flags[f] else F(f) == x))
  }

  function Marker(ins: Instr, late: bool, x: Place): Instr {
    ins.(run := s => Marked(ins, late, x, s))
  }

  lemma MarkedGets(ins: Instr, late: bool, x: Place, s: State, y: Place)
    requires Shaped(s) && InState(y)
    ensures Shaped(Marked(ins, late, x, s))
    ensures Get(Marked(ins, late, x, s), y) == if !Touches(ins, y) || (y == x && !late) then Get(s, y) else if y == x then 1 else 0
  {
  }

  lemma MarkerTruthful(ins: Instr, late: bool, x: Place)
    requires late || !Settles(ins, x)
    ensures Truthful(Marker(ins, late, x))
  {
    hide Get, Touches, Settles, Marked, Shaped, Reads;
    var m := Marker(ins, late, x);
    forall y ensures (Touches(m, y) <==> Touches(ins, y)) && (Settles(m, y) <==> Settles(ins, y)) {
      SameMasks(ins, late, x, y);
    }
    forall s: State | Shaped(s) ensures Shaped(m.run(s)) && Frame(m, s, m.run(s)) {
      MarkedGets(ins, late, x, s, R(0));
      forall y | InState(y) && !Touches(m, y) ensures Get(m.run(s), y) == Get(s, y) {
        MarkedGets(ins, late, x, s, y);
      }
    }
    forall s: State, t: State | Shaped(s) && Shaped(t) && SameInputs(m, s, t) ensures SameOutputs(m, s, t, m.run(s), m.run(t)) {
      forall y | InState(y) && Touches(m, y)
        ensures Get(m.run(s), y) == Get(m.run(t), y) || (!Settles(m, y) && Get(m.run(s), y) == Get(s, y) && Get(m.run(t), y) == Get(t, y))
      {
        MarkedGets(ins, late, x, s, y);
        MarkedGets(ins, late, x, t, y);
      }
    }
  }

  lemma SameMasks(ins: Instr, late: bool, x: Place, y: Place)
    ensures Touches(Marker(ins, late, x), y) <==> Touches(ins, y)
    ensures Settles(Marker(ins, late, x), y) <==> Settles(ins, y)
    ensures Reads(Marker(ins, late, x), y) <==> Reads(ins, y)
  {
  }

  function Markers(instrs: seq<Instr>, i: nat, x: Place): seq<Instr> {
    seq(|instrs|, k requires 0 <= k < |instrs| => Marker(instrs[k], k >= i, x))
  }

  /** Up to instruction i the markers leave x alone; from there on the first to write it makes it one. */
  lemma {:induction false} MarkersRun(instrs: seq<Instr>, i: nat, x: Place, n: nat, s: State)
    requires n <= |instrs| && InState(x) && Shaped(s)
    ensures Shaped(Run(Markers(instrs, i, x), n, s))
    ensures Get(Run(Markers(instrs, i, x), n, s), x) == if exists k :: i <= k < n && Touches(instrs[k], x) then 1 else Get(s, x)
  {
    hide Get, Touches, Marked;
    if n > 0 {
      MarkersRun(instrs, i, x, n - 1, s);
      MarkedGets(instrs[n - 1], n - 1 >= i, x, Run(Markers(instrs, i, x), n - 1, s), x);
      if n > i && !Touches(instrs[n - 1], x) {
        assert (exists k :: i <= k < n && Touches(instrs[k], x)) <==> exists k :: i <= k < n - 1 && Touches(instrs[k], x);
      }
    }
  }

  lemma NotSelfContained(instrs: seq<Instr>) returns (others: seq<Instr>, s: State)
    requires !SelfContained(instrs)
    ensures SameMetadata(instrs, others) && AllTruthful(others) && Shaped(s) && !Repeats(others, s)
  {
    hide Get, Touches, Settles, Reads, Truthful, Run;
    var i, x :| 0 <= i < |instrs| && InState(x) && Reads(instrs[i], x) && !SettledBefore(instrs, i, x) && !UntouchedFrom(instrs, i, x);
    others := Markers(instrs, i, x);
    forall k | 0 <= k < |others| ensures Truthful(others[k]) {
      MarkerTruthful(instrs[k], k >= i, x);
    }
    s := State(seq(15, _ => 0), seq(4, _ => false));
    var t := Run(others, |others|, s);
    MarkersRun(instrs, i, x, i, s);
    MarkersRun(instrs, i, x, |instrs|, s);
    MarkersRun(instrs, i, x, i, t);
    ZeroState(x);
    SameMasks(instrs[i], true, x, x);
    assert others[i] == Marker(instrs[i], true, x);
    assert !SameInputs(others[i], Run(others, i, s), Run(others, i, t));
  }

  lemma ZeroState(x: Place)
    ensures Shaped(State(seq(15, _ => 0), seq(4, _ => false))) && Get(State(seq(15, _ => 0), seq(4, _ => false)), x) == 0
  {
  }

  /** On the metadata alone nothing weaker will do: every truthful body with this metadata repeats from every state
      exactly when the metadata is self-contained. */
  lemma SelfContainedIsExact(instrs: seq<Instr>)
    ensures SelfContained(instrs) <==>
              forall others: seq<Instr>, s: State :: SameMetadata(instrs, others) && AllTruthful(others) && Shaped(s) ==> Repeats(others, s)
  {
    hide SelfContained, AllTruthful, Repeats, SameMetadata;
    if SelfContained(instrs) {
      forall others: seq<Instr>, s: State | SameMetadata(instrs, others) && AllTruthful(others) && Shaped(s) ensures Repeats(others, s) {
        MetadataDecides(instrs, others);
        OnePassIsEnough(others, s);
      }
    } else {
      var others, s := NotSelfContained(instrs);
    }
  }

  /** So a body the detector accepts is idle, whatever its instructions compute, exactly when the reads it leaves open
      are of places settled before or not written any more. */
  lemma AcceptedIsIdleIff(thumb: bool, instrs: seq<Instr>)
    requires Accepted(thumb, instrs)
    ensures OpenReadsSettled(instrs) <==>
              forall others: seq<Instr>, s: State :: SameMetadata(instrs, others) && AllTruthful(others) && Shaped(s) ==> Repeats(others, s)
  {
    hide *;
    AcceptedLeavesOpen(thumb, instrs);
    SelfContainedIsExact(instrs);
  }

  lemma MetadataDecides(a: seq<Instr>, b: seq<Instr>)
    requires SameMetadata(a, b) && SelfContained(a)
    ensures SelfContained(b)
  {
    forall i, x | 0 <= i < |b| && InState(x) && Reads(b[i], x) ensures SettledBefore(b, i, x) || UntouchedFrom(b, i, x) {
      assert Reads(a[i], x);
      if SettledBefore(a, i, x) {
        var k :| 0 <= k < i && Settles(a[k], x);
        assert Settles(b[k], x);
      } else {
        forall k | i <= k < |b| ensures !Touches(b[k], x) {
          assert !Touches(a[k], x);
        }
      }
    }
  }

  // ---- what the detector misses ----------------------------------------------------------------

  function Reg(s: State, r: nat): u32 {
    if r < |s.regs| then s.regs[r] else 0
  }

  function Flag(s: State, f: nat): bool {
    f < |s.flags| && s.flags[f]
  }

  function SetReg(s: State, r: nat, v: u32): State {
    if r < |s.regs| then s.(regs := s.regs[r := v]) else s
  }

  function SetFlag(s: State, f: nat, v: bool): State {
    if f < |s.flags| then s.(flags := s.flags[f := v]) else s
  }

  /** What CompileBlock hands to the detector: the instructions from the target of a conditional backward branch up
      to that branch, two at least. */
  ghost predicate ClosedByBranch(instrs: seq<Instr>) {
    |instrs| >= 2 && !instrs[|instrs| - 1].unconditional && instrs[|instrs| - 1].info.dst == {PC}
  }

  /** BNE to the start of the body. It writes nothing but the PC. */
  const BRANCH_NE: Instr := Instr(Info({PC}, {}, {}, {FLAG_Z}, {}, {}, false, false), false, s => s)

  lemma BranchTruthful()
    ensures Truthful(BRANCH_NE)
  {
    hide Get;
    forall s: State ensures BRANCH_NE.run(s) == s {
    }
  }

  function Rotated(s: State): u32 {
    Reg(s, 1) / 2 + if Flag(s, FLAG_C) then 0x8000_0000 else 0
  }

  /** r0 := C and r1 without bit 0; C := bit 0 of r1; Z and N by the result. */
  function RotateThroughCarry(s: State): State {
    var v := Rotated(s);
    SetFlag(SetFlag(SetFlag(SetReg(s, 0, v), FLAG_C, Reg(s, 1) % 2 == 1), FLAG_Z, v == 0), FLAG_N, v >= 0x8000_0000)
  }

  /** MOVS r0,r1,RRX. */
  const ROTATE: Instr := Instr(Info({0}, {1}, {}, {FLAG_C}, {FLAG_C, FLAG_Z, FLAG_N}, {}, false, false), true, RotateThroughCarry)

  /** MOVS r0,r1,RRX; BNE. */
  const CARRY_LOOP: seq<Instr> := [ROTATE, BRANCH_NE]

  /** The detector looks at registers only.  A truthful body whose only register writer is unconditional reads the
      carry before setting it, and is accepted although its second pass differs from its first. */
  lemma FlagDependenceIsMissed()
    ensures Accepted(false, CARRY_LOOP) && ClosedByBranch(CARRY_LOOP) && AllTruthful(CARRY_LOOP) && CARRY_LOOP[0].unconditional
    ensures exists s :: Shaped(s) && Iterate(CARRY_LOOP, 2, s) != Iterate(CARRY_LOOP, 1, s)
  {
    hide Truthful, Iterate, Run;
    RotateTruthful();
    BranchTruthful();
    CarryLoopDiffers();
    assert WrittenRegs(CARRY_LOOP, 0) == {} && WrittenRegs(CARRY_LOOP, 1) == {0};
  }

  lemma RotateTruthful()
    ensures Truthful(ROTATE)
  {
    hide RotateThroughCarry, Frame, SameInputs, SameOutputs, Shaped;
    forall s: State | Shaped(s) ensures Shaped(ROTATE.run(s)) && Frame(ROTATE, s, ROTATE.run(s)) {
      RotateFrame(s);
    }
    forall s: State, t: State | Shaped(s) && Shaped(t) && SameInputs(ROTATE, s, t)
      ensures Shaped(ROTATE.run(s)) && Shaped(ROTATE.run(t))
      ensures SameOutputs(ROTATE, s, t, ROTATE.run(s), ROTATE.run(t))
    {
      RotateFrame(s);
      RotateFrame(t);
      RotateOutputs(s, t);
    }
  }

  lemma RotateFrame(s: State)
    requires Shaped(s)
    ensures ROTATE.run(s) == RotateThroughCarry(s)
    ensures Shaped(RotateThroughCarry(s)) && Frame(ROTATE, s, RotateThroughCarry(s))
  {
  }

  lemma RotateOutputs(s: State, t: State)
    requires Shaped(s) && Shaped(t) && SameInputs(ROTATE, s, t)
    ensures Shaped(RotateThroughCarry(s)) && Shaped(RotateThroughCarry(t))
    ensures SameOutputs(ROTATE, s, t, RotateThroughCarry(s), RotateThroughCarry(t))
  {
    assert Reads(ROTATE, R(1)) && Reads(ROTATE, F(FLAG_C));
  }

  lemma CarryPass(s: State)
    ensures Run(CARRY_LOOP, 2, s) == RotateThroughCarry(s)
  {
    hide RotateThroughCarry;
    assert Run(CARRY_LOOP, 0, s) == s;
    assert Run(CARRY_LOOP, 1, s) == ROTATE.run(s) == RotateThroughCarry(s);
  }

  lemma CarryLoopDiffers()
    ensures exists s :: Shaped(s) && Iterate(CARRY_LOOP, 2, s) != Iterate(CARRY_LOOP, 1, s)
  {
    hide Run;
    var s := State(seq(15, _ => 3), [false, false, false, false]);
    var s1, s2 := RotateThroughCarry(s), RotateThroughCarry(RotateThroughCarry(s));
    CarryPass(s);
    CarryPass(s1);
    assert Iterate(CARRY_LOOP, 0, s) == s;
    assert Iterate(CARRY_LOOP, 1, s) == s1 && Iterate(CARRY_LOOP, 2, s) == s2;
    assert s1.regs[0] == 1 && s2.regs[0] == 0x8000_0001;
  }

  function CompareR4(s: State): State {
    var v := Reg(s, 4);
    SetFlag(SetFlag(SetFlag(SetFlag(s, FLAG_V, false), FLAG_C, true), FLAG_Z, v == 0), FLAG_N, v >= 0x8000_0000)
  }

  /** N is the top bit of what each of the two computes. */
  lemma SignFlags(s: State)
    requires |s.flags| == 4 && |s.regs| > 4
    ensures Flag(RotateThroughCarry(s), FLAG_N) <==> Rotated(s) / 0x8000_0000 == 1
    ensures Flag(CompareR4(s), FLAG_N) <==> Reg(s, 4) / 0x8000_0000 == 1
  {
  }

  function Moved(s: State, d: nat, a: nat, ifZero: bool): State {
    if ifZero && !Flag(s, FLAG_Z) then s else SetReg(s, d, Reg(s, a))
  }

  /** CMP r4,#0. */
  const COMPARE: Instr := Instr(Info({}, {4}, {}, {}, ALL_FLAGS, {}, false, false), true, CompareR4)

  /** MOV rd,ra or MOVEQ rd,ra. */
  function Move(d: nat, a: nat, ifZero: bool): Instr {
    Instr(Info({d}, {a}, {}, if ifZero then {FLAG_Z} else {}, {}, {}, false, false), !ifZero, s => Moved(s, d, a, ifZero))
  }

  /** CMP r4,#0; MOVEQ r0,r2; MOV r1,r0; MOV r0,r3; BNE. */
  function ConditionalLoop(): seq<Instr> {
    [COMPARE, Move(0, 2, true), Move(1, 0, false), Move(0, 3, false), BRANCH_NE]
  }

  /** A register a skipped conditional instruction would have written counts as written, so a body that
      reads it afterwards is accepted although its second pass differs from its first. */
  lemma ConditionalWriteIsMissed()
    ensures Accepted(false, ConditionalLoop()) && ClosedByBranch(ConditionalLoop()) && AllTruthful(ConditionalLoop())
    ensures exists s :: Shaped(s) && Iterate(ConditionalLoop(), 2, s) != Iterate(ConditionalLoop(), 1, s)
  {
    hide Truthful, Iterate, Run, Accepted, Move;
    ConditionalLoopAccepted();
    ConditionalLoopDiffers();
    CompareTruthful();
    MoveTruthful(0, 2, true);
    MoveTruthful(1, 0, false);
    MoveTruthful(0, 3, false);
    BranchTruthful();
  }

  lemma CompareTruthful()
    ensures Truthful(COMPARE)
  {
    hide CompareR4, Frame, SameInputs, SameOutputs, Shaped;
    forall s: State | Shaped(s) ensures Shaped(COMPARE.run(s)) && Frame(COMPARE, s, COMPARE.run(s)) {
      CompareFrame(s);
    }
    forall s: State, t: State | Shaped(s) && Shaped(t) && SameInputs(COMPARE, s, t)
      ensures Shaped(COMPARE.run(s)) && Shaped(COMPARE.run(t))
      ensures SameOutputs(COMPARE, s, t, COMPARE.run(s), COMPARE.run(t))
    {
      CompareFrame(s);
      CompareFrame(t);
      CompareOutputs(s, t);
    }
  }

  lemma CompareFrame(s: State)
    requires Shaped(s)
    ensures COMPARE.run(s) == CompareR4(s)
    ensures Shaped(CompareR4(s)) && Frame(COMPARE, s, CompareR4(s))
  {
  }

  lemma CompareOutputs(s: State, t: State)
    requires Shaped(s) && Shaped(t) && SameInputs(COMPARE, s, t)
    ensures Shaped(CompareR4(s)) && Shaped(CompareR4(t))
    ensures SameOutputs(COMPARE, s, t, CompareR4(s), CompareR4(t))
  {
    assert Reads(COMPARE, R(4));
  }

  lemma MoveTruthful(d: nat, a: nat, ifZero: bool)
    requires d < 15 && a < 15
    ensures Truthful(Move(d, a, ifZero))
  {
    hide Moved, Frame, SameInputs, SameOutputs, Shaped, Move;
    var move := Move(d, a, ifZero);
    forall s: State | Shaped(s) ensures Shaped(move.run(s)) && Frame(move, s, move.run(s)) {
      MoveFrame(s, d, a, ifZero);
    }
    forall s: State, t: State | Shaped(s) && Shaped(t) && SameInputs(move, s, t)
      ensures Shaped(move.run(s)) && Shaped(move.run(t))
      ensures SameOutputs(move, s, t, move.run(s), move.run(t))
    {
      MoveFrame(s, d, a, ifZero);
      MoveFrame(t, d, a, ifZero);
      MoveOutputs(s, t, d, a, ifZero);
    }
  }

  lemma MoveFrame(s: State, d: nat, a: nat, ifZero: bool)
    requires Shaped(s) && d < 15 && a < 15
    ensures Move(d, a, ifZero).run(s) == Moved(s, d, a, ifZero)
    ensures Shaped(Moved(s, d, a, ifZero)) && Frame(Move(d, a, ifZero), s, Moved(s, d, a, ifZero))
  {
  }

  lemma MoveOutputs(s: State, t: State, d: nat, a: nat, ifZero: bool)
    requires Shaped(s) && Shaped(t) && d < 15 && a < 15 && SameInputs(Move(d, a, ifZero), s, t)
    ensures Shaped(Moved(s, d, a, ifZero)) && Shaped(Moved(t, d, a, ifZero))
    ensures SameOutputs(Move(d, a, ifZero), s, t, Moved(s, d, a, ifZero), Moved(t, d, a, ifZero))
  {
    assert Reads(Move(d, a, ifZero), R(a)) && (ifZero ==> Reads(Move(d, a, ifZero), F(FLAG_Z)));
  }

  lemma ConditionalLoopAccepted()
    ensures Accepted(false, ConditionalLoop())
  {
    var body := ConditionalLoop();
    assert WrittenRegs(body, 0) == {} && WrittenRegs(body, 1) == {};
    assert WrittenRegs(body, 2) == {0} && WrittenRegs(body, 3) == WrittenRegs(body, 4) == {0, 1};
  }

  lemma ConditionalLoopDiffers()
    ensures exists s :: Shaped(s) && Iterate(ConditionalLoop(), 2, s) != Iterate(ConditionalLoop(), 1, s)
  {
    hide Run, ConditionalLoop;
    var s := State([7, 0, 0, 9, 1, 0, 0, 0, 0, 0, 0, 0, 0, 0, 0], [false, true, false, false]);
    var t := State([9, 7, 0, 9, 1, 0, 0, 0, 0, 0, 0, 0, 0, 0, 0], [false, true, false, false]);
    var u := State([9, 9, 0, 9, 1, 0, 0, 0, 0, 0, 0, 0, 0, 0, 0], [false, true, false, false]);
    ConditionalPass(s, t);
    ConditionalPass(t, u);
    var body := ConditionalLoop();
    assert Iterate(body, 0, s) == s;
    assert Iterate(body, 1, s) == t && Iterate(body, 2, s) == u;
    assert t.regs[1] != u.regs[1];
  }

  lemma RunStep(instrs: seq<Instr>, n: nat, s: State, u: State)
    requires n < |instrs| && Run(instrs, n, s) == u
    ensures Run(instrs, n + 1, s) == instrs[n].run(u)
  {
  }

  lemma SkippedSteps(s: State)
    requires Shaped(s) && s.regs[4] == 1 && s.flags == [false, true, false, false]
    ensures CompareR4(s) == s && COMPARE.run(s) == s && Move(0, 2, true).run(s) == s
  {
    assert s.flags[FLAG_V := false][FLAG_C := true][FLAG_Z := false][FLAG_N := false] == s.flags;
  }

  lemma MoveSteps(s: State)
    requires Shaped(s)
    ensures Move(1, 0, false).run(s) == SetReg(s, 1, s.regs[0]) && Move(0, 3, false).run(s) == SetReg(s, 0, s.regs[3])
  {
  }

  lemma ConditionalPass(s: State, t: State)
    requires Shaped(s) && s.regs[4] == 1 && s.flags == [false, true, false, false]
    requires t == SetReg(SetReg(s, 1, s.regs[0]), 0, s.regs[3])
    ensures |ConditionalLoop()| == 5 && Run(ConditionalLoop(), 5, s) == t
  {
    hide Move, Run, ConditionalLoop, SetReg;
    var body := ConditionalLoop();
    TheLoop();
    var moved := SetReg(s, 1, s.regs[0]);
    SetsOther(s, 1, s.regs[0], 3);
    SkippedSteps(s);
    MoveSteps(s);
    MoveSteps(moved);
    NoSteps(body, s);
    RunStep(body, 0, s, s);
    RunStep(body, 1, s, s);
    RunStep(body, 2, s, s);
    RunStep(body, 3, s, moved);
    RunStep(body, 4, s, t);
  }

  lemma TheLoop()
    ensures |ConditionalLoop()| == 5 && ConditionalLoop()[4] == BRANCH_NE && ConditionalLoop()[0] == COMPARE && ConditionalLoop()[1] == Move(0, 2, true)
    ensures ConditionalLoop()[2] == Move(1, 0, false) && ConditionalLoop()[3] == Move(0, 3, false)
  {
  }

  lemma SetsOther(s: State, r: nat, v: u32, q: nat)
    requires Shaped(s) && q < 15 && q != r
    ensures Shaped(SetReg(s, r, v)) && SetReg(s, r, v).regs[q] == s.regs[q]
  {
  }

  lemma NoSteps(instrs: seq<Instr>, s: State)
    ensures Run(instrs, 0, s) == s
  {
  }
}
