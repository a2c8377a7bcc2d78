/** The Action Replay interpreter (src/AREngine.cpp). What it does to the machine is the list of its bus
    writes; what it reads may depend in any way on the writes before. */
module CheatEngine {
  import opened Machine
  import Division

  datatype Access = Write(size: nat, addr: u32, val: u32)
  type Bus = (seq<Access>, nat, u32) -> u32

  // ---- the shape of a cheat

  function Op(a: u32): u8 {
    a / 0x100_0000
  }

  predicate IsCopy(op: u8) {
    op / 0x10 == 0xE
  }

  /** The words of payload behind a copy opcode: the bytes rounded up to pairs of words. */
  function Payload(b: u32): nat {
    (b + 7) / 8 * 2
  }

  /** The words an opcode takes up, its payload included. */
  function Length(code: seq<u32>, pc: nat): nat
    requires pc + 2 <= |code|
  {
    2 + if IsCopy(Op(code[pc])) then Payload(code[pc + 1]) else 0
  }

  /** From pc on the code is a sequence of whole opcodes. */
  predicate WellFormed(code: seq<u32>, pc: nat)
    decreases |code| - pc
  {
    pc == |code| || (pc + 2 <= |code| && pc + Length(code, pc) <= |code| && WellFormed(code, pc + Length(code, pc)))
  }

  /** Whether an opcode starts at `pc`, walking from `at`. */
  predicate Boundary(code: seq<u32>, at: nat, pc: nat)
    decreases |code| - at
  {
    at == pc || (at + 2 <= |code| && Boundary(code, at + Length(code, at), pc))
  }

  lemma {:induction false} NextBoundary(code: seq<u32>, at: nat, pc: nat)
    requires WellFormed(code, at) && Boundary(code, at, pc)
    ensures WellFormed(code, pc) && at <= pc
    ensures pc < |code| ==> pc + 2 <= |code| && pc + Length(code, pc) <= |code| && Boundary(code, at, pc + Length(code, pc))
    decreases |code| - at
  {
    if at != pc {
      NextBoundary(code, at + Length(code, at), pc);
    }
  }

  /** A well-formed cheat is one whose opcodes end where it ends; without E opcodes that is any whole number of word
      pairs. */
  lemma {:induction false} WellFormedMeans(code: seq<u32>, at: nat)
    requires at <= |code|
    ensures WellFormed(code, at) <==> Boundary(code, at, |code|)
    ensures (|code| - at) % 2 == 0 && (forall k :: at <= k < |code| ==> code[k] / 0x1000_0000 != 0xE) ==> WellFormed(code, at)
    decreases |code| - at
  {
    if at + 2 <= |code| {
      Division.Nested(code[at], 0x100_0000, 0x10);
      var next := at + Length(code, at);
      if next <= |code| {
        WellFormedMeans(code, next);
      }
    }
  }

  // ---- the condition stack

  /** The conditions of the enclosing IFs, the innermost in bit 0; 32 of them fit. */
  function Push(stack: u32, cond: bool): u32 {
    (2 * stack + if cond then 1 else 0) % TWO_32
  }

  function Top(stack: u32): bool {
    stack % 2 == 1
  }

  function PushAll(stack: u32, conds: seq<bool>): u32 {
    if conds == [] then stack else Push(PushAll(stack, conds[..|conds| - 1]), conds[|conds| - 1])
  }

  function PopAll(stack: u32, n: nat): u32 {
    if n == 0 then stack else PopAll(stack / 2, n - 1)
  }

  lemma PopPush(stack: u32, cond: bool)
    ensures Top(Push(stack, cond)) == cond
    ensures stack < 0x8000_0000 ==> Push(stack, cond) / 2 == stack
  {
  }

  lemma {:induction false} PushBound(stack: u32, conds: seq<bool>)
    requires stack * Pow2(|conds|) < TWO_32 - Pow2(|conds|) + 1
    ensures PushAll(stack, conds) <= stack * Pow2(|conds|) + Pow2(|conds|) - 1
    ensures PopAll(PushAll(stack, conds), |conds|) == stack
  {
    if conds != [] {
      var n := |conds| - 1;
      assert Pow2(n + 1) == 2 * Pow2(n);
      Doubling(stack, Pow2(n));
      PushBound(stack, conds[..n]);
      PopPush(PushAll(stack, conds[..n]), conds[n]);
    }
  }

  lemma Doubling(stack: nat, p: nat)
    requires stack * (2 * p) < TWO_32 - 2 * p + 1
    ensures stack * (2 * p) == 2 * (stack * p)
    ensures stack * p < TWO_32 - p + 1
  {
  }

  /** Up to 32 IFs nested from an empty stack are undone by as many ENDIFs. */
  lemma NestedIfs(conds: seq<bool>)
    requires |conds| <= 32
    ensures PopAll(PushAll(0, conds), |conds|) == 0
    ensures conds != [] ==> Top(PushAll(0, conds)) == conds[|conds| - 1]
  {
    Pow2Grows(|conds|, 32);
    assert Pow2(32) == TWO_32 by {
      Pow2Of32();
    }
    PushBound(0, conds);
    if conds != [] {
      PopPush(PushAll(0, conds[..|conds| - 1]), conds[|conds| - 1]);
    }
  }

  lemma {:induction false} Pow2Grows(m: nat, n: nat)
    requires m <= n
    ensures Pow2(m) <= Pow2(n)
    decreases n
  {
    if m < n {
      Pow2Grows(m, n - 1);
    }
  }

  lemma Pow2Of32()
    ensures Pow2(32) == TWO_32
  {
    assert Pow2(8) == 0x100;
    assert Pow2(16) == 0x1_0000;
    assert Pow2(24) == 0x100_0000;
  }

  // ---- the opcodes

  datatype Regs = Regs(offset: u32, datareg: u32, cond: bool, condstack: u32,
                       loopstart: nat, loopcount: u32, loopcond: bool, loopcondstack: u32, c5count: u32)

  function Initial(): Regs {
    Regs(0, 0, true, 0, 0, 0, true, 0, 0)
  }

  function Read(bus: Bus, log: seq<Access>, size: nat, addr: u32): u32 {
    if size == 1 then bus(log, 1, addr) % 0x100 else if size == 2 then bus(log, 2, addr) % 0x1_0000 else bus(log, size, addr)
  }

  function Add(x: u32, y: int): u32 {
    (x + y) % TWO_32
  }

  function And16(x: u16, y: u16): u16 {
    ((x as bv16) & (y as bv16)) as int
  }

  /** Opcodes that a false condition leaves out: all but C5, D0, D1 and D2. */
  predicate Conditional(op: u8) {
    (op < 0xD0 && op != 0xC5) || op > 0xD2
  }

  predicate IsIf(op: u8) {
    3 <= op / 0x10 <= 0xA
  }

  /** The outcome of an IF: 32-bit comparisons, then 16-bit ones under a mask. */
  function Test(op: u8, a: u32, b: u32, offset: u32, log: seq<Access>, bus: Bus): bool {
    var addr := if a % 0x1000_0000 == 0 then offset else a % 0x1000_0000;
    var group := op / 0x10;
    if group <= 6 then
      var chk := Read(bus, log, 4, addr);
      if group == 3 then b > chk else if group == 4 then b < chk else if group == 5 then b == chk else b != chk
    else
      var chk := And16(0xFFFF - b / 0x1_0000, Read(bus, log, 2, addr));
      var low := b % 0x1_0000;
      if group == 7 then low > chk else if group == 8 then low < chk else if group == 9 then low == chk else low != chk
  }

  predicate IsSimple(op: u8) {
    op / 0x10 <= 2 || op / 0x10 == 0xB || op == 0xC5 || op == 0xC6 || op == 0xD0 || 0xD3 <= op <= 0xDC
  }

  /** Opcodes that neither test memory, jump nor copy: what becomes of the registers. */
  function SimpleRegs(op: u8, a: u32, b: u32, r: Regs, log: seq<Access>, bus: Bus): Regs {
    if op / 0x10 == 0xB then r.(offset := Read(bus, log, 4, Add(a % 0x1000_0000, r.offset)))
    else
      match op
      case 0xC5 =>
        var n := Add(r.c5count, 1);
        if r.cond then
          r.(c5count := n, condstack := Push(r.condstack, r.cond), cond := And16(n % 0x1_0000, b % 0x1_0000) == b / 0x1_0000)
        else r.(c5count := n)
      case 0xD0 => r.(cond := Top(r.condstack), condstack := r.condstack / 2)
      case 0xD3 => r.(offset := b)
      case 0xD4 => r.(datareg := Add(r.datareg, b))
      case 0xD5 => r.(datareg := b)
      case 0xD6 => r.(offset := Add(r.offset, 4))
      case 0xD7 => r.(offset := Add(r.offset, 2))
      case 0xD8 => r.(offset := Add(r.offset, 1))
      case 0xD9 => r.(datareg := Read(bus, log, 4, Add(b, r.offset)))
      case 0xDA => r.(datareg := Read(bus, log, 2, Add(b, r.offset)))
      case 0xDB => r.(datareg := Read(bus, log, 1, Add(b, r.offset)))
      case 0xDC => r.(offset := Add(r.offset, b))
      case _ => r
  }

  /** And what is written. */
  function SimpleLog(op: u8, a: u32, b: u32, r: Regs, log: seq<Access>): seq<Access> {
    var addr := Add(a % 0x1000_0000, r.offset);
    if op / 0x10 == 0 then log + [Write(4, addr, b)]
    else if op / 0x10 == 1 then log + [Write(2, addr, b % 0x1_0000)]
    else if op / 0x10 == 2 then log + [Write(1, addr, b % 0x100)]
    else
      match op
      case 0xC6 => log + [Write(4, b, r.offset)]
      case 0xD6 => log + [Write(4, Add(b, r.offset), r.datareg)]
      case 0xD7 => log + [Write(2, Add(b, r.offset), r.datareg % 0x1_0000)]
      case 0xD8 => log + [Write(1, Add(b, r.offset), r.datareg % 0x100)]
      case _ => log
  }

  /** Byte j of a word in memory order. */
  function ByteOf(w: u32, j: nat): u32 {
    if j == 0 then w % 0x100 else if j == 1 then w / 0x100 % 0x100 else if j == 2 then w / 0x1_0000 % 0x100 else w / 0x100_0000
  }

  /** The writes of a copy opcode: b / 4 words of payload, then single bytes of the next word. */
  function CopyLog(code: seq<u32>, at: nat, dst: u32, b: u32): seq<Access>
    requires at + Payload(b) <= |code|
  {
    seq(b / 4, k requires 0 <= k < b / 4 => Write(4, Add(dst, 4 * k), WordAt(code, at, b, k)))
    + seq(b % 4, j requires 0 <= j < b % 4 => Write(1, Add(dst, b / 4 * 4 + j), ByteOf(WordAt(code, at, b, b / 4), j)))
  }

  function WordAt(code: seq<u32>, at: nat, b: u32, k: nat): u32
    requires at + Payload(b) <= |code| && 4 * k < b
  {
    code[at + k]
  }

  /** The writes of an F opcode: words, then bytes, each read after the writes before it. */
  function MoveLog(bus: Bus, log: seq<Access>, src: u32, dst: u32, left: nat): (r: seq<Access>)
    ensures |r| == |log| + left / 4 + left % 4 && log <= r
    decreases left
  {
    if left >= 4 then MoveLog(bus, log + [Write(4, dst, Read(bus, log, 4, src))], Add(src, 4), Add(dst, 4), left - 4)
    else if left > 0 then MoveLog(bus, log + [Write(1, dst, Read(bus, log, 1, src))], Add(src, 1), Add(dst, 1), left - 1)
    else log
  }

  datatype Outcome = Halt(log: seq<Access>) | Next(pc: nat, r: Regs, log: seq<Access>)

  ghost predicate Ready(code: seq<u32>, pc: nat, r: Regs) {
    WellFormed(code, 0) && Boundary(code, 0, pc) && Boundary(code, 0, r.loopstart) && r.loopstart <= pc
  }

  /** One opcode. */
  function Step(code: seq<u32>, bus: Bus, pc: nat, r: Regs, log: seq<Access>): Outcome
    requires pc + 2 <= |code| && pc + Length(code, pc) <= |code|
  {
    var a, b, next := code[pc], code[pc + 1], pc + Length(code, pc);
    var op := Op(a);
    if Conditional(op) && !r.cond then Next(next, r, log)
    else if IsIf(op) then
      Next(next, r.(condstack := Push(r.condstack, r.cond), cond := Test(op, a, b, r.offset, log, bus)), log)
    else if IsSimple(op) then Next(next, SimpleRegs(op, a, b, r, log, bus), SimpleLog(op, a, b, r, log))
    else if op == 0xC0 then Next(next, r.(loopstart := next, loopcount := b, loopcond := r.cond, loopcondstack := r.condstack), log)
    else if op == 0xD1 || op == 0xD2 then
      if r.loopcount > 0 then Next(r.loopstart, r.(loopcount := r.loopcount - 1), log)
      else if op == 0xD1 then Next(next, r.(cond := r.loopcond, condstack := r.loopcondstack), log)
      else Next(next, r.(offset := 0, datareg := 0, condstack := 0, cond := true), log)
    else if IsCopy(op) then Next(next, r, log + CopyLog(code, pc + 2, Add(a % 0x1000_0000, r.offset), b))
    else if op / 0x10 == 0xF then Next(next, r, MoveLog(bus, log, r.offset, a % 0x1000_0000, b))
    else Halt(log)
  }

  lemma SimpleKeepsLoop(op: u8, a: u32, b: u32, r: Regs, log: seq<Access>, bus: Bus)
    ensures var q := SimpleRegs(op, a, b, r, log, bus);
            q.loopstart == r.loopstart && q.loopcount == r.loopcount && log <= SimpleLog(op, a, b, r, log)
  {
  }

  /** Whatever memory holds and whatever the conditions are: after an opcode comes the one behind it or the loop
      start, both places where an opcode begins; the loop start only moves forward; the measure of (words behind
      the loop start, rounds left, words left) goes down; and writes are only added. */
  lemma StepAdvances(code: seq<u32>, bus: Bus, pc: nat, r: Regs, log: seq<Access>)
    requires Ready(code, pc, r) && pc < |code|
    ensures pc + 2 <= |code| && pc + Length(code, pc) <= |code|
    ensures var o := Step(code, bus, pc, r, log);
            log <= o.log && (o.Next? ==>
              && (o.pc == pc + Length(code, pc) || o.pc == r.loopstart) && Ready(code, o.pc, o.r)
              && o.r.loopstart >= r.loopstart
              && (o.r.loopstart > r.loopstart
                  || (o.r.loopstart == r.loopstart && (o.r.loopcount < r.loopcount || (o.r.loopcount == r.loopcount && o.pc > pc)))))
  {
    hide SimpleRegs, SimpleLog, Boundary, Test, CopyLog, MoveLog;
    NextBoundary(code, 0, pc);
    if pc + 2 <= |code| {
      SimpleKeepsLoop(Op(code[pc]), code[pc], code[pc + 1], r, log, bus);
    }
  }

  /** The interpreter gives up exactly on C1 to C4, C7 to CF and DD to DF, and only when the condition holds. */
  lemma HaltsIff(code: seq<u32>, bus: Bus, pc: nat, r: Regs, log: seq<Access>)
    requires pc + 2 <= |code| && pc + Length(code, pc) <= |code|
    ensures var op := code[pc] / 0x100_0000;
            && (Step(code, bus, pc, r, log).Halt? <==> r.cond && (0xC1 <= op <= 0xC4 || 0xC7 <= op <= 0xCF || 0xDD <= op <= 0xDF))
            && (Step(code, bus, pc, r, log).Halt? ==> Step(code, bus, pc, r, log).log == log)
            && (Conditional(op) <==> op !in {0xC5, 0xD0, 0xD1, 0xD2})
  {
    hide SimpleRegs, SimpleLog, Test, CopyLog, MoveLog;
  }

  /** A skipped opcode changes nothing and takes up as many words as an executed one. */
  lemma SkippedStep(code: seq<u32>, bus: Bus, pc: nat, r: Regs, log: seq<Access>)
    requires pc + 2 <= |code| && pc + Length(code, pc) <= |code| && !r.cond && Conditional(Op(code[pc]))
    ensures Step(code, bus, pc, r, log) == Next(pc + Length(code, pc), r, log)
    ensures Op(code[pc]) != 0xC0 ==>
      var o := Step(code, bus, pc, r.(cond := true), log);
      o.Next? ==> o.pc == pc + Length(code, pc)
  {
    hide SimpleRegs, SimpleLog, Test, CopyLog, MoveLog;
  }

  /** A whole run: the writes when it ends. That this function is total is the termination of every well-formed
      cheat for every memory content. */
  ghost function Run(code: seq<u32>, bus: Bus, pc: nat, r: Regs, log: seq<Access>): (final: seq<Access>)
    requires Ready(code, pc, r)
    ensures log <= final
    decreases |code| - r.loopstart, r.loopcount, |code| - pc
  {
    NextBoundary(code, 0, pc);
    if pc == |code| then log
    else
      StepAdvances(code, bus, pc, r, log);
      match Step(code, bus, pc, r, log)
      case Halt(log') => log'
      case Next(pc', r', log') => Run(code, bus, pc', r', log')
  }

  lemma RunStep(code: seq<u32>, bus: Bus, pc: nat, r: Regs, log: seq<Access>)
    requires Ready(code, pc, r) && pc < |code|
    ensures pc + 2 <= |code| && pc + Length(code, pc) <= |code|
    ensures Step(code, bus, pc, r, log).Next? ==>
      var o := Step(code, bus, pc, r, log);
      Ready(code, o.pc, o.r) && Run(code, bus, pc, r, log) == Run(code, bus, o.pc, o.r, o.log)
  {
    hide Step;
    StepAdvances(code, bus, pc, r, log);
  }

  /** From `at` to `to` there are only opcodes a false condition leaves out. */
  predicate OnlyConditional(code: seq<u32>, at: nat, to: nat)
    decreases |code| - at
  {
    at == to || (at + 2 <= |code| && Conditional(Op(code[at])) && OnlyConditional(code, at + Length(code, at), to))
  }

  /** `to` is where an opcode ends, and none of the opcodes from `at` up to there is one of the given, in units of
      their first word. */
  ghost predicate FreeOf(code: seq<u32>, at: nat, to: nat, unit: u32, ops: set<int>)
    requires unit > 0
  {
    && Boundary(code, at, to)
    && forall q: nat :: q < to && Boundary(code, at, q) ==> q + 2 <= |code| && code[q] / unit !in ops
  }

  lemma {:induction false} NotBefore(code: seq<u32>, at: nat, q: nat)
    requires Boundary(code, at, q)
    ensures at <= q
    decreases |code| - at
  {
    if at != q {
      NotBefore(code, at + Length(code, at), q);
    }
  }

  lemma FreeStep(code: seq<u32>, at: nat, to: nat, unit: u32, ops: set<int>)
    requires WellFormed(code, at) && unit > 0
    ensures FreeOf(code, at, to, unit, ops) <==>
      at == to || (at + 2 <= |code| && code[at] / unit !in ops && FreeOf(code, at + Length(code, at), to, unit, ops))
  {
    if at == to {
      forall q: nat | q < to && Boundary(code, at, q) ensures false {
        NotBefore(code, at, q);
      }
    } else if at + 2 <= |code| {
      var next := at + Length(code, at);
      if FreeOf(code, at, to, unit, ops) {
        NotBefore(code, next, to);
        assert Boundary(code, at, at);
        forall q: nat | q < to && Boundary(code, next, q) ensures q + 2 <= |code| && code[q] / unit !in ops {
          NotBefore(code, next, q);
          assert Boundary(code, at, q);
        }
      }
      if code[at] / unit !in ops && FreeOf(code, next, to, unit, ops) {
        forall q: nat | q < to && Boundary(code, at, q) ensures q + 2 <= |code| && code[q] / unit !in ops {
          assert q == at || Boundary(code, next, q);
        }
      }
    }
  }

  lemma {:induction false} OnlyConditionalMeans(code: seq<u32>, at: nat, to: nat)
    requires WellFormed(code, at)
    ensures OnlyConditional(code, at, to) <==> FreeOf(code, at, to, 0x100_0000, {0xC5, 0xD0, 0xD1, 0xD2})
    decreases |code| - at
  {
    FreeStep(code, at, to, 0x100_0000, {0xC5, 0xD0, 0xD1, 0xD2});
    if at != to && at + 2 <= |code| {
      OnlyConditionalMeans(code, at + Length(code, at), to);
    }
  }

  /** From `at` to `to` no opcode is an IF. */
  predicate NoIf(code: seq<u32>, at: nat, to: nat)
    decreases |code| - at
  {
    at == to || (at + 2 <= |code| && !IsIf(Op(code[at])) && NoIf(code, at + Length(code, at), to))
  }

  lemma {:induction false} NoIfMeans(code: seq<u32>, at: nat, to: nat)
    requires WellFormed(code, at)
    ensures NoIf(code, at, to) <==> FreeOf(code, at, to, 0x1000_0000, {3, 4, 5, 6, 7, 8, 9, 10})
    decreases |code| - at
  {
    FreeStep(code, at, to, 0x1000_0000, {3, 4, 5, 6, 7, 8, 9, 10});
    if at + 2 <= |code| {
      Division.Nested(code[at], 0x100_0000, 0x10);
    }
    if at != to && at + 2 <= |code| {
      NoIfMeans(code, at + Length(code, at), to);
    }
  }

  /** Under a false condition a stretch without ENDIF, NEXT and C5 opcodes, whatever it contains, has no effect
      at all: the run goes on behind it in the state it was in. */
  lemma {:induction false} FalseConditionSkips(code: seq<u32>, bus: Bus, pc: nat, to: nat, r: Regs, log: seq<Access>)
    requires Ready(code, pc, r) && !r.cond && OnlyConditional(code, pc, to)
    ensures Ready(code, to, r) && Run(code, bus, pc, r, log) == Run(code, bus, to, r, log)
    decreases |code| - pc
  {
    if pc != to {
      hide Ready, Run, Step;
      RunStep(code, bus, pc, r, log);
      SkippedStep(code, bus, pc, r, log);
      FalseConditionSkips(code, bus, pc + Length(code, pc), to, r, log);
    }
  }

  /** The ENDIF at m is the one that belongs to the IF in front of `at`, with `depth` more IFs open inside it. */
  predicate Closes(code: seq<u32>, at: nat, depth: nat, m: nat)
    decreases |code| - at
  {
    at + 2 <= |code| &&
    if Op(code[at]) == 0xD0 then (if depth == 0 then at == m else Closes(code, at + Length(code, at), depth - 1, m))
    else Closes(code, at + Length(code, at), if IsIf(Op(code[at])) then depth + 1 else depth, m)
  }

  lemma {:induction false} ClosesBehind(code: seq<u32>, at: nat, depth: nat, m: nat)
    requires Closes(code, at, depth, m)
    ensures at <= m
    decreases |code| - at
  {
    if Op(code[at]) == 0xD0 {
      if depth > 0 {
        ClosesBehind(code, at + Length(code, at), depth - 1, m);
      }
    } else {
      ClosesBehind(code, at + Length(code, at), if IsIf(Op(code[at])) then depth + 1 else depth, m);
    }
  }

  /** The first ENDIF behind an IF belongs to it exactly when there is no other IF in between. */
  lemma {:induction false} FirstEndifCloses(code: seq<u32>, at: nat, depth: nat, e: nat)
    requires OnlyConditional(code, at, e) && e + 2 <= |code| && Op(code[e]) == 0xD0
    ensures Closes(code, at, depth, e) <==> depth == 0 && NoIf(code, at, e)
    decreases |code| - at
  {
    if at == e {
      if depth > 0 && Closes(code, at + Length(code, at), depth - 1, e) {
        ClosesBehind(code, at + Length(code, at), depth - 1, e);
      }
    } else {
      FirstEndifCloses(code, at + Length(code, at), if IsIf(Op(code[at])) then depth + 1 else depth, e);
    }
  }

  /** A false IF leaves out everything up to the first ENDIF behind it, whatever IFs come in between: the run goes
      on behind that ENDIF under the condition that held before. That is the IF's own ENDIF, so that what the IF
      encloses has no effect, if and only if it encloses no other IF. */
  lemma FalseIfEndsAtFirstEndif(code: seq<u32>, bus: Bus, pc: nat, e: nat, r: Regs, log: seq<Access>)
    requires Ready(code, pc, r) && r.cond && pc + 2 <= |code| && e + 2 <= |code|
    requires IsIf(Op(code[pc])) && !Test(Op(code[pc]), code[pc], code[pc + 1], r.offset, log, bus)
    requires OnlyConditional(code, pc + 2, e) && Op(code[e]) == 0xD0
    ensures var q := r.(condstack := r.condstack % 0x8000_0000);
            Ready(code, e + 2, q) && Run(code, bus, pc, r, log) == Run(code, bus, e + 2, q, log)
    ensures Closes(code, pc + 2, 0, e) <==> NoIf(code, pc + 2, e)
  {
    hide Ready, Run, Test, OnlyConditional;
    var inner := r.(condstack := Push(r.condstack, true), cond := false);
    RunStep(code, bus, pc, r, log);
    FalseConditionSkips(code, bus, pc + 2, e, inner, log);
    RunStep(code, bus, e, inner, log);
    assert Top(Push(r.condstack, true)) && Push(r.condstack, true) / 2 == r.condstack % 0x8000_0000;
    FirstEndifCloses(code, pc + 2, 0, e);
  }

  /** An IF inside a false IF is skipped without being pushed, so its ENDIF ends the outer one: the opcode behind
      it runs under the condition that held before the outer IF. */
  lemma InnerEndifEndsOuterIf(code: seq<u32>, bus: Bus, pc: nat, r: Regs, log: seq<Access>)
    requires Ready(code, pc, r) && r.cond && pc + 6 <= |code|
    requires IsIf(Op(code[pc])) && !Test(Op(code[pc]), code[pc], code[pc + 1], r.offset, log, bus)
    requires IsIf(Op(code[pc + 2])) && Op(code[pc + 4]) == 0xD0
    ensures var q := r.(condstack := r.condstack % 0x8000_0000);
            Ready(code, pc + 6, q) && Run(code, bus, pc, r, log) == Run(code, bus, pc + 6, q, log)
  {
    hide Ready, Run, Test;
    var inner := r.(condstack := Push(r.condstack, true), cond := false);
    RunStep(code, bus, pc, r, log);
    RunStep(code, bus, pc + 2, inner, log);
    RunStep(code, bus, pc + 4, inner, log);
    assert Top(Push(r.condstack, true)) && Push(r.condstack, true) / 2 == r.condstack % 0x8000_0000;
  }

  class AREngine {
    const bus: Bus
    var log: seq<Access>

    constructor (bus: Bus)
      ensures this.bus == bus && log == []
    {
      this.bus, log := bus, [];
    }

    method ARM7Write(size: nat, addr: u32, val: u32)
      modifies `log
      ensures log == old(log) + [Write(size, addr, val)]
    {
      log := log + [Write(size, addr, val)];
    }

    /** The eight IFs. */
    method If(op: u8, a: u32, b: u32, offset: u32) returns (cond: bool)
      requires IsIf(op)
      ensures cond == Test(op, a, b, offset, log, bus)
    {
      hide And16;
      var addr := a % 0x1000_0000;
      if addr == 0 {
        addr := offset;
      }
      if op < 0x70 {
        var chk := Read(bus, log, 4, addr);
        match op / 0x10 {
          case 3 => cond := b > chk;
          case 4 => cond := b < chk;
          case 5 => cond := b == chk;
          case _ => cond := b != chk;
        }
      } else {
        var val := Read(bus, log, 2, addr);
        var chk := And16(0xFFFF - b / 0x1_0000, val);
        match op / 0x10 {
          case 7 => cond := b % 0x1_0000 > chk;
          case 8 => cond := b % 0x1_0000 < chk;
          case 9 => cond := b % 0x1_0000 == chk;
          case _ => cond := b % 0x1_0000 != chk;
        }
      }
    }

    /** The opcodes that write, read or change a register. */
    method Simple(op: u8, a: u32, b: u32, r: Regs) returns (r': Regs)
      requires IsSimple(op)
      modifies `log
      ensures r' == SimpleRegs(op, a, b, r, old(log), bus) && log == SimpleLog(op, a, b, r, old(log))
    {
      hide And16, Read;
      var addr := Add(a % 0x1000_0000, r.offset);
      r' := r;
      if op < 0x10 {
        ARM7Write(4, addr, b);
      } else if op < 0x20 {
        ARM7Write(2, addr, b % 0x1_0000);
      } else if op < 0x30 {
        ARM7Write(1, addr, b % 0x100);
      } else if op < 0xC0 {
        r' := r.(offset := Read(bus, log, 4, addr));
      } else if op == 0xC5 {
        r' := r.(c5count := Add(r.c5count, 1));
        if r.cond {
          var (mask, chk) := (b % 0x1_0000, b / 0x1_0000);
          r' := r'.(condstack := Push(r.condstack, r.cond), cond := And16(r'.c5count % 0x1_0000, mask) == chk);
        }
      } else if op == 0xC6 {
        ARM7Write(4, b, r.offset);
      } else if op == 0xD0 {
        r' := r.(cond := r.condstack % 2 == 1, condstack := r.condstack / 2);
      } else {
        r' := DataOp(op, b, r);
      }
    }

    /** D3 to DC. */
    method DataOp(op: u8, b: u32, r: Regs) returns (r': Regs)
      requires 0xD3 <= op <= 0xDC
      modifies `log
      ensures forall a :: r' == SimpleRegs(op, a, b, r, old(log), bus) && log == SimpleLog(op, a, b, r, old(log))
    {
      hide And16, Read;
      r' := r;
      var addr := Add(b, r.offset);
      match op {
        case 0xD3 => r' := r.(offset := b);
        case 0xD4 => r' := r.(datareg := Add(r.datareg, b));
        case 0xD5 => r' := r.(datareg := b);
        case 0xD6 =>
          ARM7Write(4, addr, r.datareg);
          r' := r.(offset := Add(r.offset, 4));
        case 0xD7 =>
          ARM7Write(2, addr, r.datareg % 0x1_0000);
          r' := r.(offset := Add(r.offset, 2));
        case 0xD8 =>
          ARM7Write(1, addr, r.datareg % 0x100);
          r' := r.(offset := Add(r.offset, 1));
        case 0xD9 => r' := r.(datareg := Read(bus, log, 4, addr));
        case 0xDA => r' := r.(datareg := Read(bus, log, 2, addr));
        case 0xDB => r' := r.(datareg := Read(bus, log, 1, addr));
        case 0xDC => r' := r.(offset := Add(r.offset, b));
      }
    }

    /** The payload of a skipped copy, eight bytes at a time. */
    static method SkipPayload(pc: nat, b: u32) returns (next: nat)
      requires Payload(b) < 0x4000_0000
      ensures next == pc + Payload(b)
    {
      next := pc;
      var i := 0;
      while i < b
        invariant i <= b + 7 && i % 8 == 0 && next == pc + i / 8 * 2
        decreases b + 8 - i
      {
        next := next + 2;
        i := (i + 8) % TWO_32;
      }
    }

    /** An E opcode: pairs of words, then what is left of the last pair. */
    method CopyPayload(code: seq<u32>, at: nat, dst: u32, b: u32) returns (next: nat)
      requires at + Payload(b) <= |code|
      modifies `log
      ensures next == at + Payload(b) && log == old(log) + CopyLog(code, at, dst, b)
    {
      hide Payload, ByteOf, CopyLog, Add;
      PayloadCovers(b);
      next := at;
      var dstaddr, bytesleft: nat := dst, b;
      ghost var all, n := CopyLog(code, at, dst, b), 0;
      CopyLength(code, at, dst, b);
      AddsNothing(dst);
      while bytesleft >= 8
        invariant n % 2 == 0 && bytesleft == b - 4 * n && next == at + n
        invariant dstaddr == Add(dst, 4 * n) && log == old(log) + all[..n]
      {
        CopyPair(code, at, dst, b, n);
        var pair := [Write(4, dstaddr, code[next])] + [Write(4, Add(dstaddr, 4), code[next + 1])];
        Joined(old(log), all[..n], pair);
        log := log + pair;
        dstaddr, next, bytesleft, n := Add(Add(dstaddr, 4), 4), next + 2, bytesleft - 8, n + 2;
      }
      Joined(old(log), all[..n], all[n..]);
      assert all[..n] + all[n..] == all;
      if bytesleft > 0 {
        CopyLeftover(code, at, dst, b, n, next, dstaddr, bytesleft);
        next := next + 2;
      } else {
        assert all[n..] == [];
      }
    }

    method CopyLeftover(code: seq<u32>, at: nat, dst: u32, b: u32, ghost n: nat, from: nat, to: u32, left: nat)
      requires at + Payload(b) <= |code| && 0 < left < 8 && left == b - 4 * n
      requires from == at + n && to == Add(dst, 4 * n) && n <= |CopyLog(code, at, dst, b)|
      modifies `log
      ensures log == old(log) + CopyLog(code, at, dst, b)[n..]
    {
      hide Payload, ByteOf, CopyLog, Add;
      ghost var all := CopyLog(code, at, dst, b);
      ghost var words := b / 4;
      CopyLength(code, at, dst, b);
      var dstaddr, leftover, bytesleft := to, from, left;
      if bytesleft >= 4 {
        CopyWordAt(code, at, dst, b, n);
        Adds(dst, 4 * n, 4);
        log := log + [Write(4, dstaddr, code[leftover])];
        dstaddr, leftover, bytesleft := Add(dstaddr, 4), leftover + 1, bytesleft - 4;
      }
      WordsLeft(b, n, left);
      assert dstaddr == Add(dst, 4 * words + 0);
      if left >= 4 {
        OneMore(all, n, n);
      }
      assert log == old(log) + all[n..words];
      var j := 0;
      while bytesleft > 0
        invariant j + bytesleft == b % 4 && dstaddr == Add(dst, 4 * words + j) && (bytesleft > 0 ==> leftover == at + words)
        invariant log == old(log) + all[n..words + j]
        decreases bytesleft
      {
        CopyByteAt(code, at, dst, b, j);
        Adds(dst, 4 * words + j, 1);
        log := log + [Write(1, dstaddr, ByteOf(code[leftover], j))];
        OneMore(all, n, words + j);
        dstaddr, j, bytesleft := Add(dstaddr, 1), j + 1, bytesleft - 1;
      }
      assert all[n..words + j] == all[n..];
    }

    /** An F opcode. */
    method MoveBytes(src: u32, dst: u32, b: u32)
      modifies `log
      ensures log == MoveLog(bus, old(log), src, dst, b)
    {
      hide Read, Add;
      var srcaddr, dstaddr, bytesleft: nat := src, dst, b;
      while bytesleft >= 4
        invariant MoveLog(bus, old(log), src, dst, b) == MoveLog(bus, log, srcaddr, dstaddr, bytesleft)
      {
        log := log + [Write(4, dstaddr, Read(bus, log, 4, srcaddr))];
        srcaddr, dstaddr, bytesleft := Add(srcaddr, 4), Add(dstaddr, 4), bytesleft - 4;
      }
      while bytesleft > 0
        invariant bytesleft < 4
        invariant MoveLog(bus, old(log), src, dst, b) == MoveLog(bus, log, srcaddr, dstaddr, bytesleft)
      {
        log := log + [Write(1, dstaddr, Read(bus, log, 1, srcaddr))];
        srcaddr, dstaddr, bytesleft := Add(srcaddr, 1), Add(dstaddr, 1), bytesleft - 1;
      }
    }

    /** The interpreter loop. */
    method RunCheat(code: seq<u32>)
      requires WellFormed(code, 0) && |code| < 0x4000_0000
      modifies `log
      ensures log == Run(code, bus, 0, Initial(), old(log))
    {
      hide SimpleRegs, SimpleLog, Boundary, WellFormed, Test, CopyLog, MoveLog, Payload;
      AtStart(code);
      var pc: nat, r, running := 0, Regs(0, 0, true, 0, 0, 0, true, 0, 0), true;
      while running && pc < |code|
        invariant Ready(code, pc, r)
        invariant Run(code, bus, 0, Initial(), old(log)) == if running then Run(code, bus, pc, r, log) else log
        invariant running ==> pc <= |code|
        decreases running, |code| - r.loopstart, r.loopcount, |code| - pc
      {
        StepAdvances(code, bus, pc, r, log);
        running, pc, r := Opcode(code, pc, r);
      }
    }

    /** One turn of it. */
    method Opcode(code: seq<u32>, pc: nat, r: Regs) returns (running: bool, pc': nat, r': Regs)
      requires pc + 2 <= |code| < 0x4000_0000 && pc + Length(code, pc) <= |code|
      modifies `log
      ensures match Step(code, bus, pc, r, old(log))
              case Halt(l) => !running && log == l && pc' == pc && r' == r
              case Next(p, q, l) => running && log == l && pc' == p && r' == q
    {
      hide SimpleRegs, SimpleLog, Test, CopyLog, MoveLog, Payload;
      var a, b, next := code[pc], code[pc + 1], pc + 2;
      var op := Op(a);
      running, pc', r' := true, next, r;
      if ((op < 0xD0 && op != 0xC5) || op > 0xD2) && !r.cond {
        if 0xE0 <= op < 0xF0 {
          pc' := SkipPayload(next, b);
        }
      } else if 0x30 <= op < 0xB0 {
        var cond := If(op, a, b, r.offset);
        r' := r.(condstack := Push(r.condstack, r.cond), cond := cond);
      } else if op < 0xC0 || op == 0xC5 || op == 0xC6 || op == 0xD0 || 0xD3 <= op <= 0xDC {
        r' := Simple(op, a, b, r);
      } else if op == 0xC0 {
        r' := r.(loopstart := next, loopcount := b, loopcond := r.cond, loopcondstack := r.condstack);
      } else if op == 0xD1 || op == 0xD2 {
        if r.loopcount > 0 {
          pc', r' := r.loopstart, r.(loopcount := r.loopcount - 1);
        } else if op == 0xD1 {
          r' := r.(cond := r.loopcond, condstack := r.loopcondstack);
        } else {
          r' := r.(offset := 0, datareg := 0, condstack := 0, cond := true);
        }
      } else if 0xE0 <= op < 0xF0 {
        pc' := CopyPayload(code, next, Add(a % 0x1000_0000, r.offset), b);
      } else if op >= 0xF0 {
        MoveBytes(r.offset, a % 0x1000_0000, b);
      } else {
        running, pc' := false, pc;
      }
    }
  }

  lemma AddsNothing(x: u32)
    ensures Add(x, 0) == x
  {
  }

  lemma CopyLength(code: seq<u32>, at: nat, dst: u32, b: u32)
    requires at + Payload(b) <= |code|
    ensures |CopyLog(code, at, dst, b)| == b / 4 + b % 4
  {
  }

  lemma CopyWordAt(code: seq<u32>, at: nat, dst: u32, b: u32, k: nat)
    requires at + Payload(b) <= |code| && 4 * k + 4 <= b
    ensures k < |CopyLog(code, at, dst, b)| && at + k < |code|
    ensures CopyLog(code, at, dst, b)[k] == Write(4, Add(dst, 4 * k), code[at + k])
  {
  }

  lemma Joined<T>(a: seq<T>, b: seq<T>, c: seq<T>)
    ensures (a + b) + c == a + (b + c)
  {
  }

  lemma OneMore<T>(s: seq<T>, from: nat, to: nat)
    requires from <= to < |s|
    ensures s[from..to + 1] == s[from..to] + [s[to]] && s[from..from] == []
  {
  }

  lemma WordsLeft(b: u32, n: nat, left: nat)
    requires left < 8 && left == b - 4 * n
    ensures b / 4 == n + (if left >= 4 then 1 else 0) && b % 4 == if left >= 4 then left - 4 else left
  {
  }

  lemma CopyPair(code: seq<u32>, at: nat, dst: u32, b: u32, n: nat)
    requires at + Payload(b) <= |code| && 4 * n + 8 <= b
    ensures n + 2 <= |CopyLog(code, at, dst, b)| && at + n + 1 < |code|
    ensures var all, to := CopyLog(code, at, dst, b), Add(dst, 4 * n);
            && all[..n + 2] == all[..n] + ([Write(4, to, code[at + n])] + [Write(4, Add(to, 4), code[at + n + 1])])
            && Add(Add(to, 4), 4) == Add(dst, 4 * (n + 2))
  {
    hide CopyLog, Payload, Add;
    CopyWordAt(code, at, dst, b, n);
    CopyWordAt(code, at, dst, b, n + 1);
    Adds(dst, 4 * n, 4);
    Adds(dst, 4 * n + 4, 4);
  }

  lemma CopyByteAt(code: seq<u32>, at: nat, dst: u32, b: u32, j: nat)
    requires at + Payload(b) <= |code| && j < b % 4
    ensures b / 4 + j < |CopyLog(code, at, dst, b)| && at + b / 4 < |code|
    ensures CopyLog(code, at, dst, b)[b / 4 + j] == Write(1, Add(dst, 4 * (b / 4) + j), ByteOf(code[at + b / 4], j))
  {
  }

  lemma AtStart(code: seq<u32>)
    requires WellFormed(code, 0)
    ensures Ready(code, 0, Initial())
  {
  }

  lemma PayloadCovers(b: u32)
    ensures Payload(b) == b / 8 * 2 + if b % 8 > 0 then 2 else 0
  {
  }

  lemma Adds(x: u32, y: int, z: int)
    ensures Add(Add(x, y), z) == Add(x, y + z)
  {
    var k := (x + y) / TWO_32;
    assert x + y + z == Add(x, y) + z + k * TWO_32;
  }
}
