/** Decoded instruction metadata (src/ARM_InstrInfo.h).  Bit masks are sets of bit numbers: registers
    0-15, flags 0-3 (V, C, Z, N). */
module InstrInfo {
  const PC: int := 15
  const FLAG_V: int := 0
  const FLAG_C: int := 1
  const FLAG_Z: int := 2
  const FLAG_N: int := 3
  const ALL_FLAGS: set<int> := {FLAG_V, FLAG_C, FLAG_Z, FLAG_N}

  /** `always` and `maybe` are the low and high halves of WriteFlags; `system` says that the kind lies
      between ak_MSR_IMM and ak_MRC. */
  datatype Info = Info(
    dst: set<int>, src: set<int>, notStrictlyNeeded: set<int>,
    read: set<int>, always: set<int>, maybe: set<int>,
    writesMem: bool, system: bool)
  {
    predicate Branches() {
      PC in dst
    }
  }
}
