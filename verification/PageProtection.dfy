/** The fastmem page map of the JIT (src/ARMJIT_Memory.cpp: MapAtAddress, Mapping::Unmap,
    SetCodeProtection, Reset).  Addresses, sizes and offsets are counted in 4 KiB pages. */
module PageProtection {
  import opened Machine

  datatype MemState = Unmapped | MappedRW | MappedProtected

  const DTCM: int := 2          // memregion_DTCM

  datatype Mapping = Mapping(region: int, num: int, start: nat, size: nat, local: nat)

  /** The pages of the data TCM, which the ARM9 sees in place of whatever lies below; none when `size`
      is 0 (the disabled TCM has a base that no page starts at). */
  datatype Hole = Hole(start: nat, size: nat)

  predicate InHole(d: Hole, p: int) {
    d.start <= p < d.start + d.size
  }

  predicate SkipsHole(m: Mapping) {
    m.num == 0 && m.region != DTCM
  }

  predicate Covers(m: Mapping, d: Hole, num: int, p: int) {
    m.num == num && m.start <= p < m.start + m.size && !(SkipsHole(m) && InHole(d, p))
  }

  /** The hole lies inside the mapping or beside it. */
  predicate Fits(m: Mapping, d: Hole) {
    SkipsHole(m) && d.size > 0 ==>
      || d.start + d.size <= m.start || m.start + m.size <= d.start
      || (m.start <= d.start && d.start + d.size <= m.start + m.size)
  }

  lemma {:induction false} Pow2Divides(i: nat, j: nat)
    requires i <= j
    ensures exists q: nat :: Pow2(j) == q * Pow2(i)
    decreases j - i
  {
    if i == j {
      assert Pow2(j) == 1 * Pow2(i);
    } else {
      Pow2Divides(i, j - 1);
      var q: nat :| Pow2(j - 1) == q * Pow2(i);
      assert Pow2(j) == (2 * q) * Pow2(i);
    }
  }

  lemma MulMonotone(x: nat, y: nat, n: nat)
    requires x <= y
    ensures x * n <= y * n
  {
  }

  /** A region of n pages and one of k * n pages, both starting at a multiple of n, nest or are disjoint. */
  lemma MultiplesNest(i: nat, j: nat, k: nat, n: nat)
    ensures i * n + n <= j * n || j * n + k * n <= i * n || (j * n <= i * n && i * n + n <= j * n + k * n)
  {
    if i + 1 <= j {
      MulMonotone(i + 1, j, n);
    } else if j + k <= i {
      MulMonotone(j + k, i, n);
    } else {
      MulMonotone(j, i, n);
      MulMonotone(i + 1, j + k, n);
    }
  }

  /** A region whose size is a power of two and which is aligned to its size. */
  ghost predicate Aligned(start: nat, size: nat) {
    exists e: nat, i: nat {:trigger Pow2(e), i * Pow2(e)} :: size == Pow2(e) && start == i * Pow2(e)
  }

  lemma NestFromMultiples(a: nat, n: nat, b: nat, m: nat, i: nat, j: nat, q: nat)
    requires a == i * n && b == j * m && m == q * n
    ensures a + n <= b || b + m <= a || (b <= a && a + n <= b + m)
  {
    assert j * (q * n) == (j * q) * n;
    MultiplesNest(i, j * q, q, n);
  }

  /** Two aligned power-of-two regions nest or are disjoint. */
  lemma AlignedRegionsNest(a: nat, n: nat, b: nat, m: nat)
    requires Aligned(a, n) && Aligned(b, m)
    ensures a + n <= b || b + m <= a || (b <= a && a + n <= b + m) || (a <= b && b + m <= a + n)
  {
    hide Pow2;
    var e: nat, i: nat :| n == Pow2(e) && a == i * Pow2(e);
    var f: nat, j: nat :| m == Pow2(f) && b == j * Pow2(f);
    if e <= f {
      Pow2Divides(e, f);
      var q: nat :| Pow2(f) == q * Pow2(e);
      NestFromMultiples(a, n, b, m, i, j, q);
    } else {
      Pow2Divides(f, e);
      var q: nat :| Pow2(e) == q * Pow2(f);
      NestFromMultiples(b, m, a, n, j, i, q);
    }
  }

  /** Whether a page of a mapping shows memory that contains code. */
  function StateFor(m: Mapping, code: set<(int, int)>, p: int): (s: MemState)
    ensures s != Unmapped
  {
    if (m.region, m.local + p - m.start) in code then MappedProtected else MappedRW
  }

  /** The loops of MapAtAddress: find stretches of pages with or without code and set their state.
      `ok` is false when the assertion that a page was unmapped fails. */
  method MapPages(states: seq<MemState>, m: Mapping, d: Hole, code: set<(int, int)>) returns (ok: bool, after: seq<MemState>)
    requires m.start + m.size <= |states| && Fits(m, d)
    ensures ok <==> forall p :: 0 <= p < |states| && Covers(m, d, m.num, p) ==> states[p] == Unmapped
    ensures ok ==> |after| == |states| && forall p :: 0 <= p < |states| ==>
                     after[p] == if Covers(m, d, m.num, p) then StateFor(m, code, p) else states[p]
  {
    after := states;
    var offset := 0;
    var skipDTCM := SkipsHole(m) && d.size > 0;
    while offset < m.size
      invariant 0 <= offset <= m.size && |after| == |states|
      invariant skipDTCM ==> m.start + offset <= d.start || d.start + d.size <= m.start + offset
      invariant forall p :: 0 <= p < m.start + offset && Covers(m, d, m.num, p) ==> states[p] == Unmapped
      invariant forall p :: 0 <= p < |states| ==>
                  after[p] == if Covers(m, d, m.num, p) && p < m.start + offset then StateFor(m, code, p) else states[p]
    {
      if skipDTCM && m.start + offset == d.start {
        offset := offset + d.size;
      } else {
        var sectionOffset := offset;
        var hasCode := (m.region, m.local + offset) in code;
        while offset < m.size && ((m.region, m.local + offset) in code) == hasCode && (!skipDTCM || m.start + offset != d.start)
          invariant sectionOffset <= offset <= m.size && |after| == |states|
          invariant skipDTCM ==> m.start + offset <= d.start || d.start + d.size <= m.start + offset
          invariant forall p :: 0 <= p < m.start + offset && Covers(m, d, m.num, p) ==> states[p] == Unmapped
          invariant forall p :: 0 <= p < |states| ==>
                      after[p] == if Covers(m, d, m.num, p) && p < m.start + offset then StateFor(m, code, p) else states[p]
        {
          if after[m.start + offset] != Unmapped {
            assert Covers(m, d, m.num, m.start + offset);
            return false, after;
          }
          after := after[m.start + offset := if hasCode then MappedProtected else MappedRW];
          offset := offset + 1;
        }
      }
    }
    return true, after;
  }

  /** The loops of Mapping::Unmap.  `ok` is false when the assertion that a page was mapped fails. */
  method UnmapPages(states: seq<MemState>, m: Mapping, d: Hole) returns (ok: bool, after: seq<MemState>)
    requires m.start + m.size <= |states| && Fits(m, d)
    ensures ok <==> forall p :: 0 <= p < |states| && Covers(m, d, m.num, p) ==> states[p] != Unmapped
    ensures ok ==> |after| == |states| && forall p :: 0 <= p < |states| ==>
                     after[p] == if Covers(m, d, m.num, p) then Unmapped else states[p]
  {
    after := states;
    var offset := 0;
    var skipDTCM := SkipsHole(m) && d.size > 0;
    while offset < m.size
      invariant 0 <= offset <= m.size && |after| == |states|
      invariant skipDTCM ==> m.start + offset <= d.start || d.start + d.size <= m.start + offset
      invariant forall p :: 0 <= p < m.start + offset && Covers(m, d, m.num, p) ==> states[p] != Unmapped
      invariant forall p :: 0 <= p < |states| ==>
                  after[p] == if Covers(m, d, m.num, p) && p < m.start + offset then Unmapped else states[p]
    {
      if skipDTCM && m.start + offset == d.start {
        offset := offset + d.size;
      } else {
        var segmentOffset := offset;
        var status := after[m.start + offset];
        while offset < m.size && after[m.start + offset] == status && (!skipDTCM || m.start + offset != d.start)
          invariant segmentOffset <= offset <= m.size && |after| == |states|
          invariant skipDTCM ==> m.start + offset <= d.start || d.start + d.size <= m.start + offset
          invariant forall p :: 0 <= p < m.start + offset && Covers(m, d, m.num, p) ==> states[p] != Unmapped
          invariant forall p :: 0 <= p < |states| ==>
                      after[p] == if Covers(m, d, m.num, p) && p < m.start + offset then Unmapped else states[p]
        {
          if after[m.start + offset] == Unmapped {
            assert Covers(m, d, m.num, m.start + offset);
            return false, after;
          }
          after := after[m.start + offset := Unmapped];
          offset := offset + 1;
        }
      }
    }
    return true, after;
  }

  // ---- the fixed memory map ------------------------------------------------------------------

  const PAGES: nat := 0x10_0000

  /** What ClassifyAddress9/7, IsFastmemCompatible and GetMirrorLocation make of an address: the mapping
      MapAtAddress would install, if any. */
  type Mirrors = (int, int) -> Option<Mapping>

  /** A mirror is an aligned power-of-two stretch that contains its address, outside the data TCM unless it
      is the data TCM. */
  ghost predicate MirrorOK(mirror: Mirrors, d: Hole, num: int, addr: nat) {
    match mirror(num, addr)
    case None => true
    case Some(m) =>
      && m.num == num && 0 <= num <= 1 && m.start + m.size <= PAGES && Aligned(m.start, m.size)
      && Covers(m, d, num, addr / 0x1000)
  }

  ghost predicate WellFormed(mirror: Mirrors, d: Hole) {
    && (d.size > 0 ==> Aligned(d.start, d.size))
    && forall num: int, addr: nat :: MirrorOK(mirror, d, num, addr)
  }

  lemma MirrorFits(mirror: Mirrors, d: Hole, num: int, addr: nat)
    requires WellFormed(mirror, d) && mirror(num, addr).Some?
    ensures Fits(mirror(num, addr).value, d)
  {
    assert MirrorOK(mirror, d, num, addr);
    var m := mirror(num, addr).value;
    if SkipsHole(m) && d.size > 0 {
      AlignedRegionsNest(m.start, m.size, d.start, d.size);
    }
  }

  ghost predicate Overlap(m: Mapping, n: Mapping, d: Hole) {
    exists p :: Covers(m, d, m.num, p) && Covers(n, d, m.num, p)
  }

  /** Mirrors never overlap by halves: an address outside a mirror has a mirror disjoint from it. */
  ghost predicate Separated(mirror: Mirrors, d: Hole) {
    forall num: int, a: nat, b: nat :: SeparatedAt(mirror, d, num, a, b)
  }

  ghost predicate SeparatedAt(mirror: Mirrors, d: Hole, num: int, a: nat, b: nat) {
    mirror(num, a).Some? && mirror(num, b).Some? && !Covers(mirror(num, a).value, d, num, b / 0x1000) ==>
      !Overlap(mirror(num, a).value, mirror(num, b).value, d)
  }

  /** The state of the page map: the mappings in place and the pages (region, local page) with code. */
  datatype World = World(mappings: seq<Mapping>, code: set<(int, int)>)

  /** `Touch` is a fast-memory access by a CPU, `SetCode` a call of SetCodeProtection. */
  datatype Op = Touch(num: int, addr: nat) | SetCode(region: int, page: nat, protect: bool) | Reset

  ghost predicate Mapped(ms: seq<Mapping>, d: Hole, num: int, p: int) {
    exists i :: 0 <= i < |ms| && Covers(ms[i], d, num, p)
  }

  ghost predicate Blocked(ms: seq<Mapping>, d: Hole, m: Mapping) {
    exists p :: Covers(m, d, m.num, p) && Mapped(ms, d, m.num, p)
  }

  /** One operation; None when an assertion of MapAtAddress fails.  The fault handler maps only what is
      unmapped, and the block cache sets protection only when it changes. */
  ghost function Step(w: World, op: Op, mirror: Mirrors, d: Hole): Option<World> {
    match op
    case Touch(num, addr) =>
      if mirror(num, addr).None? || Mapped(w.mappings, d, num, addr / 0x1000) then Some(w)
      else if Blocked(w.mappings, d, mirror(num, addr).value) then None
      else Some(w.(mappings := w.mappings + [mirror(num, addr).value]))
    case SetCode(region, page, protect) =>
      Some(w.(code := if protect then w.code + {(region, page)} else w.code - {(region, page)}))
    case Reset => Some(w.(mappings := []))
  }

  ghost function Run(ops: seq<Op>, mirror: Mirrors, d: Hole): Option<World> {
    if ops == [] then Some(World([], {}))
    else
      match Run(ops[..|ops| - 1], mirror, d)
      case None => None
      case Some(w) => Step(w, ops[|ops| - 1], mirror, d)
  }

  ghost predicate FromMirror(mirror: Mirrors, m: Mapping) {
    exists addr: nat :: mirror(m.num, addr) == Some(m)
  }

  lemma {:induction false} SeparatedRunsSucceed(ops: seq<Op>, mirror: Mirrors, d: Hole)
    requires WellFormed(mirror, d) && Separated(mirror, d)
    ensures Run(ops, mirror, d).Some?
    ensures forall i :: 0 <= i < |Run(ops, mirror, d).value.mappings| ==> FromMirror(mirror, Run(ops, mirror, d).value.mappings[i])
  {
    if ops != [] {
      SeparatedRunsSucceed(ops[..|ops| - 1], mirror, d);
      var w := Run(ops[..|ops| - 1], mirror, d).value;
      var op := ops[|ops| - 1];
      if op.Touch? && mirror(op.num, op.addr).Some? && !Mapped(w.mappings, d, op.num, op.addr / 0x1000) {
        var m := mirror(op.num, op.addr).value;
        assert MirrorOK(mirror, d, op.num, op.addr);
        if p :| Covers(m, d, m.num, p) && Mapped(w.mappings, d, m.num, p) {
          var i :| 0 <= i < |w.mappings| && Covers(w.mappings[i], d, m.num, p);
          var a: nat :| mirror(m.num, a) == Some(w.mappings[i]);
          assert SeparatedAt(mirror, d, op.num, a, op.addr);
          assert Overlap(w.mappings[i], m, d);
          assert false;
        }
        assert FromMirror(mirror, m);
      }
    }
  }

  /** The assertions of MapAtAddress hold on every run exactly when the mirrors of the memory map are
      separated.  (FastMapIsSafeIff in MemoryMap says for which settings they are.) */
  lemma NoAssertionFailsIffSeparated(mirror: Mirrors, d: Hole)
    requires WellFormed(mirror, d)
    ensures (forall ops :: Run(ops, mirror, d).Some?) <==> Separated(mirror, d)
  {
    if Separated(mirror, d) {
      forall ops ensures Run(ops, mirror, d).Some? {
        SeparatedRunsSucceed(ops, mirror, d);
      }
    }
    if num: int, a: nat, b: nat :| !SeparatedAt(mirror, d, num, a, b) {
      TwoTouchesFail(mirror, d, num, a, b);
    }
  }

  lemma TwoTouchesFail(mirror: Mirrors, d: Hole, num: int, a: nat, b: nat)
    requires WellFormed(mirror, d) && !SeparatedAt(mirror, d, num, a, b)
    ensures Run([Touch(num, a), Touch(num, b)], mirror, d).None?
  {
    var m, n := mirror(num, a).value, mirror(num, b).value;
    assert MirrorOK(mirror, d, num, a) && MirrorOK(mirror, d, num, b);
    var ops := [Touch(num, a), Touch(num, b)];
    assert ops[..1] == [Touch(num, a)] && ops[..1][..0] == [];
    var w := World([m], {});
    assert Run(ops[..1][..0], mirror, d) == Some(World([], {}));
    assert [] + [m] == [m];
    assert Run(ops[..1], mirror, d) == Some(w);
    var p :| Covers(m, d, m.num, p) && Covers(n, d, m.num, p);
    assert w.mappings[0] == m;
    assert Mapped(w.mappings, d, num, p);
    assert Blocked(w.mappings, d, n);
    assert Step(w, ops[1], mirror, d).None?;
  }

  // ---- the page status tables --------------------------------------------------------------------

  ghost predicate Disjoint(ms: seq<Mapping>, d: Hole) {
    forall i, j, p :: 0 <= i < j < |ms| && Covers(ms[i], d, ms[i].num, p) ==> !Covers(ms[j], d, ms[i].num, p)
  }

  /** Every page of every mapping outside the hole is protected exactly when it shows code and read-write
      otherwise; all other pages are unmapped.  The first `done` mappings are judged by `newCode`. */
  ghost predicate Matches(statuses: seq<seq<MemState>>, ms: seq<Mapping>, d: Hole, code: set<(int, int)>,
                          newCode: set<(int, int)>, done: int)
    requires |statuses| == 2 && |statuses[0]| == |statuses[1]| == PAGES
  {
    && (forall i, p :: 0 <= i < |ms| && 0 <= ms[i].num <= 1 && 0 <= p < PAGES && Covers(ms[i], d, ms[i].num, p) ==>
          statuses[ms[i].num][p] == StateFor(ms[i], if i < done then newCode else code, p))
    && (forall num, p :: 0 <= num <= 1 && 0 <= p < PAGES && !Mapped(ms, d, num, p) ==> statuses[num][p] == Unmapped)
  }

  class PageMap {
    const mirror: Mirrors
    const hole: Hole
    var statuses: seq<seq<MemState>>       // MappingStatus9, MappingStatus7
    var mappings: seq<Mapping>             // Mappings, all regions in one list
    var code: set<(int, int)>              // (region, local page) for which PageContainsCode holds

    ghost predicate Shaped()
      reads this
    {
      && |statuses| == 2 && |statuses[0]| == |statuses[1]| == PAGES
      && WellFormed(mirror, hole) && Disjoint(mappings, hole)
      && (forall i :: 0 <= i < |mappings| ==> FromMirror(mirror, mappings[i]))
    }

    ghost predicate Valid()
      reads this
    {
      Shaped() && Matches(statuses, mappings, hole, code, code, 0)
    }

    /** Reset of the memory map leaves every page unmapped and the address spaces without mappings. */
    constructor (mirror: Mirrors, hole: Hole)
      requires WellFormed(mirror, hole)
      ensures Valid() && this.mirror == mirror && this.hole == hole && State() == World([], {})
      ensures forall num, p :: 0 <= num <= 1 && 0 <= p < PAGES ==> statuses[num][p] == Unmapped
    {
      this.mirror, this.hole := mirror, hole;
      statuses := [seq(PAGES, _ => Unmapped), seq(PAGES, _ => Unmapped)];
      mappings, code := [], {};
    }

    ghost function State(): World
      reads this
    {
      World(mappings, code)
    }

    lemma MappingOK(i: nat)
      requires Shaped() && i < |mappings|
      ensures Fits(mappings[i], hole) && mappings[i].start + mappings[i].size <= PAGES && 0 <= mappings[i].num <= 1
    {
      var addr: nat :| mirror(mappings[i].num, addr) == Some(mappings[i]);
      assert MirrorOK(mirror, hole, mappings[i].num, addr);
      MirrorFits(mirror, hole, mappings[i].num, addr);
    }

    /** A fault on an unmapped page.  `ok` is false when an assertion fails, which happens exactly when the
        abstract step has no result. */
    method MapAtAddress(num: int, addr: nat) returns (ok: bool, mapped: bool)
      requires Valid() && 0 <= num <= 1 && addr / 0x1000 < PAGES && statuses[num][addr / 0x1000] == Unmapped
      modifies this
      ensures ok <==> Step(old(State()), Touch(num, addr), mirror, hole).Some?
      ensures ok ==> Valid() && State() == Step(old(State()), Touch(num, addr), mirror, hole).value
      ensures ok ==> (mapped <==> statuses[num][addr / 0x1000] != Unmapped)
    {
      hide WellFormed, Fits, Aligned, StateFor;
      NotMapped(num, addr / 0x1000);
      if mirror(num, addr).None? {
        return true, false;
      }
      var m := mirror(num, addr).value;
      MirrorIsOK(num, addr);
      ok, mapped := true, true;
      var after;
      ok, after := MapPages(statuses[num], m, hole, code);
      UnmappedMeansFree(m);
      if !ok {
        return false, false;
      }
      MatchesAfterMap(statuses, mappings, hole, code, m, after);
      DisjointAfterMap(mappings, hole, m);
      assert FromMirror(mirror, m);
      statuses := statuses[num := after];
      mappings := mappings + [m];
      assert Covers(m, hole, num, addr / 0x1000);
    }

    lemma MirrorIsOK(num: int, addr: nat)
      requires WellFormed(mirror, hole) && mirror(num, addr).Some?
      ensures MirrorOK(mirror, hole, num, addr) && Fits(mirror(num, addr).value, hole)
    {
      assert MirrorOK(mirror, hole, num, addr);
      MirrorFits(mirror, hole, num, addr);
    }

    lemma NotMapped(num: int, p: nat)
      requires Valid() && 0 <= num <= 1 && p < PAGES
      ensures statuses[num][p] == Unmapped <==> !Mapped(mappings, hole, num, p)
    {
      if Mapped(mappings, hole, num, p) {
        var i :| 0 <= i < |mappings| && Covers(mappings[i], hole, num, p);
      }
    }

    lemma UnmappedMeansFree(m: Mapping)
      requires Valid() && 0 <= m.num <= 1 && m.start + m.size <= PAGES
      ensures (forall p :: 0 <= p < PAGES && Covers(m, hole, m.num, p) ==> statuses[m.num][p] == Unmapped) <==>
              !Blocked(mappings, hole, m)
    {
      forall p | 0 <= p < PAGES
        ensures statuses[m.num][p] == Unmapped <==> !Mapped(mappings, hole, m.num, p)
      {
        NotMapped(m.num, p);
      }
    }

    static lemma MatchesAfterMap(statuses: seq<seq<MemState>>, ms: seq<Mapping>, d: Hole, code: set<(int, int)>, m: Mapping, after: seq<MemState>)
      requires |statuses| == 2 && |statuses[0]| == |statuses[1]| == PAGES == |after|
      requires Matches(statuses, ms, d, code, code, 0) && 0 <= m.num <= 1 && !Blocked(ms, d, m)
      requires forall p :: 0 <= p < PAGES ==>
                 after[p] == if Covers(m, d, m.num, p) then StateFor(m, code, p) else statuses[m.num][p]
      ensures Matches(statuses[m.num := after], ms + [m], d, code, code, 0)
    {
      var ms' := ms + [m];
      forall num, p ensures Mapped(ms', d, num, p) <==> Mapped(ms, d, num, p) || Covers(m, d, num, p) {
        if Mapped(ms, d, num, p) {
          var i :| 0 <= i < |ms| && Covers(ms[i], d, num, p);
          assert ms'[i] == ms[i];
        }
        assert ms'[|ms|] == m;
      }
    }

    static lemma DisjointAfterMap(ms: seq<Mapping>, d: Hole, m: Mapping)
      requires Disjoint(ms, d) && !Blocked(ms, d, m)
      ensures Disjoint(ms + [m], d)
    {
      forall i, p | 0 <= i < |ms| && Covers(ms[i], d, ms[i].num, p) ensures !Covers(m, d, ms[i].num, p) {
        if Covers(m, d, ms[i].num, p) {
          assert Mapped(ms, d, m.num, p);
        }
      }
    }

    /** Raise or lower the protection of a page of code in every mapping that shows it.  The assertion in
        the loop never fails. */
    method SetCodeProtection(region: int, page: nat, protect: bool) returns (ok: bool)
      requires Valid() && ((region, page) in code <==> !protect)
      modifies this
      ensures ok && Valid()
      ensures Some(State()) == Step(old(State()), SetCode(region, page, protect), mirror, hole)
    {
      hide WellFormed, Disjoint, Fits, Aligned, Matches;
      var newCode := if protect then code + {(region, page)} else code - {(region, page)};
      MatchesBefore(newCode);
      for i := 0 to |mappings|
        invariant Shaped() && mappings == old(mappings) && code == old(code)
        invariant Matches(statuses, mappings, hole, code, newCode, i)
      {
        var mapping := mappings[i];
        MappingOK(i);
        ProtectOne(region, page, protect, newCode, i);
        if mapping.region != region || page < mapping.local || page >= mapping.local + mapping.size {
          continue;
        }
        var effective := mapping.start + (page - mapping.local);
        if mapping.num == 0 && region != DTCM && InHole(hole, effective) {
          continue;
        }
        if statuses[mapping.num][effective] != if protect then MappedRW else MappedProtected {
          return false;
        }
        statuses := statuses[mapping.num := statuses[mapping.num][effective := if protect then MappedProtected else MappedRW]];
      }
      MatchesAtEnd(newCode);
      code := newCode;
      return true;
    }

    lemma MatchesBefore(newCode: set<(int, int)>)
      requires Valid()
      ensures Matches(statuses, mappings, hole, code, newCode, 0)
    {
    }

    lemma MatchesAtEnd(newCode: set<(int, int)>)
      requires Shaped() && Matches(statuses, mappings, hole, code, newCode, |mappings|)
      ensures Matches(statuses, mappings, hole, newCode, newCode, 0)
    {
    }

    /** One turn of the loop, on values. */
    lemma ProtectOne(region: int, page: nat, protect: bool, newCode: set<(int, int)>, i: nat)
      requires Shaped() && i < |mappings| && Matches(statuses, mappings, hole, code, newCode, i)
      requires newCode == if protect then code + {(region, page)} else code - {(region, page)}
      requires (region, page) in code <==> !protect
      requires mappings[i].start + mappings[i].size <= PAGES && 0 <= mappings[i].num <= 1
      ensures var m := mappings[i]; var e := m.start + (page - m.local);
              if m.region == region && m.local <= page < m.local + m.size && !(m.num == 0 && region != DTCM && InHole(hole, e)) then
                && statuses[m.num][e] == (if protect then MappedRW else MappedProtected)
                && Matches(statuses[m.num := statuses[m.num][e := if protect then MappedProtected else MappedRW]],
                           mappings, hole, code, newCode, i + 1)
              else
                Matches(statuses, mappings, hole, code, newCode, i + 1)
    {
      hide WellFormed, Fits, Aligned, FromMirror, Matches, Disjoint;
      var m := mappings[i];
      var e := m.start + (page - m.local);
      forall p | 0 <= p < PAGES && Covers(m, hole, m.num, p) && (m.region != region || p != e)
        ensures StateFor(m, newCode, p) == StateFor(m, code, p)
      {
      }
      if m.region == region && m.local <= page < m.local + m.size && !(m.num == 0 && region != DTCM && InHole(hole, e)) {
        assert Covers(m, hole, m.num, e);
        FlipPage(statuses, mappings, hole, code, newCode, i, e);
      } else {
        SkipMapping(statuses, mappings, hole, code, newCode, i);
      }
    }

    static lemma SkipMapping(statuses: seq<seq<MemState>>, ms: seq<Mapping>, d: Hole, code: set<(int, int)>,
                             newCode: set<(int, int)>, i: nat)
      requires |statuses| == 2 && |statuses[0]| == |statuses[1]| == PAGES && i < |ms|
      requires Matches(statuses, ms, d, code, newCode, i)
      requires forall p :: 0 <= p < PAGES && Covers(ms[i], d, ms[i].num, p) ==> StateFor(ms[i], newCode, p) == StateFor(ms[i], code, p)
      ensures Matches(statuses, ms, d, code, newCode, i + 1)
    {
      hide StateFor;
    }

    static lemma FlipPage(statuses: seq<seq<MemState>>, ms: seq<Mapping>, d: Hole, code: set<(int, int)>,
                          newCode: set<(int, int)>, i: nat, e: nat)
      requires |statuses| == 2 && |statuses[0]| == |statuses[1]| == PAGES && i < |ms| && Disjoint(ms, d)
      requires Matches(statuses, ms, d, code, newCode, i) && 0 <= ms[i].num <= 1 && e < PAGES && Covers(ms[i], d, ms[i].num, e)
      requires forall p :: 0 <= p < PAGES && p != e && Covers(ms[i], d, ms[i].num, p) ==>
                 StateFor(ms[i], newCode, p) == StateFor(ms[i], code, p)
      ensures statuses[ms[i].num][e] == StateFor(ms[i], code, e)
      ensures Matches(statuses[ms[i].num := statuses[ms[i].num][e := StateFor(ms[i], newCode, e)]], ms, d, code, newCode, i + 1)
    {
      hide StateFor;
      assert Mapped(ms, d, ms[i].num, e);
    }

    /** The code index is emptied, which ResetBlockCache does once nothing is mapped. */
    method ForgetCode()
      requires Valid() && mappings == []
      modifies `code
      ensures Valid() && State() == World([], {})
    {
      code := {};
    }

    /** Unmap everything.  No assertion fails, and afterwards every page is unmapped. */
    method Reset() returns (ok: bool)
      requires Valid()
      modifies this
      ensures ok && Valid() && Some(State()) == Step(old(State()), Op.Reset, mirror, hole)
      ensures forall num, p :: 0 <= num <= 1 && 0 <= p < PAGES ==> statuses[num][p] == Unmapped
    {
      hide WellFormed, Fits, Aligned, StateFor, Matches, Disjoint;
      for i := 0 to |mappings|
        invariant Shaped() && mappings == old(mappings) && code == old(code)
        invariant Matches(statuses, mappings[i..], hole, code, code, 0)
      {
        MappingOK(i);
        AllMapped(statuses, mappings, hole, code, i);
        var after;
        ok, after := UnmapPages(statuses[mappings[i].num], mappings[i], hole);
        if !ok {
          return false;
        }
        MatchesAfterUnmap(statuses, mappings, hole, code, i, after);
        statuses := statuses[mappings[i].num := after];
      }
      assert mappings[|mappings|..] == [];
      NothingMapped(statuses, hole, code);
      mappings := [];
      return true;
    }

    static lemma AllMapped(statuses: seq<seq<MemState>>, ms: seq<Mapping>, d: Hole, code: set<(int, int)>, i: nat)
      requires |statuses| == 2 && |statuses[0]| == |statuses[1]| == PAGES
      requires i < |ms| && 0 <= ms[i].num <= 1 && Matches(statuses, ms[i..], d, code, code, 0)
      ensures forall p :: 0 <= p < PAGES && Covers(ms[i], d, ms[i].num, p) ==> statuses[ms[i].num][p] != Unmapped
    {
      assert ms[i..][0] == ms[i];
    }

    static lemma MatchesAfterUnmap(statuses: seq<seq<MemState>>, ms: seq<Mapping>, d: Hole, code: set<(int, int)>, i: nat, after: seq<MemState>)
      requires |statuses| == 2 && |statuses[0]| == |statuses[1]| == PAGES == |after|
      requires i < |ms| && 0 <= ms[i].num <= 1 && Matches(statuses, ms[i..], d, code, code, 0) && Disjoint(ms, d)
      requires forall p :: 0 <= p < PAGES ==>
                 after[p] == if Covers(ms[i], d, ms[i].num, p) then Unmapped else statuses[ms[i].num][p]
      ensures Matches(statuses[ms[i].num := after], ms[i + 1..], d, code, code, 0)
    {
      var rest, all := ms[i + 1..], ms[i..];
      assert all[0] == ms[i] && forall j :: 0 <= j < |rest| ==> rest[j] == all[j + 1] == ms[i + 1 + j];
      forall num, p | Mapped(all, d, num, p) && !Covers(ms[i], d, num, p) ensures Mapped(rest, d, num, p) {
        var j :| 0 <= j < |all| && Covers(all[j], d, num, p);
        assert rest[j - 1] == all[j];
      }
    }

    static lemma NothingMapped(statuses: seq<seq<MemState>>, d: Hole, code: set<(int, int)>)
      requires |statuses| == 2 && |statuses[0]| == |statuses[1]| == PAGES && Matches(statuses, [], d, code, code, 0)
      ensures forall num, p :: 0 <= num <= 1 && 0 <= p < PAGES ==> statuses[num][p] == Unmapped
      ensures Disjoint([], d)
    {
      assert forall num, p :: !Mapped([], d, num, p);
    }
  }
}
