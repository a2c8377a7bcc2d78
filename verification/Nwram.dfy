/** The banks of DSi work RAM (src/DSi.cpp): bank A has four parts of 64 KB for two processors, banks B and C
    eight parts of 32 KB for two processors and the DSP. One MBK byte places each part. */
module NwRam {
  import opened Machine
  import Division

  const ENABLE: int := 0x80

  /** The bits of an MBK byte that can be set at all: val &= ~0x72 for bank A, val &= ~0x60 for B and C. */
  function Settable(isA: bool, val: u8): u8 {
    if isA then val / 0x80 * 0x80 + val / 4 % 4 * 4 + val % 2 else val / 0x80 * 0x80 + val % 0x20
  }

  /** What a write loses: bits 1 and 4 to 6 in bank A, bits 5 and 6 in the others. */
  lemma LostBits(isA: bool, val: u8)
    ensures val - Settable(isA, val) == if isA then val / 0x10 % 8 * 0x10 + val / 2 % 2 * 2 else val / 0x20 % 4 * 0x20
  {
    var (p, q, h) := (val / 2, val / 4, val / 0x10);
    Division.Nested(val, 2, 2);
    Division.Nested(val, 4, 4);
    Division.Nested(val, 0x10, 8);
    Division.Nested(val, 0x20, 4);
    assert val == p * 2 + val % 2 && p == q * 2 + p % 2 && q == h * 4 + q % 4 && h == val / 0x80 * 8 + h % 8;
    assert val == val / 0x20 * 0x20 + val % 0x20 && val / 0x20 == val / 0x80 * 4 + val / 0x20 % 4;
  }

  function Parts(isA: bool): nat {
    if isA then 4 else 8
  }

  function Dests(isA: bool): nat {
    if isA then 2 else 3
  }

  function PartSize(isA: bool): nat {
    if isA then 0x1_0000 else 0x8000
  }

  /** Where an enabled part shows up: the processor, values 2 and 3 both being the DSP, and the slot. */
  function Dest(val: u8): nat {
    if val / 2 % 2 == 1 then 2 else val % 2
  }

  function Slot(isA: bool, val: u8): nat {
    val / 4 % Parts(isA)
  }

  predicate MapsTo(isA: bool, val: u8, dest: nat, slot: nat) {
    val >= ENABLE && Dest(val) == dest && Slot(isA, val) == slot
  }

  /** A byte with nothing but settable bits is equal to the pattern a write compares it with exactly when the
      part is placed at the slot of that processor. */
  lemma PatternIsPlacement(isA: bool, val: u8, cpu: nat, slot: nat)
    requires val == Settable(isA, val) && cpu < 2 && slot < Parts(isA)
    ensures val == ENABLE + 4 * slot + cpu <==> MapsTo(isA, val, cpu, slot)
  {
    var low := val % 0x20;
    if isA {
      assert val % 2 == val % 4;
    }
    assert val % 4 == val / 2 % 2 * 2 + val % 2;
  }

  /** The values of a byte that place its part at a slot of a processor, and of the DSP, which bank A does not know. */
  lemma PlacingValues(isA: bool, val: u8, dest: nat, slot: nat)
    requires val == Settable(isA, val) && slot < Parts(isA)
    ensures MapsTo(isA, val, dest, slot) <==>
      val in match dest
             case 0 => {0x80 + 4 * slot}
             case 1 => {0x81 + 4 * slot}
             case 2 => if isA then {} else {0x82 + 4 * slot, 0x83 + 4 * slot}
             case _ => {}
  {
    if dest < 2 {
      PatternIsPlacement(isA, val, dest, slot);
    }
    SettableDest(isA, val);
    assert val % 4 == val / 2 % 2 * 2 + val % 2;
  }

  /** The lowest-numbered part from `from` on that is placed at a slot. */
  function Lowest(isA: bool, mbk: seq<u8>, dest: nat, slot: nat, from: nat): (r: Option<nat>)
    ensures r.Some? ==> from <= r.value < |mbk| && MapsTo(isA, mbk[r.value], dest, slot)
    ensures forall p :: from <= p < |mbk| && (r.Some? ==> p < r.value) ==> !MapsTo(isA, mbk[p], dest, slot)
    decreases |mbk| - from
  {
    if from >= |mbk| then None
    else if MapsTo(isA, mbk[from], dest, slot) then Some(from)
    else Lowest(isA, mbk, dest, slot, from + 1)
  }

  class NwramBank {
    const isA: bool
    /** The MBK bytes as the ARM9 and the ARM7 see them, and the write-protect bits. */
    var mbk: seq<u8>
    var mbk7: seq<u8>
    var locked: seq<bool>
    /** The part behind each slot of each processor. */
    var slots: seq<seq<Option<nat>>>
    var parts: seq<seq<u8>>

    ghost predicate Shape()
      reads this
    {
      && |mbk| == |mbk7| == |locked| == |parts| == Parts(isA)
      && |slots| == Dests(isA) && (forall d :: 0 <= d < |slots| ==> |slots[d]| == Parts(isA))
      && (forall p :: 0 <= p < |parts| ==> |parts[p]| == PartSize(isA))
    }

    /** The slot table is a function of the MBK bytes alone: the lowest-numbered part wins. */
    ghost predicate Mapped(from: nat)
      requires Shape()
      reads this
    {
      forall d, s :: 0 <= d < Dests(isA) && 0 <= s < Parts(isA) ==> slots[d][s] == Lowest(isA, mbk, d, s, from)
    }

    ghost predicate Valid()
      reads this
    {
      && Shape() && mbk7 == mbk && Mapped(0)
      && (forall p :: 0 <= p < |mbk| ==> mbk[p] == Settable(isA, mbk[p]))
    }

    constructor (isA: bool)
      ensures |parts| == (if isA then 4 else 8) && |slots| == (if isA then 2 else 3)
      ensures forall p :: 0 <= p < |parts| ==> |parts[p]| == if isA then 0x1_0000 else 0x8000
      ensures Valid() && this.isA == isA && forall d, s :: 0 <= d < Dests(isA) && 0 <= s < Parts(isA) ==> slots[d][s] == None
    {
      this.isA := isA;
      mbk := seq(Parts(isA), _ => 0);
      mbk7 := seq(Parts(isA), _ => 0);
      locked := seq(Parts(isA), _ => false);
      slots := seq(Dests(isA), _ => seq(Parts(isA), _ => None));
      parts := seq(Parts(isA), _ => seq(PartSize(isA), _ => 0));
    }

    /** The loop that rebuilds the table, from the last part down so that the lowest-numbered one stays. */
    method Rebuild()
      requires Shape() && forall p :: 0 <= p < |mbk| ==> mbk[p] == Settable(isA, mbk[p])
      modifies `slots
      ensures Shape() && Mapped(0)
    {
      slots := seq(Dests(isA), _ => seq(Parts(isA), _ => None));
      var part: nat := Parts(isA);
      while part > 0
        invariant Shape() && part <= Parts(isA)
        invariant Mapped(part)
      {
        part := part - 1;
        var val := mbk[part];
        SettableDest(isA, val);
        if val >= ENABLE {
          var d, s := Dest(val), Slot(isA, val);
          slots := slots[d := slots[d][s := Some(part)]];
        }
      }
    }

    /** MapNWRAM_A, MapNWRAM_B and MapNWRAM_C: a write of one MBK byte. */
    method MapPart(num: nat, val: u8)
      requires Valid() && num < Parts(isA)
      modifies `mbk, `mbk7, `slots
      ensures Valid()
      ensures mbk == if locked[num] then old(mbk) else old(mbk)[num := Settable(isA, val)]
    {
      var masked := Settable(isA, val);
      if locked[num] {
        return;
      }
      if mbk[num] == masked {
        return;
      }
      SettableTwice(isA, val);
      mbk := mbk[num := masked];
      mbk7 := mbk;
      Rebuild();
    }

    /** The bytes a processor reads: those of the part behind the slot, or zeros. */
    method Read(cpu: nat, slot: nat, offset: nat, size: nat) returns (data: seq<u8>)
      requires Valid() && cpu < 2 && slot < Parts(isA) && offset + size <= PartSize(isA)
      ensures data == Seen(isA, mbk, parts, cpu, slot, offset, size)
    {
      var p := slots[cpu][slot];
      match p {
        case Some(part) => data := parts[part][offset..offset + size];
        case None => data := seq(size, _ => 0);
      }
    }

    /** A processor's write goes to every part placed at the slot, not only the one it reads. */
    method Write(cpu: nat, slot: nat, offset: nat, data: seq<u8>)
      requires Valid() && cpu < 2 && slot < Parts(isA) && offset + |data| <= PartSize(isA)
      modifies `parts
      ensures Valid()
      ensures forall p :: 0 <= p < Parts(isA) ==>
        parts[p] == if MapsTo(isA, mbk[p], cpu, slot) then Patched(old(parts[p]), offset, data) else old(parts[p])
    {
      var pattern := ENABLE + 4 * slot + cpu;
      var page := 0;
      while page < Parts(isA)
        invariant page <= Parts(isA) && Valid()
        invariant forall p :: 0 <= p < Parts(isA) ==>
          parts[p] == if p < page && MapsTo(isA, mbk[p], cpu, slot) then Patched(old(parts[p]), offset, data) else old(parts[p])
      {
        var bankInfo := if cpu == 0 then mbk[page] else mbk7[page];
        PatternIsPlacement(isA, mbk[page], cpu, slot);
        if bankInfo == pattern {
          parts := parts[page := Patched(parts[page], offset, data)];
        }
        page := page + 1;
      }
    }
  }

  /** What a processor sees at a slot: the bytes of the lowest-numbered part placed there, or zeros. */
  function Seen(isA: bool, mbk: seq<u8>, parts: seq<seq<u8>>, cpu: nat, slot: nat, offset: nat, size: nat): seq<u8>
    requires |mbk| == |parts| && forall p :: 0 <= p < |parts| ==> offset + size <= |parts[p]|
  {
    var p := Lowest(isA, mbk, cpu, slot, 0);
    if p.Some? then parts[p.value][offset..offset + size] else seq(size, _ => 0)
  }

  /** After a write to all parts of a slot, a read of the same place gives the written bytes, unless nothing is
      placed there; no other slot and no
      other processor sees a change. */
  lemma WriteThenRead(isA: bool, mbk: seq<u8>, before: seq<seq<u8>>, after: seq<seq<u8>>, cpu: nat, slot: nat, offset: nat, data: seq<u8>)
    requires |mbk| == |before| == |after|
    requires forall p :: 0 <= p < |before| ==> offset + |data| <= |before[p]| == |after[p]|
    requires forall p :: 0 <= p < |mbk| ==>
      after[p] == if MapsTo(isA, mbk[p], cpu, slot) then Patched(before[p], offset, data) else before[p]
    ensures Seen(isA, mbk, after, cpu, slot, offset, |data|)
         == if Lowest(isA, mbk, cpu, slot, 0).Some? then data else seq(|data|, _ => 0)
    ensures forall c, s :: (c != cpu || s != slot) ==>
      Seen(isA, mbk, after, c, s, offset, |data|) == Seen(isA, mbk, before, c, s, offset, |data|)
  {
    forall c, s | c != cpu || s != slot
      ensures Seen(isA, mbk, after, c, s, offset, |data|) == Seen(isA, mbk, before, c, s, offset, |data|)
    {
      var p := Lowest(isA, mbk, c, s, 0);
    }
  }

  lemma SettableDest(isA: bool, val: u8)
    requires val == Settable(isA, val)
    ensures Dest(val) < Dests(isA)
  {
    if isA {
      assert val % 4 == val % 2;
    }
  }

  lemma SettableTwice(isA: bool, val: u8)
    ensures Settable(isA, Settable(isA, val)) == Settable(isA, val)
  {
    if isA {
      SettableDigits(val / 0x80, val / 4 % 4, val % 2);
    } else {
      var low := val % 0x20;
      assert (val / 0x80 * 0x80 + low) / 0x80 == val / 0x80;
      assert (val / 0x80 * 0x80 + low) % 0x20 == low;
    }
  }

  lemma SettableDigits(e: nat, s: nat, d: nat)
    requires e <= 1 && s <= 3 && d <= 1
    ensures var w := e * 0x80 + s * 4 + d;
            w / 0x80 == e && w / 4 % 4 == s && w % 2 == d
  {
    var w := e * 0x80 + s * 4 + d;
    assert w / 4 == e * 0x20 + s;
  }

  function Patched(part: seq<u8>, offset: nat, data: seq<u8>): (r: seq<u8>)
    requires offset + |data| <= |part|
    ensures |r| == |part| && r[offset..offset + |data|] == data && r[..offset] == part[..offset]
    ensures r[offset + |data|..] == part[offset + |data|..]
  {
    part[..offset] + data + part[offset + |data|..]
  }
}
