/** The JIT block cache (src/ARMJIT.cpp: bookkeeping half of CompileBlock, InvalidateByAddr,
    RetireJitBlock, ResetBlockCache, LookUpBlock; src/ARMJIT.h: CheckAndInvalidate).

    Local addresses carry their memory region in the top five bits, so one number names a place in
    every table.  The code index is divided into 512-byte ranges (named by address / 512), each with a
    mask of 16-byte units; eight ranges make a page. */
module BlockCaching {
  import opened Machine
  import Pages = PageProtection

  /** TinyVector::Remove: the last element takes the place of the removed one. */
  function RemoveAt<T>(s: seq<T>, i: nat): seq<T>
    requires i < |s|
  {
    s[i := s[|s| - 1]][..|s| - 1]
  }

  ghost predicate NoDuplicates<T>(s: seq<T>) {
    forall i, j :: 0 <= i < j < |s| ==> s[i] != s[j]
  }

  lemma RemoveAtRemoves<T>(s: seq<T>, i: nat)
    requires i < |s| && NoDuplicates(s)
    ensures NoDuplicates(RemoveAt(s, i))
    ensures forall x :: x in RemoveAt(s, i) <==> x in s && x != s[i]
  {
    var t := RemoveAt(s, i);
    forall x | x in s && x != s[i] ensures x in t {
      var k :| 0 <= k < |s| && s[k] == x;
      assert t[if k == |s| - 1 then i else k] == x;
    }
  }

  /** A compiled block.  `id` is its address as an object, `ranges` and `masks` its AddressRanges (as
      range numbers) and AddressMasks, `entry` its EntryPoint. */
  datatype Block = Block(
    id: nat, num: nat, startAddr: u32, startLocal: u32, instrHash: u32, literalHash: u32,
    ranges: seq<nat>, masks: seq<set<int>>, literals: seq<u32>, entry: int)

  datatype Range = Range(blocks: seq<Block>, code: set<int>)

  /** A fast-lookup slot: `(addr | num)` in the high half, the entry offset in the low half. */
  datatype Slot = Slot(key: int, entry: int)

  const EMPTY_KEY: int := 0xFFFF_FFFF
  const EMPTY_SLOT: Slot := Slot(EMPTY_KEY, 0)

  ghost predicate WellFormed(b: Block) {
    && NoDuplicates(b.ranges) && |b.masks| == |b.ranges|
    && (forall j :: 0 <= j < |b.masks| ==> b.masks[j] != {})
    && b.num <= 1 && b.startAddr % 2 == 0 && b.startAddr + b.num != EMPTY_KEY
  }

  /** The 16-byte units of range k that block b was compiled from. */
  ghost function MaskAt(b: Block, k: int): set<int>
    requires |b.masks| == |b.ranges|
  {
    if j :| 0 <= j < |b.ranges| && b.ranges[j] == k then b.masks[j] else {}
  }

  function At(ranges: map<int, Range>, k: int): Range {
    if k in ranges then ranges[k] else Range([], {})
  }

  /** The ranges list the blocks of `live` exactly where they name them, and block b exactly at `at`. */
  ghost predicate Lists(ranges: map<int, Range>, live: set<Block>, b: Block, at: set<int>) {
    && b !in live
    && (forall k: int, c: Block :: c in At(ranges, k).blocks <==> (c in live && k in c.ranges) || (c == b && k in at))
    && (forall k: int :: NoDuplicates(At(ranges, k).blocks))
  }

  ghost predicate PageHasCode(ranges: map<int, Range>, page: int) {
    exists k :: 8 * page <= k < 8 * page + 8 && At(ranges, k).blocks != []
  }

  /** A page by its region and its number in the region, as the page map names it. */
  function CodePage(page: int): (int, int) {
    (page / 0x8000, page % 0x8000)
  }

  /** The pages the page map protects are those that contain code. */
  ghost predicate Protects(ranges: map<int, Range>, code: set<(int, int)>) {
    forall page: int :: CodePage(page) in code <==> PageHasCode(ranges, page)
  }

  lemma {:induction false} ListsAfterAdd(ranges: map<int, Range>, live: set<Block>, b: Block, at: set<int>, k: int, code: set<int>)
    requires Lists(ranges, live, b, at) && k !in at
    ensures Lists(ranges[k := Range(At(ranges, k).blocks + [b], code)], live, b, at + {k})
  {
    var after := ranges[k := Range(At(ranges, k).blocks + [b], code)];
    assert b !in At(ranges, k).blocks;
    forall q: int, c: Block
      ensures c in At(after, q).blocks <==> (c in live && q in c.ranges) || (c == b && q in at + {k})
    {
      assert c in At(ranges, q).blocks <==> (c in live && q in c.ranges) || (c == b && q in at);
    }
    forall q: int ensures NoDuplicates(At(after, q).blocks) {
      assert NoDuplicates(At(ranges, q).blocks);
    }
  }

  lemma {:induction false} ListsAfterRemove(ranges: map<int, Range>, live: set<Block>, b: Block, at: set<int>, k: int, i: nat, code: set<int>)
    requires Lists(ranges, live, b, at) && i < |At(ranges, k).blocks| && At(ranges, k).blocks[i] == b
    ensures Lists(ranges[k := Range(RemoveAt(At(ranges, k).blocks, i), code)], live, b, at - {k})
  {
    assert NoDuplicates(At(ranges, k).blocks);
    RemoveAtRemoves(At(ranges, k).blocks, i);
    var after := ranges[k := Range(RemoveAt(At(ranges, k).blocks, i), code)];
    forall q: int, c: Block
      ensures c in At(after, q).blocks <==> (c in live && q in c.ranges) || (c == b && q in at - {k})
    {
      assert c in At(ranges, q).blocks <==> (c in live && q in c.ranges) || (c == b && q in at);
    }
    forall q: int ensures NoDuplicates(At(after, q).blocks) {
      assert NoDuplicates(At(ranges, q).blocks);
    }
  }

  /** Blocks sit in the map under their own CPU and start address, at the local address of that start. */
  ghost predicate Filed(jitBlocks: map<(int, int), Block>, localise: (int, int) -> int) {
    forall key :: key in jitBlocks ==> FiledAs(jitBlocks[key], key, localise)
  }

  ghost predicate FiledAs(b: Block, key: (int, int), localise: (int, int) -> int) {
    (b.num, b.startAddr) == key && WellFormed(b) && b.startLocal == localise(b.num, b.startAddr)
  }

  /** Every range's code mask covers the units of the blocks it lists (ranges in `except` aside); a range
      without blocks has no code. */
  ghost predicate Covers(ranges: map<int, Range>, except: set<int>) {
    forall k: int :: k !in except ==>
      && (At(ranges, k).blocks == [] ==> At(ranges, k).code == {})
      && forall c :: c in At(ranges, k).blocks && WellFormed(c) ==> MaskAt(c, k) <= At(ranges, k).code
  }

  /** A slot that is not empty names a block that is in the map and starts there. */
  ghost predicate SlotsNameBlocks(fast: map<int, Slot>, jitBlocks: map<(int, int), Block>) {
    forall s :: s in fast && fast[s].key != EMPTY_KEY ==> SlotNames(fast[s], s, jitBlocks)
  }

  ghost predicate SlotNames(slot: Slot, s: int, jitBlocks: map<(int, int), Block>) {
    var key := (slot.key % 2, slot.key - slot.key % 2);
    key in jitBlocks && jitBlocks[key].startLocal / 2 == s && jitBlocks[key].entry == slot.entry
  }

  /** Where a block object is: in the map, among the restore candidates, deleted, or in the hands of the
      running operation. */
  datatype Place = Live(key: (int, int)) | Candidate(hash: int) | Deleted | InHand

  /** Every block object ever created is in exactly one place. */
  ghost predicate Owned(jitBlocks: map<(int, int), Block>, candidates: map<int, Block>, places: map<nat, Place>) {
    && (forall key :: key in jitBlocks ==> jitBlocks[key].id in places && places[jitBlocks[key].id] == Live(key))
    && (forall h :: h in candidates ==> candidates[h].id in places && places[candidates[h].id] == Candidate(h))
    && (forall id :: id in places ==>
          match places[id]
          case Live(key) => key in jitBlocks && jitBlocks[key].id == id
          case Candidate(h) => h in candidates && candidates[h].id == id
          case Deleted => true
          case InHand => true)
  }

  /** Restore candidates are complete blocks, kept under their instruction hash. */
  ghost predicate Restorable(candidates: map<int, Block>, localise: (int, int) -> int) {
    forall h :: h in candidates ==>
      candidates[h].instrHash == h && FiledAs(candidates[h], (candidates[h].num, candidates[h].startAddr), localise)
  }

  class BlockCache {
    const localise: (int, int) -> int          // LocaliseCodeAddress under a fixed memory map

    var ranges: map<int, Range>                // CodeMemRegions
    var jitBlocks: map<(int, int), Block>      // JitBlocks9 and JitBlocks7, keyed by CPU and start address
    var fast: map<int, Slot>                   // FastBlockLookupRegions, by local address / 2
    var candidates: map<int, Block>            // RestoreCandidates
    var invalidLiterals: set<u32>
    const pages: Pages.PageMap                       // the page map, whose protection follows the blocks

    ghost var places: map<nat, Place>          // of every block ever created

    ghost predicate Valid()
      reads this, pages
    {
      && Filed(jitBlocks, localise)
      && Lists(ranges, jitBlocks.Values, NoBlock(), {})
      && Covers(ranges, {})
      && SlotsNameBlocks(fast, jitBlocks)
      && Owned(jitBlocks, candidates, places) && Restorable(candidates, localise)
      && (forall id :: id in places ==> places[id] != InHand)
      && Guarded()
    }

    /** The page map keeps its own invariant and protects exactly the pages with code. */
    ghost predicate Guarded()
      reads `ranges, pages
    {
      pages.Valid() && Protects(ranges, pages.code)
    }

    /** A block that is never created, for the ranges list no block beyond the live ones. */
    static ghost function NoBlock(): Block {
      Block(0, 2, 0, 0, 0, 0, [], [], [], 0)
    }

    constructor (localise: (int, int) -> int, mirror: Pages.Mirrors, hole: Pages.Hole)
      requires Pages.WellFormed(mirror, hole)
      ensures Valid() && this.localise == localise && fresh(pages) && pages.mirror == mirror && pages.hole == hole && pages.mappings == []
      ensures ranges == map[] && jitBlocks == map[] && fast == map[] && candidates == map[] && places == map[]
      ensures invalidLiterals == {}
    {
      this.localise := localise;
      ranges, jitBlocks, fast, candidates, places := map[], map[], map[], map[], map[];
      invalidLiterals := {};
      pages := new Pages.PageMap(mirror, hole);
    }

    method PageContainsCode(k: nat) returns (r: bool)
      ensures r <==> PageHasCode(ranges, k / 8)
    {
      for i := 0 to 8
        invariant forall q :: k / 8 * 8 <= q < k / 8 * 8 + i ==> At(ranges, q).blocks == []
      {
        if |At(ranges, k / 8 * 8 + i).blocks| > 0 {
          return true;
        }
      }
      return false;
    }

    /** The call of the page map. Its assertion holds as long as the page changes state. */
    method SetCodeProtection(page: nat, protect: bool)
      requires pages.Valid() && (CodePage(page) in pages.code <==> !protect)
      modifies pages
      ensures pages.Valid() && pages.mappings == old(pages.mappings)
      ensures pages.code == if protect then old(pages.code) + {CodePage(page)} else old(pages.code) - {CodePage(page)}
    {
      hide Pages.PageMap.Valid;
      var ok := pages.SetCodeProtection(page / 0x8000, page % 0x8000, protect);
      assert ok;
    }

    /** List block b in range k, raising the protection of the page if it had no code. */
    method AddToRange(b: Block, k: nat, mask: set<int>, ghost live: set<Block>, ghost at: set<int>)
      requires Lists(ranges, live, b, at) && k !in at && Guarded()
      modifies `ranges, pages
      ensures Lists(ranges, live, b, at + {k}) && Guarded() && pages.mappings == old(pages.mappings)
      ensures ranges == old(ranges)[k := Range(At(old(ranges), k).blocks + [b], At(old(ranges), k).code + mask)]
    {
      hide Lists, NoDuplicates;
      ListsAfterAdd(ranges, live, b, at, k, At(ranges, k).code + mask);
      var hasCode := PageContainsCode(k);
      if !hasCode {
        SetCodeProtection(k / 8, true);
      }
      PagesAfterAdd(ranges, k, Range(At(ranges, k).blocks + [b], At(ranges, k).code + mask));
      ranges := ranges[k := Range(At(ranges, k).blocks + [b], At(ranges, k).code + mask)];
    }

    static lemma PagesAfterAdd(ranges: map<int, Range>, k: nat, range: Range)
      requires range.blocks != []
      ensures forall page: int :: PageHasCode(ranges[k := range], page) <==> PageHasCode(ranges, page) || page == k / 8
    {
      var after := ranges[k := range];
      assert 8 * (k / 8) <= k < 8 * (k / 8) + 8;
      assert At(after, k) == range;
      forall page: int | page != k / 8
        ensures PageHasCode(after, page) <==> PageHasCode(ranges, page)
      {
        assert forall q: int :: q != k ==> At(after, q) == At(ranges, q);
      }
    }

    /** Take the block at index i of range k off its list, lowering the protection of the page if that
        was its last code. */
    method RemoveFromRange(b: Block, k: nat, i: nat, code: set<int>, ghost live: set<Block>, ghost at: set<int>)
      requires Lists(ranges, live, b, at) && Guarded()
      requires i < |At(ranges, k).blocks| && At(ranges, k).blocks[i] == b
      modifies `ranges, pages
      ensures Lists(ranges, live, b, at - {k}) && Guarded() && pages.mappings == old(pages.mappings)
      ensures ranges == old(ranges)[k := Range(RemoveAt(At(old(ranges), k).blocks, i), code)]
    {
      hide Lists, NoDuplicates;
      ListsAfterRemove(ranges, live, b, at, k, i, code);
      ghost var before := ranges;
      ranges := ranges[k := Range(RemoveAt(At(ranges, k).blocks, i), code)];
      PagesAfterRemove(before, k, ranges[k]);
      if |ranges[k].blocks| == 0 {
        var hasCode := PageContainsCode(k);
        if !hasCode {
          SetCodeProtection(k / 8, false);
        }
      }
    }

    static lemma PagesAfterRemove(ranges: map<int, Range>, k: nat, range: Range)
      requires At(ranges, k).blocks != []
      ensures PageHasCode(ranges, k / 8)
      ensures forall page: int :: page != k / 8 ==> (PageHasCode(ranges[k := range], page) <==> PageHasCode(ranges, page))
      ensures range.blocks != [] ==> PageHasCode(ranges[k := range], k / 8)
    {
      var after := ranges[k := range];
      assert 8 * (k / 8) <= k < 8 * (k / 8) + 8;
      assert At(after, k) == range;
      forall page: int | page != k / 8
        ensures PageHasCode(after, page) <==> PageHasCode(ranges, page)
      {
        assert forall q: int :: q != k ==> At(after, q) == At(ranges, q);
      }
    }

    method Erase(key: (int, int)) returns (block: Block)
      requires key in jitBlocks && Owned(jitBlocks, candidates, places)
      modifies `jitBlocks, `places
      ensures Owned(jitBlocks, candidates, places)
      ensures block == old(jitBlocks)[key] && jitBlocks == old(jitBlocks) - {key}
      ensures block.id in old(places) && old(places)[block.id] == Live(key) && places == old(places)[block.id := InHand]
    {
      block := jitBlocks[key];
      places := places[block.id := InHand];
      jitBlocks := jitBlocks - {key};
    }

    method TakeCandidate(h: int) returns (block: Block)
      requires h in candidates && Owned(jitBlocks, candidates, places)
      modifies `candidates, `places
      ensures Owned(jitBlocks, candidates, places)
      ensures block == old(candidates)[h] && candidates == old(candidates) - {h}
      ensures block.id in old(places) && places == old(places)[block.id := InHand]
    {
      block := candidates[h];
      places := places[block.id := InHand];
      candidates := candidates - {h};
    }

    /** Hand the block over to RestoreCandidates; an older candidate with the same hash is deleted. */
    method RetireJitBlock(block: Block)
      requires block.id in places && places[block.id] == InHand
      requires FiledAs(block, (block.num, block.startAddr), localise)
      requires Owned(jitBlocks, candidates, places) && Restorable(candidates, localise)
      modifies `candidates, `places
      ensures Owned(jitBlocks, candidates, places) && Restorable(candidates, localise)
      ensures candidates == old(candidates)[block.instrHash := block]
      ensures places.Keys == old(places.Keys) && places[block.id] == Candidate(block.instrHash)
      ensures forall id :: id in places && old(places)[id] == Deleted ==> places[id] == Deleted
      ensures forall id :: id in places && id != block.id && places[id] == InHand ==> old(places)[id] == InHand
    {
      if block.instrHash in candidates {
        places := places[candidates[block.instrHash].id := Deleted];
      }
      places := places[block.id := Candidate(block.instrHash)];
      candidates := candidates[block.instrHash := block];
    }

    method Delete(block: Block)
      requires block.id in places && places[block.id] == InHand && Owned(jitBlocks, candidates, places)
      modifies `places
      ensures Owned(jitBlocks, candidates, places)
      ensures places == old(places)[block.id := Deleted]
    {
      places := places[block.id := Deleted];
    }

    /** Take a block that has left range `k0` off the other ranges it names.  RemoveByValue always finds
        it there. */
    method UnlistElsewhere(block: Block, k0: nat, ghost live: set<Block>)
      requires Lists(ranges, live, block, NamedRanges(block) - {k0}) && Guarded()
      requires Covers(ranges, {k0}) && WellFormed(block)
      modifies `ranges, pages
      ensures Lists(ranges, live, block, {}) && Guarded() && pages.mappings == old(pages.mappings)
      ensures Covers(ranges, {k0}) && At(ranges, k0) == At(old(ranges), k0) && CodeKept(old(ranges), ranges, k0)
    {
      hide Lists, Protects, Covers, NoDuplicates, WellFormed, CodeKept;
      ghost var at := NamedRanges(block) - {k0};
      AllCodeKept(ranges, k0);
      for j := 0 to |block.ranges|
        invariant at == (set i | j <= i < |block.ranges| && block.ranges[i] != k0 :: block.ranges[i])
        invariant Lists(ranges, live, block, at) && Guarded() && pages.mappings == old(pages.mappings)
        invariant Covers(ranges, {k0}) && At(ranges, k0) == At(old(ranges), k0) && CodeKept(old(ranges), ranges, k0)
      {
        var k := block.ranges[j];
        if k != k0 {
          var i := FindBlock(block, k, live, at);
          var code := if |At(ranges, k).blocks| == 1 then {} else At(ranges, k).code;
          CoversAfterRemove(ranges, k, i, code, k0, live, block, at);
          CodeKeptAfterRemove(old(ranges), ranges, k, i, code, k0);
          RemoveFromRange(block, k, i, code, live, at);
          LaterRangesDiffer(block, j);
          at := at - {k};
        }
      }
      assert at == {};
    }

    /** Ranges other than k0 keep their code masks until their last block goes. */
    static ghost predicate CodeKept(before: map<int, Range>, after: map<int, Range>, k0: int) {
      forall k: int :: k != k0 ==>
        && At(after, k).code == (if At(after, k).blocks == [] then {} else At(before, k).code)
        && (At(before, k).blocks == [] ==> At(after, k).blocks == [])
    }

    static lemma AllCodeKept(ranges: map<int, Range>, k0: int)
      requires Covers(ranges, {k0})
      ensures CodeKept(ranges, ranges, k0)
    {
    }

    static lemma CodeKeptAfterRemove(before: map<int, Range>, ranges: map<int, Range>, k: int, i: nat, code: set<int>, k0: int)
      requires CodeKept(before, ranges, k0) && i < |At(ranges, k).blocks|
      requires k != k0 ==> code == if |At(ranges, k).blocks| == 1 then {} else At(ranges, k).code
      ensures CodeKept(before, ranges[k := Range(RemoveAt(At(ranges, k).blocks, i), code)], k0)
    {
      var after := ranges[k := Range(RemoveAt(At(ranges, k).blocks, i), code)];
      assert forall q: int :: q != k ==> At(after, q) == At(ranges, q);
    }

    static lemma CodeKeptTwice(a: map<int, Range>, b: map<int, Range>, c: map<int, Range>, k0: int)
      requires CodeKept(a, b, k0) && CodeKept(b, c, k0)
      ensures CodeKept(a, c, k0)
    {
    }

    static ghost function NamedRanges(b: Block): set<int> {
      set i | 0 <= i < |b.ranges| :: b.ranges[i]
    }

    static lemma LaterRangesDiffer(b: Block, j: nat)
      requires WellFormed(b) && j < |b.ranges|
      ensures forall i :: j < i < |b.ranges| ==> b.ranges[i] != b.ranges[j]
    {
    }

    /** The search in RemoveByValue. */
    method FindBlock(block: Block, k: nat, ghost live: set<Block>, ghost at: set<int>) returns (i: nat)
      requires Lists(ranges, live, block, at) && k in at
      ensures i < |At(ranges, k).blocks| && At(ranges, k).blocks[i] == block
    {
      var blocks := At(ranges, k).blocks;
      assert block in blocks;
      i := 0;
      while blocks[i] != block
        invariant i < |blocks| && forall q :: 0 <= q < i ==> blocks[q] != block
        decreases |blocks| - i
      {
        assert block in blocks[i + 1..];
        i := i + 1;
      }
    }

    static lemma CoversAfterRemove(ranges: map<int, Range>, k: nat, i: nat, code: set<int>, k0: int,
                                   live: set<Block>, b: Block, at: set<int>)
      requires Covers(ranges, {k0}) && Lists(ranges, live, b, at) && k != k0
      requires i < |At(ranges, k).blocks| && At(ranges, k).blocks[i] == b
      requires code == if |At(ranges, k).blocks| == 1 then {} else At(ranges, k).code
      ensures Covers(ranges[k := Range(RemoveAt(At(ranges, k).blocks, i), code)], {k0})
    {
      assert NoDuplicates(At(ranges, k).blocks);
      RemoveAtRemoves(At(ranges, k).blocks, i);
      var after := ranges[k := Range(RemoveAt(At(ranges, k).blocks, i), code)];
      forall q: int | q != k0
        ensures At(after, q).blocks == [] ==> At(after, q).code == {}
        ensures forall c :: c in At(after, q).blocks && WellFormed(c) ==> MaskAt(c, q) <= At(after, q).code
      {
        assert q != k ==> At(after, q) == At(ranges, q);
      }
    }

    /** Take the block at index i of range k0 off every range it names. */
    method UnlistEverywhere(block: Block, k0: nat, i: nat, ghost rest: set<Block>)
      requires Lists(ranges, rest, block, NamedRanges(block)) && Guarded() && Covers(ranges, {k0}) && WellFormed(block)
      requires i < |At(ranges, k0).blocks| && At(ranges, k0).blocks[i] == block
      modifies `ranges, pages
      ensures Lists(ranges, rest, block, {}) && Guarded() && pages.mappings == old(pages.mappings)
      ensures Covers(ranges, {k0}) && At(ranges, k0) == Range(RemoveAt(At(old(ranges), k0).blocks, i), {}) && CodeKept(old(ranges), ranges, k0)
    {
      hide Guarded, CodeKept, Lists, Covers, WellFormed;
      CoversElsewhere(ranges, k0, Range(RemoveAt(At(ranges, k0).blocks, i), {}));
      AllCodeKept(ranges, k0);
      CodeKeptAfterRemove(ranges, ranges, k0, i, {}, k0);
      RemoveFromRange(block, k0, i, {}, rest, NamedRanges(block));
      ghost var before := ranges;
      UnlistElsewhere(block, k0, rest);
      CodeKeptTwice(old(ranges), before, ranges, k0);
    }

    /** Drop one block listed in range k0 from every table.  It is retired, or deleted when the address hit one of
        its literals. */
    method DropBlock(localAddr: u32, i: nat)
      requires DroppingFrom(localAddr / 512) && i < |At(ranges, localAddr / 512).blocks|
      modifies this, pages
      ensures DroppingFrom(localAddr / 512)
      ensures At(ranges, localAddr / 512).blocks == RemoveAt(At(old(ranges), localAddr / 512).blocks, i)
      ensures var key := KeyOf(At(old(ranges), localAddr / 512).blocks[i]);
              key in old(jitBlocks) && localAddr / 512 in old(jitBlocks)[key].ranges && jitBlocks == old(jitBlocks) - {key}
      ensures invalidLiterals == old(invalidLiterals) +
              if localAddr in At(old(ranges), localAddr / 512).blocks[i].literals then {localAddr} else {}
      ensures var block := At(old(ranges), localAddr / 512).blocks[i];
              && candidates == Retire(old(candidates), block, localAddr) && fast == old(fast)[block.startLocal / 2 := EMPTY_SLOT]
              && block.id in places && (localAddr in block.literals ==> places[block.id] == Deleted)
      ensures places.Keys == old(places.Keys) && forall id :: id in places && old(places)[id] == Deleted ==> places[id] == Deleted
      ensures CodeKept(old(ranges), ranges, localAddr / 512) && pages.mappings == old(pages.mappings)
    {
      hide Guarded, CodeKept, Lists, Filed, Covers, SlotsNameBlocks, Owned, Restorable, Protects, NoDuplicates;
      var k0 := localAddr / 512;
      var block := At(ranges, k0).blocks[i];
      var key := KeyOf(block);
      ListedIsLive(ranges, jitBlocks, localise, block, k0);
      ghost var rest := (jitBlocks - {key}).Values;

      UnlistEverywhere(block, k0, i, rest);
      var literalInvalidation := localAddr in block.literals;
      if literalInvalidation {
        invalidLiterals := invalidLiterals + {localAddr};
      }
      SlotsAfterDrop(fast, jitBlocks, key);
      fast := fast[block.startLocal / 2 := EMPTY_SLOT];
      var erased := Erase(key);
      FiledAfterErase(old(jitBlocks), key, localise);
      if !literalInvalidation {
        RetireJitBlock(block);
      } else {
        Delete(block);
      }
      ListsWithout(ranges, rest, block);
    }

    /** The restore candidates after one block has been dropped because of a write to `localAddr`. */
    static function Retire(candidates: map<int, Block>, block: Block, localAddr: u32): map<int, Block> {
      if localAddr in block.literals then candidates else candidates[block.instrHash := block]
    }

    /** The same for all blocks of a range, each time the first of the list. */
    static function RetireAll(candidates: map<int, Block>, blocks: seq<Block>, localAddr: u32): map<int, Block>
      decreases |blocks|
    {
      if blocks == [] then candidates
      else RetireAll(Retire(candidates, blocks[0], localAddr), RemoveAt(blocks, 0), localAddr)
    }

    /** Under every hash there is then one of the blocks dropped other than through a literal, or, if none of them has
        that hash, the candidate that was there before. */
    static lemma {:induction false} RetiredOrKept(candidates: map<int, Block>, blocks: seq<Block>, localAddr: u32, h: int)
      requires NoDuplicates(blocks)
      ensures
        var after := RetireAll(candidates, blocks, localAddr);
        if exists b :: b in blocks && localAddr !in b.literals && b.instrHash == h
        then h in after && after[h] in blocks && localAddr !in after[h].literals && after[h].instrHash == h
        else (h in after <==> h in candidates) && (h in after ==> after[h] == candidates[h])
      decreases |blocks|
    {
      if blocks != [] {
        var first, rest := blocks[0], RemoveAt(blocks, 0);
        RemoveAtRemoves(blocks, 0);
        RetiredOrKept(Retire(candidates, first, localAddr), rest, localAddr, h);
        assert forall b :: b in blocks <==> b == first || b in rest;
      }
    }

    static function KeyOf(b: Block): (int, int) {
      (b.num, b.startAddr)
    }

    /** Valid() while the blocks of range k0 are being dropped: its code mask is already cleared. */
    ghost predicate DroppingFrom(k0: int)
      reads this, pages
    {
      && Filed(jitBlocks, localise)
      && Lists(ranges, jitBlocks.Values, NoBlock(), {})
      && Covers(ranges, {k0}) && At(ranges, k0).code == {}
      && SlotsNameBlocks(fast, jitBlocks)
      && Owned(jitBlocks, candidates, places) && Restorable(candidates, localise)
      && (forall id :: id in places ==> places[id] != InHand)
      && Guarded()
    }

    /** A listed block is in the map, and with it taken out of the live set the lists are still exact. */
    static lemma ListedIsLive(ranges: map<int, Range>, jitBlocks: map<(int, int), Block>, localise: (int, int) -> int, b: Block, k: int)
      requires Lists(ranges, jitBlocks.Values, NoBlock(), {}) && Filed(jitBlocks, localise) && b in At(ranges, k).blocks
      ensures KeyOf(b) in jitBlocks && jitBlocks[KeyOf(b)] == b && k in b.ranges && WellFormed(b)
      ensures FiledAs(b, KeyOf(b), localise)
      ensures Lists(ranges, (jitBlocks - {KeyOf(b)}).Values, b, NamedRanges(b))
    {
      var key := KeyOf(b);
      assert b in jitBlocks.Values;
      var rest := (jitBlocks - {key}).Values;
      forall c: Block ensures c in jitBlocks.Values <==> c in rest || c == b {
        if c in jitBlocks.Values && c != b {
          var q :| q in jitBlocks && jitBlocks[q] == c;
          assert q != key;
          assert q in jitBlocks - {key};
        }
      }
    }

    static lemma ListsWithout(ranges: map<int, Range>, live: set<Block>, b: Block)
      requires Lists(ranges, live, b, {}) && NoBlock() !in live
      ensures Lists(ranges, live, NoBlock(), {})
    {
    }

    static lemma CoversElsewhere(ranges: map<int, Range>, k: int, range: Range)
      requires Covers(ranges, {k})
      ensures Covers(ranges[k := range], {k})
    {
      assert forall q: int :: q != k ==> At(ranges[k := range], q) == At(ranges, q);
    }

    static lemma SlotsAfterDrop(fast: map<int, Slot>, jitBlocks: map<(int, int), Block>, key: (int, int))
      requires SlotsNameBlocks(fast, jitBlocks) && key in jitBlocks
      ensures SlotsNameBlocks(fast[jitBlocks[key].startLocal / 2 := EMPTY_SLOT], jitBlocks - {key})
    {
    }

    static lemma FiledAfterErase(jitBlocks: map<(int, int), Block>, key: (int, int), localise: (int, int) -> int)
      requires Filed(jitBlocks, localise)
      ensures Filed(jitBlocks - {key}, localise)
      ensures NoBlock() !in (jitBlocks - {key}).Values
    {
    }

    /** The test InvalidateByAddr makes on a listed block.  It compares the block's mask with itself, not
        with the mask of the address, so it always succeeds. */
    method IsInvalidated(block: Block, k0: nat) returns (invalidated: bool)
      requires WellFormed(block) && k0 in block.ranges
      ensures invalidated
    {
      var mask: set<int> := {};
      invalidated := false;
      for j := 0 to |block.ranges|
        invariant forall i :: 0 <= i < j ==> block.ranges[i] != k0
      {
        if block.ranges[j] == k0 {
          mask := block.masks[j];
          invalidated := block.masks[j] * mask != {};
          assert block.masks[j] * mask == block.masks[j];
          return;
        }
      }
    }

    /** Drop every block compiled from the 512-byte range of a local address, and no other block. */
    method InvalidateByAddr(localAddr: u32)
      requires Valid()
      modifies this, pages
      ensures Valid() && At(ranges, localAddr / 512) == Range([], {})
      ensures forall key :: key in jitBlocks <==> key in old(jitBlocks) && localAddr / 512 !in old(jitBlocks)[key].ranges
      ensures forall key :: key in jitBlocks ==> jitBlocks[key] == old(jitBlocks)[key]
      ensures CodeKept(old(ranges), ranges, localAddr / 512) && SlotsCleared(old(fast), fast, old(jitBlocks), jitBlocks)
      ensures invalidLiterals == old(invalidLiterals) + if HitsLiteral(old(jitBlocks), jitBlocks, localAddr) then {localAddr} else {}
      ensures pages.mappings == old(pages.mappings)
      ensures LiteralsDeleted(old(jitBlocks), jitBlocks, localAddr, invalidLiterals, places)
      ensures candidates == RetireAll(old(candidates), At(old(ranges), localAddr / 512).blocks, localAddr)
      ensures places.Keys == old(places.Keys)
    {
      hide Lists, Filed, Covers, SlotsNameBlocks, Owned, Restorable, Protects, NoDuplicates, PageHasCode, LiteralsDeleted, WellFormed, Retire,
        CodeKept, SlotsCleared, HitsLiteral;
      var k0 := localAddr / 512;
      ClearCode(ranges, k0, jitBlocks.Values, pages.code);
      NoneDropped(jitBlocks, localAddr, invalidLiterals, places, fast);
      CodeCleared(ranges, k0);
      ranges := ranges[k0 := Range(At(ranges, k0).blocks, {})];
      var i := 0;
      while i < |At(ranges, k0).blocks|
        invariant i == 0 && DroppingFrom(k0) && pages.mappings == old(pages.mappings)
        invariant forall key :: key in jitBlocks ==> key in old(jitBlocks) && jitBlocks[key] == old(jitBlocks)[key]
        invariant forall key :: key in old(jitBlocks) && key !in jitBlocks ==> k0 in old(jitBlocks)[key].ranges
        invariant CodeKept(old(ranges), ranges, k0) && SlotsCleared(old(fast), fast, old(jitBlocks), jitBlocks)
        invariant invalidLiterals == old(invalidLiterals) + if HitsLiteral(old(jitBlocks), jitBlocks, localAddr) then {localAddr} else {}
        invariant LiteralsDeleted(old(jitBlocks), jitBlocks, localAddr, invalidLiterals, places)
        invariant places.Keys == old(places.Keys)
        invariant RetireAll(candidates, At(ranges, k0).blocks, localAddr) == RetireAll(old(candidates), At(old(ranges), k0).blocks, localAddr)
        decreases |At(ranges, k0).blocks|
      {
        var block := At(ranges, k0).blocks[i];
        ListedIsLive(ranges, jitBlocks, localise, block, k0);
        var invalidated := IsInvalidated(block, k0);
        assert invalidated;   // so the branch that keeps the block and goes on to the next one is never taken
        ghost var before, invalid, left, slots, earlier := places, invalidLiterals, jitBlocks, fast, ranges;
        DropBlock(localAddr, i);
        CodeKeptTwice(old(ranges), earlier, ranges, k0);
        OneMoreCleared(old(fast), slots, old(jitBlocks), left, KeyOf(block));
        OneMoreHit(old(jitBlocks), left, localAddr, KeyOf(block));
        OneMoreDropped(old(jitBlocks), left, localAddr, KeyOf(block), invalid, invalidLiterals, before, places);
      }
      NothingListed(ranges, jitBlocks, k0);
    }

    /** The blocks that have left the map and had the address among their literals are deleted, not kept. */
    static ghost predicate LiteralsDeleted(all: map<(int, int), Block>, left: map<(int, int), Block>, localAddr: u32,
                                           invalidLiterals: set<u32>, places: map<nat, Place>)
    {
      forall key :: key in all && key !in left && localAddr in all[key].literals ==>
        localAddr in invalidLiterals && all[key].id in places && places[all[key].id] == Deleted
    }

    /** One of the blocks that have left the map had the address among its literals. */
    static ghost predicate HitsLiteral(all: map<(int, int), Block>, left: map<(int, int), Block>, localAddr: u32) {
      exists key :: key in all && key !in left && localAddr in all[key].literals
    }

    /** The lookup slots of the blocks that have left the map are empty, and no other slot has changed. */
    static ghost predicate SlotsCleared(before: map<int, Slot>, after: map<int, Slot>, all: map<(int, int), Block>, left: map<(int, int), Block>) {
      forall s: int ::
        if SlotDropped(all, left, s)
        then s in after && after[s] == EMPTY_SLOT
        else (s in after <==> s in before) && (s in after ==> after[s] == before[s])
    }

    static ghost predicate SlotDropped(all: map<(int, int), Block>, left: map<(int, int), Block>, s: int) {
      exists key :: key in all && key !in left && all[key].startLocal / 2 == s
    }

    static lemma NoneDropped(all: map<(int, int), Block>, localAddr: u32, invalid: set<u32>, places: map<nat, Place>, fast: map<int, Slot>)
      ensures LiteralsDeleted(all, all, localAddr, invalid, places) && !HitsLiteral(all, all, localAddr) && SlotsCleared(fast, fast, all, all)
    {
    }

    static lemma CodeCleared(ranges: map<int, Range>, k0: int)
      requires Covers(ranges, {})
      ensures CodeKept(ranges, ranges[k0 := Range(At(ranges, k0).blocks, {})], k0)
    {
      var after := ranges[k0 := Range(At(ranges, k0).blocks, {})];
      assert forall q: int :: q != k0 ==> At(after, q) == At(ranges, q);
    }

    static lemma OneMoreCleared(before: map<int, Slot>, fast: map<int, Slot>, all: map<(int, int), Block>, left: map<(int, int), Block>, key: (int, int))
      requires SlotsCleared(before, fast, all, left) && key in all && key in left
      ensures SlotsCleared(before, fast[all[key].startLocal / 2 := EMPTY_SLOT], all, left - {key})
    {
      var s := all[key].startLocal / 2;
      var after := fast[s := EMPTY_SLOT];
      forall q: int | q != s
        ensures SlotDropped(all, left - {key}, q) <==> SlotDropped(all, left, q)
      {
        assert forall k :: k !in left - {key} <==> k !in left || k == key;
      }
      assert SlotDropped(all, left - {key}, s) by {
        assert key in all && key !in left - {key};
      }
    }

    static lemma OneMoreHit(all: map<(int, int), Block>, left: map<(int, int), Block>, localAddr: u32, key: (int, int))
      requires key in all && key in left
      ensures HitsLiteral(all, left - {key}, localAddr) <==> HitsLiteral(all, left, localAddr) || localAddr in all[key].literals
    {
      assert forall k :: k !in left - {key} <==> k !in left || k == key;
    }

    static lemma OneMoreDropped(all: map<(int, int), Block>, left: map<(int, int), Block>, localAddr: u32, key: (int, int),
                                invalid: set<u32>, invalidAfter: set<u32>, places: map<nat, Place>, placesAfter: map<nat, Place>)
      requires LiteralsDeleted(all, left, localAddr, invalid, places) && key in all && invalid <= invalidAfter
      requires places.Keys == placesAfter.Keys && forall id :: id in places && places[id] == Deleted ==> placesAfter[id] == Deleted
      requires localAddr in all[key].literals ==>
                 localAddr in invalidAfter && all[key].id in places && placesAfter[all[key].id] == Deleted
      ensures LiteralsDeleted(all, left - {key}, localAddr, invalidAfter, placesAfter)
    {
    }

    static lemma ClearCode(ranges: map<int, Range>, k: int, live: set<Block>, code: set<(int, int)>)
      requires Lists(ranges, live, NoBlock(), {}) && Covers(ranges, {}) && Protects(ranges, code)
      ensures var after := ranges[k := Range(At(ranges, k).blocks, {})];
              Lists(after, live, NoBlock(), {}) && Covers(after, {k}) && Protects(after, code)
    {
      var after := ranges[k := Range(At(ranges, k).blocks, {})];
      assert forall q: int :: At(after, q).blocks == At(ranges, q).blocks;
      assert forall q: int :: q != k ==> At(after, q) == At(ranges, q);
      forall page: int ensures PageHasCode(after, page) <==> PageHasCode(ranges, page) {
      }
    }

    static lemma NothingListed(ranges: map<int, Range>, jitBlocks: map<(int, int), Block>, k: int)
      requires Lists(ranges, jitBlocks.Values, NoBlock(), {}) && Covers(ranges, {k})
      requires At(ranges, k).blocks == [] && At(ranges, k).code == {}
      ensures Covers(ranges, {}) && forall key :: key in jitBlocks ==> k !in jitBlocks[key].ranges
    {
      forall key | key in jitBlocks ensures k !in jitBlocks[key].ranges {
        assert jitBlocks[key] in jitBlocks.Values;
        assert jitBlocks[key] !in At(ranges, k).blocks;
      }
    }

    /** The check every memory write makes: afterwards no live block was compiled from the 16-byte unit
        written to. */
    method CheckAndInvalidate(localAddr: u32)
      requires Valid()
      modifies this, pages
      ensures Valid()
      ensures forall key :: key in jitBlocks ==> key in old(jitBlocks) && jitBlocks[key] == old(jitBlocks)[key]
      ensures forall key :: key in jitBlocks ==> !CompiledFrom(jitBlocks[key], localAddr)
      ensures (forall key :: key in old(jitBlocks) ==> localAddr / 512 !in old(jitBlocks)[key].ranges) ==>
                jitBlocks == old(jitBlocks)
      ensures candidates == if localAddr % 512 / 16 in At(old(ranges), localAddr / 512).code
                            then RetireAll(old(candidates), At(old(ranges), localAddr / 512).blocks, localAddr) else old(candidates)
      ensures places.Keys == old(places.Keys)
      ensures pages.mappings == old(pages.mappings)
      ensures localAddr % 512 / 16 !in At(old(ranges), localAddr / 512).code ==>
        ranges == old(ranges) && jitBlocks == old(jitBlocks) && fast == old(fast) && places == old(places)
        && invalidLiterals == old(invalidLiterals) && unchanged(pages)
      ensures localAddr % 512 / 16 in At(old(ranges), localAddr / 512).code ==>
        && (forall key :: key in jitBlocks <==> key in old(jitBlocks) && localAddr / 512 !in old(jitBlocks)[key].ranges)
        && At(ranges, localAddr / 512) == Range([], {})
        && CodeKept(old(ranges), ranges, localAddr / 512) && SlotsCleared(old(fast), fast, old(jitBlocks), jitBlocks)
        && invalidLiterals == old(invalidLiterals) + if HitsLiteral(old(jitBlocks), jitBlocks, localAddr) then {localAddr} else {}
    {
      hide Owned, Restorable, Protects, SlotsNameBlocks, CodeKept, SlotsCleared, HitsLiteral;
      if localAddr % 512 / 16 in At(ranges, localAddr / 512).code {
        InvalidateByAddr(localAddr);
      }
      forall key | key in jitBlocks ensures !CompiledFrom(jitBlocks[key], localAddr) {
        var b := jitBlocks[key];
        assert b in jitBlocks.Values && FiledAs(b, key, localise);
        if localAddr / 512 in b.ranges {
          assert b in At(ranges, localAddr / 512).blocks;
        }
      }
    }

    static ghost predicate CompiledFrom(b: Block, localAddr: u32) {
      |b.masks| == |b.ranges| && localAddr % 512 / 16 in MaskAt(b, localAddr / 512)
    }

    /** The fast lookup never yields a block that is not live, nor one for another CPU or address.  The
        one key that also marks empty slots is no exception for an executable address. */
    method LookUpBlock(num: nat, offset: u32, addr: u32) returns (hit: bool, entry: int)
      requires Valid() && num <= 1 && addr % 2 == 0 && addr + num != EMPTY_KEY
      ensures hit <==> offset / 2 in fast && fast[offset / 2].key == addr + num
      ensures hit ==> (num, addr) in jitBlocks && entry == jitBlocks[(num, addr)].entry
      ensures hit ==> localise(num, addr) / 2 == offset / 2
    {
      var slot := if offset / 2 in fast then fast[offset / 2] else EMPTY_SLOT;
      hit := slot.key == addr + num;
      entry := slot.entry;
      if hit {
        assert SlotNames(slot, offset / 2, jitBlocks);
        assert FiledAs(jitBlocks[(num, addr)], (num, addr), localise);
      }
    }

    /** The fault handler on a page that is not mapped: the page map follows its own step, and what it maps of live
        code is protected from the start. */
    method HandleFault(num: int, addr: nat) returns (ok: bool, mapped: bool)
      requires Valid() && 0 <= num <= 1 && addr / 0x1000 < Pages.PAGES && pages.statuses[num][addr / 0x1000] == Pages.Unmapped
      modifies pages
      ensures ok <==> Pages.Step(old(pages.State()), Pages.Touch(num, addr), pages.mirror, pages.hole).Some?
      ensures ok ==> Valid() && Pages.Step(old(pages.State()), Pages.Touch(num, addr), pages.mirror, pages.hole) == Some(pages.State())
    {
      hide Lists, Filed, Covers, SlotsNameBlocks, Owned, Restorable, Protects;
      ok, mapped := pages.MapAtAddress(num, addr);
    }

    /** The page of a 512-byte range, by the region in the upper five bits of a local address and the offset below. */
    static lemma PageOfRange(k: nat)
      ensures CodePage(k / 8) == (k * 512 / 0x800_0000, k * 512 % 0x800_0000 / 0x1000)
    {
    }

    /** No live code is mapped writable: every mapped page that shows a 512-byte range of a live block, by whatever
        mirror, is protected, so that a write to it comes to CheckAndInvalidate. */
    lemma LiveCodeIsProtected(key: (int, int), k: nat, i: nat, p: int)
      requires Valid() && key in jitBlocks && k in jitBlocks[key].ranges
      requires i < |pages.mappings|
      requires
        var m := pages.mappings[i];
        0 <= m.num <= 1 && 0 <= p < Pages.PAGES && Pages.Covers(m, pages.hole, m.num, p)
        && m.region == k * 512 / 0x800_0000 && m.local + p - m.start == k * 512 % 0x800_0000 / 0x1000
      ensures pages.statuses[pages.mappings[i].num][p] == Pages.MappedProtected
    {
      hide Filed, Covers, SlotsNameBlocks, Owned, Restorable;
      assert jitBlocks[key] in jitBlocks.Values;
      assert jitBlocks[key] in At(ranges, k).blocks;
      PageOfRange(k);
      assert PageHasCode(ranges, k / 8) by {
        assert 8 * (k / 8) <= k < 8 * (k / 8) + 8;
      }
    }

    /** The block object CompileBlock registers: the restore candidate under this instruction hash if it
        was compiled for the same start address, literals, ranges and masks, a new one otherwise.  The
        comparison leaves out the CPU. */
    method RestoreOrCreate(compiled: Block) returns (block: Block)
      requires Valid() && compiled.id !in places && FiledAs(compiled, KeyOf(compiled), localise)
      modifies `candidates, `places
      ensures Owned(jitBlocks, candidates, places) && Restorable(candidates, localise)
      ensures block.id in places && forall id :: id in places ==> (places[id] == InHand <==> id == block.id)
      ensures candidates == old(candidates) - {compiled.instrHash}
      ensures block == if Restores(old(candidates), compiled) then old(candidates)[compiled.instrHash] else compiled
      ensures block.startAddr == compiled.startAddr && block.instrHash == compiled.instrHash && block.literalHash == compiled.literalHash
              && block.ranges == compiled.ranges && block.masks == compiled.masks
      ensures block == compiled || (compiled.instrHash in old(candidates) && block == old(candidates)[compiled.instrHash])
      ensures compiled.instrHash in old(candidates) ==>
        var prev := old(candidates)[compiled.instrHash];
        (prev.startAddr == compiled.startAddr && prev.literalHash == compiled.literalHash
         && prev.ranges == compiled.ranges && prev.masks == compiled.masks) ==> block == prev
      ensures places.Keys == old(places.Keys) + if Restores(old(candidates), compiled) then {} else {compiled.id}
      ensures FiledAs(block, KeyOf(block), localise)
    {
      hide Owned;
      var mayRestore := false;
      block := compiled;
      if compiled.instrHash in candidates {
        var prevBlock := TakeCandidate(compiled.instrHash);
        if SameCode(prevBlock, compiled) {
          block := prevBlock;
          mayRestore := true;
        } else {
          Delete(prevBlock);
        }
      }
      if !mayRestore {
        OwnedAfterCreate(jitBlocks, candidates, places, compiled.id);
        places := places[compiled.id := InHand];
      }
    }

    static lemma OwnedAfterCreate(jitBlocks: map<(int, int), Block>, candidates: map<int, Block>, places: map<nat, Place>, id: nat)
      requires Owned(jitBlocks, candidates, places) && id !in places
      ensures Owned(jitBlocks, candidates, places[id := InHand])
    {
    }

    static predicate Restores(candidates: map<int, Block>, compiled: Block) {
      compiled.instrHash in candidates && SameCode(candidates[compiled.instrHash], compiled)
    }

    static predicate SameCode(prev: Block, b: Block) {
      prev.startAddr == b.startAddr && prev.literalHash == b.literalHash && prev.ranges == b.ranges && prev.masks == b.masks
    }

    /** List the block in the ranges it names. */
    method ListBlock(block: Block, ghost live: set<Block>)
      requires WellFormed(block) && Lists(ranges, live, block, {}) && Covers(ranges, {}) && Guarded()
      modifies `ranges, pages
      ensures Lists(ranges, live, block, NamedRanges(block)) && Covers(ranges, {}) && Guarded() && pages.mappings == old(pages.mappings)
      ensures CodeAdded(old(ranges), ranges, block)
    {
      hide Lists, Covers, Protects, NoDuplicates;
      ghost var at: set<int> := {};
      for j := 0 to |block.ranges|
        invariant at == set i | 0 <= i < j :: block.ranges[i]
        invariant Lists(ranges, live, block, at) && Covers(ranges, {}) && Guarded() && pages.mappings == old(pages.mappings)
        invariant forall k: int :: At(ranges, k).code == At(old(ranges), k).code + if k in at then MaskAt(block, k) else {}
      {
        var k := block.ranges[j];
        EarlierRangesDiffer(block, j);
        MaskOfRange(block, j);
        CoversAfterAdd(ranges, k, block, j);
        AddToRange(block, k, block.masks[j], live, at);
        at := at + {k};
      }
    }

    /** The units of a block are added to the code masks of its ranges. */
    static ghost predicate CodeAdded(before: map<int, Range>, after: map<int, Range>, b: Block)
      requires |b.masks| == |b.ranges|
    {
      forall k: int :: At(after, k).code == At(before, k).code + MaskAt(b, k)
    }

    static lemma MaskOfRange(b: Block, j: nat)
      requires WellFormed(b) && j < |b.ranges|
      ensures MaskAt(b, b.ranges[j]) == b.masks[j]
    {
    }

    static lemma EarlierRangesDiffer(b: Block, j: nat)
      requires WellFormed(b) && j < |b.ranges|
      ensures forall i :: 0 <= i < j ==> b.ranges[i] != b.ranges[j]
      ensures |b.masks| == |b.ranges|
    {
    }

    static lemma CoversAfterAdd(ranges: map<int, Range>, k: nat, b: Block, j: nat)
      requires Covers(ranges, {}) && WellFormed(b) && j < |b.ranges| && b.ranges[j] == k
      ensures Covers(ranges[k := Range(At(ranges, k).blocks + [b], At(ranges, k).code + b.masks[j])], {})
    {
      var after := ranges[k := Range(At(ranges, k).blocks + [b], At(ranges, k).code + b.masks[j])];
      assert MaskAt(b, k) == b.masks[j];
      forall q: int
        ensures At(after, q).blocks == [] ==> At(after, q).code == {}
        ensures forall c :: c in At(after, q).blocks && WellFormed(c) ==> MaskAt(c, q) <= At(after, q).code
      {
        assert q != k ==> At(after, q) == At(ranges, q);
      }
    }

    /** The bookkeeping of CompileBlock for code that starts at `num`/`blockAddr`; `compiled` is the block
        a fresh compilation would produce.  A block already in the map is only switched into its slot.
        The cache stays coherent unless the code is restored from a block the other CPU compiled. */
    method CompileBlock(num: nat, compiled: Block) returns (block: Block)
      requires Valid() && compiled.id !in places && num == compiled.num
      requires FiledAs(compiled, KeyOf(compiled), localise)
      modifies this, pages
      ensures Valid() <==> !RestoresOther(old(jitBlocks), old(candidates), num, compiled)
      ensures places.Keys == old(places.Keys) +
                if (num, compiled.startAddr) in old(jitBlocks) || Restores(old(candidates), compiled) then {} else {compiled.id}
      ensures var key := (num, compiled.startAddr);
              && jitBlocks == old(jitBlocks)[key := block]
              && (key in old(jitBlocks) ==> block == old(jitBlocks)[key])
              && (key !in old(jitBlocks) ==>
                    block == if Restores(old(candidates), compiled) then old(candidates)[compiled.instrHash] else compiled)
      ensures block.startAddr == compiled.startAddr
      ensures (num, compiled.startAddr) !in old(jitBlocks) ==>
        && block.instrHash == compiled.instrHash && block.literalHash == compiled.literalHash
        && block.ranges == compiled.ranges && block.masks == compiled.masks
        && (block == compiled || (compiled.instrHash in old(candidates) && block == old(candidates)[compiled.instrHash]))
      ensures (num, compiled.startAddr) !in old(jitBlocks) && compiled.instrHash in old(candidates) ==>
        var prev := old(candidates)[compiled.instrHash];
        (prev.startAddr == compiled.startAddr && prev.literalHash == compiled.literalHash
         && prev.ranges == compiled.ranges && prev.masks == compiled.masks) ==> block == prev
      ensures Valid() <==> (num, compiled.startAddr) in old(jitBlocks) || block.num == num
      ensures candidates == old(candidates) - if (num, compiled.startAddr) in old(jitBlocks) then {} else {compiled.instrHash}
      ensures fast == old(fast)[compiled.startLocal / 2 := Slot(compiled.startAddr + num, block.entry)]
      ensures if (num, compiled.startAddr) in old(jitBlocks) then ranges == old(ranges)
              else WellFormed(block) && CodeAdded(old(ranges), ranges, block)
      ensures invalidLiterals == old(invalidLiterals) && Guarded() && pages.mappings == old(pages.mappings)
    {
      hide Lists, Covers, Protects, NoDuplicates, Owned, Restorable, SlotsNameBlocks, Filed, CodeAdded, MaskAt, SameCode;
      var key := (num, compiled.startAddr);
      if key in jitBlocks {
        block := jitBlocks[key];
        FiledBlock(jitBlocks, key, localise);
        SlotsAfterSwitch(fast, jitBlocks, key);
        fast := fast[compiled.startLocal / 2 := Slot(compiled.startAddr + num, block.entry)];
        return;
      }
      block := RestoreOrCreate(compiled);
      NotLiveInHand(jitBlocks, candidates, places, block);
      ListsStart(ranges, jitBlocks.Values, block);
      ListBlock(block, jitBlocks.Values);
      NoBlockIsLive(jitBlocks, localise);
      ListsWithLive(ranges, jitBlocks, key, block);
      OwnedAfterFiling(jitBlocks, candidates, places, key, block);
      if block.num == num {
        SlotsAfterFiling(fast, jitBlocks, key, block, compiled.startLocal / 2);
      }
      FiledAfterFiling(jitBlocks, key, block, localise);
      jitBlocks := jitBlocks[key := block];
      places := places[block.id := Live(key)];
      fast := fast[compiled.startLocal / 2 := Slot(compiled.startAddr + num, block.entry)];
    }

    /** The block is not in the map, and the restore candidate for its code was compiled for the other CPU. */
    static predicate RestoresOther(jitBlocks: map<(int, int), Block>, candidates: map<int, Block>, num: nat, compiled: Block) {
      (num, compiled.startAddr) !in jitBlocks && Restores(candidates, compiled) && candidates[compiled.instrHash].num != num
    }

    static lemma FiledBlock(jitBlocks: map<(int, int), Block>, key: (int, int), localise: (int, int) -> int)
      requires Filed(jitBlocks, localise) && key in jitBlocks
      ensures FiledAs(jitBlocks[key], key, localise)
    {
    }

    static lemma NoBlockIsLive(jitBlocks: map<(int, int), Block>, localise: (int, int) -> int)
      requires Filed(jitBlocks, localise)
      ensures NoBlock() !in jitBlocks.Values
    {
    }

    static lemma SlotsAfterSwitch(fast: map<int, Slot>, jitBlocks: map<(int, int), Block>, key: (int, int))
      requires SlotsNameBlocks(fast, jitBlocks) && key in jitBlocks && 0 <= key.0 <= 1 && key.1 % 2 == 0
      ensures SlotsNameBlocks(fast[jitBlocks[key].startLocal / 2 := Slot(key.1 + key.0, jitBlocks[key].entry)], jitBlocks)
    {
    }

    static lemma SlotsAfterFiling(fast: map<int, Slot>, jitBlocks: map<(int, int), Block>, key: (int, int), block: Block, s: int)
      requires SlotsNameBlocks(fast, jitBlocks) && key !in jitBlocks && 0 <= key.0 <= 1 && key.1 % 2 == 0
      requires block.startLocal / 2 == s
      ensures SlotsNameBlocks(fast[s := Slot(key.1 + key.0, block.entry)], jitBlocks[key := block])
    {
    }

    static lemma FiledAfterFiling(jitBlocks: map<(int, int), Block>, key: (int, int), block: Block, localise: (int, int) -> int)
      requires Filed(jitBlocks, localise) && FiledAs(block, KeyOf(block), localise) && block.startAddr == key.1
      ensures Filed(jitBlocks[key := block], localise) <==> block.num == key.0
    {
      assert jitBlocks[key := block][key] == block;
    }

    static lemma NotLiveInHand(jitBlocks: map<(int, int), Block>, candidates: map<int, Block>, places: map<nat, Place>, block: Block)
      requires Owned(jitBlocks, candidates, places) && block.id in places && places[block.id] == InHand
      ensures block !in jitBlocks.Values
    {
    }

    static lemma ListsStart(ranges: map<int, Range>, live: set<Block>, b: Block)
      requires Lists(ranges, live, NoBlock(), {}) && b !in live
      ensures Lists(ranges, live, b, {})
    {
    }

    static lemma ListsWithLive(ranges: map<int, Range>, jitBlocks: map<(int, int), Block>, key: (int, int), b: Block)
      requires Lists(ranges, jitBlocks.Values, b, NamedRanges(b)) && key !in jitBlocks && WellFormed(b)
      requires NoBlock() !in jitBlocks.Values
      ensures Lists(ranges, jitBlocks[key := b].Values, NoBlock(), {})
    {
      var live := jitBlocks[key := b].Values;
      forall c: Block ensures c in live <==> c in jitBlocks.Values || c == b {
        if c in jitBlocks.Values {
          var q :| q in jitBlocks && jitBlocks[q] == c;
          assert jitBlocks[key := b][q] == c;
        }
        assert jitBlocks[key := b][key] == b;
      }
    }

    static lemma OwnedAfterFiling(jitBlocks: map<(int, int), Block>, candidates: map<int, Block>, places: map<nat, Place>,
                                  key: (int, int), b: Block)
      requires Owned(jitBlocks, candidates, places) && key !in jitBlocks && b.id in places && places[b.id] == InHand
      ensures Owned(jitBlocks[key := b], candidates, places[b.id := Live(key)])
    {
    }

    /** ResetBlockCache empties every table and deletes every block it owned, each once. */
    method ResetBlockCache()
      requires Valid()
      modifies this, pages
      ensures Valid()
      ensures jitBlocks == map[] && candidates == map[] && fast == map[] && invalidLiterals == {} && pages.State() == Pages.World([], {})
      ensures forall k: int :: At(ranges, k) == Range([], {})
      ensures places.Keys == old(places.Keys) && forall id :: id in places ==> places[id] == Deleted
    {
      hide Lists, Covers, Protects, SlotsNameBlocks, Filed, Owned, Restorable;
      NoBlockIsLive(jitBlocks, localise);
      ghost var all, before := jitBlocks, ranges;
      var ok := pages.Reset();
      assert ok;
      invalidLiterals := {};
      fast := map[];
      DeleteCandidates();
      DeleteLive();
      EverythingCleared(before, ranges, all);
      pages.ForgetCode();
      EmptyTables(localise, places);
      assert jitBlocks.Values == {};
    }

    method DeleteCandidates()
      requires Owned(jitBlocks, candidates, places) && forall id :: id in places ==> places[id] != InHand
      modifies `candidates, `places
      ensures Owned(jitBlocks, candidates, places) && candidates == map[]
      ensures places.Keys == old(places.Keys) && forall id :: id in places ==> places[id] != InHand
    {
      hide Owned;
      while candidates != map[]
        invariant Owned(jitBlocks, candidates, places)
        invariant places.Keys == old(places.Keys) && forall id :: id in places ==> places[id] != InHand
        decreases candidates.Keys
      {
        SomeHash(candidates);
        var h :| h in candidates;
        var block := TakeCandidate(h);
        Delete(block);
      }
    }

    method DeleteLive()
      requires Owned(jitBlocks, candidates, places) && forall id :: id in places ==> places[id] != InHand
      modifies `jitBlocks, `places, `ranges
      ensures Owned(jitBlocks, candidates, places) && jitBlocks == map[]
      ensures places.Keys == old(places.Keys) && forall id :: id in places ==> places[id] != InHand
      ensures ClearedApartFrom(old(ranges), ranges, old(jitBlocks), map[])
    {
      hide ClearedApartFrom, Owned;
      ClearedStart(ranges, jitBlocks);
      while jitBlocks != map[]
        invariant Owned(jitBlocks, candidates, places) && places.Keys == old(places.Keys)
        invariant forall id :: id in places ==> places[id] != InHand
        invariant forall key :: key in jitBlocks ==> key in old(jitBlocks) && jitBlocks[key] == old(jitBlocks)[key]
        invariant ClearedApartFrom(old(ranges), ranges, old(jitBlocks), jitBlocks)
        decreases jitBlocks.Keys
      {
        var key :| key in jitBlocks;
        ghost var earlier := ranges;
        ClearRanges(jitBlocks[key]);
        ClearedOneMore(old(ranges), earlier, ranges, old(jitBlocks), jitBlocks, key);
        var block := Erase(key);
        Delete(block);
      }
    }

    static lemma EmptyTables(localise: (int, int) -> int, places: map<nat, Place>)
      ensures Filed(map[], localise) && SlotsNameBlocks(map[], map[]) && Restorable(map[], localise)
      ensures Owned(map[], map[], places) && (forall id :: id in places ==> places[id] != InHand) ==>
                forall id :: id in places ==> places[id] == Deleted
    {
    }

    static lemma SomeHash(m: map<int, Block>)
      ensures m == map[] || exists h :: h in m
    {
      if forall h :: h !in m {
        assert m == map[];
      }
    }

    /** Ranges named by blocks that have left the map are empty, the others are as before. */
    static ghost predicate ClearedApartFrom(before: map<int, Range>, after: map<int, Range>,
                                            all: map<(int, int), Block>, left: map<(int, int), Block>)
    {
      && (forall k: int :: At(after, k) == At(before, k) || At(after, k) == Range([], {}))
      && (forall key, k: int :: key in all && key !in left && k in all[key].ranges ==> At(after, k) == Range([], {}))
    }

    static lemma ClearedStart(ranges: map<int, Range>, all: map<(int, int), Block>)
      ensures ClearedApartFrom(ranges, ranges, all, all)
    {
    }

    static lemma ClearedOneMore(before: map<int, Range>, earlier: map<int, Range>, after: map<int, Range>,
                                all: map<(int, int), Block>, left: map<(int, int), Block>, key: (int, int))
      requires ClearedApartFrom(before, earlier, all, left) && key in left && key in all && left[key] == all[key]
      requires forall k: int :: At(after, k) == if k in left[key].ranges then Range([], {}) else At(earlier, k)
      ensures ClearedApartFrom(before, after, all, left - {key})
    {
    }

    method ClearRanges(block: Block)
      modifies `ranges
      ensures forall k: int :: At(ranges, k) == if k in block.ranges then Range([], {}) else At(old(ranges), k)
    {
      for j := 0 to |block.ranges|
        invariant forall k: int :: At(ranges, k) == if k in block.ranges[..j] then Range([], {}) else At(old(ranges), k)
      {
        ranges := ranges[block.ranges[j] := Range([], {})];
        assert block.ranges[..j + 1] == block.ranges[..j] + [block.ranges[j]];
      }
      assert block.ranges[..|block.ranges|] == block.ranges;
    }

    static lemma EverythingCleared(before: map<int, Range>, after: map<int, Range>, all: map<(int, int), Block>)
      requires Lists(before, all.Values, NoBlock(), {}) && Covers(before, {})
      requires ClearedApartFrom(before, after, all, map[])
      ensures forall k: int :: At(after, k) == Range([], {})
      ensures Lists(after, {}, NoBlock(), {}) && Covers(after, {}) && Protects(after, {})
    {
      forall k: int ensures At(after, k) == Range([], {}) {
        if At(before, k).blocks != [] {
          var b := At(before, k).blocks[0];
          assert b in At(before, k).blocks;
          var key :| key in all && all[key] == b;
        }
      }
      forall page: int ensures !PageHasCode(after, page) {
      }
    }
  }

  method CompiledAndWritten(localise: (int, int) -> int, mirror: Pages.Mirrors, hole: Pages.Hole, b: Block, written: u32) returns (cache: BlockCache)
    requires Pages.WellFormed(mirror, hole) && FiledAs(b, (b.num, b.startAddr), localise)
    requires BlockCache.CompiledFrom(b, written) && written !in b.literals
    ensures fresh(cache) && fresh(cache.pages) && cache.Valid() && cache.localise == localise && cache.places.Keys == {b.id}
    ensures cache.jitBlocks == map[] && cache.candidates == map[b.instrHash := b]
  {
    hide Lists, Filed, Covers, SlotsNameBlocks, Owned, Restorable, Protects, NoDuplicates, BlockCache.CompiledFrom;
    cache := new BlockCache(localise, mirror, hole);
    var block := cache.CompileBlock(b.num, b);
    OnlyBlock(cache, b, written);
    cache.CheckAndInvalidate(written);
    OneRetired(b, written);
    assert cache.jitBlocks == map[] by {
      assert forall key :: key !in cache.jitBlocks;
    }
  }

  lemma OneRetired(b: Block, written: u32)
    requires written !in b.literals
    ensures BlockCache.RetireAll(map[], [b], written) == map[b.instrHash := b]
  {
    assert RemoveAt([b], 0) == [];
  }

  /** The run on which the cache loses its coherence: the ARM9 compiles code at an address that both CPUs map to the
      same memory, a write there retires the block, and the ARM7 compiles the unchanged code.  The ARM7's table and
      its lookup slot then name the code that was generated for the ARM9. */
  method OtherCpuRestored(localise: (int, int) -> int, mirror: Pages.Mirrors, hole: Pages.Hole, for9: Block, for7: Block, written: u32) returns (cache: BlockCache)
    requires Pages.WellFormed(mirror, hole)
    requires for9.num == 0 && for7.num == 1 && for9.id != for7.id && for9.instrHash == for7.instrHash
    requires FiledAs(for9, (0, for9.startAddr), localise) && FiledAs(for7, (1, for9.startAddr), localise)
    requires BlockCache.SameCode(for9, for7) && BlockCache.CompiledFrom(for9, written) && written !in for9.literals
    ensures fresh(cache) && !cache.Valid()
    ensures (1, for9.startAddr) in cache.jitBlocks && cache.jitBlocks[(1, for9.startAddr)] == for9
    ensures for7.startLocal / 2 in cache.fast && cache.fast[for7.startLocal / 2] == Slot(for9.startAddr + 1, for9.entry)
  {
    hide Lists, Filed, Covers, SlotsNameBlocks, Owned, Restorable, Protects, NoDuplicates, WellFormed, BlockCache.CompiledFrom;
    cache := CompiledAndWritten(localise, mirror, hole, for9, written);
    var block := cache.CompileBlock(1, for7);
  }

  lemma FirstTwoDiffer<T>(s: seq<T>)
    requires NoDuplicates(s)
    ensures |s| > 1 ==> s[0] != s[1] && s[0] in s && s[1] in s
  {
  }

  /** With a single live block, the range written to lists that block alone. */
  lemma OnlyBlock(cache: BlockCache, b: Block, written: u32)
    requires cache.Valid() && cache.jitBlocks == map[(b.num, b.startAddr) := b]
    requires WellFormed(b) && BlockCache.CompiledFrom(b, written)
    ensures At(cache.ranges, written / 512).blocks == [b] && written % 512 / 16 in At(cache.ranges, written / 512).code
  {
    var k := written / 512;
    var blocks := At(cache.ranges, k).blocks;
    assert k in b.ranges;
    assert cache.jitBlocks[(b.num, b.startAddr)] == b;
    assert b in cache.jitBlocks.Values;
    assert b in blocks;
    assert NoDuplicates(blocks);
    assert forall c :: c in blocks ==> c == b;
    FirstTwoDiffer(blocks);
    assert blocks[0] == b;
    assert MaskAt(b, k) <= At(cache.ranges, k).code;
  }

  /** Such a run: two instructions at 0x02000000. */
  method OtherCpuRestoredOnce() returns (cache: BlockCache)
    ensures !cache.Valid()
  {
    var for9 := Block(0, 0, 0x0200_0000, 0x2000_0000, 1, 0, [0x10_0000], [{0}], [], 0x1000);
    var for7 := for9.(id := 1, num := 1, entry := 0x2000);
    assert for9.ranges[0] == 0x10_0000;
    cache := OtherCpuRestored((num, addr) => 0x2000_0000 + addr % 0x40_0000, (num, addr) => None, Pages.Hole(0, 0), for9, for7, 0x2000_0000);
  }
}
