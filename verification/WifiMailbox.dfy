/** The receive side of the DSi wifi card (src/DSi_NWifi.cpp): frames collect in mailbox 8 and are passed on,
    padded, to mailbox 4. */
module WifiMailbox {
  import opened Machine
  import opened Fifos

  const RX_SIZE: nat := 0x8000
  const BOX_SIZE: nat := 0x600
  const HEADER: nat := 6

  function Bytes16(v: int): (r: seq<u8>)
    ensures |r| == 2 && (r[0] as int) + 0x100 * (r[1] as int) == v % 0x1_0000
  {
    var lo: u8, hi: u8 := v % 0x100, v / 0x100 % 0x100;
    [lo, hi]
  }

  function Bytes32(v: u32): (r: seq<u8>)
    ensures |r| == 4 && (r[0] as int) + 0x100 * (r[1] as int) + 0x1_0000 * (r[2] as int) + 0x100_0000 * (r[3] as int) == v
  {
    Bytes16(v % 0x1_0000) + Bytes16(v / 0x1_0000)
  }

  /** The length of a frame by its header. */
  function TotalLen(s: seq<u8>): nat
    requires |s| >= HEADER
  {
    HEADER + (s[2] as int) + 0x100 * (s[3] as int)
  }

  predicate IsFrame(f: seq<u8>) {
    |f| >= HEADER && TotalLen(f) == |f|
  }

  /** A concatenation of whole frames whose length fields match their bodies. */
  predicate WholeFrames(s: seq<u8>)
    decreases |s|
  {
    s == [] || (|s| >= HEADER && TotalLen(s) <= |s| && WholeFrames(s[TotalLen(s)..]))
  }

  function Frames(s: seq<u8>): seq<seq<u8>>
    requires WholeFrames(s)
    decreases |s|
  {
    if s == [] then [] else [s[..TotalLen(s)]] + Frames(s[TotalLen(s)..])
  }

  /** A frame on its own and behind other frames. */
  lemma OneFrame(f: seq<u8>)
    requires IsFrame(f)
    ensures WholeFrames(f) && Frames(f) == [f]
  {
    assert f[TotalLen(f)..] == [] && f[..TotalLen(f)] == f;
  }

  lemma FirstOfBoth(a: seq<u8>, b: seq<u8>)
    requires |a| >= HEADER && TotalLen(a) <= |a|
    ensures var n := TotalLen(a);
            TotalLen(a + b) == n && (a + b)[n..] == a[n..] + b && (a + b)[..n] == a[..n]
  {
  }

  lemma {:induction false} FramesAppend(a: seq<u8>, b: seq<u8>)
    requires WholeFrames(a) && WholeFrames(b)
    ensures WholeFrames(a + b) && Frames(a + b) == Frames(a) + Frames(b)
    decreases |a|
  {
    if a == [] {
      assert a + b == b;
    } else {
      var n := TotalLen(a);
      FramesAppend(a[n..], b);
      FirstOfBoth(a, b);
      assert [a[..n]] + Frames(a[n..]) + Frames(b) == [a[..n]] + (Frames(a[n..]) + Frames(b));
    }
  }

  function PadLen(n: nat): nat {
    (n + 0x7F) / 0x80 * 0x80
  }

  function Zeros(n: nat): seq<u8> {
    seq(n, _ => 0)
  }

  function Padded(f: seq<u8>): seq<u8> {
    PadLenGrows(|f|);
    f + Zeros(PadLen(|f|) - |f|)
  }

  lemma PadLenGrows(n: nat)
    ensures n <= PadLen(n) < n + 0x80 && PadLen(n) % 0x80 == 0
  {
  }

  function PaddedAll(frames: seq<seq<u8>>): seq<u8> {
    if frames == [] then [] else PaddedAll(frames[..|frames| - 1]) + Padded(frames[|frames| - 1])
  }

  // ---- the frames that are sent

  function EventFrame(ep: u8, id: u16, data: seq<u8>): seq<u8> {
    [ep, 0x02] + Bytes16(|data| + 2 + 8) + [8, 0] + Bytes16(id) + data + [0x02, 0x06, 0, 0, 0, 0, 0, 0]
  }

  function AckFrame(ep: u8): seq<u8> {
    [0, 0x02] + Bytes16(0xC) + [0xC, 0] + [0x01, 0x02, ep, 0x01] + [0x02, 0x06, 0, 0, 0, 0, 0, 0]
  }

  function BssInfoFrame(kind: u8, apMac: seq<u8>, data: seq<u8>): seq<u8>
    requires |apMac| == 6
  {
    [1, 0x00] + Bytes16(|data| + 2 + 16) + [0xFF, 0xFF] + Bytes16(0x1004) + Bytes16(2437) + [kind, 0x1B]
    + Bytes16(0xFFBC) + apMac + Bytes32(0) + data
  }

  /** A received packet: addresses and length go into a header, the type behind an LLC prefix. The body length
      may come out negative. */
  function RxFrame(lan: seq<u8>, rxlen: nat): seq<u8>
    requires 14 <= |lan| && rxlen <= |lan|
  {
    var datalen := rxlen - 14;
    [2, 0x00] + Bytes16(16 + 8 + datalen) + [0, 0] + Bytes16(0x80) + lan[..6] + lan[6..12]
    + [Bytes16(datalen + 8)[1], Bytes16(datalen + 8)[0]]
    + Bytes16(0xAAAA) + Bytes16(0x0003) + Bytes16(0) + lan[12..14]
    + if datalen >= 0 then lan[14..rxlen] else []
  }

  lemma Length16(n: nat)
    requires n < 0x1_0000
    ensures (Bytes16(n)[0] as int) + 0x100 * (Bytes16(n)[1] as int) == n
  {
  }

  /** Where the receiver finds the packet in its frame: the two addresses, the length of LLC prefix and payload with
      its high byte first, the type and the payload. */
  lemma RxCarriesPacket(lan: seq<u8>, rxlen: nat)
    requires 14 <= rxlen <= |lan| && rxlen < 0x8000
    ensures var f := RxFrame(lan, rxlen);
            && |f| == 30 + (rxlen - 14) && f[0] == 2 && f[1] == f[4] == f[5] == f[7] == 0 && f[6] == 0x80
            && f[8..20] == lan[..12] && 0x100 * (f[20] as int) + (f[21] as int) == rxlen - 14 + 8
            && f[22..28] == [0xAA, 0xAA, 3, 0, 0, 0] && f[28..30] == lan[12..14] && f[30..] == lan[14..rxlen]
  {
    Length16(rxlen - 14 + 8);
    var head := [2, 0x00] + Bytes16(16 + 8 + (rxlen - 14)) + [0, 0] + Bytes16(0x80);
    var len: seq<u8> := [Bytes16(rxlen - 14 + 8)[1], Bytes16(rxlen - 14 + 8)[0]];
    assert RxFrame(lan, rxlen) == head + (lan[..6] + lan[6..12]) + len + (Bytes16(0xAAAA) + Bytes16(0x0003) + Bytes16(0)) + lan[12..14] + lan[14..rxlen];
    assert lan[..6] + lan[6..12] == lan[..12];
  }

  /** An event frame holds its endpoint, its number, its data and an empty lookahead report, in their places. */
  lemma EventIsFrame(ep: u8, id: u16, data: seq<u8>)
    requires |data| < 0x8000
    ensures var f := EventFrame(ep, id, data);
            && IsFrame(f) && |f| == 6 + |data| + 2 + 8
            && f[0] == ep && f[1] == 2 && f[4] == 8 && f[5] == 0 && (f[6] as int) + 0x100 * (f[7] as int) == id
            && f[8..8 + |data|] == data && f[8 + |data|..] == [2, 6, 0, 0, 0, 0, 0, 0]
  {
    Length16(|data| + 2 + 8);
    Length16(id);
    var head := [ep, 0x02] + Bytes16(|data| + 2 + 8) + [8, 0] + Bytes16(id);
    Sections(head, data, [0x02, 0x06, 0, 0, 0, 0, 0, 0]);
  }

  lemma Sections(a: seq<u8>, b: seq<u8>, c: seq<u8>)
    ensures (a + b + c)[..|a|] == a && (a + b + c)[|a|..|a| + |b|] == b && (a + b + c)[|a| + |b|..] == c
  {
  }

  /** An acknowledgement is a credit report and an empty lookahead report. */
  lemma AckIsFrame(ep: u8)
    ensures IsFrame(AckFrame(ep))
    ensures AckFrame(ep) == [0, 2, 12, 0, 12, 0, 1, 2, ep, 1, 2, 6, 0, 0, 0, 0, 0, 0]
  {
  }

  /** A network found: channel 2437 MHz, kind, signal values, address, no mask, then the beacon's data. */
  lemma BssInfoIsFrame(kind: u8, apMac: seq<u8>, data: seq<u8>)
    requires |apMac| == 6 && |data| < 0x8000
    ensures var f := BssInfoFrame(kind, apMac, data);
            && IsFrame(f) && |f| == 6 + |data| + 2 + 16
            && f[..2] == [1, 0] && f[4..10] == [0xFF, 0xFF, 0x04, 0x10, 0x85, 0x09] && f[10..14] == [kind, 0x1B, 0xBC, 0xFF]
            && f[14..20] == apMac && f[20..24] == [0, 0, 0, 0] && f[24..] == data
  {
    Length16(|data| + 2 + 16);
    var head := [1, 0x00] + Bytes16(|data| + 2 + 16) + [0xFF, 0xFF] + Bytes16(0x1004) + Bytes16(2437) + [kind, 0x1B] + Bytes16(0xFFBC);
    Sections(head, apMac, Bytes32(0) + data);
    assert BssInfoFrame(kind, apMac, data) == head + apMac + (Bytes32(0) + data);
    Sections([], Bytes32(0), data);
    assert Bytes16(0x1004) == [0x04, 0x10] && Bytes16(2437) == [0x85, 0x09] && Bytes16(0xFFBC) == [0xBC, 0xFF] && Bytes32(0) == [0, 0, 0, 0];
    var f := BssInfoFrame(kind, apMac, data);
    assert f[24..] == f[20..][4..] && f[20..24] == f[20..][..4];
    assert f[4..10] == head[4..10] && f[10..14] == head[10..14] && f[..2] == head[..2];
  }

  /** What is written for a packet is a frame exactly when the packet holds an Ethernet header: below 14 bytes
      the length field goes down with the missing bytes but the frame does not. */
  lemma RxIsFrameIff(lan: seq<u8>, rxlen: nat)
    requires 14 <= |lan| && 0 < rxlen <= |lan| < 0x8000
    ensures IsFrame(RxFrame(lan, rxlen)) <==> rxlen >= 14
    ensures |RxFrame(lan, rxlen)| == if rxlen >= 14 then rxlen + 16 else 30
  {
    Length16(24 + rxlen - 14);
  }

  // ---- draining any bytes

  function Taken(s: seq<u8>, n: nat): seq<u8> {
    if n <= |s| then s[..n] else s
  }

  function Remaining(s: seq<u8>, n: nat): seq<u8> {
    if n <= |s| then s[n..] else []
  }

  function Missing(s: seq<u8>, n: nat): nat {
    if n <= |s| then 0 else n - |s|
  }

  /** What draining makes of the two mailboxes, up to the bytes read from an empty one. */
  ghost predicate DrainsTo(rx: seq<u8>, box: seq<u8>, rxAfter: seq<u8>, boxAfter: seq<u8>)
    decreases |rx|
  {
    if |rx| < 6 || |box| + PadLen(TotalLen(rx)) > 0x600 then rxAfter == rx && boxAfter == box
    else exists junk :: |junk| == Missing(rx, TotalLen(rx)) && DrainsTo(Remaining(rx, TotalLen(rx)), AfterFrame(rx, box, junk), rxAfter, boxAfter)
  }

  function AfterFrame(rx: seq<u8>, box: seq<u8>, junk: seq<u8>): seq<u8>
    requires |rx| >= HEADER
  {
    PadLenGrows(TotalLen(rx));
    box + Taken(rx, TotalLen(rx)) + junk + Zeros(PadLen(TotalLen(rx)) - TotalLen(rx))
  }

  lemma DrainStops(rx: seq<u8>, box: seq<u8>)
    ensures |rx| < HEADER || |box| + PadLen(TotalLen(rx)) > 0x600 ==> DrainsTo(rx, box, rx, box)
  {
  }

  lemma DrainStep(rx: seq<u8>, box: seq<u8>, junk: seq<u8>)
    requires |rx| >= HEADER && |box| + PadLen(TotalLen(rx)) <= 0x600 && |junk| == Missing(rx, TotalLen(rx))
    ensures forall r, b :: DrainsTo(Remaining(rx, TotalLen(rx)), AfterFrame(rx, box, junk), r, b) ==> DrainsTo(rx, box, r, b)
  {
  }

  /** Whatever the bytes: what is left is the end of what there was, the next frame would not fit or has no whole
      header, and the mailbox has gained whole padded frames. */
  lemma {:induction false} DrainIsExact(rx: seq<u8>, box: seq<u8>, rxAfter: seq<u8>, boxAfter: seq<u8>)
    requires DrainsTo(rx, box, rxAfter, boxAfter)
    ensures |rxAfter| <= |rx| && rxAfter == rx[|rx| - |rxAfter|..]
    ensures box <= boxAfter && (|boxAfter| - |box|) % 0x80 == 0 && (|boxAfter| > 0x600 ==> boxAfter == box)
    ensures |rxAfter| < HEADER || |boxAfter| + PadLen(TotalLen(rxAfter)) > 0x600
    ensures rxAfter == rx <==> boxAfter == box
    decreases |rx|
  {
    hide AfterFrame, PadLen, Missing, TotalLen, Remaining;
    if !(|rx| < HEADER || |box| + PadLen(TotalLen(rx)) > BOX_SIZE) {
      var n := TotalLen(rx);
      AtLeastHeader(rx);
      RemainingIsEnd(rx, n);
      var junk :| |junk| == Missing(rx, n) && DrainsTo(Remaining(rx, n), AfterFrame(rx, box, junk), rxAfter, boxAfter);
      DrainIsExact(Remaining(rx, n), AfterFrame(rx, box, junk), rxAfter, boxAfter);
      PadLenGrows(n);
      OneFramePadded(rx, box, junk);
      EndOfEnd(rx, n, rxAfter);
    }
  }

  lemma RemainingIsEnd(s: seq<u8>, n: nat)
    requires 0 < n && s != []
    ensures var t := Remaining(s, n); |t| < |s| && t == s[|s| - |t|..]
  {
  }

  lemma EndOfEnd(s: seq<u8>, n: nat, r: seq<u8>)
    requires 0 < n && s != []
    requires var t := Remaining(s, n); |r| <= |t| && r == t[|t| - |r|..]
    ensures |r| < |s| && r == s[|s| - |r|..]
  {
    RemainingIsEnd(s, n);
  }

  lemma AtLeastHeader(s: seq<u8>)
    requires |s| >= HEADER
    ensures TotalLen(s) >= HEADER
  {
  }

  lemma OneFramePadded(rx: seq<u8>, box: seq<u8>, junk: seq<u8>)
    requires |rx| >= HEADER && |junk| == Missing(rx, TotalLen(rx))
    ensures box <= AfterFrame(rx, box, junk) && |AfterFrame(rx, box, junk)| == |box| + PadLen(TotalLen(rx))
  {
    PadLenGrows(TotalLen(rx));
  }

  // ---- the card

  class RxPath {
    var rx: seq<u8>
    var box: seq<u8>

    predicate Bounded()
      reads this
    {
      |rx| <= RX_SIZE && |box| <= BOX_SIZE
    }

    /** The receive buffer always holds whole frames. */
    predicate Valid()
      reads this
    {
      Bounded() && WholeFrames(rx)
    }

    /** Of the frames waiting before, the first k went to mailbox 4, padded and in order, and the next one does
        not fit any more. */
    ghost predicate Passed(waiting: seq<seq<u8>>, boxBefore: seq<u8>, k: nat)
      reads this
    {
      && Valid() && k <= |waiting| && Frames(rx) == waiting[k..] && box == boxBefore + PaddedAll(waiting[..k])
      && (Frames(rx) == [] || |box| + PadLen(|Frames(rx)[0]|) > 0x600)
    }

    constructor ()
      ensures Valid() && rx == [] && box == []
    {
      rx, box := [], [];
    }

    method CanFit(n: nat) returns (r: bool)
      ensures r <==> |rx| + n <= 0x8000
    {
      r := |rx| + n <= RX_SIZE;
    }

    /** Bytes written one by one; a full mailbox drops them. */
    method Put(bytes: seq<u8>)
      requires Bounded()
      modifies `rx
      ensures Bounded()
      ensures rx == Cut(old(rx) + bytes)
    {
      var i := 0;
      while i < |bytes|
        invariant i <= |bytes| && |rx| <= RX_SIZE && rx == Cut(old(rx) + bytes[..i])
      {
        rx := Pushed(rx, RX_SIZE, bytes[i]);
        i := i + 1;
      }
      assert bytes[..i] == bytes;
    }

    static function Cut(s: seq<u8>): seq<u8> {
      if |s| > RX_SIZE then s[..RX_SIZE] else s
    }

    /** The first frame with its padding; `junk` are the bytes read after the mailbox has run empty. */
    method MoveFrame(totallen: nat, required: nat) returns (ghost junk: seq<u8>)
      requires Bounded() && HEADER <= totallen <= required && |box| + required <= 0x600 && |rx| >= HEADER
      modifies `rx, `box
      ensures Bounded() && |rx| < old(|rx|) && |junk| == Missing(old(rx), totallen)
      ensures rx == Remaining(old(rx), totallen) && box == old(box) + Taken(old(rx), totallen) + junk + Zeros(required - totallen)
    {
      var i := 0;
      junk := [];
      while i < totallen
        invariant i <= totallen && |box| == old(|box|) + i
        invariant rx == Remaining(old(rx), i) && |junk| == Missing(old(rx), i) && box == old(box) + Taken(old(rx), i) + junk
      {
        var b: u8 := *;
        ghost var over := rx == [];
        if rx != [] {
          b := rx[0];
          rx := rx[1..];
        }
        if over {
          junk := junk + [b];
        }
        box := Pushed(box, BOX_SIZE, b);
        i := i + 1;
      }
      ghost var moved := box;
      while i < required
        invariant totallen <= i <= required && box == moved + Zeros(i - totallen)
        modifies `box
      {
        box := Pushed(box, BOX_SIZE, 0);
        i := i + 1;
      }
    }

    /** Frames are passed on as long as the next one fits. Of whole frames none is split and nothing is dropped; any
        other bytes are taken for frames as they come. */
    method DrainRXBuffer() returns (ghost k: nat)
      requires Bounded()
      modifies `rx, `box
      ensures Bounded() && DrainsTo(old(rx), old(box), rx, box)
      ensures WholeFrames(old(rx)) ==> Passed(Frames(old(rx)), old(box), k)
    {
      hide Padded, PadLen, PaddedAll, WholeFrames, Frames, DrainsTo;
      k := 0;
      ghost var whole := WholeFrames(rx);
      ghost var fs := if whole then Frames(rx) else [];
      NoPadding();
      while true
        invariant Bounded()
        invariant forall r, b :: DrainsTo(rx, box, r, b) ==> DrainsTo(old(rx), old(box), r, b)
        invariant whole ==> WholeFrames(rx) && k <= |fs| && Frames(rx) == fs[k..] && box == old(box) + PaddedAll(fs[..k])
        decreases |rx|
      {
        DrainStops(rx, box);
        if whole {
          FirstFrame(rx);
        }
        if |rx| < HEADER {
          break;
        }
        var totallen := TotalLen(rx);
        var required := PadLen(totallen);
        PadLenGrows(totallen);
        assert whole ==> fs[k..][0] == fs[k];
        if |box| + required > BOX_SIZE {
          break;
        }
        if whole {
          PaddedNext(old(box), box, fs, k);
        }
        ghost var rx0, box0 := rx, box;
        ghost var junk := MoveFrame(totallen, required);
        DrainStep(rx0, box0, junk);
        if whole {
          assert junk == [] && box == box0 + rx0[..totallen] + Zeros(required - totallen);
          assert fs[k..][1..] == fs[k + 1..];
          k := k + 1;
        }
      }
    }

    method SendWMIEvent(ep: u8, id: u16, data: seq<u8>) returns (ghost k: nat)
      requires Valid()
      modifies `rx, `box
      ensures Valid()
      ensures old(|rx|) + |data| + 16 > 0x8000 ==> rx == old(rx) && box == old(box)
      ensures old(|rx|) + |data| + 16 <= 0x8000 ==> Passed(Frames(old(rx)) + [EventFrame(ep, id, data)], old(box), k)
    {
      k := 0;
      var fits := CanFit(6 + |data| + 2 + 8);
      if !fits {
        return;
      }
      EventIsFrame(ep, id, data);
      PutFrame(EventFrame(ep, id, data));
      k := DrainRXBuffer();
    }

    method SendWMIAck(ep: u8) returns (ghost k: nat)
      requires Valid()
      modifies `rx, `box
      ensures Valid()
      ensures old(|rx|) + 18 > 0x8000 ==> rx == old(rx) && box == old(box)
      ensures old(|rx|) + 18 <= 0x8000 ==> Passed(Frames(old(rx)) + [AckFrame(ep)], old(box), k)
    {
      k := 0;
      var fits := CanFit(6 + 12);
      if !fits {
        return;
      }
      AckIsFrame(ep);
      PutFrame(AckFrame(ep));
      k := DrainRXBuffer();
    }

    method SendWMIBSSInfo(kind: u8, apMac: seq<u8>, data: seq<u8>) returns (ghost k: nat)
      requires Valid() && |apMac| == 6
      modifies `rx, `box
      ensures Valid()
      ensures old(|rx|) + |data| + 24 > 0x8000 ==> rx == old(rx) && box == old(box)
      ensures old(|rx|) + |data| + 24 <= 0x8000 ==> Passed(Frames(old(rx)) + [BssInfoFrame(kind, apMac, data)], old(box), k)
    {
      k := 0;
      var fits := CanFit(6 + |data| + 2 + 16);
      if !fits {
        return;
      }
      BssInfoIsFrame(kind, apMac, data);
      PutFrame(BssInfoFrame(kind, apMac, data));
      k := DrainRXBuffer();
    }

    /** A frame whose padded length is over the size of mailbox 4 never leaves the receive buffer, however empty
        the host keeps the mailbox, and keeps everything behind it waiting. */
    lemma LongFramesBlock(waiting: seq<seq<u8>>, boxBefore: seq<u8>, k: nat)
      requires Passed(waiting, boxBefore, k) && waiting != [] && PadLen(|waiting[0]|) > 0x600
      ensures k == 0 && Frames(rx) == waiting
    {
      if k > 0 {
        assert waiting[..k][0] == waiting[0];
        PaddedAllAtLeast(waiting[..k]);
      }
    }

    /** A packet from the network, unless there is no room, it is for someone else or it is our own. The room
        check covers packets of up to 2032 bytes; shorter than an Ethernet header they would break the framing
        (see RxIsFrameIff). The bytes of a longer or shorter one go in as far as they fit and are drained as they
        come. */
    method CheckRX(lan: seq<u8>, rxlen: nat, mac: seq<u8>) returns (ghost k: nat)
      requires Bounded() && |mac| == 6 && 14 <= |lan| < 0x8000 && rxlen <= |lan|
      modifies `rx, `box
      ensures Bounded()
      ensures
        if old(|rx|) + 2048 > 0x8000 || rxlen == 0 || (lan[..6] != seq(6, _ => 0xFF) && lan[..6] != mac) || lan[6..12] == mac
        then rx == old(rx) && box == old(box)
        else
          && DrainsTo(Cut(old(rx) + RxFrame(lan, rxlen)), old(box), rx, box)
          && (old(Valid()) && 14 <= rxlen <= 2032 ==> Passed(Frames(old(rx)) + [RxFrame(lan, rxlen)], old(box), k))
    {
      hide DrainsTo, RxFrame, WholeFrames, Frames;
      k := 0;
      var fits := CanFit(2048);
      if !fits || rxlen == 0 {
        return;
      }
      assert Broadcast() == seq(6, _ => 0xFF);
      if lan[..6] != Broadcast() && lan[..6] != mac {
        return;
      }
      if lan[6..12] == mac {
        return;
      }
      RxIsFrameIff(lan, rxlen);
      if WholeFrames(rx) && 14 <= rxlen <= 2032 {
        OneFrame(RxFrame(lan, rxlen));
        FramesAppend(rx, RxFrame(lan, rxlen));
      }
      Put(RxFrame(lan, rxlen));
      k := DrainRXBuffer();
    }

    /** The host reads mailbox 4 byte by byte and lets more frames in at the end of its window. */
    method ReadBox(last: bool) returns (b: u8, ghost k: nat)
      requires Bounded()
      modifies `rx, `box
      ensures Bounded() && (old(box) != [] ==> b == old(box)[0])
      ensures !last ==> rx == old(rx) && box == Tail(old(box))
      ensures last ==> DrainsTo(old(rx), Tail(old(box)), rx, box)
      ensures last && old(Valid()) ==> Passed(Frames(old(rx)), Tail(old(box)), k)
    {
      b := *;
      k := 0;
      if box != [] {
        b := box[0];
        box := box[1..];
      }
      if last {
        k := DrainRXBuffer();
      }
    }

    static function Tail(s: seq<u8>): seq<u8> {
      if s == [] then [] else s[1..]
    }

    method PutFrame(f: seq<u8>)
      requires Valid() && IsFrame(f) && |rx| + |f| <= 0x8000
      modifies `rx
      ensures Valid() && rx == old(rx) + f && Frames(rx) == Frames(old(rx)) + [f]
    {
      OneFrame(f);
      FramesAppend(rx, f);
      Put(f);
    }
  }

  function Broadcast(): seq<u8> {
    [0xFF, 0xFF, 0xFF, 0xFF, 0xFF, 0xFF]
  }

  lemma NoPadding()
    ensures PaddedAll([]) == []
  {
  }

  lemma FirstFrame(s: seq<u8>)
    requires WholeFrames(s)
    ensures |s| < HEADER <==> s == []
    ensures s == [] <==> Frames(s) == []
    ensures s != [] ==> TotalLen(s) <= |s| && Frames(s)[0] == s[..TotalLen(s)] && WholeFrames(s[TotalLen(s)..]) && Frames(s[TotalLen(s)..]) == Frames(s)[1..]
  {
  }

  lemma {:induction false} PaddedAllAtLeast(fs: seq<seq<u8>>)
    requires fs != []
    ensures |PaddedAll(fs)| >= PadLen(|fs[0]|)
  {
    if |fs| > 1 {
      PaddedAllAtLeast(fs[..|fs| - 1]);
    }
  }

  lemma PaddedNext(start: seq<u8>, box: seq<u8>, fs: seq<seq<u8>>, k: nat)
    requires k < |fs| && box == start + PaddedAll(fs[..k])
    ensures box + fs[k] + Zeros(PadLen(|fs[k]|) - |fs[k]|) == start + PaddedAll(fs[..k + 1])
  {
    assert fs[..k + 1][..k] == fs[..k];
  }
}
