/**
 On-card format of an SRAM snapshot slot: a header block, a framed payload (PAY0, then for every
 captured region RGS0, data blocks, RGE0, and finally PAYE) and, in the slot's last block, the commit.
 `PayloadBlocks` is what the snapshot task writes; `RestoreSlot` is the bootloader's walk over a
 slot. The two were written independently; `RestoreOfCapture` proves that they agree.
 */
module SnapshotFormat {
  import opened Words
  import opened Sd
  import Fnv

  const HDR_MAGIC: uint32 := 0x5041_4E53
  const CMIT_MAGIC: uint32 := 0x5449_4D43
  const PAY0_MAGIC: uint32 := 0x3059_4150
  const PAYE_MAGIC: uint32 := 0x4559_4150
  const RGS0_MAGIC: uint32 := 0x3053_4752
  const RGE0_MAGIC: uint32 := 0x3045_4752
  const FMT_VERSION: uint32 := 1

  datatype Region = Region(addr: uint32, len: uint32)

  /** SRAM contents; the first byte lies at address base. */
  datatype Sram = Sram(base: uint32, bytes: seq<uint8>) {
    predicate Holds(r: Region) {
      base <= r.addr && r.addr + r.len <= base + |bytes|
    }

    function Get(r: Region): (s: seq<uint8>)
      requires Holds(r)
      ensures |s| == r.len
    {
      bytes[r.addr - base..r.addr - base + r.len]
    }

    function Put(addr: nat, data: seq<uint8>): (m: Sram)
      requires base <= addr && addr + |data| <= base + |bytes|
      ensures m.base == base && |m.bytes| == |bytes|
    {
      var k := addr - base;
      Sram(base, bytes[..k] + data + bytes[k + |data|..])
    }
  }

  datatype CaptureInfo = CaptureInfo(reason: uint32, tick: uint32, ready: uint32)

  function TotalBytes(rs: seq<Region>): nat {
    if rs == [] then 0 else TotalBytes(rs[..|rs| - 1]) + rs[|rs| - 1].len
  }

  /** What the capture hands to the writer: one to four regions inside SRAM. */
  predicate Capturable(m: Sram, rs: seq<Region>) {
    && 1 <= |rs| <= 4
    && (forall i :: 0 <= i < |rs| ==> m.Holds(rs[i]))
    && TotalBytes(rs) < TWO_32
  }

  // Writer side

  function HeaderBlock(seqNo: uint32, slot: uint32, slotLba: uint32, slotBlocks: uint32): (b: Block)
    requires slotLba + 1 < TWO_32 && slotBlocks >= 2
    ensures HeaderOk(b, slotLba, slotBlocks, slot) && b[2] == seqNo
  {
    var ws: seq<uint32> := [HDR_MAGIC, FMT_VERSION, seqNo, slot, slotLba + 1, slotBlocks - 2, 1];
    var b := Sealed(ws);
    assert forall i :: 0 <= i < 7 ==> b[i] == b[..7][i];
    b
  }

  function CommitBlock(seqNo: uint32, slot: uint32): (b: Block)
    ensures CommitOk(b, slot) && b[2] == seqNo
  {
    var b := Sealed([CMIT_MAGIC, FMT_VERSION, seqNo, slot]);
    assert forall i :: 0 <= i < 4 ==> b[i] == b[..4][i];
    b
  }

  function Pay0Block(info: CaptureInfo, count: uint32, total: uint32): (b: Block)
    ensures Pay0Ok(b) && b[5] == count && b[6] == total
  {
    var b := Sealed([PAY0_MAGIC, FMT_VERSION, info.reason, info.tick, info.ready, count, total]);
    assert forall i :: 0 <= i < 7 ==> b[i] == b[..7][i];
    b
  }

  function PayeBlock(count: uint32, total: uint32): (b: Block)
    ensures PayeOk(b, count, total)
  {
    var b := Sealed([PAYE_MAGIC, FMT_VERSION, count, total]);
    assert forall i :: 0 <= i < 4 ==> b[i] == b[..4][i];
    b
  }

  function RgsBlock(r: Region): (b: Block)
    ensures b[2] == r.addr && b[3] == r.len
    ensures forall mem: Sram :: mem.Holds(r) ==> RgsOk(b, mem)
  {
    var b := Sealed([RGS0_MAGIC, FMT_VERSION, r.addr, r.len]);
    assert forall i :: 0 <= i < 4 ==> b[i] == b[..4][i];
    b
  }

  function RgeBlock(r: Region, data: seq<uint8>): (b: Block)
    ensures RgeOk(b, r, Fnv.Fold(Fnv.BASIS, data))
  {
    var b := Sealed([RGE0_MAGIC, FMT_VERSION, r.addr, r.len, Fnv.Checksum(data)]);
    assert forall i :: 0 <= i < 5 ==> b[i] == b[..5][i];
    b
  }

  function RegionBlocks(r: Region, data: seq<uint8>): seq<Block>
  {
    [RgsBlock(r)] + DataBlocks(data) + [RgeBlock(r, data)]
  }

  function RegionsBlocks(m: Sram, rs: seq<Region>): seq<Block>
    requires forall i :: 0 <= i < |rs| ==> m.Holds(rs[i])
  {
    if rs == [] then []
    else RegionsBlocks(m, rs[..|rs| - 1]) + RegionBlocks(rs[|rs| - 1], m.Get(rs[|rs| - 1]))
  }

  function PayloadBlocks(m: Sram, rs: seq<Region>, info: CaptureInfo): seq<Block>
    requires Capturable(m, rs)
  {
    [Pay0Block(info, |rs|, TotalBytes(rs))] + RegionsBlocks(m, rs) + [PayeBlock(|rs|, TotalBytes(rs))]
  }

  /** The block count the writer checks against the slot before writing any payload. */
  function RequiredBlocks(rs: seq<Region>): nat {
    if rs == [] then 2 else RequiredBlocks(rs[..|rs| - 1]) + 2 + CeilDiv(rs[|rs| - 1].len, BLOCK_BYTES)
  }

  lemma {:induction false} RegionsBlocksCount(m: Sram, rs: seq<Region>)
    requires forall i :: 0 <= i < |rs| ==> m.Holds(rs[i])
    ensures |RegionsBlocks(m, rs)| + 2 == RequiredBlocks(rs)
  {
    if rs != [] {
      RegionsBlocksCount(m, rs[..|rs| - 1]);
      DataBlocksCount(m.Get(rs[|rs| - 1]));
    }
  }

  // Reader side: recognising a slot

  predicate HeaderOk(b: Block, slotLba: nat, slotBlocks: nat, slot: nat) {
    && b[0] == HDR_MAGIC && b[1] == FMT_VERSION
    && b[3] == slot
    && b[4] == (slotLba + 1) % TWO_32 && b[5] == (slotBlocks + TWO_32 - 2) % TWO_32
    && SealOk(b, 7)
  }

  predicate Pay0Ok(b: Block) {
    b[0] == PAY0_MAGIC && b[1] == FMT_VERSION && SealOk(b, 7)
  }

  predicate CommitOk(b: Block, slot: nat) {
    && b[0] == CMIT_MAGIC && b[1] == FMT_VERSION
    && b[3] == slot && SealOk(b, 4)
  }

  /** The sequence number of a slot the scanners accept. They never look past PAY0. */
  function SlotSeq(d: Blocks, slotLba: nat, slotBlocks: nat, slot: nat): Option<uint32>
    requires slotBlocks >= 2 && slotLba + slotBlocks <= |d|
  {
    var h, c := d[slotLba], d[slotLba + slotBlocks - 1];
    if HeaderOk(h, slotLba, slotBlocks, slot) && Pay0Ok(d[slotLba + 1]) && CommitOk(c, slot)
       && c[2] == h[2]
    then Some(h[2])
    else None
  }

  /** A snapshot belongs to its slot: its blocks, moved elsewhere, are not accepted. */
  lemma SlotBelongs(d: Blocks, lba: nat, n: nat, slot: nat, d': Blocks, lba': nat, n': nat, slot': nat)
    requires n >= 2 && lba + n <= |d| < TWO_32 && n' >= 2 && lba' + n' <= |d'| < TWO_32
    requires SlotSeq(d, lba, n, slot).Some? && SlotSeq(d', lba', n', slot').Some?
    ensures d[lba] == d'[lba'] ==> slot == slot' && lba == lba' && n == n'
    ensures d[lba + n - 1] == d'[lba' + n' - 1] ==> slot == slot'
  {
    hide SealOk;
    SmallMod(lba + 1, TWO_32);
    SmallMod(lba' + 1, TWO_32);
    if d[lba] == d'[lba'] {
      assert (n + TWO_32 - 2) % TWO_32 == n - 2 && (n' + TWO_32 - 2) % TWO_32 == n' - 2;
    }
  }

  /** The scanners' verdict on any address and size: they read three blocks, by 32-bit addresses that may wrap or lie
      off the card. */
  function Verdict(d: Blocks, lba: nat, n: nat, slot: nat): Option<uint32> {
    var h, p, c := Fetch(d, lba), Fetch(d, lba + 1), Fetch(d, lba + n + TWO_32 - 1);
    if h.None? || p.None? || c.None? then None
    else if HeaderOk(h.value, lba, n, slot) && Pay0Ok(p.value) && CommitOk(c.value, slot) && c.value[2] == h.value[2]
    then Some(h.value[2])
    else None
  }

  /** On the card nothing wraps. */
  lemma VerdictOnCard(d: Blocks, lba: nat, n: nat, slot: nat)
    requires n >= 2 && lba + n <= |d| < TWO_32
    ensures Verdict(d, lba, n, slot) == SlotSeq(d, lba, n, slot)
  {
    hide SealOk;
    assert (lba + n + TWO_32 - 1) % TWO_32 == lba + n - 1;
  }

  // Reader side: the restore walk

  /** Progress of the walk: verdict, memory so far, next block, blocks left, running checksum or byte count. */
  datatype Walk = Walk(ok: bool, mem: Sram, lba: nat, left: nat, acc: nat)

  function CopyData(d: Blocks, mem: Sram, addr: nat, rem: nat, lba: nat, left: nat, crc: uint32): (w: Walk)
    requires lba + left <= |d|
    requires mem.base <= addr && addr + rem <= mem.base + |mem.bytes|
    ensures w.mem.base == mem.base && |w.mem.bytes| == |mem.bytes|
    ensures w.lba >= lba && w.lba + w.left == lba + left && w.acc < TWO_32
    decreases rem
  {
    if rem == 0 then Walk(true, mem, lba, left, crc)
    else if left == 0 then Walk(false, mem, lba, left, crc)
    else
      var n := Min(rem, BLOCK_BYTES);
      var part := BytesOf(d[lba])[..n];
      var mem' := mem.Put(addr, part);
      CopyData(d, mem', addr + n, rem - n, lba + 1, left - 1, Fnv.Fold(crc, part))
  }

  lemma CopyDataNext(d: Blocks, mem: Sram, addr: nat, rem: nat, lba: nat, left: nat, crc: uint32)
    requires lba + left <= |d| && mem.base <= addr && addr + rem <= mem.base + |mem.bytes|
    ensures rem == 0 ==> CopyData(d, mem, addr, rem, lba, left, crc) == Walk(true, mem, lba, left, crc)
    ensures rem > 0 && left == 0 ==> CopyData(d, mem, addr, rem, lba, left, crc) == Walk(false, mem, lba, left, crc)
    ensures rem > 0 && left > 0 ==>
              var n := Min(rem, BLOCK_BYTES);
              var part := BytesOf(d[lba])[..n];
              CopyData(d, mem, addr, rem, lba, left, crc)
              == CopyData(d, mem.Put(addr, part), addr + n, rem - n, lba + 1, left - 1, Fnv.Fold(crc, part))
  {
    hide BytesOf, Sram.Put, Fnv.Fold;
  }

  predicate RgsOk(b: Block, mem: Sram) {
    && b[0] == RGS0_MAGIC && b[1] == FMT_VERSION && SealOk(b, 4)
    && mem.Holds(Region(b[2], b[3]))
  }

  predicate RgeOk(b: Block, r: Region, crc: uint32) {
    && b[0] == RGE0_MAGIC && b[1] == FMT_VERSION
    && b[2] == r.addr && b[3] == r.len
    && SealOk(b, 5) && b[4] == Fnv.Finish(crc)
  }

  /** One region: frame start, data, frame end; acc is the number of bytes copied. */
  function CopyRegion(d: Blocks, mem: Sram, lba: nat, left: nat): (w: Walk)
    requires lba + left <= |d|
    ensures w.mem.base == mem.base && |w.mem.bytes| == |mem.bytes|
    ensures w.lba >= lba && w.lba + w.left == lba + left
  {
    if left == 0 || !RgsOk(d[lba], mem) then Walk(false, mem, lba, left, 0)
    else
      var r := Region(d[lba][2], d[lba][3]);
      var w := CopyData(d, mem, r.addr, r.len, lba + 1, left - 1, Fnv.BASIS);
      if !w.ok || w.left == 0 || !RgeOk(d[w.lba], r, w.acc)
      then Walk(false, w.mem, w.lba, w.left, r.len)
      else Walk(true, w.mem, w.lba + 1, w.left - 1, r.len)
  }

  function CopyRegions(d: Blocks, mem: Sram, lba: nat, left: nat, count: nat): (w: Walk)
    requires lba + left <= |d|
    ensures w.mem.base == mem.base && |w.mem.bytes| == |mem.bytes|
    ensures w.lba >= lba && w.lba + w.left == lba + left
  {
    if count == 0 then Walk(true, mem, lba, left, 0)
    else
      var w := CopyRegions(d, mem, lba, left, count - 1);
      if !w.ok then w
      else
        var v := CopyRegion(d, w.mem, w.lba, w.left);
        v.(acc := w.acc + v.acc)
  }

  lemma {:induction false} FailedStaysFailed(d: Blocks, mem: Sram, lba: nat, left: nat, k: nat, n: nat)
    requires lba + left <= |d| && k <= n && !CopyRegions(d, mem, lba, left, k).ok
    ensures CopyRegions(d, mem, lba, left, n) == CopyRegions(d, mem, lba, left, k)
    decreases n
  {
    hide CopyRegion;
    if k < n {
      FailedStaysFailed(d, mem, lba, left, k, n - 1);
    }
  }

  predicate PayeOk(b: Block, count: nat, total: nat) {
    && b[0] == PAYE_MAGIC && b[1] == FMT_VERSION && SealOk(b, 4)
    && b[2] == count && b[3] == total % TWO_32
  }

  /** The bootloader's whole restore of one slot: verdict and resulting memory. */
  function RestoreSlot(d: Blocks, mem: Sram, slotLba: nat, slotBlocks: nat, slot: nat, expected: uint32): (w: Walk)
    requires slotBlocks >= 2 && slotLba + slotBlocks <= |d|
    ensures w.mem.base == mem.base && |w.mem.bytes| == |mem.bytes|
  {
    var h, p, c := d[slotLba], d[slotLba + 1], d[slotLba + slotBlocks - 1];
    if !HeaderOk(h, slotLba, slotBlocks, slot) || !CommitOk(c, slot) || c[2] != h[2]
       || (expected != 0 && h[2] != expected)
       || slotBlocks == 2 || !Pay0Ok(p) || !(1 <= p[5] <= 8)
    then Walk(false, mem, slotLba + 1, slotBlocks - 2, 0)
    else
      var w := CopyRegions(d, mem, slotLba + 2, slotBlocks - 3, p[5]);
      if !w.ok || w.left == 0 || !PayeOk(d[w.lba], p[5], w.acc) then w.(ok := false) else w
  }

  // What the writer produced is restored

  lemma PutTwice(mem: Sram, addr: nat, a: seq<uint8>, b: seq<uint8>)
    requires mem.base <= addr && addr + |a| + |b| <= mem.base + |mem.bytes|
    ensures mem.Put(addr, a).Put(addr + |a|, b) == mem.Put(addr, a + b)
  {
    assert mem.Put(addr, a).Put(addr + |a|, b).bytes == mem.Put(addr, a + b).bytes;
  }

  lemma PutNothing(mem: Sram, addr: nat)
    requires mem.base <= addr <= mem.base + |mem.bytes|
    ensures mem.Put(addr, []) == mem
  {
    assert mem.Put(addr, []).bytes == mem.bytes;
  }

  lemma CopyDataNone(d: Blocks, mem: Sram, addr: nat, lba: nat, left: nat, crc: uint32)
    requires lba + left <= |d| && mem.base <= addr <= mem.base + |mem.bytes|
    ensures CopyData(d, mem, addr, 0, lba, left, crc) == Walk(true, mem.Put(addr, []), lba, left, Fnv.Fold(crc, []))
  {
    PutNothing(mem, addr);
  }

  /** One block of the copy; only a full block may be followed by more. */
  lemma CopyDataStep(d: Blocks, mem: Sram, addr: nat, part: seq<uint8>, more: nat, lba: nat, left: nat, crc: uint32)
    requires 0 < left && lba + left <= |d| && 0 < |part| <= BLOCK_BYTES && d[lba] == Chunk(part)
    requires more > 0 ==> |part| == BLOCK_BYTES
    requires mem.base <= addr && addr + |part| + more <= mem.base + |mem.bytes|
    ensures CopyData(d, mem, addr, |part| + more, lba, left, crc)
            == CopyData(d, mem.Put(addr, part), addr + |part|, more, lba + 1, left - 1, Fnv.Fold(crc, part))
  {
    hide BytesOf, Chunk, Fnv.Fold;
    ChunkBytes(part);
    assert BytesOf(d[lba])[..|part|] == part;
  }

  lemma {:induction false} CopyOfDataBlocks(d: Blocks, mem: Sram, addr: nat, data: seq<uint8>, lba: nat, left: nat, crc: uint32)
    requires lba + left <= |d| && |DataBlocks(data)| <= left
    requires mem.base <= addr && addr + |data| <= mem.base + |mem.bytes|
    requires At(d, lba, DataBlocks(data))
    ensures CopyData(d, mem, addr, |data|, lba, left, crc)
            == Walk(true, mem.Put(addr, data), lba + |DataBlocks(data)|, left - |DataBlocks(data)|, Fnv.Fold(crc, data))
    decreases |data|
  {
    hide BytesOf, Chunk, Fnv.Fold, CopyData, DataBlocks, At, Sram.Put;
    if |data| == 0 {
      CopyDataNone(d, mem, addr, lba, left, crc);
      NoDataBlocks(data);
    } else {
      var n := Min(|data|, BLOCK_BYTES);
      var part, rest := data[..n], data[n..];
      NextDataBlock(data);
      AtSplit(d, lba, [Chunk(part)], DataBlocks(rest));
      AtOne(d, lba, Chunk(part));
      CopyDataStep(d, mem, addr, part, |rest|, lba, left, crc);
      CopyOfDataBlocks(d, mem.Put(addr, part), addr + n, rest, lba + 1, left - 1, Fnv.Fold(crc, part));
      assert data == part + rest;
      Fnv.FoldAppend(crc, part, rest);
      PutTwice(mem, addr, part, rest);
    }
  }

  lemma CopyOfRegionBlocks(d: Blocks, mem: Sram, r: Region, data: seq<uint8>, lba: nat, left: nat)
    requires lba + left <= |d| && mem.Holds(r) && |data| == r.len
    requires |RegionBlocks(r, data)| <= left && At(d, lba, RegionBlocks(r, data))
    ensures CopyRegion(d, mem, lba, left)
            == Walk(true, mem.Put(r.addr, data), lba + |RegionBlocks(r, data)|, left - |RegionBlocks(r, data)|, r.len)
  {
    hide At, DataBlocks, CopyData, Fnv.Fold, SealOk, RgsBlock, RgeBlock, RgsOk, RgeOk;
    AtSplit(d, lba, [RgsBlock(r)] + DataBlocks(data), [RgeBlock(r, data)]);
    AtSplit(d, lba, [RgsBlock(r)], DataBlocks(data));
    AtOne(d, lba, RgsBlock(r));
    AtOne(d, lba + 1 + |DataBlocks(data)|, RgeBlock(r, data));
    CopyOfDataBlocks(d, mem, r.addr, data, lba + 1, left - 1, Fnv.BASIS);
    assert RgsOk(RgsBlock(r), mem);
  }

  /** Memory after restoring the regions of a capture of `saved` into `mem`. */
  function Restored(saved: Sram, rs: seq<Region>, mem: Sram): (m: Sram)
    requires saved.base == mem.base && |saved.bytes| == |mem.bytes|
    requires forall i :: 0 <= i < |rs| ==> saved.Holds(rs[i])
    ensures m.base == mem.base && |m.bytes| == |mem.bytes|
  {
    if rs == [] then mem
    else Restored(saved, rs[..|rs| - 1], mem).Put(rs[|rs| - 1].addr, saved.Get(rs[|rs| - 1]))
  }

  predicate Covers(rs: seq<Region>, a: int) {
    exists i :: 0 <= i < |rs| && rs[i].addr <= a < rs[i].addr + rs[i].len
  }

  /** Byte by byte: the saved value inside the regions, the old value everywhere else. */
  lemma {:induction false} RestoredByte(saved: Sram, rs: seq<Region>, mem: Sram, k: nat)
    requires saved.base == mem.base && |saved.bytes| == |mem.bytes| && k < |mem.bytes|
    requires forall i :: 0 <= i < |rs| ==> saved.Holds(rs[i])
    ensures Restored(saved, rs, mem).bytes[k]
            == if Covers(rs, mem.base + k) then saved.bytes[k] else mem.bytes[k]
  {
    hide Covers, Sram.Put, Sram.Get;
    if rs == [] {
      NothingCovered(mem.base + k);
    } else {
      var init, r := rs[..|rs| - 1], rs[|rs| - 1];
      RestoredByte(saved, init, mem, k);
      CoversLast(rs, mem.base + k);
      CopiedByte(saved, r, Restored(saved, init, mem), k);
    }
  }

  lemma CopiedByte(saved: Sram, r: Region, mem: Sram, k: nat)
    requires saved.base == mem.base && |saved.bytes| == |mem.bytes| && k < |mem.bytes| && saved.Holds(r)
    ensures mem.Put(r.addr, saved.Get(r)).bytes[k]
            == if r.addr <= mem.base + k < r.addr + r.len then saved.bytes[k] else mem.bytes[k]
  {
  }

  lemma NothingCovered(a: int)
    ensures !Covers([], a)
  {
  }

  lemma CoversLast(rs: seq<Region>, a: int)
    requires rs != []
    ensures var r := rs[|rs| - 1]; Covers(rs, a) <==> Covers(rs[..|rs| - 1], a) || r.addr <= a < r.addr + r.len
  {
    var init := rs[..|rs| - 1];
    if Covers(init, a) {
      var i :| 0 <= i < |init| && init[i].addr <= a < init[i].addr + init[i].len;
      assert rs[i] == init[i];
    }
    if Covers(rs, a) {
      var i :| 0 <= i < |rs| && rs[i].addr <= a < rs[i].addr + rs[i].len;
      assert i < |init| ==> init[i] == rs[i];
    }
  }

  lemma {:induction false} CopyOfRegionsBlocks(d: Blocks, saved: Sram, rs: seq<Region>, mem: Sram, lba: nat, left: nat)
    requires saved.base == mem.base && |saved.bytes| == |mem.bytes| && lba + left <= |d|
    requires forall i :: 0 <= i < |rs| ==> saved.Holds(rs[i])
    requires |RegionsBlocks(saved, rs)| <= left && At(d, lba, RegionsBlocks(saved, rs))
    ensures CopyRegions(d, mem, lba, left, |rs|)
            == Walk(true, Restored(saved, rs, mem), lba + |RegionsBlocks(saved, rs)|,
                    left - |RegionsBlocks(saved, rs)|, TotalBytes(rs))
  {
    hide CopyRegion, RegionBlocks;
    if rs != [] {
      var init, r := rs[..|rs| - 1], rs[|rs| - 1];
      var a, b := RegionsBlocks(saved, init), RegionBlocks(r, saved.Get(r));
      AtSplit(d, lba, a, b);
      CopyOfRegionsBlocks(d, saved, init, mem, lba, left);
      CopyOfRegionBlocks(d, Restored(saved, init, mem), r, saved.Get(r), lba + |a|, left - |a|);
    }
  }

  /** A slot as a completed write leaves it. */
  predicate HoldsCapture(d: Blocks, slotLba: nat, slotBlocks: nat, slot: uint32, seqNo: uint32,
                         saved: Sram, rs: seq<Region>, info: CaptureInfo)
    requires slotBlocks >= 2 && slotLba + slotBlocks <= |d|
  {
    && Capturable(saved, rs) && |d| < TWO_32
    && |PayloadBlocks(saved, rs, info)| <= slotBlocks - 2
    && d[slotLba] == HeaderBlock(seqNo, slot, slotLba, slotBlocks)
    && At(d, slotLba + 1, PayloadBlocks(saved, rs, info))
    && d[slotLba + slotBlocks - 1] == CommitBlock(seqNo, slot)
  }

  lemma CaptureFrames(d: Blocks, slotLba: nat, slotBlocks: nat, slot: uint32, seqNo: uint32,
                      saved: Sram, rs: seq<Region>, info: CaptureInfo)
    requires slotBlocks >= 2 && slotLba + slotBlocks <= |d|
    requires HoldsCapture(d, slotLba, slotBlocks, slot, seqNo, saved, rs, info)
    ensures SlotSeq(d, slotLba, slotBlocks, slot) == Some(seqNo)
    ensures d[slotLba + 1][5] == |rs|
    ensures slotBlocks >= 4
  {
    var pay := PayloadBlocks(saved, rs, info);
    assert d[slotLba + 1 + 0] == pay[0];
  }

  /** Round trip: restoring what the writer produced succeeds, restores every captured byte and
      changes no other. */
  lemma RestoreOfCapture(d: Blocks, slotLba: nat, slotBlocks: nat, slot: uint32, seqNo: uint32,
                         saved: Sram, rs: seq<Region>, info: CaptureInfo, mem: Sram, expected: uint32)
    requires slotBlocks >= 2 && slotLba + slotBlocks <= |d|
    requires HoldsCapture(d, slotLba, slotBlocks, slot, seqNo, saved, rs, info)
    requires saved.base == mem.base && |saved.bytes| == |mem.bytes|
    requires expected == 0 || expected == seqNo
    ensures var w := RestoreSlot(d, mem, slotLba, slotBlocks, slot, expected);
            && w.ok && w.acc == TotalBytes(rs)
            && forall k :: 0 <= k < |mem.bytes| ==>
                 w.mem.bytes[k] == if Covers(rs, mem.base + k) then saved.bytes[k] else mem.bytes[k]
  {
    hide CopyRegions, Covers, Restored, RegionsBlocks, SealOk, Pay0Block, PayeBlock, At;
    CaptureFrames(d, slotLba, slotBlocks, slot, seqNo, saved, rs, info);
    var p0, mid, pe := [Pay0Block(info, |rs|, TotalBytes(rs))], RegionsBlocks(saved, rs), [PayeBlock(|rs|, TotalBytes(rs))];
    AtSplit(d, slotLba + 1, p0 + mid, pe);
    AtSplit(d, slotLba + 1, p0, mid);
    AtOne(d, slotLba + 2 + |mid|, pe[0]);
    CopyOfRegionsBlocks(d, saved, rs, mem, slotLba + 2, slotBlocks - 3);
    forall k | 0 <= k < |mem.bytes|
      ensures Restored(saved, rs, mem).bytes[k] == if Covers(rs, mem.base + k) then saved.bytes[k] else mem.bytes[k]
    {
      RestoredByte(saved, rs, mem, k);
    }
  }
}
