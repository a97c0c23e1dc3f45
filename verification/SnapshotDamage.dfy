/**
 What the restore walk refuses. Every byte a restore relies on, whether it frames the payload or belongs to a captured
 region, is covered by a checksum: a slot that restores no longer does after any one of them has changed.
 */
module SnapshotDamage {
  import opened Words
  import opened Sd
  import opened SnapshotFormat
  import Fnv

  // The walk reads only the blocks it passes

  /** Copying a region folds exactly its bytes, and how far it gets depends on the lengths alone. */
  lemma {:induction false} CopyDataFolds(d: Blocks, mem: Sram, addr: nat, rem: nat, lba: nat, left: nat, crc: uint32)
    requires lba + left <= |d| && mem.base <= addr && addr + rem <= mem.base + |mem.bytes|
    ensures var w, n := CopyData(d, mem, addr, rem, lba, left, crc), CeilDiv(rem, BLOCK_BYTES);
            && (w.ok <==> n <= left)
            && (w.ok ==> w.lba == lba + n && w.left == left - n && w.acc == Fnv.Fold(crc, Gather(d, lba, rem)))
    decreases rem
  {
    hide BytesOf, Sram.Put, Fnv.Fold, CopyData, Gather;
    CopyDataNext(d, mem, addr, rem, lba, left, crc);
    if rem == 0 {
      GatherEnd(d, lba);
      Fnv.FoldNothing(crc);
    } else if left > 0 {
      var n := Min(rem, BLOCK_BYTES);
      var part := BytesOf(d[lba])[..n];
      CopyDataFolds(d, mem.Put(addr, part), addr + n, rem - n, lba + 1, left - 1, Fnv.Fold(crc, part));
      if CeilDiv(rem, BLOCK_BYTES) <= left {
        GatherStep(d, lba, rem);
        Fnv.FoldAppend(crc, part, Gather(d, lba + 1, rem - n));
      }
    }
  }

  lemma {:induction false} CopyDataFrame(d: Blocks, d': Blocks, mem: Sram, addr: nat, rem: nat, lba: nat, left: nat, crc: uint32)
    requires lba + left <= |d| == |d'| && mem.base <= addr && addr + rem <= mem.base + |mem.bytes|
    requires forall b :: lba <= b < lba + CeilDiv(rem, BLOCK_BYTES) && b < |d| ==> d'[b] == d[b]
    ensures CopyData(d', mem, addr, rem, lba, left, crc) == CopyData(d, mem, addr, rem, lba, left, crc)
    decreases rem
  {
    hide BytesOf, Sram.Put, Fnv.Fold, CopyData;
    CopyDataNext(d, mem, addr, rem, lba, left, crc);
    CopyDataNext(d', mem, addr, rem, lba, left, crc);
    if rem > 0 && left > 0 {
      var n := Min(rem, BLOCK_BYTES);
      var part := BytesOf(d[lba])[..n];
      CopyDataFrame(d, d', mem.Put(addr, part), addr + n, rem - n, lba + 1, left - 1, Fnv.Fold(crc, part));
    }
  }

  /** Number of blocks of the region whose frame starts at lba. */
  function RegionSpan(d: Blocks, lba: nat): nat
    requires lba < |d|
  {
    2 + CeilDiv(d[lba][3], BLOCK_BYTES)
  }

  /** A region that is copied ends behind its data with a frame that names its checksum. */
  lemma CopyRegionIs(d: Blocks, mem: Sram, lba: nat, left: nat)
    requires 0 < left && lba + left <= |d|
    ensures var r, n := Region(d[lba][2], d[lba][3]), RegionSpan(d, lba);
            && (CopyRegion(d, mem, lba, left).ok <==>
                && RgsOk(d[lba], mem) && n <= left
                && RgeOk(d[lba + n - 1], r, Fnv.Fold(Fnv.BASIS, Gather(d, lba + 1, r.len))))
            && (CopyRegion(d, mem, lba, left).ok ==> CopyRegion(d, mem, lba, left).lba == lba + n)
  {
    hide Gather, CopyData, Fnv.Fold, SealOk;
    if RgsOk(d[lba], mem) {
      CopyDataFolds(d, mem, d[lba][2], d[lba][3], lba + 1, left - 1, Fnv.BASIS);
    }
  }

  lemma CopyRegionFrame(d: Blocks, d': Blocks, mem: Sram, lba: nat, left: nat)
    requires lba + left <= |d| == |d'| && CopyRegion(d, mem, lba, left).ok
    requires forall b :: lba <= b < CopyRegion(d, mem, lba, left).lba ==> d'[b] == d[b]
    ensures CopyRegion(d', mem, lba, left) == CopyRegion(d, mem, lba, left)
  {
    hide CopyData, Fnv.Fold, SealOk, Gather;
    CopyRegionIs(d, mem, lba, left);
    CopyDataFolds(d, mem, d[lba][2], d[lba][3], lba + 1, left - 1, Fnv.BASIS);
    CopyDataFrame(d, d', mem, d[lba][2], d[lba][3], lba + 1, left - 1, Fnv.BASIS);
  }

  lemma {:induction false} CopyRegionsFrame(d: Blocks, d': Blocks, mem: Sram, lba: nat, left: nat, count: nat)
    requires lba + left <= |d| == |d'| && CopyRegions(d, mem, lba, left, count).ok
    requires forall b :: lba <= b < CopyRegions(d, mem, lba, left, count).lba ==> d'[b] == d[b]
    ensures CopyRegions(d', mem, lba, left, count) == CopyRegions(d, mem, lba, left, count)
  {
    hide CopyRegion;
    if count > 0 {
      var w := CopyRegions(d, mem, lba, left, count - 1);
      CopyRegionsFrame(d, d', mem, lba, left, count - 1);
      CopyRegionFrame(d, d', w.mem, w.lba, w.left);
    }
  }

  // One changed byte

  /** Bytes of a region its checksums cover: the frame words, and the data up to its length. */
  predicate InRegion(d: Blocks, lba: nat, b: nat, k: nat)
    requires lba < |d|
  {
    || (b == lba && k < 20)
    || (b > lba && BLOCK_BYTES * (b - lba - 1) + k < d[lba][3])
    || (b == lba + RegionSpan(d, lba) - 1 && k < 24)
  }

  lemma DamagedDataDetected(d: Blocks, d': Blocks, b: nat, k: nat, lba: nat, len: nat)
    requires lba + CeilDiv(len, BLOCK_BYTES) <= |d| && Damaged(d, d', b, k)
    requires lba <= b && BLOCK_BYTES * (b - lba) + k < len
    ensures Fnv.Finish(Fnv.Fold(Fnv.BASIS, Gather(d, lba, len))) != Fnv.Finish(Fnv.Fold(Fnv.BASIS, Gather(d', lba, len)))
  {
    hide Gather, DifferAt, Fnv.Checksum;
    GatherDamaged(d, d', b, k, lba, len);
    var g, g' := Gather(d, lba, len), Gather(d', lba, len);
    Fnv.ChecksumDetects(g, g', BLOCK_BYTES * (b - lba) + k);
    Fnv.ChecksumIs(g);
    Fnv.ChecksumIs(g');
  }

  lemma DamagedRegionRefused(d: Blocks, d': Blocks, mem: Sram, lba: nat, left: nat, b: nat, k: nat)
    requires 0 < left && lba + left <= |d| && CopyRegion(d, mem, lba, left).ok
    requires Damaged(d, d', b, k) && InRegion(d, lba, b, k)
    ensures !CopyRegion(d', mem, lba, left).ok
  {
    hide CopyRegion, Gather, Fnv.Fold, Fnv.Finish, SealOk, DifferAt;
    var len, end := d[lba][3], lba + RegionSpan(d, lba) - 1;
    CopyRegionIs(d, mem, lba, left);
    CopyRegionIs(d', mem, lba, left);
    if b == lba {
      SealBroken(d[b], d'[b], 4, k);
    } else if b == end {
      SealBroken(d[b], d'[b], 5, k);
    } else {
      DamagedDataDetected(d, d', b, k, lba + 1, len);
    }
  }

  /** Where the walk over a slot stands before region i. */
  function Before(d: Blocks, mem: Sram, slotLba: nat, slotBlocks: nat, i: nat): (w: Walk)
    requires slotBlocks >= 3 && slotLba + slotBlocks <= |d|
    ensures w.lba + w.left == slotLba + slotBlocks - 1
  {
    CopyRegions(d, mem, slotLba + 2, slotBlocks - 3, i)
  }

  /** The bytes of a slot a restore relies on: the words of header, payload start, payload end and commit, and for every
      region its frame and its data. */
  ghost predicate ReliedOn(d: Blocks, mem: Sram, slotLba: nat, slotBlocks: nat, b: nat, k: nat)
    requires slotBlocks >= 3 && slotLba + slotBlocks <= |d|
  {
    var count := d[slotLba + 1][5];
    || (b == slotLba && k < 32)
    || (b == slotLba + 1 && k < 32)
    || (b == slotLba + slotBlocks - 1 && k < 20)
    || (b == Before(d, mem, slotLba, slotBlocks, count).lba && k < 20)
    || exists i :: 0 <= i < count && InRegion(d, Before(d, mem, slotLba, slotBlocks, i).lba, b, k)
  }

  lemma DamagedPayloadRefused(d: Blocks, d': Blocks, mem: Sram, lba: nat, left: nat, count: nat, i: nat, b: nat, k: nat)
    requires lba + left <= |d| && CopyRegions(d, mem, lba, left, count).ok && i < count && Damaged(d, d', b, k)
    requires var w := CopyRegions(d, mem, lba, left, i); w.lba < |d| && InRegion(d, w.lba, b, k)
    ensures !CopyRegions(d', mem, lba, left, count).ok
  {
    hide CopyRegion, InRegion, DifferAt;
    var w, v := CopyRegions(d, mem, lba, left, i), CopyRegions(d, mem, lba, left, i + 1);
    if !w.ok {
      FailedStaysFailed(d, mem, lba, left, i, count);
    }
    if !v.ok {
      FailedStaysFailed(d, mem, lba, left, i + 1, count);
    }
    assert b >= w.lba by {
      InRegionFrom(d, w.lba, b, k);
    }
    CopyRegionsFrame(d, d', mem, lba, left, i);
    CopiedHasBlocks(d, w.mem, w.lba, w.left);
    DamagedRegionRefused(d, d', w.mem, w.lba, w.left, b, k);
    FailedStaysFailed(d', mem, lba, left, i + 1, count);
  }

  lemma InRegionFrom(d: Blocks, lba: nat, b: nat, k: nat)
    requires lba < |d| && InRegion(d, lba, b, k)
    ensures b >= lba
  {
  }

  lemma CopiedHasBlocks(d: Blocks, mem: Sram, lba: nat, left: nat)
    requires lba + left <= |d| && CopyRegion(d, mem, lba, left).ok
    ensures left > 0
  {
  }

  /** A slot that restores is refused after any one byte it relies on has changed. */
  lemma DamagedSlotRefused(d: Blocks, d': Blocks, mem: Sram, slotLba: nat, slotBlocks: nat, slot: nat, expected: uint32,
                           b: nat, k: nat)
    requires slotBlocks >= 3 && slotLba + slotBlocks <= |d|
    requires RestoreSlot(d, mem, slotLba, slotBlocks, slot, expected).ok
    requires Damaged(d, d', b, k) && ReliedOn(d, mem, slotLba, slotBlocks, b, k)
    ensures !RestoreSlot(d', mem, slotLba, slotBlocks, slot, expected).ok
  {
    hide CopyRegions, InRegion, DifferAt, SealOk;
    var lba, left, count := slotLba + 2, slotBlocks - 3, d[slotLba + 1][5];
    var last := slotLba + slotBlocks - 1;
    var w := CopyRegions(d, mem, lba, left, count);
    if b == slotLba && k < 32 {
      SealBroken(d[b], d'[b], 7, k);
    } else if b == slotLba + 1 && k < 32 {
      SealBroken(d[b], d'[b], 7, k);
    } else if b == last && k < 20 {
      SealBroken(d[b], d'[b], 4, k);
    } else if b == w.lba && k < 20 {
      CopyRegionsFrame(d, d', mem, lba, left, count);
      SealBroken(d[b], d'[b], 4, k);
    } else {
      var i :| 0 <= i < count && InRegion(d, Before(d, mem, slotLba, slotBlocks, i).lba, b, k);
      InRegionFrom(d, Before(d, mem, slotLba, slotBlocks, i).lba, b, k);
      DamagedPayloadRefused(d, d', mem, lba, left, count, i, b, k);
    }
  }

  // Captures

  lemma {:induction false} RegionsPrefix(d: Blocks, saved: Sram, rs: seq<Region>, lba: nat, i: nat)
    requires forall j :: 0 <= j < |rs| ==> saved.Holds(rs[j])
    requires At(d, lba, RegionsBlocks(saved, rs)) && i < |rs|
    ensures var a := RegionsBlocks(saved, rs[..i]);
            At(d, lba, a) && |a| < |RegionsBlocks(saved, rs)| && d[lba + |a|] == RgsBlock(rs[i])
    decreases |rs|
  {
    hide At, RgsBlock, RgeBlock, DataBlocks, Sram.Get;
    var init, r := rs[..|rs| - 1], rs[|rs| - 1];
    var a, rg := RegionsBlocks(saved, init), RegionBlocks(r, saved.Get(r));
    AtSplit(d, lba, a, rg);
    if i == |rs| - 1 {
      AtSplit(d, lba + |a|, [RgsBlock(r)] + DataBlocks(saved.Get(r)), [RgeBlock(r, saved.Get(r))]);
      AtSplit(d, lba + |a|, [RgsBlock(r)], DataBlocks(saved.Get(r)));
      AtOne(d, lba + |a|, RgsBlock(r));
    } else {
      RegionsPrefix(d, saved, init, lba, i);
      assert init[..i] == rs[..i];
    }
  }

  /** Where byte o of captured region i lies in the slot. */
  function DataBlockOf(saved: Sram, rs: seq<Region>, slotLba: nat, i: nat, o: nat): nat
    requires i < |rs| && forall j :: 0 <= j < |rs| ==> saved.Holds(rs[j])
  {
    slotLba + 3 + |RegionsBlocks(saved, rs[..i])| + o / BLOCK_BYTES
  }

  /** A completed snapshot in which any one captured byte has changed is not restored. */
  lemma DamagedCaptureRefused(d: Blocks, d': Blocks, slotLba: nat, slotBlocks: nat, slot: uint32, seqNo: uint32,
                              saved: Sram, rs: seq<Region>, info: CaptureInfo, mem: Sram, i: nat, o: nat)
    requires slotBlocks >= 2 && slotLba + slotBlocks <= |d|
    requires HoldsCapture(d, slotLba, slotBlocks, slot, seqNo, saved, rs, info)
    requires saved.base == mem.base && |saved.bytes| == |mem.bytes| && i < |rs| && o < rs[i].len
    requires Damaged(d, d', DataBlockOf(saved, rs, slotLba, i, o), o % BLOCK_BYTES)
    ensures !RestoreSlot(d', mem, slotLba, slotBlocks, slot, 0).ok
  {
    hide At, RegionsBlocks, RestoreSlot, CopyRegions, DifferAt, Pay0Block, PayeBlock, HeaderBlock, CommitBlock, RgsBlock;
    CaptureFrames(d, slotLba, slotBlocks, slot, seqNo, saved, rs, info);
    RestoreOfCapture(d, slotLba, slotBlocks, slot, seqNo, saved, rs, info, mem, 0);
    var p0, mid, pe := [Pay0Block(info, |rs|, TotalBytes(rs))], RegionsBlocks(saved, rs), [PayeBlock(|rs|, TotalBytes(rs))];
    AtSplit(d, slotLba + 1, p0 + mid, pe);
    AtSplit(d, slotLba + 1, p0, mid);
    RegionsPrefix(d, saved, rs, slotLba + 2, i);
    CopyOfRegionsBlocks(d, saved, rs[..i], mem, slotLba + 2, slotBlocks - 3);
    var b, k := DataBlockOf(saved, rs, slotLba, i, o), o % BLOCK_BYTES;
    assert InRegion(d, Before(d, mem, slotLba, slotBlocks, i).lba, b, k);
    DamagedSlotRefused(d, d', mem, slotLba, slotBlocks, slot, 0, b, k);
  }
}
