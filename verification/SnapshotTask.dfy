/** The snapshot task: choosing what to capture, writing one snapshot, and finding the latest one. */
module SnapshotTask {
  import opened Words
  import opened Sd
  import opened SnapshotFormat
  import opened SnapshotRing
  import Fnv

  const STACK_EXCLUDE_BYTES: nat := 8192

  // What is captured

  /** Address a lies in the linker's exclusion window or in the restore stack, the topmost 8 KiB of SRAM. */
  predicate Excluded(start: nat, end: nat, exStart: nat, exEnd: nat, a: int) {
    exStart <= a < exEnd || (start <= a < end && end - 8192 <= a)
  }

  predicate SomethingLeft(start: nat, end: nat, exStart: nat, exEnd: nat) {
    exists a :: start <= a < end && !Excluded(start, end, exStart, exEnd, a)
  }

  predicate Ascending(rs: seq<Region>) {
    && (forall i :: 0 <= i < |rs| ==> rs[i].len > 0)
    && (forall i, j :: 0 <= i < j < |rs| ==> rs[i].addr + rs[i].len < rs[j].addr)
  }

  /** Regions are exactly SRAM minus the two exclusion windows. */
  predicate CapturesComplement(start: nat, end: nat, exStart: nat, exEnd: nat, rs: seq<Region>) {
    && Ascending(rs)
    && (forall i :: 0 <= i < |rs| ==> start <= rs[i].addr && rs[i].addr + rs[i].len <= end)
    && (forall a {:trigger Covers(rs, a)} :: start <= a < end ==> (Covers(rs, a) <==> !Excluded(start, end, exStart, exEnd, a)))
  }

  /** One or two windows, ascending with a gap between them, the last one ending at the top of SRAM. */
  predicate Windows(start: nat, end: nat, ex: seq<(int, int)>) {
    && 1 <= |ex| <= 2 && start <= ex[0].0 < ex[0].1
    && (|ex| == 2 ==> ex[0].1 < ex[1].0 < ex[1].1) && ex[|ex| - 1].1 == end
  }

  predicate InWindows(ex: seq<(int, int)>, a: int)
    requires 1 <= |ex| <= 2
  {
    ex[0].0 <= a < ex[0].1 || (|ex| == 2 && ex[1].0 <= a < ex[1].1)
  }

  /** Clip both exclusion windows to SRAM, sort them and merge them when they touch. */
  method MergeWindows(start: uint32, end: uint32, exStart: uint32, exEnd: uint32) returns (ex: seq<(int, int)>)
    requires start < end
    ensures Windows(start, end, ex)
    ensures forall a :: start <= a < end ==> (InWindows(ex, a) <==> Excluded(start, end, exStart, exEnd, a))
  {
    ex := [];
    var ex0Start: int := if exStart < start then start else exStart;
    var ex0End: int := if exEnd > end then end else exEnd;
    if ex0End > ex0Start {
      ex := ex + [(ex0Start, ex0End)];
    }
    var ex1Start: int := if end > STACK_EXCLUDE_BYTES then end - STACK_EXCLUDE_BYTES else start;
    if ex1Start < start {
      ex1Start := start;
    }
    ex := ex + [(ex1Start, end)];
    if |ex| == 2 && ex[1].0 < ex[0].0 {
      ex := [ex[1], ex[0]];
    }
    if |ex| == 2 && ex[1].0 <= ex[0].1 {
      ex := [(ex[0].0, if ex[1].1 > ex[0].1 then ex[1].1 else ex[0].1)];
    }
  }

  /** The gaps a sorted window list leaves, lowest first. */
  function Gaps(start: nat, ex: seq<(int, int)>, end: nat): (rs: seq<Region>)
    requires Windows(start, end, ex) && end < TWO_32
    ensures |rs| <= 2
  {
    (if start < ex[0].0 then [Region(start, ex[0].0 - start)] else [])
    + if |ex| == 2 then [Region(ex[0].1, ex[1].0 - ex[0].1)] else []
  }

  lemma GapsAreComplement(start: nat, ex: seq<(int, int)>, end: nat, a: int)
    requires Windows(start, end, ex) && end < TWO_32 && start <= a < end
    ensures Covers(Gaps(start, ex, end), a) <==> !InWindows(ex, a)
  {
    var rs := Gaps(start, ex, end);
    if !InWindows(ex, a) {
      if a < ex[0].0 {
        assert rs[0].addr <= a < rs[0].addr + rs[0].len;
      } else {
        var i := |rs| - 1;
        assert rs[i].addr <= a < rs[i].addr + rs[i].len;
      }
    }
  }

  lemma TotalOfTwo(rs: seq<Region>)
    requires |rs| <= 2
    ensures TotalBytes(rs) == (if |rs| > 0 then rs[0].len else 0) + (if |rs| > 1 then rs[1].len else 0)
  {
    if |rs| > 0 {
      assert rs[..|rs| - 1][..0] == [];
    }
  }

  /** Walk the windows with a cursor, emitting a region for every gap. */
  method EmitGaps(start: uint32, end: uint32, ex: seq<(int, int)>) returns (rs: seq<Region>, total: uint32)
    requires Windows(start, end, ex)
    ensures rs == Gaps(start, ex, end) && total == TotalBytes(rs)
  {
    rs, total := [], 0;
    var cursor: int := start;
    for i := 0 to |ex|
      invariant start <= cursor <= end
      invariant cursor == if i == 0 then start else ex[i - 1].1
      invariant i == 0 ==> rs == []
      invariant i == 1 ==> rs == if start < ex[0].0 then [Region(start, ex[0].0 - start)] else []
      invariant i == 2 ==> rs == Gaps(start, ex, end)
      invariant total == (if |rs| > 0 then rs[0].len else 0) + (if |rs| > 1 then rs[1].len else 0)
    {
      if cursor < ex[i].0 {
        rs, total := rs + [Region(cursor, ex[i].0 - cursor)], total + (ex[i].0 - cursor);
      }
      if cursor < ex[i].1 {
        cursor := ex[i].1;
      }
    }
    TotalOfTwo(rs);
  }

  /** Build the capture list. The windows are arbitrary; when they leave nothing, everything is captured. */
  method BuildRegions(start: uint32, end: uint32, exStart: uint32, exEnd: uint32) returns (rs: seq<Region>, total: uint32)
    ensures total == TotalBytes(rs) && |rs| <= 2
    ensures end <= start ==> rs == []
    ensures start < end && !SomethingLeft(start, end, exStart, exEnd) ==> rs == [Region(start, end - start)]
    ensures start < end && SomethingLeft(start, end, exStart, exEnd) ==> CapturesComplement(start, end, exStart, exEnd, rs)
  {
    rs, total := [], 0;
    if end <= start {
      return;
    }
    hide InWindows, Covers, Excluded, Gaps, TotalBytes, Windows, SomethingLeft, CapturesComplement;
    var ex := MergeWindows(start, end, exStart, exEnd);
    rs, total := EmitGaps(start, end, ex);
    GapsComplement(start, end, exStart, exEnd, ex);
    if |rs| == 0 {
      rs, total := [Region(start, end - start)], end - start;
      TotalOfTwo(rs);
    }
  }

  /** The gaps are the complement of the windows, and there are none exactly when nothing is left. */
  lemma GapsComplement(start: nat, end: nat, exStart: nat, exEnd: nat, ex: seq<(int, int)>)
    requires start < end < TWO_32 && Windows(start, end, ex)
    requires forall a :: start <= a < end ==> (InWindows(ex, a) <==> Excluded(start, end, exStart, exEnd, a))
    ensures CapturesComplement(start, end, exStart, exEnd, Gaps(start, ex, end))
    ensures Gaps(start, ex, end) == [] <==> !SomethingLeft(start, end, exStart, exEnd)
  {
    hide InWindows, Covers, Excluded, Gaps;
    var rs := Gaps(start, ex, end);
    GapsAscend(start, ex, end);
    forall a | start <= a < end
      ensures Covers(rs, a) <==> !Excluded(start, end, exStart, exEnd, a)
    {
      GapsAreComplement(start, ex, end, a);
    }
    if rs == [] {
      forall a | start <= a < end
        ensures Excluded(start, end, exStart, exEnd, a)
      {
        NothingCovered(a);
      }
    } else {
      assert start <= rs[0].addr < end && !Excluded(start, end, exStart, exEnd, rs[0].addr);
    }
  }

  lemma GapsAscend(start: nat, ex: seq<(int, int)>, end: nat)
    requires Windows(start, end, ex) && end < TWO_32
    ensures var rs := Gaps(start, ex, end);
            && Ascending(rs) && (|rs| > 0 ==> Covers(rs, rs[0].addr))
            && forall i :: 0 <= i < |rs| ==> start <= rs[i].addr && rs[i].addr + rs[i].len <= end
  {
    var rs := Gaps(start, ex, end);
    if |rs| > 0 {
      assert rs[0].addr <= rs[0].addr < rs[0].addr + rs[0].len;
    }
  }

  // Auto-format leaves room for every capture

  const SLOTS_DEFAULT: nat := 4
  const SLOT_OVERHEAD_BLOCKS: nat := 16
  const JOURNAL_BLOCKS_DEFAULT: nat := 128
  const ADMIN_END_LBA: nat := 3
  const MIN_RWFS_BLOCKS: nat := 64
  const FALLBACK_SRAM_BLOCKS: nat := 640

  function SramBlocks(bytes: nat): nat {
    if bytes == 0 then FALLBACK_SRAM_BLOCKS else CeilDiv(bytes, BLOCK_BYTES)
  }

  datatype Partitions = Partitions(journalStart: nat, journalBlocks: nat, snap: Table, rwfsStart: nat, rwfsBlocks: nat)

  /** The partition table written to a blank card; None when the card is too small. */
  function AutoFormat(cardBlocks: uint32, sramBytes: uint32): (r: Option<Partitions>)
    ensures r.Some? ==>
              && LayoutValid(r.value.snap) && r.value.snap.total == cardBlocks
              && r.value.journalStart > 2
              && r.value.journalStart + r.value.journalBlocks == r.value.snap.start
              && r.value.snap.start + r.value.snap.blocks == r.value.rwfsStart
              && r.value.rwfsStart + r.value.rwfsBlocks == cardBlocks && r.value.rwfsBlocks >= MIN_RWFS_BLOCKS
  {
    var slotBlocks := SramBlocks(sramBytes) + SLOT_OVERHEAD_BLOCKS;
    var snapBlocks := SLOTS_DEFAULT * slotBlocks;
    var snapStart := ADMIN_END_LBA + JOURNAL_BLOCKS_DEFAULT;
    var rwfsStart := snapStart + snapBlocks;
    if rwfsStart + MIN_RWFS_BLOCKS > cardBlocks then None
    else
      Some(Partitions(ADMIN_END_LBA, JOURNAL_BLOCKS_DEFAULT,
                      Table(snapStart, snapBlocks, SLOTS_DEFAULT, slotBlocks, cardBlocks, BootTarget(0, 0, 0)),
                      rwfsStart, cardBlocks - rwfsStart))
  }

  lemma CeilDivSplit(a: nat, b: nat, n: nat)
    requires a + b <= n
    ensures CeilDiv(a, BLOCK_BYTES) + CeilDiv(b, BLOCK_BYTES) <= CeilDiv(n, BLOCK_BYTES) + 1
  {
  }

  /** On an auto-formatted card the payload of any capture of that SRAM fits its slot. */
  lemma AutoFormatFits(cardBlocks: uint32, start: uint32, end: uint32, rs: seq<Region>, c: Capture)
    requires start < end && AutoFormat(cardBlocks, end - start).Some?
    requires 1 <= |rs| <= 2 && Ascending(rs)
    requires forall i :: 0 <= i < |rs| ==> start <= rs[i].addr && rs[i].addr + rs[i].len <= end
    requires c.Valid() && c.regions == rs
    ensures Fitting(AutoFormat(cardBlocks, end - start).value.snap, c)
  {
    var a, b := rs[0].len, if |rs| == 2 then rs[1].len else 0;
    CeilDivSplit(a, b, end - start);
    if |rs| == 2 {
      assert rs[..1][..0] == [];
      assert RequiredBlocks(rs[..1]) == 4 + CeilDiv(a, BLOCK_BYTES);
    } else {
      assert rs[..0] == [];
      assert RequiredBlocks(rs) == 4 + CeilDiv(a, BLOCK_BYTES);
    }
  }

  /** The snapshot part of a table that auto-format made for this much SRAM, with any boot target set since. */
  predicate AutoFormatted(t: Table, sramBytes: uint32) {
    && AutoFormat(t.total, sramBytes).Some?
    && t == AutoFormat(t.total, sramBytes).value.snap.(target := t.target)
  }

  /** The boot target plays no part in what fits. */
  lemma SameLayout(t: Table, t': Table, c: Capture)
    requires t == t'.(target := t.target) && c.Valid() && LayoutValid(t')
    ensures LayoutValid(t) && RingOnCard(t') && RingOnCard(t) && Fitting(t, c) == Fitting(t', c)
  {
  }

  /** What the capture list promises, for either outcome of the exclusion windows. */
  lemma RegionsInside(start: uint32, end: uint32, exStart: uint32, exEnd: uint32, rs: seq<Region>)
    requires start < end && |rs| <= 2
    requires if SomethingLeft(start, end, exStart, exEnd) then CapturesComplement(start, end, exStart, exEnd, rs)
             else rs == [Region(start, end - start)]
    ensures 1 <= |rs| <= 2 && Ascending(rs)
    ensures forall i :: 0 <= i < |rs| ==> start <= rs[i].addr && rs[i].addr + rs[i].len <= end
  {
    if SomethingLeft(start, end, exStart, exEnd) {
      var a :| start <= a < end && !Excluded(start, end, exStart, exEnd, a);
      assert Covers(rs, a);
    }
  }

  // Writing

  /** Copy a byte string out block by block, folding the checksum over every piece. */
  method WriteData(card: SdCard, lba: nat, data: seq<uint8>) returns (next: nat, crc: uint32)
    requires card.Valid() && lba + |DataBlocks(data)| <= |card.blocks|
    modifies card
    ensures card.Valid() && card.origin == old(card.origin) && |card.blocks| == |old(card.blocks)|
    ensures next == lba + |DataBlocks(data)| && crc == Fnv.Fold(Fnv.BASIS, data)
    ensures card.log == old(card.log) + Run(lba, DataBlocks(data))
  {
    hide Chunk, Fnv.Fold, SdCard.Valid, Fnv.Step, DataBlocks;
    next, crc := lba, Fnv.BASIS;
    var src := data;
    ghost var before, done: seq<Block> := [], [];
    assert Fnv.Fold(Fnv.BASIS, []) == Fnv.BASIS by {
      Fnv.FoldNothing(Fnv.BASIS);
    }
    while |src| > 0
      invariant before + src == data
      invariant done + DataBlocks(src) == DataBlocks(data)
      invariant next == lba + |done| && crc == Fnv.Fold(Fnv.BASIS, before)
      invariant card.Valid() && card.origin == old(card.origin) && |card.blocks| == |old(card.blocks)|
      invariant card.log == old(card.log) + Run(lba, done)
    {
      var n := Min(|src|, BLOCK_BYTES);
      var part := src[..n];
      NextDataBlock(src);
      Fnv.FoldAppend(Fnv.BASIS, before, part);
      crc := Fnv.ChecksumUpdate(crc, part);
      RunAppend(lba, done, [Chunk(part)]);
      card.WriteBlock(next, Chunk(part));
      before, done := before + part, done + [Chunk(part)];
      next, src := next + 1, src[n..];
    }
    assert before == data;
    NoDataBlocks(src);
  }

  /** Frame one region: start block, data blocks, end block with the region's checksum. */
  method WriteRegion(card: SdCard, lba: nat, mem: Sram, r: Region) returns (next: nat)
    requires card.Valid() && mem.Holds(r)
    requires lba + |RegionBlocks(r, mem.Get(r))| <= |card.blocks|
    modifies card
    ensures card.Valid() && card.origin == old(card.origin) && |card.blocks| == |old(card.blocks)|
    ensures next == lba + |RegionBlocks(r, mem.Get(r))|
    ensures card.log == old(card.log) + Run(lba, RegionBlocks(r, mem.Get(r)))
  {
    hide SdCard.Valid, DataBlocks, Fnv.Fold, SealOk, RgsBlock, Capturable;
    var data := mem.Get(r);
    card.WriteBlock(lba, RgsBlock(r));
    var crc;
    next, crc := WriteData(card, lba + 1, data);
    card.WriteBlock(next, Sealed([RGE0_MAGIC, FMT_VERSION, r.addr, r.len, Fnv.Finish(crc)]));
    next := next + 1;
    RunAppend(lba, [RgsBlock(r)], DataBlocks(data));
    RunAppend(lba, [RgsBlock(r)] + DataBlocks(data), [RgeBlock(r, data)]);
  }

  method CountRequired(rs: seq<Region>) returns (n: nat)
    ensures n == RequiredBlocks(rs)
  {
    n := 2;
    assert rs[..0] == [];
    for i := 0 to |rs|
      invariant n == RequiredBlocks(rs[..i])
    {
      assert rs[..i + 1][..i] == rs[..i];
      n := n + 2 + CeilDiv(rs[i].len, BLOCK_BYTES);
    }
    assert rs[..|rs|] == rs;
  }

  method WritePayload(card: SdCard, slotLba: nat, payloadBlocks: nat, c: Capture) returns (ok: bool)
    requires card.Valid() && c.Valid() && slotLba + 1 + payloadBlocks <= |card.blocks|
    modifies card
    ensures card.Valid() && card.origin == old(card.origin) && |card.blocks| == |old(card.blocks)|
    ensures ok == (RequiredBlocks(c.regions) <= payloadBlocks)
    ensures card.log == old(card.log) + if ok then Run(slotLba + 1, PayloadBlocks(c.mem, c.regions, c.info)) else []
  {
    hide SdCard.Valid, RequiredBlocks, RegionBlocks, RegionsBlocks, TotalBytes, Pay0Block, PayeBlock, PayloadBlocks;
    var required := CountRequired(c.regions);
    if required > payloadBlocks {
      return false;
    }
    RegionsBlocksCount(c.mem, c.regions);
    var n, total, first := |c.regions|, TotalBytes(c.regions), slotLba + 1;
    card.WriteBlock(first, Pay0Block(c.info, n, total));
    var lba := WriteRegions(card, first + 1, c.mem, c.regions);
    card.WriteBlock(lba, PayeBlock(n, total));
    PayloadRun(c, first);
    ok := true;
  }

  lemma PayloadRun(c: Capture, first: nat)
    requires c.Valid()
    ensures var n, total, mid := |c.regions|, TotalBytes(c.regions), RegionsBlocks(c.mem, c.regions);
            Run(first, PayloadBlocks(c.mem, c.regions, c.info))
            == [Write(first, Pay0Block(c.info, n, total))] + Run(first + 1, mid)
               + [Write(first + 1 + |mid|, PayeBlock(n, total))]
  {
    hide RegionsBlocks, TotalBytes, Pay0Block, PayeBlock;
    var n, total := |c.regions|, TotalBytes(c.regions);
    RunFramed(first, Pay0Block(c.info, n, total), RegionsBlocks(c.mem, c.regions), PayeBlock(n, total));
  }

  method WriteRegions(card: SdCard, first: nat, mem: Sram, rs: seq<Region>) returns (lba: nat)
    requires card.Valid() && forall i :: 0 <= i < |rs| ==> mem.Holds(rs[i])
    requires first + |RegionsBlocks(mem, rs)| <= |card.blocks|
    modifies card
    ensures card.Valid() && card.origin == old(card.origin) && |card.blocks| == |old(card.blocks)|
    ensures lba == first + |RegionsBlocks(mem, rs)|
    ensures card.log == old(card.log) + Run(first, RegionsBlocks(mem, rs))
  {
    hide SdCard.Valid, RegionBlocks, RegionsBlocks;
    lba := first;
    RegionsBlocksNone(mem);
    assert rs[..0] == [];
    for r := 0 to |rs|
      invariant lba == first + |RegionsBlocks(mem, rs[..r])|
      invariant card.Valid() && card.origin == old(card.origin) && |card.blocks| == |old(card.blocks)|
      invariant card.log == old(card.log) + Run(first, RegionsBlocks(mem, rs[..r]))
    {
      RegionsBlocksNext(mem, rs, r);
      RunAppend(first, RegionsBlocks(mem, rs[..r]), RegionBlocks(rs[r], mem.Get(rs[r])));
      lba := WriteRegion(card, lba, mem, rs[r]);
    }
    assert rs[..|rs|] == rs;
  }

  lemma RegionsBlocksNone(m: Sram)
    ensures RegionsBlocks(m, []) == []
  {
  }

  lemma RegionsBlocksNext(m: Sram, rs: seq<Region>, k: nat)
    requires k < |rs| && forall i :: 0 <= i < |rs| ==> m.Holds(rs[i])
    ensures RegionsBlocks(m, rs[..k + 1]) == RegionsBlocks(m, rs[..k]) + RegionBlocks(rs[k], m.Get(rs[k]))
    ensures |RegionsBlocks(m, rs[..k + 1])| <= |RegionsBlocks(m, rs)|
    decreases |rs|
  {
    assert rs[..k + 1][..k] == rs[..k];
    if k + 1 < |rs| {
      var init := rs[..|rs| - 1];
      assert init[..k + 1] == rs[..k + 1] && init[..k] == rs[..k];
      RegionsBlocksNext(m, init, k);
    } else {
      assert rs[..k + 1] == rs;
    }
  }

  method WriteSlot(card: SdCard, t: Table, i: nat, q: uint32, c: Capture) returns (ok: bool)
    requires card.Valid() && Fits(card.blocks, t) && i < t.slots && c.Valid()
    modifies card
    ensures card.Valid() && card.origin == old(card.origin) && ok == Fitting(t, c)
    ensures card.log == old(card.log) + SlotWrites(t, i, q, c)
  {
    hide SdCard.Valid, PayloadBlocks, Capturable, RequiredBlocks, SlotLba, HeaderBlock, CommitBlock, RingOnCard;
    LayoutBasics(t);
    SlotInside(t, i);
    var lba := SlotLba(t, i);
    var h, cm := HeaderBlock(q, i, lba, t.slotBlocks), CommitBlock(q, i);
    card.WriteBlock(lba, h);
    ok := WritePayload(card, lba, t.slotBlocks - 2, c);
    if ok {
      card.WriteBlock(lba + t.slotBlocks - 1, cm);
    }
    SlotWritesParts(t, i, q, c);
    hide SlotWrites, Fits;
  }

  lemma SlotWritesParts(t: Table, i: nat, q: uint32, c: Capture)
    requires RingOnCard(t) && i < t.slots && c.Valid() && SlotLba(t, i) + 1 < TWO_32
    ensures var lba := SlotLba(t, i);
            SlotWrites(t, i, q, c) == [Write(lba, HeaderBlock(q, i, lba, t.slotBlocks))]
              + (if Fitting(t, c) then Run(lba + 1, PayloadBlocks(c.mem, c.regions, c.info)) else [])
              + (if Fitting(t, c) then [Write(lba + t.slotBlocks - 1, CommitBlock(q, i))] else [])
  {
    SlotInside(t, i);
    hide SlotLba, PayloadBlocks, HeaderBlock, CommitBlock;
  }

  // Scanning

  method SlotValid(card: SdCard, slotLba: nat, slotBlocks: nat, slot: nat) returns (r: Option<uint32>)
    ensures r == Verdict(card.blocks, slotLba, slotBlocks, slot)
  {
    hide Fnv.Checksum, Fetch;
    var buf := card.TryRead(slotLba);
    if buf.None? || buf.value[0] != HDR_MAGIC || buf.value[1] != FMT_VERSION {
      return None;
    }
    if buf.value[3] != slot {
      return None;
    }
    if buf.value[4] != (slotLba + 1) % TWO_32 || buf.value[5] != (slotBlocks + TWO_32 - 2) % TWO_32 {
      return None;
    }
    if buf.value[7] != Fnv.Checksum(buf.value[..7]) {
      return None;
    }
    var hdrSeq := buf.value[2];
    buf := card.TryRead(slotLba + 1);
    if buf.None? || buf.value[0] != PAY0_MAGIC || buf.value[1] != FMT_VERSION || buf.value[7] != Fnv.Checksum(buf.value[..7]) {
      return None;
    }
    buf := card.TryRead(slotLba + slotBlocks + TWO_32 - 1);
    if buf.None? || buf.value[0] != CMIT_MAGIC || buf.value[1] != FMT_VERSION {
      return None;
    }
    if buf.value[3] != slot || buf.value[2] != hdrSeq {
      return None;
    }
    if buf.value[4] != Fnv.Checksum(buf.value[..4]) {
      return None;
    }
    r := Some(hdrSeq);
  }

  method ScanLatest(card: SdCard, t: Table) returns (found: bool, bestSlot: nat, bestSeq: uint32)
    ensures Latest(card.blocks, t) == if found then Some(Pick(bestSlot, bestSeq)) else None
  {
    hide SlotLba, Verdict;
    found, bestSlot, bestSeq := false, 0, 0;
    for i := 0 to t.slots
      invariant LatestOf(card.blocks, t, i) == if found then Some(Pick(bestSlot, bestSeq)) else None
    {
      var r := SlotValid(card, SlotLba(t, i) % TWO_32, t.slotBlocks, i);
      if r.Some? {
        if !found || r.value > bestSeq {
          found, bestSeq, bestSlot := true, r.value, i;
        }
      }
    }
  }

  const TARGET_FRESH: uint32 := 1
  const TARGET_SNAPSHOT: uint32 := 2

  /** The snapshot a running system would restore: the pinned one if it is still valid, else the latest. */
  function RuntimeChoice(d: Blocks, t: Table): Option<Pick> {
    var mode, pin := t.target.mode % 0x100, t.target;
    if mode == TARGET_FRESH then None
    else if mode == TARGET_SNAPSHOT && pin.slot < t.slots && SeqOf(d, t, pin.slot).Some?
            && (pin.seqNo == 0 || Some(pin.seqNo) == SeqOf(d, t, pin.slot))
    then Some(Pick(pin.slot, SeqOf(d, t, pin.slot).value))
    else Latest(d, t)
  }

  class Snapshots {
    var lastSlot: nat
    var lastSeq: uint32
    var restoreMode: uint32
    var hasCandidate: bool
    var restoreSlot: nat
    var restoreSeq: uint32

    constructor ()
    {
      lastSlot, lastSeq, restoreMode, hasCandidate, restoreSlot, restoreSeq := 0, 0, 0, false, 0, 0;
    }

    method ConsumeBootTarget(card: SdCard, t: Table)
      modifies this
      ensures RuntimeChoice(card.blocks, t) == if hasCandidate then Some(Pick(restoreSlot, restoreSeq)) else None
      ensures lastSlot == old(lastSlot) && lastSeq == old(lastSeq)
    {
      hide SlotLba, Verdict, LatestOf;
      restoreMode, hasCandidate, restoreSlot, restoreSeq := t.target.mode % 0x100, false, 0, 0;
      if restoreMode == TARGET_FRESH {
        return;
      }
      if restoreMode == TARGET_SNAPSHOT {
        if t.target.slot < t.slots {
          var found := SlotValid(card, SlotLba(t, t.target.slot) % TWO_32, t.slotBlocks, t.target.slot);
          if found.Some? {
            if t.target.seqNo == 0 || t.target.seqNo == found.value {
              hasCandidate, restoreSlot, restoreSeq := true, t.target.slot, found.value;
              return;
            }
          }
        }
      }
      var have, slot, seqNo := ScanLatest(card, t);
      if have {
        hasCandidate, restoreSlot, restoreSeq := true, slot, seqNo;
      }
    }

    /** Write one snapshot: header, payload, commit. Refused when the layout is invalid; fails, after the
        header, when the capture does not fit. */
    method WriteOne(card: SdCard, t: Table, c: Capture) returns (ok: bool)
      requires card.Valid() && |card.blocks| == t.total && c.Valid()
      modifies this, card
      ensures card.Valid()
      ensures ok == (LayoutValid(t) && Fitting(t, c))
      ensures LayoutValid(t) ==> card.Issued(SnapshotWrites(t, old(Latest(card.blocks, t)), c))
      ensures !LayoutValid(t) ==> card.Issued([])
      ensures ok ==> lastSlot == NextSlot(t, old(Latest(card.blocks, t))) && lastSeq == NextSeq(old(Latest(card.blocks, t)))
      ensures !ok ==> lastSlot == old(lastSlot) && lastSeq == old(lastSeq)
    {
      if !LayoutValid(t) {
        return false;
      }
      hide SdCard.Valid, SnapshotWrites, LatestOf, NextSlot, NextSeq;
      ok := WriteNext(card, t, c);
    }

    /** Write a snapshot of this memory, outside the exclusion windows. On an auto-formatted card it always succeeds. */
    method WriteCapture(card: SdCard, t: Table, mem: Sram, info: CaptureInfo, exStart: uint32, exEnd: uint32)
      returns (ok: bool, c: Capture)
      requires card.Valid() && |card.blocks| == t.total && mem.bytes != [] && mem.base + |mem.bytes| < TWO_32
      modifies this, card
      ensures card.Valid() && c.Valid() && c.mem == mem && c.info == info
      ensures var end := mem.base + |mem.bytes|;
              if SomethingLeft(mem.base, end, exStart, exEnd)
              then CapturesComplement(mem.base, end, exStart, exEnd, c.regions)
              else c.regions == [Region(mem.base, |mem.bytes|)]
      ensures ok == (LayoutValid(t) && Fitting(t, c))
      ensures LayoutValid(t) ==> card.Issued(SnapshotWrites(t, old(Latest(card.blocks, t)), c))
      ensures AutoFormatted(t, |mem.bytes|) ==> ok
    {
      hide SdCard.Valid, SnapshotWrites, LatestOf, NextSlot, NextSeq, CapturesComplement, SomethingLeft, Fitting, LayoutValid, AutoFormat;
      var start, end := mem.base, mem.base + |mem.bytes|;
      var rs, total := BuildRegions(start, end, exStart, exEnd);
      RegionsInside(start, end, exStart, exEnd, rs);
      c := Capture(mem, rs, info);
      if AutoFormatted(t, |mem.bytes|) {
        AutoFormatFits(t.total, start, end, rs, c);
        SameLayout(t, AutoFormat(t.total, |mem.bytes|).value.snap, c);
      }
      ok := WriteOne(card, t, c);
    }

    method WriteNext(card: SdCard, t: Table, c: Capture) returns (ok: bool)
      requires card.Valid() && Fits(card.blocks, t) && c.Valid()
      modifies this, card
      ensures card.Valid() && ok == Fitting(t, c)
      ensures card.Issued(SnapshotWrites(t, old(Latest(card.blocks, t)), c))
      ensures ok ==> lastSlot == NextSlot(t, old(Latest(card.blocks, t))) && lastSeq == NextSeq(old(Latest(card.blocks, t)))
      ensures !ok ==> lastSlot == old(lastSlot) && lastSeq == old(lastSeq)
    {
      hide SdCard.Valid, LatestOf, SlotWrites, LayoutValid, RingOnCard, Apply;
      LayoutBasics(t);
      var have, slot, seqNo := ScanLatest(card, t);
      ghost var latest := Latest(card.blocks, t);
      var i := if have then (slot + 1) % t.slots else 0;
      var q := if have then (seqNo + 1) % TWO_32 else 1;
      ok := WriteSlot(card, t, i, q, c);
      if ok {
        lastSlot, lastSeq := i, q;
      }
      card.IssuedFromLog(SnapshotWrites(t, latest, c));
    }
  }
}
