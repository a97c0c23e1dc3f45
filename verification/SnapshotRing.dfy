/**
 The snapshot ring as a protocol. A disk table describes a ring of equally sized slots; writing a
 snapshot overwrites the slot after the latest one, header first and commit last. The lemmas follow
 every prefix of that write sequence, and then every run of complete and interrupted writes.
 */
module SnapshotRing {
  import opened Words
  import opened Sd
  import opened SnapshotFormat

  const SLOTS_MIN: nat := 1
  const SLOTS_MAX: nat := 64
  const MIN_SLOT_BLOCKS: nat := 2

  datatype BootTarget = BootTarget(mode: uint32, slot: uint32, seqNo: uint32)

  /** The snapshot part of the disk table. */
  datatype Table = Table(start: uint32, blocks: uint32, slots: uint32, slotBlocks: uint32, total: uint32,
                         target: BootTarget)

  /** What both readers need of a layout: at least one slot of two blocks, all inside the card. */
  predicate RingOnCard(t: Table) {
    && t.slots >= 1 && t.slotBlocks >= MIN_SLOT_BLOCKS
    && t.blocks >= t.slots * t.slotBlocks
    && t.start != 0 && t.start + t.blocks <= t.total
  }

  /** The snapshot task's layout check. */
  predicate LayoutValid(t: Table) {
    && SLOTS_MIN <= t.slots <= SLOTS_MAX
    && t.slotBlocks >= MIN_SLOT_BLOCKS
    && t.blocks >= t.slots * t.slotBlocks
    && t.start != 0 && t.start + t.blocks <= t.total
  }

  /** A ring that lies on a card of the given contents. */
  predicate Fits(d: Blocks, t: Table) {
    RingOnCard(t) && |d| == t.total
  }

  function SlotLba(t: Table, i: nat): nat {
    t.start + i * t.slotBlocks
  }

  lemma SlotInside(t: Table, i: nat)
    requires RingOnCard(t) && i < t.slots
    ensures 0 < SlotLba(t, i) && SlotLba(t, i) + t.slotBlocks <= t.total
  {
    NextMultiple(i, t.slots, t.slotBlocks);
  }

  /** The nonlinear step, apart from the layout. */
  lemma NextMultiple(i: nat, n: nat, c: nat)
    requires i < n
    ensures i * c + c <= n * c
  {
    MulMono(i + 1, n, c);
    assert (i + 1) * c == i * c + c;
  }

  lemma LayoutBasics(t: Table)
    requires RingOnCard(t)
    ensures 1 <= t.slots && t.slotBlocks >= 2
  {
  }

  lemma MulMono(a: nat, b: nat, c: nat)
    requires a <= b
    ensures a * c <= b * c
  {
    assert (b - a) * c >= 0;
  }

  lemma SlotsDisjoint(t: Table, i: nat, j: nat)
    requires i < j
    ensures SlotLba(t, i) + t.slotBlocks <= SlotLba(t, j)
  {
    NextMultiple(i, j, t.slotBlocks);
  }

  /** The sequence number the scanner reads from slot i, if it accepts the slot; for every table. */
  function SeqOf(d: Blocks, t: Table, i: nat): Option<uint32> {
    Verdict(d, SlotLba(t, i) % TWO_32, t.slotBlocks, i)
  }

  lemma SeqOfIs(d: Blocks, t: Table, i: nat)
    requires Fits(d, t) && i < t.slots
    ensures SlotLba(t, i) + t.slotBlocks <= |d| && t.slotBlocks >= 2
    ensures SeqOf(d, t, i) == SlotSeq(d, SlotLba(t, i), t.slotBlocks, i)
  {
    hide Verdict, SlotSeq;
    SlotInside(t, i);
    VerdictOnCard(d, SlotLba(t, i), t.slotBlocks, i);
  }

  function CommitOf(d: Blocks, t: Table, i: nat): Block
    requires Fits(d, t) && i < t.slots
  {
    SlotInside(t, i);
    d[SlotLba(t, i) + t.slotBlocks - 1]
  }

  /** An accepted slot is committed, with the number in its header. */
  lemma AcceptedCommit(d: Blocks, t: Table, i: nat)
    requires Fits(d, t) && i < t.slots
    ensures SlotLba(t, i) < |d|
    ensures SeqOf(d, t, i).Some? ==>
              && CommitOk(CommitOf(d, t, i), i) && CommitOf(d, t, i)[2] == SeqOf(d, t, i).value
              && d[SlotLba(t, i)][2] == SeqOf(d, t, i).value
  {
    hide SeqOf, SealOk, SlotLba, RingOnCard;
    SeqOfIs(d, t, i);
  }

  function RestoreOf(d: Blocks, t: Table, i: nat, mem: Sram, expected: uint32): Walk
    requires Fits(d, t) && i < t.slots
  {
    SlotInside(t, i);
    RestoreSlot(d, mem, SlotLba(t, i), t.slotBlocks, i, expected)
  }

  datatype Pick = Pick(slot: nat, seqNo: uint32)

  /** The scan over the first n slots: largest sequence number, earliest slot on ties. */
  function LatestOf(d: Blocks, t: Table, n: nat): (r: Option<Pick>)
  {
    if n == 0 then None
    else
      var best := LatestOf(d, t, n - 1);
      match SeqOf(d, t, n - 1)
      case None => best
      case Some(q) => if best == None || q > best.value.seqNo then Some(Pick(n - 1, q)) else best
  }

  function Latest(d: Blocks, t: Table): Option<Pick>
  {
    LatestOf(d, t, t.slots)
  }

  /** p is the accepted slot with the largest number, the earliest one among equals. */
  predicate IsLatest(d: Blocks, t: Table, n: nat, p: Pick) {
    && p.slot < n && SeqOf(d, t, p.slot) == Some(p.seqNo)
    && forall j :: 0 <= j < n && SeqOf(d, t, j).Some? ==>
         SeqOf(d, t, j).value <= p.seqNo && (j < p.slot ==> SeqOf(d, t, j).value < p.seqNo)
  }

  lemma {:induction false} LatestIsLatest(d: Blocks, t: Table, n: nat)
    ensures LatestOf(d, t, n).Some? ==> IsLatest(d, t, n, LatestOf(d, t, n).value)
    ensures LatestOf(d, t, n).None? ==> forall j :: 0 <= j < n ==> SeqOf(d, t, j) == None
  {
    hide SeqOf;
    if n > 0 {
      LatestIsLatest(d, t, n - 1);
    }
  }

  /** The specification has one solution, so it determines the scan. */
  lemma LatestUnique(d: Blocks, t: Table, p: Pick)
    requires IsLatest(d, t, t.slots, p)
    ensures Latest(d, t) == Some(p)
  {
    hide SeqOf;
    LatestIsLatest(d, t, t.slots);
    assert SeqOf(d, t, p.slot).Some?;
    var q := Latest(d, t).value;
    assert SeqOf(d, t, q.slot).Some?;
  }

  // Writing one snapshot

  function NextSlot(t: Table, latest: Option<Pick>): (i: nat)
    requires RingOnCard(t)
    ensures i < t.slots
  {
    if latest.Some? then (latest.value.slot + 1) % t.slots else 0
  }

  function NextSeq(latest: Option<Pick>): uint32 {
    if latest.Some? then (latest.value.seqNo + 1) % TWO_32 else 1
  }

  function LatestSeq(latest: Option<Pick>): uint32 {
    if latest.Some? then latest.value.seqNo else 0
  }

  datatype Capture = Capture(mem: Sram, regions: seq<Region>, info: CaptureInfo) {
    predicate Valid() {
      Capturable(mem, regions)
    }
  }

  predicate Fitting(t: Table, c: Capture)
    requires RingOnCard(t)
  {
    c.Valid() && RequiredBlocks(c.regions) <= t.slotBlocks - 2
  }

  /** The block writes of one snapshot with number q into slot i, in order. A capture that does not fit
      leaves only the header. */
  function SlotWrites(t: Table, i: nat, q: uint32, c: Capture): seq<Write>
    requires RingOnCard(t) && i < t.slots && c.Valid()
  {
    SlotInside(t, i);
    var lba := SlotLba(t, i);
    [Write(lba, HeaderBlock(q, i, lba, t.slotBlocks))]
    + if Fitting(t, c)
      then Run(lba + 1, PayloadBlocks(c.mem, c.regions, c.info)) + [Write(lba + t.slotBlocks - 1, CommitBlock(q, i))]
      else []
  }

  function SnapshotWrites(t: Table, latest: Option<Pick>, c: Capture): seq<Write>
    requires RingOnCard(t) && c.Valid()
  {
    SlotWrites(t, NextSlot(t, latest), NextSeq(latest), c)
  }

  /** Every commit block on the card carries a number no larger than the latest snapshot's. */
  predicate CommitsOrdered(d: Blocks, t: Table)
    requires Fits(d, t)
  {
    forall i :: 0 <= i < t.slots && CommitOk(CommitOf(d, t, i), i) ==> CommitOf(d, t, i)[2] <= LatestSeq(Latest(d, t))
  }

  /** If the scanner accepts slot i, the boot restore of it completes, whatever is in memory. */
  ghost predicate RestoresFully(d: Blocks, t: Table, i: nat, base: uint32, size: nat)
    requires Fits(d, t) && i < t.slots
  {
    SeqOf(d, t, i).Some? ==>
      forall mem: Sram :: mem.base == base && |mem.bytes| == size ==>
        RestoreOf(d, t, i, mem, SeqOf(d, t, i).value).ok
  }

  /** Every slot the scanner accepts is one the restore walk completes on. */
  ghost predicate AcceptedRestorable(d: Blocks, t: Table, base: uint32, size: nat)
    requires Fits(d, t)
  {
    forall i :: 0 <= i < t.slots ==> RestoresFully(d, t, i, base, size)
  }

  // Frames: a slot's verdicts depend on the slot's blocks alone

  predicate SameSlot(d: Blocks, d': Blocks, t: Table, i: nat)
    requires Fits(d, t) && Fits(d', t) && i < t.slots
  {
    SlotInside(t, i);
    SameBlocks(d, d', SlotLba(t, i), t.slotBlocks)
  }

  predicate SameBlocks(d: Blocks, d': Blocks, lba: nat, n: nat)
    requires lba + n <= |d| && lba + n <= |d'|
  {
    forall k :: lba <= k < lba + n ==> d[k] == d'[k]
  }

  lemma {:induction false} CopyDataFrame(d: Blocks, d': Blocks, mem: Sram, addr: nat, rem: nat, lba: nat, left: nat, crc: uint32)
    requires lba + left <= |d| && |d| == |d'| && SameBlocks(d, d', lba, left)
    requires mem.base <= addr && addr + rem <= mem.base + |mem.bytes|
    ensures CopyData(d, mem, addr, rem, lba, left, crc) == CopyData(d', mem, addr, rem, lba, left, crc)
    decreases rem
  {
    hide BytesOf, Sd.Fnv.Fold;
    if rem != 0 && left != 0 {
      var n := Min(rem, BLOCK_BYTES);
      var part := BytesOf(d[lba])[..n];
      CopyDataFrame(d, d', mem.Put(addr, part), addr + n, rem - n, lba + 1, left - 1, SnapshotFormat.Fnv.Fold(crc, part));
    }
  }

  lemma CopyRegionFrame(d: Blocks, d': Blocks, mem: Sram, lba: nat, left: nat)
    requires lba + left <= |d| && |d| == |d'| && SameBlocks(d, d', lba, left)
    ensures CopyRegion(d, mem, lba, left) == CopyRegion(d', mem, lba, left)
  {
    hide SealOk, CopyData, RgeOk;
    if left != 0 && RgsOk(d[lba], mem) {
      CopyDataFrame(d, d', mem, d[lba][2], d[lba][3], lba + 1, left - 1, SnapshotFormat.Fnv.BASIS);
    }
  }

  lemma {:induction false} CopyRegionsFrame(d: Blocks, d': Blocks, mem: Sram, lba: nat, left: nat, count: nat)
    requires lba + left <= |d| && |d| == |d'| && SameBlocks(d, d', lba, left)
    ensures CopyRegions(d, mem, lba, left, count) == CopyRegions(d', mem, lba, left, count)
  {
    hide CopyRegion;
    if count > 0 {
      CopyRegionsFrame(d, d', mem, lba, left, count - 1);
      var w := CopyRegions(d, mem, lba, left, count - 1);
      if w.ok {
        CopyRegionFrame(d, d', w.mem, w.lba, w.left);
      }
    }
  }

  lemma SameSlotSameVerdict(d: Blocks, d': Blocks, t: Table, i: nat)
    requires Fits(d, t) && Fits(d', t) && i < t.slots && SameSlot(d, d', t, i)
    ensures SeqOf(d, t, i) == SeqOf(d', t, i) && CommitOf(d, t, i) == CommitOf(d', t, i)
    ensures forall mem: Sram, e: uint32 :: RestoreOf(d, t, i, mem, e) == RestoreOf(d', t, i, mem, e)
  {
    hide HeaderOk, CommitOk, Pay0Ok, PayeOk, CopyRegions, SlotLba, SeqOf;
    SlotInside(t, i);
    SeqOfIs(d, t, i);
    SeqOfIs(d', t, i);
    var lba := SlotLba(t, i);
    assert d[lba] == d'[lba] && d[lba + 1] == d'[lba + 1];
    assert d[lba + t.slotBlocks - 1] == d'[lba + t.slotBlocks - 1];
    forall mem: Sram, e: uint32
      ensures RestoreOf(d, t, i, mem, e) == RestoreOf(d', t, i, mem, e)
    {
      if t.slotBlocks > 2 {
        CopyRegionsFrame(d, d', mem, lba + 2, t.slotBlocks - 3, d[lba + 1][5]);
      }
    }
  }

  // One write, cut anywhere

  /** All writes go to the target slot; only the last of a complete write reaches its commit block. */
  lemma WritesStayInSlot(t: Table, latest: Option<Pick>, c: Capture, k: nat)
    requires RingOnCard(t) && c.Valid() && k < |SnapshotWrites(t, latest, c)|
    ensures var ws, lba := SnapshotWrites(t, latest, c), SlotLba(t, NextSlot(t, latest));
            && lba <= ws[k].lba < lba + t.slotBlocks <= t.total
            && (k > 0 ==> lba < ws[k].lba)
            && (ws[k].lba == lba + t.slotBlocks - 1 && k > 0 ==> k == |ws| - 1 && Fitting(t, c))
            && ws[0] == Write(lba, HeaderBlock(NextSeq(latest), NextSlot(t, latest), lba, t.slotBlocks))
  {
    hide SlotLba, PayloadBlocks;
    SlotInside(t, NextSlot(t, latest));
    if Fitting(t, c) {
      PayloadCount(c);
    }
  }

  lemma PayloadCount(c: Capture)
    requires c.Valid()
    ensures |PayloadBlocks(c.mem, c.regions, c.info)| == RequiredBlocks(c.regions)
  {
    RegionsBlocksCount(c.mem, c.regions);
  }

  lemma OtherSlotsKept(d: Blocks, t: Table, latest: Option<Pick>, c: Capture, k: nat, i: nat)
    requires Fits(d, t) && c.Valid() && k <= |SnapshotWrites(t, latest, c)|
    requires i < t.slots && i != NextSlot(t, latest)
    ensures SameSlot(d, Apply(d, SnapshotWrites(t, latest, c)[..k]), t, i)
  {
    hide Apply, SnapshotWrites, SlotLba;
    var ws, x := SnapshotWrites(t, latest, c), NextSlot(t, latest);
    if i < x {
      SlotsDisjoint(t, i, x);
    } else {
      SlotsDisjoint(t, x, i);
    }
    SlotInside(t, i);
    forall b | SlotLba(t, i) <= b < SlotLba(t, i) + t.slotBlocks
      ensures Apply(d, ws[..k])[b] == d[b]
    {
      forall j | 0 <= j < |ws[..k]|
        ensures ws[..k][j].lba != b
      {
        WritesStayInSlot(t, latest, c, j);
      }
      ApplyFrame(d, ws[..k], b);
    }
  }

  /** After the first write and before the commit, the target slot's header is the new one and its
      commit block is still the old one. */
  lemma TargetDuringWrite(d: Blocks, t: Table, latest: Option<Pick>, c: Capture, k: nat)
    requires Fits(d, t) && c.Valid()
    requires 0 < k <= |SnapshotWrites(t, latest, c)| && (Fitting(t, c) ==> k < |SnapshotWrites(t, latest, c)|)
    ensures var d', x := Apply(d, SnapshotWrites(t, latest, c)[..k]), NextSlot(t, latest);
            CommitOf(d', t, x) == CommitOf(d, t, x) && (SeqOf(d', t, x).Some? ==> SeqOf(d', t, x).value == NextSeq(latest))
  {
    hide Apply, SnapshotWrites, SlotLba, HeaderOk, Pay0Ok, CommitOk, SeqOf;
    var ws, x := SnapshotWrites(t, latest, c), NextSlot(t, latest);
    var lba := SlotLba(t, x);
    SlotInside(t, x);
    AcceptedCommit(Apply(d, ws[..k]), t, x);
    forall j | 0 <= j < k
      ensures ws[..k][j].lba != lba + t.slotBlocks - 1
      ensures j > 0 ==> ws[..k][j].lba != lba
    {
      WritesStayInSlot(t, latest, c, j);
    }
    ApplyFrame(d, ws[..k], lba + t.slotBlocks - 1);
    WritesStayInSlot(t, latest, c, 0);
    ApplyHit(d, ws[..k], 0);
  }

  predicate Complete(t: Table, latest: Option<Pick>, c: Capture, k: nat)
    requires RingOnCard(t) && c.Valid()
  {
    Fitting(t, c) && k >= |SnapshotWrites(t, latest, c)|
  }

  /** Until the commit lands, the target slot is not accepted. */
  lemma TargetRejectedDuringWrite(d: Blocks, t: Table, c: Capture, k: nat)
    requires Fits(d, t) && c.Valid() && CommitsOrdered(d, t)
    requires LatestSeq(Latest(d, t)) < TWO_32 - 1
    requires 0 < k <= |SnapshotWrites(t, Latest(d, t), c)| && !Complete(t, Latest(d, t), c, k)
    ensures var d', x := Apply(d, SnapshotWrites(t, Latest(d, t), c)[..k]), NextSlot(t, Latest(d, t));
            SeqOf(d', t, x) == None && CommitOf(d', t, x) == CommitOf(d, t, x)
  {
    hide Apply, SnapshotWrites, SlotLba, CommitOk, LatestOf, SeqOf, CommitOf, NextSlot;
    TargetDuringWrite(d, t, Latest(d, t), c, k);
    AcceptedCommit(Apply(d, SnapshotWrites(t, Latest(d, t), c)[..k]), t, NextSlot(t, Latest(d, t)));
  }

  lemma NextIndexIsOther(i: nat, n: nat)
    requires i < n && n >= 2
    ensures (i + 1) % n != i
  {
  }

  lemma NextSlotIsOther(t: Table, latest: Pick)
    requires RingOnCard(t) && t.slots >= 2 && latest.slot < t.slots
    ensures NextSlot(t, Some(latest)) != latest.slot
  {
    NextIndexIsOther(latest.slot, t.slots);
  }

  /** Crash safety: every interrupted write leaves the latest snapshot, and all commit numbers, as they were. */
  lemma CrashKeepsLatest(d: Blocks, t: Table, c: Capture, k: nat)
    requires Fits(d, t) && c.Valid() && t.slots >= 2 && CommitsOrdered(d, t)
    requires LatestSeq(Latest(d, t)) < TWO_32 - 1
    requires k <= |SnapshotWrites(t, Latest(d, t), c)| && !Complete(t, Latest(d, t), c, k)
    ensures var d' := Apply(d, SnapshotWrites(t, Latest(d, t), c)[..k]);
            Latest(d', t) == Latest(d, t) && CommitsOrdered(d', t)
  {
    hide Apply, SnapshotWrites, SlotLba, CommitOk, LatestOf, SeqOf, CommitOf, NextSlot, SameSlot;
    var ws, latest := SnapshotWrites(t, Latest(d, t), c), Latest(d, t);
    var x, d' := NextSlot(t, latest), Apply(d, ws[..k]);
    if k == 0 {
      ApplyNothing(d, ws[..0]);
    } else {
      TargetRejectedDuringWrite(d, t, c, k);
      forall i | 0 <= i < t.slots && i != x
        ensures SeqOf(d', t, i) == SeqOf(d, t, i) && CommitOf(d', t, i) == CommitOf(d, t, i)
      {
        OtherSlotsKept(d, t, latest, c, k, i);
        SameSlotSameVerdict(d, d', t, i);
      }
      LatestIsLatest(d, t, t.slots);
      LatestIsLatest(d', t, t.slots);
      if latest.Some? {
        NextSlotIsOther(t, latest.value);
        assert IsLatest(d', t, t.slots, latest.value);
        LatestUnique(d', t, latest.value);
      }
    }
  }

  predicate CaptureInSlot(d: Blocks, t: Table, i: nat, q: uint32, c: Capture)
    requires Fits(d, t) && i < t.slots
  {
    SlotInside(t, i);
    HoldsCapture(d, SlotLba(t, i), t.slotBlocks, i, q, c.mem, c.regions, c.info)
  }

  /** A complete write leaves the capture, framed and committed, in the target slot. */
  lemma CompleteHoldsCapture(d: Blocks, t: Table, latest: Option<Pick>, c: Capture)
    requires Fits(d, t) && c.Valid() && Fitting(t, c)
    ensures var d', x := Apply(d, SnapshotWrites(t, latest, c)), NextSlot(t, latest);
            CaptureInSlot(d', t, x, NextSeq(latest), c)
  {
    hide Apply, SlotLba, PayloadBlocks, NextSlot, RingOnCard, Capturable, RequiredBlocks;
    var ws, x := SnapshotWrites(t, latest, c), NextSlot(t, latest);
    var lba, pay := SlotLba(t, x), PayloadBlocks(c.mem, c.regions, c.info);
    SlotInside(t, x);
    PayloadCount(c);
    CompleteBlocks(d, ws, lba, t.slotBlocks, HeaderBlock(NextSeq(latest), x, lba, t.slotBlocks), pay, CommitBlock(NextSeq(latest), x));
  }

  lemma CompleteBlocks(d: Blocks, ws: seq<Write>, lba: nat, n: nat, h: Block, pay: seq<Block>, c: Block)
    requires lba + n <= |d| && |pay| + 2 <= n
    requires ws == [Write(lba, h)] + (Run(lba + 1, pay) + [Write(lba + n - 1, c)])
    ensures var d' := Apply(d, ws); d'[lba] == h && At(d', lba + 1, pay) && d'[lba + n - 1] == c
  {
    hide Apply;
    assert forall j :: 0 < j <= |pay| ==> ws[j] == Write(lba + j, pay[j - 1]);
    assert ws[|pay| + 1] == Write(lba + n - 1, c);
    ApplyHit(d, ws, 0);
    ApplyHit(d, ws, |pay| + 1);
    forall i | 0 <= i < |pay|
      ensures Apply(d, ws)[lba + 1 + i] == pay[i]
    {
      ApplyHit(d, ws, 1 + i);
    }
  }

  /** The commit block switches to the new snapshot, exactly when the sequence number did not wrap. */
  lemma CommitSwitches(d: Blocks, t: Table, c: Capture)
    requires Fits(d, t) && c.Valid() && Fitting(t, c) && t.slots >= 2
    ensures var latest := Latest(d, t);
            var d' := Apply(d, SnapshotWrites(t, latest, c));
            Latest(d', t) == Some(Pick(NextSlot(t, latest), NextSeq(latest))) <==> LatestSeq(latest) < TWO_32 - 1
  {
    hide Apply, SnapshotWrites, SlotLba, CommitOk, LatestOf, CommitOf, NextSlot, SameSlot, HoldsCapture, SlotSeq, SeqOf;
    var latest, ws := Latest(d, t), SnapshotWrites(t, Latest(d, t), c);
    var x, d', p := NextSlot(t, latest), Apply(d, ws), Pick(NextSlot(t, latest), NextSeq(latest));
    SlotInside(t, x);
    assert SeqOf(d', t, x) == Some(NextSeq(latest)) by {
      CompleteHoldsCapture(d, t, latest, c);
      CaptureFrames(d', SlotLba(t, x), t.slotBlocks, x, NextSeq(latest), c.mem, c.regions, c.info);
      SeqOfIs(d', t, x);
    }
    forall i | 0 <= i < t.slots && i != x
      ensures SeqOf(d', t, i) == SeqOf(d, t, i)
    {
      assert ws[..|ws|] == ws;
      OtherSlotsKept(d, t, latest, c, |ws|, i);
      SameSlotSameVerdict(d, d', t, i);
    }
    LatestIsLatest(d, t, t.slots);
    if LatestSeq(latest) < TWO_32 - 1 {
      assert IsLatest(d', t, t.slots, p);
      LatestUnique(d', t, p);
    } else {
      NextSlotIsOther(t, latest.value);
      LatestIsLatest(d', t, t.slots);
      assert SeqOf(d', t, latest.value.slot).Some?;
    }
  }

  // Every run

  /** What the protocol keeps: commit numbers ordered, every accepted slot restorable. */
  ghost predicate Good(d: Blocks, t: Table, base: uint32, size: nat)
    requires Fits(d, t)
  {
    CommitsOrdered(d, t) && AcceptedRestorable(d, t, base, size)
  }

  lemma StepKeepsGood(d: Blocks, t: Table, c: Capture, k: nat)
    requires Fits(d, t) && c.Valid() && t.slots >= 2 && LatestSeq(Latest(d, t)) < TWO_32 - 1
    requires Good(d, t, c.mem.base, |c.mem.bytes|) && k <= |SnapshotWrites(t, Latest(d, t), c)|
    ensures Good(Apply(d, SnapshotWrites(t, Latest(d, t), c)[..k]), t, c.mem.base, |c.mem.bytes|)
  {
    hide CommitsOrdered, AcceptedRestorable, SnapshotWrites, Apply, LatestOf;
    StepKeepsOrder(d, t, c, k);
    StepKeepsRestorable(d, t, c, k);
  }

  lemma StepKeepsOrder(d: Blocks, t: Table, c: Capture, k: nat)
    requires Fits(d, t) && c.Valid() && t.slots >= 2 && LatestSeq(Latest(d, t)) < TWO_32 - 1
    requires CommitsOrdered(d, t) && k <= |SnapshotWrites(t, Latest(d, t), c)|
    ensures CommitsOrdered(Apply(d, SnapshotWrites(t, Latest(d, t), c)[..k]), t)
  {
    hide Apply, SnapshotWrites, SlotLba, CommitOk, LatestOf, NextSlot, SameSlot, SeqOf, CommitOf;
    var latest, ws := Latest(d, t), SnapshotWrites(t, Latest(d, t), c);
    var x, d' := NextSlot(t, latest), Apply(d, ws[..k]);
    if Complete(t, latest, c, k) {
      assert ws[..k] == ws;
      CompleteCommit(d, t, latest, c);
      CommitSwitches(d, t, c);
      forall i | 0 <= i < t.slots && i != x
        ensures CommitOf(d', t, i) == CommitOf(d, t, i)
      {
        OtherSlotsKept(d, t, latest, c, k, i);
        SameSlotSameVerdict(d, d', t, i);
      }
    } else {
      CrashKeepsLatest(d, t, c, k);
    }
  }

  lemma StepKeepsRestorable(d: Blocks, t: Table, c: Capture, k: nat)
    requires Fits(d, t) && c.Valid() && t.slots >= 2 && LatestSeq(Latest(d, t)) < TWO_32 - 1
    requires Good(d, t, c.mem.base, |c.mem.bytes|) && k <= |SnapshotWrites(t, Latest(d, t), c)|
    ensures AcceptedRestorable(Apply(d, SnapshotWrites(t, Latest(d, t), c)[..k]), t, c.mem.base, |c.mem.bytes|)
  {
    hide Apply, SnapshotWrites, LatestOf, NextSlot, SameSlot, RestoreOf, SeqOf, CommitsOrdered;
    var latest, ws := Latest(d, t), SnapshotWrites(t, Latest(d, t), c);
    var x, d' := NextSlot(t, latest), Apply(d, ws[..k]);
    forall i | 0 <= i < t.slots && i != x
      ensures RestoresFully(d', t, i, c.mem.base, |c.mem.bytes|)
    {
      assert RestoresFully(d, t, i, c.mem.base, |c.mem.bytes|);
      OtherSlotsKept(d, t, latest, c, k, i);
      SameSlotSameVerdict(d, d', t, i);
    }
    assert CommitsOrdered(d, t);
    if Complete(t, latest, c, k) {
      assert ws[..k] == ws;
      CompleteRestores(d, t, latest, c);
    } else if k == 0 {
      ApplyNothing(d, ws[..0]);
      assert RestoresFully(d, t, x, c.mem.base, |c.mem.bytes|);
    } else {
      TargetRejectedDuringWrite(d, t, c, k);
    }
  }

  lemma CompleteCommit(d: Blocks, t: Table, latest: Option<Pick>, c: Capture)
    requires Fits(d, t) && c.Valid() && Fitting(t, c)
    ensures var d', x := Apply(d, SnapshotWrites(t, latest, c)), NextSlot(t, latest);
            SeqOf(d', t, x) == Some(NextSeq(latest)) && CommitOf(d', t, x)[2] == NextSeq(latest)
  {
    hide Apply, SnapshotWrites, SlotLba, NextSlot, SlotSeq, RingOnCard, Capturable, RequiredBlocks, PayloadBlocks, SealOk, SeqOf;
    var d', x := Apply(d, SnapshotWrites(t, latest, c)), NextSlot(t, latest);
    SlotInside(t, x);
    CompleteHoldsCapture(d, t, latest, c);
    CaptureFrames(d', SlotLba(t, x), t.slotBlocks, x, NextSeq(latest), c.mem, c.regions, c.info);
    SeqOfIs(d', t, x);
  }

  /** The freshly committed slot restores the capture into any memory, and touches nothing else. */
  lemma CompleteRestores(d: Blocks, t: Table, latest: Option<Pick>, c: Capture)
    requires Fits(d, t) && c.Valid() && Fitting(t, c)
    ensures var d', x := Apply(d, SnapshotWrites(t, latest, c)), NextSlot(t, latest);
            RestoresCapture(d', t, x, c) && RestoresFully(d', t, x, c.mem.base, |c.mem.bytes|)
  {
    hide Apply, SnapshotWrites, NextSlot, SeqOf, HoldsCapture, RestoreSlot, SlotLba, Capturable, RequiredBlocks;
    var d', x := Apply(d, SnapshotWrites(t, latest, c)), NextSlot(t, latest);
    CompleteCommit(d, t, latest, c);
    CompleteHoldsCapture(d, t, latest, c);
    SlotInside(t, x);
    forall mem: Sram | mem.base == c.mem.base && |mem.bytes| == |c.mem.bytes|
      ensures RestoredFrom(RestoreOf(d', t, x, mem, NextSeq(latest)), c, mem)
    {
      RestoreOfCapture(d', SlotLba(t, x), t.slotBlocks, x, NextSeq(latest), c.mem, c.regions, c.info, mem, NextSeq(latest));
    }
  }

  /** The walk succeeded; captured bytes have their captured values, all others are untouched. */
  predicate RestoredFrom(w: Walk, c: Capture, mem: Sram) {
    && w.ok && |w.mem.bytes| == |mem.bytes| == |c.mem.bytes|
    && forall k :: 0 <= k < |mem.bytes| ==>
         w.mem.bytes[k] == if Covers(c.regions, mem.base + k) then c.mem.bytes[k] else mem.bytes[k]
  }

  ghost predicate RestoresCapture(d: Blocks, t: Table, i: nat, c: Capture)
    requires Fits(d, t) && i < t.slots
  {
    SeqOf(d, t, i).Some? && forall mem: Sram :: mem.base == c.mem.base && |mem.bytes| == |c.mem.bytes| ==>
      RestoredFrom(RestoreOf(d, t, i, mem, SeqOf(d, t, i).value), c, mem)
  }

  /** One attempted snapshot: what was captured and how many block writes reached the card. */
  datatype Attempt = Attempt(capture: Capture, landed: nat)

  function CardAfter(d: Blocks, t: Table, run: seq<Attempt>): (r: Blocks)
    requires Fits(d, t) && forall i :: 0 <= i < |run| ==> run[i].capture.Valid()
    ensures |r| == |d|
  {
    if run == [] then d
    else
      var d' := CardAfter(d, t, run[..|run| - 1]);
      var a := run[|run| - 1];
      var ws := SnapshotWrites(t, Latest(d', t), a.capture);
      Apply(d', ws[..Min(a.landed, |ws|)])
  }

  /** A card without any commit block, such as a blank one, is a good start. */
  lemma BlankIsGood(d: Blocks, t: Table, base: uint32, size: nat)
    requires Fits(d, t)
    requires forall i :: 0 <= i < t.slots ==> CommitOf(d, t, i)[0] != CMIT_MAGIC
    ensures Good(d, t, base, size) && Latest(d, t) == None
  {
    hide RestoreOf, SlotLba, LatestOf, SeqOf, CommitOf;
    BlankRejected(d, t);
    LatestIsLatest(d, t, t.slots);
  }

  /** A card whose only snapshot carries the last number: a blank ring into which one was written. */
  function LastNumberCard(d: Blocks, t: Table, c: Capture): (d': Blocks)
    requires Fits(d, t) && c.Valid()
    ensures |d'| == |d|
  {
    Apply(d, SnapshotWrites(t, Some(Pick(0, TWO_32 - 2)), c))
  }

  /** The case that fails: after the last number the next snapshot is written and committed, and not found. */
  lemma WrappedSnapshotNotFound(d: Blocks, t: Table, c: Capture)
    requires Fits(d, t) && c.Valid() && Fitting(t, c) && t.slots >= 2
    requires forall i :: 0 <= i < t.slots ==> CommitOf(d, t, i)[0] != CMIT_MAGIC
    ensures var d1 := LastNumberCard(d, t, c);
            var latest := Latest(d1, t);
            && LatestSeq(latest) == TWO_32 - 1
            && Latest(Apply(d1, SnapshotWrites(t, latest, c)), t) != Some(Pick(NextSlot(t, latest), NextSeq(latest)))
  {
    hide Apply, SnapshotWrites, LatestOf, CommitOf, NextSlot, SameSlot, SeqOf;
    var before := Some(Pick(0, TWO_32 - 2));
    var d1, x, ws := LastNumberCard(d, t, c), NextSlot(t, before), SnapshotWrites(t, before, c);
    CompleteCommit(d, t, before, c);
    BlankRejected(d, t);
    forall i | 0 <= i < t.slots && i != x
      ensures SeqOf(d1, t, i) == None
    {
      assert ws[..|ws|] == ws;
      OtherSlotsKept(d, t, before, c, |ws|, i);
      SameSlotSameVerdict(d, d1, t, i);
    }
    assert IsLatest(d1, t, t.slots, Pick(x, TWO_32 - 1));
    LatestUnique(d1, t, Pick(x, TWO_32 - 1));
    CommitSwitches(d1, t, c);
  }

  lemma BlankRejected(d: Blocks, t: Table)
    requires Fits(d, t)
    requires forall i :: 0 <= i < t.slots ==> CommitOf(d, t, i)[0] != CMIT_MAGIC
    ensures forall i :: 0 <= i < t.slots ==> SeqOf(d, t, i) == None && !CommitOk(CommitOf(d, t, i), i)
  {
    hide SlotLba, SeqOf, CommitOf;
    forall i | 0 <= i < t.slots
      ensures SeqOf(d, t, i) == None && !CommitOk(CommitOf(d, t, i), i)
    {
      assert CommitOf(d, t, i)[0] != CMIT_MAGIC;
      AcceptedCommit(d, t, i);
    }
  }

  /** The ideal ring: the latest snapshot and the capture it holds, changed only by complete attempts. */
  datatype Ideal = Ideal(latest: Option<Pick>, capture: Option<Capture>)

  function IdealAfter(t: Table, start: Option<Pick>, run: seq<Attempt>): Ideal
    requires RingOnCard(t) && forall i :: 0 <= i < |run| ==> run[i].capture.Valid()
  {
    if run == [] then Ideal(start, None)
    else
      var s := IdealAfter(t, start, run[..|run| - 1]);
      var a := run[|run| - 1];
      if Complete(t, s.latest, a.capture, a.landed)
      then Ideal(Some(Pick(NextSlot(t, s.latest), NextSeq(s.latest))), Some(a.capture))
      else s
  }

  predicate SameSram(run: seq<Attempt>, base: uint32, size: nat) {
    forall i :: 0 <= i < |run| ==> run[i].capture.Valid() && run[i].capture.mem.base == base
                                   && |run[i].capture.mem.bytes| == size
  }

  lemma {:induction false} IdealSeqBound(t: Table, start: Option<Pick>, run: seq<Attempt>)
    requires RingOnCard(t) && forall i :: 0 <= i < |run| ==> run[i].capture.Valid()
    requires LatestSeq(start) + |run| < TWO_32
    ensures LatestSeq(IdealAfter(t, start, run).latest) <= LatestSeq(start) + |run|
  {
    hide NextSlot, Complete, RingOnCard;
    if run != [] {
      IdealSeqBound(t, start, run[..|run| - 1]);
    }
  }

  /** Over every run of complete and interrupted snapshots: the scan finds exactly the last
      completed snapshot, it restores that capture, and every accepted slot is restorable. */
  lemma {:induction false} RunMatchesIdeal(d: Blocks, t: Table, run: seq<Attempt>, base: uint32, size: nat)
    requires Fits(d, t) && t.slots >= 2 && Good(d, t, base, size)
    requires SameSram(run, base, size) && LatestSeq(Latest(d, t)) + |run| < TWO_32
    ensures var d', s := CardAfter(d, t, run), IdealAfter(t, Latest(d, t), run);
            && Good(d', t, base, size) && Latest(d', t) == s.latest
            && (s.capture.Some? ==> s.latest.Some? && s.latest.value.slot < t.slots
                                    && RestoresCapture(d', t, s.latest.value.slot, s.capture.value))
  {
    hide Good, LatestOf, RestoresCapture, SnapshotWrites, NextSlot;
    if run != [] {
      var init, a := run[..|run| - 1], run[|run| - 1];
      RunMatchesIdeal(d, t, init, base, size);
      IdealSeqBound(t, Latest(d, t), init);
      var d', s := CardAfter(d, t, init), IdealAfter(t, Latest(d, t), init);
      var ws := SnapshotWrites(t, s.latest, a.capture);
      var k := Min(a.landed, |ws|);
      StepKeepsGood(d', t, a.capture, k);
      if Complete(t, s.latest, a.capture, a.landed) {
        assert ws[..k] == ws;
        CommitSwitches(d', t, a.capture);
        CompleteRestores(d', t, s.latest, a.capture);
      } else {
        InterruptedKeepsCapture(d', t, a.capture, k, s.capture, base, size);
      }
    }
  }

  lemma InterruptedKeepsCapture(d: Blocks, t: Table, c: Capture, k: nat, kept: Option<Capture>, base: uint32, size: nat)
    requires Fits(d, t) && c.Valid() && t.slots >= 2 && Good(d, t, base, size)
    requires LatestSeq(Latest(d, t)) < TWO_32 - 1
    requires k <= |SnapshotWrites(t, Latest(d, t), c)| && !Complete(t, Latest(d, t), c, k)
    requires kept.Some? ==> Latest(d, t).Some? && Latest(d, t).value.slot < t.slots
                            && RestoresCapture(d, t, Latest(d, t).value.slot, kept.value)
    ensures var d' := Apply(d, SnapshotWrites(t, Latest(d, t), c)[..k]);
            && Latest(d', t) == Latest(d, t)
            && (kept.Some? ==> RestoresCapture(d', t, Latest(d, t).value.slot, kept.value))
  {
    hide Apply, SnapshotWrites, LatestOf, NextSlot, SameSlot, SeqOf, RestoreOf, RestoredFrom, CommitsOrdered, AcceptedRestorable;
    assert CommitsOrdered(d, t);
    CrashKeepsLatest(d, t, c, k);
    if kept.Some? {
      var p, d' := Latest(d, t).value, Apply(d, SnapshotWrites(t, Latest(d, t), c)[..k]);
      NextSlotIsOther(t, p);
      OtherSlotsKept(d, t, Latest(d, t), c, k, p.slot);
      SameSlotSameVerdict(d, d', t, p.slot);
    }
  }
}
