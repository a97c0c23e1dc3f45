/**
 The two-slot checkpoint as a protocol: a save writes the sixteen blocks of a PENDING image into the slot its
 sequence number selects and then rewrites block 0 as COMMITTED. Boot selects the accepted slot with the largest
 number, also looking at two legacy one-block slots. The lemmas follow every prefix of a save and then every
 run of saves, power losses, reboots and loads.
 */
module CheckpointProtocol {
  import opened Words
  import opened Sd
  import opened CheckpointFormat
  import opened CheckpointImage
  import Crc

  const SLOT_BASE_LBA: nat := 2080
  const SLOT_BLOCKS: nat := 16
  const LEGACY_LBA: nat := 2060
  const PLACES: nat := 4

  predicate OnCard(d: Blocks) {
    |d| >= SLOT_BASE_LBA + 2 * SLOT_BLOCKS
  }

  /** The places searched, in order: two current slots, then two legacy slots. */
  datatype Place = Place(lba: nat, blocks: nat, version: nat)

  function PlaceAt(i: nat): Place
    requires i < PLACES
  {
    if i < 2 then Place(SLOT_BASE_LBA + SLOT_BLOCKS * i, SLOT_BLOCKS, CURRENT_VERSION)
    else Place(LEGACY_LBA + (i - 2), 1, LEGACY_VERSION)
  }

  function SlotBytes(d: Blocks, i: nat): (s: seq<uint8>)
    requires OnCard(d) && i < PLACES
    ensures |s| == BLOCK_BYTES * PlaceAt(i).blocks
  {
    Gather(d, PlaceAt(i).lba, BLOCK_BYTES * PlaceAt(i).blocks)
  }

  /** The sequence number found at place i, if the reader accepts it. */
  function SeqAt(d: Blocks, i: nat): Option<uint32>
    requires OnCard(d) && i < PLACES
  {
    if Accepts(SlotBytes(d, i), PlaceAt(i).version) then Some(SeqNo(SlotBytes(d, i))) else None
  }

  datatype Choice = Choice(place: nat, seqNo: uint32)

  predicate Beats(d: Blocks, i: nat, q: uint32, best: Option<Choice>)
    requires i < PLACES && (best.Some? ==> best.value.place < PLACES)
  {
    best == None || q > best.value.seqNo
    || (q == best.value.seqNo && PlaceAt(i).version > PlaceAt(best.value.place).version)
  }

  /** Best of the first n places, as the search loops compute it. */
  function BestOf(d: Blocks, n: nat): (r: Option<Choice>)
    requires OnCard(d) && n <= PLACES
    ensures r.Some? ==> r.value.place < n
  {
    if n == 0 then None
    else
      var best, q := BestOf(d, n - 1), SeqAt(d, n - 1);
      if q.Some? && Beats(d, n - 1, q.value, best) then Some(Choice(n - 1, q.value)) else best
  }

  function Best(d: Blocks): (r: Option<Choice>)
    requires OnCard(d)
    ensures r.Some? ==> r.value.place < PLACES
  {
    BestOf(d, PLACES)
  }

  /** c is accepted, no place has a larger number, and no earlier place has the same. */
  predicate IsBest(d: Blocks, n: nat, c: Choice)
    requires OnCard(d) && n <= PLACES
  {
    && c.place < n && SeqAt(d, c.place) == Some(c.seqNo)
    && forall j :: 0 <= j < n && SeqAt(d, j).Some? ==>
         SeqAt(d, j).value <= c.seqNo && (j < c.place ==> SeqAt(d, j).value < c.seqNo)
  }

  lemma {:induction false} BestIsBest(d: Blocks, n: nat)
    requires OnCard(d) && n <= PLACES
    ensures BestOf(d, n).Some? ==> IsBest(d, n, BestOf(d, n).value)
    ensures BestOf(d, n).None? ==> forall j :: 0 <= j < n ==> SeqAt(d, j) == None
  {
    hide SeqAt;
    if n > 0 {
      BestIsBest(d, n - 1);
    }
  }

  lemma BestUnique(d: Blocks, c: Choice)
    requires OnCard(d) && IsBest(d, PLACES, c)
    ensures Best(d) == Some(c)
  {
    hide SeqAt, BestOf;
    BestIsBest(d, PLACES);
    assert SeqAt(d, c.place).Some?;
    var b := Best(d).value;
    assert SeqAt(d, b.place).Some?;
  }

  // One save

  function NextSeq(best: Option<Choice>): uint32 {
    if best == None then 1 else if best.value.seqNo == TWO_32 - 1 then 1 else best.value.seqNo + 1
  }

  /** The slot a sequence number is written to. */
  function SlotOf(q: uint32): (i: nat)
    ensures i < 2
  {
    (q + TWO_32 - 1) % TWO_32 % 2
  }

  /** What a save hands to the card: the buffer before and after its header is rewritten as committed. */
  datatype Buffers = Buffers(sv: Save, pending: seq<uint8>, committed: seq<uint8>) {
    predicate Valid() {
      && Image(pending, sv, PENDING) && Image(committed, sv, COMMITTED)
      && pending[HDR_BYTES..] == committed[HDR_BYTES..] && sv.slot == SlotOf(sv.seqNo)
    }
  }

  const SAVE_WRITES: nat := SLOT_BLOCKS + 1

  function SaveWrites(b: Buffers): seq<Write>
    requires b.Valid()
  {
    var lba := PlaceAt(SlotOf(b.sv.seqNo)).lba;
    Run(lba, DataBlocks(b.pending)) + [Write(lba, Chunk(b.committed))]
  }

  lemma SaveWritesShape(b: Buffers)
    requires b.Valid()
    ensures |SaveWrites(b)| == SAVE_WRITES && |DataBlocks(b.pending)| == SLOT_BLOCKS == |DataBlocks(b.committed)|
    ensures |b.pending| == SLOT_BYTES == |b.committed|
    ensures forall i :: 0 <= i < SAVE_WRITES ==>
              PlaceAt(b.sv.slot).lba <= SaveWrites(b)[i].lba < PlaceAt(b.sv.slot).lba + SLOT_BLOCKS
  {
    hide DataBlocks, Chunk;
    BuffersBasics(b);
    DataBlocksCount(b.pending);
    DataBlocksCount(b.committed);
  }

  lemma BuffersBasics(b: Buffers)
    requires b.Valid()
    ensures |b.pending| == SLOT_BYTES == |b.committed| && b.sv.slot < 2 && b.sv.Valid()
    ensures b.pending[HDR_BYTES..] == b.committed[HDR_BYTES..]
  {
    hide HeaderBytes, DirWords, MetaWords, Payload, Crc.Crc32;
  }

  predicate SamePlace(d: Blocks, d': Blocks, i: nat)
    requires OnCard(d) && |d'| == |d| && i < PLACES
  {
    forall b :: PlaceAt(i).lba <= b < PlaceAt(i).lba + PlaceAt(i).blocks ==> d[b] == d'[b]
  }

  lemma SamePlaceSameBytes(d: Blocks, d': Blocks, i: nat)
    requires OnCard(d) && |d'| == |d| && i < PLACES && SamePlace(d, d', i)
    ensures SlotBytes(d', i) == SlotBytes(d, i) && SeqAt(d', i) == SeqAt(d, i)
  {
    hide Accepts, Gather;
    GatherFrame(d, d', PlaceAt(i).lba, BLOCK_BYTES * PlaceAt(i).blocks);
  }

  /** Every write of a save stays inside its own slot. */
  lemma OtherPlacesKept(d: Blocks, b: Buffers, k: nat, i: nat)
    requires OnCard(d) && b.Valid() && k <= SAVE_WRITES && i < PLACES && i != b.sv.slot
    ensures |SaveWrites(b)| == SAVE_WRITES
    ensures SamePlace(d, Apply(d, SaveWrites(b)[..k]), i)
  {
    hide Apply, SaveWrites;
    SaveWritesShape(b);
    BuffersBasics(b);
    forall x | PlaceAt(i).lba <= x < PlaceAt(i).lba + PlaceAt(i).blocks
      ensures Apply(d, SaveWrites(b)[..k])[x] == d[x]
    {
      ApplyFrame(d, SaveWrites(b)[..k], x);
    }
  }

  lemma FirstPendingBlock(d: Blocks, b: Buffers, k: nat)
    requires OnCard(d) && b.Valid() && 0 < k < SAVE_WRITES
    ensures |SaveWrites(b)| == SAVE_WRITES && b.sv.slot < 2 && |b.pending| == SLOT_BYTES
    ensures Apply(d, SaveWrites(b)[..k])[PlaceAt(b.sv.slot).lba] == Chunk(b.pending)
  {
    SaveWritesShape(b);
    BuffersBasics(b);
    hide Apply, DataBlocks, Chunk, Image;
    var ws := SaveWrites(b)[..k];
    assert ws[0] == Write(PlaceAt(b.sv.slot).lba, DataBlocks(b.pending)[0]);
    DataBlockAt(b.pending, 0);
    assert b.pending[0..] == b.pending;
    ApplyHit(d, ws, 0);
  }

  /** While the save is in progress, block 0 of its slot is the pending one, so the slot is rejected. */
  lemma TargetRejectedDuringSave(d: Blocks, b: Buffers, k: nat)
    requires OnCard(d) && b.Valid() && 0 < k < SAVE_WRITES
    ensures |SaveWrites(b)| == SAVE_WRITES && b.sv.slot < PLACES
    ensures SeqAt(Apply(d, SaveWrites(b)[..k]), b.sv.slot) == None
  {
    hide Apply, SaveWrites, Chunk, Gather, BytesOf, Accepts, Buffers.Valid;
    FirstPendingBlock(d, b, k);
    var lba, d' := PlaceAt(b.sv.slot).lba, Apply(d, SaveWrites(b)[..k]);
    ChunkBytes(b.pending);
    GatherFirst(d', lba, SLOT_BYTES);
    var s := SlotBytes(d', b.sv.slot);
    assert s[..HDR_BYTES] == b.pending[..HDR_BYTES] by {
      assert s[..BLOCK_BYTES] == b.pending[..BLOCK_BYTES];
      assert s[..HDR_BYTES] == s[..BLOCK_BYTES][..HDR_BYTES];
      assert b.pending[..HDR_BYTES] == b.pending[..BLOCK_BYTES][..HDR_BYTES];
    }
    PendingRejected(s, b);
  }

  lemma PendingRejected(s: seq<uint8>, b: Buffers)
    requires b.Valid() && |s| >= HDR_BYTES && |b.pending| >= HDR_BYTES && s[..HDR_BYTES] == b.pending[..HDR_BYTES]
    ensures !Accepts(s, CURRENT_VERSION)
  {
    hide HeaderBytes, Crc.Crc32, DirWords, MetaWords, Payload, MetaOk, UsedEnd, RegionOk, Load32;
    ImageBounds(b.pending, b.sv, PENDING);
    HeaderLoads(s, b.sv, PENDING, Crc.Crc32(b.pending[HDR_BYTES..b.sv.End()]));
  }

  lemma CompleteBlock(d: Blocks, b: Buffers, i: nat)
    requires OnCard(d) && b.Valid() && i < SLOT_BLOCKS
    ensures b.sv.slot < 2 && |DataBlocks(b.committed)| == SLOT_BLOCKS
    ensures Apply(d, SaveWrites(b))[PlaceAt(b.sv.slot).lba + i] == DataBlocks(b.committed)[i]
  {
    SaveWritesShape(b);
    BuffersBasics(b);
    hide Apply, DataBlocks, Chunk, Image;
    var ws := SaveWrites(b);
    DataBlockAt(b.committed, i);
    DataBlockAt(b.pending, i);
    if i == 0 {
      assert b.committed[0..] == b.committed;
      ApplyHit(d, ws, SLOT_BLOCKS);
    } else {
      TailsAgree(b.pending, b.committed, BLOCK_BYTES * i);
      ApplyHit(d, ws, i);
    }
  }

  /** A complete save leaves the committed bytes in its slot, accepted and numbered. */
  lemma CompleteSave(d: Blocks, b: Buffers)
    requires OnCard(d) && b.Valid()
    ensures b.sv.slot < PLACES
    ensures var d' := Apply(d, SaveWrites(b));
            SlotBytes(d', b.sv.slot) == b.committed && SeqAt(d', b.sv.slot) == Some(b.sv.seqNo)
  {
    hide Apply, DataBlocks, Gather, Image, Accepts, SaveWrites, SeqNo;
    BuffersBasics(b);
    SaveWritesShape(b);
    var lba, bs := PlaceAt(b.sv.slot).lba, DataBlocks(b.committed);
    var d' := Apply(d, SaveWrites(b));
    forall i | 0 <= i < SLOT_BLOCKS
      ensures d'[lba + i] == bs[i]
    {
      CompleteBlock(d, b, i);
    }
    GatherData(d', lba, b.committed);
    ImageAccepted(b.committed, b.sv, COMMITTED);
    ImageHeader(b.committed, b.sv, COMMITTED);
  }

  lemma TailsAgree(s: seq<uint8>, t: seq<uint8>, k: nat)
    requires |s| == |t| && HDR_BYTES <= k <= |s| && s[HDR_BYTES..] == t[HDR_BYTES..]
    ensures s[k..] == t[k..]
  {
    assert s[k..] == s[HDR_BYTES..][k - HDR_BYTES..] && t[k..] == t[HDR_BYTES..][k - HDR_BYTES..];
  }

  // Crash safety of one save

  /** Odd numbers live in slot 0 and even numbers in slot 1. */
  predicate Parity(d: Blocks)
    requires OnCard(d)
  {
    forall i :: 0 <= i < 2 && SeqAt(d, i).Some? ==> SlotOf(SeqAt(d, i).value) == i
  }

  lemma NextSlotIsOther(q: uint32)
    requires q < TWO_32 - 1
    ensures SlotOf(q + 1) != SlotOf(q)
  {
    if q > 0 {
      assert (q + TWO_32 - 1) % TWO_32 == q - 1;
    }
    assert (q + 1 + TWO_32 - 1) % TWO_32 == q;
  }

  predicate Numbered(d: Blocks, b: Buffers)
    requires OnCard(d)
  {
    b.Valid() && b.sv.seqNo == NextSeq(Best(d)) && (Best(d).Some? ==> Best(d).value.seqNo < TWO_32 - 1)
  }

  /** Until the commit lands, the other places and what they hold are as before, and the target is rejected. */
  lemma DuringSave(d: Blocks, b: Buffers, k: nat)
    requires OnCard(d) && b.Valid() && 0 < k < SAVE_WRITES
    ensures |SaveWrites(b)| == SAVE_WRITES && b.sv.slot < 2
    ensures var d' := Apply(d, SaveWrites(b)[..k]);
            && SeqAt(d', b.sv.slot) == None
            && forall i :: 0 <= i < PLACES && i != b.sv.slot ==>
                 SeqAt(d', i) == SeqAt(d, i) && SlotBytes(d', i) == SlotBytes(d, i)
  {
    hide Apply, SaveWrites, SeqAt, SlotBytes, SamePlace, Buffers.Valid;
    BuffersBasics(b);
    SaveWritesShape(b);
    TargetRejectedDuringSave(d, b, k);
    var d' := Apply(d, SaveWrites(b)[..k]);
    forall i | 0 <= i < PLACES && i != b.sv.slot
      ensures SeqAt(d', i) == SeqAt(d, i) && SlotBytes(d', i) == SlotBytes(d, i)
    {
      OtherPlacesKept(d, b, k, i);
      SamePlaceSameBytes(d, d', i);
    }
  }

  /** An interrupted save that has begun to write leaves the selected checkpoint selected, with its bytes, exactly
      when it was not writing over it. */
  lemma CrashKeepsBestExactly(d: Blocks, b: Buffers, k: nat)
    requires OnCard(d) && b.Valid() && Best(d).Some? && 0 < k < SAVE_WRITES
    ensures |SaveWrites(b)| == SAVE_WRITES
    ensures var d', c := Apply(d, SaveWrites(b)[..k]), Best(d).value;
            Best(d') == Some(c) && SlotBytes(d', c.place) == SlotBytes(d, c.place) <==> c.place != b.sv.slot
  {
    hide Apply, SaveWrites, SeqAt, SlotBytes, Buffers.Valid, BestOf;
    DuringSave(d, b, k);
    var d', c := Apply(d, SaveWrites(b)[..k]), Best(d).value;
    BestIsBest(d, PLACES);
    BestIsBest(d', PLACES);
    if c.place != b.sv.slot {
      assert IsBest(d', PLACES, c);
      BestUnique(d', c);
    }
  }

  /** Every proper prefix of a save leaves the selected checkpoint and its bytes as they were. */
  lemma CrashKeepsBest(d: Blocks, b: Buffers, k: nat)
    requires OnCard(d) && Parity(d) && Numbered(d, b) && k < SAVE_WRITES
    ensures |SaveWrites(b)| == SAVE_WRITES
    ensures var d' := Apply(d, SaveWrites(b)[..k]);
            && Parity(d') && Best(d') == Best(d)
            && (Best(d).Some? ==> SlotBytes(d', Best(d).value.place) == SlotBytes(d, Best(d).value.place))
  {
    hide Apply, SaveWrites, SeqAt, SlotBytes, Buffers.Valid, BestOf, SlotOf;
    SaveWritesShape(b);
    var d' := Apply(d, SaveWrites(b)[..k]);
    if k == 0 {
      ApplyNothing(d, SaveWrites(b)[..0]);
    } else {
      DuringSave(d, b, k);
      BestIsBest(d, PLACES);
      BestIsBest(d', PLACES);
      if Best(d).Some? {
        BestNotTarget(d, b);
        CrashKeepsBestExactly(d, b, k);
      }
    }
  }

  lemma BestNotTarget(d: Blocks, b: Buffers)
    requires OnCard(d) && Parity(d) && Numbered(d, b) && Best(d).Some?
    ensures Best(d).value.place != b.sv.slot
  {
    hide SeqAt, SlotOf, BestOf, Buffers.Valid;
    BestIsBest(d, PLACES);
    var c := Best(d).value;
    NextSlotIsOther(c.seqNo);
    SlotNumber(b);
    assert SeqAt(d, c.place) == Some(c.seqNo);
  }

  lemma SlotNumber(b: Buffers)
    requires b.Valid()
    ensures b.sv.slot == SlotOf(b.sv.seqNo) < 2
  {
  }

  /** The places other than the target hold only smaller numbers, or the same one further on. */
  predicate OutranksOthers(d: Blocks, b: Buffers)
    requires OnCard(d)
  {
    forall j :: 0 <= j < PLACES && j != b.sv.slot && SeqAt(d, j).Some? ==>
      SeqAt(d, j).value < b.sv.seqNo || (SeqAt(d, j).value == b.sv.seqNo && j > b.sv.slot)
  }

  /** A completed save is selected exactly when its number outranks those of the other places. */
  lemma CommitSelectedExactly(d: Blocks, b: Buffers)
    requires OnCard(d) && b.Valid()
    ensures b.sv.slot < PLACES
    ensures var d' := Apply(d, SaveWrites(b));
            && SlotBytes(d', b.sv.slot) == b.committed
            && (Best(d') == Some(Choice(b.sv.slot, b.sv.seqNo)) <==> OutranksOthers(d, b))
            && forall i :: 0 <= i < PLACES && i != b.sv.slot ==> SeqAt(d', i) == SeqAt(d, i)
  {
    hide Apply, SaveWrites, SeqAt, SlotBytes, SamePlace, Buffers.Valid, BestOf, SlotOf;
    BuffersBasics(b);
    SaveWritesShape(b);
    CompleteSave(d, b);
    var d', x := Apply(d, SaveWrites(b)), b.sv.slot;
    forall i | 0 <= i < PLACES && i != x
      ensures SeqAt(d', i) == SeqAt(d, i)
    {
      assert SaveWrites(b)[..SAVE_WRITES] == SaveWrites(b);
      OtherPlacesKept(d, b, SAVE_WRITES, i);
      SamePlaceSameBytes(d, d', i);
    }
    BestIsBest(d', PLACES);
    if OutranksOthers(d, b) {
      assert IsBest(d', PLACES, Choice(x, b.sv.seqNo));
      BestUnique(d', Choice(x, b.sv.seqNo));
    }
  }

  /** The block-0 rewrite switches to the new checkpoint. */
  lemma CommitSwitchesBest(d: Blocks, b: Buffers)
    requires OnCard(d) && Parity(d) && Numbered(d, b)
    ensures b.sv.slot < PLACES
    ensures var d' := Apply(d, SaveWrites(b));
            Parity(d') && Best(d') == Some(Choice(b.sv.slot, b.sv.seqNo)) && SlotBytes(d', b.sv.slot) == b.committed
  {
    hide Apply, SaveWrites, SeqAt, SlotBytes, Buffers.Valid, BestOf, SlotOf;
    SlotNumber(b);
    CommitSelectedExactly(d, b);
    BestIsBest(d, PLACES);
    var d' := Apply(d, SaveWrites(b));
    BestIsBest(d', PLACES);
  }

  // Number wrap

  /** The number a writer uses next: from its memory after a completed save, or taken from the card. */
  predicate UsesNext(b: Buffers, c: Choice) {
    b.sv.seqNo == NextSeq(Some(c)) || b.sv.seqNo == (c.seqNo + 1) % TWO_32
  }

  /** The next save switches exactly while the selected number is not the last one, provided that the other slots
      hold smaller numbers above one: at the last number memory goes on with 0, which the old checkpoint outranks, and
      a number taken from the card goes on with 1 in the very slot of the old checkpoint, so that the older one in the
      other slot is selected. */
  lemma WrapSwitchesExactly(d: Blocks, b: Buffers, other: nat)
    requires OnCard(d) && Parity(d) && b.Valid() && Best(d).Some? && Best(d).value.place < 2 && UsesNext(b, Best(d).value)
    requires other == 1 - Best(d).value.place && SeqAt(d, other).Some? && SeqAt(d, other).value > 1
    ensures b.sv.slot < PLACES
    ensures var d' := Apply(d, SaveWrites(b));
            Best(d') == Some(Choice(b.sv.slot, b.sv.seqNo)) <==> Best(d).value.seqNo < TWO_32 - 1
  {
    hide Apply, SaveWrites, SeqAt, SlotBytes, Buffers.Valid, BestOf;
    SlotNumber(b);
    BestIsBest(d, PLACES);
    var c := Best(d).value;
    assert SeqAt(d, c.place) == Some(c.seqNo);
    CommitSelectedExactly(d, b);
    if c.seqNo < TWO_32 - 1 {
      NextSlotIsOther(c.seqNo);
    } else {
      LastNumberSlots();
    }
  }

  lemma LastNumberSlots()
    ensures SlotOf(TWO_32 - 1) == 0 && SlotOf(0) == 1 && SlotOf(1) == 0
  {
  }

  /** The case that fails: slot 0 selected with the last number. A save numbered from the card writes over it, and
      any power loss before the commit loses the selected checkpoint. */
  lemma WrapCrashLosesBest(d: Blocks, b: Buffers, k: nat)
    requires OnCard(d) && b.Valid() && 0 < k < SAVE_WRITES
    requires Best(d) == Some(Choice(0, TWO_32 - 1)) && b.sv.seqNo == NextSeq(Best(d))
    ensures |SaveWrites(b)| == SAVE_WRITES && Best(Apply(d, SaveWrites(b)[..k])) != Best(d)
  {
    hide Apply, SaveWrites, SeqAt, SlotBytes, Buffers.Valid, BestOf;
    LastNumberSlots();
    SlotNumber(b);
    DuringSave(d, b, k);
    BestIsBest(Apply(d, SaveWrites(b)[..k]), PLACES);
  }

  // Every run

  /** The writer's memory: the next number and whether it was taken from the card. */
  datatype Ram = Ram(seqNo: uint32, seeded: bool)

  const COLD: Ram := Ram(1, false)

  /** The number the next save uses, after seeding from the card if that has not happened yet. */
  function Seeded(ram: Ram, d: Blocks): Ram
    requires OnCard(d)
  {
    if ram.seeded || Best(d) == None then ram else Ram(NextSeq(Best(d)), true)
  }

  predicate InStep(ram: Ram, d: Blocks)
    requires OnCard(d)
  {
    if ram.seeded then Best(d).Some? && ram.seqNo == NextSeq(Best(d)) else ram.seqNo == 1
  }

  /** A save of which `landed` block writes reach the card (fewer than all means power loss and reboot), a save
      that is refused before writing, a load, or a reboot. */
  datatype Event = SaveEvent(buffers: Buffers, landed: nat) | Refused | Load | Reboot

  datatype System = System(card: Blocks, ram: Ram)

  predicate Enabled(s: System, e: Event)
    requires OnCard(s.card)
  {
    e.SaveEvent? ==> e.buffers.Valid() && e.buffers.sv.seqNo == Seeded(s.ram, s.card).seqNo
  }

  function Step(s: System, e: Event): (s': System)
    requires OnCard(s.card) && Enabled(s, e)
    ensures |s'.card| == |s.card|
  {
    match e
    case Refused => System(s.card, Seeded(s.ram, s.card))
    case Load => System(s.card, if Best(s.card) == None then s.ram else Ram(NextSeq(Best(s.card)), true))
    case Reboot => System(s.card, COLD)
    case SaveEvent(b, landed) =>
      SaveWritesShape(b);
      var k := Min(landed, SAVE_WRITES);
      System(Apply(s.card, SaveWrites(b)[..k]), if k == SAVE_WRITES then Ram((b.sv.seqNo + 1) % TWO_32, true) else COLD)
  }

  predicate RunEnabled(s: System, run: seq<Event>)
    requires OnCard(s.card)
    decreases |run|, 0
  {
    run == [] || (RunEnabled(s, run[..|run| - 1]) && Enabled(After(s, run[..|run| - 1]), run[|run| - 1]))
  }

  function After(s: System, run: seq<Event>): (s': System)
    requires OnCard(s.card) && RunEnabled(s, run)
    ensures |s'.card| == |s.card|
    decreases |run|, 1
  {
    if run == [] then s else Step(After(s, run[..|run| - 1]), run[|run| - 1])
  }

  /** The checkpoint that should be selected: its number and bytes. Only a complete save changes it. */
  datatype Selected = Selected(seqNo: uint32, bytes: seq<uint8>)

  function SelectedOn(d: Blocks): Option<Selected>
    requires OnCard(d)
  {
    if Best(d) == None then None else Some(Selected(Best(d).value.seqNo, SlotBytes(d, Best(d).value.place)))
  }

  function LastCommitted(start: Option<Selected>, run: seq<Event>): Option<Selected> {
    if run == [] then start
    else
      var e := run[|run| - 1];
      if e.SaveEvent? && e.landed >= SAVE_WRITES then Some(Selected(e.buffers.sv.seqNo, e.buffers.committed))
      else LastCommitted(start, run[..|run| - 1])
  }

  lemma StepKeeps(s: System, e: Event)
    requires OnCard(s.card) && Parity(s.card) && InStep(s.ram, s.card) && Enabled(s, e)
    requires Best(s.card).Some? ==> Best(s.card).value.seqNo < TWO_32 - 2
    ensures var s' := Step(s, e);
            && Parity(s'.card) && InStep(s'.ram, s'.card)
            && SelectedOn(s'.card) == LastCommitted(SelectedOn(s.card), [e])
            && (Best(s'.card).Some? ==>
                  Best(s'.card).value.seqNo <= (if Best(s.card).Some? then Best(s.card).value.seqNo else 0) + 1)
  {
    hide Apply, SaveWrites, Parity, SlotBytes, BestOf, Buffers.Valid;
    if e.SaveEvent? {
      var b, k := e.buffers, Min(e.landed, SAVE_WRITES);
      SaveWritesShape(b);
      if k == SAVE_WRITES {
        assert SaveWrites(b)[..k] == SaveWrites(b);
        CommitSwitchesBest(s.card, b);
      } else {
        CrashKeepsBest(s.card, b, k);
      }
    }
  }

  predicate NoWrap(s: System, run: seq<Event>)
    requires OnCard(s.card)
  {
    (if Best(s.card).Some? then Best(s.card).value.seqNo else 0) + |run| < TWO_32 - 1
  }

  /** Over every run, the selected checkpoint is the most recently committed one, with unchanged bytes. */
  lemma {:induction false} RunSelectsLastCommitted(s: System, run: seq<Event>)
    requires OnCard(s.card) && Parity(s.card) && InStep(s.ram, s.card) && RunEnabled(s, run) && NoWrap(s, run)
    ensures var s' := After(s, run);
            && Parity(s'.card) && InStep(s'.ram, s'.card)
            && SelectedOn(s'.card) == LastCommitted(SelectedOn(s.card), run)
            && (Best(s'.card).Some? ==>
                  Best(s'.card).value.seqNo <= (if Best(s.card).Some? then Best(s.card).value.seqNo else 0) + |run|)
  {
    hide Step, Parity, BestOf, SlotBytes, InStep, Enabled;
    if run != [] {
      RunSelectsLastCommitted(s, run[..|run| - 1]);
      StepKeeps(After(s, run[..|run| - 1]), run[|run| - 1]);
    }
  }
}
