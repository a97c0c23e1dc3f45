/**
 The checkpoint code: the slot buffer filled in place, the sequence number, and the lifecycle counters. Each
 method is proved against the machine of CheckpointRuns.
 */
module CheckpointTask {
  import opened Words
  import opened Sd
  import opened Tasks
  import opened CheckpointFormat
  import opened CheckpointImage
  import opened CheckpointProtocol
  import opened CheckpointLifecycle
  import opened CheckpointRuns
  import opened RestoreLoader
  import Crc

  datatype Rc = Ok | ErrNotFound | ErrRestore

  // Directory entries

  /** The gathered regions list these items. */
  ghost predicate Listed(regs: seq<Region>, items: seq<Item>) {
    |regs| == |items| && forall i :: 0 <= i < |regs| ==>
      && regs[i].id == items[i].task && regs[i].version == items[i].version && regs[i].off == OffsetOf(items, i)
      && regs[i].len == |items[i].blob| && regs[i].crc == Crc.Crc32(items[i].blob)
  }

  lemma ListedAppend(regs: seq<Region>, items: seq<Item>, r: Region, it: Item)
    requires Listed(regs, items) && r.id == it.task && r.version == it.version && r.off == OffsetOf(items, |items|)
    requires r.len == |it.blob| && r.crc == Crc.Crc32(it.blob)
    ensures Listed(regs + [r], items + [it])
  {
    hide Payload, Crc.Crc32;
    assert forall i :: 0 <= i <= |items| ==> (items + [it])[..i] == items[..i];
  }

  function RegWord(r: Region, j: nat): uint32 {
    if j == 0 then r.id + 0x1_0000 * r.version as int else if j == 1 then r.off else if j == 2 then r.len else r.crc
  }

  function RegWords(regs: seq<Region>): seq<uint32> {
    seq(4 * |regs|, k requires 0 <= k < 4 * |regs| => RegWord(regs[k / 4], k % 4))
  }

  lemma RegWordsList(regs: seq<Region>, items: seq<Item>)
    requires Listed(regs, items) && OffsetOf(items, |items|) <= SLOT_BYTES
    ensures RegWords(regs) == DirWords(items)
  {
    hide OffsetOf, Crc.Crc32;
    forall k | 0 <= k < 4 * |items|
      ensures RegWords(regs)[k] == DirWords(items)[k]
    {
      var r := regs[k / 4];
      assert DirWords(items)[k] == DirWord(items, k / 4, k % 4);
    }
  }

  lemma {:induction false} CollectFull(k: Kernel, metaLen: nat, a: nat, n: nat)
    requires a <= n <= MAX_TASKS && |k.running| == MAX_TASKS && |Collect(k, metaLen, a)| >= MAX_REGIONS
    ensures Collect(k, metaLen, n) == Collect(k, metaLen, a)
  {
    hide ItemOf, Room, Collect;
    if a < n {
      CollectFull(k, metaLen, a, n - 1);
      CollectNext(k, metaLen, n - 1);
    }
  }

  /** The buffer after the metadata and the directory are stored around the payload. */
  lemma BodyBuilt(s: seq<uint8>, sv: Save)
    requires |s| == SLOT_BYTES && sv.Valid() && PAYLOAD_BASE <= sv.MetaAt() && s[PAYLOAD_BASE..sv.MetaAt()] == Payload(sv.items)
    ensures var meta, dir := LeWords(MetaWords(sv.running, sv.lives)), LeWords(DirWords(sv.items));
            && sv.MetaAt() + |meta| <= |s| && HDR_BYTES + |dir| <= |s|
            && Body(Splice(Splice(s, sv.MetaAt(), meta), HDR_BYTES, dir), sv)
  {
    hide LeWords, MetaWords, DirWords, Payload, Splice, OffsetOf;
    var meta, dir, m := LeWords(MetaWords(sv.running, sv.lives)), LeWords(DirWords(sv.items)), sv.MetaAt();
    var s1 := Splice(s, m, meta);
    SplicePart(s, m, meta);
    SpliceFrame(s, m, meta, PAYLOAD_BASE, m);
    SplicePart(s1, HDR_BYTES, dir);
    SpliceFrame(s1, HDR_BYTES, dir, PAYLOAD_BASE, m);
    SpliceFrame(s1, HDR_BYTES, dir, m, sv.End());
  }

  /** Storing a header completes the image and leaves everything behind it alone. */
  lemma HeaderStored(s: seq<uint8>, sv: Save, state: nat)
    requires Body(s, sv) && state <= 1
    ensures sv.End() <= |s| && HDR_BYTES <= sv.End()
    ensures var s' := Splice(s, 0, HeaderBytes(sv, state, Crc.Crc32(s[HDR_BYTES..sv.End()])));
            Image(s', sv, state) && s'[HDR_BYTES..] == s[HDR_BYTES..]
  {
    hide LeWords, MetaWords, DirWords, Payload, Splice, OffsetOf, HeaderBytes, Crc.Crc32, Save.MetaAt;
    var h := HeaderBytes(sv, state, Crc.Crc32(s[HDR_BYTES..sv.End()]));
    var s' := Splice(s, 0, h);
    SplicePart(s, 0, h);
    SpliceFrame(s, 0, h, HDR_BYTES, |s|);
    SpliceFrame(s, 0, h, HDR_BYTES, HDR_BYTES + REGION_BYTES * |sv.items|);
    SpliceFrame(s, 0, h, PAYLOAD_BASE, sv.MetaAt());
    SpliceFrame(s, 0, h, sv.MetaAt(), sv.End());
    SpliceFrame(s, 0, h, HDR_BYTES, sv.End());
    assert s'[..HDR_BYTES] == s'[0..0 + |h|];
    assert s'[HDR_BYTES..] == s'[HDR_BYTES..|s|] && s[HDR_BYTES..] == s[HDR_BYTES..|s|];
  }

  /** Header fields as the save sets them. */
  datatype Head = Head(seqNo: uint32, tick: uint32, slot: uint8, state: nat, count: uint16, active: uint32,
                       regionsCrc: uint32, metaAt: uint32, metaLen: uint32) {
    function Words(headerCrc: uint32): (ws: seq<uint32>)
      requires state <= 1
      ensures |ws| == 16
    {
      [CKPT_MAGIC, CURRENT_VERSION + 0x1_0000 * HDR_BYTES, seqNo, tick, slot + 0x100 * state + 0x1_0000 * count,
       active, NO_STDIN_OWNER, regionsCrc, headerCrc, metaAt, metaLen, 0, 0, 0, 0, 0]
    }

    ghost predicate Describes(sv: Save) {
      && sv.Valid() && seqNo == sv.seqNo && tick == sv.tick && slot == sv.slot && count == |sv.items|
      && active == sv.active && metaAt == sv.MetaAt() && metaLen == MetaSize(|sv.lives|)
    }
  }

  lemma HeadBasics(h: Head, sv: Save)
    requires h.Describes(sv)
    ensures h.slot == sv.slot && forall state: nat :: h.(state := state).Describes(sv)
  {
    hide Save.MetaAt;
  }

  /** The pending header and then the committed one over the same body. */
  lemma HeaderTwice(s: seq<uint8>, sv: Save)
    requires Body(s, sv) && sv.slot == SlotOf(sv.seqNo)
    ensures |s| == SLOT_BYTES && HDR_BYTES <= sv.End() <= |s| && sv.Valid()
    ensures var rc := Crc.Crc32(s[HDR_BYTES..sv.End()]);
            var p := Splice(s, 0, HeaderBytes(sv, PENDING, rc));
            Buffers(sv, p, Splice(p, 0, HeaderBytes(sv, COMMITTED, rc))).Valid()
  {
    hide Splice, HeaderBytes, Crc.Crc32, Image, Body, SlotOf;
    BodyBounds(s, sv);
    HeaderStored(s, sv, PENDING);
    var p := Splice(s, 0, HeaderBytes(sv, PENDING, Crc.Crc32(s[HDR_BYTES..sv.End()])));
    ImageBody(p, sv, PENDING);
    HeaderStored(p, sv, COMMITTED);
    assert p[HDR_BYTES..sv.End()] == p[HDR_BYTES..][..sv.End() - HDR_BYTES];
    assert s[HDR_BYTES..sv.End()] == s[HDR_BYTES..][..sv.End() - HDR_BYTES];
  }

  lemma BodyBounds(s: seq<uint8>, sv: Save)
    requires Body(s, sv)
    ensures |s| == SLOT_BYTES && HDR_BYTES <= sv.End() <= |s| && sv.Valid()
  {
  }

  lemma BufferChunk(s: seq<uint8>, i: nat)
    requires |s| == SLOT_BYTES && i < SLOT_BLOCKS
    ensures Chunk(s[BLOCK_BYTES * i..]) == Pack(s[BLOCK_BYTES * i..BLOCK_BYTES * (i + 1)])
  {
    hide Pack;
    assert s[BLOCK_BYTES * i..][..BLOCK_BYTES] == s[BLOCK_BYTES * i..BLOCK_BYTES * (i + 1)];
  }

  class Checkpointer {
    const buf: array<uint8>
    var seqNo: uint32
    var seeded: bool
    var prev: seq<bool>
    var launches: seq<uint16>
    var exits: seq<uint16>

    constructor ()
      ensures fresh(buf) && Sized() && Memory() == COLD && Track() == Untracked()
    {
      buf := new uint8[SLOT_BYTES](i => 0);
      seqNo, seeded := 1, false;
      prev, launches, exits := NoFlags(MAX_TASKS), NoCounts(), NoCounts();
    }

    ghost predicate Sized()
      reads this
    {
      buf.Length == SLOT_BYTES && Track().Sized()
    }

    ghost function Track(): Tracking
      reads this
    {
      Tracking(prev, launches, exits)
    }

    ghost function Memory(): Ram
      reads this
    {
      Ram(seqNo, seeded)
    }

    /** The state a machine action acts on. */
    ghost function On(card: SdCard): Machine
      reads this, card
    {
      Machine(System(card.blocks, Memory()), Track())
    }

    method Store(off: nat, bytes: seq<uint8>)
      requires off + |bytes| <= buf.Length
      modifies buf
      ensures buf[..] == Splice(old(buf[..]), off, bytes)
    {
      for i := 0 to |bytes|
        invariant forall j :: 0 <= j < buf.Length ==>
                    buf[j] == if off <= j < off + i then bytes[j - off] else old(buf[j])
      {
        buf[off + i] := bytes[i];
      }
    }

    /** Read one place into the buffer. */
    method ReadSlot(card: SdCard, i: nat)
      requires OnCard(card.blocks) && i < PLACES && buf.Length == SLOT_BYTES
      modifies buf
      ensures buf[..BLOCK_BYTES * PlaceAt(i).blocks] == SlotBytes(card.blocks, i)
    {
      hide BytesOf, Splice, Gather;
      var p := PlaceAt(i);
      GatherNone(card.blocks, p.lba);
      for b := 0 to p.blocks
        invariant buf[..BLOCK_BYTES * b] == Gather(card.blocks, p.lba, BLOCK_BYTES * b)
      {
        var blk := card.ReadBlock(p.lba + b);
        ghost var was := buf[..];
        Store(BLOCK_BYTES * b, BytesOf(blk));
        SpliceGrows(was, BLOCK_BYTES * b, BytesOf(blk));
        assert buf[..BLOCK_BYTES * (b + 1)] == buf[..][..BLOCK_BYTES * (b + 1)];
        GatherNext(card.blocks, p.lba, b);
      }
    }

    /** Search the four places for the best accepted checkpoint. */
    method FindBest(card: SdCard) returns (best: Option<Choice>)
      requires OnCard(card.blocks) && buf.Length == SLOT_BYTES
      modifies buf
      ensures best == Best(card.blocks)
    {
      hide Accepts, Gather, SeqNo;
      best := None;
      for i := 0 to PLACES
        invariant best == BestOf(card.blocks, i)
      {
        ReadSlot(card, i);
        var s := buf[..BLOCK_BYTES * PlaceAt(i).blocks];
        var ok := ReadValid(s, PlaceAt(i).version);
        if ok && Beats(card.blocks, i, SeqNo(s), best) {
          best := Some(Choice(i, SeqNo(s)));
        }
      }
    }

    method SeedSeq(card: SdCard)
      requires OnCard(card.blocks) && buf.Length == SLOT_BYTES
      modifies this`seqNo, this`seeded, buf
      ensures Memory() == Seeded(old(Memory()), card.blocks)
    {
      hide BestOf;
      if seeded {
        return;
      }
      var best := FindBest(card);
      if best == None {
        return;
      }
      seqNo := if best.value.seqNo == TWO_32 - 1 then 1 else best.value.seqNo + 1;
      seeded := true;
    }

    /** Count what started and what ended since the previous save. */
    method ObserveRunning(running: seq<bool>)
      requires Track().Sized() && |running| == MAX_TASKS
      modifies this`prev, this`launches, this`exits
      ensures Track() == Observe(old(Track()), running)
    {
      for id := 0 to MAX_TASKS
        invariant |launches| == MAX_TASKS && |exits| == MAX_TASKS && prev == old(prev)
        invariant forall i :: 0 <= i < MAX_TASKS ==>
                    launches[i] == if i < id then Bump(old(launches)[i], running[i] && !prev[i]) else old(launches)[i]
        invariant forall i :: 0 <= i < MAX_TASKS ==>
                    exits[i] == if i < id then Bump(old(exits)[i], prev[i] && !running[i]) else old(exits)[i]
      {
        if running[id] && !prev[id] {
          launches := launches[id := (launches[id] + 1) % WRAP_16];
        }
        if prev[id] && !running[id] {
          exits := exits[id := (exits[id] + 1) % WRAP_16];
        }
      }
      prev := running;
    }

    /** Ask the running restorable tasks for their states, packing the answers into the payload area. */
    method CollectRegions(k: Kernel, metaLen: nat)
      returns (regs: seq<Region>, end: nat, active: seq<bool>, ghost items: seq<Item>)
      requires KernelOk(k) && buf.Length == SLOT_BYTES && PAYLOAD_BASE + metaLen <= SLOT_BYTES
      modifies buf
      ensures items == Collect(k, metaLen, MAX_TASKS) && Listed(regs, items)
      ensures end == OffsetOf(items, |items|) && PAYLOAD_BASE <= end && end + metaLen <= SLOT_BYTES
      ensures buf[PAYLOAD_BASE..end] == Payload(items)
      ensures ActiveIs(active, items)
    {
      hide Collect, OffsetOf, Payload, Crc.Crc32, Splice, ActiveOf, Taken, Listed, Asked, ItemOf;
      regs, end, active, items := [], PAYLOAD_BASE, NoFlags(MAX_TASKS), [];
      NothingCollected(k, metaLen);
      var id := 0;
      while id < MAX_TASKS && |regs| < MAX_REGIONS
        invariant id <= MAX_TASKS && items == Collect(k, metaLen, id) && Listed(regs, items) && |regs| == |items|
        invariant end == OffsetOf(items, |items|) && PAYLOAD_BASE <= end && end + metaLen <= SLOT_BYTES
        invariant buf[PAYLOAD_BASE..end] == Payload(items) && ActiveIs(active, items)
        decreases MAX_TASKS - id
      {
        CollectNext(k, metaLen, id);
        var taken, r := AskTask(k, id, metaLen, |regs|, end, items);
        if taken {
          ghost var it := ItemOf(k, id, items, metaLen);
          ListedAppend(regs, items, r, it);
          OffsetAfter(items, it);
          ActiveAppend(active, items, it);
          items := items + [it];
          regs := regs + [r];
          end := end + r.len;
          active := active[id := true];
        }
        id := id + 1;
      }
      if id < MAX_TASKS {
        CollectFull(k, metaLen, id, MAX_TASKS);
      }
    }

    /** Offer one task the room that is left; a refused answer leaves the payload so far untouched. */
    method AskTask(k: Kernel, id: nat, metaLen: nat, count: nat, end: nat, ghost items: seq<Item>)
      returns (taken: bool, r: Region)
      requires KernelOk(k) && id < MAX_TASKS && buf.Length == SLOT_BYTES && count == |items| < MAX_REGIONS
      requires end == OffsetOf(items, |items|) && PAYLOAD_BASE <= end && end + metaLen <= SLOT_BYTES
      requires buf[PAYLOAD_BASE..end] == Payload(items)
      modifies buf
      ensures taken == Taken(k, id, items, metaLen)
      ensures !taken ==> buf[PAYLOAD_BASE..end] == Payload(items)
      ensures taken ==> var it := ItemOf(k, id, items, metaLen);
                && r.id == it.task == id && r.version == it.version && r.off == end && r.len == |it.blob|
                && r.crc == Crc.Crc32(it.blob) && end + r.len + metaLen <= SLOT_BYTES
                && buf[PAYLOAD_BASE..end + r.len] == Payload(items) + it.blob
    {
      hide OffsetOf, Payload, Crc.Crc32, Splice;
      taken, r := false, Region(0, 0, 0, 0, 0);
      if k.reg[id].None? || !k.reg[id].value.kind.RestorableNow? || !k.reg[id].value.hasGet {
        return;
      }
      var d := k.reg[id].value;
      if !k.running[id] || d.maxLen > MAX_BLOB {
        return;
      }
      var room := SLOT_BYTES - (end + metaLen);
      if room < d.minLen {
        return;
      }
      var a := k.get(id, Min(room, Min(d.maxLen, MAX_BLOB)));
      assert |a.window| <= room;
      ghost var was := buf[..];
      Store(end, a.window);
      assert buf[PAYLOAD_BASE..end] == Payload(items) by {
        SpliceFrame(was, end, a.window, PAYLOAD_BASE, end);
        assert buf[PAYLOAD_BASE..end] == buf[..][PAYLOAD_BASE..end] && was[PAYLOAD_BASE..end] == Payload(items);
      }
      if !a.ok || a.len < d.minLen || a.len > d.maxLen || a.len > room || a.len > MAX_BLOB {
        return;
      }
      assert a.len <= |a.window|;
      assert buf[end..end + a.len] == a.window[..a.len] by {
        SplicePart(was, end, a.window);
        assert buf[end..end + a.len] == buf[..][end..end + |a.window|][..a.len];
      }
      var crc := Crc.Crc32Calc(buf[end..end + a.len]);
      taken, r := true, Region(id, d.version, end, a.len, crc);
      assert buf[PAYLOAD_BASE..end + a.len] == buf[PAYLOAD_BASE..end] + buf[end..end + a.len];
    }

    /** The lifecycle entries of the tracked tasks. */
    method Entries(reg: Registry) returns (ids: seq<uint8>, lives: seq<Life>)
      requires Track().Sized()
      ensures ids == Tracked(reg, MAX_TASKS) && lives == LivesOf(Track(), ids)
    {
      ids, lives := [], [];
      var id: nat := 0;
      while id < MAX_TASKS && |ids| < MAX_REGIONS
        invariant id <= MAX_TASKS && ids == Tracked(reg, id) && lives == LivesOf(Track(), ids)
        decreases MAX_TASKS - id
      {
        if Restorable(reg, id) {
          ids := ids + [id];
          lives := lives + [Life(id, launches[id], exits[id])];
        }
        id := id + 1;
      }
      if id < MAX_TASKS {
        TrackedFull(reg, id, MAX_TASKS);
      }
    }

    /** Put the metadata and the directory around the payload. */
    method StoreBody(regs: seq<Region>, end: nat, running: uint32, lives: seq<Life>, ghost sv: Save)
      requires buf.Length == SLOT_BYTES && sv.Valid() && Listed(regs, sv.items)
      requires PAYLOAD_BASE <= end == sv.MetaAt() && running == sv.running && lives == sv.lives
      requires buf[PAYLOAD_BASE..end] == Payload(sv.items)
      modifies buf
      ensures Body(buf[..], sv)
    {
      hide LeWords, MetaWords, DirWords, Payload, Splice, OffsetOf, Body, RegWords, Listed;
      RegWordsList(regs, sv.items);
      BodyBuilt(buf[..], sv);
      Store(end, LeWords(MetaWords(running, lives)));
      Store(HDR_BYTES, LeWords(RegWords(regs)));
    }

    /** End of everything the checksum over the regions covers. */
    method UsedEndOf(regs: seq<Region>, end: nat, ghost sv: Save) returns (usedEnd: int)
      requires Listed(regs, sv.items) && sv.Valid() && end == sv.End()
      ensures usedEnd == end
    {
      hide OffsetOf, Crc.Crc32;
      usedEnd := end;
      for i := 0 to |regs|
        invariant usedEnd == end
      {
        BlobInPayload(sv.items, i);
        var regEnd: int := regs[i].off + regs[i].len;
        usedEnd := if regEnd > usedEnd then regEnd else usedEnd;
      }
    }

    /** Put the header in place, with the given state and its own checksum. */
    method StoreHeader(h: Head, ghost sv: Save)
      requires buf.Length == SLOT_BYTES && h.Describes(sv) && h.state <= 1
      modifies buf
      ensures buf[..] == Splice(old(buf[..]), 0, HeaderBytes(sv, h.state, h.regionsCrc))
    {
      hide LeWords, Splice, Crc.Crc32, Save.MetaAt;
      var crc := Crc.Crc32Calc(LeWords(h.Words(0)));
      Store(0, LeWords(h.Words(crc)));
    }

    /** Write the first n blocks of the buffer. */
    method WriteBlocks(card: SdCard, lba: nat, n: nat)
      requires card.Valid() && lba + n <= |card.blocks| && n <= SLOT_BLOCKS && buf.Length == SLOT_BYTES
      modifies card
      ensures card.Valid() && card.origin == old(card.origin) && |card.blocks| == |old(card.blocks)|
      ensures |DataBlocks(buf[..])| == SLOT_BLOCKS && card.log == old(card.log) + Run(lba, DataBlocks(buf[..])[..n])
    {
      hide SdCard.Valid, DataBlocks, Pack;
      DataBlocksCount(buf[..]);
      ghost var bs := DataBlocks(buf[..]);
      for i := 0 to n
        invariant card.Valid() && card.origin == old(card.origin) && |card.blocks| == |old(card.blocks)|
        invariant card.log == old(card.log) + Run(lba, bs[..i])
      {
        DataBlockAt(buf[..], i);
        BufferChunk(buf[..], i);
        assert buf[BLOCK_BYTES * i..BLOCK_BYTES * (i + 1)] == buf[..][BLOCK_BYTES * i..BLOCK_BYTES * (i + 1)];
        card.WriteBlock(lba + i, Pack(buf[BLOCK_BYTES * i..BLOCK_BYTES * (i + 1)]));
        assert Run(lba, bs[..i + 1]) == Run(lba, bs[..i]) + [Write(lba + i, bs[i])];
      }
    }

    /** Write the pending slot, then rewrite its block 0 as committed. */
    method WriteSlot(card: SdCard, h: Head, ghost sv: Save) returns (ghost b: Buffers)
      requires card.Valid() && OnCard(card.blocks) && buf.Length == SLOT_BYTES && Body(buf[..], sv) && h.Describes(sv)
      requires sv.slot == SlotOf(sv.seqNo)
      requires sv.End() <= SLOT_BYTES && h.regionsCrc == Crc.Crc32(buf[HDR_BYTES..sv.End()])
      modifies card, buf
      ensures card.Valid() && b.Valid() && b.sv == sv && card.Issued(SaveWrites(b))
    {
      hide SdCard.Valid, Body, Image, HeaderBytes, Splice, DataBlocks, Chunk, Crc.Crc32, Head.Describes, Save.End;
      HeadBasics(h, sv);
      var lba := PlaceAt(h.slot).lba;
      HeaderTwice(buf[..], sv);
      assert buf[HDR_BYTES..sv.End()] == buf[..][HDR_BYTES..sv.End()];
      StoreHeader(h.(state := PENDING), sv);
      ghost var pending := buf[..];
      WriteBlocks(card, lba, SLOT_BLOCKS);
      StoreHeader(h.(state := COMMITTED), sv);
      b := Buffers(sv, pending, buf[..]);
      WriteBlocks(card, lba, 1);
      assert DataBlocks(pending)[..SLOT_BLOCKS] == DataBlocks(pending);
      assert Run(lba, DataBlocks(buf[..])[..1]) == [Write(lba, Chunk(buf[..]))] by {
        DataBlockAt(buf[..], 0);
        assert buf[..][0..] == buf[..];
      }
      card.IssuedFromLog(SaveWrites(b));
    }

    /** Whether a tracked task started or ended. */
    method LifecycleChanged(before: seq<bool>, running: seq<bool>, ids: seq<uint8>) returns (changed: bool)
      requires |before| == MAX_TASKS == |running| && forall i :: 0 <= i < |ids| ==> ids[i] < MAX_TASKS
      ensures changed <==> exists i :: 0 <= i < |ids| && before[ids[i]] != running[ids[i]]
    {
      changed := false;
      for i := 0 to |ids|
        invariant changed <==> exists j :: 0 <= j < i && before[ids[j]] != running[ids[j]]
      {
        if before[ids[i]] != running[ids[i]] {
          changed := true;
        }
      }
    }

    /** Gather everything a save needs into the buffer. */
    method Prepare(k: Kernel, tick: uint32) returns (found: bool, h: Head, ghost sv: Save)
      requires Sized() && KernelOk(k)
      modifies this`prev, this`launches, this`exits, buf
      ensures Sized() && Track() == Observe(old(Track()), k.running) && found == !NothingToSave(k, old(Track()))
      ensures found ==>
                && sv == SaveOf(k, Track(), seqNo, tick) && Body(buf[..], sv) && h.Describes(sv)
                && sv.End() <= SLOT_BYTES && h.regionsCrc == Crc.Crc32(buf[HDR_BYTES..sv.End()])
    {
      hide Collect, OffsetOf, Payload, Crc.Crc32, Listed, Body, Tracked, Observe, ActiveOf, Bits, LivesOf;
      var before := prev;
      ObserveRunning(k.running);
      var ids, lives := Entries(k.reg);
      var metaLen := MetaSize(|ids|);
      var changed := LifecycleChanged(before, k.running, ids);
      Store(0, Zeros(SLOT_BYTES));
      ghost var items;
      var regs, end, active;
      regs, end, active, items := CollectRegions(k, metaLen);
      CollectOk(k, metaLen, MAX_TASKS);
      assert |regs| == |items| by {
        ListedCount(regs, items);
      }
      found := |regs| > 0 || changed;
      h := Head(seqNo, tick, (seqNo + TWO_32 - 1) % TWO_32 % 2, PENDING, |regs|, BitWord(active), 0, end, metaLen);
      sv := SaveOf(k, Track(), seqNo, tick);
      if found {
        StoreBody(regs, end, BitWord(k.running), lives, sv);
        var usedEnd := UsedEndOf(regs, end + metaLen, sv);
        var crc := Crc.Crc32Calc(buf[HDR_BYTES..usedEnd]);
        h := h.(regionsCrc := crc);
      }
    }

    /** Save a checkpoint: refused exactly when there is nothing to save; otherwise the machine's save action. */
    method SaveOnce(card: SdCard, k: Kernel, tick: uint32) returns (rc: Rc, ghost b: Buffers)
      requires card.Valid() && OnCard(card.blocks) && Sized() && KernelOk(k)
      modifies this, buf, card
      ensures Sized() && card.Valid() && rc == (if old(NothingToSave(k, Track())) then ErrNotFound else Ok)
      ensures rc == Ok ==> b.Valid() && card.Issued(SaveWrites(b))
      ensures rc == ErrNotFound ==> card.blocks == old(card.blocks)
      ensures var a := Saving(k, tick, b, SAVE_WRITES);
              Possible(k.reg, old(On(card)), a) && On(card) == Next(k.reg, old(On(card)), a)
    {
      hide SdCard.Valid, BestOf, NothingToSave, Body, SaveOf, Observe, Buffers.Valid, Head.Describes, Apply, SaveWrites,
           Crc.Crc32, Save.End;
      SeedSeq(card);
      var found, h;
      ghost var sv;
      found, h, sv := Prepare(k, tick);
      if !found {
        b := Buffers(Save(0, 0, 0, 0, [], 0, []), [], []);
        return ErrNotFound, b;
      }
      SaveOfNumber(k, Track(), seqNo, tick);
      SaveOfSlot(k, Track(), seqNo, tick);
      b := WriteSlot(card, h, sv);
      SaveWritesShape(b);
      assert SaveWrites(b)[..SAVE_WRITES] == SaveWrites(b);
      seqNo := (seqNo + 1) % TWO_32;
      seeded := true;
      rc := Ok;
    }

    /** Whether the lifecycle metadata lets a region through: its first matching entry decides. */
    method Allow(lives: seq<Life>, task: nat) returns (allow: bool)
      ensures allow == LetThrough(lives, task)
    {
      hide LetThrough;
      for j := 0 to |lives|
        invariant forall i :: 0 <= i < j ==> lives[i].task != task
      {
        if lives[j].task == task {
          LetThroughAt(lives, task, j);
          return lives[j].launches > lives[j].exits;
        }
      }
      LetThroughAbsent(lives, task);
      allow := true;
    }

    method FilterRegions(s: seq<uint8>) returns (rs: seq<Region>)
      requires |s| >= HDR_BYTES && DirEnd(s) <= |s|
      ensures rs == Filtered(s, Count(s))
    {
      hide Load32, MetaOf, RegionAt, LetThrough;
      var meta := MetaOf(s);
      rs := [];
      for i := 0 to Count(s)
        invariant rs == Filtered(s, i)
      {
        var r := RegionAt(s, i);
        var allow := true;
        if meta.Some? {
          allow := Allow(meta.value, TaskOf(r));
        }
        if allow {
          rs := rs + [r];
        }
      }
    }

    /** Take the lifecycle counters from a loaded slot. */
    method SeedTracking(s: seq<uint8>)
      requires |s| >= HDR_BYTES && DirEnd(s) <= |s|
      modifies this`prev, this`launches, this`exits
      ensures Track() == Seeding(s)
    {
      hide Load32, MetaOf, RegionAt, MetaValid, FlagsOf;
      prev, launches, exits := NoFlags(MAX_TASKS), NoCounts(), NoCounts();
      var meta := MetaOf(s);
      if meta.Some? {
        MetaInside(s);
        prev := FlagsOf(Load32(s, MetaOff(s) + 8), MAX_TASKS);
        ghost var t := Track();
        for i := 0 to |meta.value|
          invariant Track() == SetCounts(t, meta.value[..i]) && Track().Sized()
        {
          assert meta.value[..i + 1][..i] == meta.value[..i];
          var e := meta.value[i];
          if e.task < MAX_TASKS {
            launches := launches[e.task := e.launches];
            exits := exits[e.task := e.exits];
          }
        }
        assert meta.value[..|meta.value|] == meta.value;
      } else {
        prev := FlagsOf(ActiveBits(s), MAX_TASKS);
        for i := 0 to Count(s)
          invariant |launches| == MAX_TASKS && launches == LaunchOnce(NoCounts(), s, i)
          invariant exits == NoCounts() && prev == FlagsOf(ActiveBits(s), MAX_TASKS)
        {
          var id := RegionAt(s, i).id;
          if id < MAX_TASKS {
            launches := launches[id := 1];
          }
        }
      }
    }

    /** Load the best checkpoint: the machine's load action. */
    method LoadLatest(card: SdCard, env: Env) returns (rc: Rc, p: Progress)
      requires OnCard(card.blocks) && Sized()
      modifies this, buf
      ensures Sized() && On(card) == Next(env.reg, old(On(card)), Loading(env))
      ensures rc == ErrNotFound <==> Best(card.blocks) == None
      ensures rc != ErrNotFound ==> LoadedFrom(card.blocks, env, p) && (rc == Ok <==> p.failed == 0)
    {
      hide BestOf, Gather, Loaded, Seeding, Walk, Filtered, Load32;
      SeedSeq(card);
      p := START;
      var best := FindBest(card);
      if best == None {
        return ErrNotFound, p;
      }
      ReadSlot(card, best.value.place);
      BestAccepted(card.blocks);
      var s := buf[..BLOCK_BYTES * PlaceAt(best.value.place).blocks];
      var rs := FilterRegions(s);
      var ok;
      ok, p := ApplyRegions(env, s, rs);
      LoadedIs(env, s);
      if ok {
        SeedTracking(s);
      }
      seqNo := if best.value.seqNo == TWO_32 - 1 then 1 else best.value.seqNo + 1;
      seeded := true;
      rc := if ok then Ok else ErrRestore;
    }
  }

  lemma GatherNone(d: Blocks, lba: nat)
    requires lba <= |d|
    ensures Gather(d, lba, 0) == []
  {
  }

  /** The bitmap marks exactly the saved tasks. */
  ghost predicate ActiveIs(active: seq<bool>, items: seq<Item>) {
    (forall i :: 0 <= i < |items| ==> items[i].task < MAX_TASKS) && active == ActiveOf(items)
  }

  lemma ActiveAppend(active: seq<bool>, items: seq<Item>, it: Item)
    requires ActiveIs(active, items) && it.task < MAX_TASKS
    ensures ActiveIs(active[it.task := true], items + [it])
  {
    assert (items + [it])[..|items|] == items;
  }

  lemma NothingCollected(k: Kernel, metaLen: nat)
    requires |k.running| == MAX_TASKS
    ensures Collect(k, metaLen, 0) == [] && Listed([], []) && OffsetOf([], 0) == PAYLOAD_BASE && Payload([]) == []
    ensures ActiveIs(NoFlags(MAX_TASKS), [])
  {
    OffsetOfNothing();
  }

  lemma {:induction false} TrackedFull(reg: Registry, a: nat, n: nat)
    requires a <= n <= MAX_TASKS && |Tracked(reg, a)| >= MAX_REGIONS
    ensures Tracked(reg, n) == Tracked(reg, a)
  {
    if a < n {
      TrackedFull(reg, a, n - 1);
    }
  }

  lemma ListedCount(regs: seq<Region>, items: seq<Item>)
    requires Listed(regs, items)
    ensures |regs| == |items|
  {
  }

  lemma SaveOfSlot(k: Kernel, t: Tracking, seqNo: uint32, tick: uint32)
    requires |k.running| == MAX_TASKS && t.Sized()
    ensures var sv := SaveOf(k, t, seqNo, tick); sv.slot == SlotOf(sv.seqNo)
  {
  }

  lemma MetaInside(s: seq<uint8>)
    requires |s| >= HDR_BYTES && MetaOf(s).Some?
    ensures MetaOff(s) + 12 <= |s|
  {
    hide Load32;
  }

  lemma LoadedIs(env: Env, s: seq<uint8>)
    requires |s| >= HDR_BYTES && DirEnd(s) <= |s|
    ensures Loaded(env, s) == Walk(env, s, Filtered(s, Count(s)))
  {
    hide Walk, Filtered;
  }

  /** p is what loading the selected slot does. */
  ghost predicate LoadedFrom(d: Blocks, env: Env, p: Progress)
    requires OnCard(d)
  {
    && Best(d).Some?
    && var s := SlotBytes(d, Best(d).value.place);
       |s| >= HDR_BYTES && DirEnd(s) <= |s| && p == Loaded(env, s)
  }
}
