/**
 The bootloader's side of the snapshot ring: its own slot check, the three-entry boot menu kept by
 in-place insertion, the choice of what to restore, and the restore walk that writes SRAM.
 */
module BootSnapshots {
  import opened Words
  import opened Sd
  import opened SnapshotFormat
  import opened SnapshotRing
  import SnapshotTask
  import Fnv

  const MENU_COUNT: nat := 3
  const NO_SLOT: nat := 0xFFFF_FFFF
  const ADMIN_BLOCKS_MIN: nat := 32

  /** The bootloader's layout check, in 32-bit arithmetic. */
  predicate BootLayoutValid(t: Table) {
    && t.total != 0 && t.slots != 0
    && t.slotBlocks >= MIN_SLOT_BLOCKS
    && t.blocks >= t.slots * t.slotBlocks % TWO_32
    && t.start >= ADMIN_BLOCKS_MIN && (t.start + t.blocks) % TWO_32 <= t.total
  }

  /** The bootloader's slot check; it reads the same three blocks as the snapshot task. */
  method SlotIsValid(card: SdCard, slotLba: nat, slotBlocks: nat, expected: nat) returns (r: Option<uint32>)
    ensures r == Verdict(card.blocks, slotLba, slotBlocks, expected)
  {
    hide Fnv.Checksum, Fetch;
    var b := card.TryRead(slotLba);
    if b.None? {
      return None;
    }
    var hdr := b.value;
    if hdr[0] != HDR_MAGIC || hdr[1] != FMT_VERSION || hdr[3] != expected || hdr[4] != (slotLba + 1) % TWO_32
       || hdr[5] != (slotBlocks + TWO_32 - 2) % TWO_32 || hdr[7] != Fnv.Checksum(hdr[..7]) {
      return None;
    }
    b := card.TryRead(slotLba + 1);
    if b.None? || b.value[0] != PAY0_MAGIC || b.value[1] != FMT_VERSION || b.value[7] != Fnv.Checksum(b.value[..7]) {
      return None;
    }
    b := card.TryRead(slotLba + slotBlocks + TWO_32 - 1);
    if b.None? {
      return None;
    }
    var c := b.value;
    if c[0] != CMIT_MAGIC || c[1] != FMT_VERSION || c[3] != expected || c[2] != hdr[2] || c[4] != Fnv.Checksum(c[..4]) {
      return None;
    }
    r := Some(hdr[2]);
  }

  // The menu

  /** p is listed before q: larger number first, earlier slot first among equals. */
  predicate Before(p: Pick, q: Pick) {
    p.seqNo > q.seqNo || (p.seqNo == q.seqNo && p.slot < q.slot)
  }

  /** The accepted slots among the first n, in slot order. */
  function Accepted(d: Blocks, t: Table, n: nat): (s: seq<Pick>)
    ensures forall i :: 0 <= i < |s| ==> s[i].slot < n
  {
    if n == 0 then []
    else Accepted(d, t, n - 1) + match SeqOf(d, t, n - 1) case None => [] case Some(q) => [Pick(n - 1, q)]
  }

  lemma {:induction false} AcceptedExactly(d: Blocks, t: Table, n: nat, p: Pick)
    ensures p in Accepted(d, t, n) <==> p.slot < n && SeqOf(d, t, p.slot) == Some(p.seqNo)
  {
    hide SeqOf;
    if n > 0 {
      AcceptedExactly(d, t, n - 1, p);
    }
  }

  predicate Sorted(s: seq<Pick>) {
    forall i, j :: 0 <= i < j < |s| ==> Before(s[i], s[j])
  }

  /** Where the insertion loop stops: before the first entry with a smaller number. */
  function Rank(s: seq<Pick>, q: uint32): (i: nat)
    ensures i <= |s|
    ensures forall k :: 0 <= k < i ==> s[k].seqNo >= q
    ensures i < |s| ==> s[i].seqNo < q
  {
    if s == [] then 0 else if s[0].seqNo < q then 0 else 1 + Rank(s[1..], q)
  }

  function Insert(s: seq<Pick>, p: Pick): (r: seq<Pick>)
    ensures |r| == |s| + 1
  {
    var i := Rank(s, p.seqNo);
    s[..i] + [p] + s[i..]
  }

  function Take(s: seq<Pick>): (r: seq<Pick>)
    ensures |r| == Min(|s|, MENU_COUNT)
  {
    s[..Min(|s|, MENU_COUNT)]
  }

  /** Inserting the next slot, later than all before it, keeps the order. */
  lemma InsertKeepsOrder(s: seq<Pick>, p: Pick)
    requires Sorted(s) && forall i :: 0 <= i < |s| ==> s[i].slot < p.slot
    ensures Sorted(Insert(s, p))
  {
    var i := Rank(s, p.seqNo);
    var u, v := s[..i], s[i..];
    SmallerAfterRank(s, p.seqNo, i);
    assert forall a :: 0 <= a < |u| ==> Before(u[a], p);
    assert forall a :: 0 <= a < |v| ==> v[a] == s[i + a];
    assert forall a :: 0 <= a < |v| ==> Before(p, v[a]);
    assert s == u + v;
    hide Rank, Before, Sorted;
    SortedSplice(u, p, v);
  }

  lemma InsertAdds(s: seq<Pick>, p: Pick)
    ensures multiset(Insert(s, p)) == multiset(s) + multiset{p}
  {
    var i := Rank(s, p.seqNo);
    hide Rank;
    assert s == s[..i] + s[i..];
  }

  lemma SmallerAfterRank(s: seq<Pick>, q: uint32, i: nat)
    requires Sorted(s) && i <= |s| && (i < |s| ==> s[i].seqNo < q)
    ensures forall a :: i <= a < |s| ==> s[a].seqNo < q
  {
    assert forall a :: i < a < |s| ==> Before(s[i], s[a]);
  }

  lemma SortedSplice(u: seq<Pick>, p: Pick, v: seq<Pick>)
    requires Sorted(u + v)
    requires forall a :: 0 <= a < |u| ==> Before(u[a], p)
    requires forall a :: 0 <= a < |v| ==> Before(p, v[a])
    ensures Sorted(u + [p] + v)
  {
    var r, w := u + [p] + v, u + v;
    forall a, b | 0 <= a < b < |r|
      ensures Before(r[a], r[b])
    {
      if a != |u| && b != |u| {
        var a', b' := if a < |u| then a else a - 1, if b < |u| then b else b - 1;
        assert Before(w[a'], w[b']);
      }
    }
  }

  /** The three-entry menu loses nothing that matters: truncating before or after is the same. */
  lemma TakeInsert(s: seq<Pick>, p: Pick)
    requires Sorted(s)
    ensures Take(Insert(Take(s), p)) == Take(Insert(s, p))
  {
    var m, i := Take(s), Rank(s, p.seqNo);
    assert forall a :: 0 <= a < |m| ==> m[a] == s[a];
    RankIs(m, p.seqNo, Min(i, |m|));
    hide Rank;
  }

  lemma RankIs(s: seq<Pick>, q: uint32, i: nat)
    requires i <= |s| && (forall k :: 0 <= k < i ==> s[k].seqNo >= q) && (i < |s| ==> s[i].seqNo < q)
    ensures Rank(s, q) == i
  {
    hide Rank;
  }

  /** All accepted slots in menu order. */
  function MenuOrder(d: Blocks, t: Table, n: nat): (s: seq<Pick>)
  {
    if n == 0 then []
    else match SeqOf(d, t, n - 1)
      case None => MenuOrder(d, t, n - 1)
      case Some(q) => Insert(MenuOrder(d, t, n - 1), Pick(n - 1, q))
  }

  /** Menu order really is the accepted slots, each once, sorted by number with earlier slots first. */
  lemma {:induction false} MenuOrderSorts(d: Blocks, t: Table, n: nat)
    ensures Sorted(MenuOrder(d, t, n))
    ensures multiset(MenuOrder(d, t, n)) == multiset(Accepted(d, t, n))
    ensures forall i :: 0 <= i < |MenuOrder(d, t, n)| ==> MenuOrder(d, t, n)[i].slot < n
  {
    hide SeqOf, Insert, Sorted, Before;
    if n == 0 {
      SortedNone();
    } else {
      MenuOrderSorts(d, t, n - 1);
      var s := MenuOrder(d, t, n - 1);
      if SeqOf(d, t, n - 1).Some? {
        var p := Pick(n - 1, SeqOf(d, t, n - 1).value);
        InsertKeepsOrder(s, p);
        InsertAdds(s, p);
        forall i | 0 <= i < |Insert(s, p)|
          ensures Insert(s, p)[i].slot < n
        {
          assert Insert(s, p)[i] in multiset(Insert(s, p));
        }
      }
    }
  }

  lemma SortedNone()
    ensures Sorted([])
  {
  }

  /** The menu lists exactly the accepted slots. */
  lemma MenuExactly(d: Blocks, t: Table, p: Pick)
    ensures p in MenuOrder(d, t, t.slots) <==> p.slot < t.slots && SeqOf(d, t, p.slot) == Some(p.seqNo)
  {
    hide SeqOf, MenuOrder, Accepted;
    MenuOrderSorts(d, t, t.slots);
    AcceptedExactly(d, t, t.slots, p);
    assert p in MenuOrder(d, t, t.slots) <==> p in multiset(MenuOrder(d, t, t.slots));
    assert p in Accepted(d, t, t.slots) <==> p in multiset(Accepted(d, t, t.slots));
  }

  lemma HeadFirst(s: seq<Pick>, p: Pick)
    requires Sorted(s) && p in s
    ensures p == s[0] || Before(s[0], p)
  {
    var k :| 0 <= k < |s| && s[k] == p;
  }

  /** The menu's first entry is the snapshot task's latest snapshot. */
  lemma MenuHeadIsLatest(d: Blocks, t: Table)
    ensures var s := MenuOrder(d, t, t.slots); Latest(d, t) == if s == [] then None else Some(s[0])
  {
    hide SeqOf, MenuOrder, LatestOf, Sorted;
    var s := MenuOrder(d, t, t.slots);
    MenuOrderSorts(d, t, t.slots);
    LatestIsLatest(d, t, t.slots);
    if Latest(d, t).Some? {
      MenuExactly(d, t, Latest(d, t).value);
    }
    if s != [] {
      MenuExactly(d, t, s[0]);
      forall j | 0 <= j < t.slots && SeqOf(d, t, j).Some?
        ensures SeqOf(d, t, j).value <= s[0].seqNo && (j < s[0].slot ==> SeqOf(d, t, j).value < s[0].seqNo)
      {
        var p := Pick(j, SeqOf(d, t, j).value);
        MenuExactly(d, t, p);
        HeadFirst(s, p);
      }
      LatestUnique(d, t, s[0]);
    }
  }

  lemma MenuStart(d: Blocks, t: Table)
    ensures MenuOrder(d, t, 0) == [] && Take([]) == []
  {
  }

  class BootStatus {
    const slotIdx: array<nat>
    const slotSeq: array<uint32>
    var validCount: nat

    constructor ()
      ensures fresh(slotIdx) && fresh(slotSeq) && slotIdx.Length == MENU_COUNT == slotSeq.Length
    {
      slotIdx := new nat[MENU_COUNT](_ => NO_SLOT);
      slotSeq := new uint32[MENU_COUNT](_ => 0);
      validCount := 0;
    }

    /** The first entries of the two arrays spell the menu; the rest is marked empty. */
    ghost predicate Shows(menu: seq<Pick>)
      reads this, slotIdx, slotSeq
    {
      && slotIdx.Length == MENU_COUNT == slotSeq.Length && |menu| <= MENU_COUNT
      && (forall i :: 0 <= i < |menu| ==> menu[i].slot != NO_SLOT && menu[i] == Pick(slotIdx[i], slotSeq[i]))
      && (forall i :: |menu| <= i < MENU_COUNT ==> slotIdx[i] == NO_SLOT)
    }

    method Reset()
      requires slotIdx.Length == MENU_COUNT == slotSeq.Length
      modifies this, slotIdx, slotSeq
      ensures Shows([]) && validCount == 0
    {
      validCount := 0;
      for i := 0 to MENU_COUNT
        invariant validCount == 0 && forall j :: 0 <= j < i ==> slotIdx[j] == NO_SLOT
      {
        slotIdx[i], slotSeq[i] := NO_SLOT, 0;
      }
    }

    /** The place of a new entry: before the first smaller number or the first empty place. */
    method FindRank(seqNo: uint32, ghost menu: seq<Pick>) returns (i: nat)
      requires Shows(menu)
      ensures i == Rank(menu, seqNo)
    {
      for k := 0 to MENU_COUNT
        invariant k <= Rank(menu, seqNo)
      {
        if slotIdx[k] == NO_SLOT || seqNo > slotSeq[k] {
          return k;
        }
      }
      i := MENU_COUNT;
    }

    /** Shift the tail one place to the right and drop the entry into its rank. */
    method PlaceAt(i: nat, slot: nat, seqNo: uint32, ghost menu: seq<Pick>)
      requires Shows(menu) && slot != NO_SLOT && i == Rank(menu, seqNo) < MENU_COUNT
      modifies slotIdx, slotSeq
      ensures Shows(Take(Insert(menu, Pick(slot, seqNo))))
    {
      hide Rank;
      ShiftRight(i);
      slotIdx[i], slotSeq[i] := slot, seqNo;
    }

    method SummaryInsert(slot: nat, seqNo: uint32, ghost menu: seq<Pick>)
      requires Shows(menu) && slot != NO_SLOT
      modifies this, slotIdx, slotSeq
      ensures Shows(Take(Insert(menu, Pick(slot, seqNo)))) && validCount == old(validCount) + 1
    {
      hide Rank;
      validCount := validCount + 1;
      var i := FindRank(seqNo, menu);
      if i < MENU_COUNT {
        PlaceAt(i, slot, seqNo, menu);
      } else {
        assert Take(Insert(menu, Pick(slot, seqNo))) == menu;
      }
    }

    /** One slot of the scan. */
    method ScanSlot(card: SdCard, t: Table, i: nat)
      requires i < t.slots
      requires Shows(Take(MenuOrder(card.blocks, t, i))) && validCount == |MenuOrder(card.blocks, t, i)|
      modifies this, slotIdx, slotSeq
      ensures var menu := MenuOrder(card.blocks, t, i + 1); Shows(Take(menu)) && validCount == |menu|
    {
      hide SlotLba, Verdict, Insert, Sorted, Take, BootStatus.Shows;
      ghost var d := card.blocks;
      var r := SlotIsValid(card, SlotLba(t, i) % TWO_32, t.slotBlocks, i);
      if r.Some? {
        MenuOrderSorts(d, t, i);
        TakeInsert(MenuOrder(d, t, i), Pick(i, r.value));
        SummaryInsert(i, r.value, Take(MenuOrder(d, t, i)));
      }
    }

    /** Fill the menu from the card. Nothing is listed unless the card is ready and the layout is valid. */
    method Scan(card: SdCard, t: Table, ready: bool)
      requires slotIdx.Length == MENU_COUNT == slotSeq.Length
      modifies this, slotIdx, slotSeq
      ensures ready && BootLayoutValid(t) ==>
                Shows(Take(MenuOrder(card.blocks, t, t.slots))) && validCount == |MenuOrder(card.blocks, t, t.slots)|
      ensures !(ready && BootLayoutValid(t)) ==> Shows([]) && validCount == 0
    {
      hide BootLayoutValid, BootStatus.Shows, MenuOrder, Take;
      Reset();
      if !ready || !BootLayoutValid(t) {
        return;
      }
      MenuStart(card.blocks, t);
      for i := 0 to t.slots
        invariant card.blocks == old(card.blocks)
        invariant Shows(Take(MenuOrder(card.blocks, t, i))) && validCount == |MenuOrder(card.blocks, t, i)|
      {
        ScanSlot(card, t, i);
      }
    }

    method RankToSlot(rank: nat, ghost menu: seq<Pick>) returns (r: Option<Pick>)
      requires Shows(menu)
      ensures r == if rank < |menu| then Some(menu[rank]) else None
    {
      if rank >= MENU_COUNT {
        return None;
      }
      if slotIdx[rank] == NO_SLOT {
        return None;
      }
      r := Some(Pick(slotIdx[rank], slotSeq[rank]));
    }

    /** The snapshot the bootloader restores. */
    method SelectCandidate(card: SdCard, t: Table, ready: bool) returns (r: Option<Pick>)
      requires slotIdx.Length == MENU_COUNT == slotSeq.Length
      modifies this, slotIdx, slotSeq
      ensures r == BootChoice(card.blocks, t, ready)
    {
      hide SlotLba, Verdict, MenuOrder, LatestOf, BootLayoutValid;
      if t.target.mode == SnapshotTask.TARGET_FRESH {
        return None;
      }
      if t.target.mode == SnapshotTask.TARGET_SNAPSHOT {
        if t.target.slot < t.slots {
          var found := SlotIsValid(card, SlotLba(t, t.target.slot) % TWO_32, t.slotBlocks, t.target.slot);
          if found.Some? {
            if t.target.seqNo == 0 || t.target.seqNo == found.value {
              return Some(Pick(t.target.slot, found.value));
            }
          }
        }
      }
      Scan(card, t, ready);
      ghost var menu := if ready && BootLayoutValid(t) then Take(MenuOrder(card.blocks, t, t.slots)) else [];
      r := RankToSlot(0, menu);
    }

    method ShiftRight(i: nat)
      requires slotIdx.Length == MENU_COUNT == slotSeq.Length && i < MENU_COUNT
      modifies slotIdx, slotSeq
      ensures forall k :: 0 <= k <= i ==> slotIdx[k] == old(slotIdx[k]) && slotSeq[k] == old(slotSeq[k])
      ensures forall k :: i < k < MENU_COUNT ==> slotIdx[k] == old(slotIdx[k - 1]) && slotSeq[k] == old(slotSeq[k - 1])
    {
      var j := MENU_COUNT - 1;
      while j > i
        invariant i <= j < MENU_COUNT
        invariant forall k :: 0 <= k <= j ==> slotIdx[k] == old(slotIdx[k]) && slotSeq[k] == old(slotSeq[k])
        invariant forall k :: j < k < MENU_COUNT ==> slotIdx[k] == old(slotIdx[k - 1]) && slotSeq[k] == old(slotSeq[k - 1])
      {
        slotIdx[j], slotSeq[j] := slotIdx[j - 1], slotSeq[j - 1];
        j := j - 1;
      }
    }
  }

  /** What the bootloader restores: the pinned snapshot if it is still valid, else the head of the menu. */
  function BootChoice(d: Blocks, t: Table, ready: bool): Option<Pick> {
    var pin := t.target;
    if pin.mode == SnapshotTask.TARGET_FRESH then None
    else if pin.mode == SnapshotTask.TARGET_SNAPSHOT && pin.slot < t.slots && SeqOf(d, t, pin.slot).Some?
            && (pin.seqNo == 0 || Some(pin.seqNo) == SeqOf(d, t, pin.slot))
    then Some(Pick(pin.slot, SeqOf(d, t, pin.slot).value))
    else if ready && BootLayoutValid(t) && MenuOrder(d, t, t.slots) != [] then Some(MenuOrder(d, t, t.slots)[0])
    else None
  }

  /** Bootloader and running system agree on what to restore, for every card and every documented target mode. */
  lemma BootAgreesWithRuntime(d: Blocks, t: Table)
    requires BootLayoutValid(t) && t.target.mode <= 2
    ensures BootChoice(d, t, true) == SnapshotTask.RuntimeChoice(d, t)
  {
    hide SeqOf, LatestOf, MenuOrder;
    MenuHeadIsLatest(d, t);
  }

  // What the target modes mean

  /** The accepted slot with the largest number, the earliest on ties; nothing exactly when no slot is accepted. */
  predicate NewestOrNone(d: Blocks, t: Table, r: Option<Pick>) {
    match r
    case Some(p) => IsLatest(d, t, t.slots, p)
    case None => forall i :: 0 <= i < t.slots ==> SeqOf(d, t, i) == None
  }

  /** The pinned slot is accepted, with the pinned number unless that is 0. */
  predicate PinHolds(d: Blocks, t: Table, q: uint32) {
    t.target.slot < t.slots && SeqOf(d, t, t.target.slot) == Some(q) && (t.target.seqNo == 0 || t.target.seqNo == q)
  }

  /** Mode 0 restores the newest snapshot, mode 1 none, mode 2 the pinned one if it holds and else the newest. */
  predicate AsTargeted(d: Blocks, t: Table, r: Option<Pick>) {
    && (t.target.mode == 0 ==> NewestOrNone(d, t, r))
    && (t.target.mode == 1 ==> r == None)
    && (t.target.mode == 2 ==>
          && (forall q: uint32 :: PinHolds(d, t, q) ==> r == Some(Pick(t.target.slot, q)))
          && ((forall q: uint32 :: !PinHolds(d, t, q)) ==> NewestOrNone(d, t, r)))
  }

  lemma LatestIsNewest(d: Blocks, t: Table)
    ensures NewestOrNone(d, t, Latest(d, t))
  {
    hide SeqOf, LatestOf;
    LatestIsLatest(d, t, t.slots);
  }

  /** The running system restores what the target says. */
  lemma RuntimeAsTargeted(d: Blocks, t: Table)
    requires t.target.mode <= 2
    ensures AsTargeted(d, t, SnapshotTask.RuntimeChoice(d, t))
  {
    hide SeqOf, Latest, NewestOrNone;
    LatestIsNewest(d, t);
    if t.target.mode == 2 && t.target.slot < t.slots && SeqOf(d, t, t.target.slot).Some? {
      var q := SeqOf(d, t, t.target.slot).value;
      assert PinHolds(d, t, q) <==> t.target.seqNo == 0 || t.target.seqNo == q;
    }
  }

  /** The bootloader, on a ready card with a layout it accepts, restores what the target says. */
  lemma BootAsTargeted(d: Blocks, t: Table)
    requires BootLayoutValid(t) && t.target.mode <= 2
    ensures AsTargeted(d, t, BootChoice(d, t, true))
  {
    hide AsTargeted, BootChoice, BootLayoutValid;
    BootAgreesWithRuntime(d, t);
    RuntimeAsTargeted(d, t);
  }

  /** Without a ready card, or with a layout it does not accept, only a pin that holds is restored. */
  lemma BootUnready(d: Blocks, t: Table, ready: bool)
    requires !ready || !BootLayoutValid(t)
    ensures BootChoice(d, t, ready).Some? <==> t.target.mode == 2 && exists q: uint32 :: PinHolds(d, t, q)
  {
    hide SeqOf, BootLayoutValid, MenuOrder;
    if t.target.slot < t.slots && SeqOf(d, t, t.target.slot).Some? {
      var q := SeqOf(d, t, t.target.slot).value;
      assert PinHolds(d, t, q) <==> t.target.seqNo == 0 || t.target.seqNo == q;
    }
  }

  // The restore walk

  /** Memory being restored: SRAM as a byte array starting at address base. */
  class Memory {
    const base: uint32
    const bytes: array<uint8>

    constructor (base: uint32, size: nat)
      ensures fresh(bytes) && this.base == base && bytes.Length == size
    {
      this.base := base;
      bytes := new uint8[size](_ => 0);
    }

    ghost function View(): (m: Sram)
      reads bytes
      ensures m.base == base && |m.bytes| == bytes.Length
    {
      Sram(base, bytes[..])
    }

    method Copy(addr: nat, data: seq<uint8>)
      requires base <= addr && addr + |data| <= base + bytes.Length
      modifies bytes
      ensures View() == old(View()).Put(addr, data)
    {
      var k := addr - base;
      for i := 0 to |data|
        invariant forall j :: 0 <= j < bytes.Length ==> bytes[j] == if k <= j < k + i then data[j - k] else old(bytes[j])
      {
        bytes[k + i] := data[i];
      }
      assert bytes[..] == old(View()).Put(addr, data).bytes;
    }

    /** Copy one region's data, block by block, until it or the slot is exhausted. */
    method RestoreData(card: SdCard, addr0: nat, rem0: nat, lba0: nat, left0: nat)
      returns (ok: bool, lba: nat, left: nat, crc: uint32)
      requires lba0 + left0 <= |card.blocks| && base <= addr0 && addr0 + rem0 <= base + bytes.Length
      modifies bytes
      ensures Walk(ok, View(), lba, left, crc) == CopyData(card.blocks, old(View()), addr0, rem0, lba0, left0, Fnv.BASIS)
    {
      hide BytesOf, Fnv.Fold, CopyData, Sram.Put, Memory.View;
      ok, lba, left, crc := true, lba0, left0, Fnv.BASIS;
      var addr: nat, rem: nat := addr0, rem0;
      ghost var d, w := card.blocks, CopyData(card.blocks, View(), addr0, rem0, lba0, left0, Fnv.BASIS);
      while rem > 0
        invariant lba + left <= |d| && base <= addr && addr + rem <= base + bytes.Length && card.blocks == d
        invariant CopyData(d, View(), addr, rem, lba, left, crc) == w
      {
        CopyDataNext(d, View(), addr, rem, lba, left, crc);
        if left == 0 {
          ok := false;
          return;
        }
        var rb := card.ReadBlock(lba);
        var n := Min(rem, BLOCK_BYTES);
        var src := BytesOf(rb)[..n];
        crc := Fnv.ChecksumUpdate(crc, src);
        Copy(addr, src);
        addr, rem, lba, left := addr + n, rem - n, lba + 1, left - 1;
      }
      CopyDataNext(d, View(), addr, rem, lba, left, crc);
    }

    method RestoreRegion(card: SdCard, lba0: nat, left0: nat) returns (ok: bool, lba: nat, left: nat, len: nat)
      requires lba0 + left0 <= |card.blocks|
      modifies bytes
      ensures Walk(ok, View(), lba, left, len) == CopyRegion(card.blocks, old(View()), lba0, left0)
    {
      hide CopyData, Fnv.Checksum;
      ok, lba, left, len := false, lba0, left0, 0;
      if left == 0 {
        return;
      }
      var rgs := card.ReadBlock(lba);
      if rgs[0] != RGS0_MAGIC || rgs[1] != FMT_VERSION || rgs[4] != Fnv.Checksum(rgs[..4]) {
        return;
      }
      var addr, size := rgs[2], rgs[3];
      var end: int := base + bytes.Length;
      if addr < base || addr > end {
        return;
      }
      if size > end - addr {
        return;
      }
      lba, left, len := lba + 1, left - 1, size;
      var crc;
      ok, lba, left, crc := RestoreData(card, addr, size, lba, left);
      if !ok || left == 0 {
        ok := false;
        return;
      }
      var rge := card.ReadBlock(lba);
      ok := rge[0] == RGE0_MAGIC && rge[1] == FMT_VERSION && rge[2] == addr && rge[3] == size
            && rge[5] == Fnv.Checksum(rge[..5]) && rge[4] == Fnv.Finish(crc);
      if ok {
        lba, left := lba + 1, left - 1;
      }
    }

    /** Restore one slot into memory. */
    method RestorePayload(card: SdCard, slotLba: nat, slotBlocks: nat, slot: nat, expected: uint32) returns (ok: bool)
      requires slotBlocks >= 2 && slotLba + slotBlocks <= |card.blocks|
      modifies bytes
      ensures var w := RestoreSlot(card.blocks, old(View()), slotLba, slotBlocks, slot, expected);
              ok == w.ok && View() == w.mem
    {
      hide CopyRegion, Fnv.Checksum;
      var hdr := card.ReadBlock(slotLba);
      var cmit := card.ReadBlock(slotLba + slotBlocks - 1);
      if hdr[0] != HDR_MAGIC || hdr[1] != FMT_VERSION || hdr[3] != slot || hdr[4] != (slotLba + 1) % TWO_32
         || hdr[5] != (slotBlocks + TWO_32 - 2) % TWO_32 || hdr[7] != Fnv.Checksum(hdr[..7])
         || cmit[0] != CMIT_MAGIC || cmit[1] != FMT_VERSION || cmit[3] != slot || cmit[2] != hdr[2]
         || cmit[4] != Fnv.Checksum(cmit[..4]) {
        return false;
      }
      if expected != 0 && hdr[2] != expected {
        return false;
      }
      if slotBlocks - 2 == 0 {
        return false;
      }
      var pay0 := card.ReadBlock(slotLba + 1);
      if pay0[0] != PAY0_MAGIC || pay0[1] != FMT_VERSION || pay0[7] != Fnv.Checksum(pay0[..7])
         || pay0[5] == 0 || pay0[5] > 8 {
        return false;
      }
      ok := RestoreFramed(card, slotLba + 2, slotBlocks - 3, pay0[5]);
    }

    /** The framed regions and the closing PAYE block. */
    method RestoreFramed(card: SdCard, lba0: nat, left0: nat, count: nat) returns (ok: bool)
      requires lba0 + left0 <= |card.blocks|
      modifies bytes
      ensures var w := CopyRegions(card.blocks, old(View()), lba0, left0, count);
              View() == w.mem && ok == (w.ok && w.left > 0 && PayeOk(card.blocks[w.lba], count, w.acc))
    {
      hide CopyRegion, Fnv.Checksum;
      var lba, left := lba0, left0;
      var copied: uint32 := 0;
      ghost var d, m0 := card.blocks, View();
      ghost var total: nat := 0;
      for k := 0 to count
        invariant lba + left == lba0 + left0 && card.blocks == d && copied == total % TWO_32
        invariant CopyRegions(d, m0, lba0, left0, k) == Walk(true, View(), lba, left, total)
      {
        var len;
        ok, lba, left, len := RestoreRegion(card, lba, left);
        total := total + len;
        if !ok {
          FailedStaysFailed(d, m0, lba0, left0, k + 1, count);
          return;
        }
        copied := (copied + len) % TWO_32;
      }
      if left == 0 {
        return false;
      }
      var paye := card.ReadBlock(lba);
      ok := paye[0] == PAYE_MAGIC && paye[1] == FMT_VERSION && paye[4] == Fnv.Checksum(paye[..4])
            && paye[2] == count && paye[3] == copied;
    }
  }
}
