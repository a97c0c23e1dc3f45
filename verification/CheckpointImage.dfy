/**
 What a save lays out in the slot buffer, and that the strict reader accepts exactly the committed form of it
 and finds in it every saved blob and counter.
 */
module CheckpointImage {
  import opened Words
  import opened CheckpointFormat
  import Crc

  datatype Item = Item(task: uint8, version: uint16, blob: seq<uint8>)

  datatype Save = Save(seqNo: uint32, tick: uint32, slot: uint8, active: uint32, items: seq<Item>,
                       running: uint32, lives: seq<Life>) {
    predicate Valid() {
      |items| <= MAX_REGIONS && |lives| <= MAX_REGIONS && End() <= SLOT_BYTES
    }

    /** The metadata follows the last blob. */
    function MetaAt(): nat {
      OffsetOf(items, |items|)
    }

    function End(): nat {
      MetaAt() + MetaSize(|lives|)
    }
  }

  function Payload(items: seq<Item>): seq<uint8> {
    if items == [] then [] else Payload(items[..|items| - 1]) + items[|items| - 1].blob
  }

  /** Where the k-th blob starts. */
  function OffsetOf(items: seq<Item>, k: nat): nat
    requires k <= |items|
  {
    PAYLOAD_BASE + |Payload(items[..k])|
  }

  lemma {:induction false} BlobInPayload(items: seq<Item>, k: nat)
    requires k < |items|
    ensures var o := |Payload(items[..k])|;
            o + |items[k].blob| <= |Payload(items)| && Payload(items)[o..o + |items[k].blob|] == items[k].blob
    ensures OffsetOf(items, k) + |items[k].blob| == OffsetOf(items, k + 1) <= OffsetOf(items, |items|)
    decreases |items|
  {
    assert items[..k + 1][..k] == items[..k] && items[..|items|] == items;
    if k + 1 < |items| {
      var init := items[..|items| - 1];
      assert init[..k] == items[..k] && init[..k + 1] == items[..k + 1] && init[..|init|] == init;
      BlobInPayload(init, k);
    }
  }

  function DirWord(items: seq<Item>, i: nat, j: nat): uint32
    requires i < |items| && OffsetOf(items, |items|) <= SLOT_BYTES
  {
    BlobInPayload(items, i);
    if j == 0 then items[i].task + 0x1_0000 * items[i].version as int
    else if j == 1 then OffsetOf(items, i)
    else if j == 2 then |items[i].blob|
    else Crc.Crc32(items[i].blob)
  }

  function DirWords(items: seq<Item>): (ws: seq<uint32>)
    requires OffsetOf(items, |items|) <= SLOT_BYTES
    ensures |ws| == 4 * |items|
  {
    seq(4 * |items|, k requires 0 <= k < 4 * |items| => DirWord(items, k / 4, k % 4))
  }

  function LifeWord(lives: seq<Life>, j: nat, h: nat): uint32
    requires j < |lives|
  {
    if h == 0 then lives[j].task + 0x1_0000 * lives[j].launches as int else lives[j].exits
  }

  function MetaWords(running: uint32, lives: seq<Life>): (ws: seq<uint32>)
    requires |lives| <= MAX_REGIONS
    ensures |ws| == 3 + 2 * |lives|
  {
    [META_MAGIC, META_VERSION + 0x1_0000 * |lives|, running]
    + seq(2 * |lives|, k requires 0 <= k < 2 * |lives| => LifeWord(lives, k / 2, k % 2))
  }

  function HeaderWords(sv: Save, state: nat, regionsCrc: uint32, headerCrc: uint32): (ws: seq<uint32>)
    requires sv.Valid() && state <= 1
    ensures |ws| == 16
  {
    [CKPT_MAGIC, CURRENT_VERSION + 0x1_0000 * HDR_BYTES, sv.seqNo, sv.tick,
     sv.slot + 0x100 * state + 0x1_0000 * |sv.items|, sv.active, NO_STDIN_OWNER, regionsCrc, headerCrc,
     sv.MetaAt(), MetaSize(|sv.lives|), 0, 0, 0, 0, 0]
  }

  function HeaderBytes(sv: Save, state: nat, regionsCrc: uint32): (h: seq<uint8>)
    requires sv.Valid() && state <= 1
    ensures |h| == HDR_BYTES
  {
    LeWords(HeaderWords(sv, state, regionsCrc, Crc.Crc32(LeWords(HeaderWords(sv, state, regionsCrc, 0)))))
  }

  /** The part of the buffer that is the same before and after the commit. */
  predicate Body(s: seq<uint8>, sv: Save) {
    && |s| == SLOT_BYTES && sv.Valid()
    && s[HDR_BYTES..HDR_BYTES + REGION_BYTES * |sv.items|] == LeWords(DirWords(sv.items))
    && PAYLOAD_BASE <= sv.MetaAt() && s[PAYLOAD_BASE..sv.MetaAt()] == Payload(sv.items)
    && s[sv.MetaAt()..sv.End()] == LeWords(MetaWords(sv.running, sv.lives))
  }

  /** The slot buffer as written: body and header, pending or committed. */
  predicate Image(s: seq<uint8>, sv: Save, state: nat)
    requires state <= 1
  {
    Body(s, sv) && s[..HDR_BYTES] == HeaderBytes(sv, state, Crc.Crc32(s[HDR_BYTES..sv.End()]))
  }

  // Reading it back

  lemma WordIn(s: seq<uint8>, base: nat, ws: seq<uint32>, i: nat)
    requires base + 4 * |ws| <= |s| && s[base..base + 4 * |ws|] == LeWords(ws) && i < |ws|
    ensures Load32(s, base + 4 * i) == ws[i]
  {
    LeWordsAt(ws, i);
    hide LeWords, Le32, Load32;
    var k := base + 4 * i;
    SubSlice(s, base, base + 4 * |ws|, 4 * i, 4);
    LoadStored32(s, k, ws[i]);
  }

  lemma WordsIn(s: seq<uint8>, base: nat, ws: seq<uint32>)
    requires base + 4 * |ws| <= |s| && s[base..base + 4 * |ws|] == LeWords(ws)
    ensures forall i :: 0 <= i < |ws| ==> Load32(s, base + 4 * i) == ws[i]
  {
    hide LeWords, Load32;
    forall i | 0 <= i < |ws|
      ensures Load32(s, base + 4 * i) == ws[i]
    {
      WordIn(s, base, ws, i);
    }
  }

  /** The digits of a word made of two bytes and a half word. */
  lemma Digits(a: uint8, b: uint8, h: uint16)
    ensures var w := a + 0x100 * b + 0x1_0000 * h;
            w % 0x100 == a && w / 0x100 % 0x100 == b && w / 0x1_0000 == h && w % 0x1_0000 == a + 0x100 * b
  {
  }

  /** The header fields, and that the header test passes exactly when the slot is committed. */
  lemma ImageHeader(s: seq<uint8>, sv: Save, state: nat)
    requires state <= 1 && Image(s, sv, state)
    ensures SeqNo(s) == sv.seqNo && ActiveBits(s) == sv.active && Count(s) == |sv.items| && State(s) == state
    ensures MetaOff(s) == sv.MetaAt() && MetaLen(s) == MetaSize(|sv.lives|)
    ensures Load32(s, 28) == Crc.Crc32(s[HDR_BYTES..sv.End()])
    ensures HeaderOk(s, CURRENT_VERSION) <==> state == COMMITTED
  {
    hide LeWords, Load32, Crc.Crc32, Save.MetaAt, DirWords, MetaWords, Payload;
    ImageBounds(s, sv, state);
    var rc := Crc.Crc32(s[HDR_BYTES..sv.End()]);
    HeaderLoads(s, sv, state, rc);
    var w0 := HeaderWords(sv, state, rc, 0);
    ClearedWord(s, HeaderWords(sv, state, rc, Crc.Crc32(LeWords(w0))), w0);
  }

  lemma HeaderLoads(s: seq<uint8>, sv: Save, state: nat, rc: uint32)
    requires state <= 1 && sv.Valid() && |s| >= HDR_BYTES && s[..HDR_BYTES] == HeaderBytes(sv, state, rc)
    ensures SeqNo(s) == sv.seqNo && ActiveBits(s) == sv.active && Count(s) == |sv.items| && State(s) == state
    ensures MetaOff(s) == sv.MetaAt() && MetaLen(s) == MetaSize(|sv.lives|) && Load32(s, 28) == rc
    ensures Load32(s, 0) == CKPT_MAGIC && Version(s) == CURRENT_VERSION && HeaderSize(s) == HDR_BYTES
    ensures Load32(s, 32) == Crc.Crc32(LeWords(HeaderWords(sv, state, rc, 0)))
  {
    hide LeWords, Load32, Crc.Crc32, Save.MetaAt, Save.End;
    var ws := HeaderWords(sv, state, rc, Crc.Crc32(LeWords(HeaderWords(sv, state, rc, 0))));
    assert s[0..0 + 4 * |ws|] == LeWords(ws);
    WordsIn(s, 0, ws);
    assert Load32(s, 0 + 4 * 0) == ws[0] && Load32(s, 0 + 4 * 1) == ws[1] && Load32(s, 0 + 4 * 2) == ws[2];
    assert Load32(s, 0 + 4 * 4) == ws[4] && Load32(s, 0 + 4 * 5) == ws[5] && Load32(s, 0 + 4 * 7) == ws[7];
    assert Load32(s, 0 + 4 * 8) == ws[8] && Load32(s, 0 + 4 * 9) == ws[9] && Load32(s, 0 + 4 * 10) == ws[10];
    Digits(sv.slot, state, |sv.items|);
  }

  lemma ClearedWord(s: seq<uint8>, ws: seq<uint32>, w0: seq<uint32>)
    requires |s| >= HDR_BYTES && |ws| == 16 && w0 == ws[8 := 0] && s[0..64] == LeWords(ws)
    ensures Unsigned(s) == LeWords(w0)
  {
    var u, z := Unsigned(s), LeWords(w0);
    forall i | 0 <= i < HDR_BYTES
      ensures u[i] == z[i]
    {
      assert i < 32 || i >= 36 ==> s[i] == s[0..64][i] == LeWords(ws)[i];
    }
  }

  lemma DirWordsAt(items: seq<Item>, k: nat, j: nat)
    requires k < |items| && j < 4 && OffsetOf(items, |items|) <= SLOT_BYTES
    ensures DirWords(items)[4 * k + j] == DirWord(items, k, j)
  {
    hide DirWord, OffsetOf;
    assert (4 * k + j) / 4 == k && (4 * k + j) % 4 == j;
  }

  lemma DirLoads(s: seq<uint8>, items: seq<Item>, k: nat)
    requires k < |items| && OffsetOf(items, |items|) <= SLOT_BYTES && HDR_BYTES + 16 * |items| <= |s|
    requires s[HDR_BYTES..HDR_BYTES + 16 * |items|] == LeWords(DirWords(items))
    ensures |items[k].blob| < TWO_32 && OffsetOf(items, k) < TWO_32
    ensures RegionAt(s, k) == Region(items[k].task, items[k].version, OffsetOf(items, k), |items[k].blob|, Crc.Crc32(items[k].blob))
  {
    hide LeWords, Load32, Crc.Crc32, DirWords, OffsetOf, Payload;
    BlobInPayload(items, k);
    var ws, o := DirWords(items), HDR_BYTES + 16 * k;
    forall j | 0 <= j < 4
      ensures Load32(s, o + 4 * j) == DirWord(items, k, j)
    {
      DirWordsAt(items, k, j);
      WordIn(s, HDR_BYTES, ws, 4 * k + j);
    }
    assert Load32(s, o + 4 * 0) == DirWord(items, k, 0) && Load32(s, o + 4 * 1) == DirWord(items, k, 1);
    assert Load32(s, o + 4 * 2) == DirWord(items, k, 2) && Load32(s, o + 4 * 3) == DirWord(items, k, 3);
    Digits(items[k].task, 0, items[k].version);
  }

  lemma BlobAt(s: seq<uint8>, items: seq<Item>, k: nat)
    requires k < |items| && PAYLOAD_BASE <= OffsetOf(items, |items|) <= |s|
    requires s[PAYLOAD_BASE..OffsetOf(items, |items|)] == Payload(items)
    ensures var off := OffsetOf(items, k); off + |items[k].blob| <= |s| && s[off..off + |items[k].blob|] == items[k].blob
  {
    hide Payload;
    BlobInPayload(items, k);
    var o, n := |Payload(items[..k])|, |items[k].blob|;
    SubSlice(s, PAYLOAD_BASE, OffsetOf(items, |items|), o, n);
  }

  /** Region k of a saved slot describes item k, and its bytes are there. */
  lemma ImageRegion(s: seq<uint8>, sv: Save, state: nat, k: nat)
    requires state <= 1 && Image(s, sv, state) && k < |sv.items|
    ensures var it, off := sv.items[k], OffsetOf(sv.items, k);
            && OffsetOf(sv.items, k + 1) <= sv.MetaAt() && off + |it.blob| <= SLOT_BYTES && HDR_BYTES + 16 * (k + 1) <= |s|
            && RegionAt(s, k) == Region(it.task, it.version, off, |it.blob|, Crc.Crc32(it.blob))
            && s[off..off + |it.blob|] == it.blob
  {
    hide LeWords, Load32, Crc.Crc32, HeaderBytes, DirWords, MetaWords, Payload, RegionAt;
    BlobInPayload(sv.items, k);
    DirLoads(s, sv.items, k);
    BlobAt(s, sv.items, k);
  }

  lemma MetaWordsAt(running: uint32, lives: seq<Life>, j: nat, h: nat)
    requires |lives| <= MAX_REGIONS && j < |lives| && h < 2
    ensures MetaWords(running, lives)[3 + (2 * j + h)] == LifeWord(lives, j, h)
  {
    hide LifeWord;
    assert (2 * j + h) / 2 == j && (2 * j + h) % 2 == h;
  }

  lemma LivesIn(s: seq<uint8>, m: nat, running: uint32, lives: seq<Life>, j: nat)
    requires |lives| <= MAX_REGIONS && m + MetaSize(|lives|) <= |s| && j < |lives|
    requires s[m..m + MetaSize(|lives|)] == LeWords(MetaWords(running, lives))
    ensures LifeAt(s, m, j) == lives[j]
  {
    hide LeWords, Load32, MetaWords;
    var ws := MetaWords(running, lives);
    MetaWordsAt(running, lives, j, 0);
    MetaWordsAt(running, lives, j, 1);
    WordIn(s, m, ws, 3 + (2 * j + 0));
    WordIn(s, m, ws, 3 + (2 * j + 1));
    Digits(lives[j].task, 0, lives[j].launches);
  }

  lemma MetaLoads(s: seq<uint8>, m: nat, running: uint32, lives: seq<Life>)
    requires |lives| <= MAX_REGIONS && m + MetaSize(|lives|) <= |s|
    requires s[m..m + MetaSize(|lives|)] == LeWords(MetaWords(running, lives))
    ensures MetaValid(s, m, MetaSize(|lives|)) && MetaCount(s, m) == |lives| && Load32(s, m + 8) == running
  {
    hide LeWords, Load32;
    var ws := MetaWords(running, lives);
    assert ws[0] == META_MAGIC && ws[1] == META_VERSION + 0x1_0000 * |lives| && ws[2] == running;
    hide MetaWords;
    WordIn(s, m, ws, 0);
    WordIn(s, m, ws, 1);
    WordIn(s, m, ws, 2);
    Digits(META_VERSION, 0, |lives|);
  }

  /** The metadata of a saved slot is valid and holds every counter. */
  lemma ImageMeta(s: seq<uint8>, sv: Save)
    requires Body(s, sv)
    ensures sv.End() <= |s| && MetaValid(s, sv.MetaAt(), MetaSize(|sv.lives|)) && MetaCount(s, sv.MetaAt()) == |sv.lives|
    ensures Load32(s, sv.MetaAt() + 8) == sv.running
    ensures forall j :: 0 <= j < |sv.lives| ==> LifeAt(s, sv.MetaAt(), j) == sv.lives[j]
  {
    hide LeWords, Load32, DirWords, Payload, MetaWords, LifeAt, Save.MetaAt;
    var m := sv.MetaAt();
    MetaLoads(s, m, sv.running, sv.lives);
    forall j | 0 <= j < |sv.lives|
      ensures LifeAt(s, m, j) == sv.lives[j]
    {
      LivesIn(s, m, sv.running, sv.lives, j);
    }
  }

  lemma {:induction false} ImageUsedEnd(s: seq<uint8>, sv: Save, state: nat, n: nat)
    requires state <= 1 && Image(s, sv, state) && n <= |sv.items|
    ensures Count(s) == |sv.items| && DirEnd(s) <= PAYLOAD_BASE <= sv.MetaAt() && sv.End() <= |s|
    ensures UsedEnd(s, n) == sv.End()
  {
    ImageHeader(s, sv, state);
    hide Image, Load32, Crc.Crc32;
    ImageBounds(s, sv, state);
    if n > 0 {
      ImageUsedEnd(s, sv, state, n - 1);
      ImageRegion(s, sv, state, n - 1);
      BlobInPayload(sv.items, n - 1);
    }
  }

  lemma ImageBounds(s: seq<uint8>, sv: Save, state: nat)
    requires state <= 1 && Image(s, sv, state)
    ensures |s| == SLOT_BYTES && sv.Valid() && PAYLOAD_BASE <= sv.MetaAt() && sv.End() <= |s|
  {
  }

  lemma ImageRegionOk(s: seq<uint8>, sv: Save, state: nat, i: nat)
    requires state <= 1 && Image(s, sv, state) && i < |sv.items|
    ensures |s| == SLOT_BYTES && Count(s) == |sv.items| && DirEnd(s) <= |s| && RegionOk(s, i)
  {
    hide Image, Load32, Crc.Crc32, HeaderOk, RegionAt, OffsetOf, Save.MetaAt;
    ImageBounds(s, sv, state);
    ImageHeader(s, sv, state);
    ImageRegion(s, sv, state, i);
    OffsetBase(sv.items, i);
  }

  lemma ImageMetaOk(s: seq<uint8>, sv: Save, state: nat)
    requires state <= 1 && Image(s, sv, state)
    ensures |s| == SLOT_BYTES && MetaOk(s)
  {
    hide Image, Load32, Crc.Crc32, HeaderOk, MetaValid, Save.MetaAt;
    ImageBounds(s, sv, state);
    ImageHeader(s, sv, state);
    ImageBody(s, sv, state);
    ImageMeta(s, sv);
  }

  lemma ImageBody(s: seq<uint8>, sv: Save, state: nat)
    requires state <= 1 && Image(s, sv, state)
    ensures Body(s, sv)
  {
  }

  /** The reader accepts a saved slot exactly when it is committed. */
  lemma ImageAccepted(s: seq<uint8>, sv: Save, state: nat)
    requires state <= 1 && Image(s, sv, state)
    ensures |s| >= HDR_BYTES && (Accepts(s, CURRENT_VERSION) <==> state == COMMITTED)
  {
    hide Image, Load32, Crc.Crc32, HeaderOk, MetaOk, UsedEnd, RegionOk, Save.MetaAt, Count;
    ImageBounds(s, sv, state);
    ImageHeader(s, sv, state);
    ImageMetaOk(s, sv, state);
    ImageUsedEnd(s, sv, state, |sv.items|);
    forall i | 0 <= i < Count(s)
      ensures RegionOk(s, i)
    {
      ImageRegionOk(s, sv, state, i);
    }
  }

  lemma OffsetBase(items: seq<Item>, k: nat)
    requires k <= |items|
    ensures OffsetOf(items, k) >= PAYLOAD_BASE
  {
  }
}
