/**
 On-card format of the file store: two superblock copies, a four-block index of fixed-size entries, and
 an append-only data area of records (header block, data blocks, tail block).
 */
module RwfsFormat {
  import opened Words
  import opened Sd
  import Fnv

  const RWFS_MAGIC: uint32 := 0x5346_5752
  const FDAT_MAGIC: uint32 := 0x5441_4446
  const FDEN_MAGIC: uint32 := 0x4E45_4446
  const VERSION: uint32 := 1
  const INDEX_OFF: nat := 2
  const INDEX_BLOCKS: nat := 4
  const DATA_OFF: nat := 6
  const NAME_MAX: nat := 32
  const ENTRY_WORDS: nat := 15
  const ENTRIES_PER_BLOCK: nat := 8
  /** Entries the index blocks can hold, and entries the store believes it has. */
  const ON_CARD: nat := 32
  const ENTRY_COUNT: nat := 34
  const FREE: uint32 := 0
  const LIVE: uint32 := 1

  /** A C string: the bytes before the terminating zero. */
  type CString = s: seq<uint8> | 0 !in s

  predicate NameValid(name: CString) {
    1 <= |name| < NAME_MAX
  }

  function Padded(name: CString): (s: seq<uint8>)
    requires NameValid(name)
    ensures |s| == NAME_MAX
  {
    name + Zeros(NAME_MAX - |name|)
  }

  function NameWords(name: CString): (ws: seq<uint32>)
    requires NameValid(name)
    ensures |ws| == 8
  {
    seq(8, i requires 0 <= i < 8 => Load32(Padded(name), 4 * i))
  }

  type Entry = e: seq<uint32> | |e| == ENTRY_WORDS witness seq(ENTRY_WORDS, i => 0)

  function NameBytes(e: Entry): (s: seq<uint8>)
    ensures |s| == NAME_MAX
  {
    LeWords(e[..8])
  }

  /** The stored bytes spell exactly the given name. */
  predicate Spells(stored: seq<uint8>, name: CString)
    requires |stored| == NAME_MAX
  {
    |name| < NAME_MAX && stored[..|name|] == name && stored[|name|] == 0
  }

  /** Character by character comparison, stopping at the first terminator. */
  method StrEqName(stored: seq<uint8>, name: CString) returns (same: bool)
    requires |stored| == NAME_MAX && |name| < NAME_MAX
    ensures same == Spells(stored, name)
  {
    var cstr := name + [0];
    for i := 0 to |cstr|
      invariant stored[..i] == cstr[..i]
      invariant i <= |name|
    {
      if stored[i] != cstr[i] {
        return false;
      }
      if stored[i] == 0 {
        assert i == |name|;
        return true;
      }
    }
  }

  /** A stored name matches itself and no other. */
  lemma PaddedSpells(a: CString, b: CString)
    requires NameValid(a) && NameValid(b)
    ensures Spells(Padded(a), b) <==> a == b
  {
    var s := Padded(a);
    assert forall i :: 0 <= i < |a| ==> s[i] == a[i] != 0;
    assert forall i :: 0 <= i < |b| ==> b[i] != 0;
    if Spells(s, b) {
      assert forall i :: 0 <= i < |b| ==> s[i] == s[..|b|][i] == b[i];
      assert s[|a|] == 0;
      assert |a| == |b|;
    }
  }

  function NewEntry(name: CString, lba: uint32, gen: uint32, data: seq<uint8>): (e: Entry)
    requires NameValid(name) && |data| + 2 < TWO_32
  {
    var ws: seq<uint32> := NameWords(name) + [LIVE, lba, |data|, gen, Fnv.Checksum(data), RecordCount(data)];
    ws + [Fnv.Checksum(ws)]
  }

  /** The entry's own checksum. */
  predicate EntryOk(e: Entry) {
    e[14] == Fnv.Checksum(e[..14])
  }

  /** An entry as it is read into memory: a live one whose checksum fails is freed. */
  function LoadEntry(e: Entry): Entry {
    if e[8] == LIVE && !EntryOk(e) then e[8 := FREE] else e
  }

  /** A live entry with one changed word is not taken for a file. */
  lemma DamagedEntryFreed(e: Entry, e': Entry, i: nat)
    requires e[8] == LIVE && EntryOk(e) && i < ENTRY_WORDS && e'[i] != e[i]
    requires forall j :: 0 <= j < ENTRY_WORDS && j != i ==> e'[j] == e[j]
    ensures LoadEntry(e')[8] != LIVE
  {
    hide Fnv.Checksum;
    if i == 14 {
      assert e'[..14] == e[..14];
    } else {
      Fnv.ChecksumDetects(e[..14], e'[..14], i);
    }
  }

  lemma NewEntryReads(name: CString, lba: uint32, gen: uint32, data: seq<uint8>)
    requires NameValid(name) && |data| + 2 < TWO_32
    ensures var e := NewEntry(name, lba, gen, data);
            && EntryOk(e) && LoadEntry(e) == e && e[8] == LIVE && e[9] == lba && e[10] == |data| && e[11] == gen
            && e[12] == Fnv.Checksum(data) && e[13] == RecordCount(data) && NameBytes(e) == Padded(name)
  {
    hide Fnv.Checksum, LeWords;
    var e := NewEntry(name, lba, gen, data);
    assert e[..8] == NameWords(name);
    NameRoundTrip(name);
    assert e[..14] == NameWords(name) + [LIVE, lba, |data|, gen, Fnv.Checksum(data), RecordCount(data)];
  }

  lemma NameRoundTrip(name: CString)
    requires NameValid(name)
    ensures LeWords(NameWords(name)) == Padded(name)
  {
    var p, w := Padded(name), NameWords(name);
    hide Padded, Le32, Load32;
    forall k | 0 <= k < NAME_MAX
      ensures LeWords(w)[k] == p[k]
    {
      var i := k / 4;
      LeOfLoad(p, 4 * i);
      assert p[4 * i..4 * i + 4][k % 4] == p[k];
    }
  }

  // Data records

  function NameHash(name: CString): uint32 {
    Fnv.Checksum(name)
  }

  function RecordCount(data: seq<uint8>): (n: nat)
    ensures |data| + 2 < TWO_32 ==> n < TWO_32
  {
    2 + CeilDiv(|data|, BLOCK_BYTES)
  }

  function FrameBlock(magic: uint32, hash: uint32, gen: uint32, len: uint32, crc: uint32): (b: Block)
    ensures FrameOk(b, magic, hash, gen, len) && b[5] == crc
  {
    var b := Sealed([magic, VERSION, hash, gen, len, crc]);
    assert forall i :: 0 <= i < 6 ==> b[i] == b[..6][i];
    b
  }

  function HeadBlock(name: CString, gen: uint32, data: seq<uint8>): Block
    requires |data| < TWO_32
  {
    FrameBlock(FDAT_MAGIC, NameHash(name), gen, |data|, Fnv.Checksum(data))
  }

  function TailBlock(name: CString, gen: uint32, data: seq<uint8>): Block
    requires |data| < TWO_32
  {
    FrameBlock(FDEN_MAGIC, NameHash(name), gen, |data|, Fnv.Checksum(data))
  }

  function RecordBlocks(name: CString, gen: uint32, data: seq<uint8>): (bs: seq<Block>)
    requires |data| < TWO_32
  {
    [HeadBlock(name, gen, data)] + DataBlocks(data) + [TailBlock(name, gen, data)]
  }

  lemma RecordBlocksCount(name: CString, gen: uint32, data: seq<uint8>)
    requires |data| < TWO_32
    ensures |RecordBlocks(name, gen, data)| == RecordCount(data)
  {
    DataBlocksCount(data);
  }

  /** The reader's test of a header or tail block. */
  predicate FrameOk(b: Block, magic: uint32, hash: uint32, gen: uint32, len: nat) {
    b[0] == magic && b[1] == VERSION && b[2] == hash && b[3] == gen && b[4] == len && SealOk(b, 6)
  }

  /** Reading a record. The last comparison of the source looks at the tail a second time, because its
      buffer no longer holds the header. A record that does not lie on the card cannot be read. */
  function ReadRecordAt(d: Blocks, lba: nat, blocks: nat, hash: uint32, gen: uint32, len: nat, crc: uint32): Option<seq<uint8>>
  {
    if blocks < 1 || lba + blocks > |d| || lba + 1 + CeilDiv(len, BLOCK_BYTES) > |d| then None
    else
      var data := Gather(d, lba + 1, len);
      if FrameOk(d[lba], FDAT_MAGIC, hash, gen, len) && FrameOk(d[lba + blocks - 1], FDEN_MAGIC, hash, gen, len)
         && d[lba + blocks - 1][5] == crc && Fnv.Checksum(data) == crc
      then Some(data)
      else None
  }

  /** Reading the record an entry points at. */
  function ReadRecord(d: Blocks, e: Entry, name: CString): (r: Option<seq<uint8>>) {
    ReadRecordAt(d, e[9], e[13], NameHash(name), e[11], e[10], e[12])
  }

  /** A record belongs to one file and one write of it: whoever can read it asks for the same name hash, write number,
      length and checksum. */
  lemma RecordBelongs(d: Blocks, lba: nat, blocks: nat, hash: uint32, gen: uint32, len: nat, crc: uint32,
                      hash': uint32, gen': uint32, len': nat, crc': uint32)
    requires ReadRecordAt(d, lba, blocks, hash, gen, len, crc).Some?
    requires ReadRecordAt(d, lba, blocks, hash', gen', len', crc').Some?
    ensures hash == hash' && gen == gen' && len == len' && crc == crc'
  {
    hide SealOk, Fnv.Checksum, Gather;
  }

  /** A record written for a file is read back through its entry. */
  lemma ReadOfRecord(d: Blocks, name: CString, lba: uint32, gen: uint32, data: seq<uint8>)
    requires NameValid(name) && |data| + 2 < TWO_32 && At(d, lba, RecordBlocks(name, gen, data))
    ensures ReadRecord(d, NewEntry(name, lba, gen, data), name) == Some(data)
  {
    hide Fnv.Checksum, SealOk, NewEntry, At, DataBlocks, Gather, FrameBlock, FrameOk, LoadEntry, EntryOk, NameBytes, Padded;
    var h, t := HeadBlock(name, gen, data), TailBlock(name, gen, data);
    NewEntryReads(name, lba, gen, data);
    DataBlocksCount(data);
    AtSplit(d, lba, [h] + DataBlocks(data), [t]);
    AtSplit(d, lba, [h], DataBlocks(data));
    AtOne(d, lba, h);
    AtOne(d, lba + 1 + |DataBlocks(data)|, t);
    AtBound(d, lba + 1, DataBlocks(data));
    GatherData(d, lba + 1, data);
  }

  /** A byte of a record that its checksums cover: data, or words of the header or tail. */
  predicate Covered(lba: nat, blocks: nat, len: nat, b: nat, k: nat) {
    || ((b == lba || b == lba + blocks - 1) && k < 28)
    || (b > lba && BLOCK_BYTES * (b - lba - 1) + k < len)
  }

  lemma DamagedDataRefused(d: Blocks, d': Blocks, lba: nat, len: nat, b: nat, k: nat)
    requires Damaged(d, d', b, k) && b > lba && BLOCK_BYTES * (b - lba - 1) + k < len
    requires lba + 1 + CeilDiv(len, BLOCK_BYTES) <= |d|
    ensures Fnv.Checksum(Gather(d, lba + 1, len)) != Fnv.Checksum(Gather(d', lba + 1, len))
  {
    hide Gather, DifferAt, Fnv.Checksum;
    GatherDamaged(d, d', b, k, lba + 1, len);
    Fnv.ChecksumDetects(Gather(d, lba + 1, len), Gather(d', lba + 1, len), BLOCK_BYTES * (b - lba - 1) + k);
  }

  /** One changed byte of the data, of the header or of the tail makes the record unreadable. */
  lemma DamagedRecordRefused(d: Blocks, d': Blocks, lba: nat, blocks: nat, hash: uint32, gen: uint32, len: nat, crc: uint32,
                             b: nat, k: nat)
    requires ReadRecordAt(d, lba, blocks, hash, gen, len, crc).Some?
    requires Damaged(d, d', b, k) && Covered(lba, blocks, len, b, k)
    ensures ReadRecordAt(d', lba, blocks, hash, gen, len, crc) == None
  {
    hide Gather, DifferAt, Fnv.Checksum, SealOk;
    if b > lba && BLOCK_BYTES * (b - lba - 1) + k < len {
      DamagedDataRefused(d, d', lba, len, b, k);
    } else {
      SealBroken(d[b], d'[b], 6, k);
    }
  }

  lemma AtBound(d: Blocks, lba: nat, bs: seq<Block>)
    requires At(d, lba, bs)
    ensures lba + |bs| <= |d|
  {
  }

  // Index blocks

  function EntryAt(b: Block, i: nat): Entry
    requires i < ENTRIES_PER_BLOCK
  {
    b[ENTRY_WORDS * i..ENTRY_WORDS * i + ENTRY_WORDS]
  }

  function WithEntry(b: Block, i: nat, e: Entry): (r: Block)
    requires i < ENTRIES_PER_BLOCK
  {
    b[..ENTRY_WORDS * i] + e + b[ENTRY_WORDS * i + ENTRY_WORDS..]
  }

  /** Replacing one entry leaves its neighbours alone. */
  lemma WithEntryAt(b: Block, i: nat, e: Entry, j: nat)
    requires i < ENTRIES_PER_BLOCK && j < ENTRIES_PER_BLOCK
    ensures EntryAt(WithEntry(b, i, e), j) == if j == i then e else EntryAt(b, j)
  {
    var r := WithEntry(b, i, e);
    forall k | 0 <= k < ENTRY_WORDS
      ensures EntryAt(r, j)[k] == if j == i then e[k] else EntryAt(b, j)[k]
    {
    }
    assert j == i ==> EntryAt(r, j) == e;
    assert j != i ==> EntryAt(r, j) == EntryAt(b, j);
  }

  // Superblock

  predicate SuperOk(b: Block) {
    && b[0] == RWFS_MAGIC && b[1] == VERSION && b[6] == INDEX_BLOCKS && b[9] == ENTRY_COUNT
    && b[7] >= b[3] as int + DATA_OFF && b[10] >= b[7] && b[10] <= b[3] as int + b[4] && SealOk(b, 11)
  }

  /** The superblock of an empty region, at the given generation. */
  function EmptySuper(start: uint32, blocks: uint32, gen: uint32): (b: Block)
    requires blocks > DATA_OFF && start + blocks < TWO_32
    ensures SuperOk(b) && b[2] == gen && b[3] == start && b[4] == blocks && b[5] == start + INDEX_OFF
    ensures b[7] == b[10] == start + DATA_OFF
  {
    var b := Sealed([RWFS_MAGIC, VERSION, gen, start, blocks, start + INDEX_OFF, INDEX_BLOCKS, start + DATA_OFF,
                     blocks - DATA_OFF, ENTRY_COUNT, start + DATA_OFF]);
    assert forall i :: 0 <= i < 11 ==> b[i] == b[..11][i];
    b
  }

  /** A fresh superblock for a region. */
  function FreshSuper(start: uint32, blocks: uint32): (b: Block)
    requires blocks > DATA_OFF && start + blocks < TWO_32
    ensures SuperOk(b) && b[2] == 1 && b[3] == start && b[4] == blocks && b[5] == start + INDEX_OFF
    ensures b[7] == b[10] == start + DATA_OFF
  {
    EmptySuper(start, blocks, 1)
  }

  /** The superblock after a record of n blocks was appended. */
  function NextSuper(b: Block, n: nat): (r: Block)
    requires b[10] + n < TWO_32
    ensures r[2] == (b[2] + 1) % TWO_32 && r[10] == b[10] + n && SealOk(r, 11)
    ensures forall i :: 0 <= i < BLOCK_WORDS && i != 2 && i != 10 && i != 11 ==> r[i] == b[i]
  {
    var c := b[10 := b[10] + n][2 := (b[2] + 1) % TWO_32];
    var r := c[11 := Fnv.Checksum(c[..11])];
    assert r[..11] == c[..11];
    r
  }
}
