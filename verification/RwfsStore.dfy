/**
 The file store as a protocol. A card is described by a directory of what its index entries point at; the
 directory denotes a plain map from names to contents. Writing a file appends a record, switches one index
 entry to it and then advances both superblock copies. The lemmas follow every prefix of those writes.
 */
module RwfsStore {
  import opened Words
  import opened Sd
  import opened RwfsFormat
  import Fnv

  datatype Fs = Fs(start: uint32, blocks: uint32)

  datatype File = File(data: seq<uint8>, writes: uint32)

  datatype Slot = Free | Used(name: CString, lba: uint32, gen: uint32, data: seq<uint8>)

  predicate OnCard(d: Blocks, fs: Fs) {
    fs.blocks > DATA_OFF && fs.start + fs.blocks <= |d| < TWO_32
  }

  // Superblocks

  /** A valid superblock that describes this file system. */
  predicate Usable(b: Block, fs: Fs) {
    SuperOk(b) && b[3] == fs.start && b[4] <= fs.blocks && b[5] == fs.start + INDEX_OFF
  }

  /** At least one copy is valid, and every valid copy describes this file system. */
  predicate CopiesUsable(d: Blocks, fs: Fs)
    requires OnCard(d, fs)
  {
    var a, b := d[fs.start], d[fs.start + 1];
    (SuperOk(a) ==> Usable(a, fs)) && (SuperOk(b) ==> Usable(b, fs)) && (SuperOk(a) || SuperOk(b))
  }

  /** The copy a mount works with: the first one unless the second is newer or the only valid one. */
  function BestSuper(d: Blocks, fs: Fs): Block
    requires OnCard(d, fs)
  {
    var a, b := d[fs.start], d[fs.start + 1];
    if SuperOk(a) && (!SuperOk(b) || a[2] >= b[2]) then a else b
  }

  // The directory a card holds

  function EntryOf(d: Blocks, fs: Fs, i: nat): Entry
    requires OnCard(d, fs) && i < ON_CARD
  {
    EntryAt(d[fs.start + INDEX_OFF + i / ENTRIES_PER_BLOCK], i % ENTRIES_PER_BLOCK)
  }

  predicate SlotValid(fs: Fs, s: Slot) {
    s.Used? ==> NameValid(s.name) && |s.data| + 2 < TWO_32
                && fs.start + DATA_OFF <= s.lba && s.lba + RecordCount(s.data) <= fs.start + fs.blocks
  }

  predicate SlotHolds(d: Blocks, fs: Fs, i: nat, s: Slot)
    requires OnCard(d, fs) && i < ON_CARD && SlotValid(fs, s)
  {
    match s
    case Free => EntryOf(d, fs, i)[8] == FREE
    case Used(name, lba, gen, data) =>
      EntryOf(d, fs, i) == NewEntry(name, lba, gen, data) && At(d, lba, RecordBlocks(name, gen, data))
  }

  predicate Distinct(dir: seq<Slot>) {
    forall i, j :: 0 <= i < j < |dir| && dir[i].Used? && dir[j].Used? ==> dir[i].name != dir[j].name
  }

  /** The card holds the directory: every file can be found and read. */
  predicate Readable(d: Blocks, fs: Fs, dir: seq<Slot>) {
    && OnCard(d, fs) && CopiesUsable(d, fs) && |dir| == ON_CARD && Distinct(dir)
    && (forall i :: 0 <= i < ON_CARD ==> SlotValid(fs, dir[i]))
    && (forall i :: 0 <= i < ON_CARD ==> SlotHolds(d, fs, i, dir[i]))
  }

  predicate Below(s: Slot, lba: nat) {
    s.Used? ==> s.lba + RecordCount(s.data) <= lba
  }

  /** Live records are pairwise disjoint and lie below the free pointer. */
  predicate Packed(super: Block, dir: seq<Slot>) {
    && (forall i :: 0 <= i < |dir| ==> Below(dir[i], super[10]))
    && (forall i, j :: 0 <= i < |dir| && 0 <= j < |dir| && i != j && dir[i].Used? && dir[j].Used? ==>
          dir[i].lba + RecordCount(dir[i].data) <= dir[j].lba || dir[j].lba + RecordCount(dir[j].data) <= dir[i].lba)
  }

  /** What every completed operation keeps. */
  predicate Consistent(d: Blocks, fs: Fs, dir: seq<Slot>) {
    Readable(d, fs, dir) && Packed(BestSuper(d, fs), dir)
  }

  // The map a directory denotes

  function FilesOf(dir: seq<Slot>): map<CString, File> {
    if dir == [] then map[]
    else
      var m, s := FilesOf(dir[..|dir| - 1]), dir[|dir| - 1];
      if s.Used? then m[s.name := File(s.data, s.gen)] else m
  }

  lemma {:induction false} FilesAre(dir: seq<Slot>)
    requires Distinct(dir)
    ensures forall i :: 0 <= i < |dir| && dir[i].Used? ==>
              dir[i].name in FilesOf(dir) && FilesOf(dir)[dir[i].name] == File(dir[i].data, dir[i].gen)
    ensures forall n :: n in FilesOf(dir) ==> exists i :: 0 <= i < |dir| && dir[i].Used? && dir[i].name == n
  {
    if dir != [] {
      var init := dir[..|dir| - 1];
      FilesAre(init);
      forall n | n in FilesOf(dir)
        ensures exists i :: 0 <= i < |dir| && dir[i].Used? && dir[i].name == n
      {
        if n in FilesOf(init) {
          var i :| 0 <= i < |init| && init[i].Used? && init[i].name == n;
          assert dir[i] == init[i];
        } else {
          assert dir[|dir| - 1].Used? && dir[|dir| - 1].name == n;
        }
      }
      assert forall i :: 0 <= i < |init| ==> init[i] == dir[i];
    }
  }

  function UsedCount(dir: seq<Slot>): nat {
    if dir == [] then 0 else UsedCount(dir[..|dir| - 1]) + if dir[|dir| - 1].Used? then 1 else 0
  }

  /** The map has one file per used slot, so a full directory is a map of that many names. */
  lemma {:induction false} FilesCount(dir: seq<Slot>)
    requires Distinct(dir)
    ensures |FilesOf(dir)| == UsedCount(dir) <= |dir|
    ensures UsedCount(dir) == |dir| <==> forall i :: 0 <= i < |dir| ==> dir[i].Used?
  {
    if dir != [] {
      var init, s := dir[..|dir| - 1], dir[|dir| - 1];
      FilesCount(init);
      FilesAre(init);
      assert forall i :: 0 <= i < |init| ==> init[i] == dir[i];
      if s.Used? {
        assert s.name !in FilesOf(init);
        assert FilesOf(dir).Keys == FilesOf(init).Keys + {s.name};
      }
    }
  }

  predicate HasFile(dir: seq<Slot>, name: CString) {
    exists i :: 0 <= i < |dir| && dir[i].Used? && dir[i].name == name
  }

  /** Where a write of name goes: its own slot, or a free one if it has none. */
  predicate Target(dir: seq<Slot>, i: nat, name: CString) {
    i < |dir| && if dir[i].Used? then dir[i].name == name else !HasFile(dir, name)
  }

  lemma DistinctUpdate(dir: seq<Slot>, i: nat, s: Slot)
    requires Distinct(dir) && s.Used? && Target(dir, i, s.name)
    ensures Distinct(dir[i := s])
  {
    var dir' := dir[i := s];
    forall a, b | 0 <= a < b < |dir'| && dir'[a].Used? && dir'[b].Used?
      ensures dir'[a].name != dir'[b].name
    {
      if a != i && b != i {
        assert dir[a].name != dir[b].name;
      } else {
        var o := if a == i then b else a;
        assert dir'[o] == dir[o];
      }
    }
  }

  /** Redirecting the target slot updates exactly that name in the map. */
  lemma FilesUpdate(dir: seq<Slot>, i: nat, s: Slot)
    requires Distinct(dir) && s.Used? && Target(dir, i, s.name)
    ensures FilesOf(dir[i := s]) == FilesOf(dir)[s.name := File(s.data, s.gen)]
  {
    hide FilesOf;
    var dir' := dir[i := s];
    DistinctUpdate(dir, i, s);
    FilesAre(dir);
    FilesAre(dir');
    var m, m' := FilesOf(dir)[s.name := File(s.data, s.gen)], FilesOf(dir');
    assert dir'[i] == s;
    forall n: CString
      ensures n in m <==> n in m'
      ensures n in m && n in m' ==> m[n] == m'[n]
    {
      if n != s.name && n in m {
        var j :| 0 <= j < |dir| && dir[j].Used? && dir[j].name == n;
        assert dir'[j] == dir[j];
      }
      if n != s.name && n in m' {
        var j :| 0 <= j < |dir'| && dir'[j].Used? && dir'[j].name == n;
        assert dir[j] == dir'[j];
      }
    }
  }

  // Finding and reading

  /** An entry in memory that matches a name. */
  predicate Matches(e: Entry, name: CString) {
    e[8] == LIVE && Spells(NameBytes(e), name)
  }

  function Loaded(d: Blocks, fs: Fs): (es: seq<Entry>)
    requires OnCard(d, fs)
    ensures |es| == ON_CARD && forall i :: 0 <= i < ON_CARD ==> es[i] == LoadEntry(EntryOf(d, fs, i))
  {
    seq(ON_CARD, i requires 0 <= i < ON_CARD => LoadEntry(EntryOf(d, fs, i)))
  }

  /** In memory, slot i matches a name exactly when it is that file's slot, and is free exactly when unused. */
  lemma LoadedSlot(d: Blocks, fs: Fs, dir: seq<Slot>, i: nat, name: CString)
    requires Readable(d, fs, dir) && i < ON_CARD && NameValid(name)
    ensures Matches(LoadEntry(EntryOf(d, fs, i)), name) <==> dir[i].Used? && dir[i].name == name
    ensures LoadEntry(EntryOf(d, fs, i))[8] == if dir[i].Used? then LIVE else FREE
    ensures dir[i].Used? ==> LoadEntry(EntryOf(d, fs, i)) == NewEntry(dir[i].name, dir[i].lba, dir[i].gen, dir[i].data)
  {
    hide Spells, NameBytes, Padded, NewEntry, EntryOf, At, EntryOk, CopiesUsable;
    assert SlotHolds(d, fs, i, dir[i]) && SlotValid(fs, dir[i]);
    if dir[i].Used? {
      NewEntryReads(dir[i].name, dir[i].lba, dir[i].gen, dir[i].data);
      PaddedSpells(dir[i].name, name);
    }
  }

  function FirstMatch(es: seq<Entry>, name: CString): (i: nat)
    ensures i <= |es| && (i < |es| ==> Matches(es[i], name))
    ensures forall j :: 0 <= j < i ==> !Matches(es[j], name)
  {
    if es == [] || Matches(es[0], name) then 0 else 1 + FirstMatch(es[1..], name)
  }

  datatype ReadOutcome = NotFound | Corrupt | Bytes(data: seq<uint8>)

  /** What a mount followed by a read yields. */
  function ReadFile(d: Blocks, fs: Fs, name: CString): ReadOutcome
    requires OnCard(d, fs)
  {
    var es := Loaded(d, fs);
    var i := FirstMatch(es, name);
    if i == |es| then NotFound
    else match ReadRecord(d, es[i], name) case None => Corrupt case Some(data) => Bytes(data)
  }

  /** Reading is looking up in the map. */
  lemma ReadIsLookup(d: Blocks, fs: Fs, dir: seq<Slot>, name: CString)
    requires Readable(d, fs, dir) && NameValid(name)
    ensures ReadFile(d, fs, name)
            == if name in FilesOf(dir) then Bytes(FilesOf(dir)[name].data) else NotFound
  {
    hide Matches, FilesOf, NewEntry, ReadRecord, EntryOf, LoadEntry, FirstMatch, At, CopiesUsable;
    FilesAre(dir);
    var es := Loaded(d, fs);
    forall i | 0 <= i < ON_CARD
      ensures Matches(es[i], name) <==> dir[i].Used? && dir[i].name == name
    {
      LoadedSlot(d, fs, dir, i, name);
    }
    var i := FirstMatch(es, name);
    if i < ON_CARD {
      LoadedSlot(d, fs, dir, i, name);
      assert SlotHolds(d, fs, i, dir[i]) && SlotValid(fs, dir[i]);
      ReadOfRecord(d, name, dir[i].lba, dir[i].gen, dir[i].data);
    }
  }

  // Frames

  /** A slot is untouched when its index block and its record are. */
  lemma SlotFrame(d: Blocks, d': Blocks, fs: Fs, i: nat, s: Slot)
    requires OnCard(d, fs) && |d'| == |d| && i < ON_CARD && SlotValid(fs, s) && SlotHolds(d, fs, i, s)
    requires EntryOf(d', fs, i) == EntryOf(d, fs, i)
    requires s.Used? ==> forall b :: s.lba <= b < s.lba + RecordCount(s.data) ==> d'[b] == d[b]
    ensures SlotHolds(d', fs, i, s)
  {
    hide EntryOf, NewEntry, RecordBlocks;
    if s.Used? {
      RecordBlocksCount(s.name, s.gen, s.data);
      var bs := RecordBlocks(s.name, s.gen, s.data);
      assert forall k :: 0 <= k < |bs| ==> d'[s.lba + k] == d[s.lba + k] == bs[k];
    }
  }

  lemma EntryFrame(d: Blocks, d': Blocks, fs: Fs, i: nat)
    requires OnCard(d, fs) && |d'| == |d| && i < ON_CARD
    requires forall b :: fs.start + INDEX_OFF <= b < fs.start + DATA_OFF ==> d'[b] == d[b]
    ensures EntryOf(d', fs, i) == EntryOf(d, fs, i)
  {
    hide EntryAt;
    assert fs.start + INDEX_OFF <= fs.start + INDEX_OFF + i / ENTRIES_PER_BLOCK < fs.start + DATA_OFF;
  }

  // Damage

  lemma CoveredInside(lba: nat, data: seq<uint8>, b: nat, k: nat)
    requires Covered(lba, RecordCount(data), |data|, b, k)
    ensures lba <= b < lba + RecordCount(data)
  {
  }

  lemma LoadedFrame(d: Blocks, d': Blocks, fs: Fs)
    requires OnCard(d, fs) && |d'| == |d|
    requires forall b :: fs.start + INDEX_OFF <= b < fs.start + DATA_OFF ==> d'[b] == d[b]
    ensures Loaded(d', fs) == Loaded(d, fs)
  {
    hide EntryOf, LoadEntry;
    forall i | 0 <= i < ON_CARD
      ensures Loaded(d', fs)[i] == Loaded(d, fs)[i]
    {
      EntryFrame(d, d', fs, i);
    }
  }

  /** Where a name is found in memory: at its slot. */
  lemma FoundAt(d: Blocks, fs: Fs, dir: seq<Slot>, name: CString)
    requires Readable(d, fs, dir) && NameValid(name)
    ensures var es := Loaded(d, fs);
            var i := FirstMatch(es, name);
            && (i < ON_CARD ==> dir[i].Used? && dir[i].name == name
                                && es[i] == NewEntry(name, dir[i].lba, dir[i].gen, dir[i].data))
            && (forall j :: 0 <= j < ON_CARD && dir[j].Used? && dir[j].name == name ==> i == j)
  {
    hide Matches, NewEntry, EntryOf, LoadEntry, FirstMatch, SlotHolds, CopiesUsable;
    var es := Loaded(d, fs);
    forall i | 0 <= i < ON_CARD
      ensures Matches(es[i], name) <==> dir[i].Used? && dir[i].name == name
      ensures Matches(es[i], name) ==> es[i] == NewEntry(name, dir[i].lba, dir[i].gen, dir[i].data)
    {
      LoadedSlot(d, fs, dir, i, name);
    }
  }

  /** The record of one slot before and after damage to another block. */
  lemma SpareRecord(d: Blocks, d': Blocks, fs: Fs, j: nat, s: Slot)
    requires OnCard(d, fs) && |d'| == |d| && j < ON_CARD && s.Used? && SlotValid(fs, s) && SlotHolds(d, fs, j, s)
    requires EntryOf(d', fs, j) == EntryOf(d, fs, j)
    requires forall b :: s.lba <= b < s.lba + RecordCount(s.data) ==> d'[b] == d[b]
    ensures ReadRecord(d', NewEntry(s.name, s.lba, s.gen, s.data), s.name) == Some(s.data)
  {
    hide EntryOf, NewEntry, RecordBlocks, ReadRecord, At;
    SlotFrame(d, d', fs, j, s);
    ReadOfRecord(d', s.name, s.lba, s.gen, s.data);
  }

  lemma SpoiltRecord(d: Blocks, d': Blocks, s: Slot, b: nat, k: nat)
    requires s.Used? && NameValid(s.name) && |s.data| + 2 < TWO_32 && At(d, s.lba, RecordBlocks(s.name, s.gen, s.data))
    requires Damaged(d, d', b, k) && Covered(s.lba, RecordCount(s.data), |s.data|, b, k)
    ensures ReadRecord(d', NewEntry(s.name, s.lba, s.gen, s.data), s.name) == None
  {
    hide NewEntry, RecordBlocks, At, ReadRecordAt, DifferAt, Covered, LoadEntry, EntryOk, NameBytes, Padded, Fnv.Checksum;
    ReadOfRecord(d, s.name, s.lba, s.gen, s.data);
    NewEntryReads(s.name, s.lba, s.gen, s.data);
    DamagedRecordRefused(d, d', s.lba, RecordCount(s.data), NameHash(s.name), s.gen, |s.data|, Fnv.Checksum(s.data), b, k);
  }

  /** One changed byte in a file's record makes exactly that file read as corrupt: every other name reads as before. */
  lemma DamagedFileCorrupt(d: Blocks, d': Blocks, fs: Fs, dir: seq<Slot>, i: nat, b: nat, k: nat, name: CString)
    requires Consistent(d, fs, dir) && i < ON_CARD && dir[i].Used? && NameValid(name)
    requires Damaged(d, d', b, k) && Covered(dir[i].lba, RecordCount(dir[i].data), |dir[i].data|, b, k)
    ensures ReadFile(d', fs, name) == if name == dir[i].name then Corrupt else ReadFile(d, fs, name)
  {
    hide Loaded, FirstMatch, ReadRecord, CopiesUsable, Distinct, BestSuper, DifferAt, NewEntry, RecordBlocks, At, Covered,
      EntryOf, RecordCount;
    var s := dir[i];
    assert SlotValid(fs, s) && SlotHolds(d, fs, i, s);
    CoveredInside(s.lba, s.data, b, k);
    LoadedFrame(d, d', fs);
    FoundAt(d, fs, dir, name);
    SpoiltRecord(d, d', s, b, k);
    var j := FirstMatch(Loaded(d, fs), name);
    if j < ON_CARD && j != i {
      assert SlotValid(fs, dir[j]) && SlotHolds(d, fs, j, dir[j]);
      EntryFrame(d, d', fs, j);
      SpareRecord(d, d', fs, j, dir[j]);
      SpareRecord(d, d, fs, j, dir[j]);
    }
  }

  // Writing a file

  /** The new slot of a file written now: its record goes to the free pointer. */
  function NewSlot(super: Block, prior: Slot, name: CString, data: seq<uint8>): Slot {
    Used(name, super[10], if prior.Used? then (prior.gen + 1) % TWO_32 else 1, data)
  }

  /** The record fits between the free pointer and the end of the region. */
  predicate Room(super: Block, data: seq<uint8>) {
    super[10] + RecordCount(data) <= super[3] as int + super[4]
  }

  function IndexWrite(d: Blocks, fs: Fs, i: nat, s: Slot): Write
    requires OnCard(d, fs) && i < ON_CARD && s.Used? && NameValid(s.name) && |s.data| + 2 < TWO_32
  {
    var b := fs.start + INDEX_OFF + i / ENTRIES_PER_BLOCK;
    Write(b, WithEntry(d[b], i % ENTRIES_PER_BLOCK, NewEntry(s.name, s.lba, s.gen, s.data)))
  }

  function SuperWrites(fs: Fs, super: Block): seq<Write> {
    [Write(fs.start, super), Write(fs.start + 1, super)]
  }

  /** The block writes of one successful file write into slot i, in order. */
  function FileWrites(d: Blocks, fs: Fs, super: Block, i: nat, s: Slot): seq<Write>
    requires OnCard(d, fs) && i < ON_CARD && s.Used? && NameValid(s.name) && |s.data| + 2 < TWO_32
    requires super[10] + RecordCount(s.data) < TWO_32
  {
    Run(s.lba, RecordBlocks(s.name, s.gen, s.data)) + [IndexWrite(d, fs, i, s)]
    + SuperWrites(fs, NextSuper(super, RecordCount(s.data)))
  }

  /** A write of name with the given data from a consistent card, directed at slot i. */
  predicate Writing(d: Blocks, fs: Fs, dir: seq<Slot>, i: nat, name: CString, data: seq<uint8>) {
    && Consistent(d, fs, dir) && NameValid(name) && |data| + 2 < TWO_32
    && Target(dir, i, name) && Room(BestSuper(d, fs), data)
  }

  lemma BestIsUsable(d: Blocks, fs: Fs)
    requires OnCard(d, fs) && CopiesUsable(d, fs)
    ensures var s := BestSuper(d, fs);
            Usable(s, fs) && s[10] <= s[3] + s[4] <= fs.start + fs.blocks < TWO_32 && fs.start + DATA_OFF <= s[10]
  {
    hide SealOk;
  }

  lemma NewSlotValid(d: Blocks, fs: Fs, dir: seq<Slot>, i: nat, name: CString, data: seq<uint8>)
    requires Writing(d, fs, dir, i, name, data)
    ensures var super := BestSuper(d, fs);
            SlotValid(fs, NewSlot(super, dir[i], name, data)) && super[10] + RecordCount(data) < TWO_32
  {
    hide SealOk, BestSuper, RecordCount, CopiesUsable, Packed;
    assert CopiesUsable(d, fs);
    BestIsUsable(d, fs);
  }

  /** While the record is being appended, the card still reads as before. */
  lemma RecordPhase(d: Blocks, fs: Fs, dir: seq<Slot>, i: nat, name: CString, data: seq<uint8>, k: nat)
    requires Writing(d, fs, dir, i, name, data)
    requires var s := NewSlot(BestSuper(d, fs), dir[i], name, data); k <= |RecordBlocks(s.name, s.gen, s.data)|
    ensures var s := NewSlot(BestSuper(d, fs), dir[i], name, data);
            Readable(Apply(d, Run(s.lba, RecordBlocks(s.name, s.gen, s.data))[..k]), fs, dir)
  {
    var s := NewSlot(BestSuper(d, fs), dir[i], name, data);
    var ws := Run(s.lba, RecordBlocks(s.name, s.gen, s.data))[..k];
    var d' := Apply(d, ws);
    NewSlotValid(d, fs, dir, i, name, data);
    RecordBlocksCount(s.name, s.gen, s.data);
    hide Apply, RecordBlocks, SuperOk, RecordCount, EntryOf, SlotHolds;
    forall b | 0 <= b < |d| && !(s.lba <= b < s.lba + RecordCount(data))
      ensures d'[b] == d[b]
    {
      ApplyFrame(d, ws, b);
    }
    forall j | 0 <= j < ON_CARD
      ensures SlotHolds(d', fs, j, dir[j])
    {
      assert SlotHolds(d, fs, j, dir[j]) && Below(dir[j], s.lba);
      EntryFrame(d, d', fs, j);
      SlotFrame(d, d', fs, j, dir[j]);
    }
  }

  /** Replacing a superblock copy, by a usable one or by garbage, keeps the card readable as long as a valid
      copy remains. */
  lemma SuperReplaced(d: Blocks, fs: Fs, dir: seq<Slot>, c: nat, b: Block)
    requires Readable(d, fs, dir) && c <= 1
    requires (SuperOk(b) ==> Usable(b, fs)) && (SuperOk(b) || SuperOk(d[fs.start + 1 - c]))
    ensures Readable(d[fs.start + c := b], fs, dir)
  {
    hide SuperOk, EntryOf, SlotHolds;
    var d' := d[fs.start + c := b];
    forall j | 0 <= j < ON_CARD
      ensures SlotHolds(d', fs, j, dir[j])
    {
      assert SlotHolds(d, fs, j, dir[j]);
      EntryFrame(d, d', fs, j);
      SlotFrame(d, d', fs, j, dir[j]);
    }
  }

  /** Once the record is complete, rewriting the index entry switches exactly this file to it. */
  lemma IndexPhase(d: Blocks, d1: Blocks, fs: Fs, dir: seq<Slot>, i: nat, s: Slot)
    requires Readable(d1, fs, dir) && i < ON_CARD && s.Used? && SlotValid(fs, s) && Target(dir, i, s.name)
    requires OnCard(d, fs) && |d| == |d1|
    requires forall b :: fs.start + INDEX_OFF <= b < fs.start + DATA_OFF ==> d1[b] == d[b]
    requires At(d1, s.lba, RecordBlocks(s.name, s.gen, s.data))
    ensures var w := IndexWrite(d, fs, i, s);
            w.lba < |d| && Readable(d1[w.lba := w.data], fs, dir[i := s])
  {
    hide EntryOf, SlotHolds, SuperOk, IndexWrite, RecordBlocks, NewEntry, Distinct, Target, RecordCount, At;
    var w := IndexWrite(d, fs, i, s);
    IndexWritePlace(d, fs, i, s);
    var d', dir' := d1[w.lba := w.data], dir[i := s];
    DistinctUpdate(dir, i, s);
    forall j | 0 <= j < ON_CARD
      ensures SlotHolds(d', fs, j, dir'[j])
    {
      EntryAfter(d, d1, fs, i, s, j);
      if j != i {
        assert SlotHolds(d1, fs, j, dir[j]);
        SlotFrame(d1, d', fs, j, dir[j]);
      } else {
        NewSlotHolds(d1, d', fs, i, s);
      }
    }
  }

  lemma NewSlotHolds(d1: Blocks, d': Blocks, fs: Fs, i: nat, s: Slot)
    requires OnCard(d1, fs) && |d'| == |d1| && i < ON_CARD && s.Used? && SlotValid(fs, s)
    requires At(d1, s.lba, RecordBlocks(s.name, s.gen, s.data))
    requires forall b :: fs.start + DATA_OFF <= b < |d1| ==> d'[b] == d1[b]
    requires EntryOf(d', fs, i) == NewEntry(s.name, s.lba, s.gen, s.data)
    ensures SlotHolds(d', fs, i, s)
  {
    hide EntryOf, NewEntry, RecordBlocks;
    var bs := RecordBlocks(s.name, s.gen, s.data);
    assert forall k :: 0 <= k < |bs| ==> d'[s.lba + k] == d1[s.lba + k] == bs[k];
  }

  lemma EntryAfter(d: Blocks, d1: Blocks, fs: Fs, i: nat, s: Slot, j: nat)
    requires OnCard(d, fs) && |d| == |d1| && i < ON_CARD && s.Used? && NameValid(s.name) && |s.data| + 2 < TWO_32
    requires (forall b :: fs.start + INDEX_OFF <= b < fs.start + DATA_OFF ==> d1[b] == d[b]) && j < ON_CARD
    ensures var w := IndexWrite(d, fs, i, s);
            EntryOf(d1[w.lba := w.data], fs, j) == if j == i then NewEntry(s.name, s.lba, s.gen, s.data) else EntryOf(d1, fs, j)
  {
    hide NewEntry, WithEntry, EntryAt;
    var w := IndexWrite(d, fs, i, s);
    if j / ENTRIES_PER_BLOCK == i / ENTRIES_PER_BLOCK {
      WithEntryAt(d[w.lba], i % ENTRIES_PER_BLOCK, NewEntry(s.name, s.lba, s.gen, s.data), j % ENTRIES_PER_BLOCK);
    }
  }

  /** The card after the first k block writes of a file write. */
  function Crashed(d: Blocks, fs: Fs, dir: seq<Slot>, i: nat, name: CString, data: seq<uint8>, k: nat): Blocks
    requires Writing(d, fs, dir, i, name, data)
  {
    NewSlotValid(d, fs, dir, i, name, data);
    var ws := FileWrites(d, fs, BestSuper(d, fs), i, NewSlot(BestSuper(d, fs), dir[i], name, data));
    Apply(d, ws[..Min(k, |ws|)])
  }

  /** The directory after them: the old one until the index write, the new one from then on. */
  function CrashedDir(d: Blocks, fs: Fs, dir: seq<Slot>, i: nat, name: CString, data: seq<uint8>, k: nat): seq<Slot>
    requires OnCard(d, fs) && i < |dir|
  {
    if k <= RecordCount(data) then dir else dir[i := NewSlot(BestSuper(d, fs), dir[i], name, data)]
  }

  /** The four stages of a prefix of the writes. */
  lemma PrefixStages(rec: seq<Write>, idx: Write, a: Write, b: Write, d: Blocks, k: nat)
    requires idx.lba < |d| && a.lba < |d| && b.lba < |d|
    ensures var n, ws := |rec|, rec + [idx] + [a, b];
            var d1 := Apply(d, rec);
            && (k <= n ==> Apply(d, ws[..k]) == Apply(d, rec[..k]))
            && (k == n + 1 ==> Apply(d, ws[..k]) == d1[idx.lba := idx.data])
            && (k == n + 2 ==> Apply(d, ws[..k]) == d1[idx.lba := idx.data][a.lba := a.data])
            && (k == n + 3 ==> Apply(d, ws[..k]) == d1[idx.lba := idx.data][a.lba := a.data][b.lba := b.data])
  {
    var n, ws := |rec|, rec + [idx] + [a] + [b];
    assert ws == rec + [idx] + [a, b];
    hide Apply;
    if k <= n {
      assert ws[..k] == rec[..k];
    } else if k == n + 1 {
      assert ws[..k] == rec + [idx];
      ApplyOne(d, rec, idx);
    } else if k == n + 2 {
      assert ws[..k] == rec + [idx] + [a];
      ApplyOne(d, rec, idx);
      ApplyOne(d, rec + [idx], a);
    } else if k == n + 3 {
      assert ws[..k] == rec + [idx] + [a] + [b];
      ApplyOne(d, rec, idx);
      ApplyOne(d, rec + [idx], a);
      ApplyOne(d, rec + [idx] + [a], b);
    }
  }

  /** The card after the record and the index entry are written reads as the new directory. */
  lemma SwitchedCard(d: Blocks, fs: Fs, dir: seq<Slot>, i: nat, name: CString, data: seq<uint8>)
    requires Writing(d, fs, dir, i, name, data)
    ensures var s := NewSlot(BestSuper(d, fs), dir[i], name, data);
            && SlotValid(fs, s)
            && var d1, w := Apply(d, Run(s.lba, RecordBlocks(s.name, s.gen, s.data))), IndexWrite(d, fs, i, s);
               w.lba < |d| && Readable(d1[w.lba := w.data], fs, dir[i := s])
               && (forall b :: fs.start <= b < fs.start + INDEX_OFF ==> d1[w.lba := w.data][b] == d[b])
  {
    hide RecordBlocks, Apply, Readable, IndexWrite, RecordCount, Packed, BestSuper, Distinct;
    NewSlotValid(d, fs, dir, i, name, data);
    WritingOnCard(d, fs, dir, i, name, data);
    var s := NewSlot(BestSuper(d, fs), dir[i], name, data);
    var bs := RecordBlocks(s.name, s.gen, s.data);
    var rec := Run(s.lba, bs);
    RecordBlocksCount(s.name, s.gen, s.data);
    RecordPhase(d, fs, dir, i, name, data, |bs|);
    assert rec[..|bs|] == rec;
    ApplyRun(d, s.lba, bs);
    IndexPhase(d, Apply(d, rec), fs, dir, i, s);
    IndexWritePlace(d, fs, i, s);
  }

  lemma WritingOnCard(d: Blocks, fs: Fs, dir: seq<Slot>, i: nat, name: CString, data: seq<uint8>)
    requires Writing(d, fs, dir, i, name, data)
    ensures OnCard(d, fs) && CopiesUsable(d, fs) && |dir| == ON_CARD && i < ON_CARD && Target(dir, i, name)
  {
  }

  lemma IndexWritePlace(d: Blocks, fs: Fs, i: nat, s: Slot)
    requires OnCard(d, fs) && i < ON_CARD && s.Used? && NameValid(s.name) && |s.data| + 2 < TWO_32
    ensures fs.start + INDEX_OFF <= IndexWrite(d, fs, i, s).lba < fs.start + DATA_OFF
  {
  }

  lemma NextSuperUsable(fs: Fs, b: Block, n: nat)
    requires Usable(b, fs) && b[10] + n <= b[3] as int + b[4] && b[10] + n < TWO_32
    ensures Usable(NextSuper(b, n), fs)
  {
    hide SealOk, NextSuper;
  }

  /** The card once the record and the index entry are written. */
  function Switched(d: Blocks, fs: Fs, dir: seq<Slot>, i: nat, name: CString, data: seq<uint8>): (r: Blocks)
    requires Writing(d, fs, dir, i, name, data)
    ensures |r| == |d|
  {
    NewSlotValid(d, fs, dir, i, name, data);
    WritingOnCard(d, fs, dir, i, name, data);
    var s := NewSlot(BestSuper(d, fs), dir[i], name, data);
    IndexWritePlace(d, fs, i, s);
    var w := IndexWrite(d, fs, i, s);
    Apply(d, Run(s.lba, RecordBlocks(s.name, s.gen, s.data)))[w.lba := w.data]
  }

  lemma CrashStages(d: Blocks, fs: Fs, dir: seq<Slot>, i: nat, name: CString, data: seq<uint8>, k: nat)
    requires Writing(d, fs, dir, i, name, data) && k <= RecordCount(data) + 3
    ensures OnCard(d, fs) && BestSuper(d, fs)[10] + RecordCount(data) < TWO_32
    ensures var s, n := NewSlot(BestSuper(d, fs), dir[i], name, data), RecordCount(data);
            var d', d2, super' := Crashed(d, fs, dir, i, name, data, k), Switched(d, fs, dir, i, name, data), NextSuper(BestSuper(d, fs), n);
            && (k <= n ==> |RecordBlocks(s.name, s.gen, s.data)| == n
                           && d' == Apply(d, Run(s.lba, RecordBlocks(s.name, s.gen, s.data))[..k]))
            && (k == n + 1 ==> d' == d2)
            && (k == n + 2 ==> d' == d2[fs.start := super'])
            && (k == n + 3 ==> d' == d2[fs.start := super'][fs.start + 1 := super'])
  {
    hide RecordBlocks, Apply, IndexWrite, RecordCount, BestSuper, NextSuper, Consistent;
    NewSlotValid(d, fs, dir, i, name, data);
    WritingOnCard(d, fs, dir, i, name, data);
    var super := BestSuper(d, fs);
    var s, super' := NewSlot(super, dir[i], name, data), NextSuper(super, RecordCount(data));
    var rec, idx := Run(s.lba, RecordBlocks(s.name, s.gen, s.data)), IndexWrite(d, fs, i, s);
    RecordBlocksCount(s.name, s.gen, s.data);
    IndexWritePlace(d, fs, i, s);
    PrefixStages(rec, idx, Write(fs.start, super'), Write(fs.start + 1, super'), d, k);
  }

  /** Write atomicity: after any prefix of the block writes the card reads as the old directory or, from the
      index write on, as the new one. */
  lemma CrashReadable(d: Blocks, fs: Fs, dir: seq<Slot>, i: nat, name: CString, data: seq<uint8>, k: nat)
    requires Writing(d, fs, dir, i, name, data) && k <= RecordCount(data) + 3
    ensures Readable(Crashed(d, fs, dir, i, name, data, k), fs, CrashedDir(d, fs, dir, i, name, data, k))
  {
    hide Crashed, Switched, Apply, RecordBlocks, Readable, RecordCount, BestSuper, NextSuper, CopiesUsable, SealOk, Packed, Usable;
    WritingOnCard(d, fs, dir, i, name, data);
    CrashStages(d, fs, dir, i, name, data, k);
    var n, super := RecordCount(data), BestSuper(d, fs);
    if k <= n {
      RecordPhase(d, fs, dir, i, name, data, k);
    } else {
      SwitchedReadable(d, fs, dir, i, name, data);
      BestIsUsable(d, fs);
      NextSuperFits(d, fs, dir, i, name, data);
      var d2, dir', super' := Switched(d, fs, dir, i, name, data), CrashedDir(d, fs, dir, i, name, data, k), NextSuper(super, n);
      UsableIsOk(super', fs);
      if k >= n + 2 {
        SuperReplaced(d2, fs, dir', 0, super');
      }
      if k == n + 3 {
        SuperReplaced(d2[fs.start := super'], fs, dir', 1, super');
      }
    }
  }

  lemma UsableIsOk(b: Block, fs: Fs)
    requires Usable(b, fs)
    ensures SuperOk(b)
  {
  }

  lemma NextSuperFits(d: Blocks, fs: Fs, dir: seq<Slot>, i: nat, name: CString, data: seq<uint8>)
    requires Writing(d, fs, dir, i, name, data)
    ensures OnCard(d, fs) && BestSuper(d, fs)[10] + RecordCount(data) < TWO_32
    ensures Usable(NextSuper(BestSuper(d, fs), RecordCount(data)), fs)
  {
    hide BestSuper, NextSuper, RecordCount, SuperOk, Consistent, Usable;
    NewSlotValid(d, fs, dir, i, name, data);
    WritingOnCard(d, fs, dir, i, name, data);
    BestIsUsable(d, fs);
    NextSuperUsable(fs, BestSuper(d, fs), RecordCount(data));
  }

  lemma SwitchedReadable(d: Blocks, fs: Fs, dir: seq<Slot>, i: nat, name: CString, data: seq<uint8>)
    requires Writing(d, fs, dir, i, name, data)
    ensures OnCard(d, fs) && Readable(Switched(d, fs, dir, i, name, data), fs, dir[i := NewSlot(BestSuper(d, fs), dir[i], name, data)])
    ensures forall b :: fs.start <= b < fs.start + INDEX_OFF ==> Switched(d, fs, dir, i, name, data)[b] == d[b]
  {
    hide RecordBlocks, Apply, Readable, IndexWrite, RecordCount, BestSuper, Consistent;
    WritingOnCard(d, fs, dir, i, name, data);
    SwitchedCard(d, fs, dir, i, name, data);
  }

  /** For every crash point and whichever superblock copy is lost: the written name reads as its old or its
      new content, every other name as before. */
  lemma CrashAtomic(d: Blocks, fs: Fs, dir: seq<Slot>, i: nat, name: CString, data: seq<uint8>, k: nat,
                    lost: Option<nat>, garbage: Block, other: CString)
    requires Writing(d, fs, dir, i, name, data) && k <= RecordCount(data) + 3 && NameValid(other)
    requires lost.Some? ==> lost.value <= 1 && !SuperOk(garbage)
                            && SuperOk(Crashed(d, fs, dir, i, name, data, k)[fs.start + 1 - lost.value])
    ensures var d' := Crashed(d, fs, dir, i, name, data, k);
            var d'' := if lost.Some? then d'[fs.start + lost.value := garbage] else d';
            && OnCard(d'', fs) && CopiesUsable(d'', fs)
            && ReadFile(d'', fs, other)
               == if k > RecordCount(data) && other == name then Bytes(data) else ReadFile(d, fs, other)
  {
    hide Crashed, Readable, RecordCount, BestSuper, SuperOk, Packed, ReadFile, FilesOf, Target;
    WritingOnCard(d, fs, dir, i, name, data);
    CrashReadable(d, fs, dir, i, name, data, k);
    var d', dir' := Crashed(d, fs, dir, i, name, data, k), CrashedDir(d, fs, dir, i, name, data, k);
    ReadableBasics(d', fs, dir');
    if lost.Some? {
      SuperReplaced(d', fs, dir', lost.value, garbage);
    }
    var d'' := if lost.Some? then d'[fs.start + lost.value := garbage] else d';
    ReadableBasics(d'', fs, dir');
    ReadableBasics(d, fs, dir);
    ReadIsLookup(d, fs, dir, other);
    ReadIsLookup(d'', fs, dir', other);
    if k > RecordCount(data) {
      FilesUpdate(dir, i, NewSlot(BestSuper(d, fs), dir[i], name, data));
    }
  }

  lemma ReadableBasics(d: Blocks, fs: Fs, dir: seq<Slot>)
    requires Readable(d, fs, dir)
    ensures OnCard(d, fs) && CopiesUsable(d, fs) && |dir| == ON_CARD && Distinct(dir)
  {
  }

  // Completed writes

  /** A completed write keeps the store consistent and updates the map at exactly this name. */
  lemma WriteRefinesMap(d: Blocks, fs: Fs, dir: seq<Slot>, i: nat, name: CString, data: seq<uint8>)
    requires Writing(d, fs, dir, i, name, data)
    ensures var d' := Crashed(d, fs, dir, i, name, data, RecordCount(data) + 3);
            var s := NewSlot(BestSuper(d, fs), dir[i], name, data);
            && Consistent(d', fs, dir[i := s]) && BestSuper(d', fs)[10] == BestSuper(d, fs)[10] + RecordCount(data)
            && BestSuper(d', fs)[3] as int + BestSuper(d', fs)[4] == BestSuper(d, fs)[3] as int + BestSuper(d, fs)[4]
            && FilesOf(dir[i := s]) == FilesOf(dir)[name := File(data, s.gen)]
  {
    hide Crashed, Switched, Readable, RecordCount, NextSuper, FilesOf, Target, SuperOk;
    WritingOnCard(d, fs, dir, i, name, data);
    var n, super := RecordCount(data), BestSuper(d, fs);
    ReadableBasics(d, fs, dir);
    CrashReadable(d, fs, dir, i, name, data, n + 3);
    CrashStages(d, fs, dir, i, name, data, n + 3);
    var s, super' := NewSlot(super, dir[i], name, data), NextSuper(super, n);
    FilesUpdate(dir, i, s);
    BothCopies(Crashed(d, fs, dir, i, name, data, n + 3), fs, super');
    PackedNext(super, super', dir, i, s);
  }

  lemma PackedNext(super: Block, super': Block, dir: seq<Slot>, i: nat, s: Slot)
    requires Packed(super, dir) && i < |dir| && s.Used? && s.lba == super[10]
    requires super'[10] == super[10] + RecordCount(s.data)
    ensures Packed(super', dir[i := s])
  {
    hide RecordCount;
    var dir' := dir[i := s];
    assert forall j :: 0 <= j < |dir| ==> Below(dir[j], super[10]);
    assert forall j :: 0 <= j < |dir| && j != i ==> dir'[j] == dir[j];
  }

  lemma BothCopies(d: Blocks, fs: Fs, b: Block)
    requires OnCard(d, fs) && d[fs.start] == b == d[fs.start + 1]
    ensures BestSuper(d, fs) == b
  {
  }

  // Which crash points leave the store fit for further writes

  lemma BestFrame(d: Blocks, d': Blocks, fs: Fs)
    requires OnCard(d, fs) && |d'| == |d| && d'[fs.start] == d[fs.start] && d'[fs.start + 1] == d[fs.start + 1]
    ensures BestSuper(d', fs) == BestSuper(d, fs)
  {
  }

  /** The first copy is rewritten after its generation wrapped to zero, and a valid second copy outranks it. */
  predicate OldCopyWins(d: Blocks, fs: Fs)
    requires OnCard(d, fs)
  {
    BestSuper(d, fs)[2] == TWO_32 - 1 && SuperOk(d[fs.start + 1]) && d[fs.start + 1][2] > 0
  }

  lemma FirstCopyRewritten(d: Blocks, d': Blocks, fs: Fs, n: nat)
    requires OnCard(d, fs) && CopiesUsable(d, fs) && |d'| == |d| && BestSuper(d, fs)[10] + n < TWO_32
    requires d'[fs.start] == NextSuper(BestSuper(d, fs), n) && d'[fs.start + 1] == d[fs.start + 1]
    requires SuperOk(NextSuper(BestSuper(d, fs), n))
    ensures BestSuper(d', fs) == if OldCopyWins(d, fs) then d[fs.start + 1] else NextSuper(BestSuper(d, fs), n)
  {
    hide SealOk;
  }

  /** After a crash the free pointer lies past all live records at every crash point but two: between the index
      write and the first superblock write; and between the two superblock writes when the generation wrapped to
      zero, so that the old second copy, whose free pointer is behind the new record, outranks the new first one. */
  lemma CrashConsistentExactly(d: Blocks, fs: Fs, dir: seq<Slot>, i: nat, name: CString, data: seq<uint8>, k: nat)
    requires Writing(d, fs, dir, i, name, data) && k <= RecordCount(data) + 3
    ensures OnCard(d, fs)
    ensures Consistent(Crashed(d, fs, dir, i, name, data, k), fs, CrashedDir(d, fs, dir, i, name, data, k))
            <==> k != RecordCount(data) + 1
                 && !(k == RecordCount(data) + 2 && OldCopyWins(d, fs)
                      && d[fs.start + 1][10] < BestSuper(d, fs)[10] + RecordCount(data))
  {
    hide Crashed, Switched, Readable, NextSuper, Target, SuperOk, BestSuper, RecordBlocks, Apply, Packed, RecordCount,
         OldCopyWins;
    WritingOnCard(d, fs, dir, i, name, data);
    CrashReadable(d, fs, dir, i, name, data, k);
    BestAfterCrash(d, fs, dir, i, name, data, k);
    var n, super := RecordCount(data), BestSuper(d, fs);
    var s := NewSlot(super, dir[i], name, data);
    if k > n {
      PackedNext(super, NextSuper(super, n), dir, i, s);
      if k == n + 1 {
        NotPacked(super, dir[i := s], i);
      } else if k == n + 2 && OldCopyWins(d, fs) {
        PackedAbove(NextSuper(super, n), d[fs.start + 1], dir[i := s], i);
      }
    }
  }

  /** Both copies agree, as after every completed write: the second failing crash point is exactly the wrap. */
  lemma CrashConsistentInStep(d: Blocks, fs: Fs, dir: seq<Slot>, i: nat, name: CString, data: seq<uint8>, k: nat)
    requires Writing(d, fs, dir, i, name, data) && k <= RecordCount(data) + 3
    requires OnCard(d, fs) && d[fs.start] == d[fs.start + 1]
    ensures Consistent(Crashed(d, fs, dir, i, name, data, k), fs, CrashedDir(d, fs, dir, i, name, data, k))
            <==> k != RecordCount(data) + 1 && !(k == RecordCount(data) + 2 && BestSuper(d, fs)[2] == TWO_32 - 1)
  {
    hide Crashed, Packed, Target, SealOk, Room;
    ConsistentUsable(d, fs, dir);
    CrashConsistentExactly(d, fs, dir, i, name, data, k);
    BothCopies(d, fs, d[fs.start]);
  }

  lemma ConsistentUsable(d: Blocks, fs: Fs, dir: seq<Slot>)
    requires Consistent(d, fs, dir)
    ensures OnCard(d, fs) && CopiesUsable(d, fs)
  {
  }

  /** Seen from a free pointer that may lie elsewhere, the records are packed exactly when it is past the last. */
  lemma PackedAbove(super: Block, other: Block, dir: seq<Slot>, i: nat)
    requires Packed(super, dir) && i < |dir| && dir[i].Used? && dir[i].lba + RecordCount(dir[i].data) == super[10]
    ensures Packed(other, dir) <==> other[10] >= super[10]
  {
    hide RecordCount;
    assert Below(dir[i], other[10]) <==> other[10] >= super[10];
    if other[10] >= super[10] {
      forall j | 0 <= j < |dir|
        ensures Below(dir[j], other[10])
      {
        assert Below(dir[j], super[10]);
      }
    }
  }

  lemma NotPacked(super: Block, dir: seq<Slot>, i: nat)
    requires i < |dir| && dir[i].Used? && dir[i].lba == super[10]
    ensures !Packed(super, dir)
  {
    assert !Below(dir[i], super[10]);
  }

  /** The copy a mount picks after each crash point. */
  lemma BestAfterCrash(d: Blocks, fs: Fs, dir: seq<Slot>, i: nat, name: CString, data: seq<uint8>, k: nat)
    requires Writing(d, fs, dir, i, name, data) && k <= RecordCount(data) + 3
    ensures OnCard(d, fs) && BestSuper(d, fs)[10] + RecordCount(data) < TWO_32
    ensures BestSuper(Crashed(d, fs, dir, i, name, data, k), fs)
            == if k <= RecordCount(data) + 1 then BestSuper(d, fs)
               else if k == RecordCount(data) + 2 && OldCopyWins(d, fs) then d[fs.start + 1]
               else NextSuper(BestSuper(d, fs), RecordCount(data))
  {
    hide Crashed, Switched, Readable, NextSuper, Target, SuperOk, BestSuper, RecordBlocks, Apply, Packed, RecordCount, Consistent,
         OldCopyWins;
    WritingOnCard(d, fs, dir, i, name, data);
    CrashStages(d, fs, dir, i, name, data, k);
    var n, super, d' := RecordCount(data), BestSuper(d, fs), Crashed(d, fs, dir, i, name, data, k);
    var s, super' := NewSlot(super, dir[i], name, data), NextSuper(super, n);
    NewSlotValid(d, fs, dir, i, name, data);
    if k <= n {
      RecordKeepsSupers(d, fs, s, k);
      BestFrame(d, d', fs);
    } else {
      SwitchedReadable(d, fs, dir, i, name, data);
      NextSuperFits(d, fs, dir, i, name, data);
      UsableIsOk(super', fs);
      if k == n + 1 {
        BestFrame(d, d', fs);
      } else if k == n + 2 {
        FirstCopyRewritten(d, d', fs, n);
      } else {
        BothCopies(d', fs, super');
      }
    }
  }

  lemma RecordKeepsSupers(d: Blocks, fs: Fs, s: Slot, k: nat)
    requires OnCard(d, fs) && s.Used? && SlotValid(fs, s) && k <= |RecordBlocks(s.name, s.gen, s.data)|
    ensures var d' := Apply(d, Run(s.lba, RecordBlocks(s.name, s.gen, s.data))[..k]);
            d'[fs.start] == d[fs.start] && d'[fs.start + 1] == d[fs.start + 1]
  {
    hide RecordBlocks, Apply;
    var ws := Run(s.lba, RecordBlocks(s.name, s.gen, s.data))[..k];
    ApplyFrame(d, ws, fs.start);
    ApplyFrame(d, ws, fs.start + 1);
  }

  // Formatting

  const BLANK: Block := WordBlock([])

  function FormatWrites(fs: Fs): seq<Write>
    requires fs.blocks > DATA_OFF && fs.start + fs.blocks < TWO_32
  {
    Run(fs.start + INDEX_OFF, [BLANK, BLANK, BLANK, BLANK]) + SuperWrites(fs, FreshSuper(fs.start, fs.blocks))
  }

  function EmptyDir(): (dir: seq<Slot>)
    ensures |dir| == ON_CARD && forall i :: 0 <= i < ON_CARD ==> dir[i] == Free
  {
    seq(ON_CARD, i => Free)
  }

  /** A formatted card is consistent and denotes the empty map. */
  lemma FormatIsEmpty(d: Blocks, fs: Fs)
    requires OnCard(d, fs)
    ensures Consistent(Apply(d, FormatWrites(fs)), fs, EmptyDir()) && FilesOf(EmptyDir()) == map[]
    ensures BestSuper(Apply(d, FormatWrites(fs)), fs) == FreshSuper(fs.start, fs.blocks)
  {
    hide Apply, SealOk, FreshSuper, FilesOf;
    var ws, d', super := FormatWrites(fs), Apply(d, FormatWrites(fs)), FreshSuper(fs.start, fs.blocks);
    ApplyHit(d, ws, 4);
    ApplyHit(d, ws, 5);
    BothCopies(d', fs, super);
    FilesAre(EmptyDir());
    forall i | 0 <= i < ON_CARD
      ensures SlotHolds(d', fs, i, Free)
    {
      var b := i / ENTRIES_PER_BLOCK;
      assert ws[b] == Write(fs.start + INDEX_OFF + b, BLANK);
      ApplyHit(d, ws, b);
      assert forall k :: 0 <= k < BLOCK_WORDS ==> BLANK[k] == 0;
    }
  }

  // Cards on which a crash leaves the free pointer behind

  /** A formatted region whose superblocks have reached the given generation. */
  function EmptyCard(d: Blocks, fs: Fs, gen: uint32): (d': Blocks)
    requires OnCard(d, fs)
    ensures |d'| == |d|
  {
    var super := EmptySuper(fs.start, fs.blocks, gen);
    Apply(d, FormatWrites(fs))[fs.start := super][fs.start + 1 := super]
  }

  lemma EmptyCardConsistent(d: Blocks, fs: Fs, gen: uint32)
    requires OnCard(d, fs)
    ensures Consistent(EmptyCard(d, fs, gen), fs, EmptyDir())
    ensures BestSuper(EmptyCard(d, fs, gen), fs) == EmptySuper(fs.start, fs.blocks, gen)
  {
    hide Apply, SealOk, EmptySuper, Readable, FilesOf;
    FormatIsEmpty(d, fs);
    var d0, super := Apply(d, FormatWrites(fs)), EmptySuper(fs.start, fs.blocks, gen);
    SuperReplaced(d0, fs, EmptyDir(), 0, super);
    SuperReplaced(d0[fs.start := super], fs, EmptyDir(), 1, super);
    BothCopies(EmptyCard(d, fs, gen), fs, super);
  }

  /** The cases that fail: the first write to an empty region, cut after its index write; and the first write after the
      last generation, cut between its two superblock writes. */
  lemma UnsafeCrashPoints(d: Blocks, fs: Fs, gen: uint32, name: CString, data: seq<uint8>)
    requires OnCard(d, fs) && NameValid(name) && |data| + 2 < TWO_32 && DATA_OFF + RecordCount(data) <= fs.blocks
    ensures var e, dir, n := EmptyCard(d, fs, gen), EmptyDir(), RecordCount(data);
            && Writing(e, fs, dir, 0, name, data)
            && !Consistent(Crashed(e, fs, dir, 0, name, data, n + 1), fs, CrashedDir(e, fs, dir, 0, name, data, n + 1))
            && (gen == TWO_32 - 1 ==>
                  !Consistent(Crashed(e, fs, dir, 0, name, data, n + 2), fs, CrashedDir(e, fs, dir, 0, name, data, n + 2)))
  {
    hide Crashed, EmptySuper, Consistent, RecordCount, BestSuper, Apply, SealOk;
    EmptyCardConsistent(d, fs, gen);
    var e, dir, n := EmptyCard(d, fs, gen), EmptyDir(), RecordCount(data);
    assert Target(dir, 0, name);
    CrashConsistentInStep(e, fs, dir, 0, name, data, n + 1);
    CrashConsistentInStep(e, fs, dir, 0, name, data, n + 2);
  }
}
