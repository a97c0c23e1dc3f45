/** The file store's operations: mount or format, write, read and list, and every run of them. */
module Rwfs {
  import opened Words
  import opened Sd
  import opened RwfsFormat
  import opened RwfsStore
  import Fnv

  // The plain map every run refines

  /** Files by name, and how many blocks of the region are used up. */
  datatype Ideal = Ideal(files: map<CString, File>, next: nat)

  predicate Accepts(st: Ideal, end: nat, name: CString, data: seq<uint8>) {
    && NameValid(name) && st.next + RecordCount(data) <= end
    && (name in st.files || |st.files| < ON_CARD)
  }

  /** An accepted write replaces the contents and counts one more write; a refused one changes nothing. */
  function IdealWrite(st: Ideal, end: nat, name: CString, data: seq<uint8>): Ideal {
    if Accepts(st, end, name, data) then
      var writes: uint32 := if name in st.files then (st.files[name].writes + 1) % TWO_32 else 1;
      Ideal(st.files[name := File(data, writes)], st.next + RecordCount(data))
    else st
  }

  /** The map and free pointer a consistent card stands for. */
  function View(d: Blocks, fs: Fs, dir: seq<Slot>): Ideal
    requires OnCard(d, fs)
  {
    Ideal(FilesOf(dir), BestSuper(d, fs)[10])
  }

  function EndOf(d: Blocks, fs: Fs): nat
    requires OnCard(d, fs)
  {
    BestSuper(d, fs)[3] as int + BestSuper(d, fs)[4]
  }

  // Where a write goes

  function IndexOfName(dir: seq<Slot>, name: CString): (i: nat)
    ensures i <= |dir| && (i < |dir| ==> dir[i].Used? && dir[i].name == name)
    ensures forall j :: 0 <= j < i ==> !(dir[j].Used? && dir[j].name == name)
  {
    if dir == [] || (dir[0].Used? && dir[0].name == name) then 0 else 1 + IndexOfName(dir[1..], name)
  }

  function IndexOfFree(dir: seq<Slot>): (i: nat)
    ensures i <= |dir| && (i < |dir| ==> dir[i] == Free)
    ensures forall j :: 0 <= j < i ==> dir[j].Used?
  {
    if dir == [] || dir[0] == Free then 0 else 1 + IndexOfFree(dir[1..])
  }

  function SlotFor(dir: seq<Slot>, name: CString): nat {
    if IndexOfName(dir, name) < |dir| then IndexOfName(dir, name) else IndexOfFree(dir)
  }

  /** There is a slot for a name exactly when the file exists or the map is not full. */
  lemma SlotForTarget(dir: seq<Slot>, name: CString)
    requires Distinct(dir) && |dir| == ON_CARD
    ensures SlotFor(dir, name) <= ON_CARD
    ensures SlotFor(dir, name) < ON_CARD <==> name in FilesOf(dir) || |FilesOf(dir)| < ON_CARD
    ensures SlotFor(dir, name) < ON_CARD ==> Target(dir, SlotFor(dir, name), name)
    ensures SlotFor(dir, name) < ON_CARD && dir[SlotFor(dir, name)].Used? ==>
              name in FilesOf(dir) && FilesOf(dir)[name].writes == dir[SlotFor(dir, name)].gen
    ensures SlotFor(dir, name) < ON_CARD && dir[SlotFor(dir, name)] == Free ==> name !in FilesOf(dir)
  {
    hide FilesOf, UsedCount, IndexOfName, IndexOfFree;
    FilesAre(dir);
    FilesCount(dir);
  }

  /** The card and directory one write attempt leaves. When all 32 entries are taken the record is written but
      the index write is refused, so nothing refers to it. */
  function WriteResult(d: Blocks, fs: Fs, dir: seq<Slot>, name: CString, data: seq<uint8>): (Blocks, seq<Slot>)
    requires Consistent(d, fs, dir) && |data| + 2 < TWO_32
  {
    if !NameValid(name) || !Room(BestSuper(d, fs), data) then (d, dir)
    else
      var i := SlotFor(dir, name);
      SlotForTarget(dir, name);
      if i == ON_CARD then (Apply(d, Run(BestSuper(d, fs)[10], RecordBlocks(name, 1, data))), dir)
      else (Crashed(d, fs, dir, i, name, data, RecordCount(data) + 3),
            dir[i := NewSlot(BestSuper(d, fs), dir[i], name, data)])
  }

  /** Any part of a record that nothing refers to leaves the store as it was. */
  lemma OrphanRecord(d: Blocks, fs: Fs, dir: seq<Slot>, name: CString, data: seq<uint8>, k: nat)
    requires Consistent(d, fs, dir) && NameValid(name) && |data| + 2 < TWO_32 && Room(BestSuper(d, fs), data)
    requires k <= RecordCount(data)
    ensures |RecordBlocks(name, 1, data)| == RecordCount(data)
    ensures var d' := Apply(d, Run(BestSuper(d, fs)[10], RecordBlocks(name, 1, data))[..k]);
            && Consistent(d', fs, dir) && BestSuper(d', fs) == BestSuper(d, fs)
            && d'[fs.start] == d[fs.start] && d'[fs.start + 1] == d[fs.start + 1]
  {
    var super := BestSuper(d, fs);
    BestIsUsable(d, fs);
    RecordBlocksCount(name, 1, data);
    var ws := Run(super[10], RecordBlocks(name, 1, data))[..k];
    hide Apply, RecordBlocks, SuperOk, RecordCount, EntryOf, SlotHolds;
    var d' := Apply(d, ws);
    forall b | 0 <= b < |d| && !(super[10] <= b < super[10] + RecordCount(data))
      ensures d'[b] == d[b]
    {
      ApplyFrame(d, ws, b);
    }
    BestFrame(d, d', fs);
    forall j | 0 <= j < ON_CARD
      ensures SlotHolds(d', fs, j, dir[j])
    {
      assert SlotHolds(d, fs, j, dir[j]) && Below(dir[j], super[10]);
      EntryFrame(d, d', fs, j);
      SlotFrame(d, d', fs, j, dir[j]);
    }
  }

  /** An accepted write takes the map exactly one step. */
  lemma AcceptedRefines(d: Blocks, fs: Fs, dir: seq<Slot>, name: CString, data: seq<uint8>)
    requires Consistent(d, fs, dir) && |data| + 2 < TWO_32 && NameValid(name) && Room(BestSuper(d, fs), data)
    requires SlotFor(dir, name) < |dir| == ON_CARD
    ensures Target(dir, SlotFor(dir, name), name)
    ensures var i := SlotFor(dir, name);
            var d', dir' := Crashed(d, fs, dir, i, name, data, RecordCount(data) + 3), dir[i := NewSlot(BestSuper(d, fs), dir[i], name, data)];
            && Consistent(d', fs, dir') && EndOf(d', fs) == EndOf(d, fs) && |d'| == |d|
            && View(d', fs, dir') == IdealWrite(View(d, fs, dir), EndOf(d, fs), name, data)
  {
    hide FilesOf, RecordCount, SlotFor, Readable, Packed, BestSuper, Target, Apply, FileWrites;
    ReadableBasics(d, fs, dir);
    SlotForTarget(dir, name);
    WriteRefinesMap(d, fs, dir, SlotFor(dir, name), name, data);
  }

  /** One write refines one step of the map. */
  lemma WriteRefines(d: Blocks, fs: Fs, dir: seq<Slot>, name: CString, data: seq<uint8>)
    requires Consistent(d, fs, dir) && |data| + 2 < TWO_32
    ensures var (d', dir') := WriteResult(d, fs, dir, name, data);
            && Consistent(d', fs, dir') && EndOf(d', fs) == EndOf(d, fs) && |d'| == |d|
            && View(d', fs, dir') == IdealWrite(View(d, fs, dir), EndOf(d, fs), name, data)
  {
    hide FilesOf, RecordCount, SlotFor, Crashed, RecordBlocks, Consistent, BestSuper, Target, Apply;
    ConsistentBasics(d, fs, dir);
    if NameValid(name) && Room(BestSuper(d, fs), data) {
      SlotForTarget(dir, name);
      if SlotFor(dir, name) == ON_CARD {
        OrphanRecord(d, fs, dir, name, data, RecordCount(data));
        assert Run(BestSuper(d, fs)[10], RecordBlocks(name, 1, data))[..RecordCount(data)]
            == Run(BestSuper(d, fs)[10], RecordBlocks(name, 1, data));
      } else {
        AcceptedRefines(d, fs, dir, name, data);
      }
    }
  }

  /** What a write attempt answers, told from the map: bad names first, then the space left, then the number of names. */
  lemma WriteRcExactly(d: Blocks, fs: Fs, dir: seq<Slot>, name: CString, data: seq<uint8>)
    requires Consistent(d, fs, dir) && |data| + 2 < TWO_32
    ensures var st := View(d, fs, dir);
            WriteRc(d, fs, name, data)
            == if name == [] || |name| > 31 then ErrName
               else if st.next + 2 + CeilDiv(|data|, 512) > EndOf(d, fs) then ErrFull
               else if name !in st.files && |st.files| >= 32 then ErrCorrupt
               else Ok
  {
    hide FilesOf, SlotFor, Consistent, BestSuper, PlaceFor, Loaded, GenFor, CopiesUsable, Readable;
    ConsistentBasics(d, fs, dir);
    if NameValid(name) {
      SlotForTarget(dir, name);
      PlaceIsSlot(d, fs, dir, name);
    }
  }

  lemma ConsistentBasics(d: Blocks, fs: Fs, dir: seq<Slot>)
    requires Consistent(d, fs, dir)
    ensures OnCard(d, fs) && CopiesUsable(d, fs) && |dir| == ON_CARD && Distinct(dir) && Readable(d, fs, dir)
  {
  }

  // Listing

  datatype FileInfo = FileInfo(name: seq<uint8>, size: uint32, generation: uint32)

  function ListOf(dir: seq<Slot>): seq<FileInfo>
    requires forall i :: 0 <= i < |dir| && dir[i].Used? ==> NameValid(dir[i].name) && |dir[i].data| < TWO_32
  {
    if dir == [] then []
    else
      var s := dir[|dir| - 1];
      ListOf(dir[..|dir| - 1]) + if s.Used? then [FileInfo(Padded(s.name), |s.data|, s.gen)] else []
  }

  predicate Listed(rows: seq<FileInfo>, name: CString, f: File) {
    NameValid(name) && |f.data| < TWO_32 && FileInfo(Padded(name), |f.data|, f.writes) in rows
  }

  /** The listing is exactly the map: one row per file, with its size and write count. */
  lemma {:induction false} ListIsMap(dir: seq<Slot>)
    requires Distinct(dir)
    requires forall i :: 0 <= i < |dir| && dir[i].Used? ==> NameValid(dir[i].name) && |dir[i].data| < TWO_32
    ensures |ListOf(dir)| == |FilesOf(dir)|
    ensures forall n :: n in FilesOf(dir) ==> Listed(ListOf(dir), n, FilesOf(dir)[n])
  {
    hide Padded;
    FilesAre(dir);
    FilesCount(dir);
    if dir != [] {
      var init := dir[..|dir| - 1];
      ListIsMap(init);
      FilesCount(init);
    }
  }

  /** The name field of a row: the stored bytes up to the terminator, at most 31 of them, zero padded. */
  function CopyName(stored: seq<uint8>): (r: seq<uint8>)
    requires |stored| == NAME_MAX
    ensures |r| == NAME_MAX
  {
    var n := Terminator(stored, 0);
    stored[..n] + Zeros(NAME_MAX - n)
  }

  function Terminator(stored: seq<uint8>, i: nat): (n: nat)
    requires |stored| == NAME_MAX && i < NAME_MAX
    ensures i <= n < NAME_MAX && (forall j :: i <= j < n ==> stored[j] != 0) && (n < NAME_MAX - 1 ==> stored[n] == 0)
    decreases NAME_MAX - i
  {
    if i == NAME_MAX - 1 || stored[i] == 0 then i else Terminator(stored, i + 1)
  }

  lemma CopyPadded(name: CString)
    requires NameValid(name)
    ensures CopyName(Padded(name)) == Padded(name)
  {
    hide Terminator;
    var p := Padded(name);
    var n := Terminator(p, 0);
    assert forall j :: 0 <= j < |name| ==> p[j] == name[j] != 0;
    assert p[|name|] == 0 && n == |name|;
  }

  function RowOf(e: Entry): FileInfo {
    FileInfo(CopyName(NameBytes(e)), e[10], e[11])
  }

  function RowsOf(es: seq<Entry>): seq<FileInfo> {
    if es == [] then []
    else RowsOf(es[..|es| - 1]) + if es[|es| - 1][8] == LIVE then [RowOf(es[|es| - 1])] else []
  }

  lemma RowsNone()
    ensures RowsOf([]) == []
  {
  }

  lemma RowsNext(es: seq<Entry>, i: nat)
    requires i < |es|
    ensures RowsOf(es[..i + 1]) == RowsOf(es[..i]) + if es[i][8] == LIVE then [RowOf(es[i])] else []
  {
    assert es[..i + 1][..i] == es[..i];
  }

  /** On a readable card the listing shows the directory. */
  lemma {:induction false} RowsAreList(d: Blocks, fs: Fs, dir: seq<Slot>, n: nat)
    requires Readable(d, fs, dir) && n <= ON_CARD
    ensures forall i :: 0 <= i < n && dir[i].Used? ==> NameValid(dir[i].name) && |dir[i].data| < TWO_32
    ensures RowsOf(Loaded(d, fs)[..n]) == ListOf(dir[..n])
  {
    hide NameBytes, Padded, NewEntry, EntryOf, LoadEntry, CopyName, SlotHolds, CopiesUsable, EntryOk, RecordCount;
    assert forall i :: 0 <= i < ON_CARD ==> SlotValid(fs, dir[i]);
    if n > 0 {
      RowsAreList(d, fs, dir, n - 1);
      var es := Loaded(d, fs);
      assert es[..n][..n - 1] == es[..n - 1] && dir[..n][..n - 1] == dir[..n - 1];
      var s := dir[n - 1];
      LoadedSlot(d, fs, dir, n - 1, if s.Used? then s.name else [1]);
      if s.Used? {
        NewEntryReads(s.name, s.lba, s.gen, s.data);
        CopyPadded(s.name);
      }
    }
  }

  // The operations

  datatype Rc = Ok | ErrName | ErrParam | ErrFull | ErrNotFound | ErrCorrupt | ErrIo

  /** The card holds no file system of this region. */
  predicate NeedsFormat(d: Blocks, fs: Fs)
    requires OnCard(d, fs)
  {
    var best := BestSuper(d, fs);
    (!SuperOk(d[fs.start]) && !SuperOk(d[fs.start + 1])) || best[3] != fs.start || best[4] > fs.blocks
  }

  lemma UsableNeedsNoFormat(d: Blocks, fs: Fs)
    requires OnCard(d, fs) && CopiesUsable(d, fs)
    ensures !NeedsFormat(d, fs)
  {
    hide SealOk;
  }

  // What a write attempt does to any mounted card

  function FirstFree(es: seq<Entry>): (i: nat)
    ensures i <= |es| && (i < |es| ==> es[i][8] == FREE)
    ensures forall j :: 0 <= j < i ==> es[j][8] != FREE
  {
    if es == [] || es[0][8] == FREE then 0 else 1 + FirstFree(es[1..])
  }

  lemma FirstFreeIs(es: seq<Entry>, i: nat)
    requires i <= |es| && (i < |es| ==> es[i][8] == FREE) && forall j :: 0 <= j < i ==> es[j][8] != FREE
    ensures FirstFree(es) == i
  {
    hide FirstFree;
  }

  /** The entry a write goes to: the file's own, else the first free one; one past the index when there is none. */
  function PlaceFor(es: seq<Entry>, name: CString): (i: nat)
    ensures i <= |es|
  {
    if FirstMatch(es, name) < |es| then FirstMatch(es, name) else FirstFree(es)
  }

  /** The number of this write of the file. */
  function GenFor(es: seq<Entry>, name: CString): uint32 {
    if FirstMatch(es, name) < |es| then (es[FirstMatch(es, name)][11] + 1) % TWO_32 else 1
  }

  /** The block writes of a write attempt. Without a free entry the record is written and nothing refers to it. */
  function WritesFor(d: Blocks, fs: Fs, name: CString, data: seq<uint8>): seq<Write>
    requires OnCard(d, fs) && CopiesUsable(d, fs) && |data| + 2 < TWO_32
  {
    var super, es := BestSuper(d, fs), Loaded(d, fs);
    if !NameValid(name) || !Room(super, data) then []
    else
      BestIsUsable(d, fs);
      var i, gen := PlaceFor(es, name), GenFor(es, name);
      var rec := Run(super[10], RecordBlocks(name, gen, data));
      if i == ON_CARD then rec
      else
        var at, super' := fs.start + INDEX_OFF + i / ENTRIES_PER_BLOCK, NextSuper(super, RecordCount(data));
        rec + [Write(at, WithEntry(d[at], i % ENTRIES_PER_BLOCK, NewEntry(name, super[10], gen, data)))]
        + [Write(fs.start, super')] + [Write(fs.start + 1, super')]
  }

  lemma WritesForParts(d: Blocks, fs: Fs, name: CString, data: seq<uint8>, i: nat, gen: uint32)
    requires OnCard(d, fs) && CopiesUsable(d, fs) && |data| + 2 < TWO_32 && NameValid(name) && Room(BestSuper(d, fs), data)
    requires i == PlaceFor(Loaded(d, fs), name) && gen == GenFor(Loaded(d, fs), name)
    ensures BestSuper(d, fs)[10] + RecordCount(data) < TWO_32
    ensures var super := BestSuper(d, fs);
            var rec, at := Run(super[10], RecordBlocks(name, gen, data)), fs.start + INDEX_OFF + i / ENTRIES_PER_BLOCK;
            if i == ON_CARD then WritesFor(d, fs, name, data) == rec
            else WritesFor(d, fs, name, data)
                 == rec + [Write(at, WithEntry(d[at], i % ENTRIES_PER_BLOCK, NewEntry(name, super[10], gen, data)))]
                    + [Write(fs.start, NextSuper(super, RecordCount(data)))]
                    + [Write(fs.start + 1, NextSuper(super, RecordCount(data)))]
  {
    hide RecordBlocks, RecordCount, NextSuper, BestSuper, CopiesUsable, Loaded, PlaceFor, GenFor, NewEntry, WithEntry;
    BestIsUsable(d, fs);
  }

  function WriteRc(d: Blocks, fs: Fs, name: CString, data: seq<uint8>): Rc
    requires OnCard(d, fs)
  {
    if !NameValid(name) then ErrName
    else if !Room(BestSuper(d, fs), data) then ErrFull
    else if PlaceFor(Loaded(d, fs), name) == ON_CARD then ErrCorrupt
    else Ok
  }

  /** On a readable card, where memory says a write goes is where the directory says it goes. */
  lemma PlaceIsSlot(d: Blocks, fs: Fs, dir: seq<Slot>, name: CString)
    requires Readable(d, fs, dir) && NameValid(name)
    ensures var i := PlaceFor(Loaded(d, fs), name);
            && i == SlotFor(dir, name) && |dir| == ON_CARD
            && GenFor(Loaded(d, fs), name) == if i < ON_CARD && dir[i].Used? then (dir[i].gen + 1) % TWO_32 else 1
  {
    hide NewEntry, LoadEntry, EntryOf, SlotHolds, CopiesUsable, BestSuper, Matches, FirstMatch, IndexOfName, IndexOfFree, FirstFree;
    var es := Loaded(d, fs);
    forall j | 0 <= j < ON_CARD
      ensures Matches(es[j], name) <==> dir[j].Used? && dir[j].name == name
      ensures es[j][8] == if dir[j].Used? then LIVE else FREE
      ensures dir[j].Used? ==> es[j][11] == dir[j].gen
    {
      LoadedSlot(d, fs, dir, j, name);
      if dir[j].Used? {
        assert SlotValid(fs, dir[j]);
        NewEntryReads(dir[j].name, dir[j].lba, dir[j].gen, dir[j].data);
      }
    }
  }

  /** On a consistent card the attempt is the protocol's write, accepted exactly when the map accepts it. */
  lemma WritesForResult(d: Blocks, fs: Fs, dir: seq<Slot>, name: CString, data: seq<uint8>)
    requires Consistent(d, fs, dir) && |data| + 2 < TWO_32
    ensures OnCard(d, fs) && CopiesUsable(d, fs)
    ensures Apply(d, WritesFor(d, fs, name, data)) == WriteResult(d, fs, dir, name, data).0
    ensures WriteRc(d, fs, name, data) == Ok <==> Accepts(View(d, fs, dir), EndOf(d, fs), name, data)
  {
    hide RecordBlocks, Consistent, RecordCount, NextSuper, BestSuper, SlotFor, Apply, Target, CopiesUsable, FilesOf, Loaded,
         PlaceFor, GenFor, NewEntry, WithEntry;
    ConsistentBasics(d, fs, dir);
    if NameValid(name) {
      PlaceIsSlot(d, fs, dir, name);
      SlotForTarget(dir, name);
      if !Room(BestSuper(d, fs), data) {
        ApplyNothing(d, WritesFor(d, fs, name, data));
      } else if SlotFor(dir, name) < ON_CARD {
        ProtocolWrites(d, fs, dir, name, data);
      }
    } else {
      ApplyNothing(d, WritesFor(d, fs, name, data));
    }
  }

  lemma ProtocolWrites(d: Blocks, fs: Fs, dir: seq<Slot>, name: CString, data: seq<uint8>)
    requires Consistent(d, fs, dir) && OnCard(d, fs) && CopiesUsable(d, fs) && |data| + 2 < TWO_32
    requires NameValid(name) && Room(BestSuper(d, fs), data) && SlotFor(dir, name) < |dir| == ON_CARD
    requires Target(dir, SlotFor(dir, name), name) && PlaceFor(Loaded(d, fs), name) == SlotFor(dir, name)
    requires var i := SlotFor(dir, name);
             GenFor(Loaded(d, fs), name) == if dir[i].Used? then (dir[i].gen + 1) % TWO_32 else 1
    ensures var i := SlotFor(dir, name);
            Apply(d, WritesFor(d, fs, name, data)) == Crashed(d, fs, dir, i, name, data, RecordCount(data) + 3)
  {
    hide RecordBlocks, Consistent, RecordCount, NextSuper, BestSuper, SlotFor, Apply, Target, CopiesUsable, Loaded, PlaceFor, GenFor,
         NewEntry, WithEntry;
    var i := SlotFor(dir, name);
    NewSlotValid(d, fs, dir, i, name, data);
    var s := NewSlot(BestSuper(d, fs), dir[i], name, data);
    RecordBlocksCount(s.name, s.gen, s.data);
    var ws := FileWrites(d, fs, BestSuper(d, fs), i, s);
    assert |ws| == RecordCount(data) + 3 && ws[..|ws|] == ws;
    assert WritesFor(d, fs, name, data) == ws;
  }

  // The index a superblock points at

  /** Block b of the index, with 32-bit wrap-around. */
  function IndexLba(at: uint32, b: nat): (lba: nat)
  {
    (at + b) % TWO_32
  }

  predicate IndexOnCard(d: Blocks, at: uint32) {
    forall b :: 0 <= b < INDEX_BLOCKS ==> IndexLba(at, b) < |d|
  }

  function EntryFrom(d: Blocks, at: uint32, i: nat): Entry
    requires i < ON_CARD && IndexLba(at, i / ENTRIES_PER_BLOCK) < |d|
  {
    EntryAt(d[IndexLba(at, i / ENTRIES_PER_BLOCK)], i % ENTRIES_PER_BLOCK)
  }

  function LoadedFrom(d: Blocks, at: uint32): (es: seq<Entry>)
    requires IndexOnCard(d, at)
    ensures |es| == ON_CARD && forall i :: 0 <= i < ON_CARD ==> es[i] == LoadEntry(EntryFrom(d, at, i))
  {
    seq(ON_CARD, i requires 0 <= i < ON_CARD => LoadEntry(EntryFrom(d, at, i)))
  }

  /** A usable superblock points at the region's own index. */
  lemma LoadedFromIndex(d: Blocks, fs: Fs)
    requires OnCard(d, fs) && CopiesUsable(d, fs)
    ensures BestSuper(d, fs)[5] == fs.start + INDEX_OFF && IndexOnCard(d, BestSuper(d, fs)[5])
    ensures LoadedFrom(d, BestSuper(d, fs)[5]) == Loaded(d, fs)
  {
    hide SealOk, EntryAt, LoadEntry, BestSuper;
    BestIsUsable(d, fs);
    var at := BestSuper(d, fs)[5];
    forall b | 0 <= b < INDEX_BLOCKS
      ensures IndexLba(at, b) == fs.start + INDEX_OFF + b
    {
    }
    forall i | 0 <= i < ON_CARD
      ensures EntryFrom(d, at, i) == EntryOf(d, fs, i)
    {
      assert 0 <= i / ENTRIES_PER_BLOCK < INDEX_BLOCKS;
    }
  }

  class Store {
    var super: Block
    var entries: seq<Entry>
    var mounted: bool

    constructor ()
      ensures Ram() && !mounted
    {
      super := WordBlock([]);
      entries := seq(ENTRY_COUNT, i => seq(ENTRY_WORDS, j => 0));
      mounted := false;
    }

    /** Memory holds 34 entries, the last two of which the card cannot back. */
    ghost predicate Ram()
      reads this
    {
      |entries| == ENTRY_COUNT && entries[32][8] == FREE && entries[33][8] == FREE
    }

    /** Memory mirrors the card. */
    ghost predicate Mirrors(d: Blocks, fs: Fs)
      requires OnCard(d, fs)
      reads this
    {
      Ram() && mounted && super == BestSuper(d, fs) && entries[..ON_CARD] == Loaded(d, fs)
    }

    /** Load the index the superblock points at; fails at the first block that is off the card. */
    method ReadIndex(card: SdCard) returns (ok: bool)
      requires Ram()
      modifies this`entries
      ensures Ram() && ok == IndexOnCard(card.blocks, super[5])
      ensures ok ==> entries[..ON_CARD] == LoadedFrom(card.blocks, super[5])
    {
      hide EntryAt, LoadEntry;
      ghost var d, at := card.blocks, super[5];
      for b := 0 to INDEX_BLOCKS
        invariant |entries| == ENTRY_COUNT && entries[32] == old(entries[32]) && entries[33] == old(entries[33])
        invariant forall c :: 0 <= c < b ==> IndexLba(at, c) < |d|
        invariant forall j :: 0 <= j < ENTRIES_PER_BLOCK * b ==> entries[j] == LoadEntry(EntryFrom(d, at, j))
      {
        if IndexLba(super[5], b) >= |card.blocks| {
          return false;
        }
        var blk := card.ReadBlock(IndexLba(super[5], b));
        for i := 0 to ENTRIES_PER_BLOCK
          invariant |entries| == ENTRY_COUNT && entries[32] == old(entries[32]) && entries[33] == old(entries[33])
          invariant forall j :: 0 <= j < ENTRIES_PER_BLOCK * b + i ==> entries[j] == LoadEntry(EntryFrom(d, at, j))
        {
          var idx := ENTRIES_PER_BLOCK * b + i;
          assert idx / ENTRIES_PER_BLOCK == b && idx % ENTRIES_PER_BLOCK == i;
          entries := entries[idx := LoadEntry(EntryAt(blk, i))];
        }
      }
      ok := true;
    }

    method FormatRegion(card: SdCard, fs: Fs)
      requires card.Valid() && OnCard(card.blocks, fs) && Ram()
      modifies this, card
      ensures card.Valid() && card.Issued(FormatWrites(fs))
      ensures Ram() && mounted && super == FreshSuper(fs.start, fs.blocks)
      ensures forall j :: 0 <= j < ENTRY_COUNT ==> entries[j][8] == FREE
    {
      hide SdCard.Valid, FreshSuper, SuperOk;
      var s := FreshSuper(fs.start, fs.blocks);
      ghost var idx := Run(fs.start + INDEX_OFF, [BLANK, BLANK, BLANK, BLANK]);
      for b := 0 to INDEX_BLOCKS
        invariant card.Valid() && card.origin == old(card.origin) && |card.blocks| == |old(card.blocks)|
        invariant card.log == old(card.log) + idx[..b] && Ram()
      {
        card.WriteBlock(fs.start + INDEX_OFF + b, BLANK);
        assert idx[..b + 1] == idx[..b] + [idx[b]];
      }
      card.WriteBlock(fs.start, s);
      card.WriteBlock(fs.start + 1, s);
      assert idx[..4] == idx;
      card.IssuedFromLog(FormatWrites(fs));
      super := s;
      for i := 0 to ENTRY_COUNT
        invariant |entries| == ENTRY_COUNT && forall j :: 0 <= j < i ==> entries[j][8] == FREE
        invariant card.Valid() && card.Issued(FormatWrites(fs)) && super == s
      {
        entries := entries[i := entries[i][8 := FREE]];
      }
      mounted := true;
    }

    /** Mount the region, formatting it when it holds no file system. Otherwise nothing is written, and memory holds
        the chosen superblock and the index it points at, if that index is on the card. */
    method InitOrMount(card: SdCard, fs: Fs) returns (rc: Rc)
      requires card.Valid() && Ram() && fs.start + fs.blocks <= |card.blocks| < TWO_32
      modifies this, card
      ensures card.Valid() && Ram() && (rc == ErrFull <==> fs.blocks <= DATA_OFF) && rc in {Ok, ErrFull, ErrIo}
      ensures rc == ErrFull ==> card.Issued([])
      ensures old(OnCard(card.blocks, fs) && NeedsFormat(card.blocks, fs)) ==>
                rc == Ok && card.Issued(FormatWrites(fs)) && Consistent(card.blocks, fs, EmptyDir())
      ensures old(OnCard(card.blocks, fs) && !NeedsFormat(card.blocks, fs)) ==>
                && card.Issued([]) && card.blocks == old(card.blocks) && super == BestSuper(card.blocks, fs)
                && (rc == Ok <==> IndexOnCard(card.blocks, super[5]))
                && (rc == Ok ==> mounted && entries[..ON_CARD] == LoadedFrom(card.blocks, super[5]))
      ensures old(OnCard(card.blocks, fs) && CopiesUsable(card.blocks, fs)) ==>
                rc == Ok && card.Issued([]) && card.blocks == old(card.blocks) && Mirrors(card.blocks, fs)
    {
      hide SdCard.Valid, SealOk, FreshSuper, Consistent, Apply, LoadedFrom, Loaded;
      card.IssuedFromLog([]);
      if fs.blocks <= DATA_OFF {
        return ErrFull;
      }
      if CopiesUsable(card.blocks, fs) {
        UsableNeedsNoFormat(card.blocks, fs);
        LoadedFromIndex(card.blocks, fs);
      }
      var a := card.ReadBlock(fs.start);
      var b := card.ReadBlock(fs.start + 1);
      var haveA, haveB := SuperOk(a), SuperOk(b);
      if !haveA && !haveB {
        FormatIsEmpty(card.blocks, fs);
        FormatRegion(card, fs);
        return Ok;
      }
      super := if haveA && (!haveB || a[2] >= b[2]) then a else b;
      if super[3] != fs.start || super[4] > fs.blocks {
        FormatIsEmpty(card.blocks, fs);
        FormatRegion(card, fs);
        return Ok;
      }
      var ok := ReadIndex(card);
      if !ok {
        return ErrIo;
      }
      mounted := true;
      rc := Ok;
    }

    /** Linear search for a live entry with this name. */
    method FindEntry(name: CString) returns (i: nat)
      requires Ram() && NameValid(name)
      ensures i < ON_CARD || i == ENTRY_COUNT
      ensures i == if FirstMatch(entries[..ON_CARD], name) < ON_CARD then FirstMatch(entries[..ON_CARD], name) else ENTRY_COUNT
    {
      hide NameBytes, Spells, FirstMatch;
      ghost var es := entries[..ON_CARD];
      i := 0;
      while i < ENTRY_COUNT
        invariant i <= ENTRY_COUNT && forall j :: 0 <= j < i && j < ON_CARD ==> !Matches(es[j], name)
      {
        if entries[i][8] == LIVE {
          assert i < ON_CARD && entries[i] == es[i];
          var same := StrEqName(NameBytes(entries[i]), name);
          if same {
            return;
          }
        }
        i := i + 1;
      }
    }

    /** Linear search for a free entry; one of the last two is always found. */
    method FindFree() returns (i: nat)
      requires Ram()
      ensures i <= ON_CARD && entries[i][8] == FREE && forall j :: 0 <= j < i ==> entries[j][8] != FREE
    {
      i := 0;
      while entries[i][8] != FREE
        invariant i <= ON_CARD && forall j :: 0 <= j < i ==> entries[j][8] != FREE
        decreases ENTRY_COUNT - i
      {
        i := i + 1;
      }
    }

    /** Append a record: header, data block by block, tail. */
    method WriteRecord(card: SdCard, lba: nat, name: CString, gen: uint32, data: seq<uint8>)
      requires card.Valid() && |data| + 2 < TWO_32 && lba + RecordCount(data) <= |card.blocks|
      modifies card
      ensures card.Valid() && card.origin == old(card.origin) && |card.blocks| == |old(card.blocks)|
      ensures card.log == old(card.log) + Run(lba, RecordBlocks(name, gen, data))
    {
      hide SdCard.Valid, HeadBlock, TailBlock, Fnv.Checksum, DataBlocks, RecordBlocks, RecordCount;
      RecordRun(lba, name, gen, data);
      card.WriteBlock(lba, HeadBlock(name, gen, data));
      WriteData(card, lba + 1, data);
      card.WriteBlock(lba + RecordCount(data) - 1, TailBlock(name, gen, data));
    }

    method WriteData(card: SdCard, lba: nat, data: seq<uint8>)
      requires card.Valid() && lba + |DataBlocks(data)| <= |card.blocks|
      modifies card
      ensures card.Valid() && card.origin == old(card.origin) && |card.blocks| == |old(card.blocks)|
      ensures card.log == old(card.log) + Run(lba, DataBlocks(data))
    {
      hide SdCard.Valid, Chunk, DataBlocks;
      var at, src := lba, data;
      ghost var done: seq<Block> := [];
      while |src| > 0
        invariant done + DataBlocks(src) == DataBlocks(data) && at == lba + |done|
        invariant card.Valid() && card.origin == old(card.origin) && |card.blocks| == |old(card.blocks)|
        invariant card.log == old(card.log) + Run(lba, done)
      {
        var n := Min(|src|, BLOCK_BYTES);
        NextDataBlock(src);
        RunAppend(lba, done, [Chunk(src[..n])]);
        card.WriteBlock(at, Chunk(src[..n]));
        done := done + [Chunk(src[..n])];
        at, src := at + 1, src[n..];
      }
      NoDataBlocks(src);
    }

    /** Write a whole file: the block writes depend only on the superblock in use and the index. On a consistent card
        this is one step of the map; it is refused without effect on any file when the name is invalid, the region is
        full or all 32 entries on the card are taken. */
    method WriteAll(card: SdCard, fs: Fs, name: CString, data: seq<uint8>) returns (rc: Rc)
      requires card.Valid() && Ram() && OnCard(card.blocks, fs) && CopiesUsable(card.blocks, fs) && |data| + 2 < TWO_32
      modifies this, card
      ensures card.Valid() && Ram() && card.Issued(WritesFor(old(card.blocks), fs, name, data))
      ensures rc == WriteRc(old(card.blocks), fs, name, data)
      ensures forall dir :: Consistent(old(card.blocks), fs, dir) ==>
                && card.blocks == WriteResult(old(card.blocks), fs, dir, name, data).0
                && (rc == Ok <==> Accepts(View(old(card.blocks), fs, dir), EndOf(old(card.blocks), fs), name, data))
    {
      hide SdCard.Valid, Consistent, RecordCount, BestSuper, SealOk, CopiesUsable, WritesFor, WriteRc, Room, Apply, WriteResult,
           Accepts, View, EndOf;
      ghost var d := card.blocks;
      card.IssuedFromLog([]);
      rc := WriteMounted(card, fs, name, data);
      forall dir | Consistent(d, fs, dir)
        ensures Apply(d, WritesFor(d, fs, name, data)) == WriteResult(d, fs, dir, name, data).0
        ensures WriteRc(d, fs, name, data) == Ok <==> Accepts(View(d, fs, dir), EndOf(d, fs), name, data)
      {
        WritesForResult(d, fs, dir, name, data);
      }
    }

    method WriteMounted(card: SdCard, fs: Fs, name: CString, data: seq<uint8>) returns (rc: Rc)
      requires card.Valid() && Ram() && OnCard(card.blocks, fs) && CopiesUsable(card.blocks, fs) && |data| + 2 < TWO_32
      modifies this, card
      ensures card.Valid() && Ram() && card.Issued(WritesFor(old(card.blocks), fs, name, data))
      ensures rc == WriteRc(old(card.blocks), fs, name, data)
    {
      hide SdCard.Valid, RecordCount, BestSuper, SealOk, CopiesUsable, Apply, RecordBlocks, NewEntry, WithEntry, NextSuper,
           FirstMatch, FirstFree, Loaded;
      ApplyNothing(card.blocks, []);
      if !NameValid(name) {
        return ErrName;
      }
      var i, gen := Locate(card, fs, name);
      if super[10] + RecordCount(data) > super[3] as int + super[4] {
        return ErrFull;
      }
      rc := WriteAt(card, fs, name, data, i, gen);
    }

    /** Mount, then find the file's entry or a free one, and the number of this write. */
    method Locate(card: SdCard, fs: Fs, name: CString) returns (i: nat, gen: uint32)
      requires card.Valid() && Ram() && OnCard(card.blocks, fs) && CopiesUsable(card.blocks, fs) && NameValid(name)
      modifies this, card
      ensures card.Valid() && card.blocks == old(card.blocks) && card.log == old(card.log) && Mirrors(card.blocks, fs)
      ensures i == PlaceFor(Loaded(card.blocks, fs), name) && gen == GenFor(Loaded(card.blocks, fs), name)
    {
      hide SdCard.Valid, CopiesUsable, BestSuper, Apply, Loaded, PlaceFor, GenFor;
      UsableNeedsNoFormat(card.blocks, fs);
      var rc := InitOrMount(card, fs);
      i, gen := PlaceOf(name);
    }

    method PlaceOf(name: CString) returns (i: nat, gen: uint32)
      requires Ram() && NameValid(name)
      ensures i == PlaceFor(entries[..ON_CARD], name) && gen == GenFor(entries[..ON_CARD], name)
    {
      hide FirstMatch, FirstFree;
      ghost var es := entries[..ON_CARD];
      assert forall j :: 0 <= j < ON_CARD ==> es[j] == entries[j];
      gen := 1;
      i := FindEntry(name);
      if i < ENTRY_COUNT {
        gen := (entries[i][11] + 1) % TWO_32;
      } else {
        i := FindFree();
        FirstFreeIs(es, i);
      }
    }

    /** The block writes, once the entry and the space are known. */
    method WriteAt(card: SdCard, fs: Fs, name: CString, data: seq<uint8>, i: nat, gen: uint32) returns (rc: Rc)
      requires card.Valid() && OnCard(card.blocks, fs) && CopiesUsable(card.blocks, fs) && Mirrors(card.blocks, fs)
      requires NameValid(name) && |data| + 2 < TWO_32 && Room(BestSuper(card.blocks, fs), data)
      requires i == PlaceFor(Loaded(card.blocks, fs), name) && gen == GenFor(Loaded(card.blocks, fs), name)
      modifies this, card
      ensures card.Valid() && Ram() && rc == WriteRc(old(card.blocks), fs, name, data)
      ensures card.Issued(WritesFor(old(card.blocks), fs, name, data))
    {
      hide SdCard.Valid, RecordCount, RecordBlocks, CopiesUsable, BestSuper, Apply, EntryAt, WithEntry, NewEntry, NextSuper,
           Loaded, PlaceFor, GenFor, WritesFor;
      ghost var d := card.blocks;
      BestIsUsable(d, fs);
      WritesForParts(d, fs, name, data, i, gen);
      var lba, n := super[10], RecordCount(data);
      RecordBlocksCount(name, gen, data);
      WriteRecord(card, lba, name, gen, data);
      card.IssuedFromLog(Run(lba, RecordBlocks(name, gen, data)));
      if i / ENTRIES_PER_BLOCK >= INDEX_BLOCKS {
        return ErrCorrupt;
      }
      var at := fs.start + INDEX_OFF + i / ENTRIES_PER_BLOCK;
      assert card.blocks[at] == d[at] by {
        ApplyRun(d, lba, RecordBlocks(name, gen, data));
      }
      var blk := card.ReadBlock(at);
      var e := NewEntry(name, lba, gen, data);
      card.WriteBlock(at, WithEntry(blk, i % ENTRIES_PER_BLOCK, e));
      entries := entries[i := e];
      super := NextSuper(super, n);
      card.WriteBlock(fs.start, super);
      card.WriteBlock(fs.start + 1, super);
      card.IssuedFromLog(WritesFor(d, fs, name, data));
      rc := Ok;
    }

    /** Read a whole file into a buffer of the given capacity. */
    method ReadAll(card: SdCard, fs: Fs, name: CString, cap: nat) returns (rc: Rc, data: seq<uint8>)
      requires card.Valid() && Ram() && OnCard(card.blocks, fs) && CopiesUsable(card.blocks, fs)
      modifies this, card
      ensures card.Valid() && Ram() && card.Issued([])
      ensures rc == if !NameValid(name) then ErrParam
                    else match ReadFile(card.blocks, fs, name)
                      case NotFound => ErrNotFound
                      case Corrupt => if FoundLength(card.blocks, fs, name) > cap then ErrParam else ErrCorrupt
                      case Bytes(bytes) => if |bytes| > cap then ErrParam else Ok
      ensures rc == Ok ==> ReadFile(card.blocks, fs, name) == Bytes(data)
    {
      hide SdCard.Valid, CopiesUsable, BestSuper, Apply, FirstMatch, ReadRecord, LoadEntry, EntryOf;
      data := [];
      card.IssuedFromLog([]);
      if !NameValid(name) {
        return ErrParam, data;
      }
      UsableNeedsNoFormat(card.blocks, fs);
      rc := InitOrMount(card, fs);
      var i := FindEntry(name);
      if i == ENTRY_COUNT {
        return ErrNotFound, data;
      }
      var e := entries[i];
      assert e == entries[..ON_CARD][i];
      ReadRecordLength(card.blocks, e, name);
      if e[10] > cap {
        return ErrParam, data;
      }
      var r := ReadEntry(card, e, name);
      if r.None? {
        return ErrCorrupt, data;
      }
      data := r.value;
      rc := Ok;
    }

    /** Read and check the record behind an entry. */
    method ReadEntry(card: SdCard, e: Entry, name: CString) returns (r: Option<seq<uint8>>)
      ensures r == ReadRecord(card.blocks, e, name)
    {
      hide Gather, Fnv.Checksum, BytesOf, CeilDiv;
      var lba: int, blocks: int, len: int := e[9], e[13], e[10];
      if blocks < 1 || lba + blocks > |card.blocks| || lba + 1 + CeilDiv(len, BLOCK_BYTES) > |card.blocks| {
        return None;
      }
      var hdr := card.ReadBlock(lba);
      if !FrameOk(hdr, FDAT_MAGIC, NameHash(name), e[11], len) {
        return None;
      }
      var data := ReadData(card, lba + 1, len);
      var tail := card.ReadBlock(lba + blocks - 1);
      if !FrameOk(tail, FDEN_MAGIC, NameHash(name), e[11], len) {
        return None;
      }
      if tail[5] != e[12] {
        return None;
      }
      var crc := Fnv.ChecksumUpdate(Fnv.BASIS, data);
      Fnv.ChecksumIs(data);
      if Fnv.Finish(crc) != e[12] {
        return None;
      }
      r := Some(data);
    }

    method ReadData(card: SdCard, lba0: nat, len: nat) returns (data: seq<uint8>)
      requires lba0 + CeilDiv(len, BLOCK_BYTES) <= |card.blocks|
      ensures data == Gather(card.blocks, lba0, len)
    {
      hide BytesOf, Gather, CeilDiv;
      data := [];
      var lba: nat, rem: nat := lba0, len;
      while rem > 0
        invariant lba + CeilDiv(rem, BLOCK_BYTES) <= |card.blocks|
        invariant data + Gather(card.blocks, lba, rem) == Gather(card.blocks, lba0, len)
      {
        GatherStep(card.blocks, lba, rem);
        var blk := card.ReadBlock(lba);
        var n := Min(rem, BLOCK_BYTES);
        data := data + BytesOf(blk)[..n];
        lba, rem := lba + 1, rem - n;
      }
      GatherEnd(card.blocks, lba);
    }

    /** List the live files: up to cap rows, and how many there are. */
    method List(card: SdCard, fs: Fs, cap: nat) returns (rows: seq<FileInfo>, count: nat)
      requires card.Valid() && Ram() && OnCard(card.blocks, fs) && CopiesUsable(card.blocks, fs)
      modifies this, card
      ensures card.Valid() && Ram() && card.Issued([])
      ensures count == |RowsOf(Loaded(card.blocks, fs))|
      ensures rows == RowsOf(Loaded(card.blocks, fs))[..Min(cap, count)]
    {
      hide SdCard.Valid, CopiesUsable, BestSuper, Apply, RowOf, Loaded, RowsOf;
      UsableNeedsNoFormat(card.blocks, fs);
      var rc := InitOrMount(card, fs);
      rows, count := Collect(cap);
    }

    method Collect(cap: nat) returns (rows: seq<FileInfo>, count: nat)
      requires Ram()
      ensures count == |RowsOf(entries[..ON_CARD])| && rows == RowsOf(entries[..ON_CARD])[..Min(cap, count)]
    {
      hide RowOf, RowsOf;
      rows, count := [], 0;
      RowsNone();
      assert entries[..0] == [];
      for i := 0 to ENTRY_COUNT
        invariant count == |RowsOf(entries[..i])| && rows == RowsOf(entries[..i])[..Min(cap, count)]
        invariant i >= ON_CARD ==> RowsOf(entries[..i]) == RowsOf(entries[..ON_CARD])
      {
        RowsNext(entries, i);
        if entries[i][8] != LIVE {
          continue;
        }
        if count < cap {
          rows := rows + [RowOf(entries[i])];
        }
        count := count + 1;
      }
    }
  }

  lemma ReadRecordLength(d: Blocks, e: Entry, name: CString)
    ensures ReadRecord(d, e, name).Some? ==> |ReadRecord(d, e, name).value| == e[10]
  {
    hide Fnv.Checksum, FrameOk;
  }

  lemma RecordCountIs(data: seq<uint8>)
    ensures RecordCount(data) == |DataBlocks(data)| + 2
  {
    DataBlocksCount(data);
  }

  lemma RecordRun(lba: nat, name: CString, gen: uint32, data: seq<uint8>)
    requires |data| + 2 < TWO_32
    ensures RecordCount(data) == |DataBlocks(data)| + 2
    ensures Run(lba, RecordBlocks(name, gen, data))
            == [Write(lba, HeadBlock(name, gen, data))] + Run(lba + 1, DataBlocks(data))
               + [Write(lba + RecordCount(data) - 1, TailBlock(name, gen, data))]
  {
    hide HeadBlock, TailBlock, DataBlocks, RecordCount, CeilDiv, Run;
    RecordCountIs(data);
    RunFramed(lba, HeadBlock(name, gen, data), DataBlocks(data), TailBlock(name, gen, data));
  }

  /** The length field of the entry a read finds. */
  function FoundLength(d: Blocks, fs: Fs, name: CString): nat
    requires OnCard(d, fs)
  {
    var es := Loaded(d, fs);
    var i := FirstMatch(es, name);
    if i < |es| then es[i][10] else 0
  }
}
