/**
 Every run of the file store: writes that complete or lose power at some block boundary, formats, and the
 operations that only look (mount, read, list).
 */
module RwfsRuns {
  import opened Words
  import opened Sd
  import opened RwfsFormat
  import opened RwfsStore
  import opened Rwfs

  /** A write of which `landed` block writes reach the card; a mount, read or list; a format. */
  datatype Event = Put(name: CString, data: seq<uint8>, landed: nat) | Look | Format

  /** What every event keeps: a consistent card whose second superblock copy is not ahead of the one in use. */
  predicate Sound(d: Blocks, fs: Fs, dir: seq<Slot>) {
    && Consistent(d, fs, dir)
    && (SuperOk(d[fs.start + 1]) ==> d[fs.start + 1][10] <= BestSuper(d, fs)[10])
  }

  /** The store takes this write. */
  predicate Taken(d: Blocks, fs: Fs, dir: seq<Slot>, name: CString, data: seq<uint8>)
    requires OnCard(d, fs)
  {
    NameValid(name) && Room(BestSuper(d, fs), data) && SlotFor(dir, name) < ON_CARD
  }

  /** The card and directory after the first k block writes of a write attempt. */
  function Landed(d: Blocks, fs: Fs, dir: seq<Slot>, name: CString, data: seq<uint8>, k: nat): (Blocks, seq<Slot>)
    requires Consistent(d, fs, dir) && |data| + 2 < TWO_32
  {
    if !NameValid(name) || !Room(BestSuper(d, fs), data) then (d, dir)
    else
      var i := SlotFor(dir, name);
      SlotForTarget(dir, name);
      RecordBlocksCount(name, 1, data);
      if i == ON_CARD then (Apply(d, Run(BestSuper(d, fs)[10], RecordBlocks(name, 1, data))[..Min(k, RecordCount(data))]), dir)
      else
        var n := Min(k, RecordCount(data) + 3);
        (Crashed(d, fs, dir, i, name, data, n), CrashedDir(d, fs, dir, i, name, data, n))
  }

  /** With all its block writes landed it is the write operation's result. */
  lemma LandedAll(d: Blocks, fs: Fs, dir: seq<Slot>, name: CString, data: seq<uint8>, k: nat)
    requires Consistent(d, fs, dir) && |data| + 2 < TWO_32 && k >= RecordCount(data) + 3
    ensures Landed(d, fs, dir, name, data, k) == WriteResult(d, fs, dir, name, data)
  {
    hide Crashed, Apply, RecordBlocks, Readable, Packed, BestSuper, SlotFor, Target;
    RecordBlocksCount(name, 1, data);
    ConsistentBasics(d, fs, dir);
    var ws := Run(BestSuper(d, fs)[10], RecordBlocks(name, 1, data));
    assert ws[..RecordCount(data)] == ws;
  }

  /** Power is not lost at one of the two crash points after which the store is not fit for writing. */
  predicate SafePoint(d: Blocks, fs: Fs, data: seq<uint8>, k: nat)
    requires OnCard(d, fs)
  {
    k != RecordCount(data) + 1 && !(k == RecordCount(data) + 2 && OldCopyWins(d, fs))
  }

  predicate Allowed(d: Blocks, fs: Fs, dir: seq<Slot>, e: Event)
    requires OnCard(d, fs)
  {
    e.Put? ==> |e.data| + 2 < TWO_32 && (Taken(d, fs, dir, e.name, e.data) ==> SafePoint(d, fs, e.data, e.landed))
  }

  lemma TakenIsWriting(d: Blocks, fs: Fs, dir: seq<Slot>, name: CString, data: seq<uint8>)
    requires Consistent(d, fs, dir) && |data| + 2 < TWO_32 && OnCard(d, fs) && Taken(d, fs, dir, name, data)
    ensures Writing(d, fs, dir, SlotFor(dir, name), name, data)
  {
    hide SlotFor, Target, Room;
    SlotForTarget(dir, name);
  }

  /** On a sound card the safe points are exactly those after which the card is consistent again. */
  lemma SafeExactly(d: Blocks, fs: Fs, dir: seq<Slot>, name: CString, data: seq<uint8>, k: nat)
    requires Sound(d, fs, dir) && |data| + 2 < TWO_32 && OnCard(d, fs) && Taken(d, fs, dir, name, data)
    ensures var r := Landed(d, fs, dir, name, data, k); Consistent(r.0, fs, r.1) <==> SafePoint(d, fs, data, k)
  {
    hide Crashed, Readable, Packed, BestSuper, SlotFor, Target, Room, RecordCount, OldCopyWins, Writing;
    TakenIsWriting(d, fs, dir, name, data);
    if OldCopyWins(d, fs) {
      BehindNewRecord(d, fs, dir, data);
    }
    var n := Min(k, RecordCount(data) + 3);
    CrashConsistentExactly(d, fs, dir, SlotFor(dir, name), name, data, n);
  }

  lemma BehindNewRecord(d: Blocks, fs: Fs, dir: seq<Slot>, data: seq<uint8>)
    requires Sound(d, fs, dir) && OnCard(d, fs) && OldCopyWins(d, fs)
    ensures d[fs.start + 1][10] < BestSuper(d, fs)[10] + RecordCount(data)
  {
  }

  function Step(d: Blocks, fs: Fs, dir: seq<Slot>, e: Event): (Blocks, seq<Slot>)
    requires Consistent(d, fs, dir) && Allowed(d, fs, dir, e)
  {
    match e
    case Put(name, data, k) => Landed(d, fs, dir, name, data, k)
    case Look => (d, dir)
    case Format => (Apply(d, FormatWrites(fs)), EmptyDir())
  }

  // The plain map

  /** The map, how much of the region is used up, and where it ends. */
  datatype Shadow = Shadow(st: Ideal, end: nat)

  function ShadowOf(d: Blocks, fs: Fs, dir: seq<Slot>): Shadow
    requires OnCard(d, fs)
  {
    Shadow(View(d, fs, dir), EndOf(d, fs))
  }

  /** A write counts from its index write on; a format empties the map; looking changes nothing. */
  function IdealStep(s: Shadow, fs: Fs, e: Event): Shadow {
    match e
    case Put(name, data, k) =>
      if k <= RecordCount(data) then s else s.(st := IdealWrite(s.st, s.end, name, data))
    case Look => s
    case Format => Shadow(Ideal(map[], fs.start + DATA_OFF), fs.start + fs.blocks)
  }

  /** One event on the card is one step of the map. */
  lemma StepRefines(d: Blocks, fs: Fs, dir: seq<Slot>, e: Event)
    requires Sound(d, fs, dir) && Allowed(d, fs, dir, e)
    ensures var r := Step(d, fs, dir, e);
            Sound(r.0, fs, r.1) && |r.0| == |d| && ShadowOf(r.0, fs, r.1) == IdealStep(ShadowOf(d, fs, dir), fs, e)
  {
    hide Consistent, BestSuper, SuperOk, SlotFor, RecordCount, FilesOf, Apply, FreshSuper, RecordBlocks;
    ConsistentBasics(d, fs, dir);
    match e
    case Look =>
    case Format =>
      FormatIsEmpty(d, fs);
      FormatCopies(d, fs);
    case Put(name, data, k) =>
      if Taken(d, fs, dir, name, data) {
        TakenRefines(d, fs, dir, name, data, k);
      } else if NameValid(name) && Room(BestSuper(d, fs), data) {
        OrphanRecord(d, fs, dir, name, data, Min(k, RecordCount(data)));
        SlotForTarget(dir, name);
      }
  }

  lemma FormatCopies(d: Blocks, fs: Fs)
    requires OnCard(d, fs)
    ensures Apply(d, FormatWrites(fs))[fs.start + 1] == FreshSuper(fs.start, fs.blocks)
  {
    hide Apply, FreshSuper;
    ApplyHit(d, FormatWrites(fs), 5);
  }

  lemma TakenRefines(d: Blocks, fs: Fs, dir: seq<Slot>, name: CString, data: seq<uint8>, k: nat)
    requires Sound(d, fs, dir) && |data| + 2 < TWO_32 && OnCard(d, fs) && Taken(d, fs, dir, name, data)
    requires SafePoint(d, fs, data, k)
    ensures var r := Landed(d, fs, dir, name, data, k);
            && Sound(r.0, fs, r.1) && |r.0| == |d|
            && ShadowOf(r.0, fs, r.1) == IdealStep(ShadowOf(d, fs, dir), fs, Put(name, data, k))
  {
    hide Consistent, BestSuper, SuperOk, SlotFor, RecordCount, FilesOf, Apply, Crashed, Writing, OldCopyWins, NextSuper, Target;
    ConsistentBasics(d, fs, dir);
    TakenIsWriting(d, fs, dir, name, data);
    SafeExactly(d, fs, dir, name, data, k);
    SlotForTarget(dir, name);
    var i, n := SlotFor(dir, name), Min(k, RecordCount(data) + 3);
    BestAfterCrash(d, fs, dir, i, name, data, n);
    SecondCopy(d, fs, dir, i, name, data, n);
    CrashedSize(d, fs, dir, i, name, data, n);
    if n > RecordCount(data) {
      FilesUpdate(dir, i, NewSlot(BestSuper(d, fs), dir[i], name, data));
    }
  }

  lemma CrashedSize(d: Blocks, fs: Fs, dir: seq<Slot>, i: nat, name: CString, data: seq<uint8>, k: nat)
    requires Writing(d, fs, dir, i, name, data)
    ensures |Crashed(d, fs, dir, i, name, data, k)| == |d|
  {
    hide Writing, Apply;
  }

  /** The second copy is the old one until the last block write. */
  lemma SecondCopy(d: Blocks, fs: Fs, dir: seq<Slot>, i: nat, name: CString, data: seq<uint8>, k: nat)
    requires Writing(d, fs, dir, i, name, data) && k <= RecordCount(data) + 3
    ensures OnCard(d, fs) && |Crashed(d, fs, dir, i, name, data, k)| == |d|
    ensures BestSuper(d, fs)[10] + RecordCount(data) < TWO_32
    ensures Crashed(d, fs, dir, i, name, data, k)[fs.start + 1]
            == if k == RecordCount(data) + 3 then NextSuper(BestSuper(d, fs), RecordCount(data)) else d[fs.start + 1]
  {
    hide Crashed, Switched, Readable, NextSuper, Target, SuperOk, BestSuper, RecordBlocks, Apply, Packed, RecordCount;
    WritingOnCard(d, fs, dir, i, name, data);
    NewSlotValid(d, fs, dir, i, name, data);
    CrashedSize(d, fs, dir, i, name, data, k);
    CrashStages(d, fs, dir, i, name, data, k);
    if k <= RecordCount(data) {
      RecordKeepsSupers(d, fs, NewSlot(BestSuper(d, fs), dir[i], name, data), k);
    } else {
      SwitchedReadable(d, fs, dir, i, name, data);
    }
  }

  // Every run

  predicate RunAllowed(d: Blocks, fs: Fs, dir: seq<Slot>, run: seq<Event>)
    requires Sound(d, fs, dir)
    decreases |run|, 0
  {
    run == [] ||
    (&& RunAllowed(d, fs, dir, run[..|run| - 1])
     && var r := After(d, fs, dir, run[..|run| - 1]);
        Allowed(r.0, fs, r.1, run[|run| - 1]))
  }

  function After(d: Blocks, fs: Fs, dir: seq<Slot>, run: seq<Event>): (r: (Blocks, seq<Slot>))
    requires Sound(d, fs, dir) && RunAllowed(d, fs, dir, run)
    ensures Sound(r.0, fs, r.1) && |r.0| == |d|
    decreases |run|, 1
  {
    if run == [] then (d, dir)
    else
      var r := After(d, fs, dir, run[..|run| - 1]);
      StepRefines(r.0, fs, r.1, run[|run| - 1]);
      Step(r.0, fs, r.1, run[|run| - 1])
  }

  function IdealRun(s: Shadow, fs: Fs, run: seq<Event>): Shadow {
    if run == [] then s else IdealStep(IdealRun(s, fs, run[..|run| - 1]), fs, run[|run| - 1])
  }

  lemma {:induction false} AfterRefines(d: Blocks, fs: Fs, dir: seq<Slot>, run: seq<Event>)
    requires Sound(d, fs, dir) && RunAllowed(d, fs, dir, run)
    ensures OnCard(d, fs)
    ensures var r := After(d, fs, dir, run); ShadowOf(r.0, fs, r.1) == IdealRun(ShadowOf(d, fs, dir), fs, run)
  {
    hide Consistent, Step, IdealStep, Allowed;
    ConsistentBasics(d, fs, dir);
    if run != [] {
      var init := run[..|run| - 1];
      AfterRefines(d, fs, dir, init);
      var r := After(d, fs, dir, init);
      StepRefines(r.0, fs, r.1, run[|run| - 1]);
    }
  }

  /** What reading and listing show of a map. */
  ghost predicate Shows(d: Blocks, fs: Fs, files: map<CString, File>)
    requires OnCard(d, fs)
  {
    && |files| <= ON_CARD && |RowsOf(Loaded(d, fs))| == |files|
    && (forall n :: n in files ==> Listed(RowsOf(Loaded(d, fs)), n, files[n]))
    && (forall n: CString :: NameValid(n) ==> ReadFile(d, fs, n) == if n in files then Bytes(files[n].data) else NotFound)
  }

  lemma ReadableShows(d: Blocks, fs: Fs, dir: seq<Slot>)
    requires Readable(d, fs, dir)
    ensures Shows(d, fs, FilesOf(dir))
  {
    hide Readable, RowsOf, Loaded, ListOf, FilesOf, ReadFile, Listed;
    ReadableBasics(d, fs, dir);
    FilesCount(dir);
    RowsAreList(d, fs, dir, ON_CARD);
    assert Loaded(d, fs)[..ON_CARD] == Loaded(d, fs) && dir[..ON_CARD] == dir;
    ListIsMap(dir);
    forall n: CString | NameValid(n)
      ensures ReadFile(d, fs, n) == if n in FilesOf(dir) then Bytes(FilesOf(dir)[n].data) else NotFound
    {
      ReadIsLookup(d, fs, dir, n);
    }
  }

  /** Every run of completed and interrupted writes, formats, mounts, reads and lists refines the map: each name reads
      as the bytes of the last write whose index entry landed, the listing shows exactly the map, no more than
      32 names exist, and the card stays fit for more. */
  lemma RunRefines(d: Blocks, fs: Fs, dir: seq<Slot>, run: seq<Event>)
    requires Sound(d, fs, dir) && RunAllowed(d, fs, dir, run)
    ensures var r := After(d, fs, dir, run);
            && OnCard(d, fs) && OnCard(r.0, fs) && Sound(r.0, fs, r.1)
            && ShadowOf(r.0, fs, r.1) == IdealRun(ShadowOf(d, fs, dir), fs, run)
            && Shows(r.0, fs, IdealRun(ShadowOf(d, fs, dir), fs, run).st.files)
  {
    hide Consistent, IdealRun, RunAllowed, After, Shows;
    AfterRefines(d, fs, dir, run);
    var r := After(d, fs, dir, run);
    ConsistentBasics(d, fs, dir);
    ConsistentBasics(r.0, fs, r.1);
    ReadableShows(r.0, fs, r.1);
  }

  /** A formatted region is a start. */
  lemma FormattedIsSound(d: Blocks, fs: Fs)
    requires OnCard(d, fs)
    ensures Sound(Apply(d, FormatWrites(fs)), fs, EmptyDir())
    ensures ShadowOf(Apply(d, FormatWrites(fs)), fs, EmptyDir()) == Shadow(Ideal(map[], fs.start + DATA_OFF), fs.start + fs.blocks)
  {
    hide Consistent, BestSuper, SuperOk, Apply, FreshSuper, FilesOf;
    FormatIsEmpty(d, fs);
    FormatCopies(d, fs);
  }
}
