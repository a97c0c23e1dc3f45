/**
 The input journal: a ring of one-block records, each with a checksummed header, payload and tail.
 The in-memory write position is recovered after a reboot by scanning the ring for the newest record,
 where "newer" is decided by the sign of the wrapped 32-bit difference (as in section 3.2 of RFC 1982).
 */
module JournalFormat {
  import opened Words
  import opened Sd
  import Fnv

  const JRNL_MAGIC: uint32 := 0x4C4E_524A
  const JEND_MAGIC: uint32 := 0x444E_454A
  const HDR_BYTES: nat := 28
  const TAIL_BYTES: nat := 16
  const PAYLOAD_MAX: nat := BLOCK_BYTES - HDR_BYTES - TAIL_BYTES

  datatype Record = Record(seqNo: uint32, base: uint32, kind: uint32, payload: seq<uint8>) {
    predicate Valid() {
      |payload| <= PAYLOAD_MAX
    }
  }

  // Writer

  function HeaderWords(r: Record): seq<uint32>
    requires r.Valid()
  {
    [JRNL_MAGIC, r.seqNo, r.base, r.kind, |r.payload|, Fnv.Checksum(r.payload)]
  }

  function TailWords(r: Record): seq<uint32>
    requires r.Valid()
  {
    [JEND_MAGIC, r.seqNo, Fnv.Checksum(r.payload)]
  }

  function Signed(ws: seq<uint32>): seq<uint32> {
    ws + [Fnv.Checksum(ws)]
  }

  function RecordBytes(r: Record): (s: seq<uint8>)
    requires r.Valid()
    ensures |s| == BLOCK_BYTES
  {
    LeWords(Signed(HeaderWords(r))) + r.payload + LeWords(Signed(TailWords(r))) + Zeros(PAYLOAD_MAX - |r.payload|)
  }

  function RecordBlock(r: Record): Block
    requires r.Valid()
  {
    Pack(RecordBytes(r))
  }

  // Reader

  function TailWord(b: Block, j: nat): uint32
    requires b[4] <= PAYLOAD_MAX && j < 4
  {
    Load32(BytesOf(b), HDR_BYTES + b[4] + 4 * j)
  }

  function PayloadOf(b: Block): seq<uint8>
    requires b[4] <= PAYLOAD_MAX
  {
    BytesOf(b)[HDR_BYTES..HDR_BYTES + b[4]]
  }

  predicate HeaderOk(b: Block) {
    b[0] == JRNL_MAGIC && b[4] <= PAYLOAD_MAX && b[6] == Fnv.Checksum(b[..6])
  }

  predicate TailOk(b: Block)
    requires b[4] <= PAYLOAD_MAX
  {
    && TailWord(b, 0) == JEND_MAGIC && TailWord(b, 1) == b[1] && TailWord(b, 2) == b[5]
    && TailWord(b, 3) == Fnv.Checksum([TailWord(b, 0), TailWord(b, 1), TailWord(b, 2)])
  }

  /** The reader's verdict on a block. */
  function Validate(b: Block): (r: Option<Record>)
    ensures r.Some? ==> r.value.Valid()
  {
    if HeaderOk(b) && TailOk(b) && b[5] == Fnv.Checksum(PayloadOf(b))
    then Some(Record(b[1], b[2], b[3], PayloadOf(b)))
    else None
  }

  method BlockValidate(b: Block) returns (r: Option<Record>)
    ensures r == Validate(b)
  {
    hide Fnv.Checksum;
    if b[0] != JRNL_MAGIC {
      return None;
    }
    if b[4] > PAYLOAD_MAX {
      return None;
    }
    if b[6] != Fnv.Checksum(b[..6]) {
      return None;
    }
    var bytes := BytesOf(b);
    var payload := bytes[HDR_BYTES..HDR_BYTES + b[4]];
    var at := HDR_BYTES + b[4];
    var endMagic, recSeq, payloadCrc, tailCrc :=
      Load32(bytes, at), Load32(bytes, at + 4), Load32(bytes, at + 8), Load32(bytes, at + 12);
    if endMagic != JEND_MAGIC || recSeq != b[1] || payloadCrc != b[5]
       || tailCrc != Fnv.Checksum([endMagic, recSeq, payloadCrc]) {
      return None;
    }
    if b[5] != Fnv.Checksum(payload) {
      return None;
    }
    r := Some(Record(b[1], b[2], b[3], payload));
  }

  // Round trip

  lemma LoadWord(pre: seq<uint8>, ws: seq<uint32>, post: seq<uint8>, i: nat)
    requires i < |ws|
    ensures Load32(pre + LeWords(ws) + post, |pre| + 4 * i) == ws[i]
  {
    LeWordsAt(ws, i);
    hide LeWords, Le32, Load32;
    var s, w, k := pre + LeWords(ws) + post, LeWords(ws), |pre| + 4 * i;
    assert s[k..k + 4] == w[4 * i..4 * i + 4];
    LoadStored32(s, k, ws[i]);
  }

  lemma PackedWord(s: seq<uint8>, ws: seq<uint32>, i: nat)
    requires |s| == BLOCK_BYTES && LeWords(ws) <= s && i < |ws|
    ensures 4 * |ws| <= BLOCK_BYTES && Pack(s)[i] == ws[i]
  {
    var post := s[4 * |ws|..];
    assert s == [] + LeWords(ws) + post;
    LoadWord([], ws, post, i);
  }

  /** What the writer stored, the reader accepts, unchanged. */
  lemma ValidateRecord(r: Record)
    requires r.Valid()
    ensures Validate(RecordBlock(r)) == Some(r)
  {
    hide Fnv.Checksum, LeWords, Pack, BytesOf, Load32;
    var s, b := RecordBytes(r), RecordBlock(r);
    var h, t := Signed(HeaderWords(r)), Signed(TailWords(r));
    var zs := Zeros(PAYLOAD_MAX - |r.payload|);
    assert s == LeWords(h) + (r.payload + LeWords(t) + zs);
    forall i | 0 <= i < 7
      ensures b[i] == h[i]
    {
      PackedWord(s, h, i);
    }
    assert b[..6] == HeaderWords(r);
    BytesOfPack(s);
    assert s[HDR_BYTES..HDR_BYTES + |r.payload|] == r.payload;
    forall j | 0 <= j < 4
      ensures TailWord(b, j) == t[j]
    {
      LoadWord(LeWords(h) + r.payload, t, zs, j);
    }
    assert [TailWord(b, 0), TailWord(b, 1), TailWord(b, 2)] == TailWords(r);
  }

  // Detection

  /** Only a block that begins with "JRNL" and has "JEND" behind its payload is taken for a record. */
  lemma ValidMarks(b: Block)
    requires Validate(b).Some?
    ensures b[0] == 0x4C4E_524A && 28 + |PayloadOf(b)| + 4 <= 512
    ensures Load32(BytesOf(b), 28 + |PayloadOf(b)|) == 0x444E_454A
  {
    hide Load32, BytesOf;
  }

  /** Any single-byte change in the header, payload or tail of a valid record is rejected. */
  lemma SingleByteChangeRejected(b: Block, b': Block, k: nat)
    requires Validate(b).Some? && DifferAt(b, b', k) && k < HDR_BYTES + b[4] + TAIL_BYTES
    ensures Validate(b') == None
  {
    hide BytesOf, Load32, Fnv.Checksum;
    WordsDiffer(b, b', k);
    if k < HDR_BYTES {
      HeaderChangeRejected(b, b', k / 4);
    } else if Validate(b').Some? {
      assert b[..7] == b'[..7] && b[4] == b'[4] && b[5] == b'[5];
      var at := HDR_BYTES + b[4];
      if k < at {
        var p, p' := PayloadOf(b), PayloadOf(b');
        Fnv.ChecksumDetects(p, p', k - HDR_BYTES);
      } else {
        var j := (k - at) / 4;
        LoadSame(BytesOf(b), BytesOf(b'), k, at);
        LoadSame(BytesOf(b), BytesOf(b'), k, at + 4);
        LoadSame(BytesOf(b), BytesOf(b'), k, at + 8);
        LoadSame(BytesOf(b), BytesOf(b'), k, at + 12);
      }
    }
  }

  lemma HeaderChangeRejected(b: Block, b': Block, i: nat)
    requires HeaderOk(b) && i < 7 && b[i] != b'[i]
    requires forall j :: 0 <= j < BLOCK_WORDS && j != i ==> b[j] == b'[j]
    ensures !HeaderOk(b')
  {
    hide Fnv.Checksum;
    if i == 6 {
      assert b[..6] == b'[..6];
    } else {
      Fnv.ChecksumDetects(b[..6], b'[..6], i);
    }
  }
}

module Journal {
  import opened Words
  import opened Sd
  import opened JournalFormat

  const BLOCKS_MAX: nat := 4096
  const HALF_RANGE: int := 0x8000_0000

  /** a is newer than b: their wrapped difference, read as a signed number, is positive. */
  predicate SeqNewer(a: uint32, b: uint32) {
    0 < (a - b) % TWO_32 < HALF_RANGE
  }

  /** On numbers taken modulo 2^32 the comparison is exact while they are less than half the range apart. */
  lemma NewerIsGreater(a: nat, b: nat)
    requires -HALF_RANGE < a - b < HALF_RANGE
    ensures SeqNewer(a % TWO_32, b % TWO_32) <==> a > b
  {
    ModDifference(a, b);
  }

  lemma ModDifference(a: nat, b: nat)
    ensures (a % TWO_32 - b % TWO_32) % TWO_32 == (a - b) % TWO_32
  {
    var qa, qb := a / TWO_32, b / TWO_32;
    assert a - b == a % TWO_32 - b % TWO_32 + TWO_32 * (qa - qb);
    ModAdd(a % TWO_32 - b % TWO_32, qa - qb);
  }

  lemma ModAdd(x: int, q: int)
    ensures (x + TWO_32 * q) % TWO_32 == x % TWO_32
  {
  }

  // The ring as a function of the history

  /** Index, in the history of n appended records, of the record in ring position j; negative while unused. */
  function RecordAt(n: nat, blocks: nat, j: nat): int
    requires j < blocks
  {
    var r := n % blocks;
    if j < r then n - r + j else n - r + j - blocks
  }

  /** Records are numbered from one on, modulo 2^32. */
  predicate Numbered(hist: seq<Record>) {
    forall i :: 0 <= i < |hist| ==> hist[i].Valid() && hist[i].seqNo == (i + 1) % TWO_32
  }

  /** The ring holds the last records of the history; positions never written do not validate. */
  predicate Holds(d: Blocks, start: nat, blocks: nat, hist: seq<Record>) {
    && 0 < blocks && start + blocks <= |d| && Numbered(hist)
    && forall j :: 0 <= j < blocks ==> PositionHolds(d[start + j], RecordAt(|hist|, blocks, j), hist)
  }

  predicate PositionHolds(b: Block, k: int, hist: seq<Record>)
    requires Numbered(hist)
  {
    k < |hist| && if k < 0 then Validate(b) == None else b == RecordBlock(hist[k])
  }

  lemma RecordAtRange(n: nat, blocks: nat, j: nat)
    requires j < blocks
    ensures n - blocks <= RecordAt(n, blocks, j) < n
  {
  }

  /** One append moves exactly the position it writes to the new record. */
  lemma RecordAtNext(n: nat, blocks: nat, j: nat)
    requires j < blocks
    ensures RecordAt(n + 1, blocks, j) == if j == n % blocks then n else RecordAt(n, blocks, j)
  {
    ModSucc(n, blocks);
  }

  lemma AppendHolds(d: Blocks, start: nat, blocks: nat, hist: seq<Record>, r: Record)
    requires Holds(d, start, blocks, hist) && r.Valid() && r.seqNo == (|hist| + 1) % TWO_32
    ensures Holds(d[start + |hist| % blocks := RecordBlock(r)], start, blocks, hist + [r])
  {
    hide RecordBlock, Validate, RecordAt;
    var n, m := |hist|, |hist| + 1;
    var d', hist' := d[start + n % blocks := RecordBlock(r)], hist + [r];
    forall j | 0 <= j < blocks
      ensures PositionHolds(d'[start + j], RecordAt(m, blocks, j), hist')
    {
      RecordAtNext(n, blocks, j);
      assert PositionHolds(d[start + j], RecordAt(n, blocks, j), hist);
    }
  }

  lemma BlankHoldsNothing(d: Blocks, start: nat, blocks: nat)
    requires 0 < blocks && start + blocks <= |d|
    requires forall b :: start <= b < start + blocks ==> Validate(d[b]) == None
    ensures Holds(d, start, blocks, [])
  {
    forall j | 0 <= j < blocks
      ensures RecordAt(0, blocks, j) < 0
    {
      RecordAtRange(0, blocks, j);
    }
  }

  // Tail scan

  datatype Tail = Tail(seqNo: uint32, idx: nat)

  /** The best record seen among the first i positions. */
  function Best(d: Blocks, start: nat, i: nat): Option<Tail>
    requires start + i <= |d|
  {
    if i == 0 then None
    else
      var best := Best(d, start, i - 1);
      match Validate(d[start + i - 1])
      case None => best
      case Some(r) => if best == None || SeqNewer(r.seqNo, best.value.seqNo) then Some(Tail(r.seqNo, i - 1)) else best
  }

  /** Position of the newest record among the first i positions; negative when there is none. */
  function Newest(n: nat, blocks: nat, i: nat): int
    requires i <= blocks && blocks > 0
  {
    if n == 0 || i == 0 then -1 else if 0 < n % blocks < i then n % blocks - 1 else i - 1
  }

  /** Looking at one more position: it becomes the newest exactly when it is used and its record is later. */
  lemma NewestStep(n: nat, blocks: nat, i: nat)
    requires 0 < i <= blocks
    ensures var k, j := Newest(n, blocks, i - 1), RecordAt(n, blocks, i - 1);
            && Newest(n, blocks, i) == (if j >= 0 && (k < 0 || j > RecordAt(n, blocks, k)) then i - 1 else k)
            && -1 <= k < i - 1 && (k >= 0 ==> 0 <= RecordAt(n, blocks, k))
  {
    var r := n % blocks;
    if n < blocks {
      assert r == n;
    } else {
      FullRounds(n, blocks);
    }
    NewestStepAt(n, r, blocks, i);
  }

  /** Record in position j when the write position is r. */
  function RecordFrom(n: nat, r: nat, blocks: nat, j: nat): int {
    if j < r then n - r + j else n - r + j - blocks
  }

  function NewestFrom(n: nat, r: nat, i: nat): int {
    if n == 0 || i == 0 then -1 else if 0 < r < i then r - 1 else i - 1
  }

  lemma NewestStepAt(n: nat, r: nat, blocks: nat, i: nat)
    requires 0 < i <= blocks && r < blocks && (if n < blocks then r == n else n - r >= blocks)
    ensures var k, j := NewestFrom(n, r, i - 1), RecordFrom(n, r, blocks, i - 1);
            && NewestFrom(n, r, i) == (if j >= 0 && (k < 0 || j > RecordFrom(n, r, blocks, k)) then i - 1 else k)
            && -1 <= k < i - 1 && (k >= 0 ==> 0 <= RecordFrom(n, r, blocks, k))
  {
  }

  lemma FullRounds(n: nat, m: nat)
    requires 0 < m <= n
    ensures n - n % m >= m
  {
    assert n - n % m == m * (n / m);
    MulAtLeast(m, n / m);
  }

  lemma {:induction false} BestIsNewest(d: Blocks, start: nat, blocks: nat, hist: seq<Record>, i: nat)
    requires Holds(d, start, blocks, hist) && i <= blocks <= BLOCKS_MAX
    ensures -1 <= Newest(|hist|, blocks, i) < i
    ensures Best(d, start, i) == TailAt(|hist|, blocks, Newest(|hist|, blocks, i))
  {
    hide RecordBlock, Validate, SeqNewer, Newest, RecordAt;
    var n := |hist|;
    if i == 0 {
      NewestNone(n, blocks);
    } else {
      BestIsNewest(d, start, blocks, hist, i - 1);
      NewestStep(n, blocks, i);
      var k, j := Newest(n, blocks, i - 1), RecordAt(n, blocks, i - 1);
      RecordAtRange(n, blocks, i - 1);
      assert PositionHolds(d[start + (i - 1)], j, hist);
      if j >= 0 {
        ValidateRecord(hist[j]);
        if k >= 0 {
          RecordAtRange(n, blocks, k);
          NewerIsGreater(j + 1, RecordAt(n, blocks, k) + 1);
        }
      }
    }
  }

  lemma NewestNone(n: nat, blocks: nat)
    requires blocks > 0
    ensures Newest(n, blocks, 0) == -1
  {
  }

  function TailAt(n: nat, blocks: nat, k: int): Option<Tail>
    requires k < blocks
  {
    if k < 0 then None else Some(Tail((RecordAt(n, blocks, k) + 1) % TWO_32, k))
  }

  /** The last record appended sits just before the write position. */
  lemma NewestOverall(n: nat, blocks: nat)
    requires blocks > 0
    ensures var k := Newest(n, blocks, blocks);
            && k < blocks && (k < 0 <==> n == 0)
            && (n > 0 ==> RecordAt(n, blocks, k) == n - 1 && (k + 1) % blocks == n % blocks)
  {
    if n > 0 && n % blocks == 0 {
      assert blocks % blocks == 0;
      FullOrZero(n, blocks);
    } else if n > 0 {
      SmallMod(n % blocks, blocks);
    }
  }

  lemma FullOrZero(n: nat, m: nat)
    requires m > 0 && n > 0 && n % m == 0
    ensures n >= m
  {
    if n < m {
      SmallMod(n, m);
    }
  }

  /** The write position a scan of the ring arrives at. */
  function NextLba(tail: Option<Tail>, start: nat, blocks: nat): nat
    requires blocks > 0
  {
    if tail.Some? then start + (tail.value.idx + 1) % blocks else start
  }

  function NextSeqNo(tail: Option<Tail>): uint32 {
    if tail.Some? then (tail.value.seqNo + 1) % TWO_32 else 1
  }

  /** Recovery: after any number of appends to a blank ring, also past the 32-bit wrap, the scan arrives
      exactly at the position and number the writer had in memory. */
  lemma ScanRecovers(d: Blocks, start: nat, blocks: nat, hist: seq<Record>)
    requires Holds(d, start, blocks, hist) && blocks <= BLOCKS_MAX
    ensures NextLba(Best(d, start, blocks), start, blocks) == start + |hist| % blocks
    ensures NextSeqNo(Best(d, start, blocks)) == (|hist| + 1) % TWO_32
  {
    hide Newest, RecordAt, Best, Holds;
    var n := |hist|;
    HoldsBasics(d, start, blocks, hist);
    BestIsNewest(d, start, blocks, hist, blocks);
    NewestOverall(n, blocks);
    if n > 0 {
      WrapSucc(n);
    } else {
      SmallMod(0, blocks);
    }
  }

  /** Where the next record goes, and its number. */
  datatype Spot = Spot(lba: nat, seqNo: uint32)

  /** The spot after a history of n records. */
  function SpotAfter(n: nat, start: nat, blocks: nat): Spot
    requires blocks > 0
  {
    Spot(start + n % blocks, (n + 1) % TWO_32)
  }

  function Scanned(d: Blocks, start: nat, blocks: nat): (s: Spot)
    requires blocks > 0 && start + blocks <= |d|
    ensures start <= s.lba < start + blocks
  {
    hide Best;
    Spot(NextLba(Best(d, start, blocks), start, blocks), NextSeqNo(Best(d, start, blocks)))
  }

  /** The spot a journal takes up: without a snapshot number it does not scan. */
  function ConfiguredSpot(d: Blocks, start: nat, blocks: nat, snapshot: uint32): (s: Spot)
    requires blocks > 0 && start + blocks <= |d|
    ensures start <= s.lba < start + blocks
  {
    if snapshot == 0 then Spot(start, 1) else Scanned(d, start, blocks)
  }

  /** Configuring takes up the writer's spot exactly when it scans, or the history ends where a blank ring begins. */
  lemma ConfiguredExactly(d: Blocks, start: nat, blocks: nat, hist: seq<Record>, snapshot: uint32)
    requires Holds(d, start, blocks, hist) && blocks <= BLOCKS_MAX
    ensures 0 < blocks && start + blocks <= |d|
    ensures ConfiguredSpot(d, start, blocks, snapshot) == SpotAfter(|hist|, start, blocks)
            <==> snapshot >= 1 || (|hist| % blocks == 0 && |hist| % TWO_32 == 0)
  {
    hide Best, Holds;
    HoldsBasics(d, start, blocks, hist);
    ScanRecovers(d, start, blocks, hist);
  }

  /** A ring holds a record exactly when one was appended. */
  lemma UsedExactly(d: Blocks, start: nat, blocks: nat, hist: seq<Record>)
    requires Holds(d, start, blocks, hist)
    ensures hist == [] <==> forall b :: start <= b < start + blocks ==> Validate(d[b]) == None
  {
    hide RecordBlock, Validate, RecordAt, Newest;
    if hist == [] {
      forall b | start <= b < start + blocks
        ensures Validate(d[b]) == None
      {
        RecordAtRange(0, blocks, b - start);
        assert PositionHolds(d[start + (b - start)], RecordAt(0, blocks, b - start), hist);
      }
    } else {
      NewestOverall(|hist|, blocks);
      var k := Newest(|hist|, blocks, blocks);
      assert PositionHolds(d[start + k], RecordAt(|hist|, blocks, k), hist);
      ValidateRecord(hist[|hist| - 1]);
    }
  }

  /** What a caller can see on the card: configured without a snapshot number, the journal takes up the writer's
      spot exactly when no block of the ring validates. */
  lemma UnscannedExactly(d: Blocks, start: nat, blocks: nat, hist: seq<Record>)
    requires Holds(d, start, blocks, hist) && blocks <= BLOCKS_MAX && |hist| < TWO_32
    ensures 0 < blocks && start + blocks <= |d|
    ensures ConfiguredSpot(d, start, blocks, 0) == SpotAfter(|hist|, start, blocks)
            <==> forall b :: start <= b < start + blocks ==> Validate(d[b]) == None
  {
    hide Holds, Validate;
    HoldsBasics(d, start, blocks, hist);
    ConfiguredExactly(d, start, blocks, hist, 0);
    UsedExactly(d, start, blocks, hist);
    SmallMod(0, blocks);
  }

  /** The spot after s in the ring. */
  function Moved(s: Spot, start: nat, blocks: nat): Spot {
    Spot(if s.lba + 1 >= start + blocks then start else s.lba + 1, (s.seqNo + 1) % TWO_32)
  }

  lemma SpotMoves(n: nat, start: nat, blocks: nat)
    requires blocks > 0
    ensures Moved(SpotAfter(n, start, blocks), start, blocks) == SpotAfter(n + 1, start, blocks)
  {
    ModSucc(n, blocks);
    WrapSucc(n + 1);
  }

  // An append after an unscanned take-over

  /** Before the history reaches half the number range, every record seen is numbered below it, and those behind
      the first block are numbered two or more. */
  lemma ValidatedNumber(d: Blocks, start: nat, blocks: nat, hist: seq<Record>, j: nat)
    requires Holds(d, start, blocks, hist) && |hist| < HALF_RANGE - 1 && 0 < j < blocks
    ensures Validate(d[start + j]).Some? <==> RecordAt(|hist|, blocks, j) >= 0
    ensures Validate(d[start + j]).Some? ==> 2 <= Validate(d[start + j]).value.seqNo < HALF_RANGE
  {
    hide RecordBlock, Validate, RecordAt;
    var k := RecordAt(|hist|, blocks, j);
    RecordAtRange(|hist|, blocks, j);
    assert PositionHolds(d[start + j], k, hist);
    if k >= 0 {
      ValidateRecord(hist[k]);
      NotFirst(|hist|, blocks, j);
    }
  }

  lemma NotFirst(n: nat, blocks: nat, j: nat)
    requires 0 < j < blocks && RecordAt(n, blocks, j) >= 0
    ensures RecordAt(n, blocks, j) >= 1
  {
    var r, q := n % blocks, n / blocks;
    assert n - r == blocks * q;
    if j >= r && n - r + j - blocks == 0 {
      MultipleOnly(blocks, q, blocks - j);
    }
  }

  /** The scan, once it has passed the second block of a ring whose first block was overwritten with number one. */
  lemma {:induction false} BestAfterOverwrite(d: Blocks, start: nat, blocks: nat, hist: seq<Record>, r: Record, i: nat)
    requires Holds(d, start, blocks, hist) && |hist| < HALF_RANGE - 1 && r.Valid() && r.seqNo == 1 && 1 <= i <= blocks
    ensures var d' := d[start := RecordBlock(r)];
            var used := exists b :: start < b < start + i && Validate(d[b]).Some?;
            && Best(d', start, i).Some?
            && (if used then 2 <= Best(d', start, i).value.seqNo < HALF_RANGE else Best(d', start, i) == Some(Tail(1, 0)))
  {
    hide RecordBlock, Validate, RecordAt, Holds;
    HoldsBasics(d, start, blocks, hist);
    var d' := d[start := RecordBlock(r)];
    if i == 1 {
      ValidateRecord(r);
      assert Best(d', start, 0) == None;
      assert d'[start + 1 - 1] == RecordBlock(r);
    } else {
      BestAfterOverwrite(d, start, blocks, hist, r, i - 1);
      ValidatedNumber(d, start, blocks, hist, i - 1);
      assert d'[start + i - 1] == d[start + (i - 1)];
      OneMoreUsed(d, start, i);
    }
  }

  lemma OneMoreUsed(d: Blocks, start: nat, i: nat)
    requires 2 <= i && start + i <= |d|
    ensures (exists b :: start < b < start + i && Validate(d[b]).Some?)
            <==> (exists b :: start < b < start + (i - 1) && Validate(d[b]).Some?) || Validate(d[start + (i - 1)]).Some?
  {
    hide Validate;
  }

  /** After an unscanned take-over and one append, the next scan agrees with memory exactly when no block behind
      the first one held a record. */
  lemma UnscannedAppendExactly(d: Blocks, start: nat, blocks: nat, hist: seq<Record>, r: Record)
    requires Holds(d, start, blocks, hist) && |hist| < HALF_RANGE - 1 && r.Valid() && r.seqNo == 1
    ensures 0 < blocks && start + blocks <= |d|
    ensures Scanned(d[start := RecordBlock(r)], start, blocks) == Spot(start + 1 % blocks, 2)
            <==> forall b :: start < b < start + blocks ==> Validate(d[b]) == None
  {
    hide RecordBlock, Validate, Best, Holds;
    HoldsBasics(d, start, blocks, hist);
    BestAfterOverwrite(d, start, blocks, hist, r, blocks);
  }

  function TwoRecords(): (hist: seq<Record>)
    ensures |hist| == 2 && Numbered(hist)
  {
    [Record(1, 0, EVT_RX_BYTES, []), Record(2, 0, EVT_RX_BYTES, [])]
  }

  /** A card with two records in a ring of three blocks. */
  function TwoRecordCard(start: nat): (d: Blocks)
    ensures |d| == start + 3 && d[start] == RecordBlock(TwoRecords()[0]) && d[start + 1] == RecordBlock(TwoRecords()[1])
    ensures Validate(d[start + 2]) == None
  {
    Unused(start) + [RecordBlock(TwoRecords()[0]), RecordBlock(TwoRecords()[1]), UNUSED]
  }

  lemma TwoRecordsHeld(start: nat)
    ensures Holds(TwoRecordCard(start), start, 3, TwoRecords())
  {
    hide RecordBlock, Validate, TwoRecordCard, TwoRecords;
    assert RecordAt(2, 3, 0) == 0 && RecordAt(2, 3, 1) == 1 && RecordAt(2, 3, 2) == -1;
    forall j | 0 <= j < 3
      ensures PositionHolds(TwoRecordCard(start)[start + j], RecordAt(2, 3, j), TwoRecords())
    {
      assert j == 0 || j == 1 || j == 2;
    }
  }

  /** The case that fails: two records in a ring of three blocks. Taken over without a snapshot number it is written
      at its first block with number one, and then the scan no longer arrives where memory is. */
  lemma UnscannedAppendDiverges(start: nat, r: Record)
    requires r.Valid() && r.seqNo == 1
    ensures var d, hist := TwoRecordCard(start), TwoRecords();
            && Holds(d, start, 3, hist) && ConfiguredSpot(d, start, 3, 0) == Spot(start, 1) != SpotAfter(|hist|, start, 3)
            && Moved(Spot(start, 1), start, 3) == Spot(start + 1, 2)
            && Scanned(d[start := RecordBlock(r)], start, 3) != Spot(start + 1, 2)
  {
    hide RecordBlock, Validate, TwoRecordCard, TwoRecords, Holds, Scanned;
    var d, hist := TwoRecordCard(start), TwoRecords();
    TwoRecordsHeld(start);
    ValidateRecord(hist[1]);
    assert Validate(d[start + 1]).Some?;
    UnscannedAppendExactly(d, start, 3, hist, r);
  }

  const UNUSED: Block := WordBlock([])

  function Unused(n: nat): (bs: seq<Block>)
    ensures |bs| == n && forall i :: 0 <= i < n ==> bs[i] == UNUSED
  {
    seq(n, i => UNUSED)
  }

  lemma HoldsBasics(d: Blocks, start: nat, blocks: nat, hist: seq<Record>)
    requires Holds(d, start, blocks, hist)
    ensures 0 < blocks && start + blocks <= |d| && |hist| % blocks < blocks && Numbered(hist)
  {
  }

  lemma WrapSucc(n: nat)
    ensures (n % TWO_32 + 1) % TWO_32 == (n + 1) % TWO_32
  {
  }

  // Replay

  const PENDING_CAP: nat := 64
  const EVT_RX_BYTES: uint32 := 1
  const EVT_IO_OWNER: uint32 := 2

  datatype Action = InjectRx(bytes: seq<uint8>) | Acquire(owner: uint8) | Release(owner: uint8)

  /** What replaying one record does. */
  function ActionsOf(r: Record): seq<Action> {
    if r.kind == EVT_RX_BYTES then [InjectRx(r.payload)]
    else if r.kind == EVT_IO_OWNER && |r.payload| >= 2 then
      [if r.payload[1] % 2 == 1 then Acquire(r.payload[0]) else Release(r.payload[0])]
    else []
  }

  /** The actions of the records based on the given snapshot or a later one, in order. */
  function Replayed(rs: seq<Record>, snapshot: uint32): seq<Action> {
    if rs == [] then []
    else Replayed(rs[..|rs| - 1], snapshot)
         + if rs[|rs| - 1].base < snapshot then [] else ActionsOf(rs[|rs| - 1])
  }

  // What was captured is what is replayed

  /** What the journal captures: typed input, or a task taking or giving up the input. */
  datatype Capture = Typed(bytes: seq<uint8>) | Ownership(owner: uint8, acquired: bool)

  /** The record of a capture, as the writer forms it. */
  function RecordFor(c: Capture, seqNo: uint32, base: uint32): Record {
    match c
    case Typed(bytes) => Record(seqNo, base, EVT_RX_BYTES, bytes)
    case Ownership(owner, acquired) => Record(seqNo, base, EVT_IO_OWNER, [owner, if acquired then 1 else 0])
  }

  /** What must happen again at boot. */
  function Repeated(c: Capture): Action {
    match c
    case Typed(bytes) => InjectRx(bytes)
    case Ownership(owner, true) => Acquire(owner)
    case Ownership(owner, false) => Release(owner)
  }

  /** Replaying the record of a capture repeats exactly that capture. */
  lemma CaptureReplays(c: Capture, seqNo: uint32, base: uint32)
    ensures ActionsOf(RecordFor(c, seqNo, base)) == [Repeated(c)]
  {
  }

  /** The history records these captures, in order. */
  predicate Records(hist: seq<Record>, caps: seq<Capture>) {
    |hist| == |caps| && forall i :: 0 <= i < |hist| ==> hist[i] == RecordFor(caps[i], hist[i].seqNo, hist[i].base)
  }

  /** A history of captures based on the snapshot or a later one replays as the captures, in order. */
  lemma {:induction false} HistoryReplays(hist: seq<Record>, caps: seq<Capture>, snapshot: uint32)
    requires Records(hist, caps) && forall i :: 0 <= i < |hist| ==> hist[i].base >= snapshot
    ensures |Replayed(hist, snapshot)| == |caps|
    ensures forall i :: 0 <= i < |caps| ==> Replayed(hist, snapshot)[i] == Repeated(caps[i])
  {
    if hist != [] {
      var n := |hist| - 1;
      HistoryReplays(hist[..n], caps[..n], snapshot);
      CaptureReplays(caps[n], hist[n].seqNo, hist[n].base);
    }
  }

  /** Records from before the snapshot are passed over. */
  lemma {:induction false} OlderPassedOver(older: seq<Record>, hist: seq<Record>, snapshot: uint32)
    requires forall i :: 0 <= i < |older| ==> older[i].base < snapshot
    ensures Replayed(older + hist, snapshot) == Replayed(hist, snapshot)
    decreases |older| + |hist|
  {
    hide ActionsOf;
    if hist != [] {
      var n := |hist| - 1;
      OlderPassedOver(older, hist[..n], snapshot);
      ReplayedNext(older + hist[..n], hist[n], snapshot);
      ReplayedNext(hist[..n], hist[n], snapshot);
      assert older + hist == older + hist[..n] + [hist[n]] && hist == hist[..n] + [hist[n]];
    } else if older != [] {
      var m := |older| - 1;
      OlderPassedOver(older[..m], [], snapshot);
      ReplayedNext(older[..m], older[m], snapshot);
      assert older + hist == older[..m] + [older[m]] && older[..m] + [] == older[..m];
    }
  }

  /** The typed input in a history. */
  function InputOf(hist: seq<Record>): seq<uint8> {
    if hist == [] then []
    else
      var r := hist[|hist| - 1];
      InputOf(hist[..|hist| - 1]) + if r.kind == EVT_RX_BYTES then r.payload else []
  }

  lemma InputOfNone()
    ensures InputOf([]) == []
  {
  }

  lemma InputOfOne(r: Record)
    ensures InputOf([r]) == if r.kind == EVT_RX_BYTES then r.payload else []
  {
    assert [r][..0] == [] && InputOf([r][..0]) == [];
  }

  lemma InputLast(hist: seq<Record>)
    requires hist != []
    ensures var r := hist[|hist| - 1];
            InputOf(hist) == InputOf(hist[..|hist| - 1]) + if r.kind == EVT_RX_BYTES then r.payload else []
  {
  }

  lemma {:induction false} InputAppend(a: seq<Record>, b: seq<Record>)
    ensures InputOf(a + b) == InputOf(a) + InputOf(b)
    decreases |b|
  {
    if b == [] {
      assert a + b == a;
    } else {
      hide InputOf;
      var n := |b| - 1;
      InputAppend(a, b[..n]);
      InputLast(a + b);
      InputLast(b);
      assert (a + b)[..|a| + n] == a + b[..n] && (a + b)[|a| + n] == b[n];
    }
  }

  /** The records still in the ring, oldest first. */
  function Surviving(hist: seq<Record>, blocks: nat): seq<Record> {
    if |hist| <= blocks then hist else hist[|hist| - blocks..]
  }

  /** Where the oldest record sits, and which record the i-th step from there meets. */
  lemma ReplayOrder(n: nat, blocks: nat, i: nat)
    requires i < blocks
    ensures n >= blocks ==> RecordAt(n, blocks, (n % blocks + i) % blocks) == n - blocks + i
    ensures n < blocks ==> RecordAt(n, blocks, (0 + i) % blocks) == if i < n then i else i - blocks
  {
    var r := n % blocks;
    if n >= blocks {
      if r + i < blocks {
        SmallMod(r + i, blocks);
      } else {
        SmallMod(r + i - blocks, blocks);
        assert (r + i) % blocks == r + i - blocks by {
          DivUnique(r + i, blocks, 1, r + i - blocks);
        }
      }
    } else {
      SmallMod(n, blocks);
      SmallMod(i, blocks);
    }
  }

  /** A source of block reads that may fail or change between attempts. */
  type Media = (nat, nat) -> Option<Block>

  ghost predicate Stable(media: Media, d: Blocks, start: nat, blocks: nat)
    requires start + blocks <= |d|
  {
    forall t: nat, lba: nat :: start <= lba < start + blocks ==> media(t, lba) == Some(d[lba])
  }

  /** Reads are stable, the ring holds the history, and relNext is the recovered write position. */
  ghost predicate GoodRing(media: Media, d: Blocks, start: nat, blocks: nat, relNext: nat, hist: seq<Record>)
    requires start + blocks <= |d|
  {
    && Stable(media, d, start, blocks) && Holds(d, start, blocks, hist)
    && relNext == |hist| % blocks && blocks <= BLOCKS_MAX
  }

  function FirstRel(n: nat, blocks: nat): nat
    requires blocks > 0
  {
    if n >= blocks then n % blocks else 0
  }

  /** The replay loop on any media: it ends, restarts at most once, and on a stable ring it visits the
      surviving records oldest to newest. */
  method ReplayLoop(media: Media, start: nat, blocks: nat, relNext: nat, snapshot: uint32, ghost d: Blocks, ghost hist: seq<Record>)
    returns (visited: seq<Record>, actions: seq<Action>, ghost restarts: nat)
    requires 0 < blocks && relNext < blocks && start + blocks <= |d|
    ensures restarts <= 1 && |visited| <= blocks
    ensures actions == Replayed(visited, snapshot)
    ensures GoodRing(media, d, start, blocks, relNext, hist) ==> visited == Surviving(hist, blocks) && restarts == 0
  {
    hide Validate, SeqNewer, Replayed, GoodRing, Surviving, FirstRel, ActionsOf;
    ghost var good, s := GoodRing(media, d, start, blocks, relNext, hist), Surviving(hist, blocks);
    visited, actions, restarts := [], [], 0;
    ReplayedNone(snapshot);
    var attempt, startRel := 1, 0;
    var first := media(0, start + relNext);
    if good {
      StartOfReplay(media, d, start, blocks, relNext, hist, 0);
    }
    if first.Some? {
      var r := BlockValidate(first.value);
      if r.Some? {
        startRel := relNext;
      }
    }
    var prev: Option<uint32> := None;
    var i := 0;
    while i < blocks
      invariant startRel < blocks && i <= blocks && |visited| <= i
      invariant restarts == 0 || (restarts == 1 && startRel == 0)
      invariant actions == Replayed(visited, snapshot)
      invariant good ==> startRel == FirstRel(|hist|, blocks) && restarts == 0 && |s| <= blocks
      invariant good ==> i <= |s| && visited == s[..i]
      invariant good ==> prev == if i == 0 then None else Some(s[i - 1].seqNo)
      decreases startRel != 0, blocks - i
    {
      var rel := (startRel + i) % blocks;
      var blk := media(attempt, start + rel);
      if good {
        ReplayStep(media, d, start, blocks, relNext, hist, i, attempt);
      }
      attempt := attempt + 1;
      if blk.None? {
        break;
      }
      var r := BlockValidate(blk.value);
      if r.None? {
        if i == 0 && startRel != 0 {
          startRel, prev, i := 0, None, 0;
          restarts := restarts + 1;
          continue;
        }
        break;
      }
      if prev.Some? && !SeqNewer(r.value.seqNo, prev.value) {
        break;
      }
      prev := Some(r.value.seqNo);
      ReplayedNext(visited, r.value, snapshot);
      visited := visited + [r.value];
      if r.value.base >= snapshot {
        actions := actions + ActionsOf(r.value);
      }
      i := i + 1;
    }
  }

  lemma ReplayedNone(snapshot: uint32)
    ensures Replayed([], snapshot) == []
  {
  }

  lemma ReplayedNext(rs: seq<Record>, r: Record, snapshot: uint32)
    ensures Replayed(rs + [r], snapshot) == Replayed(rs, snapshot) + if r.base < snapshot then [] else ActionsOf(r)
  {
    assert (rs + [r])[..|rs|] == rs;
  }

  /** The block at the write position validates exactly when the ring is full. */
  lemma StartOfReplay(media: Media, d: Blocks, start: nat, blocks: nat, relNext: nat, hist: seq<Record>, attempt: nat)
    requires start + blocks <= |d| && relNext < blocks && GoodRing(media, d, start, blocks, relNext, hist)
    ensures media(attempt, start + relNext).Some?
    ensures FirstRel(|hist|, blocks)
            == if Validate(media(attempt, start + relNext).value).Some? then relNext else 0
    ensures |Surviving(hist, blocks)| <= blocks
  {
    hide RecordAt, Validate, RecordBlock;
    var n := |hist|;
    assert PositionHolds(d[start + relNext], RecordAt(n, blocks, relNext), hist);
    if n >= blocks {
      ReplayOrder(n, blocks, 0);
      SmallMod(relNext, blocks);
      ValidateRecord(hist[n - blocks]);
    } else {
      SmallMod(n, blocks);
      ReplayOrder(n, blocks, n);
    }
  }

  /** Step i of the replay meets surviving record i, newer than the one before, or an unused block after the last. */
  lemma ReplayStep(media: Media, d: Blocks, start: nat, blocks: nat, relNext: nat, hist: seq<Record>, i: nat, attempt: nat)
    requires start + blocks <= |d| && relNext < blocks && GoodRing(media, d, start, blocks, relNext, hist) && i < blocks
    ensures var s, blk := Surviving(hist, blocks), media(attempt, start + (FirstRel(|hist|, blocks) + i) % blocks);
            && blk.Some?
            && (i < |s| ==> Validate(blk.value) == Some(s[i]))
            && (i == |s| ==> Validate(blk.value) == None)
            && (0 < i < |s| ==> SeqNewer(s[i].seqNo, s[i - 1].seqNo))
            && (s == [] ==> FirstRel(|hist|, blocks) == 0)
  {
    hide RecordAt, Validate, RecordBlock, SeqNewer;
    var n, s := |hist|, Surviving(hist, blocks);
    var rel := (FirstRel(n, blocks) + i) % blocks;
    ReplayOrder(n, blocks, i);
    assert PositionHolds(d[start + rel], RecordAt(n, blocks, rel), hist);
    if i < |s| {
      var k := if n >= blocks then n - blocks + i else i;
      assert s[i] == hist[k];
      ValidateRecord(hist[k]);
      if i > 0 {
        assert s[i - 1] == hist[k - 1];
        NewerIsGreater(k + 1, k);
      }
    }
  }

  class Ring {
    var configured: bool
    var scanReady: bool
    var replaying: bool
    var start: nat
    var blocks: nat
    var nextLba: nat
    var nextSeq: uint32
    var lastSnapshot: uint32
    var pending: seq<uint8>

    constructor ()
      ensures !configured && pending == []
    {
      configured, scanReady, replaying := false, false, false;
      start, blocks, nextLba, nextSeq, lastSnapshot, pending := 0, 0, 0, 1, 0, [];
    }

    ghost function Here(): Spot
      reads this`nextLba, this`nextSeq
    {
      Spot(nextLba, nextSeq)
    }

    /** The ring on the card is this journal's and its write position is the one after the history. */
    ghost predicate Synced(d: Blocks, hist: seq<Record>)
      reads this`configured, this`scanReady, this`start, this`blocks, this`nextLba, this`nextSeq
    {
      && configured && scanReady && blocks <= BLOCKS_MAX
      && Holds(d, start, blocks, hist) && Here() == SpotAfter(|hist|, start, blocks)
    }

    /** A configured ring lies on the card, and once scanned its write position lies in it. */
    ghost predicate Placed(d: Blocks)
      reads this`configured, this`scanReady, this`start, this`blocks, this`nextLba
    {
      configured && blocks > 0 ==> start + blocks <= |d| && (scanReady ==> start <= nextLba < start + blocks)
    }

    /** Where the next record will go. */
    ghost function WriteSpot(d: Blocks): Spot
      requires Placed(d) && configured && blocks > 0
      reads this
    {
      if scanReady then Here() else Scanned(d, start, blocks)
    }

    method ScanTail(card: SdCard)
      requires configured && blocks > 0 ==> start + blocks <= |card.blocks|
      modifies this`scanReady, this`nextLba, this`nextSeq
      ensures scanReady == (configured && blocks > 0)
      ensures scanReady ==> nextLba == NextLba(Best(card.blocks, start, blocks), start, blocks)
                            && nextSeq == NextSeqNo(Best(card.blocks, start, blocks))
      ensures !scanReady ==> nextLba == old(nextLba) && nextSeq == old(nextSeq)
    {
      hide Validate, SeqNewer;
      scanReady := false;
      if !configured || blocks == 0 {
        return;
      }
      var have, bestIdx := false, 0;
      var bestSeq: uint32 := 0;
      for i := 0 to blocks
        invariant start + blocks <= |card.blocks|
        invariant Best(card.blocks, start, i) == if have then Some(Tail(bestSeq, bestIdx)) else None
      {
        var blk := card.ReadBlock(start + i);
        var r := BlockValidate(blk);
        if r.None? {
          continue;
        }
        if !have || SeqNewer(r.value.seqNo, bestSeq) {
          have, bestSeq, bestIdx := true, r.value.seqNo, i;
        }
      }
      if have {
        nextSeq, nextLba := (bestSeq + 1) % TWO_32, start + (bestIdx + 1) % blocks;
      } else {
        nextSeq, nextLba := 1, start;
      }
      scanReady := true;
    }

    /** Take over a ring. With a snapshot to build on, the tail is recovered by scanning; without one the
        journal starts at the first block, which is in step with what the ring holds exactly as stated. */
    method Configure(card: SdCard, start: nat, blocks: nat, snapshot: uint32)
      requires start + blocks <= |card.blocks|
      modifies this
      ensures configured == scanReady == (0 < blocks <= BLOCKS_MAX) && !replaying
      ensures this.start == start && this.blocks == (if configured then blocks else 0) && lastSnapshot == snapshot
      ensures pending == []
      ensures Placed(card.blocks) && (configured ==> Here() == ConfiguredSpot(card.blocks, start, blocks, snapshot))
      ensures forall hist :: configured && Holds(card.blocks, start, blocks, hist) ==>
                (Synced(card.blocks, hist) <==> snapshot >= 1 || (|hist| % blocks == 0 && |hist| % TWO_32 == 0))
    {
      hide Best, Holds;
      configured, scanReady, replaying := false, false, false;
      lastSnapshot, this.start, nextLba, nextSeq, pending := snapshot, start, start, 1, [];
      if blocks == 0 || blocks > BLOCKS_MAX {
        this.blocks := 0;
        return;
      }
      this.blocks := blocks;
      configured := true;
      if snapshot == 0 {
        scanReady := true;
      } else {
        ScanTail(card);
      }
      forall hist | Holds(card.blocks, start, blocks, hist)
        ensures Here() == SpotAfter(|hist|, start, blocks)
                <==> snapshot >= 1 || (|hist| % blocks == 0 && |hist| % TWO_32 == 0)
      {
        ConfiguredExactly(card.blocks, start, blocks, hist, snapshot);
      }
    }

    /** Append one record: scan first if that has not been done, then one block write, and the position moves on.
        A journal in step with its history stays in step. */
    method AppendRecord(card: SdCard, kind: uint32, payload: seq<uint8>) returns (ok: bool)
      requires card.Valid() && |payload| <= PAYLOAD_MAX && Placed(card.blocks)
      modifies this`scanReady, this`nextLba, this`nextSeq, card
      ensures card.Valid() && Placed(card.blocks) && ok == old(configured && blocks > 0 && !replaying)
      ensures ok ==> var s := old(WriteSpot(card.blocks));
                     && card.Issued([Write(s.lba, RecordBlock(Record(s.seqNo, lastSnapshot, kind, payload)))])
                     && Here() == Moved(s, start, blocks) && scanReady
      ensures ok ==> forall hist :: old(Synced(card.blocks, hist)) ==>
                       Synced(card.blocks, hist + [Record(old(nextSeq), lastSnapshot, kind, payload)])
      ensures !ok ==> card.Issued([]) && card.blocks == old(card.blocks) && scanReady == old(scanReady)
                      && nextLba == old(nextLba) && nextSeq == old(nextSeq)
    {
      hide SdCard.Valid, RecordBlock, Validate, Best, Holds, Apply;
      card.IssuedFromLog([]);
      if !configured || blocks == 0 {
        return false;
      }
      if replaying {
        return false;
      }
      if !scanReady {
        ScanTail(card);
      }
      ghost var d, was := card.blocks, Here();
      var r := Record(nextSeq, lastSnapshot, kind, payload);
      card.WriteBlock(nextLba, RecordBlock(r));
      card.IssuedFromLog([Write(nextLba, RecordBlock(r))]);
      if nextLba >= start + blocks - 1 {
        nextLba := start;
      } else {
        nextLba := nextLba + 1;
      }
      nextSeq := (nextSeq + 1) % TWO_32;
      ok := true;
      forall hist | old(Synced(card.blocks, hist))
        ensures Synced(card.blocks, hist + [r])
      {
        AppendHolds(d, start, blocks, hist, r);
        SpotMoves(|hist|, start, blocks);
      }
    }

    ghost predicate Enabled()
      reads this
    {
      configured && blocks > 0 && !replaying
    }

    /** Write out the collected input as one record. */
    method FlushPending(card: SdCard) returns (ok: bool, ghost added: seq<Record>)
      requires card.Valid() && Placed(card.blocks) && |pending| <= PENDING_CAP
      modifies this`scanReady, this`nextLba, this`nextSeq, this`pending, card
      ensures card.Valid() && Placed(card.blocks) && ok == (old(pending) == [] || Enabled())
      ensures pending == if ok then [] else old(pending)
      ensures InputOf(added) + pending == old(pending)
      ensures |added| == (if old(pending) != [] && ok then 1 else 0)
      ensures forall i :: 0 <= i < |added| ==> added[i] == RecordFor(Typed(old(pending)), added[i].seqNo, lastSnapshot)
      ensures forall hist :: old(Synced(card.blocks, hist)) ==> Synced(card.blocks, hist + added)
    {
      hide SdCard.Valid, Holds, RecordBlock;
      added := [];
      if pending == [] {
        assert forall hist: seq<Record> :: hist + added == hist;
        return true, added;
      }
      ghost var r := Record(nextSeq, lastSnapshot, EVT_RX_BYTES, pending);
      ghost var ready := scanReady;
      ok := AppendRecord(card, EVT_RX_BYTES, pending);
      if ok {
        pending := [];
        added := [if ready then r else Record((nextSeq + TWO_32 - 1) % TWO_32, lastSnapshot, EVT_RX_BYTES, old(pending))];
        InputOfOne(added[0]);
      } else {
        assert forall hist: seq<Record> :: hist + added == hist;
      }
    }

    /** Capture one typed byte: collected, and written out at the end of a line or when the buffer is full. */
    method CaptureByte(card: SdCard, c: uint8) returns (ok: bool, ghost added: seq<Record>)
      requires card.Valid() && Placed(card.blocks) && |pending| <= PENDING_CAP
      modifies this`scanReady, this`nextLba, this`nextSeq, this`pending, card
      ensures card.Valid() && Placed(card.blocks) && |pending| <= PENDING_CAP && ok == old(Enabled())
      ensures InputOf(added) + pending == old(pending) + if ok then [c] else []
      ensures ok && (c == 13 || c == 10) ==> pending == []
      ensures forall i :: 0 <= i < |added| ==> added[i] == RecordFor(Typed(added[i].payload), added[i].seqNo, lastSnapshot)
      ensures forall hist :: old(Synced(card.blocks, hist)) ==> Synced(card.blocks, hist + added)
    {
      hide SdCard.Valid, Holds, Ring.Synced, InputOf;
      InputOfNone();
      added := [];
      assert forall hist: seq<Record> :: hist + added == hist;
      if !configured || blocks == 0 {
        return false, added;
      }
      if replaying {
        return false, added;
      }
      if |pending| >= PENDING_CAP {
        var flushed;
        flushed, added := FlushPending(card);
      }
      assert InputOf(added) + (pending + [c]) == old(pending) + [c];
      pending := pending + [c];
      ok := true;
      if c == 13 || c == 10 {
        ghost var first, was := added, pending;
        ghost var more;
        ok, more := FlushPending(card);
        added := first + more;
        InputAppend(first, more);
        assert InputOf(first) + (InputOf(more) + pending) == InputOf(first) + was;
        assert forall hist: seq<Record> :: (hist + first) + more == hist + added;
      }
    }

    /** Capture a task taking or giving up the input: what was typed before is written out first. */
    method CaptureOwner(card: SdCard, owner: uint8, acquired: bool) returns (ok: bool, ghost added: seq<Record>)
      requires card.Valid() && Placed(card.blocks) && |pending| <= PENDING_CAP
      modifies this`scanReady, this`nextLba, this`nextSeq, this`pending, card
      ensures card.Valid() && Placed(card.blocks) && ok == old(Enabled())
      ensures pending == if ok then [] else old(pending)
      ensures !ok ==> added == []
      ensures ok ==> var caps := if old(pending) == [] then [Ownership(owner, acquired)]
                                 else [Typed(old(pending)), Ownership(owner, acquired)];
                     Records(added, caps) && forall i :: 0 <= i < |added| ==> added[i].base == lastSnapshot
      ensures forall hist :: old(Synced(card.blocks, hist)) ==> Synced(card.blocks, hist + added)
    {
      hide SdCard.Valid, Holds, InputOf, RecordBlock;
      added := [];
      assert forall hist: seq<Record> :: hist + added == hist;
      if !configured || blocks == 0 {
        return false, added;
      }
      ghost var first;
      var flushed;
      flushed, first := FlushPending(card);
      ghost var ready, q := scanReady, nextSeq;
      ok := AppendRecord(card, EVT_IO_OWNER, [owner, if acquired then 1 else 0]);
      if ok {
        ghost var r := RecordFor(Ownership(owner, acquired), if ready then q else (nextSeq + TWO_32 - 1) % TWO_32, lastSnapshot);
        added := first + [r];
        assert forall hist: seq<Record> :: hist + first + [r] == hist + added;
      }
    }

    /** Boot-time replay: take over the ring and repeat the input recorded since the given snapshot. */
    method ReplayFromSnapshot(card: SdCard, snapshot: uint32, start: nat, blocks: nat, ghost hist: seq<Record>)
      returns (actions: seq<Action>)
      requires start + blocks <= |card.blocks|
      modifies this
      ensures !(start > 0 && 0 < blocks <= BLOCKS_MAX) ==> actions == []
      ensures start > 0 && 0 < blocks <= BLOCKS_MAX && snapshot >= 1 && Holds(card.blocks, start, blocks, hist) ==>
                Synced(card.blocks, hist) && !replaying && actions == Replayed(Surviving(hist, blocks), snapshot)
    {
      hide Holds, Replayed, Surviving, Best, Scanned, ConfiguredSpot, Validate;
      if start == 0 || blocks == 0 {
        return [];
      }
      Configure(card, start, blocks, snapshot);
      if !configured || !scanReady {
        return [];
      }
      ghost var good := snapshot >= 1 && Holds(card.blocks, start, blocks, hist);
      if good {
        HoldsBasics(card.blocks, start, blocks, hist);
        assert Synced(card.blocks, hist);
        assert nextLba - start == |hist| % blocks;
      }
      var d := card.blocks;
      var media: Media := (attempt: nat, lba: nat) => if lba < |d| then Some(d[lba]) else None;
      var relNext := nextLba - start;
      replaying := true;
      var visited;
      ghost var restarts;
      visited, actions, restarts := ReplayLoop(media, start, blocks, relNext, snapshot, d, hist);
      replaying := false;
    }
  }
}
