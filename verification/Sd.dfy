/**
 The SD card as the protocols see it: an array of 512-byte blocks, each a buffer of 128 words.
 Writing one block is atomic,
 a multi-block write goes block by block in ascending order, and power may fail between any two
 block writes. The card records its writes, so "the state after a crash" of an operation is
 the result of applying a prefix of the writes it issues.
 */
module Sd {
  import opened Words
  import Fnv

  const BLOCK_BYTES: nat := 512
  const BLOCK_WORDS: nat := 128

  type Block = b: seq<uint32> | |b| == BLOCK_WORDS witness seq(BLOCK_WORDS, i => 0)

  type Blocks = seq<Block>

  datatype Write = Write(lba: nat, data: Block)

  /** Card contents after the given writes, oldest first; writes off the card are lost. */
  function Apply(d: Blocks, ws: seq<Write>): (r: Blocks)
    ensures |r| == |d|
  {
    if ws == [] then d else
    var r := Apply(d, ws[..|ws| - 1]);
    var w := ws[|ws| - 1];
    if w.lba < |d| then r[w.lba := w.data] else r
  }

  lemma ApplyNothing(d: Blocks, ws: seq<Write>)
    requires ws == []
    ensures Apply(d, ws) == d
  {
  }

  lemma ApplyOne(d: Blocks, ws: seq<Write>, w: Write)
    requires w.lba < |d|
    ensures Apply(d, ws + [w]) == Apply(d, ws)[w.lba := w.data]
  {
    assert (ws + [w])[..|ws|] == ws;
  }

  lemma {:induction false} ApplyAppend(d: Blocks, a: seq<Write>, b: seq<Write>)
    ensures Apply(d, a + b) == Apply(Apply(d, a), b)
  {
    if b == [] {
      assert a + b == a;
    } else {
      assert (a + b)[..|a + b| - 1] == a + b[..|b| - 1];
      ApplyAppend(d, a, b[..|b| - 1]);
    }
  }

  /** A block no write addresses keeps its contents. */
  lemma {:induction false} ApplyFrame(d: Blocks, ws: seq<Write>, lba: nat)
    requires lba < |d|
    requires forall i :: 0 <= i < |ws| ==> ws[i].lba != lba
    ensures Apply(d, ws)[lba] == d[lba]
  {
    if ws != [] {
      ApplyFrame(d, ws[..|ws| - 1], lba);
    }
  }

  /** A block addressed by exactly one write holds what that write stored. */
  lemma {:induction false} ApplyHit(d: Blocks, ws: seq<Write>, k: nat)
    requires k < |ws| && ws[k].lba < |d|
    requires forall i :: k < i < |ws| ==> ws[i].lba != ws[k].lba
    ensures Apply(d, ws)[ws[k].lba] == ws[k].data
  {
    if k < |ws| - 1 {
      ApplyHit(d, ws[..|ws| - 1], k);
    }
  }

  /** The card holds the given blocks from lba on. */
  predicate At(d: Blocks, lba: nat, bs: seq<Block>) {
    lba + |bs| <= |d| && forall i :: 0 <= i < |bs| ==> d[lba + i] == bs[i]
  }

  lemma AtSplit(d: Blocks, lba: nat, a: seq<Block>, b: seq<Block>)
    ensures At(d, lba, a + b) <==> At(d, lba, a) && At(d, lba + |a|, b)
  {
    if At(d, lba, a + b) {
      assert forall i :: 0 <= i < |a| ==> a[i] == (a + b)[i];
      assert forall i :: 0 <= i < |b| ==> b[i] == (a + b)[|a| + i] == d[lba + (|a| + i)];
    }
  }

  lemma AtOne(d: Blocks, lba: nat, b: Block)
    ensures At(d, lba, [b]) <==> lba < |d| && d[lba] == b
  {
    if At(d, lba, [b]) {
      assert d[lba + 0] == [b][0];
    }
  }

  /** Writes of consecutive blocks from lba on. */
  function Run(lba: nat, data: seq<Block>): (ws: seq<Write>)
    ensures |ws| == |data|
    ensures forall i :: 0 <= i < |ws| ==> ws[i] == Write(lba + i, data[i])
  {
    seq(|data|, i requires 0 <= i < |data| => Write(lba + i, data[i]))
  }

  lemma RunAppend(lba: nat, a: seq<Block>, b: seq<Block>)
    ensures Run(lba, a + b) == Run(lba, a) + Run(lba + |a|, b)
  {
  }

  lemma RunFramed(lba: nat, h: Block, m: seq<Block>, t: Block)
    ensures Run(lba, [h] + m + [t]) == [Write(lba, h)] + Run(lba + 1, m) + [Write(lba + 1 + |m|, t)]
  {
    RunAppend(lba, [h], m);
    RunAppend(lba, [h] + m, [t]);
  }

  /** A whole run, applied, is found on the card; everything else is unchanged. */
  lemma ApplyRun(d: Blocks, lba: nat, data: seq<Block>)
    requires lba + |data| <= |d|
    ensures At(Apply(d, Run(lba, data)), lba, data)
    ensures forall i :: 0 <= i < |d| && !(lba <= i < lba + |data|) ==> Apply(d, Run(lba, data))[i] == d[i]
  {
    hide Apply;
    var r, ws := Apply(d, Run(lba, data)), Run(lba, data);
    forall i | 0 <= i < |d|
      ensures lba <= i < lba + |data| ==> r[i] == data[i - lba]
      ensures !(lba <= i < lba + |data|) ==> r[i] == d[i]
    {
      if lba <= i < lba + |data| {
        ApplyHit(d, ws, i - lba);
      } else {
        ApplyFrame(d, ws, i);
      }
    }
  }

  // Record blocks

  /** A block holding the given words, the rest zero. */
  function WordBlock(ws: seq<uint32>): (b: Block)
    requires |ws| <= BLOCK_WORDS
    ensures b[..|ws|] == ws && forall i :: |ws| <= i < BLOCK_WORDS ==> b[i] == 0
  {
    ws + seq(BLOCK_WORDS - |ws|, i => 0)
  }

  /** A record: words followed by their checksum. */
  function Sealed(ws: seq<uint32>): (b: Block)
    requires |ws| < BLOCK_WORDS
    ensures b[..|ws|] == ws && SealOk(b, |ws|)
  {
    var b := WordBlock(ws + [Fnv.Checksum(ws)]);
    assert b[..|ws|] == b[..|ws| + 1][..|ws|] == ws;
    assert b[|ws|] == b[..|ws| + 1][|ws|];
    b
  }

  /** The reader's test: word n is the checksum of the n words before it. */
  predicate SealOk(b: Block, n: nat)
    requires n < BLOCK_WORDS
  {
    b[n] == Fnv.Checksum(b[..n])
  }

  // Blocks as bytes

  function BytesOf(b: Block): (s: seq<uint8>)
    ensures |s| == BLOCK_BYTES
  {
    seq(BLOCK_BYTES, k requires 0 <= k < BLOCK_BYTES => Le32(b[k / 4])[k % 4])
  }

  function Pack(s: seq<uint8>): (b: Block)
    requires |s| == BLOCK_BYTES
  {
    seq(BLOCK_WORDS, i requires 0 <= i < BLOCK_WORDS => Load32(s, 4 * i))
  }

  lemma BytesOfPack(s: seq<uint8>)
    requires |s| == BLOCK_BYTES
    ensures BytesOf(Pack(s)) == s
  {
    hide Le32, Load32;
    forall k | 0 <= k < BLOCK_BYTES
      ensures BytesOf(Pack(s))[k] == s[k]
    {
      var i, j := k / 4, k % 4;
      assert Pack(s)[i] == Load32(s, 4 * i);
      LeOfLoad(s, 4 * i);
      assert s[4 * i..4 * i + 4][j] == s[4 * i + j];
    }
  }

  /** Word i of a block is the little-endian load at byte 4i. */
  lemma WordOfBytes(b: Block, i: nat)
    requires i < BLOCK_WORDS
    ensures Load32(BytesOf(b), 4 * i) == b[i]
  {
    var s := BytesOf(b);
    assert s[4 * i..4 * i + 4] == Le32(b[i]) by {
      assert s[4 * i] == Le32(b[i])[0] && s[4 * i + 1] == Le32(b[i])[1];
      assert s[4 * i + 2] == Le32(b[i])[2] && s[4 * i + 3] == Le32(b[i])[3];
    }
    LoadStored32(s, 4 * i, b[i]);
  }

  /** The first 512 bytes of a byte string as a block, zero padded. */
  function Chunk(data: seq<uint8>): Block
  {
    Pack(if |data| >= BLOCK_BYTES then data[..BLOCK_BYTES] else data + Zeros(BLOCK_BYTES - |data|))
  }

  lemma ChunkBytes(data: seq<uint8>)
    ensures BytesOf(Chunk(data))[..Min(|data|, BLOCK_BYTES)] == data[..Min(|data|, BLOCK_BYTES)]
  {
    BytesOfPack(if |data| >= BLOCK_BYTES then data[..BLOCK_BYTES] else data + Zeros(BLOCK_BYTES - |data|));
  }

  /** A byte string cut into blocks, the last one zero padded. */
  function DataBlocks(data: seq<uint8>): seq<Block>
  {
    if |data| == 0 then []
    else if |data| <= BLOCK_BYTES then [Chunk(data)]
    else [Chunk(data)] + DataBlocks(data[BLOCK_BYTES..])
  }

  lemma {:induction false} DataBlocksCount(data: seq<uint8>)
    ensures |DataBlocks(data)| == CeilDiv(|data|, BLOCK_BYTES)
  {
    if |data| > BLOCK_BYTES {
      DataBlocksCount(data[BLOCK_BYTES..]);
    }
  }

  /** The first block of a non-empty byte string, and what follows it. */
  lemma NextDataBlock(data: seq<uint8>)
    requires data != []
    ensures var n := Min(|data|, BLOCK_BYTES);
            DataBlocks(data) == [Chunk(data[..n])] + DataBlocks(data[n..])
  {
    var n := Min(|data|, BLOCK_BYTES);
    if n == |data| {
      assert data[..n] == data;
    } else {
      assert data[..n][..BLOCK_BYTES] == data[..BLOCK_BYTES];
    }
  }

  lemma NoDataBlocks(data: seq<uint8>)
    requires data == []
    ensures DataBlocks(data) == []
  {
  }

  /** Block i of a byte string is the chunk at byte 512 i. */
  lemma {:induction false} DataBlockAt(data: seq<uint8>, i: nat)
    requires i < |DataBlocks(data)|
    ensures BLOCK_BYTES * i < |data| && DataBlocks(data)[i] == Chunk(data[BLOCK_BYTES * i..])
    decreases i
  {
    hide Chunk;
    if i == 0 {
      assert data[0..] == data;
    } else {
      var rest := data[BLOCK_BYTES..];
      DataBlockAt(rest, i - 1);
      assert rest[BLOCK_BYTES * (i - 1)..] == data[BLOCK_BYTES * i..];
    }
  }

  /** The bytes of len, gathered block by block. */
  function Gather(d: Blocks, lba: nat, len: nat): (s: seq<uint8>)
    requires lba + CeilDiv(len, BLOCK_BYTES) <= |d|
    ensures |s| == len
    decreases len
  {
    if len == 0 then []
    else
      var n := Min(len, BLOCK_BYTES);
      BytesOf(d[lba])[..n] + Gather(d, lba + 1, len - n)
  }

  lemma {:induction false} GatherData(d: Blocks, lba: nat, data: seq<uint8>)
    requires At(d, lba, DataBlocks(data)) && lba + CeilDiv(|data|, BLOCK_BYTES) <= |d|
    ensures Gather(d, lba, |data|) == data
    decreases |data|
  {
    hide BytesOf, Chunk, At, DataBlocks;
    if |data| > 0 {
      var n := Min(|data|, BLOCK_BYTES);
      var part, rest := data[..n], data[n..];
      NextDataBlock(data);
      AtSplit(d, lba, [Chunk(part)], DataBlocks(rest));
      AtOne(d, lba, Chunk(part));
      ChunkBytes(part);
      assert BytesOf(d[lba])[..n] == part;
      GatherData(d, lba + 1, rest);
      assert data == part + rest;
    }
  }

  lemma GatherFirst(d: Blocks, lba: nat, len: nat)
    requires BLOCK_BYTES <= len && lba + CeilDiv(len, BLOCK_BYTES) <= |d|
    ensures Gather(d, lba, len)[..BLOCK_BYTES] == BytesOf(d[lba])
  {
    hide BytesOf;
  }

  lemma {:induction false} GatherFrame(d: Blocks, d': Blocks, lba: nat, len: nat)
    requires lba + CeilDiv(len, BLOCK_BYTES) <= |d| && |d| == |d'|
    requires forall b :: lba <= b < lba + CeilDiv(len, BLOCK_BYTES) ==> d[b] == d'[b]
    ensures Gather(d, lba, len) == Gather(d', lba, len)
    decreases len
  {
    hide BytesOf;
    if len > 0 {
      GatherFrame(d, d', lba + 1, len - Min(len, BLOCK_BYTES));
    }
  }

  /** The first block gathered, and the rest. */
  lemma GatherStep(d: Blocks, lba: nat, len: nat)
    requires 0 < len && lba + CeilDiv(len, BLOCK_BYTES) <= |d|
    ensures var n := Min(len, BLOCK_BYTES);
            && lba < |d| && lba + 1 + CeilDiv(len - n, BLOCK_BYTES) <= |d|
            && Gather(d, lba, len) == BytesOf(d[lba])[..n] + Gather(d, lba + 1, len - n)
  {
    hide BytesOf;
  }

  lemma GatherEnd(d: Blocks, lba: nat)
    requires lba + CeilDiv(0, BLOCK_BYTES) <= |d|
    ensures Gather(d, lba, 0) == []
  {
  }

  /** Gathering one block more. */
  lemma {:induction false} GatherNext(d: Blocks, lba: nat, n: nat)
    requires lba + n < |d|
    ensures Gather(d, lba, BLOCK_BYTES * (n + 1)) == Gather(d, lba, BLOCK_BYTES * n) + BytesOf(d[lba + n])
    decreases n
  {
    hide BytesOf;
    if n > 0 {
      GatherNext(d, lba + 1, n - 1);
    }
  }

  // One damaged byte

  /** The two blocks differ in exactly the byte at position k. */
  predicate DifferAt(b: Block, b': Block, k: nat) {
    && k < BLOCK_BYTES && BytesOf(b)[k] != BytesOf(b')[k]
    && forall i :: 0 <= i < BLOCK_BYTES && i != k ==> BytesOf(b)[i] == BytesOf(b')[i]
  }

  lemma WordsDiffer(b: Block, b': Block, k: nat)
    requires DifferAt(b, b', k)
    ensures b[k / 4] != b'[k / 4]
    ensures forall i :: 0 <= i < BLOCK_WORDS && i != k / 4 ==> b[i] == b'[i]
  {
    forall i | 0 <= i < BLOCK_WORDS
      ensures i != k / 4 ==> b[i] == b'[i]
      ensures i == k / 4 ==> b[i] != b'[i]
    {
      hide BytesOf;
      LoadSame(BytesOf(b), BytesOf(b'), k, 4 * i);
      WordOfBytes(b, i);
      WordOfBytes(b', i);
    }
  }

  /** One changed byte changes exactly the word loads that cover it. */
  lemma LoadSame(s: seq<uint8>, s': seq<uint8>, k: nat, off: nat)
    requires |s| == |s'| && k < |s| && s[k] != s'[k] && off + 4 <= |s|
    requires forall i :: 0 <= i < |s| && i != k ==> s[i] == s'[i]
    ensures off <= k < off + 4 <==> Load32(s, off) != Load32(s', off)
  {
    hide Join;
    if off <= k < off + 4 {
      if Load32(s, off) == Load32(s', off) {
        LoadInjective32(s, s', off);
      }
    }
  }

  /** One changed byte of a record breaks its seal. */
  lemma SealBroken(b: Block, b': Block, n: nat, k: nat)
    requires n < BLOCK_WORDS && SealOk(b, n) && DifferAt(b, b', k) && k < 4 * n + 4
    ensures !SealOk(b', n)
  {
    hide BytesOf, Fnv.Checksum;
    WordsDiffer(b, b', k);
    if k / 4 == n {
      assert b[..n] == b'[..n];
    } else {
      Fnv.ChecksumDetects(b[..n], b'[..n], k / 4);
    }
  }

  /** The two cards differ in exactly one byte: byte k of block b. */
  predicate Damaged(d: Blocks, d': Blocks, b: nat, k: nat) {
    b < |d| == |d'| && DifferAt(d[b], d'[b], k) && forall i :: 0 <= i < |d| && i != b ==> d'[i] == d[i]
  }

  /** Damage within the gathered bytes changes exactly one of them. */
  lemma {:induction false} GatherDamaged(d: Blocks, d': Blocks, b: nat, k: nat, lba: nat, len: nat)
    requires lba + CeilDiv(len, BLOCK_BYTES) <= |d| && Damaged(d, d', b, k)
    requires lba <= b && BLOCK_BYTES * (b - lba) + k < len
    ensures var at, g, g' := BLOCK_BYTES * (b - lba) + k, Gather(d, lba, len), Gather(d', lba, len);
            g[at] != g'[at] && forall i :: 0 <= i < len && i != at ==> g[i] == g'[i]
    decreases b - lba
  {
    hide BytesOf, Gather;
    GatherStep(d, lba, len);
    GatherStep(d', lba, len);
    var n := Min(len, BLOCK_BYTES);
    if b == lba {
      GatherFrame(d, d', lba + 1, len - n);
    } else {
      GatherDamaged(d, d', b, k, lba + 1, len - n);
    }
  }

  /** A block by 32-bit address; reading off the card fails. */
  function Fetch(d: Blocks, lba: nat): Option<Block> {
    if lba % TWO_32 < |d| then Some(d[lba % TWO_32]) else None
  }

  class SdCard {
    var blocks: Blocks
    ghost var origin: Blocks
    ghost var log: seq<Write>

    ghost predicate Valid()
      reads this
    {
      |origin| == |blocks| && blocks == Apply(origin, log)
    }

    constructor (contents: Blocks)
      ensures Valid() && blocks == contents && log == []
    {
      blocks := contents;
      origin := contents;
      log := [];
    }

    method WriteBlock(lba: nat, data: Block)
      requires Valid() && lba < |blocks|
      modifies this
      ensures Valid() && origin == old(origin)
      ensures blocks == old(blocks)[lba := data]
      ensures log == old(log) + [Write(lba, data)]
    {
      ApplyOne(origin, log, Write(lba, data));
      blocks := blocks[lba := data];
      log := log + [Write(lba, data)];
    }

    method ReadBlock(lba: nat) returns (data: Block)
      requires lba < |blocks|
      ensures data == blocks[lba]
    {
      data := blocks[lba];
    }

    method TryRead(lba: nat) returns (r: Option<Block>)
      ensures r == Fetch(blocks, lba)
    {
      r := if lba % TWO_32 < |blocks| then Some(blocks[lba % TWO_32]) else None;
    }

    /** What an operation that issued the writes ws did to the card. */
    twostate predicate Issued(ws: seq<Write>)
      reads this
    {
      log == old(log) + ws && blocks == Apply(old(blocks), ws)
    }

    twostate lemma IssuedFromLog(ws: seq<Write>)
      requires old(Valid()) && Valid() && origin == old(origin) && log == old(log) + ws
      ensures Issued(ws)
    {
      ApplyAppend(origin, old(log), ws);
    }
  }
}
