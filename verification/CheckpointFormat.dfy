/**
 On-card format of a task checkpoint slot: a 64-byte header, a directory of saved regions, the task blobs and
 the lifecycle metadata, in 8192 bytes. `Accepts` is the strict reader, `Image` is what a save lays out.
 Structures are little-endian words; their 8- and 16-bit fields are the digits of the word that holds them.
 */
module CheckpointFormat {
  import opened Words
  import Crc

  const CKPT_MAGIC: uint32 := 0x3254_5043
  const META_MAGIC: uint32 := 0x4154_454D
  const META_VERSION: nat := 1
  const LEGACY_VERSION: nat := 2
  const CURRENT_VERSION: nat := 3
  const PENDING: nat := 0
  const COMMITTED: nat := 1
  const HDR_BYTES: nat := 64
  const REGION_BYTES: nat := 16
  const READ_MAX_REGIONS: nat := 64
  const MAX_REGIONS: nat := 8
  const MAX_BLOB: nat := 4096
  const SLOT_BYTES: nat := 8192
  const PAYLOAD_BASE: nat := 192
  const NO_STDIN_OWNER: uint32 := 0xFF

  // Reader

  datatype Region = Region(id: uint16, version: uint16, off: uint32, len: uint32, crc: uint32)

  datatype Life = Life(task: uint8, launches: uint16, exits: uint16)

  function Version(s: seq<uint8>): nat
    requires |s| >= HDR_BYTES
  {
    Load32(s, 4) % 0x1_0000
  }

  function HeaderSize(s: seq<uint8>): nat
    requires |s| >= HDR_BYTES
  {
    Load32(s, 4) / 0x1_0000
  }

  function SeqNo(s: seq<uint8>): uint32
    requires |s| >= HDR_BYTES
  {
    Load32(s, 8)
  }

  function State(s: seq<uint8>): nat
    requires |s| >= HDR_BYTES
  {
    Load32(s, 16) / 0x100 % 0x100
  }

  function Count(s: seq<uint8>): nat
    requires |s| >= HDR_BYTES
  {
    Load32(s, 16) / 0x1_0000
  }

  function ActiveBits(s: seq<uint8>): uint32
    requires |s| >= HDR_BYTES
  {
    Load32(s, 20)
  }

  function DirEnd(s: seq<uint8>): nat
    requires |s| >= HDR_BYTES
  {
    HDR_BYTES + REGION_BYTES * Count(s)
  }

  function MetaOff(s: seq<uint8>): uint32
    requires |s| >= HDR_BYTES
  {
    Load32(s, 36)
  }

  function MetaLen(s: seq<uint8>): uint32
    requires |s| >= HDR_BYTES
  {
    Load32(s, 40)
  }

  /** The header with its own checksum field cleared. */
  function Unsigned(s: seq<uint8>): (h: seq<uint8>)
    requires |s| >= HDR_BYTES
    ensures |h| == HDR_BYTES
  {
    s[..32] + Zeros(4) + s[36..HDR_BYTES]
  }

  predicate HeaderOk(s: seq<uint8>, version: nat)
    requires |s| >= HDR_BYTES
  {
    && Load32(s, 0) == CKPT_MAGIC && Version(s) == version && State(s) == COMMITTED
    && Count(s) <= READ_MAX_REGIONS && HeaderSize(s) == HDR_BYTES
    && Crc.Crc32(Unsigned(s)) == Load32(s, 32)
  }

  function MetaSize(entries: nat): nat {
    12 + 8 * entries
  }

  function MetaCount(s: seq<uint8>, off: nat): nat
    requires off + 12 <= |s|
  {
    Load32(s, off + 4) / 0x1_0000
  }

  predicate MetaValid(s: seq<uint8>, off: nat, len: nat)
    requires off + len <= |s|
  {
    && len >= MetaSize(0) && Load32(s, off) == META_MAGIC && Load32(s, off + 4) % 0x1_0000 == META_VERSION
    && MetaCount(s, off) <= MAX_REGIONS && len >= MetaSize(MetaCount(s, off))
  }

  function LifeAt(s: seq<uint8>, off: nat, j: nat): Life
    requires off + MetaSize(j + 1) <= |s|
  {
    var a, b := Load32(s, off + 12 + 8 * j), Load32(s, off + 16 + 8 * j);
    Life(a % 0x100, a / 0x1_0000, b % 0x1_0000)
  }

  predicate MetaOk(s: seq<uint8>)
    requires |s| >= HDR_BYTES
  {
    MetaLen(s) != 0 ==>
      && MetaOff(s) >= DirEnd(s) && MetaOff(s) + MetaLen(s) <= |s|
      && MetaValid(s, MetaOff(s), MetaLen(s))
  }

  function RegionAt(s: seq<uint8>, i: nat): Region
    requires HDR_BYTES + REGION_BYTES * (i + 1) <= |s|
  {
    var o := HDR_BYTES + REGION_BYTES * i;
    Region(Load32(s, o) % 0x1_0000, Load32(s, o) / 0x1_0000, Load32(s, o + 4), Load32(s, o + 8), Load32(s, o + 12))
  }

  predicate RegionOk(s: seq<uint8>, i: nat)
    requires |s| >= HDR_BYTES && DirEnd(s) <= |s| && i < Count(s)
  {
    var r := RegionAt(s, i);
    r.off >= DirEnd(s) && r.off + r.len <= |s| && Crc.Crc32(s[r.off..r.off + r.len]) == r.crc
  }

  /** End of everything the first n regions and the metadata use. */
  function UsedEnd(s: seq<uint8>, n: nat): nat
    requires |s| >= HDR_BYTES && DirEnd(s) <= |s| && n <= Count(s)
  {
    if n == 0 then (if MetaLen(s) != 0 then MetaOff(s) + MetaLen(s) else DirEnd(s))
    else
      var e, r := UsedEnd(s, n - 1), RegionAt(s, n - 1);
      if r.off + r.len > e then r.off + r.len else e
  }

  lemma {:induction false} UsedEndInside(s: seq<uint8>, n: nat)
    requires |s| >= HDR_BYTES && DirEnd(s) <= |s| && n <= Count(s) && MetaOk(s)
    requires forall i :: 0 <= i < n ==> RegionOk(s, i)
    ensures DirEnd(s) <= UsedEnd(s, n) <= |s|
  {
    if n > 0 {
      UsedEndInside(s, n - 1);
      assert RegionOk(s, n - 1);
    }
  }

  /** The strict reader's verdict on the bytes of a slot of the given format version. */
  predicate Accepts(s: seq<uint8>, version: nat)
    requires |s| >= HDR_BYTES
  {
    && HeaderOk(s, version) && DirEnd(s) <= |s| && MetaOk(s)
    && (forall i :: 0 <= i < Count(s) ==> RegionOk(s, i))
    && var end := if version == CURRENT_VERSION then UsedEnd(s, Count(s)) else DirEnd(s);
       UsedEndInside(s, Count(s));
       Crc.Crc32(s[HDR_BYTES..end]) == Load32(s, 28)
  }

  /** Only a committed slot with the right mark, this version, a 64-byte header and at most 64 regions is accepted. */
  lemma AcceptedFields(s: seq<uint8>, version: nat)
    requires |s| >= HDR_BYTES && Accepts(s, version)
    ensures s[..4] == [0x43, 0x50, 0x54, 0x32] && Load16(s, 4) == version && Load16(s, 6) == 64
    ensures s[17] == 1 && Load16(s, 18) <= 64
  {
    hide Crc.Crc32, MetaOk, UsedEnd, RegionOk, Load32, Load16, Version, HeaderSize, State, Count, Unsigned;
    MagicBytes(s);
    VersionBytes(s);
    StateBytes(s);
  }

  lemma MagicBytes(s: seq<uint8>)
    requires |s| >= HDR_BYTES && Load32(s, 0) == CKPT_MAGIC
    ensures s[..4] == [0x43, 0x50, 0x54, 0x32]
  {
    assert s[..4] == [s[0], s[1], s[2], s[3]];
  }

  lemma VersionBytes(s: seq<uint8>)
    requires |s| >= HDR_BYTES
    ensures Version(s) == Load16(s, 4) && HeaderSize(s) == Load16(s, 6)
  {
    var low: int, high: int := Load16(s, 4), Load16(s, 6);
    assert Load32(s, 4) == low + 0x1_0000 * high;
  }

  lemma StateBytes(s: seq<uint8>)
    requires |s| >= HDR_BYTES
    ensures State(s) == s[17] && Count(s) == Load16(s, 18)
  {
    var low: int, high: int := Load16(s, 16), Load16(s, 18);
    assert Load32(s, 16) == low + 0x1_0000 * high;
    assert Load32(s, 16) / 0x100 == s[17] + 0x100 * high;
  }

  method ReadHeader(s: seq<uint8>, version: nat) returns (ok: bool)
    requires |s| >= HDR_BYTES
    ensures ok == HeaderOk(s, version)
  {
    hide Crc.Crc32, Load32;
    if Load32(s, 0) != CKPT_MAGIC || Version(s) != version || State(s) != COMMITTED
       || Count(s) > READ_MAX_REGIONS || HeaderSize(s) != HDR_BYTES {
      return false;
    }
    var crc := Crc.Crc32Calc(Unsigned(s));
    ok := crc == Load32(s, 32);
  }

  /** Check every region and keep track of the end of what is used. */
  method ReadRegions(s: seq<uint8>) returns (ok: bool, usedEnd: nat)
    requires |s| >= HDR_BYTES && DirEnd(s) <= |s| && MetaOk(s)
    ensures ok <==> forall i :: 0 <= i < Count(s) ==> RegionOk(s, i)
    ensures ok ==> usedEnd == UsedEnd(s, Count(s)) && DirEnd(s) <= usedEnd <= |s|
  {
    hide Crc.Crc32, Load32, MetaValid, RegionAt, Count;
    ok := true;
    usedEnd := if MetaLen(s) != 0 then MetaOff(s) + MetaLen(s) else DirEnd(s);
    for i := 0 to Count(s)
      invariant usedEnd == UsedEnd(s, i) && forall j :: 0 <= j < i ==> RegionOk(s, j)
    {
      var r := RegionAt(s, i);
      var end: int := r.off + r.len;
      if r.off < DirEnd(s) || end > |s| {
        assert !RegionOk(s, i);
        return false, usedEnd;
      }
      var crc := Crc.Crc32Calc(s[r.off..end]);
      if crc != r.crc {
        assert !RegionOk(s, i);
        return false, usedEnd;
      }
      if end > usedEnd {
        usedEnd := end;
      }
    }
    UsedEndInside(s, Count(s));
  }

  /** The reader as written: header, directory bounds, metadata, regions, and the checksum over all of it. */
  method ReadValid(s: seq<uint8>, version: nat) returns (ok: bool)
    requires |s| >= HDR_BYTES
    ensures ok == Accepts(s, version)
  {
    hide Crc.Crc32, Load32, MetaValid, HeaderOk, RegionOk, UsedEnd, Count;
    ok := ReadHeader(s, version);
    if !ok {
      return;
    }
    if DirEnd(s) > |s| {
      return false;
    }
    if MetaLen(s) != 0 {
      if MetaOff(s) + MetaLen(s) > |s| || MetaOff(s) < DirEnd(s) {
        return false;
      }
      if !MetaValid(s, MetaOff(s), MetaLen(s)) {
        return false;
      }
    }
    var usedEnd;
    ok, usedEnd := ReadRegions(s);
    if ok {
      var crc := Crc.Crc32Calc(s[HDR_BYTES..if version == CURRENT_VERSION then usedEnd else DirEnd(s)]);
      ok := crc == Load32(s, 28);
    }
  }

  // Error detection

  /** The bytes differ, and only inside the m bytes from k on. */
  predicate DifferWithin(s: seq<uint8>, s': seq<uint8>, k: nat, m: nat) {
    && |s| == |s'| && k + m <= |s| && s[k..k + m] != s'[k..k + m]
    && s[..k] == s'[..k] && s[k + m..] == s'[k + m..]
  }

  /** Any change of one header byte makes the reader reject the slot. */
  lemma HeaderByteChangeRejected(s: seq<uint8>, s': seq<uint8>, version: nat, k: nat)
    requires |s| >= HDR_BYTES && k < HDR_BYTES && DifferWithin(s, s', k, 1)
    requires Accepts(s, version)
    ensures !Accepts(s', version)
  {
    hide Crc.Crc32, Load32, MetaOk, UsedEnd, RegionOk;
    var h, h' := Unsigned(s), Unsigned(s');
    assert s[k..k + 1] == [s[k]] && s'[k..k + 1] == [s'[k]];
    assert forall i :: 0 <= i < |s| && i != k ==> s[i] == s'[i] by {
      SameOutside(s, s', k, 1);
    }
    if 32 <= k < 36 {
      assert h == h';
      if Load32(s, 32) == Load32(s', 32) {
        LoadInjective32(s, s', 32);
      }
    } else {
      assert Load32(s, 32) == Load32(s', 32) by {
        LoadSame(s, s', 32);
      }
      assert forall i :: 0 <= i < HDR_BYTES && i != k ==> h[i] == h'[i] by {
        UnsignedAt(s);
        UnsignedAt(s');
      }
      assert h[k] == s[k] && h'[k] == s'[k];
      assert h[..k] == h'[..k] && h[k + 1..] == h'[k + 1..];
      Crc.Crc32DetectsBurst(h, h', k, 1);
    }
  }

  lemma UnsignedAt(s: seq<uint8>)
    requires |s| >= HDR_BYTES
    ensures forall i :: 0 <= i < HDR_BYTES ==> Unsigned(s)[i] == if 32 <= i < 36 then 0 else s[i]
  {
  }

  lemma SameOutside(s: seq<uint8>, s': seq<uint8>, k: nat, m: nat)
    requires DifferWithin(s, s', k, m)
    ensures forall i :: 0 <= i < |s| && !(k <= i < k + m) ==> s[i] == s'[i]
  {
    forall i | 0 <= i < |s| && !(k <= i < k + m)
      ensures s[i] == s'[i]
    {
      if i < k {
        assert s[i] == s[..k][i] && s'[i] == s'[..k][i];
      } else {
        assert s[i] == s[k + m..][i - k - m] && s'[i] == s'[k + m..][i - k - m];
      }
    }
  }

  lemma LoadSame(s: seq<uint8>, s': seq<uint8>, off: nat)
    requires |s| == |s'| && off + 4 <= |s| && forall i :: off <= i < off + 4 ==> s[i] == s'[i]
    ensures Load32(s, off) == Load32(s', off)
  {
  }

  /** Any change confined to four consecutive bytes of one region's payload makes the reader reject the slot. */
  lemma PayloadBurstRejected(s: seq<uint8>, s': seq<uint8>, version: nat, i: nat, k: nat, m: nat)
    requires |s| >= HDR_BYTES && Accepts(s, version) && i < Count(s) && m <= 4
    requires var r := RegionAt(s, i); r.off <= k && k + m <= r.off + r.len
    requires DifferWithin(s, s', k, m)
    ensures !Accepts(s', version)
  {
    hide Crc.Crc32, Load32, MetaOk, UsedEnd, HeaderOk;
    assert RegionOk(s, i);
    SameOutside(s, s', k, m);
    var r := RegionAt(s, i);
    assert Load32(s, 16) == Load32(s', 16) by {
      LoadSame(s, s', 16);
    }
    assert RegionAt(s', i) == r by {
      var o := HDR_BYTES + REGION_BYTES * i;
      LoadSame(s, s', o);
      LoadSame(s, s', o + 4);
      LoadSame(s, s', o + 8);
      LoadSame(s, s', o + 12);
    }
    var p, p' := s[r.off..r.off + r.len], s'[r.off..r.off + r.len];
    BurstInside(s, s', r.off, r.len, k, m);
    Crc.Crc32DetectsBurst(p, p', k - r.off, m);
    assert !RegionOk(s', i);
  }

  lemma BurstInside(s: seq<uint8>, s': seq<uint8>, off: nat, len: nat, k: nat, m: nat)
    requires DifferWithin(s, s', k, m) && off <= k && k + m <= off + len <= |s|
    ensures var p, p', j := s[off..off + len], s'[off..off + len], k - off;
            p != p' && p[..j] == p'[..j] && p[j + m..] == p'[j + m..]
  {
    SameOutside(s, s', k, m);
    var p, p', j := s[off..off + len], s'[off..off + len], k - off;
    SubSlice(s, off, off + len, j, m);
    SubSlice(s', off, off + len, j, m);
    assert p[..j] == p'[..j] && p[j + m..] == p'[j + m..];
  }

  lemma SubSlice(s: seq<uint8>, a: nat, b: nat, o: nat, n: nat)
    requires a <= b <= |s| && a + o + n <= b
    ensures s[a..b][o..o + n] == s[a + o..a + o + n]
  {
    var x, y := s[a..b][o..o + n], s[a + o..a + o + n];
    assert |x| == |y| && forall i :: 0 <= i < n ==> x[i] == s[a + o + i] == y[i];
  }
}
