/**
 Fixed-width unsigned numbers, bitwise exclusive-or and little-endian byte order.

 Numbers are mathematical integers confined to the width of the C type, so wrap-around is
 always written out. Exclusive-or is defined digit by digit in base two, which keeps every
 proof about checksums inside integer arithmetic.
 */
module Words {

  type uint8 = x: int | 0 <= x < 0x100
  type uint16 = x: int | 0 <= x < 0x1_0000
  type uint32 = x: int | 0 <= x < TWO_32

  const TWO_32: int := 0x1_0000_0000

  datatype Option<+T> = None | Some(value: T)

  function Pow2(k: nat): (r: nat)
    ensures r > 0
  {
    if k == 0 then 1 else 2 * Pow2(k - 1)
  }

  function Differ(p: nat, q: nat): nat {
    if p == q then 0 else 1
  }

  /** Bitwise exclusive-or. */
  function Xor(a: nat, b: nat): nat
    decreases a + b
  {
    if a == 0 && b == 0 then 0 else Differ(a % 2, b % 2) + 2 * Xor(a / 2, b / 2)
  }

  lemma {:induction false} XorZero(a: nat)
    ensures Xor(a, 0) == a && Xor(0, a) == a
  {
    if a != 0 {
      XorZero(a / 2);
    }
  }

  lemma {:induction false} XorComm(a: nat, b: nat)
    ensures Xor(a, b) == Xor(b, a)
    decreases a + b
  {
    if a != 0 || b != 0 {
      XorComm(a / 2, b / 2);
    }
  }

  lemma {:induction false} XorAssoc(a: nat, b: nat, c: nat)
    ensures Xor(Xor(a, b), c) == Xor(a, Xor(b, c))
    decreases a + b + c
  {
    if a != 0 || b != 0 || c != 0 {
      var ab, bc := Xor(a, b), Xor(b, c);
      XorHalf(a, b);
      XorHalf(b, c);
      XorHalf(ab, c);
      XorHalf(a, bc);
      XorAssoc(a / 2, b / 2, c / 2);
      SameDigits(Xor(ab, c), Xor(a, bc));
    }
  }

  lemma SameDigits(x: nat, y: nat)
    requires x % 2 == y % 2 && x / 2 == y / 2
    ensures x == y
  {
  }

  /** The defining equation, also at zero. */
  lemma {:induction false} XorHalf(a: nat, b: nat)
    ensures Xor(a, b) % 2 == Differ(a % 2, b % 2)
    ensures Xor(a, b) / 2 == Xor(a / 2, b / 2)
  {
    var d, h := Differ(a % 2, b % 2), Xor(a / 2, b / 2);
    assert Xor(a, b) == d + 2 * h by {
      if a == 0 && b == 0 {
        assert Xor(0, 0) == 0;
      }
    }
    hide Xor;
    LowDigit(d, h);
  }

  lemma LowDigit(d: nat, h: nat)
    requires d < 2
    ensures (d + 2 * h) % 2 == d && (d + 2 * h) / 2 == h
  {
  }

  lemma {:induction false} XorSelf(a: nat)
    ensures Xor(a, a) == 0
  {
    if a != 0 {
      XorSelf(a / 2);
    }
  }

  lemma XorCancel(a: nat, b: nat)
    ensures Xor(Xor(a, b), b) == a
  {
    XorAssoc(a, b, b);
    XorSelf(b);
    XorZero(a);
  }

  /** Exclusive-or with a fixed value is injective in either argument. */
  lemma XorInjective(a: nat, b: nat, k: nat)
    requires Xor(a, k) == Xor(b, k) || Xor(k, a) == Xor(k, b)
    ensures a == b
  {
    XorComm(a, k);
    XorComm(b, k);
    XorCancel(a, k);
    XorCancel(b, k);
  }

  lemma {:induction false} XorBound(a: nat, b: nat, k: nat)
    requires a < Pow2(k) && b < Pow2(k)
    ensures Xor(a, b) < Pow2(k)
    decreases k
  {
    if a != 0 || b != 0 {
      XorBound(a / 2, b / 2, k - 1);
    }
  }

  lemma Pow2Values()
    ensures Pow2(8) == 0x100 && Pow2(16) == 0x1_0000
    ensures Pow2(31) == 0x8000_0000 && Pow2(32) == TWO_32
  {
    assert Pow2(8) == 256;
    assert Pow2(16) == 256 * Pow2(8);
    assert Pow2(24) == 256 * Pow2(16);
    assert Pow2(31) == 128 * Pow2(24);
    assert Pow2(32) == 2 * Pow2(31);
  }

  /** Exclusive-or of two 32-bit words. */
  function Xor32(a: uint32, b: uint32): (r: uint32)
    ensures r == Xor(a, b)
  {
    Pow2Values();
    XorBound(a, b, 32);
    Xor(a, b)
  }

  // Little-endian loads and stores

  function Le16(w: uint16): (b: seq<uint8>)
    ensures |b| == 2
  {
    [w % 0x100, w / 0x100]
  }

  function Le32(w: uint32): (b: seq<uint8>)
    ensures |b| == 4
  {
    var w1 := w / 0x100;
    var w2 := w1 / 0x100;
    var w3 := w2 / 0x100;
    [w % 0x100, w1 % 0x100, w2 % 0x100, w3]
  }

  function Load16(b: seq<uint8>, off: nat): uint16
    requires off + 2 <= |b|
  {
    b[off] as int + 0x100 * (b[off + 1] as int)
  }

  function Join(low: uint8, high: int): int {
    low + 0x100 * high
  }

  lemma JoinInjective(a: uint8, x: int, b: uint8, y: int)
    requires Join(a, x) == Join(b, y)
    ensures a == b && x == y
  {
    assert a - b == 0x100 * (y - x);
  }

  function Load32(b: seq<uint8>, off: nat): uint32
    requires off + 4 <= |b|
  {
    Join(b[off], Join(b[off + 1], Join(b[off + 2], b[off + 3])))
  }

  /** A stored word is loaded back, wherever it lies in the buffer. */
  lemma LoadStored32(b: seq<uint8>, off: nat, w: uint32)
    requires off + 4 <= |b| && b[off..off + 4] == Le32(w)
    ensures Load32(b, off) == w
  {
    var s := b[off..off + 4];
    assert b[off] == s[0] && b[off + 1] == s[1] && b[off + 2] == s[2] && b[off + 3] == s[3];
  }

  lemma LoadStored16(b: seq<uint8>, off: nat, w: uint16)
    requires off + 2 <= |b| && b[off..off + 2] == Le16(w)
    ensures Load16(b, off) == w
  {
    var s := b[off..off + 2];
    assert b[off] == s[0] && b[off + 1] == s[1];
  }

  /** Equal words were loaded from equal bytes. */
  lemma LoadInjective32(a: seq<uint8>, b: seq<uint8>, off: nat)
    requires off + 4 <= |a| && off + 4 <= |b|
    requires Load32(a, off) == Load32(b, off)
    ensures a[off..off + 4] == b[off..off + 4]
    ensures forall i :: off <= i < off + 4 ==> a[i] == b[i]
  {
    hide Join;
    JoinInjective(a[off], Join(a[off + 1], Join(a[off + 2], a[off + 3])), b[off], Join(b[off + 1], Join(b[off + 2], b[off + 3])));
    JoinInjective(a[off + 1], Join(a[off + 2], a[off + 3]), b[off + 1], Join(b[off + 2], b[off + 3]));
    JoinInjective(a[off + 2], a[off + 3], b[off + 2], b[off + 3]);
  }

  lemma LeOfLoad(s: seq<uint8>, off: nat)
    requires off + 4 <= |s|
    ensures Le32(Load32(s, off)) == s[off..off + 4]
  {
    LoadInjective32(Le32(Load32(s, off)) + s, s[off..off + 4] + s, 0) by {
      LoadStored32(Le32(Load32(s, off)) + s, 0, Load32(s, off));
    }
    assert (Le32(Load32(s, off)) + s)[0..4] == Le32(Load32(s, off));
    assert (s[off..off + 4] + s)[0..4] == s[off..off + 4];
  }

  /** Words in little-endian byte order. */
  function LeWords(ws: seq<uint32>): (s: seq<uint8>)
    ensures |s| == 4 * |ws|
  {
    seq(4 * |ws|, k requires 0 <= k < 4 * |ws| => Le32(ws[k / 4])[k % 4])
  }

  lemma LeWordsAt(ws: seq<uint32>, i: nat)
    requires i < |ws|
    ensures LeWords(ws)[4 * i..4 * i + 4] == Le32(ws[i])
  {
    var w := LeWords(ws);
    assert w[4 * i] == Le32(ws[i])[0] && w[4 * i + 1] == Le32(ws[i])[1];
    assert w[4 * i + 2] == Le32(ws[i])[2] && w[4 * i + 3] == Le32(ws[i])[3];
  }

  function Zeros(n: nat): (z: seq<uint8>)
    ensures |z| == n && forall i :: 0 <= i < n ==> z[i] == 0
  {
    seq(n, i => 0)
  }

  function Min(a: nat, b: nat): nat {
    if a <= b then a else b
  }

  /** Number of d-sized pieces needed for n items. */
  function CeilDiv(n: nat, d: nat): nat
    requires d > 0
  {
    (n + d - 1) / d
  }

  // Buffers

  /** A buffer after bytes are stored at an offset. */
  function Splice(s: seq<uint8>, off: nat, bytes: seq<uint8>): (r: seq<uint8>)
    requires off + |bytes| <= |s|
    ensures |r| == |s|
  {
    s[..off] + bytes + s[off + |bytes|..]
  }

  lemma SplicePart(s: seq<uint8>, off: nat, bytes: seq<uint8>)
    requires off + |bytes| <= |s|
    ensures Splice(s, off, bytes)[off..off + |bytes|] == bytes
  {
  }

  lemma SpliceFrame(s: seq<uint8>, off: nat, bytes: seq<uint8>, a: nat, b: nat)
    requires off + |bytes| <= |s| && a <= b <= |s| && (b <= off || off + |bytes| <= a)
    ensures Splice(s, off, bytes)[a..b] == s[a..b]
  {
    var r := Splice(s, off, bytes);
    assert forall i :: a <= i < b ==> r[i] == s[i];
  }

  lemma SpliceGrows(s: seq<uint8>, off: nat, bytes: seq<uint8>)
    requires off + |bytes| <= |s|
    ensures Splice(s, off, bytes)[..off + |bytes|] == s[..off] + bytes
  {
  }

  // Remainders

  lemma ModSucc(n: nat, m: nat)
    requires m > 0
    ensures (n + 1) % m == if n % m + 1 == m then 0 else n % m + 1
  {
    var q, r := n / m, n % m;
    assert n == m * q + r && r < m;
    if r + 1 == m {
      MulNext(m, q);
      DivUnique(n + 1, m, q + 1, 0);
    } else {
      DivUnique(n + 1, m, q, r + 1);
    }
  }

  lemma MulNext(m: nat, q: nat)
    ensures m * (q + 1) == m * q + m
  {
  }

  lemma DivUnique(n: nat, m: nat, q: nat, r: nat)
    requires m > 0 && n == m * q + r && r < m
    ensures n % m == r
  {
    var d := n / m - q;
    assert m * d == r - n % m;
    if d > 0 {
      MulAtLeast(m, d);
    } else if d < 0 {
      MulAtLeast(m, -d);
    }
  }

  lemma MulAtLeast(m: nat, d: int)
    requires d >= 1
    ensures m * d >= m && m * -d <= -(m as int)
  {
    assert m * (d - 1) >= 0;
  }

  lemma SmallMod(x: nat, m: nat)
    requires x < m
    ensures x % m == x
  {
  }

  lemma MultipleOnly(m: nat, q: nat, x: nat)
    requires 0 < x < m
    ensures m * q != x
  {
    if q >= 1 {
      MulAtLeast(m, q);
    }
  }

  /** Numbers less than m apart have different remainders. */
  lemma ModApart(k: nat, n: nat, m: nat)
    requires 0 < n - k < m
    ensures k % m != n % m
  {
    var p, q := k / m, n / m;
    assert k == m * p + k % m && n == m * q + n % m;
    if k % m == n % m {
      assert n - k == m * (q - p) by {
        MulDiff(m, p, q);
      }
      if q > p {
        MulAtLeast(m, q - p);
      } else {
        MulNotPositive(m, p - q);
      }
    }
  }

  lemma MulDiff(m: nat, p: int, q: int)
    ensures m * (q - p) == m * q - m * p
  {
  }

  lemma MulNotPositive(m: nat, d: int)
    requires d >= 0
    ensures m * -d <= 0
  {
    assert m * d >= 0;
  }

  // Bitmaps

  function Bit(b: bool): (r: nat)
    ensures r <= 1
  {
    if b then 1 else 0
  }

  /** A bitmap word: flag i is bit i. */
  function Bits(flags: seq<bool>): (w: nat)
    ensures w < Pow2(|flags|)
  {
    if flags == [] then 0 else Bit(flags[0]) + 2 * Bits(flags[1..])
  }

  function FlagsOf(w: nat, n: nat): (flags: seq<bool>)
    ensures |flags| == n
  {
    if n == 0 then [] else [w % 2 == 1] + FlagsOf(w / 2, n - 1)
  }

  lemma {:induction false} FlagsOfBits(flags: seq<bool>)
    ensures FlagsOf(Bits(flags), |flags|) == flags
  {
    if flags != [] {
      FlagsOfBits(flags[1..]);
      assert Bits(flags) % 2 == Bit(flags[0]) && Bits(flags) / 2 == Bits(flags[1..]);
    }
  }

  function NoFlags(n: nat): (flags: seq<bool>)
    ensures |flags| == n && forall i :: 0 <= i < n ==> !flags[i]
  {
    seq(n, i => false)
  }

  function BitWord(flags: seq<bool>): (w: uint32)
    requires |flags| == 32
  {
    Pow2Values();
    Bits(flags)
  }
}
