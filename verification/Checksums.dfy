/**
 The two checksums of the system: the multiplicative word/byte hash shared by the journal, the
 snapshot ring, the file store and the disk table, and the CRC-32 of the task checkpoint
 (section 8 of RFC 1952). For each: the loop as written, its value as a fold, and what it detects.
 */
module Fnv {
  import opened Words

  const BASIS: uint32 := 2166136261
  const PRIME: uint32 := 16777619
  const PRIME_INVERSE: uint32 := 899433627
  const FINAL_MASK: uint32 := 0xA5A5_5A5A

  function Step(h: uint32, v: uint32): uint32 {
    Xor32(h, v) * PRIME as int % TWO_32
  }

  function Fold(h: uint32, s: seq<uint32>): uint32 {
    if s == [] then h else Step(Fold(h, s[..|s| - 1]), s[|s| - 1])
  }

  function Finish(h: uint32): uint32 {
    Xor32(h, FINAL_MASK)
  }

  function Checksum(s: seq<uint32>): uint32 {
    Finish(Fold(BASIS, s))
  }

  method ChecksumUpdate(start: uint32, data: seq<uint32>) returns (h: uint32)
    ensures h == Fold(start, data)
  {
    h := start;
    for i := 0 to |data|
      invariant h == Fold(start, data[..i])
    {
      assert data[..i + 1][..i] == data[..i];
      h := Step(h, data[i]);
    }
    assert data[..|data|] == data;
  }

  lemma ChecksumIs(s: seq<uint32>)
    ensures Checksum(s) == Finish(Fold(BASIS, s))
  {
  }

  lemma FoldNothing(h: uint32)
    ensures Fold(h, []) == h
  {
  }

  /** Folding chunk by chunk is folding the concatenation. */
  lemma {:induction false} FoldAppend(h: uint32, a: seq<uint32>, b: seq<uint32>)
    ensures Fold(h, a + b) == Fold(Fold(h, a), b)
  {
    if b == [] {
      assert a + b == a;
    } else {
      assert (a + b)[..|a + b| - 1] == a + b[..|b| - 1];
      FoldAppend(h, a, b[..|b| - 1]);
    }
  }

  /** Multiplication by the (odd) prime can be undone modulo 2^32. */
  lemma TimesPrimeInvertible(x: uint32)
    ensures x * PRIME as int % TWO_32 * PRIME_INVERSE % TWO_32 == x
  {
    var k := x * 16777619 / TWO_32;
    var y := x * 16777619 - k * TWO_32;
    assert y == x * PRIME as int % TWO_32;
    assert y * 899433627 == x + TWO_32 * (x * 3513497 - k * 899433627);
    ModShift(x, x * 3513497 - k * 899433627);
  }

  lemma ModShift(x: uint32, q: int)
    ensures (x + TWO_32 * q) % TWO_32 == x
  {
  }

  lemma StepInjective(h: uint32, h': uint32, v: uint32, v': uint32)
    requires Step(h, v) == Step(h', v')
    ensures h == h' ==> v == v'
    ensures v == v' ==> h == h'
  {
    TimesPrimeInvertible(Xor32(h, v));
    TimesPrimeInvertible(Xor32(h', v'));
    assert Xor(h, v) == Xor(h', v');
    if h == h' {
      XorInjective(v, v', h);
    }
    if v == v' {
      XorInjective(h, h', v);
    }
  }

  /** Changing exactly one element always changes the fold. */
  lemma {:induction false} FoldDetects(h: uint32, a: seq<uint32>, b: seq<uint32>, k: nat)
    requires |a| == |b| && k < |a| && a[k] != b[k]
    requires forall i :: 0 <= i < |a| && i != k ==> a[i] == b[i]
    ensures Fold(h, a) != Fold(h, b)
  {
    var n := |a| - 1;
    if k == n {
      assert a[..n] == b[..n];
      if Fold(h, a) == Fold(h, b) {
        StepInjective(Fold(h, a[..n]), Fold(h, b[..n]), a[n], b[n]);
      }
    } else {
      FoldDetects(h, a[..n], b[..n], k);
      if Fold(h, a) == Fold(h, b) {
        StepInjective(Fold(h, a[..n]), Fold(h, b[..n]), a[n], b[n]);
      }
    }
  }

  /** Changing exactly one word (or byte) always changes the checksum. */
  lemma ChecksumDetects(a: seq<uint32>, b: seq<uint32>, k: nat)
    requires |a| == |b| && k < |a| && a[k] != b[k]
    requires forall i :: 0 <= i < |a| && i != k ==> a[i] == b[i]
    ensures Checksum(a) != Checksum(b)
  {
    FoldDetects(BASIS, a, b, k);
    if Checksum(a) == Checksum(b) {
      XorInjective(Fold(BASIS, a), Fold(BASIS, b), FINAL_MASK);
    }
  }
}

module Crc {
  import opened Words

  const POLY: uint32 := 0xEDB8_8320
  const TOP: uint32 := 0x8000_0000

  /** One of the eight bit rounds applied per byte. */
  function Round(c: uint32): uint32 {
    if c % 2 == 1 then Xor32(c / 2, POLY) else c / 2
  }

  function Unround(t: uint32): nat {
    if t >= TOP then 2 * Xor(t, POLY) + 1 else 2 * t as int
  }

  function Rounds(c: uint32, k: nat): uint32 {
    if k == 0 then c else Round(Rounds(c, k - 1))
  }

  function ByteStep(c: uint32, d: uint8): uint32 {
    Rounds(Xor32(c, d), 8)
  }

  function Fold(c: uint32, s: seq<uint8>): uint32 {
    if s == [] then c else ByteStep(Fold(c, s[..|s| - 1]), s[|s| - 1])
  }

  function Crc32(s: seq<uint8>): uint32 {
    TWO_32 - 1 - Fold(TWO_32 - 1, s)
  }

  method Crc32Calc(data: seq<uint8>) returns (r: uint32)
    ensures r == Crc32(data)
  {
    var crc: uint32 := TWO_32 - 1;
    for i := 0 to |data|
      invariant crc == Fold(TWO_32 - 1, data[..i])
    {
      assert data[..i + 1][..i] == data[..i];
      ghost var before := Xor32(crc, data[i]);
      crc := Xor32(crc, data[i]);
      for b := 0 to 8
        invariant crc == Rounds(before, b)
      {
        crc := if crc % 2 == 1 then Xor32(crc / 2, POLY) else crc / 2;
      }
    }
    assert data[..|data|] == data;
    r := TWO_32 - 1 - crc;
  }

  // Every round is a bijection of the 32-bit states

  /** Exclusive-or with the polynomial flips the top bit. */
  lemma PolyFlipsTop(a: uint32)
    ensures a < TOP <==> Xor(a, POLY) >= TOP
  {
    Pow2Values();
    if a < TOP && Xor(a, POLY) < TOP {
      XorBound(Xor(a, POLY), a, 31);
      XorComm(a, POLY);
      XorCancel(POLY, a);
    }
    if a >= TOP && Xor(a, POLY) >= TOP {
      var a', p' := a - TOP, POLY - TOP;
      XorDisjoint(a', 1, 31);
      XorDisjoint(p', 1, 31);
      XorComm(a', TOP);
      XorComm(p', TOP);
      XorAssoc(a', TOP, POLY);
      XorComm(TOP, POLY);
      XorCancel(p', TOP);
      XorBound(a', p', 31);
    }
  }

  /** Round has a two-sided inverse, so it is a bijection. */
  lemma RoundBijective(c: uint32)
    ensures Unround(Round(c)) == c
    ensures Unround(c) < TWO_32 && Round(Unround(c)) == c
  {
    UnroundOfRound(c);
    RoundOfUnround(c);
  }

  lemma UnroundOfRound(c: uint32)
    ensures Unround(Round(c)) == c
  {
    var x := Xor(c / 2, POLY);
    PolyFlipsTop(c / 2);
    XorCancel(c / 2, POLY);
    if c % 2 == 1 {
      assert Round(c) == x >= TOP;
      assert c == 2 * (c / 2) + 1;
    } else {
      assert c == 2 * (c / 2);
    }
  }

  lemma RoundOfUnround(t: uint32)
    ensures Unround(t) < TWO_32 && Round(Unround(t)) == t
  {
    PolyFlipsTop(t);
    XorCancel(t, POLY);
    if t >= TOP {
      var x := Xor(t, POLY);
      assert Unround(t) == 2 * x + 1;
      assert (2 * x + 1) / 2 == x && (2 * x + 1) % 2 == 1;
    }
  }

  lemma {:induction false} RoundsInjective(a: uint32, b: uint32, k: nat)
    requires Rounds(a, k) == Rounds(b, k)
    ensures a == b
  {
    if k > 0 {
      RoundBijective(Rounds(a, k - 1));
      RoundBijective(Rounds(b, k - 1));
      RoundsInjective(a, b, k - 1);
    }
  }

  lemma {:induction false} RoundsCompose(c: uint32, j: nat, k: nat)
    ensures Rounds(Rounds(c, j), k) == Rounds(c, j + k)
  {
    if k > 0 {
      RoundsCompose(c, j, k - 1);
    }
  }

  // A burst of up to four bytes is one 32-bit exclusive-or

  lemma XorDouble(a: nat, e: nat)
    ensures Xor(a, 2 * e) == a % 2 + 2 * Xor(a / 2, e)
  {
    XorHalf(a, 2 * e);
  }

  /** Numbers without common binary digits add by exclusive-or. */
  lemma {:induction false} XorDisjoint(a: nat, b: nat, k: nat)
    requires a < Pow2(k)
    ensures Xor(a, Pow2(k) * b) == a + Pow2(k) * b
  {
    hide Xor;
    if k == 0 {
      XorZero(b);
    } else {
      var p := Pow2(k - 1);
      var e := p * b;
      XorDisjoint(a / 2, b, k - 1);
      XorDouble(a, e);
      assert Xor(a, 2 * e) == a + 2 * e;
      assert Pow2(k) * b == 2 * e by {
        MulShift(p, b);
        assert Pow2(k) == 2 * p;
        assert p * (2 * b) == 2 * (p * b);
      }
    }
  }

  lemma RoundLinear(x: uint32, y: nat)
    requires 2 * y < TWO_32
    ensures Round(Xor32(x, 2 * y)) == Xor(Round(x), y)
  {
    XorHalf(x, 2 * y);
    if x % 2 == 1 {
      XorAssoc(x / 2, y, POLY);
      XorComm(y, POLY);
      XorAssoc(x / 2, POLY, y);
    }
  }

  lemma ShiftOne(k: nat, y: nat)
    requires k > 0
    ensures Pow2(k) * y == Pow2(k - 1) * (2 * y) >= 2 * y
  {
    var p := Pow2(k - 1);
    MulShift(p, y);
  }

  lemma MulShift(p: nat, y: nat)
    requires p > 0
    ensures 2 * p * y == p * (2 * y) >= 2 * y
  {
    assert (p - 1) * (2 * y) >= 0;
  }

  lemma {:induction false} RoundsLinear(x: uint32, y: nat, k: nat)
    requires Pow2(k) * y < TWO_32
    ensures Rounds(Xor32(x, Pow2(k) * y), k) == Xor(Rounds(x, k), y)
    decreases k
  {
    hide Xor;
    if k == 0 {
    } else {
      ShiftOne(k, y);
      RoundsLinear(x, 2 * y, k - 1);
      RoundLinear(Rounds(x, k - 1), y);
    }
  }

  /** The little-endian number a byte string spells. */
  function Value(w: seq<uint8>): nat {
    if w == [] then 0 else w[0] as int + 0x100 * Value(w[1..])
  }

  lemma Pow2PlusEight(k: nat)
    ensures Pow2(k + 8) == 0x100 * Pow2(k)
  {
    assert Pow2(k + 2) == 4 * Pow2(k);
    assert Pow2(k + 4) == 4 * Pow2(k + 2);
    assert Pow2(k + 6) == 4 * Pow2(k + 4);
    assert Pow2(k + 8) == 4 * Pow2(k + 6);
  }

  lemma {:induction false} ValueBound(w: seq<uint8>)
    ensures Value(w) < Pow2(8 * |w|)
  {
    if w != [] {
      ValueBound(w[1..]);
      Pow2PlusEight(8 * |w[1..]|);
    }
  }

  lemma {:induction false} ValueInjective(w: seq<uint8>, w': seq<uint8>)
    requires |w| == |w'| && Value(w) == Value(w')
    ensures w == w'
  {
    if w != [] {
      assert w[0] == w'[0];
      ValueInjective(w[1..], w'[1..]);
      assert w == [w[0]] + w[1..] && w' == [w'[0]] + w'[1..];
    }
  }

  lemma {:induction false} FoldAppend(c: uint32, a: seq<uint8>, b: seq<uint8>)
    ensures Fold(c, a + b) == Fold(Fold(c, a), b)
  {
    if b == [] {
      assert a + b == a;
    } else {
      assert (a + b)[..|a + b| - 1] == a + b[..|b| - 1];
      FoldAppend(c, a, b[..|b| - 1]);
    }
  }

  /** Up to four bytes act as one exclusive-or followed by eight rounds per byte. */
  lemma {:induction false} FoldIsRounds(c: uint32, w: seq<uint8>)
    requires |w| <= 4
    ensures Value(w) < TWO_32
    ensures Fold(c, w) == Rounds(Xor32(c, Value(w)), 8 * |w|)
    decreases |w|
  {
    hide Xor, Rounds, Fold;
    ValueFits(w);
    if w == [] {
      XorZero(c);
      FoldRoundsNothing(c);
    } else {
      var d, rest := w[0], w[1..];
      var v := Value(rest);
      assert w == [d] + rest;
      FoldAppend(c, [d], rest);
      FoldOneByte(c, d);
      FoldIsRounds(ByteStep(c, d), rest);
      Pow2Values();
      RoundsLinear(Xor32(c, d), v, 8);
      RoundsCompose(Xor32(Xor32(c, d), 0x100 * v), 8, 8 * |rest|);
      XorAssoc(c, d, 0x100 * v);
      XorDisjoint(d, v, 8);
    }
  }

  lemma FoldRoundsNothing(c: uint32)
    ensures Fold(c, []) == c == Rounds(c, 0)
  {
  }

  lemma FoldOneByte(c: uint32, d: uint8)
    ensures Fold(c, [d]) == ByteStep(c, d)
  {
    assert [d][..0] == [];
  }

  lemma ValueFits(w: seq<uint8>)
    requires |w| <= 4
    ensures Value(w) < TWO_32
  {
    Pow2Values();
    ValueBound(w);
    assert Pow2(24) == 0x100_0000;
  }

  lemma {:induction false} FoldKeepsDifference(c: uint32, c': uint32, s: seq<uint8>)
    requires c != c'
    ensures Fold(c, s) != Fold(c', s)
  {
    if s != [] {
      var n := |s| - 1;
      FoldKeepsDifference(c, c', s[..n]);
      var x, x' := Fold(c, s[..n]), Fold(c', s[..n]);
      if ByteStep(x, s[n]) == ByteStep(x', s[n]) {
        RoundsInjective(Xor32(x, s[n]), Xor32(x', s[n]), 8);
        XorInjective(x, x', s[n]);
      }
    }
  }

  /** Every change confined to four consecutive bytes changes the CRC. */
  lemma Crc32DetectsBurst(a: seq<uint8>, b: seq<uint8>, k: nat, m: nat)
    requires |a| == |b| && k + m <= |a| && m <= 4 && a != b
    requires a[..k] == b[..k] && a[k + m..] == b[k + m..]
    ensures Crc32(a) != Crc32(b)
  {
    var p, s := a[..k], a[k + m..];
    var w, w' := a[k..k + m], b[k..k + m];
    assert a == p + w + s && b == p + w' + s;
    FoldAppend(TWO_32 - 1, p + w, s);
    FoldAppend(TWO_32 - 1, p + w', s);
    FoldAppend(TWO_32 - 1, p, w);
    FoldAppend(TWO_32 - 1, p, w');
    var c := Fold(TWO_32 - 1, p);
    FoldIsRounds(c, w);
    FoldIsRounds(c, w');
    if Fold(c, w) == Fold(c, w') {
      RoundsInjective(Xor32(c, Value(w)), Xor32(c, Value(w')), 8 * m);
      XorInjective(Value(w), Value(w'), c);
      ValueInjective(w, w');
    } else {
      FoldKeepsDifference(Fold(c, w), Fold(c, w'), s);
    }
  }

  // The CRC is the remainder of a division

  /** The generator, lowest bit first: bit i is the coefficient of x^(32 - i). */
  const GENERATOR: nat := 0x1_DB71_0641

  /** x^32 + x^26 + x^23 + x^22 + x^16 + x^12 + x^11 + x^10 + x^8 + x^7 + x^5 + x^4 + x^2 + x + 1. */
  lemma GeneratorIs()
    ensures GENERATOR == Pow2(32 - 32) + Pow2(32 - 26) + Pow2(32 - 23) + Pow2(32 - 22) + Pow2(32 - 16) + Pow2(32 - 12)
                         + Pow2(32 - 11) + Pow2(32 - 10) + Pow2(32 - 8) + Pow2(32 - 7) + Pow2(32 - 5) + Pow2(32 - 4)
                         + Pow2(32 - 2) + Pow2(32 - 1) + Pow2(32 - 0)
  {
    Pow2Values();
    assert Pow2(9) == 0x200 && Pow2(10) == 0x400;
    assert Pow2(20) == 0x10 * Pow2(16) && Pow2(21) == 2 * Pow2(20) && Pow2(22) == 2 * Pow2(21);
    assert Pow2(24) == 4 * Pow2(22) && Pow2(25) == 2 * Pow2(24) && Pow2(27) == 4 * Pow2(25) && Pow2(28) == 2 * Pow2(27);
    assert Pow2(30) == 4 * Pow2(28) && Pow2(31) == 2 * Pow2(30);
  }

  /** Product of polynomials with coefficients modulo 2. */
  function Times(q: nat, g: nat): nat {
    if q == 0 then 0 else Xor(if q % 2 == 1 then g else 0, 2 * Times(q / 2, g))
  }

  lemma TimesHalf(q: nat, g: nat)
    ensures Times(q, g) == Xor(if q % 2 == 1 then g else 0, 2 * Times(q / 2, g))
  {
    if q == 0 {
      XorZero(0);
    }
  }

  lemma XorTwice(a: nat, b: nat)
    ensures Xor(2 * a, 2 * b) == 2 * Xor(a, b)
  {
    XorHalf(2 * a, 2 * b);
  }

  lemma {:induction false} XorShift(a: nat, b: nat, k: nat)
    ensures Xor(Pow2(k) * a, Pow2(k) * b) == Pow2(k) * Xor(a, b)
  {
    hide Xor;
    if k > 0 {
      XorShift(a, b, k - 1);
      var p := Pow2(k - 1);
      XorTwice(p * a, p * b);
      Doubled(p, a);
      Doubled(p, b);
      Doubled(p, Xor(a, b));
    }
  }

  lemma Doubled(p: nat, a: nat)
    ensures 2 * p * a == 2 * (p * a)
  {
  }

  lemma {:induction false} PowAdd(j: nat, k: nat)
    ensures Pow2(j + k) == Pow2(j) * Pow2(k)
  {
    if j > 0 {
      PowAdd(j - 1, k);
      Doubled(Pow2(j - 1), Pow2(k));
    }
  }

  lemma XorSwap(a: nat, b: nat, c: nat)
    ensures Xor(Xor(a, b), c) == Xor(Xor(a, c), b) == Xor(a, Xor(c, b))
  {
    XorAssoc(a, b, c);
    XorComm(b, c);
    XorAssoc(a, c, b);
  }

  /** Taking a quotient apart into its low k digits and the rest. */
  lemma {:induction false} TimesSplit(low: nat, high: nat, k: nat, g: nat)
    requires low < Pow2(k)
    ensures Times(low + Pow2(k) * high, g) == Xor(Times(low, g), Pow2(k) * Times(high, g))
    decreases k
  {
    hide Xor, Times;
    if k == 0 {
      TimesNothing(g);
      XorZero(Times(high, g));
    } else {
      var p, q := Pow2(k - 1), low + Pow2(k) * high;
      Doubled(p, high);
      assert q % 2 == low % 2 && q / 2 == low / 2 + p * high;
      TimesSplit(low / 2, high, k - 1, g);
      TimesHalf(q, g);
      TimesHalf(low, g);
      var b := if low % 2 == 1 then g else 0;
      var t := p * Times(high, g);
      XorTwice(Times(low / 2, g), t);
      XorAssoc(b, 2 * Times(low / 2, g), 2 * t);
      Doubled(p, Times(high, g));
    }
  }

  lemma TimesNothing(g: nat)
    ensures Times(0, g) == 0
  {
  }

  /** A round takes the generator away if the lowest digit asks for it, and shifts. */
  lemma RoundDivides(c: uint32)
    ensures c == Xor(2 * Round(c), if c % 2 == 1 then GENERATOR else 0)
  {
    var g := if c % 2 == 1 then GENERATOR else 0;
    XorHalf(c, g);
    assert GENERATOR == 2 * POLY + 1;
    XorZero(c / 2);
    assert Xor(c, g) == 2 * Round(c);
    hide Xor;
    XorCancel(c, g);
  }

  /** v is the quotient times the generator, plus the remainder shifted by k. */
  predicate Divides(v: nat, k: nat, q: nat, r: nat) {
    q < Pow2(k) && v == Xor(Pow2(k) * r, Times(q, GENERATOR))
  }

  lemma {:induction false} RoundsDivide(c: uint32, k: nat) returns (q: nat)
    ensures Divides(c, k, q, Rounds(c, k))
    decreases k
  {
    hide Xor, Times, Round, Rounds;
    if k == 0 {
      q := 0;
      TimesNothing(GENERATOR);
      XorZero(c);
      RoundsNothing(c);
    } else {
      var h := RoundsDivide(Round(c), k - 1);
      q := c % 2 + 2 * h;
      FirstRound(c, k);
      RoundDivides(c);
      TimesHalf(q, GENERATOR);
      assert q % 2 == c % 2 && q / 2 == h;
      var r, p, g := Rounds(c, k), Pow2(k - 1), if c % 2 == 1 then GENERATOR else 0;
      XorTwice(p * r, Times(h, GENERATOR));
      Doubled(p, r);
      XorSwap(2 * (p * r), 2 * Times(h, GENERATOR), g);
    }
  }

  lemma RoundsNothing(c: uint32)
    ensures Rounds(c, 0) == c
  {
  }

  lemma FirstRound(c: uint32, k: nat)
    requires k > 0
    ensures Rounds(Round(c), k - 1) == Rounds(c, k)
  {
    RoundsCompose(c, 1, k - 1);
    assert Rounds(c, 1) == Round(Rounds(c, 0));
  }

  function Product(a: nat, b: nat): (r: nat)
    ensures r == a * b
  {
    a * b
  }

  /** Two divisions one after the other are one division. */
  lemma DividesCompose(v: nat, j: nat, q: nat, c: nat, k: nat, q': nat, r: nat, high: nat)
    requires Divides(v, j, q, c) && Divides(Xor(c, high), k, q', r)
    ensures Divides(Xor(v, Product(Pow2(j), high)), j + k, q + Product(Pow2(j), q'), r)
  {
    hide Xor, Times;
    var p := Pow2(j);
    var t, t' := Times(q, GENERATOR), Times(q', GENERATOR);
    XorSwap(p * c, t, p * high);
    XorShift(c, high, j);
    XorShift(Pow2(k) * r, t', j);
    assert p * (Pow2(k) * r) == Pow2(j + k) * r by {
      PowAdd(j, k);
      MulAssoc(p, Pow2(k), r);
    }
    XorSwap(Pow2(j + k) * r, p * t', t);
    TimesSplit(q, q', j, GENERATOR);
    PowAdd(j, k);
    QuotientFits(p, q, Pow2(k), q');
  }

  lemma MulAssoc(a: nat, b: nat, c: nat)
    ensures a * (b * c) == a * b * c
  {
  }

  lemma QuotientFits(p: nat, q: nat, m: nat, q': nat)
    requires q < p && q' < m
    ensures q + p * q' < p * m
  {
    var d := m - q' - 1;
    assert p * m == p * q' + p + p * d by {
      assert m == q' + 1 + d;
    }
    assert p * d >= 0;
  }

  lemma {:induction false} FoldDivides(c: uint32, s: seq<uint8>) returns (q: nat)
    ensures Divides(Xor(c, Value(s)), 8 * |s|, q, Fold(c, s))
    decreases |s|
  {
    hide Xor, Rounds, Fold, Divides;
    if s == [] {
      q := 0;
      XorZero(c);
      FoldRoundsNothing(c);
      NothingDivides(c);
    } else {
      var d, rest := s[0], s[1..];
      assert s == [d] + rest;
      FoldAppend(c, [d], rest);
      FoldOneByte(c, d);
      var q0 := RoundsDivide(Xor32(c, d), 8);
      var q1 := FoldDivides(ByteStep(c, d), rest);
      DividesCompose(Xor(c, d), 8, q0, ByteStep(c, d), 8 * |rest|, q1, Fold(c, s), Value(rest));
      q := q0 + Pow2(8) * q1;
      Pow2Values();
      XorAssoc(c, d, 0x100 * Value(rest));
      XorDisjoint(d, Value(rest), 8);
    }
  }

  lemma NothingDivides(c: nat)
    ensures Divides(c, 0, 0, c)
  {
    XorZero(c);
  }

  /** Quotient and remainder are unique. */
  lemma {:induction false} DivisionUnique(v: nat, k: nat, q: nat, r: nat, q': nat, r': nat)
    requires Divides(v, k, q, r) && Divides(v, k, q', r')
    ensures q == q' && r == r'
    decreases k
  {
    hide Xor, Times;
    if k == 0 {
      TimesNothing(GENERATOR);
      XorZero(r);
      XorZero(r');
    } else {
      DividesHalf(v, k, q, r);
      DividesHalf(v, k, q', r');
      var g := if v % 2 == 1 then GENERATOR / 2 else 0;
      DivisionUnique(Xor(v / 2, g), k - 1, q / 2, r, q' / 2, r');
    }
  }

  /** The lowest digit of the quotient is that of the dividend, and the rest divides the rest. */
  lemma DividesHalf(v: nat, k: nat, q: nat, r: nat)
    requires k > 0 && Divides(v, k, q, r)
    ensures q % 2 == v % 2
    ensures Divides(Xor(v / 2, if v % 2 == 1 then GENERATOR / 2 else 0), k - 1, q / 2, r)
  {
    hide Xor, Times;
    var p, t := Pow2(k - 1), Times(q / 2, GENERATOR);
    var b := if q % 2 == 1 then GENERATOR else 0;
    Doubled(p, r);
    TimesHalf(q, GENERATOR);
    XorHalf(b, 2 * t);
    XorHalf(2 * (p * r), Times(q, GENERATOR));
    assert v / 2 == Xor(p * r, Xor(b / 2, t));
    XorSwap(p * r, t, b / 2);
    XorCancel(Xor(p * r, t), b / 2);
  }

  /** The remainder left by dividing a message, prepared with ones, by the generator; its complement is the CRC. */
  ghost predicate IsRemainder(s: seq<uint8>, r: nat) {
    exists q :: Divides(Xor(0xFFFF_FFFF, Value(s)), 8 * |s|, q, r)
  }

  /** For every message: the CRC-32 is the complement of the remainder of dividing the message, lowest bit first and
      its first 32 bits inverted, by the generator polynomial, and no other number is. */
  lemma Crc32IsRemainder(s: seq<uint8>, r: nat)
    ensures IsRemainder(s, r) <==> Crc32(s) == 0xFFFF_FFFF - r
  {
    hide Xor, Fold, Divides, Value;
    var f := Fold(TWO_32 - 1, s);
    var q := FoldDivides(TWO_32 - 1, s);
    if IsRemainder(s, r) {
      var q' :| Divides(Xor(0xFFFF_FFFF, Value(s)), 8 * |s|, q', r);
      DivisionUnique(Xor(0xFFFF_FFFF, Value(s)), 8 * |s|, q, f, q', r);
    }
  }
}
