/**
 The counter's restore envelope: a header and up to eight numbered entries, each setting the counter's state or
 applying an arithmetic operation to it. Entries take effect in the order of their numbers.
 */
module CounterEnvelope {
  import opened Words

  const ENV_MAGIC: uint32 := 0x3156_4E45
  const ENV_VERSION: uint16 := 1
  const MAX_ENTRIES: nat := 8
  const DATA_MAX: nat := 32
  const HEADER_BYTES: nat := 24
  const ENTRY_BYTES: nat := 44
  const ENV_BYTES: nat := 376
  const STATE_BYTES: nat := 16
  const OP_BYTES: nat := 8
  const COUNTER_ID: uint8 := 4
  const PENDING: uint16 := 0
  const DONE: uint16 := 1
  const SET_STATE: uint16 := 1
  const APPLY_OP: uint16 := 2
  const ADD: uint8 := 1
  const SUB: uint8 := 2
  const MUL: uint8 := 3
  const DIV: uint8 := 4
  const NO_SEQ: uint32 := 0xFFFF_FFFF

  datatype State = State(active: uint8, bg: uint8, stepPending: uint8, limit: uint32, value: uint32, nextTick: uint32)

  datatype Op = Op(op: uint8, operand: uint32)

  datatype Entry = Entry(seqNo: uint32, action: uint16, status: uint16, dataLen: uint16, data: seq<uint8>) {
    predicate Sized() {
      |data| == DATA_MAX
    }
  }

  // Meaning

  /** One operation with the code's clamping: subtraction and division stop at 1, and a limit other than 0 caps. */
  function Result(v: uint32, o: Op): Option<uint32> {
    if o.op == ADD then Some((v + o.operand) % TWO_32)
    else if o.op == SUB then Some(if v > o.operand then v - o.operand else 1)
    else if o.op == MUL then Some(v * o.operand % TWO_32)
    else if o.op == DIV then
      if o.operand == 0 then None else Some(Quotient(v, o.operand))
    else None
  }

  function Quotient(v: uint32, d: uint32): (q: uint32)
    requires d > 0
  {
    QuotientBound(v, d);
    if v / d == 0 then 1 else v / d
  }

  lemma QuotientBound(v: uint32, d: uint32)
    requires d > 0
    ensures 0 <= v / d <= v
  {
    assert v == d * (v / d) + v % d;
    AtLeast(d, v / d);
  }

  lemma AtLeast(d: nat, q: nat)
    requires d > 0
    ensures q <= d * q
  {
    assert (d - 1) * q >= 0;
  }

  function Capped(v: uint32, limit: uint32): uint32 {
    if v > limit && limit != 0 then limit else v
  }

  function ApplyOp(s: State, o: Op): Option<State> {
    var v := Result(s.value, o);
    if v == None then None else Some(s.(value := Capped(v.value, s.limit)))
  }

  /** The value each operation code gives: sum and product modulo 2^32, the difference if positive and 1 otherwise,
      the quotient but at least 1; division by zero and every other code are refused. */
  lemma ResultIs(v: uint32, o: Op)
    ensures Result(v, o) == None <==> o.op == 0 || o.op > 4 || (o.op == 4 && o.operand == 0)
    ensures o.op == 1 ==> Result(v, o) == Some((v + o.operand) % 0x1_0000_0000)
    ensures o.op == 2 ==> var r := Result(v, o).value; if v <= o.operand then r == 1 else r + o.operand == v
    ensures o.op == 3 ==> Result(v, o) == Some(v * o.operand % 0x1_0000_0000)
    ensures o.op == 4 && o.operand > 0 ==>
              var r := Result(v, o).value;
              if v < o.operand then r == 1 else r * o.operand <= v < r * o.operand + o.operand
  {
    if o.op == 4 && o.operand > 0 {
      QuotientIs(v, o.operand);
    }
  }

  lemma QuotientIs(v: uint32, d: uint32)
    requires d > 0
    ensures var q := Quotient(v, d); if v < d then q == 1 else q * d <= v < q * d + d
  {
    var q := v / d;
    assert v == d * q + v % d;
    if q >= 1 {
      AtLeast(q, d);
    }
  }

  /** An applied operation changes the value alone: to what the operation gives, or to the limit if there is one and
      it is smaller. */
  lemma ApplyOpIs(s: State, o: Op)
    ensures ApplyOp(s, o) == None <==> Result(s.value, o) == None
    ensures ApplyOp(s, o).Some? ==>
              var r, v := ApplyOp(s, o).value, Result(s.value, o).value;
              && r == State(s.active, s.bg, s.stepPending, s.limit, r.value, s.nextTick)
              && r.value == if s.limit == 0 then v else Min(v, s.limit)
  {
  }

  /** The operations applied in order. */
  function FoldOps(s: State, ops: seq<Op>): Option<State> {
    if ops == [] then Some(s)
    else
      var r := FoldOps(s, ops[..|ops| - 1]);
      if r == None then None else ApplyOp(r.value, ops[|ops| - 1])
  }

  function StateOf(d: seq<uint8>): State
    requires |d| >= STATE_BYTES
  {
    State(d[0], d[1], d[2], Load32(d, 4), Load32(d, 8), Load32(d, 12))
  }

  function OpOf(d: seq<uint8>): Op
    requires |d| >= OP_BYTES
  {
    Op(d[0], Load32(d, 4))
  }

  /** Where the walk over the entries stands: failed, or with or without a state to work on. */
  datatype Walk = Failed | Going(base: Option<State>)

  function Take(w: Walk, e: Entry): Walk
    requires e.Sized()
  {
    if w == Failed then Failed
    else if e.status != PENDING then w
    else if e.action == SET_STATE then
      if e.dataLen != STATE_BYTES then Failed else Going(Some(StateOf(e.data).(stepPending := 0)))
    else if e.action == APPLY_OP then
      if w.base == None || e.dataLen != OP_BYTES then Failed
      else
        var r := ApplyOp(w.base.value, OpOf(e.data));
        if r == None then Failed else Going(r)
    else Failed
  }

  predicate AllSized(es: seq<Entry>) {
    forall i :: 0 <= i < |es| ==> es[i].Sized()
  }

  function TakeAll(w: Walk, es: seq<Entry>): Walk
    requires AllSized(es)
    decreases |es|
  {
    if es == [] then w else TakeAll(Take(w, es[0]), es[1..])
  }

  lemma {:induction false} FailedStays(es: seq<Entry>)
    requires AllSized(es)
    ensures TakeAll(Failed, es) == Failed
  {
    if es != [] {
      FailedStays(es[1..]);
    }
  }

  // Order

  /** The first entry with the smallest number. */
  function MinIndex(es: seq<Entry>): (m: nat)
    requires es != []
    ensures m < |es|
    ensures forall j :: 0 <= j < |es| ==> es[m].seqNo <= es[j].seqNo && (j < m ==> es[m].seqNo < es[j].seqNo)
  {
    if |es| == 1 then 0
    else
      var k := 1 + MinIndex(es[1..]);
      if es[k].seqNo < es[0].seqNo then k else 0
  }

  function Without(es: seq<Entry>, m: nat): (r: seq<Entry>)
    requires m < |es|
    ensures |r| == |es| - 1 && (AllSized(es) ==> AllSized(r))
  {
    es[..m] + es[m + 1..]
  }

  /** The entries in order of number, earlier place first on ties. */
  function InOrder(es: seq<Entry>): (r: seq<Entry>)
    ensures |r| == |es| && (AllSized(es) ==> AllSized(r))
    decreases |es|
  {
    if es == [] then [] else [es[MinIndex(es)]] + InOrder(Without(es, MinIndex(es)))
  }

  predicate Numbered(es: seq<Entry>) {
    forall i :: 0 <= i < |es| ==> es[i].seqNo < NO_SEQ
  }

  predicate DistinctNumbers(es: seq<Entry>) {
    forall i, j :: 0 <= i < j < |es| ==> es[i].seqNo != es[j].seqNo
  }

  predicate Ascending(es: seq<Entry>) {
    forall i, j :: 0 <= i < j < |es| ==> es[i].seqNo <= es[j].seqNo
  }

  lemma WithoutBag(es: seq<Entry>, m: nat)
    requires m < |es|
    ensures multiset(es) == multiset{es[m]} + multiset(Without(es, m))
  {
    assert es == es[..m] + [es[m]] + es[m + 1..];
  }

  lemma InOrderFirst(es: seq<Entry>)
    requires es != []
    ensures InOrder(es) == [es[MinIndex(es)]] + InOrder(Without(es, MinIndex(es)))
  {
  }

  lemma AscendingFirst(e: Entry, r: seq<Entry>)
    requires Ascending(r) && forall j :: 0 <= j < |r| ==> e.seqNo <= r[j].seqNo
    ensures Ascending([e] + r)
  {
  }

  /** Every entry of the rest is numbered no lower than the chosen one. */
  lemma RestAbove(es: seq<Entry>, r: seq<Entry>, m: nat)
    requires m < |es| && multiset(es) == multiset{es[m]} + multiset(r)
    requires forall j :: 0 <= j < |es| ==> es[m].seqNo <= es[j].seqNo
    ensures forall j :: 0 <= j < |r| ==> es[m].seqNo <= r[j].seqNo
  {
    forall j | 0 <= j < |r|
      ensures es[m].seqNo <= r[j].seqNo
    {
      assert r[j] in multiset(r);
      assert r[j] in multiset(es);
    }
  }

  /** Ordering rearranges the entries and sorts their numbers. */
  lemma {:induction false} InOrderSorts(es: seq<Entry>)
    ensures multiset(InOrder(es)) == multiset(es) && Ascending(InOrder(es))
    decreases |es|
  {
    if es != [] {
      hide InOrder, MinIndex, Without, Ascending;
      var m := MinIndex(es);
      var r := InOrder(Without(es, m));
      InOrderSorts(Without(es, m));
      WithoutBag(es, m);
      InOrderFirst(es);
      RestAbove(es, r, m);
      AscendingFirst(es[m], r);
      FirstOfBag(InOrder(es));
      assert InOrder(es)[1..] == r;
    }
  }

  lemma FirstOfBag(a: seq<Entry>)
    requires a != []
    ensures multiset(a) == multiset{a[0]} + multiset(a[1..])
  {
    assert a == [a[0]] + a[1..];
  }

  lemma SmallestFirst(a: seq<Entry>, b: seq<Entry>)
    requires a != [] && multiset(a) == multiset(b) && Ascending(a) && Ascending(b) && DistinctNumbers(a)
    ensures b != [] && a[0] == b[0]
  {
    assert a[0] in multiset(b);
    assert b[0] in multiset(a);
  }

  lemma TailKeeps(a: seq<Entry>)
    requires a != [] && Ascending(a) && DistinctNumbers(a)
    ensures Ascending(a[1..]) && DistinctNumbers(a[1..])
  {
  }

  lemma {:induction false} SortedUnique(a: seq<Entry>, b: seq<Entry>)
    requires multiset(a) == multiset(b) && Ascending(a) && Ascending(b) && DistinctNumbers(a) && DistinctNumbers(b)
    ensures a == b
  {
    hide Ascending, DistinctNumbers;
    if a == [] {
      assert |multiset(b)| == 0;
    } else {
      SmallestFirst(a, b);
      FirstOfBag(a);
      FirstOfBag(b);
      assert multiset(a[1..]) == multiset(a) - multiset{a[0]};
      assert multiset(b[1..]) == multiset(b) - multiset{b[0]};
      TailKeeps(a);
      TailKeeps(b);
      SortedUnique(a[1..], b[1..]);
      assert a == [a[0]] + a[1..] && b == [b[0]] + b[1..];
    }
  }

  lemma BagDistinct(a: seq<Entry>, b: seq<Entry>)
    requires multiset(a) == multiset(b) && DistinctNumbers(a)
    ensures DistinctNumbers(b)
  {
    forall i, j | 0 <= i < j < |b|
      ensures b[i].seqNo != b[j].seqNo
    {
      if b[i].seqNo == b[j].seqNo {
        assert b[i] in multiset(a) && b[j] in multiset(a);
        var x :| 0 <= x < |a| && a[x] == b[i];
        var y :| 0 <= y < |a| && a[y] == b[j];
        assert x == y;
        TwiceInBag(b, i, j);
        OnceInBag(a, x);
      }
    }
  }

  lemma TwiceInBag(b: seq<Entry>, i: nat, j: nat)
    requires i < j < |b| && b[i] == b[j]
    ensures multiset(b)[b[i]] >= 2
  {
    assert b == b[..i] + [b[i]] + b[i + 1..j] + [b[j]] + b[j + 1..];
  }

  lemma OnceInBag(a: seq<Entry>, x: nat)
    requires DistinctNumbers(a) && x < |a|
    ensures multiset(a)[a[x]] == 1
  {
    assert a == a[..x] + [a[x]] + a[x + 1..];
    assert a[x] !in a[..x] && a[x] !in a[x + 1..];
  }

  /** Rearranging entries with distinct numbers does not change their order of effect. */
  lemma InOrderPermutation(a: seq<Entry>, b: seq<Entry>)
    requires multiset(a) == multiset(b) && DistinctNumbers(a)
    ensures InOrder(a) == InOrder(b)
  {
    InOrderSorts(a);
    InOrderSorts(b);
    BagDistinct(a, InOrder(a));
    BagDistinct(a, InOrder(b));
    SortedUnique(InOrder(a), InOrder(b));
  }

  /** Entries that already come in order stay in place. */
  lemma {:induction false} InOrderAlready(es: seq<Entry>)
    requires Ascending(es)
    ensures InOrder(es) == es
    decreases |es|
  {
    if es != [] {
      hide InOrder, MinIndex;
      InOrderFirst(es);
      assert es[MinIndex(es)].seqNo <= es[0].seqNo;
      assert Without(es, 0) == es[1..];
      InOrderAlready(es[1..]);
    }
  }

  /** What the entries amount to: every entry must have a usable number, and some entry must set the state. */
  function Decoded(es: seq<Entry>): Option<State>
    requires AllSized(es)
  {
    if !Numbered(es) then None
    else
      var w := TakeAll(Going(None), InOrder(es));
      if w == Failed then None else w.base
  }

  // What a list of entries means

  /** The entries that still wait to take effect. */
  function Pending(es: seq<Entry>): (p: seq<Entry>)
    ensures AllSized(es) ==> AllSized(p)
  {
    if es == [] then [] else (if es[0].status == 0 then [es[0]] else []) + Pending(es[1..])
  }

  predicate SetsState(e: Entry) {
    e.action == 1 && e.dataLen == 16
  }

  /** An operation that can be applied to any value. */
  predicate Operates(e: Entry)
    requires e.Sized()
  {
    e.action == 2 && e.dataLen == 8 && 1 <= OpOf(e.data).op <= 4 && (OpOf(e.data).op == 4 ==> OpOf(e.data).operand > 0)
  }

  predicate AllOperate(p: seq<Entry>)
    requires AllSized(p)
  {
    forall i :: 0 <= i < |p| ==> Operates(p[i])
  }

  function OpsOf(p: seq<Entry>): (ops: seq<Op>)
    requires AllSized(p)
    ensures |ops| == |p|
  {
    seq(|p|, i requires 0 <= i < |p| => OpOf(p[i].data))
  }

  predicate AllUsable(p: seq<Entry>)
    requires AllSized(p)
  {
    forall i :: 0 <= i < |p| ==> SetsState(p[i]) || Operates(p[i])
  }

  lemma {:induction false} TakePending(w: Walk, es: seq<Entry>)
    requires AllSized(es)
    ensures TakeAll(w, es) == TakeAll(w, Pending(es))
    decreases |es|
  {
    hide StateOf, OpOf, ApplyOp;
    if es != [] {
      var p := Pending(es[1..]);
      TakePending(Take(w, es[0]), es[1..]);
      if es[0].status == 0 {
        assert ([es[0]] + p)[1..] == p;
      } else {
        assert [] + p == p;
      }
    }
  }

  lemma {:induction false} AllPending(es: seq<Entry>)
    ensures forall i :: 0 <= i < |Pending(es)| ==> Pending(es)[i].status == 0
  {
    if es != [] {
      AllPending(es[1..]);
    }
  }

  /** The walk as a fold from the end. */
  lemma {:induction false} TakeLast(w: Walk, p: seq<Entry>)
    requires AllSized(p) && p != []
    ensures TakeAll(w, p) == Take(TakeAll(w, p[..|p| - 1]), p[|p| - 1])
    decreases |p|
  {
    hide Take;
    if |p| > 1 {
      TakeLast(Take(w, p[0]), p[1..]);
      assert p[1..][..|p| - 2] == p[..|p| - 1][1..];
    } else {
      assert p[1..] == [] && p[..0] == [];
    }
  }

  lemma OperatesApplies(s: State, e: Entry)
    requires e.Sized() && e.action == 2 && e.dataLen == 8
    ensures ApplyOp(s, OpOf(e.data)).Some? <==> Operates(e)
  {
    hide OpOf;
    ResultIs(s.value, OpOf(e.data));
  }

  /** Index k sets the state, and only operations follow it. */
  predicate LastSet(p: seq<Entry>, k: nat)
    requires AllSized(p)
  {
    k < |p| && SetsState(p[k]) && AllOperate(p[k + 1..])
  }

  lemma {:induction false} PendingMeans(p: seq<Entry>)
    requires AllSized(p) && forall i :: 0 <= i < |p| ==> p[i].status == 0
    ensures TakeAll(Going(None), p) != Failed <==> AllUsable(p) && (p != [] ==> SetsState(p[0]))
    ensures TakeAll(Going(None), p) != Failed ==> (p == [] <==> TakeAll(Going(None), p).base == None)
    ensures TakeAll(Going(None), p) != Failed && p != [] ==>
              exists k: nat ::
                LastSet(p, k) && TakeAll(Going(None), p).base == FoldOps(StateOf(p[k].data).(stepPending := 0), OpsOf(p[k + 1..]))
    decreases |p|
  {
    hide StateOf, OpOf, ApplyOp, FoldOps, TakeAll;
    if p == [] {
      TakeNone(Going(None));
    } else {
      var n := |p| - 1;
      var init, e := p[..n], p[n];
      PendingMeans(init);
      TakeLast(Going(None), p);
      var w := TakeAll(Going(None), init);
      UsableLast(p);
      if w != Failed && SetsState(e) {
        FoldNone(StateOf(e.data).(stepPending := 0));
        assert p[n + 1..] == [];
        assert LastSet(p, n) && OpsOf(p[n + 1..]) == [];
      } else if w != Failed && init != [] && e.action == 2 && e.dataLen == 8 {
        OperatesApplies(w.base.value, e);
        if Operates(e) {
          var k: nat :| LastSet(init, k) && w.base == FoldOps(StateOf(init[k].data).(stepPending := 0), OpsOf(init[k + 1..]));
          SetLater(p, k);
          FoldOne(StateOf(p[k].data).(stepPending := 0), OpsOf(init[k + 1..]), OpOf(e.data));
        }
      }
    }
  }

  lemma TakeNone(w: Walk)
    ensures TakeAll(w, []) == w
  {
  }

  lemma FoldNone(s: State)
    ensures FoldOps(s, []) == Some(s)
  {
  }

  lemma FoldOne(s: State, ops: seq<Op>, o: Op)
    requires FoldOps(s, ops).Some?
    ensures FoldOps(s, ops + [o]) == ApplyOp(FoldOps(s, ops).value, o)
  {
    assert (ops + [o])[..|ops|] == ops;
  }

  lemma UsableLast(p: seq<Entry>)
    requires AllSized(p) && p != []
    ensures var n := |p| - 1; AllUsable(p) <==> AllUsable(p[..n]) && (SetsState(p[n]) || Operates(p[n]))
  {
    hide Operates;
    var n := |p| - 1;
    assert forall i :: 0 <= i < n ==> p[..n][i] == p[i];
  }

  lemma SetLater(p: seq<Entry>, k: nat)
    requires AllSized(p) && p != [] && Operates(p[|p| - 1]) && LastSet(p[..|p| - 1], k)
    ensures LastSet(p, k) && OpsOf(p[k + 1..]) == OpsOf(p[..|p| - 1][k + 1..]) + [OpOf(p[|p| - 1].data)]
  {
    hide Operates, OpOf;
    var n := |p| - 1;
    assert p[k + 1..] == p[..n][k + 1..] + [p[n]];
  }

  /** A list of entries has a meaning exactly when every number is usable and the pending entries, in order, begin with
      one that sets the state and contain nothing but settings of 16 bytes and applicable operations of 8; the meaning
      is then the last state set, with the operations behind it applied. */
  lemma DecodedExactly(es: seq<Entry>)
    requires AllSized(es)
    ensures var p := Pending(InOrder(es));
            && (Decoded(es).Some? <==> Numbered(es) && p != [] && SetsState(p[0]) && AllUsable(p))
            && (Decoded(es).Some? ==> exists k: nat ::
                  LastSet(p, k) && Decoded(es) == FoldOps(StateOf(p[k].data).(stepPending := 0), OpsOf(p[k + 1..])))
  {
    hide StateOf, OpOf, FoldOps, TakeAll, InOrder, Pending, AllUsable, LastSet, SetsState;
    var o := InOrder(es);
    TakePending(Going(None), o);
    AllPending(o);
    PendingMeans(Pending(o));
  }

  lemma DecodedPermutation(a: seq<Entry>, b: seq<Entry>)
    requires AllSized(a) && AllSized(b) && multiset(a) == multiset(b) && DistinctNumbers(a)
    ensures Decoded(a) == Decoded(b)
  {
    hide InOrder, TakeAll;
    InOrderPermutation(a, b);
    assert forall i :: 0 <= i < |a| ==> a[i] in multiset(b);
    assert forall i :: 0 <= i < |b| ==> b[i] in multiset(a);
  }

  // Bytes

  function EntryAt(b: seq<uint8>, j: nat): (e: Entry)
    requires HEADER_BYTES + ENTRY_BYTES * (j + 1) <= |b|
    ensures e.Sized()
  {
    var o := HEADER_BYTES + ENTRY_BYTES * j;
    Entry(Load32(b, o), Load16(b, o + 4), Load16(b, o + 6), Load16(b, o + 8), b[o + 12..o + 44])
  }

  function Entries(b: seq<uint8>, n: nat): (es: seq<Entry>)
    requires HEADER_BYTES + ENTRY_BYTES * n <= |b|
    ensures |es| == n && AllSized(es)
  {
    seq(n, j requires 0 <= j < n => EntryAt(b, j))
  }

  function EntryCount(b: seq<uint8>): uint16
    requires |b| >= HEADER_BYTES
  {
    Load16(b, 6)
  }

  predicate HeaderOk(b: seq<uint8>)
    requires |b| >= HEADER_BYTES
  {
    && Load32(b, 0) == ENV_MAGIC && Load16(b, 4) == ENV_VERSION && b[20] == COUNTER_ID
    && 0 < EntryCount(b) <= MAX_ENTRIES && Load16(b, 8) <= EntryCount(b) && Load16(b, 10) <= EntryCount(b)
  }

  /** What a blob decodes to: a bare state of 16 bytes, or an envelope. */
  function Decode(b: seq<uint8>): Option<State> {
    if |b| == STATE_BYTES then Some(StateOf(b).(stepPending := 0))
    else if |b| < ENV_BYTES || !HeaderOk(b) then None
    else Decoded(Entries(b, EntryCount(b)))
  }

  /** The blobs with a meaning: a bare state of 16 bytes, whose step flag is dropped, or at least 376 bytes that begin
      with "ENV1", version 1, name task 4, announce one to eight entries and no more done or pending ones, and whose
      entries have a meaning. */
  lemma DecodeExactly(b: seq<uint8>)
    ensures |b| == 16 ==> Decode(b) == Some(State(b[0], b[1], 0, Load32(b, 4), Load32(b, 8), Load32(b, 12)))
    ensures |b| != 16 ==> (Decode(b).Some? <==>
              && |b| >= 376 && b[..6] == [0x45, 0x4E, 0x56, 0x31, 1, 0] && b[20] == 4
              && 1 <= Load16(b, 6) <= 8 && Load16(b, 8) <= Load16(b, 6) && Load16(b, 10) <= Load16(b, 6)
              && Decoded(Entries(b, Load16(b, 6))).Some?)
  {
    hide Decoded, Entries;
    if |b| >= 376 {
      var h: seq<uint8> := [0x45, 0x4E, 0x56, 0x31, 1, 0];
      assert b[..6] == h <==> b[0] == h[0] && b[1] == h[1] && b[2] == h[2] && b[3] == h[3] && b[4] == h[4] && b[5] == h[5];
      MagicBytes(b);
      assert HeaderOk(b) ==> HEADER_BYTES + ENTRY_BYTES * Load16(b, 6) <= |b|;
    }
  }

  lemma MagicBytes(b: seq<uint8>)
    requires |b| >= 6
    ensures Load32(b, 0) == ENV_MAGIC <==> b[0] == 0x45 && b[1] == 0x4E && b[2] == 0x56 && b[3] == 0x31
    ensures Load16(b, 4) == 1 <==> b[4] == 1 && b[5] == 0
  {
  }

  /** Two envelopes with the same header whose entries are rearranged decode to the same state. */
  lemma DecodePermutation(b: seq<uint8>, b': seq<uint8>)
    requires |b| >= ENV_BYTES && |b'| >= ENV_BYTES && b[..HEADER_BYTES] == b'[..HEADER_BYTES]
    requires HeaderOk(b) ==>
               var es, es' := Entries(b, EntryCount(b)), Entries(b', EntryCount(b));
               multiset(es) == multiset(es') && DistinctNumbers(es)
    ensures Decode(b) == Decode(b')
  {
    hide Entries, Decoded;
    SameHeader(b, b');
    if HeaderOk(b) {
      DecodedPermutation(Entries(b, EntryCount(b)), Entries(b', EntryCount(b)));
    }
  }

  lemma SameHeader(b: seq<uint8>, b': seq<uint8>)
    requires |b| >= HEADER_BYTES && |b'| >= HEADER_BYTES && b[..HEADER_BYTES] == b'[..HEADER_BYTES]
    ensures HeaderOk(b) == HeaderOk(b') && EntryCount(b) == EntryCount(b')
  {
    assert forall i :: 0 <= i < HEADER_BYTES ==> b[i] == b[..HEADER_BYTES][i] == b'[i];
  }

  // Encoding

  /** The state's bytes; its fourth byte is padding. */
  function StateBytes(s: State, pad: uint8): (d: seq<uint8>)
    ensures |d| == STATE_BYTES
  {
    [s.active, s.bg, s.stepPending, pad] + Le32(s.limit) + Le32(s.value) + Le32(s.nextTick)
  }

  function OpBytes(o: Op): (d: seq<uint8>)
    ensures |d| == OP_BYTES
  {
    [o.op, 0, 0, 0] + Le32(o.operand)
  }

  function Padded(d: seq<uint8>): (r: seq<uint8>)
    requires |d| <= DATA_MAX
    ensures |r| == DATA_MAX
  {
    d + Zeros(DATA_MAX - |d|)
  }

  function SetEntry(s: State, pad: uint8): (e: Entry)
    ensures e.Sized()
  {
    Entry(1, SET_STATE, PENDING, STATE_BYTES, Padded(StateBytes(s, pad)))
  }

  function OpEntry(o: Op, i: nat): (e: Entry)
    requires i < MAX_ENTRIES
    ensures e.Sized()
  {
    Entry(i + 2, APPLY_OP, PENDING, OP_BYTES, Padded(OpBytes(o)))
  }

  function EmptyEntry(): (e: Entry)
    ensures e.Sized()
  {
    Entry(0, 0, DONE, 0, Zeros(DATA_MAX))
  }

  /** The entries of an encoded envelope that count. */
  function EncodedEntries(s: State, pad: uint8, ops: seq<Op>): (es: seq<Entry>)
    requires |ops| < MAX_ENTRIES
    ensures |es| == 1 + |ops| && AllSized(es)
  {
    [SetEntry(s, pad)] + seq(|ops|, i requires 0 <= i < |ops| => OpEntry(ops[i], i))
  }

  /** All eight entries; those past the count are cleared. */
  function AllEntries(s: State, pad: uint8, ops: seq<Op>): (es: seq<Entry>)
    requires |ops| < MAX_ENTRIES
    ensures |es| == MAX_ENTRIES && AllSized(es)
  {
    EncodedEntries(s, pad, ops) + seq(MAX_ENTRIES - 1 - |ops|, i => EmptyEntry())
  }

  function HeaderBytes(count: nat): (h: seq<uint8>)
    requires count <= MAX_ENTRIES
    ensures |h| == HEADER_BYTES
  {
    Le32(ENV_MAGIC) + Le16(ENV_VERSION) + Le16(count) + Le16(0) + Le16(count) + Le32(1) + Le32(count + 1)
    + [COUNTER_ID, 0, 0, 0]
  }

  function EntryBytes(e: Entry): (d: seq<uint8>)
    requires e.Sized()
    ensures |d| == ENTRY_BYTES
  {
    Le32(e.seqNo) + Le16(e.action) + Le16(e.status) + Le16(e.dataLen) + Le16(0) + e.data
  }

  function EntriesBytes(es: seq<Entry>): (d: seq<uint8>)
    requires AllSized(es)
    ensures |d| == ENTRY_BYTES * |es|
  {
    if es == [] then [] else EntriesBytes(es[..|es| - 1]) + EntryBytes(es[|es| - 1])
  }

  function Envelope(s: State, pad: uint8, ops: seq<Op>): (b: seq<uint8>)
    requires |ops| < MAX_ENTRIES
    ensures |b| == ENV_BYTES
  {
    HeaderBytes(1 + |ops|) + EntriesBytes(AllEntries(s, pad, ops))
  }

  lemma HeaderReads(b: seq<uint8>, count: nat)
    requires |b| >= HEADER_BYTES && 0 < count <= MAX_ENTRIES && b[..HEADER_BYTES] == HeaderBytes(count)
    ensures HeaderOk(b) && EntryCount(b) == count
  {
    hide Le32, Le16, Load32, Load16;
    var h := b[..HEADER_BYTES];
    assert b[0..4] == h[0..4] == Le32(ENV_MAGIC);
    assert b[4..6] == h[4..6] == Le16(ENV_VERSION);
    assert b[6..8] == h[6..8] == Le16(count);
    assert b[8..10] == h[8..10] == Le16(0);
    assert b[10..12] == h[10..12] == Le16(count);
    assert b[20] == h[20];
    LoadStored32(b, 0, ENV_MAGIC);
    LoadStored16(b, 4, ENV_VERSION);
    LoadStored16(b, 6, count);
    LoadStored16(b, 8, 0);
    LoadStored16(b, 10, count);
  }

  lemma EntryReads(b: seq<uint8>, j: nat, e: Entry)
    requires HEADER_BYTES + ENTRY_BYTES * (j + 1) <= |b| && e.Sized()
    requires b[HEADER_BYTES + ENTRY_BYTES * j..HEADER_BYTES + ENTRY_BYTES * (j + 1)] == EntryBytes(e)
    ensures EntryAt(b, j) == e
  {
    hide Le32, Le16, Load32, Load16;
    var o := HEADER_BYTES + ENTRY_BYTES * j;
    var d := EntryBytes(e);
    assert b[o..o + 44] == d;
    FieldAt(b, o, d, 0, 4);
    FieldAt(b, o, d, 4, 2);
    FieldAt(b, o, d, 6, 2);
    FieldAt(b, o, d, 8, 2);
    FieldAt(b, o, d, 12, 32);
    assert d[0..4] == Le32(e.seqNo) && d[4..6] == Le16(e.action) && d[6..8] == Le16(e.status);
    assert d[8..10] == Le16(e.dataLen) && d[12..44] == e.data;
    LoadStored32(b, o + 0, e.seqNo);
    LoadStored16(b, o + 4, e.action);
    LoadStored16(b, o + 6, e.status);
    LoadStored16(b, o + 8, e.dataLen);
  }

  lemma FieldAt(b: seq<uint8>, o: nat, d: seq<uint8>, i: nat, n: nat)
    requires o + |d| <= |b| && b[o..o + |d|] == d && i + n <= |d|
    ensures b[o + i..o + i + n] == d[i..i + n]
  {
    assert forall k :: 0 <= k < |d| ==> b[o + k] == b[o..o + |d|][k] == d[k];
  }

  lemma {:induction false} EntryBytesAt(es: seq<Entry>, j: nat)
    requires AllSized(es) && j < |es|
    ensures EntriesBytes(es)[ENTRY_BYTES * j..ENTRY_BYTES * (j + 1)] == EntryBytes(es[j])
    decreases |es|
  {
    hide EntryBytes;
    var n := |es| - 1;
    if j < n {
      EntryBytesAt(es[..n], j);
      var init := EntriesBytes(es[..n]);
      assert EntriesBytes(es)[..|init|] == init;
      assert EntriesBytes(es)[ENTRY_BYTES * j..ENTRY_BYTES * (j + 1)] == init[ENTRY_BYTES * j..ENTRY_BYTES * (j + 1)];
    }
  }

  /** Reading an envelope gives back the entries written. */
  lemma EntriesOfEnvelope(s: State, pad: uint8, ops: seq<Op>)
    requires |ops| < MAX_ENTRIES
    ensures var b := Envelope(s, pad, ops);
            HeaderOk(b) && EntryCount(b) == 1 + |ops| && Entries(b, 1 + |ops|) == EncodedEntries(s, pad, ops)
  {
    hide HeaderBytes, EntriesBytes, EntryBytes, EntryAt, HeaderOk, EntryCount, SetEntry, OpEntry, EmptyEntry;
    var b, h, es := Envelope(s, pad, ops), HeaderBytes(1 + |ops|), AllEntries(s, pad, ops);
    assert b[..HEADER_BYTES] == h;
    HeaderReads(b, 1 + |ops|);
    forall j | 0 <= j < 1 + |ops|
      ensures EntryAt(b, j) == EncodedEntries(s, pad, ops)[j]
    {
      EntryBytesAt(es, j);
      var o := ENTRY_BYTES * j;
      assert b[HEADER_BYTES + o..HEADER_BYTES + o + ENTRY_BYTES] == EntriesBytes(es)[o..o + ENTRY_BYTES];
      EntryReads(b, j, es[j]);
      assert es[j] == EncodedEntries(s, pad, ops)[j];
    }
  }

  lemma StateReads(s: State, pad: uint8)
    ensures StateOf(Padded(StateBytes(s, pad))) == s && StateOf(StateBytes(s, pad)) == s
  {
    hide Le32, Load32;
    var d, q := StateBytes(s, pad), Padded(StateBytes(s, pad));
    assert q[4..8] == d[4..8] == Le32(s.limit) && q[8..12] == d[8..12] == Le32(s.value);
    assert q[12..16] == d[12..16] == Le32(s.nextTick);
    LoadStored32(q, 4, s.limit);
    LoadStored32(q, 8, s.value);
    LoadStored32(q, 12, s.nextTick);
    LoadStored32(d, 4, s.limit);
    LoadStored32(d, 8, s.value);
    LoadStored32(d, 12, s.nextTick);
  }

  lemma OpReads(o: Op)
    ensures OpOf(Padded(OpBytes(o))) == o
  {
    hide Le32, Load32;
    var q := Padded(OpBytes(o));
    assert q[4..8] == OpBytes(o)[4..8] == Le32(o.operand);
    LoadStored32(q, 4, o.operand);
  }

  lemma {:induction false} TakeAllSplit(w: Walk, a: seq<Entry>, b: seq<Entry>)
    requires AllSized(a) && AllSized(b)
    ensures AllSized(a + b) && TakeAll(w, a + b) == TakeAll(TakeAll(w, a), b)
    decreases |a|
  {
    hide Take;
    if a == [] {
      assert a + b == b;
    } else {
      assert (a + b)[1..] == a[1..] + b;
      TakeAllSplit(Take(w, a[0]), a[1..], b);
    }
  }

  function WalkOf(r: Option<State>): Walk {
    if r == None then Failed else Going(r)
  }

  lemma TakeOne(w: Walk, e: Entry)
    requires e.Sized()
    ensures AllSized([e]) && TakeAll(w, [e]) == Take(w, e)
  {
    hide Take;
  }

  /** Taking the entries of an envelope folds the operations over the saved state. */
  lemma {:induction false} TakeEncoded(s: State, pad: uint8, ops: seq<Op>)
    requires |ops| < MAX_ENTRIES
    ensures TakeAll(Going(None), EncodedEntries(s, pad, ops)) == WalkOf(FoldOps(s.(stepPending := 0), ops))
    decreases |ops|
  {
    hide TakeAll, StateOf, OpOf, Padded, StateBytes, OpBytes, ApplyOp;
    if ops == [] {
      StateReads(s, pad);
      assert EncodedEntries(s, pad, ops) == [SetEntry(s, pad)];
      TakeOne(Going(None), SetEntry(s, pad));
    } else {
      var n := |ops| - 1;
      TakeEncoded(s, pad, ops[..n]);
      var e := OpEntry(ops[n], n);
      assert EncodedEntries(s, pad, ops) == EncodedEntries(s, pad, ops[..n]) + [e];
      TakeAllSplit(Going(None), EncodedEntries(s, pad, ops[..n]), [e]);
      TakeOne(TakeAll(Going(None), EncodedEntries(s, pad, ops[..n])), e);
      OpReads(ops[n]);
    }
  }

  /** Decoding an encoded envelope is folding the operations, in order, over the saved state. */
  lemma DecodeEncoded(s: State, pad: uint8, ops: seq<Op>)
    requires |ops| < MAX_ENTRIES
    ensures Decode(Envelope(s, pad, ops)) == FoldOps(s.(stepPending := 0), ops)
  {
    hide Envelope, HeaderOk, EntryCount, TakeAll, FoldOps, Entries, InOrder, SetEntry, OpEntry;
    EntriesOfEnvelope(s, pad, ops);
    var es := EncodedEntries(s, pad, ops);
    EncodedNumbers(s, pad, ops);
    InOrderAlready(es);
    TakeEncoded(s, pad, ops);
  }

  lemma EncodedNumbers(s: State, pad: uint8, ops: seq<Op>)
    requires |ops| < MAX_ENTRIES
    ensures var es := EncodedEntries(s, pad, ops); Numbered(es) && Ascending(es) && DistinctNumbers(es)
  {
    hide Padded, StateBytes, OpBytes;
    var es := EncodedEntries(s, pad, ops);
    assert forall i :: 0 <= i < |es| ==> es[i].seqNo == i + 1;
  }
}
