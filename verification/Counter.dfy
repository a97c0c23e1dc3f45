/**
 The counter's code that builds and applies restore envelopes, and the inspector that only decodes them. The two
 readers are written separately; both are proved to compute CounterEnvelope's meaning of a blob.
 */
module Counter {
  import opened Words
  import opened CounterEnvelope

  const STEP_TICKS: nat := 250

  // Building an envelope

  method Put(out: array<uint8>, off: nat, bytes: seq<uint8>)
    requires off + |bytes| <= out.Length
    modifies out
    ensures out[..] == Splice(old(out[..]), off, bytes)
  {
    for i := 0 to |bytes|
      invariant forall j :: 0 <= j < out.Length ==> out[j] == if off <= j < off + i then bytes[j - off] else old(out[j])
    {
      out[off + i] := bytes[i];
    }
  }

  /** The first k entries are in place and nothing behind the envelope was touched. */
  ghost predicate Built(b: seq<uint8>, was: seq<uint8>, count: nat, es: seq<Entry>, k: nat) {
    && count <= MAX_ENTRIES && k <= |es| == MAX_ENTRIES && AllSized(es[..k]) && |b| == |was| >= ENV_BYTES
    && b[..HEADER_BYTES + ENTRY_BYTES * k] == HeaderBytes(count) + EntriesBytes(es[..k])
    && b[ENV_BYTES..] == was[ENV_BYTES..]
  }

  lemma BuiltNext(b: seq<uint8>, was: seq<uint8>, count: nat, es: seq<Entry>, k: nat)
    requires AllSized(es) && Built(b, was, count, es, k) && k < MAX_ENTRIES
    ensures var o := HEADER_BYTES + ENTRY_BYTES * k;
            o + ENTRY_BYTES <= |b| && Built(Splice(b, o, EntryBytes(es[k])), was, count, es, k + 1)
  {
    hide EntryBytes, HeaderBytes;
    var o, d := HEADER_BYTES + ENTRY_BYTES * k, EntryBytes(es[k]);
    SpliceGrows(b, o, d);
    SpliceFrame(b, o, d, ENV_BYTES, |b|);
    var c := Splice(b, o, d);
    assert c[ENV_BYTES..] == c[ENV_BYTES..|b|] && b[ENV_BYTES..] == b[ENV_BYTES..|b|];
    assert es[..k + 1][..k] == es[..k];
  }

  lemma BuiltStart(was: seq<uint8>, count: nat, es: seq<Entry>)
    requires |was| >= ENV_BYTES && count <= MAX_ENTRIES == |es|
    ensures Built(Splice(was, 0, HeaderBytes(count)), was, count, es, 0)
  {
    hide HeaderBytes;
    var h := HeaderBytes(count);
    SpliceGrows(was, 0, h);
    SpliceFrame(was, 0, h, ENV_BYTES, |was|);
    var c := Splice(was, 0, h);
    assert c[ENV_BYTES..] == c[ENV_BYTES..|was|] && was[ENV_BYTES..] == was[ENV_BYTES..|was|];
    assert es[..0] == [];
  }

  /** Build the envelope in the caller's buffer. */
  method EncodeEnvelope(s: State, pad: uint8, ops: seq<Op>, out: array<uint8>) returns (ok: bool, len: nat)
    modifies out
    ensures ok == (|ops| < MAX_ENTRIES && out.Length >= ENV_BYTES)
    ensures ok ==> len == ENV_BYTES && out[..len] == Envelope(s, pad, ops) && out[len..] == old(out[ENV_BYTES..])
    ensures !ok ==> out[..] == old(out[..])
  {
    hide Built, HeaderBytes, EntryBytes, EntriesBytes, SetEntry, OpEntry, EmptyEntry, Splice;
    if |ops| > MAX_ENTRIES - 1 || out.Length < ENV_BYTES {
      return false, 0;
    }
    var count := 1 + |ops|;
    ghost var es, was := AllEntries(s, pad, ops), out[..];
    BuiltStart(was, count, es);
    Put(out, 0, HeaderBytes(count));
    BuiltNext(out[..], was, count, es, 0);
    assert es[0] == SetEntry(s, pad);
    Put(out, HEADER_BYTES, EntryBytes(SetEntry(s, pad)));
    for i := 0 to |ops|
      invariant Built(out[..], was, count, es, i + 1)
    {
      BuiltNext(out[..], was, count, es, i + 1);
      assert es[i + 1] == OpEntry(ops[i], i);
      Put(out, HEADER_BYTES + ENTRY_BYTES * (i + 1), EntryBytes(OpEntry(ops[i], i)));
    }
    for i := count to MAX_ENTRIES
      invariant Built(out[..], was, count, es, i)
    {
      BuiltNext(out[..], was, count, es, i);
      assert es[i] == EmptyEntry();
      Put(out, HEADER_BYTES + ENTRY_BYTES * i, EntryBytes(EmptyEntry()));
    }
    BuiltAll(out[..], was, count, es);
    assert out[..][..ENV_BYTES] == out[..ENV_BYTES] && out[..][ENV_BYTES..] == out[ENV_BYTES..];
    ok, len := true, ENV_BYTES;
  }

  lemma BuiltAll(b: seq<uint8>, was: seq<uint8>, count: nat, es: seq<Entry>)
    requires Built(b, was, count, es, MAX_ENTRIES)
    ensures AllSized(es) && |b| >= ENV_BYTES && count <= MAX_ENTRIES
    ensures b[..ENV_BYTES] == HeaderBytes(count) + EntriesBytes(es) && b[ENV_BYTES..] == was[ENV_BYTES..]
  {
    assert es[..MAX_ENTRIES] == es;
  }

  // Reading one

  /** The entries not yet consumed, in place order. */
  function Left(es: seq<Entry>, consumed: seq<bool>): (r: seq<Entry>)
    requires |consumed| == |es|
    ensures AllSized(es) ==> AllSized(r)
  {
    if es == [] then []
    else Left(es[..|es| - 1], consumed[..|es| - 1]) + if consumed[|es| - 1] then [] else [es[|es| - 1]]
  }

  lemma {:induction false} LeftAll(es: seq<Entry>, consumed: seq<bool>)
    requires |consumed| == |es| && forall i :: 0 <= i < |es| ==> !consumed[i]
    ensures Left(es, consumed) == es
  {
    if es != [] {
      LeftAll(es[..|es| - 1], consumed[..|es| - 1]);
      assert es == es[..|es| - 1] + [es[|es| - 1]];
    }
  }

  /** The place of entry j among those left, and what is left without it. */
  lemma {:induction false} LeftPlace(es: seq<Entry>, consumed: seq<bool>, j: nat)
    requires |consumed| == |es| && j < |es| && !consumed[j]
    ensures var p, r := |Left(es[..j], consumed[..j])|, Left(es, consumed);
            p < |r| && r[p] == es[j] && r[..p] == Left(es[..j], consumed[..j]) && Left(es, consumed[j := true]) == Without(r, p)
    decreases |es|
  {
    var n := |es| - 1;
    var init, flags := es[..n], consumed[..n];
    if j == n {
      assert es[..j] == init && consumed[..j] == flags && consumed[j := true][..n] == flags;
    } else {
      LeftPlace(init, flags, j);
      assert init[..j] == es[..j] && flags[..j] == consumed[..j] && consumed[j := true][..n] == flags[j := true];
    }
  }

  /** Entries left are entries not consumed. */
  lemma {:induction false} LeftMember(es: seq<Entry>, consumed: seq<bool>, p: nat)
    requires |consumed| == |es| && p < |Left(es, consumed)|
    ensures exists j :: 0 <= j < |es| && !consumed[j] && Left(es, consumed)[p] == es[j]
  {
    var n := |es| - 1;
    if p < |Left(es[..n], consumed[..n])| {
      LeftMember(es[..n], consumed[..n], p);
      var j :| 0 <= j < n && !consumed[..n][j] && Left(es[..n], consumed[..n])[p] == es[..n][j];
      assert !consumed[j] && Left(es, consumed)[p] == es[j];
    } else {
      assert !consumed[n] && Left(es, consumed)[p] == es[n];
    }
  }

  predicate IsChoice(es: seq<Entry>, consumed: seq<bool>, j: nat)
    requires |consumed| == |es|
  {
    && j < |es| && !consumed[j] && es[j].seqNo < NO_SEQ
    && forall k :: 0 <= k < |es| && !consumed[k] ==> es[j].seqNo <= es[k].seqNo && (k < j ==> es[j].seqNo < es[k].seqNo)
  }

  /** The chosen entry is the next one in order. */
  lemma ChoiceIsMin(es: seq<Entry>, consumed: seq<bool>, j: nat)
    requires |consumed| == |es| && IsChoice(es, consumed, j)
    ensures var r := Left(es, consumed);
            r != [] && InOrder(r) == [es[j]] + InOrder(Left(es, consumed[j := true]))
  {
    hide Left, InOrder, MinIndex, Without;
    LeftPlace(es, consumed, j);
    var p, r := |Left(es[..j], consumed[..j])|, Left(es, consumed);
    InOrderFirst(r);
    var m := MinIndex(r);
    LeftMember(es, consumed, m);
    if m < p {
      assert r[m] == r[..p][m];
      LeftMember(es[..j], consumed[..j], m);
    }
    assert r[m].seqNo <= r[p].seqNo;
  }

  /** Find the unconsumed entry with the smallest number, the first on ties. */
  method NextEntry(es: seq<Entry>, consumed: seq<bool>) returns (best: int)
    requires |consumed| == |es|
    ensures -1 <= best < |es| && (best >= 0 ==> IsChoice(es, consumed, best))
    ensures best < 0 ==> forall k :: 0 <= k < |es| && !consumed[k] ==> es[k].seqNo == NO_SEQ
  {
    var bestSeq := NO_SEQ;
    best := -1;
    for j := 0 to |es|
      invariant -1 <= best < j && bestSeq == if best < 0 then NO_SEQ else es[best].seqNo
      invariant best >= 0 ==> !consumed[best] && bestSeq < NO_SEQ
      invariant forall k :: 0 <= k < j && !consumed[k] ==> bestSeq <= es[k].seqNo && (k < best ==> bestSeq < es[k].seqNo)
    {
      if consumed[j] {
        continue;
      }
      if es[j].seqNo < bestSeq {
        bestSeq, best := es[j].seqNo, j;
      }
    }
  }

  /** The walk so far, followed by what is left, gives the same outcome as the whole. */
  ghost predicate Tracks(es: seq<Entry>, consumed: seq<bool>, w: Walk, left: int) {
    && AllSized(es) && |consumed| == |es| && left == |Left(es, consumed)|
    && TakeAll(Going(None), InOrder(es)) == TakeAll(w, InOrder(Left(es, consumed)))
    && forall k :: 0 <= k < |es| && consumed[k] ==> es[k].seqNo < NO_SEQ
  }

  lemma TracksStart(es: seq<Entry>, consumed: seq<bool>)
    requires AllSized(es) && |consumed| == |es| && forall i :: 0 <= i < |es| ==> !consumed[i]
    ensures Tracks(es, consumed, Going(None), |es|)
  {
    hide TakeAll, InOrder, Left;
    LeftAll(es, consumed);
  }

  lemma TracksStep(es: seq<Entry>, consumed: seq<bool>, w: Walk, left: int, best: nat)
    requires |consumed| == |es| && Tracks(es, consumed, w, left) && IsChoice(es, consumed, best)
    ensures es[best].Sized() && Tracks(es, consumed[best := true], Take(w, es[best]), left - 1)
  {
    hide InOrder, Left, Take;
    ChoiceIsMin(es, consumed, best);
    LeftPlace(es, consumed, best);
    var rest := InOrder(Left(es, consumed[best := true]));
    assert ([es[best]] + rest)[1..] == rest;
  }

  lemma TracksFailed(es: seq<Entry>, consumed: seq<bool>, left: int)
    requires Tracks(es, consumed, Failed, left)
    ensures Decoded(es) == None
  {
    hide InOrder, Left, TakeAll;
    FailedStays(InOrder(Left(es, consumed)));
  }

  /** No number below the maximum is left although an entry is. */
  lemma TracksStuck(es: seq<Entry>, consumed: seq<bool>, w: Walk, left: int)
    requires |consumed| == |es| && Tracks(es, consumed, w, left) && left > 0
    requires forall k :: 0 <= k < |es| && !consumed[k] ==> es[k].seqNo == NO_SEQ
    ensures Decoded(es) == None
  {
    hide InOrder, Left, TakeAll;
    LeftMember(es, consumed, 0);
  }

  lemma TracksDone(es: seq<Entry>, consumed: seq<bool>, base: Option<State>)
    requires |consumed| == |es| && Tracks(es, consumed, Going(base), 0)
    ensures Decoded(es) == base
  {
    hide InOrder, Left;
    forall k | 0 <= k < |es|
      ensures consumed[k]
    {
      if !consumed[k] {
        LeftPlace(es, consumed, k);
      }
    }
    assert InOrder(Left(es, consumed)) == [];
  }

  method Compute(v: uint32, o: Op) returns (ok: bool, r: uint32)
    ensures ok == Result(v, o).Some? && (ok ==> r == Result(v, o).value)
  {
    if o.op == ADD {
      return true, (v + o.operand) % TWO_32;
    } else if o.op == SUB {
      return true, if v > o.operand then v - o.operand else 1;
    } else if o.op == MUL {
      return true, v * o.operand % TWO_32;
    } else if o.op == DIV && o.operand != 0 {
      QuotientBound(v, o.operand);
      r := v / o.operand;
      if r == 0 {
        r := 1;
      }
      return true, r;
    }
    return false, 0;
  }

  /** The inspector: decode a blob without applying it. */
  method Inspect(b: seq<uint8>) returns (r: Option<State>)
    ensures r == Decode(b)
  {
    hide HeaderOk, Decoded, Tracks, IsChoice, Result, StateOf, OpOf, Entries;
    if |b| == STATE_BYTES {
      return Some(StateOf(b).(stepPending := 0));
    }
    if |b| < ENV_BYTES || !HeaderOk(b) {
      return None;
    }
    assert EntryCount(b) <= MAX_ENTRIES by {
      CountBound(b);
    }
    var es := Entries(b, EntryCount(b));
    r := InspectEntries(es);
  }

  lemma CountBound(b: seq<uint8>)
    requires |b| >= HEADER_BYTES && HeaderOk(b)
    ensures 0 < EntryCount(b) <= MAX_ENTRIES
  {
  }

  method InspectEntries(es: seq<Entry>) returns (r: Option<State>)
    requires AllSized(es)
    ensures r == Decoded(es)
  {
    hide Decoded, Tracks, IsChoice, Result, StateOf, OpOf;
    var consumed := NoFlags(|es|);
    var temp, haveBase := State(0, 0, 0, 0, 0, 0), false;
    TracksStart(es, consumed);
    for i := 0 to |es|
      invariant |consumed| == |es|
      invariant Tracks(es, consumed, Going(if haveBase then Some(temp) else None), |es| - i)
    {
      ghost var w := Going(if haveBase then Some(temp) else None);
      var best := NextEntry(es, consumed);
      if best < 0 {
        TracksStuck(es, consumed, w, |es| - i);
        return None;
      }
      ChoiceInRange(es, consumed, best);
      TracksStep(es, consumed, w, |es| - i, best);
      consumed := consumed[best := true];
      var e := es[best];
      if e.status != PENDING {
        continue;
      }
      if e.action == SET_STATE && e.dataLen == STATE_BYTES {
        temp := StateOf(e.data).(stepPending := 0);
        haveBase := true;
        continue;
      }
      if e.action == APPLY_OP && haveBase && e.dataLen == OP_BYTES {
        var ok, v := Compute(temp.value, OpOf(e.data));
        if ok {
          temp := temp.(value := if v > temp.limit && temp.limit != 0 then temp.limit else v);
          continue;
        }
      }
      assert Take(w, e) == Failed;
      TracksFailed(es, consumed, |es| - i - 1);
      return None;
    }
    TracksDone(es, consumed, if haveBase then Some(temp) else None);
    r := if haveBase then Some(temp) else None;
  }

  lemma ChoiceInRange(es: seq<Entry>, consumed: seq<bool>, j: nat)
    requires |consumed| == |es| && IsChoice(es, consumed, j)
    ensures j < |es|
  {
  }

  const RESET: State := State(0, 0, 0, 0, 0, 0)

  /** The counter after a successful restore of s: an inactive state resets it, an active one is re-armed. */
  function Applied(s: State, now: uint32): State {
    if s.active == 0 then RESET else s.(stepPending := 0, nextTick := (now + STEP_TICKS) % TWO_32)
  }

  class Task {
    var ctx: State

    constructor ()
      ensures ctx == RESET
    {
      ctx := RESET;
    }

    /** Restore from a bare state. */
    method RestoreState(s: State, now: uint32)
      modifies this
      ensures ctx == Applied(s, now)
      ensures s.active == 0 ==> ctx == State(0, 0, 0, 0, 0, 0)
      ensures s.active != 0 ==> ctx == State(s.active, s.bg, 0, s.limit, s.value, (now + STEP_TICKS) % 0x1_0000_0000)
    {
      if s.active == 0 {
        ctx := RESET;
        return;
      }
      ctx := s.(stepPending := 0);
      ctx := ctx.(nextTick := (now + STEP_TICKS) % TWO_32);
    }

    /** The restore function: the current counter is kept unless the whole blob is acceptable. */
    method Restore(b: seq<uint8>, now: uint32) returns (ok: bool)
      modifies this
      ensures ok == Decode(b).Some?
      ensures ctx == if ok then Applied(Decode(b).value, now) else old(ctx)
    {
      hide HeaderOk, Decoded, StateOf, Entries;
      if |b| == STATE_BYTES {
        RestoreState(StateOf(b), now);
        return true;
      }
      if |b| < ENV_BYTES || !HeaderOk(b) {
        return false;
      }
      CountBound(b);
      var temp;
      ok, temp := WalkEntries(Entries(b, EntryCount(b)));
      if !ok {
        return;
      }
      if temp.active == 0 {
        ctx := RESET;
        return;
      }
      ctx := temp.(stepPending := 0, nextTick := (now + STEP_TICKS) % TWO_32);
    }

    /** The restore function's own walk, which starts from the current counter. */
    method WalkEntries(es: seq<Entry>) returns (ok: bool, temp: State)
      requires AllSized(es)
      ensures ok == Decoded(es).Some? && (ok ==> temp == Decoded(es).value)
    {
      hide Decoded, Tracks, IsChoice, Result, StateOf, OpOf;
      temp := ctx;
      var haveBase := false;
      var consumed := NoFlags(|es|);
      TracksStart(es, consumed);
      for i := 0 to |es|
        invariant |consumed| == |es|
        invariant Tracks(es, consumed, Going(if haveBase then Some(temp) else None), |es| - i)
      {
        ghost var w := Going(if haveBase then Some(temp) else None);
        var best := NextEntry(es, consumed);
        if best < 0 {
          TracksStuck(es, consumed, w, |es| - i);
          return false, temp;
        }
        ChoiceInRange(es, consumed, best);
        TracksStep(es, consumed, w, |es| - i, best);
        consumed := consumed[best := true];
        var e := es[best];
        if e.status != PENDING {
          continue;
        }
        if e.action == SET_STATE {
          if e.dataLen != STATE_BYTES {
            TracksFailed(es, consumed, |es| - i - 1);
            return false, temp;
          }
          temp := StateOf(e.data).(stepPending := 0);
          haveBase := true;
          continue;
        }
        if e.action != APPLY_OP || !haveBase || e.dataLen != OP_BYTES {
          TracksFailed(es, consumed, |es| - i - 1);
          return false, temp;
        }
        var fine, v := Compute(temp.value, OpOf(e.data));
        if !fine {
          TracksFailed(es, consumed, |es| - i - 1);
          return false, temp;
        }
        temp := temp.(value := v);
        if temp.value > temp.limit && temp.limit != 0 {
          temp := temp.(value := temp.limit);
        }
      }
      TracksDone(es, consumed, if haveBase then Some(temp) else None);
      ok := haveBase;
    }
  }

  /** The two readers report the same value, limit, mode and active flag. */
  predicate Agree(a: State, b: State) {
    a.active == b.active && a.bg == b.bg && a.limit == b.limit && a.value == b.value
  }

  /** Restore and inspector agree on a blob both accept exactly when the decoded counter is active or all zero:
      restoring an inactive counter resets it, whatever its other fields say. */
  lemma ReadersAgreeExactly(b: seq<uint8>, now: uint32)
    requires Decode(b).Some?
    ensures var s := Decode(b).value;
            Agree(Applied(s, now), s) <==> s.active != 0 || (s.bg == 0 && s.limit == 0 && s.value == 0)
  {
    hide Decode;
  }

  /** An accepted blob on which they differ: an inactive counter that stands at 7. */
  lemma ReadersDiffer(now: uint32)
    ensures var b := StateBytes(State(0, 0, 0, 0, 7, 0), 0);
            Decode(b) == Some(State(0, 0, 0, 0, 7, 0)) && !Agree(Applied(Decode(b).value, now), Decode(b).value)
  {
    hide StateOf, StateBytes;
    StateReads(State(0, 0, 0, 0, 7, 0), 0);
  }

  /** Saving an active counter with pending operations and restoring it gives the operations' result. */
  lemma SavedCounterRestored(s: State, pad: uint8, ops: seq<Op>, now: uint32)
    requires |ops| < MAX_ENTRIES && s.active != 0
    ensures var r := FoldOps(s.(stepPending := 0), ops);
            && Decode(Envelope(s, pad, ops)) == r
            && (r.Some? ==> Agree(Applied(r.value, now), r.value) && r.value.limit == s.limit && r.value.bg == s.bg)
            && (r.Some? && ops == [] ==> r.value.value == s.value)
  {
    hide Decode, Envelope;
    DecodeEncoded(s, pad, ops);
    FoldKeeps(s.(stepPending := 0), ops);
  }

  lemma {:induction false} FoldKeeps(s: State, ops: seq<Op>)
    ensures var r := FoldOps(s, ops);
            r.Some? ==> r.value == s.(value := r.value.value) && (ops != [] && s.limit != 0 ==> r.value.value <= s.limit)
  {
    if ops != [] {
      FoldKeeps(s, ops[..|ops| - 1]);
    }
  }
}
