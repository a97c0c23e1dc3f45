/**
 The snapshot ring going round: over every run of complete and interrupted attempts from a blank ring, which slots are
 accepted, with which numbers, and what they restore. Nothing here refers to how the next slot is chosen.
 */
module SnapshotRounds {
  import opened Words
  import opened Sd
  import opened SnapshotFormat
  import opened SnapshotRing

  /** The attempt fits the slot, and its header, payload and commit blocks all reach the card. */
  predicate Completes(t: Table, a: Attempt) {
    var n := RequiredBlocks(a.capture.regions);
    n + 2 <= t.slotBlocks && a.landed >= n + 2
  }

  lemma CompletesIs(t: Table, latest: Option<Pick>, a: Attempt)
    requires RingOnCard(t) && a.capture.Valid()
    ensures Complete(t, latest, a.capture, a.landed) <==> Completes(t, a)
    ensures |SnapshotWrites(t, latest, a.capture)| > 0
  {
    hide RequiredBlocks, PayloadBlocks, NextSlot, NextSeq, HeaderBlock, CommitBlock, SlotLba, Capturable, RingOnCard;
    LayoutBasics(t);
    PayloadCount(a.capture);
  }

  /** The captures of the completed attempts, oldest first. */
  function Captured(t: Table, run: seq<Attempt>): seq<Capture> {
    if run == [] then []
    else
      var a := run[|run| - 1];
      Captured(t, run[..|run| - 1]) + if Completes(t, a) then [a.capture] else []
  }

  /** Since the last completed attempt another one began to write. */
  predicate Torn(t: Table, run: seq<Attempt>) {
    run != [] &&
    (var a := run[|run| - 1];
     !Completes(t, a) && (a.landed > 0 || Torn(t, run[..|run| - 1])))
  }

  lemma {:induction false} CapturedCount(t: Table, run: seq<Attempt>)
    ensures |Captured(t, run)| <= |run|
  {
    if run != [] {
      CapturedCount(t, run[..|run| - 1]);
    }
  }

  /** Of n snapshots in a ring the last `slots` survive, the oldest of them only until the next write begins. */
  predicate Survives(n: nat, slots: nat, torn: bool, k: nat) {
    k < n && (n < k + slots || (n == k + slots && !torn))
  }

  /** Snapshot k lies in slot k modulo the ring size, is accepted with number k + 1, and restores its capture. */
  ghost predicate InPlace(d: Blocks, t: Table, k: nat, c: Capture)
    requires Fits(d, t)
  {
    var i := k % t.slots;
    SeqOf(d, t, i).Some? && SeqOf(d, t, i).value == k + 1 && RestoresCapture(d, t, i, c)
  }

  /** The ring holds the surviving snapshots and accepts no other slot. */
  ghost predicate RingIs(d: Blocks, t: Table, caps: seq<Capture>, torn: bool)
    requires Fits(d, t)
  {
    && (forall k :: 0 <= k < |caps| && Survives(|caps|, t.slots, torn, k) ==> InPlace(d, t, k, caps[k]))
    && (forall i :: 0 <= i < t.slots && SeqOf(d, t, i).Some? ==>
          exists k :: 0 <= k < |caps| && Survives(|caps|, t.slots, torn, k) && k % t.slots == i)
  }

  /** The slot the next attempt writes holds no survivor, unless it is the oldest of a full ring. */
  lemma OtherSlots(n: nat, slots: nat, torn: bool, k: nat)
    requires slots >= 2 && Survives(n, slots, torn, k)
    ensures k % slots == n % slots <==> n == k + slots
  {
    if n < k + slots {
      ModApart(k, n, slots);
    } else {
      SameRest(k, slots);
    }
  }

  lemma SameRest(k: nat, m: nat)
    requires m > 0
    ensures (k + m) % m == k % m
  {
    var q, r := k / m, k % m;
    MulNext(m, q);
    assert k == m * q + r;
    DivUnique(k + m, m, q + 1, r);
  }

  /** The scan finds the last completed snapshot, so the next one goes round to slot n modulo the ring size. */
  lemma NextInRound(d: Blocks, t: Table, caps: seq<Capture>, torn: bool)
    requires Fits(d, t) && t.slots >= 2 && RingIs(d, t, caps, torn) && |caps| < TWO_32 - 1
    ensures LatestSeq(Latest(d, t)) == |caps|
    ensures NextSlot(t, Latest(d, t)) == |caps| % t.slots && NextSeq(Latest(d, t)) == |caps| + 1
  {
    hide SeqOf, LatestOf, RestoresCapture, RingOnCard;
    LayoutBasics(t);
    var n := |caps|;
    if n == 0 {
      LatestIsLatest(d, t, t.slots);
      SmallMod(0, t.slots);
    } else {
      var p := Pick((n - 1) % t.slots, n);
      assert Survives(n, t.slots, torn, n - 1) && InPlace(d, t, n - 1, caps[n - 1]);
      forall j | 0 <= j < t.slots && SeqOf(d, t, j).Some?
        ensures SeqOf(d, t, j).value <= n && (j < p.slot ==> SeqOf(d, t, j).value < n)
      {
        var k :| 0 <= k < n && Survives(n, t.slots, torn, k) && k % t.slots == j;
        assert InPlace(d, t, k, caps[k]);
      }
      assert IsLatest(d, t, t.slots, p);
      LatestUnique(d, t, p);
      ModSucc(n - 1, t.slots);
      ModSucc(p.slot, t.slots);
      SmallMod(p.slot, t.slots);
    }
  }

  /** A slot no write touches keeps what it held. */
  lemma InPlaceKept(d: Blocks, t: Table, latest: Option<Pick>, c: Capture, w: nat, k: nat, held: Capture)
    requires Fits(d, t) && c.Valid() && w <= |SnapshotWrites(t, latest, c)|
    requires InPlace(d, t, k, held) && k % t.slots != NextSlot(t, latest)
    ensures InPlace(Apply(d, SnapshotWrites(t, latest, c)[..w]), t, k, held)
  {
    hide Apply, SnapshotWrites, NextSlot, SameSlot, SeqOf, RestoreOf, RestoredFrom, RingOnCard;
    LayoutBasics(t);
    OtherSlotsKept(d, t, latest, c, w, k % t.slots);
    SameSlotSameVerdict(d, Apply(d, SnapshotWrites(t, latest, c)[..w]), t, k % t.slots);
  }

  /** The survivors after one more snapshot: the new one, and the old ones but the oldest of a full ring. */
  lemma SurvivorsNext(n: nat, slots: nat, torn: bool, k: nat)
    requires slots >= 2
    ensures Survives(n + 1, slots, false, k) <==> k == n || (Survives(n, slots, torn, k) && n < k + slots)
  {
  }

  /** A completed attempt leaves every survivor in place. */
  lemma CompletedInPlace(d: Blocks, t: Table, caps: seq<Capture>, torn: bool, c: Capture, k: nat)
    requires Fits(d, t) && t.slots >= 2 && RingIs(d, t, caps, torn) && |caps| < TWO_32 - 1 && c.Valid() && Fitting(t, c)
    requires k <= |caps| && Survives(|caps| + 1, t.slots, false, k)
    ensures InPlace(Apply(d, SnapshotWrites(t, Latest(d, t), c)), t, k, (caps + [c])[k])
  {
    hide Apply, SnapshotWrites, LatestOf, NextSlot, NextSeq, SeqOf, RestoresCapture, RingOnCard, Fitting;
    LayoutBasics(t);
    NextInRound(d, t, caps, torn);
    var n, latest, ws := |caps|, Latest(d, t), SnapshotWrites(t, Latest(d, t), c);
    if k == n {
      CompleteCommit(d, t, latest, c);
      CompleteRestores(d, t, latest, c);
    } else {
      SurvivorsNext(n, t.slots, torn, k);
      OtherSlots(n, t.slots, torn, k);
      assert ws[..|ws|] == ws;
      InPlaceKept(d, t, latest, c, |ws|, k, caps[k]);
    }
  }

  /** After a completed attempt every accepted slot holds a survivor. */
  lemma CompletedOnly(d: Blocks, t: Table, caps: seq<Capture>, torn: bool, c: Capture, i: nat)
    requires Fits(d, t) && t.slots >= 2 && RingIs(d, t, caps, torn) && |caps| < TWO_32 - 1 && c.Valid() && Fitting(t, c)
    requires i < t.slots && SeqOf(Apply(d, SnapshotWrites(t, Latest(d, t), c)), t, i).Some?
    ensures exists k :: 0 <= k <= |caps| && Survives(|caps| + 1, t.slots, false, k) && k % t.slots == i
  {
    hide Apply, SnapshotWrites, LatestOf, NextSlot, NextSeq, SeqOf, InPlace, RingOnCard, Fitting;
    NextInRound(d, t, caps, torn);
    var n, latest, ws := |caps|, Latest(d, t), SnapshotWrites(t, Latest(d, t), c);
    if i == n % t.slots {
      assert Survives(n + 1, t.slots, false, n);
    } else {
      assert ws[..|ws|] == ws;
      OtherSlotsKept(d, t, latest, c, |ws|, i);
      SameSlotSameVerdict(d, Apply(d, ws), t, i);
      var k :| 0 <= k < n && Survives(n, t.slots, torn, k) && k % t.slots == i;
      OtherSlots(n, t.slots, torn, k);
      SurvivorsNext(n, t.slots, torn, k);
    }
  }

  /** A completed attempt. */
  lemma CompletedRound(d: Blocks, t: Table, caps: seq<Capture>, torn: bool, c: Capture)
    requires Fits(d, t) && t.slots >= 2 && RingIs(d, t, caps, torn) && |caps| < TWO_32 - 1 && c.Valid() && Fitting(t, c)
    ensures RingIs(Apply(d, SnapshotWrites(t, Latest(d, t), c)), t, caps + [c], false)
  {
    hide Apply, SnapshotWrites, LatestOf, SeqOf, InPlace, RingOnCard, Fitting, Survives;
    var d', all := Apply(d, SnapshotWrites(t, Latest(d, t), c)), caps + [c];
    forall k | 0 <= k < |all| && Survives(|all|, t.slots, false, k)
      ensures InPlace(d', t, k, all[k])
    {
      CompletedInPlace(d, t, caps, torn, c, k);
    }
    forall i | 0 <= i < t.slots && SeqOf(d', t, i).Some?
      ensures exists k :: 0 <= k < |all| && Survives(|all|, t.slots, false, k) && k % t.slots == i
    {
      CompletedOnly(d, t, caps, torn, c, i);
    }
  }

  /** An attempt that began to write and did not complete. */
  lemma TornRound(d: Blocks, t: Table, caps: seq<Capture>, torn: bool, c: Capture, w: nat)
    requires Fits(d, t) && t.slots >= 2 && RingIs(d, t, caps, torn) && |caps| < TWO_32 - 1 && c.Valid() && CommitsOrdered(d, t)
    requires 0 < w <= |SnapshotWrites(t, Latest(d, t), c)| && !Complete(t, Latest(d, t), c, w)
    ensures RingIs(Apply(d, SnapshotWrites(t, Latest(d, t), c)[..w]), t, caps, true)
  {
    hide Apply, SnapshotWrites, LatestOf, NextSlot, NextSeq, SeqOf, RestoresCapture, RingOnCard, Complete, CommitsOrdered;
    LayoutBasics(t);
    NextInRound(d, t, caps, torn);
    var n, latest := |caps|, Latest(d, t);
    var d' := Apply(d, SnapshotWrites(t, latest, c)[..w]);
    TargetRejectedDuringWrite(d, t, c, w);
    forall k | 0 <= k < n && Survives(n, t.slots, true, k)
      ensures InPlace(d', t, k, caps[k])
    {
      assert Survives(n, t.slots, torn, k);
      OtherSlots(n, t.slots, torn, k);
      InPlaceKept(d, t, latest, c, w, k, caps[k]);
    }
    forall i | 0 <= i < t.slots && SeqOf(d', t, i).Some?
      ensures exists k :: 0 <= k < n && Survives(n, t.slots, true, k) && k % t.slots == i
    {
      OtherSlotsKept(d, t, latest, c, w, i);
      SameSlotSameVerdict(d, d', t, i);
      var k :| 0 <= k < n && Survives(n, t.slots, torn, k) && k % t.slots == i;
      OtherSlots(n, t.slots, torn, k);
      assert Survives(n, t.slots, true, k);
    }
  }

  /** From a blank ring, after every run of complete and interrupted attempts: snapshot k, counting from 0, lies in slot
      k modulo the ring size, accepted with number k + 1 and restoring capture k, for the last `slots` snapshots, the
      oldest of them only while no later attempt began to write; and no other slot is accepted. */
  lemma {:induction false} RunGoesRound(d: Blocks, t: Table, run: seq<Attempt>, base: uint32, size: nat)
    requires Fits(d, t) && t.slots >= 2 && SameSram(run, base, size) && |run| < TWO_32 - 1
    requires forall i :: 0 <= i < t.slots ==> CommitOf(d, t, i)[0] != CMIT_MAGIC
    ensures RingIs(CardAfter(d, t, run), t, Captured(t, run), Torn(t, run)) && Good(CardAfter(d, t, run), t, base, size)
  {
    hide Good, LatestOf, SnapshotWrites, NextSlot, RingIs, CommitOf, Apply, SeqOf, RingOnCard;
    if run == [] {
      BlankIsGood(d, t, base, size);
      BlankRing(d, t);
    } else {
      var init, a := run[..|run| - 1], run[|run| - 1];
      RunGoesRound(d, t, init, base, size);
      CapturedCount(t, init);
      AttemptRound(CardAfter(d, t, init), t, Captured(t, init), Torn(t, init), a, base, size);
      assert Captured(t, init) + [] == Captured(t, init);
    }
  }

  lemma BlankRing(d: Blocks, t: Table)
    requires Fits(d, t)
    requires forall i :: 0 <= i < t.slots ==> CommitOf(d, t, i)[0] != CMIT_MAGIC
    ensures RingIs(d, t, [], false)
  {
    hide SeqOf, CommitOf;
    BlankRejected(d, t);
  }

  /** The card after one attempt. */
  function AfterAttempt(d: Blocks, t: Table, a: Attempt): (d': Blocks)
    requires Fits(d, t) && a.capture.Valid()
    ensures |d'| == |d|
  {
    var ws := SnapshotWrites(t, Latest(d, t), a.capture);
    Apply(d, ws[..Min(a.landed, |ws|)])
  }

  lemma AttemptRound(d: Blocks, t: Table, caps: seq<Capture>, torn: bool, a: Attempt, base: uint32, size: nat)
    requires Fits(d, t) && t.slots >= 2 && RingIs(d, t, caps, torn) && |caps| < TWO_32 - 1 && Good(d, t, base, size)
    requires a.capture.Valid() && a.capture.mem.base == base && |a.capture.mem.bytes| == size
    ensures var done := Completes(t, a);
            RingIs(AfterAttempt(d, t, a), t, if done then caps + [a.capture] else caps, !done && (a.landed > 0 || torn))
    ensures Good(AfterAttempt(d, t, a), t, base, size)
  {
    hide LatestOf, SnapshotWrites, NextSlot, NextSeq, RingIs, Apply, RingOnCard, CommitsOrdered, AcceptedRestorable, Completes, RequiredBlocks;
    NextInRound(d, t, caps, torn);
    CompletesIs(t, Latest(d, t), a);
    var ws := SnapshotWrites(t, Latest(d, t), a.capture);
    var w := Min(a.landed, |ws|);
    StepKeepsGood(d, t, a.capture, w);
    if Completes(t, a) {
      assert ws[..w] == ws;
      CompletedRound(d, t, caps, torn, a.capture);
    } else if a.landed > 0 {
      TornRound(d, t, caps, torn, a.capture, w);
    } else {
      ApplyNothing(d, ws[..0]);
    }
  }

  /** n completed snapshots and nothing else: the last `slots` of them are all there. */
  lemma RoundOfCompleted(d: Blocks, t: Table, run: seq<Attempt>, base: uint32, size: nat, k: nat)
    requires Fits(d, t) && t.slots >= 2 && SameSram(run, base, size) && |run| < TWO_32 - 1
    requires forall i :: 0 <= i < t.slots ==> CommitOf(d, t, i)[0] != CMIT_MAGIC
    requires (forall i :: 0 <= i < |run| ==> Completes(t, run[i])) && |run| - t.slots <= k < |run|
    ensures InPlace(CardAfter(d, t, run), t, k, run[k].capture)
  {
    hide RingIs, InPlace, CommitOf, Good, Completes, RingOnCard;
    RunGoesRound(d, t, run, base, size);
    AllCaptured(t, run);
    assert Survives(|run|, t.slots, false, k);
    Member(CardAfter(d, t, run), t, Captured(t, run), false, k);
  }

  lemma Member(d: Blocks, t: Table, caps: seq<Capture>, torn: bool, k: nat)
    requires Fits(d, t) && RingIs(d, t, caps, torn) && k < |caps| && Survives(|caps|, t.slots, torn, k)
    ensures InPlace(d, t, k, caps[k])
  {
    hide InPlace, SeqOf;
  }

  lemma {:induction false} AllCaptured(t: Table, run: seq<Attempt>)
    requires forall i :: 0 <= i < |run| ==> Completes(t, run[i])
    ensures |Captured(t, run)| == |run| && !Torn(t, run)
    ensures forall i :: 0 <= i < |run| ==> Captured(t, run)[i] == run[i].capture
  {
    hide Completes;
    if run != [] {
      AllCaptured(t, run[..|run| - 1]);
      assert Completes(t, run[|run| - 1]);
    }
  }

  /** A survivor that is not the oldest of a full ring outlives one more attempt. */
  lemma YoungerKept(d': Blocks, t: Table, caps: seq<Capture>, torn: bool, a: Attempt, k: nat)
    requires Fits(d', t) && k < |caps| < k + t.slots
    requires var done := Completes(t, a);
             RingIs(d', t, if done then caps + [a.capture] else caps, !done && (a.landed > 0 || torn))
    ensures InPlace(d', t, k, caps[k])
  {
    hide SeqOf, InPlace, Completes, RingOnCard;
  }

  /** The ring as it stands, and one more attempt: which slots can be lost. */
  lemma LostExactly(d: Blocks, t: Table, caps: seq<Capture>, torn: bool, a: Attempt, base: uint32, size: nat, i: nat)
    requires Fits(d, t) && t.slots >= 2 && RingIs(d, t, caps, torn) && |caps| < TWO_32 - 1 && Good(d, t, base, size)
    requires a.capture.Valid() && a.capture.mem.base == base && |a.capture.mem.bytes| == size && i < t.slots
    requires SeqOf(d, t, i).Some? && SeqOf(AfterAttempt(d, t, a), t, i) != SeqOf(d, t, i)
    ensures |caps| >= t.slots
    ensures forall j :: 0 <= j < t.slots ==> SeqOf(d, t, j).Some? && SeqOf(d, t, i).value <= SeqOf(d, t, j).value
  {
    hide Good, Completes, AfterAttempt, RestoresCapture, SeqOf, RingOnCard;
    AttemptRound(d, t, caps, torn, a, base, size);
    var k :| 0 <= k < |caps| && Survives(|caps|, t.slots, torn, k) && k % t.slots == i;
    assert InPlace(d, t, k, caps[k]);
    if |caps| < k + t.slots {
      YoungerKept(AfterAttempt(d, t, a), t, caps, torn, a, k);
    } else {
      FullRing(d, t, caps, torn, k);
    }
  }

  /** In any such state one more attempt, complete or not, takes away no accepted slot but the one with the smallest
      number, and that one only when every slot has been written before. */
  lemma OnlyOldestLost(d: Blocks, t: Table, run: seq<Attempt>, a: Attempt, base: uint32, size: nat, i: nat)
    requires Fits(d, t) && t.slots >= 2 && SameSram(run, base, size) && SameSram([a], base, size)
    requires |run| < TWO_32 - 1 && i < t.slots
    requires forall j :: 0 <= j < t.slots ==> CommitOf(d, t, j)[0] != CMIT_MAGIC
    requires var e := CardAfter(d, t, run);
             SeqOf(e, t, i).Some? && a.capture.Valid() && SeqOf(AfterAttempt(e, t, a), t, i) != SeqOf(e, t, i)
    ensures var e := CardAfter(d, t, run);
            && |Captured(t, run)| >= t.slots
            && forall j :: 0 <= j < t.slots ==> SeqOf(e, t, j).Some? && SeqOf(e, t, i).value <= SeqOf(e, t, j).value
  {
    hide Good, CommitOf, AfterAttempt, SeqOf, RingOnCard, Captured, Torn, RingIs;
    assert [a][0] == a;
    RunGoesRound(d, t, run, base, size);
    CapturedCount(t, run);
    LostExactly(CardAfter(d, t, run), t, Captured(t, run), Torn(t, run), a, base, size, i);
  }

  /** When the survivor in danger is the oldest of a full ring, every slot holds a survivor, none older. */
  lemma FullRing(d: Blocks, t: Table, caps: seq<Capture>, torn: bool, k: nat)
    requires Fits(d, t) && t.slots >= 2 && RingIs(d, t, caps, torn) && |caps| == k + t.slots && !torn
    ensures forall j :: 0 <= j < t.slots ==>
              SeqOf(d, t, j).Some? && SeqOf(d, t, k % t.slots) == Some(k + 1) && k + 1 <= SeqOf(d, t, j).value
  {
    hide SeqOf, RestoresCapture, RingOnCard;
    assert Survives(|caps|, t.slots, torn, k) && InPlace(d, t, k, caps[k]);
    forall j | 0 <= j < t.slots
      ensures SeqOf(d, t, j).Some? && k + 1 <= SeqOf(d, t, j).value
    {
      var m := SomeInRound(k, t.slots, j);
      assert Survives(|caps|, t.slots, torn, m) && InPlace(d, t, m, caps[m]);
    }
  }

  /** Among m consecutive numbers from k on, one has remainder j. */
  function SomeInRound(k: nat, m: nat, j: nat): (x: nat)
    requires j < m
    ensures k <= x < k + m && x % m == j
  {
    var r := k % m;
    var x := if j >= r then k + (j - r) else k + (j + m - r);
    assert x % m == j by {
      assert k == m * (k / m) + r;
      if j >= r {
        DivUnique(x, m, k / m, j);
      } else {
        MulNext(m, k / m);
        DivUnique(x, m, k / m + 1, j);
      }
    }
    x
  }
}
