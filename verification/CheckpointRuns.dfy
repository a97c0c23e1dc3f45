/**
 The whole checkpoint machine: card, writer's memory and lifecycle counters, driven by saves, power losses,
 reboots and loads.
 */
module CheckpointRuns {
  import opened Words
  import opened Sd
  import opened Tasks
  import opened CheckpointFormat
  import opened CheckpointImage
  import opened CheckpointProtocol
  import opened CheckpointLifecycle
  import opened RestoreLoader

  /** What a save puts into the slot; t is the tracking after this save's observation. */
  function SaveOf(k: Kernel, t: Tracking, seqNo: uint32, tick: uint32): Save
    requires |k.running| == MAX_TASKS && t.Sized()
  {
    var ids := Tracked(k.reg, MAX_TASKS);
    var items := Collect(k, MetaSize(|ids|), MAX_TASKS);
    Save(seqNo, tick, SlotOf(seqNo), ActiveWord(items), items, BitWord(k.running), LivesOf(t, ids))
  }

  function ActiveWord(items: seq<Item>): uint32 {
    if forall i :: 0 <= i < |items| ==> items[i].task < MAX_TASKS then BitWord(ActiveOf(items)) else 0
  }

  /** Nothing to save and no tracked task started or ended. */
  predicate NothingToSave(k: Kernel, t: Tracking)
    requires |k.running| == MAX_TASKS && t.Sized()
  {
    var ids := Tracked(k.reg, MAX_TASKS);
    Collect(k, MetaSize(|ids|), MAX_TASKS) == [] && !Changed(t, k.running, ids)
  }

  /** Counters after a load: taken from the metadata, or, for a slot without it, one launch per region. */
  function SetCounts(t: Tracking, lives: seq<Life>): (t': Tracking)
    requires t.Sized()
    ensures t'.Sized()
  {
    if lives == [] then t
    else
      var r, e := SetCounts(t, lives[..|lives| - 1]), lives[|lives| - 1];
      if e.task >= MAX_TASKS then r
      else r.(launches := r.launches[e.task := e.launches], exits := r.exits[e.task := e.exits])
  }

  function LaunchOnce(c: seq<uint16>, s: seq<uint8>, n: nat): (c': seq<uint16>)
    requires |c| == MAX_TASKS && HDR_BYTES + REGION_BYTES * n <= |s|
    ensures |c'| == MAX_TASKS
  {
    if n == 0 then c
    else
      var r, id := LaunchOnce(c, s, n - 1), RegionAt(s, n - 1).id;
      if id >= MAX_TASKS then r else r[id := 1]
  }

  function Seeding(s: seq<uint8>): (t: Tracking)
    requires |s| >= HDR_BYTES && DirEnd(s) <= |s|
    ensures t.Sized()
  {
    var zero := Untracked();
    if MetaOf(s).Some? then SetCounts(zero.(prev := FlagsOf(Load32(s, MetaOff(s) + 8), MAX_TASKS)), MetaOf(s).value)
    else zero.(prev := FlagsOf(ActiveBits(s), MAX_TASKS), launches := LaunchOnce(zero.launches, s, Count(s)))
  }

  // The machine

  datatype Machine = Machine(sys: System, track: Tracking)

  /** A save attempt, its buffers, and how many of its block writes land before power fails, if it does; a load;
      a reboot. */
  datatype Action = Saving(k: Kernel, tick: uint32, buffers: Buffers, landed: nat) | Loading(env: Env) | Restarting

  ghost predicate Possible(reg: Registry, m: Machine, a: Action)
    requires OnCard(m.sys.card) && m.track.Sized()
  {
    match a
    case Saving(k, tick, b, _) =>
      && KernelOk(k) && k.reg == reg
      && (!NothingToSave(k, m.track) ==>
            b.Valid() && b.sv == SaveOf(k, Observe(m.track, k.running), Seeded(m.sys.ram, m.sys.card).seqNo, tick))
    case Loading(env) => env.reg == reg
    case Restarting => true
  }

  predicate Commits(m: Machine, a: Action)
    requires m.track.Sized()
  {
    a.Saving? && |a.k.running| == MAX_TASKS && !NothingToSave(a.k, m.track) && a.landed >= SAVE_WRITES
  }

  ghost function Next(reg: Registry, m: Machine, a: Action): (m': Machine)
    requires OnCard(m.sys.card) && m.track.Sized() && Possible(reg, m, a)
    ensures OnCard(m'.sys.card) && m'.track.Sized()
  {
    match a
    case Saving(k, _, b, landed) =>
      var t := Observe(m.track, k.running);
      if NothingToSave(k, m.track) then Machine(Step(m.sys, Refused), t)
      else Machine(Step(m.sys, SaveEvent(b, landed)), if landed >= SAVE_WRITES then t else Untracked())
    case Loading(env) =>
      Machine(Step(m.sys, Load), TrackAfterLoad(m, env))
    case Restarting => Machine(Step(m.sys, Reboot), Untracked())
  }

  function TrackAfterLoad(m: Machine, env: Env): (t: Tracking)
    requires OnCard(m.sys.card) && m.track.Sized()
    ensures t.Sized()
  {
    var best := Best(m.sys.card);
    if best == None then m.track
    else
      BestAccepted(m.sys.card);
      var s := SlotBytes(m.sys.card, best.value.place);
      if Loaded(env, s).failed == 0 then Seeding(s) else m.track
  }

  /** A load changes the counters only when it finds a checkpoint and every region of it is taken or passed over; then
      they are those of the checkpoint. */
  lemma LoadTracks(reg: Registry, m: Machine, env: Env)
    requires OnCard(m.sys.card) && m.track.Sized() && env.reg == reg
    ensures var t, best := Next(reg, m, Loading(env)).track, Best(m.sys.card);
            && (best == None ==> t == m.track)
            && (best.Some? ==>
                  var s := SlotBytes(m.sys.card, best.value.place);
                  && |s| >= HDR_BYTES && DirEnd(s) <= |s|
                  && t == if Applicable(env, s) then Seeding(s) else m.track)
  {
    hide Best, SlotBytes, Seeding, Step, Walk, CountTaken, CountPassed;
    if Best(m.sys.card).Some? {
      BestAccepted(m.sys.card);
      var s := SlotBytes(m.sys.card, Best(m.sys.card).value.place);
      WalkCountsExactly(env, s, Filtered(s, Count(s)));
    }
  }

  /** Every region a load applies is taken by its task or passed over. */
  predicate Applicable(env: Env, s: seq<uint8>)
    requires |s| >= HDR_BYTES && DirEnd(s) <= |s|
  {
    var rs := Filtered(s, Count(s));
    CountTaken(env, s, rs, |rs|) + CountPassed(env, rs, |rs|) == |rs|
  }

  lemma BestAccepted(d: Blocks)
    requires OnCard(d) && Best(d).Some?
    ensures var s := SlotBytes(d, Best(d).value.place); |s| >= HDR_BYTES && DirEnd(s) <= |s|
  {
    hide BestOf, Gather, Load32;
    BestIsBest(d, PLACES);
  }

  // The invariant

  predicate AllBalanced(reg: Registry, t: Tracking)
    requires t.Sized()
  {
    forall i :: 0 <= i < |Tracked(reg, MAX_TASKS)| ==> BalancedAt(t, Tracked(reg, MAX_TASKS)[i])
  }

  /** The selected slot is the committed image of `last`. */
  predicate Holds(reg: Registry, d: Blocks, last: Option<Save>)
    requires OnCard(d)
  {
    match last
    case None => Best(d) == None
    case Some(sv) =>
      && Best(d).Some? && Best(d).value.seqNo == sv.seqNo && SaveOk(reg, sv)
      && Image(SlotBytes(d, Best(d).value.place), sv, COMMITTED)
  }

  predicate Inv(reg: Registry, m: Machine, last: Option<Save>) {
    && OnCard(m.sys.card) && m.track.Sized() && Parity(m.sys.card) && InStep(m.sys.ram, m.sys.card)
    && AllBalanced(reg, m.track) && Holds(reg, m.sys.card, last)
  }

  lemma UntrackedBalanced(reg: Registry)
    ensures AllBalanced(reg, Untracked())
  {
    hide Tracked;
  }

  lemma ObserveAll(reg: Registry, t: Tracking, running: seq<bool>)
    requires t.Sized() && |running| == MAX_TASKS && AllBalanced(reg, t)
    ensures AllBalanced(reg, Observe(t, running))
  {
    hide Tracked, BalancedAt, Observe;
    var ids := Tracked(reg, MAX_TASKS);
    forall i | 0 <= i < |ids|
      ensures BalancedAt(Observe(t, running), ids[i])
    {
      ObserveBalanced(t, running, ids[i]);
    }
  }

  /** Every save made from balanced counters is one the loader can restore. */
  lemma SaveOfOk(k: Kernel, t: Tracking, seqNo: uint32, tick: uint32)
    requires KernelOk(k) && t.Sized() && AllBalanced(k.reg, t)
    ensures SaveOk(k.reg, SaveOf(k, Observe(t, k.running), seqNo, tick))
  {
    hide Tracked, FlagsOf, Bits, Collect, ItemsOk, Balanced;
    FlagsOfBits(k.running);
    var ids, o := Tracked(k.reg, MAX_TASKS), Observe(t, k.running);
    CollectOk(k, MetaSize(|ids|), MAX_TASKS);
    ObserveAll(k.reg, t, k.running);
    forall i | 0 <= i < |ids|
      ensures Balanced(o.launches[ids[i]], o.exits[ids[i]], k.running[ids[i]])
    {
      assert BalancedAt(o, ids[i]);
    }
  }

  lemma {:induction false} SetCountsAt(t: Tracking, lives: seq<Life>, i: nat)
    requires t.Sized() && i < |lives| && lives[i].task < MAX_TASKS
    requires forall j :: 0 <= j < |lives| && j != i ==> lives[j].task != lives[i].task
    ensures SetCounts(t, lives).prev == t.prev
    ensures SetCounts(t, lives).launches[lives[i].task] == lives[i].launches
    ensures SetCounts(t, lives).exits[lives[i].task] == lives[i].exits
  {
    var n := |lives| - 1;
    SetCountsPrev(t, lives);
    if i < n {
      SetCountsAt(t, lives[..n], i);
    }
  }

  lemma {:induction false} SetCountsPrev(t: Tracking, lives: seq<Life>)
    requires t.Sized()
    ensures SetCounts(t, lives).prev == t.prev
  {
    if lives != [] {
      SetCountsPrev(t, lives[..|lives| - 1]);
    }
  }

  /** Loading a saved slot restores the counters of every tracked task and the running bits of that save. */
  lemma SeedingRestores(reg: Registry, s: seq<uint8>, sv: Save)
    requires Image(s, sv, COMMITTED) && SaveOk(reg, sv)
    ensures |s| >= HDR_BYTES && DirEnd(s) <= |s|
    ensures Seeding(s).prev == FlagsOf(sv.running, MAX_TASKS)
    ensures LivesOf(Seeding(s), Tracked(reg, MAX_TASKS)) == sv.lives && AllBalanced(reg, Seeding(s))
  {
    hide Image, Tracked, FlagsOf, SetCounts, Load32, ItemsOk, Balanced, MetaOf;
    MetaRead(s, sv);
    RunningRead(s, sv);
    var ids, t := Tracked(reg, MAX_TASKS), Untracked().(prev := FlagsOf(sv.running, MAX_TASKS));
    SetCountsPrev(t, sv.lives);
    forall i | 0 <= i < |ids|
      ensures LivesOf(Seeding(s), ids)[i] == sv.lives[i] && BalancedAt(Seeding(s), ids[i])
    {
      assert forall j :: 0 <= j < |ids| ==> sv.lives[j].task == ids[j];
      SetCountsAt(t, sv.lives, i);
    }
  }

  /** Some region among the first n belongs to this task. */
  predicate HasRegion(s: seq<uint8>, n: nat, id: nat)
    requires HDR_BYTES + REGION_BYTES * n <= |s|
  {
    exists i :: 0 <= i < n && RegionAt(s, i).id == id
  }

  lemma {:induction false} LaunchOnceAt(c: seq<uint16>, s: seq<uint8>, n: nat, id: nat)
    requires |c| == MAX_TASKS && HDR_BYTES + REGION_BYTES * n <= |s| && id < MAX_TASKS
    ensures LaunchOnce(c, s, n)[id] == if HasRegion(s, n, id) then 1 else c[id]
  {
    hide RegionAt;
    if n > 0 {
      LaunchOnceAt(c, s, n - 1, id);
      if HasRegion(s, n, id) && !HasRegion(s, n - 1, id) {
        var i :| 0 <= i < n && RegionAt(s, i).id == id;
        assert i == n - 1;
      }
    }
  }

  /** A slot without metadata seeds the running bits from its header and one launch for every task it has a region of. */
  lemma SeedingWithoutMeta(s: seq<uint8>, id: nat)
    requires |s| >= HDR_BYTES && DirEnd(s) <= |s| && MetaOf(s) == None && id < MAX_TASKS
    ensures Seeding(s).prev == FlagsOf(Load32(s, 20), 32) && Seeding(s).exits[id] == 0
    ensures Seeding(s).launches[id] == if HasRegion(s, Count(s), id) then 1 else 0
  {
    hide Load32, MetaOf, LaunchOnce, HasRegion, Count;
    LaunchOnceAt(NoCounts(), s, Count(s), id);
  }

  lemma RunningRead(s: seq<uint8>, sv: Save)
    requires Image(s, sv, COMMITTED)
    ensures |s| == SLOT_BYTES && MetaOff(s) + 12 <= |s| && Load32(s, MetaOff(s) + 8) == sv.running
  {
    hide Load32, Save.MetaAt;
    ImageHeader(s, sv, COMMITTED);
    ImageMeta(s, sv);
    ImageBounds(s, sv, COMMITTED);
  }

  function LastAfter(m: Machine, a: Action, last: Option<Save>): Option<Save>
    requires m.track.Sized()
  {
    if Commits(m, a) then Some(a.buffers.sv) else last
  }

  function Number(d: Blocks): nat
    requires OnCard(d)
  {
    if Best(d).Some? then Best(d).value.seqNo else 0
  }

  /** Every action keeps the invariant; only a save whose last block write lands changes what a load finds. */
  lemma NextKeepsInv(reg: Registry, m: Machine, a: Action, last: Option<Save>)
    requires Inv(reg, m, last) && Possible(reg, m, a) && Number(m.sys.card) < TWO_32 - 2
    ensures var m' := Next(reg, m, a);
            Inv(reg, m', LastAfter(m, a, last)) && Number(m'.sys.card) <= Number(m.sys.card) + 1
  {
    hide Parity, InStep, BestOf, SlotBytes, Image, SaveOk, Buffers.Valid, AllBalanced, NothingToSave, Observe, SaveOf,
         SaveWrites, Apply, Seeding, Loaded, Seeded;
    UntrackedBalanced(reg);
    var e := EventOf(m, a);
    match a
    case Saving(k, tick, b, landed) =>
      ObserveAll(reg, m.track, k.running);
      SaveOfNumber(k, Observe(m.track, k.running), Seeded(m.sys.ram, m.sys.card).seqNo, tick);
      StepKeeps(m.sys, e);
      if Commits(m, a) {
        SaveOfOk(k, m.track, b.sv.seqNo, tick);
        BuffersImage(b);
      }
    case Loading(env) =>
      StepKeeps(m.sys, e);
      if last.Some? {
        SeedingRestores(reg, SlotBytes(m.sys.card, Best(m.sys.card).value.place), last.value);
      }
    case Restarting =>
      StepKeeps(m.sys, e);
  }

  lemma SaveOfNumber(k: Kernel, t: Tracking, seqNo: uint32, tick: uint32)
    requires |k.running| == MAX_TASKS && t.Sized()
    ensures SaveOf(k, t, seqNo, tick).seqNo == seqNo
  {
  }

  lemma BuffersImage(b: Buffers)
    requires b.Valid()
    ensures Image(b.committed, b.sv, COMMITTED)
  {
  }

  function EventOf(m: Machine, a: Action): Event
    requires m.track.Sized() && (a.Saving? ==> |a.k.running| == MAX_TASKS)
  {
    match a
    case Saving(k, _, b, landed) => if NothingToSave(k, m.track) then Refused else SaveEvent(b, landed)
    case Loading(_) => Load
    case Restarting => Reboot
  }

  // Every run

  ghost predicate RunPossible(reg: Registry, m: Machine, run: seq<Action>)
    requires OnCard(m.sys.card) && m.track.Sized()
    decreases |run|, 0
  {
    run == [] || (RunPossible(reg, m, run[..|run| - 1]) && Possible(reg, AfterRun(reg, m, run[..|run| - 1]), run[|run| - 1]))
  }

  ghost function AfterRun(reg: Registry, m: Machine, run: seq<Action>): (m': Machine)
    requires OnCard(m.sys.card) && m.track.Sized() && RunPossible(reg, m, run)
    ensures OnCard(m'.sys.card) && m'.track.Sized()
    decreases |run|, 1
  {
    if run == [] then m else Next(reg, AfterRun(reg, m, run[..|run| - 1]), run[|run| - 1])
  }

  /** The save most recently committed in the run. */
  ghost function LastSave(reg: Registry, m: Machine, run: seq<Action>, last: Option<Save>): Option<Save>
    requires OnCard(m.sys.card) && m.track.Sized() && RunPossible(reg, m, run)
    decreases |run|
  {
    if run == [] then last
    else
      var init := run[..|run| - 1];
      LastAfter(AfterRun(reg, m, init), run[|run| - 1], LastSave(reg, m, init, last))
  }

  lemma {:induction false} RunKeepsInv(reg: Registry, m: Machine, run: seq<Action>, last: Option<Save>)
    requires Inv(reg, m, last) && RunPossible(reg, m, run) && Number(m.sys.card) + |run| < TWO_32 - 1
    ensures var m' := AfterRun(reg, m, run);
            Inv(reg, m', LastSave(reg, m, run, last)) && Number(m'.sys.card) <= Number(m.sys.card) + |run|
  {
    hide Next, Inv, Number, Possible, LastAfter;
    InvSized(reg, m, last);
    if run != [] {
      var init := run[..|run| - 1];
      RunKeepsInv(reg, m, init, last);
      NextKeepsInv(reg, AfterRun(reg, m, init), run[|run| - 1], LastSave(reg, m, init, last));
    }
  }

  lemma InvSized(reg: Registry, m: Machine, last: Option<Save>)
    requires Inv(reg, m, last)
    ensures OnCard(m.sys.card) && m.track.Sized()
  {
  }

  /** A card on which no place is accepted, after power-on. */
  lemma FreshMachine(reg: Registry, d: Blocks)
    requires OnCard(d) && Best(d) == None
    ensures Inv(reg, Machine(System(d, COLD), Untracked()), None)
  {
    hide SeqAt, BestOf, AllBalanced;
    BestIsBest(d, PLACES);
    UntrackedBalanced(reg);
  }

  /** The kernel whose tasks the last committed save of the run asked. */
  ghost function LastKernel(reg: Registry, m: Machine, run: seq<Action>): Option<Kernel>
    requires OnCard(m.sys.card) && m.track.Sized() && RunPossible(reg, m, run)
    decreases |run|
  {
    if run == [] then None
    else
      var init, a := run[..|run| - 1], run[|run| - 1];
      if Commits(AfterRun(reg, m, init), a) then Some(a.k) else LastKernel(reg, m, init)
  }

  /** The bytes of metadata a save of this registry carries. */
  function MetaBytes(reg: Registry): (n: nat)
    ensures PAYLOAD_BASE + n <= SLOT_BYTES
  {
    MetaSize(|Tracked(reg, MAX_TASKS)|)
  }

  /** The last committed save holds exactly what the tasks of its kernel gave. */
  lemma {:induction false} LastSaveGathered(reg: Registry, m: Machine, run: seq<Action>)
    requires OnCard(m.sys.card) && m.track.Sized() && RunPossible(reg, m, run)
    ensures LastSave(reg, m, run, None).Some? <==> LastKernel(reg, m, run).Some?
    ensures LastKernel(reg, m, run).Some? ==>
              var k, sv := LastKernel(reg, m, run).value, LastSave(reg, m, run, None).value;
              && KernelOk(k) && k.reg == reg && FlagsOf(sv.running, MAX_TASKS) == k.running
              && GatheredExactly(k, sv.items, MetaBytes(reg))
  {
    hide Next, NothingToSave, GatheredExactly, Buffers.Valid, Seeded, Observe, FlagsOf, Collect, MetaSize;
    if run != [] {
      var init, a := run[..|run| - 1], run[|run| - 1];
      LastSaveGathered(reg, m, init);
      var m1 := AfterRun(reg, m, init);
      if Commits(m1, a) {
        SaveGathered(a.k, Observe(m1.track, a.k.running), Seeded(m1.sys.ram, m1.sys.card).seqNo, a.tick);
      }
    }
  }

  lemma SaveGathered(k: Kernel, t: Tracking, seqNo: uint32, tick: uint32)
    requires KernelOk(k) && t.Sized()
    ensures var sv := SaveOf(k, t, seqNo, tick);
            FlagsOf(sv.running, MAX_TASKS) == k.running && GatheredExactly(k, sv.items, MetaBytes(k.reg))
  {
    hide GatheredExactly, Collect, FlagsOf, Bits;
    CollectExactly(k, MetaBytes(k.reg));
    FlagsOfBits(k.running);
  }

  /** A save is refused exactly when no task can be gathered and no tracked task appeared or went. */
  lemma NothingExactly(k: Kernel, t: Tracking)
    requires KernelOk(k) && t.Sized()
    ensures NothingToSave(k, t) <==>
            && (forall id :: 0 <= id < MAX_TASKS ==> !Gathered(k, [], MetaBytes(k.reg), id))
            && forall id :: 0 <= id < MAX_TASKS && id in Tracked(k.reg, MAX_TASKS) ==> t.prev[id] == k.running[id]
  {
    hide Collect, Gathered, Tracked, ItemsOk, Room;
    var n := MetaBytes(k.reg);
    var items, ids := Collect(k, n, MAX_TASKS), Tracked(k.reg, MAX_TASKS);
    CollectExactly(k, n);
    if items != [] {
      CollectOk(k, n, MAX_TASKS);
      FirstSeesNothing(k, items, n);
    }
    assert Changed(t, k.running, ids) <==> exists id :: 0 <= id < MAX_TASKS && id in ids && t.prev[id] != k.running[id];
  }

  lemma FirstSeesNothing(k: Kernel, items: seq<Item>, metaLen: nat)
    requires KernelOk(k) && items != [] && GatheredExactly(k, items, metaLen) && ItemsOk(k.reg, k.running, items)
    ensures items[0].task < MAX_TASKS && Gathered(k, [], metaLen, items[0].task)
  {
    hide Earlier, Given;
    assert items[0] in items && GaveIt(k, items, metaLen, items[0]);
    NoneEarlier(items, items[0].task);
    EarlierNone(items[0].task);
  }

  lemma {:induction false} NoneEarlier(items: seq<Item>, id: nat)
    requires forall i :: 0 <= i < |items| ==> items[i].task >= id
    ensures Earlier(items, id) == []
  {
    if items != [] {
      NoneEarlier(items[..|items| - 1], id);
    }
  }

  /** Over every run from a fresh card: a load finds the last committed save and calls each task it let through
      exactly once, in task order, with exactly the bytes that task's callback gave when the save asked it; and that is
      every task gathered unless an exit counter is about to wrap. */
  lemma RunRestoresLastSave(reg: Registry, d: Blocks, run: seq<Action>, env: Env)
    requires OnCard(d) && Best(d) == None && WellFormed(reg) && env.reg == reg && |run| < TWO_32 - 1
    requires RunPossible(reg, Machine(System(d, COLD), Untracked()), run)
    ensures var m := Machine(System(d, COLD), Untracked());
            var card, last, k := AfterRun(reg, m, run).sys.card, LastSave(reg, m, run, None), LastKernel(reg, m, run);
            && (last == None <==> Best(card) == None) && (last.Some? <==> k.Some?)
            && (last.Some? ==> Restores(env, card, last.value) && KernelOk(k.value) && GivesBack(env, card, k.value, last.value))
  {
    hide AfterRun, Inv, LastSave, LastKernel, RunPossible, BestOf, Image, Kept, AboutToWrap, SaveOk, SlotBytes, Loaded, GatheredExactly,
         GivesBack;
    var m := Machine(System(d, COLD), Untracked());
    FreshMachine(reg, d);
    RunKeepsInv(reg, m, run, None);
    LastSaveGathered(reg, m, run);
    var last := LastSave(reg, m, run, None);
    InvHolds(reg, AfterRun(reg, m, run), last);
    if last.Some? {
      var card := AfterRun(reg, m, run).sys.card;
      var s := SlotBytes(card, Best(card).value.place);
      BestAccepted(card);
      SavedAscending(reg, last.value);
      AllKeptExactly(reg, last.value);
      if Registers(env, last.value.items) {
        LoadRestores(env, s, last.value);
      }
      CallsWereGiven(env, card, LastKernel(reg, m, run).value, last.value);
    }
  }

  /** The call hands a task the bytes its callback gave the save, and that task was gathered. */
  predicate Handed(k: Kernel, items: seq<Item>, metaLen: nat, c: Call)
    requires |k.running| == MAX_TASKS
  {
    && c.task < MAX_TASKS && Gathered(k, items, metaLen, c.task)
    && var a := Given(k, k.reg[c.task].value, c.task, RoomFor(items, metaLen, c.task));
       a.len <= |a.window| && c.blob == a.window[..a.len]
  }

  /** What a load calls, over the callbacks of the kernel that was saved. */
  ghost predicate GivesBack(env: Env, card: Blocks, k: Kernel, sv: Save)
    requires OnCard(card) && |k.running| == MAX_TASKS
  {
    && Best(card).Some? && FlagsOf(sv.running, MAX_TASKS) == k.running
    && var s, n := SlotBytes(card, Best(card).value.place), MetaBytes(k.reg);
       && |s| >= HDR_BYTES && DirEnd(s) <= |s|
       && (Registers(env, sv.items) ==>
             && (forall c :: c in Loaded(env, s).calls ==> Handed(k, sv.items, n, c))
             && ((forall i :: 0 <= i < |sv.items| ==> !AboutToWrap(sv.lives, sv.items[i].task)) ==>
                   forall id :: 0 <= id < MAX_TASKS && Gathered(k, sv.items, n, id) ==>
                     exists c :: c in Loaded(env, s).calls && c.task == id))
  }

  lemma CallsWereGiven(env: Env, card: Blocks, k: Kernel, sv: Save)
    requires OnCard(card) && KernelOk(k) && FlagsOf(sv.running, MAX_TASKS) == k.running
    requires Restores(env, card, sv) && GatheredExactly(k, sv.items, MetaBytes(k.reg))
    ensures GivesBack(env, card, k, sv)
  {
    hide BestOf, SlotBytes, Loaded, Kept, AboutToWrap, Gathered, Given, RoomFor, FlagsOf, KernelOk, Tracked;
    var s, n := SlotBytes(card, Best(card).value.place), MetaBytes(k.reg);
    if Registers(env, sv.items) {
      var kept := Kept(sv.items, sv.lives);
      forall c | c in CallsFor(kept)
        ensures Handed(k, sv.items, n, c)
      {
        var i :| 0 <= i < |kept| && c == Call(kept[i].task, kept[i].blob);
        KeptSubset(sv.items, sv.lives, i);
        assert GaveIt(k, sv.items, n, kept[i]);
      }
      if kept == sv.items {
        forall id | 0 <= id < MAX_TASKS && Gathered(k, sv.items, n, id)
          ensures exists c :: c in CallsFor(kept) && c.task == id
        {
          var it :| it in sv.items && it.task == id;
          var i :| 0 <= i < |kept| && kept[i] == it;
          assert CallsFor(kept)[i] in CallsFor(kept);
        }
      }
    }
  }

  lemma InvHolds(reg: Registry, m: Machine, last: Option<Save>)
    requires Inv(reg, m, last)
    ensures OnCard(m.sys.card) && Holds(reg, m.sys.card, last)
  {
  }

  lemma SavedAscending(reg: Registry, sv: Save)
    requires SaveOk(reg, sv)
    ensures Ascending(sv.items)
  {
  }

  /** Registering the saved tasks leaves them registered. */
  predicate Registers(env: Env, items: seq<Item>) {
    forall i :: 0 <= i < |items| ==> env.register(items[i].task)
  }

  predicate Restores(env: Env, card: Blocks, sv: Save)
    requires OnCard(card)
  {
    && Best(card).Some? && Best(card).value.seqNo == sv.seqNo && Ascending(sv.items)
    && (Kept(sv.items, sv.lives) == sv.items
        <==> forall k :: 0 <= k < |sv.items| ==> !AboutToWrap(sv.lives, sv.items[k].task))
    && var s := SlotBytes(card, Best(card).value.place);
       && |s| >= HDR_BYTES && DirEnd(s) <= |s|
       && (Registers(env, sv.items) ==> HandsBack(env, s, Kept(sv.items, sv.lives)))
  }

  predicate HandsBack(env: Env, s: seq<uint8>, kept: seq<Item>)
    requires |s| >= HDR_BYTES && DirEnd(s) <= |s|
  {
    && Loaded(env, s).calls == CallsFor(kept)
    && (Loaded(env, s).failed == 0 <==> forall it :: it in kept ==> env.restore(it.task, it.blob))
  }
}
