/**
 The restore loader: walks a list of saved regions, registers each task once and hands it its saved bytes.
 */
module RestoreLoader {
  import opened Words
  import opened Tasks
  import opened CheckpointFormat

  /** The registry and what the callbacks answer: whether registering a task leaves it registered, and whether a
      task takes the bytes offered to it. */
  datatype Env = Env(reg: Registry, register: nat -> bool, restore: (nat, seq<uint8>) -> bool)

  datatype Call = Call(task: nat, blob: seq<uint8>)

  /** State of the walk: who was registered, the callbacks made in order, and the counters. */
  datatype Progress = Progress(registered: seq<bool>, registrations: seq<nat>, calls: seq<Call>,
                               applied: nat, skipped: nat, failed: nat)

  const START: Progress := Progress(NoFlags(REGISTRY_SIZE), [], [], 0, 0, 0)

  function TaskOf(r: Region): (id: nat)
    ensures id < REGISTRY_SIZE
  {
    r.id % 0x100
  }

  /** The descriptor takes a region of this version, length and place. */
  predicate Suits(d: Descriptor, r: Region, len: nat) {
    && d.version == r.version && d.minLen <= r.len <= d.maxLen && r.len <= MAX_BLOB
    && r.off + r.len <= len && d.hasRestore
  }

  /** The bytes a region names. */
  function BlobOf(s: seq<uint8>, r: Region): seq<uint8> {
    if r.off + r.len <= |s| then s[r.off..r.off + r.len] else []
  }

  function One(env: Env, s: seq<uint8>, p: Progress, r: Region): (p': Progress)
    requires |p.registered| == REGISTRY_SIZE
    ensures |p'.registered| == REGISTRY_SIZE
  {
    var id := TaskOf(r);
    if env.reg[id].None? then p.(failed := p.failed + 1)
    else
      var first, d := !p.registered[id], env.reg[id].value;
      var q := if first then p.(registered := p.registered[id := true], registrations := p.registrations + [id]) else p;
      if first && !env.register(id) then q.(failed := q.failed + 1)
      else if !d.kind.RestorableNow? then q.(skipped := q.skipped + 1)
      else if !Suits(d, r, |s|) then q.(failed := q.failed + 1)
      else
        var blob := BlobOf(s, r);
        var c := q.(calls := q.calls + [Call(id, blob)]);
        if env.restore(id, blob) then c.(applied := c.applied + 1) else c.(failed := c.failed + 1)
  }

  function Walk(env: Env, s: seq<uint8>, rs: seq<Region>): (p: Progress)
    ensures |p.registered| == REGISTRY_SIZE
  {
    if rs == [] then START else One(env, s, Walk(env, s, rs[..|rs| - 1]), rs[|rs| - 1])
  }

  method ApplyRegions(env: Env, s: seq<uint8>, rs: seq<Region>) returns (ok: bool, p: Progress)
    requires |s| < TWO_32
    ensures p == Walk(env, s, rs) && (ok <==> p.failed == 0)
  {
    hide Walk, TaskOf;
    WalkNothing(env, s);
    var registered, registrations, calls := NoFlags(REGISTRY_SIZE), [], [];
    var applied: nat, skipped: nat, failed: nat := 0, 0, 0;
    for i := 0 to |rs|
      invariant |registered| == REGISTRY_SIZE
      invariant Progress(registered, registrations, calls, applied, skipped, failed) == Walk(env, s, rs[..i])
    {
      assert rs[..i + 1][..i] == rs[..i];
      WalkLast(env, s, rs[..i + 1]);
      var r := rs[i];
      var id := TaskOf(r);
      if env.reg[id].None? {
        failed := failed + 1;
        continue;
      }
      var d := env.reg[id].value;
      var already := registered[id];
      registered := registered[id := true];
      if !already {
        registrations := registrations + [id];
        if !env.register(id) {
          failed := failed + 1;
          continue;
        }
      } else {
        assert registered == Walk(env, s, rs[..i]).registered;
      }
      if !d.kind.RestorableNow? {
        skipped := skipped + 1;
        continue;
      }
      if d.version != r.version || r.len < d.minLen || r.len > d.maxLen || r.len > MAX_BLOB {
        failed := failed + 1;
        continue;
      }
      var end := (r.off as int + r.len) % TWO_32;
      if end < r.off || end > |s| || !d.hasRestore {
        failed := failed + 1;
        continue;
      }
      calls := calls + [Call(id, s[r.off..end])];
      if env.restore(id, s[r.off..end]) {
        applied := applied + 1;
      } else {
        failed := failed + 1;
      }
    }
    assert rs[..|rs|] == rs;
    p := Progress(registered, registrations, calls, applied, skipped, failed);
    ok := failed == 0;
  }

  predicate Distinct(ids: seq<nat>) {
    forall i, j :: 0 <= i < j < |ids| ==> ids[i] != ids[j]
  }

  /** Region i is the first one of its task. */
  predicate FirstOfTask(rs: seq<Region>, i: nat)
    requires i < |rs|
  {
    forall j :: 0 <= j < i ==> TaskOf(rs[j]) != TaskOf(rs[i])
  }

  /** Region i reaches its task's restore function. */
  predicate Reaches(env: Env, s: seq<uint8>, rs: seq<Region>, i: nat)
    requires i < |rs|
  {
    var id := TaskOf(rs[i]);
    && env.reg[id].Some? && env.reg[id].value.kind.RestorableNow? && env.reg[id].value.hasRestore
    && rs[i].version == env.reg[id].value.version && rs[i].off + rs[i].len <= |s|
    && env.reg[id].value.minLen <= rs[i].len <= env.reg[id].value.maxLen && rs[i].len <= 4096
    && (FirstOfTask(rs, i) ==> env.register(id))
  }

  /** Region i is passed over: its task is known and can be registered, but takes no saved state. */
  predicate PassedOver(env: Env, rs: seq<Region>, i: nat)
    requires i < |rs|
  {
    var id := TaskOf(rs[i]);
    env.reg[id].Some? && !env.reg[id].value.kind.RestorableNow? && (FirstOfTask(rs, i) ==> env.register(id))
  }

  /** Region i is taken by its task. */
  predicate TakenOver(env: Env, s: seq<uint8>, rs: seq<Region>, i: nat)
    requires i < |rs|
  {
    Reaches(env, s, rs, i) && env.restore(TaskOf(rs[i]), BlobOf(s, rs[i]))
  }

  function CountTaken(env: Env, s: seq<uint8>, rs: seq<Region>, n: nat): nat
    requires n <= |rs|
  {
    if n == 0 then 0 else CountTaken(env, s, rs, n - 1) + if TakenOver(env, s, rs, n - 1) then 1 else 0
  }

  function CountPassed(env: Env, rs: seq<Region>, n: nat): nat
    requires n <= |rs|
  {
    if n == 0 then 0 else CountPassed(env, rs, n - 1) + if PassedOver(env, rs, n - 1) then 1 else 0
  }

  lemma OneCounts(env: Env, s: seq<uint8>, p: Progress, r: Region)
    requires |p.registered| == REGISTRY_SIZE
    ensures var q := One(env, s, p, r);
            && q.applied + q.skipped + q.failed == p.applied + p.skipped + p.failed + 1
            && p.applied <= q.applied && q.applied - p.applied <= |q.calls| - |p.calls|
            && p.failed <= q.failed && |q.calls| - |p.calls| <= q.applied - p.applied + q.failed - p.failed
  {
    hide Suits, BlobOf, TaskOf;
  }

  /** For every list, each region is counted once, and only a region whose task was offered bytes is applied. */
  lemma {:induction false} WalkCounts(env: Env, s: seq<uint8>, rs: seq<Region>)
    ensures var p := Walk(env, s, rs);
            p.applied + p.skipped + p.failed == |rs| && p.applied <= |p.calls| <= p.applied + p.failed
  {
    hide One;
    if rs != [] {
      WalkCounts(env, s, rs[..|rs| - 1]);
      OneCounts(env, s, Walk(env, s, rs[..|rs| - 1]), rs[|rs| - 1]);
    }
  }

  /** For every list, each task with a descriptor is registered exactly once and no other task is. */
  lemma {:induction false} WalkRegisters(env: Env, s: seq<uint8>, rs: seq<Region>)
    ensures var p := Walk(env, s, rs);
            && Distinct(p.registrations)
            && (forall id :: id in p.registrations <==> 0 <= id < REGISTRY_SIZE && p.registered[id])
            && (forall id :: 0 <= id < REGISTRY_SIZE ==>
                  (p.registered[id] <==> env.reg[id].Some? && exists i :: 0 <= i < |rs| && TaskOf(rs[i]) == id))
  {
    hide Walk, One, TaskOf;
    if rs == [] {
      WalkNothing(env, s);
    } else {
      var init, n := rs[..|rs| - 1], |rs| - 1;
      WalkRegisters(env, s, init);
      LastRegistered(env, s, rs);
      var p, q := Walk(env, s, init), Walk(env, s, rs);
      assert forall i :: 0 <= i < n ==> init[i] == rs[i];
      assert q.registrations == p.registrations || q.registrations == p.registrations + [TaskOf(rs[n])];
    }
  }

  lemma WalkNothing(env: Env, s: seq<uint8>)
    ensures Walk(env, s, []) == START
  {
  }

  lemma WalkLast(env: Env, s: seq<uint8>, rs: seq<Region>)
    requires rs != []
    ensures Walk(env, s, rs) == One(env, s, Walk(env, s, rs[..|rs| - 1]), rs[|rs| - 1])
  {
    hide One;
  }

  lemma OneRegisters(env: Env, s: seq<uint8>, p: Progress, r: Region)
    requires |p.registered| == REGISTRY_SIZE
    ensures var q, id := One(env, s, p, r), TaskOf(r);
            && q.registered == (if env.reg[id].Some? then p.registered[id := true] else p.registered)
            && q.registrations == if env.reg[id].Some? && !p.registered[id] then p.registrations + [id] else p.registrations
  {
    hide Suits, BlobOf, TaskOf;
    assert p.registered[TaskOf(r)] ==> p.registered[TaskOf(r) := true] == p.registered;
  }

  lemma LastRegistered(env: Env, s: seq<uint8>, rs: seq<Region>)
    requires rs != []
    ensures var p, q, id := Walk(env, s, rs[..|rs| - 1]), Walk(env, s, rs), TaskOf(rs[|rs| - 1]);
            && q.registered == (if env.reg[id].Some? then p.registered[id := true] else p.registered)
            && q.registrations == if env.reg[id].Some? && !p.registered[id] then p.registrations + [id] else p.registrations
  {
    hide Walk, One, TaskOf;
    WalkLast(env, s, rs);
    OneRegisters(env, s, Walk(env, s, rs[..|rs| - 1]), rs[|rs| - 1]);
  }

  /** The region is handed over, given who is registered already. */
  predicate HandedOver(env: Env, s: seq<uint8>, p: Progress, r: Region)
    requires |p.registered| == REGISTRY_SIZE
  {
    var id := TaskOf(r);
    && env.reg[id].Some? && env.reg[id].value.kind.RestorableNow? && Suits(env.reg[id].value, r, |s|)
    && (!p.registered[id] ==> env.register(id))
  }

  lemma OneCalls(env: Env, s: seq<uint8>, p: Progress, r: Region)
    requires |p.registered| == REGISTRY_SIZE
    ensures var q, id, blob := One(env, s, p, r), TaskOf(r), BlobOf(s, r);
            && q.calls == p.calls + (if HandedOver(env, s, p, r) then [Call(id, blob)] else [])
            && (HandedOver(env, s, p, r) ==> q.failed == p.failed + if env.restore(id, blob) then 0 else 1)
  {
    hide Suits, BlobOf, TaskOf;
  }

  lemma LastHandedOver(env: Env, s: seq<uint8>, rs: seq<Region>)
    requires rs != []
    ensures HandedOver(env, s, Walk(env, s, rs[..|rs| - 1]), rs[|rs| - 1]) <==> Reaches(env, s, rs, |rs| - 1)
    ensures env.reg[TaskOf(rs[|rs| - 1])].Some? ==>
              (FirstOfTask(rs, |rs| - 1) <==> !Walk(env, s, rs[..|rs| - 1]).registered[TaskOf(rs[|rs| - 1])])
  {
    hide Walk, TaskOf;
    var init, n := rs[..|rs| - 1], |rs| - 1;
    WalkRegisters(env, s, init);
    assert forall i :: 0 <= i < n ==> init[i] == rs[i];
    assert env.reg[TaskOf(rs[n])].Some? ==> (FirstOfTask(rs, n) <==> !Walk(env, s, init).registered[TaskOf(rs[n])]);
  }

  /** The last region adds a call exactly when it reaches its task, with exactly the bytes it names. */
  lemma WalkCalls(env: Env, s: seq<uint8>, rs: seq<Region>)
    requires rs != []
    ensures var n := |rs| - 1;
            var p, q, reached := Walk(env, s, rs[..n]), Walk(env, s, rs), Reaches(env, s, rs, n);
            && q.calls == p.calls + (if reached then [Call(TaskOf(rs[n]), BlobOf(s, rs[n]))] else [])
            && (reached ==> q.failed == p.failed + if env.restore(TaskOf(rs[n]), BlobOf(s, rs[n])) then 0 else 1)
  {
    hide Walk, One, TaskOf, BlobOf, Reaches, HandedOver;
    WalkLast(env, s, rs);
    LastHandedOver(env, s, rs);
    OneCalls(env, s, Walk(env, s, rs[..|rs| - 1]), rs[|rs| - 1]);
  }

  /** Regions that all reach their tasks are handed over one by one, in order; the walk succeeds exactly when
      every task takes its bytes. */
  lemma {:induction false} WalkAll(env: Env, s: seq<uint8>, rs: seq<Region>)
    requires forall i :: 0 <= i < |rs| ==> Reaches(env, s, rs, i)
    ensures Walk(env, s, rs).calls
            == seq(|rs|, i requires 0 <= i < |rs| => Call(TaskOf(rs[i]), BlobOf(s, rs[i])))
    ensures Walk(env, s, rs).failed == 0 <==>
            forall i :: 0 <= i < |rs| ==> env.restore(TaskOf(rs[i]), BlobOf(s, rs[i]))
  {
    hide Walk, TaskOf, BlobOf, Suits;
    if rs == [] {
      WalkNothing(env, s);
    } else {
      var init, n := rs[..|rs| - 1], |rs| - 1;
      assert forall i :: 0 <= i < n ==> init[i] == rs[i];
      forall i | 0 <= i < |init|
        ensures Reaches(env, s, init, i)
      {
        assert Reaches(env, s, rs, i);
        assert FirstOfTask(init, i) ==> FirstOfTask(rs, i);
      }
      WalkAll(env, s, init);
      assert Reaches(env, s, rs, n);
      WalkCalls(env, s, rs);
    }
  }

  lemma OneTaken(env: Env, s: seq<uint8>, p: Progress, r: Region)
    requires |p.registered| == REGISTRY_SIZE
    ensures var q, id := One(env, s, p, r), TaskOf(r);
            && q.applied == p.applied + (if HandedOver(env, s, p, r) && env.restore(id, BlobOf(s, r)) then 1 else 0)
            && q.skipped == p.skipped + if env.reg[id].Some? && !env.reg[id].value.kind.RestorableNow?
                                           && (!p.registered[id] ==> env.register(id)) then 1 else 0
  {
    hide Suits, BlobOf, TaskOf;
  }

  lemma {:induction false} CountsOfPrefix(env: Env, s: seq<uint8>, rs: seq<Region>, init: seq<Region>, n: nat)
    requires n <= |init| < |rs| && init == rs[..|init|]
    ensures CountTaken(env, s, init, n) == CountTaken(env, s, rs, n) && CountPassed(env, init, n) == CountPassed(env, rs, n)
  {
    hide TaskOf, BlobOf;
    if n > 0 {
      CountsOfPrefix(env, s, rs, init, n - 1);
      assert forall i :: 0 <= i < n ==> init[i] == rs[i];
      assert FirstOfTask(init, n - 1) <==> FirstOfTask(rs, n - 1);
    }
  }

  /** For every list: the regions applied are those their task takes, the ones skipped those of known tasks that take no
      saved state, and every other region has failed. */
  lemma {:induction false} WalkCountsExactly(env: Env, s: seq<uint8>, rs: seq<Region>)
    ensures var p := Walk(env, s, rs);
            && p.applied == CountTaken(env, s, rs, |rs|) && p.skipped == CountPassed(env, rs, |rs|)
            && p.failed == |rs| - p.applied - p.skipped
  {
    hide Walk, One, TaskOf, BlobOf, Reaches, HandedOver, FirstOfTask;
    if rs == [] {
      WalkNothing(env, s);
    } else {
      var init := rs[..|rs| - 1];
      WalkCountsExactly(env, s, init);
      CountsOfPrefix(env, s, rs, init, |init|);
      WalkLast(env, s, rs);
      LastHandedOver(env, s, rs);
      OneTaken(env, s, Walk(env, s, init), rs[|rs| - 1]);
    }
    WalkCounts(env, s, rs);
  }
}
