/**
 What a checkpoint gathers from the running tasks, how launches and exits are counted, and what a load hands back:
 which saved regions pass the lifecycle filter, and that over every run of saves, power losses, reboots and loads
 the tasks get exactly the bytes they gave.
 */
module CheckpointLifecycle {
  import opened Words
  import opened Tasks
  import opened CheckpointFormat
  import opened CheckpointImage
  import opened RestoreLoader

  const WRAP_16: nat := 0x1_0000

  // Gathering task states

  /** What a state callback did with the window it was offered: its verdict, the length it reports, and the window's
      bytes afterwards. */
  datatype Answer = Answer(ok: bool, len: uint32, window: seq<uint8>)

  /** The registry, which tasks are registered with the scheduler, and the state callbacks. */
  datatype Kernel = Kernel(reg: Registry, running: seq<bool>, get: (nat, nat) -> Answer)

  /** Callbacks stay inside the window they are offered. */
  ghost predicate KernelOk(k: Kernel) {
    |k.running| == MAX_TASKS && forall id: nat, n: nat :: |k.get(id, n).window| == n
  }

  function Room(items: seq<Item>, metaLen: nat): int {
    SLOT_BYTES - (OffsetOf(items, |items|) + metaLen)
  }

  function Offer(d: Descriptor, room: nat): nat {
    Min(room, Min(d.maxLen, MAX_BLOB))
  }

  /** The task is asked for its state. */
  predicate Asked(k: Kernel, id: nat, items: seq<Item>, metaLen: nat)
    requires id < MAX_TASKS && |k.running| == MAX_TASKS
  {
    && |items| < MAX_REGIONS && Restorable(k.reg, id) && k.reg[id].value.hasGet && k.running[id]
    && k.reg[id].value.maxLen <= MAX_BLOB && Room(items, metaLen) >= 0
    && Room(items, metaLen) >= k.reg[id].value.minLen
  }

  function AnswerOf(k: Kernel, id: nat, items: seq<Item>, metaLen: nat): Answer
    requires id < MAX_TASKS && |k.running| == MAX_TASKS && Asked(k, id, items, metaLen)
  {
    k.get(id, Offer(k.reg[id].value, Room(items, metaLen)))
  }

  /** Its answer is taken. */
  predicate Taken(k: Kernel, id: nat, items: seq<Item>, metaLen: nat)
    requires id < MAX_TASKS && |k.running| == MAX_TASKS
  {
    && Asked(k, id, items, metaLen)
    && var a, d := AnswerOf(k, id, items, metaLen), k.reg[id].value;
       a.ok && d.minLen <= a.len <= d.maxLen && a.len <= Room(items, metaLen) && a.len <= MAX_BLOB
  }

  function ItemOf(k: Kernel, id: nat, items: seq<Item>, metaLen: nat): Item
    requires id < MAX_TASKS && |k.running| == MAX_TASKS && Taken(k, id, items, metaLen)
  {
    var a := AnswerOf(k, id, items, metaLen);
    Item(id, k.reg[id].value.version, if a.len <= |a.window| then a.window[..a.len] else [])
  }

  /** What the tasks with ids below n contribute. */
  function Collect(k: Kernel, metaLen: nat, n: nat): seq<Item>
    requires n <= MAX_TASKS && |k.running| == MAX_TASKS
  {
    if n == 0 then []
    else
      var items := Collect(k, metaLen, n - 1);
      if Taken(k, n - 1, items, metaLen) then items + [ItemOf(k, n - 1, items, metaLen)] else items
  }

  /** The loader will take this item back. */
  predicate ItemOk(reg: Registry, running: seq<bool>, it: Item)
    requires |running| == MAX_TASKS
  {
    && it.task < MAX_TASKS && Restorable(reg, it.task) && running[it.task]
    && var d := reg[it.task].value;
       it.version == d.version && d.minLen <= |it.blob| <= d.maxLen && |it.blob| <= MAX_BLOB
  }

  predicate Ascending(items: seq<Item>) {
    forall i, j :: 0 <= i < j < |items| ==> items[i].task < items[j].task
  }

  predicate ItemsOk(reg: Registry, running: seq<bool>, items: seq<Item>)
    requires |running| == MAX_TASKS
  {
    Ascending(items) && forall i :: 0 <= i < |items| ==> ItemOk(reg, running, items[i])
  }

  lemma OffsetOfNothing()
    ensures OffsetOf([], 0) == PAYLOAD_BASE
  {
    var none: seq<Item> := [];
    assert none[..0] == none;
  }

  lemma OffsetAfter(items: seq<Item>, it: Item)
    ensures OffsetOf(items + [it], |items| + 1) == OffsetOf(items, |items|) + |it.blob|
    ensures Payload(items + [it]) == Payload(items) + it.blob
  {
    var all := items + [it];
    assert all[..|items|] == items && all[..|items| + 1] == all && items[..|items|] == items;
  }

  /** Taking one more answer keeps the list good. */
  lemma TakeOne(k: Kernel, metaLen: nat, id: nat, items: seq<Item>)
    requires id < MAX_TASKS && KernelOk(k) && Taken(k, id, items, metaLen)
    requires ItemsOk(k.reg, k.running, items) && forall i :: 0 <= i < |items| ==> items[i].task < id
    ensures var more := items + [ItemOf(k, id, items, metaLen)];
            && ItemsOk(k.reg, k.running, more) && |more| <= MAX_REGIONS && Room(more, metaLen) >= 0
            && more[|items|].task == id
  {
    hide OffsetOf;
    var it := ItemOf(k, id, items, metaLen);
    OffsetAfter(items, it);
    assert |it.blob| == AnswerOf(k, id, items, metaLen).len;
    assert ItemOk(k.reg, k.running, it);
  }

  /** What is gathered comes from running restorable tasks in ascending order and leaves room for the metadata. */
  lemma {:induction false} CollectOk(k: Kernel, metaLen: nat, n: nat)
    requires n <= MAX_TASKS && KernelOk(k) && PAYLOAD_BASE + metaLen <= SLOT_BYTES
    ensures var items := Collect(k, metaLen, n);
            && ItemsOk(k.reg, k.running, items) && |items| <= MAX_REGIONS && Room(items, metaLen) >= 0
            && forall i :: 0 <= i < |items| ==> items[i].task < n
  {
    hide Collect, OffsetOf, Taken, ItemsOk, Room, ItemOf;
    if n == 0 {
      CollectNone(k, metaLen);
    } else {
      CollectOk(k, metaLen, n - 1);
      CollectNext(k, metaLen, n - 1);
      var items := Collect(k, metaLen, n - 1);
      if Taken(k, n - 1, items, metaLen) {
        TakeOne(k, metaLen, n - 1, items);
      }
    }
  }

  lemma CollectNone(k: Kernel, metaLen: nat)
    requires |k.running| == MAX_TASKS && PAYLOAD_BASE + metaLen <= SLOT_BYTES
    ensures Collect(k, metaLen, 0) == [] && ItemsOk(k.reg, k.running, []) && Room([], metaLen) >= 0
  {
    OffsetOfNothing();
  }

  lemma CollectNext(k: Kernel, metaLen: nat, n: nat)
    requires n < MAX_TASKS && |k.running| == MAX_TASKS
    ensures var items := Collect(k, metaLen, n);
            Collect(k, metaLen, n + 1)
            == if Taken(k, n, items, metaLen) then items + [ItemOf(k, n, items, metaLen)] else items
  {
    hide Taken, ItemOf;
  }

  // Which tasks are gathered, and what of them

  /** The gathered items of smaller ids. */
  function Earlier(items: seq<Item>, id: nat): (r: seq<Item>)
    ensures |r| <= |items|
  {
    if items == [] then []
    else
      var n := |items| - 1;
      Earlier(items[..n], id) + if items[n].task < id then [items[n]] else []
  }

  /** What is left of the slot after the smaller ids. */
  function RoomFor(items: seq<Item>, metaLen: nat, id: nat): int {
    SLOT_BYTES - (PAYLOAD_BASE + |Payload(Earlier(items, id))| + metaLen)
  }

  /** What the task answers when it is offered that room, as far as its own bound and 4096 bytes go. */
  function Given(k: Kernel, d: Descriptor, id: nat, room: nat): Answer {
    k.get(id, Min(room, Min(d.maxLen, MAX_BLOB)))
  }

  /** The conditions under which the task is gathered. */
  predicate Gathered(k: Kernel, items: seq<Item>, metaLen: nat, id: nat)
    requires id < MAX_TASKS && |k.running| == MAX_TASKS
  {
    && |Earlier(items, id)| < 8
    && k.reg[id].Some? && k.reg[id].value.kind == RestorableNow && k.reg[id].value.hasGet && k.running[id]
    && var d, room := k.reg[id].value, RoomFor(items, metaLen, id);
       && d.maxLen <= 4096 && room >= 0 && room >= d.minLen
       && var a := Given(k, d, id, room);
          a.ok && d.minLen <= a.len <= d.maxLen && a.len <= room
  }

  /** The item is the task's: its descriptor's version, and the bytes its callback left in the window, up to the length
      it reported. */
  predicate GaveIt(k: Kernel, items: seq<Item>, metaLen: nat, it: Item)
    requires |k.running| == MAX_TASKS
  {
    && it.task < MAX_TASKS && Gathered(k, items, metaLen, it.task)
    && var d := k.reg[it.task].value;
       var a := Given(k, d, it.task, RoomFor(items, metaLen, it.task));
       it.version == d.version && a.len <= |a.window| && it.blob == a.window[..a.len]
  }

  /** The items are exactly what the tasks gave: a task is among them exactly when the conditions hold, and then with
      its own bytes. */
  ghost predicate GatheredExactly(k: Kernel, items: seq<Item>, metaLen: nat)
    requires |k.running| == MAX_TASKS
  {
    && (forall id :: 0 <= id < MAX_TASKS ==> (Gathered(k, items, metaLen, id) <==> exists it :: it in items && it.task == id))
    && forall it :: it in items ==> GaveIt(k, items, metaLen, it)
  }

  lemma EarlierLast(items: seq<Item>, id: nat)
    requires items != []
    ensures var n := |items| - 1; Earlier(items, id) == Earlier(items[..n], id) + if items[n].task < id then [items[n]] else []
  {
  }

  lemma EarlierNone(id: nat)
    ensures Earlier([], id) == []
  {
  }

  /** All of them, when every id is smaller. */
  lemma {:induction false} EarlierAll(items: seq<Item>, id: nat)
    requires forall i :: 0 <= i < |items| ==> items[i].task < id
    ensures Earlier(items, id) == items
  {
    hide Earlier;
    if items == [] {
      EarlierNone(id);
    } else {
      EarlierAll(items[..|items| - 1], id);
      EarlierLast(items, id);
    }
  }

  /** Larger ids do not count. */
  lemma EarlierSkips(items: seq<Item>, it: Item, id: nat)
    requires it.task >= id
    ensures Earlier(items + [it], id) == Earlier(items, id)
  {
    hide Earlier;
    EarlierLast(items + [it], id);
    assert (items + [it])[..|items|] == items;
    assert Earlier(items, id) + [] == Earlier(items, id);
  }

  /** What an id sees of the whole gathering is what had been gathered before it. */
  lemma {:induction false} EarlierIsBefore(k: Kernel, metaLen: nat, id: nat, n: nat)
    requires id <= n <= MAX_TASKS && KernelOk(k) && PAYLOAD_BASE + metaLen <= SLOT_BYTES
    ensures Earlier(Collect(k, metaLen, n), id) == Collect(k, metaLen, id)
  {
    hide Collect, Earlier, Taken, ItemOf, ItemsOk, Room;
    if id == n {
      CollectOk(k, metaLen, n);
      EarlierAll(Collect(k, metaLen, n), n);
    } else {
      EarlierIsBefore(k, metaLen, id, n - 1);
      CollectNext(k, metaLen, n - 1);
      var items := Collect(k, metaLen, n - 1);
      if Taken(k, n - 1, items, metaLen) {
        ItemOfTask(k, n - 1, items, metaLen);
        EarlierSkips(items, ItemOf(k, n - 1, items, metaLen), id);
      }
    }
  }

  lemma ItemOfTask(k: Kernel, id: nat, items: seq<Item>, metaLen: nat)
    requires id < MAX_TASKS && |k.running| == MAX_TASKS && Taken(k, id, items, metaLen)
    ensures ItemOf(k, id, items, metaLen).task == id
  {
  }

  /** The code's tests are the conditions, over what was gathered before. */
  lemma TakenIsGathered(k: Kernel, metaLen: nat, id: nat, items: seq<Item>, all: seq<Item>)
    requires id < MAX_TASKS && KernelOk(k) && Earlier(all, id) == items
    ensures Taken(k, id, items, metaLen) <==> Gathered(k, all, metaLen, id)
    ensures Taken(k, id, items, metaLen) ==> GaveIt(k, all, metaLen, ItemOf(k, id, items, metaLen))
  {
    hide Earlier, Payload;
    assert items[..|items|] == items;
  }

  lemma {:induction false} InCollect(k: Kernel, metaLen: nat, n: nat, id: nat)
    requires id < n <= MAX_TASKS && KernelOk(k) && PAYLOAD_BASE + metaLen <= SLOT_BYTES
    ensures var before, all := Collect(k, metaLen, id), Collect(k, metaLen, n);
            && ((exists it :: it in all && it.task == id) <==> Taken(k, id, before, metaLen))
            && forall it :: it in all && it.task == id ==> Taken(k, id, before, metaLen) && it == ItemOf(k, id, before, metaLen)
  {
    hide Collect, Taken, ItemOf, ItemsOk, Room;
    CollectNext(k, metaLen, n - 1);
    var items := Collect(k, metaLen, n - 1);
    CollectOk(k, metaLen, n - 1);
    if Taken(k, n - 1, items, metaLen) {
      ItemOfTask(k, n - 1, items, metaLen);
      assert ItemOf(k, n - 1, items, metaLen) in items + [ItemOf(k, n - 1, items, metaLen)];
    }
    if id < n - 1 {
      InCollect(k, metaLen, n - 1, id);
      assert forall it :: it in items ==> it in Collect(k, metaLen, n);
    }
  }

  lemma TaskExactly(k: Kernel, metaLen: nat, id: nat)
    requires KernelOk(k) && PAYLOAD_BASE + metaLen <= SLOT_BYTES && id < MAX_TASKS
    ensures var all := Collect(k, metaLen, MAX_TASKS);
            && (Gathered(k, all, metaLen, id) <==> exists it :: it in all && it.task == id)
            && forall it :: it in all && it.task == id ==> GaveIt(k, all, metaLen, it)
  {
    hide Collect, Taken, ItemOf, Gathered, GaveIt, Room, Earlier;
    InCollect(k, metaLen, MAX_TASKS, id);
    EarlierIsBefore(k, metaLen, id, MAX_TASKS);
    TakenIsGathered(k, metaLen, id, Collect(k, metaLen, id), Collect(k, metaLen, MAX_TASKS));
  }

  /** A save gathers a task exactly when it is restorable, running and able to answer, fewer than eight were gathered
      before it, its bounds and the room left allow it, and its answer keeps to them; and then it takes the bytes the
      task's callback gave. */
  lemma CollectExactly(k: Kernel, metaLen: nat)
    requires KernelOk(k) && PAYLOAD_BASE + metaLen <= SLOT_BYTES
    ensures GatheredExactly(k, Collect(k, metaLen, MAX_TASKS), metaLen)
  {
    hide Collect, Gathered, GaveIt, ItemsOk, Room;
    var all := Collect(k, metaLen, MAX_TASKS);
    forall id | 0 <= id < MAX_TASKS
      ensures Gathered(k, all, metaLen, id) <==> exists it :: it in all && it.task == id
    {
      TaskExactly(k, metaLen, id);
    }
    CollectOk(k, metaLen, MAX_TASKS);
    forall it | it in all
      ensures GaveIt(k, all, metaLen, it)
    {
      var i :| 0 <= i < |all| && all[i] == it;
      TaskExactly(k, metaLen, it.task);
    }
  }

  /** Bitmap of the tasks saved. */
  function ActiveOf(items: seq<Item>): (flags: seq<bool>)
    requires forall i :: 0 <= i < |items| ==> items[i].task < MAX_TASKS
    ensures |flags| == MAX_TASKS
  {
    if items == [] then NoFlags(MAX_TASKS) else ActiveOf(items[..|items| - 1])[items[|items| - 1].task := true]
  }

  /** The bitmap marks exactly the tasks saved. */
  lemma {:induction false} ActiveExactly(items: seq<Item>, i: nat)
    requires i < MAX_TASKS && forall j :: 0 <= j < |items| ==> items[j].task < MAX_TASKS
    ensures ActiveOf(items)[i] <==> exists it :: it in items && it.task == i
  {
    if items != [] {
      var n := |items| - 1;
      ActiveExactly(items[..n], i);
      assert items == items[..n] + [items[n]];
    }
  }

  // Counting launches and exits

  datatype Tracking = Tracking(prev: seq<bool>, launches: seq<uint16>, exits: seq<uint16>) {
    predicate Sized() {
      |prev| == MAX_TASKS && |launches| == MAX_TASKS && |exits| == MAX_TASKS
    }
  }

  function NoCounts(): (c: seq<uint16>)
    ensures |c| == MAX_TASKS && forall i :: 0 <= i < MAX_TASKS ==> c[i] == 0
  {
    seq(MAX_TASKS, i => 0)
  }

  function Untracked(): (t: Tracking)
    ensures t.Sized()
  {
    Tracking(NoFlags(MAX_TASKS), NoCounts(), NoCounts())
  }

  function Bump(c: uint16, when: bool): uint16 {
    if when then (c + 1) % WRAP_16 else c
  }

  /** A save compares the running tasks with those of the previous one. */
  function Observe(t: Tracking, running: seq<bool>): (t': Tracking)
    requires t.Sized() && |running| == MAX_TASKS
    ensures t'.Sized()
  {
    Tracking(running,
             seq(MAX_TASKS, i requires 0 <= i < MAX_TASKS => Bump(t.launches[i], running[i] && !t.prev[i])),
             seq(MAX_TASKS, i requires 0 <= i < MAX_TASKS => Bump(t.exits[i], t.prev[i] && !running[i])))
  }

  /** Launches exceed exits by the running bit, up to 16-bit wrap-around. */
  predicate Balanced(launches: uint16, exits: uint16, running: bool) {
    (launches - exits - Bit(running)) % WRAP_16 == 0
  }

  predicate BalancedAt(t: Tracking, i: nat)
    requires t.Sized() && i < MAX_TASKS
  {
    Balanced(t.launches[i], t.exits[i], t.prev[i])
  }

  lemma BumpBalanced(l: uint16, e: uint16, was: bool, now: bool)
    requires Balanced(l, e, was)
    ensures Balanced(Bump(l, now && !was), Bump(e, was && !now), now)
  {
  }

  lemma ObserveBalanced(t: Tracking, running: seq<bool>, i: nat)
    requires t.Sized() && |running| == MAX_TASKS && i < MAX_TASKS && BalancedAt(t, i)
    ensures BalancedAt(Observe(t, running), i)
  {
    hide Balanced, Bump;
    BumpBalanced(t.launches[i], t.exits[i], t.prev[i], running[i]);
  }

  /** The running tasks as successive saves saw them. */
  function Observed(views: seq<seq<bool>>): (t: Tracking)
    requires forall v :: 0 <= v < |views| ==> |views[v]| == MAX_TASKS
    ensures t.Sized()
  {
    if views == [] then Untracked() else Observe(Observed(views[..|views| - 1]), views[|views| - 1])
  }

  /** How often id i changed from `before` to the opposite in these views, starting from not running. */
  function Changes(views: seq<seq<bool>>, i: nat, before: bool): nat
    requires i < MAX_TASKS && forall v :: 0 <= v < |views| ==> |views[v]| == MAX_TASKS
  {
    if views == [] then 0
    else
      var n := |views| - 1;
      var was := n > 0 && views[n - 1][i];
      Changes(views[..n], i, before) + if was == before && views[n][i] != before then 1 else 0
  }

  /** The launch counter counts the times the task was seen to appear and the exit counter those it was seen to go,
      modulo 2^16. */
  lemma {:induction false} CountersCount(views: seq<seq<bool>>, i: nat)
    requires i < MAX_TASKS && forall v :: 0 <= v < |views| ==> |views[v]| == MAX_TASKS
    ensures var t := Observed(views);
            && t.prev[i] == (views != [] && views[|views| - 1][i])
            && t.launches[i] == Changes(views, i, false) % WRAP_16 && t.exits[i] == Changes(views, i, true) % WRAP_16
  {
    hide Bump;
    if views != [] {
      var n := |views| - 1;
      CountersCount(views[..n], i);
      var was, now := n > 0 && views[n - 1][i], views[n][i];
      BumpCounts(Changes(views[..n], i, false), now && !was);
      BumpCounts(Changes(views[..n], i, true), was && !now);
    }
  }

  lemma BumpCounts(n: nat, when: bool)
    ensures Bump(n % WRAP_16, when) == (n + Bit(when)) % WRAP_16
  {
  }

  /** A balanced running task has more launches than exits exactly when its exit counter is not about to wrap. */
  lemma RunningMeansMoreLaunches(l: uint16, e: uint16)
    requires Balanced(l, e, true)
    ensures l > e <==> e != 0xFFFF
  {
  }

  /** The first eight restorable ids below n. */
  function Tracked(reg: Registry, n: nat): (ids: seq<uint8>)
    requires n <= MAX_TASKS
    ensures |ids| <= MAX_REGIONS && forall i :: 0 <= i < |ids| ==> ids[i] < n && Restorable(reg, ids[i])
    ensures forall i, j :: 0 <= i < j < |ids| ==> ids[i] < ids[j]
  {
    if n == 0 then []
    else
      var ids := Tracked(reg, n - 1);
      if |ids| < MAX_REGIONS && Restorable(reg, n - 1) then ids + [n - 1] else ids
  }

  /** How many restorable ids there are below n. */
  function RestorableBelow(reg: Registry, n: nat): nat
    requires n <= MAX_TASKS
  {
    if n == 0 then 0 else RestorableBelow(reg, n - 1) + if Restorable(reg, n - 1) then 1 else 0
  }

  /** An id is tracked exactly when it is restorable and fewer than eight restorable ids come before it. */
  lemma {:induction false} TrackedExactly(reg: Registry, n: nat, id: nat)
    requires id < n <= MAX_TASKS
    ensures id in Tracked(reg, n) <==> Restorable(reg, id) && RestorableBelow(reg, id) < 8
  {
    TrackedCount(reg, n - 1);
    if id < n - 1 {
      TrackedExactly(reg, n - 1, id);
    }
  }

  lemma {:induction false} TrackedCount(reg: Registry, n: nat)
    requires n <= MAX_TASKS
    ensures |Tracked(reg, n)| == Min(8, RestorableBelow(reg, n))
  {
    if n > 0 {
      TrackedCount(reg, n - 1);
    }
  }

  function LivesOf(t: Tracking, ids: seq<uint8>): (lives: seq<Life>)
    requires t.Sized() && forall i :: 0 <= i < |ids| ==> ids[i] < MAX_TASKS
    ensures |lives| == |ids|
  {
    seq(|ids|, i requires 0 <= i < |ids| => Life(ids[i], t.launches[ids[i]], t.exits[ids[i]]))
  }

  predicate Changed(t: Tracking, running: seq<bool>, ids: seq<uint8>)
    requires t.Sized() && |running| == MAX_TASKS && forall i :: 0 <= i < |ids| ==> ids[i] < MAX_TASKS
  {
    exists i :: 0 <= i < |ids| && t.prev[ids[i]] != running[ids[i]]
  }

  // The lifecycle filter

  /** A task's first entry decides; one without an entry is let through. */
  predicate LetThrough(lives: seq<Life>, task: nat) {
    lives == [] || (if lives[0].task == task then lives[0].launches > lives[0].exits else LetThrough(lives[1..], task))
  }

  function Lives(s: seq<uint8>, off: nat, n: nat): (lives: seq<Life>)
    requires off + MetaSize(n) <= |s|
    ensures |lives| == n
  {
    seq(n, j requires 0 <= j < n => LifeAt(s, off, j))
  }

  /** The metadata a load uses. In an accepted slot the sum of offset and length does not overflow. */
  function MetaOf(s: seq<uint8>): Option<seq<Life>>
    requires |s| >= HDR_BYTES
  {
    var off, len := MetaOff(s), MetaLen(s);
    if off + len <= |s| && MetaValid(s, off, len) then Some(Lives(s, off, MetaCount(s, off))) else None
  }

  predicate Passes(s: seq<uint8>, r: Region)
    requires |s| >= HDR_BYTES
  {
    MetaOf(s).Some? ==> LetThrough(MetaOf(s).value, TaskOf(r))
  }

  /** The regions a load applies, among the first n. */
  function Filtered(s: seq<uint8>, n: nat): seq<Region>
    requires |s| >= HDR_BYTES && HDR_BYTES + REGION_BYTES * n <= |s|
  {
    if n == 0 then []
    else Filtered(s, n - 1) + if Passes(s, RegionAt(s, n - 1)) then [RegionAt(s, n - 1)] else []
  }

  /** The items the filter lets through. */
  function Kept(items: seq<Item>, lives: seq<Life>): seq<Item> {
    if items == [] then []
    else
      var n := |items| - 1;
      Kept(items[..n], lives) + if LetThrough(lives, items[n].task) then [items[n]] else []
  }

  /** The regions describe these items. */
  predicate Describe(s: seq<uint8>, rs: seq<Region>, items: seq<Item>) {
    |rs| == |items| && forall i :: 0 <= i < |rs| ==>
      && TaskOf(rs[i]) == items[i].task && rs[i].version == items[i].version && rs[i].len == |items[i].blob|
      && rs[i].off + rs[i].len <= |s| && BlobOf(s, rs[i]) == items[i].blob
  }

  lemma MetaRead(s: seq<uint8>, sv: Save)
    requires Image(s, sv, COMMITTED)
    ensures |s| == SLOT_BYTES && MetaOf(s) == Some(sv.lives) && Count(s) == |sv.items|
    ensures HDR_BYTES + REGION_BYTES * |sv.items| <= |s| && sv.Valid()
  {
    ImageHeader(s, sv, COMMITTED);
    ImageBounds(s, sv, COMMITTED);
    ImageMeta(s, sv);
    hide Image, Load32, MetaValid, MetaCount, Save.MetaAt, LifeAt;
    assert Lives(s, sv.MetaAt(), |sv.lives|) == sv.lives;
  }

  lemma RegionDescribes(s: seq<uint8>, r: Region, it: Item)
    requires r.id == it.task && r.version == it.version && r.len == |it.blob| && r.off + |it.blob| <= |s|
    requires s[r.off..r.off + |it.blob|] == it.blob
    ensures Describe(s, [r], [it])
  {
  }

  lemma RegionOfImage(s: seq<uint8>, sv: Save, k: nat)
    requires Image(s, sv, COMMITTED) && k < |sv.items|
    ensures HDR_BYTES + REGION_BYTES * (k + 1) <= |s| && Describe(s, [RegionAt(s, k)], [sv.items[k]])
  {
    hide Image, RegionAt, OffsetOf, Save.MetaAt, Describe, Load32;
    ImageBounds(s, sv, COMMITTED);
    ImageRegion(s, sv, COMMITTED, k);
    RegionDescribes(s, RegionAt(s, k), sv.items[k]);
  }

  lemma {:induction false} FilteredIsKept(s: seq<uint8>, sv: Save, n: nat)
    requires Image(s, sv, COMMITTED) && n <= |sv.items|
    ensures HDR_BYTES + REGION_BYTES * n <= |s| && Describe(s, Filtered(s, n), Kept(sv.items[..n], sv.lives))
  {
    hide Image, RegionAt, BlobOf, TaskOf, MetaOf;
    MetaRead(s, sv);
    if n > 0 {
      FilteredIsKept(s, sv, n - 1);
      RegionOfImage(s, sv, n - 1);
      assert sv.items[..n][..n - 1] == sv.items[..n - 1];
      assert TaskOf([RegionAt(s, n - 1)][0]) == [sv.items[n - 1]][0].task;
      DescribeAppend(s, Filtered(s, n - 1), Kept(sv.items[..n - 1], sv.lives), RegionAt(s, n - 1), sv.items[n - 1]);
    }
  }

  lemma DescribeAppend(s: seq<uint8>, rs: seq<Region>, items: seq<Item>, r: Region, it: Item)
    requires Describe(s, rs, items) && Describe(s, [r], [it])
    ensures Describe(s, rs + [r], items + [it]) && Describe(s, rs + [], items + [])
  {
    hide BlobOf, TaskOf;
    assert [r][0] == r && [it][0] == it;
    assert rs + [] == rs && items + [] == items;
  }

  lemma {:induction false} KeptSubset(items: seq<Item>, lives: seq<Life>, i: nat)
    requires i < |Kept(items, lives)|
    ensures Kept(items, lives)[i] in items
  {
    if i < |Kept(items[..|items| - 1], lives)| {
      KeptSubset(items[..|items| - 1], lives, i);
    }
  }

  lemma KeptLast(items: seq<Item>, lives: seq<Life>)
    requires items != []
    ensures var n := |items| - 1;
            Kept(items, lives) == Kept(items[..n], lives) + if LetThrough(lives, items[n].task) then [items[n]] else []
  {
    hide LetThrough;
  }

  lemma KeptNone(lives: seq<Life>)
    ensures Kept([], lives) == []
  {
  }

  /** Nothing is dropped exactly when every item is let through. */
  lemma {:induction false} KeptAll(items: seq<Item>, lives: seq<Life>)
    ensures |Kept(items, lives)| <= |items|
    ensures Kept(items, lives) == items <==> forall i :: 0 <= i < |items| ==> LetThrough(lives, items[i].task)
  {
    hide Kept, LetThrough;
    if items == [] {
      KeptNone(lives);
    } else {
      var n := |items| - 1;
      var init := items[..n];
      KeptAll(init, lives);
      KeptLast(items, lives);
      assert items == init + [items[n]];
      assert forall i :: 0 <= i < n ==> init[i] == items[i];
      if Kept(items, lives) == items {
        assert Kept(items, lives)[..n] == Kept(init, lives);
      }
    }
  }

  /** The filter's answer, by place among the tracked ids. */
  lemma {:induction false} LetThroughAt(lives: seq<Life>, task: nat, i: nat)
    requires i < |lives| && lives[i].task == task && forall j :: 0 <= j < i ==> lives[j].task != task
    ensures LetThrough(lives, task) <==> lives[i].launches > lives[i].exits
  {
    if i > 0 {
      LetThroughAt(lives[1..], task, i - 1);
    }
  }

  lemma {:induction false} LetThroughAbsent(lives: seq<Life>, task: nat)
    requires forall j :: 0 <= j < |lives| ==> lives[j].task != task
    ensures LetThrough(lives, task)
  {
    if lives != [] {
      LetThroughAbsent(lives[1..], task);
    }
  }

  // A save as the loader will see it

  /** What every save of a balanced tracker satisfies. */
  predicate SaveOk(reg: Registry, sv: Save) {
    var ids, running := Tracked(reg, MAX_TASKS), FlagsOf(sv.running, MAX_TASKS);
    && |sv.lives| == |ids| && ItemsOk(reg, running, sv.items)
    && forall i :: 0 <= i < |ids| ==>
         sv.lives[i].task == ids[i] && Balanced(sv.lives[i].launches, sv.lives[i].exits, running[ids[i]])
  }

  /** The exit counter of a tracked item is about to wrap. */
  predicate AboutToWrap(lives: seq<Life>, task: nat) {
    exists i :: 0 <= i < |lives| && lives[i].task == task && lives[i].exits == 0xFFFF
  }

  /** A saved item passes the filter exactly when its exit counter is not about to wrap. */
  lemma ItemLetThrough(reg: Registry, sv: Save, k: nat)
    requires SaveOk(reg, sv) && k < |sv.items|
    ensures LetThrough(sv.lives, sv.items[k].task) <==> !AboutToWrap(sv.lives, sv.items[k].task)
  {
    hide LetThrough, Tracked, FlagsOf, Balanced;
    var task, ids := sv.items[k].task, Tracked(reg, MAX_TASKS);
    assert ItemOk(reg, FlagsOf(sv.running, MAX_TASKS), sv.items[k]);
    if i :| 0 <= i < |ids| && sv.lives[i].task == task {
      assert forall j :: 0 <= j < |ids| && j != i ==> sv.lives[j].task != task by {
        assert forall j :: 0 <= j < |ids| ==> sv.lives[j].task == ids[j];
      }
      LetThroughAt(sv.lives, task, i);
      RunningMeansMoreLaunches(sv.lives[i].launches, sv.lives[i].exits);
    } else {
      LetThroughAbsent(sv.lives, task);
    }
  }

  function CallsFor(items: seq<Item>): seq<Call> {
    seq(|items|, i requires 0 <= i < |items| => Call(items[i].task, items[i].blob))
  }

  function Loaded(env: Env, s: seq<uint8>): Progress
    requires |s| >= HDR_BYTES && DirEnd(s) <= |s|
  {
    Walk(env, s, Filtered(s, Count(s)))
  }

  /** Regions that describe good items reach their tasks. */
  lemma DescribedReach(env: Env, s: seq<uint8>, running: seq<bool>, rs: seq<Region>, items: seq<Item>)
    requires WellFormed(env.reg) && |running| == MAX_TASKS && Describe(s, rs, items)
    requires forall i :: 0 <= i < |items| ==> ItemOk(env.reg, running, items[i]) && env.register(items[i].task)
    ensures Walk(env, s, rs).calls == CallsFor(items)
    ensures Walk(env, s, rs).failed == 0 <==> forall i :: 0 <= i < |items| ==> env.restore(items[i].task, items[i].blob)
  {
    hide TaskOf, BlobOf, Walk;
    forall i | 0 <= i < |rs|
      ensures Reaches(env, s, rs, i)
    {
      assert ItemOk(env.reg, running, items[i]);
    }
    WalkAll(env, s, rs);
  }

  /** A load of a saved slot calls each task that is let through exactly once, in order, with the saved bytes;
      every saved task is called exactly when no exit counter is about to wrap. */
  lemma LoadRestores(env: Env, s: seq<uint8>, sv: Save)
    requires WellFormed(env.reg) && Image(s, sv, COMMITTED) && SaveOk(env.reg, sv)
    requires forall i :: 0 <= i < |sv.items| ==> env.register(sv.items[i].task)
    ensures |s| >= HDR_BYTES && DirEnd(s) <= |s|
    ensures Loaded(env, s).calls == CallsFor(Kept(sv.items, sv.lives))
    ensures Kept(sv.items, sv.lives) == sv.items
            <==> forall k :: 0 <= k < |sv.items| ==> !AboutToWrap(sv.lives, sv.items[k].task)
    ensures Loaded(env, s).failed == 0
            <==> forall it :: it in Kept(sv.items, sv.lives) ==> env.restore(it.task, it.blob)
  {
    hide Image, Walk, Filtered, LetThrough, AboutToWrap, Describe, Tracked, FlagsOf, Kept, Load32, ItemOk;
    MetaRead(s, sv);
    FilteredIsKept(s, sv, |sv.items|);
    assert sv.items[..|sv.items|] == sv.items;
    var kept, running := Kept(sv.items, sv.lives), FlagsOf(sv.running, MAX_TASKS);
    forall i | 0 <= i < |kept|
      ensures ItemOk(env.reg, running, kept[i]) && env.register(kept[i].task)
    {
      KeptSubset(sv.items, sv.lives, i);
    }
    DescribedReach(env, s, running, Filtered(s, Count(s)), kept);
    AllKeptExactly(env.reg, sv);
  }

  lemma AllKeptExactly(reg: Registry, sv: Save)
    requires SaveOk(reg, sv)
    ensures Kept(sv.items, sv.lives) == sv.items
            <==> forall k :: 0 <= k < |sv.items| ==> !AboutToWrap(sv.lives, sv.items[k].task)
  {
    hide SaveOk, Kept, LetThrough, AboutToWrap;
    KeptAll(sv.items, sv.lives);
    forall k | 0 <= k < |sv.items|
      ensures LetThrough(sv.lives, sv.items[k].task) <==> !AboutToWrap(sv.lives, sv.items[k].task)
    {
      ItemLetThrough(reg, sv, k);
    }
  }

  // An exit counter about to wrap

  /** Task 0 alone is restorable. */
  function OneTask(): (reg: Registry)
    ensures forall i :: 0 <= i < REGISTRY_SIZE ==> (Restorable(reg, i) <==> i == 0)
    ensures WellFormed(reg) && reg[0] == Some(Descriptor(RestorableNow, 1, 0, 0, true, true))
  {
    seq(REGISTRY_SIZE, i => if i == 0 then Some(Descriptor(RestorableNow, 1, 0, 0, true, true)) else None)
  }

  lemma {:induction false} OneTracked(n: nat)
    requires 1 <= n <= MAX_TASKS
    ensures Tracked(OneTask(), n) == [0]
  {
    hide OneTask;
    if n == 1 {
      assert Tracked(OneTask(), 0) == [];
    } else {
      OneTracked(n - 1);
    }
  }

  /** Task 0 runs for the 65536th time: 65535 exits and, the counter having wrapped, no launches. */
  function WrappedSave(seqNo: uint32, tick: uint32, slot: uint8): Save {
    Save(seqNo, tick, slot, 1, [Item(0, 1, [])], 1, [Life(0, 0, 0xFFFF)])
  }

  lemma WrappedSaveOk(sv: Save)
    requires sv.items == [Item(0, 1, [])] && sv.running == 1 && sv.lives == [Life(0, 0, 0xFFFF)]
    ensures SaveOk(OneTask(), sv) && FlagsOf(sv.running, MAX_TASKS)[0]
  {
    hide OneTask, Tracked;
    OneTracked(MAX_TASKS);
    assert FlagsOf(1, MAX_TASKS)[0];
    assert ItemOk(OneTask(), FlagsOf(1, MAX_TASKS), sv.items[0]);
  }

  /** The case that fails: a running task was saved, and the load drops it. */
  lemma WrappedCounterDropsTask(seqNo: uint32, tick: uint32, slot: uint8)
    ensures var sv := WrappedSave(seqNo, tick, slot);
            && SaveOk(OneTask(), sv) && FlagsOf(sv.running, MAX_TASKS)[0] && AboutToWrap(sv.lives, 0)
            && Kept(sv.items, sv.lives) == [] != sv.items
  {
    hide SaveOk, FlagsOf;
    var sv := WrappedSave(seqNo, tick, slot);
    WrappedSaveOk(sv);
    assert sv.lives[0].exits == 0xFFFF;
    KeptLast(sv.items, sv.lives);
    KeptNone(sv.lives);
    assert sv.items[..0] == [];
  }
}
