/**
 The scheduler code: ring-buffer event queues in per-task storage, registration, posting, and the run loop's body.
 Every method is proved to perform the matching step of the Scheduling machine.
 */
module Scheduler {
  import opened Words
  import opened Tasks
  import opened Scheduling
  import opened Rings

  datatype QueueRc = QueueOk | QueueParam | QueueFull | QueueEmpty

  class EventQueue {
    var buf: array<Event>
    var head: nat
    var tail: nat
    var count: nat
    var highWatermark: nat
    var dropped: uint32

    ghost predicate Valid()
      reads this
    {
      && count <= buf.Length
      && if buf.Length == 0 then head == 0 && tail == 0
         else head < buf.Length && tail < buf.Length && head == RingSlot(tail, count, buf.Length)
    }

    /** The queued events, oldest first. */
    ghost function Contents(): (s: seq<Event>)
      requires Valid()
      reads this, buf
      ensures |s| == count
    {
      Window(buf[..], tail, count)
    }

    constructor ()
      ensures Valid() && Contents() == [] && fresh(buf) && buf.Length == 0
    {
      buf := new Event[0];
      head, tail, count, highWatermark, dropped := 0, 0, 0, 0, 0;
    }

    method Init(capacity: nat)
      modifies this
      ensures Valid() && Contents() == [] && fresh(buf) && buf.Length == capacity
    {
      buf := new Event[capacity];
      head, tail, count, highWatermark, dropped := 0, 0, 0, 0, 0;
    }

    /** Append unless full; a refused event is counted as dropped and changes nothing else. */
    method Push(e: Event) returns (rc: QueueRc)
      requires Valid()
      modifies this`head, this`count, this`highWatermark, this`dropped, buf
      ensures Valid()
      ensures rc == if buf.Length == 0 then QueueParam else if old(count) >= buf.Length then QueueFull else QueueOk
      ensures Contents() == if rc == QueueOk then old(Contents()) + [e] else old(Contents())
      ensures dropped == if rc == QueueFull then (old(dropped) + 1) % TWO_32 else old(dropped)
    {
      if buf.Length == 0 {
        return QueueParam;
      }
      if count >= buf.Length {
        dropped := (dropped + 1) % TWO_32;
        return QueueFull;
      }
      ghost var was := buf[..];
      buf[head] := e;
      WindowPush(was, tail, count, e);
      assert buf[..] == was[head := e];
      Increment(head, buf.Length);
      head := (head + 1) % buf.Length;
      count := count + 1;
      if count > highWatermark {
        highWatermark := count;
      }
      rc := QueueOk;
    }

    /** Remove the oldest event. */
    method Pop() returns (rc: QueueRc, e: Event)
      requires Valid()
      modifies this`tail, this`count
      ensures Valid()
      ensures rc == if buf.Length == 0 then QueueParam else if old(count) == 0 then QueueEmpty else QueueOk
      ensures rc == QueueOk ==> old(Contents()) == [e] + Contents()
      ensures rc != QueueOk ==> Contents() == old(Contents()) == []
    {
      e := Event(0, 0, 0, 0, 0);
      if buf.Length == 0 {
        return QueueParam, e;
      }
      if count == 0 {
        return QueueEmpty, e;
      }
      WindowPop(buf[..], tail, count);
      Increment(tail, buf.Length);
      e := buf[tail];
      tail := (tail + 1) % buf.Length;
      count := count - 1;
      rc := QueueOk;
    }

    method Drain()
      requires Valid()
      modifies this`head, this`tail, this`count
      ensures Valid() && Contents() == []
    {
      head, tail, count := 0, 0, 0;
    }
  }

  class Core {
    /** Static storage, one queue per id. */
    const queues: seq<EventQueue>
    var registered: seq<bool>
    var prio: seq<nat>
    var accepting: seq<bool>
    var ready: seq<bool>
    var cursor: seq<nat>

    ghost predicate Valid()
      reads this, queues
    {
      && StorageValid() && |ready| == MAX_TASKS && |cursor| == MAX_TASKS
      && (forall p :: 0 <= p < MAX_TASKS ==> cursor[p] < MAX_TASKS)
    }

    /** The tasks and their queues, which share no storage; an unregistered id has an empty queue. */
    ghost predicate StorageValid()
      reads this`registered, this`prio, this`accepting, queues
    {
      && |queues| == MAX_TASKS && |registered| == MAX_TASKS && |prio| == MAX_TASKS && |accepting| == MAX_TASKS
      && (forall i :: 0 <= i < MAX_TASKS ==> queues[i].Valid())
      && (forall i :: 0 <= i < MAX_TASKS && registered[i] ==> prio[i] < MAX_TASKS && queues[i].buf.Length > 0)
      && (forall i :: 0 <= i < MAX_TASKS && !registered[i] ==> queues[i].count == 0)
      && (forall i, j :: 0 <= i < j < MAX_TASKS ==> queues[i] != queues[j] && queues[i].buf != queues[j].buf)
    }

    ghost function TaskAt(i: nat): (t: Option<Task>)
      requires StorageValid() && i < MAX_TASKS
      reads this`registered, this`prio, this`accepting, queues, set q | q in queues :: q.buf
      ensures t.Some? ==> t.value.prio < MAX_TASKS
    {
      if registered[i] then Some(Task(prio[i], accepting[i], queues[i].buf.Length, queues[i].Contents())) else None
    }

    ghost function TableTo(n: nat): (t: seq<Option<Task>>)
      requires StorageValid() && n <= MAX_TASKS
      reads this`registered, this`prio, this`accepting, queues, set q | q in queues :: q.buf
      ensures |t| == n && forall i :: 0 <= i < n ==> t[i] == TaskAt(i)
    {
      if n == 0 then [] else TableTo(n - 1) + [TaskAt(n - 1)]
    }

    /** The abstract scheduler state. */
    ghost function State(): (s: Sched)
      requires Valid()
      reads this, queues, set q | q in queues :: q.buf
      ensures s.Sized() && s == Sched(TableTo(MAX_TASKS), ready, cursor)
    {
      Sched(TableTo(MAX_TASKS), ready, cursor)
    }

    constructor ()
      ensures Valid() && State() == Initial() && fresh(queues) && forall q :: q in queues ==> fresh(q.buf)
    {
      var qs: seq<EventQueue> := [];
      for i := 0 to MAX_TASKS
        invariant |qs| == i && fresh(qs) && forall q :: q in qs ==> fresh(q.buf)
        invariant forall j :: 0 <= j < i ==> qs[j].Valid() && qs[j].count == 0
        invariant forall j, k :: 0 <= j < k < i ==> qs[j] != qs[k] && qs[j].buf != qs[k].buf
      {
        var q := new EventQueue();
        qs := qs + [q];
      }
      queues := qs;
      registered, accepting, ready := NoFlags(MAX_TASKS), NoFlags(MAX_TASKS), NoFlags(MAX_TASKS);
      prio, cursor := seq(MAX_TASKS, i => 0), seq(MAX_TASKS, i => 0);
    }

    method RegisterTask(spec: Spec) returns (rc: Rc)
      requires Valid()
      modifies this`registered, this`prio, this`accepting, queues
      ensures Valid() && rc == Answer(old(State()), Register(spec)) && State() == Do(old(State()), Register(spec))
      ensures forall i :: 0 <= i < MAX_TASKS ==> queues[i].buf == old(queues[i].buf) || fresh(queues[i].buf)
      ensures rc == Ok <==> spec.complete && spec.id < 32 && spec.prio < 32 && spec.capacity > 0
                            && old(State()).table[spec.id] == None
      ensures rc == Ok ==> TaskAt(spec.id) == Some(Task(spec.prio, true, spec.capacity, []))
                           && (forall i :: 0 <= i < MAX_TASKS && i != spec.id ==> TaskAt(i) == old(TaskAt(i)))
                           && ready == old(ready) && cursor == old(cursor)
      ensures rc != Ok ==> State() == old(State())
    {
      hide EventQueue.Valid, EventQueue.Contents, Core.TableTo;
      if !spec.complete || spec.id >= MAX_TASKS || spec.prio >= MAX_TASKS || spec.capacity == 0 {
        return ErrParam;
      }
      if registered[spec.id] {
        return ErrExists;
      }
      queues[spec.id].Init(spec.capacity);
      prio := prio[spec.id := spec.prio];
      accepting := accepting[spec.id := true];
      registered := registered[spec.id := true];
      rc := Ok;
      SameButOne(old(State()), State(), spec.id);
      assert State().table == old(State()).table[spec.id := Some(Task(spec.prio, true, spec.capacity, []))];
    }

    method Forget(id: nat)
      requires StorageValid() && id < MAX_TASKS && queues[id].count == 0
      modifies this`registered, this`accepting
      ensures StorageValid() && TableTo(MAX_TASKS) == old(TableTo(MAX_TASKS))[id := None]
    {
      hide EventQueue.Valid, EventQueue.Contents, Core.TableTo;
      accepting := accepting[id := false];
      registered := registered[id := false];
      assert forall i :: 0 <= i < MAX_TASKS && i != id ==> TaskAt(i) == old(TaskAt(i));
    }

    method UnregisterTask(id: uint8) returns (rc: Rc)
      requires Valid()
      modifies this`registered, this`accepting, this`ready, queues
      ensures Valid() && rc == Answer(old(State()), Unregister(id)) && State() == Do(old(State()), Unregister(id))
      ensures forall i :: 0 <= i < MAX_TASKS ==> queues[i].buf == old(queues[i].buf)
    {
      hide EventQueue.Valid, EventQueue.Contents, Core.TableTo;
      if id >= MAX_TASKS {
        return ErrParam;
      }
      if !registered[id] {
        return ErrNotFound;
      }
      DrainAt(id);
      Forget(id);
      ready := ready[id := false];
      rc := Ok;
    }

    /** Append to one queue and leave the others alone. */
    method PushAt(id: nat, e: Event) returns (ok: bool)
      requires StorageValid() && id < MAX_TASKS && registered[id]
      modifies queues, set q | q in queues :: q.buf
      ensures StorageValid() && forall i :: 0 <= i < MAX_TASKS ==> queues[i].buf == old(queues[i].buf)
      ensures var t := old(TaskAt(id)).value;
              && ok == (|t.queue| < t.cap)
              && TableTo(MAX_TASKS)
                 == old(TableTo(MAX_TASKS))[id := Some(t.(queue := if ok then t.queue + [e] else t.queue))]
    {
      hide EventQueue.Valid, EventQueue.Contents, Core.TableTo;
      var rc := queues[id].Push(e);
      ok := rc == QueueOk;
      assert forall i :: 0 <= i < MAX_TASKS && i != id ==> TaskAt(i) == old(TaskAt(i));
    }

    /** Take the oldest event of one queue and leave the others alone. */
    method PopAt(id: nat) returns (ok: bool, e: Event)
      requires StorageValid() && id < MAX_TASKS && registered[id]
      modifies queues
      ensures StorageValid() && forall i :: 0 <= i < MAX_TASKS ==> queues[i].buf == old(queues[i].buf)
      ensures var t := old(TaskAt(id)).value;
              && ok == (t.queue != []) && (ok ==> e == t.queue[0])
              && TableTo(MAX_TASKS)
                 == old(TableTo(MAX_TASKS))[id := Some(t.(queue := if ok then t.queue[1..] else []))]
    {
      hide EventQueue.Valid, EventQueue.Contents, Core.TableTo;
      var rc;
      rc, e := queues[id].Pop();
      ok := rc == QueueOk;
      assert forall i :: 0 <= i < MAX_TASKS && i != id ==> TaskAt(i) == old(TaskAt(i));
    }

    method DrainAt(id: nat)
      requires StorageValid() && id < MAX_TASKS
      modifies queues
      ensures StorageValid() && forall i :: 0 <= i < MAX_TASKS ==> queues[i].buf == old(queues[i].buf)
      ensures queues[id].count == 0
      ensures TableTo(MAX_TASKS) == old(TableTo(MAX_TASKS))[id := Drained(old(TableTo(MAX_TASKS))[id])]
    {
      hide EventQueue.Valid, EventQueue.Contents, Core.TableTo;
      queues[id].Drain();
      assert forall i :: 0 <= i < MAX_TASKS && i != id ==> TaskAt(i) == old(TaskAt(i));
    }

    /** Post an event: the queue append and the ready flag are one atomic step. */
    method PostEvent(id: uint8, e: Event) returns (rc: Rc)
      requires Valid()
      modifies this`ready, queues, set q | q in queues :: q.buf
      ensures Valid() && rc == Answer(old(State()), Post(id, e)) && State() == Do(old(State()), Post(id, e))
      ensures forall i :: 0 <= i < MAX_TASKS ==> queues[i].buf == old(queues[i].buf)
    {
      hide EventQueue.Valid, EventQueue.Contents, Core.TableTo;
      if id >= MAX_TASKS {
        return ErrParam;
      }
      if !registered[id] {
        return ErrNotFound;
      }
      if !accepting[id] {
        return ErrDisabled;
      }
      var ok := PushAt(id, e);
      if !ok {
        assert State().table == old(State()).table;
        return ErrQueueFull;
      }
      ready := ready[id := true];
      rc := Ok;
    }

    method PauseAccept(id: uint8) returns (rc: Rc)
      requires Valid()
      modifies this`accepting
      ensures Valid() && rc == Answer(old(State()), Pause(id)) && State() == Do(old(State()), Pause(id))
    {
      hide EventQueue.Valid, EventQueue.Contents, Core.TableTo;
      if id >= MAX_TASKS {
        return ErrParam;
      }
      if !registered[id] {
        return ErrNotFound;
      }
      accepting := accepting[id := false];
      rc := Ok;
      SameButOne(old(State()), State(), id);
    }

    method ResumeAccept(id: uint8) returns (rc: Rc)
      requires Valid()
      modifies this`accepting
      ensures Valid() && rc == Answer(old(State()), Resume(id)) && State() == Do(old(State()), Resume(id))
    {
      hide EventQueue.Valid, EventQueue.Contents, Core.TableTo;
      if id >= MAX_TASKS {
        return ErrParam;
      }
      if !registered[id] {
        return ErrNotFound;
      }
      accepting := accepting[id := true];
      rc := Ok;
      SameButOne(old(State()), State(), id);
    }

    method FlushQueues()
      requires Valid()
      modifies this`ready, queues
      ensures Valid() && State() == Do(old(State()), FlushAll)
      ensures forall i :: 0 <= i < MAX_TASKS ==> queues[i].buf == old(queues[i].buf)
    {
      hide EventQueue.Valid, EventQueue.Contents, Core.TableTo, Core.StorageValid, Core.TaskAt;
      StorageSized();
      for k := 0 to MAX_TASKS
        invariant StorageValid() && forall i :: 0 <= i < MAX_TASKS ==> queues[i].buf == old(queues[i].buf)
        invariant forall i :: 0 <= i < MAX_TASKS ==>
                    TableTo(MAX_TASKS)[i] == if i < k then Drained(old(TableTo(MAX_TASKS))[i]) else old(TableTo(MAX_TASKS))[i]
      {
        TableKnows(k);
        if registered[k] {
          DrainAt(k);
        }
      }
      ready := NoFlags(MAX_TASKS);
      assert TableTo(MAX_TASKS) == Do(old(State()), FlushAll).table;
    }

    /** One operation made by a dispatch function or an interrupt. */
    method Perform(op: Op) returns (rc: Rc)
      requires Valid()
      modifies this`registered, this`prio, this`accepting, this`ready, queues, set q | q in queues :: q.buf
      ensures Valid() && rc == Answer(old(State()), op) && State() == Do(old(State()), op)
      ensures forall i :: 0 <= i < MAX_TASKS ==> queues[i].buf == old(queues[i].buf) || fresh(queues[i].buf)
    {
      hide Do;
      rc := Ok;
      match op {
        case Register(spec) => rc := RegisterTask(spec);
        case Unregister(id) => rc := UnregisterTask(id);
        case Post(id, e) => rc := PostEvent(id, e);
        case Pause(id) => rc := PauseAccept(id);
        case Resume(id) => rc := ResumeAccept(id);
        case FlushAll => FlushQueues();
      }
    }

    method PerformAll(ops: seq<Op>)
      requires Valid()
      modifies this`registered, this`prio, this`accepting, this`ready, queues, set q | q in queues :: q.buf
      ensures Valid() && State() == DoAll(old(State()), ops)
      ensures forall i :: 0 <= i < MAX_TASKS ==> queues[i].buf == old(queues[i].buf) || fresh(queues[i].buf)
    {
      hide Do;
      for i := 0 to |ops|
        invariant Valid() && State() == DoAll(old(State()), ops[..i])
        invariant forall i :: 0 <= i < MAX_TASKS ==> queues[i].buf == old(queues[i].buf) || fresh(queues[i].buf)
      {
        assert ops[..i + 1][..i] == ops[..i];
        var rc := Perform(ops[i]);
      }
      assert ops[..|ops|] == ops;
    }

    method HighestReadyPrio() returns (best: int)
      requires Valid()
      ensures best == TopPrio(State(), MAX_TASKS)
    {
      hide EventQueue.Valid, EventQueue.Contents, Core.TableTo;
      best := -1;
      for id := 0 to MAX_TASKS
        invariant best == TopPrio(State(), id)
      {
        assert State().table[id] == TaskAt(id);
        if !ready[id] || !registered[id] {
          continue;
        }
        if prio[id] > best {
          best := prio[id];
        }
      }
    }

    /** Search round-robin from the cursor. */
    method FindReady(p: nat) returns (i: nat)
      requires Valid() && p < MAX_TASKS
      ensures i == FirstFrom(State(), p, 0)
    {
      hide EventQueue.Valid, EventQueue.Contents, Core.TableTo, FirstFrom;
      ghost var s := State();
      i := 0;
      while i < MAX_TASKS
        invariant i <= MAX_TASKS && forall j :: 0 <= j < i ==> !Candidate(s, Around(s.cursor[p], j), p)
      {
        var y := (cursor[p] + 1 + i) % MAX_TASKS;
        assert s.table[y] == TaskAt(y) && y == Around(s.cursor[p], i);
        if registered[y] && prio[y] == p && ready[y] {
          return;
        }
        i := i + 1;
      }
    }

    /** Choose the next task and move its priority's cursor to it. */
    method Choose() returns (id: Option<nat>)
      requires Valid()
      modifies this`cursor
      ensures Valid() && id == Pick(old(State())) && (id.Some? ==> Ready(old(State()), id.value))
      ensures State() == old(State()).(cursor := Moved(old(State()), id))
    {
      hide TopPrio, FirstFrom, Around, Core.TableTo, Core.StorageValid, Core.TaskAt;
      PickIsNearestTop(State());
      var p := HighestReadyPrio();
      if p < 0 {
        return None;
      }
      var i := FindReady(p);
      if i == MAX_TASKS {
        return None;
      }
      var y := Around(cursor[p], i);
      cursor := cursor[p := y];
      id := Some(y);
    }

    method ClearIfEmpty(y: nat)
      requires Valid() && y < MAX_TASKS
      modifies this`ready
      ensures Valid() && State() == Finish(old(State()), y)
    {
      hide EventQueue.Valid, EventQueue.Contents, Core.TableTo;
      assert State().table[y] == TaskAt(y);
      if queues[y].count == 0 {
        ready := ready[y := false];
      }
    }

    /** One pass of the run loop; the dispatch of the picked task performs ops. */
    method RunOnce(ops: seq<Op>) returns (dispatched: Option<nat>)
      requires Valid()
      modifies this`registered, this`prio, this`accepting, this`ready, this`cursor, queues, set q | q in queues :: q.buf
      ensures Valid() && State() == Iterate(old(State()), ops) && dispatched == Pick(old(State()))
      ensures forall i :: 0 <= i < MAX_TASKS ==> queues[i].buf == old(queues[i].buf) || fresh(queues[i].buf)
    {
      hide DoAll, Pick, Core.StorageValid, Core.TableTo, Core.TaskAt;
      StorageSized();
      dispatched := Choose();
      if dispatched == None {
        return;
      }
      var y := dispatched.value;
      Known(y);
      var ok, e := PopAt(y);
      assert State() == Begin(old(State()), y);
      if ok {
        PerformAll(ops);
      }
      ClearIfEmpty(y);
    }

    lemma Known(i: nat)
      requires Valid() && i < MAX_TASKS
      ensures |registered| == MAX_TASKS && StorageValid() && State().table[i] == TaskAt(i)
      ensures registered[i] <==> State().table[i].Some?
    {
    }

    lemma TableKnows(i: nat)
      requires StorageValid() && i < MAX_TASKS
      ensures |registered| == MAX_TASKS && (registered[i] <==> TableTo(MAX_TASKS)[i].Some?)
    {
    }

    lemma StorageSized()
      requires StorageValid()
      ensures |queues| == MAX_TASKS == |registered|
    {
    }
  }

  function Moved(s: Sched, id: Option<nat>): seq<nat>
    requires s.Sized() && (id.Some? ==> id.value < MAX_TASKS && Ready(s, id.value))
  {
    if id == None then s.cursor else s.cursor[s.table[id.value].value.prio := id.value]
  }

  lemma SameButOne(s: Sched, s': Sched, id: nat)
    requires s.Sized() && s'.Sized() && id < MAX_TASKS
    requires forall i :: 0 <= i < MAX_TASKS && i != id ==> s'.table[i] == s.table[i]
    ensures s'.table == s.table[id := s'.table[id]]
  {
  }
}
