/**
 The scheduler as a state machine: a table of tasks with event queues, a ready flag per task and a round-robin
 cursor per priority. A dispatch is an arbitrary list of operations; between iterations anything may happen.
 */
module Scheduling {
  import opened Words
  import opened Tasks

  datatype Event = Event(sig: uint16, src: uint16, arg0: uint32, arg1: uint32, tick: uint32)

  datatype Task = Task(prio: nat, accepting: bool, cap: nat, queue: seq<Event>)

  datatype Sched = Sched(table: seq<Option<Task>>, ready: seq<bool>, cursor: seq<nat>) {
    predicate Sized() {
      && |table| == MAX_TASKS && |ready| == MAX_TASKS && |cursor| == MAX_TASKS
      && (forall p :: 0 <= p < MAX_TASKS ==> cursor[p] < MAX_TASKS)
      && (forall i :: 0 <= i < MAX_TASKS && table[i].Some? ==> table[i].value.prio < MAX_TASKS)
    }
  }

  /** A task specification; `complete` when dispatch function, context and queue storage are all given. */
  datatype Spec = Spec(id: uint8, prio: uint8, capacity: uint16, complete: bool)

  datatype Op =
    | Register(spec: Spec)
    | Unregister(id: uint8)
    | Post(id: uint8, e: Event)
    | Pause(id: uint8)
    | Resume(id: uint8)
    | FlushAll

  datatype Rc = Ok | ErrParam | ErrExists | ErrNotFound | ErrQueueFull | ErrDisabled

  function Answer(s: Sched, op: Op): Rc
    requires s.Sized()
  {
    match op
    case Register(spec) =>
      if !spec.complete || spec.id >= MAX_TASKS || spec.prio >= MAX_TASKS || spec.capacity == 0 then ErrParam
      else if s.table[spec.id].Some? then ErrExists else Ok
    case Post(id, e) =>
      if id >= MAX_TASKS then ErrParam
      else if s.table[id].None? then ErrNotFound
      else
        var t := s.table[id].value;
        if !t.accepting then ErrDisabled else if |t.queue| >= t.cap then ErrQueueFull else Ok
    case FlushAll => Ok
    case _ => if op.id >= MAX_TASKS then ErrParam else if s.table[op.id].None? then ErrNotFound else Ok
  }

  function Drained(t: Option<Task>): Option<Task> {
    if t.Some? then Some(t.value.(queue := [])) else None
  }

  /** The state after an operation; a refused one changes nothing. */
  function Do(s: Sched, op: Op): (s': Sched)
    requires s.Sized()
    ensures s'.Sized()
  {
    if Answer(s, op) != Ok then s
    else match op
      case Register(spec) => s.(table := s.table[spec.id := Some(Task(spec.prio, true, spec.capacity, []))])
      case Unregister(id) => s.(table := s.table[id := None], ready := s.ready[id := false])
      case Post(id, e) =>
        var t := s.table[id].value;
        s.(table := s.table[id := Some(t.(queue := t.queue + [e]))], ready := s.ready[id := true])
      case Pause(id) => s.(table := s.table[id := Some(s.table[id].value.(accepting := false))])
      case Resume(id) => s.(table := s.table[id := Some(s.table[id].value.(accepting := true))])
      case FlushAll =>
        s.(table := seq(MAX_TASKS, i requires 0 <= i < MAX_TASKS => Drained(s.table[i])), ready := NoFlags(MAX_TASKS))
  }

  function DoAll(s: Sched, ops: seq<Op>): (s': Sched)
    requires s.Sized()
    ensures s'.Sized()
  {
    if ops == [] then s else Do(DoAll(s, ops[..|ops| - 1]), ops[|ops| - 1])
  }

  // Choosing a task

  predicate Ready(s: Sched, i: nat)
    requires s.Sized() && i < MAX_TASKS
  {
    s.ready[i] && s.table[i].Some?
  }

  predicate Candidate(s: Sched, i: nat, p: nat)
    requires s.Sized() && i < MAX_TASKS
  {
    Ready(s, i) && s.table[i].value.prio == p
  }

  /** Highest priority among the ready tasks below n, or -1. */
  function TopPrio(s: Sched, n: nat): (p: int)
    requires s.Sized() && n <= MAX_TASKS
    ensures -1 <= p < MAX_TASKS
    ensures forall i :: 0 <= i < n && Ready(s, i) ==> s.table[i].value.prio <= p
    ensures p >= 0 ==> exists i :: 0 <= i < n && Candidate(s, i, p)
  {
    if n == 0 then -1
    else
      var best := TopPrio(s, n - 1);
      if Ready(s, n - 1) && s.table[n - 1].value.prio > best then
        assert Candidate(s, n - 1, s.table[n - 1].value.prio);
        s.table[n - 1].value.prio
      else best
  }

  /** The id reached after i steps from the cursor. */
  function Around(c: nat, i: nat): (id: nat)
    ensures id < MAX_TASKS
  {
    (c + 1 + i) % MAX_TASKS
  }

  /** Steps from the cursor to x, going round: (x - c - 1) mod 32. */
  function Distance(c: nat, x: nat): nat
    requires c < MAX_TASKS && x < MAX_TASKS
  {
    if x > c then x - c - 1 else x + MAX_TASKS - c - 1
  }

  lemma DistanceAround(c: nat, i: nat)
    requires c < MAX_TASKS && i < MAX_TASKS
    ensures Distance(c, Around(c, i)) == i
  {
    if c + 1 + i >= MAX_TASKS {
      assert (c + 1 + i) % MAX_TASKS == c + 1 + i - MAX_TASKS;
    }
  }

  lemma AroundDistance(c: nat, x: nat)
    requires c < MAX_TASKS && x < MAX_TASKS
    ensures Around(c, Distance(c, x)) == x && Distance(c, x) < MAX_TASKS
  {
  }

  /** Steps to the first candidate at or after step i, or 32. */
  function FirstFrom(s: Sched, p: nat, i: nat): (k: nat)
    requires s.Sized() && p < MAX_TASKS && i <= MAX_TASKS
    ensures i <= k <= MAX_TASKS
    ensures k < MAX_TASKS ==> Candidate(s, Around(s.cursor[p], k), p)
    ensures forall j :: i <= j < k ==> !Candidate(s, Around(s.cursor[p], j), p)
    decreases MAX_TASKS - i
  {
    if i == MAX_TASKS || Candidate(s, Around(s.cursor[p], i), p) then i else FirstFrom(s, p, i + 1)
  }

  /** The task the next iteration dispatches. */
  function Pick(s: Sched): (r: Option<nat>)
    requires s.Sized()
    ensures r.Some? ==> r.value < MAX_TASKS
  {
    var p := TopPrio(s, MAX_TASKS);
    if p < 0 then None
    else
      var k := FirstFrom(s, p, 0);
      if k == MAX_TASKS then None else Some(Around(s.cursor[p], k))
  }

  /** The pick has the highest ready priority, and among its peers it is the nearest after the cursor; there is a
      pick whenever some task is ready. */
  lemma PickIsNearestTop(s: Sched)
    requires s.Sized()
    ensures Pick(s) == None <==> forall i :: 0 <= i < MAX_TASKS ==> !Ready(s, i)
    ensures Pick(s).Some? ==> Ready(s, Pick(s).value)
    ensures Pick(s).Some? ==>
              var y, p := Pick(s).value, s.table[Pick(s).value].value.prio;
              forall i :: 0 <= i < MAX_TASKS && Ready(s, i) ==>
                s.table[i].value.prio <= p
                && (s.table[i].value.prio == p ==> Distance(s.cursor[p], y) <= Distance(s.cursor[p], i))
  {
    hide TopPrio, FirstFrom, Around, Distance;
    var p := TopPrio(s, MAX_TASKS);
    if p >= 0 {
      var c, k := s.cursor[p], FirstFrom(s, p, 0);
      forall i | 0 <= i < MAX_TASKS && Candidate(s, i, p)
        ensures k <= Distance(c, i) < MAX_TASKS
      {
        AroundDistance(c, i);
      }
      if k < MAX_TASKS {
        DistanceAround(c, k);
      }
    }
  }

  // One iteration

  /** Take the event and move the cursor. */
  function Begin(s: Sched, y: nat): (s': Sched)
    requires s.Sized() && y < MAX_TASKS && Ready(s, y)
    ensures s'.Sized()
  {
    var t := s.table[y].value;
    s.(table := s.table[y := Some(t.(queue := if t.queue == [] then [] else t.queue[1..]))],
       cursor := s.cursor[t.prio := y])
  }

  predicate EmptyAt(s: Sched, y: nat)
    requires s.Sized() && y < MAX_TASKS
  {
    s.table[y].None? || s.table[y].value.queue == []
  }

  /** After the dispatch, an empty queue clears the ready flag. */
  function Finish(s: Sched, y: nat): (s': Sched)
    requires s.Sized() && y < MAX_TASKS
    ensures s'.Sized()
  {
    if EmptyAt(s, y) then s.(ready := s.ready[y := false]) else s
  }

  /** One pass of the scheduler loop whose dispatch, if there is one, performs ops. */
  function Iterate(s: Sched, ops: seq<Op>): (s': Sched)
    requires s.Sized()
    ensures s'.Sized()
  {
    PickIsNearestTop(s);
    if Pick(s) == None then s
    else
      var y := Pick(s).value;
      var b := Begin(s, y);
      Finish(if s.table[y].value.queue == [] then b else DoAll(b, ops), y)
  }

  // Ready flags

  /** A ready flag is set exactly when the id is registered with a non-empty queue. */
  predicate FlagOk(s: Sched, i: nat)
    requires s.Sized() && i < MAX_TASKS
  {
    s.ready[i] <==> s.table[i].Some? && s.table[i].value.queue != []
  }

  predicate FlagsOk(s: Sched)
    requires s.Sized()
  {
    forall i :: 0 <= i < MAX_TASKS ==> FlagOk(s, i)
  }

  /** While y is being dispatched its flag may be set over an empty queue, but no other way round. */
  predicate FlagsOkBut(s: Sched, y: nat)
    requires s.Sized() && y < MAX_TASKS
  {
    && (forall i :: 0 <= i < MAX_TASKS && i != y ==> FlagOk(s, i))
    && (s.table[y].Some? && s.table[y].value.queue != [] ==> s.ready[y])
  }

  lemma DoKeepsFlags(s: Sched, op: Op)
    requires s.Sized()
    ensures FlagsOk(s) ==> FlagsOk(Do(s, op))
    ensures forall y :: 0 <= y < MAX_TASKS && FlagsOkBut(s, y) ==> FlagsOkBut(Do(s, op), y)
  {
    forall i | 0 <= i < MAX_TASKS
      ensures FlagOk(s, i) ==> FlagOk(Do(s, op), i)
    {
    }
  }

  lemma {:induction false} DoAllKeepsFlags(s: Sched, ops: seq<Op>, y: nat)
    requires s.Sized() && y < MAX_TASKS && FlagsOkBut(s, y)
    ensures FlagsOkBut(DoAll(s, ops), y)
  {
    hide Do, FlagsOkBut;
    if ops != [] {
      DoAllKeepsFlags(s, ops[..|ops| - 1], y);
      DoKeepsFlags(DoAll(s, ops[..|ops| - 1]), ops[|ops| - 1]);
    }
  }

  lemma BeginKeepsFlags(s: Sched, y: nat)
    requires s.Sized() && y < MAX_TASKS && Ready(s, y) && FlagsOk(s)
    ensures FlagsOkBut(Begin(s, y), y)
  {
    var b := Begin(s, y);
    forall i | 0 <= i < MAX_TASKS && i != y
      ensures FlagOk(b, i)
    {
      assert FlagOk(s, i) && b.table[i] == s.table[i];
    }
  }

  lemma FinishKeepsFlags(s: Sched, y: nat)
    requires s.Sized() && y < MAX_TASKS && FlagsOkBut(s, y)
    ensures FlagsOk(Finish(s, y))
  {
    var f := Finish(s, y);
    forall i | 0 <= i < MAX_TASKS
      ensures FlagOk(f, i)
    {
      if i != y {
        assert FlagOk(s, i);
      }
    }
  }

  lemma IterateKeepsFlags(s: Sched, ops: seq<Op>)
    requires s.Sized() && FlagsOk(s)
    ensures FlagsOk(Iterate(s, ops))
  {
    hide Pick, DoAll, Begin, Finish, FlagsOk, FlagsOkBut;
    PickIsNearestTop(s);
    if Pick(s).Some? {
      var y := Pick(s).value;
      BeginKeepsFlags(s, y);
      DoAllKeepsFlags(Begin(s, y), ops, y);
      FinishKeepsFlags(Begin(s, y), y);
      FinishKeepsFlags(DoAll(Begin(s, y), ops), y);
    }
  }

  // Bookkeeping of events

  /** Per task, the events accepted and delivered since its queue was last emptied by force. */
  datatype Books = Books(accepted: seq<seq<Event>>, delivered: seq<seq<Event>>) {
    predicate Sized() {
      |accepted| == MAX_TASKS && |delivered| == MAX_TASKS
    }
  }

  function NoEvents(): (r: seq<seq<Event>>)
    ensures |r| == MAX_TASKS && forall i :: 0 <= i < MAX_TASKS ==> r[i] == []
  {
    seq(MAX_TASKS, i => [])
  }

  /** What an operation does to the books. */
  function Book(s: Sched, b: Books, op: Op): (b': Books)
    requires s.Sized() && b.Sized()
    ensures b'.Sized()
  {
    if Answer(s, op) != Ok then b
    else match op
      case Register(spec) => Books(b.accepted[spec.id := []], b.delivered[spec.id := []])
      case Unregister(id) => Books(b.accepted[id := []], b.delivered[id := []])
      case Post(id, e) => b.(accepted := b.accepted[id := b.accepted[id] + [e]])
      case FlushAll => Books(NoEvents(), NoEvents())
      case _ => b
  }

  function BookAll(s: Sched, b: Books, ops: seq<Op>): (b': Books)
    requires s.Sized() && b.Sized()
    ensures b'.Sized()
  {
    if ops == [] then b
    else Book(DoAll(s, ops[..|ops| - 1]), BookAll(s, b, ops[..|ops| - 1]), ops[|ops| - 1])
  }

  function BookIterate(s: Sched, b: Books, ops: seq<Op>): (b': Books)
    requires s.Sized() && b.Sized()
    ensures b'.Sized()
  {
    PickIsNearestTop(s);
    if Pick(s) == None then b
    else
      var y := Pick(s).value;
      var q := s.table[y].value.queue;
      if q == [] then b
      else BookAll(Begin(s, y), b.(delivered := b.delivered[y := b.delivered[y] + [q[0]]]), ops)
  }

  function QueueAt(s: Sched, i: nat): seq<Event>
    requires s.Sized() && i < MAX_TASKS
  {
    if s.table[i].None? then [] else s.table[i].value.queue
  }

  /** Accepted events are the delivered ones followed by those still queued, in order. */
  predicate InOrder(s: Sched, b: Books, i: nat)
    requires s.Sized() && b.Sized() && i < MAX_TASKS
  {
    b.accepted[i] == b.delivered[i] + QueueAt(s, i)
  }

  predicate AllInOrder(s: Sched, b: Books)
    requires s.Sized() && b.Sized()
  {
    forall i :: 0 <= i < MAX_TASKS ==> InOrder(s, b, i)
  }

  lemma DoKeepsOrder(s: Sched, b: Books, op: Op)
    requires s.Sized() && b.Sized() && AllInOrder(s, b)
    ensures AllInOrder(Do(s, op), Book(s, b, op))
  {
    forall i | 0 <= i < MAX_TASKS
      ensures InOrder(Do(s, op), Book(s, b, op), i)
    {
      assert InOrder(s, b, i);
    }
  }

  lemma {:induction false} DoAllKeepsOrder(s: Sched, b: Books, ops: seq<Op>)
    requires s.Sized() && b.Sized() && AllInOrder(s, b)
    ensures AllInOrder(DoAll(s, ops), BookAll(s, b, ops))
  {
    hide Do, Book, AllInOrder;
    if ops != [] {
      var init := ops[..|ops| - 1];
      DoAllKeepsOrder(s, b, init);
      DoKeepsOrder(DoAll(s, init), BookAll(s, b, init), ops[|ops| - 1]);
    }
  }

  lemma BeginKeepsOrder(s: Sched, b: Books, y: nat)
    requires s.Sized() && b.Sized() && AllInOrder(s, b) && y < MAX_TASKS && Ready(s, y)
    ensures var q := s.table[y].value.queue;
            AllInOrder(Begin(s, y), if q == [] then b else b.(delivered := b.delivered[y := b.delivered[y] + [q[0]]]))
  {
    var q := s.table[y].value.queue;
    var b' := if q == [] then b else b.(delivered := b.delivered[y := b.delivered[y] + [q[0]]]);
    forall i | 0 <= i < MAX_TASKS
      ensures InOrder(Begin(s, y), b', i)
    {
      assert InOrder(s, b, i);
    }
  }

  lemma FinishKeepsOrder(s: Sched, b: Books, y: nat)
    requires s.Sized() && b.Sized() && AllInOrder(s, b) && y < MAX_TASKS
    ensures AllInOrder(Finish(s, y), b)
  {
    forall i | 0 <= i < MAX_TASKS
      ensures InOrder(Finish(s, y), b, i)
    {
      assert InOrder(s, b, i);
    }
  }

  lemma IterateKeepsOrder(s: Sched, b: Books, ops: seq<Op>)
    requires s.Sized() && b.Sized() && AllInOrder(s, b)
    ensures AllInOrder(Iterate(s, ops), BookIterate(s, b, ops))
  {
    hide Pick, DoAll, BookAll, Begin, Finish, AllInOrder;
    PickIsNearestTop(s);
    if Pick(s).Some? {
      var y := Pick(s).value;
      var q := s.table[y].value.queue;
      BeginKeepsOrder(s, b, y);
      if q == [] {
        FinishKeepsOrder(Begin(s, y), b, y);
      } else {
        var b' := b.(delivered := b.delivered[y := b.delivered[y] + [q[0]]]);
        DoAllKeepsOrder(Begin(s, y), b', ops);
        FinishKeepsOrder(DoAll(Begin(s, y), ops), BookAll(Begin(s, y), b', ops), y);
      }
    }
  }

  // Every run

  /** An operation between iterations (an interrupt, or start-up code), or one iteration. */
  datatype Turn = Outside(op: Op) | Inside(ops: seq<Op>)

  function After(s: Sched, run: seq<Turn>): (s': Sched)
    requires s.Sized()
    ensures s'.Sized()
  {
    if run == [] then s
    else
      var r, t := After(s, run[..|run| - 1]), run[|run| - 1];
      match t case Outside(op) => Do(r, op) case Inside(ops) => Iterate(r, ops)
  }

  function BooksAfter(s: Sched, b: Books, run: seq<Turn>): (b': Books)
    requires s.Sized() && b.Sized()
    ensures b'.Sized()
  {
    if run == [] then b
    else
      var r, c, t := After(s, run[..|run| - 1]), BooksAfter(s, b, run[..|run| - 1]), run[|run| - 1];
      match t case Outside(op) => Book(r, c, op) case Inside(ops) => BookIterate(r, c, ops)
  }

  function Initial(): (s: Sched)
    ensures s.Sized() && FlagsOk(s)
  {
    Sched(seq(MAX_TASKS, i => None), NoFlags(MAX_TASKS), seq(MAX_TASKS, i => 0))
  }

  /** In every run, between iterations, ready flags are exact and no accepted event is lost, repeated or reordered. */
  lemma {:induction false} RunKeepsQueues(run: seq<Turn>)
    ensures var s, b := After(Initial(), run), BooksAfter(Initial(), Books(NoEvents(), NoEvents()), run);
            FlagsOk(s) && AllInOrder(s, b)
  {
    hide Do, Book, Iterate, BookIterate, FlagsOk, AllInOrder, Initial;
    var none := Books(NoEvents(), NoEvents());
    if run == [] {
      InitialInOrder();
    } else {
      var init, t := run[..|run| - 1], run[|run| - 1];
      RunKeepsQueues(init);
      var s, b := After(Initial(), init), BooksAfter(Initial(), none, init);
      match t
      case Outside(op) =>
        DoKeepsFlags(s, op);
        DoKeepsOrder(s, b, op);
      case Inside(ops) =>
        IterateKeepsFlags(s, ops);
        IterateKeepsOrder(s, b, ops);
    }
  }

  lemma InitialInOrder()
    ensures AllInOrder(Initial(), Books(NoEvents(), NoEvents()))
  {
  }

  // What a registration is for

  /** What an id was last registered with, and whether it takes events. */
  datatype Seat = Seat(spec: Spec, open: bool)

  predicate Seated(seats: seq<Option<Seat>>, id: nat) {
    id < |seats| && seats[id].Some?
  }

  /** The seats after an operation. */
  function Enrolled(s: Sched, seats: seq<Option<Seat>>, op: Op): (r: seq<Option<Seat>>)
    requires s.Sized() && |seats| == MAX_TASKS
    ensures |r| == MAX_TASKS
  {
    if Answer(s, op) != Ok then seats
    else match op
      case Register(spec) => seats[spec.id := Some(Seat(spec, true))]
      case Unregister(id) => seats[id := None]
      case Pause(id) => if Seated(seats, id) then seats[id := Some(seats[id].value.(open := false))] else seats
      case Resume(id) => if Seated(seats, id) then seats[id := Some(seats[id].value.(open := true))] else seats
      case _ => seats
  }

  function EnrolledAll(s: Sched, seats: seq<Option<Seat>>, ops: seq<Op>): (r: seq<Option<Seat>>)
    requires s.Sized() && |seats| == MAX_TASKS
    ensures |r| == MAX_TASKS
  {
    if ops == [] then seats
    else Enrolled(DoAll(s, ops[..|ops| - 1]), EnrolledAll(s, seats, ops[..|ops| - 1]), ops[|ops| - 1])
  }

  function EnrolledTurn(s: Sched, seats: seq<Option<Seat>>, t: Turn): (r: seq<Option<Seat>>)
    requires s.Sized() && |seats| == MAX_TASKS
    ensures |r| == MAX_TASKS
  {
    match t
    case Outside(op) => Enrolled(s, seats, op)
    case Inside(ops) =>
      PickIsNearestTop(s);
      if Pick(s) == None || s.table[Pick(s).value].value.queue == [] then seats
      else EnrolledAll(Begin(s, Pick(s).value), seats, ops)
  }

  function EnrolledAfter(run: seq<Turn>): (r: seq<Option<Seat>>)
    ensures |r| == MAX_TASKS
  {
    if run == [] then seq(MAX_TASKS, i => None)
    else EnrolledTurn(After(Initial(), run[..|run| - 1]), EnrolledAfter(run[..|run| - 1]), run[|run| - 1])
  }

  /** The id is registered exactly when it has a seat, at the priority and with the capacity it asked for, and takes
      events unless it was paused since. */
  predicate AsEnrolled(s: Sched, seats: seq<Option<Seat>>, x: nat)
    requires s.Sized() && |seats| == MAX_TASKS && x < MAX_TASKS
  {
    match seats[x]
    case None => s.table[x] == None
    case Some(Seat(spec, open)) =>
      && s.table[x].Some? && spec.id == x && spec.complete && spec.capacity > 0
      && s.table[x].value.prio == spec.prio && s.table[x].value.cap == spec.capacity
      && s.table[x].value.accepting == open && |s.table[x].value.queue| <= spec.capacity
  }

  predicate AllAsEnrolled(s: Sched, seats: seq<Option<Seat>>)
    requires s.Sized() && |seats| == MAX_TASKS
  {
    forall x :: 0 <= x < MAX_TASKS ==> AsEnrolled(s, seats, x)
  }

  lemma DoKeepsEnrolled(s: Sched, seats: seq<Option<Seat>>, op: Op)
    requires s.Sized() && |seats| == MAX_TASKS && AllAsEnrolled(s, seats)
    ensures AllAsEnrolled(Do(s, op), Enrolled(s, seats, op))
  {
    forall x | 0 <= x < MAX_TASKS
      ensures AsEnrolled(Do(s, op), Enrolled(s, seats, op), x)
    {
      assert AsEnrolled(s, seats, x);
    }
  }

  lemma {:induction false} DoAllKeepsEnrolled(s: Sched, seats: seq<Option<Seat>>, ops: seq<Op>)
    requires s.Sized() && |seats| == MAX_TASKS && AllAsEnrolled(s, seats)
    ensures AllAsEnrolled(DoAll(s, ops), EnrolledAll(s, seats, ops))
  {
    hide Do, Enrolled, AllAsEnrolled;
    if ops != [] {
      var init := ops[..|ops| - 1];
      DoAllKeepsEnrolled(s, seats, init);
      DoKeepsEnrolled(DoAll(s, init), EnrolledAll(s, seats, init), ops[|ops| - 1]);
    }
  }

  lemma BeginKeepsEnrolled(s: Sched, seats: seq<Option<Seat>>, y: nat)
    requires s.Sized() && |seats| == MAX_TASKS && AllAsEnrolled(s, seats) && y < MAX_TASKS && Ready(s, y)
    ensures AllAsEnrolled(Begin(s, y), seats)
  {
    forall x | 0 <= x < MAX_TASKS
      ensures AsEnrolled(Begin(s, y), seats, x)
    {
      assert AsEnrolled(s, seats, x);
    }
  }

  lemma FinishKeepsEnrolled(s: Sched, seats: seq<Option<Seat>>, y: nat)
    requires s.Sized() && |seats| == MAX_TASKS && AllAsEnrolled(s, seats) && y < MAX_TASKS
    ensures AllAsEnrolled(Finish(s, y), seats)
  {
    forall x | 0 <= x < MAX_TASKS
      ensures AsEnrolled(Finish(s, y), seats, x)
    {
      assert AsEnrolled(s, seats, x);
    }
  }

  lemma IterateKeepsEnrolled(s: Sched, seats: seq<Option<Seat>>, ops: seq<Op>)
    requires s.Sized() && |seats| == MAX_TASKS && AllAsEnrolled(s, seats)
    ensures AllAsEnrolled(Iterate(s, ops), EnrolledTurn(s, seats, Inside(ops)))
  {
    hide Pick, DoAll, EnrolledAll, Begin, Finish, AllAsEnrolled;
    PickIsNearestTop(s);
    if Pick(s).Some? {
      var y := Pick(s).value;
      BeginKeepsEnrolled(s, seats, y);
      FinishKeepsEnrolled(Begin(s, y), seats, y);
      DoAllKeepsEnrolled(Begin(s, y), seats, ops);
      FinishKeepsEnrolled(DoAll(Begin(s, y), ops), EnrolledAll(Begin(s, y), seats, ops), y);
    }
  }

  /** In every run, whatever dispatches and interrupts do: an id is registered exactly when its last accepted
      registration was not undone, has the priority and capacity of that registration, takes events unless it was
      paused since, and never holds more than its capacity. */
  lemma {:induction false} RunKeepsEnrolled(run: seq<Turn>)
    ensures AllAsEnrolled(After(Initial(), run), EnrolledAfter(run))
  {
    hide Do, Iterate, Enrolled, EnrolledTurn, AllAsEnrolled, Initial;
    if run == [] {
      NobodyEnrolled();
    } else {
      var init, t := run[..|run| - 1], run[|run| - 1];
      RunKeepsEnrolled(init);
      var s, seats := After(Initial(), init), EnrolledAfter(init);
      match t
      case Outside(op) =>
        DoKeepsEnrolled(s, seats, op);
        TurnOutside(s, seats, op);
      case Inside(ops) =>
        IterateKeepsEnrolled(s, seats, ops);
    }
  }

  lemma TurnOutside(s: Sched, seats: seq<Option<Seat>>, op: Op)
    requires s.Sized() && |seats| == MAX_TASKS
    ensures EnrolledTurn(s, seats, Outside(op)) == Enrolled(s, seats, op)
  {
  }

  lemma NobodyEnrolled()
    ensures AllAsEnrolled(Initial(), EnrolledAfter([]))
  {
  }

  /** In every run, the next iteration never picks a task while one registered with a larger priority is ready. */
  lemma PickHasTopRegistration(run: seq<Turn>, x: nat)
    requires x < MAX_TASKS && Ready(After(Initial(), run), x)
    ensures var s, seats := After(Initial(), run), EnrolledAfter(run);
            && Pick(s).Some? && seats[Pick(s).value].Some? && seats[x].Some?
            && seats[x].value.spec.prio <= seats[Pick(s).value].value.spec.prio
  {
    hide After, EnrolledAfter, Pick;
    var s, seats := After(Initial(), run), EnrolledAfter(run);
    RunKeepsEnrolled(run);
    PickIsNearestTop(s);
    assert AsEnrolled(s, seats, x) && AsEnrolled(s, seats, Pick(s).value);
  }

  /** What an operation answers, told from the history alone: who has which seat, and how many accepted events are
      still to be delivered. */
  function Verdict(seats: seq<Option<Seat>>, waiting: seq<nat>, op: Op): Rc
    requires |seats| == |waiting| == MAX_TASKS
  {
    match op
    case Register(spec) =>
      if !spec.complete || spec.id >= 32 || spec.prio >= 32 || spec.capacity == 0 then ErrParam
      else if Seated(seats, spec.id) then ErrExists
      else Ok
    case Post(id, e) =>
      if id >= 32 then ErrParam
      else if !Seated(seats, id) then ErrNotFound
      else if !seats[id].value.open then ErrDisabled
      else if waiting[id] >= seats[id].value.spec.capacity then ErrQueueFull
      else Ok
    case FlushAll => Ok
    case _ => if op.id >= 32 then ErrParam else if !Seated(seats, op.id) then ErrNotFound else Ok
  }

  function Undelivered(b: Books): (ns: seq<nat>)
    requires b.Sized() && forall i :: 0 <= i < MAX_TASKS ==> |b.delivered[i]| <= |b.accepted[i]|
    ensures |ns| == MAX_TASKS
  {
    seq(MAX_TASKS, i requires 0 <= i < MAX_TASKS => |b.accepted[i]| - |b.delivered[i]|)
  }

  /** In every run every operation is answered as the history says: posting fails exactly for an id that is out of
      range, not registered, paused, or already has as many undelivered events as it asked room for. */
  lemma RunAnswers(run: seq<Turn>, op: Op)
    ensures var b := BooksAfter(Initial(), Books(NoEvents(), NoEvents()), run);
            && (forall i :: 0 <= i < MAX_TASKS ==> |b.delivered[i]| <= |b.accepted[i]|)
            && Answer(After(Initial(), run), op) == Verdict(EnrolledAfter(run), Undelivered(b), op)
  {
    hide After, EnrolledAfter, BooksAfter, Initial, FlagsOk;
    var s, seats := After(Initial(), run), EnrolledAfter(run);
    var b := BooksAfter(Initial(), Books(NoEvents(), NoEvents()), run);
    RunKeepsQueues(run);
    RunKeepsEnrolled(run);
    forall i | 0 <= i < MAX_TASKS
      ensures |b.accepted[i]| - |b.delivered[i]| == |QueueAt(s, i)|
    {
      assert InOrder(s, b, i);
    }
    var id := if op.Register? then op.spec.id else if op.FlushAll? then 0 else op.id;
    if id < MAX_TASKS {
      assert AsEnrolled(s, seats, id);
    }
  }

  // Bounded bypass

  /** The operation does not take x away: it neither unregisters x nor flushes the queues. */
  predicate Spares(op: Op, x: nat) {
    op != FlushAll && !(op.Unregister? && op.id == x)
  }

  predicate SparesAll(ops: seq<Op>, x: nat) {
    forall i :: 0 <= i < |ops| ==> Spares(ops[i], x)
  }

  predicate TurnSpares(t: Turn, x: nat) {
    match t case Outside(op) => Spares(op, x) case Inside(ops) => SparesAll(ops, x)
  }

  /** Registered at priority p, flagged, and with an event waiting. */
  predicate Waiting(s: Sched, x: nat, p: nat)
    requires s.Sized() && x < MAX_TASKS
  {
    Candidate(s, x, p) && s.table[x].value.queue != []
  }

  lemma DoKeepsWaiting(s: Sched, op: Op, x: nat, p: nat)
    requires s.Sized() && x < MAX_TASKS && Waiting(s, x, p) && Spares(op, x)
    ensures Waiting(Do(s, op), x, p) && Do(s, op).cursor == s.cursor
  {
  }

  lemma {:induction false} DoAllKeepsWaiting(s: Sched, ops: seq<Op>, x: nat, p: nat)
    requires s.Sized() && x < MAX_TASKS && Waiting(s, x, p) && SparesAll(ops, x)
    ensures Waiting(DoAll(s, ops), x, p) && DoAll(s, ops).cursor == s.cursor
  {
    hide Do, Waiting, Spares;
    if ops != [] {
      DoAllKeepsWaiting(s, ops[..|ops| - 1], x, p);
      DoKeepsWaiting(DoAll(s, ops[..|ops| - 1]), ops[|ops| - 1], x, p);
    }
  }

  /** An iteration that picks someone else leaves x waiting and moves only the picked priority's cursor. */
  lemma IterateKeepsWaiting(s: Sched, ops: seq<Op>, x: nat, p: nat)
    requires s.Sized() && x < MAX_TASKS && Waiting(s, x, p) && SparesAll(ops, x) && Pick(s) != Some(x)
    ensures Pick(s).Some? && Ready(s, Pick(s).value) && Waiting(Iterate(s, ops), x, p)
    ensures Iterate(s, ops).cursor == s.cursor[s.table[Pick(s).value].value.prio := Pick(s).value]
  {
    hide Pick, DoAll, SparesAll;
    PickIsNearestTop(s);
    var y := Pick(s).value;
    var b := Begin(s, y);
    assert Waiting(b, x, p);
    DoAllKeepsWaiting(b, ops, x, p);
  }

  /** A pick between the cursor and x brings the cursor strictly nearer to x. */
  lemma DistanceFalls(c: nat, y: nat, x: nat)
    requires c < MAX_TASKS && y < MAX_TASKS && x < MAX_TASKS && x != y && Distance(c, y) <= Distance(c, x)
    ensures Distance(y, x) < Distance(c, x)
  {
  }

  /** The tasks of priority p dispatched in the run, in order. */
  function PicksAt(s: Sched, run: seq<Turn>, p: nat): (ids: seq<nat>)
    requires s.Sized()
    ensures forall i :: 0 <= i < |ids| ==> ids[i] < MAX_TASKS
  {
    if run == [] then []
    else
      var r := After(s, run[..|run| - 1]);
      PicksAt(s, run[..|run| - 1], p) + if run[|run| - 1].Inside? then PickedAt(r, p) else []
  }

  function PickedAt(s: Sched, p: nat): (ids: seq<nat>)
    requires s.Sized()
    ensures forall i :: 0 <= i < |ids| ==> ids[i] < MAX_TASKS
  {
    PickIsNearestTop(s);
    if Pick(s).Some? && s.table[Pick(s).value].value.prio == p then [Pick(s).value] else []
  }

  /** x waits through the whole run: nothing takes it away and no iteration dispatches it. */
  predicate WaitsThrough(s: Sched, run: seq<Turn>, x: nat)
    requires s.Sized()
  {
    run == [] ||
    (var n := |run| - 1;
     WaitsThrough(s, run[..n], x) && TurnSpares(run[n], x) && (run[n].Inside? ==> Pick(After(s, run[..n])) != Some(x)))
  }

  /** The picks so far, all nearer than at the start and each nearer than the one before. */
  predicate Approaches(ids: seq<nat>, x: nat, c0: nat, c: nat)
    requires x < MAX_TASKS && c0 < MAX_TASKS && c < MAX_TASKS
    requires forall i :: 0 <= i < |ids| ==> ids[i] < MAX_TASKS
  {
    && |ids| + Distance(c, x) <= Distance(c0, x)
    && (forall i :: 0 <= i < |ids| ==> ids[i] != x && Distance(ids[i], x) >= Distance(c, x))
    && (forall i, j :: 0 <= i < j < |ids| ==> ids[i] != ids[j])
  }

  lemma ApproachesNext(ids: seq<nat>, x: nat, c0: nat, c: nat, y: nat)
    requires x < MAX_TASKS && c0 < MAX_TASKS && c < MAX_TASKS && y < MAX_TASKS
    requires forall i :: 0 <= i < |ids| ==> ids[i] < MAX_TASKS
    requires Approaches(ids, x, c0, c) && y != x && Distance(c, y) <= Distance(c, x)
    ensures Approaches(ids + [y], x, c0, y)
  {
    hide Distance;
    DistanceFalls(c, y, x);
  }

  /** While a task of priority p waits, at most 31 other tasks of that priority are dispatched, each at most once,
      and nobody of lower priority is. */
  lemma {:induction false} BoundedBypass(s: Sched, run: seq<Turn>, x: nat, p: nat)
    requires s.Sized() && x < MAX_TASKS && p < MAX_TASKS && Waiting(s, x, p) && WaitsThrough(s, run, x)
    ensures Waiting(After(s, run), x, p)
    ensures Approaches(PicksAt(s, run, p), x, s.cursor[p], After(s, run).cursor[p]) && |PicksAt(s, run, p)| <= 31
    ensures NobodyBelow(s, run, p)
  {
    hide Waiting, Do, Iterate, Pick, TurnSpares, Distance, PickedAt, Approaches;
    if run == [] {
      ApproachesStart(x, s.cursor[p]);
    } else {
      var init, t := run[..|run| - 1], run[|run| - 1];
      BoundedBypass(s, init, x, p);
      var r := After(s, init);
      match t
      case Outside(op) =>
        OutsideKeeps(r, op, x, p);
        assert PicksAt(s, run, p) == PicksAt(s, init, p);
      case Inside(ops) =>
        InsideKeeps(r, ops, x, p, PicksAt(s, init, p), s.cursor[p]);
    }
    ApproachesBound(PicksAt(s, run, p), x, s.cursor[p], After(s, run).cursor[p]);
  }

  lemma ApproachesStart(x: nat, c: nat)
    requires x < MAX_TASKS && c < MAX_TASKS
    ensures Approaches([], x, c, c)
  {
  }

  lemma ApproachesBound(ids: seq<nat>, x: nat, c0: nat, c: nat)
    requires x < MAX_TASKS && c0 < MAX_TASKS && c < MAX_TASKS
    requires forall i :: 0 <= i < |ids| ==> ids[i] < MAX_TASKS
    requires Approaches(ids, x, c0, c)
    ensures |ids| <= 31
  {
  }

  lemma OutsideKeeps(r: Sched, op: Op, x: nat, p: nat)
    requires r.Sized() && x < MAX_TASKS && Waiting(r, x, p) && TurnSpares(Outside(op), x)
    ensures Waiting(Do(r, op), x, p) && Do(r, op).cursor == r.cursor
  {
    DoKeepsWaiting(r, op, x, p);
  }

  lemma InsideKeeps(r: Sched, ops: seq<Op>, x: nat, p: nat, ids: seq<nat>, c0: nat)
    requires r.Sized() && x < MAX_TASKS && p < MAX_TASKS && c0 < MAX_TASKS && Waiting(r, x, p)
    requires TurnSpares(Inside(ops), x) && Pick(r) != Some(x)
    requires forall i :: 0 <= i < |ids| ==> ids[i] < MAX_TASKS
    requires Approaches(ids, x, c0, r.cursor[p])
    ensures var r' := Iterate(r, ops);
            && Waiting(r', x, p) && Approaches(ids + PickedAt(r, p), x, c0, r'.cursor[p])
            && Pick(r).Some? && Ready(r, Pick(r).value) && r.table[Pick(r).value].value.prio >= p
  {
    hide Pick, Iterate, Approaches, Distance;
    IterateKeepsWaiting(r, ops, x, p);
    PickIsNearestTop(r);
    assert Ready(r, x);
    var y := Pick(r).value;
    if r.table[y].value.prio == p {
      ApproachesNext(ids, x, c0, r.cursor[p], y);
    } else {
      assert ids + PickedAt(r, p) == ids;
    }
  }

  /** Every iteration of the run dispatches a task of priority p or higher. */
  predicate NobodyBelow(s: Sched, run: seq<Turn>, p: nat)
    requires s.Sized()
  {
    run == [] ||
    (var n := |run| - 1;
     NobodyBelow(s, run[..n], p) && (run[n].Inside? ==> PicksAbove(After(s, run[..n]), p)))
  }

  predicate PicksAbove(s: Sched, p: nat)
    requires s.Sized()
  {
    Pick(s).Some? && s.table[Pick(s).value].Some? && s.table[Pick(s).value].value.prio >= p
  }
}
