/**
 The console output path as a state machine: tasks append messages and kick the console task, the console task
 moves bytes into the transmit ring, and the UART interrupt empties the ring. Interrupts may fall between any two
 steps of the thread code, with any combination of status flags.
 */
module ConsolePath {
  import opened Words

  const MSG_SLOTS: nat := 64
  const MSG_MAX: nat := 96
  const EVENT_CAP: nat := 8
  const TX_SIZE: nat := 256

  /** Where the thread code is: outside the console, about to kick, in the dispatch loop, past a successful room
      test, or past a failed one. */
  datatype Phase = Idle | Kicking | Dispatching | Putting | Leaving

  /** Pending messages are the bytes they still hold; `accepted` is everything ever appended. */
  datatype Path = Path(pending: seq<seq<uint8>>, wake: bool, events: nat, phase: Phase, ring: seq<uint8>,
                       txeie: bool, tcie: bool, sent: seq<uint8>, accepted: seq<uint8>)

  const START: Path := Path([], false, 0, Idle, [], false, false, [], [])

  datatype Step =
    | Append(text: seq<uint8>)
    | Kick
    | Start
    | Test
    | Put
    | Leave
    | Irq(txe: bool, tc: bool)

  predicate Enabled(s: Path, t: Step) {
    match t
    case Append(text) => s.phase == Idle
    case Kick => s.phase == Kicking
    case Start => s.phase == Idle && s.events > 0
    case Test => s.phase == Dispatching
    case Put => s.phase == Putting && s.pending != [] && s.pending[0] != []
    case Leave => s.phase == Leaving
    case Irq(_, _) => true
  }

  predicate Refused(s: Path, text: seq<uint8>) {
    text == [] || |s.pending| >= MSG_SLOTS
  }

  function Truncated(text: seq<uint8>): seq<uint8> {
    if |text| > MSG_MAX then text[..MSG_MAX] else text
  }

  /** Post an event to the console task, if its queue has room. */
  function Posted(events: nat): nat {
    if events < EVENT_CAP then events + 1 else events
  }

  /** Transmit register empty: send the next byte, or wait for the last one to leave the wire. */
  function OnEmpty(s: Path): Path {
    if s.ring != [] then s.(ring := s.ring[1..], sent := s.sent + [s.ring[0]]) else s.(txeie := false, tcie := true)
  }

  /** Transmission complete: tell the console task. */
  function OnComplete(s: Path): Path {
    s.(tcie := false, events := Posted(s.events))
  }

  /** The transmit half of the interrupt; both branches test the control bits as they were on entry. */
  function OnIrq(s: Path, txe: bool, tc: bool): Path {
    var a := if txe && s.txeie then OnEmpty(s) else s;
    if tc && s.tcie then OnComplete(a) else a
  }

  function Next(s: Path, t: Step): Path
    requires Enabled(s, t)
  {
    match t
    case Append(text) =>
      if Refused(s, text) then s
      else
        var m := Truncated(text);
        s.(pending := s.pending + [m], accepted := s.accepted + m, phase := Kicking)
    case Kick =>
      if s.wake then s.(phase := Idle)
      else s.(phase := Idle, wake := s.events < EVENT_CAP, events := Posted(s.events))
    case Start => s.(events := s.events - 1, phase := Dispatching)
    case Test =>
      if s.pending == [] then s.(wake := false, phase := Idle)
      else if s.pending[0] == [] then s.(pending := s.pending[1..])
      else if |s.ring| == TX_SIZE - 1 then s.(phase := Leaving)
      else s.(phase := Putting)
    case Put =>
      s.(pending := s.pending[0 := s.pending[0][1..]], ring := s.ring + [s.pending[0][0]], txeie := true,
         phase := Dispatching)
    case Leave => s.(wake := false, phase := Idle)
    case Irq(txe, tc) => OnIrq(s, txe, tc)
  }

  // Safety

  function Concat(ms: seq<seq<uint8>>): seq<uint8> {
    if ms == [] then [] else ms[0] + Concat(ms[1..])
  }

  lemma {:induction false} ConcatAppend(ms: seq<seq<uint8>>, m: seq<uint8>)
    ensures Concat(ms + [m]) == Concat(ms) + m
  {
    if ms == [] {
      assert ms + [m] == [m];
    } else {
      assert (ms + [m])[1..] == ms[1..] + [m];
      ConcatAppend(ms[1..], m);
    }
  }

  /** The thread code is inside the dispatch function. */
  predicate InDispatch(s: Path) {
    s.phase == Dispatching || s.phase == Putting || s.phase == Leaving
  }

  predicate Bounded(s: Path) {
    && |s.pending| <= MSG_SLOTS && s.events <= EVENT_CAP && |s.ring| < TX_SIZE
    && (s.phase == Putting ==> |s.ring| < TX_SIZE - 1 && s.pending != [] && s.pending[0] != [])
  }

  /** Someone will come back for what is pending. */
  predicate WillWake(s: Path) {
    s.events > 0 || s.txeie || s.tcie
  }

  predicate Wakeful(s: Path) {
    && (s.ring != [] ==> s.txeie)
    && (s.wake ==> s.events > 0 || InDispatch(s))
    && (s.phase == Leaving ==> WillWake(s))
    && (s.pending != [] ==> WillWake(s) || s.phase == Kicking || s.phase == Dispatching || s.phase == Putting)
  }

  /** Nothing is lost, repeated or reordered on the way. */
  predicate Conserved(s: Path) {
    s.sent + s.ring + Concat(s.pending) == s.accepted
  }

  predicate Inv(s: Path) {
    Bounded(s) && Wakeful(s) && Conserved(s)
  }

  lemma IrqWakeful(s: Path, txe: bool, tc: bool)
    requires Bounded(s) && Wakeful(s)
    ensures Bounded(OnIrq(s, txe, tc)) && Wakeful(OnIrq(s, txe, tc))
  {
  }

  lemma NextWakeful(s: Path, t: Step)
    requires Bounded(s) && Wakeful(s) && Enabled(s, t)
    ensures Bounded(Next(s, t)) && Wakeful(Next(s, t))
  {
    hide OnIrq, Truncated;
    if t.Irq? {
      hide Bounded, Wakeful;
      IrqWakeful(s, t.txe, t.tc);
    }
  }

  lemma NextConserves(s: Path, t: Step)
    requires Inv(s) && Enabled(s, t)
    ensures Conserved(Next(s, t))
  {
    match t
    case Append(text) =>
      ConcatAppend(s.pending, Truncated(text));
    case Put =>
      PutConserves(s.pending);
    case Irq(_, _) =>
      if s.ring != [] {
        assert s.sent + s.ring == s.sent + [s.ring[0]] + s.ring[1..];
      }
    case Test =>
      if s.pending != [] && s.pending[0] == [] {
        assert Concat(s.pending) == Concat(s.pending[1..]);
      }
    case Kick =>
    case Start =>
    case Leave =>
  }

  lemma ConcatFirst(ms: seq<seq<uint8>>)
    requires ms != []
    ensures Concat(ms) == ms[0] + Concat(ms[1..])
  {
  }

  lemma PutConserves(ms: seq<seq<uint8>>)
    requires ms != [] && ms[0] != []
    ensures [ms[0][0]] + Concat(ms[0 := ms[0][1..]]) == Concat(ms)
  {
    var ns := ms[0 := ms[0][1..]];
    assert ns[1..] == ms[1..] && ms[0] == [ms[0][0]] + ms[0][1..];
    ConcatFirst(ns);
    ConcatFirst(ms);
    hide Concat;
  }

  // Every run

  predicate RunEnabled(s: Path, run: seq<Step>)
    decreases |run|, 0
  {
    run == [] || (RunEnabled(s, run[..|run| - 1]) && Enabled(After(s, run[..|run| - 1]), run[|run| - 1]))
  }

  function After(s: Path, run: seq<Step>): Path
    requires RunEnabled(s, run)
    decreases |run|, 1
  {
    if run == [] then s else Next(After(s, run[..|run| - 1]), run[|run| - 1])
  }

  lemma AfterStep(s: Path, run: seq<Step>, t: Step)
    requires RunEnabled(s, run) && Enabled(After(s, run), t)
    ensures RunEnabled(s, run + [t]) && After(s, run + [t]) == Next(After(s, run), t)
  {
    hide Next, Enabled;
    assert (run + [t])[..|run|] == run;
  }

  /** Under every interleaving: pending bytes have a wake-up on the way, and what was sent, what is in the ring and
      what the messages still hold make up exactly what was accepted. */
  lemma {:induction false} RunKeepsInv(run: seq<Step>)
    requires RunEnabled(START, run)
    ensures Inv(After(START, run))
  {
    hide Next, Enabled, Inv;
    if run == [] {
      StartOk();
    } else {
      RunKeepsInv(run[..|run| - 1]);
      NextKeepsInv(After(START, run[..|run| - 1]), run[|run| - 1]);
    }
  }

  lemma StartOk()
    ensures Inv(START)
  {
  }

  lemma NextKeepsInv(s: Path, t: Step)
    requires Inv(s) && Enabled(s, t)
    ensures Inv(Next(s, t))
  {
    hide Next, Enabled, Bounded, Wakeful, Conserved;
    NextWakeful(s, t);
    NextConserves(s, t);
  }

  // Progress

  function PhaseWork(p: Phase): nat {
    match p case Idle => 0 case Kicking => 4 case Dispatching => 2 case Putting => 1 case Leaving => 1
  }

  function PendingWork(ms: seq<seq<uint8>>): nat {
    if ms == [] then 0 else 1 + 8 * |ms[0]| + PendingWork(ms[1..])
  }

  /** What is left to do until everything accepted is on the wire. */
  function Work(s: Path): nat {
    PendingWork(s.pending) + |s.ring| + 5 * Bit(s.txeie) + 4 * Bit(s.tcie) + 3 * s.events + PhaseWork(s.phase)
  }

  /** Without new messages, every step that changes anything leaves less to do. */
  lemma WorkFalls(s: Path, t: Step)
    requires Inv(s) && Enabled(s, t) && !t.Append?
    ensures Next(s, t) == s || Work(Next(s, t)) < Work(s)
  {
    hide Conserved, Wakeful, OnIrq, PendingWork;
    if t.Irq? {
      IrqWork(s, t.txe, t.tc);
    } else if t.Put? {
      PutWork(s.pending);
    } else if t.Test? && s.pending != [] && s.pending[0] == [] {
      PopWork(s.pending);
    }
  }

  lemma IrqWork(s: Path, txe: bool, tc: bool)
    ensures OnIrq(s, txe, tc) == s || Work(OnIrq(s, txe, tc)) < Work(s)
  {
    hide PendingWork;
  }

  lemma PutWork(ms: seq<seq<uint8>>)
    requires ms != [] && ms[0] != []
    ensures PendingWork(ms[0 := ms[0][1..]]) + 8 == PendingWork(ms)
  {
    assert ms[0 := ms[0][1..]][1..] == ms[1..];
  }

  lemma PopWork(ms: seq<seq<uint8>>)
    requires ms != [] && ms[0] == []
    ensures PendingWork(ms[1..]) + 1 == PendingWork(ms)
  {
  }

  /** A step that is always available while bytes are unsent. */
  function Available(s: Path): Step {
    match s.phase
    case Kicking => Kick
    case Dispatching => Test
    case Putting => Put
    case Leaving => Leave
    case Idle => if s.events > 0 then Start else Irq(true, true)
  }

  predicate Unsent(s: Path) {
    s.pending != [] || s.ring != []
  }

  /** Output never stalls: while bytes are unsent a step is available that changes the state. */
  lemma NeverStuck(s: Path)
    requires Inv(s) && Unsent(s)
    ensures var t := Available(s); !t.Append? && Enabled(s, t) && Next(s, t) != s
  {
    hide Concat;
  }

  /** Taking available steps until nothing is unsent. */
  function Settle(s: Path): (r: Path)
    requires Inv(s)
    ensures Inv(r)
    decreases Work(s)
  {
    if !Unsent(s) then s
    else
      NeverStuck(s);
      WorkFalls(s, Available(s));
      NextKeepsInv(s, Available(s));
      Settle(Next(s, Available(s)))
  }

  /** From every reachable state all accepted bytes reach the wire, in order. */
  lemma {:induction false} SettleSendsAll(s: Path)
    requires Inv(s)
    ensures Settle(s).sent == s.accepted && Settle(s).accepted == s.accepted
    decreases Work(s)
  {
    hide Inv, Enabled;
    if Unsent(s) {
      NeverStuck(s);
      WorkFalls(s, Available(s));
      NextKeepsInv(s, Available(s));
      assert Next(s, Available(s)).accepted == s.accepted;
      SettleSendsAll(Next(s, Available(s)));
    } else {
      SentAll(s);
    }
  }

  lemma SentAll(s: Path)
    requires Inv(s) && !Unsent(s)
    ensures s.sent == s.accepted
  {
  }

  /** What the callers were told is on its way: of every text that is not empty and meets fewer than 64 waiting
      messages, the first 96 bytes. */
  function Promised(run: seq<Step>): seq<uint8>
    requires RunEnabled(START, run)
  {
    if run == [] then []
    else
      var init, t := run[..|run| - 1], run[|run| - 1];
      Promised(init)
      + if t.Append? && |After(START, init).pending| < 64 then t.text[..Min(|t.text|, 96)] else []
  }

  lemma {:induction false} AcceptedIsPromised(run: seq<Step>)
    requires RunEnabled(START, run)
    ensures After(START, run).accepted == Promised(run)
  {
    hide Next, Enabled;
    if run != [] {
      AcceptedIsPromised(run[..|run| - 1]);
      StepAccepts(After(START, run[..|run| - 1]), run[|run| - 1]);
    }
  }

  lemma StepAccepts(s: Path, t: Step)
    requires Enabled(s, t)
    ensures Next(s, t).accepted
            == s.accepted + if t.Append? && |s.pending| < 64 then t.text[..Min(|t.text|, 96)] else []
  {
  }

  /** Whatever the interleaving so far, taking available steps puts on the wire exactly what was promised. */
  lemma RunSendsPromised(run: seq<Step>)
    requires RunEnabled(START, run)
    ensures Inv(After(START, run)) && Settle(After(START, run)).sent == Promised(run)
  {
    hide After, Settle, Promised, Inv;
    RunKeepsInv(run);
    SettleSendsAll(After(START, run));
    AcceptedIsPromised(run);
  }

  /** Steps of the run that change the state. */
  function Effective(s: Path, run: seq<Step>): nat
    requires RunEnabled(s, run)
  {
    if run == [] then 0
    else
      var r := After(s, run[..|run| - 1]);
      Effective(s, run[..|run| - 1]) + if Next(r, run[|run| - 1]) != r then 1 else 0
  }

  /** Whatever order interrupts and tasks run in, without new messages at most Work(s) steps change anything. */
  lemma {:induction false} BoundedWork(s: Path, run: seq<Step>)
    requires Inv(s) && RunEnabled(s, run) && forall i :: 0 <= i < |run| ==> !run[i].Append?
    ensures Inv(After(s, run)) && Effective(s, run) + Work(After(s, run)) <= Work(s)
  {
    hide Next, Enabled, Inv, Work;
    if run != [] {
      var init, t := run[..|run| - 1], run[|run| - 1];
      assert !run[|run| - 1].Append?;
      BoundedWork(s, init);
      NextKeepsInv(After(s, init), t);
      WorkFalls(After(s, init), t);
    }
  }
}
