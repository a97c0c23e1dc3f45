/**
 The console task and the transmit half of the UART driver: a ring of messages, a ring of bytes, the two interrupt
 enables, and the wake-up flag. Each method is proved to perform steps of the ConsolePath machine; `irqs` says
 which interrupts fall before each of its atomic steps.
 */
module Console {
  import opened Words
  import opened Rings
  import opened ConsolePath

  datatype Rc = Ok | ErrParam | ErrFull | ErrQueueFull

  datatype Message = Message(len: nat, off: nat, data: seq<uint8>) {
    predicate Valid() {
      off <= len <= |data| == MSG_MAX
    }

    function Rest(): seq<uint8>
      requires Valid()
    {
      data[off..len]
    }
  }

  predicate AllValid(ms: seq<Message>) {
    forall i :: 0 <= i < |ms| ==> ms[i].Valid()
  }

  function Rests(ms: seq<Message>): (r: seq<seq<uint8>>)
    requires AllValid(ms)
    ensures |r| == |ms|
  {
    seq(|ms|, i requires 0 <= i < |ms| => ms[i].Rest())
  }

  /** Status flags an interrupt sees. */
  datatype Flags = Flags(txe: bool, tc: bool)

  class Output {
    const slots: array<Message>
    var head: nat
    var tail: nat
    var count: nat
    var wakePosted: bool
    var dropped: uint32
    var events: nat
    const txBuf: array<uint8>
    var txHead: nat
    var txTail: nat
    var txeie: bool
    var tcie: bool
    var wire: seq<uint8>
    ghost var phase: Phase
    ghost var accepted: seq<uint8>
    /** Every step taken so far. */
    ghost var history: seq<Step>

    ghost predicate Valid()
      reads this, slots
    {
      MessagesValid() && UartValid() && events <= EVENT_CAP
    }

    ghost predicate MessagesValid()
      reads this`head, this`tail, this`count, slots
    {
      && slots.Length == MSG_SLOTS && head < MSG_SLOTS && tail < MSG_SLOTS && count <= MSG_SLOTS
      && head == RingSlot(tail, count, MSG_SLOTS) && AllValid(slots[..])
    }

    ghost predicate UartValid()
      reads this`txHead, this`txTail
    {
      txBuf.Length == TX_SIZE && txHead < TX_SIZE && txTail < TX_SIZE
    }

    ghost function Pending(): (ms: seq<seq<uint8>>)
      requires MessagesValid()
      reads this`head, this`tail, this`count, slots
      ensures |ms| == count
    {
      Rests(Window(slots[..], tail, count))
    }

    ghost function Ring(): (s: seq<uint8>)
      requires UartValid()
      reads this`txHead, this`txTail, txBuf
      ensures |s| == Filled(txHead, txTail, TX_SIZE)
    {
      Window(txBuf[..], txTail, Filled(txHead, txTail, TX_SIZE))
    }

    ghost function State(): Path
      requires Valid()
      reads this, slots, txBuf
    {
      Path(Pending(), wakePosted, events, phase, Ring(), txeie, tcie, wire, accepted)
    }

    /** The state is the one the recorded run leads to. */
    ghost predicate Reached()
      reads this, slots, txBuf
    {
      Valid() && RunEnabled(START, history) && State() == After(START, history)
    }

    constructor ()
      ensures Reached() && State() == START && fresh(slots) && fresh(txBuf)
    {
      slots := new Message[MSG_SLOTS](i => Message(0, 0, Zeros(MSG_MAX)));
      txBuf := new uint8[TX_SIZE](i => 0);
      head, tail, count, wakePosted, dropped, events := 0, 0, 0, false, 0, 0;
      txHead, txTail, txeie, tcie, wire := 0, 0, false, false, [];
      phase, accepted, history := Idle, [], [];
    }

    method SendByte()
      requires UartValid() && txHead != txTail
      modifies this`txTail, this`wire
      ensures UartValid() && old(Ring()) == [old(Ring())[0]] + Ring() && wire == old(wire) + [old(Ring())[0]]
    {
      WindowPop(txBuf[..], txTail, Filled(txHead, txTail, TX_SIZE));
      Increment(txTail, TX_SIZE);
      wire := wire + [txBuf[txTail]];
      txTail := (txTail + 1) % TX_SIZE;
    }

    method TransmitEmpty()
      requires Valid()
      modifies this`txTail, this`txeie, this`tcie, this`wire
      ensures Valid() && State() == OnEmpty(old(State()))
    {
      hide Output.Pending, Output.Ring, Output.MessagesValid;
      if txHead != txTail {
        SendByte();
      } else {
        txeie := false;
        tcie := true;
      }
    }

    method TransmitComplete()
      requires Valid()
      modifies this`tcie, this`events
      ensures Valid() && State() == OnComplete(old(State()))
    {
      hide Output.Pending, Output.Ring, Output.MessagesValid;
      tcie := false;
      if events < EVENT_CAP {
        events := events + 1;
      }
    }

    /** The transmit half of the interrupt handler. */
    method Interrupt(f: Flags)
      requires Valid()
      modifies this`txTail, this`txeie, this`tcie, this`wire, this`events
      ensures Valid() && State() == OnIrq(old(State()), f.txe, f.tc)
    {
      hide Output.Pending, Output.Ring, Output.MessagesValid, Output.UartValid, OnEmpty, OnComplete;
      var wasTxeie, wasTcie := txeie, tcie;
      if f.txe && wasTxeie {
        TransmitEmpty();
      }
      if f.tc && wasTcie {
        TransmitComplete();
      }
    }

    /** Put a byte into the transmit ring and arm the interrupt. */
    method PutByte(c: uint8)
      requires UartValid() && |Ring()| < TX_SIZE - 1
      modifies this`txHead, this`txeie, txBuf
      ensures UartValid() && Ring() == old(Ring()) + [c] && txeie
    {
      ghost var n := Filled(txHead, txTail, TX_SIZE);
      WindowPush(txBuf[..], txTail, n, c);
      Increment(txHead, TX_SIZE);
      ghost var was := txBuf[..];
      txBuf[txHead] := c;
      assert txBuf[..] == was[txHead := c];
      txHead := (txHead + 1) % TX_SIZE;
      assert Filled(txHead, txTail, TX_SIZE) == n + 1;
      txeie := true;
    }

    /** Interrupts that fall between two steps of the thread code. */
    method Service(fs: seq<Flags>)
      requires Reached()
      modifies this`txTail, this`txeie, this`tcie, this`wire, this`events, this`history
      ensures Reached() && events >= old(events) && Extends(history, old(history))
    {
      hide Output.Pending, Output.Ring, Output.MessagesValid, OnIrq, After, RunEnabled;
      for i := 0 to |fs|
        invariant Reached() && events >= old(events) && Extends(history, old(history))
      {
        ghost var t := Irq(fs[i].txe, fs[i].tc);
        AfterStep(START, history, t);
        IrqEvents(State(), fs[i].txe, fs[i].tc);
        Interrupt(fs[i]);
        history := history + [t];
      }
    }

    /** Copy a message into the slot at the head. */
    method AppendMessage(text: seq<uint8>)
      requires MessagesValid() && count < MSG_SLOTS && |text| <= MSG_MAX
      modifies this`head, this`count, slots
      ensures MessagesValid() && Pending() == old(Pending()) + [text]
    {
      hide Window;
      var data := slots[head].data;
      assert slots[head] == slots[..][head];
      for i := 0 to |text|
        invariant |data| == MSG_MAX && data[..i] == text[..i]
      {
        data := data[i := text[i]];
        assert data[..i + 1] == data[..i] + [text[i]] && text[..i + 1] == text[..i] + [text[i]];
      }
      var m := Message(|text|, 0, data);
      assert m.Rest() == text by {
        assert data[0..|text|] == data[..|text|] && text[..|text|] == text;
      }
      ghost var was := slots[..];
      WindowPush(was, tail, count, m);
      WindowValid(was, tail, count);
      RestsAppend(Window(was, tail, count), m);
      Increment(head, MSG_SLOTS);
      slots[head] := m;
      assert slots[..] == was[head := m];
      head := (head + 1) % MSG_SLOTS;
      count := count + 1;
    }

    /** Move past one byte of the oldest message. */
    method AdvanceFirst()
      requires MessagesValid() && count > 0 && slots[tail].off < slots[tail].len
      modifies slots
      ensures MessagesValid() && Pending() == old(Pending())[0 := old(Pending())[0][1..]]
      ensures slots[tail] == old(slots[tail]).(off := old(slots[tail]).off + 1)
    {
      hide Window;
      ghost var was := slots[..];
      var m := slots[tail];
      assert m == was[tail] && m.Valid();
      var m' := m.(off := m.off + 1);
      WindowFirst(was, tail, count, m');
      WindowValid(was, tail, count);
      assert m.Rest()[1..] == m'.Rest();
      slots[tail] := m';
      assert slots[..] == was[tail := m'];
      WindowValid(slots[..], tail, count);
    }

    /** Remove the oldest message. */
    method RemoveFirst()
      requires MessagesValid() && count > 0
      modifies this`tail, this`count
      ensures MessagesValid() && Pending() == old(Pending())[1..] && count == old(count) - 1
    {
      hide Window;
      WindowPop(slots[..], tail, count);
      WindowValid(slots[..], tail, count);
      Increment(tail, MSG_SLOTS);
      tail := (tail + 1) % MSG_SLOTS;
      count := count - 1;
      WindowValid(slots[..], tail, count);
    }

    ghost predicate FirstIs(m: Message)
      requires MessagesValid()
      reads this`head, this`tail, this`count, slots
    {
      count > 0 && m == slots[tail] && m.Valid() && Pending() != [] && Pending()[0] == m.Rest()
    }

    lemma FirstPending()
      requires MessagesValid() && count > 0
      ensures FirstIs(slots[tail])
    {
      hide Window;
      WindowHead(slots[..], tail, count);
      WindowValid(slots[..], tail, count);
    }

    /** Record a step of the machine that the code has just taken. */
    ghost method Record(s: Path, t: Step)
      requires RunEnabled(START, history) && s == After(START, history) && Enabled(s, t)
      requires Valid() && State() == Next(s, t)
      modifies this`history
      ensures Reached() && history == old(history) + [t] && State() == old(State())
    {
      AfterStep(START, history, t);
      history := history + [t];
    }

    /** Take the next event and enter the dispatch loop. */
    method BeginDispatch()
      requires Reached() && phase == Idle && events > 0
      modifies this`events, this`phase, this`history
      ensures Reached() && phase == Dispatching && Extends(history, old(history))
    {
      hide Output.Pending, Output.Ring, Output.MessagesValid, After, RunEnabled;
      ghost var s := State();
      events := events - 1;
      phase := Dispatching;
      Record(s, Start);
    }

    /** The room test of a byte that is about to be put. */
    method HasRoom() returns (room: bool)
      requires Reached() && phase == Dispatching && count > 0 && slots[tail].off < slots[tail].len
      modifies this`phase, this`history
      ensures Reached() && phase == (if room then Putting else Leaving) && Extends(history, old(history))
    {
      hide Output.Pending, Output.Ring, Output.MessagesValid, After, RunEnabled;
      MessagesSized();
      FirstPending();
      assert |slots[tail].Rest()| == slots[tail].len - slots[tail].off;
      ghost var s := State();
      Increment(txHead, TX_SIZE);
      room := (txHead + 1) % TX_SIZE != txTail;
      phase := if room then Putting else Leaving;
      Record(s, Test);
    }

    /** Hand the next byte of the oldest message to the driver. */
    method PutNext()
      requires Reached() && phase == Putting && count > 0 && slots[tail].off < slots[tail].len
      modifies this`phase, this`history, this`txHead, this`txeie, txBuf, slots
      ensures Reached() && phase == Dispatching && Extends(history, old(history))
      ensures slots[tail] == old(slots[tail]).(off := old(slots[tail]).off + 1)
    {
      hide Output.Pending, Output.Ring, Output.MessagesValid, After, RunEnabled, Inv;
      MessagesSized();
      FirstPending();
      assert |slots[tail].Rest()| == slots[tail].len - slots[tail].off;
      ghost var s := State();
      PuttingHasRoom(s, history);
      assert slots[tail].Rest()[0] == slots[tail].data[slots[tail].off];
      PutByte(slots[tail].data[slots[tail].off]);
      AdvanceFirst();
      phase := Dispatching;
      Record(s, Put);
    }

    method RemoveSent()
      requires Reached() && phase == Dispatching && count > 0 && slots[tail].off >= slots[tail].len
      modifies this`tail, this`count, this`history
      ensures Reached() && phase == Dispatching && Extends(history, old(history)) && count == old(count) - 1
    {
      hide Output.Pending, Output.Ring, Output.MessagesValid, After, RunEnabled;
      MessagesSized();
      FirstPending();
      assert |slots[tail].Rest()| == slots[tail].len - slots[tail].off;
      ghost var s := State();
      RemoveFirst();
      Record(s, Test);
    }

    /** Leave the dispatch function, the ring being full or no message being left. */
    method EndDispatch()
      requires Reached() && (phase == Leaving || (phase == Dispatching && count == 0))
      modifies this`wakePosted, this`phase, this`history
      ensures Reached() && phase == Idle && !wakePosted && Extends(history, old(history))
    {
      hide Output.Pending, Output.Ring, Output.MessagesValid, After, RunEnabled;
      ghost var s, t := State(), if phase == Leaving then Leave else Test;
      wakePosted := false;
      phase := Idle;
      Record(s, t);
    }

    /** The console task's dispatch. */
    method Dispatch(irqs: nat -> seq<Flags>)
      requires Reached() && phase == Idle && events > 0
      modifies this, slots, txBuf
      ensures Reached() && phase == Idle && !wakePosted && accepted == old(accepted) && Extends(history, old(history))
    {
      ExtendsTransitive();
      hide Output.Reached, Inv, Extends;
      var k := 0;
      BeginDispatch();
      ReachedSized();
      while count > 0
        invariant Reached() && slots.Length == MSG_SLOTS && tail < MSG_SLOTS && phase == Dispatching
        invariant accepted == old(accepted) && Extends(history, old(history))
        decreases count
      {
        ghost var n := count;
        while slots[tail].off < slots[tail].len
          invariant Reached() && slots.Length == MSG_SLOTS && tail < MSG_SLOTS && phase == Dispatching && count == n
          invariant accepted == old(accepted) && Extends(history, old(history))
          decreases slots[tail].len - slots[tail].off
        {
          Service(irqs(k));
          var room := HasRoom();
          Service(irqs(k + 1));
          k := k + 2;
          if !room {
            EndDispatch();
            return;
          }
          PutNext();
        }
        Service(irqs(k));
        k := k + 1;
        RemoveSent();
        ReachedSized();
      }
      EndDispatch();
    }

    lemma ReachedSized()
      requires Reached()
      ensures slots.Length == MSG_SLOTS && tail < MSG_SLOTS && count <= MSG_SLOTS
    {
    }

    /** Append a message unless the ring is full. */
    method Accept(text: seq<uint8>) returns (ok: bool)
      requires Reached() && phase == Idle && text != []
      modifies this`head, this`count, this`dropped, this`phase, this`accepted, this`history, slots
      ensures Reached() && ok == (old(count) < MSG_SLOTS) && Extends(history, old(history))
      ensures ok ==> phase == Kicking && accepted == old(accepted) + Truncated(text)
      ensures !ok ==> phase == Idle && accepted == old(accepted) && dropped == (old(dropped) + 1) % TWO_32
    {
      hide Output.Pending, Output.Ring, Output.MessagesValid, After, RunEnabled;
      MessagesSized();
      ghost var s := State();
      if count >= MSG_SLOTS {
        dropped := (dropped + 1) % TWO_32;
        Record(s, Append(text));
        return false;
      }
      var part := if |text| > MSG_MAX then text[..MSG_MAX] else text;
      AppendMessage(part);
      accepted := accepted + part;
      phase := Kicking;
      Record(s, Append(text));
      ok := true;
    }

    lemma MessagesSized()
      requires MessagesValid()
      ensures count <= MSG_SLOTS == slots.Length && tail < MSG_SLOTS
    {
    }

    /** Wake the console task unless a wake-up is already on its way. */
    method KickTask() returns (rc: Rc)
      requires Reached() && phase == Kicking
      modifies this`wakePosted, this`events, this`phase, this`history
      ensures Reached() && phase == Idle && Extends(history, old(history))
      ensures rc == if old(wakePosted) || old(events) < EVENT_CAP then Ok else ErrQueueFull
      ensures events > 0
    {
      hide Output.Pending, Output.Ring, Output.MessagesValid, After, RunEnabled, Inv;
      ghost var s := State();
      if wakePosted {
        WokenHasEvent(s, history);
      }
      phase := Idle;
      rc := Ok;
      if !wakePosted {
        if events < EVENT_CAP {
          events := events + 1;
          wakePosted := true;
        } else {
          rc := ErrQueueFull;
        }
      }
      Record(s, Kick);
    }

    /** Queue a text of up to 96 bytes. A message whose kick finds the event queue full stays accepted. */
    method Enqueue(text: seq<uint8>, irqs: seq<Flags>) returns (rc: Rc)
      requires Reached() && phase == Idle
      modifies this, slots
      ensures Reached() && phase == Idle && Extends(history, old(history))
      ensures rc == ErrParam <==> text == []
      ensures rc == ErrFull <==> text != [] && old(count) >= MSG_SLOTS
      ensures accepted == old(accepted) + if rc == ErrParam || rc == ErrFull then [] else Truncated(text)
      ensures text != [] && rc != ErrFull ==> events > 0
    {
      ExtendsTransitive();
      hide Output.Reached, Inv, Extends;
      if text == [] {
        return ErrParam;
      }
      var ok := Accept(text);
      if !ok {
        return ErrFull;
      }
      Service(irqs);
      rc := KickTask();
    }

    /** Write a text of any length in pieces. On success all of it is accepted, otherwise a prefix. */
    method WriteText(text: seq<uint8>, irqs: nat -> seq<Flags>) returns (rc: Rc)
      requires Reached() && phase == Idle
      modifies this, slots
      ensures Reached() && phase == Idle && Extends(history, old(history))
      ensures rc == ErrParam <==> text == []
      ensures rc == Ok ==> accepted == old(accepted) + text
      ensures old(accepted) <= accepted <= old(accepted) + text
    {
      ExtendsTransitive();
      hide Output.Reached, Inv, Extends;
      if text == [] {
        return ErrParam;
      }
      var off: nat := 0;
      while off < |text|
        invariant off <= |text| && Reached() && phase == Idle && Extends(history, old(history))
        invariant accepted == old(accepted) + text[..off]
      {
        var chunk := if |text| - off > MSG_MAX then MSG_MAX else |text| - off;
        rc := Enqueue(text[off..off + chunk], irqs(off));
        assert text[..off + chunk] == text[..off] + text[off..off + chunk];
        if rc != Ok {
          return;
        }
        off := off + chunk;
      }
      rc := Ok;
    }
  }

  ghost predicate Extends(h: seq<Step>, was: seq<Step>) {
    |h| >= |was| && h[..|was|] == was
  }

  lemma ExtendsTransitive()
    ensures forall a, b, c :: Extends(a, b) && Extends(b, c) ==> Extends(a, c)
    ensures forall a :: Extends(a, a)
  {
    forall a, b, c | Extends(a, b) && Extends(b, c)
      ensures Extends(a, c)
    {
      assert a[..|c|] == a[..|b|][..|c|];
    }
  }

  lemma IrqEvents(s: Path, txe: bool, tc: bool)
    ensures OnIrq(s, txe, tc).events >= s.events
  {
  }

  lemma WindowValid(ms: seq<Message>, t: nat, c: nat)
    requires AllValid(ms) && c <= |ms| && t < |ms|
    ensures AllValid(Window(ms, t, c))
  {
  }

  lemma WindowHead(ms: seq<Message>, t: nat, c: nat)
    requires 0 < c <= |ms| && t < |ms|
    ensures Window(ms, t, c)[0] == ms[t]
  {
  }

  lemma WindowFirst(ms: seq<Message>, t: nat, c: nat, m: Message)
    requires 0 < c <= |ms| && t < |ms|
    ensures Window(ms[t := m], t, c) == Window(ms, t, c)[0 := m] && Window(ms, t, c)[0] == ms[t]
  {
  }

  lemma RestsAppend(ms: seq<Message>, m: Message)
    requires AllValid(ms) && m.Valid()
    ensures AllValid(ms + [m]) && Rests(ms + [m]) == Rests(ms) + [m.Rest()]
  {
  }

  lemma PuttingHasRoom(s: Path, run: seq<Step>)
    requires RunEnabled(START, run) && s == After(START, run) && s.phase == Putting
    ensures |s.ring| < TX_SIZE - 1
  {
    hide Next, Enabled, After, RunEnabled;
    RunKeepsInv(run);
  }

  lemma WokenHasEvent(s: Path, run: seq<Step>)
    requires RunEnabled(START, run) && s == After(START, run) && s.phase == Kicking && s.wake
    ensures s.events > 0
  {
    hide Next, Enabled, After, RunEnabled;
    RunKeepsInv(run);
  }
}
