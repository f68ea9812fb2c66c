/**
 * io/twi.h over whole runs: main-program calls interleaved with interrupts. Request makes
 * its room check and its commitment at two different moments, with interrupts in between.
 */
module TwiSafety {
  import opened Words
  import opened RingBuffers
  import opened TwiModel

  /** Where the main program stands: between calls, or inside Request past its room check. */
  datatype Main = Calm | Checked(address: Byte, n: Byte)

  datatype System = System(m: Master, main: Main)

  datatype Action =
    | CheckRoom(address: Byte, n: Byte)
    | Finish
    | MainRead
    | MainFlush
    | MainWrite(value: Byte)
    | MainFlushOutput
    | MainSend(address: Byte)
    | Interrupt(status: Status, data: Byte)

  /** Main-side calls are sequential; the bus delivers received bytes only while receiving. */
  predicate Enabled(s: System, a: Action) {
    match a
    case Finish => s.main.Checked?
    case Interrupt(st, _) => IsReadInterrupt(st) ==> s.m.state.Receiving?
    case _ => s.main.Calm?
  }

  function Step(s: System, a: Action): System {
    match a
    case CheckRoom(address, n) => if n >= s.m.InputRoom() then s else s.(main := Checked(address, n))
    case Finish => if s.main.Calm? then s else System(Commit(s.m, s.main.address, s.main.n).0, Calm)
    case MainRead => if s.m.input == [] then s else s.(m := s.m.(input := s.m.input[1..]))
    case MainFlush => s.(m := s.m.(input := []))
    case MainWrite(v) =>
      if |s.m.output| >= s.m.outputSize - 1 then s else s.(m := s.m.(output := s.m.output + [v]))
    case MainFlushOutput => s.(m := s.m.(output := []))
    case MainSend(address) => s.(m := Send(s.m, address).0)
    case Interrupt(st, data) => s.(m := Handle(s.m, st, data).0)
  }

  /** Bytes the bus may still deliver before reception ends (a request for 0 gets one). */
  function Pending(m: Master): int {
    if !m.state.Receiving? then 0
    else if m.received < m.requested then m.requested - m.received
    else 1
  }

  /** Everything still to come fits, with a place to spare unless nothing was asked for. */
  predicate ReceiveSafe(m: Master) {
    && m.Valid()
    && (m.state.Receiving? ==>
          && (m.received < m.requested || m.received == m.requested == 0)
          && m.requested - m.received < m.InputRoom())
  }

  /** Transfers end only when nothing is outstanding, unless an error is recorded. */
  predicate ReadyIsComplete(m: Master) {
    m.state.Ready? && m.error.NoError? ==> m.received >= m.requested
  }

  predicate Inv(s: System) {
    && ReceiveSafe(s.m)
    && ReadyIsComplete(s.m)
    && (s.main.Checked? ==> s.main.n + Pending(s.m) < s.m.InputRoom())
  }

  /** A Request that is refused on the spot, or leaves room for the bytes still outstanding. */
  predicate Fits(m: Master, n: Byte) {
    n >= m.InputRoom() || n + Pending(m) < m.InputRoom()
  }

  /** The caller's discipline: every Request fits. One begun while nothing is being received always does. */
  predicate Disciplined(s: System, a: Action) {
    a.CheckRoom? ==> Fits(s.m, a.n)
  }

  lemma {:induction false} StepKeepsInv(s: System, a: Action)
    requires Inv(s) && Enabled(s, a) && Disciplined(s, a)
    ensures Inv(Step(s, a))
  {
  }

  predicate IsRun(s: System, actions: seq<Action>)
    decreases |actions|
  {
    actions == [] || (Enabled(s, actions[0]) && Disciplined(s, actions[0]) && IsRun(Step(s, actions[0]), actions[1..]))
  }

  function Final(s: System, actions: seq<Action>): System
    decreases |actions|
  {
    if actions == [] then s else Final(Step(s, actions[0]), actions[1..])
  }

  lemma {:induction false} RunKeepsInv(s: System, actions: seq<Action>)
    requires Inv(s) && IsRun(s, actions)
    ensures Inv(Final(s, actions))
    decreases |actions|
  {
    hide Inv, Step;
    if actions != [] {
      StepKeepsInv(s, actions[0]);
      RunKeepsInv(Step(s, actions[0]), actions[1..]);
    }
  }

  function PowerOn(inputSize: nat, outputSize: nat): System {
    System(Master(Ready, NoError, 0, 0, 0, [], inputSize, [], outputSize), Calm)
  }

  /**
   * Receive ring safety, and completeness of READY: in every disciplined run from power-on
   * the outstanding bytes fit while receiving, the handler's unguarded write never meets a
   * full queue, and READY without error means everything requested has arrived.
   */
  lemma {:induction false} ReceiveRingSafety(
      inputSize: nat, outputSize: nat, actions: seq<Action>, st: Status, data: Byte)
    requires inputSize > 0 && outputSize > 0
    requires IsRun(PowerOn(inputSize, outputSize), actions)
    ensures var m := Final(PowerOn(inputSize, outputSize), actions).m;
      && (m.state.Receiving? ==> m.requested - m.received < m.InputRoom())
      && (m.state.Ready? && m.error.NoError? ==> m.received >= m.requested)
      && (m.state.Receiving? && IsReadInterrupt(st) ==> Handle(m, st, data).0.input == m.input + [data])
  {
    RunKeepsInv(PowerOn(inputSize, outputSize), actions);
  }

  // ------------------------------------------------- Request begun while receiving

  /** A list of interrupts, any of them possible at its moment. */
  predicate Interrupts(m: Master, events: seq<(Status, Byte)>)
    decreases |events|
  {
    events == [] ||
    ((IsReadInterrupt(events[0].0) ==> m.state.Receiving?)
      && Interrupts(Handle(m, events[0].0, events[0].1).0, events[1..]))
  }

  function After(m: Master, events: seq<(Status, Byte)>): Master
    decreases |events|
  {
    if events == [] then m else After(Handle(m, events[0].0, events[0].1).0, events[1..])
  }

  /** The state when Request(address, n) completes, with `events` between its two halves. */
  function SlowRequest(m: Master, address: Byte, n: Byte, events: seq<(Status, Byte)>): Master {
    if n >= m.InputRoom() then After(m, events) else Commit(After(m, events), address, n).0
  }

  const READ_INTERRUPT := Status(false, false, false, false, true)

  function Deliveries(k: nat): (events: seq<(Status, Byte)>)
    ensures |events| == k
  {
    seq(k, _ => (READ_INTERRUPT, 0))
  }

  lemma {:induction false} PendingNeverGrows(m: Master, events: seq<(Status, Byte)>)
    requires ReceiveSafe(m) && Interrupts(m, events)
    ensures var t := After(m, events);
      && ReceiveSafe(t) && t.inputSize == m.inputSize
      && t.InputRoom() - Pending(t) >= m.InputRoom() - Pending(m)
    decreases |events|
  {
    if events != [] {
      HandleKeepsSlack(m, events[0].0, events[0].1);
      PendingNeverGrows(Handle(m, events[0].0, events[0].1).0, events[1..]);
    }
  }

  lemma {:induction false} HandleKeepsSlack(m: Master, st: Status, data: Byte)
    requires ReceiveSafe(m) && (IsReadInterrupt(st) ==> m.state.Receiving?)
    ensures var t := Handle(m, st, data).0;
      && ReceiveSafe(t) && t.inputSize == m.inputSize
      && t.InputRoom() - Pending(t) >= m.InputRoom() - Pending(m)
  {
  }

  lemma {:induction false} DeliverAll(m: Master)
    requires ReceiveSafe(m) && m.state.Receiving?
    ensures Interrupts(m, Deliveries(Pending(m)))
    ensures var t := After(m, Deliveries(Pending(m)));
      && t.state.Ready? && t.InputRoom() == m.InputRoom() - Pending(m) && t.Valid()
    decreases Pending(m)
  {
    var t := Handle(m, READ_INTERRUPT, 0).0;
    HandleKeepsSlack(m, READ_INTERRUPT, 0);
    assert Deliveries(Pending(m))[1..] == Deliveries(Pending(m) - 1);
    assert Pending(t) == Pending(m) - 1;
    if t.state.Receiving? {
      DeliverAll(t);
    }
  }

  /**
   * Exactly when Request is safe to begin: whatever interrupts fall between its room check
   * and its commitment, the ring stays safe if and only if the request is refused on the
   * spot or leaves room for the bytes still outstanding.
   */
  lemma {:induction false} RequestSafeIff(m: Master, address: Byte, n: Byte)
    requires ReceiveSafe(m)
    ensures (forall events | Interrupts(m, events) :: ReceiveSafe(SlowRequest(m, address, n, events)))
      <==> Fits(m, n)
  {
    if Fits(m, n) {
      forall events | Interrupts(m, events)
        ensures ReceiveSafe(SlowRequest(m, address, n, events))
      {
        PendingNeverGrows(m, events);
      }
    } else {
      DeliverAll(m);
      assert !ReceiveSafe(SlowRequest(m, address, n, Deliveries(Pending(m))));
    }
  }

  // --------------------------------------------------------------- whole transfers

  /** What happens during a fault-free reception: a byte arrives, or the main program takes one. */
  datatype RxEvent = Arrive(data: Byte) | Take

  function Arrivals(events: seq<RxEvent>): seq<Byte> {
    if events == [] then []
    else (if events[0].Arrive? then [events[0].data] else []) + Arrivals(events[1..])
  }

  /** The master and the bytes taken, after the events. */
  function Receive(m: Master, events: seq<RxEvent>): (Master, seq<Byte>)
    decreases |events|
  {
    if events == [] then (m, [])
    else
      match events[0]
      case Arrive(d) => Receive(HandleRead(m, d).0, events[1..])
      case Take =>
        if m.input == [] then Receive(m, events[1..])
        else
          var (t, taken) := Receive(m.(input := m.input[1..]), events[1..]);
          (t, [m.input[0]] + taken)
  }

  /**
   * While no more bytes arrive than were asked for, every one of them is appended in
   * order, whatever the main program takes meanwhile; the transfer ends with the last.
   */
  lemma {:induction false} ReceptionAppends(m: Master, events: seq<RxEvent>)
    requires ReceiveSafe(m) && m.state.Receiving? && m.received < m.requested && m.error.NoError?
    requires |Arrivals(events)| <= m.requested - m.received
    ensures var (t, taken) := Receive(m, events);
      && taken + t.input == m.input + Arrivals(events)
      && t.error.NoError?
      && (t.state.Ready? <==> |Arrivals(events)| == m.requested - m.received)
      && (t.state.Receiving? || t.state.Ready?)
    decreases |events|
  {
    if events != [] {
      match events[0]
      case Arrive(d) =>
        var m2 := HandleRead(m, d).0;
        assert m2.input == m.input + [d];
        if m2.state.Ready? {
          OnlyTakes(m2, events[1..]);
        } else {
          ReceptionAppends(m2, events[1..]);
        }
      case Take =>
        if m.input == [] {
          ReceptionAppends(m, events[1..]);
        } else {
          var rest := m.(input := m.input[1..]);
          ReceptionAppends(rest, events[1..]);
          TakeFirst(m.input, Receive(rest, events[1..]).1, Receive(rest, events[1..]).0.input, Arrivals(events[1..]));
        }
    }
  }

  lemma {:induction false} OnlyTakes(m: Master, events: seq<RxEvent>)
    requires Arrivals(events) == []
    ensures var (t, taken) := Receive(m, events); taken + t.input == m.input && t.state == m.state && t.error == m.error
    decreases |events|
  {
    if events != [] {
      if m.input == [] {
        OnlyTakes(m, events[1..]);
      } else {
        var rest := m.(input := m.input[1..]);
        OnlyTakes(rest, events[1..]);
        TakeFirst(m.input, Receive(rest, events[1..]).1, Receive(rest, events[1..]).0.input, []);
      }
    }
  }

  lemma {:induction false} TakeFirst(input: seq<Byte>, taken: seq<Byte>, left: seq<Byte>, more: seq<Byte>)
    requires input != [] && taken + left == input[1..] + more
    ensures [input[0]] + taken + left == input + more
  {
    assert [input[0]] + taken + left == [input[0]] + (taken + left);
    assert [input[0]] + (input[1..] + more) == input + more;
  }

  /** A granted Request for n >= 1 bytes: the n bytes of the bus, in order, then READY. */
  lemma {:induction false} RequestDelivers(m: Master, address: Byte, n: Byte, events: seq<RxEvent>)
    requires m.Valid() && m.state.Ready? && 1 <= n < m.InputRoom()
    requires |Arrivals(events)| == n
    ensures var (started, command, granted) := Request(m, address, n);
      var (t, taken) := Receive(started, events);
      && command == Address(Slarw(address, true)) && granted == n
      && t.state.Ready? && t.error.NoError?
      && taken + t.input == m.input + Arrivals(events)
  {
    ReceptionAppends(Request(m, address, n).0, events);
  }

  /** What happens during a fault-free transmission: the bus is ready again, or the main program queues a byte. */
  datatype TxEvent = ReadyToWrite | Queue(value: Byte)

  /** The master and the commands issued, after the events; an idle bus raises no interrupt. */
  function Transmit(m: Master, events: seq<TxEvent>): (Master, seq<Command>)
    decreases |events|
  {
    if events == [] then (m, [])
    else
      match events[0]
      case ReadyToWrite =>
        if !m.state.Transmitting? then Transmit(m, events[1..])
        else
          var (m2, command) := HandleWrite(m, false);
          var (t, commands) := Transmit(m2, events[1..]);
          (t, [command] + commands)
      case Queue(v) =>
        if |m.output| >= m.outputSize - 1 then Transmit(m, events[1..])
        else Transmit(m.(output := m.output + [v]), events[1..])
  }

  /** The bytes among a list of commands. */
  function ClockedOut(commands: seq<Command>): seq<Byte> {
    if commands == [] then []
    else (if commands[0].Data? then [commands[0].value] else []) + ClockedOut(commands[1..])
  }

  /** The bytes that found room in the queue. */
  function Accepted(m: Master, events: seq<TxEvent>): seq<Byte>
    decreases |events|
  {
    if events == [] then []
    else
      match events[0]
      case ReadyToWrite =>
        if !m.state.Transmitting? then Accepted(m, events[1..]) else Accepted(HandleWrite(m, false).0, events[1..])
      case Queue(v) =>
        if |m.output| >= m.outputSize - 1 then Accepted(m, events[1..])
        else [v] + Accepted(m.(output := m.output + [v]), events[1..])
  }

  /** However the main program refills the queue, bytes leave in the order they entered. */
  lemma {:induction false} TransmissionIsFifo(m: Master, events: seq<TxEvent>)
    ensures var (t, commands) := Transmit(m, events);
      ClockedOut(commands) + t.output == m.output + Accepted(m, events)
    decreases |events|
  {
    if events != [] {
      match events[0]
      case ReadyToWrite =>
        if !m.state.Transmitting? {
          TransmissionIsFifo(m, events[1..]);
        } else {
          var (m2, command) := HandleWrite(m, false);
          TransmissionIsFifo(m2, events[1..]);
          var commands := Transmit(m2, events[1..]).1;
          assert ([command] + commands)[1..] == commands;
          if command.Data? {
            TakeFirst(m.output, ClockedOut(commands), Transmit(m2, events[1..]).0.output, Accepted(m2, events[1..]));
          }
        }
      case Queue(v) =>
        if |m.output| >= m.outputSize - 1 {
          TransmissionIsFifo(m, events[1..]);
        } else {
          var m2 := m.(output := m.output + [v]);
          TransmissionIsFifo(m2, events[1..]);
          assert m.output + [v] + Accepted(m2, events[1..]) == m.output + ([v] + Accepted(m2, events[1..]));
        }
    }
  }

  function DataCommands(bytes: seq<Byte>): (cs: seq<Command>)
    ensures |cs| == |bytes|
  {
    if bytes == [] then [] else [Data(bytes[0])] + DataCommands(bytes[1..])
  }

  function Quiet(k: nat): (events: seq<TxEvent>)
    ensures |events| == k
  {
    seq(k, _ => ReadyToWrite)
  }

  /** With nothing refilling the queue: its bytes in FIFO order, then STOP, then READY. */
  lemma {:induction false} TransmissionDrains(m: Master)
    requires m.state.Transmitting? && m.error.NoError? && m.received >= m.requested
    ensures Transmit(m, Quiet(|m.output| + 1))
      == (m.(state := Ready, output := []), DataCommands(m.output) + [Stop])
    decreases |m.output|
  {
    assert Quiet(|m.output| + 1)[1..] == Quiet(|m.output|);
    if m.output == [] {
      var m2 := m.(state := Ready);
      assert Quiet(1)[0] == ReadyToWrite && Quiet(1)[1..] == [];
      assert Transmit(m2, []) == (m2, []);
      assert [Stop] + [] == DataCommands(m.output) + [Stop];
    } else {
      var m2 := HandleWrite(m, false).0;
      TransmissionDrains(m2);
      assert DataCommands(m.output) + [Stop] == [Data(m.output[0])] + (DataCommands(m.output[1..]) + [Stop]);
    }
  }

  /** After a reception that failed part-way, the handler addresses the slave again and again. */
  lemma {:induction false} TransmissionSticks(m: Master, k: nat)
    requires m.state.Transmitting? && m.received < m.requested
    ensures Transmit(m, Quiet(k)).0.state.Transmitting?
    decreases k
  {
    if k > 0 {
      assert Quiet(k)[1..] == Quiet(k - 1);
      TransmissionSticks(HandleWrite(m, false).0, k - 1);
    }
  }

  /**
   * Exactly when a fault-free Send ever completes: if and only if no earlier reception was
   * left unfinished. (ReceiveRingSafety shows that READY without error guarantees this.)
   */
  lemma {:induction false} SendCompletesIff(m: Master, address: Byte)
    requires m.state.Ready? && m.output != []
    ensures var (started, command, sent) := Send(m, address);
      && command == Address(Slarw(address, false)) && sent == |m.output|
      && ((exists k: nat :: Transmit(started, Quiet(k)).0.state.Ready?) <==> m.received >= m.requested)
      && (m.received >= m.requested ==>
            Transmit(started, Quiet(|m.output| + 1)).1 == DataCommands(m.output) + [Stop])
  {
    var started := Send(m, address).0;
    if m.received >= m.requested {
      TransmissionDrains(started);
    } else {
      forall k: nat
        ensures Transmit(started, Quiet(k)).0.state.Transmitting?
      {
        TransmissionSticks(started, k);
      }
    }
  }

  /** A request the slave refuses leaves the master unable to complete any later Send. */
  lemma {:induction false} RefusedRequestBlocksSend(m: Master, address: Byte, n: Byte, data: Byte)
    requires m.Valid() && m.state.Ready? && 1 <= n < m.InputRoom() && m.output != []
    ensures var refused := Handle(Request(m, address, n).0, Status(false, false, true, true, false), data).0;
      && refused.state.Ready? && refused.error.NoAck?
      && !exists k: nat :: Transmit(Send(refused, address).0, Quiet(k)).0.state.Ready?
  {
    var refused := Handle(Request(m, address, n).0, Status(false, false, true, true, false), data).0;
    SendCompletesIff(refused, address);
  }
}
