/** io/twi.h: the bus master class over its two rings, proved to act as TwiModel says. */
module TwiMasters {
  import opened Words
  import opened RingBuffers
  import opened TwiModel
  import opened EepromBus

  class TwiMaster {
    var state: BusState
    var error: Error
    var slarw: Byte
    var received: Byte
    var requested: Byte
    const input: RingBuffer
    const output: RingBuffer
    var command: Command  // the bus register written by the last call, if any
    var bus: Bus          // the wire and what is attached to it

    constructor (inputSize: nat, outputSize: nat, bus: Bus)
      requires bus.Valid()
      requires 0 < inputSize < 256 && PowerOfTwo(inputSize)
      requires 0 < outputSize < 256 && PowerOfTwo(outputSize)
      ensures Valid() && fresh(input) && fresh(output) && fresh(input.buffer) && fresh(output.buffer)
      ensures View() == Master(Ready, NoError, 0, 0, 0, [], inputSize, [], outputSize) && this.bus == bus
    {
      this.bus := bus;
      state, error, slarw, received, requested, command := Ready, NoError, 0, 0, 0, NoCommand;
      input := new RingBuffer(inputSize);
      output := new RingBuffer(outputSize);
    }

    ghost predicate Valid()
      reads this, input, output
      ensures Valid() ==> input.Valid() && output.Valid() && bus.Valid()
    {
      input != output && input.buffer != output.buffer && input.Valid() && output.Valid() && bus.Valid()
    }

    ghost function View(): (m: Master)
      requires Valid()
      reads this, input, output, input.buffer, output.buffer
      ensures m.Valid()
    {
      Master(state, error, slarw, received, requested, input.Contents(), input.size, output.Contents(), output.size)
    }

    method Request(address: Byte, n: Byte) returns (granted: Byte)
      requires Valid()
      modifies this
      ensures Valid()
      ensures (View(), command, granted) == TwiModel.Request(old(View()), address, n)
      ensures bus == Exec(old(bus), command)
    {
      command := NoCommand;
      if n >= input.Writable() {
        return 0;
      }
      if state != Ready {
        return 0;
      }
      error := NoError;
      state := Receiving;
      slarw := Wrap8(2 * address) + 1;
      received := 0;
      requested := n;
      command := Address(slarw);
      bus := Exec(bus, command);
      return n;
    }

    method Send(address: Byte) returns (sent: nat)
      requires Valid()
      modifies this
      ensures Valid()
      ensures (View(), command, sent) == TwiModel.Send(old(View()), address)
      ensures bus == Exec(old(bus), command)
    {
      command := NoCommand;
      if output.Readable() == 0 {
        return 0;
      }
      if state != Ready {
        return 0;
      }
      error := NoError;
      state := Transmitting;
      slarw := Wrap8(2 * address);
      sent := output.Readable();
      command := Address(slarw);
      bus := Exec(bus, command);
    }

    method InterruptHandler(status: Status, data: Byte)
      requires Valid()
      modifies this, input, output, input.buffer
      ensures Valid()
      ensures (View(), command) == Handle(old(View()), status, data)
      ensures bus == Exec(old(bus), command)
      ensures status.arbLost ==> Faulted(ArbitrationLost, NoCommand)
      ensures !status.arbLost && status.busErr ==> Faulted(BusError, NoCommand)
      ensures !status.arbLost && !status.busErr && status.wif && status.rxNack ==> Faulted(NoAck, Stop)
      ensures !status.arbLost && !status.busErr && !status.wif && !status.rif ==> Faulted(UnexpectedState, NoCommand)
      ensures !status.arbLost && !status.busErr && (if status.wif then !status.rxNack else status.rif) ==>
        error == old(error)
    {
      hide Window;
      command := NoCommand;
      if status.arbLost || status.busErr {
        error := if status.arbLost then ArbitrationLost else BusError;
        state := Ready;
      } else if status.wif {
        if status.rxNack {
          error := NoAck;
          state := Ready;
          command := Stop;
        } else if output.Readable() > 0 {
          var value := output.ImmediateRead();
          command := Data(value);
        } else if received < requested {
          command := Address(slarw);
        } else {
          command := Stop;
          state := Ready;
        }
      } else if status.rif {
        input.Overwrite(data);
        received := Wrap8(received + 1);
        if received < requested {
          command := ReceiveMore;
        } else {
          command := NackStop;
          state := Ready;
        }
      } else {
        error := UnexpectedState;
        state := Ready;
      }
      bus := Exec(bus, command);
    }

    /** The transfer is over with an error; what is queued on either side stays. */
    twostate predicate Faulted(fault: Error, answer: Command)
      requires old(Valid()) && Valid()
      reads this, input, output, input.buffer, output.buffer
    {
      && state == Ready && error == fault && command == answer
      && input.Contents() == old(input.Contents()) && output.Contents() == old(output.Contents())
    }

    /** Spins until the interrupts have finished the transfer. */
    method Wait() returns (result: Error)
      requires Valid() && Live(View(), bus) && (state.Receiving? ==> received < 255)
      modifies this, input, output, input.buffer
      ensures Valid()
      ensures (View(), bus) == Settle(old(View()), old(bus)) && result == error
    {
      hide Window, Tick, PowerOfTwo;
      while state != Ready
        invariant Valid() && Live(View(), bus) && (state.Receiving? ==> received < 255)
        invariant Settle(View(), bus) == Settle(old(View()), old(bus))
        decreases Remaining(View())
      {
        TickIsProgress(View(), bus);
        Interrupt();
      }
      return error;
    }

    /** The hardware calls the handler with the status the bus presents. */
    method Interrupt()
      requires Valid()
      modifies this, input, output, input.buffer
      ensures Valid()
      ensures (View(), bus) == Tick(old(View()), old(bus))
    {
      hide Handle;
      InterruptHandler(StatusOf(bus.event), DataOf(bus.event));
    }
  }
}
