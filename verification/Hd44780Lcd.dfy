/** devices/hd44780_lcd.h: the nibble queue and its drain from a timer interrupt. */
module Hd44780Lcds {
  import opened Words
  import opened RingBuffers
  import opened LcdDevice

  class Hd44780Lcd {
    const width: nat
    const height: nat
    const queue: RingBuffer
    var transmitting: bool
    var blinkCounter: Byte

    // Pins, and the controller behind them.
    var rs: bool
    var enable: bool
    var port: Byte
    var device: Device
    ghost var ticks: nat  // timer interrupts so far

    constructor (width: nat, height: nat, device: Device)
      requires device.Valid() && device.high.None?
      ensures Valid() && fresh(queue) && fresh(queue.buffer)
      ensures this.width == width && this.height == height && blinkCounter == 0
      ensures Settled() == device && queue.Contents() == []
    {
      this.width, this.height, this.device := width, height, device;
      queue := new RingBuffer(64);
      transmitting, blinkCounter, rs, enable, port := false, 0, false, false, 0;
      ticks := 0;
    }

    /** Pairs are always published whole and at even places; pins rest low. */
    ghost predicate Valid()
      reads this, queue, queue.buffer
      ensures Valid() ==> queue.Valid() && device.Valid() && port < 16 && blinkCounter == ticks % 0x100
    {
      && queue.Valid() && queue.size == 64 && queue.writePtr % 2 == 0
      && device.Valid() && port < 16
      && enable == transmitting && (!transmitting ==> !rs)
      && Settled().high.None?
      && blinkCounter == ticks % 0x100
    }

    /** The nibble on the pins, not yet latched, as it was queued. */
    function InFlight(): seq<Byte>
      requires port < 16
      reads this
    {
      if transmitting then [(if rs then 0x10 else 0) + port] else []
    }

    /** The controller once everything queued has reached it. */
    ghost function Settled(): (d: Device)
      requires queue.Valid() && device.Valid() && port < 16
      reads this, queue, queue.buffer
      ensures d.Valid()
    {
      Feed(device, InFlight() + queue.Contents())
    }

    function Writable(): (n: nat)
      requires Valid()
      reads this, queue, queue.buffer
      ensures n == 63 - |queue.Contents()|
    {
      queue.Writable()
    }

    function Busy(): bool
      reads `transmitting
    {
      transmitting
    }

    method SetEnable(level: bool)
      requires device.Valid() && port < 16
      modifies `enable, `device
      ensures device.Valid() && enable == level
      ensures device == if old(enable) && !level then Latch(old(device), rs, port) else old(device)
    {
      if enable && !level {
        device := Latch(device, rs, port);
      }
      enable := level;
    }

    method StartWrite(nibble: Byte)
      requires device.Valid() && !enable && !rs && port < 16
      modifies `rs, `port, `enable, `device
      ensures enable && device == old(device) && device.Valid()
      ensures rs == (nibble / 16 % 2 == 1) && port == nibble % 16
    {
      if nibble / 16 % 2 == 1 {
        rs := true;
      }
      port := nibble % 16;
      SetEnable(true);
    }

    method EndWrite()
      requires device.Valid() && enable && port < 16
      modifies `rs, `enable, `device
      ensures !enable && !rs && device.Valid() && device == Latch(old(device), old(rs), port)
    {
      SetEnable(false);
      rs := false;
    }

    /** The timer interrupt. It moves nibbles towards the controller; the outcome is settled already. */
    method Tick()
      requires Valid()
      modifies this, queue
      ensures Valid() && Settled() == old(Settled())
      ensures blinkCounter == Wrap8(old(blinkCounter) + 1) && ticks == old(ticks) + 1
      ensures if old(transmitting) || old(queue.Contents()) == [] then
          queue.Contents() == old(queue.Contents()) && !transmitting
        else
          queue.Contents() == old(queue.Contents())[1..] && transmitting
    {
      hide Window, PowerOfTwo, Latch;
      blinkCounter := Wrap8(blinkCounter + 1);
      ticks := ticks + 1;
      if transmitting {
        LatchFirst(device, rs, port, queue.Contents());
        EndWrite();
        transmitting := false;
        assert [] + queue.Contents() == queue.Contents();
      } else {
        if queue.Readable() > 0 {
          transmitting := true;
          ghost var waiting := queue.Contents();
          var nibble := queue.ImmediateRead();
          SameNibble(device, nibble, queue.Contents());
          StartWrite(nibble);
          assert [] + waiting == [nibble] + queue.Contents();
        }
      }
    }

    /** Any number of timer interrupts. */
    method Interrupts()
      requires Valid()
      modifies this, queue
      ensures Valid() && Settled() == old(Settled()) && Writable() >= old(Writable()) && ticks >= old(ticks)
    {
      hide Window, PowerOfTwo, Feed;
      var n :| n >= 0;
      for i := 0 to n
        invariant Valid() && Settled() == old(Settled()) && Writable() >= old(Writable()) && ticks >= old(ticks)
      {
        Tick();
      }
    }

    /** Runs the timer routine until everything queued has reached the controller. */
    method Flush()
      requires Valid()
      modifies this, queue
      ensures Valid() && queue.Contents() == [] && !transmitting && Writable() == 63 && ticks >= old(ticks)
      ensures device == old(Settled()) == Settled()
    {
      hide Window, PowerOfTwo;
      while queue.Readable() > 0 || transmitting
        invariant Valid() && Settled() == old(Settled()) && ticks >= old(ticks)
        decreases 2 * |queue.Contents()| + if transmitting then 1 else 0
      {
        Tick();
      }
      assert InFlight() + queue.Contents() == [];
    }

    method WriteByte(data: bool, value: Byte) returns (done: bool)
      requires Valid()
      modifies queue`writePtr, queue.buffer
      ensures Valid() && done == (old(Writable()) >= 2)
      ensures Settled() == if done then Execute(old(Settled()), data, value) else old(Settled())
      ensures Writable() == old(Writable()) - if done then 2 else 0
    {
      hide Window, PowerOfTwo, Execute, Feed;
      if queue.Writable() < 2 {
        return false;
      }
      ghost var before := InFlight() + queue.Contents();
      var tag := if data then 0x10 else 0;
      queue.Overwrite2(tag + value / 16, tag + value % 16);
      assert InFlight() + queue.Contents() == before + Pair(data, value);
      FeedAppend(device, before, Pair(data, value));
      FeedPair(Feed(device, before), data, value);
      return true;
    }

    method WriteData(c: Byte) returns (done: bool)
      requires Valid()
      modifies queue`writePtr, queue.buffer
      ensures Valid() && done == (old(Writable()) >= 2)
      ensures Settled() == if done then Execute(old(Settled()), true, c) else old(Settled())
      ensures Writable() == old(Writable()) - if done then 2 else 0
    {
      hide Execute, Feed, Window, PowerOfTwo;
      done := WriteByte(true, c);
    }

    method WriteCommand(c: Byte) returns (done: bool)
      requires Valid()
      modifies queue`writePtr, queue.buffer
      ensures Valid() && done == (old(Writable()) >= 2)
      ensures Settled() == if done then Execute(old(Settled()), false, c) else old(Settled())
      ensures Writable() == old(Writable()) - if done then 2 else 0
    {
      hide Execute, Feed, Window, PowerOfTwo;
      done := WriteByte(false, c);
    }

    /** Points the controller at a place on the screen, or is dropped with under two free places. */
    method MoveCursor(row: Byte, col: Byte)
      requires Valid() && row < 2 && col < 0x40
      modifies queue`writePtr, queue.buffer
      ensures Valid() && Writable() == old(Writable()) - if old(Writable()) >= 2 then 2 else 0
      ensures Settled()
        == if old(Writable()) >= 2 then old(Settled()).(address := 0x40 * row + col) else old(Settled())
    {
      hide Feed, Window, PowerOfTwo;
      var done := WriteCommand(0x80 + col + 0x40 * row);
    }
  }

  lemma {:induction false} LatchFirst(d: Device, rs: bool, port: Byte, rest: seq<Byte>)
    requires d.Valid() && port < 16
    ensures Feed(d, [(if rs then 0x10 else 0) + port] + rest) == Feed(Latch(d, rs, port), rest)
  {
    hide Latch;
    var first := [(if rs then 0x10 else 0) + port];
    TagBits(rs, port);
    FeedOne(d, first[0]);
    FeedAppend(d, first, rest);
  }

  lemma {:induction false} SameNibble(d: Device, nibble: Byte, rest: seq<Byte>)
    requires d.Valid()
    ensures Feed(d, [(if nibble / 16 % 2 == 1 then 0x10 else 0) + nibble % 16] + rest) == Feed(d, [nibble] + rest)
  {
    hide Latch;
    var rs, port := nibble / 16 % 2 == 1, nibble % 16;
    LatchFirst(d, rs, port, rest);
    FeedOne(d, nibble);
    FeedAppend(d, [nibble], rest);
  }
}
