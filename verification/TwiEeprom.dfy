/** devices/twi_eeprom.h: the EEPROM driver on top of the bus master. */
module TwiEeproms {
  import opened Words
  import opened RingBuffers
  import opened TwiModel
  import opened TwiMasters
  import opened EepromBus

  /** `x | 0x50`: the fixed part of an EEPROM's bus address. */
  function Or50(x: Byte): Byte {
    x + (if (x / 0x40) % 2 == 0 then 0x40 else 0) + (if (x / 0x10) % 2 == 0 then 0x10 else 0)
  }

  /** The 7-bit address that reaches the wire for a driver address. */
  function Wire(x: Byte): Byte {
    Or50(x) % 0x80
  }

  lemma {:induction false} WireOfSlarw(x: Byte, read: bool)
    ensures Slarw(Or50(x), read) == 2 * Wire(x) + if read then 1 else 0
  {
    hide Or50;
    DoubledByte(Or50(x));
  }

  lemma {:induction false} DoubledByte(y: int)
    ensures (2 * y) % 0x100 == 2 * (y % 0x80)
  {
  }

  lemma {:induction false} WireSmall(x: Byte)
    requires x < 16
    ensures Wire(x) == 0x50 + x
  {
  }

  /** Bus addresses of a row of chips: consecutive when banking, else the one selected. */
  function RowOf(base: Byte, autoBanking: bool, bank: Byte, banks: nat): (row: seq<Byte>)
    ensures |row| == banks
  {
    seq<Byte>(banks, k requires 0 <= k < banks => Wire(Wrap8(base + if autoBanking then k else bank)))
  }

  lemma {:induction false} RowIsDistinct(base: Byte, banks: nat)
    requires base + banks <= 16
    ensures var row := RowOf(base, true, 0, banks); forall i, j :: 0 <= i < j < banks ==> row[i] != row[j]
    ensures forall i :: 0 <= i < banks ==> RowOf(base, true, 0, banks)[i] == 0x50 + base + i
  {
    hide Wire;
    var row := RowOf(base, true, 0, banks);
    forall i, j | 0 <= i < j < banks
      ensures row[i] != row[j]
    {
      assert row[i] == Wire(Wrap8(base + i)) && row[j] == Wire(Wrap8(base + j));
      WireSmall(base + i);
      WireSmall(base + j);
    }
    forall i | 0 <= i < banks
      ensures row[i] == 0x50 + base + i
    {
      assert row[i] == Wire(Wrap8(base + i));
      WireSmall(base + i);
    }
  }

  class TwiEeprom {
    const twi: TwiMaster
    const eepromSize: U16
    const baseAddress: Byte
    const autoBanking: bool
    const blockSize: Byte
    var bank: Byte
    ghost const banks: nat  // chips that make up the memory

    constructor (
        twi: TwiMaster, eepromSize: U16, baseAddress: Byte, autoBanking: bool, blockSize: Byte, ghost banks: nat)
      ensures this.twi == twi && this.eepromSize == eepromSize && this.baseAddress == baseAddress
      ensures this.autoBanking == autoBanking && this.blockSize == blockSize && this.banks == banks && bank == 0
    {
      this.twi, this.eepromSize, this.baseAddress := twi, eepromSize, baseAddress;
      this.autoBanking, this.blockSize, this.banks, bank := autoBanking, blockSize, banks, 0;
    }

    ghost function Row(): (row: seq<Byte>)
      reads `bank
      ensures |row| == banks
    {
      RowOf(baseAddress, autoBanking, if autoBanking then 0 else bank, banks)
    }

    /** The parameters fit together and the chips of the row are on the bus. */
    ghost predicate Wired(bus: Bus, row: seq<Byte>) {
      && eepromSize > 0 && 0 < blockSize <= 253 && eepromSize % blockSize == 0
      && (if autoBanking then baseAddress + banks <= 16 && banks * eepromSize <= 0x1_0000 else banks == 1)
      && bus.Valid()
      && |row| == banks && Uniform(bus.chips, row, eepromSize)
    }

    /** Blocks lie inside the pages of the chips. */
    ghost predicate Aligned(bus: Bus) {
      blockSize > 0 && bus.page > 0 && bus.page % blockSize == 0
    }

    /** No chip of the row is busy with a write cycle. */
    ghost predicate Listening(bus: Bus, row: seq<Byte>) {
      forall d :: d in row && d in bus.chips ==> !bus.chips[d].busy
    }

    /** The memory the driver offers: its chips' cells in a row. */
    ghost function Memory(bus: Bus, row: seq<Byte>): (m: seq<Byte>)
      requires Wired(bus, row)
      ensures |m| == banks * eepromSize
    {
      FlatLength(bus.chips, row, eepromSize);
      Flat(bus.chips, row)
    }

    /** The address i places on from another, going round inside its chip. */
    ghost function Around(address: nat, i: nat): (a: nat)
      requires eepromSize > 0 && address < banks * eepromSize
      ensures a < banks * eepromSize
    {
      AroundBound(address, Rem(address + i, eepromSize));
      address - Rem(address, eepromSize) + Rem(address + i, eepromSize)
    }

    lemma {:induction false} AroundBound(address: nat, r: nat)
      requires eepromSize > 0 && address < banks * eepromSize && r < eepromSize
      ensures Rem(address, eepromSize) <= address
      ensures address - Rem(address, eepromSize) + r < banks * eepromSize
    {
      var k, o := Quotient2(address, eepromSize);
      DivRem(eepromSize, k, o);
      BankInRange(k, eepromSize, banks, address, o);
      Spread(eepromSize, k, banks);
    }

    /** No transfer is under way and none was left unfinished. */
    ghost predicate Quiet()
      reads this, twi, twi.input, twi.output, twi.input.buffer, twi.output.buffer
      ensures Quiet() ==> blockSize > 0 && Wired(twi.bus, Row())
    {
      && twi.Valid() && Wired(twi.bus, Row())
      && twi.state.Ready? && twi.requested <= twi.received && twi.output.Contents() == []
    }

    /** A transfer of n bytes after the two address bytes fits the output ring. */
    predicate Sendable(n: nat) {
      n + 2 < twi.output.size
    }

    /** A request for the next of `todo` bytes fits the empty input ring. */
    predicate Requestable(todo: nat) {
      Min(todo, blockSize) + 1 < twi.input.size
    }

    // ----------------------------------------------------------- one bus transfer

    method Enqueue(bytes: seq<Byte>)
      requires twi.Valid() && |bytes| <= twi.output.Writable()
      modifies twi.output, twi.output.buffer
      ensures twi.Valid()
      ensures twi.output.Contents() == old(twi.output.Contents()) + bytes
      ensures twi.input.Contents() == old(twi.input.Contents())
    {
      hide Window, PowerOfTwo;
      for i := 0 to |bytes|
        invariant twi.Valid()
        invariant twi.output.Contents() == old(twi.output.Contents()) + bytes[..i]
        invariant twi.input.Contents() == old(twi.input.Contents())
      {
        twi.output.Overwrite(bytes[i]);
        assert old(twi.output.Contents()) + bytes[..i + 1] == old(twi.output.Contents()) + bytes[..i] + [bytes[i]];
      }
      assert bytes[..|bytes|] == bytes;
    }

    /** Waits until the line is available, which here it always is. */
    method AwaitLine()
      requires twi.Valid() && twi.state.Ready?
      modifies twi, twi.input, twi.output, twi.input.buffer
      ensures twi.Valid() && twi.View() == old(twi.View()) && twi.bus == old(twi.bus)
    {
      hide Window, PowerOfTwo;
      var error := twi.Wait();
    }

    /** Sends the queue to the selected chip and waits for the end. */
    method SendQueue() returns (done: bool)
      requires twi.Valid() && twi.state.Ready? && twi.requested <= twi.received && twi.output.Contents() != []
      modifies twi, twi.input, twi.output, twi.input.buffer
      ensures twi.Valid() && twi.state.Ready?
      ensures twi.requested == old(twi.requested) && twi.received == old(twi.received)
      ensures twi.input.Contents() == old(twi.input.Contents())
      ensures var d := Wire(Wrap8(baseAddress + bank));
        if Deaf(old(twi.bus), d) then
          !done && twi.bus == old(twi.bus).(phase := Idle, event := Silent)
        else
          && done && twi.error.NoError? && twi.output.Contents() == []
          && twi.bus == Delivered(old(twi.bus), d, old(twi.output.Contents()))
    {
      hide Window, PowerOfTwo, AbsorbAll, Delivered, Settle, Exec, Live, Slarw, Or50, Wire, Deaf;
      var address := Or50(Wrap8(baseAddress + bank));
      ghost var d := Wire(Wrap8(baseAddress + bank));
      WireOfSlarw(Wrap8(baseAddress + bank), false);
      if Deaf(twi.bus, d) {
        SendRefused(twi.View(), twi.bus, address, d);
      } else {
        SendDelivers(twi.View(), twi.bus, address, d);
      }
      var sent := twi.Send(address);
      if sent > 0 {
        var error := twi.Wait();
        done := error == NoError;
      } else {
        done := false;
      }
    }

    /** Queues header and payload, sends them to the selected chip, and waits for the end. */
    method WriteRaw(header: seq<Byte>, payload: seq<Byte>) returns (written: Byte)
      requires Quiet() && 0 < |header| + |payload| < 256
      modifies twi, twi.input, twi.output, twi.input.buffer, twi.output.buffer
      ensures twi.Valid() && twi.state.Ready?
      ensures twi.requested == old(twi.requested) && twi.received == old(twi.received)
      ensures twi.input.Contents() == old(twi.input.Contents())
      ensures var d := Wire(Wrap8(baseAddress + bank));
        if |header| + |payload| >= twi.output.size then written == 0 && twi.bus == old(twi.bus)
        else if Deaf(old(twi.bus), d) then written == 0 && twi.bus == old(twi.bus).(phase := Idle, event := Silent)
        else
          && written == |header| + |payload| && twi.error.NoError?
          && twi.output.Contents() == [] && twi.bus == Delivered(old(twi.bus), d, header + payload)
    {
      hide Window, PowerOfTwo, Delivered, Wired, Wire, Deaf;
      var size: Byte := |header| + |payload|;
      if size >= twi.output.Capacity() {
        return 0;
      }
      // The queue is empty and size < capacity: the wait for space is over at once.
      assert twi.output.Writable() >= size;
      Enqueue(header);
      Enqueue(payload);
      assert twi.output.Contents() == header + payload;
      AwaitLine();
      var done := SendQueue();
      return if done then size else 0;
    }

    // -------------------------------------------------------------- addressing

    /** Bus state after `bytes` went to cell o of the k-th chip. */
    ghost predicate WrittenAt(row: seq<Byte>, before: Bus, after: Bus, address: nat, data: seq<Byte>)
      requires Wired(before, row)
    {
      && Wired(after, row)
      && address + |data| <= |Memory(before, row)|
      && Memory(after, row) == Splice(Memory(before, row), address, data)
      && after.chips.Keys == before.chips.Keys
      && forall d :: d in before.chips && d !in row ==> after.chips[d].mem == before.chips[d].mem
    }

    /** Cell o of the k-th chip is where this address lies. */
    ghost predicate Located(address: U16, k: nat, o: nat) {
      k < banks && o < eepromSize && address == k * eepromSize + o
    }

    lemma {:induction false} DeliveredAt(row: seq<Byte>, before: Bus, address: U16, k: nat, o: nat, data: seq<Byte>)
      requires Wired(before, row) && Located(address, k, o)
      requires Rem(o, blockSize) + |data| <= blockSize
      ensures row[k] in before.chips
      ensures Wired(Delivered(before, row[k], [o / 0x100, o % 0x100] + data), row)
      ensures address + |data| <= |Memory(before, row)|
      ensures Aligned(before) || data == [] ==>
        WrittenAt(row, before, Delivered(before, row[k], [o / 0x100, o % 0x100] + data), address, data)
      ensures data == [] ==>
        var c := Delivered(before, row[k], [o / 0x100, o % 0x100] + data).chips[row[k]];
        c.busy == before.chips[row[k]].busy && c.ptr == o
      ensures data == [] && !Deaf(before, row[k]) ==>
        !Deaf(Delivered(before, row[k], [o / 0x100, o % 0x100] + data), row[k])
      ensures data == [] && Listening(before, row) ==>
        Listening(Delivered(before, row[k], [o / 0x100, o % 0x100] + data), row)
    {
      hide Splice, AbsorbAll, Stored, Delivered, Flat, Rem, Uniform;
      WiredChip(before, row, k);
      DeliveredUniform(before, row, eepromSize, row[k], [o / 0x100, o % 0x100] + data);
      BlockFits(address, k, o, |data|);
      if Aligned(before) || data == [] {
        if data != [] {
          BlockInPage(o, before.page, blockSize, |data|);
        }
        BlockWritten(before, row, eepromSize, k, o / 0x100, o % 0x100, o, data);
      }
    }

    lemma {:induction false} WiredChip(bus: Bus, row: seq<Byte>, k: nat)
      requires Wired(bus, row) && k < banks
      ensures row[k] in bus.chips && |bus.chips[row[k]].mem| == eepromSize
    {
      assert row[k] in row;
    }

    /** A block that stays inside its own place stays inside the chip, and so inside the memory. */
    lemma {:induction false} BlockFits(address: U16, k: nat, o: nat, n: nat)
      requires Located(address, k, o) && blockSize > 0 && eepromSize % blockSize == 0
      requires Rem(o, blockSize) + n <= blockSize
      ensures o + n <= eepromSize && address + n <= banks * eepromSize
    {
      PageFits(o, blockSize, eepromSize, n);
      Spread(eepromSize, k, banks);
    }

    /** Selects the bank for an address and returns the address within the chip. */
    method SelectBank(address: U16, ghost k: nat, ghost o: nat) returns (inner: U16)
      requires eepromSize > 0 && Located(address, k, o)
      requires if autoBanking then baseAddress + banks <= 16 else banks == 1
      modifies `bank
      ensures !autoBanking ==> bank == old(bank)
      ensures inner == o && Wire(Wrap8(baseAddress + bank)) == Row()[k] && Row() == old(Row())
    {
      hide Wire;
      inner := address;
      DivRem(eepromSize, k, o);
      if autoBanking {
        bank := Wrap8(address / eepromSize);
        inner := inner % eepromSize;
      }
    }

    method SetAddress(address: U16, ghost k: nat, ghost o: nat) returns (done: bool)
      requires Quiet() && Located(address, k, o)
      modifies this, twi, twi.input, twi.output, twi.input.buffer, twi.output.buffer
      ensures Quiet() && Row() == old(Row())
      ensures done <==> !Deaf(old(twi.bus), Row()[k]) && Sendable(0)
      ensures done ==> twi.error.NoError?
      ensures Wire(Wrap8(baseAddress + bank)) == Row()[k]
      ensures Listening(old(twi.bus), Row()) ==> Listening(twi.bus, Row())
      ensures WrittenAt(Row(), old(twi.bus), twi.bus, address, [])
      ensures done ==>
        && twi.input.Contents() == []
        && twi.bus.chips[Row()[k]].ptr == o
        && !Deaf(twi.bus, Row()[k])
    {
      hide RowOf, Window, Delivered, Wire, Splice, Flat, PowerOfTwo, Deaf, Listening, Memory;
      var inner := SelectBank(address, k, o);
      DeliveredAt(Row(), twi.bus, address, k, o, []);
      Untouched(Row(), twi.bus, address);
      assert [inner / 0x100, inner % 0x100] + [] == [inner / 0x100, inner % 0x100];
      var written := WriteRaw([inner / 0x100, inner % 0x100], []);
      if written == 2 {
        twi.input.Flush();
        return true;
      } else {
        twi.output.Flush();
        return false;
      }
    }

    // ----------------------------------------------------------------- writing

    /** One page-sized block. On a chip that does not answer, or in a ring it does not fit, nothing is stored. */
    method WriteWithinBlock(address: U16, data: seq<Byte>, ghost k: nat, ghost o: nat) returns (stored: Byte)
      requires Quiet() && Located(address, k, o) && blockSize > 0 && Rem(o, blockSize) + |data| <= blockSize
      modifies this, twi, twi.input, twi.output, twi.input.buffer, twi.output.buffer
      ensures Quiet() && Row() == old(Row())
      ensures var lost := Deaf(old(twi.bus), Row()[k]) || !Sendable(|data|);
        && stored == (if lost then 0 else |data|)
        && (Aligned(old(twi.bus)) || lost ==>
              WrittenAt(Row(), old(twi.bus), twi.bus, address, if lost then [] else data))
        && (!lost ==>
              && Row()[k] in old(twi.bus).chips
              && twi.bus == Delivered(old(twi.bus), Row()[k], [o / 0x100, o % 0x100] + data))
      ensures !Sendable(|data|) ==> twi.bus == old(twi.bus)
      ensures twi.bus.page == old(twi.bus).page
    {
      hide RowOf, Window, Delivered, Wire, Splice, Flat, PowerOfTwo, Deaf;
      var inner := SelectBank(address, k, o);
      DeliveredAt(Row(), twi.bus, address, k, o, data);
      Untouched(Row(), twi.bus, address);
      var written := WriteRaw([inner / 0x100, inner % 0x100], data);
      if written == |data| + 2 {
        return |data|;
      } else {
        twi.output.Flush();
        return 0;
      }
    }

    /** Stopping the bus touches no chip. */
    lemma {:induction false} Untouched(row: seq<Byte>, before: Bus, address: nat)
      requires Wired(before, row) && address <= |Memory(before, row)|
      ensures WrittenAt(row, before, before.(phase := Idle, event := Silent), address, [])
      ensures Listening(before, row) ==> Listening(before.(phase := Idle, event := Silent), row)
      ensures WrittenAt(row, before, before, address, [])
    {
      SpliceNothing(Memory(before, row), address);
      FlatSame(before.chips, before.(phase := Idle, event := Silent).chips, row);
    }

    method Delay(ms: nat)
      requires ms >= 5 && Quiet()
      modifies twi`bus
      ensures Quiet() && twi.bus == Rested(old(twi.bus))
    {
      hide RowOf, Window, PowerOfTwo;
      twi.bus := Rested(twi.bus);
    }

    lemma {:induction false} RestChangesNothing(row: seq<Byte>, before: Bus, address: nat)
      requires Wired(before, row) && address <= |Memory(before, row)|
      ensures WrittenAt(row, before, Rested(before), address, []) && Listening(Rested(before), row)
    {
      SpliceNothing(Memory(before, row), address);
      FlatSame(before.chips, Rested(before).chips, row);
    }

    lemma {:induction false} WrittenOn(
        row: seq<Byte>, before: Bus, mid: Bus, after: Bus, address: nat, x: seq<Byte>, at: nat, y: seq<Byte>)
      requires Wired(before, row) && WrittenAt(row, before, mid, address, x)
      requires at == address + |x| && WrittenAt(row, mid, after, at, y)
      ensures WrittenAt(row, before, after, address, x + y)
    {
      hide Splice, Flat, Wired;
      SpliceTwice(Memory(before, row), address, x, y);
    }

    lemma {:induction false} LocateAddress(row: seq<Byte>, bus: Bus, address: U16) returns (k: nat, o: nat)
      requires Wired(bus, row) && address < banks * eepromSize
      ensures Located(address, k, o) && Rem(o, blockSize) == Rem(address, blockSize)
    {
      hide Flat, Uniform;
      k, o := Quotient2(address, eepromSize);
      BankInRange(k, eepromSize, banks, address, o);
      ModSkips(k, eepromSize, o, blockSize);
    }

    /** The bus after one block was sent to where an address lies, and its chip has stored it. */
    ghost function AfterBlock(bus: Bus, row: seq<Byte>, address: nat, data: seq<Byte>): (after: Bus)
      requires Wired(bus, row) && address < banks * eepromSize
      ensures Wired(after, row) && after.page == bus.page
    {
      var k, o := Quot(address, eepromSize), Rem(address, eepromSize);
      InsideRow(bus, row, address, k);
      BlockKeepsRow(bus, row, k, [o / 0x100, o % 0x100] + data);
      Rested(Delivered(bus, row[k], [o / 0x100, o % 0x100] + data))
    }

    lemma {:induction false} InsideRow(bus: Bus, row: seq<Byte>, address: nat, k: nat)
      requires Wired(bus, row) && address < banks * eepromSize && k == Quot(address, eepromSize)
      ensures k < banks && row[k] in bus.chips && |bus.chips[row[k]].mem| == eepromSize <= 0x1_0000
    {
      QuotientBelow(address, eepromSize, banks);
      WiredChip(bus, row, k);
    }

    lemma {:induction false} BlockKeepsRow(bus: Bus, row: seq<Byte>, k: nat, bytes: seq<Byte>)
      requires Wired(bus, row) && k < banks && row[k] in bus.chips
      ensures Wired(Rested(Delivered(bus, row[k], bytes)), row)
    {
      hide AbsorbAll, Delivered;
      DeliveredUniform(bus, row, eepromSize, row[k], bytes);
    }

    lemma {:induction false} BlockAt(bus: Bus, row: seq<Byte>, address: U16, k: nat, o: nat, data: seq<Byte>)
      requires Wired(bus, row) && Located(address, k, o) && address < banks * eepromSize
      ensures row[k] in bus.chips
      ensures AfterBlock(bus, row, address, data) == Rested(Delivered(bus, row[k], [o / 0x100, o % 0x100] + data))
    {
      hide Delivered, Rested;
      WiredChip(bus, row, k);
      hide Wired;
      DivRem(eepromSize, k, o);
    }

    /** One round of Write: a block, then the chip's write cycle. */
    method WriteBlock(address: U16, data: seq<Byte>) returns (done: bool)
      requires Quiet() && address < banks * eepromSize
      requires 0 < |data| && blockSize > 0 && Rem(address, blockSize) + |data| <= blockSize
      modifies this, twi, twi.input, twi.output, twi.input.buffer, twi.output.buffer
      ensures Quiet() && Row() == old(Row()) && twi.bus.page == old(twi.bus).page
      ensures Aligned(old(twi.bus)) ==>
        WrittenAt(Row(), old(twi.bus), twi.bus, address, if done then data else [])
      ensures done ==> twi.bus == AfterBlock(old(twi.bus), Row(), address, data)
      ensures done ==> Sendable(|data|)
      ensures Listening(old(twi.bus), Row()) ==> (done <==> Sendable(|data|)) && Listening(twi.bus, Row())
    {
      hide RowOf, Window, Splice, Flat, PowerOfTwo, Deaf, Wired, Rested, Rem, Quot, WrittenAt, Aligned, Delivered;
      hide AfterBlock, TwiMaster.Valid, Listening, Memory;
      ghost var before, row := twi.bus, Row();
      ghost var k, o := LocateAddress(row, before, address);
      BlockAt(before, row, address, k, o, data);
      ListeningChip(row, before, k);
      var stored := WriteWithinBlock(address, data, k, o);
      if stored != |data| {
        return false;
      }
      ghost var mid := twi.bus;
      Delay(5);
      AfterRest(row, before, mid, address, data);
      return true;
    }

    lemma {:induction false} AfterRest(row: seq<Byte>, before: Bus, mid: Bus, address: U16, data: seq<Byte>)
      requires Wired(before, row) && Wired(mid, row) && address < banks * eepromSize
      ensures Wired(Rested(mid), row) && Listening(Rested(mid), row)
      ensures WrittenAt(row, before, mid, address, data) ==> WrittenAt(row, before, Rested(mid), address, data)
    {
      hide Splice, Flat;
      RestChangesNothing(row, mid, address);
      if WrittenAt(row, before, mid, address, data) {
        RestChangesNothing(row, mid, address + |data|);
        WrittenOn(row, before, mid, Rested(mid), address, data, address + |data|, []);
        assert data + [] == data;
      }
    }

    // ------------------------------------------------------------ blocks against pages

    /** The part of n bytes from an address on that the first block takes. */
    function FirstBlock(address: nat, n: nat): (taken: nat)
      requires blockSize > 0
      ensures taken <= n && (n > 0 ==> taken > 0) && Rem(address, blockSize) + taken <= blockSize
    {
      Min(blockSize - Rem(address, blockSize), n)
    }

    /** The bus after data was sent in blocks, each stored before the next. */
    ghost function Sent(bus: Bus, row: seq<Byte>, address: nat, data: seq<Byte>): (after: Bus)
      requires Wired(bus, row) && address + |data| <= banks * eepromSize
      ensures Wired(after, row)
      decreases |data|
    {
      var n := FirstBlock(address, |data|);
      if data == [] then bus else Sent(AfterBlock(bus, row, address, data[..n]), row, address + n, data[n..])
    }

    /** Is any range of the memory that is written in blocks there afterwards, with nothing else changed? */
    ghost predicate WritesStored(bus: Bus, row: seq<Byte>)
      requires Wired(bus, row)
    {
      forall address: nat, data: seq<Byte> :: address + |data| <= banks * eepromSize ==>
        Memory(Sent(bus, row, address, data), row) == Splice(Memory(bus, row), address, data)
    }

    /** What Write sends arrives in its place, whatever it is, exactly when the block size divides the page size. */
    lemma {:induction false} WritesStoredIff(bus: Bus, row: seq<Byte>)
      requires Wired(bus, row) && banks > 0
      ensures WritesStored(bus, row) <==> Aligned(bus)
    {
      hide Sent, Memory, Splice, Wired;
      if Aligned(bus) {
        forall address: nat, data: seq<Byte> | address + |data| <= banks * eepromSize
          ensures Memory(Sent(bus, row, address, data), row) == Splice(Memory(bus, row), address, data)
        {
          AlignedSent(bus, row, address, data);
        }
      } else {
        var address, data := MisplacedBlock(bus, row);
      }
    }

    lemma {:induction false} AlignedSent(bus: Bus, row: seq<Byte>, address: nat, data: seq<Byte>)
      requires Wired(bus, row) && Aligned(bus) && address + |data| <= banks * eepromSize
      ensures WrittenAt(row, bus, Sent(bus, row, address, data), address, data)
      decreases |data|
    {
      hide AfterBlock, WrittenAt, Wired;
      StartWriting(row, bus, address);
      if data != [] {
        var n := FirstBlock(address, |data|);
        var mid := AfterBlock(bus, row, address, data[..n]);
        AlignedBlock(bus, row, address, data[..n]);
        AlignedSent(mid, row, address + n, data[n..]);
        WrittenOn(row, bus, mid, Sent(bus, row, address, data), address, data[..n], address + n, data[n..]);
        assert data[..n] + data[n..] == data;
      }
    }

    lemma {:induction false} AlignedBlock(bus: Bus, row: seq<Byte>, address: U16, data: seq<Byte>)
      requires Wired(bus, row) && Aligned(bus) && address < banks * eepromSize
      requires Rem(address, blockSize) + |data| <= blockSize
      ensures WrittenAt(row, bus, AfterBlock(bus, row, address, data), address, data)
    {
      hide AfterBlock, WrittenAt, Delivered, Aligned, Rested, Rem, Memory, Wired;
      var k, o := LocateAddress(row, bus, address);
      BlockAt(bus, row, address, k, o, data);
      WiredIsValid(row, bus);
      DeliveredAt(row, bus, address, k, o, data);
      AfterRest(row, bus, Delivered(bus, row[k], [o / 0x100, o % 0x100] + data), address, data);
    }

    /** Otherwise a page of the first chip ends inside a block, and a byte of that block misses its cell. */
    lemma {:induction false} MisplacedBlock(bus: Bus, row: seq<Byte>) returns (address: nat, data: seq<Byte>)
      requires Wired(bus, row) && !Aligned(bus) && banks > 0
      ensures 0 < |data| <= blockSize && address + |data| <= banks * eepromSize
      ensures Memory(Sent(bus, row, address, data), row) != Splice(Memory(bus, row), address, data)
    {
      var page := bus.page;
      var c := FirstChip(bus, row);
      var o := Straddles(eepromSize, page, blockSize);
      var v: Byte := if c.mem[page] == 0 then 1 else 0;
      address, data := o, seq(page - o, _ => 0) + [v];
      MissedCell(bus, row, o, data);
      hide *;
      assert data[page - o] == v;
      SplicedCell(Memory(bus, row), o, data, page);
    }

    /** The first chip, which holds some whole number of pages and of blocks. */
    lemma {:induction false} FirstChip(bus: Bus, row: seq<Byte>) returns (c: Chip)
      requires Wired(bus, row) && banks > 0
      ensures row[0] in bus.chips && c == bus.chips[row[0]] && c.Valid() && |c.mem| == eepromSize
      ensures 0 < bus.page <= eepromSize <= banks * eepromSize <= 0x1_0000
      ensures eepromSize % bus.page == 0 && eepromSize % blockSize == 0 && blockSize > 0
    {
      WiredChip(bus, row, 0);
      c := bus.chips[row[0]];
      PageWithin(bus.page, eepromSize);
      Spread(eepromSize, 0, banks);
    }

    lemma {:induction false} MissedCell(bus: Bus, row: seq<Byte>, o: nat, data: seq<Byte>)
      requires Wired(bus, row) && banks > 0 && bus.page < eepromSize
      requires o < bus.page && Rem(o, blockSize) + |data| <= blockSize && o + |data| == bus.page + 1
      requires Quot(o, bus.page) == 0 && Quot(bus.page, bus.page) == 1
      ensures o + |data| <= banks * eepromSize && row[0] in bus.chips && eepromSize == |bus.chips[row[0]].mem|
      ensures |Memory(Sent(bus, row, o, data), row)| == |Memory(bus, row)| == banks * eepromSize
      ensures Memory(Sent(bus, row, o, data), row)[bus.page] == Memory(bus, row)[bus.page]
        == bus.chips[row[0]].mem[bus.page]
    {
      hide AfterBlock, Sent, Memory, Quot, AbsorbAll, Rem;
      var c := FirstChip(bus, row);
      OneBlock(bus, row, o, data);
      BlockAt(bus, row, o, 0, o, data);
      StoredInPage(c, bus.page, o, data, bus.page);
      CellOfFirst(bus, row, bus.page);
      CellOfFirst(AfterBlock(bus, row, o, data), row, bus.page);
    }

    lemma {:induction false} OneBlock(bus: Bus, row: seq<Byte>, address: nat, data: seq<Byte>)
      requires Wired(bus, row) && address + |data| <= banks * eepromSize
      requires data != [] && Rem(address, blockSize) + |data| <= blockSize
      ensures Sent(bus, row, address, data) == AfterBlock(bus, row, address, data)
    {
      hide AfterBlock, Wired;
      SentStep(bus, row, address, data);
      assert data[..|data|] == data;
      SentStep(AfterBlock(bus, row, address, data), row, address + |data|, []);
    }

    lemma {:induction false} CellOfFirst(bus: Bus, row: seq<Byte>, x: nat)
      requires Wired(bus, row) && banks > 0 && x < eepromSize
      ensures row[0] in bus.chips && |bus.chips[row[0]].mem| == eepromSize
      ensures x < |Memory(bus, row)| && Memory(bus, row)[x] == bus.chips[row[0]].mem[x]
    {
      hide Flat;
      var c := FirstChip(bus, row);
      FlatSlice(bus.chips, row, eepromSize, 0, x, 1);
      assert Memory(bus, row)[x] == Memory(bus, row)[x..x + 1][0] == c.mem[x..x + 1][0];
    }

    lemma {:induction false} ListeningChip(row: seq<Byte>, bus: Bus, k: nat)
      requires Wired(bus, row) && k < banks
      ensures Listening(bus, row) ==> !Deaf(bus, row[k])
    {
      assert row[k] in row;
    }

    /** How many of n bytes from an address on are stored before a block does not fit the output ring. */
    function Storable(address: nat, n: nat): (stored: nat)
      requires blockSize > 0
      ensures stored <= n
      ensures Sendable(blockSize) ==> stored == n
      decreases n
    {
      var block := Min(blockSize - Rem(address, blockSize), n);
      if n == 0 || !Sendable(block) then 0 else block + Storable(address + block, n - block)
    }

    /** Stores data in pages from the address on; what is reported as written is written. */
    method Write(address: U16, data: seq<Byte>) returns (written: U16)
      requires Quiet() && |data| < 0x1_0000 && address + |data| <= banks * eepromSize
      modifies this, twi, twi.input, twi.output, twi.input.buffer, twi.output.buffer
      ensures Quiet() && Row() == old(Row())
      ensures written <= |data|
      ensures Aligned(old(twi.bus)) ==> WrittenAt(Row(), old(twi.bus), twi.bus, address, data[..written])
      ensures Listening(old(twi.bus), Row()) ==>
        written == Storable(address, |data|) && Listening(twi.bus, Row())
      ensures written == |data| ==> twi.bus == Sent(old(twi.bus), Row(), address, data)
    {
      hide Quiet, Wired, Rem, WrittenAt, Listening, Storable, Sendable, Aligned, AfterBlock, Sent, RowOf, Memory;
      hide WriteSoFar;
      written := 0;
      var at: U16 := address;
      var size: U16 := |data|;
      ghost var before, row := twi.bus, Row();
      StartWriting(row, before, address);
      NothingSent(row, before, address, data);
      while size != 0
        invariant 0 <= size && written + size == |data| && (size > 0 ==> at == address + written)
        invariant Quiet() && Row() == row
        invariant WriteSoFar(row, before, twi.bus, address, data, written)
        invariant Listening(before, row) ==> Listening(twi.bus, row)
        invariant written + Storable(address + written, size) == Storable(address, |data|)
        decreases size
      {
        StorableStep(address + written, size);
        var writable := blockSize - Rem(at, blockSize);
        if writable > size {
          writable := size;
        }
        ghost var mid := twi.bus;
        var done := WriteBlock(at, data[written..written + writable]);
        BlockSent(row, before, mid, twi.bus, address, data, written, writable, done);
        if !done {
          break;
        }
        written := written + writable;
        at := Wrap16(at + writable);
        size := size - writable;
      }
      StorableStep(address + written, 0);
      if size == 0 {
        AllSent(row, before, twi.bus, address, data);
      }
    }

    /** Progress of Write: what is on the chips, and that what is left to send leads where all of it leads. */
    ghost predicate WriteSoFar(row: seq<Byte>, before: Bus, now: Bus, address: nat, data: seq<Byte>, written: nat)
      requires Wired(before, row) && address + |data| <= banks * eepromSize
      ensures WriteSoFar(row, before, now, address, data, written) ==>
        written <= |data| && (Aligned(before) ==> WrittenAt(row, before, now, address, data[..written]))
    {
      && written <= |data| && Wired(now, row) && now.page == before.page
      && (Aligned(before) ==> WrittenAt(row, before, now, address, data[..written]))
      && Sent(now, row, address + written, data[written..]) == Sent(before, row, address, data)
    }

    lemma {:induction false} NothingSent(row: seq<Byte>, bus: Bus, address: nat, data: seq<Byte>)
      requires Wired(bus, row) && address + |data| <= banks * eepromSize
      ensures WriteSoFar(row, bus, bus, address, data, 0)
    {
      hide Wired, Sent, WrittenAt, Aligned;
      StartWriting(row, bus, address);
      assert data[0..] == data && data[..0] == [];
    }

    lemma {:induction false} BlockSent(
        row: seq<Byte>, before: Bus, mid: Bus, after: Bus, address: nat, data: seq<Byte>,
        written: nat, n: nat, done: bool)
      requires Wired(before, row) && address + |data| <= banks * eepromSize && blockSize > 0
      requires written < |data| && WriteSoFar(row, before, mid, address, data, written)
      requires n == FirstBlock(address + written, |data| - written)
      requires Wired(mid, row) && Wired(after, row) && after.page == mid.page
      requires Aligned(mid) ==>
        WrittenAt(row, mid, after, address + written, if done then data[written..written + n] else [])
      requires done ==> after == AfterBlock(mid, row, address + written, data[written..written + n])
      ensures Aligned(before) && !done ==> WrittenAt(row, before, after, address, data[..written])
      ensures done ==> WriteSoFar(row, before, after, address, data, written + n)
    {
      hide Wired, Sent, WrittenAt, Aligned, AfterBlock;
      SentStep(mid, row, address + written, data[written..]);
      SliceTail(data, written, n);
      JoinSlices(data, written, written + n);
      AlignedSame(before, mid);
      if Aligned(before) {
        var block := if done then data[written..written + n] else [];
        WrittenOn(row, before, mid, after, address, data[..written], address + written, block);
      }
    }

    lemma {:induction false} AllSent(
        row: seq<Byte>, before: Bus, now: Bus, address: nat, data: seq<Byte>)
      requires Wired(before, row) && address + |data| <= banks * eepromSize
      requires WriteSoFar(row, before, now, address, data, |data|)
      ensures now == Sent(before, row, address, data)
    {
      hide Wired, WrittenAt, Aligned, AfterBlock;
    }

    lemma {:induction false} SentStep(bus: Bus, row: seq<Byte>, address: nat, data: seq<Byte>)
      requires Wired(bus, row) && address + |data| <= banks * eepromSize
      ensures var n := FirstBlock(address, |data|);
        Sent(bus, row, address, data)
          == if data == [] then bus else Sent(AfterBlock(bus, row, address, data[..n]), row, address + n, data[n..])
    {
    }

    lemma {:induction false} AlignedSame(a: Bus, b: Bus)
      requires a.page == b.page
      ensures Aligned(a) == Aligned(b)
    {
    }

    lemma {:induction false} StorableStep(address: nat, n: nat)
      requires blockSize > 0
      ensures var block := Min(blockSize - Rem(address, blockSize), n);
        Storable(address, n) == if n == 0 || !Sendable(block) then 0 else block + Storable(address + block, n - block)
    {
    }

    lemma {:induction false} StartWriting(row: seq<Byte>, bus: Bus, address: nat)
      requires Wired(bus, row) && address <= banks * eepromSize
      ensures WrittenAt(row, bus, bus, address, [])
      ensures banks * eepromSize <= 0x1_0000
    {
      FlatLength(bus.chips, row, eepromSize);
      Untouched(row, bus, address);
    }

    // ----------------------------------------------------------------- reading

    /** Takes up to `size` waiting bytes into data[at..]. */
    method TakeWaiting(size: U16, data: array<Byte>, at: nat) returns (taken: U16)
      requires twi.Valid() && at + size <= data.Length
      requires data != twi.input.buffer && data != twi.output.buffer
      modifies twi.input, data
      ensures twi.Valid() && twi.output.Contents() == old(twi.output.Contents())
      ensures taken == Min(size, |old(twi.input.Contents())|)
      ensures twi.input.Contents() == old(twi.input.Contents())[taken..]
      ensures data[..at + taken] == old(data[..at]) + old(twi.input.Contents())[..taken]
    {
      hide Window, PowerOfTwo;
      taken := 0;
      ghost var waiting := twi.input.Contents();
      assert old(data[..at]) + [] == data[..at];
      while twi.input.Readable() > 0 && taken < size
        invariant taken <= size && taken <= |waiting|
        invariant twi.Valid() && twi.output.Contents() == old(twi.output.Contents())
        invariant twi.input.Contents() == waiting[taken..]
        invariant data[..at + taken] == old(data[..at]) + waiting[..taken]
        decreases size - taken
      {
        TakenOn(old(data[..at]), waiting, taken);
        TakeOne(data, at + taken);
        taken := taken + 1;
      }
    }

    method TakeOne(data: array<Byte>, at: nat)
      requires twi.Valid() && at < data.Length && twi.input.Contents() != []
      requires data != twi.input.buffer && data != twi.output.buffer
      modifies twi.input`readPtr, data
      ensures twi.Valid() && twi.output.Contents() == old(twi.output.Contents())
      ensures twi.input.Contents() == old(twi.input.Contents())[1..]
      ensures data[..at + 1] == old(data[..at]) + [old(twi.input.Contents())[0]]
    {
      hide Window, PowerOfTwo;
      var b := twi.input.ImmediateRead();
      data[at] := b;
    }

    /** Requests n bytes from the selected chip and waits for them. What does not fit is refused without a word. */
    method Fetch(n: Byte) returns (error: Error)
      requires Quiet() && twi.input.Contents() == [] && 1 <= n <= blockSize
      modifies twi, twi.input, twi.output, twi.input.buffer
      ensures twi.Valid() && twi.state.Ready? && twi.output.Contents() == []
      ensures n + 1 >= twi.input.size ==>
        error == old(twi.error) && twi.View() == old(twi.View()) && twi.bus == old(twi.bus)
      ensures n + 1 < twi.input.size ==>
        var d := Wire(Wrap8(baseAddress + bank));
        if Deaf(old(twi.bus), d) then error.NoAck? && twi.received < twi.requested
        else
          && error.NoError? && error == twi.error && twi.requested == twi.received
          && twi.bus == Drained(old(twi.bus), d, n)
          && twi.input.Contents() == Cells(old(twi.bus).chips[d], n)
    {
      hide Window, PowerOfTwo, Settle, Exec, Live, Slarw, Or50, Wire, Deaf, Wired, Cells, Drained;
      AwaitLine();
      var address := Or50(Wrap8(baseAddress + bank));
      ghost var d := Wire(Wrap8(baseAddress + bank));
      WireOfSlarw(Wrap8(baseAddress + bank), true);
      if n + 1 >= twi.input.size {
        RequestTooLong(twi.View(), twi.bus, address, n);
      } else if Deaf(twi.bus, d) {
        RequestRefused(twi.View(), twi.bus, address, n, d);
      } else {
        RequestDrains(twi.View(), twi.bus, address, n, d);
      }
      var granted := twi.Request(address, n);
      error := twi.Wait();
    }

    /** Reading moves only the pointer of a chip that listens. */
    lemma {:induction false} DrainedAt(row: seq<Byte>, bus: Bus, d: Byte, n: nat)
      requires Wired(bus, row) && !Deaf(bus, d)
      ensures Wired(Drained(bus, d, n), row) && Memory(Drained(bus, d, n), row) == Memory(bus, row)
      ensures Listening(bus, row) ==> Listening(Drained(bus, d, n), row)
      ensures !Deaf(Drained(bus, d, n), d)
    {
      hide Flat, Uniform;
      SkippedMemory(bus.chips, row, eepromSize, d, n);
    }

    /** One round of Read's refill, counted from where the chip stood when Read began. */
    method Refill(n: Byte, ghost start: Bus, ghost f: nat) returns (error: Error)
      requires Quiet() && twi.input.Contents() == [] && 1 <= n <= blockSize
      requires Wired(start, Row())
      requires ghost var d := Wire(Wrap8(baseAddress + bank));
        !Deaf(start, d) ==> twi.bus.chips == Drained(start, d, f).chips
      requires ghost var d := Wire(Wrap8(baseAddress + bank)); Deaf(start, d) ==> Deaf(twi.bus, d)
      modifies twi, twi.input, twi.output, twi.input.buffer
      ensures twi.Valid()
      ensures n + 1 >= twi.input.size ==> error == old(twi.error) && Quiet() && twi.bus == old(twi.bus)
      ensures n + 1 < twi.input.size ==>
        var d := Wire(Wrap8(baseAddress + bank));
        if Deaf(start, d) then error.NoAck? && twi.received < twi.requested
        else
          && error.NoError? && error == twi.error && Quiet() && |twi.input.Contents()| == n
          && twi.bus.chips == Drained(start, d, f + n).chips
          && Cells(start.chips[d], f) + twi.input.Contents() == Cells(start.chips[d], f + n)
    {
      hide Window, PowerOfTwo, Wire, Cells, Skip, RowOf, Flat, Uniform;
      ghost var d := Wire(Wrap8(baseAddress + bank));
      if !Deaf(start, d) {
        DrainedOn(Row(), start, twi.bus, d, f, n);
      }
      hide Drained, Deaf, Wired, TwiMaster.Valid;
      error := Fetch(n);
    }

    lemma {:induction false} DrainedOn(row: seq<Byte>, start: Bus, bus: Bus, d: Byte, f: nat, n: nat)
      requires Wired(start, row) && Wired(bus, row) && !Deaf(start, d) && bus.chips == Drained(start, d, f).chips
      ensures !Deaf(bus, d) && Wired(Drained(bus, d, n), row)
      ensures Drained(bus, d, n).chips == Drained(start, d, f + n).chips
      ensures Cells(start.chips[d], f) + Cells(bus.chips[d], n) == Cells(start.chips[d], f + n)
    {
      hide Cells, Skip, Flat, Uniform;
      CellsJoin(start.chips[d], f, n);
      DrainedAt(row, bus, d, n);
      var c, c2 := Skip(start.chips[d], f), Skip(start.chips[d], f + n);
      assert start.chips[d := c][d := c2] == start.chips[d := c2];
    }

    /** Read's refill, with what has been read and what waits to be taken. */
    method RefillOnce(todo: U16, ghost start: Bus, ghost left: seq<Byte>, ghost f: nat, ghost got: seq<Byte>)
      returns (error: Error, n: Byte)
      requires Quiet() && twi.input.Contents() == [] && todo > 0 && Wired(start, Row()) && start.Valid()
      requires Requestable(todo) || !twi.error.NoError?
      requires ReadSoFar(start, twi.bus, Wire(Wrap8(baseAddress + bank)), left, f, got, [])
      modifies twi, twi.input, twi.output, twi.input.buffer
      ensures twi.Valid() && 1 <= n <= todo
      ensures !Requestable(todo) ==> !error.NoError? && Quiet() && twi.bus == old(twi.bus)
      ensures Requestable(todo) ==>
        var d := Wire(Wrap8(baseAddress + bank));
        if Deaf(start, d) then error.NoAck? && twi.received < twi.requested
        else
          && error.NoError? && error == twi.error && Quiet() && |twi.input.Contents()| == n
          && ReadSoFar(start, twi.bus, d, left, f + n, got, twi.input.Contents())
    {
      hide Window, Wire, Cells, Drained, Deaf, Wired, TwiMaster.Valid, ReadSoFar;
      ghost var d, mid := Wire(Wrap8(baseAddress + bank)), twi.bus;
      n := if todo > blockSize then blockSize else todo;
      ReadLength(start, mid, d, left, f, got, []);
      error := Refill(n, start, f);
      if error == NoError {
        ReadRefill(start, mid, twi.bus, d, left, f, got, n, twi.input.Contents());
      }
    }

    /**
     * Fills data[..size] with the bytes left over from earlier requests and then the next
     * cells of the selected chip. If the chip does not answer, the result is not a count,
     * and the request stays on record as unfinished. A request that the ring cannot hold is
     * refused without an error; only an error left over from before then ends the loop.
     */
    method Read(size: U16, data: array<Byte>) returns (count: U16)
      requires Quiet() && size <= data.Length && ReadEnds(size)
      requires data != twi.input.buffer && data != twi.output.buffer
      modifies twi, twi.input, twi.output, twi.input.buffer, data
      ensures twi.Valid()
      ensures var d := Wire(Wrap8(baseAddress + bank)); var left := old(twi.input.Contents());
        if size <= |left| then
          Quiet() && count == size && data[..size] == left[..size] && twi.input.Contents() == left[size..]
          && twi.bus.chips == old(twi.bus.chips)
        else if !Requestable(size - |left|) then
          count == Wrap16(size - 2 * |left|) && Quiet() && twi.bus == old(twi.bus)
        else if Deaf(old(twi.bus), d) then
          count == Wrap16(size - 2 * |left|) && twi.received < twi.requested
        else
          Quiet() && count == size && data[..size] == left + Cells(old(twi.bus).chips[d], size - |left|)
          && twi.input.Contents() == [] && twi.bus.chips == Drained(old(twi.bus), d, size - |left|).chips
    {
      hide Window, Wire, Cells, Drained, Deaf, Wired, TwiMaster.Valid, ReadSoFar, Requestable;
      count := 0;
      var todo: U16 := size;
      ghost var d, start, left := Wire(Wrap8(baseAddress + bank)), twi.bus, twi.input.Contents();
      ghost var f: nat := 0;
      NothingRead(start, d, left);
      assert data[..0] == [];
      while todo != 0
        invariant todo + count == size && Quiet()
        invariant ReadSoFar(start, twi.bus, d, left, f, data[..count], twi.input.Contents())
        invariant f > 0 ==> |left| + f <= size
        invariant size <= |left| || Requestable(size - |left|) || (f == 0 && !twi.error.NoError? && twi.bus == start)
        decreases 2 * todo + if twi.input.Contents() == [] then 1 else 0
      {
        ReadTake(start, twi.bus, d, left, f, data[..count], twi.input.Contents(), Min(todo, |twi.input.Contents()|));
        var taken := TakeWaiting(todo, data, count);
        todo := todo - taken;
        count := count + taken;
        ReadLength(start, twi.bus, d, left, f, data[..count], twi.input.Contents());
        if todo > 0 {
          if Requestable(size - |left|) {
            RequestableLater(size - |left|, todo);
          }
          var error, requested := RefillOnce(todo, start, left, f, data[..count]);
          if error != NoError {
            return Wrap16(todo - count);
          }
          f := f + requested;
        }
      }
      ReadDone(start, twi.bus, d, left, f, data[..size], twi.input.Contents(), size);
    }

    lemma {:induction false} RequestableLater(all: nat, todo: nat)
      requires todo <= all && Requestable(all)
      ensures Requestable(todo)
    {
    }

    /** Left-over bytes suffice, or the first request fits, or an old error ends the loop. */
    ghost predicate ReadEnds(size: nat)
      requires Quiet()
      reads this, twi, twi.input, twi.output, twi.input.buffer, twi.output.buffer
    {
      var left := |twi.input.Contents()|;
      size <= left || Requestable(size - left) || !twi.error.NoError?
    }

    /** Reads from an address: the memory's bytes, going round inside the chip; in a range inside it, exactly those. */
    method ReadAt(address: U16, size: Byte, data: array<Byte>) returns (count: U16)
      requires Quiet() && size <= data.Length
      requires address < banks * eepromSize && Requestable(size)
      requires data != twi.input.buffer && data != twi.output.buffer
      modifies this, twi, twi.input, twi.output, twi.input.buffer, twi.output.buffer, data
      ensures Quiet() && Row() == old(Row()) && (count == 0 || count == size)
      ensures Memory(twi.bus, Row()) == old(Memory(twi.bus, Row()))
      ensures count == size > 0 ==> IsRead(Memory(twi.bus, Row()), address, data[..size])
      ensures Listening(old(twi.bus), Row()) ==>
        count == (if Sendable(0) then size else 0) && Listening(twi.bus, Row())
    {
      hide Quiet, Memory, WrittenAt, Window, Wire, Cells, Drained, Wired, RowOf, Rem, TwiMaster.Valid, Deaf, Listening;
      hide IsRead;
      ghost var before, row := twi.bus, Row();
      ghost var k, o := LocateAddress(row, before, address);
      InsideChip(address, k, o);
      ListeningChip(row, before, k);
      var done := SetAddress(address, k, o);
      ghost var mid := twi.bus;
      NothingWritten(row, before, mid, address);
      if !done {
        return 0;
      }
      MemoryRead(row, mid, address, k, o, size);
      ghost var none: seq<Byte>, got := [], Cells(mid.chips[row[k]], size);
      assert none + got == got;
      count := Read(size, data);
      SameMemory(row, mid, twi.bus, row[k], size);
    }

    /** What the cells read from an address on are in terms of the memory. */
    ghost predicate IsRead(memory: seq<Byte>, address: nat, got: seq<Byte>)
      requires eepromSize > 0 && address < banks * eepromSize == |memory|
    {
      && (forall i :: 0 <= i < |got| ==> got[i] == memory[Around(address, i)])
      && (Rem(address, eepromSize) + |got| <= eepromSize ==>
            address + |got| <= |memory| && got == memory[address..address + |got|])
    }

    lemma {:induction false} MemoryRead(row: seq<Byte>, bus: Bus, address: U16, k: nat, o: nat, n: nat)
      requires Wired(bus, row) && Located(address, k, o) && address < banks * eepromSize
      ensures row[k] in bus.chips && bus.chips[row[k]].Valid()
      ensures bus.chips[row[k]].ptr == o ==> IsRead(Memory(bus, row), address, Cells(bus.chips[row[k]], n))
    {
      hide Flat, Cells, Memory;
      CellsGoAround(row, bus, address, k, o, n);
      InsideChip(address, k, o);
      if o + n <= eepromSize {
        CellsAreMemory(row, bus, address, k, o, n);
      }
    }

    lemma {:induction false} CellsGoAround(row: seq<Byte>, bus: Bus, address: U16, k: nat, o: nat, n: nat)
      requires Wired(bus, row) && Located(address, k, o) && address < banks * eepromSize
      ensures bus.chips[row[k]].ptr == o ==>
        forall i :: 0 <= i < n ==> Cells(bus.chips[row[k]], n)[i] == Memory(bus, row)[Around(address, i)]
    {
      hide Flat, Cells;
      var c := bus.chips[row[k]];
      if c.ptr == o {
        forall i | 0 <= i < n
          ensures Cells(c, n)[i] == Memory(bus, row)[Around(address, i)]
        {
          CellsRound(c, n, i);
          InsideChip(address, k, o);
          ModSkips(k, eepromSize, o + i, eepromSize);
          var r := Rem(o + i, eepromSize);
          FlatSlice(bus.chips, row, eepromSize, k, r, 1);
          var flat := Flat(bus.chips, row);
          assert flat[k * eepromSize + r] == flat[k * eepromSize + r..k * eepromSize + r + 1][0] == c.mem[r..r + 1][0];
        }
      }
    }

    /** What was written inside one chip is what is read back. */
    method WriteAndReadBack(address: U16, data: seq<Byte>, buffer: array<Byte>)
      requires Quiet() && Listening(twi.bus, Row()) && |data| < 0x100 && |data| <= buffer.Length
      requires address < banks * eepromSize && Rem(address, eepromSize) + |data| <= eepromSize
      requires address + |data| <= banks * eepromSize
      requires Sendable(blockSize) && Requestable(|data|) && Aligned(twi.bus)
      requires buffer != twi.input.buffer && buffer != twi.output.buffer
      modifies this, twi, twi.input, twi.output, twi.input.buffer, twi.output.buffer, buffer
      ensures Quiet() && Listening(twi.bus, Row()) && Row() == old(Row())
      ensures buffer[..|data|] == data
    {
      hide Quiet, Wired, Flat, RowOf, Rem, Listening, WrittenAt, Memory, IsRead, Sent, Aligned, Storable;
      ghost var before, row := twi.bus, Row();
      var written := Write(address, data);
      assert data[..|data|] == data;
      ghost var mid := twi.bus;
      var count := ReadAt(address, |data|, buffer);
      BackAgain(row, before, mid, twi.bus, address, data, buffer[..|data|]);
    }

    lemma {:induction false} BackAgain(
        row: seq<Byte>, before: Bus, mid: Bus, after: Bus, address: nat, data: seq<Byte>, got: seq<Byte>)
      requires Wired(before, row) && Wired(after, row) && WrittenAt(row, before, mid, address, data)
      requires Memory(after, row) == Memory(mid, row) && |got| == |data| && address < banks * eepromSize
      requires Rem(address, eepromSize) + |data| <= eepromSize
      requires data != [] ==> IsRead(Memory(after, row), address, got)
      ensures got == data
    {
      hide Wired, Flat;
      if data != [] {
        SplicedPart(Memory(before, row), address, data);
      }
    }

    lemma {:induction false} InsideChip(address: U16, k: nat, o: nat)
      requires eepromSize > 0 && Located(address, k, o)
      ensures Rem(address, eepromSize) == o
    {
      DivRem(eepromSize, k, o);
    }

    lemma {:induction false} NothingWritten(row: seq<Byte>, before: Bus, after: Bus, address: nat)
      requires Wired(before, row) && WrittenAt(row, before, after, address, [])
      ensures Memory(after, row) == Memory(before, row)
    {
      hide Flat, Wired, Splice;
      SpliceNothing(Memory(before, row), address);
    }

    lemma {:induction false} CellsAreMemory(row: seq<Byte>, bus: Bus, address: U16, k: nat, o: nat, n: nat)
      requires Wired(bus, row) && Located(address, k, o) && o + n <= eepromSize
      ensures address + n <= |Memory(bus, row)|
      ensures bus.chips[row[k]].ptr == o ==> Cells(bus.chips[row[k]], n) == Memory(bus, row)[address..address + n]
    {
      hide Flat, Cells;
      if bus.chips[row[k]].ptr == o {
        CellsInside(bus.chips[row[k]], n);
      }
      FlatSlice(bus.chips, row, eepromSize, k, o, n);
    }

    lemma {:induction false} SameMemory(row: seq<Byte>, before: Bus, after: Bus, d: Byte, n: nat)
      requires Wired(before, row) && Wired(after, row) && !Deaf(before, d)
      requires after.chips == before.chips || after.chips == Drained(before, d, n).chips
      ensures Memory(after, row) == Memory(before, row)
      ensures Listening(before, row) ==> Listening(after, row)
    {
      hide Flat, Uniform, Wired;
      assert before.Valid() by { WiredIsValid(row, before); }
      DrainedAt(row, before, d, n);
    }

    lemma {:induction false} WiredIsValid(row: seq<Byte>, bus: Bus)
      requires Wired(bus, row)
      ensures bus.Valid() && |row| == banks
    {
    }
  }

  // ------------------------------------------------------------- Read without an end

  /** One turn of Read's loop with nothing waiting in the ring: a request for n bytes, and what Wait returns. */
  function Turn(m: Master, bus: Bus, address: Byte, n: Byte): (Master, Bus, Error)
    requires bus.Valid()
  {
    var (m2, command, granted) := Request(m, address, n);
    var bus2 := Exec(bus, command);
    if Live(m2, bus2) && (m2.state.Receiving? ==> m2.received < 255) then
      var (m3, bus3) := Settle(m2, bus2);
      (m3, bus3, m3.error)
    else
      (m2, bus2, m2.error)
  }

  /** Master and bus as turn k of the loop begins, if no turn before it ended the loop with an error. */
  function Turns(m: Master, bus: Bus, address: Byte, n: Byte, k: nat): (r: Option<(Master, Bus)>)
    requires bus.Valid()
    ensures r.Some? ==> r.value.1.Valid()
  {
    if k == 0 then Some((m, bus)) else
      match Turns(m, bus, address, n, k - 1)
      case None => None
      case Some((m2, bus2)) =>
        var (m3, bus3, error) := Turn(m2, bus2, address, n);
        if error.NoError? then Some((m3, bus3)) else None
  }

  /**
   * Where the request does not fit the ring: it is refused, Wait returns the error on record,
   * and without one the loop goes on for ever, every turn beginning as the one before.
   */
  lemma {:induction false} ReadSpins(m: Master, bus: Bus, address: Byte, n: Byte, k: nat)
    requires bus.Valid() && m.state.Ready? && n >= m.InputRoom()
    ensures Turns(m, bus, address, n, k) == if k == 0 || m.error.NoError? then Some((m, bus)) else None
  {
    hide Request, Exec, Live, Settle;
    if k > 0 {
      ReadSpins(m, bus, address, n, k - 1);
      RequestTooLong(m, bus, address, n);
    }
  }

  // ------------------------------------------------------------------- Read's progress

  /** `got` was read and `waiting` is queued, after f cells came from chip d. */
  ghost predicate ReadSoFar(start: Bus, now: Bus, d: Byte, left: seq<Byte>, f: nat, got: seq<Byte>, waiting: seq<Byte>)
    requires start.Valid()
  {
    && (f == 0 ==> now.chips == start.chips && got + waiting == left)
    && (Deaf(start, d) ==> f == 0)
    && (!Deaf(start, d) ==>
          && now.chips == Drained(start, d, f).chips
          && got + waiting == left + Cells(start.chips[d], f))
  }

  lemma {:induction false} NothingRead(start: Bus, d: Byte, left: seq<Byte>)
    requires start.Valid()
    ensures ReadSoFar(start, start, d, left, 0, [], left)
  {
    if !Deaf(start, d) {
      assert start.chips[d := start.chips[d]] == start.chips;
    }
  }

  lemma {:induction false} ReadTake(
      start: Bus, now: Bus, d: Byte, left: seq<Byte>, f: nat, got: seq<Byte>, waiting: seq<Byte>, k: nat)
    requires start.Valid() && ReadSoFar(start, now, d, left, f, got, waiting) && k <= |waiting|
    ensures ReadSoFar(start, now, d, left, f, got + waiting[..k], waiting[k..])
  {
    hide Cells, Drained;
    assert got + waiting[..k] + waiting[k..] == got + waiting;
  }

  lemma {:induction false} ReadLength(
      start: Bus, now: Bus, d: Byte, left: seq<Byte>, f: nat, got: seq<Byte>, waiting: seq<Byte>)
    requires start.Valid() && ReadSoFar(start, now, d, left, f, got, waiting)
    ensures |got| + |waiting| == |left| + f
    ensures !Deaf(start, d) ==> now.chips == Drained(start, d, f).chips
    ensures Deaf(start, d) ==> Deaf(now, d) && f == 0
  {
    hide Cells, Drained;
    assert |got + waiting| == |got| + |waiting|;
  }

  lemma {:induction false} ReadRefill(
      start: Bus, mid: Bus, now: Bus, d: Byte, left: seq<Byte>, f: nat, got: seq<Byte>, n: nat, waiting: seq<Byte>)
    requires start.Valid() && ReadSoFar(start, mid, d, left, f, got, []) && n > 0
    requires !Deaf(start, d) && now.chips == Drained(start, d, f + n).chips
    requires Cells(start.chips[d], f) + waiting == Cells(start.chips[d], f + n)
    ensures ReadSoFar(start, now, d, left, f + n, got, waiting)
  {
    hide Cells, Drained;
    assert got + [] == got;
    assert left + Cells(start.chips[d], f) + waiting == left + (Cells(start.chips[d], f) + waiting);
  }

  lemma {:induction false} ReadDone(
      start: Bus, now: Bus, d: Byte, left: seq<Byte>, f: nat, got: seq<Byte>, waiting: seq<Byte>, size: nat)
    requires start.Valid() && ReadSoFar(start, now, d, left, f, got, waiting)
    requires |got| == size && (f > 0 ==> |left| + f <= size)
    ensures size <= |left| ==> f == 0 && got == left[..size] && waiting == left[size..] && now.chips == start.chips
    ensures size > |left| ==>
      && f > 0 && !Deaf(start, d) && waiting == []
      && got == left + Cells(start.chips[d], size - |left|)
      && now.chips == Drained(start, d, size - |left|).chips
  {
    hide Cells, Drained;
    ReadLength(start, now, d, left, f, got, waiting);
    if f == 0 {
      assert left[..size] == got && left[size..] == waiting;
    } else {
      assert got + [] == got;
    }
  }

  lemma {:induction false} TakenOn(before: seq<Byte>, waiting: seq<Byte>, n: nat)
    requires n <= |waiting|
    ensures waiting[n..] != [] ==>
      && n < |waiting| && waiting[n..][0] == waiting[n] && waiting[n..][1..] == waiting[n + 1..]
      && before + waiting[..n] + [waiting[n]] == before + waiting[..n + 1]
  {
  }

  lemma {:induction false} JoinSlices(s: seq<Byte>, i: nat, j: nat)
    requires i <= j <= |s|
    ensures s[..i] + s[i..j] == s[..j] && s[..i] + [] == s[..i]
  {
  }

  lemma {:induction false} SplicedCell(s: seq<Byte>, at: nat, data: seq<Byte>, x: nat)
    requires at + |data| <= |s| && at <= x < at + |data|
    ensures Splice(s, at, data)[x] == data[x - at]
  {
  }

  lemma {:induction false} SplicedPart(s: seq<Byte>, at: nat, data: seq<Byte>)
    requires at + |data| <= |s|
    ensures Splice(s, at, data)[at..at + |data|] == data
  {
  }

  lemma {:induction false} SliceTail(s: seq<Byte>, i: nat, n: nat)
    requires i + n <= |s|
    ensures s[i..][..n] == s[i..i + n] && s[i..][n..] == s[i + n..]
  {
  }

  lemma {:induction false} Quotient2(x: nat, n: nat) returns (q: nat, r: nat)
    requires n > 0
    ensures x == q * n + r && r < n
  {
    q, r := x / n, x % n;
    DivMod(x, n);
  }

  lemma {:induction false} BankInRange(k: nat, size: nat, banks: nat, address: nat, o: nat)
    requires size > 0 && address == k * size + o && address < banks * size
    ensures k < banks
  {
    if k > banks {
      Spread(size, banks, k);
    }
  }
}
