/**
 * The other end of the wire: serial EEPROM chips (AT24C family) and the bus events they
 * cause. A chip takes two address bytes and then data into a page latch whose address
 * wraps within the page; the latch is stored at the STOP condition, after which the chip
 * is deaf until its write cycle is over. Reads continue from an internal pointer.
 */
module EepromBus {
  import opened Words
  import opened TwiModel

  datatype Chip = Chip(mem: seq<Byte>, latch: seq<Byte>, ptr: nat, count: nat, high: Byte, busy: bool)
  {
    predicate Valid() {
      |mem| > 0 && |latch| == |mem| && ptr < |mem|
    }
  }

  function Selected(c: Chip): Chip {
    c.(latch := c.mem, count := 0)
  }

  function Absorb(c: Chip, page: nat, b: Byte): (d: Chip)
    requires c.Valid() && page > 0 && |c.mem| % page == 0
    ensures d.Valid() && d.mem == c.mem
  {
    if c.count == 0 then c.(high := b, count := 1)
    else if c.count == 1 then c.(ptr := (0x100 * c.high + b) % |c.mem|, count := 2)
    else
      PageWraps(c.ptr, page, |c.mem|);
      c.(latch := c.latch[c.ptr := b], ptr := NextInPage(c.ptr, page), count := c.count + 1)
  }

  function NextInPage(p: nat, page: nat): nat
    requires page > 0
  {
    if (p + 1) % page == 0 then p + 1 - page else p + 1
  }

  lemma {:induction false} PageWraps(p: nat, page: nat, size: nat)
    requires page > 0 && size % page == 0 && p < size
    ensures NextInPage(p, page) < size
    ensures (p + 1) % page == 0 ==> p + 1 >= page
  {
    if (p + 1) % page == 0 {
      assert p + 1 >= page;
    } else {
      assert p + 1 != size;
    }
  }

  function AbsorbAll(c: Chip, page: nat, bytes: seq<Byte>): (d: Chip)
    requires c.Valid() && page > 0 && |c.mem| % page == 0
    ensures d.Valid() && d.mem == c.mem
    decreases |bytes|
  {
    if bytes == [] then c else AbsorbAll(Absorb(c, page, bytes[0]), page, bytes[1..])
  }

  /** STOP after data bytes stores the latch and starts a write cycle. */
  function Stored(c: Chip): Chip {
    if c.count > 2 then c.(mem := c.latch, count := 0, busy := true) else c.(count := 0)
  }

  function Advanced(c: Chip): Chip
    requires |c.mem| > 0
  {
    c.(ptr := if c.ptr + 1 == |c.mem| then 0 else c.ptr + 1)
  }

  datatype Phase = Idle | Writing | Reading

  /** What the master's status register will show next. */
  datatype Event = Silent | Acked | Nacked | Arrived(data: Byte)

  datatype Bus = Bus(chips: map<Byte, Chip>, page: nat, target: Byte, phase: Phase, event: Event)
  {
    predicate Valid() {
      && page > 0
      && (forall d :: d in chips ==> chips[d].Valid() && |chips[d].mem| % page == 0)
      && (!phase.Idle? ==> target in chips)
    }
  }

  function Exec(bus: Bus, command: Command): (b: Bus)
    requires bus.Valid()
    ensures b.Valid() && b.page == bus.page && b.chips.Keys == bus.chips.Keys
  {
    match command
    case NoCommand => bus
    case Address(slarw) =>
      var d: Byte := slarw / 2;
      if d !in bus.chips || bus.chips[d].busy then bus.(phase := Idle, event := Nacked)
      else if slarw % 2 == 0 then
        bus.(chips := bus.chips[d := Selected(bus.chips[d])], target := d, phase := Writing, event := Acked)
      else
        bus.(chips := bus.chips[d := Advanced(bus.chips[d])], target := d, phase := Reading,
             event := Arrived(bus.chips[d].mem[bus.chips[d].ptr]))
    case Data(v) =>
      if !bus.phase.Writing? then bus.(event := Silent)
      else bus.(chips := bus.chips[bus.target := Absorb(bus.chips[bus.target], bus.page, v)], event := Acked)
    case ReceiveMore =>
      if !bus.phase.Reading? then bus.(event := Silent)
      else
        var c := bus.chips[bus.target];
        bus.(chips := bus.chips[bus.target := Advanced(c)], event := Arrived(c.mem[c.ptr]))
    case Stop => Stopped(bus)
    case NackStop => Stopped(bus)
  }

  function Stopped(bus: Bus): (b: Bus)
    requires bus.Valid()
    ensures b.Valid() && b.page == bus.page && b.chips.Keys == bus.chips.Keys
  {
    if bus.phase.Writing? then
      bus.(chips := bus.chips[bus.target := Stored(bus.chips[bus.target])], phase := Idle, event := Silent)
    else bus.(phase := Idle, event := Silent)
  }

  /** Five milliseconds pass: every write cycle is over. */
  function Rested(bus: Bus): (b: Bus)
    requires bus.Valid()
    ensures b.Valid() && b.chips.Keys == bus.chips.Keys && b.page == bus.page
  {
    bus.(chips := map d | d in bus.chips :: bus.chips[d].(busy := false))
  }

  function StatusOf(e: Event): Status {
    Status(false, false, e.Acked? || e.Nacked?, e.Nacked?, e.Arrived?)
  }

  function DataOf(e: Event): Byte {
    if e.Arrived? then e.data else 0
  }

  // ----------------------------------------------------- master and bus together

  /** One interrupt: the handler runs, and its command goes out on the bus. */
  function Tick(m: Master, bus: Bus): (Master, Bus)
    requires bus.Valid()
  {
    var (m2, command) := Handle(m, StatusOf(bus.event), DataOf(bus.event));
    (m2, Exec(bus, command))
  }

  /** The bus will raise an interrupt that moves the transfer on. */
  predicate Live(m: Master, bus: Bus) {
    && bus.Valid()
    && match m.state {
         case Ready => true
         case Transmitting => bus.event.Nacked? || (bus.event.Acked? && bus.phase.Writing? && m.received >= m.requested)
         case Receiving => bus.event.Nacked? || (bus.event.Arrived? && bus.phase.Reading?)
       }
  }

  function Remaining(m: Master): nat {
    match m.state
    case Ready => 0
    case Transmitting => |m.output| + 1
    case Receiving => if m.received < m.requested then m.requested - m.received + 1 else 1
  }

  lemma {:induction false} TickIsProgress(m: Master, bus: Bus)
    requires Live(m, bus) && !m.state.Ready? && (m.state.Receiving? ==> m.received < 255)
    ensures var (m2, bus2) := Tick(m, bus);
      Live(m2, bus2) && Remaining(m2) < Remaining(m) && (m2.state.Receiving? ==> m2.received < 255)
  {
  }

  /** Master and bus when the current transfer is over. */
  function Settle(m: Master, bus: Bus): (r: (Master, Bus))
    requires Live(m, bus) && (m.state.Receiving? ==> m.received < 255)
    ensures r.0.state.Ready? && r.1.Valid()
    decreases Remaining(m)
  {
    if m.state.Ready? then (m, bus)
    else
      TickIsProgress(m, bus);
      var (m2, bus2) := Tick(m, bus);
      Settle(m2, bus2)
  }

  /** A fault-free transmission hands the whole queue to the chip and ends with STOP. */
  lemma {:induction false} SettleTransmit(m: Master, bus: Bus)
    requires bus.Valid() && m.state.Transmitting? && bus.event.Acked? && bus.phase.Writing?
    requires m.requested <= m.received
    ensures Settle(m, bus) ==
      (m.(state := Ready, output := []),
       bus.(chips := bus.chips[bus.target := Stored(AbsorbAll(bus.chips[bus.target], bus.page, m.output))],
            phase := Idle, event := Silent))
    decreases |m.output|
  {
    hide Absorb, Stored;
    TickIsProgress(m, bus);
    var (m2, bus2) := Tick(m, bus);
    var c := bus.chips[bus.target];
    if m.output == [] {
      assert m2 == m.(state := Ready, output := []);
    } else {
      var d := Absorb(c, bus.page, m.output[0]);
      SettleTransmit(m2, bus2);
      var e := Stored(AbsorbAll(d, bus.page, m.output[1..]));
      assert bus.chips[bus.target := d][bus.target := e] == bus.chips[bus.target := e];
    }
  }

  /** The n cells from the chip's pointer on, and the pointer after them. */
  function Cells(c: Chip, n: nat): (s: seq<Byte>)
    requires c.Valid()
    ensures |s| == n
    decreases n
  {
    if n == 0 then [] else [c.mem[c.ptr]] + Cells(Advanced(c), n - 1)
  }

  function Skip(c: Chip, n: nat): (d: Chip)
    requires c.Valid()
    ensures d.Valid() && d.mem == c.mem && d.busy == c.busy
    decreases n
  {
    if n == 0 then c else Skip(Advanced(c), n - 1)
  }

  lemma {:induction false} CellsStep(c: Chip, n: nat)
    requires c.Valid() && n > 0
    ensures Cells(c, n) == [c.mem[c.ptr]] + Cells(Advanced(c), n - 1)
    ensures Skip(c, n) == Skip(Advanced(c), n - 1)
  {
  }

  /** A fault-free reception appends the bytes asked for and ends with STOP. */
  lemma {:induction false} SettleReceive(m: Master, bus: Bus)
    requires bus.Valid() && m.state.Receiving? && bus.event.Arrived? && bus.phase.Reading?
    requires m.received < m.requested && |m.input| + (m.requested - m.received) < m.inputSize
    ensures var more := m.requested - m.received - 1;
      var c := bus.chips[bus.target];
      Settle(m, bus) ==
        (m.(state := Ready, received := m.requested, input := m.input + [bus.event.data] + Cells(c, more)),
         bus.(chips := bus.chips[bus.target := Skip(c, more)], phase := Idle, event := Silent))
    decreases m.requested - m.received
  {
    hide Tick, Cells, Skip;
    TickIsProgress(m, bus);
    TickReceive(m, bus);
    var (m2, bus2) := Tick(m, bus);
    var c := bus.chips[bus.target];
    var more := m.requested - m.received - 1;
    if more == 0 {
      CellsNone(c);
      assert bus.chips[bus.target := c] == bus.chips;
      assert m.input + [bus.event.data] + [] == m.input + [bus.event.data];
    } else {
      SettleReceive(m2, bus2);
      CellsStep(c, more);
      var d, e := Advanced(c), Skip(c, more);
      assert bus.chips[bus.target := d][bus.target := e] == bus.chips[bus.target := e];
      assert m.input + [bus.event.data] + [c.mem[c.ptr]] + Cells(d, more - 1)
        == m.input + [bus.event.data] + Cells(c, more);
    }
  }

  lemma {:induction false} CellsNone(c: Chip)
    requires c.Valid()
    ensures Cells(c, 0) == [] && Skip(c, 0) == c
  {
  }

  lemma {:induction false} TickReceive(m: Master, bus: Bus)
    requires bus.Valid() && m.state.Receiving? && bus.event.Arrived? && bus.phase.Reading?
    requires m.received < m.requested && |m.input| + (m.requested - m.received) < m.inputSize
    ensures var m2 := m.(received := m.received + 1, input := m.input + [bus.event.data]);
      var c := bus.chips[bus.target];
      Tick(m, bus) ==
        if m2.received == m.requested then (m2.(state := Ready), bus.(phase := Idle, event := Silent))
        else (m2, bus.(chips := bus.chips[bus.target := Advanced(c)], event := Arrived(c.mem[c.ptr])))
  {
  }

  // -------------------------------------------------------------- page writes

  function Splice(s: seq<Byte>, at: nat, data: seq<Byte>): (t: seq<Byte>)
    requires at + |data| <= |s|
    ensures |t| == |s|
  {
    s[..at] + data + s[at + |data|..]
  }

  /** Data that stays within a page goes to consecutive cells of the latch. */
  lemma {:induction false} AbsorbData(c: Chip, page: nat, data: seq<Byte>)
    requires c.Valid() && page > 0 && |c.mem| % page == 0
    requires c.count >= 2 && c.ptr % page + |data| <= page
    ensures c.ptr + |data| <= |c.mem|
    ensures var d := AbsorbAll(c, page, data);
      d.latch == Splice(c.latch, c.ptr, data) && d.count == c.count + |data| && d.busy == c.busy
    decreases |data|
  {
    PageFits(c.ptr, page, |c.mem|, |data|);
    hide Absorb, Splice, NextInPage;
    if data == [] {
      SpliceNothing(c.latch, c.ptr);
    } else {
      AbsorbOne(c, page, data[0], |data|);
      var d := Absorb(c, page, data[0]);
      if |data| == 1 {
        AbsorbNothing(d, page);
        SpliceFirst(c.latch, c.ptr, data);
      } else {
        AbsorbData(d, page, data[1..]);
        SpliceFirst(c.latch, c.ptr, data);
      }
    }
  }

  lemma {:induction false} AbsorbOne(c: Chip, page: nat, b: Byte, n: nat)
    requires c.Valid() && page > 0 && |c.mem| % page == 0
    requires c.count >= 2 && 0 < n && c.ptr % page + n <= page
    ensures var d := Absorb(c, page, b);
      && d.latch == c.latch[c.ptr := b] && d.count == c.count + 1 && d.busy == c.busy
      && (n > 1 ==> d.ptr == c.ptr + 1 && d.ptr % page + (n - 1) <= page)
  {
    ModSucc(c.ptr, page);
  }

  lemma {:induction false} SpliceFirst(s: seq<Byte>, at: nat, data: seq<Byte>)
    requires data != [] && at + |data| <= |s|
    ensures |data| == 1 ==> Splice(s, at, data) == s[at := data[0]]
    ensures Splice(s, at, data) == Splice(s[at := data[0]], at + 1, data[1..])
  {
  }

  lemma {:induction false} PageFits(p: nat, page: nat, size: nat, n: nat)
    requires page > 0 && size % page == 0 && p < size && p % page + n <= page
    ensures p + n <= size
  {
    DivMod(p, page);
    DivMod(size, page);
    var q, k := p / page, size / page;
    if q > k {
      Spread(page, k, q);
      assert false;
    } else if q < k {
      Spread(page, q, k);
    }
  }

  /** Two address bytes and a page's worth of data, closed by STOP, store exactly that data. */
  lemma {:induction false} PageWrite(c: Chip, page: nat, high: Byte, low: Byte, data: seq<Byte>)
    requires c.Valid() && page > 0 && |c.mem| % page == 0
    requires 0x100 * high + low < |c.mem| && (0x100 * high + low) % page + |data| <= page
    ensures 0x100 * high + low + |data| <= |c.mem|
    ensures var d := Stored(AbsorbAll(Selected(c), page, [high, low] + data));
      && d.Valid()
      && d.mem == Splice(c.mem, 0x100 * high + low, data)
      && (data == [] ==> d.busy == c.busy && d.ptr == 0x100 * high + low)
  {
    hide Splice, AbsorbAll;
    var a := 0x100 * high + low;
    AbsorbHeader(c, page, high, low, data);
    AbsorbData(c.(latch := c.mem, high := high, ptr := a, count := 2), page, data);
    if data == [] {
      SpliceNothing(c.mem, a);
      AbsorbNothing(c.(latch := c.mem, high := high, ptr := a, count := 2), page);
    }
  }

  lemma {:induction false} AbsorbNothing(c: Chip, page: nat)
    requires c.Valid() && page > 0 && |c.mem| % page == 0
    ensures AbsorbAll(c, page, []) == c
  {
  }

  lemma {:induction false} AbsorbHeader(c: Chip, page: nat, high: Byte, low: Byte, data: seq<Byte>)
    requires c.Valid() && page > 0 && |c.mem| % page == 0
    requires 0x100 * high + low < |c.mem|
    ensures AbsorbAll(Selected(c), page, [high, low] + data)
      == AbsorbAll(c.(latch := c.mem, high := high, ptr := 0x100 * high + low, count := 2), page, data)
  {
    DivRem(|c.mem|, 0, 0x100 * high + low);
    var c0 := Selected(c);
    var c1 := Absorb(c0, page, high);
    assert ([high, low] + data)[1..] == [low] + data;
    assert ([low] + data)[1..] == data;
    assert AbsorbAll(c0, page, [high, low] + data) == AbsorbAll(c1, page, [low] + data);
  }

  lemma {:induction false} SpliceNothing(s: seq<Byte>, at: nat)
    requires at <= |s|
    ensures Splice(s, at, []) == s
  {
  }

  // ---------------------------------------------------------- blocks against pages

  lemma {:induction false} NextStaysInPage(p: nat, page: nat)
    requires page > 0
    ensures (p + 1) % page == 0 ==> p + 1 >= page
    ensures NextInPage(p, page) >= 0 && Quot(NextInPage(p, page), page) == Quot(p, page)
  {
    DivMod(p, page);
    ModSucc(p, page);
    if (p + 1) % page == 0 {
      DivRem(page, p / page, 0);
    }
  }

  /** Whatever is written, only cells of the page it began in can change. */
  lemma {:induction false} AbsorbStaysInPage(c: Chip, page: nat, data: seq<Byte>, x: nat)
    requires c.Valid() && page > 0 && |c.mem| % page == 0
    requires c.count >= 2 && x < |c.mem| && Quot(x, page) != Quot(c.ptr, page)
    ensures AbsorbAll(c, page, data).latch[x] == c.latch[x]
    decreases |data|
  {
    hide Quot;
    if data != [] {
      NextStaysInPage(c.ptr, page);
      PageWraps(c.ptr, page, |c.mem|);
      hide NextInPage;
      AbsorbStaysInPage(Absorb(c, page, data[0]), page, data[1..], x);
    }
  }

  /** The cells of a chip after data was sent to cell o of it. */
  function StoredCells(c: Chip, page: nat, o: nat, data: seq<Byte>): (cells: seq<Byte>)
    requires c.Valid() && page > 0 && |c.mem| % page == 0 && o < 0x1_0000
    ensures |cells| == |c.mem|
  {
    Stored(AbsorbAll(Selected(c), page, [o / 0x100, o % 0x100] + data)).mem
  }

  lemma {:induction false} StoredInPage(c: Chip, page: nat, o: nat, data: seq<Byte>, x: nat)
    requires c.Valid() && page > 0 && |c.mem| % page == 0 && o < |c.mem| <= 0x1_0000
    requires x < |c.mem| && Quot(x, page) != Quot(o, page)
    ensures StoredCells(c, page, o, data)[x] == c.mem[x]
  {
    hide AbsorbAll, Quot;
    var high: Byte, low: Byte := o / 0x100, o % 0x100;
    AbsorbHeader(c, page, high, low, data);
    AbsorbStaysInPage(c.(latch := c.mem, high := high, ptr := o, count := 2), page, data, x);
  }

  /** Does every block, sent to a place of its own, end up there? */
  ghost predicate BlocksStored(c: Chip, page: nat, block: nat)
    requires c.Valid() && page > 0 && |c.mem| % page == 0 && |c.mem| <= 0x1_0000 && block > 0
  {
    forall o: nat, data: seq<Byte> :: o < |c.mem| && Rem(o, block) + |data| <= block && o + |data| <= |c.mem| ==>
      StoredCells(c, page, o, data) == Splice(c.mem, o, data)
  }

  lemma {:induction false} BlockInPage(o: nat, page: nat, block: nat, n: nat)
    requires page > 0 && block > 0 && page % block == 0 && Rem(o, block) + n <= block
    ensures o % page + n <= page
  {
    var m, z := Parts(page, block);
    var k, x := Parts(o, page);
    var j, r := Parts(x, block);
    SameRemainder(o, k, page, x, block);
    hide Span, Rem;
    if j < m {
      SpanStep(j, m, block);
    } else if m < j {
      SpanStep(m, j, block);
    }
  }

  lemma {:induction false} SameRemainder(o: nat, k: nat, page: nat, x: nat, block: nat)
    requires block > 0 && page % block == 0 && o == Span(k, page) + x
    ensures Rem(o, block) == x % block
  {
    ModSkips(k, page, x, block);
  }

  lemma {:induction false} SpanStep(a: nat, b: nat, size: nat)
    requires a < b
    ensures Span(a, size) + size <= Span(b, size)
  {
    Spread(size, a, b);
  }

  /** A page boundary inside a block, when blocks do not divide pages. */
  lemma {:induction false} Straddles(size: nat, page: nat, block: nat) returns (o: nat)
    requires 0 < page <= size && block > 0 && size % page == 0 && size % block == 0 && page % block != 0
    ensures o < page < size && Rem(o, block) == 0 && page - o < block
    ensures Quot(o, page) == 0 && Quot(page, page) == 1
  {
    hide Quot, Rem, Span;
    var q: nat, r: nat;
    q, r := Parts(page, block);
    o := page - r;
    Parted(block, q, 0);
    Parted(page, 0, o);
    Parted(page, 1, 0);
  }

  lemma {:induction false} Parts(x: nat, n: nat) returns (q: nat, r: nat)
    requires n > 0
    ensures x == Span(q, n) + r && r < n && r == x % n
  {
    DivMod(x, n);
    q, r := x / n, x % n;
  }

  lemma {:induction false} Parted(n: nat, q: nat, r: nat)
    requires r < n
    ensures Rem(Span(q, n) + r, n) == r && Quot(Span(q, n) + r, n) == q
    ensures Span(0, n) == 0 && Span(1, n) == n
  {
    DivRem(n, q, r);
  }

  /** What goes past the end of the page does not reach the next one. */
  lemma {:induction false} StraddlingIsLost(c: Chip, page: nat, o: nat, data: seq<Byte>)
    requires c.Valid() && page > 0 && |c.mem| % page == 0 && |c.mem| <= 0x1_0000
    requires o < page < |c.mem| && o + |data| == page + 1 && data[page - o] != c.mem[page]
    requires Quot(o, page) == 0 && Quot(page, page) == 1
    ensures StoredCells(c, page, o, data) != Splice(c.mem, o, data)
  {
    hide StoredCells, Quot;
    StoredInPage(c, page, o, data, page);
    assert Splice(c.mem, o, data)[page] == data[page - o];
  }

  /** Every block ends up in its place exactly when the block size divides the page size. */
  lemma {:induction false} BlocksStoredIff(c: Chip, page: nat, block: nat)
    requires c.Valid() && page > 0 && |c.mem| % page == 0 && |c.mem| <= 0x1_0000
    requires block > 0 && |c.mem| % block == 0
    ensures BlocksStored(c, page, block) <==> page % block == 0
  {
    if page % block == 0 {
      forall o: nat, data: seq<Byte> | o < |c.mem| && Rem(o, block) + |data| <= block && o + |data| <= |c.mem|
        ensures StoredCells(c, page, o, data) == Splice(c.mem, o, data)
      {
        BlockInPage(o, page, block, |data|);
        PageWrite(c, page, o / 0x100, o % 0x100, data);
      }
    } else {
      PageWithin(page, |c.mem|);
      var o := Straddles(|c.mem|, page, block);
      var v: Byte := if c.mem[page] == 0 then 1 else 0;
      var data := seq(page - o, _ => 0) + [v];
      StraddlingIsLost(c, page, o, data);
    }
  }

  lemma {:induction false} PageWithin(page: nat, size: nat)
    requires page > 0 && size > 0 && size % page == 0
    ensures page <= size
  {
    DivRem(page, 0, if size < page then size else 0);
  }

  /** The bus after a chip was addressed, given `bytes`, and released. */
  function Delivered(bus: Bus, d: Byte, bytes: seq<Byte>): (b: Bus)
    requires bus.Valid() && d in bus.chips
    ensures b.Valid() && b.chips.Keys == bus.chips.Keys && b.page == bus.page
  {
    var c := Stored(AbsorbAll(Selected(bus.chips[d]), bus.page, bytes));
    bus.(chips := bus.chips[d := c], target := d, phase := Idle, event := Silent)
  }

  /** The bus after n bytes were read from a chip. */
  function Drained(bus: Bus, d: Byte, n: nat): (b: Bus)
    requires bus.Valid() && d in bus.chips
    ensures b.Valid() && b.chips.Keys == bus.chips.Keys && b.page == bus.page
  {
    bus.(chips := bus.chips[d := Skip(bus.chips[d], n)], target := d, phase := Idle, event := Silent)
  }

  /** A chip that listens to a write address takes the bytes to come. */
  lemma {:induction false} AddressWriting(m: Master, bus: Bus, slarw: Byte, d: Byte)
    requires bus.Valid() && !Deaf(bus, d) && slarw == 2 * d && m.state.Transmitting? && m.requested <= m.received
    ensures Exec(bus, Address(slarw))
      == bus.(chips := bus.chips[d := Selected(bus.chips[d])], target := d, phase := Writing, event := Acked)
    ensures Live(m, Exec(bus, Address(slarw)))
  {
  }

  /** A Send that finds its chip listening delivers the whole output queue to it. */
  lemma {:induction false} SendDelivers(m: Master, bus: Bus, address: Byte, d: Byte)
    requires m.state.Ready? && m.output != [] && m.requested <= m.received
    requires bus.Valid() && !Deaf(bus, d) && Slarw(address, false) == 2 * d
    ensures var (m2, command, sent) := Send(m, address);
      var bus2 := Exec(bus, command);
      && sent == |m.output| && m2.state.Transmitting? && Live(m2, bus2)
      && Settle(m2, bus2) == (m2.(state := Ready, output := []), Delivered(bus, d, m.output))
  {
    hide AbsorbAll, Stored, Exec, Settle, Slarw, Deaf, Live;
    var (m2, command, sent) := Send(m, address);
    AddressWriting(m2, bus, Slarw(address, false), d);
    var bus2 := Exec(bus, command);
    SettleTransmit(m2, bus2);
    hide Selected;
    var c, e := Selected(bus.chips[d]), Stored(AbsorbAll(Selected(bus.chips[d]), bus.page, m.output));
    assert bus.chips[d := c][d := e] == bus.chips[d := e];
  }

  /** No chip answers, or the one addressed is busy storing. */
  predicate Deaf(bus: Bus, d: Byte) {
    d !in bus.chips || bus.chips[d].busy
  }

  lemma {:induction false} AddressDeaf(bus: Bus, slarw: Byte)
    requires bus.Valid() && Deaf(bus, slarw / 2)
    ensures Exec(bus, Address(slarw)) == bus.(phase := Idle, event := Nacked)
  {
  }

  /** An unanswered address ends the transfer at the next interrupt. */
  lemma {:induction false} SettleNacked(m: Master, bus: Bus)
    requires bus.Valid() && bus.phase.Idle? && bus.event.Nacked? && !m.state.Ready?
    requires m.state.Receiving? ==> m.received < 255
    ensures Live(m, bus) && Settle(m, bus) == (m.(state := Ready, error := NoAck), bus.(event := Silent))
  {
    TickIsProgress(m, bus);
    assert Tick(m, bus) == (m.(state := Ready, error := NoAck), bus.(event := Silent));
  }

  /** A Send that finds nobody listening ends at once, its queue untouched. */
  lemma {:induction false} SendRefused(m: Master, bus: Bus, address: Byte, d: Byte)
    requires m.state.Ready? && m.output != []
    requires bus.Valid() && Deaf(bus, d) && Slarw(address, false) == 2 * d
    ensures var (m2, command, sent) := Send(m, address);
      var bus2 := Exec(bus, command);
      && sent > 0 && m2.state.Transmitting? && Live(m2, bus2)
      && Settle(m2, bus2) == (m2.(state := Ready, error := NoAck), bus.(phase := Idle, event := Silent))
  {
    hide Exec, Settle, Slarw, Deaf, Live;
    var (m2, command, sent) := Send(m, address);
    AddressDeaf(bus, Slarw(address, false));
    SettleNacked(m2, bus.(phase := Idle, event := Nacked));
  }

  /** A Request that finds nobody listening receives nothing. */
  lemma {:induction false} RequestRefused(m: Master, bus: Bus, address: Byte, n: Byte, d: Byte)
    requires m.state.Ready? && n < m.InputRoom()
    requires bus.Valid() && Deaf(bus, d) && Slarw(address, true) == 2 * d + 1
    ensures var (m2, command, granted) := Request(m, address, n);
      var bus2 := Exec(bus, command);
      && granted == n && m2.state.Receiving? && m2.received == 0 && Live(m2, bus2)
      && Settle(m2, bus2) == (m2.(state := Ready, error := NoAck), bus.(phase := Idle, event := Silent))
  {
    hide Exec, Settle, Slarw, Deaf, Live;
    var (m2, command, granted) := Request(m, address, n);
    AddressDeaf(bus, Slarw(address, true));
    SettleNacked(m2, bus.(phase := Idle, event := Nacked));
  }

  /** A Request for more than the input ring holds is refused, and nothing else happens. */
  lemma {:induction false} RequestTooLong(m: Master, bus: Bus, address: Byte, n: Byte)
    requires m.state.Ready? && n >= m.InputRoom() && bus.Valid()
    ensures Request(m, address, n) == (m, NoCommand, 0) && Exec(bus, NoCommand) == bus
    ensures Live(m, bus) && Settle(m, bus) == (m, bus)
  {
  }

  /** A Request to a listening chip on an empty input queue reads its next n cells. */
  lemma {:induction false} RequestDrains(m: Master, bus: Bus, address: Byte, n: Byte, d: Byte)
    requires m.state.Ready? && m.input == [] && 1 <= n < m.InputRoom()
    requires bus.Valid() && !Deaf(bus, d) && Slarw(address, true) == 2 * d + 1
    ensures var (m2, command, granted) := Request(m, address, n);
      var bus2 := Exec(bus, command);
      && granted == n && m2.state.Receiving? && m2.received == 0 && Live(m2, bus2)
      && Settle(m2, bus2)
         == (m2.(state := Ready, received := n, input := Cells(bus.chips[d], n)), Drained(bus, d, n))
  {
    hide Cells, Skip, Settle;
    var (m2, command, granted) := Request(m, address, n);
    var bus2 := Exec(bus, command);
    CellsStep(bus.chips[d], n);
    SettleReceive(m2, bus2);
    var c, e := Advanced(bus.chips[d]), Skip(bus.chips[d], n);
    assert bus.chips[d := c][d := e] == bus.chips[d := e];
    assert m.input + [bus2.event.data] + Cells(c, n - 1) == Cells(bus.chips[d], n);
  }

  /** Reading short of the end of a chip reads consecutive cells. */
  lemma {:induction false} CellsInside(c: Chip, n: nat)
    requires c.Valid() && c.ptr + n <= |c.mem|
    ensures Cells(c, n) == c.mem[c.ptr..c.ptr + n]
    decreases n
  {
    if n > 1 {
      CellsInside(Advanced(c), n - 1);
      assert c.mem[c.ptr..c.ptr + n] == [c.mem[c.ptr]] + c.mem[c.ptr + 1..c.ptr + n];
    }
  }

  /** Reading goes round inside the chip. */
  lemma {:induction false} CellsRound(c: Chip, n: nat, i: nat)
    requires c.Valid() && i < n
    ensures Cells(c, n)[i] == c.mem[Rem(c.ptr + i, |c.mem|)]
    decreases i
  {
    var size := |c.mem|;
    if i == 0 {
      DivRem(size, 0, c.ptr);
    } else {
      CellsStep(c, n);
      CellsRound(Advanced(c), n - 1, i - 1);
      if c.ptr + 1 == size {
        ModSkips(1, size, i - 1, size);
      }
    }
  }

  lemma {:induction false} CellsJoin(c: Chip, m: nat, n: nat)
    requires c.Valid()
    ensures Cells(c, m + n) == Cells(c, m) + Cells(Skip(c, m), n)
    ensures Skip(c, m + n) == Skip(Skip(c, m), n)
    decreases m
  {
    if m > 0 {
      CellsJoin(Advanced(c), m - 1, n);
      assert [c.mem[c.ptr]] + (Cells(Advanced(c), m - 1) + Cells(Skip(c, m), n))
        == [c.mem[c.ptr]] + Cells(Advanced(c), m - 1) + Cells(Skip(c, m), n);
    }
  }

  // -------------------------------------------------------------- flat memory

  /** The cells of a row of chips, one after another. */
  function Flat(chips: map<Byte, Chip>, row: seq<Byte>): seq<Byte>
    requires forall d :: d in row ==> d in chips
  {
    if row == [] then [] else chips[row[0]].mem + Flat(chips, row[1..])
  }

  /** A row of distinct chips of equal size. */
  ghost predicate Uniform(chips: map<Byte, Chip>, row: seq<Byte>, size: nat) {
    && (forall d :: d in row ==> d in chips && |chips[d].mem| == size)
    && (forall i, j :: 0 <= i < j < |row| ==> row[i] != row[j])
  }

  lemma {:induction false} FlatLength(chips: map<Byte, Chip>, row: seq<Byte>, size: nat)
    requires Uniform(chips, row, size)
    ensures |Flat(chips, row)| == |row| * size
    decreases |row|
  {
    if row != [] {
      FlatLength(chips, row[1..], size);
    }
  }

  /** Only the cells matter. */
  lemma {:induction false} FlatSame(a: map<Byte, Chip>, b: map<Byte, Chip>, row: seq<Byte>)
    requires forall d :: d in row ==> d in a && d in b && a[d].mem == b[d].mem
    ensures Flat(a, row) == Flat(b, row)
    decreases |row|
  {
    if row != [] {
      FlatSame(a, b, row[1..]);
    }
  }

  lemma {:induction false} FlatSlice(chips: map<Byte, Chip>, row: seq<Byte>, size: nat, k: nat, o: nat, n: nat)
    requires Uniform(chips, row, size) && k < |row| && o + n <= size
    ensures k * size + o + n <= |Flat(chips, row)|
    ensures Flat(chips, row)[k * size + o..k * size + o + n] == chips[row[k]].mem[o..o + n]
    decreases k
  {
    var first, rest := chips[row[0]].mem, Flat(chips, row[1..]);
    if k == 0 {
      SliceWithin(first, rest, o, o + n);
    } else {
      FlatSlice(chips, row[1..], size, k - 1, o, n);
      hide Flat, Uniform;
      SliceBehind(first, rest, size, k, o, n);
    }
  }

  lemma {:induction false} SliceBehind(a: seq<Byte>, b: seq<Byte>, size: nat, k: nat, o: nat, n: nat)
    requires |a| == size && k > 0 && (k - 1) * size + o + n <= |b|
    ensures k * size + o + n <= |a + b|
    ensures (a + b)[k * size + o..k * size + o + n] == b[(k - 1) * size + o..(k - 1) * size + o + n]
  {
    MulPred(k, size);
    var at := (k - 1) * size + o;
    SliceAcross(a, b, at, at + n);
  }

  lemma {:induction false} SliceWithin(a: seq<Byte>, b: seq<Byte>, i: nat, j: nat)
    requires i <= j <= |a|
    ensures (a + b)[i..j] == a[i..j]
  {
  }

  lemma {:induction false} MulPred(k: nat, size: nat)
    requires k > 0
    ensures k * size == (k - 1) * size + size
  {
  }

  lemma {:induction false} SliceAcross(a: seq<Byte>, b: seq<Byte>, i: nat, j: nat)
    requires i <= j <= |b|
    ensures (a + b)[|a| + i..|a| + j] == b[i..j]
  {
  }

  lemma {:induction false} FlatSplice(
      chips: map<Byte, Chip>, row: seq<Byte>, size: nat, k: nat, o: nat, data: seq<Byte>, c: Chip)
    requires Uniform(chips, row, size) && k < |row| && o + |data| <= size
    requires c.mem == Splice(chips[row[k]].mem, o, data)
    ensures k * size + o + |data| <= |Flat(chips, row)|
    ensures Flat(chips[row[k] := c], row) == Splice(Flat(chips, row), k * size + o, data)
    decreases k
  {
    var chips2 := chips[row[k] := c];
    var first, rest := chips[row[0]].mem, Flat(chips, row[1..]);
    if k == 0 {
      FlatSame(chips, chips2, row[1..]);
      SpliceLeft(first, rest, o, data);
    } else {
      hide Splice, Uniform;
      FlatSplice(chips, row[1..], size, k - 1, o, data, c);
      SpliceBehind(first, rest, size, k, o, data);
    }
  }

  lemma {:induction false} SpliceBehind(a: seq<Byte>, b: seq<Byte>, size: nat, k: nat, o: nat, data: seq<Byte>)
    requires |a| == size && k > 0 && (k - 1) * size + o + |data| <= |b|
    ensures k * size + o + |data| <= |a + b|
    ensures Splice(a + b, k * size + o, data) == a + Splice(b, (k - 1) * size + o, data)
  {
    MulPred(k, size);
    SpliceRight(a, b, (k - 1) * size + o, data);
  }

  lemma {:induction false} SpliceLeft(a: seq<Byte>, b: seq<Byte>, at: nat, data: seq<Byte>)
    requires at + |data| <= |a|
    ensures Splice(a + b, at, data) == Splice(a, at, data) + b
  {
    assert (a + b)[..at] == a[..at];
    assert (a + b)[at + |data|..] == a[at + |data|..] + b;
  }

  lemma {:induction false} SpliceRight(a: seq<Byte>, b: seq<Byte>, at: nat, data: seq<Byte>)
    requires at + |data| <= |b|
    ensures Splice(a + b, |a| + at, data) == a + Splice(b, at, data)
  {
    assert (a + b)[..|a| + at] == a + b[..at];
    assert (a + b)[|a| + at + |data|..] == b[at + |data|..];
  }

  lemma {:induction false} SpliceTwice(s: seq<Byte>, at: nat, x: seq<Byte>, y: seq<Byte>)
    requires at + |x| + |y| <= |s|
    ensures Splice(Splice(s, at, x), at + |x|, y) == Splice(s, at, x + y)
  {
  }

  /** Whatever is sent to a chip, the row stays one of equal chips. */
  lemma {:induction false} DeliveredUniform(bus: Bus, row: seq<Byte>, size: nat, d: Byte, bytes: seq<Byte>)
    requires bus.Valid() && Uniform(bus.chips, row, size) && d in bus.chips
    ensures Uniform(Delivered(bus, d, bytes).chips, row, size)
  {
    hide AbsorbAll;
  }

  /** One block sent to the k-th chip of a row is a splice of the flat memory. */
  lemma {:induction false} BlockWritten(
      bus: Bus, row: seq<Byte>, size: nat, k: nat, high: Byte, low: Byte, o: nat, data: seq<Byte>)
    requires bus.Valid() && Uniform(bus.chips, row, size) && k < |row| && row[k] in bus.chips
    requires o == 0x100 * high + low < size && o % bus.page + |data| <= bus.page
    ensures var bus2 := Delivered(bus, row[k], [high, low] + data);
      && Uniform(bus2.chips, row, size)
      && o + |data| <= size && k * size + o + |data| <= |Flat(bus.chips, row)|
      && Flat(bus2.chips, row) == Splice(Flat(bus.chips, row), k * size + o, data)
      && (data == [] ==> bus2.chips[row[k]].busy == bus.chips[row[k]].busy && bus2.chips[row[k]].ptr == o)
      && (forall d :: d in bus.chips && d != row[k] ==> bus2.chips[d] == bus.chips[d])
  {
    hide AbsorbAll, Stored, Splice, Flat;
    var c := bus.chips[row[k]];
    PageWrite(c, bus.page, high, low, data);
    var c2 := Stored(AbsorbAll(Selected(c), bus.page, [high, low] + data));
    FlatSplice(bus.chips, row, size, k, o, data, c2);
  }

  /** Reading a chip leaves the memory as it is. */
  lemma {:induction false} SkippedMemory(chips: map<Byte, Chip>, row: seq<Byte>, size: nat, d: Byte, n: nat)
    requires Uniform(chips, row, size) && d in chips && chips[d].Valid()
    ensures Uniform(chips[d := Skip(chips[d], n)], row, size)
    ensures Flat(chips[d := Skip(chips[d], n)], row) == Flat(chips, row)
  {
    FlatSame(chips, chips[d := Skip(chips[d], n)], row);
  }
}
