/**
 * The HD44780 controller seen from its 4-bit bus: nibbles pair up into bytes, a command
 * byte may set the display address, a data byte is stored there and the address moves on.
 */
module LcdDevice {
  import opened Words

  datatype Device = Device(ddram: seq<Byte>, address: nat, high: Option<Byte>, twoLines: bool)
  {
    predicate Valid() {
      |ddram| == 0x80 && address < 0x80
    }
  }

  /** In two-line mode the lines are 40 places at 0x00 and 40 places at 0x40. */
  function NextAddress(a: nat, twoLines: bool): nat {
    if twoLines && a == 0x27 then 0x40
    else if twoLines && a == 0x67 then 0x00
    else if !twoLines && a == 0x4f then 0x00
    else if a + 1 == 0x80 then 0x00
    else a + 1
  }

  function Execute(d: Device, data: bool, value: Byte): (e: Device)
    requires d.Valid()
    ensures e.Valid() && e.high == d.high
  {
    if data then d.(ddram := d.ddram[d.address := value], address := NextAddress(d.address, d.twoLines))
    else if value >= 0x80 then d.(address := value - 0x80)
    else if value == 1 then d.(ddram := seq(0x80, _ => 0x20), address := 0)
    else if value == 2 || value == 3 then d.(address := 0)
    else d
  }

  /** A falling edge of the enable pin, with the register-select pin and the data pins. */
  function Latch(d: Device, rs: bool, nibble: Byte): (e: Device)
    requires d.Valid()
    ensures e.Valid()
  {
    match d.high
    case None => d.(high := Some(nibble % 16))
    case Some(h) => Execute(d.(high := None), rs, h % 16 * 16 + nibble % 16)
  }

  /** A queued nibble: bit 4 selects the data register. */
  function Feed(d: Device, nibbles: seq<Byte>): (e: Device)
    requires d.Valid()
    ensures e.Valid()
    decreases |nibbles|
  {
    if nibbles == [] then d
    else Feed(Latch(d, nibbles[0] / 16 % 2 == 1, nibbles[0] % 16), nibbles[1..])
  }

  lemma {:induction false} FeedAppend(d: Device, a: seq<Byte>, b: seq<Byte>)
    requires d.Valid()
    ensures Feed(d, a + b) == Feed(Feed(d, a), b)
    decreases |a|
  {
    if a == [] {
      assert a + b == b;
    } else {
      assert (a + b)[1..] == a[1..] + b;
      FeedAppend(Latch(d, a[0] / 16 % 2 == 1, a[0] % 16), a[1..], b);
    }
  }

  /** The two queue entries that carry a byte. */
  function Pair(data: bool, value: Byte): seq<Byte> {
    var tag := if data then 0x10 else 0;
    [tag + value / 16, tag + value % 16]
  }

  lemma {:induction false} FeedOne(d: Device, a: Byte)
    requires d.Valid()
    ensures Feed(d, [a]) == Latch(d, a / 16 % 2 == 1, a % 16)
  {
    hide Latch;
    assert [a][1..] == [];
  }

  lemma {:induction false} FeedTwo(d: Device, a: Byte, b: Byte)
    requires d.Valid()
    ensures Feed(d, [a, b]) == Latch(Latch(d, a / 16 % 2 == 1, a % 16), b / 16 % 2 == 1, b % 16)
  {
    hide Latch, Feed;
    FeedOne(d, a);
    FeedOne(Feed(d, [a]), b);
    FeedAppend(d, [a], [b]);
    assert [a] + [b] == [a, b];
  }

  lemma {:induction false} TagBits(data: bool, nibble: Byte)
    requires nibble < 16
    ensures var x := (if data then 0x10 else 0) + nibble; (x / 16 % 2 == 1 <==> data) && x % 16 == nibble
  {
  }

  lemma {:induction false} FeedPair(d: Device, data: bool, value: Byte)
    requires d.Valid() && d.high.None?
    ensures Feed(d, Pair(data, value)) == Execute(d, data, value)
  {
    hide Execute, Feed;
    var p := Pair(data, value);
    FeedTwo(d, p[0], p[1]);
    TagBits(data, value / 16);
    TagBits(data, value % 16);
    assert d.(high := Some(value / 16)).(high := None) == d;
    assert value / 16 % 16 * 16 + value % 16 % 16 == value;
  }
}
