/**
 * The bytes of a Standard MIDI File as the standard spells them: numbers of seven-bit groups,
 * the status byte and the operands of every message, running status, big-endian lengths.
 * Nothing here is defined by the functions that encode and decode.
 */
module MidiWire {
  import opened Words
  import opened MidiFormat
  import opened MidiRoundTrip

  // ------------------------------------------------------ variable-length numbers

  /** The number in the lower seven bits of each byte, the first byte the highest. */
  function SevenBits(s: Bytes): nat {
    if s == [] then 0 else SevenBits(s[..|s| - 1]) * 128 + s[|s| - 1] as int % 128
  }

  /** The shortest way to write v: the top bit is set on all bytes but the last. */
  ghost predicate IsVarLen(s: Bytes, v: nat) {
    && s != [] && SevenBits(s) == v
    && (forall i :: 0 <= i < |s| ==> (s[i] >= 0x80 <==> i < |s| - 1))
    && (|s| > 1 ==> s[0] != 0x80)
  }

  lemma {:induction false} GroupsAreBits(v: nat)
    ensures SevenBits(Groups(v)) == v && (forall i :: 0 <= i < |Groups(v)| ==> Groups(v)[i] >= 0x80)
    ensures v > 0 ==> Groups(v) != [] && Groups(v)[0] != 0x80
  {
    if v > 0 {
      GroupsAreBits(v / 128);
      var s := Groups(v);
      assert s[..|s| - 1] == Groups(v / 128);
    }
  }

  lemma {:induction false} PackedIsVarLen(v: nat)
    ensures IsVarLen(PackVarLen(v), v)
  {
    hide SevenBits, IsVarLen;
    GroupsAreBits(v / 128);
    NoGroups();
    VarLenFrom(Groups(v / 128), v % 128);
    hide Groups;
    assert v / 128 * 128 + v % 128 == v;
  }

  /** Marked groups without a leading zero group, and a last one. */
  lemma {:induction false} VarLenFrom(high: Bytes, low: Byte)
    requires low < 0x80 && (high != [] ==> high[0] != 0x80) && forall i :: 0 <= i < |high| ==> high[i] >= 0x80
    ensures IsVarLen(high + [low], SevenBits(high) * 128 + low)
  {
    var s := high + [low];
    LastBits(s);
    hide SevenBits;
    assert s[..|s| - 1] == high;
  }

  lemma {:induction false} LastGroup(q: nat, r: nat)
    requires r < 128
    ensures (q * 128 + r) / 128 == q && (q * 128 + r) % 128 == r
  {
  }

  lemma {:induction false} GroupsStep(q: nat, r: nat)
    requires r < 128 && (q > 0 || r > 0)
    ensures Groups(q * 128 + r) == Groups(q) + [0x80 + r]
  {
    LastGroup(q, r);
  }

  lemma {:induction false} NoGroups()
    ensures SevenBits([]) == 0 && Groups(0) == []
  {
  }

  lemma {:induction false} LastBits(s: Bytes)
    requires s != []
    ensures SevenBits(s) == SevenBits(s[..|s| - 1]) * 128 + s[|s| - 1] as int % 128
  {
  }

  /** Marked groups without a leading zero group are those of their number. */
  lemma {:induction false} BitsAreGroups(s: Bytes)
    requires (forall i :: 0 <= i < |s| ==> s[i] >= 0x80) && (s != [] ==> s[0] != 0x80)
    ensures Groups(SevenBits(s)) == s
    ensures s != [] ==> SevenBits(s) > 0
    decreases |s|
  {
    hide Groups, SevenBits;
    if s == [] {
      NoGroups();
    } else {
      var n := |s| - 1;
      var high, low: nat := SevenBits(s[..n]), s[n] as int % 128;
      BitsAreGroups(s[..n]);
      LastBits(s);
      assert s[n] == 0x80 + low;
      assert s == s[..n] + [s[n]];
      assert n == 0 ==> s[0] == s[n];
      GroupsStep(high, low);
    }
  }

  lemma {:induction false} VarLenIsPacked(s: Bytes, v: nat)
    requires IsVarLen(s, v)
    ensures s == PackVarLen(v)
  {
    hide Groups, IsVarLen;
    var n := |s| - 1;
    VarLenParts(s, v);
    BitsAreGroups(s[..n]);
    assert s == s[..n] + [s[n]];
  }

  lemma {:induction false} VarLenParts(s: Bytes, v: nat)
    requires IsVarLen(s, v)
    ensures s != [] && SevenBits(s[..|s| - 1]) == v / 128 && s[|s| - 1] == v % 128
    ensures forall i :: 0 <= i < |s| - 1 ==> s[i] >= 0x80
    ensures |s| > 1 ==> s[0] != 0x80
  {
    LastBits(s);
    hide SevenBits;
    LastGroup(SevenBits(s[..|s| - 1]), s[|s| - 1] as int % 128);
  }

  // -------------------------------------------------------------------- messages

  /** s is the channel message e with its status byte. */
  predicate ChannelOnWire(e: Event, s: Bytes) {
    match e
    case NoteOff(c, note, velocity) => s == [0x80 + (c - 1), note, velocity]
    case NoteOn(c, note, velocity) => s == [0x90 + (c - 1), note, velocity]
    case KeyAftertouch(c, note, aftertouch) => s == [0xa0 + (c - 1), note, aftertouch]
    case ControlChange(c, controller, setting) => s == [0xb0 + (c - 1), controller, setting]
    case ProgramChange(c, program) => s == [0xc0 + (c - 1), program]
    case ChannelAftertouch(c, aftertouch) => s == [0xd0 + (c - 1), aftertouch]
    case PitchBend(c, bend) => bend < 0x8000 && s == [0xe0 + (c - 1), bend / 128, bend % 128]
    case _ => false
  }

  predicate MetaOnWire(e: Event, s: Bytes) {
    match e
    case Text(id, text) => |text| < 0x100 && s == [0xff, id, |text|] + text
    case EndOfTrack => s == [0xff, 0x2f, 0]
    case Tempo(v) => s == [0xff, 0x51, 3, v / 0x1_0000 % 0x100, v / 0x100 % 0x100, v % 0x100]
    case SmpteOffset(hours, minutes, seconds, frames, parts) =>
      s == [0xff, 0x54, 5, hours, minutes, seconds, frames, parts]
    case TimeSignature(numerator, exponent) => s == [0xff, 0x58, 4, numerator, exponent, 0x16, 8]
    case Key(sharpFlats, majorMinor) => s == [0xff, 0x59, 2, sharpFlats, majorMinor]
    case Blob(data) => |data| < 0x100 && s == [0xff, 0x7f, |data|] + data
    case _ => false
  }

  predicate SystemOnWire(e: Event, s: Bytes) {
    match e
    case Clock => s == [0xf8]
    case Start => s == [0xfa]
    case Continue => s == [0xfb]
    case Stop => s == [0xfc]
    case _ => false
  }

  ghost predicate SysExOnWire(e: Event, s: Bytes) {
    match e
    case SysEx(manufacturer, device, data) =>
      exists length: Bytes ::
        && IsVarLen(length, |manufacturer| + |device| + |data| + 1)
        && s == [0xf0] + length + (manufacturer + device + data + [0xf7])
    case _ => false
  }

  /** s is the event e with its status byte. */
  ghost predicate OnWire(e: Event, s: Bytes) {
    ChannelOnWire(e, s) || MetaOnWire(e, s) || SystemOnWire(e, s) || SysExOnWire(e, s)
  }

  lemma {:induction false} ChannelIff(e: Event, s: Bytes)
    requires IsChannel(e) && Constructible(e)
    ensures ChannelOnWire(e, s) <==> s == Encode(e, None)
  {
  }

  lemma {:induction false} TempoIff(value: U32, s: Bytes)
    ensures MetaOnWire(Tempo(value), s) <==> s == [0xff, 0x51, 3] + Pack32(value)[1..]
  {
    var p := Pack32(value)[1..];
    assert p == [value / 0x1_0000 % 0x100, value / 0x100 % 0x100, value % 0x100] by {
      assert value % 0x1_0000 / 0x100 == value / 0x100 % 0x100 && value % 0x1_0000 % 0x100 == value % 0x100;
    }
    assert [0xff, 0x51, 3] + p == [0xff, 0x51, 3, p[0], p[1], p[2]];
  }

  lemma {:induction false} MetaIff(e: Event, s: Bytes)
    requires IsMeta(e) && Constructible(e)
    ensures MetaOnWire(e, s) <==> s == Encode(e, None)
  {
    if e.Tempo? {
      TempoIff(e.value, s);
      hide Pack32, MetaOnWire;
    }
  }

  lemma {:induction false} SystemIff(e: Event, s: Bytes)
    requires IsSystem(e)
    ensures SystemOnWire(e, s) <==> s == Encode(e, None)
  {
  }

  lemma {:induction false} SysExIff(e: Event, s: Bytes)
    requires e.SysEx? && Constructible(e)
    ensures SysExOnWire(e, s) <==> s == Encode(e, None)
  {
    var n := |e.manufacturer| + |e.device| + |e.data| + 1;
    PackedIsVarLen(n);
    hide PackVarLen, IsVarLen, SevenBit;
    assert |SysExBody(e)| == n;
    if SysExOnWire(e, s) {
      var length: Bytes :| IsVarLen(length, n) && s == [0xf0] + length + SysExBody(e);
      VarLenIsPacked(length, n);
    }
  }

  /** What is written is what the standard says, and nothing else says it. */
  lemma {:induction false} WireIff(e: Event, s: Bytes)
    requires Constructible(e)
    ensures OnWire(e, s) <==> s == Encode(e, None)
  {
    OtherKinds(e, s);
    if IsChannel(e) { ChannelIff(e, s); }
    if IsMeta(e) { MetaIff(e, s); }
    if IsSystem(e) { SystemIff(e, s); }
    if e.SysEx? { SysExIff(e, s); }
    hide ChannelOnWire, MetaOnWire, SystemOnWire, SysExOnWire, Encode, Constructible;
  }

  lemma {:induction false} OtherKinds(e: Event, s: Bytes)
    ensures ChannelOnWire(e, s) ==> IsChannel(e)
    ensures MetaOnWire(e, s) ==> IsMeta(e)
    ensures SystemOnWire(e, s) ==> IsSystem(e)
    ensures SysExOnWire(e, s) ==> e.SysEx?
  {
  }

  // ---------------------------------------------------------------------- tracks

  /** A message whose status byte is the running status goes without it. */
  function Shortened(message: Bytes, running: Option<Byte>): Bytes {
    if message != [] && running == Some(message[0]) then message[1..] else message
  }

  /** Channel messages leave their status byte behind, system messages the one before, others none. */
  function StatusAfter(message: Bytes, running: Option<Byte>): Option<Byte> {
    if message == [] || message[0] in {0xf0, 0xff} then None
    else if message[0] < 0xf0 then Some(message[0])
    else running
  }

  /** s is a track of these events: each has its time since the one before, and its message. */
  ghost predicate TrackOnWire(s: Bytes, events: seq<Timed>, now: nat, running: Option<Byte>)
    decreases |events|
  {
    if events == [] then s == [] else
      exists time: Bytes, message: Bytes, rest: Bytes ::
        && now <= events[0].time && IsVarLen(time, events[0].time - now)
        && OnWire(events[0].event, message)
        && s == time + Shortened(message, running) + rest
        && TrackOnWire(rest, events[1..], events[0].time, StatusAfter(message, running))
  }

  predicate IsRunning(running: Option<Byte>) {
    running.Some? ==> 0x80 <= running.value < 0xf0
  }

  lemma {:induction false} EncodeShortened(e: Event, running: Option<Byte>)
    requires Constructible(e) && IsRunning(running)
    ensures var message := Encode(e, None);
      Encode(e, running) == Shortened(message, running) && After(e, running) == StatusAfter(message, running)
    ensures IsRunning(After(e, running))
  {
    hide Operands, SysExBody, PackVarLen, MetaData, Constructible;
  }

  /** The track that is written is the standard's. */
  lemma {:induction false} EncodedTrack(events: seq<Timed>, now: nat, running: Option<Byte>)
    requires Writable(events, now) && IsRunning(running)
    ensures TrackOnWire(EncodeEvents(events, now, running), events, now, running)
    decreases |events|
  {
    hide Writable, Encode, OnWire, IsVarLen, Shortened, StatusAfter, IsRunning, After, PackVarLen, Constructible;
    if events != [] {
      var e := events[0];
      EncodeStep(events, now, running);
      EncodeShortened(e.event, running);
      PackedIsVarLen(e.time - now);
      WireIff(e.event, Encode(e.event, None));
      EncodedTrack(events[1..], e.time, After(e.event, running));
      hide EncodeEvents;
      assert OnWire(e.event, Encode(e.event, None));
    }
  }

  /** A track chunk: MTrk, the length in four bytes, the highest first, and the events. */
  ghost predicate ChunkOnWire(s: Bytes, events: seq<Timed>) {
    && |s| >= 8 && s[..4] == [0x4d, 0x54, 0x72, 0x6b]
    && |s| - 8 == 0x100_0000 * s[4] as int + 0x1_0000 * s[5] as int + 0x100 * s[6] as int + s[7] as int
    && TrackOnWire(s[8..], events, 0, None)
  }

  lemma {:induction false} BigEndian(v: U32)
    ensures var s := Pack32(v);
      v == 0x100_0000 * s[0] as int + 0x1_0000 * s[1] as int + 0x100 * s[2] as int + s[3] as int
  {
  }

  lemma {:induction false} EncodedChunk(events: seq<Timed>)
    requires Writable(events, 0) && TrackChunk(events).Some?
    ensures ChunkOnWire(TrackChunk(events).value, events)
  {
    hide Writable, EncodeEvents, TrackOnWire, Pack32;
    EncodedTrack(events, 0, None);
    var data := EncodeEvents(events, 0, None);
    BigEndian(|data|);
    var s := TrackChunk(events).value;
    assert s[8..] == data;
  }

  ghost predicate ChunksOnWire(s: Bytes, tracks: seq<seq<Timed>>)
    decreases |tracks|
  {
    if tracks == [] then s == [] else
      exists chunk: Bytes, rest: Bytes ::
        s == chunk + rest && ChunkOnWire(chunk, tracks[0]) && ChunksOnWire(rest, tracks[1..])
  }

  /** A file: MThd, 6, format, number of tracks and division, and the tracks. */
  ghost predicate FileOnWire(s: Bytes, format: U16, ppq: U16, tracks: seq<seq<Timed>>) {
    && |tracks| < 0x1_0000 && |s| >= 14
    && s[..14] == [0x4d, 0x54, 0x68, 0x64, 0, 0, 0, 6, format / 0x100, format % 0x100,
                   |tracks| / 0x100, |tracks| % 0x100, ppq / 0x100, ppq % 0x100]
    && ChunksOnWire(s[14..], tracks)
  }

  lemma {:induction false} EncodedChunks(tracks: seq<seq<Timed>>)
    requires AllWritable(tracks) && Chunks(tracks).Some?
    ensures ChunksOnWire(Chunks(tracks).value, tracks)
    decreases |tracks|
  {
    hide Writable, TrackChunk, ChunkOnWire;
    if tracks != [] {
      EncodedChunk(tracks[0]);
      EncodedChunks(tracks[1..]);
    }
  }

  lemma {:induction false} EncodedFile(format: U16, ppq: U16, tracks: seq<seq<Timed>>)
    requires AllWritable(tracks) && FileBytes(format, ppq, tracks).Some?
    ensures FileOnWire(FileBytes(format, ppq, tracks).value, format, ppq, tracks)
  {
    hide AllWritable, Chunks, ChunksOnWire;
    EncodedChunks(tracks);
    var s := FileBytes(format, ppq, tracks).value;
    assert Header(format, |tracks|, ppq)
      == [0x4d, 0x54, 0x68, 0x64, 0, 0, 0, 6, format / 0x100, format % 0x100,
          |tracks| / 0x100, |tracks| % 0x100, ppq / 0x100, ppq % 0x100];
    assert s[..14] == Header(format, |tracks|, ppq) && s[14..] == Chunks(tracks).value;
  }

  // --------------------------------------------------------------------- reading

  /** The messages that the reader takes for what they are. */
  predicate Readable(e: Event) {
    match e
    case Text(_, text) => |text| < 128
    case Blob(data) => |data| < 128
    case Tempo(value) => 0 < value < 0x100_0000
    case SysEx(manufacturer, device, data) =>
      |manufacturer| == 3 && |device| == 2 && SevenBit(manufacturer) && SevenBit(device) && SevenBit(data)
    case _ => true
  }

  /** What reading makes of a message at the front of s, after a channel message of kind `previous` (0 for none). */
  ghost predicate MessageRead(
      previous: Byte, s: Bytes, r: Option<Step>, delta: nat, e: Event, time: Bytes, message: Bytes)
    requires message != []
  {
    var kind := if 0x80 <= message[0] < 0xf0 then message[0] - message[0] % 16 else previous;
    var heard := if message[0] in {0xf8, 0xfa, 0xfb, 0xfc} then None else Some(e);
    && (time + message <= s ==> r == Some(Step(delta, heard, |time| + |message|, kind)))
    && (previous == message[0] && message[0] in {0x80, 0x90, 0xa0, 0xb0, 0xc0, 0xd0, 0xe0}
        && time + message[1..] <= s && |message| > 1 && message[1] < 0x80 ==>
          r == Some(Step(delta, Some(e), |time| + |message| - 1, previous)))
  }

  /** Every readable message at the front of s is read. */
  ghost predicate EventRead(previous: Byte, s: Bytes, r: Option<Step>) {
    forall delta: nat, e: Event, time: Bytes, message: Bytes ::
      IsVarLen(time, delta) && OnWire(e, message) && Readable(e) && message != [] ==>
        MessageRead(previous, s, r, delta, e, time, message)
  }

  lemma {:induction false} FirstOfMessage(e: Event)
    requires Constructible(e)
    ensures var message := Encode(e, None);
      && message != []
      && (IsChannel(e) <==> 0x80 <= message[0] < 0xf0)
      && (IsChannel(e) ==>
            && message[0] == Status(e) && message[0] - message[0] % 16 == Kind(e)
            && message[0] % 16 + 1 == e.channel)
      && (IsSystem(e) <==> message[0] in {0xf8, 0xfa, 0xfb, 0xfc})
  {
    hide Operands, SysExBody, PackVarLen, MetaData, Constructible;
    if IsChannel(e) {
      StatusParts(e);
    }
  }

  lemma {:induction false} ReadableIsLegible(e: Event)
    requires Readable(e) && Constructible(e)
    ensures Legible(e, None)
  {
  }

  lemma {:induction false} WireIsConstructible(e: Event, message: Bytes)
    requires Readable(e) && OnWire(e, message)
    ensures Constructible(e)
  {
  }

  lemma {:induction false} FrontOf(s: Bytes, time: Bytes, message: Bytes)
    requires time + message <= s
    ensures s == time + (message + s[|time| + |message|..])
  {
  }

  lemma {:induction false} WholeMessageRead(
      previous: Byte, s: Bytes, delta: nat, e: Event, message: Bytes)
    requires Constructible(e) && Readable(e) && message == Encode(e, None) && PackVarLen(delta) + message <= s
    ensures message != []
    ensures var kind := if 0x80 <= message[0] < 0xf0 then message[0] - message[0] % 16 else previous;
      var heard := if message[0] in {0xf8, 0xfa, 0xfb, 0xfc} then None else Some(e);
      DecodeEvent(previous, s) == Some(Step(delta, heard, |PackVarLen(delta)| + |message|, kind))
  {
    hide DecodeEvent, PackVarLen, Encode, Constructible, Legible, Readable, IsChannel, IsSystem, Kind, Status;
    FirstOfMessage(e);
    ReadableIsLegible(e);
    FrontOf(s, PackVarLen(delta), message);
    EventRoundTrip(delta, e, None, previous, s[|PackVarLen(delta)| + |message|..]);
  }

  lemma {:induction false} ShortenedMessageRead(
      previous: Byte, s: Bytes, delta: nat, e: Event, message: Bytes)
    requires Constructible(e) && message == Encode(e, None) && IsChannel(e) && message != []
    requires previous == message[0] && message[0] % 16 == 0 && |message| > 1 && message[1] < 0x80
    requires PackVarLen(delta) + message[1..] <= s
    ensures DecodeEvent(previous, s) == Some(Step(delta, Some(e), |PackVarLen(delta)| + |message| - 1, previous))
  {
    hide DecodeEvent, PackVarLen, Constructible;
    FirstOfMessage(e);
    var running := Some(Status(e));
    assert Encode(e, running) == message[1..] == Operands(e);
    assert OnChannel(e, 1) == e;
    hide Encode, Kind, Status, IsChannel, Operands;
    FrontOf(s, PackVarLen(delta), message[1..]);
    EventRoundTrip(delta, e, running, previous, s[|PackVarLen(delta)| + |message| - 1..]);
  }

  /** The reader reads what the standard says, from any file. */
  lemma {:induction false} DecodeOnWire(previous: Byte, s: Bytes)
    ensures EventRead(previous, s, DecodeEvent(previous, s))
  {
    hide DecodeEvent, OnWire, IsVarLen, Readable, Constructible, Encode, PackVarLen, IsChannel;
    forall delta: nat, e: Event, time: Bytes, message: Bytes |
      IsVarLen(time, delta) && OnWire(e, message) && Readable(e) && message != []
      ensures MessageRead(previous, s, DecodeEvent(previous, s), delta, e, time, message)
    {
      WireIsConstructible(e, message);
      WireIff(e, message);
      VarLenIsPacked(time, delta);
      FirstOfMessage(e);
      if time + message <= s {
        WholeMessageRead(previous, s, delta, e, message);
      }
      if IsChannel(e) && previous == message[0] && message[0] % 16 == 0
        && time + message[1..] <= s && |message| > 1 && message[1] < 0x80
      {
        ShortenedMessageRead(previous, s, delta, e, message);
      }
    }
  }

  /** What the reader skips: other status bytes, channel prefixes, and data bytes before any channel message. */
  lemma {:induction false} SkippedRead(previous: Byte, s: Bytes, delta: nat, time: Bytes)
    requires IsVarLen(time, delta) && time <= s && |time| < |s|
    ensures var rest := s[|time|..];
      && (rest[0] in {0xf1, 0xf2, 0xf3, 0xf4, 0xf5, 0xf6, 0xf7, 0xf8, 0xf9, 0xfa, 0xfb, 0xfc, 0xfd, 0xfe}
          || (rest[0] < 0x80 && previous == 0) ==>
            DecodeEvent(previous, s) == Some(Step(delta, None, |time| + 1, previous)))
      && (|rest| >= 4 && rest[..3] == [0xff, 0x20, 1] ==>
            DecodeEvent(previous, s) == Some(Step(delta, None, |time| + 4, previous)))
  {
    VarLenIsPacked(time, delta);
    var rest := s[|time|..];
    assert s == time + rest;
    VarLenRoundTrip(delta, rest);
    hide PackVarLen, DecodeChannel, DecodeSysEx, IsVarLen;
    if |rest| >= 4 && rest[..3] == [0xff, 0x20, 1] {
      PrefixRead(delta, previous, s, |time| + 1);
    }
    hide DecodeMeta;
    assert s[|time|] == rest[0];
  }

  lemma {:induction false} PrefixRead(delta: nat, previous: Byte, s: Bytes, at: nat)
    requires at + 3 <= |s| && s[at] == 0x20 && s[at + 1] == 1
    ensures DecodeMeta(delta, previous, s, at) == Some(Step(delta, None, at + 3, previous))
  {
    assert s[at + 1..][0] == 1;
    assert ReadVarLen(0, s[at + 1..]) == Some(Number(1, 1));
  }
}
