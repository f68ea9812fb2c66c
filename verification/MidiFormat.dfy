/**
 * tools/midi/midifile.py: events, their bytes, and what reading bytes back gives.
 * None stands for an exception of the original (a failed assertion, a short unpack, a lookup
 * of an unset variable).
 */
module MidiFormat {
  import opened Words

  /** The meta ids of the seven text events. */
  type TextId = x: int | 1 <= x <= 7 witness 1

  type Channel = x: int | 1 <= x <= 16 witness 1

  datatype Event =
    | Text(id: TextId, text: Bytes)
    | EndOfTrack
    | Tempo(value: U32)                 // microseconds a beat: the original keeps 60000000.0 / value
    | SmpteOffset(h: Byte, m: Byte, s: Byte, f: Byte, sf: Byte)
    | TimeSignature(numerator: Byte, exponent: Byte)  // the denominator is 2 to the exponent
    | Key(sharpFlats: Byte, majorMinor: Byte)
    | Blob(data: Bytes)
    | NoteOff(channel: Channel, note: Byte, velocity: Byte)
    | NoteOn(channel: Channel, note: Byte, velocity: Byte)
    | KeyAftertouch(channel: Channel, note: Byte, aftertouch: Byte)
    | ControlChange(channel: Channel, controller: Byte, setting: Byte)
    | ProgramChange(channel: Channel, program: Byte)
    | ChannelAftertouch(channel: Channel, aftertouch: Byte)
    | PitchBend(channel: Channel, bend: nat)
    | Clock | Start | Continue | Stop
    | SysEx(manufacturer: Bytes, device: Bytes, data: Bytes)

  predicate SevenBit(s: Bytes) {
    forall i :: 0 <= i < |s| ==> s[i] < 0x80
  }

  /** The events whose constructor does not raise. */
  predicate Constructible(e: Event) {
    match e
    case Text(_, text) => |text| < 256
    case Blob(data) => |data| < 256
    case PitchBend(_, bend) => bend < 0x8000
    case SysEx(m, d, data) => SevenBit(m) && SevenBit(d) && SevenBit(data)
    case _ => true
  }

  predicate IsChannel(e: Event) {
    e.NoteOff? || e.NoteOn? || e.KeyAftertouch? || e.ControlChange? || e.ProgramChange?
    || e.ChannelAftertouch? || e.PitchBend?
  }

  predicate IsSystem(e: Event) {
    e.Clock? || e.Start? || e.Continue? || e.Stop?
  }

  predicate IsMeta(e: Event) {
    !IsChannel(e) && !IsSystem(e) && !e.SysEx?
  }

  // ------------------------------------------------------ variable-length integers

  /** The groups of seven bits of v, all marked as not the last. */
  function Groups(v: nat): Bytes {
    if v == 0 then [] else Groups(v / 128) + [0x80 + v % 128]
  }

  function PackVarLen(v: nat): Bytes {
    Groups(v / 128) + [v % 128]
  }

  datatype Number = Number(value: nat, size: nat)

  /** The number read from s when the groups already read amount to v, and how many bytes it takes. */
  function ReadVarLen(v: nat, s: Bytes): (r: Option<Number>)
    ensures r.Some? ==> 1 <= r.value.size <= |s|
    decreases |s|
  {
    if s == [] then
      None
    else if s[0] < 0x80 then
      Some(Number(v * 128 + s[0], 1))
    else
      match ReadVarLen(v * 128 + s[0] % 128, s[1..])
      case None => None
      case Some(n) => Some(Number(n.value, n.size + 1))
  }

  // ------------------------------------------------------------------- to bytes

  function MetaId(e: Event): Byte
    requires IsMeta(e)
  {
    match e
    case Text(id, _) => id
    case EndOfTrack => 0x2f
    case Tempo(_) => 0x51
    case SmpteOffset(_, _, _, _, _) => 0x54
    case TimeSignature(_, _) => 0x58
    case Key(_, _) => 0x59
    case Blob(_) => 0x7f
  }

  // Big-endian integers.

  function Pack16(v: U16): (s: Bytes)
    ensures |s| == 2
  {
    [v / 0x100, v % 0x100]
  }

  function Pack32(v: U32): (s: Bytes)
    ensures |s| == 4
  {
    Pack16(v / 0x1_0000) + Pack16(v % 0x1_0000)
  }

  function Unpack16(s: Bytes): U16
    requires |s| == 2
  {
    s[0] as int * 0x100 + s[1] as int
  }

  function Unpack32(s: Bytes): U32
    requires |s| == 4
  {
    Unpack16(s[..2]) as int * 0x1_0000 + Unpack16(s[2..]) as int
  }

  function MetaData(e: Event): Bytes
    requires IsMeta(e)
  {
    match e
    case Text(_, text) => text
    case EndOfTrack => []
    case Tempo(value) => Pack32(value)[1..]
    case SmpteOffset(h, m, s, f, sf) => [h, m, s, f, sf]
    case TimeSignature(n, x) => [n, x, 0x16, 0x08]
    case Key(s, m) => [s, m]
    case Blob(data) => data
  }

  /** The upper half of a channel event's status byte. */
  function Kind(e: Event): Byte
    requires IsChannel(e)
  {
    match e
    case NoteOff(_, _, _) => 0x80
    case NoteOn(_, _, _) => 0x90
    case KeyAftertouch(_, _, _) => 0xa0
    case ControlChange(_, _, _) => 0xb0
    case ProgramChange(_, _) => 0xc0
    case ChannelAftertouch(_, _) => 0xd0
    case PitchBend(_, _) => 0xe0
  }

  function Status(e: Event): Byte
    requires IsChannel(e)
  {
    Kind(e) + (e.channel - 1)
  }

  function Operands(e: Event): Bytes
    requires IsChannel(e) && Constructible(e)
  {
    match e
    case NoteOff(_, a, b) => [a, b]
    case NoteOn(_, a, b) => [a, b]
    case KeyAftertouch(_, a, b) => [a, b]
    case ControlChange(_, a, b) => [a, b]
    case ProgramChange(_, a) => [a]
    case ChannelAftertouch(_, a) => [a]
    case PitchBend(_, bend) => [bend / 128, bend % 128]
  }

  function SystemId(e: Event): Byte
    requires IsSystem(e)
  {
    match e
    case Clock => 0xf8
    case Start => 0xfa
    case Continue => 0xfb
    case Stop => 0xfc
  }

  function SysExBody(e: Event): Bytes
    requires e.SysEx?
  {
    e.manufacturer + e.device + e.data + [0xf7]
  }

  /** Does the event leave out its status byte after this running status? */
  predicate Reuses(e: Event, running: Option<Byte>) {
    IsChannel(e) && running == Some(Status(e))
  }

  /** The running status after an event. */
  function After(e: Event, running: Option<Byte>): Option<Byte> {
    if IsChannel(e) then Some(Status(e)) else if IsSystem(e) then running else None
  }

  function Encode(e: Event, running: Option<Byte>): Bytes
    requires Constructible(e)
  {
    if IsChannel(e) then
      (if Reuses(e, running) then [] else [Status(e)]) + Operands(e)
    else if IsSystem(e) then
      [SystemId(e)]
    else if e.SysEx? then
      [0xf0] + PackVarLen(|SysExBody(e)|) + SysExBody(e)
    else
      [0xff, MetaId(e), |MetaData(e)|] + MetaData(e)
  }

  /** An event at its time, in ticks from the start of the track. */
  datatype Timed = Timed(time: nat, event: Event)

  predicate AllConstructible(events: seq<Timed>) {
    forall i :: 0 <= i < |events| ==> Constructible(events[i].event)
  }

  predicate Ordered(events: seq<Timed>) {
    forall i, j :: 0 <= i < j < |events| ==> events[i].time <= events[j].time
  }

  /** Nothing but an event without a constructor, or a time going backwards, stops the writer. */
  predicate Writable(events: seq<Timed>, now: nat) {
    AllConstructible(events) && Ordered(events) && (events != [] ==> now <= events[0].time)
  }

  /** The bytes of a list of events, when time is `now` and the last status byte was `running`. */
  function EncodeEvents(events: seq<Timed>, now: nat, running: Option<Byte>): Bytes
    requires Writable(events, now)
  {
    if events == [] then
      []
    else
      var e := events[0];
      PackVarLen(e.time - now) + Encode(e.event, running)
      + EncodeEvents(events[1..], e.time, After(e.event, running))
  }

  // ----------------------------------------------------------------- from bytes

  /** f.read: at most n bytes, fewer at the end of the file. */
  function Take(s: Bytes, n: nat): (r: Bytes)
    ensures |r| == Min(n, |s|)
  {
    s[..Min(n, |s|)]
  }

  function Drop(s: Bytes, n: nat): Bytes {
    s[Min(n, |s|)..]
  }

  /** What one call of _ReadEvent gives: no event for what the reader skips. */
  datatype Step = Step(delta: nat, event: Option<Event>, size: nat, previous: Byte)

  function OperandCount(kind: Byte): nat {
    if kind == 0xc0 || kind == 0xd0 then 1 else 2
  }

  predicate IsKind(kind: Byte) {
    kind in {0x80, 0x90, 0xa0, 0xb0, 0xc0, 0xd0, 0xe0}
  }

  function BendFrom(high: Byte, low: Byte): (bend: nat)
    ensures bend < 0x8000
  {
    (if low < 128 then high else high + (1 - high % 2)) * 128 + low % 128
  }

  function ChannelEvent(kind: Byte, channel: Channel, data: Bytes): (e: Event)
    requires IsKind(kind) && |data| == OperandCount(kind)
    ensures IsChannel(e) && Constructible(e) && Kind(e) == kind && e.channel == channel
  {
    if kind == 0x80 then NoteOff(channel, data[0], data[1])
    else if kind == 0x90 then NoteOn(channel, data[0], data[1])
    else if kind == 0xa0 then KeyAftertouch(channel, data[0], data[1])
    else if kind == 0xb0 then ControlChange(channel, data[0], data[1])
    else if kind == 0xc0 then ProgramChange(channel, data[0])
    else if kind == 0xd0 then ChannelAftertouch(channel, data[0])
    else PitchBend(channel, BendFrom(data[0], data[1]))
  }

  /** A meta event from its id and payload; Some(None) for the channel prefix, which is skipped. */
  function MetaEvent(id: Byte, s: Bytes): Option<Option<Event>> {
    if 1 <= id <= 7 then
      if |s| < 256 then Some(Some(Text(id, s))) else None
    else if id == 0x20 then
      if |s| > 0 then Some(None) else None
    else if id == 0x2f then
      Some(Some(EndOfTrack))
    else if id == 0x51 then
      if |s| == 3 && Unpack32([0] + s) > 0 then Some(Some(Tempo(Unpack32([0] + s)))) else None
    else if id == 0x54 then
      if |s| == 5 then Some(Some(SmpteOffset(s[0], s[1], s[2], s[3], s[4]))) else None
    else if id == 0x58 then
      if |s| >= 2 then Some(Some(TimeSignature(s[0], s[1]))) else None
    else if id == 0x59 then
      if |s| >= 2 then Some(Some(Key(s[0], s[1]))) else None
    else if id == 0x7f then
      if |s| < 256 then Some(Some(Blob(s))) else None
    else
      None
  }

  /** SysExEvent(bytes[0:3], bytes[3:5], bytes[5:-1]). */
  function SysExEvent(s: Bytes): Option<Event> {
    var data := if |s| >= 6 then s[5..|s| - 1] else [];
    var e := SysEx(Take(s, 3), Take(Drop(s, 3), 2), data);
    if Constructible(e) then Some(e) else None
  }

  /** The rest of a meta event, after its 0xff at position at - 1. */
  function DecodeMeta(delta: nat, previous: Byte, s: Bytes, at: nat): (r: Option<Step>)
    ensures r.Some? ==> r.value.size >= at
  {
    if |s| <= at then
      None
    else
      match ReadVarLen(0, s[at + 1..])
      case None => None
      case Some(n) =>
        var start := at + 1 + n.size;
        match MetaEvent(s[at], Take(s[start..], n.value))
        case None => None
        case Some(e) => Some(Step(delta, e, start + n.value, previous))
  }

  function DecodeSysEx(delta: nat, previous: Byte, s: Bytes, at: nat): (r: Option<Step>)
    requires at <= |s|
    ensures r.Some? ==> r.value.size >= at
  {
    match ReadVarLen(0, s[at..])
    case None => None
    case Some(n) =>
      var start := at + n.size;
      match SysExEvent(Take(s[start..], n.value))
      case None => None
      case Some(e) => Some(Step(delta, Some(e), start + n.value, previous))
  }

  function DecodeChannel(delta: nat, status: Byte, s: Bytes, at: nat): (r: Option<Step>)
    requires 0x80 <= status < 0xf0 && at <= |s|
    ensures r.Some? ==> r.value.size >= at
  {
    var kind := status - status % 16;
    var n := OperandCount(kind);
    if |s| < at + n then
      None
    else
      Some(Step(delta, Some(ChannelEvent(kind, status % 16 + 1, s[at..at + n])), at + n, kind))
  }

  /** What follows a status byte, written or carried over from the event before. */
  function DecodeBody(delta: nat, status: Byte, previous: Byte, s: Bytes, at: nat): (r: Option<Step>)
    requires at <= |s|
    ensures r.Some? ==> r.value.size >= at
  {
    if 0x80 <= status < 0xf0 then
      DecodeChannel(delta, status, s, at)
    else if status == 0xff then
      DecodeMeta(delta, previous, s, at)
    else if status == 0xf0 then
      DecodeSysEx(delta, previous, s, at)
    else
      Some(Step(delta, None, at, previous))
  }

  function DecodeEvent(previous: Byte, s: Bytes): (r: Option<Step>)
    ensures r.Some? ==> r.value.size >= 1
  {
    match ReadVarLen(0, s)
    case None => None
    case Some(n) =>
      if |s| <= n.size then
        None
      else if s[n.size] >= 0x80 then
        DecodeBody(n.value, s[n.size], previous, s, n.size + 1)
      else if previous != 0 then
        DecodeBody(n.value, previous, previous, s, n.size)
      else
        Some(Step(n.value, None, n.size + 1, previous))
  }

  /**
   * The events of a track, the status byte carried over, the size left over (0 when the sizes
   * add up) and the bytes not read.
   */
  datatype TrackRead = TrackRead(events: seq<Timed>, previous: Byte, left: int, rest: Bytes)

  function Heard(t: nat, e: Option<Event>): seq<Timed> {
    match e
    case None => []
    case Some(event) => [Timed(t, event)]
  }

  /** The events of `size` bytes of s, from time t on. */
  function DecodeEvents(previous: Byte, s: Bytes, size: int, t: nat): Option<TrackRead>
    decreases if size > 0 then size else 0
  {
    if size <= 0 then
      Some(TrackRead([], previous, size, s))
    else
      match DecodeEvent(previous, s)
      case None => None
      case Some(step) =>
        match DecodeEvents(step.previous, Drop(s, step.size), size - step.size, t + step.delta)
        case None => None
        case Some(track) =>
          Some(track.(events := Heard(t + step.delta, step.event) + track.events))
  }

  // ---------------------------------------------------------------------- files

  const TRACK_MARK: Bytes := [0x4d, 0x54, 0x72, 0x6b]  // MTrk
  const FILE_MARK: Bytes := [0x4d, 0x54, 0x68, 0x64]   // MThd

  function Signed16(v: U16): int {
    if v < 0x8000 then v else v as int - 0x1_0000
  }

  function Signed32(v: U32): int {
    if v < 0x8000_0000 then v else v as int - 0x1_0000_0000
  }

  /** A track ends with EndOfTrack: one is added a tick later where it does not. */
  function WithEnd(events: seq<Timed>): (r: seq<Timed>)
    requires events != []
    ensures r != [] && r[|r| - 1].event == EndOfTrack
  {
    var last := events[|events| - 1];
    if last.event == EndOfTrack then events else events + [Timed(last.time + 1, EndOfTrack)]
  }

  /** A track chunk; its length must fit four bytes. */
  function TrackChunk(events: seq<Timed>): Option<Bytes>
    requires Writable(events, 0)
  {
    var data := EncodeEvents(events, 0, None);
    if |data| < 0x1_0000_0000 then Some(TRACK_MARK + Pack32(|data|) + data) else None
  }

  predicate AllWritable(tracks: seq<seq<Timed>>) {
    forall i :: 0 <= i < |tracks| ==> Writable(tracks[i], 0)
  }

  function Chunks(tracks: seq<seq<Timed>>): Option<Bytes>
    requires AllWritable(tracks)
  {
    if tracks == [] then
      Some([])
    else
      match TrackChunk(tracks[0])
      case None => None
      case Some(chunk) =>
        match Chunks(tracks[1..])
        case None => None
        case Some(more) => Some(chunk + more)
  }

  function Header(format: U16, count: U16, ppq: U16): Bytes {
    FILE_MARK + Pack32(6) + Pack16(format) + Pack16(count) + Pack16(ppq)
  }

  function FileBytes(format: U16, ppq: U16, tracks: seq<seq<Timed>>): Option<Bytes>
    requires AllWritable(tracks)
  {
    if |tracks| >= 0x1_0000 then
      None
    else
      match Chunks(tracks)
      case None => None
      case Some(chunks) => Some(Header(format, |tracks|, ppq) + chunks)
  }

  function DecodeTrack(previous: Byte, s: Bytes): Option<TrackRead> {
    if |s| < 8 || s[..4] != TRACK_MARK then
      None
    else
      DecodeEvents(previous, s[8..], Signed32(Unpack32(s[4..8])), 0)
  }

  /** The events of the next `count` tracks; the status byte is carried over from track to track. */
  function DecodeTracks(previous: Byte, s: Bytes, count: int): Option<seq<seq<Timed>>>
    decreases if count > 0 then count else 0
  {
    if count <= 0 then
      Some([])
    else
      match DecodeTrack(previous, s)
      case None => None
      case Some(track) =>
        match DecodeTracks(track.previous, track.rest, count - 1)
        case None => None
        case Some(more) => Some([track.events] + more)
  }

  /** What the reader asks of a file before its tracks: MThd, 6, and a format that is not above 2. */
  lemma {:induction false} HeaderRequired(previous: Byte, s: Bytes)
    ensures DecodeFile(previous, s).Some? ==>
      && |s| >= 14 && s[..4] == [0x4d, 0x54, 0x68, 0x64] && s[4..8] == [0, 0, 0, 6]
      && (s[8] < 0x80 ==> s[8] == 0 && s[9] <= 2)
      && DecodeFile(previous, s).value.format
         == s[8] as int * 0x100 + s[9] as int - (if s[8] < 0x80 then 0 else 0x1_0000)
      && DecodeFile(previous, s).value.ppq
         == s[12] as int * 0x100 + s[13] as int - (if s[12] < 0x80 then 0 else 0x1_0000)
  {
    hide DecodeTracks;
    if |s| >= 14 {
      assert s[4..8][..2] == [s[4], s[5]] && s[4..8][2..] == [s[6], s[7]];
      assert s[8..10] == [s[8], s[9]] && s[12..14] == [s[12], s[13]];
    }
  }

  datatype Song = Song(format: int, ppq: int, tracks: seq<seq<Timed>>)

  function DecodeFile(previous: Byte, s: Bytes): Option<Song> {
    if |s| < 14 || s[..4] != FILE_MARK || Signed32(Unpack32(s[4..8])) != 6
      || Signed16(Unpack16(s[8..10])) > 2
    then
      None
    else
      match DecodeTracks(previous, s[14..], Signed16(Unpack16(s[10..12])))
      case None => None
      case Some(tracks) =>
        Some(Song(Signed16(Unpack16(s[8..10])), Signed16(Unpack16(s[12..14])), tracks))
  }
}
