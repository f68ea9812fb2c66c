/** Reading back what tools/midi/midifile.py wrote: integers, events, tracks. */
module MidiRoundTrip {
  import opened Words
  import opened MidiFormat

  // ------------------------------------------------------ variable-length integers

  function Later(r: Option<Number>, k: nat): Option<Number> {
    match r
    case None => None
    case Some(n) => Some(Number(n.value, n.size + k))
  }

  lemma {:induction false} ReadGroups(v: nat, t: Bytes)
    ensures ReadVarLen(0, Groups(v) + t) == Later(ReadVarLen(v, t), |Groups(v)|)
  {
    if v == 0 {
      assert Groups(v) + t == t;
    } else {
      var last: Bytes := [0x80 + v % 128];
      ReadGroups(v / 128, last + t);
      assert Groups(v) + t == Groups(v / 128) + (last + t);
      assert (last + t)[1..] == t;
    }
  }

  /** Whatever follows, the reader finds the number written and stops at its end. */
  lemma {:induction false} VarLenRoundTrip(v: nat, rest: Bytes)
    ensures ReadVarLen(0, PackVarLen(v) + rest) == Some(Number(v, |PackVarLen(v)|))
  {
    var last: Bytes := [v % 128];
    ReadGroups(v / 128, last + rest);
    assert PackVarLen(v) + rest == Groups(v / 128) + (last + rest);
  }

  lemma {:induction false} ShortVarLen(v: nat)
    requires v < 128
    ensures PackVarLen(v) == [v]
  {
  }

  // ------------------------------------------------------------- single events

  /** The reader carries over only the upper half of the writer's running status. */
  predicate Linked(running: Option<Byte>, previous: Byte) {
    running.Some? ==>
      0x80 <= running.value < 0xf0 && previous == running.value - running.value % 16
  }

  /** What an event needs to be read back. */
  predicate Legible(e: Event, running: Option<Byte>) {
    && Constructible(e)
    && (IsMeta(e) ==> |MetaData(e)| < 128)
    && (e.Tempo? ==> 0 < e.value < 0x100_0000)
    && (e.SysEx? ==> |e.manufacturer| == 3 && |e.device| == 2)
    && (Reuses(e, running) ==> Operands(e)[0] < 0x80)
  }

  function OnChannel(e: Event, channel: Channel): (r: Event)
    requires IsChannel(e)
    ensures IsChannel(r) && Kind(r) == Kind(e) && r.channel == channel
  {
    e.(channel := channel)
  }

  /** What the reader makes of an event: system events are dropped, and a reused status means channel 1. */
  function HeardAs(e: Event, running: Option<Byte>): Option<Event> {
    if IsSystem(e) then None
    else if Reuses(e, running) then Some(OnChannel(e, 1))
    else Some(e)
  }

  function Previous(e: Event, previous: Byte): Byte {
    if IsChannel(e) then Kind(e) else previous
  }

  lemma {:induction false} ChannelOperands(e: Event, channel: Channel)
    requires IsChannel(e) && Constructible(e)
    ensures IsKind(Kind(e)) && |Operands(e)| == OperandCount(Kind(e))
    ensures ChannelEvent(Kind(e), channel, Operands(e)) == OnChannel(e, channel)
  {
  }

  lemma {:induction false} StatusParts(e: Event)
    requires IsChannel(e)
    ensures 0x80 <= Status(e) < 0xf0
    ensures Status(e) - Status(e) % 16 == Kind(e) && Status(e) % 16 + 1 == e.channel
  {
  }

  lemma {:induction false} ChannelRoundTrip(
      delta: nat, e: Event, channel: Channel, status: Byte, s: Bytes, at: nat, rest: Bytes)
    requires IsChannel(e) && Constructible(e) && status == Status(OnChannel(e, channel))
    requires at <= |s| && s[at..] == Operands(e) + rest
    ensures 0x80 <= status < 0xf0
    ensures DecodeChannel(delta, status, s, at)
      == Some(Step(delta, Some(OnChannel(e, channel)), at + |Operands(e)|, Kind(e)))
  {
    ChannelOperands(e, channel);
    StatusParts(OnChannel(e, channel));
    hide ChannelEvent, Operands;
    LeadingPart(s, at, Operands(e), rest);
  }

  lemma {:induction false} LeadingPart(s: Bytes, at: nat, p: Bytes, rest: Bytes)
    requires at <= |s| && s[at..] == p + rest
    ensures at + |p| <= |s| && s[at..at + |p|] == p
  {
    forall i | 0 <= i < |p|
      ensures s[at..at + |p|][i] == p[i]
    {
      assert s[at..][i] == (p + rest)[i];
    }
  }

  lemma {:induction false} TempoBytes(v: U32)
    requires v < 0x100_0000
    ensures [0] + Pack32(v)[1..] == Pack32(v)
    ensures Unpack32(Pack32(v)) == v
  {
  }

  /** A payload below 128 bytes comes back as the same event. */
  lemma {:induction false} MetaPayload(e: Event)
    requires IsMeta(e) && Legible(e, None)
    ensures MetaEvent(MetaId(e), MetaData(e)) == Some(Some(e))
  {
    if e.Tempo? {
      TempoBytes(e.value);
    }
  }

  lemma {:induction false} TakeAll(s: Bytes, rest: Bytes)
    ensures Take(s + rest, |s|) == s && Drop(s + rest, |s|) == rest
  {
  }

  lemma {:induction false} MetaRoundTrip(
      delta: nat, id: Byte, data: Bytes, previous: Byte, s: Bytes, at: nat, rest: Bytes)
    requires |data| < 128
    requires at <= |s| && s[at..] == [id, |data|] + data + rest
    ensures MetaEvent(id, data).None? ==> DecodeMeta(delta, previous, s, at) == None
    ensures MetaEvent(id, data).Some? ==>
      DecodeMeta(delta, previous, s, at)
      == Some(Step(delta, MetaEvent(id, data).value, at + 2 + |data|, previous))
  {
    hide MetaEvent, ReadVarLen, PackVarLen, Take;
    ShortVarLen(|data|);
    VarLenRoundTrip(|data|, data + rest);
    var length: Bytes := [|data|];
    assert s[at] == s[at..][0] == id;
    assert s[at + 1..] == s[at..][1..] == length + (data + rest);
    assert s[at + 2..] == s[at..][2..] == data + rest;
    TakeAll(data, rest);
  }

  lemma {:induction false} SysExParts(e: Event)
    requires e.SysEx? && Constructible(e) && |e.manufacturer| == 3 && |e.device| == 2
    ensures SysExEvent(SysExBody(e)) == Some(e)
  {
    var s := SysExBody(e);
    assert Take(s, 3) == e.manufacturer;
    assert Drop(s, 3) == e.device + e.data + [0xf7];
    assert Take(Drop(s, 3), 2) == e.device;
    assert s[5..|s| - 1] == e.data;
  }

  lemma {:induction false} SysExRoundTrip(delta: nat, e: Event, previous: Byte, s: Bytes, at: nat, rest: Bytes)
    requires e.SysEx?
    requires at <= |s| && s[at..] == PackVarLen(|SysExBody(e)|) + (SysExBody(e) + rest)
    ensures SysExEvent(SysExBody(e)).None? ==> DecodeSysEx(delta, previous, s, at) == None
    ensures SysExEvent(SysExBody(e)).Some? ==>
      DecodeSysEx(delta, previous, s, at)
      == Some(Step(delta, SysExEvent(SysExBody(e)), at + |PackVarLen(|SysExBody(e)|)| + |SysExBody(e)|, previous))
  {
    hide SysExEvent, SysExBody, ReadVarLen, PackVarLen, Take;
    var body := SysExBody(e);
    var length := PackVarLen(|body|);
    VarLenRoundTrip(|body|, body + rest);
    assert s[at + |length|..] == s[at..][|length|..] == body + rest;
    TakeAll(body, rest);
  }

  lemma {:induction false} LinkAfter(e: Event, running: Option<Byte>, previous: Byte)
    requires Linked(running, previous)
    ensures Linked(After(e, running), Previous(e, previous))
  {
    if IsChannel(e) {
      StatusParts(e);
    }
  }

  /** The step that reading one event is to give. */
  function Expected(delta: nat, e: Event, running: Option<Byte>, previous: Byte): (r: Step)
    requires Constructible(e)
    ensures r.size == |PackVarLen(delta)| + |Encode(e, running)|
  {
    Step(delta, HeardAs(e, running), |PackVarLen(delta)| + |Encode(e, running)|, Previous(e, previous))
  }

  lemma {:induction false} OneOn(s: Bytes, at: nat, body: Bytes, b: Byte, tail: Bytes)
    requires at < |s| && s[at..] == body && body == [b] + tail
    ensures body[0] == b && s[at + 1..] == tail && at + 1 <= |s|
  {
    assert s[at + 1..] == body[1..];
  }

  lemma {:induction false} FreshChannel(
      delta: nat, e: Event, running: Option<Byte>, previous: Byte, s: Bytes, at: nat, body: Bytes, rest: Bytes)
    requires IsChannel(e) && Constructible(e) && !Reuses(e, running)
    requires body == Encode(e, running) + rest && body != [] && at < |s| && s[at..] == body
    ensures body[0] >= 0x80
    ensures DecodeBody(delta, body[0], previous, s, at + 1)
      == Some(Step(delta, Some(e), at + |Encode(e, running)|, Kind(e)))
  {
    hide DecodeChannel, Operands, Status, Reuses;
    OneOn(s, at, body, Status(e), Operands(e) + rest);
    ChannelRoundTrip(delta, e, e.channel, Status(e), s, at + 1, rest);
  }

  lemma {:induction false} SysExShape(e: Event)
    requires e.SysEx? && Constructible(e)
    ensures Encode(e, None) == [0xf0] + PackVarLen(|SysExBody(e)|) + SysExBody(e)
  {
  }

  lemma {:induction false} MetaShape(e: Event)
    requires IsMeta(e) && Constructible(e) && |MetaData(e)| < 256
    ensures Encode(e, None) == [0xff, MetaId(e), |MetaData(e)|] + MetaData(e)
  {
  }

  lemma {:induction false} FreshSysEx(
      delta: nat, e: Event, previous: Byte, s: Bytes, at: nat, body: Bytes, rest: Bytes)
    requires e.SysEx? && Legible(e, None)
    requires body == Encode(e, None) + rest && body != [] && at < |s| && s[at..] == body
    ensures body[0] >= 0x80
    ensures DecodeBody(delta, body[0], previous, s, at + 1)
      == Some(Step(delta, Some(e), at + |Encode(e, None)|, previous))
  {
    SysExParts(e);
    hide DecodeSysEx, PackVarLen, SysExBody, SysExEvent, Legible;
    SysExShape(e);
    hide Encode;
    OneOn(s, at, body, 0xf0, PackVarLen(|SysExBody(e)|) + (SysExBody(e) + rest));
    SysExRoundTrip(delta, e, previous, s, at + 1, rest);
  }

  lemma {:induction false} FreshMeta(
      delta: nat, e: Event, previous: Byte, s: Bytes, at: nat, body: Bytes, rest: Bytes)
    requires IsMeta(e) && Legible(e, None)
    requires body == Encode(e, None) + rest && body != [] && at < |s| && s[at..] == body
    ensures body[0] >= 0x80
    ensures DecodeBody(delta, body[0], previous, s, at + 1)
      == Some(Step(delta, Some(e), at + |Encode(e, None)|, previous))
  {
    MetaPayload(e);
    MetaShape(e);
    hide DecodeMeta, MetaEvent, MetaData, MetaId, Encode, Legible, Constructible;
    OneOn(s, at, body, 0xff, [MetaId(e), |MetaData(e)|] + MetaData(e) + rest);
    MetaRoundTrip(delta, MetaId(e), MetaData(e), previous, s, at + 1, rest);
  }

  /** The bytes after the time of an event, decoded where they stand. */
  lemma {:induction false} BodyRoundTrip(
      delta: nat, e: Event, running: Option<Byte>, previous: Byte, s: Bytes, at: nat, body: Bytes, rest: Bytes)
    requires Legible(e, running) && !Reuses(e, running) && body == Encode(e, running) + rest && body != []
    requires at < |s| && s[at..] == body && at == |PackVarLen(delta)|
    ensures body[0] >= 0x80
    ensures DecodeBody(delta, body[0], previous, s, at + 1)
      == Some(Expected(delta, e, running, previous))
  {
    hide DecodeBody, MetaData, MetaId, Operands, SysExBody, PackVarLen, Status, Kind, Encode, Constructible;
    if IsChannel(e) {
      FreshChannel(delta, e, running, previous, s, at, body, rest);
    } else if IsSystem(e) {
      SystemStep(delta, e, running, previous, s, at, body, rest);
    } else {
      NoRunning(e, running);
      if e.SysEx? {
        FreshSysEx(delta, e, previous, s, at, body, rest);
      } else {
        FreshMeta(delta, e, previous, s, at, body, rest);
      }
    }
  }

  lemma {:induction false} NoRunning(e: Event, running: Option<Byte>)
    requires Constructible(e) && !IsChannel(e)
    ensures Encode(e, running) == Encode(e, None)
  {
  }

  lemma {:induction false} SystemStep(
      delta: nat, e: Event, running: Option<Byte>, previous: Byte, s: Bytes, at: nat, body: Bytes, rest: Bytes)
    requires IsSystem(e)
    requires body == Encode(e, running) + rest && body != [] && at < |s| && s[at..] == body
    ensures body[0] >= 0x80
    ensures DecodeBody(delta, body[0], previous, s, at + 1)
      == Some(Step(delta, None, at + |Encode(e, running)|, previous))
  {
  }

  lemma {:induction false} SliceOff(p: Bytes, q: Bytes)
    ensures (p + q)[|p|..] == q && |p + q| == |p| + |q|
  {
  }

  /** Where the time of an event ends, and which status byte goes with what follows. */
  lemma {:induction false} AfterTime(delta: nat, body: Bytes, previous: Byte)
    requires body != [] && (body[0] < 0x80 ==> previous != 0)
    ensures var s := PackVarLen(delta) + body;
      var at := |PackVarLen(delta)|;
      && s[at..] == body && at < |s|
      && (body[0] >= 0x80 ==> DecodeEvent(previous, s) == DecodeBody(delta, body[0], previous, s, at + 1))
      && (body[0] < 0x80 ==> DecodeEvent(previous, s) == DecodeBody(delta, previous, previous, s, at))
  {
    hide PackVarLen, ReadVarLen, DecodeBody;
    VarLenRoundTrip(delta, body);
  }

  lemma {:induction false} FreshEvent(
      delta: nat, e: Event, running: Option<Byte>, previous: Byte, body: Bytes, rest: Bytes)
    requires Legible(e, running) && !Reuses(e, running) && body == Encode(e, running) + rest
    ensures DecodeEvent(previous, PackVarLen(delta) + body) == Some(Expected(delta, e, running, previous))
  {
    assert Constructible(e);
    hide Expected, PackVarLen, Encode, DecodeEvent, DecodeBody, HeardAs, Previous, Legible, Reuses, IsChannel;
    EncodeNonempty(e, running);
    SliceOff(PackVarLen(delta), body);
    BodyRoundTrip(delta, e, running, previous, PackVarLen(delta) + body, |PackVarLen(delta)|, body, rest);
    AfterTime(delta, body, previous);
  }

  lemma {:induction false} ReusingEvent(
      delta: nat, e: Event, running: Option<Byte>, previous: Byte, body: Bytes, rest: Bytes)
    requires Legible(e, running) && Reuses(e, running) && Linked(running, previous)
    requires body == Encode(e, running) + rest
    ensures DecodeEvent(previous, PackVarLen(delta) + body) == Some(Expected(delta, e, running, previous))
  {
    assert Constructible(e);
    hide Expected, PackVarLen, Encode, DecodeEvent, DecodeBody, HeardAs, Previous, Legible, Reuses, IsChannel, Linked;
    EncodeNonempty(e, running);
    SliceOff(PackVarLen(delta), body);
    ReusedRoundTrip(delta, e, running, previous, PackVarLen(delta) + body, |PackVarLen(delta)|, body, rest);
    AfterTime(delta, body, previous);
  }

  /** One event, written after any running status and read after the status byte that goes with it. */
  lemma {:induction false} EventRoundTrip(
      delta: nat, e: Event, running: Option<Byte>, previous: Byte, rest: Bytes)
    requires Legible(e, running) && Linked(running, previous)
    ensures DecodeEvent(previous, PackVarLen(delta) + (Encode(e, running) + rest))
      == Some(Expected(delta, e, running, previous))
  {
    assert Constructible(e);
    hide *;
    if Reuses(e, running) {
      ReusingEvent(delta, e, running, previous, Encode(e, running) + rest, rest);
    } else {
      FreshEvent(delta, e, running, previous, Encode(e, running) + rest, rest);
    }
  }

  lemma {:induction false} EncodeNonempty(e: Event, running: Option<Byte>)
    requires Constructible(e)
    ensures |Encode(e, running)| >= 1
    ensures Encode(e, running) != []
  {
  }

  lemma {:induction false} ReusedRoundTrip(
      delta: nat, e: Event, running: Option<Byte>, previous: Byte, s: Bytes, at: nat, body: Bytes, rest: Bytes)
    requires Legible(e, running) && Reuses(e, running) && Linked(running, previous)
    requires body == Encode(e, running) + rest && body != []
    requires at < |s| && s[at..] == body && at == |PackVarLen(delta)|
    ensures body[0] < 0x80 && previous != 0
    ensures DecodeBody(delta, previous, previous, s, at)
      == Some(Expected(delta, e, running, previous))
  {
    hide DecodeChannel, Status, Operands, OnChannel;
    StatusParts(e);
    StatusParts(OnChannel(e, 1));
    ChannelOperands(e, 1);
    ChannelRoundTrip(delta, e, 1, previous, s, at, rest);
  }

  // ------------------------------------------------------------------- tracks

  predicate AllLegible(events: seq<Timed>, running: Option<Byte>) {
    events == [] ||
    (Legible(events[0].event, running) && AllLegible(events[1..], After(events[0].event, running)))
  }

  /** What is read back of a list of events written after `running`. */
  function ReadBack(events: seq<Timed>, running: Option<Byte>): seq<Timed> {
    if events == [] then
      []
    else
      Heard(events[0].time, HeardAs(events[0].event, running))
      + ReadBack(events[1..], After(events[0].event, running))
  }

  function LastPrevious(events: seq<Timed>, previous: Byte): Byte {
    if events == [] then previous else LastPrevious(events[1..], Previous(events[0].event, previous))
  }

  /** An event read from the front, then the rest of the track. */
  lemma {:induction false} StepThenRest(
      previous: Byte, s: Bytes, size: nat, more: nat, t: nat, step: Step, tail: TrackRead)
    requires DecodeEvent(previous, s) == Some(step) && step.size == size
    requires DecodeEvents(step.previous, Drop(s, size), more, t + step.delta) == Some(tail)
    ensures DecodeEvents(previous, s, size + more, t)
      == Some(tail.(events := Heard(t + step.delta, step.event) + tail.events))
  {
    hide DecodeEvent, Heard, Drop;
    assert size + more - step.size == more;
  }

  lemma {:induction false} EncodeStep(events: seq<Timed>, now: nat, running: Option<Byte>)
    requires Writable(events, now) && events != []
    ensures now <= events[0].time && Constructible(events[0].event) && Writable(events[1..], events[0].time)
    ensures EncodeEvents(events, now, running)
      == PackVarLen(events[0].time - now) + Encode(events[0].event, running)
         + EncodeEvents(events[1..], events[0].time, After(events[0].event, running))
  {
  }

  lemma {:induction false} LegibleStep(events: seq<Timed>, running: Option<Byte>)
    requires AllLegible(events, running) && events != []
    ensures Legible(events[0].event, running) && AllLegible(events[1..], After(events[0].event, running))
  {
  }

  /** The bytes of the first event lead from one reading to the next. */
  lemma {:induction false} FirstEvent(
      events: seq<Timed>, now: nat, running: Option<Byte>, previous: Byte, more: Bytes, rest: Bytes)
    requires events != [] && Writable(events, now) && AllLegible(events, running) && Linked(running, previous)
    requires more == EncodeEvents(events[1..], events[0].time, After(events[0].event, running))
    ensures var e := events[0];
      var s := EncodeEvents(events, now, running) + rest;
      var step := Expected(e.time - now, e.event, running, previous);
      && DecodeEvent(previous, s) == Some(step)
      && Drop(s, step.size) == more + rest
      && |EncodeEvents(events, now, running)| == step.size + |more|
  {
    hide *;
    EncodeStep(events, now, running);
    LegibleStep(events, running);
    var e := events[0];
    var first := PackVarLen(e.time - now) + Encode(e.event, running);
    EventRoundTrip(e.time - now, e.event, running, previous, more + rest);
    Regroup(PackVarLen(e.time - now), Encode(e.event, running), more, rest);
    TakeAll(first, more + rest);
  }

  lemma {:induction false} Regroup(a: Bytes, b: Bytes, c: Bytes, d: Bytes)
    ensures a + b + c + d == a + (b + (c + d)) == a + b + (c + d)
  {
  }

  /** The event sizes add up to the length written, and the events come back at their times. */
  lemma {:induction false} EventsRoundTrip(
      events: seq<Timed>, now: nat, running: Option<Byte>, previous: Byte, rest: Bytes)
    requires Writable(events, now)
    requires AllLegible(events, running) && Linked(running, previous)
    ensures var s := EncodeEvents(events, now, running);
      DecodeEvents(previous, s + rest, |s|, now)
      == Some(TrackRead(ReadBack(events, running), LastPrevious(events, previous), 0, rest))
    decreases |events|
  {
    hide DecodeEvents, DecodeEvent, PackVarLen, Encode, HeardAs, Previous, Legible, After, Writable, Linked, Drop;
    var s := EncodeEvents(events, now, running) + rest;
    if events == [] {
      assert s == rest;
      NothingLeft(previous, s, now);
    } else {
      hide EncodeEvents, AllLegible;
      var e := events[0];
      EncodeStep(events, now, running);
      LegibleStep(events, running);
      LinkAfter(e.event, running, previous);
      var more := EncodeEvents(events[1..], e.time, After(e.event, running));
      EventsRoundTrip(events[1..], e.time, After(e.event, running), Previous(e.event, previous), rest);
      FirstEvent(events, now, running, previous, more, rest);
      var step := Expected(e.time - now, e.event, running, previous);
      StepThenRest(previous, s, step.size, |more|, now, step,
        TrackRead(ReadBack(events[1..], After(e.event, running)),
          LastPrevious(events[1..], Previous(e.event, previous)), 0, rest));
    }
  }

  lemma {:induction false} NothingLeft(previous: Byte, s: Bytes, t: nat)
    ensures DecodeEvents(previous, s, 0, t) == Some(TrackRead([], previous, 0, s))
  {
  }

  // ------------------------------------------------------ exactly when it works

  /** Ids of three and two bytes are the only ones the reader splits where the writer joined them. */
  lemma {:induction false} SysExPartsIff(e: Event)
    requires e.SysEx? && Constructible(e)
    ensures SysExEvent(SysExBody(e)) == Some(e) <==> |e.manufacturer| == 3 && |e.device| == 2
  {
    var s := SysExBody(e);
    assert |Take(s, 3)| == Min(3, |s|);
    assert |Take(Drop(s, 3), 2)| == Min(2, |s| - Min(3, |s|));
    if |e.manufacturer| == 3 && |e.device| == 2 {
      SysExParts(e);
    }
  }

  lemma {:induction false} LongNumber(s: Bytes)
    requires s != [] && s[0] >= 0x80 && ReadVarLen(0, s).Some?
    ensures ReadVarLen(0, s).value.size >= 2
  {
  }

  lemma {:induction false} PayloadLength(e: Event, s: Bytes)
    requires IsMeta(e) && Constructible(e) && |MetaData(e)| >= 128
    requires MetaEvent(MetaId(e), s) == Some(Some(e))
    ensures |s| == |MetaData(e)|
  {
  }

  /** From 128 bytes on, the length byte is taken for the first of several. */
  lemma {:induction false} LongPayload(delta: nat, e: Event, previous: Byte, s: Bytes, at: nat, rest: Bytes)
    requires IsMeta(e) && Constructible(e) && |MetaData(e)| >= 128
    requires at <= |s| && s[at..] == [MetaId(e), |MetaData(e)|] + MetaData(e) + rest
    ensures DecodeMeta(delta, previous, s, at) != Some(Step(delta, Some(e), at + 2 + |MetaData(e)|, previous))
  {
    hide MetaEvent, ReadVarLen, PackVarLen, MetaData, MetaId;
    assert s[at] == s[at..][0] == MetaId(e);
    assert s[at + 1..] == s[at..][1..];
    assert s[at + 1..][0] == |MetaData(e)|;
    if DecodeMeta(delta, previous, s, at) == Some(Step(delta, Some(e), at + 2 + |MetaData(e)|, previous)) {
      var n := ReadVarLen(0, s[at + 1..]).value;
      LongNumber(s[at + 1..]);
      var start := at + 1 + n.size;
      PayloadLength(e, Take(s[start..], n.value));
    }
  }

  lemma {:induction false} BadTempo(v: U32)
    requires !(0 < v < 0x100_0000)
    ensures MetaEvent(0x51, Pack32(v)[1..]) != Some(Some(Tempo(v)))
  {
  }

  predicate LegibleAlone(e: Event) {
    && (IsMeta(e) ==> |MetaData(e)| < 128)
    && (e.Tempo? ==> 0 < e.value < 0x100_0000)
    && (e.SysEx? ==> |e.manufacturer| == 3 && |e.device| == 2)
  }

  lemma {:induction false} IllegibleMeta(
      delta: nat, e: Event, previous: Byte, s: Bytes, at: nat, body: Bytes, rest: Bytes)
    requires IsMeta(e) && Constructible(e) && !LegibleAlone(e)
    requires body == Encode(e, None) + rest && body != [] && at < |s| && s[at..] == body
    ensures DecodeBody(delta, body[0], previous, s, at + 1)
      != Some(Step(delta, Some(e), at + |Encode(e, None)|, previous))
  {
    if e.Tempo? {
      BadTempo(e.value);
    }
    hide DecodeMeta, MetaEvent, Pack32;
    OneOn(s, at, body, 0xff, [MetaId(e), |MetaData(e)|] + MetaData(e) + rest);
    if |MetaData(e)| < 128 {
      MetaRoundTrip(delta, MetaId(e), MetaData(e), previous, s, at + 1, rest);
    } else {
      LongPayload(delta, e, previous, s, at + 1, rest);
    }
  }

  lemma {:induction false} IllegibleSysEx(
      delta: nat, e: Event, previous: Byte, s: Bytes, at: nat, body: Bytes, rest: Bytes)
    requires e.SysEx? && Constructible(e) && !LegibleAlone(e)
    requires body == Encode(e, None) + rest && body != [] && at < |s| && s[at..] == body
    ensures DecodeBody(delta, body[0], previous, s, at + 1)
      != Some(Step(delta, Some(e), at + |Encode(e, None)|, previous))
  {
    SysExPartsIff(e);
    hide DecodeSysEx, PackVarLen, SysExBody, SysExEvent, LegibleAlone, Constructible;
    SysExShape(e);
    hide Encode;
    OneOn(s, at, body, 0xf0, PackVarLen(|SysExBody(e)|) + (SysExBody(e) + rest));
    SysExRoundTrip(delta, e, previous, s, at + 1, rest);
  }

  /** What a first operand above 127 is taken for: never an event of the same kind and length. */
  lemma {:induction false} TakenForStatus(delta: nat, status: Byte, previous: Byte, s: Bytes, at: nat, step: Step)
    requires status >= 0x80 && at + 1 <= |s|
    requires DecodeBody(delta, status, previous, s, at + 1) == Some(step)
    requires step.event.Some? && IsChannel(step.event.value)
    ensures step.size == at + 1 + OperandCount(Kind(step.event.value))
  {
    hide ReadVarLen, MetaEvent, SysExEvent, Take;
    if status == 0xf0 {
      NotChannelSysEx(delta, previous, s, at + 1, step);
    } else if status == 0xff {
      NotChannelMeta(delta, previous, s, at + 1, step);
    }
  }

  lemma {:induction false} NotChannelSysEx(delta: nat, previous: Byte, s: Bytes, at: nat, step: Step)
    requires at <= |s| && DecodeSysEx(delta, previous, s, at) == Some(step)
    ensures step.event.Some? && step.event.value.SysEx?
  {
    hide ReadVarLen, Take, Drop;
  }

  lemma {:induction false} NotChannelMeta(delta: nat, previous: Byte, s: Bytes, at: nat, step: Step)
    requires DecodeMeta(delta, previous, s, at) == Some(step)
    ensures step.event.Some? ==> IsMeta(step.event.value)
  {
    hide ReadVarLen, Take, Drop, Unpack32;
  }

  lemma {:induction false} IllegibleReuse(
      delta: nat, e: Event, running: Option<Byte>, previous: Byte, s: Bytes, at: nat, body: Bytes, rest: Bytes)
    requires Constructible(e) && Reuses(e, running) && Operands(e)[0] >= 0x80
    requires body == Encode(e, running) + rest && body != [] && at < |s| && s[at..] == body
    ensures body[0] >= 0x80
    ensures DecodeBody(delta, body[0], previous, s, at + 1)
      != Some(Step(delta, Some(OnChannel(e, 1)), at + |Encode(e, running)|, Kind(e)))
  {
    ChannelOperands(e, 1);
    hide DecodeBody, Operands, Kind, OnChannel, Status;
    var step := Step(delta, Some(OnChannel(e, 1)), at + |Encode(e, running)|, Kind(e));
    if DecodeBody(delta, body[0], previous, s, at + 1) == Some(step) {
      TakenForStatus(delta, body[0], previous, s, at, step);
    }
  }

  lemma {:induction false} LegibleSplit(e: Event, running: Option<Byte>)
    requires Constructible(e)
    ensures Legible(e, running) <==> LegibleAlone(e) && (Reuses(e, running) ==> Operands(e)[0] < 0x80)
    ensures IsChannel(e) ==> LegibleAlone(e)
  {
  }

  lemma {:induction false} IllegibleBody(
      delta: nat, e: Event, running: Option<Byte>, previous: Byte, s: Bytes, at: nat, body: Bytes, rest: Bytes)
    requires Constructible(e) && !Reuses(e, running) && !LegibleAlone(e)
    requires body == Encode(e, running) + rest && body != []
    requires at < |s| && s[at..] == body && at == |PackVarLen(delta)|
    ensures body[0] >= 0x80
    ensures DecodeBody(delta, body[0], previous, s, at + 1) != Some(Expected(delta, e, running, previous))
  {
    LegibleSplit(e, running);
    NoRunning(e, running);
    FirstByte(e, running);
    ExpectedAlone(delta, e, running, previous);
    hide Expected, DecodeBody, PackVarLen, Constructible, MetaData, MetaId, Encode, LegibleAlone, IsChannel, IsSystem;
    if e.SysEx? {
      IllegibleSysEx(delta, e, previous, s, at, body, rest);
    } else {
      IllegibleMeta(delta, e, previous, s, at, body, rest);
    }
  }

  lemma {:induction false} ExpectedAlone(delta: nat, e: Event, running: Option<Byte>, previous: Byte)
    requires Constructible(e) && !LegibleAlone(e)
    ensures Expected(delta, e, running, previous)
      == Step(delta, Some(e), |PackVarLen(delta)| + |Encode(e, None)|, previous)
    ensures !IsSystem(e) && !IsChannel(e)
  {
    NoRunning(e, running);
    hide PackVarLen, Encode;
  }

  lemma {:induction false} FirstByte(e: Event, running: Option<Byte>)
    requires Constructible(e)
    ensures Encode(e, running) != []
    ensures !Reuses(e, running) ==> Encode(e, running)[0] >= 0x80
    ensures Reuses(e, running) ==> Encode(e, running)[0] == Operands(e)[0]
  {
  }

  /** An event is read back, whatever stands after it, exactly when it is legible. */
  lemma {:induction false} EventRoundTripIff(
      delta: nat, e: Event, running: Option<Byte>, previous: Byte, rest: Bytes)
    requires Constructible(e) && Linked(running, previous)
    ensures DecodeEvent(previous, PackVarLen(delta) + (Encode(e, running) + rest))
      == Some(Expected(delta, e, running, previous))
      <==> Legible(e, running)
  {
    hide *;
    LegibleSplit(e, running);
    if Legible(e, running) {
      EventRoundTrip(delta, e, running, previous, rest);
    } else {
      var body := Encode(e, running) + rest;
      var s := PackVarLen(delta) + body;
      FirstByte(e, running);
      SliceOff(PackVarLen(delta), body);
      if Reuses(e, running) {
        ExpectedReuse(delta, e, running, previous);
        IllegibleReuse(delta, e, running, previous, s, |PackVarLen(delta)|, body, rest);
      } else {
        IllegibleBody(delta, e, running, previous, s, |PackVarLen(delta)|, body, rest);
      }
      AfterTime(delta, body, previous);
    }
  }

  lemma {:induction false} ExpectedReuse(delta: nat, e: Event, running: Option<Byte>, previous: Byte)
    requires Constructible(e) && Reuses(e, running)
    ensures Expected(delta, e, running, previous)
      == Step(delta, Some(OnChannel(e, 1)), |PackVarLen(delta)| + |Encode(e, running)|, Kind(e))
    ensures IsChannel(e)
  {
    hide PackVarLen;
  }

  predicate Undistorted(events: seq<Timed>, running: Option<Byte>) {
    events == [] ||
    (var e := events[0].event;
     && !IsSystem(e)
     && (Reuses(e, running) ==> e.channel == 1)
     && Undistorted(events[1..], After(e, running)))
  }

  lemma {:induction false} NoMoreThanWritten(events: seq<Timed>, running: Option<Byte>)
    ensures |ReadBack(events, running)| <= |events|
  {
    if events != [] {
      NoMoreThanWritten(events[1..], After(events[0].event, running));
    }
  }

  lemma {:induction false} HeardIff(e: Event, running: Option<Byte>)
    ensures HeardAs(e, running) == Some(e) <==> !IsSystem(e) && (Reuses(e, running) ==> e.channel == 1)
  {
  }

  /**
   * The list comes back as it was just when it holds no system event and every event that
   * reuses a status byte is on channel 1.
   */
  lemma {:induction false} ReadBackIff(events: seq<Timed>, running: Option<Byte>)
    ensures ReadBack(events, running) == events <==> Undistorted(events, running)
  {
    hide HeardAs, Reuses, After, IsSystem;
    if events != [] {
      var e := events[0];
      var tail := ReadBack(events[1..], After(e.event, running));
      HeardIff(e.event, running);
      NoMoreThanWritten(events[1..], After(e.event, running));
      ReadBackIff(events[1..], After(e.event, running));
      if HeardAs(e.event, running) == None {
        assert Heard(e.time, HeardAs(e.event, running)) + tail == tail;
      } else {
        var heard := [Timed(e.time, HeardAs(e.event, running).value)];
        assert events == [e] + events[1..];
        assert heard + tail == events <==> heard == [e] && tail == events[1..] by {
          assert (heard + tail)[0] == heard[0];
          assert (heard + tail)[1..] == tail;
        }
      }
    }
  }

  // ---------------------------------------------------------------------- files

  /** What a track has to be for the reader, beyond each event: shorter than 2^31 bytes. */
  predicate LegibleTrack(events: seq<Timed>) {
    Writable(events, 0) && AllLegible(events, None) && |EncodeEvents(events, 0, None)| < 0x8000_0000
  }

  lemma {:induction false} Unpacked(v: U32)
    ensures Unpack32(Pack32(v)) == v
  {
  }

  /** A track chunk is read back as its events and the bytes after it, whatever was read before. */
  lemma {:induction false} TrackRoundTrip(events: seq<Timed>, previous: Byte, rest: Bytes)
    requires LegibleTrack(events)
    ensures TrackChunk(events).Some?
    ensures DecodeTrack(previous, TrackChunk(events).value + rest)
      == Some(TrackRead(ReadBack(events, None), LastPrevious(events, previous), 0, rest))
  {
    hide EncodeEvents, DecodeEvents, Pack32, Unpack32, ReadBack, LastPrevious, Writable, AllLegible;
    var data := EncodeEvents(events, 0, None);
    var s := TrackChunk(events).value + rest;
    EventsRoundTrip(events, 0, None, previous, rest);
    Unpacked(|data|);
    assert s == TRACK_MARK + (Pack32(|data|) + (data + rest));
    assert s[..4] == TRACK_MARK;
    assert s[4..8] == Pack32(|data|);
    assert s[8..] == data + rest;
  }

  predicate AllTracksLegible(tracks: seq<seq<Timed>>) {
    forall i :: 0 <= i < |tracks| ==> LegibleTrack(tracks[i])
  }

  function ReadBackAll(tracks: seq<seq<Timed>>): seq<seq<Timed>> {
    if tracks == [] then [] else [ReadBack(tracks[0], None)] + ReadBackAll(tracks[1..])
  }

  lemma {:induction false} TracksRoundTrip(tracks: seq<seq<Timed>>, previous: Byte)
    requires AllTracksLegible(tracks) && AllWritable(tracks)
    ensures Chunks(tracks).Some?
    ensures DecodeTracks(previous, Chunks(tracks).value, |tracks|) == Some(ReadBackAll(tracks))
    decreases |tracks|
  {
    hide LegibleTrack, Writable, TrackChunk, DecodeTrack, ReadBack, LastPrevious;
    if tracks != [] {
      TracksRoundTrip(tracks[1..], LastPrevious(tracks[0], previous));
      TrackRoundTrip(tracks[0], previous, Chunks(tracks[1..]).value);
    }
  }

  /** A whole file comes back, track by track, with its format and its division. */
  lemma {:induction false} FileRoundTrip(format: U16, ppq: U16, tracks: seq<seq<Timed>>, previous: Byte)
    requires AllTracksLegible(tracks) && AllWritable(tracks)
    requires format <= 2 && ppq < 0x8000 && |tracks| < 0x8000
    ensures FileBytes(format, ppq, tracks).Some?
    ensures DecodeFile(previous, FileBytes(format, ppq, tracks).value) == Some(Song(format, ppq, ReadBackAll(tracks)))
  {
    hide AllTracksLegible, AllWritable, Chunks, DecodeTracks, ReadBackAll, Pack16, Unpack16;
    TracksRoundTrip(tracks, previous);
    HeaderParts(format, |tracks|, ppq, Chunks(tracks).value);
  }

  lemma {:induction false} HeaderParts(format: U16, count: U16, ppq: U16, rest: Bytes)
    ensures var s := Header(format, count, ppq) + rest;
      && |s| >= 14 && s[..4] == FILE_MARK && Unpack32(s[4..8]) == 6
      && Unpack16(s[8..10]) == format && Unpack16(s[10..12]) == count && Unpack16(s[12..14]) == ppq
      && s[14..] == rest
  {
    var s := Header(format, count, ppq) + rest;
    assert s[4..8] == Pack32(6);
    assert s[8..10] == Pack16(format);
    assert s[10..12] == Pack16(count);
    assert s[12..14] == Pack16(ppq);
    Unpacked(6);
  }
}
