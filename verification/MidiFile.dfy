/** tools/midi/midifile.py: the classes that write a MIDI file and read it back. */
module MidiFiles {
  import opened Words
  import opened MidiFormat
  import opened MidiRoundTrip
  import opened MidiWire

  // ------------------------------------------------------ variable-length integers

  /** The groups of seven bits of v, none marked. */
  function Digits(v: nat): (s: Bytes)
    ensures forall i :: 0 <= i < |s| ==> s[i] < 0x80
  {
    if v == 0 then [] else Digits(v / 128) + [v % 128]
  }

  lemma {:induction false} MarkedDigits(v: nat)
    ensures |Groups(v)| == |Digits(v)|
    ensures forall i :: 0 <= i < |Digits(v)| ==> Groups(v)[i] == 0x80 + Digits(v)[i] as int
  {
    if v > 0 {
      MarkedDigits(v / 128);
    }
  }

  method PackVariableLengthInteger(value: nat) returns (output: Bytes)
    ensures output == PackVarLen(value) && IsVarLen(output, value)
  {
    PackedIsVarLen(value);
    hide IsVarLen;
    if value == 0 {
      return [0];
    }
    var v := value;
    output := [];
    while v > 0
      invariant Digits(value) == Digits(v) + output
    {
      output := [v % 128] + output;
      v := v / 128;
    }
    output := MarkAllButLast(output, value);
  }

  method MarkAllButLast(digits: Bytes, value: nat) returns (output: Bytes)
    requires digits == Digits(value) && digits != []
    ensures output == PackVarLen(value)
  {
    output := digits;
    var last := |output| - 1;
    ghost var high := Groups(value / 128);
    MarkedDigits(value / 128);
    assert digits == Digits(value / 128) + [value % 128];
    hide Digits, Groups;
    for i := 0 to last
      invariant |output| == |digits|
      invariant forall j :: i <= j <= last ==> output[j] == digits[j]
      invariant forall j :: 0 <= j < i ==> output[j] == high[j]
    {
      output := output[i := output[i] + 0x80];
    }
    assert output == high + [digits[last]];
  }

  // ---------------------------------------------------------------------- writing

  /** Adding the end marker keeps a list of events writable. */
  lemma {:induction false} EndIsWritable(events: seq<Timed>)
    requires Writable(events, 0) && events != []
    ensures Writable(WithEnd(events), 0)
  {
  }

  lemma {:induction false} InsertionIsOrdered(s: seq<Timed>, k: nat, e: Timed)
    requires Ordered(s) && k <= |s| && (k == |s| || e.time <= s[k].time)
    requires forall j :: 0 <= j < k ==> s[j].time < e.time
    ensures Ordered(s[..k] + [e] + s[k..])
  {
    var r := s[..k] + [e] + s[k..];
    forall i, j | 0 <= i < j < |r|
      ensures r[i].time <= r[j].time
    {
      assert r[i] == if i < k then s[i] else if i == k then e else s[i - 1];
      assert r[j] == if j < k then s[j] else if j == k then e else s[j - 1];
    }
  }

  lemma {:induction false} InsertionKeeps(s: seq<Timed>, k: nat, e: Timed)
    requires AllConstructible(s) && Constructible(e.event) && k <= |s|
    ensures AllConstructible(s[..k] + [e] + s[k..])
    ensures multiset(s[..k] + [e] + s[k..]) == multiset(s) + multiset{e}
  {
    hide Constructible;
    assert s == s[..k] + s[k..];
  }

  class ByteFile {
    var data: Bytes
    var position: nat

    constructor (data: Bytes)
      ensures this.data == data && position == 0
    {
      this.data := data;
      position := 0;
    }

    /** The bytes still to be read. */
    function Rest(): Bytes
      reads this
    {
      Drop(data, position)
    }

    method Write(s: Bytes)
      modifies this
      ensures data == old(data) + s && position == old(position)
    {
      data := data + s;
    }

    method Read(n: nat) returns (s: Bytes)
      modifies this
      ensures data == old(data)
      ensures s == Take(old(Rest()), n) && Rest() == Drop(old(Rest()), n)
      ensures position == old(position) + |s|
    {
      s := Take(Rest(), n);
      position := position + |s|;
    }

    /** seek(tell() - 1). */
    method StepBack()
      requires position > 0
      modifies this
      ensures data == old(data) && position == old(position) - 1
    {
      position := position - 1;
    }
  }

  class Track {
    var events: seq<Timed>

    ghost predicate Valid()
      reads this
    {
      AllConstructible(events)
    }

    constructor ()
      ensures Valid() && events == []
    {
      events := [];
    }

    method AddEvent(time: nat, event: Event)
      requires Valid() && Constructible(event)
      modifies this
      ensures Valid() && events == old(events) + [Timed(time, event)]
    {
      events := events + [Timed(time, event)];
    }

    /** Any order that respects the times: the original leaves the order of simultaneous events open. */
    method Sort()
      requires Valid()
      modifies this
      ensures Valid() && Ordered(events) && multiset(events) == multiset(old(events))
    {
      hide Constructible;
      var sorted: seq<Timed> := [];
      for i := 0 to |events|
        invariant events == old(events)
        invariant Ordered(sorted) && AllConstructible(sorted)
        invariant multiset(sorted) == multiset(events[..i])
      {
        assert events[..i + 1] == events[..i] + [events[i]];
        sorted := Insert(sorted, events[i]);
      }
      assert events[..|events|] == events;
      events := sorted;
    }

    method Insert(sorted: seq<Timed>, e: Timed) returns (r: seq<Timed>)
      requires Ordered(sorted) && AllConstructible(sorted) && Constructible(e.event)
      ensures Ordered(r) && AllConstructible(r)
      ensures multiset(r) == multiset(sorted) + multiset{e}
    {
      hide Constructible;
      var k := 0;
      while k < |sorted| && sorted[k].time < e.time
        invariant k <= |sorted|
        invariant forall j :: 0 <= j < k ==> sorted[j].time < e.time
      {
        k := k + 1;
      }
      r := sorted[..k] + [e] + sorted[k..];
      hide Ordered, AllConstructible;
      InsertionIsOrdered(sorted, k, e);
      InsertionKeeps(sorted, k, e);
    }

    /** None when the track is empty: the original looks up its last event. */
    method Serialize() returns (r: Option<Bytes>)
      requires Valid()
      modifies this
      ensures Valid() && (r.None? <==> old(events) == [])
      ensures r.None? ==> events == []
      ensures r.Some? ==> IsWritten(events, old(events)) && r.value == EncodeEvents(events, 0, None)
      ensures r.Some? ==> TrackOnWire(r.value, events, 0, None)
    {
      hide TrackOnWire, EncodeEvents;
      Sort();
      if events == [] {
        return None;
      }
      ghost var order := events;
      var last := events[|events| - 1];
      if last.event != EndOfTrack {
        events := events + [Timed(last.time + 1, EndOfTrack)];
      }
      EndIsWritable(order);
      assert IsOrderOf(order, old(events)) && events == WithEnd(order);
      EncodedTrack(events, 0, None);
      var data := EncodeAll();
      return Some(data);
    }

    method EncodeAll() returns (data: Bytes)
      requires Writable(events, 0)
      ensures data == EncodeEvents(events, 0, None)
    {
      hide EncodeEvents, Encode, PackVarLen, After, Writable;
      data := [];
      var currentTime: nat := 0;
      var runningStatus: Option<Byte> := None;
      var i := 0;
      assert events[0..] == events;
      while i < |events|
        invariant i <= |events| && Writable(events[i..], currentTime)
        invariant data + EncodeEvents(events[i..], currentTime, runningStatus) == EncodeEvents(events, 0, None)
      {
        var e := events[i];
        assert events[i..][0] == e && events[i..][1..] == events[i + 1..];
        EncodeStep(events[i..], currentTime, runningStatus);
        var delta := PackVariableLengthInteger(e.time - currentTime);
        data := data + delta;
        data := data + Encode(e.event, runningStatus);
        runningStatus := After(e.event, runningStatus);
        currentTime := e.time;
        i := i + 1;
      }
      assert events[|events|..] == [];
      NothingToEncode(currentTime, runningStatus);
    }

    /** False when the track is empty or its length does not fit four bytes. */
    method Write(f: ByteFile) returns (ok: bool)
      requires Valid()
      modifies this, f
      ensures Valid()
      ensures ok ==> IsWritten(events, old(events)) && TrackChunk(events).Some?
      ensures ok ==> f.data == old(f.data) + TrackChunk(events).value && ChunkOnWire(TrackChunk(events).value, events)
      ensures ok <==> old(events) != [] && Writable(events, 0) && TrackChunk(events).Some?
      ensures !ok ==> Unwritable(old(events))
    {
      hide EncodeEvents, Writable, Constructible, WithEnd;
      hide ChunkOnWire, TrackOnWire;
      f.Write(TRACK_MARK);
      var r := Serialize();
      if r.None? || |r.value| >= 0x1_0000_0000 {
        assert old(events) != [] ==> IsWritten(events, old(events)) && TrackChunk(events).None?;
        return false;
      }
      EncodedChunk(events);
      f.Write(Pack32(|r.value|));
      f.Write(r.value);
      ok := true;
    }
  }

  lemma {:induction false} NothingToEncode(now: nat, running: Option<Byte>)
    ensures EncodeEvents([], now, running) == []
  {
  }

  /** What is written for a track of these events: some order of them by time, with an end marker. */
  ghost predicate IsWritten(written: seq<Timed>, events: seq<Timed>) {
    exists order :: IsOrderOf(order, events) && order != [] && written == WithEnd(order) && Writable(written, 0)
  }

  ghost predicate IsOrderOf(order: seq<Timed>, events: seq<Timed>) {
    Ordered(order) && multiset(order) == multiset(events)
  }

  /** Can an order of these events take more bytes than fit four bytes' worth of length? */
  ghost predicate CanBeTooLong(events: seq<Timed>) {
    exists written :: IsWritten(written, events) && TooLong(written)
  }

  ghost predicate TooLong(written: seq<Timed>) {
    Writable(written, 0) && TrackChunk(written).None?
  }

  ghost predicate Unwritable(events: seq<Timed>) {
    events == [] || CanBeTooLong(events)
  }

  /** What an event takes at most: its time from the start, and its bytes with a status. */
  function Weight(t: Timed): nat {
    |PackVarLen(t.time)| + if Constructible(t.event) then |Encode(t.event, None)| else 0
  }

  lemma {:induction false} GroupsGrow(a: nat, b: nat)
    requires a <= b
    ensures |Groups(a)| <= |Groups(b)|
  {
    if a > 0 {
      GroupsGrow(a / 128, b / 128);
    }
  }

  lemma {:induction false} FirstWeight(e: Timed, now: nat, running: Option<Byte>)
    requires now <= e.time && Constructible(e.event)
    ensures |PackVarLen(e.time - now) + Encode(e.event, running)| <= Weight(e)
  {
    GroupsGrow((e.time - now) / 128, e.time / 128);
  }

  lemma {:induction false} LengthBound(events: seq<Timed>, now: nat, running: Option<Byte>)
    requires Writable(events, now)
    ensures |EncodeEvents(events, now, running)| <= SumOf(Weight, events)
    decreases |events|
  {
    if events != [] {
      hide Writable, Constructible, PackVarLen, Encode, Weight, After;
      EncodeStep(events, now, running);
      FirstWeight(events[0], now, running);
      LengthBound(events[1..], events[0].time, After(events[0].event, running));
    } else {
      NothingToEncode(now, running);
    }
  }

  lemma {:induction false} NextTime(t: nat)
    ensures |PackVarLen(t + 1)| <= |PackVarLen(t)| + 1
  {
    GroupsNext(t / 128);
    GroupsGrow((t + 1) / 128, t / 128 + 1);
  }

  lemma {:induction false} GroupsNext(v: nat)
    ensures |Groups(v + 1)| <= |Groups(v)| + 1
  {
    if v > 0 {
      GroupsNext(v / 128);
      GroupsGrow((v + 1) / 128, v / 128 + 1);
    }
  }

  lemma {:induction false} WeightOfEnd(last: Timed)
    ensures Weight(Timed(last.time + 1, EndOfTrack)) <= Weight(last) + 4
  {
    hide PackVarLen;
    NextTime(last.time);
    assert |Encode(EndOfTrack, None)| == 3;
  }

  lemma {:induction false} EndWeight(order: seq<Timed>)
    requires order != []
    ensures SumOf(Weight, WithEnd(order)) <= 2 * SumOf(Weight, order) + 4
  {
    hide Weight;
    var n := |order| - 1;
    var last := order[n];
    var end := Timed(last.time + 1, EndOfTrack);
    assert order == order[..n] + [last];
    SumOfConcat(Weight, order[..n], [last]);
    SumOfConcat(Weight, order, [end]);
    SumOfOne(last);
    SumOfOne(end);
    hide SumOf;
    WeightOfEnd(last);
  }

  lemma {:induction false} SumOfOne(t: Timed)
    ensures SumOf(Weight, [t]) == Weight(t)
  {
    assert [t][1..] == [];
  }

  /** Events of up to nearly 2 GB in all can be written in every order. */
  lemma {:induction false} LightFits(events: seq<Timed>)
    requires events != [] && 2 * SumOf(Weight, events) + 4 < 0x1_0000_0000
    ensures !Unwritable(events)
  {
    hide Weight, Writable, EncodeEvents, WithEnd, SumOf, Ordered;
    if CanBeTooLong(events) {
      var written :| IsWritten(written, events) && TooLong(written);
      var order :| IsOrderOf(order, events) && order != [] && written == WithEnd(order) && Writable(written, 0);
      SumOfPermutation(Weight, order, events);
      EndWeight(order);
      LengthBound(written, 0, None);
    }
  }

  /** The bytes of all tracks before one more. */
  lemma {:induction false} ChunksAppend(tracks: seq<seq<Timed>>, t: seq<Timed>)
    requires AllWritable(tracks) && Writable(t, 0)
    ensures AllWritable(tracks + [t])
    ensures Chunks(tracks).Some? && TrackChunk(t).Some? ==>
      Chunks(tracks + [t]) == Some(Chunks(tracks).value + TrackChunk(t).value)
  {
    hide TrackChunk, Writable;
    if tracks != [] {
      ChunksAppend(tracks[1..], t);
      assert (tracks + [t])[1..] == tracks[1..] + [t];
      if Chunks(tracks).Some? && TrackChunk(t).Some? {
        var first, more, last := TrackChunk(tracks[0]).value, Chunks(tracks[1..]).value, TrackChunk(t).value;
        assert first + (more + last) == first + more + last;
      }
    } else if TrackChunk(t).Some? {
      var none: Bytes, noTracks: seq<seq<Timed>> := [], [];
      assert (tracks + [t])[1..] == noTracks;
      assert none + TrackChunk(t).value == TrackChunk(t).value == TrackChunk(t).value + none;
    }
  }

  class Writer {
    var tracks: seq<Track>
    var ppq: U16

    ghost predicate Valid()
      reads this, tracks
    {
      && (forall i, j :: 0 <= i < j < |tracks| ==> tracks[i] != tracks[j])
      && (forall i :: 0 <= i < |tracks| ==> tracks[i].Valid())
    }

    constructor (ppq: U16)
      ensures Valid() && tracks == [] && this.ppq == ppq
    {
      tracks := [];
      this.ppq := ppq;
    }

    method AddTrack() returns (t: Track)
      requires Valid()
      modifies this
      ensures Valid() && fresh(t) && t.events == [] && tracks == old(tracks) + [t] && ppq == old(ppq)
    {
      t := new Track();
      tracks := tracks + [t];
    }

    /** The events of the first n tracks, one after the other. */
    ghost function Gathered(n: nat): seq<Timed>
      requires n <= |tracks|
      reads this, tracks
    {
      if n == 0 then [] else Gathered(n - 1) + tracks[n - 1].events
    }

    /** What was added to each track to be written: in format 0 one track takes all. */
    ghost function Added(format: U16): (added: seq<seq<Timed>>)
      reads this, tracks
      ensures |added| == if format == 0 then 1 else |tracks|
      ensures if format == 0 then added[0] == Gathered(|tracks|)
        else forall i :: 0 <= i < |tracks| ==> added[i] == tracks[i].events
    {
      if format == 0 then [Gathered(|tracks|)] else
        seq(|tracks|, i requires 0 <= i < |tracks| reads this, tracks => tracks[i].events)
    }

    method MergeTracks() returns (t: Track)
      requires Valid()
      ensures fresh(t) && t.Valid() && IsOrderOf(t.events, Gathered(|tracks|))
    {
      hide AllConstructible, Constructible, Ordered, Track.Valid, Gathered;
      t := new Track();
      NothingGathered();
      for i := 0 to |tracks|
        invariant fresh(t) && t.Valid() && t.events == Gathered(i)
      {
        ValidTrack(tracks[i]);
        OneMoreGathered(i);
        AddAll(t, tracks[i].events);
      }
      t.Sort();
    }

    lemma {:induction false} NothingGathered()
      ensures Gathered(0) == []
    {
    }

    lemma {:induction false} OneMoreGathered(n: nat)
      requires n < |tracks|
      ensures Gathered(n + 1) == Gathered(n) + tracks[n].events
    {
    }

    lemma {:induction false} ValidTrack(t: Track)
      requires t.Valid()
      ensures AllConstructible(t.events)
    {
    }

    method AddAll(t: Track, events: seq<Timed>)
      requires t.Valid() && AllConstructible(events)
      modifies t
      ensures t.Valid() && t.events == old(t.events) + events
    {
      hide Constructible;
      for j := 0 to |events|
        invariant t.Valid() && t.events == old(t.events) + events[..j]
      {
        t.AddEvent(events[j].time, events[j].event);
        assert events[..j + 1] == events[..j] + [events[j]];
      }
      assert events[..|events|] == events;
    }

    /**
     * False when a track to be written is empty, or when a length or a count does not fit its field.
     * Format 0 writes all events as one track, the others write each track.
     */
    method Write(f: ByteFile, format: U16) returns (ok: bool, ghost written: seq<seq<Timed>>)
      requires Valid()
      modifies tracks, f
      ensures Valid()
      ensures ok ==> AllWritable(written) && FileBytes(format, ppq, written).Some?
      ensures ok ==> f.data == old(f.data) + FileBytes(format, ppq, written).value
      ensures ok ==> FileOnWire(FileBytes(format, ppq, written).value, format, ppq, written)
      ensures ok && format == 0 ==> |written| == 1 && IsWritten(written[0], old(Gathered(|tracks|)))
      ensures ok && format != 0 ==>
        |written| == |tracks| && forall i :: 0 <= i < |tracks| ==> IsWritten(written[i], old(tracks[i].events))
      ensures !ok && format == 0 ==> Unwritable(old(Gathered(|tracks|)))
      ensures !ok && format != 0 ==>
        |tracks| >= 0x1_0000 || exists i :: 0 <= i < |tracks| && Unwritable(old(tracks[i].events))
    {
      hide Header, Chunks, IsWritten, Writable, AllWritable, Track.Valid, FileOnWire;
      written := [];
      if format == 0 {
        WriteHeader(f, format, 1);
        ok, written := WriteMerged(f);
      } else if |tracks| >= 0x1_0000 {
        ok := false;
      } else {
        WriteHeader(f, format, |tracks|);
        ok, written := WriteTracks(f);
      }
      if ok {
        EncodedFile(format, ppq, written);
      }
    }

    method WriteMerged(f: ByteFile) returns (ok: bool, ghost written: seq<seq<Timed>>)
      requires Valid()
      modifies f
      ensures ok ==> AllWritable(written) && Chunks(written).Some?
      ensures ok ==> f.data == old(f.data) + Chunks(written).value
      ensures ok ==> |written| == 1 && IsWritten(written[0], old(Gathered(|tracks|)))
      ensures !ok ==> Unwritable(old(Gathered(|tracks|)))
    {
      hide TrackChunk, Writable, IsOrderOf, Chunks, IsWritten, Unwritable, AllConstructible;
      var merged := MergeTracks();
      ghost var order := merged.events;
      ok := merged.Write(f);
      written := [merged.events];
      if ok {
        OneChunk(merged.events);
        WrittenInOrder(merged.events, order, Gathered(|tracks|));
      } else {
        UnwritableInOrder(order, Gathered(|tracks|));
      }
    }

    method WriteHeader(f: ByteFile, format: U16, count: U16)
      modifies f
      ensures f.data == old(f.data) + Header(format, count, ppq)
    {
      f.Write(FILE_MARK);
      f.Write(Pack32(6));
      f.Write(Pack16(format));
      f.Write(Pack16(count));
      f.Write(Pack16(ppq));
    }

    method WriteTracks(f: ByteFile) returns (ok: bool, ghost written: seq<seq<Timed>>)
      requires Valid()
      modifies tracks, f
      ensures Valid()
      ensures ok ==> AllWritable(written) && Chunks(written).Some?
      ensures ok ==> f.data == old(f.data) + Chunks(written).value
      ensures ok ==>
        |written| == |tracks| && forall i :: 0 <= i < |tracks| ==> IsWritten(written[i], old(tracks[i].events))
      ensures !ok ==> exists i :: 0 <= i < |tracks| && Unwritable(old(tracks[i].events))
    {
      hide Unwritable, TrackChunk, IsWritten, Writable, Chunks, AllConstructible;
      written := [];
      NoChunks();
      for i := 0 to |tracks|
        invariant Valid() && |written| == i && AllWritable(written)
        invariant Chunks(written).Some? && f.data == old(f.data) + Chunks(written).value
        invariant forall j :: 0 <= j < i ==> IsWritten(written[j], old(tracks[j].events))
        invariant forall j :: i <= j < |tracks| ==> tracks[j].events == old(tracks[j].events)
      {
        ok := tracks[i].Write(f);
        if !ok {
          return false, written;
        }
        ChunksAppend(written, tracks[i].events);
        written := written + [tracks[i].events];
      }
      ok := true;
    }
  }

  /** Events put in order twice are events in order. */
  lemma {:induction false} WrittenInOrder(written: seq<Timed>, order: seq<Timed>, events: seq<Timed>)
    requires IsOrderOf(order, events) && IsWritten(written, order)
    ensures IsWritten(written, events)
  {
    hide Ordered, Writable;
    var again :| IsOrderOf(again, order) && again != [] && written == WithEnd(again) && Writable(written, 0);
    assert IsOrderOf(again, events);
  }

  /** In which order events were added makes no difference to what may be written for them. */
  lemma {:induction false} OrderOfAdding(a: seq<Timed>, b: seq<Timed>, written: seq<Timed>)
    requires multiset(a) == multiset(b)
    ensures IsWritten(written, a) <==> IsWritten(written, b)
    ensures Unwritable(a) <==> Unwritable(b)
  {
    hide Ordered, Writable, TooLong, WithEnd;
    assert |multiset(a)| == |a| && |multiset(b)| == |b|;
    forall w: seq<Timed>
      ensures IsWritten(w, a) <==> IsWritten(w, b)
    {
      SameEvents(a, b, w);
      SameEvents(b, a, w);
    }
  }

  lemma {:induction false} SameEvents(a: seq<Timed>, b: seq<Timed>, written: seq<Timed>)
    requires multiset(a) == multiset(b)
    ensures IsWritten(written, a) ==> IsWritten(written, b)
  {
    hide Ordered, Writable, WithEnd;
    if IsWritten(written, a) {
      var order :| IsOrderOf(order, a) && order != [] && written == WithEnd(order) && Writable(written, 0);
      assert IsOrderOf(order, b);
    }
  }

  lemma {:induction false} UnwritableInOrder(order: seq<Timed>, events: seq<Timed>)
    requires IsOrderOf(order, events) && Unwritable(order)
    ensures Unwritable(events)
  {
    hide IsWritten, TooLong, Ordered;
    assert |multiset(order)| == |order| && |multiset(events)| == |events|;
    if order != [] {
      var written :| IsWritten(written, order) && TooLong(written);
      WrittenInOrder(written, order, events);
    }
  }

  lemma {:induction false} NoChunks()
    ensures AllWritable([]) && Chunks([]) == Some([])
  {
  }

  lemma {:induction false} OneChunk(t: seq<Timed>)
    requires Writable(t, 0) && TrackChunk(t).Some?
    ensures AllWritable([t]) && Chunks([t]) == TrackChunk(t)
  {
    hide TrackChunk, Writable;
    var none: Bytes := [];
    var noTracks: seq<seq<Timed>> := [];
    assert [t][1..] == noTracks;
    assert TrackChunk(t).value + none == TrackChunk(t).value;
  }


  // ---------------------------------------------------------------------- reading

  class Reader {
    var tracks: seq<seq<Timed>>
    var format: int
    var ppq: int
    var previousStatus: Byte

    constructor ()
      ensures tracks == [] && format == 0 && ppq == 96 && previousStatus == 0
    {
      tracks, format, ppq, previousStatus := [], 0, 96, 0;
    }

    /** None at the end of the file. */
    method ReadVariableLengthInteger(f: ByteFile) returns (r: Option<Number>)
      modifies f
      ensures r == ReadVarLen(0, old(f.Rest()))
      ensures r.Some? ==> f.Rest() == old(f.Rest())[r.value.size..]
    {
      hide Take, Drop, ReadVarLen, Later;
      NoneRead(f.Rest());
      ghost var s := f.Rest();
      var v: nat, size: nat := 0, 0;
      assert s[0..] == s;
      while true
        invariant size <= |s| && f.Rest() == s[size..]
        invariant ReadVarLen(0, s) == Later(ReadVarLen(v, s[size..]), size)
        decreases |s| - size
      {
        ByteRead(s[size..]);
        OneMore(v, s, size);
        var b := f.Read(1);
        if b == [] {
          return None;
        }
        v := v * 128 + b[0] as int % 128;
        size := size + 1;
        if b[0] < 0x80 {
          return Some(Number(v, size));
        }
      }
    }

    /** A channel event whose status byte is known: its operands. */
    method ReadChannelEvent(f: ByteFile, delta: nat, status: Byte, at: nat, ghost s: Bytes)
      returns (r: Option<Step>)
      requires 0x80 <= status < 0xf0 && at <= |s| && f.Rest() == s[at..]
      modifies this`previousStatus, f
      ensures r == DecodeChannel(delta, status, s, at)
      ensures r.Some? ==> previousStatus == r.value.previous && f.Rest() == Drop(s, r.value.size)
    {
      var kind := status - status % 16;
      previousStatus := kind;
      var data := f.Read(OperandCount(kind));
      if |data| < OperandCount(kind) {
        return None;
      }
      return Some(Step(delta, Some(ChannelEvent(kind, status % 16 + 1, data)), at + OperandCount(kind), kind));
    }

    method ReadMetaEvent(f: ByteFile, delta: nat, at: nat, ghost s: Bytes) returns (r: Option<Step>)
      requires at <= |s| && f.Rest() == s[at..]
      modifies f
      ensures r == DecodeMeta(delta, previousStatus, s, at)
      ensures r.Some? ==> previousStatus == r.value.previous && f.Rest() == Drop(s, r.value.size)
    {
      hide Take, Drop, MetaEvent, ReadVarLen, DecodeMeta;
      MetaSteps(delta, previousStatus, s, at);
      ByteRead(s[at..]);
      var id := f.Read(1);
      if id == [] {
        return None;
      }
      assert f.Rest() == s[at + 1..];
      var n := ReadVariableLengthInteger(f);
      if n == None {
        return None;
      }
      var start := at + 1 + n.value.size;
      DropAt(s, at + 1, n.value.size);
      DropAt(s, start, n.value.value);
      var bytes := f.Read(n.value.value);
      var e := MetaEvent(id[0], bytes);
      if e == None {
        return None;
      }
      return Some(Step(delta, e.value, start + n.value.value, previousStatus));
    }

    method ReadSysExEvent(f: ByteFile, delta: nat, at: nat, ghost s: Bytes) returns (r: Option<Step>)
      requires at <= |s| && f.Rest() == s[at..]
      modifies f
      ensures r == DecodeSysEx(delta, previousStatus, s, at)
      ensures r.Some? ==> previousStatus == r.value.previous && f.Rest() == Drop(s, r.value.size)
    {
      hide Take, Drop, SysExEvent, ReadVarLen;
      var n := ReadVariableLengthInteger(f);
      if n == None {
        return None;
      }
      var start := at + n.value.size;
      DropAt(s, at, n.value.size);
      DropAt(s, start, n.value.value);
      var bytes := f.Read(n.value.value);
      var e := SysExEvent(bytes);
      if e == None {
        return None;
      }
      return Some(Step(delta, e, start + n.value.value, previousStatus));
    }

    /** The event after its status byte, or after its time where the status byte is carried over. */
    method ReadBody(f: ByteFile, delta: nat, eventByte: Byte, at: nat, ghost s: Bytes) returns (r: Option<Step>)
      requires at <= |s| && f.Rest() == s[at..]
      modifies this`previousStatus, f
      ensures r == DecodeBody(delta, eventByte, old(previousStatus), s, at)
      ensures r.Some? ==> previousStatus == r.value.previous && f.Rest() == Drop(s, r.value.size)
    {
      hide DecodeMeta, DecodeSysEx, DecodeChannel;
      if 0x80 <= eventByte < 0xf0 {
        r := ReadChannelEvent(f, delta, eventByte, at, s);
      } else if eventByte == 0xff {
        r := ReadMetaEvent(f, delta, at, s);
      } else if eventByte == 0xf0 {
        r := ReadSysExEvent(f, delta, at, s);
      } else {
        DropAt(s, at, 0);
        r := Some(Step(delta, None, at, previousStatus));
      }
    }

    method ReadEvent(f: ByteFile) returns (r: Option<Step>)
      modifies this`previousStatus, f
      ensures r == DecodeEvent(old(previousStatus), old(f.Rest()))
      ensures EventRead(old(previousStatus), old(f.Rest()), r)
      ensures r.Some? ==> previousStatus == r.value.previous && f.Rest() == Drop(old(f.Rest()), r.value.size)
    {
      hide DecodeBody, ReadVarLen, Take, EventRead;
      ghost var s := f.Rest();
      DecodeOnWire(previousStatus, s);
      var n := ReadVariableLengthInteger(f);
      if n == None {
        return None;
      }
      var at := n.value.size;
      ByteRead(s[at..]);
      DropAt(s, at, 1);
      ghost var p := f.position;
      var first := f.Read(1);
      if first == [] {
        return None;
      }
      if first[0] >= 0x80 {
        r := ReadBody(f, n.value.value, first[0], at + 1, s);
      } else if previousStatus != 0 {
        f.StepBack();
        assert f.position == p && f.Rest() == s[at..];
        r := ReadBody(f, n.value.value, previousStatus, at, s);
      } else {
        r := Some(Step(n.value.value, None, at + 1, previousStatus));
      }
    }

    method Read(f: ByteFile) returns (ok: bool)
      modifies this, f
      ensures match DecodeFile(old(previousStatus), old(f.Rest()))
        case None => !ok
        case Some(song) => ok && format == song.format && ppq == song.ppq && tracks == old(tracks) + song.tracks
    {
      hide DecodeTracks, Unpack32, Unpack16, Take, Drop;
      ghost var s := f.Rest();
      FileHeadRead(s);
      var mark := f.Read(4);
      if mark != FILE_MARK {
        return false;
      }
      var length := f.Read(4);
      if |length| < 4 || Signed32(Unpack32(length)) != 6 {
        return false;
      }
      var two := f.Read(2);
      if |two| < 2 || Signed16(Unpack16(two)) > 2 {
        return false;
      }
      format := Signed16(Unpack16(two));
      var count := f.Read(2);
      if |count| < 2 {
        return false;
      }
      var division := f.Read(2);
      if |division| < 2 {
        return false;
      }
      ppq := Signed16(Unpack16(division));
      ok := ReadTracks(f, Signed16(Unpack16(count)));
    }

    method ReadTracks(f: ByteFile, count: int) returns (ok: bool)
      modifies this`tracks, this`previousStatus, f
      ensures match DecodeTracks(old(previousStatus), old(f.Rest()), count)
        case None => !ok
        case Some(more) => ok && tracks == old(tracks) + more
    {
      hide DecodeTrack, DecodeTracks;
      ghost var all := DecodeTracks(previousStatus, f.Rest(), count);
      ghost var before, got: seq<seq<Timed>> := tracks, [];
      NoTrackYet(all);
      var i := 0;
      while i < count
        invariant 0 <= i && tracks == before + got
        invariant all == Follow(got, DecodeTracks(previousStatus, f.Rest(), count - i))
      {
        OneTrack(got, previousStatus, f.Rest(), count - i);
        var track := ReadTrack(f);
        if track == None {
          return false;
        }
        tracks := tracks + [track.value];
        got := got + [track.value];
        i := i + 1;
      }
      TracksDone(got, previousStatus, f.Rest(), count - i);
      ok := true;
    }

    method ReadTrack(f: ByteFile) returns (r: Option<seq<Timed>>)
      modifies this`previousStatus, f
      ensures var d := DecodeTrack(old(previousStatus), old(f.Rest()));
        match d
        case None => r == None
        case Some(track) => r == Some(track.events) && previousStatus == track.previous && f.Rest() == track.rest
    {
      hide DecodeEvents, Unpack32, Take, Drop;
      ghost var s := f.Rest();
      HeadRead(s);
      var mark := f.Read(4);
      if mark != TRACK_MARK {
        return None;
      }
      var length := f.Read(4);
      if |length| < 4 {
        return None;
      }
      r := ReadEvents(f, Signed32(Unpack32(length)));
    }

    method ReadEvents(f: ByteFile, length: int) returns (r: Option<seq<Timed>>)
      modifies this`previousStatus, f
      ensures var d := DecodeEvents(old(previousStatus), old(f.Rest()), length, 0);
        match d
        case None => r == None
        case Some(track) => r == Some(track.events) && previousStatus == track.previous && f.Rest() == track.rest
    {
      hide DecodeEvent, DecodeEvents, Drop, Heard;
      var t: nat, size: int, events: seq<Timed> := 0, length, [];
      ghost var d := DecodeEvents(previousStatus, f.Rest(), length, 0);
      NoneYet(events, DecodeEvents(previousStatus, f.Rest(), size, t));
      while size > 0
        invariant d == Prepend(events, DecodeEvents(previousStatus, f.Rest(), size, t))
      {
        ghost var rest, previous := f.Rest(), previousStatus;
        var step := ReadEvent(f);
        OneEvent(events, previous, rest, size, t);
        if step == None {
          return None;
        }
        t := t + step.value.delta;
        events := events + Heard(t, step.value.event);
        size := size - step.value.size;
      }
      Finished(events, previousStatus, f.Rest(), size, t);
      r := Some(events);
    }
  }

  /** Events already read, in front of those still to come. */
  function Prepend(events: seq<Timed>, r: Option<TrackRead>): Option<TrackRead> {
    match r
    case None => None
    case Some(track) => Some(track.(events := events + track.events))
  }

  lemma {:induction false} NoneYet(events: seq<Timed>, r: Option<TrackRead>)
    requires events == []
    ensures Prepend(events, r) == r
  {
    if r.Some? {
      assert events + r.value.events == r.value.events;
    }
  }

  lemma {:induction false} OneEvent(events: seq<Timed>, previous: Byte, s: Bytes, size: int, t: nat)
    requires size > 0
    ensures DecodeEvent(previous, s).None? ==> Prepend(events, DecodeEvents(previous, s, size, t)) == None
    ensures DecodeEvent(previous, s).Some? ==>
      var step := DecodeEvent(previous, s).value;
      Prepend(events, DecodeEvents(previous, s, size, t))
      == Prepend(events + Heard(t + step.delta, step.event),
           DecodeEvents(step.previous, Drop(s, step.size), size - step.size, t + step.delta))
  {
    hide DecodeEvent, Drop, Heard;
    if DecodeEvent(previous, s).Some? {
      var step := DecodeEvent(previous, s).value;
      var r := DecodeEvents(step.previous, Drop(s, step.size), size - step.size, t + step.delta);
      if r.Some? {
        var h := Heard(t + step.delta, step.event);
        assert events + (h + r.value.events) == events + h + r.value.events;
      }
    }
  }

  lemma {:induction false} Finished(events: seq<Timed>, previous: Byte, s: Bytes, size: int, t: nat)
    requires size <= 0
    ensures Prepend(events, DecodeEvents(previous, s, size, t)) == Some(TrackRead(events, previous, size, s))
  {
    var none: seq<Timed> := [];
    assert events + none == events;
  }

  function Follow(tracks: seq<seq<Timed>>, r: Option<seq<seq<Timed>>>): Option<seq<seq<Timed>>> {
    match r
    case None => None
    case Some(more) => Some(tracks + more)
  }

  lemma {:induction false} NoTrackYet(r: Option<seq<seq<Timed>>>)
    ensures Follow([], r) == r
  {
    if r.Some? {
      var none: seq<seq<Timed>> := [];
      assert none + r.value == r.value;
    }
  }

  lemma {:induction false} OneTrack(got: seq<seq<Timed>>, previous: Byte, s: Bytes, count: int)
    requires count > 0
    ensures DecodeTrack(previous, s).None? ==> Follow(got, DecodeTracks(previous, s, count)) == None
    ensures DecodeTrack(previous, s).Some? ==>
      var track := DecodeTrack(previous, s).value;
      Follow(got, DecodeTracks(previous, s, count))
      == Follow(got + [track.events], DecodeTracks(track.previous, track.rest, count - 1))
  {
    hide DecodeTrack;
    if DecodeTrack(previous, s).Some? {
      var track := DecodeTrack(previous, s).value;
      var r := DecodeTracks(track.previous, track.rest, count - 1);
      if r.Some? {
        assert got + ([track.events] + r.value) == got + [track.events] + r.value;
      }
    }
  }

  lemma {:induction false} TracksDone(got: seq<seq<Timed>>, previous: Byte, s: Bytes, count: int)
    requires count <= 0
    ensures Follow(got, DecodeTracks(previous, s, count)) == Some(got)
  {
    var none: seq<seq<Timed>> := [];
    assert got + none == got;
  }

  lemma {:induction false} FileHeadRead(s: Bytes)
    ensures var s4, s8, s10, s12, s14 :=
        Drop(s, 4), Drop(Drop(s, 4), 4), Drop(Drop(Drop(s, 4), 4), 2), Drop(Drop(Drop(Drop(s, 4), 4), 2), 2),
        Drop(Drop(Drop(Drop(Drop(s, 4), 4), 2), 2), 2);
      && (|s| < 14 && Take(s, 4) == FILE_MARK && |Take(s4, 4)| == 4 && |Take(s8, 2)| == 2 && |Take(s10, 2)| == 2
          ==> |Take(s12, 2)| < 2)
      && (|s| >= 14 ==>
          && Take(s, 4) == s[..4] && Take(s4, 4) == s[4..8] && Take(s8, 2) == s[8..10]
          && Take(s10, 2) == s[10..12] && Take(s12, 2) == s[12..14] && s14 == s[14..])
  {
  }

  /** The two fields before the events of a track. */
  lemma {:induction false} HeadRead(s: Bytes)
    ensures |s| < 8 && Take(s, 4) == TRACK_MARK ==> |Take(Drop(s, 4), 4)| < 4
    ensures |s| >= 8 ==>
      Take(s, 4) == s[..4] && Take(Drop(s, 4), 4) == s[4..8] && Drop(Drop(s, 4), 4) == s[8..]
  {
  }

  /** The ways a meta event can turn out. */
  lemma {:induction false} MetaSteps(delta: nat, previous: Byte, s: Bytes, at: nat)
    requires at <= |s|
    ensures at == |s| ==> DecodeMeta(delta, previous, s, at) == None
    ensures at < |s| && ReadVarLen(0, s[at + 1..]).None? ==> DecodeMeta(delta, previous, s, at) == None
    ensures at < |s| && ReadVarLen(0, s[at + 1..]).Some? ==>
      var n := ReadVarLen(0, s[at + 1..]).value;
      var e := MetaEvent(s[at], Take(s[at + 1 + n.size..], n.value));
      && (e.None? ==> DecodeMeta(delta, previous, s, at) == None)
      && (e.Some? ==>
        var step := Step(delta, e.value, at + 1 + n.size + n.value, previous);
        DecodeMeta(delta, previous, s, at) == Some(step))
  {
    hide Take, MetaEvent, ReadVarLen;
  }

  lemma {:induction false} DropAt(s: Bytes, at: nat, n: nat)
    requires at <= |s|
    ensures Drop(s[at..], n) == Drop(s, at + n)
    ensures n <= |s| - at ==> s[at..][n..] == s[at + n..] && Drop(s, at + n) == s[at + n..]
  {
  }

  lemma {:induction false} ByteRead(t: Bytes)
    ensures t == [] ==> Take(t, 1) == []
    ensures t != [] ==> Take(t, 1) == [t[0]] && Drop(t, 1) == t[1..]
  {
  }

  lemma {:induction false} NoneRead(s: Bytes)
    ensures ReadVarLen(0, s) == Later(ReadVarLen(0, s), 0)
  {
    hide ReadVarLen;
  }

  lemma {:induction false} OneMore(v: nat, s: Bytes, size: nat)
    requires size <= |s| && ReadVarLen(0, s) == Later(ReadVarLen(v, s[size..]), size)
    ensures size == |s| ==> ReadVarLen(0, s) == None
    ensures size < |s| ==>
      var w := v * 128 + s[size] as int % 128;
      && s[size..] != [] && s[size..][0] == s[size] && s[size..][1..] == s[size + 1..]
      && (s[size] < 0x80 ==> ReadVarLen(0, s) == Some(Number(w, size + 1)))
      && (s[size] >= 0x80 ==> ReadVarLen(0, s) == Later(ReadVarLen(w, s[size + 1..]), size + 1))
  {
  }

  lemma {:induction false} WholeFile(f: ByteFile)
    requires f.position == 0
    ensures f.Rest() == f.data
  {
  }

  // ------------------------------------------------- what was added, written and read

  /** Legible whatever running status it meets. */
  predicate AlwaysLegible(e: Event) {
    Constructible(e) && LegibleAlone(e) && (IsChannel(e) ==> Operands(e)[0] < 0x80)
  }

  /** Heard as itself whatever running status it meets. */
  predicate AlwaysHeard(e: Event) {
    !IsSystem(e) && (IsChannel(e) ==> e.channel == 1)
  }

  /** Events for a track that reads back in any order: there are some, less than about 1 GB, each legible. */
  ghost predicate LegibleEvents(events: seq<Timed>) {
    events != [] && 2 * SumOf(Weight, events) + 4 < 0x8000_0000 && forall t :: t in events ==> AlwaysLegible(t.event)
  }

  ghost predicate HeardEvents(events: seq<Timed>) {
    forall t :: t in events ==> AlwaysHeard(t.event)
  }

  lemma {:induction false} LegibleAnyway(events: seq<Timed>, running: Option<Byte>)
    requires forall t :: t in events ==> AlwaysLegible(t.event)
    ensures AllLegible(events, running)
    decreases |events|
  {
    if events != [] {
      var e := events[0].event;
      assert AlwaysLegible(e);
      LegibleSplit(e, running);
      hide AlwaysLegible, Legible, After;
      LegibleAnyway(events[1..], After(e, running));
    }
  }

  lemma {:induction false} HeardAnyway(events: seq<Timed>, running: Option<Byte>)
    requires HeardEvents(events)
    ensures Undistorted(events, running)
    decreases |events|
  {
    hide AlwaysHeard;
    if events != [] {
      HeardItself(events[0].event, running);
      HeardAnyway(events[1..], After(events[0].event, running));
    }
  }

  lemma {:induction false} HeardItself(e: Event, running: Option<Byte>)
    requires AlwaysHeard(e)
    ensures !IsSystem(e) && (Reuses(e, running) ==> e.channel == 1)
  {
  }

  /** What is written of a track is what was added and at most an end marker. */
  lemma {:induction false} OnlyWhatWasAdded(written: seq<Timed>, events: seq<Timed>)
    requires IsWritten(written, events)
    ensures forall t :: t in written ==> t in events || t.event == EndOfTrack
    ensures SumOf(Weight, written) <= 2 * SumOf(Weight, events) + 4
    ensures Writable(written, 0)
  {
    hide Weight, Writable, SumOf, Ordered;
    var order :| IsOrderOf(order, events) && order != [] && written == WithEnd(order) && Writable(written, 0);
    SumOfPermutation(Weight, order, events);
    EndWeight(order);
    forall t | t in order
      ensures t in events
    {
      assert t in multiset(order);
    }
  }

  /** Whatever order legible events are written in, the track is legible. */
  lemma {:induction false} AnyOrderLegible(written: seq<Timed>, events: seq<Timed>)
    requires IsWritten(written, events) && LegibleEvents(events)
    ensures LegibleTrack(written)
  {
    hide IsWritten, SumOf, AllLegible, Writable, EncodeEvents, AlwaysLegible;
    OnlyWhatWasAdded(written, events);
    LengthBound(written, 0, None);
    EndLegible();
    LegibleAnyway(written, None);
  }

  lemma {:induction false} EndLegible()
    ensures AlwaysLegible(EndOfTrack) && AlwaysHeard(EndOfTrack)
  {
  }

  /** Without system events and other channels than the first, the track reads back as it was written. */
  lemma {:induction false} AnyOrderHeard(written: seq<Timed>, events: seq<Timed>)
    requires IsWritten(written, events) && HeardEvents(events)
    ensures ReadBack(written, None) == written
  {
    hide IsWritten, SumOf, Undistorted, ReadBack, AlwaysHeard, Writable;
    OnlyWhatWasAdded(written, events);
    EndLegible();
    HeardAnyway(written, None);
    ReadBackIff(written, None);
  }

  lemma {:induction false} AllHeard(tracks: seq<seq<Timed>>)
    requires forall i :: 0 <= i < |tracks| ==> ReadBack(tracks[i], None) == tracks[i]
    ensures ReadBackAll(tracks) == tracks
  {
    hide ReadBack;
    if tracks != [] {
      AllHeard(tracks[1..]);
    }
  }

  /** All tracks written, from what was added to each. */
  lemma {:induction false} TracksReadBack(written: seq<seq<Timed>>, added: seq<seq<Timed>>)
    requires |written| == |added| && forall i :: 0 <= i < |added| ==> IsWritten(written[i], added[i])
    ensures (forall i :: 0 <= i < |added| ==> LegibleEvents(added[i])) ==> AllTracksLegible(written)
    ensures (forall i :: 0 <= i < |added| ==> HeardEvents(added[i])) ==> ReadBackAll(written) == written
  {
    hide IsWritten, LegibleEvents, HeardEvents, LegibleTrack, ReadBack, ReadBackAll;
    if forall i :: 0 <= i < |added| ==> LegibleEvents(added[i]) {
      forall i | 0 <= i < |written|
        ensures LegibleTrack(written[i])
      {
        AnyOrderLegible(written[i], added[i]);
      }
    }
    if forall i :: 0 <= i < |added| ==> HeardEvents(added[i]) {
      forall i | 0 <= i < |written|
        ensures ReadBack(written[i], None) == written[i]
      {
        AnyOrderHeard(written[i], added[i]);
      }
      AllHeard(written);
    }
  }

  lemma {:induction false} LegibleIsWritable(events: seq<Timed>)
    requires LegibleEvents(events)
    ensures !Unwritable(events)
  {
    hide AlwaysLegible;
    LightFits(events);
  }

  /**
   * Writing all tracks to a new file and reading that file. What the events added have to be for
   * the file to be written and to read back does not depend on the order that comes out.
   */
  method WriteThenRead(w: Writer, format: U16) returns (ok: bool, r: Reader, ghost written: seq<seq<Timed>>)
    requires w.Valid()
    modifies w.tracks
    ensures w.Valid()
    ensures ok ==> |written| == |old(w.Added(format))|
    ensures ok ==> forall i :: 0 <= i < |written| ==> IsWritten(written[i], old(w.Added(format))[i])
    ensures !ok ==>
      || (format != 0 && |w.tracks| >= 0x1_0000)
      || exists i :: 0 <= i < |old(w.Added(format))| && Unwritable(old(w.Added(format))[i])
    ensures ok && AllTracksLegible(written) && format <= 2 && w.ppq < 0x8000 && |written| < 0x8000 ==>
      r.format == format && r.ppq == w.ppq && r.tracks == ReadBackAll(written)
    ensures var added := old(w.Added(format));
      && |added| < 0x8000 && format <= 2 && w.ppq < 0x8000
      && (forall i :: 0 <= i < |added| ==> LegibleEvents(added[i])) ==>
        && ok && r.format == format && r.ppq == w.ppq && r.tracks == ReadBackAll(written)
        && ((forall i :: 0 <= i < |added| ==> HeardEvents(added[i])) ==> r.tracks == written)
  {
    hide Unwritable, FileBytes, DecodeFile, AllTracksLegible, IsWritten, AllWritable, ReadBackAll;
    hide LegibleEvents, HeardEvents;
    ghost var added := w.Added(format);
    var f := new ByteFile([]);
    ok, written := w.Write(f, format);
    r := new Reader();
    if ok {
      TracksReadBack(written, added);
      var g := new ByteFile(f.data);
      WholeFile(g);
      if AllTracksLegible(written) && format <= 2 && w.ppq < 0x8000 && |written| < 0x8000 {
        FileRoundTrip(format, w.ppq, written, 0);
      }
      var read := r.Read(g);
    } else if i :| 0 <= i < |added| && Unwritable(added[i]) {
      if LegibleEvents(added[i]) {
        LegibleIsWritable(added[i]);
      }
    }
  }
}
