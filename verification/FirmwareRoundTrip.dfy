/** The firmware packaged by tools/hex2sysex/hex2sysex.py, as its receiver finds it. */
module FirmwareRoundTrip {
  import opened Words
  import IntelHex
  import HexRoundTrip
  import opened MidiFormat
  import opened MidiRoundTrip
  import opened MidiFiles
  import opened Hex2SysEx

  // ------------------------------------------------------------ order in the track

  predicate Increasing(events: seq<Timed>) {
    forall i, j :: 0 <= i < j < |events| ==> events[i].time < events[j].time
  }

  lemma {:induction false} EarliestFirst(order: seq<Timed>, events: seq<Timed>)
    requires IsOrderOf(order, events) && Increasing(events) && events != []
    ensures order != [] && order[0] == events[0]
  {
    assert |order| == |multiset(order)| == |multiset(events)| == |events|;
    assert events[0] in multiset(order);
    var k :| 0 <= k < |order| && order[k] == events[0];
    assert order[0] in multiset(events);
    var j :| 0 <= j < |events| && events[j] == order[0];
  }

  /** Events at different times have only one order. */
  lemma {:induction false} OnlyOrder(order: seq<Timed>, events: seq<Timed>)
    requires IsOrderOf(order, events) && Increasing(events)
    ensures order == events
    decreases |events|
  {
    if events == [] {
      assert |multiset(order)| == |order|;
    } else {
      EarliestFirst(order, events);
      TailOrder(order, events);
      OnlyOrder(order[1..], events[1..]);
    }
  }

  lemma {:induction false} TailOrder(order: seq<Timed>, events: seq<Timed>)
    requires IsOrderOf(order, events) && Increasing(events) && events != []
    requires order != [] && order[0] == events[0]
    ensures IsOrderOf(order[1..], events[1..]) && Increasing(events[1..])
  {
    hide Increasing, Ordered;
    TailOrdered(order);
    TailIncreasing(events);
    WithoutHead(order);
    WithoutHead(events);
  }

  lemma {:induction false} TailOrdered(s: seq<Timed>)
    requires Ordered(s) && s != []
    ensures Ordered(s[1..])
  {
  }

  lemma {:induction false} TailIncreasing(s: seq<Timed>)
    requires Increasing(s) && s != []
    ensures Increasing(s[1..])
  {
  }

  lemma {:induction false} PagesInOrder(o: Options, pages: seq<Bytes>, time: nat)
    requires o.step > 0
    ensures Increasing(PageEvents(o, pages, time))
    ensures forall i :: 0 <= i < |PageEvents(o, pages, time)| ==> PageEvents(o, pages, time)[i].time >= time
  {
    hide PageEvent, ResetEvent;
    if pages != [] {
      PagesInOrder(o, pages[1..], time + o.step);
    }
  }

  /** With a delay of at least a tick the pages are written in their own order. */
  lemma {:induction false} TrackInOrder(o: Options, data: Bytes, written: seq<Timed>)
    requires o.pageWords > 0 && o.step > 0 && IsWritten(written, PageTrack(o, data))
    ensures written == WithEnd(PageTrack(o, data))
  {
    hide PageEvents, Pages, Writable;
    PagesInOrder(o, Pages(data, 2 * o.pageWords), 1);
    var t := PageTrack(o, data);
    assert Increasing(t);
    var order :| IsOrderOf(order, t) && order != [] && written == WithEnd(order) && Writable(written, 0);
    OnlyOrder(order, t);
  }

  // ------------------------------------------------------------------ the receiver

  /** The page an update message carries, when its length and its checksum are right. */
  function PageOf(o: Options, e: Event): Option<Bytes> {
    if e.SysEx? && o.update <= e.data && |e.data| - |o.update| == 2 * (2 * o.pageWords + 1) then
      PageIn(Joined(e.data[|o.update|..]))
    else
      None
  }

  function PageIn(bytes: Bytes): Option<Bytes> {
    if bytes == [] then
      None
    else
      var page := bytes[..|bytes| - 1];
      if bytes[|bytes| - 1] == Sum(page) % 256 then Some(page) else None
  }

  /** What a receiver that looks at update messages alone puts together. */
  function Firmware(o: Options, events: seq<Timed>): Bytes {
    if events == [] then
      []
    else
      (match PageOf(o, events[0].event)
       case None => []
       case Some(page) => page)
      + Firmware(o, events[1..])
  }

  lemma {:induction false} PageArrives(o: Options, page: Bytes)
    requires o.pageWords > 0 && |page| == 2 * o.pageWords
    ensures PageOf(o, PageEvent(o, page)) == Some(page)
  {
    hide Nibbles, Joined, Sum;
    var sent := page + [Sum(page) % 256];
    NibblesRoundTrip(sent);
    var data := o.update + Nibbles(sent);
    assert data[|o.update|..] == Nibbles(sent);
    assert sent[..|sent| - 1] == page;
  }

  lemma {:induction false} PagesArrive(o: Options, pages: seq<Bytes>, time: nat, tail: seq<Timed>)
    requires o.pageWords > 0 && PageOf(o, ResetEvent(o)).None?
    requires forall i :: 0 <= i < |pages| ==> |pages[i]| == 2 * o.pageWords
    ensures Firmware(o, PageEvents(o, pages, time) + tail) == Flatten(pages) + Firmware(o, tail)
  {
    hide PageOf, PageEvent, ResetEvent;
    var events := PageEvents(o, pages, time);
    if pages == [] {
      assert events + tail == [Timed(time, ResetEvent(o))] + tail;
      assert (events + tail)[1..] == tail;
    } else {
      PageArrives(o, pages[0]);
      PagesArrive(o, pages[1..], time + o.step, tail);
      assert (events + tail)[1..] == PageEvents(o, pages[1..], time + o.step) + tail;
    }
  }

  lemma {:induction false} NotAPage(o: Options, first: Timed, rest: seq<Timed>)
    requires PageOf(o, first.event).None?
    ensures Firmware(o, [first] + rest) == Firmware(o, rest)
  {
    hide PageOf;
    assert ([first] + rest)[1..] == rest;
  }

  /** The receiver puts together the data and the least padding. */
  lemma {:induction false} FirmwareArrives(o: Options, data: Bytes)
    requires o.pageWords > 0 && PageOf(o, ResetEvent(o)).None?
    ensures Firmware(o, WithEnd(PageTrack(o, data))) == data + Zeros(Padding(|data|, 2 * o.pageWords))
  {
    var size := 2 * o.pageWords;
    var pages := Pages(data, size);
    var first := Timed(0, Tempo(500000));
    assert PageOf(o, first.event) == None;
    hide Pages, Flatten, PageEvents, Zeros, Padding, ResetEvent, PageOf, Firmware, WithEnd, PageTrack;
    PageSizes(data, size);
    PagesRoundTrip(data, size);
    var events := PageEvents(o, pages, 1);
    var tail := TrackTail(o, data);
    PagesArrive(o, pages, 1, tail);
    NotAPage(o, first, events + tail);
    TrackShape(o, data, tail);
  }

  lemma {:induction false} TrackShape(o: Options, data: Bytes, tail: seq<Timed>)
    requires o.pageWords > 0
    ensures PageTrack(o, data) + tail
      == [Timed(0, Tempo(500000))] + (PageEvents(o, Pages(data, 2 * o.pageWords), 1) + tail)
  {
    hide PageEvents, Pages;
  }

  /** The end marker after the pages, which no page is. */
  lemma {:induction false} TrackTail(o: Options, data: Bytes) returns (tail: seq<Timed>)
    requires o.pageWords > 0
    ensures WithEnd(PageTrack(o, data)) == PageTrack(o, data) + tail
    ensures Firmware(o, tail) == []
  {
    var t := PageTrack(o, data);
    LastIsReset(o, Pages(data, 2 * o.pageWords), 1);
    tail := [Timed(t[|t| - 1].time + 1, EndOfTrack)];
    assert tail[1..] == [];
  }

  lemma {:induction false} LastIsReset(o: Options, pages: seq<Bytes>, time: nat)
    ensures var events := PageEvents(o, pages, time);
      events[|events| - 1].event == ResetEvent(o)
  {
    hide PageEvent, ResetEvent;
    if pages != [] {
      LastIsReset(o, pages[1..], time + o.step);
    }
  }

  // ----------------------------------------------------------- reading the file back

  lemma {:induction false} PagesLegible(o: Options, pages: seq<Bytes>, time: nat, tail: seq<Timed>)
    requires Sendable(o) && |o.manufacturer| == 3
    requires AllLegible(tail, None) && Undistorted(tail, None)
    ensures AllLegible(PageEvents(o, pages, time) + tail, None)
    ensures Undistorted(PageEvents(o, pages, time) + tail, None)
  {
    assert IdsFit(o);
    hide IdsFit, Sendable, Legible, PageEvent, ResetEvent, SevenBit, AllLegible, Undistorted;
    var events := PageEvents(o, pages, time);
    if pages == [] {
      ResetLegible(o);
      SysExFirst(Timed(time, ResetEvent(o)), tail);
    } else {
      PageLegible(o, pages[0]);
      PagesLegible(o, pages[1..], time + o.step, tail);
      var rest := PageEvents(o, pages[1..], time + o.step) + tail;
      SysExFirst(Timed(time, PageEvent(o, pages[0])), rest);
      assert events + tail == [Timed(time, PageEvent(o, pages[0]))] + rest;
    }
  }

  lemma {:induction false} SysExFirst(t: Timed, rest: seq<Timed>)
    requires t.event.SysEx? && Legible(t.event, None)
    requires AllLegible(rest, None) && Undistorted(rest, None)
    ensures AllLegible([t] + rest, None) && Undistorted([t] + rest, None)
  {
    hide Legible;
    assert ([t] + rest)[1..] == rest;
  }

  lemma {:induction false} PageLegible(o: Options, page: Bytes)
    requires IdsFit(o) && |o.manufacturer| == 3
    ensures Legible(PageEvent(o, page), None) && PageEvent(o, page).SysEx?
  {
    hide IdsFit, SevenBit, Nibblized;
    PageConstructible(o, page);
  }

  lemma {:induction false} ResetLegible(o: Options)
    requires Sendable(o) && |o.manufacturer| == 3
    ensures Legible(ResetEvent(o), None) && ResetEvent(o).SysEx?
  {
    hide SevenBit;
  }

  lemma {:induction false} TrackLegible(o: Options, data: Bytes)
    requires o.pageWords > 0 && Sendable(o) && |o.manufacturer| == 3
    ensures AllLegible(WithEnd(PageTrack(o, data)), None) && Undistorted(WithEnd(PageTrack(o, data)), None)
  {
    var tail := TrackEnd(o, data);
    hide Pages, PageEvents, Sendable, AllLegible, Undistorted, WithEnd, PageTrack;
    EndLegible(tail[0].time);
    var events := PageEvents(o, Pages(data, 2 * o.pageWords), 1);
    PagesLegible(o, Pages(data, 2 * o.pageWords), 1, tail);
    TempoLegible(events + tail);
    TrackShape(o, data, tail);
  }

  lemma {:induction false} TrackEnd(o: Options, data: Bytes) returns (tail: seq<Timed>)
    requires o.pageWords > 0
    ensures WithEnd(PageTrack(o, data)) == PageTrack(o, data) + tail
    ensures |tail| == 1 && tail == [Timed(tail[0].time, EndOfTrack)]
  {
    var t := PageTrack(o, data);
    LastIsReset(o, Pages(data, 2 * o.pageWords), 1);
    tail := [Timed(t[|t| - 1].time + 1, EndOfTrack)];
  }

  lemma {:induction false} EndLegible(time: nat)
    ensures AllLegible([Timed(time, EndOfTrack)], None) && Undistorted([Timed(time, EndOfTrack)], None)
  {
    assert [Timed(time, EndOfTrack)][1..] == [];
  }

  lemma {:induction false} TempoLegible(rest: seq<Timed>)
    requires AllLegible(rest, None) && Undistorted(rest, None)
    ensures var events := [Timed(0, Tempo(500000))] + rest;
      AllLegible(events, None) && Undistorted(events, None)
  {
    var events := [Timed(0, Tempo(500000))] + rest;
    assert events[1..] == rest;
  }

  /**
   * From firmware to file and back: any reader of the written file finds the pages in their
   * order, and the receiver the firmware with the least padding.
   */
  lemma {:induction false} FirmwareRoundTrip(o: Options, data: Bytes, written: seq<Timed>, previous: Byte)
    requires o.pageWords > 0 && o.step > 0 && Sendable(o) && |o.manufacturer| == 3
    requires PageOf(o, ResetEvent(o)).None?
    requires IsWritten(written, PageTrack(o, data)) && Writable(written, 0)
    requires |EncodeEvents(written, 0, None)| < 0x8000_0000
    ensures AllWritable([written]) && FileBytes(1, 96, [written]).Some?
    ensures DecodeFile(previous, FileBytes(1, 96, [written]).value) == Some(Song(1, 96, [written]))
    ensures Firmware(o, written) == data + Zeros(Padding(|data|, 2 * o.pageWords))
  {
    hide PageTrack, IsWritten, AllLegible, Undistorted, Firmware, Zeros, Padding, PageOf, Sendable;
    hide DecodeFile, FileBytes, EncodeEvents, Writable, WithEnd;
    TrackInOrder(o, data, written);
    TrackLegible(o, data);
    FirmwareArrives(o, data);
    ReadBackIff(written, None);
    FileRoundTrip(1, 96, [written], previous);
    OneReadBack(written);
  }

  lemma {:induction false} OneReadBack(written: seq<Timed>)
    ensures ReadBackAll([written]) == [ReadBack(written, None)]
  {
    hide ReadBack;
    var none: seq<seq<Timed>> := [];
    assert [written][1..] == none;
  }

  /** Hex text of the firmware, loaded again, gives the cells whose pages are sent. */
  lemma {:induction false} HexReachesPages(firmware: Bytes, chunkSize: nat, o: Options)
    requires 1 <= chunkSize <= 255 && |firmware| <= 0x1_0000
    ensures IntelHex.HexText(firmware, chunkSize).Some?
    ensures var loaded := IntelHex.Load([], HexRoundTrip.Lines(IntelHex.HexText(firmware, chunkSize).value));
      && loaded.Some? && Values(loaded.value) == firmware
      && (Complete(loaded.value, o) <==> firmware != [] && o.pageWords > 0 && Sendable(o))
  {
    hide IntelHex.Load, IntelHex.HexText, HexRoundTrip.Lines, Sendable;
    HexRoundTrip.FileRoundTrip(firmware, chunkSize);
    var cells := IntelHex.Numbers(firmware);
    assert Numeric(cells);
    assert Values(cells) == firmware;
  }

  // -------------------------------------------------------------- without a delay

  /** Page events that share the time 1. */
  function Sent(o: Options, pages: seq<Bytes>): (r: seq<Timed>)
    ensures |r| == |pages|
    ensures forall i :: 0 <= i < |r| ==> r[i] == Timed(1, PageEvent(o, pages[i]))
  {
    seq(|pages|, i requires 0 <= i < |pages| => Timed(1, PageEvent(o, pages[i])))
  }

  lemma {:induction false} SentEvents(o: Options, pages: seq<Bytes>)
    requires o.step == 0
    ensures PageEvents(o, pages, 1) == Sent(o, pages) + [Timed(1, ResetEvent(o))]
  {
    hide PageEvent, ResetEvent;
    if pages != [] {
      SentEvents(o, pages[1..]);
    }
  }

  /** The same pages in another order make the same events in another order. */
  lemma {:induction false} SentPermutes(o: Options, a: seq<Bytes>, b: seq<Bytes>)
    requires multiset(a) == multiset(b)
    ensures multiset(Sent(o, a)) == multiset(Sent(o, b))
  {
    if a == [] {
      assert |multiset(b)| == 0;
    } else {
      hide PageEvent, Sent;
      var k := PermutedRest(a, b);
      SentPermutes(o, a[1..], b[..k] + b[k + 1..]);
      SentAtPlace(o, a, 0);
      SentAtPlace(o, b, k);
      hide *;
      FromFirst(a);
    }
  }

  lemma {:induction false} FromFirst(a: seq<Bytes>)
    requires a != []
    ensures a[..0] + a[0 + 1..] == a[1..]
  {
  }

  lemma {:induction false} SentAtPlace(o: Options, a: seq<Bytes>, k: nat)
    requires k < |a|
    ensures multiset(Sent(o, a)) == multiset(Sent(o, a[..k] + a[k + 1..])) + multiset{Timed(1, PageEvent(o, a[k]))}
  {
    hide PageEvent;
    var s := Sent(o, a);
    assert s[..k] + s[k + 1..] == Sent(o, a[..k] + a[k + 1..]);
    WithoutPlace(s, k);
    assert s[k] in multiset(s);
  }

  /** Without a delay, every order of the pages is an admissible order of the track. */
  lemma {:induction false} AnyOrderWithoutDelay(o: Options, data: Bytes, pages: seq<Bytes>)
      returns (written: seq<Timed>)
    requires o.pageWords > 0 && o.step == 0 && Sendable(o) && PageOf(o, ResetEvent(o)).None?
    requires multiset(pages) == multiset(Pages(data, 2 * o.pageWords))
    ensures IsWritten(written, PageTrack(o, data)) && Firmware(o, written) == Flatten(pages)
  {
    SamePageSizes(o, data, pages);
    hide *;
    TrackInAnyOrder(o, data, pages);
    OrderArrives(o, pages);
    written := [Timed(0, Tempo(500000))] + PageEvents(o, pages, 1) + [Timed(2, EndOfTrack)];
  }

  lemma {:induction false} OrderArrives(o: Options, pages: seq<Bytes>)
    requires o.pageWords > 0 && PageOf(o, ResetEvent(o)).None?
    requires forall i :: 0 <= i < |pages| ==> |pages[i]| == 2 * o.pageWords
    ensures Firmware(o, [Timed(0, Tempo(500000))] + PageEvents(o, pages, 1) + [Timed(2, EndOfTrack)]) == Flatten(pages)
  {
    var first, end := Timed(0, Tempo(500000)), Timed(2, EndOfTrack);
    assert PageOf(o, first.event).None? && PageOf(o, end.event).None?;
    hide PageOf, Firmware, PageEvents, Flatten, ResetEvent;
    var events := PageEvents(o, pages, 1);
    assert [first] + events + [end] == [first] + (events + [end]);
    NotAPage(o, first, events + [end]);
    PagesArrive(o, pages, 1, [end]);
    NoFirmware(o, end);
  }

  lemma {:induction false} TrackInAnyOrder(o: Options, data: Bytes, pages: seq<Bytes>)
    requires o.pageWords > 0 && o.step == 0 && Sendable(o)
    requires multiset(pages) == multiset(Pages(data, 2 * o.pageWords))
    ensures IsWritten([Timed(0, Tempo(500000))] + PageEvents(o, pages, 1) + [Timed(2, EndOfTrack)], PageTrack(o, data))
  {
    hide PageEvent, ResetEvent, Pages, Sendable, Sent, PageEvents, IsWritten;
    var original := Pages(data, 2 * o.pageWords);
    SentEvents(o, pages);
    SentEvents(o, original);
    SentPermutes(o, pages, original);
    OrderIsOpen(o, pages, [Timed(0, Tempo(500000))] + PageEvents(o, pages, 1), PageTrack(o, data));
  }

  lemma {:induction false} NoFirmware(o: Options, end: Timed)
    requires PageOf(o, end.event).None?
    ensures Firmware(o, [end]) == []
  {
    hide PageOf;
    var none: seq<Timed> := [];
    assert [end][1..] == none;
  }

  lemma {:induction false} SamePageSizes(o: Options, data: Bytes, pages: seq<Bytes>)
    requires o.pageWords > 0 && multiset(pages) == multiset(Pages(data, 2 * o.pageWords))
    ensures forall i :: 0 <= i < |pages| ==> |pages[i]| == 2 * o.pageWords
  {
    PageSizes(data, 2 * o.pageWords);
    hide Pages;
    forall i | 0 <= i < |pages|
      ensures |pages[i]| == 2 * o.pageWords
    {
      assert pages[i] in multiset(Pages(data, 2 * o.pageWords));
    }
  }

  /** Events at time 1 between a tempo at 0 and a reset at 1, in an order of their own. */
  lemma {:induction false} OrderIsOpen(o: Options, pages: seq<Bytes>, order: seq<Timed>, events: seq<Timed>)
    requires Sendable(o)
    requires order == [Timed(0, Tempo(500000))] + (Sent(o, pages) + [Timed(1, ResetEvent(o))])
    requires multiset(order) == multiset(events)
    ensures IsWritten(order + [Timed(2, EndOfTrack)], events)
  {
    assert Constructible(Tempo(500000));
    EventsConstructible(o, []);
    forall i | 0 <= i < |order|
      ensures Constructible(order[i].event)
    {
      if 0 < i <= |pages| {
        EventsConstructible(o, pages[i - 1]);
      }
    }
    hide PageEvent, ResetEvent, Sendable, Constructible;
    assert Writable(order, 0);
    assert WithEnd(order) == order + [Timed(2, EndOfTrack)];
    EndIsWritable(order);
    assert IsOrderOf(order, events);
  }

  lemma {:induction false} EventsConstructible(o: Options, page: Bytes)
    requires Sendable(o)
    ensures Constructible(PageEvent(o, page)) && Constructible(ResetEvent(o)) && ResetEvent(o).SysEx?
  {
    hide SevenBit;
    PageConstructible(o, page);
  }

  /** Pages of one size are told apart by what they join to. */
  lemma {:induction false} FlattenDiffers(a: seq<Bytes>, b: seq<Bytes>, size: nat, i: nat)
    requires |a| == |b| && i < |a| && a[i] != b[i]
    requires forall k :: 0 <= k < |a| ==> |a[k]| == |b[k]| == size
    ensures Flatten(a) != Flatten(b)
  {
    assert Flatten(a)[..size] == a[0] && Flatten(b)[..size] == b[0];
    if a[0] == b[0] {
      FlattenDiffers(a[1..], b[1..], size, i - 1);
      assert Flatten(a)[size..] == Flatten(a[1..]) && Flatten(b)[size..] == Flatten(b[1..]);
    }
  }

  predicate AllEqual(pages: seq<Bytes>) {
    forall i, j :: 0 <= i < |pages| && 0 <= j < |pages| ==> pages[i] == pages[j]
  }

  /** Two pages that differ exchange their places, and the receiver gets something else. */
  lemma {:induction false} SwappedWithoutDelay(o: Options, data: Bytes, i: nat, j: nat) returns (written: seq<Timed>)
    requires o.pageWords > 0 && o.step == 0 && Sendable(o) && PageOf(o, ResetEvent(o)).None?
    requires i < j < |Pages(data, 2 * o.pageWords)|
    requires Pages(data, 2 * o.pageWords)[i] != Pages(data, 2 * o.pageWords)[j]
    ensures IsWritten(written, PageTrack(o, data))
    ensures Firmware(o, written) != data + Zeros(Padding(|data|, 2 * o.pageWords))
  {
    hide Firmware, Pages, PageTrack, Zeros, Padding, Flatten, PageOf, ResetEvent, Sendable, IsWritten;
    var pages := Pages(data, 2 * o.pageWords);
    var swapped := pages[i := pages[j]][j := pages[i]];
    SwapPermutes(pages, i, j);
    PagesRoundTrip(data, 2 * o.pageWords);
    PageSizes(data, 2 * o.pageWords);
    written := AnyOrderWithoutDelay(o, data, swapped);
    FlattenDiffers(swapped, pages, 2 * o.pageWords, i);
  }

  lemma {:induction false} SwapPermutes(s: seq<Bytes>, i: nat, j: nat)
    requires i < j < |s|
    ensures multiset(s[i := s[j]][j := s[i]]) == multiset(s)
  {
  }

  // ------------------------------------------------------------- pages all the same

  function Repeat(a: Bytes, n: nat): Bytes {
    if n == 0 then [] else a + Repeat(a, n - 1)
  }

  function Carries(o: Options): Timed -> nat {
    (t: Timed) => if PageOf(o, t.event).Some? then 1 else 0
  }

  /** No other page than this one is among the events. */
  ghost predicate OnlyPage(o: Options, events: seq<Timed>, a: Bytes) {
    forall t :: t in events && PageOf(o, t.event).Some? ==> PageOf(o, t.event) == Some(a)
  }

  lemma {:induction false} FirmwareRepeats(o: Options, events: seq<Timed>, a: Bytes)
    requires OnlyPage(o, events, a)
    ensures Firmware(o, events) == Repeat(a, SumOf(Carries(o), events))
  {
    hide PageOf;
    if events != [] {
      FirmwareRepeats(o, events[1..], a);
    }
  }

  lemma {:induction false} EventsOfPage(o: Options, pages: seq<Bytes>, time: nat, a: Bytes)
    requires o.pageWords > 0 && PageOf(o, ResetEvent(o)).None?
    requires forall i :: 0 <= i < |pages| ==> pages[i] == a && |a| == 2 * o.pageWords
    ensures OnlyPage(o, PageEvents(o, pages, time), a)
  {
    hide PageOf, PageEvent, ResetEvent;
    if pages != [] {
      PageArrives(o, pages[0]);
      EventsOfPage(o, pages[1..], time + o.step, a);
    }
  }

  lemma {:induction false} TrackOfPage(o: Options, data: Bytes, a: Bytes)
    requires o.pageWords > 0 && PageOf(o, ResetEvent(o)).None?
    requires AllEqual(Pages(data, 2 * o.pageWords))
    requires Pages(data, 2 * o.pageWords) != [] ==> a == Pages(data, 2 * o.pageWords)[0]
    ensures OnlyPage(o, PageTrack(o, data), a)
  {
    var first := Timed(0, Tempo(500000));
    assert PageOf(o, first.event).None?;
    PageSizes(data, 2 * o.pageWords);
    hide PageOf, Pages, PageEvents, ResetEvent;
    EventsOfPage(o, Pages(data, 2 * o.pageWords), 1, a);
  }

  lemma {:induction false} EndCarriesNothing(o: Options, order: seq<Timed>, a: Bytes)
    requires order != [] && OnlyPage(o, order, a)
    ensures OnlyPage(o, WithEnd(order), a)
    ensures SumOf(Carries(o), WithEnd(order)) == SumOf(Carries(o), order)
  {
    var end := Timed(order[|order| - 1].time + 1, EndOfTrack);
    assert PageOf(o, EndOfTrack).None?;
    hide PageOf;
    SumOfConcat(Carries(o), order, [end]);
    assert [end][1..] == [];
    assert SumOf(Carries(o), [end]) == 0;
  }

  /** Pages that are all the same arrive in every order. */
  lemma {:induction false} EqualPagesArrive(o: Options, data: Bytes, written: seq<Timed>)
    requires o.pageWords > 0 && PageOf(o, ResetEvent(o)).None?
    requires AllEqual(Pages(data, 2 * o.pageWords)) && IsWritten(written, PageTrack(o, data))
    ensures Firmware(o, written) == data + Zeros(Padding(|data|, 2 * o.pageWords))
  {
    hide Firmware, Pages, PageTrack, Zeros, Padding, PageOf, ResetEvent, Ordered, Writable, WithEnd, OnlyPage;
    var track := PageTrack(o, data);
    var pages := Pages(data, 2 * o.pageWords);
    var a := if pages == [] then [] else pages[0];
    var order :| IsOrderOf(order, track) && order != [] && written == WithEnd(order) && Writable(written, 0);
    TrackOfPage(o, data, a);
    OnlyPagePermutes(o, order, track, a);
    EndCarriesNothing(o, order, a);
    FirmwareRepeats(o, written, a);
    assert |multiset(track)| == |multiset(order)| > 0;
    EndCarriesNothing(o, track, a);
    FirmwareRepeats(o, WithEnd(track), a);
    SumOfPermutation(Carries(o), order, track);
    FirmwareArrives(o, data);
  }

  lemma {:induction false} OnlyPagePermutes(o: Options, s: seq<Timed>, t: seq<Timed>, a: Bytes)
    requires multiset(s) == multiset(t) && OnlyPage(o, t, a)
    ensures OnlyPage(o, s, a)
  {
    hide PageOf;
    forall e | e in s
      ensures e in t
    {
      assert e in multiset(s);
    }
  }

  /**
   * Exactly when the receiver gets the firmware whatever order the events of one time are
   * written in: there is a delay between the pages, or all pages are the same.
   */
  lemma {:induction false} PagesInOrderIff(o: Options, data: Bytes)
    requires o.pageWords > 0 && Sendable(o) && PageOf(o, ResetEvent(o)).None?
    ensures (forall written | IsWritten(written, PageTrack(o, data)) ::
        Firmware(o, written) == data + Zeros(Padding(|data|, 2 * o.pageWords)))
      <==> o.step > 0 || AllEqual(Pages(data, 2 * o.pageWords))
  {
    hide Firmware, Pages, PageTrack, Zeros, Padding, PageOf, ResetEvent, Sendable, IsWritten, WithEnd;
    if o.step > 0 || AllEqual(Pages(data, 2 * o.pageWords)) {
      forall written | IsWritten(written, PageTrack(o, data))
        ensures Firmware(o, written) == data + Zeros(Padding(|data|, 2 * o.pageWords))
      {
        if o.step > 0 {
          TrackInOrder(o, data, written);
          FirmwareArrives(o, data);
        } else {
          EqualPagesArrive(o, data, written);
        }
      }
    } else {
      var pages := Pages(data, 2 * o.pageWords);
      var i, j :| 0 <= i < |pages| && 0 <= j < |pages| && pages[i] != pages[j];
      var written := SwappedWithoutDelay(o, data, Min(i, j), if i < j then j else i);
    }
  }

  // ------------------------------------------------------------------- .syx files

  /** How many bytes up to and including the first 0xf7. */
  function MessageLength(s: Bytes): (n: nat)
    ensures n <= |s| && (s != [] ==> n > 0)
    decreases |s|
  {
    if s == [] then 0 else if s[0] == 0xf7 then 1 else 1 + MessageLength(s[1..])
  }

  /** A .syx file cut into messages after each 0xf7. */
  function Messages(s: Bytes): seq<Bytes>
    decreases |s|
  {
    if s == [] then [] else [s[..MessageLength(s)]] + Messages(s[MessageLength(s)..])
  }

  lemma {:induction false} MessageEnds(s: Bytes, rest: Bytes)
    requires SevenBit(s)
    ensures MessageLength(s + [0xf7] + rest) == |s| + 1
  {
    var t := s + [0xf7] + rest;
    if s != [] {
      assert SevenBit(s[1..]);
      MessageEnds(s[1..], rest);
      assert t[1..] == s[1..] + [0xf7] + rest;
    }
  }

  lemma {:induction false} RawLength(e: Event, rest: Bytes)
    requires e.SysEx? && Constructible(e)
    ensures MessageLength(Raw(e) + rest) == |Raw(e)|
  {
    var inner := e.manufacturer + e.device + e.data;
    assert SevenBit(inner) by {
      SevenBitAppend(e.manufacturer, e.device);
      SevenBitAppend(e.manufacturer + e.device, e.data);
    }
    hide SevenBit;
    MessageEnds(inner, rest);
    assert (Raw(e) + rest)[1..] == inner + [0xf7] + rest;
  }

  lemma {:induction false} FirstMessage(e: Event, rest: Bytes)
    requires e.SysEx? && Constructible(e)
    ensures Messages(Raw(e) + rest) == [Raw(e)] + Messages(rest)
  {
    hide Constructible, MessageLength;
    RawLength(e, rest);
    var s := Raw(e) + rest;
    assert s[..|Raw(e)|] == Raw(e) && s[|Raw(e)|..] == rest;
  }

  function RawPages(o: Options, pages: seq<Bytes>): seq<Bytes> {
    if pages == [] then [Raw(ResetEvent(o))] else [Raw(PageEvent(o, pages[0]))] + RawPages(o, pages[1..])
  }

  /** Cut after each 0xf7, a .syx file is one message a page, then the reset message. */
  lemma {:induction false} SyxRoundTrip(o: Options, pages: seq<Bytes>)
    requires Sendable(o)
    ensures Messages(Syx(o, pages)) == RawPages(o, pages)
  {
    hide Raw, Messages, SevenBit, Nibblized;
    if pages == [] {
      var none: Bytes := [];
      assert Raw(ResetEvent(o)) + none == Raw(ResetEvent(o));
      FirstMessage(ResetEvent(o), none);
      NoMessage();
    } else {
      SyxRoundTrip(o, pages[1..]);
      PageConstructible(o, pages[0]);
      FirstMessage(PageEvent(o, pages[0]), Syx(o, pages[1..]));
    }
  }

  lemma {:induction false} NoMessage()
    ensures Messages([]) == []
  {
  }
}
