/** tools/hex2sysex/hex2sysex.py: firmware cut into pages, each sent as nibbles in a SysEx event. */
module Hex2SysEx {
  import opened Words
  import IntelHex
  import opened MidiFormat
  import opened MidiRoundTrip
  import opened MidiFiles

  // --------------------------------------------------------------------- nibbles

  function Nibbles(s: Bytes): Bytes {
    if s == [] then [] else Nibbles(s[..|s| - 1]) + [s[|s| - 1] / 16, s[|s| - 1] % 16]
  }

  function Nibblized(s: Bytes, addChecksum: bool): Bytes {
    Nibbles(if addChecksum then s + [Sum(s) % 256] else s)
  }

  /** What the receiver makes of nibbles, two at a time. */
  function Joined(n: Bytes): Bytes {
    if |n| < 2 then [] else Joined(n[..|n| - 2]) + [Wrap8(n[|n| - 2] as int * 16 + n[|n| - 1] as int)]
  }

  method Nibblize(data: Bytes, addChecksum: bool) returns (output: Bytes)
    ensures output == Nibblized(data, addChecksum)
    ensures HalvesOf(output, if addChecksum then data + [Sum(data) % 256] else data)
  {
    var all := data;
    if addChecksum {
      var total := AddUp(data);
      all := data + [total % 256];
    }
    HalvesOfNibbles(all);
    hide HalvesOf, Sum;
    output := [];
    for i := 0 to |all|
      invariant output == Nibbles(all[..i])
    {
      assert all[..i + 1][..i] == all[..i];
      output := output + [all[i] / 16];
      output := output + [all[i] % 16];
    }
    assert all[..|all|] == all;
  }

  method AddUp(data: Bytes) returns (total: nat)
    ensures total == Sum(data)
  {
    hide Sum;
    NothingToSum(data);
    total := 0;
    for i := 0 to |data|
      invariant total + Sum(data[i..]) == Sum(data)
    {
      SumStep(data, i);
      total := total + data[i];
    }
  }

  /** The upper half of each byte and then its lower half, in the order of the bytes. */
  ghost predicate HalvesOf(n: Bytes, s: Bytes) {
    |n| == 2 * |s| && forall i :: 0 <= i < |s| ==> n[2 * i] == s[i] / 16 && n[2 * i + 1] == s[i] % 16
  }

  lemma {:induction false} HalvesOfNibbles(s: Bytes)
    ensures HalvesOf(Nibbles(s), s)
  {
    if s != [] {
      HalvesOfNibbles(s[..|s| - 1]);
    }
  }

  lemma {:induction false} NothingToSum(s: Bytes)
    ensures s[0..] == s && Sum(s[|s|..]) == 0
  {
  }

  lemma {:induction false} SumStep(s: Bytes, i: nat)
    requires i < |s|
    ensures Sum(s[i..]) == s[i] as int + Sum(s[i + 1..])
  {
    assert s[i..][1..] == s[i + 1..];
  }

  lemma {:induction false} JoinTwo(n: Bytes, b: Byte)
    ensures Joined(n + [b / 16, b % 16]) == Joined(n) + [b]
  {
    var t := n + [b / 16, b % 16];
    assert t[..|t| - 2] == n;
    assert t[|t| - 2] == b / 16 && t[|t| - 1] == b % 16;
  }

  /** Nibbles are joined to the bytes they came from, and all are far below 128. */
  lemma {:induction false} NibblesRoundTrip(s: Bytes)
    ensures Joined(Nibbles(s)) == s
    ensures |Nibbles(s)| == 2 * |s|
    ensures forall i :: 0 <= i < |Nibbles(s)| ==> Nibbles(s)[i] < 16
  {
    hide Joined;
    if s == [] {
      NothingJoined();
    } else {
      NibblesRoundTrip(s[..|s| - 1]);
      JoinTwo(Nibbles(s[..|s| - 1]), s[|s| - 1]);
    }
  }

  lemma {:induction false} NothingJoined()
    ensures Joined([]) == []
  {
  }

  // ----------------------------------------------------------------------- pages

  function Zeros(n: nat): (s: Bytes)
    ensures |s| == n
  {
    seq(n, _ => 0)
  }

  /** The first page of data that is not empty, filled up with zeros. */
  function FirstPage(data: Bytes, size: nat): (page: Bytes)
    requires size > 0
    ensures |page| == size
  {
    data[..Min(size, |data|)] + Zeros(size - Min(size, |data|))
  }

  function Pages(data: Bytes, size: nat): seq<Bytes>
    requires size > 0
  {
    if data == [] then [] else [FirstPage(data, size)] + Pages(data[Min(size, |data|)..], size)
  }

  /** How many zeros it takes to reach a multiple of the page size. */
  function Padding(n: nat, size: nat): (k: nat)
    requires size > 0
    ensures k < size
    decreases n
  {
    if n == 0 then 0 else if n <= size then size - n else Padding(n - size, size)
  }

  lemma {:induction false} PaddingFills(n: nat, size: nat) returns (count: nat)
    requires size > 0
    ensures n + Padding(n, size) == count * size
    decreases n
  {
    if n == 0 {
      count := 0;
    } else if n <= size {
      count := 1;
    } else {
      count := PaddingFills(n - size, size);
      assert (count + 1) * size == count * size + size;
      count := count + 1;
    }
  }

  lemma {:induction false} PageSizes(data: Bytes, size: nat)
    requires size > 0
    ensures forall i :: 0 <= i < |Pages(data, size)| ==> |Pages(data, size)[i]| == size
    decreases |data|
  {
    hide FirstPage;
    if data != [] {
      PageSizes(data[Min(size, |data|)..], size);
    }
  }

  lemma {:induction false} FlattenOne(page: Bytes, rest: seq<Bytes>)
    ensures Flatten([page] + rest) == page + Flatten(rest)
    ensures Flatten([page]) == page
  {
    var none: seq<Bytes> := [];
    assert ([page] + rest)[1..] == rest;
    assert [page][1..] == none;
  }

  /** The pages laid end to end are the data and the least padding to a multiple of the page size. */
  lemma {:induction false} PagesRoundTrip(data: Bytes, size: nat)
    requires size > 0
    ensures Flatten(Pages(data, size)) == data + Zeros(Padding(|data|, size))
    decreases |data|
  {
    hide Flatten, Zeros;
    if data == [] {
      assert Zeros(0) == [];
      NoPages();
    } else if |data| <= size {
      LastPage(data, size);
    } else {
      PagesRoundTrip(data[size..], size);
      FullPage(data, size);
      var z := Zeros(Padding(|data|, size));
      assert data[..size] + (data[size..] + z) == data + z;
    }
  }

  lemma {:induction false} NoPages()
    ensures Flatten<Byte>([]) == []
  {
  }

  lemma {:induction false} LastPage(data: Bytes, size: nat)
    requires 0 < |data| <= size
    ensures Flatten(Pages(data, size)) == data + Zeros(size - |data|)
  {
    var none: Bytes := [];
    var page := data + Zeros(size - |data|);
    assert data[..|data|] == data && data[|data|..] == none;
    assert Pages(data, size) == [page];
    FlattenOne(page, []);
  }

  lemma {:induction false} FullPage(data: Bytes, size: nat)
    requires 0 < size < |data|
    ensures Flatten(Pages(data, size)) == data[..size] + Flatten(Pages(data[size..], size))
  {
    hide Flatten;
    assert data[..size] + Zeros(0) == data[..size];
    FlattenOne(data[..size], Pages(data[size..], size));
  }

  // --------------------------------------------------------------------- messages

  /** What the command line chooses; the step is the delay between pages in ticks. */
  datatype Options = Options(
    pageWords: int, step: nat, manufacturer: Bytes, device: U16, update: Bytes, reset: Bytes, syx: bool)

  predicate Numeric(cells: seq<IntelHex.Cell>) {
    forall i :: 0 <= i < |cells| ==> cells[i].Num?
  }

  /** The bytes of numeric cells. */
  function Values(cells: seq<IntelHex.Cell>): (s: Bytes)
    ensures |s| == |cells|
  {
    seq(|cells|, i requires 0 <= i < |cells| => if cells[i].Num? then cells[i].value else 0)
  }

  function PageEvent(o: Options, page: Bytes): Event {
    SysEx(o.manufacturer, Pack16(o.device), o.update + Nibblized(page, true))
  }

  function ResetEvent(o: Options): Event {
    SysEx(o.manufacturer, Pack16(o.device), o.reset)
  }

  function Raw(e: Event): Bytes
    requires e.SysEx?
  {
    [0xf0] + SysExBody(e)
  }

  /** The message of a page, byte by byte: ids, command, the halves of page and sum, and the end. */
  lemma {:induction false} PageMessage(o: Options, page: Bytes, halves: Bytes)
    requires HalvesOf(halves, page + [Sum(page) % 256])
    ensures Raw(PageEvent(o, page))
      == [0xf0] + o.manufacturer + [o.device / 256, o.device % 256] + o.update + halves + [0xf7]
  {
    SameHalves(page + [Sum(page) % 256], halves);
    hide Nibbles, HalvesOf;
  }

  lemma {:induction false} SameHalves(s: Bytes, halves: Bytes)
    requires HalvesOf(halves, s)
    ensures halves == Nibbles(s)
  {
    HalvesOfNibbles(s);
    var n := Nibbles(s);
    hide Nibbles;
    forall i | 0 <= i < |n|
      ensures n[i] == halves[i]
    {
      var k := i / 2;
      assert n[2 * k] == s[k] / 16 == halves[2 * k] && n[2 * k + 1] == s[k] % 16 == halves[2 * k + 1];
      assert i == 2 * k || i == 2 * k + 1;
    }
  }

  function PageEvents(o: Options, pages: seq<Bytes>, time: nat): (r: seq<Timed>)
    ensures |r| == |pages| + 1
  {
    if pages == [] then
      [Timed(time, ResetEvent(o))]
    else
      [Timed(time, PageEvent(o, pages[0]))] + PageEvents(o, pages[1..], time + o.step)
  }

  function PageTrack(o: Options, data: Bytes): seq<Timed>
    requires o.pageWords > 0
  {
    [Timed(0, Tempo(500000))] + PageEvents(o, Pages(data, 2 * o.pageWords), 1)
  }

  /** The tempo at the start, the pages from tick 1 on, a step apart, and the reset message a step after the last. */
  ghost predicate Scheduled(events: seq<Timed>, o: Options, pages: seq<Bytes>) {
    && |events| == |pages| + 2 && events[0] == Timed(0, Tempo(500000))
    && forall k :: 0 <= k <= |pages| ==>
      events[k + 1] == Timed(1 + Span(k, o.step), if k < |pages| then PageEvent(o, pages[k]) else ResetEvent(o))
  }

  lemma {:induction false} PagesScheduled(o: Options, data: Bytes)
    requires o.pageWords > 0
    ensures Scheduled(PageTrack(o, data), o, Pages(data, 2 * o.pageWords))
  {
    hide PageEvent, ResetEvent, Pages, Span;
    var pages := Pages(data, 2 * o.pageWords);
    forall k | 0 <= k <= |pages|
      ensures PageTrack(o, data)[k + 1]
        == Timed(1 + Span(k, o.step), if k < |pages| then PageEvent(o, pages[k]) else ResetEvent(o))
    {
      PageTimes(o, pages, 1, k);
    }
  }

  lemma {:induction false} PageTimes(o: Options, pages: seq<Bytes>, time: nat, k: nat)
    requires k <= |pages|
    ensures PageEvents(o, pages, time)[k].time == time + Span(k, o.step)
    ensures PageEvents(o, pages, time)[k].event == if k < |pages| then PageEvent(o, pages[k]) else ResetEvent(o)
  {
    hide PageEvent, ResetEvent;
    if k > 0 {
      PageTimes(o, pages[1..], time + o.step, k - 1);
      assert Span(k, o.step) == Span(k - 1, o.step) + o.step;
    }
  }

  function Syx(o: Options, pages: seq<Bytes>): Bytes {
    if pages == [] then Raw(ResetEvent(o)) else Raw(PageEvent(o, pages[0])) + Syx(o, pages[1..])
  }

  /** When every SysEx event of the file can be built. */
  predicate Sendable(o: Options) {
    IdsFit(o) && SevenBit(o.reset)
  }

  predicate IdsFit(o: Options) {
    SevenBit(o.manufacturer) && SevenBit(Pack16(o.device)) && SevenBit(o.update)
  }

  lemma {:induction false} SevenBitAppend(a: Bytes, b: Bytes)
    ensures SevenBit(a + b) <==> SevenBit(a) && SevenBit(b)
  {
    if SevenBit(a + b) {
      assert forall i :: 0 <= i < |a| ==> a[i] == (a + b)[i];
      assert forall i :: 0 <= i < |b| ==> b[i] == (a + b)[|a| + i];
    }
  }

  lemma {:induction false} NibblizedIsSevenBit(page: Bytes)
    ensures SevenBit(Nibblized(page, true))
  {
    hide Nibbles, Sum;
    NibblesRoundTrip(page + [Sum(page) % 256]);
  }

  lemma {:induction false} PageConstructible(o: Options, page: Bytes)
    ensures Constructible(PageEvent(o, page)) <==> IdsFit(o)
  {
    hide SevenBit, Nibblized, Pack16;
    NibblizedIsSevenBit(page);
    SevenBitAppend(o.update, Nibblized(page, true));
  }

  /** One turn of the paging loop, as the events, the bytes and the cells still to come see it. */
  lemma {:induction false} OnePage(o: Options, data: Bytes, i: nat, size: nat, time: nat)
    requires i < |data| && 0 < size
    ensures var j := Min(i + size, |data|);
      var page := data[i..j] + Zeros(size - (j - i));
      && Pages(data[i..], size) == [page] + Pages(data[j..], size)
      && PageEvents(o, Pages(data[i..], size), time)
         == [Timed(time, PageEvent(o, page))] + PageEvents(o, Pages(data[j..], size), time + o.step)
      && Syx(o, Pages(data[i..], size)) == Raw(PageEvent(o, page)) + Syx(o, Pages(data[j..], size))
  {
    hide PageEvent, Raw, Zeros;
    var j := Min(i + size, |data|);
    var page := data[i..j] + Zeros(size - (j - i));
    assert data[i..][..Min(size, |data| - i)] == data[i..j];
    assert data[i..][Min(size, |data| - i)..] == data[j..];
    var pages := Pages(data[i..], size);
    assert pages == [page] + Pages(data[j..], size);
    assert pages[1..] == Pages(data[j..], size);
  }

  /** What CreateMidifile needs: without cells, or with pages of no size, it raises, as chr does for a gap. */
  predicate Complete(data: seq<IntelHex.Cell>, o: Options) {
    data != [] && o.pageWords > 0 && Numeric(data) && Sendable(o)
  }

  /** One page, filled up with zeros, as an event of the track; not ok where the original raises. */
  method AddPage(t: Track, block: seq<IntelHex.Cell>, o: Options, size: nat, time: nat) returns (ok: bool, raw: Bytes)
    requires t.Valid() && |block| <= size
    modifies t
    ensures t.Valid() && (ok <==> Numeric(block) && IdsFit(o))
    ensures ok ==>
      var event := PageEvent(o, Values(block) + Zeros(size - |block|));
      raw == Raw(event) && t.events == old(t.events) + [Timed(time, event)]
  {
    raw := [];
    hide Constructible, SevenBit, Nibblized, Pack16, Raw;
    if !Numeric(block) {
      return false, raw;
    }
    var page := Values(block) + Zeros(size - |block|);
    var nibbles := Nibblize(page, true);
    var event := SysEx(o.manufacturer, Pack16(o.device), o.update + nibbles);
    PageConstructible(o, page);
    if !Constructible(event) {
      return false, raw;
    }
    t.AddEvent(time, event);
    raw := Raw(event);
    ok := true;
  }

  lemma {:induction false} ValuesOf(data: seq<IntelHex.Cell>, i: nat, j: nat)
    requires i <= j <= |data|
    ensures Values(data[i..j]) == Values(data)[i..j]
    ensures Numeric(data[..j]) <==> Numeric(data[..i]) && Numeric(data[i..j])
    ensures Numeric(data) ==> Numeric(data[i..j])
    ensures Numeric(data[..0])
  {
    forall k | 0 <= k < j - i
      ensures Values(data[i..j])[k] == Values(data)[i..j][k]
    {
      assert data[i..j][k] == data[i + k];
    }
    NumericUpTo(data, i, j);
    if Numeric(data) {
      forall k | 0 <= k < j - i
        ensures data[i..j][k].Num?
      {
        assert data[i..j][k] == data[i + k];
      }
    }
  }

  lemma {:induction false} NumericUpTo(data: seq<IntelHex.Cell>, i: nat, j: nat)
    requires i <= j <= |data|
    ensures Numeric(data[..j]) <==> Numeric(data[..i]) && Numeric(data[i..j])
  {
    if Numeric(data[..i]) && Numeric(data[i..j]) {
      forall k | 0 <= k < j
        ensures data[..j][k].Num?
      {
        assert data[..j][k] == if k < i then data[..i][k] else data[i..j][k - i];
      }
    }
    if Numeric(data[..j]) {
      forall k | 0 <= k < i
        ensures data[..i][k].Num?
      {
        assert data[..i][k] == data[..j][k];
      }
      forall k | 0 <= k < j - i
        ensures data[i..j][k].Num?
      {
        assert data[i..j][k] == data[..j][i + k];
      }
    }
  }

  lemma {:induction false} NoMorePages(o: Options, size: nat, time: nat)
    requires size > 0
    ensures PageEvents(o, Pages([], size), time) == [Timed(time, ResetEvent(o))]
    ensures Syx(o, Pages([], size)) == Raw(ResetEvent(o))
  {
  }

  /** The event of one page goes from what is to come to what is there. */
  lemma {:induction false} PageTurned(
      o: Options, data: Bytes, i: nat, size: nat, time: nat, events: seq<Timed>, syx: Bytes)
    requires i < |data| && 0 < size
    ensures var j := Min(i + size, |data|);
      var event := PageEvent(o, data[i..j] + Zeros(size - (j - i)));
      && events + PageEvents(o, Pages(data[i..], size), time)
         == events + [Timed(time, event)] + PageEvents(o, Pages(data[j..], size), time + o.step)
      && syx + Syx(o, Pages(data[i..], size)) == syx + Raw(event) + Syx(o, Pages(data[j..], size))
  {
    hide PageEvent, Raw, Zeros, Pages, Syx, PageEvents;
    OnePage(o, data, i, size, time);
  }

  /** All pages, in order; time ends where the reset event belongs. */
  method AddPages(t: Track, data: seq<IntelHex.Cell>, o: Options, size: nat) returns (ok: bool, syx: Bytes, time: nat)
    requires t.Valid() && data != [] && size > 0
    modifies t
    ensures t.Valid() && (ok <==> Numeric(data) && IdsFit(o))
    ensures ok ==>
      t.events + [Timed(time, ResetEvent(o))] == old(t.events) + PageEvents(o, Pages(Values(data), size), 1)
    ensures ok ==> syx + Raw(ResetEvent(o)) == Syx(o, Pages(Values(data), size))
  {
    hide Pages, PageEvents, Syx, PageEvent, ResetEvent, Raw, Numeric, IdsFit, Values, Zeros;
    hide AllConstructible, Constructible;
    syx := [];
    time := 1;
    var i: nat := 0;
    ghost var v := Values(data);
    ghost var all, raw := old(t.events) + PageEvents(o, Pages(v, size), 1), Syx(o, Pages(v, size));
    ValuesOf(data, 0, 0);
    assert v[0..] == v;
    while i < |data|
      invariant i <= |data| && t.Valid() && Numeric(data[..i])
      invariant t.events + PageEvents(o, Pages(v[i..], size), time) == all
      invariant syx + Syx(o, Pages(v[i..], size)) == raw
      invariant i > 0 ==> IdsFit(o)
    {
      PageTurned(o, v, i, size, time, t.events, syx);
      var j := Min(i + size, |data|);
      ValuesOf(data, i, j);
      var more;
      ok, more := AddPage(t, data[i..j], o, size, time);
      if !ok {
        return;
      }
      syx := syx + more;
      time := time + o.step;
      i := j;
    }
    assert data[..i] == data && v[i..] == [];
    NoMorePages(o, size, time);
    ok := true;
  }

  /** The events of the track and the bytes of a .syx file; not ok where the original raises. */
  method CollectPages(t: Track, data: seq<IntelHex.Cell>, o: Options) returns (ok: bool, syx: Bytes)
    requires t.Valid() && t.events == []
    modifies t
    ensures t.Valid() && (ok <==> Complete(data, o))
    ensures ok ==> t.events == PageTrack(o, Values(data))
    ensures ok ==> Scheduled(t.events, o, Pages(Values(data), 2 * o.pageWords))
    ensures ok ==> syx == Syx(o, Pages(Values(data), 2 * o.pageWords))
  {
    if data == [] || o.pageWords <= 0 {
      return false, [];
    }
    PagesScheduled(o, Values(data));
    hide Pages, PageEvents, Syx, Numeric, IdsFit, Values, Raw, Scheduled;
    t.AddEvent(0, Tempo(500000));
    var time;
    ok, syx, time := AddPages(t, data, o, 2 * o.pageWords);
    if ok {
      ok := AddReset(t, o, time);
      syx := syx + Raw(ResetEvent(o));
    }
  }

  /** Nothing is written where the original raises before it opens the file. */
  method CreateMidifile(data: seq<IntelHex.Cell>, o: Options, f: ByteFile) returns (ok: bool, ghost written: seq<Timed>)
    modifies f
    ensures !Complete(data, o) ==> !ok && f.data == old(f.data)
    ensures Complete(data, o) && o.syx ==>
      ok && f.data == old(f.data) + Syx(o, Pages(Values(data), 2 * o.pageWords))
    ensures Complete(data, o) && !o.syx && !ok ==> CanBeTooLong(PageTrack(o, Values(data)))
    ensures ok && !o.syx ==>
      && IsWritten(written, PageTrack(o, Values(data)))
      && AllWritable([written]) && FileBytes(1, 96, [written]).Some?
      && f.data == old(f.data) + FileBytes(1, 96, [written]).value
  {
    hide Pages, PageEvents, Syx, Complete, Values, Chunks, Header, IsWritten, AllWritable, FileBytes;
    hide TooLong;
    var m := new Writer(96);
    var t := m.AddTrack();
    var syx;
    ok, syx := CollectPages(t, data, o);
    written := [];
    if ok {
      if o.syx {
        f.Write(syx);
      } else {
        ghost var all;
        ok, all := m.Write(f, 1);
        if ok {
          written := all[0];
          assert all == [written];
        }
      }
    }
  }

  method AddReset(t: Track, o: Options, time: nat) returns (ok: bool)
    requires t.Valid() && IdsFit(o)
    modifies t
    ensures t.Valid() && (ok <==> Sendable(o))
    ensures ok ==> t.events == old(t.events) + [Timed(time, ResetEvent(o))]
  {
    hide SevenBit;
    ok := Constructible(ResetEvent(o));
    if ok {
      t.AddEvent(time, ResetEvent(o));
    }
  }
}
