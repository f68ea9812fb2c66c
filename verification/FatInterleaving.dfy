/**
 * Safe mode: several handles share one sector buffer, on a medium that may fail at any read
 * as long as it leaves the buffer alone. An operation during which no read failed is a
 * function of its own handle and the disk; one during which a read failed has one of a few
 * outcomes, again of its own handle and the disk. Any interleaving then shows every handle
 * a run that it could have had by itself.
 */
module FatInterleaving {
  import opened Words
  import opened FatFormat
  import opened MediaAccess
  import opened FatFileReader

  /** A handle as its user sees it. */
  datatype View = View(kind: HandleType, stream: Stream, position: nat, entry: DirectoryEntry)

  ghost function ViewOf(h: FsHandle): View
    reads h`kind, h`cursor, h`stream, h`fetched, h`entry
  {
    View(h.kind, h.stream, h.Position(), h.entry)
  }

  datatype Op = DoRead(size: U16) | DoNext | DoOpen | DoOpenRoot | DoOpenName(name: seq<Byte>)

  /** The bytes that a count makes the caller take from the buffer, or a status. */
  datatype Reply = Bytes(data: seq<Byte>) | Answer(status: Status)

  /** The user's obligation: every call must be able to end. */
  predicate Legal(l: Layout, disk: Disk, bound: nat, v: View, op: Op)
    requires l.clusterSize > 0
  {
    && (op.DoNext? && v.kind.DirHandle? ==> v.position <= bound && !PassesOver(l, disk, v.stream, bound))
    && (op.DoOpen? ==> |v.entry.name| == 11)
    && (op.DoOpenName? ==> ScanEndsAt(l, disk, RootStream(l), bound, op.name))
  }

  // ------------------------------------------------------------ a handle by itself

  /** What an operation does when nothing fails. */
  function Step(l: Layout, disk: Disk, bound: nat, v: View, op: Op): (View, Reply)
    requires l.clusterSize > 0
  {
    match op
    case DoRead(size) => StepRead(l, disk, v, size)
    case DoNext => StepNext(l, disk, bound, v)
    case DoOpen => StepOpen(l, v)
    case DoOpenRoot => (RootView(l, disk, 0), Answer(Ok))
    case DoOpenName(name) => StepOpenName(l, disk, bound, name)
  }

  function StepRead(l: Layout, disk: Disk, v: View, size: U16): (View, Reply)
    requires l.clusterSize > 0
  {
    if v.kind.DirHandle? then (v, Bytes([]))
    else Consumed(l, disk, v, Deliverable(l, disk, v.stream, v.position, Min(size, v.entry.fileSize)))
  }

  /** A file handle after n bytes were read, and those bytes. */
  function Consumed(l: Layout, disk: Disk, v: View, n: nat): (View, Reply)
    requires l.clusterSize > 0
  {
    (v.(position := v.position + n, entry := v.entry.(fileSize := Wrap32(v.entry.fileSize - n))),
     Bytes(StreamBytes(l, disk, v.stream, v.position, n)))
  }

  function StepNext(l: Layout, disk: Disk, bound: nat, v: View): (View, Reply)
    requires l.clusterSize > 0
  {
    if v.kind.FileHandle? || v.position > bound then (v, Answer(ErrorNoMoreFiles))
    else
      var stop := FirstStop(l, disk, v.stream, v.position, bound);
      if !DirReaches(l, disk, v.stream, stop) then (MovedTo(l, disk, v, stop), Answer(ErrorRead))
      else
        var e := DirEntry(l, disk, v.stream, stop);
        (v.(position := stop + 1, entry := e), Answer(if Judge(e).Terminator? then ErrorNoMoreFiles else Ok))
  }

  /** A directory handle after passing over the entries before index k. */
  function MovedTo(l: Layout, disk: Disk, v: View, k: nat): View
    requires l.clusterSize > 0 && v.position <= k
  {
    v.(position := k, entry := LastSeen(l, disk, v.stream, v.position, k, v.entry))
  }

  function StepOpen(l: Layout, v: View): (View, Reply) {
    if && v.kind.DirHandle? && |v.entry.name| > 0 && v.entry.name[0] != 0 && v.entry.name[0] != 0xe5
       && IsFile(v.entry) && ValidCluster(l, EntryCluster(v.entry))
    then (View(FileHandle, Chained(EntryCluster(v.entry)), 0, v.entry), Answer(Ok))
    else (v, Answer(ErrorBadFile))
  }

  /** A handle on the root directory that has moved to index k. */
  function RootView(l: Layout, disk: Disk, k: nat): View
    requires l.clusterSize > 0
  {
    View(DirHandle, RootStream(l), k, LastSeen(l, disk, RootStream(l), 0, k, BlankEntry()))
  }

  function StepOpenName(l: Layout, disk: Disk, bound: nat, name: seq<Byte>): (View, Reply)
    requires l.clusterSize > 0
  {
    var stop := FindStop(l, disk, RootStream(l), 0, bound, name);
    if !DirReaches(l, disk, RootStream(l), stop) then (RootView(l, disk, stop), Answer(ErrorFileNotFound))
    else if EndsAt(l, disk, RootStream(l), stop) then (RootView(l, disk, stop + 1), Answer(ErrorFileNotFound))
    else StepOpen(l, RootView(l, disk, stop + 1))
  }

  /** What else an operation may do when a read fails. */
  ghost predicate Faulted(l: Layout, disk: Disk, bound: nat, v: View, op: Op, after: View, reply: Reply)
    requires l.clusterSize > 0
  {
    match op
    case DoRead(size) =>
      v.kind.FileHandle? && reply.Bytes? && (CutShort(l, disk, v, size, after, reply) ||
        (after == v && |reply.data| == Min(2, size)))
    case DoNext =>
      && v.kind.DirHandle? && v.position <= after.position && v.position <= bound
      && after.position <= FirstStop(l, disk, v.stream, v.position, bound)
      && after == MovedTo(l, disk, v, after.position) && reply == Answer(ErrorRead)
    case DoOpenName(name) =>
      && after.position <= FindStop(l, disk, RootStream(l), 0, bound, name) + 1
      && after == RootView(l, disk, after.position) && reply == Answer(ErrorFileNotFound)
    case _ => false
  }

  /** Some of the bytes, correct and in order. */
  ghost predicate CutShort(l: Layout, disk: Disk, v: View, size: U16, after: View, reply: Reply)
    requires l.clusterSize > 0 && reply.Bytes?
  {
    && |reply.data| <= Deliverable(l, disk, v.stream, v.position, Min(size, v.entry.fileSize))
    && (after, reply) == Consumed(l, disk, v, |reply.data|)
  }

  /** The outcomes of an operation; `failed` tells whether a read failed during it. */
  ghost predicate Allowed(
      l: Layout, disk: Disk, bound: nat, v: View, op: Op, after: View, reply: Reply, failed: bool)
    requires l.clusterSize > 0
  {
    (after, reply) == Step(l, disk, bound, v, op) || (failed && Faulted(l, disk, bound, v, op, after, reply))
  }

  // ------------------------------------------------------ the driver does the same

  ghost predicate Serves(r: Reader, h: FsHandle)
    reads r, r.sector
    reads h`kind, h`cursor, h`stream, h`link, h`fetched, h`cluster, h`clusterPosition, h`sector, h`currentSector
  {
    r.safe && r.Mounted() && h.Seated(r.Layout(), r.media.disk)
  }

  method ApplyRead(r: Reader, h: FsHandle, size: U16) returns (reply: Reply)
    requires Serves(r, h)
    modifies r`fetchedSector, r.sector, r.media, h
    ensures Serves(r, h) && r.media.FaultsSince(old(r.media.faults))
    ensures Allowed(r.Layout(), r.media.disk, 0, old(ViewOf(h)), DoRead(size), ViewOf(h), reply,
                    r.media.faults > old(r.media.faults))
  {
    hide FsHandle.Positioned, FsHandle.Mid, FsHandle.Position, StreamBytes, Deliverable, WellFormed, Covered;
    hide Media.Reliable, Reader.CannotSync, StreamSector, Allowed;
    ghost var l, disk, v, before := r.Layout(), r.media.disk, ViewOf(h), r.media.faults;
    var buffer := new Byte[size](_ => 0);
    var count := r.Read(h, size, buffer);
    reply := Bytes(buffer[..Min(count, size)]);
    if v.kind.DirHandle? {
      assert buffer[..0] == [];
      NothingRead(l, disk, v, size, r.media.faults > before);
    } else {
      var n := h.Position() - v.position;
      FileRead(l, disk, v, size, ViewOf(h), reply.data, n, count as int != n, r.media.faults > before);
    }
  }

  lemma {:induction false} NothingRead(l: Layout, disk: Disk, v: View, size: U16, failed: bool)
    requires l.clusterSize > 0 && v.kind.DirHandle?
    ensures Allowed(l, disk, 0, v, DoRead(size), v, Bytes([]), failed)
  {
  }

  /** What a call of Read on a file may do, from the bytes consumed and whether the count is an error code. */
  lemma {:induction false} FileRead(
      l: Layout, disk: Disk, v: View, size: U16, after: View, data: seq<Byte>, n: nat, spurious: bool, failed: bool)
    requires l.clusterSize > 0 && v.kind.FileHandle? && n <= v.entry.fileSize
    requires var all := Deliverable(l, disk, v.stream, v.position, Min(size, v.entry.fileSize));
      n <= all && (!failed ==> n == all && !spurious)
    requires after == v.(position := v.position + n, entry := v.entry.(fileSize := v.entry.fileSize - n))
    requires !spurious ==> data == StreamBytes(l, disk, v.stream, v.position, n)
    requires spurious ==> n == 0 && |data| == Min(2, size)
    ensures Allowed(l, disk, 0, v, DoRead(size), after, Bytes(data), failed)
  {
    hide StreamBytes, Deliverable;
  }

  method ApplyNext(r: Reader, h: FsHandle, ghost bound: nat) returns (reply: Reply)
    requires Serves(r, h) && Legal(r.Layout(), r.media.disk, bound, ViewOf(h), DoNext)
    modifies r`fetchedSector, r.sector, r.media, h
    ensures Serves(r, h) && r.media.FaultsSince(old(r.media.faults))
    ensures Allowed(r.Layout(), r.media.disk, bound, old(ViewOf(h)), DoNext, ViewOf(h), reply,
                    r.media.faults > old(r.media.faults))
  {
    hide FsHandle.Positioned, FsHandle.Mid, FsHandle.Position, FirstStop, DirReaches, DirEntry, Judge, WellFormed;
    hide Media.Reliable, Stopped, Spells;
    var status := r.Next(h, bound);
    reply := Answer(status);
  }

  method ApplyOpen(r: Reader, h: FsHandle) returns (reply: Reply)
    requires Serves(r, h) && |h.entry.name| == 11
    modifies h
    ensures Serves(r, h)
    ensures (ViewOf(h), reply) == StepOpen(r.Layout(), old(ViewOf(h)))
  {
    hide FsHandle.Positioned, FsHandle.Mid, FsHandle.Position, IsFile, WellFormed;
    var status := r.OpenEntry(h);
    reply := Answer(status);
  }

  method ApplyOpenRoot(r: Reader, h: FsHandle) returns (reply: Reply)
    requires Serves(r, h)
    modifies h
    ensures Serves(r, h)
    ensures (ViewOf(h), reply) == (RootView(r.Layout(), r.media.disk, 0), Answer(Ok))
  {
    hide FsHandle.Positioned, FsHandle.Mid, FsHandle.Position, WellFormed;
    var status := r.OpenRootDir(h);
    reply := Answer(status);
  }

  method ApplyOpenName(r: Reader, h: FsHandle, name: seq<Byte>, ghost bound: nat) returns (reply: Reply)
    requires Serves(r, h) && Legal(r.Layout(), r.media.disk, bound, ViewOf(h), DoOpenName(name))
    modifies r`fetchedSector, r.sector, r.media, h
    ensures Serves(r, h) && r.media.FaultsSince(old(r.media.faults))
    ensures Allowed(r.Layout(), r.media.disk, bound, old(ViewOf(h)), DoOpenName(name), ViewOf(h), reply,
                    r.media.faults > old(r.media.faults))
  {
    hide FirstBearing, PlainFile, SpeltCluster, StreamByte, StreamBytes, Stopped;
    hide FsHandle.Positioned, FsHandle.Mid, FsHandle.Position, WellFormed, FindStop, DirReaches, DirEntry, IsFile;
    hide Media.Reliable, NoneBefore;
    var status, at := r.Open(name, h, bound);
    reply := Answer(status);
  }

  method Apply(r: Reader, h: FsHandle, op: Op, ghost bound: nat) returns (reply: Reply)
    requires Serves(r, h) && Legal(r.Layout(), r.media.disk, bound, ViewOf(h), op)
    modifies r`fetchedSector, r.sector, r.media, h
    ensures Serves(r, h) && r.media.FaultsSince(old(r.media.faults))
    ensures Allowed(r.Layout(), r.media.disk, bound, old(ViewOf(h)), op, ViewOf(h), reply,
                    r.media.faults > old(r.media.faults))
  {
    hide FsHandle.Seated, Reader.Mounted, FsHandle.Position, StepRead, StepNext, StepOpen, StepOpenName;
    hide MovedTo, RootView, CutShort, Media.Reliable;
    match op {
      case DoRead(size) => reply := ApplyRead(r, h, size);
      case DoNext => reply := ApplyNext(r, h, bound);
      case DoOpen => reply := ApplyOpen(r, h);
      case DoOpenRoot => reply := ApplyOpenRoot(r, h);
      case DoOpenName(name) => reply := ApplyOpenName(r, h, name, bound);
    }
  }

  // ------------------------------------------------------------------------- runs

  /** One operation of a run: whose, which, what came of it, and whether a read failed during it. */
  datatype Event = Event(handle: nat, op: Op, after: View, reply: Reply, failed: bool)

  ghost predicate AllowedEvent(l: Layout, disk: Disk, bound: nat, v: View, e: Event)
    requires l.clusterSize > 0
  {
    Allowed(l, disk, bound, v, e.op, e.after, e.reply, e.failed)
  }

  /** Whatever the outcomes so far, the next operation of the script is legal. */
  ghost predicate LegalScript(l: Layout, disk: Disk, bounds: seq<nat>, views: seq<View>, script: seq<(nat, Op)>)
    requires l.clusterSize > 0 && |bounds| == |views|
    decreases |script|
  {
    script == [] ||
    (var (i, op) := script[0];
     && i < |views|
     && Legal(l, disk, bounds[i], views[i], op)
     && forall e: Event :: e.op == op && AllowedEvent(l, disk, bounds[i], views[i], e) ==>
          LegalScript(l, disk, bounds, views[i := e.after], script[1..]))
  }

  /** A run of several handles: every event is an outcome allowed to its handle as it then is. */
  ghost predicate JointRun(l: Layout, disk: Disk, bounds: seq<nat>, views: seq<View>, run: seq<Event>)
    requires l.clusterSize > 0 && |bounds| == |views|
    decreases |run|
  {
    run == [] ||
    (var e := run[0];
     && e.handle < |views|
     && AllowedEvent(l, disk, bounds[e.handle], views[e.handle], e)
     && JointRun(l, disk, bounds, views[e.handle := e.after], run[1..]))
  }

  /** The handles' views at the end of a run. */
  function Final(views: seq<View>, run: seq<Event>): (final: seq<View>)
    ensures |final| == |views|
    decreases |run|
  {
    if run == [] then views
    else Final(if run[0].handle < |views| then views[run[0].handle := run[0].after] else views, run[1..])
  }

  /** A run of one handle that has the reader to itself. */
  ghost predicate LoneRun(l: Layout, disk: Disk, bound: nat, v: View, run: seq<Event>)
    requires l.clusterSize > 0
    decreases |run|
  {
    run == [] || (AllowedEvent(l, disk, bound, v, run[0]) && LoneRun(l, disk, bound, run[0].after, run[1..]))
  }

  function LoneFinal(v: View, run: seq<Event>): View {
    if run == [] then v else run[|run| - 1].after
  }

  /** What concerns handle i. */
  function Only(run: seq<Event>, i: nat): seq<Event> {
    if run == [] then []
    else if run[0].handle == i then [run[0]] + Only(run[1..], i)
    else Only(run[1..], i)
  }

  /**
   * Non-interference: in any run of any number of handles, faults included, the part that
   * concerns one handle is a run it could have had by itself, and leaves it in that run's end.
   */
  lemma {:induction false} Projection(
      l: Layout, disk: Disk, bounds: seq<nat>, views: seq<View>, run: seq<Event>, i: nat)
    requires l.clusterSize > 0 && |bounds| == |views| && i < |views|
    requires JointRun(l, disk, bounds, views, run)
    ensures LoneRun(l, disk, bounds[i], views[i], Only(run, i))
    ensures Final(views, run)[i] == LoneFinal(views[i], Only(run, i))
    decreases |run|
  {
    hide AllowedEvent;
    if run != [] {
      var e := run[0];
      Projection(l, disk, bounds, views[e.handle := e.after], run[1..], i);
      if e.handle == i {
        assert Only(run, i)[1..] == Only(run[1..], i);
      }
    }
  }

  /** A list of operations on one handle when nothing fails: its end and its replies. */
  function Alone(l: Layout, disk: Disk, bound: nat, v: View, ops: seq<Op>): (View, seq<Reply>)
    requires l.clusterSize > 0
    decreases |ops|
  {
    if ops == [] then (v, [])
    else
      var (v2, reply) := Step(l, disk, bound, v, ops[0]);
      var (final, replies) := Alone(l, disk, bound, v2, ops[1..]);
      (final, [reply] + replies)
  }

  function Ops(run: seq<Event>): seq<Op> {
    if run == [] then [] else [run[0].op] + Ops(run[1..])
  }

  function Replies(run: seq<Event>): seq<Reply> {
    if run == [] then [] else [run[0].reply] + Replies(run[1..])
  }

  lemma {:induction false} FaultFree(l: Layout, disk: Disk, bound: nat, v: View, run: seq<Event>)
    requires l.clusterSize > 0 && LoneRun(l, disk, bound, v, run)
    requires forall k :: 0 <= k < |run| ==> !run[k].failed
    ensures (LoneFinal(v, run), Replies(run)) == Alone(l, disk, bound, v, Ops(run))
    decreases |run|
  {
    hide Step, Faulted;
    if run != [] {
      FaultFree(l, disk, bound, run[0].after, run[1..]);
      assert Ops(run)[1..] == Ops(run[1..]);
    }
  }

  /** A handle none of whose own operations met a fault gets what it would get alone on a sound medium. */
  lemma {:induction false} NonInterference(
      l: Layout, disk: Disk, bounds: seq<nat>, views: seq<View>, run: seq<Event>, i: nat)
    requires l.clusterSize > 0 && |bounds| == |views| && i < |views|
    requires JointRun(l, disk, bounds, views, run)
    requires forall k :: 0 <= k < |run| && run[k].handle == i ==> !run[k].failed
    ensures (Final(views, run)[i], Replies(Only(run, i)))
      == Alone(l, disk, bounds[i], views[i], Ops(Only(run, i)))
  {
    hide JointRun, Alone, LoneRun;
    Projection(l, disk, bounds, views, run, i);
    OnlyKeeps(run, i);
    FaultFree(l, disk, bounds[i], views[i], Only(run, i));
  }

  lemma {:induction false} OnlyKeeps(run: seq<Event>, i: nat)
    requires forall k :: 0 <= k < |run| && run[k].handle == i ==> !run[k].failed
    ensures forall k :: 0 <= k < |Only(run, i)| ==> !Only(run, i)[k].failed
  {
    if run != [] {
      OnlyKeeps(run[1..], i);
    }
  }

  /** The script and the log of a run. */
  function Script(run: seq<Event>): seq<(nat, Op)> {
    if run == [] then [] else [(run[0].handle, run[0].op)] + Script(run[1..])
  }

  function Log(run: seq<Event>): seq<(nat, Reply)> {
    if run == [] then [] else [(run[0].handle, run[0].reply)] + Log(run[1..])
  }

  /** Executes a script on the real reader, one shared cache behind all the handles. */
  method Interleave(
      r: Reader, hs: seq<FsHandle>, script: seq<(nat, Op)>, ghost bounds: seq<nat>, ghost views: seq<View>)
      returns (log: seq<(nat, Reply)>, ghost run: seq<Event>)
    requires forall i, j :: 0 <= i < j < |hs| ==> hs[i] != hs[j]
    requires |hs| == |bounds| == |views|
    requires r.safe && r.Mounted()
    requires forall i :: 0 <= i < |hs| ==> hs[i].Seated(r.Layout(), r.media.disk) && views[i] == ViewOf(hs[i])
    requires LegalScript(r.Layout(), r.media.disk, bounds, views, script)
    modifies r`fetchedSector, r.sector, r.media, hs
    ensures r.Mounted()
    ensures forall i :: 0 <= i < |hs| ==> hs[i].Seated(r.Layout(), r.media.disk)
    ensures Script(run) == script && Log(run) == log
    ensures JointRun(r.Layout(), r.media.disk, bounds, views, run)
    ensures forall i :: 0 <= i < |hs| ==> Final(views, run)[i] == ViewOf(hs[i])
    ensures r.media.Reliable() ==> forall k :: 0 <= k < |run| ==> !run[k].failed
    decreases |script|
  {
    hide Allowed, Legal, FsHandle.Seated, Reader.Mounted, Media.Reliable;
    if script == [] {
      return [], [];
    }
    var (i, op) := script[0];
    ghost var l, disk, before := r.Layout(), r.media.disk, r.media.faults;
    var reply := Apply(r, hs[i], op, bounds[i]);
    ghost var e := Event(i, op, ViewOf(hs[i]), reply, r.media.faults > before);
    assert AllowedEvent(l, disk, bounds[i], views[i], e);
    var rest;
    rest, run := Interleave(r, hs, script[1..], bounds, views[i := e.after]);
    log := [(i, reply)] + rest;
    ghost var tail := run;
    run := [e] + tail;
    assert run[1..] == tail;
  }
}
