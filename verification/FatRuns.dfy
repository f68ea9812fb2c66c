/**
 * Whole runs of the reader: a file read in arbitrary pieces, with retries after faults,
 * and several handles used in any order through one shared sector buffer.
 */
module FatRuns {
  import opened Words
  import opened FatFormat
  import opened FatVolumes
  import opened MediaAccess
  import opened FatFileReader

  // ---------------------------------------------------------- reading in pieces

  function Total(sizes: seq<U16>): nat {
    if sizes == [] then 0 else Total(sizes[..|sizes| - 1]) + sizes[|sizes| - 1]
  }

  /** The pieces that are not marked, end to end. */
  function Genuine(pieces: seq<seq<Byte>>, spurious: seq<bool>): seq<Byte>
    requires |pieces| == |spurious|
  {
    if pieces == [] then []
    else
      var n := |pieces| - 1;
      Genuine(pieces[..n], spurious[..n]) + if spurious[n] then [] else pieces[n]
  }

  /** One call of Read, and the bytes its caller takes from the buffer. */
  method ReadPiece(r: Reader, h: FsHandle, size: U16) returns (piece: seq<Byte>, spurious: bool)
    requires r.Ready(h) && h.kind.FileHandle?
    modifies r`fetchedSector, r.sector, r.media
    modifies h`clusterPosition, h`cursor, h`cluster, h`sector, h`currentSector, h`entry, h`link, h`fetched
    ensures r.Ready(h) && r.media.FaultsSince(old(r.media.faults))
    ensures spurious == old(r.CannotSync(h))
    ensures spurious ==>
      && r.safe && r.media.faults > old(r.media.faults) && |piece| == Min(2, size)
      && h.Position() == old(h.Position()) && h.entry == old(h.entry)
    ensures !spurious ==>
      && piece == StreamBytes(r.Layout(), r.media.disk, h.stream, old(h.Position()), |piece|)
      && h.Position() == old(h.Position()) + |piece|
      && h.entry.fileSize == old(h.entry.fileSize) - |piece|
    ensures r.media.faults == old(r.media.faults) ==>
      |piece| == Deliverable(r.Layout(), r.media.disk, h.stream, old(h.Position()),
                             Min(size, old(h.entry.fileSize)))
  {
    hide Reader.Mounted, Reader.Ready, FsHandle.Position, StreamBytes, Deliverable, Covered, Media.Reliable;
    spurious := r.safe && r.fetchedSector != h.currentSector && r.media.fate(r.media.served).Failed?;
    var buffer := new Byte[size](_ => 0);
    var count := r.Read(h, size, buffer);
    piece := buffer[..Min(count, size)];
  }

  /** One more piece after those that make up `out`, of a file read from offset p. */
  method ReadOn(r: Reader, h: FsHandle, size: U16, ghost p: nat, ghost all: nat, ghost asked: nat, ghost out: seq<Byte>)
      returns (piece: seq<Byte>, lost: bool)
    requires r.Ready(h) && h.kind.FileHandle?
    requires out == StreamBytes(r.Layout(), r.media.disk, h.stream, p, |out|)
    requires h.Position() == p + |out| && h.entry.fileSize == all - |out|
    modifies r`fetchedSector, r.sector, r.media
    modifies h`clusterPosition, h`cursor, h`cluster, h`sector, h`currentSector, h`entry, h`link, h`fetched
    ensures r.Ready(h) && r.media.FaultsSince(old(r.media.faults))
    ensures var next := out + if lost then [] else piece;
      && next == StreamBytes(r.Layout(), r.media.disk, h.stream, p, |next|)
      && h.Position() == p + |next| && h.entry.fileSize == all - |next|
      && (r.media.faults == old(r.media.faults)
          && |out| == Deliverable(r.Layout(), r.media.disk, h.stream, p, Min(asked, all)) ==>
            |next| == Deliverable(r.Layout(), r.media.disk, h.stream, p, Min(asked + size, all)))
    ensures lost ==> r.safe && r.media.faults > old(r.media.faults) && |piece| == Min(2, size)
  {
    hide Reader.Mounted, Reader.Ready, Reader.CannotSync, FsHandle.Position, StreamBytes, Deliverable, Media.Reliable;
    ghost var l, disk, st := r.Layout(), r.media.disk, h.stream;
    piece, lost := ReadPiece(r, h, size);
    if lost {
      assert out + [] == out;
    } else {
      BytesAppend(l, disk, st, p, |out|, |piece|);
      DeliverMore(l, disk, st, p, asked, size, all);
    }
  }

  /**
   * Reads a file by an arbitrary list of requests, keeping the bytes each call reports. The
   * pieces of the calls that do not take an error code for a count join up, whatever fails
   * meanwhile: a later call resumes where a short one stopped. Outside safe mode, or without
   * faults, that is every piece; without faults it is all that the chain has.
   */
  method ReadInPieces(r: Reader, h: FsHandle, sizes: seq<U16>)
      returns (pieces: seq<seq<Byte>>, spurious: seq<bool>)
    requires r.Ready(h) && h.kind.FileHandle?
    modifies r`fetchedSector, r.sector, r.media
    modifies h`clusterPosition, h`cursor, h`cluster, h`sector, h`currentSector, h`entry, h`link, h`fetched
    ensures r.Ready(h) && r.media.FaultsSince(old(r.media.faults))
    ensures |pieces| == |spurious| == |sizes|
    ensures var out := Genuine(pieces, spurious);
      && out == StreamBytes(r.Layout(), r.media.disk, h.stream, old(h.Position()), |out|)
      && h.Position() == old(h.Position()) + |out|
      && h.entry.fileSize == old(h.entry.fileSize) - |out|
      && (r.media.faults == old(r.media.faults) ==>
            |out| == Deliverable(r.Layout(), r.media.disk, h.stream, old(h.Position()),
                                 Min(Total(sizes), old(h.entry.fileSize))))
    ensures
      var all := Min(Total(sizes), old(h.entry.fileSize));
      r.media.faults == old(r.media.faults)
      && Covered(r.Layout(), r.media.disk, h.stream, old(h.Position()), all) ==>
        |Genuine(pieces, spurious)| == all
    ensures Excused(pieces, spurious, sizes, r.safe && r.media.faults > old(r.media.faults))
  {
    hide Reader.Mounted, Reader.Ready, Reader.CannotSync, FsHandle.Position, StreamBytes, Deliverable;
    hide Covered, Media.Reliable, Excused;
    ghost var l, disk, st, p, all := r.Layout(), r.media.disk, h.stream, h.Position(), h.entry.fileSize;
    assert l.clusterSize > 0;
    pieces, spurious := [], [];
    ghost var out: seq<Byte> := [];
    NoBytes(l, disk, st, p, out);
    DeliverStep(l, disk, st, p, 0);
    NoExcuse();
    for i := 0 to |sizes|
      invariant r.Ready(h) && r.media.FaultsSince(old(r.media.faults))
      invariant |pieces| == |spurious| == i && out == Genuine(pieces, spurious)
      invariant out == StreamBytes(l, disk, st, p, |out|)
      invariant h.Position() == p + |out| && h.entry.fileSize == all - |out|
      invariant r.media.faults == old(r.media.faults) ==>
        |out| == Deliverable(l, disk, st, p, Min(Total(sizes[..i]), all))
      invariant Excused(pieces, spurious, sizes[..i], r.safe && r.media.faults > old(r.media.faults))
    {
      hide Genuine;
      assert sizes[..i + 1][..i] == sizes[..i];
      ghost var excuse := r.safe && r.media.faults > old(r.media.faults);
      var piece, lost := ReadOn(r, h, sizes[i], p, all, Total(sizes[..i]), out);
      OneMorePiece(pieces, spurious, piece, lost);
      OneMoreExcuse(pieces, spurious, sizes[..i], excuse, piece, lost, sizes[i],
        r.safe && r.media.faults > old(r.media.faults));
      assert sizes[..i + 1] == sizes[..i] + [sizes[i]];
      pieces, spurious := pieces + [piece], spurious + [lost];
      out := out + if lost then [] else piece;
    }
    assert sizes[..|sizes|] == sizes;
    DeliverableIff(l, disk, st, p, Min(Total(sizes), all));
  }

  /** Every marked piece is as long as the error code says, and there is a reason for it. */
  ghost predicate Excused(pieces: seq<seq<Byte>>, spurious: seq<bool>, sizes: seq<U16>, excuse: bool) {
    && |pieces| == |spurious| == |sizes|
    && forall i :: 0 <= i < |sizes| && spurious[i] ==> excuse && |pieces[i]| == Min(2, sizes[i])
  }

  lemma {:induction false} NoExcuse()
    ensures Excused([], [], [], false)
  {
  }

  lemma {:induction false} OneMoreExcuse(
      pieces: seq<seq<Byte>>, spurious: seq<bool>, sizes: seq<U16>, before: bool,
      piece: seq<Byte>, lost: bool, size: U16, after: bool)
    requires Excused(pieces, spurious, sizes, before) && (before ==> after)
    requires lost ==> after && |piece| == Min(2, size)
    ensures Excused(pieces + [piece], spurious + [lost], sizes + [size], after)
  {
  }

  lemma {:induction false} OneMorePiece(pieces: seq<seq<Byte>>, spurious: seq<bool>, piece: seq<Byte>, lost: bool)
    requires |pieces| == |spurious|
    ensures Genuine(pieces + [piece], spurious + [lost]) == Genuine(pieces, spurious) + if lost then [] else piece
  {
    var ps, ls := pieces + [piece], spurious + [lost];
    assert ps[..|ps| - 1] == pieces && ls[..|ls| - 1] == spurious;
  }

  // ------------------------------------------------- an error code taken for a count

  /** A FAT16 volume of 20000 sectors: one table of 80 sectors, and 16 root entries in sector 81. */
  function CardRecord(): Sector {
    seq(512, i requires 0 <= i < 512 => CardByte(i))
  }

  function CardByte(i: nat): Byte {
    if i == 12 then 2 else if i == 13 || i == 14 || i == 16 then 1 else if i == 17 then 16
    else if i == 19 then 0x20 else if i == 20 then 0x4e else if i == 22 then 80
    else if 54 <= i < 62 then [0x46, 0x41, 0x54, 0x31, 0x36, 0x20, 0x20, 0x20][i - 54]
    else if i == 510 then 0x55 else if i == 511 then 0xaa else 0
  }

  /** A root directory of one file, of 1 byte, in cluster 2. */
  function CardRoot(): Sector {
    seq(512, i requires 0 <= i < 512 => if i < 11 then 0x41 else if i == 26 then 2 else if i == 28 then 1 else 0)
  }

  function CardDisk(): Disk {
    (n: U32) => CardSector(n)
  }

  function CardSector(n: U32): Sector {
    if n == 0 then CardRecord() else if n == 81 then CardRoot() else seq(512, _ => 0)
  }

  /** The card is pulled out after three reads. */
  function PulledOut(): nat -> Fate {
    (n: nat) => if n < 3 then Served else Failed(None)
  }

  lemma {:induction false} CardIsValid()
    ensures ValidBoot(CardRecord()) && Labelled(CardRecord()) && Understood(CardRecord(), true)
    ensures Detected(CardRecord()).Fat16? && RootInRange(CardRecord())
    ensures LayoutRead(CardRecord(), Fat16, 0, true) == Layout(Fat16, 1, 81, 1, 82)
  {
    var b := CardRecord();
    assert Clusters(b) == 19918;
    assert b[54..62] == [0x46, 0x41, 0x54, 0x31, 0x36, 0x20, 0x20, 0x20];
  }

  lemma {:induction false} CardMedia()
    ensures CardDisk()(0) == CardRecord() && CardDisk()(81) == CardRoot()
    ensures PulledOut()(0).Served? && PulledOut()(1).Served? && PulledOut()(2).Served?
    ensures forall n: nat :: PulledOut()(n).Failed? ==> n >= 3 && PulledOut()(n).junk.None?
    ensures PulledOut()(3).Failed? && PulledOut()(4).Failed?
  {
    hide CardRecord, CardRoot;
  }

  lemma {:induction false} CardEntry()
    ensures var e := EntryAt(CardRoot(), 0);
      Judge(e).Listed? && IsFile(e) && EntryCluster(e) == 2 && e.fileSize == 1 && e.name[0] == 0x41
  {
    CardRootBytes();
    var s := CardRoot();
    hide CardRoot, Judge, IsFile;
    var e := EntryAt(s, 0);
    assert e.name[0] == s[0..11][0] == s[0];
    assert e.attribute == 0 && e.fileSize == 1 && e.firstCluster == 2 && e.firstClusterHigh == 0;
    hide EntryAt;
    JudgePlain(e);
  }

  lemma {:induction false} CardRootBytes()
    ensures var s := CardRoot();
      && s[0] == 0x41 && s[11] == 0 && s[20] == 0 && s[21] == 0 && s[26] == 2 && s[27] == 0
      && s[28] == 1 && s[29] == 0 && s[30] == 0 && s[31] == 0
  {
  }

  lemma {:induction false} JudgePlain(e: DirectoryEntry)
    requires |e.name| == 11 && e.name[0] == 0x41 && e.attribute == 0
    ensures Judge(e).Listed? && IsFile(e)
  {
  }

  lemma {:induction false} CardFile(l: Layout)
    requires l == Layout(Fat16, 1, 81, 1, 82)
    ensures StreamSector(l, CardDisk(), Flat(81), 0) == Some(81)
    ensures DirEntry(l, CardDisk(), Flat(81), 0) == EntryAt(CardRoot(), 0)
    ensures Judge(EntryAt(CardRoot(), 0)).Listed? ==>
      !PassesOver(l, CardDisk(), Flat(81), 0) && FirstStop(l, CardDisk(), Flat(81), 0, 0) == 0
  {
    hide CardDisk, CardRoot, EntryAt, Judge;
    CardMedia();
  }

  /** Mounting the card. */
  method MountCard() returns (r: Reader)
    ensures fresh(r) && fresh(r.sector) && fresh(r.media) && r.safe && r.Mounted()
    ensures r.media.disk == CardDisk() && r.media.fate == PulledOut() && r.media.served == 1
    ensures r.Layout() == Layout(Fat16, 1, 81, 1, 82) && r.fetchedSector == 0
  {
    hide Reader.Mounted, ValidBoot, Labelled, Understood, CardRecord, Detected, LayoutRead, LayoutIs, Fits;
    hide CardDisk, PulledOut, RootInRange;
    var media := new Media(CardDisk(), PulledOut(), false);
    r := new Reader(true, media);
    CardIsValid();
    CardMedia();
    FoundAtZero(media.disk);
    var status := r.Init();
  }

  lemma {:induction false} FoundAtZero(disk: Disk)
    requires !Detected(disk(0)).Unknown?
    ensures BootSector(disk) == 0
  {
    hide Detected;
  }

  /** A cleared handle on the card's root directory. */
  ghost predicate AtCardRoot(r: Reader, h: FsHandle)
    reads r, r.sector
    reads h`kind, h`cursor, h`stream, h`link, h`fetched, h`cluster, h`clusterPosition, h`sector, h`currentSector
  {
    && r.safe && r.media.disk == CardDisk() && r.media.fate == PulledOut()
    && r.Layout() == Layout(Fat16, 1, 81, 1, 82) && r.Ready(h)
    && h.kind.DirHandle? && h.stream == Flat(81) && h.Position() == 0
    && h.cursor == 0 && h.cluster == 0 && h.sector == 81 && h.currentSector == 0
  }

  method OpenCardRoot(r: Reader) returns (h: FsHandle)
    requires r.safe && r.Mounted() && r.media.disk == CardDisk() && r.media.fate == PulledOut()
    requires r.Layout() == Layout(Fat16, 1, 81, 1, 82)
    ensures fresh(h) && AtCardRoot(r, h)
  {
    hide CardDisk, PulledOut, Reader.Ready, Reader.Mounted, FsHandle.Position, FsHandle.Mid;
    h := new FsHandle();
    var status := r.OpenRootDir(h);
  }

  /** The first entry of the root directory, as far as two reads go. */
  method NextOnCard(r: Reader, h: FsHandle) returns (status: Status)
    requires AtCardRoot(r, h)
    requires r.fetchedSector != 0 ==> r.media.fate(r.media.served).Served?
    modifies r`fetchedSector, r.sector, r.media, h
    ensures r.Ready(h) && h.kind.DirHandle?
    ensures var asked := old(r.media.served) + if old(r.fetchedSector) != 0 then 1 else 0;
      r.OneRead(status.ErrorRead?, asked, 0, 81)
    ensures !status.ErrorRead? ==> h.entry == EntryAt(CardRoot(), 0) && h.currentSector == 81
  {
    hide DirEntry, FirstStop, EntryAt, Judge, CardDisk, PulledOut, PassesOver, DirReaches, Advanced, LastSeen;
    hide Reader.Ready, Reader.Mounted, Reader.OneRead, FsHandle.Mid, FsHandle.Position, Media.Reliable;
    ghost var l, entry := r.Layout(), h.entry;
    CardFile(l);
    CardEntry();
    hide EntryAt, Judge;
    assert r.StartsSector(h);
    status := r.Next(h, 0);
    if status != ErrorRead {
      FirstCardEntry(l, h.Position(), status, entry);
      OnlySector(r, h);
    }
  }

  lemma {:induction false} FirstCardEntry(l: Layout, k: nat, status: Status, before: DirectoryEntry)
    requires l == Layout(Fat16, 1, 81, 1, 82) && status != ErrorRead
    requires Advanced(l, CardDisk(), Flat(81), 0, 0, k, status)
    ensures k == 1 && LastSeen(l, CardDisk(), Flat(81), 0, k, before) == EntryAt(CardRoot(), 0)
  {
    hide DirEntry, FirstStop, EntryAt, Judge, CardDisk, PassesOver, DirReaches;
    CardFile(l);
    CardEntry();
  }

  /** After one entry the handle is in sector 81. */
  lemma {:induction false} OnlySector(r: Reader, h: FsHandle)
    requires r.Ready(h) && r.safe && r.media.disk == CardDisk() && r.Layout() == Layout(Fat16, 1, 81, 1, 82)
    requires h.kind.DirHandle? && h.stream == Flat(81) && h.Position() == 1
    ensures h.currentSector == 81
  {
    hide CardDisk, Located, Reader.Mounted;
    assert h.fetched == 1;
  }

  /** A handle on the card's file, opened by enumeration. */
  method OpenCardFile(r: Reader) returns (h: FsHandle)
    requires r.safe && r.Mounted() && r.media.disk == CardDisk() && r.media.fate == PulledOut()
    requires r.media.served == 1 && r.Layout() == Layout(Fat16, 1, 81, 1, 82) && r.fetchedSector == 0
    modifies r`fetchedSector, r.sector, r.media
    ensures fresh(h) && r.Ready(h) && h.kind.FileHandle? && h.entry.fileSize == 1
    ensures h.currentSector == 81 && r.fetchedSector == 81 && r.media.served == 2
  {
    hide EntryAt, IsFile, Judge, EntryCluster, CardDisk, PulledOut, Reader.Ready, Reader.Mounted, AtCardRoot;
    var status;
    CardMedia();
    h := OpenCardRoot(r);
    status := NextOnCard(r, h);
    CardEntry();
    status := r.OpenEntry(h);
  }

  /** Another handle's Next that restores its own sector and then fails. */
  method Displace(r: Reader)
    requires r.safe && r.Mounted() && r.media.disk == CardDisk() && r.media.fate == PulledOut()
    requires r.media.served == 2 && r.Layout() == Layout(Fat16, 1, 81, 1, 82) && r.fetchedSector == 81
    modifies r`fetchedSector, r.sector, r.media
    ensures r.Mounted() && r.fetchedSector == 0 && r.media.served == 4
  {
    hide CardDisk, PulledOut, Reader.Mounted;
    CardMedia();
    var h := OpenCardRoot(r);
    var status := NextOnCard(r, h);
  }

  /**
   * A run that ends in the error code: the card is mounted and its file opened, a second handle
   * reads the directory while the card is pulled out, and a request for 1 byte of the file is
   * answered with a count of 2.
   */
  method ErrorCodeAsCount() returns (count: U16)
    ensures count == 2
  {
    hide Reader.Mounted, StreamBytes, Deliverable, StreamSector, CardDisk, PulledOut;
    CardMedia();
    var r := MountCard();
    var h := OpenCardFile(r);
    Displace(r);
    var buffer := new Byte[1];
    count := r.Read(h, 1, buffer);
  }

  /** Delivering up to `a`, then on from there, is delivering up to `b`. */
  lemma {:induction false} DeliverOn(l: Layout, disk: Disk, st: Stream, p: nat, a: nat, b: nat)
    requires l.clusterSize > 0 && a <= b
    ensures var n := Deliverable(l, disk, st, p, a);
      && Deliverable(l, disk, st, p, b) == n + Deliverable(l, disk, st, p + n, b - n)
      && (n < a ==> Deliverable(l, disk, st, p, b) == n)
    decreases a
  {
    hide StreamSector, Deliverable;
    DeliverStep(l, disk, st, p, a);
    DeliverStep(l, disk, st, p, b);
    if a == 0 || StreamSector(l, disk, st, p / 512).None? {
      StuckAt(l, disk, st, p, b);
    } else if a <= 512 - p % 512 {
      PartialSector(l, disk, st, p, a, b);
    } else {
      var step := 512 - p % 512;
      DeliverOn(l, disk, st, p + step, a - step, b - step);
    }
  }

  lemma {:induction false} StuckAt(l: Layout, disk: Disk, st: Stream, p: nat, more: nat)
    requires l.clusterSize > 0
    ensures StreamSector(l, disk, st, p / 512).None? ==> Deliverable(l, disk, st, p, more) == 0
  {
  }

  lemma {:induction false} PartialSector(l: Layout, disk: Disk, st: Stream, p: nat, a: nat, b: nat)
    requires l.clusterSize > 0 && 0 < a <= b && a <= 512 - p % 512
    requires StreamSector(l, disk, st, p / 512).Some?
    ensures Deliverable(l, disk, st, p, a) == a
    ensures Deliverable(l, disk, st, p, b) == a + Deliverable(l, disk, st, p + a, b - a)
  {
    hide StreamSector, Deliverable;
    DeliverStep(l, disk, st, p, a);
    DeliverStep(l, disk, st, p + a, 0);
    DeliverStep(l, disk, st, p, b);
    DeliverStep(l, disk, st, p + a, b - a);
    if a < 512 - p % 512 {
      assert (p + a) / 512 == p / 512;
      assert (p + a) % 512 == p % 512 + a;
    }
  }

  lemma {:induction false} DeliverMore(l: Layout, disk: Disk, st: Stream, p: nat, sum: nat, size: nat, all: nat)
    requires l.clusterSize > 0
    ensures var m := Deliverable(l, disk, st, p, Min(sum, all));
      m <= all && Deliverable(l, disk, st, p, Min(sum + size, all))
        == m + Deliverable(l, disk, st, p + m, Min(size, all - m))
  {
    hide Deliverable;
    var m := Deliverable(l, disk, st, p, Min(sum, all));
    DeliverOn(l, disk, st, p, Min(sum, all), Min(sum + size, all));
    if m < Min(sum, all) {
      Stuck(l, disk, st, p, Min(sum, all), Min(size, all - m));
    }
  }

  /** Once delivery stops short, it stays stopped. */
  lemma {:induction false} Stuck(l: Layout, disk: Disk, st: Stream, p: nat, a: nat, more: nat)
    requires l.clusterSize > 0
    ensures var n := Deliverable(l, disk, st, p, a);
      n < a ==> Deliverable(l, disk, st, p + n, more) == 0
    decreases a
  {
    hide StreamSector;
    StuckAt(l, disk, st, p, more);
    if a == 0 || StreamSector(l, disk, st, p / 512).None? {
    } else {
      var step := Min(512 - p % 512, a);
      Stuck(l, disk, st, p + step, a - step, more);
    }
  }

  // ---------------------------------------------------------------- enumeration

  /** The listed entries from index k up to the end of the table, in on-disk order. */
  function Listing(l: Layout, disk: Disk, st: Stream, k: nat, bound: nat): seq<DirectoryEntry>
    requires l.clusterSize > 0
    decreases bound - k
  {
    if k >= bound || EndsAt(l, disk, st, k) then []
    else
      (if Judge(DirEntry(l, disk, st, k)).Listed? then [DirEntry(l, disk, st, k)] else [])
      + Listing(l, disk, st, k + 1, bound)
  }

  /** Calls Next until it reports something other than an entry. */
  method Enumerate(r: Reader, h: FsHandle, ghost bound: nat) returns (entries: seq<DirectoryEntry>)
    requires r.Ready(h) && h.kind.DirHandle?
    requires h.Position() <= bound && EndsAt(r.Layout(), r.media.disk, h.stream, bound)
    modifies r`fetchedSector, r.sector, r.media
    modifies h`clusterPosition, h`cursor, h`cluster, h`sector, h`currentSector, h`entry, h`link, h`fetched
    ensures r.Ready(h) && r.media.FaultsSince(old(r.media.faults))
    ensures entries <= Listing(r.Layout(), r.media.disk, h.stream, old(h.Position()), bound)
    ensures r.media.faults == old(r.media.faults) ==>
      entries == Listing(r.Layout(), r.media.disk, h.stream, old(h.Position()), bound)
    ensures var indices := ReportedFrom(r.Layout(), r.media.disk, h.stream, old(h.Position()), bound);
      && AllReported(r.Layout(), r.media.disk, h.stream, old(h.Position()), bound, indices)
      && |entries| <= |indices| && (r.media.faults == old(r.media.faults) ==> |entries| == |indices|)
      && forall i :: 0 <= i < |entries| ==> Spells(r.Layout(), r.media.disk, h.stream, indices[i], entries[i])
  {
    hide Reader.Mounted, Reader.Ready, FsHandle.Position, Listing, AllReported, ReportedFrom, Spells, EndsAt;
    assert r.Layout().clusterSize > 0;
    ReportedFromAll(r.Layout(), r.media.disk, h.stream, h.Position(), bound);
    ListingBytes(r.Layout(), r.media.disk, h.stream, h.Position(), bound);
    entries := ListAll(r, h, bound);
  }

  /** The same loop, its result by the entries that the enumeration stops at. */
  method ListAll(r: Reader, h: FsHandle, ghost bound: nat) returns (entries: seq<DirectoryEntry>)
    requires r.Ready(h) && h.kind.DirHandle?
    requires h.Position() <= bound && EndsAt(r.Layout(), r.media.disk, h.stream, bound)
    modifies r`fetchedSector, r.sector, r.media
    modifies h`clusterPosition, h`cursor, h`cluster, h`sector, h`currentSector, h`entry, h`link, h`fetched
    ensures r.Ready(h) && r.media.FaultsSince(old(r.media.faults))
    ensures entries <= Listing(r.Layout(), r.media.disk, h.stream, old(h.Position()), bound)
    ensures r.media.faults == old(r.media.faults) ==>
      entries == Listing(r.Layout(), r.media.disk, h.stream, old(h.Position()), bound)
  {
    hide Reader.Mounted, Reader.Ready, FsHandle.Position, Listing, FirstStop, DirReaches, DirEntry, Judge;
    hide Reader.StartsSector, Reader.CannotSync, Reader.OneRead, Media.Reliable, Stopped;
    ghost var l, disk, st := r.Layout(), r.media.disk, h.stream;
    ghost var all := Listing(l, disk, st, h.Position(), bound);
    entries := [];
    assert l.clusterSize > 0;
    while true
      invariant r.Ready(h) && r.media.FaultsSince(old(r.media.faults))
      invariant h.Position() <= bound
      invariant all == entries + Listing(l, disk, st, h.Position(), bound)
      decreases bound - h.Position()
    {
      ghost var k := h.Position();
      ListingStep(l, disk, st, k, bound);
      var status := r.Next(h, bound);
      if status != Ok {
        return;
      }
      entries := entries + [h.entry];
    }
  }

  /** What is listed are the entries at the indices to be reported. */
  lemma {:induction false} ListingBytes(l: Layout, disk: Disk, st: Stream, k: nat, bound: nat)
    requires l.clusterSize > 0
    ensures var entries, indices := Listing(l, disk, st, k, bound), ReportedFrom(l, disk, st, k, bound);
      |entries| == |indices|
      && forall i :: 0 <= i < |entries| ==> Spells(l, disk, st, indices[i], entries[i])
    decreases bound - k
  {
    hide DirEntry, DirReaches, Continues, Reported, Judge, EndsAt, Spells;
    StopBytes(l, disk, st, k);
    EntryFields(l, disk, st, k);
    if k < bound && !EndsAt(l, disk, st, k) {
      ReachedUnlessEnded(l, disk, st, k);
      ListingBytes(l, disk, st, k + 1, bound);
    }
  }

  lemma {:induction false} ReachedUnlessEnded(l: Layout, disk: Disk, st: Stream, k: nat)
    requires l.clusterSize > 0 && !EndsAt(l, disk, st, k)
    ensures DirReaches(l, disk, st, k)
  {
    hide DirReaches;
  }

  lemma {:induction false} ListingStep(l: Layout, disk: Disk, st: Stream, k: nat, bound: nat)
    requires l.clusterSize > 0 && k <= bound && EndsAt(l, disk, st, bound)
    ensures var stop := FirstStop(l, disk, st, k, bound);
      && (EndsAt(l, disk, st, stop) ==> Listing(l, disk, st, k, bound) == [])
      && (!EndsAt(l, disk, st, stop) ==>
            && stop < bound
            && Listing(l, disk, st, k, bound)
               == [DirEntry(l, disk, st, stop)] + Listing(l, disk, st, stop + 1, bound))
    decreases bound - k
  {
    hide DirEntry, StreamSector;
    if k < bound && PassesOver(l, disk, st, k) {
      ListingStep(l, disk, st, k + 1, bound);
    }
  }
}
