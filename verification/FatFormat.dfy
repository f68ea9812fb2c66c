/**
 * The on-disk meaning of a FAT16/FAT32 volume, stated without reference to how
 * the driver walks it: flat byte arrays, cluster chains, streams of sectors.
 * Sector numbers are 32-bit and wrap, on both sides.
 */
module FatFormat {
  import opened Words

  type Sector = s: seq<Byte> | |s| == 512 witness seq(512, _ => 0)
  type Disk = U32 -> Sector

  datatype FatType = Unknown | Fat16 | Fat32

  datatype Layout = Layout(
    fatType: FatType,
    clusterSize: Byte,  // sectors per cluster
    rootDir: U32,       // FAT16: first sector; FAT32: first cluster
    fatSector: U32,
    dataSector: U32)

  /** A mounted volume whose cluster size obeys the FAT specification. */
  predicate WellFormed(l: Layout) {
    && !l.fatType.Unknown?
    && l.clusterSize > 0 && PowerOfTwo(l.clusterSize)
    && (l.fatType.Fat32? ==> ValidCluster(l, l.rootDir))
  }

  predicate ValidCluster(l: Layout, cluster: U32) {
    2 <= cluster <= if l.fatType.Fat16? then 0xffef else 0x0fff_ffef
  }

  /** Byte number `at` of the file allocation table, seen as one flat array. */
  function FatByte(l: Layout, disk: Disk, at: nat): Byte {
    disk(Wrap32(l.fatSector + at / 512))[at % 512]
  }

  /** Entry number `cluster` of the flat table: 16 bits, or the low 28 of 32 bits. */
  function FatEntry(l: Layout, disk: Disk, cluster: nat): U32 {
    if l.fatType.Fat16? then
      FatByte(l, disk, 2 * cluster + 0) + 0x100 * FatByte(l, disk, 2 * cluster + 1)
    else
      (FatByte(l, disk, 4 * cluster + 0)
       + 0x100 * FatByte(l, disk, 4 * cluster + 1)
       + 0x1_0000 * FatByte(l, disk, 4 * cluster + 2)
       + 0x100_0000 * FatByte(l, disk, 4 * cluster + 3)) % 0x1000_0000
  }

  /** The link of a cluster by the bytes of the table; the top four bits of a 32-bit entry do not count. */
  ghost predicate LinkSpelt(l: Layout, disk: Disk, cluster: nat, link: int) {
    link == if l.fatType.Fat16? then
        FatByte(l, disk, 2 * cluster) as int + 0x100 * FatByte(l, disk, 2 * cluster + 1) as int
      else
        FatByte(l, disk, 4 * cluster) as int + 0x100 * FatByte(l, disk, 4 * cluster + 1) as int
        + 0x1_0000 * FatByte(l, disk, 4 * cluster + 2) as int
        + 0x100_0000 * (FatByte(l, disk, 4 * cluster + 3) as int % 0x10)
  }

  lemma {:induction false} FatEntryBytes(l: Layout, disk: Disk, cluster: nat)
    ensures LinkSpelt(l, disk, cluster, FatEntry(l, disk, cluster))
  {
    hide FatByte;
  }

  /** The j-th cluster of the chain that starts at `first`, while every link is valid. */
  function ChainCluster(l: Layout, disk: Disk, first: U32, j: nat): Option<U32> {
    if j == 0 then
      if ValidCluster(l, first) then Some(first) else None
    else
      match ChainCluster(l, disk, first, j - 1)
      case None => None
      case Some(c) =>
        var next := FatEntry(l, disk, c);
        if ValidCluster(l, next) then Some(next) else None
  }

  /** A run of sectors: a cluster chain, or the fixed root directory of FAT16. */
  datatype Stream = Chained(first: U32) | Flat(start: U32)

  function ClusterSector(l: Layout, cluster: U32, k: nat): U32 {
    Wrap32(l.dataSector + (cluster - 2) * l.clusterSize + k)
  }

  /** Cluster 2 is where the data area starts, and the sectors of the clusters follow each other. */
  lemma {:induction false} DataAreaInOrder(l: Layout, cluster: U32, k: nat)
    requires 2 <= cluster < 0xffff_ffff
    ensures ClusterSector(l, 2, 0) == l.dataSector
    ensures ClusterSector(l, cluster, k + 1) == Wrap32(ClusterSector(l, cluster, k) + 1)
    ensures ClusterSector(l, cluster + 1, 0) == ClusterSector(l, cluster, l.clusterSize)
  {
    var c, size: int := cluster - 2, l.clusterSize;
    assert (c + 1) * size == c * size + size;
    WrapOne(l.dataSector + c * size + k);
  }

  lemma {:induction false} WrapOne(x: int)
    ensures Wrap32(x + 1) == Wrap32(Wrap32(x) + 1)
  {
  }

  /** Disk address of the q-th sector of a stream, if the chain reaches that far. */
  function StreamSector(l: Layout, disk: Disk, st: Stream, q: nat): Option<U32>
    requires l.clusterSize > 0
  {
    match st
    case Flat(start) => Some(Wrap32(start + q))
    case Chained(first) =>
      match ChainCluster(l, disk, first, q / l.clusterSize)
      case None => None
      case Some(c) => Some(ClusterSector(l, c, q % l.clusterSize))
  }

  /** Content of the q-th sector (zeroes beyond the end of the chain). */
  function StreamData(l: Layout, disk: Disk, st: Stream, q: nat): Sector
    requires l.clusterSize > 0
  {
    match StreamSector(l, disk, st, q)
    case None => seq(512, _ => 0)
    case Some(a) => disk(a)
  }

  function StreamByte(l: Layout, disk: Disk, st: Stream, i: nat): Byte
    requires l.clusterSize > 0
  {
    StreamData(l, disk, st, i / 512)[i % 512]
  }

  /** The n bytes of a stream from offset p. */
  function StreamBytes(l: Layout, disk: Disk, st: Stream, p: nat, n: nat): (s: seq<Byte>)
    requires l.clusterSize > 0
    ensures |s| == n
  {
    seq<Byte>(n, i requires 0 <= i < n => StreamByte(l, disk, st, p + i))
  }

  /** How many of `want` bytes from offset p lie before the chain breaks. */
  function Deliverable(l: Layout, disk: Disk, st: Stream, p: nat, want: nat): (n: nat)
    requires l.clusterSize > 0
    ensures n <= want
    decreases want
  {
    if want == 0 || StreamSector(l, disk, st, p / 512).None? then 0
    else
      var step := Min(512 - p % 512, want);
      step + Deliverable(l, disk, st, p + step, want - step)
  }

  /** Every one of the n bytes from offset p lies in a sector that the stream has. */
  ghost predicate Covered(l: Layout, disk: Disk, st: Stream, p: nat, n: nat)
    requires l.clusterSize > 0
  {
    forall i :: p <= i < p + n ==> ByteReached(l, disk, st, i)
  }

  predicate ByteReached(l: Layout, disk: Disk, st: Stream, i: nat)
    requires l.clusterSize > 0
  {
    StreamSector(l, disk, st, i / 512).Some?
  }

  /** What is delivered lies before the break, and a delivery that stops short has reached it. */
  lemma {:induction false} DeliverableMeaning(l: Layout, disk: Disk, st: Stream, p: nat, want: nat)
    requires l.clusterSize > 0
    ensures var n := Deliverable(l, disk, st, p, want);
      Covered(l, disk, st, p, n) && (n < want ==> !ByteReached(l, disk, st, p + n))
    decreases want
  {
    hide StreamSector;
    if want > 0 && StreamSector(l, disk, st, p / 512).Some? {
      var step := Min(512 - p % 512, want);
      DeliverableMeaning(l, disk, st, p + step, want - step);
      forall i | p <= i < p + step
        ensures ByteReached(l, disk, st, i)
      {
        SameSector(p, i - p);
      }
    }
  }

  lemma {:induction false} SameSector(p: nat, k: nat)
    requires p % 512 + k < 512
    ensures (p + k) / 512 == p / 512
  {
  }

  /** All of it is delivered exactly when the stream has all of it. */
  lemma {:induction false} DeliverableIff(l: Layout, disk: Disk, st: Stream, p: nat, want: nat)
    requires l.clusterSize > 0
    ensures Deliverable(l, disk, st, p, want) == want <==> Covered(l, disk, st, p, want)
  {
    hide ByteReached, Deliverable;
    DeliverableMeaning(l, disk, st, p, want);
  }

  lemma {:induction false} ChainPrefix(l: Layout, disk: Disk, first: U32, i: nat, j: nat)
    requires i <= j && ChainCluster(l, disk, first, j).Some?
    ensures ChainCluster(l, disk, first, i).Some?
  {
    if i < j {
      ChainPrefix(l, disk, first, i, j - 1);
    }
  }

  /** A chain of m clusters is long enough for everything within m times the cluster size. */
  lemma {:induction false} LongChainCovers(
      l: Layout, disk: Disk, first: U32, m: nat, p: nat, n: nat)
    requires l.clusterSize > 0 && m > 0 && ChainCluster(l, disk, first, m - 1).Some?
    requires p + n <= 512 * Span(m, l.clusterSize)
    ensures Covered(l, disk, Chained(first), p, n)
  {
    hide ByteReached, Span, ChainCluster;
    forall i | p <= i < p + n
      ensures ByteReached(l, disk, Chained(first), i)
    {
      ReachedBefore(l, disk, first, m, i);
    }
  }

  lemma {:induction false} ReachedBefore(l: Layout, disk: Disk, first: U32, m: nat, i: nat)
    requires l.clusterSize > 0 && m > 0 && ChainCluster(l, disk, first, m - 1).Some?
    requires i < 512 * Span(m, l.clusterSize)
    ensures ByteReached(l, disk, Chained(first), i)
  {
    hide ChainCluster, ByteReached, Span, Quot;
    var q := i / 512;
    assert q < Span(m, l.clusterSize);
    QuotientBelow(q, l.clusterSize, m);
    ChainPrefix(l, disk, first, Quot(q, l.clusterSize), m - 1);
    ReachedInChain(l, disk, first, i);
  }

  lemma {:induction false} ReachedInChain(l: Layout, disk: Disk, first: U32, i: nat)
    requires l.clusterSize > 0 && ChainCluster(l, disk, first, Quot(i / 512, l.clusterSize)).Some?
    ensures ByteReached(l, disk, Chained(first), i)
  {
    hide ChainCluster, ClusterSector;
  }

  // ---------------------------------------------------------------- directories

  datatype DirectoryEntry = DirectoryEntry(
    name: seq<Byte>,
    attribute: Byte,
    firstClusterHigh: U16,
    firstCluster: U16,
    fileSize: U32)

  const FILE_VOLUME := 8
  const FILE_DIRECTORY := 16

  predicate HasBit(x: Byte, bit: int)
    requires bit > 0
  {
    (x / bit) % 2 == 1
  }

  predicate IsVolume(e: DirectoryEntry) {
    HasBit(e.attribute, FILE_VOLUME)
  }

  predicate IsFile(e: DirectoryEntry) {
    !HasBit(e.attribute, FILE_VOLUME) && !HasBit(e.attribute, FILE_DIRECTORY)
  }

  function EntryAt(s: Sector, i: nat): (e: DirectoryEntry)
    requires i < 16
    ensures |e.name| == 11
  {
    var b := 32 * i;
    DirectoryEntry(s[b..b + 11], s[b + 11], Le16(s, b + 20), Le16(s, b + 26), Le32(s, b + 28))
  }

  function EntryCluster(e: DirectoryEntry): U32 {
    e.firstCluster + 0x1_0000 * e.firstClusterHigh
  }

  /** What an enumeration does on meeting an entry. */
  datatype Verdict = Terminator | Skipped | Listed

  function Judge(e: DirectoryEntry): Verdict
    requires |e.name| == 11
  {
    if e.name[0] == 0 then Terminator
    else if IsVolume(e) || e.name[0] == 0x2e || e.name[0] == 0xe5 then Skipped
    else Listed
  }

  /** The k-th 32-byte entry of a directory stream. */
  function DirEntry(l: Layout, disk: Disk, st: Stream, k: nat): (e: DirectoryEntry)
    requires l.clusterSize > 0
    ensures |e.name| == 11
  {
    EntryAt(StreamData(l, disk, st, k / 16), k % 16)
  }

  predicate DirReaches(l: Layout, disk: Disk, st: Stream, k: nat)
    requires l.clusterSize > 0
  {
    StreamSector(l, disk, st, k / 16).Some?
  }

  /** Enumeration passes over entry k without reporting it. */
  predicate PassesOver(l: Layout, disk: Disk, st: Stream, k: nat)
    requires l.clusterSize > 0
  {
    DirReaches(l, disk, st, k) && Judge(DirEntry(l, disk, st, k)).Skipped?
  }

  /** Enumeration cannot go past index k: the table ends there or the chain breaks. */
  predicate EndsAt(l: Layout, disk: Disk, st: Stream, k: nat)
    requires l.clusterSize > 0
  {
    !DirReaches(l, disk, st, k) || Judge(DirEntry(l, disk, st, k)).Terminator?
  }

  // ------------------------------------------------- directories, byte by byte

  /** The bytes 32 * k .. 32 * k + 31 of a stream are a directory entry with these fields. */
  ghost predicate Spells(l: Layout, disk: Disk, st: Stream, k: nat, e: DirectoryEntry)
    requires l.clusterSize > 0
  {
    var p := 32 * k;
    && e.name == StreamBytes(l, disk, st, p, 11)
    && e.attribute == StreamByte(l, disk, st, p + 11)
    && e.firstCluster + 0x1_0000 * e.firstClusterHigh == SpeltCluster(l, disk, st, k)
    && e.fileSize
       == StreamByte(l, disk, st, p + 28) + 0x100 * StreamByte(l, disk, st, p + 29)
          + 0x1_0000 * StreamByte(l, disk, st, p + 30) + 0x100_0000 * StreamByte(l, disk, st, p + 31)
  }

  /** The first cluster in entry k: its low word after its high word. */
  ghost function SpeltCluster(l: Layout, disk: Disk, st: Stream, k: nat): U32
    requires l.clusterSize > 0
  {
    var p := 32 * k;
    StreamByte(l, disk, st, p + 26) + 0x100 * StreamByte(l, disk, st, p + 27)
    + 0x1_0000 * StreamByte(l, disk, st, p + 20) + 0x100_0000 * StreamByte(l, disk, st, p + 21)
  }

  /** Entry k is there and does not end the table. */
  ghost predicate Continues(l: Layout, disk: Disk, st: Stream, k: nat)
    requires l.clusterSize > 0
  {
    ByteReached(l, disk, st, 32 * k) && StreamByte(l, disk, st, 32 * k) != 0
  }

  /** Entry k is a file or a directory: no volume label, long-name fragment, dot entry or deleted entry. */
  ghost predicate Reported(l: Layout, disk: Disk, st: Stream, k: nat)
    requires l.clusterSize > 0
  {
    var first := StreamByte(l, disk, st, 32 * k);
    Continues(l, disk, st, k) && StreamByte(l, disk, st, 32 * k + 11) / 8 % 2 == 0 && first != 0x2e && first != 0xe5
  }

  /** Neither bit 3 nor bit 4 of the attribute of entry k is set. */
  ghost predicate PlainFile(l: Layout, disk: Disk, st: Stream, k: nat)
    requires l.clusterSize > 0
  {
    var attribute := StreamByte(l, disk, st, 32 * k + 11);
    attribute / 8 % 2 == 0 && attribute / 16 % 2 == 0
  }

  ghost predicate BearsName(l: Layout, disk: Disk, st: Stream, k: nat, name: seq<Byte>)
    requires l.clusterSize > 0
  {
    Reported(l, disk, st, k) && StreamBytes(l, disk, st, 32 * k, 11) == name
  }

  /** Entry j is the first one to be reported whose bytes start with the name. */
  ghost predicate FirstBearing(l: Layout, disk: Disk, st: Stream, j: nat, name: seq<Byte>)
    requires l.clusterSize > 0
  {
    && BearsName(l, disk, st, j, name)
    && forall i :: 0 <= i < j ==> Continues(l, disk, st, i) && !BearsName(l, disk, st, i, name)
  }

  /** These are, in order, all the indices from k on, before the end of the table, that are to be reported. */
  ghost predicate AllReported(l: Layout, disk: Disk, st: Stream, k: nat, bound: nat, s: seq<nat>)
    requires l.clusterSize > 0
  {
    && Ascending(s, k)
    && (forall n: nat :: n in s <==>
          k <= n < bound && Reported(l, disk, st, n) && forall j :: k <= j < n ==> Continues(l, disk, st, j))
  }

  ghost predicate Ascending(s: seq<nat>, k: nat) {
    (forall i :: 0 <= i < |s| ==> s[i] >= k) && forall i, j :: 0 <= i < j < |s| ==> s[i] < s[j]
  }

  ghost function ReportedFrom(l: Layout, disk: Disk, st: Stream, k: nat, bound: nat): seq<nat>
    requires l.clusterSize > 0
    decreases bound - k
  {
    if k >= bound || !Continues(l, disk, st, k) then []
    else (if Reported(l, disk, st, k) then [k] else []) + ReportedFrom(l, disk, st, k + 1, bound)
  }

  lemma {:induction false} ReportedIff(l: Layout, disk: Disk, st: Stream, k: nat, bound: nat, n: nat)
    requires l.clusterSize > 0
    ensures n in ReportedFrom(l, disk, st, k, bound) <==>
      k <= n < bound && Reported(l, disk, st, n) && forall j :: k <= j < n ==> Continues(l, disk, st, j)
    decreases bound - k
  {
    hide StreamByte, ByteReached;
    if k < bound && Continues(l, disk, st, k) {
      ReportedIff(l, disk, st, k + 1, bound, n);
      hide Reported, Continues;
      if n > k {
        assert (forall j :: k <= j < n ==> Continues(l, disk, st, j))
          <==> forall j :: k + 1 <= j < n ==> Continues(l, disk, st, j);
      }
    }
  }

  lemma {:induction false} ReportedInOrder(l: Layout, disk: Disk, st: Stream, k: nat, bound: nat)
    requires l.clusterSize > 0
    ensures Ascending(ReportedFrom(l, disk, st, k, bound), k)
    decreases bound - k
  {
    hide Reported, Continues, Ascending;
    NoneReported(k);
    if k < bound && Continues(l, disk, st, k) {
      ReportedInOrder(l, disk, st, k + 1, bound);
      InOrder(if Reported(l, disk, st, k) then [k] else [], ReportedFrom(l, disk, st, k + 1, bound), k);
    }
  }

  lemma {:induction false} InOrder(first: seq<nat>, rest: seq<nat>, k: nat)
    requires first == [] || first == [k]
    requires Ascending(rest, k + 1)
    ensures Ascending(first + rest, k)
  {
  }

  lemma {:induction false} NoneReported(k: nat)
    ensures Ascending([], k)
  {
  }

  lemma {:induction false} ReportedFromAll(l: Layout, disk: Disk, st: Stream, k: nat, bound: nat)
    requires l.clusterSize > 0
    ensures AllReported(l, disk, st, k, bound, ReportedFrom(l, disk, st, k, bound))
  {
    hide Reported, Continues, ReportedFrom, Ascending;
    ReportedInOrder(l, disk, st, k, bound);
    forall n: nat
      ensures n in ReportedFrom(l, disk, st, k, bound) <==>
        k <= n < bound && Reported(l, disk, st, n) && forall j :: k <= j < n ==> Continues(l, disk, st, j)
    {
      ReportedIff(l, disk, st, k, bound, n);
    }
  }

  /** The fields of an entry are where the specification has them. */
  lemma {:induction false} EntryFields(l: Layout, disk: Disk, st: Stream, k: nat)
    requires l.clusterSize > 0
    ensures Spells(l, disk, st, k, DirEntry(l, disk, st, k))
  {
    hide StreamData, StreamByte, ByteReached, DirReaches;
    var s, b := StreamData(l, disk, st, k / 16), 32 * (k % 16);
    var name := DirEntry(l, disk, st, k).name;
    forall i | 0 <= i < 11
      ensures name[i] == StreamBytes(l, disk, st, 32 * k, 11)[i]
    {
      ByteOfEntry(l, disk, st, k, i);
      assert name[i] == s[b..b + 11][i] == s[b + i];
    }
    ByteOfEntry(l, disk, st, k, 11);
    ByteOfEntry(l, disk, st, k, 20);
    ByteOfEntry(l, disk, st, k, 21);
    ByteOfEntry(l, disk, st, k, 26);
    ByteOfEntry(l, disk, st, k, 27);
    ByteOfEntry(l, disk, st, k, 28);
    ByteOfEntry(l, disk, st, k, 29);
    ByteOfEntry(l, disk, st, k, 30);
    ByteOfEntry(l, disk, st, k, 31);
  }

  /** The same, for whoever holds the sector that the entry is in. */
  lemma {:induction false} EntryInSector(l: Layout, disk: Disk, st: Stream, k: nat)
    requires l.clusterSize > 0
    ensures DirReaches(l, disk, st, k) <==> StreamSector(l, disk, st, k / 16).Some?
    ensures DirReaches(l, disk, st, k) ==>
      DirEntry(l, disk, st, k) == EntryAt(disk(StreamSector(l, disk, st, k / 16).value), k % 16)
    ensures Spells(l, disk, st, k, DirEntry(l, disk, st, k))
  {
    EntryFields(l, disk, st, k);
    hide StreamSector, EntryAt, Spells;
  }

  lemma {:induction false} ByteOfEntry(l: Layout, disk: Disk, st: Stream, k: nat, i: nat)
    requires l.clusterSize > 0 && i < 32
    ensures StreamByte(l, disk, st, 32 * k + i) == StreamData(l, disk, st, k / 16)[32 * (k % 16) + i]
    ensures ByteReached(l, disk, st, 32 * k + i) <==> DirReaches(l, disk, st, k)
  {
    hide StreamData, StreamSector;
    assert (32 * k + i) / 512 == k / 16 && (32 * k + i) % 512 == 32 * (k % 16) + i;
  }

  lemma {:induction false} VerdictBytes(e: DirectoryEntry)
    requires |e.name| == 11
    ensures Judge(e).Terminator? <==> e.name[0] == 0
    ensures Judge(e).Listed? <==>
      e.name[0] != 0 && e.attribute / 8 % 2 == 0 && e.name[0] != 0x2e && e.name[0] != 0xe5
    ensures IsFile(e) <==> e.attribute / 8 % 2 == 0 && e.attribute / 16 % 2 == 0
  {
  }

  lemma {:induction false} FirstAndAttribute(l: Layout, disk: Disk, st: Stream, k: nat)
    requires l.clusterSize > 0
    ensures DirEntry(l, disk, st, k).name[0] == StreamByte(l, disk, st, 32 * k)
    ensures DirEntry(l, disk, st, k).attribute == StreamByte(l, disk, st, 32 * k + 11)
  {
    hide DirEntry, StreamByte, SpeltCluster;
    EntryFields(l, disk, st, k);
    assert DirEntry(l, disk, st, k).name[0] == StreamBytes(l, disk, st, 32 * k, 11)[0];
  }

  /** What an enumeration does at index k, by the bytes there. */
  lemma {:induction false} StopBytes(l: Layout, disk: Disk, st: Stream, k: nat)
    requires l.clusterSize > 0
    ensures EndsAt(l, disk, st, k) <==> !Continues(l, disk, st, k)
    ensures PassesOver(l, disk, st, k) <==> Continues(l, disk, st, k) && !Reported(l, disk, st, k)
    ensures DirReaches(l, disk, st, k) <==> ByteReached(l, disk, st, 32 * k)
    ensures DirReaches(l, disk, st, k) && Judge(DirEntry(l, disk, st, k)).Listed? <==> Reported(l, disk, st, k)
    ensures IsFile(DirEntry(l, disk, st, k)) <==> PlainFile(l, disk, st, k)
  {
    hide StreamByte, DirEntry, DirReaches, ByteReached, Judge, IsFile;
    FirstAndAttribute(l, disk, st, k);
    VerdictBytes(DirEntry(l, disk, st, k));
    ByteOfEntry(l, disk, st, k, 0);
  }

  function RootStream(l: Layout): Stream {
    if l.fatType.Fat32? then Chained(l.rootDir) else Flat(l.rootDir)
  }

  // ---------------------------------------------------------------- enumeration

  /** The first index from k on that enumeration does not pass over, at most `bound`. */
  function FirstStop(l: Layout, disk: Disk, st: Stream, k: nat, bound: nat): (stop: nat)
    requires l.clusterSize > 0 && k <= bound
    ensures k <= stop <= bound
    ensures forall i :: k <= i < stop ==> PassesOver(l, disk, st, i)
    ensures stop < bound ==> !PassesOver(l, disk, st, stop)
    decreases bound - k
  {
    if k == bound || !PassesOver(l, disk, st, k) then k else FirstStop(l, disk, st, k + 1, bound)
  }

  /** The first index from k on at which an enumeration ends or reports an entry of this name. */
  function FindStop(l: Layout, disk: Disk, st: Stream, k: nat, bound: nat, name: seq<Byte>): (stop: nat)
    requires l.clusterSize > 0 && k <= bound
    ensures k <= stop <= bound
    decreases bound - k
  {
    var stop := FirstStop(l, disk, st, k, bound);
    if stop == bound || EndsAt(l, disk, st, stop) || DirEntry(l, disk, st, stop).name == name then stop
    else FindStop(l, disk, st, stop + 1, bound, name)
  }

  /** Entry j is reported by an enumeration and carries the given name. */
  predicate Names(l: Layout, disk: Disk, st: Stream, j: nat, name: seq<Byte>)
    requires l.clusterSize > 0
  {
    && DirReaches(l, disk, st, j)
    && Judge(DirEntry(l, disk, st, j)).Listed?
    && DirEntry(l, disk, st, j).name == name
  }

  /** A scan for a name need not go past index k. */
  predicate ScanEndsAt(l: Layout, disk: Disk, st: Stream, k: nat, name: seq<Byte>)
    requires l.clusterSize > 0
  {
    EndsAt(l, disk, st, k) || Names(l, disk, st, k, name)
  }

  /** None of the first k entries ends the table or carries the name. */
  ghost predicate NoneBefore(l: Layout, disk: Disk, st: Stream, k: nat, name: seq<Byte>)
    requires l.clusterSize > 0
  {
    forall i :: 0 <= i < k ==> !EndsAt(l, disk, st, i) && !Names(l, disk, st, i, name)
  }

  /** Among the entries before the end of the table, j is the first with the given name. */
  ghost predicate FirstNamed(l: Layout, disk: Disk, st: Stream, j: nat, name: seq<Byte>)
    requires l.clusterSize > 0
  {
    Names(l, disk, st, j, name) && NoneBefore(l, disk, st, j, name)
  }

  /** The same, by the bytes of the directory. */
  lemma {:induction false} NamedBytes(l: Layout, disk: Disk, st: Stream, j: nat, name: seq<Byte>)
    requires l.clusterSize > 0
    ensures FirstNamed(l, disk, st, j, name) <==> FirstBearing(l, disk, st, j, name)
    ensures EntryCluster(DirEntry(l, disk, st, j)) == SpeltCluster(l, disk, st, j)
    ensures IsFile(DirEntry(l, disk, st, j)) <==> PlainFile(l, disk, st, j)
    ensures Spells(l, disk, st, j, DirEntry(l, disk, st, j))
  {
    hide EndsAt, Names, BearsName, Continues, DirEntry, SpeltCluster, PlainFile, IsFile, StreamByte, StreamBytes;
    EntryFields(l, disk, st, j);
    NameBytes(l, disk, st, j, name);
    forall i | 0 <= i < j
      ensures EndsAt(l, disk, st, i) <==> !Continues(l, disk, st, i)
      ensures Names(l, disk, st, i, name) <==> BearsName(l, disk, st, i, name)
    {
      NameBytes(l, disk, st, i, name);
    }
  }

  lemma {:induction false} NameBytes(l: Layout, disk: Disk, st: Stream, j: nat, name: seq<Byte>)
    requires l.clusterSize > 0
    ensures EndsAt(l, disk, st, j) <==> !Continues(l, disk, st, j)
    ensures Names(l, disk, st, j, name) <==> BearsName(l, disk, st, j, name)
    ensures IsFile(DirEntry(l, disk, st, j)) <==> PlainFile(l, disk, st, j)
  {
    StopBytes(l, disk, st, j);
    EntryFields(l, disk, st, j);
    hide DirEntry, Continues, Reported, PlainFile, IsFile, EndsAt, Judge, DirReaches, StreamBytes, SpeltCluster;
  }
}
