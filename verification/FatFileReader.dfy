/** filesystem/fat_file_reader.h: the reader, its one-sector cache and its handles. */
module FatFileReader {
  import opened Words
  import opened FatFormat
  import opened FatVolumes
  import opened MediaAccess

  datatype Status = Ok | ErrorInit | ErrorRead | ErrorDiskFormat | ErrorNoFat
                  | ErrorNoMoreFiles | ErrorBadFile | ErrorFileNotFound

  /** The number a Status is when returned where a byte count is expected. */
  const FFR_ERROR_READ: U16 := 2

  datatype HandleType = DirHandle | FileHandle

  function Prev(sector: U32): U32 {
    Wrap32(sector - 1)
  }

  /**
   * cluster (`link` links down the chain), position and sector designate sector
   * number q of the stream; position may stand at the end of the cluster before.
   */
  ghost predicate Located(l: Layout, disk: Disk, st: Stream, link: nat, q: nat,
                          cluster: U32, position: Byte, sector: U32)
    requires l.clusterSize > 0
  {
    match st
    case Flat(start) => cluster == 0 && sector == Wrap32(start + q)
    case Chained(first) =>
      && position <= l.clusterSize
      && q == link * l.clusterSize + position
      && ChainCluster(l, disk, first, link) == Some(cluster)
      && sector == ClusterSector(l, cluster, position)
  }

  /** The entry of a handle that has been cleared. */
  function BlankEntry(): (e: DirectoryEntry)
    ensures |e.name| == 11
  {
    DirectoryEntry(seq(11, _ => 0), 0, 0, 0, 0)
  }

  class FsHandle {
    var kind: HandleType
    var clusterPosition: Byte
    var cursor: U16
    var cluster: U32
    var sector: U32
    var currentSector: U32
    var entry: DirectoryEntry

    ghost var stream: Stream  // what is being read
    ghost var link: nat       // cluster is this many links down the chain
    ghost var fetched: nat    // sectors of the stream fetched so far

    constructor ()
      ensures entry == DirectoryEntry([], 0, 0, 0, 0)
      ensures cluster == 0 && sector == 0 && clusterPosition == 0 && cursor == 0 && link == 0 && fetched == 0
    {
      kind, clusterPosition, cursor, cluster, sector, currentSector := DirHandle, 0, 0, 0, 0, 0;
      entry := DirectoryEntry([], 0, 0, 0, 0);
      stream, link, fetched := Flat(0), 0, 0;
    }

    ghost predicate Tracks(l: Layout, disk: Disk)
      requires l.clusterSize > 0
      reads `stream, `link, `fetched, `cluster, `clusterPosition, `sector
    {
      Located(l, disk, stream, link, fetched, cluster, clusterPosition, sector)
    }

    /** Part of a fetched sector is still to be consumed. */
    predicate Mid()
      reads `kind, `cursor
    {
      if kind.FileHandle? then cursor != 0 else cursor % 16 != 0
    }

    ghost predicate Positioned(l: Layout, disk: Disk)
      requires l.clusterSize > 0
      reads `kind, `cursor, `stream, `link, `fetched, `cluster, `clusterPosition, `sector
    {
      && Tracks(l, disk)
      && (kind.FileHandle? ==> cursor < 512)
      && (Mid() ==> fetched > 0 && StreamSector(l, disk, stream, fetched - 1) == Some(Prev(sector)))
    }

    /** What safe mode needs of a handle; nothing here depends on the shared cache. */
    ghost predicate Seated(l: Layout, disk: Disk)
      requires l.clusterSize > 0
      reads `kind, `cursor, `stream, `link, `fetched, `cluster, `clusterPosition, `sector, `currentSector
    {
      Positioned(l, disk) && (Mid() ==> currentSector == Prev(sector))
    }

    /** Offset of the next byte (files) or index of the next entry (directories). */
    ghost function Position(): nat
      reads `kind, `cursor, `fetched
    {
      if kind.FileHandle? then
        if cursor != 0 && fetched > 0 then 512 * (fetched - 1) + cursor else 512 * fetched
      else
        if cursor % 16 != 0 && fetched > 0 then 16 * (fetched - 1) + cursor % 16 else 16 * fetched
    }
  }

  class Reader {
    const safe: bool
    const media: Media
    const sector: array<Byte>
    var fetchedSector: U32
    var fatType: FatType
    var clusterSize: Byte
    var rootDir: U32
    var fatSector: U32
    var dataSector: U32

    constructor (safe: bool, media: Media)
      ensures this.safe == safe && this.media == media
      ensures Valid() && fresh(sector) && fatType.Unknown?
      ensures fetchedSector == 0 && forall i :: 0 <= i < 512 ==> sector[i] == 0
    {
      this.safe, this.media := safe, media;
      sector := new Byte[512](_ => 0);
      fetchedSector, fatType, clusterSize := 0, Unknown, 0;
      rootDir, fatSector, dataSector := 0, 0, 0;
    }

    ghost predicate Valid() {
      sector.Length == 512
    }

    function Layout(): Layout
      reads `fatType, `clusterSize, `rootDir, `fatSector, `dataSector
    {
      FatFormat.Layout.Layout(fatType, clusterSize, rootDir, fatSector, dataSector)
    }

    /** The cache tag tells the truth: what safe mode relies on. */
    ghost predicate Coherent()
      reads this, sector
    {
      sector[..] == media.disk(fetchedSector)
    }

    ghost predicate Mounted()
      reads this, sector
      ensures Mounted() ==> Valid() && clusterSize > 0
    {
      Valid() && WellFormed(Layout()) && (safe ==> media.Quiet() && Coherent())
    }

    /**
     * The reader can serve h. In safe mode the tag says whether the cache must be
     * reloaded; otherwise the cache itself must hold the sector h is in the middle of.
     */
    ghost predicate Ready(h: FsHandle)
      reads this, sector
      reads h`kind, h`cursor, h`stream, h`link, h`fetched, h`cluster, h`clusterPosition, h`sector, h`currentSector
      ensures Ready(h) ==> Mounted()
    {
      && Mounted()
      && h.Positioned(Layout(), media.disk)
      && (h.Mid() ==>
            if safe then h.currentSector == Prev(h.sector)
            else sector[..] == media.disk(Prev(h.sector)))
    }

    /** Ready, with the cache already holding the sector h is in the middle of. */
    ghost predicate Loaded(h: FsHandle)
      reads this, sector
      reads h`kind, h`cursor, h`stream, h`link, h`fetched, h`cluster, h`clusterPosition, h`sector, h`currentSector
      ensures Loaded(h) ==> Mounted()
    {
      && Mounted()
      && h.Positioned(Layout(), media.disk)
      && (h.Mid() ==> sector[..] == media.disk(Prev(h.sector)) && (safe ==> h.currentSector == Prev(h.sector)))
    }

    // ------------------------------------------------------------- sector level

    method ReadSector(address: U32) returns (failed: bool)
      requires Valid()
      modifies this`fetchedSector, sector, media
      ensures failed == media.fate(old(media.served)).Failed? && media.served == old(media.served) + 1
      ensures media.faults == old(media.faults) + if failed then 1 else 0
      ensures failed ==> !media.Reliable()
      ensures !failed ==> sector[..] == media.disk(address)
      ensures !failed ==> fetchedSector == if safe then address else old(fetchedSector)
      ensures failed ==> fetchedSector == old(fetchedSector)
      ensures failed && media.Quiet() ==> sector[..] == old(sector[..])
    {
      failed := media.ReadSector(address, sector);
      if !failed {
        if safe {
          fetchedSector := address;
        }
      }
    }

    /** Safe mode fails to restore its cache: another sector is in it, and the first read fails. */
    ghost predicate CannotSync(h: FsHandle)
      reads this, media, h`currentSector
    {
      safe && fetchedSector != h.currentSector && media.fate(media.served).Failed?
    }

    method SyncCache(h: FsHandle) returns (failed: bool)
      requires Valid() && safe && media.Quiet() && Coherent()
      modifies this`fetchedSector, sector, media
      ensures Coherent()
      ensures failed <==> old(fetchedSector) != h.currentSector && media.fate(old(media.served)).Failed?
      ensures media.served == old(media.served) + if old(fetchedSector) != h.currentSector then 1 else 0
      ensures media.faults == old(media.faults) + if failed then 1 else 0
      ensures failed ==> !media.Reliable()
      ensures !failed ==> fetchedSector == h.currentSector
    {
      failed := false;
      if fetchedSector != h.currentSector {
        failed := ReadSector(h.currentSector);
      }
    }

    function IsValidCluster(c: U32): bool
      reads this
      ensures fatType != Unknown ==> IsValidCluster(c) == ValidCluster(Layout(), c)
    {
      if fatType.Fat16? then 2 <= c && c <= 0xffef else 2 <= c && c <= 0x0fff_ffef
    }

    method ClusterToSector(cluster: U32) returns (address: U32)
      requires cluster >= 2
      ensures address == Wrap32(dataSector + (cluster - 2) * Pow2Floor(clusterSize))
      ensures PowerOfTwo(clusterSize) ==> address == ClusterSector(Layout(), cluster, 0)
    {
      hide PowerOfTwo, ClusterSector, Pow2Floor;
      ShiftLoopScale(cluster - 2, clusterSize);
      FirstSector(Layout(), cluster);
      var c: U32 := Wrap32(cluster - 2);
      var shift := clusterSize / 2;
      while shift > 0
        invariant 0 <= shift
        invariant ShiftLoop(c, shift) == ShiftLoop(Wrap32(cluster - 2), clusterSize / 2)
        decreases shift
      {
        shift := shift / 2;
        c := Wrap32(c * 2);
      }
      AddMod((cluster - 2) * Pow2Floor(clusterSize), dataSector);
      address := Wrap32(c + dataSector);
    }

    method NextCluster(c: U32) returns (next: U32)
      requires Valid() && fatType != Unknown
      modifies this`fetchedSector, sector, media
      ensures media.FaultsSince(old(media.faults))
      ensures media.faults == old(media.faults) && c >= 2 ==> next == FatEntry(Layout(), media.disk, c)
      ensures media.faults != old(media.faults) || c < 2 ==> next == 0
      ensures media.faults == old(media.faults) && c >= 2 ==> LinkSpelt(Layout(), media.disk, c, next)
      ensures safe && media.Quiet() && old(Coherent()) ==> Coherent()
    {
      if c < 2 {
        return 0;
      }
      FatEntryBytes(Layout(), media.disk, c);
      hide LinkSpelt;
      var fatAddress := fatSector;
      fatAddress := Wrap32(fatAddress + if fatType.Fat16? then c / 0x100 else c / 0x80);
      var failed := ReadSector(fatAddress);
      if failed {
        return 0;
      }
      FatEntrySplit(Layout(), media.disk, c);
      next := if fatType.Fat16? then Le16(sector[..], 2 * (c % 0x100))
              else Le32(sector[..], 4 * (c % 0x80)) % 0x1000_0000;
    }

    /** One sector was asked for and, unless the medium failed, is in the cache now. */
    ghost predicate OneRead(failed: bool, asked: nat, before: U32, address: U32)
      reads `fetchedSector, media
    {
      && media.served == asked + 1 && (failed <==> media.fate(asked).Failed?)
      && (safe ==> fetchedSector == if media.fate(asked).Failed? then before else address)
    }

    /** At a cluster's end: moves h to the next cluster of the chain. */
    method EnterNextCluster(h: FsHandle) returns (status: Status)
      requires Mounted() && h.Tracks(Layout(), media.disk)
      requires h.cluster != 0 && h.clusterPosition == clusterSize
      modifies this`fetchedSector, sector, media
      modifies h`clusterPosition, h`cluster, h`sector, h`link
      ensures Mounted() && h.Tracks(Layout(), media.disk)
      ensures media.FaultsSince(old(media.faults))
      ensures status.Ok? ==> h.clusterPosition == 0 && h.cluster != 0
      ensures !status.Ok? ==>
        && status.ErrorRead?
        && (media.faults > old(media.faults) || StreamSector(Layout(), media.disk, h.stream, h.fetched).None?)
    {
      hide StreamSector, ChainCluster, Located, PowerOfTwo, FatEntry, Pow2Floor, ClusterSector;
      ghost var l, disk := Layout(), media.disk;
      LinkStep(l, disk, h.stream, h.link, h.fetched, h.cluster, h.sector);
      var next := NextCluster(h.cluster);
      if next == 0 {
        return ErrorRead;
      } else if !IsValidCluster(next) {
        return ErrorRead;
      }
      h.cluster := next;
      h.sector := ClusterToSector(h.cluster);
      h.clusterPosition := 0;
      h.link := h.link + 1;
      return Ok;
    }

    /** Fetches sector number h.fetched of the stream, following the FAT at a cluster's end. */
    method ReadNextSector(h: FsHandle) returns (status: Status)
      requires Mounted() && h.Tracks(Layout(), media.disk)
      modifies this`fetchedSector, sector, media
      modifies h`clusterPosition, h`cluster, h`sector, h`currentSector, h`link, h`fetched
      ensures Mounted() && h.Tracks(Layout(), media.disk)
      ensures media.FaultsSince(old(media.faults))
      ensures status.Ok? || status.ErrorRead?
      ensures old(h.cluster) == 0 ==> OneRead(status.ErrorRead?, old(media.served), old(fetchedSector), old(h.sector))
      ensures status.Ok? ==>
        && h.fetched == old(h.fetched) + 1
        && StreamSector(Layout(), media.disk, h.stream, h.fetched - 1) == Some(Prev(h.sector))
        && sector[..] == media.disk(Prev(h.sector))
        && (safe ==> h.currentSector == Prev(h.sector))
      ensures !status.Ok? ==>
        && h.fetched == old(h.fetched)
        && h.currentSector == old(h.currentSector)
        && (media.faults > old(media.faults) || StreamSector(Layout(), media.disk, h.stream, h.fetched).None?)
    {
      hide StreamSector, ChainCluster, Located, PowerOfTwo, Media.Reliable, OneRead;
      ghost var l, disk := Layout(), media.disk;
      PositionBound(l, disk, h.stream, h.link, h.fetched, h.cluster, h.clusterPosition, h.sector);
      if h.cluster != 0 && h.clusterPosition == clusterSize {
        status := EnterNextCluster(h);
        if !status.Ok? {
          return ErrorRead;
        }
      }
      status := ReadHere(h);
    }

    /** The second half of ReadNextSector: the sector the handle stands at, inside a cluster. */
    method ReadHere(h: FsHandle) returns (status: Status)
      requires Mounted() && h.Tracks(Layout(), media.disk)
      requires h.cluster != 0 ==> h.clusterPosition < clusterSize
      modifies this`fetchedSector, sector, media
      modifies h`clusterPosition, h`sector, h`currentSector, h`fetched
      ensures Mounted() && h.Tracks(Layout(), media.disk)
      ensures media.FaultsSince(old(media.faults))
      ensures status.Ok? || status.ErrorRead?
      ensures OneRead(status.ErrorRead?, old(media.served), old(fetchedSector), old(h.sector))
      ensures status.Ok? ==>
        && h.fetched == old(h.fetched) + 1
        && StreamSector(Layout(), media.disk, h.stream, h.fetched - 1) == Some(Prev(h.sector))
        && sector[..] == media.disk(Prev(h.sector))
        && (safe ==> h.currentSector == Prev(h.sector))
      ensures !status.Ok? ==>
        && h.fetched == old(h.fetched) && h.currentSector == old(h.currentSector)
        && media.faults > old(media.faults)
    {
      hide StreamSector, ChainCluster, Located, PowerOfTwo, Media.Reliable;
      ghost var l, disk := Layout(), media.disk;
      FetchSector(l, disk, h.stream, h.link, h.fetched, h.cluster, h.clusterPosition, h.sector);
      FetchStep(l, disk, h.stream, h.link, h.fetched, h.cluster, h.clusterPosition, h.sector);
      var failed := ReadSector(h.sector);
      if failed {
        return ErrorRead;
      }
      if safe {
        h.currentSector := h.sector;
      }
      SuccMod(h.sector);
      h.sector := Wrap32(h.sector + 1);
      h.clusterPosition := Wrap8(h.clusterPosition + 1);
      h.fetched := h.fetched + 1;
      return Ok;
    }

    // ---------------------------------------------------------------- mounting

    method FindBootSector(address: U32) returns (status: Status)
      requires Valid()
      modifies this`fetchedSector, this`fatType, sector, media
      ensures media.FaultsSince(old(media.faults))
      ensures status.ErrorRead? <==> media.faults > old(media.faults)
      ensures media.served == old(media.served) + 1
      ensures status.ErrorRead? <==> media.fate(old(media.served)).Failed?
      ensures !status.ErrorRead? ==>
        sector[..] == media.disk(address) && fetchedSector == if safe then address else old(fetchedSector)
      ensures status.Ok? || status.ErrorRead? || status.ErrorDiskFormat? || status.ErrorNoFat?
      ensures status.Ok? ==> fatType == Detected(media.disk(address)) && !fatType.Unknown?
      ensures !status.Ok? ==> fatType == old(fatType)
      ensures status.ErrorDiskFormat? || status.ErrorNoFat? ==>
        && Detected(media.disk(address)).Unknown?
        && (status.ErrorDiskFormat? <==> Le16(media.disk(address), 510) != 0xaa55)
    {
      var failed := ReadSector(address);
      if failed {
        return ErrorRead;
      }
      if Le16(sector[..], 510) != 0xaa55 {
        return ErrorDiskFormat;
      }
      if sector[54] == 0x46 && sector[55] == 0x41 {
        fatType := Fat16;
        return Ok;
      }
      if sector[82] == 0x46 && sector[83] == 0x41 {
        fatType := Fat32;
        return Ok;
      }
      return ErrorNoFat;
    }

    /**
     * Locates the volume and its areas. For a valid boot record of a volume inside the sector
     * space the layout is the specification's exactly when the record is understood.
     */
    method Init() returns (status: Status)
      requires Valid()
      modifies this, sector, media
      ensures media.FaultsSince(old(media.faults))
      ensures status.Ok? ==>
        && media.faults == old(media.faults)
        && (safe ==> Coherent())
        && (var boot := BootSector(media.disk); var b := media.disk(boot);
            && boot == (if Detected(media.disk(0)).Unknown? then PartitionStart(media.disk(0), 0) else 0)
            && fatType == Detected(b) && !fatType.Unknown?
            && Layout() == LayoutRead(b, fatType, boot, safe)
            && (ValidBoot(b) && Fits(b, boot) ==> (LayoutIs(Layout(), b, boot) <==> Understood(b, safe)))
            && (ValidBoot(b) && RootInRange(b) && (safe ==> media.Quiet()) ==> Mounted()))
      ensures !media.initFails && media.fate(old(media.served)).Served? && !Detected(media.disk(0)).Unknown? ==>
        status.Ok? && media.served == old(media.served) + 1 && (safe ==> fetchedSector == 0)
      ensures !status.Ok? && media.faults == old(media.faults) && !media.initFails ==>
        && Detected(media.disk(0)).Unknown?
        && (Le16(media.disk(0), 510) == 0xaa55 ==> Detected(media.disk(BootSector(media.disk))).Unknown?)
    {
      hide Le16, Le32, Detected, LayoutIs, Understood, ValidBoot, Fits, LayoutRead, WellFormed, RootInRange;
      fatType := Unknown;
      if media.initFails {
        return ErrorInit;
      }
      var boot: U32 := 0;
      status := FindBootSector(boot);
      if status == ErrorRead || status == ErrorDiskFormat {
        return status;
      }
      if status == ErrorNoFat {
        FirstPartition(sector[..]);
        boot := Le32(sector[..], 454);
        status := FindBootSector(boot);
        if status != Ok {
          return status;
        }
      }
      ReadLayout(boot);
      if ValidBoot(sector[..]) && Fits(sector[..], boot) {
        LayoutIff(sector[..], boot, safe);
      }
      if ValidBoot(sector[..]) && RootInRange(sector[..]) {
        ReadableLayout(sector[..], boot, safe);
      }
      return Ok;
    }

    /** The second half of Init: the layout fields, from the boot record in the cache. */
    method ReadLayout(boot: U32)
      requires Valid() && !fatType.Unknown?
      modifies `clusterSize, `rootDir, `fatSector, `dataSector
      ensures Layout() == LayoutRead(sector[..], fatType, boot, safe)
    {
      hide Wrap32;
      var fatSize: U32 := Le16(sector[..], 22);
      if fatType == Fat32 {
        fatSize := Le32(sector[..], 36);
      }
      if safe {
        fatSize := Wrap32(fatSize * sector[16]);
      } else {
        if sector[16] == 2 {
          fatSize := Wrap32(fatSize + fatSize);
        }
      }
      fatSector := Wrap32(boot + Le16(sector[..], 14));
      clusterSize := sector[13];
      var start := Wrap32(fatSector + fatSize);
      rootDir := if fatType == Fat32 then Le32(sector[..], 44) else start;
      dataSector := Wrap32(start + Le16(sector[..], 17) / 16);
    }

    // ------------------------------------------------------------- directories

    method OpenRootDir(h: FsHandle) returns (status: Status)
      requires Mounted()
      modifies h
      ensures status.Ok? && Ready(h)
      ensures h.kind.DirHandle? && h.stream == RootStream(Layout()) && h.Position() == 0 && !h.Mid()
      ensures h.entry == BlankEntry() && h.currentSector == 0 && h.cursor == 0
      ensures fatType != Fat32 ==> h.cluster == 0 && h.sector == rootDir
    {
      hide PowerOfTwo, Located, ClusterSector;
      StartOfStream(Layout(), media.disk, RootStream(Layout()));
      h.kind, h.clusterPosition, h.cursor := DirHandle, 0, 0;
      h.cluster, h.sector, h.currentSector := 0, 0, 0;
      h.entry := BlankEntry();
      h.stream, h.link, h.fetched := RootStream(Layout()), 0, 0;
      if fatType == Fat32 {
        h.cluster := rootDir;
        h.sector := ClusterToSector(rootDir);
      } else {
        h.sector := rootDir;
      }
      return Ok;
    }

    /** One round of Next: consume the next entry of the directory. */
    method TakeEntry(h: FsHandle) returns (status: Status)
      requires Loaded(h) && h.kind.DirHandle?
      modifies this`fetchedSector, sector, media
      modifies h`clusterPosition, h`cursor, h`cluster, h`sector, h`currentSector, h`entry, h`link, h`fetched
      ensures Loaded(h) && media.FaultsSince(old(media.faults))
      ensures old(h.cluster) == 0 && old(h.cursor) % 16 == 0 ==>
        OneRead(status.ErrorRead?, old(media.served), old(fetchedSector), old(h.sector))
      ensures status.Ok? ==>
        && h.Position() == old(h.Position()) + 1
        && DirReaches(Layout(), media.disk, h.stream, old(h.Position()))
        && h.entry == DirEntry(Layout(), media.disk, h.stream, old(h.Position()))
        && Spells(Layout(), media.disk, h.stream, old(h.Position()), h.entry)
      ensures !status.Ok? ==>
        && status.ErrorRead? && h.Position() == old(h.Position()) && h.entry == old(h.entry)
        && (media.faults > old(media.faults) || !DirReaches(Layout(), media.disk, h.stream, h.Position()))
    {
      hide Mounted, Located, StreamSector, EntryAt, Wrap32, Prev, Media.Reliable, Spells, DirEntry, DirReaches;
      NextEntryIndex(h.cursor);
      EntryInSector(Layout(), media.disk, h.stream, h.Position());
      var offset := h.cursor % 16;
      if offset == 0 {
        status := ReadNextSector(h);
        if status != Ok {
          return ErrorRead;
        }
      }
      h.cursor := Wrap16(h.cursor + 1);
      SectorIndex(16, h.fetched - 1, offset);
      h.entry := EntryAt(sector[..], offset);
      return Ok;
    }

    /** The body of Next once the cache is known to be good. */
    method NextLoaded(h: FsHandle, ghost bound: nat) returns (status: Status)
      requires Loaded(h) && h.kind.DirHandle?
      requires h.Position() <= bound && !PassesOver(Layout(), media.disk, h.stream, bound)
      modifies this`fetchedSector, sector, media
      modifies h`clusterPosition, h`cursor, h`cluster, h`sector, h`currentSector, h`entry, h`link, h`fetched
      ensures Loaded(h) && media.FaultsSince(old(media.faults))
      ensures Advanced(Layout(), media.disk, h.stream, bound, old(h.Position()), h.Position(), status)
      ensures status.ErrorRead? && media.faults == old(media.faults) ==>
        && h.Position() == FirstStop(Layout(), media.disk, h.stream, old(h.Position()), bound)
        && !DirReaches(Layout(), media.disk, h.stream, h.Position())
      ensures h.entry == LastSeen(Layout(), media.disk, h.stream, old(h.Position()), h.Position(), old(h.entry))
      ensures old(h.cluster) == 0 && old(h.cursor) % 16 == 0 ==>
        PassesOver(Layout(), media.disk, h.stream, old(h.Position())) ||
          OneRead(status.ErrorRead?, old(media.served), old(fetchedSector), old(h.sector))
    {
      hide Media.Reliable, Loaded, Mounted, FsHandle.Position, DirReaches, DirEntry, HasBit, FirstStop, OneRead, Spells;
      ghost var l, disk, st, k := Layout(), media.disk, h.stream, h.Position();
      while true
        invariant Loaded(h) && media.FaultsSince(old(media.faults))
        invariant k <= h.Position() <= bound
        invariant FirstStop(l, disk, st, h.Position(), bound) == FirstStop(l, disk, st, k, bound)
        invariant h.entry == LastSeen(l, disk, st, k, h.Position(), old(h.entry))
        invariant !PassesOver(l, disk, st, k) ==>
          && h.Position() == k && media.served == old(media.served) && fetchedSector == old(fetchedSector)
          && h.cluster == old(h.cluster) && h.cursor == old(h.cursor) && h.sector == old(h.sector)
        decreases bound - h.Position()
      {
        StopStep(l, disk, st, h.Position(), bound);
        status := TakeEntry(h);
        if status != Ok {
          return ErrorRead;
        }
        if h.entry.name[0] == 0 {
          break;
        }
        if IsVolume(h.entry) {
          continue;
        }
        if h.entry.name[0] == 0x2e || h.entry.name[0] == 0xe5 {
          continue;
        }
        return Ok;
      }
      return ErrorNoMoreFiles;
    }

    /**
     * Reports the next listed entry. `bound` witnesses that the call can end: an index at or
     * after the current one where an entry is listed, or the table or its chain stops.
     */
    method Next(h: FsHandle, ghost bound: nat) returns (status: Status)
      requires Ready(h)
      requires safe || h.kind.DirHandle?
      requires h.kind.DirHandle? ==> h.Position() <= bound && !PassesOver(Layout(), media.disk, h.stream, bound)
      modifies this`fetchedSector, sector, media
      modifies h`clusterPosition, h`cursor, h`cluster, h`sector, h`currentSector, h`entry, h`link, h`fetched
      ensures Ready(h) && media.FaultsSince(old(media.faults))
      ensures h.kind.FileHandle? ==>
        status.ErrorNoMoreFiles? && h.Position() == old(h.Position()) && h.entry == old(h.entry)
      ensures h.kind.DirHandle? ==>
        && Advanced(Layout(), media.disk, h.stream, bound, old(h.Position()), h.Position(), status)
        && (status.ErrorRead? && media.faults == old(media.faults) ==>
              && h.Position() == FirstStop(Layout(), media.disk, h.stream, old(h.Position()), bound)
              && !DirReaches(Layout(), media.disk, h.stream, h.Position()))
        && h.entry == LastSeen(Layout(), media.disk, h.stream, old(h.Position()), h.Position(), old(h.entry))
        && Stopped(Layout(), media.disk, h.stream, old(h.Position()), h.Position(), status, h.entry)
      ensures old(StartsSector(h)) && !old(CannotSync(h)) ==>
        var asked := old(media.served) + if old(fetchedSector) != old(h.currentSector) then 1 else 0;
        OneRead(status.ErrorRead?, asked, old(h.currentSector), old(h.sector))
    {
      hide StreamSector, Located, PowerOfTwo, DirReaches, DirEntry, FirstStop, Stopped;
      if safe && h.kind != DirHandle {
        return ErrorNoMoreFiles;
      }
      if safe {
        var failed := SyncCache(h);
        if failed {
          StoppedBytes(Layout(), media.disk, h.stream, bound, h.Position(), h.Position(), ErrorRead);
          return ErrorRead;
        }
      }
      ghost var k := h.Position();
      status := NextLoaded(h, bound);
      StoppedBytes(Layout(), media.disk, h.stream, bound, k, h.Position(), status);
    }

    /** In safe mode, a directory handle outside any cluster whose next entry starts a sector and is not passed over. */
    ghost predicate StartsSector(h: FsHandle)
      requires Mounted()
      reads this, sector, h`kind, h`cluster, h`cursor, h`stream, h`fetched
    {
      && safe && h.kind.DirHandle? && h.cluster == 0 && h.cursor % 16 == 0
      && !PassesOver(Layout(), media.disk, h.stream, h.Position())
    }

    /** Turns a directory handle on a listed entry into a handle on that entry's file. */
    method OpenEntry(h: FsHandle) returns (status: Status)
      requires Mounted() && |h.entry.name| == 11
      modifies h`kind, h`clusterPosition, h`cursor, h`cluster, h`sector, h`stream, h`link, h`fetched
      ensures status.Ok? || status.ErrorBadFile?
      ensures status.Ok? <==>
        && ValidCluster(Layout(), EntryCluster(h.entry))
        && (safe ==> old(h.kind).DirHandle? && IsFile(h.entry) && h.entry.name[0] != 0 && h.entry.name[0] != 0xe5)
      ensures status.Ok? ==>
        && Ready(h) && h.kind.FileHandle? && h.Position() == 0
        && h.stream == Chained(EntryCluster(h.entry))
      ensures !status.Ok? ==>
        && h.kind == old(h.kind) && h.stream == old(h.stream) && h.Position() == old(h.Position())
        && (old(Ready(h)) ==> Ready(h))
    {
      hide PowerOfTwo, HasBit, Located, ClusterSector;
      if safe && (h.kind != DirHandle || h.entry.name[0] == 0 || h.entry.name[0] == 0xe5 || !IsFile(h.entry)) {
        return ErrorBadFile;
      }
      var cluster := EntryCluster(h.entry);
      if !IsValidCluster(cluster) {
        return ErrorBadFile;
      }
      StartOfStream(Layout(), media.disk, Chained(cluster));
      h.kind := FileHandle;
      h.cluster := cluster;
      h.clusterPosition := 0;
      h.sector := ClusterToSector(cluster);
      h.cursor := 0;
      h.stream, h.link, h.fetched := Chained(cluster), 0, 0;
      return Ok;
    }

    /** Opens the first listed entry of the root directory that has the given name. */
    method Open(name: seq<Byte>, h: FsHandle, ghost bound: nat) returns (status: Status, ghost at: nat)
      requires Mounted() && ScanEndsAt(Layout(), media.disk, RootStream(Layout()), bound, name)
      modifies this`fetchedSector, sector, media, h
      ensures Ready(h) && media.FaultsSince(old(media.faults))
      ensures status.Ok? || status.ErrorBadFile? || status.ErrorFileNotFound?
      ensures at == FindStop(Layout(), media.disk, RootStream(Layout()), 0, bound, name)
      ensures status.ErrorFileNotFound? ==>
        && h.kind.DirHandle? && h.stream == RootStream(Layout()) && h.Position() <= at + 1
        && h.entry == LastSeen(Layout(), media.disk, h.stream, 0, h.Position(), BlankEntry())
        && (media.faults == old(media.faults) ==>
              && (forall j: nat :: !FirstNamed(Layout(), media.disk, RootStream(Layout()), j, name))
              && (forall j: nat :: !FirstBearing(Layout(), media.disk, RootStream(Layout()), j, name))
              && EndsAt(Layout(), media.disk, h.stream, at)
              && h.Position() == at + if DirReaches(Layout(), media.disk, h.stream, at) then 1 else 0)
      ensures !status.ErrorFileNotFound? ==>
        && FirstNamed(Layout(), media.disk, RootStream(Layout()), at, name)
        && h.entry == DirEntry(Layout(), media.disk, RootStream(Layout()), at)
        && (status.Ok? <==> ValidCluster(Layout(), EntryCluster(h.entry)) && (safe ==> IsFile(h.entry)))
      ensures !status.ErrorFileNotFound? ==>
        && FirstBearing(Layout(), media.disk, RootStream(Layout()), at, name)
        && Spells(Layout(), media.disk, RootStream(Layout()), at, h.entry)
        && (status.Ok? <==>
              && ValidCluster(Layout(), SpeltCluster(Layout(), media.disk, RootStream(Layout()), at))
              && (safe ==> PlainFile(Layout(), media.disk, RootStream(Layout()), at)))
      ensures status.Ok? ==>
        && h.kind.FileHandle? && h.Position() == 0
        && h.stream == Chained(SpeltCluster(Layout(), media.disk, RootStream(Layout()), at))
      ensures status.ErrorBadFile? ==>
        h.kind.DirHandle? && h.Position() == at + 1 && h.stream == RootStream(Layout())
    {
      hide Mounted, FsHandle.Positioned, FsHandle.Position, DirEntry, DirReaches, HasBit, FirstStop, NoneBefore;
      hide FindStop, Media.Reliable, Stopped, Spells, FirstBearing, PlainFile, SpeltCluster, IsFile, EntryCluster;
      ghost var l, disk, st := Layout(), media.disk, RootStream(Layout());
      status := OpenRootDir(h);
      EmptyScan(l, disk, st, name);
      at := FindStop(l, disk, st, 0, bound, name);
      while true
        invariant Ready(h) && h.kind.DirHandle? && h.stream == st && |h.entry.name| == 11
        invariant media.FaultsSince(old(media.faults))
        invariant h.Position() <= bound && NoneBefore(l, disk, st, h.Position(), name)
        invariant at == FindStop(l, disk, st, h.Position(), bound, name)
        invariant h.entry == LastSeen(l, disk, st, 0, h.Position(), BlankEntry())
        decreases bound - h.Position()
      {
        ScanTo(l, disk, st, h.Position(), bound, name);
        status := Next(h, bound);
        if status != Ok {
          NothingNamed(l, disk, st, name);
          return ErrorFileNotFound, at;
        }
        if h.entry.name == name {
          NamedBytes(l, disk, st, at, name);
          status := OpenEntry(h);
          return status, at;
        }
      }
    }

    // ------------------------------------------------------------------- files

    method CopyOut(h: FsHandle, buffer: array<Byte>, at: nat, count: U16)
      requires Valid() && buffer != sector
      requires h.cursor + count <= 512 && at + count <= buffer.Length
      modifies buffer, h`cursor
      ensures h.cursor == old(h.cursor) + count
      ensures buffer[..at + count] == old(buffer[..at]) + sector[old(h.cursor)..h.cursor]
      ensures buffer[at + count..] == old(buffer[at + count..])
    {
      var todo := count;
      var i := at;
      while todo > 0
        invariant 0 <= todo <= count && i == at + (count - todo)
        invariant h.cursor == old(h.cursor) + (count - todo)
        invariant buffer[..i] == old(buffer[..at]) + sector[old(h.cursor)..h.cursor]
        invariant buffer[at + count..] == old(buffer[at + count..])
        decreases todo
      {
        buffer[i] := sector[h.cursor];
        i := i + 1;
        h.cursor := h.cursor + 1;
        todo := todo - 1;
      }
    }

    /** The cache holds sector number h.fetched - 1 of h's stream. */
    ghost predicate SectorOpen(h: FsHandle)
      reads this, sector
      reads h`stream, h`link, h`fetched, h`cluster, h`clusterPosition, h`sector, h`currentSector
    {
      && Mounted() && h.fetched > 0
      && h.Tracks(Layout(), media.disk)
      && StreamSector(Layout(), media.disk, h.stream, h.fetched - 1) == Some(Prev(h.sector))
      && sector[..] == media.disk(Prev(h.sector))
      && (safe ==> h.currentSector == Prev(h.sector))
    }

    /** Copies from the open sector as much as the sector, the request and the file allow. */
    method CopyChunk(h: FsHandle, left: U16, remaining: U32, buffer: array<Byte>, at: nat) returns (readable: U16)
      requires SectorOpen(h) && h.kind.FileHandle? && h.cursor < 512 && buffer != sector
      requires 0 < left && 0 < remaining && at + left <= buffer.Length
      modifies buffer, h`cursor
      ensures Loaded(h)
      ensures var p := 512 * (h.fetched - 1) + old(h.cursor);
        && readable == Min(512 - old(h.cursor), Min(left, remaining))
        && h.Position() == p + readable
        && at + readable <= buffer.Length
        && buffer[..at + readable] == old(buffer[..at]) + StreamBytes(Layout(), media.disk, h.stream, p, readable)
        && buffer[at + readable..] == old(buffer[at + readable..])
    {
      hide Mounted, StreamSector, Located, StreamBytes, Wrap32, Prev;
      ghost var q := h.fetched - 1;
      readable := 512 - h.cursor;
      if readable > left {
        readable := left;
      }
      if readable > remaining {
        readable := remaining;
      }
      WithinSector(Layout(), media.disk, h.stream, q, h.cursor, readable, Prev(h.sector));
      CopyOut(h, buffer, at, readable);
      if h.cursor == 512 {
        h.cursor := 0;
      }
    }

    /** One round of Read: fetch a sector if none is open, then copy out of it. */
    method ReadChunk(h: FsHandle, left: U16, remaining: U32, buffer: array<Byte>, at: nat)
        returns (status: Status, readable: U16)
      requires Loaded(h) && h.kind.FileHandle? && buffer != sector
      requires 0 < left && 0 < remaining && at + left <= buffer.Length
      modifies this`fetchedSector, sector, media, buffer
      modifies h`clusterPosition, h`cursor, h`cluster, h`sector, h`currentSector, h`link, h`fetched
      ensures Loaded(h) && media.FaultsSince(old(media.faults))
      ensures !status.Ok? ==>
        && h.Position() == old(h.Position()) && buffer[..] == old(buffer[..])
        && (media.faults > old(media.faults)
            || StreamSector(Layout(), media.disk, h.stream, h.Position() / 512).None?)
      ensures status.Ok? ==>
        && readable == Min(512 - old(h.Position()) % 512, Min(left, remaining))
        && h.Position() == old(h.Position()) + readable
        && StreamSector(Layout(), media.disk, h.stream, old(h.Position()) / 512).Some?
        && at + readable <= buffer.Length
        && buffer[..at + readable]
           == old(buffer[..at]) + StreamBytes(Layout(), media.disk, h.stream, old(h.Position()), readable)
        && buffer[at + readable..] == old(buffer[at + readable..])
    {
      hide Mounted, StreamSector, Located, StreamBytes, Wrap32, Prev, Min, Media.Reliable;
      if h.cursor == 0 {
        SectorIndex(512, h.fetched, 0);
        status := ReadNextSector(h);
        if status != Ok {
          return status, 0;
        }
      }
      SectorIndex(512, h.fetched - 1, h.cursor);
      readable := CopyChunk(h, left, remaining, buffer, at);
      status := Ok;
    }

    /** The body of Read once the cache is known to be good. */
    method ReadLoaded(h: FsHandle, size: U16, buffer: array<Byte>) returns (read: U16)
      requires size <= buffer.Length && buffer != sector
      requires Loaded(h) && h.kind.FileHandle?
      modifies this`fetchedSector, sector, media, buffer
      modifies h`clusterPosition, h`cursor, h`cluster, h`sector, h`currentSector, h`entry, h`link, h`fetched
      ensures Loaded(h) && media.FaultsSince(old(media.faults))
      ensures h.Position() == old(h.Position()) + read
      ensures var all := Min(size, old(h.entry.fileSize));
        var most := Deliverable(Layout(), media.disk, h.stream, old(h.Position()), all);
        && read <= most <= size
        && (media.faults == old(media.faults) ==> read == most)
      ensures buffer[..read] == StreamBytes(Layout(), media.disk, h.stream, old(h.Position()), read)
      ensures buffer[read..] == old(buffer[read..])
      ensures h.entry == old(h.entry).(fileSize := old(h.entry.fileSize) - read)
    {
      hide Media.Reliable, Loaded, Mounted, FsHandle.Position, FsHandle.Mid, StreamSector, StreamBytes, Deliverable;
      ghost var l, disk, st, p := Layout(), media.disk, h.stream, h.Position();
      var left := size;
      read := 0;
      var remaining: U32 := h.entry.fileSize;
      ghost var want := Min(size, remaining);
      NoBytes(l, disk, st, p, buffer[..0]);
      while left > 0 && remaining > 0
        invariant 0 <= left <= size && read == size - left && remaining == h.entry.fileSize - read
        invariant 0 <= want - read == Min(left, remaining)
        invariant Loaded(h) && media.FaultsSince(old(media.faults))
        invariant h.Position() == p + read && h.entry == old(h.entry)
        invariant read + Deliverable(l, disk, st, p + read, want - read) == Deliverable(l, disk, st, p, want)
        invariant buffer[..read] == StreamBytes(l, disk, st, p, read)
        invariant buffer[read..] == old(buffer[read..])
        decreases left
      {
        DeliverStep(l, disk, st, p + read, want - read);
        var status, readable := ReadChunk(h, left, remaining, buffer, read);
        if status != Ok {
          break;
        }
        BytesAppend(l, disk, st, p, read, readable);
        left := left - readable;
        read := read + readable;
        remaining := remaining - readable;
      }
      DeliverStep(l, disk, st, p + read, want - read);
      h.entry := h.entry.(fileSize := remaining);
    }

    /**
     * Copies the next bytes of the file into buffer[..n]: min(size, rest of the file) of them
     * if nothing fails and the chain is long enough. The count returned is n, except exactly
     * when safe mode cannot restore its cache: nothing is copied then, and the error code
     * itself is returned as a count.
     */
    method Read(h: FsHandle, size: U16, buffer: array<Byte>) returns (count: U16)
      requires size <= buffer.Length && buffer != sector
      requires Ready(h)
      requires safe || h.kind.FileHandle?
      modifies this`fetchedSector, sector, media, buffer
      modifies h`clusterPosition, h`cursor, h`cluster, h`sector, h`currentSector, h`entry, h`link, h`fetched
      ensures Ready(h) && media.FaultsSince(old(media.faults))
      ensures old(h.kind).DirHandle? ==>
        count == 0 && buffer[..] == old(buffer[..]) && h.Position() == old(h.Position()) && h.entry == old(h.entry)
      ensures old(h.kind).FileHandle? ==>
        && h.Position() >= old(h.Position())
        && (var n := h.Position() - old(h.Position());
            var all := Min(size, old(h.entry.fileSize));
            var most := Deliverable(Layout(), media.disk, h.stream, old(h.Position()), all);
           && n <= most <= size
           && (media.faults == old(media.faults) ==> n == most)
           && buffer[..n] == StreamBytes(Layout(), media.disk, h.stream, old(h.Position()), n)
           && buffer[n..] == old(buffer[n..])
           && h.entry == old(h.entry).(fileSize := old(h.entry.fileSize) - n)
           && (Covered(Layout(), media.disk, h.stream, old(h.Position()), all) ==> most == all)
           && (count != n <==> old(CannotSync(h)))
           && (count != n ==> count == FFR_ERROR_READ && n == 0 && media.faults > old(media.faults)))
    {
      hide StreamSector, Located, PowerOfTwo, StreamBytes, Deliverable, ValidCluster, Covered, Media.Reliable;
      DeliverableIff(Layout(), media.disk, h.stream, h.Position(), Min(size, h.entry.fileSize));
      if safe && h.kind != FileHandle {
        return 0;
      }
      if safe {
        var failed := SyncCache(h);
        if failed {
          NoBytes(Layout(), media.disk, h.stream, h.Position(), buffer[..0]);
          return FFR_ERROR_READ;
        }
      }
      count := ReadLoaded(h, size, buffer);
    }
  }

  lemma {:induction false} NothingNamed(l: Layout, disk: Disk, st: Stream, name: seq<Byte>)
    requires l.clusterSize > 0
    ensures (forall j: nat :: !FirstNamed(l, disk, st, j, name)) ==>
      forall j: nat :: !FirstBearing(l, disk, st, j, name)
  {
    hide FirstNamed, FirstBearing;
    forall j: nat | !FirstNamed(l, disk, st, j, name)
      ensures !FirstBearing(l, disk, st, j, name)
    {
      NamedBytes(l, disk, st, j, name);
    }
  }

  /** How one call of Next may move a directory handle from index k to index k2. */
  ghost predicate Advanced(l: Layout, disk: Disk, st: Stream, bound: nat, k: nat, k2: nat, status: Status)
    requires l.clusterSize > 0 && k <= bound
  {
    var stop := FirstStop(l, disk, st, k, bound);
    match status
    case Ok => k2 == stop + 1 && DirReaches(l, disk, st, stop) && Judge(DirEntry(l, disk, st, stop)).Listed?
    case ErrorNoMoreFiles =>
      k2 == stop + 1 && DirReaches(l, disk, st, stop) && Judge(DirEntry(l, disk, st, stop)).Terminator?
    case _ => status.ErrorRead? && k <= k2 <= stop
  }

  /** The same, and the entry the handle then holds, by the bytes of the directory. */
  ghost predicate Stopped(
      l: Layout, disk: Disk, st: Stream, k: nat, k2: nat, status: Status, entry: DirectoryEntry)
    requires l.clusterSize > 0
  {
    match status
    case Ok =>
      && k < k2 && PassedBy(l, disk, st, k, k2 - 1)
      && Reported(l, disk, st, k2 - 1) && Spells(l, disk, st, k2 - 1, entry)
    case ErrorNoMoreFiles =>
      && k < k2 && PassedBy(l, disk, st, k, k2 - 1)
      && ByteReached(l, disk, st, 32 * (k2 - 1)) && StreamByte(l, disk, st, 32 * (k2 - 1)) == 0
    case _ => k <= k2 && PassedBy(l, disk, st, k, k2)
  }

  ghost predicate PassedBy(l: Layout, disk: Disk, st: Stream, k: nat, n: nat)
    requires l.clusterSize > 0
  {
    forall j :: k <= j < n ==> Continues(l, disk, st, j) && !Reported(l, disk, st, j)
  }

  lemma {:induction false} StoppedBytes(
      l: Layout, disk: Disk, st: Stream, bound: nat, k: nat, k2: nat, status: Status)
    requires l.clusterSize > 0 && k <= bound && Advanced(l, disk, st, bound, k, k2, status)
    ensures k <= k2
    ensures k < k2 ==> Stopped(l, disk, st, k, k2, status, DirEntry(l, disk, st, k2 - 1))
    ensures k == k2 ==> forall e: DirectoryEntry :: Stopped(l, disk, st, k, k2, status, e)
  {
    hide DirReaches, DirEntry, FirstStop, PassesOver, Spells, Reported, Judge, Continues;
    PassedBytes(l, disk, st, k, FirstStop(l, disk, st, k, bound));
    hide EndsAt, IsFile, PlainFile;
    if k < k2 {
      EntryFields(l, disk, st, k2 - 1);
      StopBytes(l, disk, st, k2 - 1);
      if status.ErrorNoMoreFiles? {
        TerminatorByte(l, disk, st, k2 - 1);
      }
    }
  }

  lemma {:induction false} PassedBytes(l: Layout, disk: Disk, st: Stream, k: nat, n: nat)
    requires l.clusterSize > 0 && forall j :: k <= j < n ==> PassesOver(l, disk, st, j)
    ensures PassedBy(l, disk, st, k, n)
  {
    hide PassesOver, Continues, Reported;
    forall j | k <= j < n
      ensures Continues(l, disk, st, j) && !Reported(l, disk, st, j)
    {
      StopBytes(l, disk, st, j);
    }
  }

  lemma {:induction false} TerminatorByte(l: Layout, disk: Disk, st: Stream, k: nat)
    requires l.clusterSize > 0
    requires DirReaches(l, disk, st, k) && Judge(DirEntry(l, disk, st, k)).Terminator?
    ensures ByteReached(l, disk, st, 32 * k) && StreamByte(l, disk, st, 32 * k) == 0
  {
    StopBytes(l, disk, st, k);
    hide DirEntry, StreamByte, Judge, DirReaches, ByteReached;
  }

  /** The entry a directory handle holds after moving from index k to index k2. */
  function LastSeen(l: Layout, disk: Disk, st: Stream, k: nat, k2: nat, entry: DirectoryEntry): DirectoryEntry
    requires l.clusterSize > 0 && k <= k2
  {
    if k2 == k then entry else DirEntry(l, disk, st, k2 - 1)
  }

  lemma {:induction false} EmptyScan(l: Layout, disk: Disk, st: Stream, name: seq<Byte>)
    requires l.clusterSize > 0
    ensures NoneBefore(l, disk, st, 0, name)
  {
  }

  /** What a scan for a name knows once it reaches the next stop. */
  lemma {:induction false} ScanTo(l: Layout, disk: Disk, st: Stream, k: nat, bound: nat, name: seq<Byte>)
    requires l.clusterSize > 0 && k <= bound && ScanEndsAt(l, disk, st, bound, name)
    requires NoneBefore(l, disk, st, k, name)
    ensures !PassesOver(l, disk, st, bound)
    ensures var stop := FirstStop(l, disk, st, k, bound);
      && NoneBefore(l, disk, st, stop, name)
      && (EndsAt(l, disk, st, stop) || DirEntry(l, disk, st, stop).name == name ==>
            FindStop(l, disk, st, k, bound, name) == stop)
      && (EndsAt(l, disk, st, stop) ==> forall j: nat :: !FirstNamed(l, disk, st, j, name))
      && (!EndsAt(l, disk, st, stop) && DirEntry(l, disk, st, stop).name != name ==>
            && stop < bound && NoneBefore(l, disk, st, stop + 1, name)
            && FindStop(l, disk, st, k, bound, name) == FindStop(l, disk, st, stop + 1, bound, name))
      && stop <= FindStop(l, disk, st, k, bound, name)
  {
    hide StreamSector, DirEntry, FirstStop;
    var stop := FirstStop(l, disk, st, k, bound);
    forall i | 0 <= i < stop
      ensures !EndsAt(l, disk, st, i) && !Names(l, disk, st, i, name)
    {
      if i >= k {
        assert PassesOver(l, disk, st, i);
      }
    }
  }

  lemma {:induction false} StopStep(l: Layout, disk: Disk, st: Stream, k: nat, bound: nat)
    requires l.clusterSize > 0 && k <= bound && !PassesOver(l, disk, st, bound)
    ensures PassesOver(l, disk, st, k) ==>
      k < bound && FirstStop(l, disk, st, k, bound) == FirstStop(l, disk, st, k + 1, bound)
    ensures !PassesOver(l, disk, st, k) ==> FirstStop(l, disk, st, k, bound) == k
  {
  }

  // ------------------------------------------------------------------ arithmetic

  /** What the shift loop leaves in its accumulator. */
  function ShiftLoop(c: U32, shift: nat): U32
    decreases shift
  {
    if shift == 0 then c else ShiftLoop(Wrap32(c * 2), shift / 2)
  }

  lemma {:induction false} ShiftLoopScale(x: nat, n: nat)
    ensures ShiftLoop(Wrap32(x), n / 2) == Wrap32(x * Pow2Floor(n))
    decreases n
  {
    if n > 1 {
      DoubleMod(x);
      ShiftLoopScale(x * 2, n / 2);
      MulAssoc(x, 2, Pow2Floor(n / 2));
    }
  }

  lemma {:induction false} SectorIndex(unit: nat, q: nat, i: nat)
    requires unit == 16 || unit == 512
    requires i < unit
    ensures (unit * q + i) / unit == q && (unit * q + i) % unit == i
  {
  }

  lemma {:induction false} NextEntryIndex(cursor: U16)
    ensures Wrap16(cursor + 1) % 16 == if cursor % 16 == 15 then 0 else cursor % 16 + 1
  {
  }

  lemma {:induction false} MulAssoc(a: int, b: int, c: int)
    ensures a * b * c == a * (b * c)
  {
  }

  lemma {:induction false} DoubleMod(x: nat)
    ensures Wrap32(Wrap32(x) * 2) == Wrap32(x * 2)
  {
  }

  lemma {:induction false} AddMod(x: nat, y: nat)
    ensures Wrap32(Wrap32(x) + y) == Wrap32(y + x)
  {
  }

  lemma {:induction false} NextMod(x: int)
    ensures Wrap32(Wrap32(x) + 1) == Wrap32(x + 1)
  {
  }

  lemma {:induction false} SuccMod(x: U32)
    ensures Prev(Wrap32(x + 1)) == x
  {
  }

  lemma {:induction false} LinkStep(l: Layout, disk: Disk, st: Stream, link: nat, q: nat, cluster: U32, sector: U32)
    requires WellFormed(l)
    requires cluster != 0 && Located(l, disk, st, link, q, cluster, l.clusterSize, sector)
    ensures cluster >= 2
    ensures var next := FatEntry(l, disk, cluster);
      if ValidCluster(l, next) then
        Located(l, disk, st, link + 1, q, next, 0, ClusterSector(l, next, 0))
      else
        StreamSector(l, disk, st, q).None?
  {
    assert q == (link + 1) * l.clusterSize + 0;
    DivRem(l.clusterSize, link + 1, 0);
    ChainValid(l, disk, st.first, link);
  }

  lemma {:induction false} FetchSector(l: Layout, disk: Disk, st: Stream, link: nat, q: nat,
                    cluster: U32, position: Byte, sector: U32)
    requires WellFormed(l)
    requires Located(l, disk, st, link, q, cluster, position, sector)
    requires cluster != 0 ==> position < l.clusterSize
    ensures StreamSector(l, disk, st, q) == Some(sector)
  {
    if st.Chained? {
      ChainValid(l, disk, st.first, link);
      DivRem(l.clusterSize, link, position);
    }
  }

  lemma {:induction false} FetchStep(l: Layout, disk: Disk, st: Stream, link: nat, q: nat,
                  cluster: U32, position: Byte, sector: U32)
    requires WellFormed(l)
    requires Located(l, disk, st, link, q, cluster, position, sector)
    requires cluster != 0 ==> position < l.clusterSize
    ensures Located(l, disk, st, link, q + 1, cluster, Wrap8(position + 1), Wrap32(sector + 1))
  {
    match st
    case Flat(start) =>
      NextMod(start + q);
    case Chained(first) =>
      ChainValid(l, disk, first, link);
      NextMod(l.dataSector + (cluster - 2) * l.clusterSize + position);
  }

  lemma {:induction false} FirstSector(l: Layout, cluster: U32)
    ensures PowerOfTwo(l.clusterSize) ==>
      ClusterSector(l, cluster, 0) == Wrap32(l.dataSector + (cluster - 2) * Pow2Floor(l.clusterSize))
  {
    if PowerOfTwo(l.clusterSize) {
      Pow2FloorExact(l.clusterSize);
    }
  }

  /**
   * Exactly the cluster sizes the FAT specification allows are addressed correctly: for
   * any cluster but the first, the shift loop multiplies by the cluster size if and only
   * if that size is a power of two.
   */
  lemma {:induction false} ClusterSizeMustBePowerOfTwo(l: Layout, cluster: U32)
    requires l.clusterSize > 0 && cluster > 2
    requires l.dataSector + (cluster - 2) * l.clusterSize < 0x1_0000_0000
    ensures Wrap32(l.dataSector + (cluster - 2) * Pow2Floor(l.clusterSize)) == ClusterSector(l, cluster, 0)
      <==> PowerOfTwo(l.clusterSize)
  {
    hide Pow2Floor, PowerOfTwo, Wrap32;
    Pow2FloorExact(l.clusterSize);
    MulCompare(cluster - 2, Pow2Floor(l.clusterSize), l.clusterSize);
    var x, y := l.dataSector + (cluster - 2) * Pow2Floor(l.clusterSize), l.dataSector + (cluster - 2) * l.clusterSize;
    WrapSame(x, y);
  }

  lemma {:induction false} WrapSame(x: nat, y: nat)
    requires x < 0x1_0000_0000 && y < 0x1_0000_0000
    ensures Wrap32(x) == Wrap32(y) <==> x == y
  {
  }

  lemma {:induction false} MulCompare(a: nat, p: nat, n: nat)
    requires a > 0 && p <= n
    ensures a * p <= a * n
    ensures a * p == a * n <==> p == n
  {
    var d := n - p;
    assert a * n == a * p + a * d;
    assert d > 0 ==> a * d > 0;
  }

  lemma {:induction false} StartOfStream(l: Layout, disk: Disk, st: Stream)
    requires l.clusterSize > 0
    ensures st.Flat? ==> Located(l, disk, st, 0, 0, 0, 0, st.start)
    ensures st.Chained? && ValidCluster(l, st.first) ==>
      Located(l, disk, st, 0, 0, st.first, 0, ClusterSector(l, st.first, 0))
  {
  }

  lemma {:induction false} PositionBound(l: Layout, disk: Disk, st: Stream, link: nat, q: nat,
                      cluster: U32, position: Byte, sector: U32)
    requires l.clusterSize > 0
    requires Located(l, disk, st, link, q, cluster, position, sector)
    ensures cluster != 0 ==> position <= l.clusterSize
  {
  }

  lemma {:induction false} ChainValid(l: Layout, disk: Disk, first: U32, j: nat)
    requires ChainCluster(l, disk, first, j).Some?
    ensures ValidCluster(l, ChainCluster(l, disk, first, j).value)
  {
  }

  /** The driver's split index (sector, then word) names the flat table's entry. */
  lemma {:induction false} FatEntrySplit(l: Layout, disk: Disk, c: nat)
    ensures l.fatType.Fat16? ==>
      FatEntry(l, disk, c) == Le16(disk(Wrap32(l.fatSector + c / 0x100)), 2 * (c % 0x100))
    ensures !l.fatType.Fat16? ==>
      FatEntry(l, disk, c) == Le32(disk(Wrap32(l.fatSector + c / 0x80)), 4 * (c % 0x80)) % 0x1000_0000
  {
    if l.fatType.Fat16? {
      FatByteSplit(l, disk, 2, 0x100, c, 0);
      FatByteSplit(l, disk, 2, 0x100, c, 1);
    } else {
      FatEntrySplit32(l, disk, c);
    }
  }

  lemma {:induction false} FatEntrySplit32(l: Layout, disk: Disk, c: nat)
    requires !l.fatType.Fat16?
    ensures FatEntry(l, disk, c) == Le32(disk(Wrap32(l.fatSector + c / 0x80)), 4 * (c % 0x80)) % 0x1000_0000
  {
    hide FatByte, Wrap32;
    FatByteSplit(l, disk, 4, 0x80, c, 0);
    FatByteSplit(l, disk, 4, 0x80, c, 1);
    FatByteSplit(l, disk, 4, 0x80, c, 2);
    FatByteSplit(l, disk, 4, 0x80, c, 3);
  }

  lemma {:induction false} FatByteSplit(l: Layout, disk: Disk, width: nat, perSector: nat, c: nat, k: nat)
    requires (width == 2 && perSector == 0x100) || (width == 4 && perSector == 0x80)
    requires k < width
    ensures FatByte(l, disk, width * c + k) ==
      disk(Wrap32(l.fatSector + c / perSector))[width * (c % perSector) + k]
  {
    FlatIndex(width, perSector, c, k);
  }

  lemma {:induction false} FlatIndex(width: nat, perSector: nat, c: nat, k: nat)
    requires (width == 2 && perSector == 0x100) || (width == 4 && perSector == 0x80)
    requires k < width
    ensures (width * c + k) / 512 == c / perSector
    ensures (width * c + k) % 512 == width * (c % perSector) + k
  {
  }

  lemma {:induction false} WithinSector(l: Layout, disk: Disk, st: Stream, q: nat, i: nat, n: nat, a: U32)
    requires l.clusterSize > 0 && i + n <= 512
    requires StreamSector(l, disk, st, q) == Some(a)
    ensures StreamBytes(l, disk, st, 512 * q + i, n) == disk(a)[i..i + n]
  {
    hide StreamSector;
    var got, part := StreamBytes(l, disk, st, 512 * q + i, n), disk(a)[i..i + n];
    forall k | 0 <= k < n
      ensures got[k] == part[k]
    {
      ByteInSector(l, disk, st, q, i + k);
    }
  }

  lemma {:induction false} ByteInSector(l: Layout, disk: Disk, st: Stream, q: nat, i: nat)
    requires l.clusterSize > 0 && i < 512
    ensures StreamByte(l, disk, st, 512 * q + i) == StreamData(l, disk, st, q)[i]
  {
    assert (512 * q + i) / 512 == q;
  }

  lemma {:induction false} NoBytes(l: Layout, disk: Disk, st: Stream, p: nat, none: seq<Byte>)
    requires l.clusterSize > 0 && none == []
    ensures StreamBytes(l, disk, st, p, 0) == none
  {
  }

  lemma {:induction false} BytesAppend(l: Layout, disk: Disk, st: Stream, p: nat, m: nat, n: nat)
    requires l.clusterSize > 0
    ensures StreamBytes(l, disk, st, p, m + n)
      == StreamBytes(l, disk, st, p, m) + StreamBytes(l, disk, st, p + m, n)
  {
  }

  lemma {:induction false} DeliverStep(l: Layout, disk: Disk, st: Stream, p: nat, want: nat)
    requires l.clusterSize > 0
    ensures Deliverable(l, disk, st, p, want) ==
      if want == 0 || StreamSector(l, disk, st, p / 512).None? then 0
      else
        var step := Min(512 - p % 512, want);
        step + Deliverable(l, disk, st, p + step, want - step)
  {
  }
}
