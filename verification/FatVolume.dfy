/**
 * What a boot record says by the FAT specification (fatgen103), against what the reader
 * takes from it. The specification's type of a volume is decided by its number of clusters
 * alone; the reader looks at a label.
 */
module FatVolumes {
  import opened Words
  import opened FatFormat

  // ------------------------------------------------------ by the specification

  datatype VolumeType = Volume12 | Volume16 | Volume32

  function BytesPerSector(b: Sector): U16 { Le16(b, 11) }

  function SectorsPerCluster(b: Sector): Byte { b[13] }

  function ReservedSectors(b: Sector): U16 { Le16(b, 14) }

  function FatCopies(b: Sector): Byte { b[16] }

  function RootEntries(b: Sector): U16 { Le16(b, 17) }

  function FatSize16(b: Sector): U16 { Le16(b, 22) }

  function FatSize32(b: Sector): U32 { Le32(b, 36) }

  function FatSize(b: Sector): U32 {
    if FatSize16(b) != 0 then FatSize16(b) else FatSize32(b)
  }

  function TotalSectors(b: Sector): U32 {
    if Le16(b, 19) != 0 then Le16(b, 19) else Le32(b, 32)
  }

  /** Sectors of the root directory: its bytes, rounded up. */
  function RootSectors(b: Sector): nat
    requires BytesPerSector(b) > 0
  {
    Quot(32 * RootEntries(b) + BytesPerSector(b) - 1, BytesPerSector(b))
  }

  function AfterFats(b: Sector): nat {
    ReservedSectors(b) + Span(FatCopies(b), FatSize(b))
  }

  function FirstData(b: Sector): nat
    requires BytesPerSector(b) > 0
  {
    AfterFats(b) + RootSectors(b)
  }

  function Clusters(b: Sector): nat
    requires BytesPerSector(b) > 0 && SectorsPerCluster(b) > 0
  {
    if TotalSectors(b) < FirstData(b) then 0 else Quot(TotalSectors(b) - FirstData(b), SectorsPerCluster(b))
  }

  function TypeOf(b: Sector): VolumeType
    requires BytesPerSector(b) > 0 && SectorsPerCluster(b) > 0
  {
    if Clusters(b) < 4085 then Volume12 else if Clusters(b) < 65525 then Volume16 else Volume32
  }

  /** FAT32 can turn the mirroring of its tables off; then only the table of this number is kept up to date. */
  function ActiveTable(b: Sector): nat
    requires BytesPerSector(b) > 0 && SectorsPerCluster(b) > 0
  {
    if TypeOf(b).Volume32? && Le16(b, 40) / 0x80 % 2 == 1 then Le16(b, 40) % 0x10 else 0
  }

  /** The rules for the fields of a boot record. */
  predicate ValidBoot(b: Sector): (valid: bool)
    ensures valid ==> BytesPerSector(b) > 0 && SectorsPerCluster(b) > 0
  {
    && BytesPerSector(b) in {512, 1024, 2048, 4096}
    && PowerOfTwo(SectorsPerCluster(b)) && SectorsPerCluster(b) > 0
    && ReservedSectors(b) >= 1 && FatCopies(b) >= 1 && FatSize(b) >= 1
    && (TypeOf(b).Volume32? <==> FatSize16(b) == 0)
    && (TypeOf(b).Volume32? ==> RootEntries(b) == 0 && Le16(b, 42) == 0)
    && ActiveTable(b) < FatCopies(b)
    && Le16(b, 510) == 0xaa55
  }

  /** The file system name that a formatter writes into its own field. */
  predicate Labelled(b: Sector)
    requires BytesPerSector(b) > 0 && SectorsPerCluster(b) > 0
  {
    match TypeOf(b)
    case Volume12 => b[54..62] == [0x46, 0x41, 0x54, 0x31, 0x32, 0x20, 0x20, 0x20]
    case Volume16 => b[54..62] == [0x46, 0x41, 0x54, 0x31, 0x36, 0x20, 0x20, 0x20]
    case Volume32 => b[82..90] == [0x46, 0x41, 0x54, 0x33, 0x32, 0x20, 0x20, 0x20] && !LettersAt(b, 54)
  }

  // --------------------------------------------------------------- by the reader

  predicate LettersAt(b: Sector, at: nat)
    requires at < 510
  {
    b[at] == 0x46 && b[at + 1] == 0x41
  }

  /** The type the reader finds in a sector: a signature, and two letters in one of two places. */
  function Detected(b: Sector): FatType {
    if Le16(b, 510) != 0xaa55 then Unknown
    else if LettersAt(b, 54) then Fat16
    else if LettersAt(b, 82) then Fat32
    else Unknown
  }

  /** The reader looks at sector 0, or else where the first partition starts. */
  function BootSector(disk: Disk): U32 {
    if Detected(disk(0)).Unknown? then Le32(disk(0), 454) else 0
  }

  /** Where the n-th partition starts: bytes 8 to 11 of its record, of 16 bytes, in the table at byte 446. */
  function PartitionStart(mbr: Sector, n: nat): nat
    requires n < 4
  {
    var p := 446 + 16 * n + 8;
    mbr[p] as int + 0x100 * mbr[p + 1] as int + 0x1_0000 * mbr[p + 2] as int + 0x100_0000 * mbr[p + 3] as int
  }

  lemma {:induction false} FirstPartition(mbr: Sector)
    ensures Le32(mbr, 454) == PartitionStart(mbr, 0)
  {
  }

  predicate TypeAgrees(t: FatType, b: Sector)
    requires BytesPerSector(b) > 0 && SectorsPerCluster(b) > 0
  {
    (t.Fat16? && TypeOf(b).Volume16?) || (t.Fat32? && TypeOf(b).Volume32?)
  }

  /** Exactly which volumes are taken for what they are. */
  lemma {:induction false} DetectedIff(b: Sector)
    requires ValidBoot(b)
    ensures TypeAgrees(Detected(b), b)
      <==> if LettersAt(b, 54) then 4085 <= Clusters(b) < 65525
           else LettersAt(b, 82) && Clusters(b) >= 65525
  {
  }

  /** With the label a formatter writes: every FAT16 and FAT32 volume, and FAT12 volumes are taken for FAT16. */
  lemma {:induction false} LabelledIff(b: Sector)
    requires ValidBoot(b) && Labelled(b)
    ensures TypeAgrees(Detected(b), b) <==> !TypeOf(b).Volume12?
    ensures TypeOf(b).Volume12? ==> Detected(b).Fat16?
  {
    hide TypeOf, Le16;
    if TypeOf(b).Volume32? {
      assert b[82] == b[82..90][0] && b[83] == b[82..90][1];
    } else {
      assert b[54] == b[54..62][0] && b[55] == b[54..62][1];
    }
  }

  // -------------------------------------------------------------------- the layout

  /** Media sectors of 512 bytes in a sector of the volume. */
  function Scale(b: Sector): nat { BytesPerSector(b) / 512 }

  /** The volume lies inside the 32-bit sector space. */
  predicate Fits(b: Sector, boot: nat)
    requires BytesPerSector(b) > 0
  {
    boot + Scale(b) * FirstData(b) < 0x1_0000_0000
  }

  /** A layout that is the specification's, in media sectors. */
  predicate LayoutIs(l: Layout, b: Sector, boot: nat)
    requires BytesPerSector(b) > 0 && SectorsPerCluster(b) > 0
  {
    && TypeAgrees(l.fatType, b)
    && l.clusterSize == Scale(b) * SectorsPerCluster(b)
    && l.fatSector == boot + Scale(b) * (ReservedSectors(b) + Span(ActiveTable(b), FatSize(b)))
    && l.rootDir == (if l.fatType.Fat32? then Le32(b, 44) else boot + Scale(b) * AfterFats(b))
    && l.dataSector == boot + Scale(b) * FirstData(b)
  }

  /** What the reader takes a boot record to say. */
  predicate Understood(b: Sector, safe: bool)
    requires BytesPerSector(b) > 0 && SectorsPerCluster(b) > 0
  {
    && TypeAgrees(Detected(b), b)
    && BytesPerSector(b) == 512
    && ActiveTable(b) == 0
    && (safe || FatCopies(b) <= 2)
    && RootEntries(b) % 16 == 0
  }

  /** The root directory of a FAT32 volume starts at a cluster that the reader accepts. */
  predicate RootInRange(b: Sector) {
    Detected(b).Fat32? ==> 2 <= Le32(b, 44) <= 0x0fff_ffef
  }

  /** The table sectors the reader accounts for. */
  function TablesRead(size: U32, copies: nat, safe: bool): U32 {
    if safe then Wrap32(Span(size, copies)) else if copies == 2 then Wrap32(size + size) else size
  }

  /** The layout the reader computes from a boot record. */
  function LayoutRead(b: Sector, t: FatType, boot: U32, safe: bool): Layout {
    var tables := TablesRead(if t.Fat32? then FatSize32(b) else FatSize16(b), FatCopies(b), safe);
    var fats := Wrap32(boot + ReservedSectors(b));
    var start := Wrap32(fats + tables);
    Layout(t, SectorsPerCluster(b), if t.Fat32? then Le32(b, 44) else start, fats, Wrap32(start + RootEntries(b) / 16))
  }

  /** A valid boot record gives a layout that can be read by. */
  lemma {:induction false} ReadableLayout(b: Sector, boot: U32, safe: bool)
    requires ValidBoot(b) && RootInRange(b) && !Detected(b).Unknown?
    ensures WellFormed(LayoutRead(b, Detected(b), boot, safe))
  {
    hide Le16, Le32, TablesRead, Wrap32, TypeOf, PowerOfTwo;
  }

  /** Exactly when the reader's layout is the specification's. */
  lemma {:induction false} LayoutIff(b: Sector, boot: U32, safe: bool)
    requires ValidBoot(b) && Fits(b, boot)
    ensures LayoutIs(LayoutRead(b, Detected(b), boot, safe), b, boot) <==> Understood(b, safe)
  {
    hide Le16, Le32, TypeOf, Clusters, Wrap32, Detected, TotalSectors, ReservedSectors, RootEntries, FatCopies;
    hide FatSize16, FatSize32, BytesPerSector, SectorsPerCluster, TablesRead, PowerOfTwo, ActiveTable, Span, Quot;
    if TypeAgrees(Detected(b), b) {
      var rest := Span(FatCopies(b), FatSize(b)) + RootSectors(b);
      FatsStart(boot, ReservedSectors(b), rest, ActiveTable(b), FatSize(b), Scale(b));
      if BytesPerSector(b) == 512 {
        LayoutArithmetic(boot, ReservedSectors(b), FatSize(b), FatCopies(b), RootEntries(b), safe);
      }
    }
  }

  /** With 512-byte sectors: where the tables end, and where the data starts. */
  lemma {:induction false} LayoutArithmetic(
      boot: U32, reserved: U16, size: U32, copies: Byte, roots: U16, safe: bool)
    requires reserved >= 1 && copies >= 1 && size >= 1
    requires boot + (reserved + Span(copies, size) + Quot(32 * roots + 511, 512)) < 0x1_0000_0000
    ensures var start := Wrap32(Wrap32(boot + reserved) + TablesRead(size, copies, safe));
      var first := boot + (reserved + Span(copies, size) + Quot(32 * roots + 511, 512));
      && ((safe || copies <= 2) ==> start == boot + (reserved + Span(copies, size)))
      && (Wrap32(start + roots / 16) == first ==> (safe || copies <= 2) && roots % 16 == 0)
      && ((safe || copies <= 2) && roots % 16 == 0 ==> Wrap32(start + roots / 16) == first)
  {
    var all := Span(copies, size);
    Copies(copies, size);
    RoundUp(roots);
    hide Wrap32, Span;
    assert Quot(32 * roots + 511, 512) == (32 * roots + 511) / 512;
    hide Quot;
    WrapSum(0, 0, all);
    WrapSum(boot + reserved, TablesRead(size, copies, safe), roots / 16);
  }

  /** The first table is where the active one should be only if it is the active one, in sectors of 512 bytes. */
  lemma {:induction false} FatsStart(boot: nat, reserved: nat, rest: nat, active: nat, size: nat, k: nat)
    requires reserved >= 1 && size >= 1 && k in {1, 2, 4, 8} && boot + k * (reserved + rest) < 0x1_0000_0000
    ensures Wrap32(boot + reserved) == boot + k * (reserved + Span(active, size)) <==> k == 1 && active == 0
  {
    if active > 0 {
      Copies(active, size);
    }
    hide Span;
    StartsHere(boot, reserved, rest, Span(active, size), k);
  }

  lemma {:induction false} StartsHere(boot: nat, reserved: nat, rest: nat, skipped: nat, k: nat)
    requires reserved >= 1 && k in {1, 2, 4, 8} && boot + k * (reserved + rest) < 0x1_0000_0000
    ensures Wrap32(boot + reserved) == boot + k * (reserved + skipped) <==> k == 1 && skipped == 0
  {
  }

  lemma {:induction false} WrapSum(base: nat, size: nat, tail: nat)
    requires base + size + tail < 0x1_0000_0000
    ensures Wrap32(Wrap32(base) + size) == base + size
    ensures Wrap32(Wrap32(Wrap32(base) + size) + tail) == base + size + tail
    ensures Wrap32(tail) == tail
  {
  }

  lemma {:induction false} Copies(n: nat, x: nat)
    requires n >= 1
    ensures Span(n, x) == Span(x, n) == x * n >= x
    ensures n == 1 ==> Span(n, x) == x
    ensures n == 2 ==> Span(n, x) == x + x
    ensures n > 2 && x > 0 ==> Span(n, x) > x
    ensures Span(0, x) == 0
  {
    assert n * x == x + (n - 1) * x;
  }

  lemma {:induction false} RoundUp(n: nat)
    ensures n / 16 <= (32 * n + 511) / 512
    ensures n / 16 == (32 * n + 511) / 512 <==> n % 16 == 0
  {
  }

  // ---------------------------------------------------------------- the clusters

  /** Table entries that end a chain, mark a bad cluster, or mark a free one. */
  predicate IsMark(t: FatType, entry: U32) {
    entry < 2 || entry >= if t.Fat16? then 0xfff7 else 0x0fff_fff7
  }

  /** No mark is taken for a link. */
  lemma {:induction false} MarksEndChains(l: Layout, entry: U32)
    requires IsMark(l.fatType, entry)
    ensures !ValidCluster(l, entry)
  {
  }

  /** The last clusters of a volume of nearly the largest size are refused; otherwise every cluster is accepted. */
  lemma {:induction false} ClustersAcceptedIff(l: Layout, b: Sector)
    requires ValidBoot(b) && TypeAgrees(l.fatType, b)
    ensures (forall c: U32 :: 2 <= c < Clusters(b) + 2 ==> ValidCluster(l, c))
      <==> Clusters(b) <= if l.fatType.Fat16? then 0xffee else 0x0fff_ffee
  {
    hide Le16, Le32, FirstData, TotalSectors;
    var last := if l.fatType.Fat16? then 0xffef else 0x0fff_ffef;
    if Clusters(b) > last - 1 {
      assert !ValidCluster(l, last + 1);
    }
  }

  // -------------------------------------------------------------- failing volumes

  /** A 1.44 MB diskette: 2880 sectors of 512 bytes, FAT12. */
  function Diskette(): (b: Sector) {
    seq(512, i requires 0 <= i < 512 => DisketteByte(i))
  }

  function DisketteByte(i: nat): Byte {
    if i == 12 then 2 else if i == 13 || i == 14 then 1 else if i == 16 then 2 else if i == 17 then 224
    else if i == 19 then 0x40 else if i == 20 then 0x0b else if i == 22 then 9
    else if 54 <= i < 62 then [0x46, 0x41, 0x54, 0x31, 0x32, 0x20, 0x20, 0x20][i - 54]
    else if i == 510 then 0x55 else if i == 511 then 0xaa else 0
  }

  /** It is taken for a FAT16 volume. */
  lemma {:induction false} DisketteIsMistaken()
    ensures ValidBoot(Diskette()) && Labelled(Diskette())
    ensures TypeOf(Diskette()).Volume12? && Detected(Diskette()).Fat16?
  {
    var b := Diskette();
    assert Clusters(b) == 2847;
    assert b[54..62] == [0x46, 0x41, 0x54, 0x31, 0x32, 0x20, 0x20, 0x20];
  }

  /** A FAT16 volume of 20000 sectors of 1024 bytes, with two tables of 40 sectors and 512 root entries. */
  function WideVolume(): (b: Sector) {
    seq(512, i requires 0 <= i < 512 => WideByte(i))
  }

  function WideByte(i: nat): Byte {
    if i == 12 then 4 else if i == 13 || i == 14 then 1 else if i == 16 || i == 18 then 2
    else if i == 19 then 0x20 else if i == 20 then 0x4e else if i == 22 then 40
    else if 54 <= i < 62 then [0x46, 0x41, 0x54, 0x31, 0x36, 0x20, 0x20, 0x20][i - 54]
    else if i == 510 then 0x55 else if i == 511 then 0xaa else 0
  }

  /** Its data area is looked for in the wrong place. */
  lemma {:induction false} WideVolumeIsMisread(safe: bool)
    ensures ValidBoot(WideVolume()) && Labelled(WideVolume()) && TypeAgrees(Detected(WideVolume()), WideVolume())
    ensures LayoutRead(WideVolume(), Fat16, 0, safe).dataSector == 113
    ensures Scale(WideVolume()) * FirstData(WideVolume()) == 194
  {
    var b := WideVolume();
    assert Clusters(b) == 19903;
    assert b[54..62] == [0x46, 0x41, 0x54, 0x31, 0x36, 0x20, 0x20, 0x20];
  }

  /** A FAT32 volume of 131072 sectors that keeps only the second of its two tables up to date. */
  function UnmirroredVolume(): (b: Sector) {
    seq(512, i requires 0 <= i < 512 => UnmirroredByte(i))
  }

  function UnmirroredByte(i: nat): Byte {
    if i == 12 then 2 else if i == 13 then 1 else if i == 14 then 32 else if i == 16 then 2
    else if i == 34 then 2 else if i == 37 then 4 else if i == 40 then 0x81 else if i == 44 then 2
    else if 82 <= i < 90 then [0x46, 0x41, 0x54, 0x33, 0x32, 0x20, 0x20, 0x20][i - 82]
    else if i == 510 then 0x55 else if i == 511 then 0xaa else 0
  }

  /** The reader follows the first, stale table. */
  lemma {:induction false} UnmirroredIsMisread(safe: bool)
    ensures ValidBoot(UnmirroredVolume()) && Labelled(UnmirroredVolume())
    ensures TypeAgrees(Detected(UnmirroredVolume()), UnmirroredVolume())
    ensures LayoutRead(UnmirroredVolume(), Fat32, 0, safe).fatSector == 32
    ensures var b := UnmirroredVolume();
      ReservedSectors(b) + Span(ActiveTable(b), FatSize(b)) == 1056
  {
    var b := UnmirroredVolume();
    assert Clusters(b) == 128992;
    assert b[82..90] == [0x46, 0x41, 0x54, 0x33, 0x32, 0x20, 0x20, 0x20];
  }
}
