// The formatter's fixed layout: boot sector, FSInfo, directory entries, and the effect of each byte
// write on the decoded volume (tools/fat32_image.py).

module FatFormat {
  import opened Bytes
  import opened FatChain
  import opened FatDirectory
  import opened FatInspector
  import opened FatGeometry

  const TOTAL_SECTORS := 131_072
  const FAT_SECTORS := 1009
  const FIRST_DATA_SECTOR := 2050
  const CLUSTER_COUNT := 129_022
  const IMAGE_BYTES := 67_108_864
  const RESERVED_BYTES := 16_384
  const ROOT_CLUSTER := 2
  const FSINFO_SECTOR := 1
  const BACKUP_BOOT_SECTOR := 6
  const DATA_VOLUME_ID := 0x2000_0002
  const SYSTEM_VOLUME_ID := 0x2000_0001

  /** The constants above are the solution of the geometry for a 64 MiB volume. */
  lemma FatSectorsSolved()
    ensures Covers(TOTAL_SECTORS, FAT_SECTORS)
    ensures forall f :: f < FAT_SECTORS ==> !Covers(TOTAL_SECTORS, f)
    ensures FIRST_DATA_SECTOR == RESERVED_SECTORS + FAT_COPIES * FAT_SECTORS
    ensures CLUSTER_COUNT == TOTAL_SECTORS - FIRST_DATA_SECTOR
    ensures IMAGE_BYTES == TOTAL_SECTORS * SECTOR_BYTES && RESERVED_BYTES == RESERVED_SECTORS * SECTOR_BYTES
  {
  }

  function VolumeGeometry(volumeId: nat, volumeName: seq<Byte>): (g: Geometry) {
    Geometry(SECTOR_BYTES, 1, RESERVED_SECTORS, FAT_COPIES, TOTAL_SECTORS, FAT_SECTORS, ROOT_CLUSTER,
             FSINFO_SECTOR, BACKUP_BOOT_SECTOR, FIRST_DATA_SECTOR, CLUSTER_COUNT, CLUSTER_COUNT + 1,
             volumeId, RStrip(volumeName))
  }

  // Boot sector

  const OEM_NAME: seq<Byte> := [0x52, 0x53, 0x44, 0x20, 0x20, 0x20, 0x20, 0x20]
  const FAT32_NAME: seq<Byte> := [0x46, 0x41, 0x54, 0x33, 0x32, 0x20, 0x20, 0x20]
  const DATA_LABEL: seq<Byte> := [0x52, 0x53, 0x44, 0x44, 0x41, 0x54, 0x41, 0x20, 0x20, 0x20, 0x20]
  const SYSTEM_LABEL: seq<Byte> := [0x52, 0x53, 0x44, 0x53, 0x59, 0x53, 0x20, 0x20, 0x20, 0x20, 0x20]

  predicate IsLabel(volumeName: seq<Byte>) {
    |volumeName| == 11 && forall i :: 0 <= i < 11 ==> 0x20 <= volumeName[i] <= 0x7E
  }

  function BootHead(): (s: seq<Byte>)
    ensures |s| == SECTOR_BYTES
  {
    var s := Patch(Zeros(SECTOR_BYTES), 0, [0xEB, 0x58, 0x90]);
    var s := Patch(s, 3, OEM_NAME);
    var s := Patch(s, 11, Le16(SECTOR_BYTES));
    var s := Patch(s, 13, [1]);
    var s := Patch(s, 14, Le16(RESERVED_SECTORS));
    var s := Patch(s, 16, [FAT_COPIES]);
    var s := Patch(s, 17, Le16(0));
    var s := Patch(s, 19, Le16(0));
    var s := Patch(s, 21, [MEDIA]);
    var s := Patch(s, 22, Le16(0));
    var s := Patch(s, 24, Le16(1));
    var s := Patch(s, 26, Le16(1));
    Patch(s, 28, Le32(0))
  }

  function BootSector(volumeId: nat, volumeName: seq<Byte>): (s: seq<Byte>)
    requires volumeId < 0x1_0000_0000 && |volumeName| == 11
    ensures |s| == SECTOR_BYTES
  {
    var s := BootHead();
    var s := Patch(s, 32, Le32(TOTAL_SECTORS));
    var s := Patch(s, 36, Le32(FAT_SECTORS));
    var s := Patch(s, 40, Le16(0));
    var s := Patch(s, 42, Le16(0));
    var s := Patch(s, 44, Le32(ROOT_CLUSTER));
    var s := Patch(s, 48, Le16(FSINFO_SECTOR));
    var s := Patch(s, 50, Le16(BACKUP_BOOT_SECTOR));
    var s := Patch(s, 64, [0x80]);
    var s := Patch(s, 66, [0x29]);
    var s := Patch(s, 67, Le32(volumeId));
    var s := Patch(s, 71, volumeName);
    var s := Patch(s, 82, FAT32_NAME);
    Patch(s, 510, [0x55, 0xAA])
  }

  lemma BootHeadFields()
    ensures var s := BootHead();
            && s[11] == 0 && s[12] == 2 && s[13] == 1 && s[14] == 32 && s[15] == 0 && s[16] == 2
            && s[17] == 0 && s[18] == 0 && s[19] == 0 && s[20] == 0 && s[22] == 0 && s[23] == 0
  {
  }

  lemma BootFields(volumeId: nat, volumeName: seq<Byte>)
    requires volumeId < 0x1_0000_0000 && |volumeName| == 11
    ensures var s := BootSector(volumeId, volumeName);
            && s[..32] == BootHead()[..32]
            && U32(s, 32) == TOTAL_SECTORS && U32(s, 36) == FAT_SECTORS && U32(s, 44) == ROOT_CLUSTER
            && U16(s, 48) == FSINFO_SECTOR && U16(s, 50) == BACKUP_BOOT_SECTOR && U32(s, 67) == volumeId
            && s[71..82] == volumeName && s[510] == 0x55 && s[511] == 0xAA
  {
  }

  /** The inspector reads back, from a formatted boot sector, the geometry it was formatted with. */
  lemma BootParses(image: seq<Byte>, volumeId: nat, volumeName: seq<Byte>)
    requires volumeId < 0x1_0000_0000 && IsLabel(volumeName)
    requires |image| == IMAGE_BYTES && image[..SECTOR_BYTES] == BootSector(volumeId, volumeName)
    ensures ParseGeometry(image) == Ok(VolumeGeometry(volumeId, volumeName))
  {
    hide BootSector, BootHead, U16, U32, RStrip;
    BootReads(image, volumeId, volumeName);
    assert forall i :: 71 <= i < 82 ==> image[i] == image[71..82][i - 71];
    CheckedMulExact(TOTAL_SECTORS, SECTOR_BYTES);
    CheckedMulExact(FAT_SECTORS, SECTOR_BYTES);
  }

  /** The fields a parser reads from an image with a formatted boot sector. */
  lemma BootReads(image: seq<Byte>, volumeId: nat, volumeName: seq<Byte>)
    requires volumeId < 0x1_0000_0000 && |volumeName| == 11
    requires |image| == IMAGE_BYTES && image[..SECTOR_BYTES] == BootSector(volumeId, volumeName)
    ensures U16(image, 11) == SECTOR_BYTES && image[13] == 1 && U16(image, 14) == RESERVED_SECTORS && image[16] == FAT_COPIES
    ensures U16(image, 17) == 0 && U16(image, 19) == 0 && U16(image, 22) == 0
    ensures U32(image, 32) == TOTAL_SECTORS && U32(image, 36) == FAT_SECTORS && U32(image, 44) == ROOT_CLUSTER
    ensures U16(image, 48) == FSINFO_SECTOR && U16(image, 50) == BACKUP_BOOT_SECTOR && U32(image, 67) == volumeId
    ensures image[71..82] == volumeName && image[510..512] == [0x55, 0xAA]
  {
    hide BootSector, BootHead;
    var boot := BootSector(volumeId, volumeName);
    BootHeadFields();
    BootFields(volumeId, volumeName);
    assert forall i :: 0 <= i < SECTOR_BYTES ==> image[i] == boot[i];
    assert forall i :: 0 <= i < 32 ==> boot[i] == boot[..32][i] == BootHead()[i];
  }

  /** A boot sector, byte by byte. */
  ghost predicate BootLayout(s: seq<Byte>, volumeId: nat, volumeName: seq<Byte>) {
    && |s| == 512 && |volumeName| == 11
    && s[0..3] == [0xEB, 0x58, 0x90]
    && s[3..11] == [0x52, 0x53, 0x44, 0x20, 0x20, 0x20, 0x20, 0x20]
    && s[11..21] == [0x00, 0x02, 0x01, 0x20, 0x00, 0x02, 0x00, 0x00, 0x00, 0x00]
    && s[21..32] == [0xF8, 0x00, 0x00, 0x01, 0x00, 0x01, 0x00, 0x00, 0x00, 0x00, 0x00]
    && s[32..40] == [0x00, 0x00, 0x02, 0x00, 0xF1, 0x03, 0x00, 0x00]
    && s[40..52] == [0x00, 0x00, 0x00, 0x00, 0x02, 0x00, 0x00, 0x00, 0x01, 0x00, 0x06, 0x00]
    && s[64..67] == [0x80, 0x00, 0x29]
    && s[67] as int + 0x100 * s[68] as int + 0x1_0000 * s[69] as int + 0x100_0000 * s[70] as int == volumeId
    && s[71..82] == volumeName
    && s[82..90] == [0x46, 0x41, 0x54, 0x33, 0x32, 0x20, 0x20, 0x20]
    && s[510..512] == [0x55, 0xAA]
    && (forall k :: 52 <= k < 64 || 90 <= k < 510 ==> s[k] == 0)
  }

  lemma BootHeadIs()
    ensures BootHead()[0..3] == [0xEB, 0x58, 0x90]
    ensures BootHead()[3..11] == [0x52, 0x53, 0x44, 0x20, 0x20, 0x20, 0x20, 0x20]
    ensures BootHead()[11..21] == [0x00, 0x02, 0x01, 0x20, 0x00, 0x02, 0x00, 0x00, 0x00, 0x00]
    ensures BootHead()[21..32] == [0xF8, 0x00, 0x00, 0x01, 0x00, 0x01, 0x00, 0x00, 0x00, 0x00, 0x00]
    ensures forall k :: 32 <= k < 512 ==> BootHead()[k] == 0
  {
    var s := BootHead();
    assert Le16(SECTOR_BYTES) == [0x00, 0x02] && Le16(RESERVED_SECTORS) == [0x20, 0x00] && Le16(0) == [0, 0] && Le16(1) == [1, 0];
    assert Le32(0) == [0, 0, 0, 0];
    assert s[0..3] == [s[0], s[1], s[2]];
    assert s[3..11] == [s[3], s[4], s[5], s[6], s[7], s[8], s[9], s[10]];
    assert s[11..21] == [s[11], s[12], s[13], s[14], s[15], s[16], s[17], s[18], s[19], s[20]];
    assert s[21..32] == [s[21], s[22], s[23], s[24], s[25], s[26], s[27], s[28], s[29], s[30], s[31]];
  }

  lemma BootIs(volumeId: nat, volumeName: seq<Byte>)
    requires volumeId < 0x1_0000_0000 && |volumeName| == 11
    ensures BootLayout(BootSector(volumeId, volumeName), volumeId, volumeName)
  {
    hide BootHead, BootSector;
    BootHeadIs();
    BootFields(volumeId, volumeName);
    BootWords(volumeId, volumeName);
    var (s, head) := (BootSector(volumeId, volumeName), BootHead());
    SameSlice(s, head, 0, 3);
    SameSlice(s, head, 3, 11);
    SameSlice(s, head, 11, 21);
    SameSlice(s, head, 21, 32);
  }

  lemma SameSlice(a: seq<Byte>, b: seq<Byte>, lo: nat, hi: nat)
    requires lo <= hi <= 32 <= |a| && 32 <= |b| && a[..32] == b[..32]
    ensures a[lo..hi] == b[lo..hi]
  {
    SliceOfSlice(a, 0, 32, lo, hi);
    SliceOfSlice(b, 0, 32, lo, hi);
    assert a[0..32] == a[..32] && b[0..32] == b[..32];
  }

  /** The bytes of a boot sector from offset 32. */
  lemma BootWords(volumeId: nat, volumeName: seq<Byte>)
    requires volumeId < 0x1_0000_0000 && |volumeName| == 11
    ensures var s := BootSector(volumeId, volumeName);
            && s[32..40] == [0x00, 0x00, 0x02, 0x00, 0xF1, 0x03, 0x00, 0x00]
            && s[40..52] == [0x00, 0x00, 0x00, 0x00, 0x02, 0x00, 0x00, 0x00, 0x01, 0x00, 0x06, 0x00]
            && s[64..67] == [0x80, 0x00, 0x29]
            && s[82..90] == [0x46, 0x41, 0x54, 0x33, 0x32, 0x20, 0x20, 0x20] && s[510..512] == [0x55, 0xAA]
            && forall k :: 52 <= k < 64 || 90 <= k < 510 ==> s[k] == 0
  {
    hide BootHead;
    BootHeadIs();
    var s := BootSector(volumeId, volumeName);
    assert Le32(TOTAL_SECTORS) == [0x00, 0x00, 0x02, 0x00] && Le32(FAT_SECTORS) == [0xF1, 0x03, 0x00, 0x00];
    assert Le16(0) == [0, 0] && Le32(ROOT_CLUSTER) == [2, 0, 0, 0] && Le16(FSINFO_SECTOR) == [1, 0] && Le16(BACKUP_BOOT_SECTOR) == [6, 0];
    assert s[32..40] == [s[32], s[33], s[34], s[35], s[36], s[37], s[38], s[39]];
    assert s[40..52] == [s[40], s[41], s[42], s[43], s[44], s[45], s[46], s[47], s[48], s[49], s[50], s[51]];
    assert s[64..67] == [s[64], s[65], s[66]] && s[510..512] == [s[510], s[511]];
    assert s[82..90] == [s[82], s[83], s[84], s[85], s[86], s[87], s[88], s[89]];
  }

  /** The reserved sectors: boot sector and FSInfo, once at the start and once from sector six, zeros between. */
  function ReservedArea(boot: seq<Byte>, info: seq<Byte>): (s: seq<Byte>)
    requires |boot| == |info| == SECTOR_BYTES
    ensures |s| == RESERVED_BYTES
  {
    boot + info + Zeros(2048) + boot + info + Zeros(12288)
  }

  /** An FSInfo sector, byte by byte. */
  ghost predicate FsInfoLayout(s: seq<Byte>, free: nat, next: nat) {
    && |s| == 512
    && s[0..4] == [0x52, 0x52, 0x61, 0x41] && s[484..488] == [0x72, 0x72, 0x41, 0x61] && s[508..512] == [0x00, 0x00, 0x55, 0xAA]
    && s[488] as int + 0x100 * s[489] as int + 0x1_0000 * s[490] as int + 0x100_0000 * s[491] as int == free
    && s[492] as int + 0x100 * s[493] as int + 0x1_0000 * s[494] as int + 0x100_0000 * s[495] as int == next
    && (forall k :: 4 <= k < 484 || 496 <= k < 508 ==> s[k] == 0)
  }

  lemma FsInfoIs(free: nat, next: nat)
    requires free < 0x1_0000_0000 && next < 0x1_0000_0000
    ensures FsInfoLayout(FsInfoSector(free, next), free, next)
  {
    hide Le32;
    FsInfoWords();
    var s := FsInfoSector(free, next);
    assert s[488..492] == Le32(free) && s[492..496] == Le32(next);
  }

  lemma FsInfoWords()
    ensures Le32(0x41615252) == [0x52, 0x52, 0x61, 0x41] && Le32(0x61417272) == [0x72, 0x72, 0x41, 0x61]
    ensures Le32(0xAA550000) == [0x00, 0x00, 0x55, 0xAA]
  {
  }

  /** Every byte of the reserved sectors of a volume: sector six repeats the boot sector, sector seven FSInfo, and all
      others are zero. */
  ghost predicate ReservedLayout(image: seq<Byte>, volumeId: nat, volumeName: seq<Byte>, free: nat, next: nat) {
    && |image| == 67_108_864
    && BootLayout(image[0..512], volumeId, volumeName) && image[3072..3584] == image[0..512]
    && FsInfoLayout(image[512..1024], free, next) && image[3584..4096] == image[512..1024]
    && (forall k :: 1024 <= k < 3072 || 4096 <= k < 16_384 ==> image[k] == 0)
  }

  lemma ReservedIs(image: seq<Byte>, volumeId: nat, volumeName: seq<Byte>, free: nat, next: nat)
    requires volumeId < 0x1_0000_0000 && |volumeName| == 11 && free < 0x1_0000_0000 && next < 0x1_0000_0000
    requires |image| == IMAGE_BYTES
    requires image[..RESERVED_BYTES] == ReservedArea(BootSector(volumeId, volumeName), FsInfoSector(free, next))
    ensures ReservedLayout(image, volumeId, volumeName, free, next)
  {
    hide BootSector, FsInfoSector, BootLayout, FsInfoLayout;
    BootIs(volumeId, volumeName);
    FsInfoIs(free, next);
    AreaSlices(image, BootSector(volumeId, volumeName), FsInfoSector(free, next));
  }

  lemma AreaSlices(image: seq<Byte>, boot: seq<Byte>, info: seq<Byte>)
    requires |boot| == |info| == SECTOR_BYTES && |image| == IMAGE_BYTES && image[..RESERVED_BYTES] == ReservedArea(boot, info)
    ensures image[0..512] == image[3072..3584] == boot && image[512..1024] == image[3584..4096] == info
    ensures forall k :: 1024 <= k < 3072 || 4096 <= k < RESERVED_BYTES ==> image[k] == 0
  {
    var area := ReservedArea(boot, info);
    assert forall k :: 0 <= k < RESERVED_BYTES ==> image[k] == area[k];
  }

  // FSInfo and directory entries

  function FsInfoSector(free: nat, next: nat): (s: seq<Byte>)
    requires free < 0x1_0000_0000 && next < 0x1_0000_0000
    ensures |s| == SECTOR_BYTES
    ensures U32(s, 0) == 0x41615252 && U32(s, 484) == 0x61417272 && U32(s, 508) == 0xAA550000
    ensures U32(s, 488) == free && U32(s, 492) == next
  {
    var s := Patch(Zeros(SECTOR_BYTES), 0, Le32(0x41615252));
    var s := Patch(s, 484, Le32(0x61417272));
    var s := Patch(s, 488, Le32(free));
    var s := Patch(s, 492, Le32(next));
    Patch(s, 508, Le32(0xAA550000))
  }

  function DirectoryEntry(name: seq<Byte>, attributes: Byte, cluster: nat, size: nat): (s: Slot)
    requires |name| == 11 && cluster <= FAT32_MAX_CLUSTER && size < 0x1_0000_0000
  {
    var s := Patch(Zeros(ENTRY_BYTES), 0, name);
    var s := Patch(s, 11, [attributes]);
    var s := Patch(s, 20, Le16(cluster / 0x1_0000));
    var s := Patch(s, 26, Le16(cluster % 0x1_0000));
    Patch(s, 28, Le32(size))
  }

  /** An entry reads back as it was written. */
  lemma EntryRoundTrip(name: seq<Byte>, attributes: Byte, cluster: nat, size: nat, text: Text)
    requires |name| == 11 && cluster <= FAT32_MAX_CLUSTER && size < 0x1_0000_0000
    ensures var s := DirectoryEntry(name, attributes, cluster, size);
            && s[..11] == name && s[11] == attributes
            && EntryOf(s, text) == Entry(name, text, attributes, cluster, size)
  {
    var s := DirectoryEntry(name, attributes, cluster, size);
    assert s[..11] == name;
    assert U16(s, 20) == cluster / 0x1_0000 && U16(s, 26) == cluster % 0x1_0000 && U32(s, 28) == size;
  }

  // Writes, and what they do to the decoded volume

  predicate IsFormat(g: Geometry) {
    g == VolumeGeometry(0, []).(volumeId := g.volumeId, volumeLabel := g.volumeLabel)
  }

  lemma FormatFits(g: Geometry, image: seq<Byte>)
    requires IsFormat(g) && |image| == IMAGE_BYTES
    ensures g.Fits(image)
    ensures forall c: nat :: g.FatOffset(0, c) == RESERVED_BYTES + 4 * c
    ensures forall c: nat :: g.FatOffset(1, c) == RESERVED_BYTES + FAT_SECTORS * SECTOR_BYTES + 4 * c
    ensures g.FatOffset(2, 0) == FIRST_DATA_SECTOR * SECTOR_BYTES
    ensures forall c: nat :: c >= 2 ==> g.ClusterOffset(c) == (FIRST_DATA_SECTOR - 2 + c) * SECTOR_BYTES
    ensures g.ClusterBytes() == SECTOR_BYTES
  {
  }

  /** Both copies of one FAT entry. */
  function SetFat(image: seq<Byte>, cluster: nat, value: nat): (r: seq<Byte>)
    requires |image| == IMAGE_BYTES && cluster <= CLUSTER_COUNT + 1 && value <= FAT32_EOC
    ensures |r| == |image|
  {
    Patch(Patch(image, RESERVED_BYTES + 4 * cluster, Le32(value)),
          RESERVED_BYTES + FAT_SECTORS * SECTOR_BYTES + 4 * cluster, Le32(value))
  }

  /** Part of one cluster. */
  function WriteCluster(image: seq<Byte>, cluster: nat, at: nat, b: seq<Byte>): (r: seq<Byte>)
    requires |image| == IMAGE_BYTES && 2 <= cluster <= CLUSTER_COUNT + 1 && at + |b| <= SECTOR_BYTES
    ensures |r| == |image|
  {
    Patch(image, (FIRST_DATA_SECTOR - 2 + cluster) * SECTOR_BYTES + at, b)
  }

  lemma U32Same(s: seq<Byte>, r: seq<Byte>, at: nat)
    requires at + 4 <= |s| == |r| && s[at..at + 4] == r[at..at + 4]
    ensures U32(s, at) == U32(r, at)
  {
    var a, b := s[at..at + 4], r[at..at + 4];
    assert a[0] == b[0] && a[1] == b[1] && a[2] == b[2] && a[3] == b[3];
  }

  /** The highest byte of a FAT entry, first copy. */
  function TopByte(image: seq<Byte>, c: nat): (b: Byte)
    requires |image| == IMAGE_BYTES && c <= CLUSTER_COUNT + 1
  {
    image[RESERVED_BYTES + 4 * c + 3]
  }

  /** What no reader looks at in the FAT is zero: the top four bits of each entry and everything after the last. */
  ghost predicate FatTidy(image: seq<Byte>)
    requires |image| == IMAGE_BYTES
  {
    && (forall c: nat :: c <= CLUSTER_COUNT + 1 ==> TopByte(image, c) < 16)
    && forall k :: RESERVED_BYTES + 4 * (CLUSTER_COUNT + 2) <= k < RESERVED_BYTES + FAT_SECTORS * SECTOR_BYTES ==> image[k] == 0
  }

  lemma SetFatTidy(image: seq<Byte>, cluster: nat, value: nat)
    requires |image| == IMAGE_BYTES && cluster <= CLUSTER_COUNT + 1 && value <= FAT32_EOC && FatTidy(image)
    ensures FatTidy(SetFat(image, cluster, value))
  {
    var r := SetFat(image, cluster, value);
    forall c: nat | c <= CLUSTER_COUNT + 1
      ensures TopByte(r, c) < 16
    {
      assert c != cluster ==> TopByte(r, c) == TopByte(image, c);
    }
  }

  lemma WriteTidy(image: seq<Byte>, cluster: nat, at: nat, b: seq<Byte>)
    requires |image| == IMAGE_BYTES && 2 <= cluster <= CLUSTER_COUNT + 1 && at + |b| <= SECTOR_BYTES && FatTidy(image)
    ensures FatTidy(WriteCluster(image, cluster, at, b))
  {
    var r := WriteCluster(image, cluster, at, b);
    forall c: nat | c <= CLUSTER_COUNT + 1
      ensures TopByte(r, c) == TopByte(image, c)
    {
    }
  }

  /** What every write keeps: the two FATs stay equal and the reserved sectors stay as they were. */
  ghost predicate Keeps(before: seq<Byte>, after: seq<Byte>, g: Geometry)
    requires g.Fits(before) && g.Fits(after)
  {
    && |before| == |after| == IMAGE_BYTES
    && after[..RESERVED_BYTES] == before[..RESERVED_BYTES]
    && (FatsMatch(before, g) ==> FatsMatch(after, g))
    && (FatTidy(before) ==> FatTidy(after))
  }

  lemma SetFatEntry(image: seq<Byte>, g: Geometry, cluster: nat, value: nat, c: nat)
    requires IsFormat(g) && g.Fits(image) && |image| == IMAGE_BYTES
    requires cluster <= CLUSTER_COUNT + 1 && value <= FAT32_EOC && c <= CLUSTER_COUNT + 1
    ensures g.Fits(SetFat(image, cluster, value))
    ensures FatEntry(SetFat(image, cluster, value), g, c) == if c == cluster then value else FatEntry(image, g, c)
  {
    hide ClusterData, Patch;
    var r := SetFat(image, cluster, value);
    FormatFits(g, image);
    var at, bytes, first := RESERVED_BYTES + 4 * c, Le32(value), RESERVED_BYTES + 4 * cluster;
    var mid := Patch(image, first, bytes);
    PatchAway(mid, first + FAT_SECTORS * SECTOR_BYTES, bytes, at, at + 4);
    if c == cluster {
      PatchInside(image, at, bytes, at, at + 4);
      assert Patch(image[at..at + 4], 0, bytes) == bytes;
      assert U32(r, at) == U32(r[at..at + 4], 0);
    } else {
      PatchAway(image, first, bytes, at, at + 4);
      U32Same(image, r, at);
    }
  }

  lemma SetFatData(image: seq<Byte>, g: Geometry, cluster: nat, value: nat, c: nat)
    requires IsFormat(g) && g.Fits(image) && |image| == IMAGE_BYTES
    requires cluster <= CLUSTER_COUNT + 1 && value <= FAT32_EOC && c <= CLUSTER_COUNT + 1
    ensures g.Fits(SetFat(image, cluster, value))
    ensures ClusterData(SetFat(image, cluster, value), g, c) == ClusterData(image, g, c)
  {
    hide Patch;
    FormatFits(g, image);
    if c >= 2 {
      var at, bytes, place := RESERVED_BYTES + 4 * cluster, Le32(value), (FIRST_DATA_SECTOR - 2 + c) * SECTOR_BYTES;
      PatchAway(image, at, bytes, place, place + SECTOR_BYTES);
      PatchAway(Patch(image, at, bytes), at + FAT_SECTORS * SECTOR_BYTES, bytes, place, place + SECTOR_BYTES);
    }
  }

  lemma SetFatKeeps(image: seq<Byte>, g: Geometry, cluster: nat, value: nat)
    requires IsFormat(g) && g.Fits(image) && |image| == IMAGE_BYTES
    requires cluster <= CLUSTER_COUNT + 1 && value <= FAT32_EOC
    ensures g.Fits(SetFat(image, cluster, value)) && Keeps(image, SetFat(image, cluster, value), g)
  {
    hide Patch;
    FormatFits(g, image);
    var span := FAT_SECTORS * SECTOR_BYTES;
    var at, bytes := RESERVED_BYTES + 4 * cluster, Le32(value);
    var mid := Patch(image, at, bytes);
    var r := SetFat(image, cluster, value);
    PatchAway(image, at, bytes, 0, RESERVED_BYTES);
    PatchAway(mid, at + span, bytes, 0, RESERVED_BYTES);
    PatchInside(image, at, bytes, RESERVED_BYTES, RESERVED_BYTES + span);
    PatchAway(mid, at + span, bytes, RESERVED_BYTES, RESERVED_BYTES + span);
    PatchAway(image, at, bytes, RESERVED_BYTES + span, RESERVED_BYTES + 2 * span);
    PatchInside(mid, at + span, bytes, RESERVED_BYTES + span, RESERVED_BYTES + 2 * span);
    hide FatTidy;
    if FatTidy(image) {
      SetFatTidy(image, cluster, value);
    }
  }

  lemma WriteReads(image: seq<Byte>, g: Geometry, cluster: nat, at: nat, b: seq<Byte>, c: nat)
    requires IsFormat(g) && g.Fits(image) && |image| == IMAGE_BYTES
    requires 2 <= cluster <= CLUSTER_COUNT + 1 && at + |b| <= SECTOR_BYTES && c <= CLUSTER_COUNT + 1
    ensures g.Fits(WriteCluster(image, cluster, at, b))
    ensures FatEntry(WriteCluster(image, cluster, at, b), g, c) == FatEntry(image, g, c)
    ensures ClusterData(WriteCluster(image, cluster, at, b), g, c)
            == if c == cluster then Patch(ClusterData(image, g, c), at, b) else ClusterData(image, g, c)
  {
    hide WriteCluster, FatEntry, ClusterData;
    WriteFat(image, g, cluster, at, b, c);
    WriteData(image, g, cluster, at, b, c);
  }

  lemma WriteFat(image: seq<Byte>, g: Geometry, cluster: nat, at: nat, b: seq<Byte>, c: nat)
    requires IsFormat(g) && g.Fits(image) && |image| == IMAGE_BYTES
    requires 2 <= cluster <= CLUSTER_COUNT + 1 && at + |b| <= SECTOR_BYTES && c <= CLUSTER_COUNT + 1
    ensures g.Fits(WriteCluster(image, cluster, at, b))
    ensures FatEntry(WriteCluster(image, cluster, at, b), g, c) == FatEntry(image, g, c)
  {
    hide Patch, U32;
    var r, place := WriteCluster(image, cluster, at, b), (FIRST_DATA_SECTOR - 2 + cluster) * SECTOR_BYTES;
    FormatFits(g, image);
    var o := RESERVED_BYTES + 4 * c;
    PatchAway(image, place + at, b, o, o + 4);
    U32Same(image, r, o);
  }

  lemma WriteData(image: seq<Byte>, g: Geometry, cluster: nat, at: nat, b: seq<Byte>, c: nat)
    requires IsFormat(g) && g.Fits(image) && |image| == IMAGE_BYTES
    requires 2 <= cluster <= CLUSTER_COUNT + 1 && at + |b| <= SECTOR_BYTES && c <= CLUSTER_COUNT + 1
    ensures g.Fits(WriteCluster(image, cluster, at, b))
    ensures ClusterData(WriteCluster(image, cluster, at, b), g, c)
            == if c == cluster then Patch(ClusterData(image, g, c), at, b) else ClusterData(image, g, c)
  {
    hide Patch;
    var place := (FIRST_DATA_SECTOR - 2 + cluster) * SECTOR_BYTES;
    FormatFits(g, image);
    if c == cluster {
      PatchInside(image, place + at, b, place, place + SECTOR_BYTES);
    } else if c >= 2 {
      var other := (FIRST_DATA_SECTOR - 2 + c) * SECTOR_BYTES;
      PatchAway(image, place + at, b, other, other + SECTOR_BYTES);
    }
  }

  lemma WriteKeeps(image: seq<Byte>, g: Geometry, cluster: nat, at: nat, b: seq<Byte>)
    requires IsFormat(g) && g.Fits(image) && |image| == IMAGE_BYTES
    requires 2 <= cluster <= CLUSTER_COUNT + 1 && at + |b| <= SECTOR_BYTES
    ensures g.Fits(WriteCluster(image, cluster, at, b)) && Keeps(image, WriteCluster(image, cluster, at, b), g)
  {
    hide Patch;
    FormatFits(g, image);
    var span, place := FAT_SECTORS * SECTOR_BYTES, (FIRST_DATA_SECTOR - 2 + cluster) * SECTOR_BYTES + at;
    PatchAway(image, place, b, 0, RESERVED_BYTES);
    PatchAway(image, place, b, RESERVED_BYTES, RESERVED_BYTES + span);
    PatchAway(image, place, b, RESERVED_BYTES + span, RESERVED_BYTES + 2 * span);
    hide FatTidy;
    if FatTidy(image) {
      WriteTidy(image, cluster, at, b);
    }
  }

  /** Writing a FAT entry changes that entry of the volume and nothing else. */
  lemma SetFatDecodes(image: seq<Byte>, g: Geometry, cluster: nat, value: nat)
    requires IsFormat(g) && g.Fits(image) && |image| == IMAGE_BYTES
    requires cluster <= CLUSTER_COUNT + 1 && value <= FAT32_EOC
    ensures g.Fits(SetFat(image, cluster, value)) && Keeps(image, SetFat(image, cluster, value), g)
    ensures var v := Decode(image, g);
            Decode(SetFat(image, cluster, value), g) == v.(fat := v.fat[cluster := value])
  {
    SetFatKeeps(image, g, cluster, value);
    forall c: nat | c <= CLUSTER_COUNT + 1
      ensures FatEntry(SetFat(image, cluster, value), g, c) == if c == cluster then value else FatEntry(image, g, c)
      ensures ClusterData(SetFat(image, cluster, value), g, c) == ClusterData(image, g, c)
    {
      SetFatEntry(image, g, cluster, value, c);
      SetFatData(image, g, cluster, value, c);
    }
    var v, w := Decode(image, g), Decode(SetFat(image, cluster, value), g);
    assert w.fat == v.fat[cluster := value];
    assert w.data == v.data;
  }

  /** Writing into a cluster changes that part of that cluster and nothing else. */
  lemma WriteDecodes(image: seq<Byte>, g: Geometry, cluster: nat, at: nat, b: seq<Byte>)
    requires IsFormat(g) && g.Fits(image) && |image| == IMAGE_BYTES
    requires 2 <= cluster <= CLUSTER_COUNT + 1 && at + |b| <= SECTOR_BYTES
    ensures g.Fits(WriteCluster(image, cluster, at, b)) && Keeps(image, WriteCluster(image, cluster, at, b), g)
    ensures var v := Decode(image, g);
            && |v.data[cluster]| == SECTOR_BYTES
            && Decode(WriteCluster(image, cluster, at, b), g)
               == v.(data := v.data[cluster := Patch(v.data[cluster], at, b)])
  {
    WriteKeeps(image, g, cluster, at, b);
    forall c: nat | c <= CLUSTER_COUNT + 1
      ensures FatEntry(WriteCluster(image, cluster, at, b), g, c) == FatEntry(image, g, c)
      ensures ClusterData(WriteCluster(image, cluster, at, b), g, c)
              == if c == cluster then Patch(ClusterData(image, g, c), at, b) else ClusterData(image, g, c)
    {
      WriteReads(image, g, cluster, at, b, c);
    }
    var v, w := Decode(image, g), Decode(WriteCluster(image, cluster, at, b), g);
    assert w.fat == v.fat;
    assert w.data == v.data[cluster := Patch(v.data[cluster], at, b)];
  }
}
