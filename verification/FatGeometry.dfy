// The byte layer of FAT32: the geometry solver, the boot sector, FSInfo and the decoded volume
// (tools/fat32_image.py).

module FatGeometry {
  import opened Bytes
  import opened FatChain
  import opened FatDirectory
  import opened FatInspector

  const SECTOR_BYTES := 512
  const RESERVED_SECTORS := 32
  const FAT_COPIES := 2
  const FAT32_MIN_CLUSTERS := 65_525
  const MEDIA := 0xF8
  const LIMIT64 := 0xFFFF_FFFF_FFFF_FFFF

  function CheckedAdd(left: int, right: int): (r: Result<nat, FatError>) {
    if left < 0 || right < 0 || left > LIMIT64 - right then Err(AdditionOverflow) else Ok(left + right)
  }

  function CheckedMul(left: int, right: int): (r: Result<nat, FatError>)
    ensures r.Ok? ==> r.value == left * right
  {
    if left < 0 || right < 0 || (left != 0 && right > LIMIT64 / left) then Err(MultiplicationOverflow)
    else
      assert left * right >= 0;
      Ok(left * right)
  }

  lemma CheckedMulExact(left: nat, right: nat)
    ensures CheckedMul(left, right).Ok? <==> left * right <= LIMIT64
  {
    if left != 0 {
      var q := LIMIT64 / left;
      assert left * q <= LIMIT64 < left * (q + 1);
      if right <= q {
        assert left * right <= left * q;
      } else {
        assert left * (q + 1) <= left * right;
      }
    }
  }

  // Solving FAT size against data size

  /** A FAT of `f` sectors leaves data sectors and has an entry for each of them and for the two
      reserved cluster numbers. */
  predicate Covers(total: int, f: int) {
    var data := total - 32 - 2 * f;
    f >= 1 && data > 0 && f * 512 / 4 >= data + 2
  }

  /** The smallest FAT that covers its own data region, refused only when no size does. */
  method ComputeFatSectors(total: int) returns (r: Result<nat, FatError>)
    ensures r.Ok? ==> Covers(total, r.value) && forall f :: 1 <= f < r.value ==> !Covers(total, f)
    ensures r.Err? ==> r.error == VolumeTooSmall && forall f :: !Covers(total, f)
  {
    var fatSectors := 1;
    while true
      invariant fatSectors >= 1
      invariant forall f :: f < fatSectors ==> !Covers(total, f)
      decreases total - RESERVED_SECTORS - FAT_COPIES * fatSectors
    {
      var dataSectors := total - RESERVED_SECTORS - FAT_COPIES * fatSectors;
      if dataSectors <= 0 {
        return Err(VolumeTooSmall);
      }
      var entries := fatSectors * SECTOR_BYTES / 4;
      if entries >= dataSectors + 2 {
        return Ok(fatSectors);
      }
      fatSectors := fatSectors + 1;
    }
  }

  // The boot sector

  datatype Geometry = Geometry(
    bytesPerSector: nat, sectorsPerCluster: nat, reservedSectors: nat, fatCopies: nat, totalSectors: nat,
    fatSectors: nat, rootCluster: nat, fsinfoSector: nat, backupBootSector: nat, firstDataSector: nat,
    clusterCount: nat, maximumCluster: nat, volumeId: nat, volumeLabel: Text)
  {
    function ClusterSector(cluster: int): (r: Result<nat, FatError>) {
      if cluster < 2 || cluster > maximumCluster then Err(ClusterOutsideData)
      else
        var relative :- CheckedMul(cluster - 2, sectorsPerCluster);
        var sector :- CheckedAdd(firstDataSector, relative);
        if sector >= totalSectors then Err(ClusterEscapedVolume) else Ok(sector)
    }

    function SectorOffset(sector: int): (r: Result<nat, FatError>) {
      if sector < 0 || sector >= totalSectors then Err(SectorOutsideVolume)
      else CheckedMul(sector, bytesPerSector)
    }

    /** The facts a parsed boot sector guarantees. */
    ghost predicate Valid() {
      && bytesPerSector in {512, 1024, 2048, 4096}
      && sectorsPerCluster in {1, 2, 4, 8, 16, 32, 64, 128}
      && 2 <= reservedSectors < 0x1_0000 && fatCopies == 2
      && 1 <= fatSectors < 0x1_0000_0000 && totalSectors < 0x1_0000_0000
      && firstDataSector == reservedSectors + 2 * fatSectors < totalSectors
      && clusterCount == (totalSectors - firstDataSector) / sectorsPerCluster
      && FAT32_MIN_CLUSTERS <= clusterCount <= FAT32_MAX_CLUSTER - 1
      && maximumCluster == clusterCount + 1
      && fatSectors * bytesPerSector / 4 > maximumCluster
      && 2 <= rootCluster <= maximumCluster
      && 0 < fsinfoSector < reservedSectors
      && 0 < backupBootSector < reservedSectors && backupBootSector != fsinfoSector
    }

    function ClusterBytes(): (n: nat) {
      bytesPerSector * sectorsPerCluster
    }

    ghost predicate Fits(image: seq<Byte>) {
      Valid() && |image| == totalSectors * bytesPerSector
    }

    /** Where a cluster's bytes start. */
    function ClusterOffset(cluster: nat): (at: nat)
      requires 2 <= cluster
    {
      (firstDataSector + (cluster - 2) * sectorsPerCluster) * bytesPerSector
    }

    /** Where a FAT entry starts. */
    function FatOffset(copy: nat, cluster: nat): (at: nat) {
      (reservedSectors + copy * fatSectors) * bytesPerSector + cluster * 4
    }
  }

  /** The checks on what the boot sector says about the regions of the volume. */
  function ParseRegions(image: seq<Byte>, bps: nat, spc: nat, reserved: nat, firstData: nat): (r: Result<Geometry, FatError>)
    requires |image| >= SECTOR_BYTES && bps in {512, 1024, 2048, 4096} && spc in {1, 2, 4, 8, 16, 32, 64, 128}
    requires 2 <= reserved < 0x1_0000 && U32(image, 36) > 0 && firstData == reserved + 2 * U32(image, 36)
    ensures r.Ok? ==> r.value.Fits(image)
  {
    hide U16, U32, Geometry.Fits;
    var total := U32(image, 32);
    if firstData >= total then Err(MetadataConsumesVolume)
    else
      var count := (total - firstData) / spc;
      if count < FAT32_MIN_CLUSTERS || count > FAT32_MAX_CLUSTER - 1 then Err(NotFat32)
      else ParsePlaces(image, bps, spc, reserved, firstData, count)
  }

  /** The checks that remain once the cluster count is known. */
  function ParsePlaces(image: seq<Byte>, bps: nat, spc: nat, reserved: nat, firstData: nat, count: nat)
    : (r: Result<Geometry, FatError>)
    requires |image| >= SECTOR_BYTES && bps in {512, 1024, 2048, 4096} && spc in {1, 2, 4, 8, 16, 32, 64, 128}
    requires 2 <= reserved < 0x1_0000 && U32(image, 36) > 0 && firstData == reserved + 2 * U32(image, 36) < U32(image, 32)
    requires FAT32_MIN_CLUSTERS <= count <= FAT32_MAX_CLUSTER - 1 && count == (U32(image, 32) - firstData) / spc
    ensures r.Ok? ==> r.value.Fits(image)
  {
    hide U16, U32, RStrip, CheckedMul;
    var total, fatSectors, root := U32(image, 32), U32(image, 36), U32(image, 44);
    var fsinfo, backup := U16(image, 48), U16(image, 50);
    var maximum :- CheckedAdd(count, 1);
    var fatBytes :- CheckedMul(fatSectors, bps);
    if fatBytes / 4 <= maximum then Err(FatTooShort)
    else if root < 2 || root > maximum then Err(BadRootCluster)
    else if fsinfo == 0 || fsinfo >= reserved then Err(BadFsInfoSector)
    else if backup == 0 || backup >= reserved || backup == fsinfo then Err(BadBackupSector)
    else
      var bytes :- CheckedMul(total, bps);
      if bytes != |image| then Err(LengthMismatch)
      else if exists i :: 71 <= i < 82 && (image[i] < 0x20 || image[i] > 0x7E) then Err(BadLabel)
      else Ok(Geometry(bps, spc, reserved, 2, total, fatSectors, root, fsinfo, backup, firstData,
                       count, maximum, U32(image, 67), RStrip(image[71..82])))
  }

  function ParseGeometry(image: seq<Byte>): (r: Result<Geometry, FatError>)
    ensures r.Ok? ==> r.value.Fits(image)
  {
    if |image| < SECTOR_BYTES then Err(TruncatedBoot)
    else if image[510..512] != [0x55, 0xAA] then Err(BadBootSignature)
    else
      var bps, spc, reserved, fats := U16(image, 11), image[13], U16(image, 14), image[16];
      if bps !in {512, 1024, 2048, 4096} then Err(BadSectorSize)
      else if spc !in {1, 2, 4, 8, 16, 32, 64, 128} then Err(BadClusterSize)
      else if reserved < 2 || fats != 2 || U16(image, 17) != 0 then Err(BadReservedGeometry)
      else if U16(image, 19) != 0 || U32(image, 32) == 0 || U16(image, 22) != 0 || U32(image, 36) == 0 then Err(BadLegacyFields)
      else
        var span :- CheckedMul(fats, U32(image, 36));
        var firstData :- CheckedAdd(reserved, span);
        ParseRegions(image, bps, spc, reserved, firstData)
  }

  lemma MulLe(a: nat, b: nat, k: nat)
    requires a <= b
    ensures a * k <= b * k
  {
  }

  /** Every data cluster is a run of sectors wholly between the second FAT and the end of the volume. */
  lemma ClusterInside(g: Geometry, cluster: nat)
    requires g.Valid() && 2 <= cluster <= g.maximumCluster
    ensures g.firstDataSector <= g.firstDataSector + (cluster - 2) * g.sectorsPerCluster
    ensures g.firstDataSector + (cluster - 2) * g.sectorsPerCluster + g.sectorsPerCluster <= g.totalSectors
  {
    WholeRuns(g.totalSectors - g.firstDataSector, g.sectorsPerCluster, cluster - 2);
  }

  lemma WholeRuns(sectors: nat, spc: nat, k: nat)
    requires spc > 0 && k < sectors / spc
    ensures 0 <= k * spc && k * spc + spc <= sectors
  {
    MulLe(k + 1, sectors / spc, spc);
    assert (k + 1) * spc == k * spc + spc;
    assert sectors / spc * spc <= sectors;
  }

  /** So no checked step of the translation can refuse it. */
  lemma ClusterTranslates(g: Geometry, cluster: nat)
    requires g.Valid() && 2 <= cluster <= g.maximumCluster
    ensures g.ClusterSector(cluster) == Ok(g.firstDataSector + (cluster - 2) * g.sectorsPerCluster)
    ensures g.SectorOffset(g.ClusterSector(cluster).value) == Ok(g.ClusterOffset(cluster))
    ensures g.ClusterOffset(cluster) + g.ClusterBytes() <= g.totalSectors * g.bytesPerSector
    ensures g.FatOffset(2, 0) <= g.ClusterOffset(cluster)
  {
    hide CheckedMul;
    var spc, bps := g.sectorsPerCluster, g.bytesPerSector;
    ClusterInside(g, cluster);
    var sector := g.firstDataSector + (cluster - 2) * spc;
    CheckedMulExact(cluster - 2, spc);
    SectorChecked(sector, bps);
    RunEnds(sector, spc, g.totalSectors, bps);
    MulLe(g.firstDataSector, sector, bps);
  }

  lemma RunEnds(sector: nat, spc: nat, total: nat, bps: nat)
    requires sector + spc <= total
    ensures sector * bps + bps * spc <= total * bps
  {
    MulLe(sector + spc, total, bps);
    assert (sector + spc) * bps == sector * bps + spc * bps;
  }

  /** Two clusters never share a byte. */
  lemma ClustersApart(g: Geometry, c: nat, d: nat)
    requires g.Valid() && 2 <= c < d <= g.maximumCluster
    ensures g.ClusterOffset(c) + g.ClusterBytes() <= g.ClusterOffset(d)
  {
    RunsApart(g.firstDataSector, g.sectorsPerCluster, g.bytesPerSector, c - 2, d - 2);
  }

  lemma RunsApart(first: nat, spc: nat, bps: nat, a: nat, b: nat)
    requires a < b
    ensures (first + a * spc) * bps + bps * spc <= (first + b * spc) * bps
  {
    MulLe(a + 1, b, spc);
    assert (a + 1) * spc == a * spc + spc;
    MulLe(first + a * spc + spc, first + b * spc, bps);
    assert (first + a * spc + spc) * bps == (first + a * spc) * bps + spc * bps;
  }

  /** FAT copies are equally long runs of bytes, one after the other. */
  lemma FatCopyStart(g: Geometry, copy: nat)
    ensures g.FatOffset(copy, 0) == g.reservedSectors * g.bytesPerSector + copy * (g.fatSectors * g.bytesPerSector)
    ensures g.FatOffset(copy + 1, 0) == g.FatOffset(copy, 0) + g.fatSectors * g.bytesPerSector
  {
    var r, fs, bps := g.reservedSectors, g.fatSectors, g.bytesPerSector;
    assert (r + copy * fs) * bps == r * bps + copy * fs * bps == r * bps + copy * (fs * bps);
    assert (r + (copy + 1) * fs) * bps == (r + copy * fs) * bps + fs * bps;
  }

  lemma FatSectorTranslates(g: Geometry, copy: nat)
    requires g.Valid() && copy < 2
    ensures g.SectorOffset(g.reservedSectors + copy * g.fatSectors) == Ok(g.FatOffset(copy, 0))
  {
    hide CheckedMul;
    var sector := g.reservedSectors + copy * g.fatSectors;
    assert copy == 0 || copy == 1;
    assert sector < g.totalSectors;
    SectorChecked(sector, g.bytesPerSector);
  }

  lemma SectorChecked(sector: nat, bps: nat)
    requires sector < 0x1_0000_0000 && bps <= 4096
    ensures CheckedMul(sector, bps) == Ok(sector * bps)
  {
    MulLe(sector, 0x1_0000_0000, bps);
    CheckedMulExact(sector, bps);
  }

  /** Every FAT entry the inspector reads lies inside its own FAT copy, ahead of the data region. */
  lemma FatEntryInside(g: Geometry, copy: nat, cluster: nat)
    requires g.Valid() && copy < 2 && cluster <= g.maximumCluster
    ensures g.FatOffset(copy, cluster) + 4 <= g.FatOffset(copy + 1, 0)
    ensures g.FatOffset(copy + 1, 0) <= g.firstDataSector * g.bytesPerSector <= g.totalSectors * g.bytesPerSector
    ensures g.SectorOffset(g.reservedSectors + copy * g.fatSectors) == Ok(g.FatOffset(copy, 0))
  {
    FatCopyStart(g, copy);
    FatCopyStart(g, 1);
    FatSectorTranslates(g, copy);
    MulLe(g.firstDataSector, g.totalSectors, g.bytesPerSector);
    assert g.FatOffset(copy, cluster) == g.FatOffset(copy, 0) + cluster * 4;
  }

  // Reading

  function FatValue(image: seq<Byte>, g: Geometry, copy: int, cluster: int): (r: Result<nat, FatError>) {
    if copy < 0 || copy >= g.fatCopies then Err(FatCopyInvalid)
    else if cluster < 0 || cluster > g.maximumCluster then Err(FatIndexInvalid)
    else
      var offset :- g.SectorOffset(g.reservedSectors + copy * g.fatSectors);
      if offset + cluster * 4 + 4 > |image| then Err(FatLookupEscaped)
      else Ok(U32(image, offset + cluster * 4) % 0x1000_0000)
  }

  lemma FatValueTotal(image: seq<Byte>, g: Geometry, copy: nat, cluster: nat)
    requires g.Fits(image) && copy < 2 && cluster <= g.maximumCluster
    ensures g.FatOffset(copy, cluster) + 4 <= |image|
    ensures FatValue(image, g, copy, cluster) == Ok(U32(image, g.FatOffset(copy, cluster)) % 0x1000_0000)
  {
    FatEntryInside(g, copy, cluster);
  }

  function FatEntry(image: seq<Byte>, g: Geometry, cluster: nat): (v: nat)
    requires g.Fits(image) && cluster <= g.maximumCluster
    ensures v <= FAT32_EOC
  {
    FatValueTotal(image, g, 0, cluster);
    FatValue(image, g, 0, cluster).value
  }

  function ClusterData(image: seq<Byte>, g: Geometry, cluster: nat): (block: seq<Byte>)
    requires g.Fits(image) && cluster <= g.maximumCluster
    ensures cluster >= 2 ==> |block| == g.ClusterBytes()
  {
    if cluster < 2 then []
    else
      ClusterTranslates(g, cluster);
      image[g.ClusterOffset(cluster)..g.ClusterOffset(cluster) + g.ClusterBytes()]
  }

  function Decode(image: seq<Byte>, g: Geometry): (v: Volume)
    requires g.Fits(image)
    ensures v.Valid() && |v.fat| == g.maximumCluster + 1
  {
    var n := g.maximumCluster + 1;
    assert g.ClusterBytes() % ENTRY_BYTES == 0 && g.ClusterBytes() > 0 by { ClusterBytesAligned(g); }
    Volume(seq(n, c requires 0 <= c < n => FatEntry(image, g, c)),
           seq(n, c requires 0 <= c < n => ClusterData(image, g, c)),
           g.ClusterBytes())
  }

  lemma ClusterBytesAligned(g: Geometry)
    requires g.Valid()
    ensures g.ClusterBytes() > 0 && g.ClusterBytes() % ENTRY_BYTES == 0
  {
    AlignedProduct(g.bytesPerSector / ENTRY_BYTES, g.sectorsPerCluster);
  }

  lemma AlignedProduct(k: nat, n: nat)
    requires k > 0 && n > 0
    ensures (ENTRY_BYTES * k) * n > 0 && (ENTRY_BYTES * k) * n % ENTRY_BYTES == 0
  {
    assert k * n > 0;
    assert (ENTRY_BYTES * k) * n == ENTRY_BYTES * (k * n);
  }

  datatype FsInfo = FsInfo(freeHint: nat, nextHint: nat)

  function ParseFsInfo(image: seq<Byte>, g: Geometry): (r: Result<FsInfo, FatError>)
    requires g.Fits(image)
  {
    var offset :- g.SectorOffset(g.fsinfoSector);
    MulLe(g.fsinfoSector + 1, g.totalSectors, g.bytesPerSector);
    var info := image[offset..offset + g.bytesPerSector];
    if |info| < 512 || U32(info, 0) != 0x41615252 || U32(info, 484) != 0x61417272 || U32(info, 508) != 0xAA550000
    then Err(BadFsInfoSignature)
    else
      var free, next := U32(info, 488), U32(info, 492);
      if !(free == UNKNOWN_FREE || free <= g.clusterCount)
         || !(next == 0xFFFF_FFFF || 2 <= next <= g.maximumCluster) then Err(BadFsInfoHint)
      else Ok(FsInfo(free, next))
  }

  predicate FatsMatch(image: seq<Byte>, g: Geometry)
    requires g.Fits(image)
  {
    FatEntryInside(g, 0, 0);
    FatEntryInside(g, 1, 0);
    image[g.FatOffset(0, 0)..g.FatOffset(1, 0)] == image[g.FatOffset(1, 0)..g.FatOffset(2, 0)]
  }

  ghost function InspectImage(image: seq<Byte>): (r: Result<Report, FatError>) {
    var g :- ParseGeometry(image);
    var info :- ParseFsInfo(image, g);
    if !FatsMatch(image, g) then Err(FatCopiesDiffer)
    else if FatEntry(image, g, 0) != 0x0FFF_FF00 + MEDIA then Err(BadMediaEntry)
    else if FatEntry(image, g, 1) < FAT32_EOC_MIN then Err(BadReservedEntry)
    else InspectVolume(Decode(image, g), g.rootCluster, info.freeHint)
  }

  method Inspect(image: seq<Byte>) returns (r: Result<Report, FatError>)
    ensures r == InspectImage(image)
  {
    hide InspectVolume;
    var geometry := ParseGeometry(image);
    if geometry.Err? {
      return Err(geometry.error);
    }
    var g := geometry.value;
    var info := ParseFsInfo(image, g);
    if info.Err? {
      return Err(info.error);
    }
    if !FatsMatch(image, g) {
      return Err(FatCopiesDiffer);
    }
    if FatEntry(image, g, 0) != 0x0FFF_FF00 + MEDIA {
      return Err(BadMediaEntry);
    }
    if FatEntry(image, g, 1) < FAT32_EOC_MIN {
      return Err(BadReservedEntry);
    }
    r := ComputeInspection(Decode(image, g), g.rootCluster, info.value.freeHint);
  }
}
