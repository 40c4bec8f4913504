// Fresh and finished volumes, what the inspector says of them, and reading files back through its report
// (tools/fat32_image.py, build_image, verify_data, inspect_image).

module FatVolume {
  import opened Bytes
  import opened FatChain
  import opened FatDirectory
  import opened FatTree
  import opened FatInspector
  import opened FatAcceptance
  import opened FatGeometry
  import opened FatFormat
  import opened FatNames
  import opened FatLayout
  import opened FatPlan
  import opened FatStore
  import opened FatExact
  import opened FatAllocate

  // A fresh volume

  /** The bytes before any file is stored, FSInfo not yet written. */
  function BlankImage(volumeId: nat, volumeName: seq<Byte>): (image: seq<Byte>)
    requires volumeId < 0x1_0000_0000 && |volumeName| == 11
    ensures |image| == IMAGE_BYTES
  {
    var boot := BootSector(volumeId, volumeName);
    Patch(Patch(Zeros(IMAGE_BYTES), 0, boot), BACKUP_BOOT_SECTOR * SECTOR_BYTES, boot)
  }

  /** The bytes with the reserved FAT entries and the volume label in place. */
  function LabelledImage(volumeId: nat, volumeName: seq<Byte>): (image: seq<Byte>)
    requires volumeId < 0x1_0000_0000 && |volumeName| == 11
    ensures |image| == IMAGE_BYTES
  {
    var image := BlankImage(volumeId, volumeName);
    var image := SetFat(image, 0, MEDIA_ENTRY);
    var image := SetFat(image, 1, FAT32_EOC);
    var image := SetFat(image, ROOT_CLUSTER, FAT32_EOC);
    WriteCluster(image, ROOT_CLUSTER, 0, LabelSlot(volumeName))
  }

  /** build_image for a volume without files. */
  function FreshImage(volumeId: nat, volumeName: seq<Byte>): (image: seq<Byte>)
    requires volumeId < 0x1_0000_0000 && |volumeName| == 11
    ensures |image| == IMAGE_BYTES
  {
    var image := LabelledImage(volumeId, volumeName);
    var info := FsInfoSector(CLUSTER_COUNT - 1, ROOT_CLUSTER + 1);
    var image := Patch(image, FSINFO_SECTOR * SECTOR_BYTES, info);
    Patch(image, (BACKUP_BOOT_SECTOR + FSINFO_SECTOR) * SECTOR_BYTES, info)
  }

  method BuildLabelled(volumeId: nat, volumeName: seq<Byte>) returns (image: array<Byte>)
    requires volumeId < 0x1_0000_0000 && |volumeName| == 11
    ensures fresh(image) && image[..] == LabelledImage(volumeId, volumeName)
  {
    hide BootSector, DirectoryEntry, SetFat, WriteCluster;
    image := new Byte[IMAGE_BYTES](_ => 0);
    assert image[..] == Zeros(IMAGE_BYTES);
    var boot := BootSector(volumeId, volumeName);
    PutBytes(image, 0, boot);
    PutBytes(image, BACKUP_BOOT_SECTOR * SECTOR_BYTES, boot);
    PutFat(image, 0, MEDIA_ENTRY);
    PutFat(image, 1, FAT32_EOC);
    PutFat(image, ROOT_CLUSTER, FAT32_EOC);
    PutCluster(image, ROOT_CLUSTER, 0, LabelSlot(volumeName));
  }

  method BuildFresh(volumeId: nat, volumeName: seq<Byte>) returns (image: array<Byte>)
    requires volumeId < 0x1_0000_0000 && |volumeName| == 11
    ensures fresh(image) && image[..] == FreshImage(volumeId, volumeName)
    ensures ReservedLayout(image[..], volumeId, volumeName, 129_021, 3) && StartLayout(image[..], volumeName)
  {
    hide FsInfoSector, LabelledImage, ReservedLayout, StartLayout;
    FreshLayout(volumeId, volumeName);
    image := BuildLabelled(volumeId, volumeName);
    var info := FsInfoSector(CLUSTER_COUNT - 1, ROOT_CLUSTER + 1);
    PutBytes(image, FSINFO_SECTOR * SECTOR_BYTES, info);
    PutBytes(image, (BACKUP_BOOT_SECTOR + FSINFO_SECTOR) * SECTOR_BYTES, info);
  }

  /** Every reserved byte of a fresh volume, and the first bytes of its FAT and root directory. */
  lemma FreshLayout(volumeId: nat, volumeName: seq<Byte>)
    requires volumeId < 0x1_0000_0000 && |volumeName| == 11
    ensures ReservedLayout(FreshImage(volumeId, volumeName), volumeId, volumeName, 129_021, 3)
    ensures StartLayout(FreshImage(volumeId, volumeName), volumeName)
  {
    hide FreshImage, BootSector, FsInfoSector, OnDisk, ReservedArea, ReservedLayout, StartLayout, DirectoryEntry;
    FreshOnDisk(volumeId, volumeName);
    ReservedIs(FreshImage(volumeId, volumeName), volumeId, volumeName, CLUSTER_COUNT - 1, ROOT_CLUSTER + 1);
    DiskStarts(FreshImage(volumeId, volumeName), VolumeGeometry(volumeId, volumeName), [LabelSlot(volumeName)], [], volumeName);
  }

  lemma BlankEntry(volumeId: nat, volumeName: seq<Byte>, g: Geometry, c: nat)
    requires volumeId < 0x1_0000_0000 && |volumeName| == 11 && IsFormat(g) && c <= CLUSTER_COUNT + 1
    ensures g.Fits(BlankImage(volumeId, volumeName))
    ensures FatEntry(BlankImage(volumeId, volumeName), g, c) == 0
    ensures c >= 2 ==> ClusterData(BlankImage(volumeId, volumeName), g, c) == Zeros(SECTOR_BYTES)
  {
    hide BootSector;
    var image := BlankImage(volumeId, volumeName);
    FormatFits(g, image);
    assert forall k :: RESERVED_BYTES <= k < IMAGE_BYTES ==> image[k] == 0;
  }

  lemma BlankMatches(volumeId: nat, volumeName: seq<Byte>, g: Geometry)
    requires volumeId < 0x1_0000_0000 && |volumeName| == 11 && IsFormat(g)
    ensures g.Fits(BlankImage(volumeId, volumeName)) && FatsMatch(BlankImage(volumeId, volumeName), g)
    ensures FatTidy(BlankImage(volumeId, volumeName))
  {
    hide BootSector;
    var image := BlankImage(volumeId, volumeName);
    FormatFits(g, image);
    assert forall k :: RESERVED_BYTES <= k < IMAGE_BYTES ==> image[k] == 0;
  }

  /** A labelled volume holds its label and nothing else. */
  lemma LabelledOnDisk(volumeId: nat, volumeName: seq<Byte>)
    requires volumeId < 0x1_0000_0000 && |volumeName| == 11
    ensures OnDisk(LabelledImage(volumeId, volumeName), VolumeGeometry(volumeId, volumeName), [LabelSlot(volumeName)], [])
    ensures LabelledImage(volumeId, volumeName)[..RESERVED_BYTES] ==
            ReservedArea(BootSector(volumeId, volumeName), Zeros(SECTOR_BYTES))
  {
    hide BootSector, DirectoryEntry, SetFat, WriteCluster, Decode, FatsMatch, FatTidy, BlankImage, ReservedArea;
    var g := VolumeGeometry(volumeId, volumeName);
    var a := BlankImage(volumeId, volumeName);
    BlankMatches(volumeId, volumeName, g);
    SetFatDecodes(a, g, 0, MEDIA_ENTRY);
    var b := SetFat(a, 0, MEDIA_ENTRY);
    SetFatDecodes(b, g, 1, FAT32_EOC);
    var c := SetFat(b, 1, FAT32_EOC);
    SetFatDecodes(c, g, ROOT_CLUSTER, FAT32_EOC);
    var d := SetFat(c, ROOT_CLUSTER, FAT32_EOC);
    WriteDecodes(d, g, ROOT_CLUSTER, 0, LabelSlot(volumeName));
    var e := WriteCluster(d, ROOT_CLUSTER, 0, LabelSlot(volumeName));
    assert e[..RESERVED_BYTES] == a[..RESERVED_BYTES];
    BlankVolume(volumeId, volumeName, g);
    FreshStored(Decode(a, g), Decode(e, g), LabelSlot(volumeName));
    BlankReserved(volumeId, volumeName);
  }

  lemma BlankReserved(volumeId: nat, volumeName: seq<Byte>)
    requires volumeId < 0x1_0000_0000 && |volumeName| == 11
    ensures BlankImage(volumeId, volumeName)[..RESERVED_BYTES] ==
            ReservedArea(BootSector(volumeId, volumeName), Zeros(SECTOR_BYTES))
  {
    hide BootSector;
  }

  /** A fresh volume holds its label and nothing else. */
  lemma FreshOnDisk(volumeId: nat, volumeName: seq<Byte>)
    requires volumeId < 0x1_0000_0000 && |volumeName| == 11
    ensures OnDisk(FreshImage(volumeId, volumeName), VolumeGeometry(volumeId, volumeName), [LabelSlot(volumeName)], [])
    ensures FreshImage(volumeId, volumeName)[..RESERVED_BYTES] ==
            ReservedArea(BootSector(volumeId, volumeName), FsInfoSector(CLUSTER_COUNT - 1, ROOT_CLUSTER + 1))
  {
    hide BootSector, FsInfoSector, DirectoryEntry, LabelledImage, Decode, FatsMatch, FatTidy, Stored, ReservedArea;
    LabelledOnDisk(volumeId, volumeName);
    var g, e := VolumeGeometry(volumeId, volumeName), LabelledImage(volumeId, volumeName);
    var info := FsInfoSector(CLUSTER_COUNT - 1, ROOT_CLUSTER + 1);
    ReservedWrite(e, g, FSINFO_SECTOR * SECTOR_BYTES, info);
    var f := Patch(e, FSINFO_SECTOR * SECTOR_BYTES, info);
    ReservedWrite(f, g, (BACKUP_BOOT_SECTOR + FSINFO_SECTOR) * SECTOR_BYTES, info);
    InfoReplaced(e, BootSector(volumeId, volumeName), Zeros(SECTOR_BYTES), info);
  }

  /** Writing FSInfo twice replaces it in the reserved area. */
  lemma InfoReplaced(image: seq<Byte>, boot: seq<Byte>, was: seq<Byte>, info: seq<Byte>)
    requires |image| == IMAGE_BYTES && |boot| == |was| == |info| == SECTOR_BYTES
    requires image[..RESERVED_BYTES] == ReservedArea(boot, was)
    ensures Patch(Patch(image, 512, info), 3584, info)[..RESERVED_BYTES] == ReservedArea(boot, info)
  {
    var r := Patch(Patch(image, 512, info), 3584, info);
    forall k | 0 <= k < RESERVED_BYTES
      ensures r[k] == ReservedArea(boot, info)[k]
    {
      assert image[k] == image[..RESERVED_BYTES][k];
    }
  }

  ghost predicate Blank(v: Volume) {
    && v.Valid() && v.clusterBytes == SECTOR_BYTES && |v.fat| == CLUSTER_COUNT + 2
    && (forall c :: 0 <= c < |v.fat| ==> v.fat[c] == 0)
    && (forall c :: 2 <= c < |v.fat| ==> v.data[c] == Zeros(SECTOR_BYTES))
  }

  lemma BlankVolume(volumeId: nat, volumeName: seq<Byte>, g: Geometry)
    requires volumeId < 0x1_0000_0000 && |volumeName| == 11 && IsFormat(g)
    ensures g.Fits(BlankImage(volumeId, volumeName)) && Blank(Decode(BlankImage(volumeId, volumeName), g))
  {
    hide BlankImage, FatEntry, ClusterData;
    BlankMatches(volumeId, volumeName, g);
    forall c: nat | c <= CLUSTER_COUNT + 1
      ensures FatEntry(BlankImage(volumeId, volumeName), g, c) == 0
      ensures c >= 2 ==> ClusterData(BlankImage(volumeId, volumeName), g, c) == Zeros(SECTOR_BYTES)
    {
      BlankEntry(volumeId, volumeName, g, c);
    }
  }

  lemma FreshStored(v: Volume, w: Volume, s: Slot)
    requires Blank(v) && w.Valid()
    requires w == v.(fat := v.fat[0 := MEDIA_ENTRY][1 := FAT32_EOC][ROOT_CLUSTER := FAT32_EOC],
                     data := v.data[ROOT_CLUSTER := Patch(v.data[ROOT_CLUSTER], 0, s)])
    ensures Stored(w, [s], [])
  {
    hide Pack;
    EmptyDirectory();
    PackAppend([], s);
    assert [] + [s] == [s];
    assert Start([], 0) == ROOT_CLUSTER + 1;
  }

  // The inspector on a finished image

  lemma FsInfoParses(image: seq<Byte>, g: Geometry, free: nat, next: nat)
    requires IsFormat(g) && |image| == IMAGE_BYTES && g.Fits(image)
    requires free <= CLUSTER_COUNT && (next == 0xFFFF_FFFF || 2 <= next <= CLUSTER_COUNT + 1)
    requires image[SECTOR_BYTES..2 * SECTOR_BYTES] == FsInfoSector(free, next)
    ensures ParseFsInfo(image, g) == Ok(FsInfo(free, next))
  {
    hide FsInfoSector;
    CheckedMulExact(FSINFO_SECTOR, SECTOR_BYTES);
    assert g.SectorOffset(g.fsinfoSector) == Ok(SECTOR_BYTES);
  }

  /** Clusters a plan occupies, the root included. */
  function UsedBy(p: Plan): (n: nat) {
    Start(Shape(p), Total(p)) - ROOT_CLUSTER
  }

  function NextHint(p: Plan): (n: nat) {
    var next := Start(Shape(p), Total(p));
    if next <= CLUSTER_COUNT + 1 then next else 0xFFFF_FFFF
  }

  /** The image is the finished form of a plan. */
  ghost predicate Finished(image: seq<Byte>, volumeId: nat, p: Plan)
    requires volumeId < 0x1_0000_0000 && PlanOk(p)
  {
    && OnDisk(image, VolumeGeometry(volumeId, p.volumeName), RootSlots(p), Contents(p))
    && UsedBy(p) <= CLUSTER_COUNT && NextHint(p) < 0x1_0000_0000
    && image[..RESERVED_BYTES] ==
       ReservedArea(BootSector(volumeId, p.volumeName), FsInfoSector(CLUSTER_COUNT - UsedBy(p), NextHint(p)))
  }

  /** Every reserved byte of a finished image. */
  lemma FinishedReserved(image: seq<Byte>, volumeId: nat, p: Plan)
    requires volumeId < 0x1_0000_0000 && PlanOk(p) && Finished(image, volumeId, p)
    ensures UsedBy(p) <= CLUSTER_COUNT
    ensures ReservedLayout(image, volumeId, p.volumeName, CLUSTER_COUNT - UsedBy(p), NextHint(p))
    ensures image[..SECTOR_BYTES] == BootSector(volumeId, p.volumeName)
    ensures image[SECTOR_BYTES..2 * SECTOR_BYTES] == FsInfoSector(CLUSTER_COUNT - UsedBy(p), NextHint(p))
  {
    hide BootSector, FsInfoSector, ReservedLayout, ReservedArea, OnDisk, Shape, Start;
    var info := FsInfoSector(CLUSTER_COUNT - UsedBy(p), NextHint(p));
    DiskLength(image, volumeId, p);
    ReservedIs(image, volumeId, p.volumeName, CLUSTER_COUNT - UsedBy(p), NextHint(p));
    AreaSlices(image, BootSector(volumeId, p.volumeName), info);
    assert image[..512] == image[0..512];
  }

  /** One plan, one image: a finished image is determined byte for byte. */
  lemma FinishedUnique(a: seq<Byte>, b: seq<Byte>, volumeId: nat, p: Plan)
    requires volumeId < 0x1_0000_0000 && PlanOk(p) && Finished(a, volumeId, p) && Finished(b, volumeId, p)
    ensures a == b
  {
    hide PlanOk, OnDisk, RootSlots, Contents, BootSector, FsInfoSector, ReservedArea, UsedBy, NextHint;
    DiskUnique(a, b, VolumeGeometry(volumeId, p.volumeName), RootSlots(p), Contents(p));
  }

  /** The first bytes of its FAT and root directory. */
  lemma FinishedStarts(image: seq<Byte>, volumeId: nat, p: Plan)
    requires volumeId < 0x1_0000_0000 && PlanOk(p) && Finished(image, volumeId, p)
    ensures StartLayout(image, p.volumeName)
  {
    hide OnDisk, RootSlots, Contents, BootSector, FsInfoSector, ReservedArea, UsedBy, NextHint, StartLayout, DirectoryEntry;
    RootBegins(p);
    assert RootSlots(p)[0] == RootSlots(p)[..1][0];
    DiskStarts(image, VolumeGeometry(volumeId, p.volumeName), RootSlots(p), Contents(p), p.volumeName);
  }

  lemma DiskLength(image: seq<Byte>, volumeId: nat, p: Plan)
    requires volumeId < 0x1_0000_0000 && PlanOk(p) && Finished(image, volumeId, p)
    ensures |image| == IMAGE_BYTES && |p.volumeName| == 11
  {
    hide Decode, FatsMatch, FatTidy, Stored, BootSector, FsInfoSector, ReservedArea, Shape;
  }

  ghost function PlanReport(p: Plan): (r: Report)
    requires PlanOk(p)
  {
    Report(TreeRecords(ROOT_PATH, RootNode(p)), CLUSTER_COUNT - UsedBy(p), UsedBy(p))
  }

  lemma DiskDecodes(image: seq<Byte>, volumeId: nat, p: Plan)
    requires volumeId < 0x1_0000_0000 && PlanOk(p) && Finished(image, volumeId, p)
    ensures var g := VolumeGeometry(volumeId, p.volumeName);
            && g.Fits(image) && FatsMatch(image, g)
            && ParseGeometry(image) == Ok(g)
            && ParseFsInfo(image, g) == Ok(FsInfo(CLUSTER_COUNT - UsedBy(p), NextHint(p)))
            && FatEntry(image, g, 0) == MEDIA_ENTRY && FatEntry(image, g, 1) == FAT32_EOC
            && LaidOut(Decode(image, g), RootBlock(p), Contents(p))
  {
    hide BootSector, FsInfoSector, Shape, Contents, LaidOut, FatEntry, ClusterData, FatsMatch, FatTidy, RootSlots, Holds, Pack,
         ParseFsInfo, ReservedArea, ReservedLayout;
    FinishedReserved(image, volumeId, p);
    var g := VolumeGeometry(volumeId, p.volumeName);
    BootParses(image, volumeId, p.volumeName);
    FsInfoParses(image, g, CLUSTER_COUNT - UsedBy(p), NextHint(p));
    var v := Decode(image, g);
    StoredIsLaidOut(v, RootSlots(p), Contents(p));
    assert v.fat[0] == FatEntry(image, g, 0) && v.fat[1] == FatEntry(image, g, 1);
  }

  /** `next` is the first free cluster, or the unknown mark when there is none. */
  ghost predicate FirstFree(v: Volume, next: nat) {
    if exists c :: v.InRange(c) && v.fat[c] == 0 then
      v.InRange(next) && v.fat[next] == 0 && forall c :: 2 <= c < next ==> v.fat[c] != 0
    else next == 0xFFFF_FFFF
  }

  /** FSInfo of a finished image tells the truth about its FAT: how many clusters are free, and which is the first. */
  lemma FinishedHints(image: seq<Byte>, volumeId: nat, p: Plan)
    requires volumeId < 0x1_0000_0000 && PlanOk(p) && Finished(image, volumeId, p)
    ensures var g := VolumeGeometry(volumeId, p.volumeName);
            && g.Fits(image) && ParseFsInfo(image, g).Ok?
            && var (v, info) := (Decode(image, g), ParseFsInfo(image, g).value);
               info.freeHint + |Used(v)| == |v.fat| - 2 && FirstFree(v, info.nextHint)
  {
    hide PlanOk, Finished, Decode, ParseGeometry, ParseFsInfo, LaidOut, FatEntry, FatsMatch, RootBlock, Contents, RootSlots, Shape,
         Start, FirstFree;
    DiskDecodes(image, volumeId, p);
    var v := Decode(image, VolumeGeometry(volumeId, p.volumeName));
    PlanFits(p);
    LaidOutUsed(v, RootBlock(p), Contents(p));
    SamePlaces(p, Total(p));
    LaidOutLength(v, RootBlock(p), Contents(p));
    HintTrue(v, Start(Shape(p), Total(p)));
  }

  lemma LaidOutLength(v: Volume, root: seq<Byte>, contents: seq<seq<Byte>>)
    requires LaidOut(v, root, contents)
    ensures |v.fat| == CLUSTER_COUNT + 2
  {
    hide Holds;
  }

  lemma HintTrue(v: Volume, end: nat)
    requires |v.fat| == CLUSTER_COUNT + 2 && 2 <= end <= CLUSTER_COUNT + 2
    requires forall c :: c in Used(v) <==> 2 <= c < end
    ensures FirstFree(v, if end <= CLUSTER_COUNT + 1 then end else 0xFFFF_FFFF)
  {
    forall c | v.InRange(c)
      ensures v.fat[c] != 0 <==> c < end
    {
      assert c in Used(v) <==> v.fat[c] != 0;
    }
  }

  /** inspect_image accepts a finished image exactly when its root directory has an end marker, and then
      reports the plan's tree with the exact free count. */
  lemma FinishedInspected(image: seq<Byte>, volumeId: nat, p: Plan)
    requires volumeId < 0x1_0000_0000 && PlanOk(p) && Finished(image, volumeId, p)
    ensures InspectImage(image) == if |RootSlots(p)| < SLOTS then Ok(PlanReport(p)) else Err(NoEndMarker)
  {
    hide PlanOk, Finished, Decode, ParseGeometry, ParseFsInfo, LaidOut, Accounts, InspectVolume, FatEntry, FatsMatch,
         RootBlock, Contents, RootSlots, Held, RootNode, Shape, TreeRecords;
    DiskDecodes(image, volumeId, p);
    var v := Decode(image, VolumeGeometry(volumeId, p.volumeName));
    PlanFits(p);
    if |RootSlots(p)| < SLOTS {
      PlanAccepted(v, p, CLUSTER_COUNT - UsedBy(p));
      AccountedIsAccepted(v, ROOT_CLUSTER, CLUSTER_COUNT - UsedBy(p), RootNode(p));
    } else {
      PlanRefused(v, p, CLUSTER_COUNT - UsedBy(p));
    }
  }

  lemma PlanFits(p: Plan)
    requires PlanOk(p)
    ensures |RootSlots(p)| <= SLOTS && UsedBy(p) <= CLUSTER_COUNT
  {
    hide Shape;
  }

  /** Following a stored file's chain returns its payload, padded with zeros to whole clusters. */
  lemma FinishedReadBack(image: seq<Byte>, volumeId: nat, p: Plan, j: nat, payload: seq<Byte>)
    requires volumeId < 0x1_0000_0000 && PlanOk(p) && Finished(image, volumeId, p)
    requires j < Total(p) && Contents(p)[j] == payload
    ensures var v := Decode(image, VolumeGeometry(volumeId, p.volumeName));
            var chain := Run(Start(Shape(p), j), Blocks(payload));
            && WalkChain(v, Start(Shape(p), j)) == Ok(chain)
            && (forall i :: 0 <= i < |chain| ==> v.InRange(chain[i]))
            && ReadChain(v, chain) == payload + Zeros(SECTOR_BYTES * Blocks(payload) - |payload|)
  {
    hide PlanOk, Decode, Contents, Shape, RootBlock, LaidOut, WalkChain, ReadChain;
    DiskDecodes(image, volumeId, p);
    var v := Decode(image, VolumeGeometry(volumeId, p.volumeName));
    StoredAt(v, p, j);
    ReadBack(v, Start(Shape(p), j), payload);
  }

  // Reading files back through the report

  /** A record of the report leads to these bytes under this path: the recorded size is theirs, and the chain
      from the recorded cluster holds them, then zeros. */
  ghost predicate Leads(image: seq<Byte>, r: Record, path: Text, payload: seq<Byte>) {
    && r.path == path && r.entry.size == |payload| && !r.entry.IsDirectory()
    && ParseGeometry(image).Ok?
    && var v := Decode(image, ParseGeometry(image).value);
    var chain := WalkChain(v, r.entry.firstCluster);
    && chain.Ok? && (forall i :: 0 <= i < |chain.value| ==> v.InRange(chain.value[i]))
    && var data := ReadChain(v, chain.value);
    && |payload| <= |data| && data == payload + Zeros(|data| - |payload|)
  }

  /** The inspector accepts the image and reports a file with this path that leads to these bytes. */
  ghost predicate Available(image: seq<Byte>, path: Text, payload: seq<Byte>) {
    && InspectImage(image).Ok?
    && exists r :: r in InspectImage(image).value.records && Leads(image, r, path, payload)
  }

  /** The report's files are these and no others. */
  ghost predicate HoldsExactly(image: seq<Byte>, paths: seq<Text>, payloads: seq<seq<Byte>>)
    requires |paths| == |payloads|
  {
    && InspectImage(image).Ok?
    && (forall i :: 0 <= i < |paths| ==> Available(image, paths[i], payloads[i]))
    && (forall r :: r in InspectImage(image).value.records && !r.entry.IsDirectory() ==>
          exists i :: 0 <= i < |paths| && Leads(image, r, paths[i], payloads[i]))
  }

  lemma {:induction false} ChildListed(path: Text, entries: seq<Entry>, children: seq<Node>, i: nat, r: Record)
    requires |entries| == |children| && i < |entries| && r in TreeRecords(ChildPath(path, entries[i].text), children[i])
    ensures r in ChildRecords(path, entries, children)
    decreases i
  {
    hide TreeRecords, ChildPath;
    if i > 0 {
      ChildListed(path, entries[1..], children[1..], i - 1, r);
    }
  }

  lemma {:induction false} ListedInChild(path: Text, entries: seq<Entry>, children: seq<Node>, r: Record) returns (i: nat)
    requires r in ChildRecords(path, entries, children)
    ensures i < |entries| && i < |children| && r in TreeRecords(ChildPath(path, entries[i].text), children[i])
    decreases |children|
  {
    hide TreeRecords, ChildPath;
    if r in TreeRecords(ChildPath(path, entries[0].text), children[0]) {
      i := 0;
    } else {
      var k := ListedInChild(path, entries[1..], children[1..], r);
      i := k + 1;
    }
  }

  ghost function FileRecord(p: Plan, i: nat): (r: Record)
    requires PlanOk(p) && i < |p.files|
  {
    Record(FilePath(p, i), RootEntry(p, i))
  }

  ghost function FilePath(p: Plan, i: nat): (t: Text)
    requires PlanOk(p) && i < |p.files|
  {
    PlanFile(p, i);
    TextOf(p.files[i].name)
  }

  ghost function DirPath(p: Plan, d: nat): (t: Text)
    requires PlanOk(p) && d < |p.dirs|
  {
    PlanDir(p, d);
    TextOf(p.dirs[d].name)
  }

  ghost function MemberPath(p: Plan, d: nat, k: nat): (t: Text)
    requires PlanOk(p) && d < |p.dirs| && k < |p.dirs[d].files|
  {
    PlanMember(p, d, k);
    ChildPath(DirPath(p, d), TextOf(p.dirs[d].files[k].name))
  }

  ghost function MemberRecord(p: Plan, d: nat, k: nat): (r: Record)
    requires PlanOk(p) && d < |p.dirs| && k < |p.dirs[d].files|
  {
    Record(MemberPath(p, d, k), DirMember(p, d, 2 + k))
  }

  ghost predicate IsMember(p: Plan, d: nat, k: nat) {
    d < |p.dirs| && k < |p.dirs[d].files|
  }

  lemma FileListed(p: Plan, i: nat)
    requires PlanOk(p) && i < |p.files|
    ensures FileRecord(p, i) in TreeRecords(ROOT_PATH, RootNode(p))
  {
    hide PlanOk, ChildRecords, FilePath, RootEntry, RootChild;
    var rs := Records(ROOT_PATH, RootEntries(p));
    RootText(p, i);
    assert rs[i] == FileRecord(p, i);
    assert rs[i] in rs;
  }

  lemma RootText(p: Plan, i: nat)
    requires PlanOk(p) && i < |p.files| + |p.dirs|
    ensures RootEntry(p, i).text == if i < |p.files| then FilePath(p, i) else DirPath(p, i - |p.files|)
    ensures RootEntries(p)[i] == RootEntry(p, i)
  {
    hide PlanOk, TextOf, Start, Shape;
  }

  /** The records of a directory of a plan. */
  lemma DirRecords(p: Plan, d: nat)
    requires PlanOk(p) && d < |p.dirs|
    ensures TreeRecords(DirPath(p, d), DirNode(p, d)) == Records(DirPath(p, d), DirEntries(p, d))
  {
    hide PlanOk, DirPath, DirMember, DirEntries, Records, FileNode, DirChild;
    var entries, children := DirEntries(p, d), DirNode(p, d).children;
    assert forall i :: 0 <= i < |children| ==> !children[i].Folder? by {
      forall i | 0 <= i < |children|
        ensures !children[i].Folder?
      {
        assert children[i] == DirChild(p, d, i);
        LeafChild(p, d, i);
      }
    }
    LeavesSilent(DirPath(p, d), entries, children);
  }

  lemma LeafChild(p: Plan, d: nat, i: nat)
    requires PlanOk(p) && d < |p.dirs| && i < 2 + |p.dirs[d].files|
    ensures !DirChild(p, d, i).Folder?
  {
    hide PlanOk, Start, Shape;
  }

  lemma {:induction false} LeavesSilent(path: Text, entries: seq<Entry>, children: seq<Node>)
    requires forall i :: 0 <= i < |children| ==> !children[i].Folder?
    ensures ChildRecords(path, entries, children) == []
    decreases |children|
  {
    if children != [] && entries != [] {
      LeavesSilent(path, entries[1..], children[1..]);
    }
  }

  lemma MemberListed(p: Plan, d: nat, k: nat)
    requires PlanOk(p) && d < |p.dirs| && k < |p.dirs[d].files|
    ensures MemberRecord(p, d, k) in TreeRecords(ROOT_PATH, RootNode(p))
  {
    hide PlanOk, DirPath, DirNode, RootEntries, Records, TreeRecords, ChildRecords, MemberRecord, RootNode, ChildPath;
    var i := |p.files| + d;
    MemberInDir(p, d, k);
    DirRecords(p, d);
    DirAtRoot(p, d);
    ChildListed(ROOT_PATH, RootEntries(p), RootNode(p).children, i, MemberRecord(p, d, k));
    RootUnfolds(p);
  }

  /** Where a directory stands in the root. */
  lemma DirAtRoot(p: Plan, d: nat)
    requires PlanOk(p) && d < |p.dirs|
    ensures var i := |p.files| + d;
            && RootNode(p).Folder? && |RootNode(p).children| == |RootEntries(p)| == |p.files| + |p.dirs|
            && RootNode(p).children[i] == DirNode(p, d) && ChildPath(ROOT_PATH, RootEntries(p)[i].text) == DirPath(p, d)
  {
    hide PlanOk, DirNode, RootEntries, RootEntry, DirPath, FilePath, FileNode, ChildPath;
    var i := |p.files| + d;
    RootText(p, i);
    UnderRoot(DirPath(p, d));
    assert RootNode(p).children[i] == RootChild(p, i) == DirNode(p, d);
  }

  lemma UnderRoot(text: Text)
    ensures ChildPath(ROOT_PATH, text) == text
  {
  }

  lemma RootUnfolds(p: Plan)
    requires PlanOk(p)
    ensures TreeRecords(ROOT_PATH, RootNode(p))
            == Records(ROOT_PATH, RootEntries(p)) + ChildRecords(ROOT_PATH, RootEntries(p), RootNode(p).children)
  {
    hide PlanOk, RootEntries, RootChild, Records, ChildRecords;
  }

  lemma MemberInDir(p: Plan, d: nat, k: nat)
    requires PlanOk(p) && d < |p.dirs| && k < |p.dirs[d].files|
    ensures MemberRecord(p, d, k) in Records(DirPath(p, d), DirEntries(p, d))
  {
    hide PlanOk, TextOf, DirPath, ChildPath, Start, Shape;
    var rs := Records(DirPath(p, d), DirEntries(p, d));
    assert DirEntries(p, d)[2 + k] == DirMember(p, d, 2 + k);
    assert rs[2 + k] == MemberRecord(p, d, k);
    assert rs[2 + k] in rs;
  }

  /** Every directory lists itself as `.` and the root as `..`. */
  lemma DotsListed(p: Plan, d: nat)
    requires PlanOk(p) && d < |p.dirs|
    ensures var (records, path) := (TreeRecords(ROOT_PATH, RootNode(p)), DirPath(p, d));
            && var own := RootEntry(p, |p.files| + d).firstCluster;
            && Record(ChildPath(path, [0x2E]), Entry([0x2E] + Blanks(10), [0x2E], 0x10, own, 0)) in records
            && Record(ChildPath(path, [0x2E, 0x2E]), Entry([0x2E, 0x2E] + Blanks(9), [0x2E, 0x2E], 0x10, 2, 0)) in records
  {
    hide PlanOk, DirPath, DirNode, RootEntries, Records, TreeRecords, ChildRecords, RootNode, ChildPath, ShortNameText, Start, Shape;
    var (i, rs) := (|p.files| + d, Records(DirPath(p, d), DirEntries(p, d)));
    DotNamesDecode();
    DotNamesAre();
    DotInDir(p, d, 0);
    DotInDir(p, d, 1);
    DirRecords(p, d);
    DirAtRoot(p, d);
    ChildListed(ROOT_PATH, RootEntries(p), RootNode(p).children, i, rs[0]);
    ChildListed(ROOT_PATH, RootEntries(p), RootNode(p).children, i, rs[1]);
    RootUnfolds(p);
  }

  ghost function Blanks(n: nat): (s: seq<Byte>) {
    seq(n, _ => 0x20)
  }

  lemma DotNamesAre()
    ensures DOT_NAME == [0x2E] + Blanks(10) && DOTDOT_NAME == [0x2E, 0x2E] + Blanks(9)
  {
  }

  lemma DotInDir(p: Plan, d: nat, i: nat)
    requires PlanOk(p) && d < |p.dirs| && i < 2
    ensures var rs := Records(DirPath(p, d), DirEntries(p, d));
            && |rs| >= 2 && rs[i] in rs
            && rs[i] == Record(ChildPath(DirPath(p, d), DirMember(p, d, i).text), DirMember(p, d, i))
  {
    hide PlanOk, DirPath, ChildPath, DirMember;
    var rs := Records(DirPath(p, d), DirEntries(p, d));
    assert DirEntries(p, d)[i] == DirMember(p, d, i);
    assert rs[i] in rs;
  }

  /** Every file record of a plan's report is one of its files. */
  lemma ListedIsPlanned(p: Plan, r: Record)
    requires PlanOk(p) && r in TreeRecords(ROOT_PATH, RootNode(p)) && !r.entry.IsDirectory()
    ensures (exists i: nat :: i < |p.files| && r == FileRecord(p, i))
         || (exists d: nat, k: nat :: IsMember(p, d, k) && r == MemberRecord(p, d, k))
  {
    hide PlanOk, FilePath, DirPath, RootEntries, DirNode, TreeRecords, ChildRecords, FileNode, FileRecord, MemberRecord, ChildPath,
         RootEntry, Records;
    RootUnfolds(p);
    if r in Records(ROOT_PATH, RootEntries(p)) {
      ListedInRoot(p, r);
    } else {
      var i := ListedInChild(ROOT_PATH, RootEntries(p), RootNode(p).children, r);
      assert RootNode(p).children[i] == RootChild(p, i);
      if i < |p.files| {
        FileSilent(p, i, ChildPath(ROOT_PATH, RootEntries(p)[i].text));
      } else {
        DirAtRoot(p, i - |p.files|);
        ListedInDir(p, i - |p.files|, r);
      }
    }
  }

  lemma FileSilent(p: Plan, j: nat, path: Text)
    requires PlanOk(p) && j < Total(p)
    ensures TreeRecords(path, FileNode(p, j)) == []
  {
    hide PlanOk, Start, Shape;
  }

  lemma ListedInRoot(p: Plan, r: Record)
    requires PlanOk(p) && r in Records(ROOT_PATH, RootEntries(p)) && !r.entry.IsDirectory()
    ensures exists i: nat :: i < |p.files| && r == FileRecord(p, i)
  {
    hide PlanOk, TextOf, FilePath, Start, Shape;
    var i :| 0 <= i < |RootEntries(p)| && r == Records(ROOT_PATH, RootEntries(p))[i];
    RootText(p, i);
    if i < |p.files| {
      assert r == FileRecord(p, i);
    }
  }

  lemma ListedInDir(p: Plan, d: nat, r: Record)
    requires PlanOk(p) && d < |p.dirs| && !r.entry.IsDirectory()
    requires r in TreeRecords(DirPath(p, d), DirNode(p, d))
    ensures exists k: nat :: IsMember(p, d, k) && r == MemberRecord(p, d, k)
  {
    hide PlanOk, TextOf, DirPath, ChildPath, TreeRecords, DirNode, Start, Shape;
    DirRecords(p, d);
    var t := DirPath(p, d);
    var i :| 0 <= i < |DirEntries(p, d)| && r == Records(t, DirEntries(p, d))[i];
    assert DirEntries(p, d)[i] == DirMember(p, d, i);
    if i >= 2 {
      assert r == MemberRecord(p, d, i - 2) && IsMember(p, d, i - 2);
    }
  }

  /** The record of a stored content leads to it. */
  lemma StoredLeads(image: seq<Byte>, volumeId: nat, p: Plan, j: nat, r: Record, payload: seq<Byte>)
    requires volumeId < 0x1_0000_0000 && PlanOk(p) && Finished(image, volumeId, p)
    requires j < Total(p) && Contents(p)[j] == payload
    requires r.entry.firstCluster == Start(Shape(p), j) && r.entry.size == |payload| && !r.entry.IsDirectory()
    ensures Leads(image, r, r.path, payload)
  {
    hide PlanOk, Finished, Decode, ParseGeometry, Contents, Shape, WalkChain, ReadChain, LaidOut, ParseFsInfo, FatsMatch, FatEntry;
    DiskDecodes(image, volumeId, p);
    FinishedReadBack(image, volumeId, p, j, payload);
  }

  lemma FileLeads(image: seq<Byte>, volumeId: nat, p: Plan, i: nat)
    requires volumeId < 0x1_0000_0000 && PlanOk(p) && Finished(image, volumeId, p) && i < |p.files|
    ensures Leads(image, FileRecord(p, i), FilePath(p, i), p.files[i].payload)
  {
    hide PlanOk, Finished, Contents, Shape, Leads, FilePath, TextOf, Start;
    PlanAttributes(p);
    FileContent(p, i);
    StoredLeads(image, volumeId, p, i, FileRecord(p, i), p.files[i].payload);
  }

  lemma MemberLeads(image: seq<Byte>, volumeId: nat, p: Plan, d: nat, k: nat)
    requires volumeId < 0x1_0000_0000 && PlanOk(p) && Finished(image, volumeId, p) && IsMember(p, d, k)
    ensures Leads(image, MemberRecord(p, d, k), MemberPath(p, d, k), p.dirs[d].files[k].payload)
  {
    hide PlanOk, Finished, Contents, Shape, Leads, TextOf, Start, MemberPath;
    PlanAttributes(p);
    MemberContent(p, d, k);
    StoredLeads(image, volumeId, p, MemberIndex(p, d, k), MemberRecord(p, d, k), p.dirs[d].files[k].payload);
  }

  /** A finished image with room for an end marker. */
  ghost predicate Complete(image: seq<Byte>, volumeId: nat, p: Plan) {
    volumeId < 0x1_0000_0000 && PlanOk(p) && Finished(image, volumeId, p) && |RootSlots(p)| < SLOTS
  }

  lemma CompleteInspected(image: seq<Byte>, volumeId: nat, p: Plan)
    requires Complete(image, volumeId, p)
    ensures PlanOk(p) && InspectImage(image).Ok? && InspectImage(image).value.records == TreeRecords(ROOT_PATH, RootNode(p))
  {
    hide PlanOk, Finished, InspectImage, RootSlots, RootNode, TreeRecords, UsedBy;
    FinishedInspected(image, volumeId, p);
  }

  /** Every file of the plan is reported under its path, and its record leads to its bytes. */
  lemma FileAvailable(image: seq<Byte>, volumeId: nat, p: Plan, i: nat)
    requires Complete(image, volumeId, p) && i < |p.files|
    ensures Available(image, FilePath(p, i), p.files[i].payload)
  {
    hide PlanOk, Finished, InspectImage, RootSlots, RootNode, TreeRecords, Leads, FilePath, FileRecord;
    CompleteInspected(image, volumeId, p);
    FileListed(p, i);
    FileLeads(image, volumeId, p, i);
  }

  lemma MemberAvailable(image: seq<Byte>, volumeId: nat, p: Plan, d: nat, k: nat)
    requires Complete(image, volumeId, p) && IsMember(p, d, k)
    ensures Available(image, MemberPath(p, d, k), p.dirs[d].files[k].payload)
  {
    hide PlanOk, Finished, InspectImage, RootSlots, RootNode, TreeRecords, Leads, MemberPath, MemberRecord;
    CompleteInspected(image, volumeId, p);
    MemberListed(p, d, k);
    MemberLeads(image, volumeId, p, d, k);
  }

  /** Every reported file is one of the plan's. */
  lemma ReportedIsPlanned(image: seq<Byte>, volumeId: nat, p: Plan, r: Record)
    requires Complete(image, volumeId, p) && InspectImage(image).Ok?
    requires r in InspectImage(image).value.records && !r.entry.IsDirectory()
    ensures (exists i: nat :: i < |p.files| && Leads(image, r, FilePath(p, i), p.files[i].payload))
         || (exists d: nat, k: nat :: IsMember(p, d, k) && Leads(image, r, MemberPath(p, d, k), p.dirs[d].files[k].payload))
  {
    hide PlanOk, Finished, InspectImage, RootSlots, RootNode, TreeRecords, Leads, FilePath, MemberPath, FileRecord, MemberRecord;
    CompleteInspected(image, volumeId, p);
    ListedIsPlanned(p, r);
    if i: nat :| i < |p.files| && r == FileRecord(p, i) {
      FileLeads(image, volumeId, p, i);
    } else {
      var d: nat, k: nat :| IsMember(p, d, k) && r == MemberRecord(p, d, k);
      MemberLeads(image, volumeId, p, d, k);
    }
  }

  /** Every file the inspector reports has these attributes, and everything else is a plain directory. */
  ghost predicate Marked(image: seq<Byte>, attributes: Byte) {
    && InspectImage(image).Ok?
    && forall r :: r in InspectImage(image).value.records ==> r.entry.attributes == attributes || r.entry.attributes == 0x10
  }

  lemma CompleteMarked(image: seq<Byte>, volumeId: nat, p: Plan)
    requires Complete(image, volumeId, p)
    ensures Marked(image, p.attributes)
  {
    hide Complete, InspectImage, PlanOk, RootNode, TreeRecords;
    CompleteInspected(image, volumeId, p);
    forall r | r in InspectImage(image).value.records
      ensures r.entry.attributes == p.attributes || r.entry.attributes == 0x10
    {
      RecordMarked(p, r);
    }
  }

  lemma RecordMarked(p: Plan, r: Record)
    requires PlanOk(p) && r in TreeRecords(ROOT_PATH, RootNode(p))
    ensures r.entry.attributes == p.attributes || r.entry.attributes == 0x10
  {
    hide PlanOk, TextOf, TreeRecords, ChildRecords, DirNode, FileNode, Start, Shape, DirPath, FilePath;
    RootUnfolds(p);
    if r in Records(ROOT_PATH, RootEntries(p)) {
      var i :| 0 <= i < |RootEntries(p)| && r == Records(ROOT_PATH, RootEntries(p))[i];
      RootText(p, i);
    } else {
      var i := ListedInChild(ROOT_PATH, RootEntries(p), RootNode(p).children, r);
      assert RootNode(p).children[i] == RootChild(p, i);
      RootText(p, i);
      if i < |p.files| {
        FileSilent(p, i, ChildPath(ROOT_PATH, RootEntries(p)[i].text));
      } else {
        var d := i - |p.files|;
        DirRecords(p, d);
        var k :| 0 <= k < |DirEntries(p, d)| && r == Records(DirPath(p, d), DirEntries(p, d))[k];
        assert DirEntries(p, d)[k] == DirMember(p, d, k);
      }
    }
  }

  /** The fixed bytes of a data volume: its identity, its label, and a free count and hint of the caller's. */
  ghost predicate DataLayout(image: seq<Byte>, free: nat, next: nat) {
    var name: seq<Byte> := [0x52, 0x53, 0x44, 0x44, 0x41, 0x54, 0x41, 0x20, 0x20, 0x20, 0x20];
    ReservedLayout(image, 0x2000_0002, name, free, next) && StartLayout(image, name)
  }

  // Fresh volumes

  function EmptyPlan(volumeName: seq<Byte>): (p: Plan) {
    Plan(volumeName, FILE_ATTRIBUTE, [], [])
  }

  lemma FreshFinished(volumeId: nat, volumeName: seq<Byte>)
    requires volumeId < 0x1_0000_0000 && IsLabel(volumeName)
    ensures PlanOk(EmptyPlan(volumeName))
    ensures Finished(FreshImage(volumeId, volumeName), volumeId, EmptyPlan(volumeName))
    ensures InspectImage(FreshImage(volumeId, volumeName)) == Ok(Report([], CLUSTER_COUNT - 1, 1))
  {
    hide FreshImage, BootSector, FsInfoSector, DirectoryEntry, InspectImage, OnDisk, ReservedArea;
    var p := EmptyPlan(volumeName);
    FreshOnDisk(volumeId, volumeName);
    assert RootSlots(p) == [LabelSlot(volumeName)];
    assert Contents(p) == [] && Total(p) == 0;
    FinishedInspected(FreshImage(volumeId, volumeName), volumeId, p);
    assert TreeRecords(ROOT_PATH, RootNode(p)) == [];
  }

  /** verify_data: the one image it lets through is the deterministic fresh data volume. */
  method VerifyData(source: seq<Byte>) returns (r: Result<Report, FatError>)
    ensures r.Ok? <==> source == FreshImage(DATA_VOLUME_ID, DATA_LABEL)
  {
    hide FreshImage, InspectImage, ParseGeometry;
    DataLabel();
    FreshFinished(DATA_VOLUME_ID, DATA_LABEL);
    FreshGeometry();
    var report := Inspect(source);
    if report.Err? {
      return Err(report.error);
    }
    var geometry := ParseGeometry(source);
    if geometry.Err? {
      return Err(geometry.error);
    }
    if geometry.value.volumeId != DATA_VOLUME_ID || geometry.value.volumeLabel != RStrip(DATA_LABEL) {
      return Err(NotFreshVolume);
    }
    if report.value.records != [] {
      return Err(NotFreshVolume);
    }
    var rebuilt := BuildFresh(DATA_VOLUME_ID, DATA_LABEL);
    if source != rebuilt[..] {
      return Err(NotFreshVolume);
    }
    r := report;
  }

  lemma DataLabel()
    ensures IsLabel(DATA_LABEL)
  {
  }

  lemma FreshGeometry()
    ensures ParseGeometry(FreshImage(DATA_VOLUME_ID, DATA_LABEL)) == Ok(VolumeGeometry(DATA_VOLUME_ID, DATA_LABEL))
  {
    hide FreshImage, BootSector, ParseGeometry, ReservedArea, FsInfoSector, OnDisk;
    DataLabel();
    FreshOnDisk(DATA_VOLUME_ID, DATA_LABEL);
    AreaSlices(FreshImage(DATA_VOLUME_ID, DATA_LABEL), BootSector(DATA_VOLUME_ID, DATA_LABEL),
               FsInfoSector(CLUSTER_COUNT - 1, ROOT_CLUSTER + 1));
    assert FreshImage(DATA_VOLUME_ID, DATA_LABEL)[..512] == FreshImage(DATA_VOLUME_ID, DATA_LABEL)[0..512];
    BootParses(FreshImage(DATA_VOLUME_ID, DATA_LABEL), DATA_VOLUME_ID, DATA_LABEL);
  }

  /** The last step of every formatter: FSInfo with the exact free count and the next free cluster. */
  method Finish(image: array<Byte>, ghost volumeId: nat, ghost p: Plan, ghost was: seq<Byte>, next: nat, free: nat)
    requires volumeId < 0x1_0000_0000 && PlanOk(p)
    requires OnDisk(image[..], VolumeGeometry(volumeId, p.volumeName), RootSlots(p), Contents(p))
    requires |was| == SECTOR_BYTES && image.Length == IMAGE_BYTES
    requires image[..RESERVED_BYTES] == ReservedArea(BootSector(volumeId, p.volumeName), was)
    requires next == Start(Shape(p), Total(p)) && free + UsedBy(p) == CLUSTER_COUNT
    modifies image
    ensures Finished(image[..], volumeId, p)
    ensures ReservedLayout(image[..], volumeId, p.volumeName, free, if next > 129_023 then 0xFFFF_FFFF else next)
    ensures StartLayout(image[..], p.volumeName)
  {
    hide ReservedLayout, StartLayout;
    hide PlanOk, OnDisk, RootSlots, Contents, BootSector, FsInfoSector, Start, Shape, ReservedArea;
    PlanFits(p);
    RootBegins(p);
    var nextFree := if next > CLUSTER_COUNT + 1 then 0xFFFF_FFFF else next;
    ghost var before := image[..];
    PutFsInfo(image, VolumeGeometry(volumeId, p.volumeName), free, nextFree, RootSlots(p), Contents(p));
    assert before[..RESERVED_BYTES] == old(image[..RESERVED_BYTES]);
    InfoReplaced(before, BootSector(volumeId, p.volumeName), was, FsInfoSector(free, nextFree));
    FinishedReserved(image[..], volumeId, p);
    FinishedStarts(image[..], volumeId, p);
  }
}
