// The acceptance theorems as facts about image bytes (tools/fat32_image.py, inspect_image).

module FatImages {
  import opened Bytes
  import opened FatChain
  import opened FatDirectory
  import opened FatTree
  import opened FatInspector
  import opened FatAcceptance
  import opened FatGeometry

  /** The header checks: boot sector, FSInfo, equal FAT copies and the two reserved entries. */
  ghost predicate HeadersOk(image: seq<Byte>) {
    && ParseGeometry(image).Ok?
    && var g := ParseGeometry(image).value;
    && ParseFsInfo(image, g).Ok? && FatsMatch(image, g)
    && FatEntry(image, g, 0) == 0x0FFF_FF00 + MEDIA && FatEntry(image, g, 1) >= FAT32_EOC_MIN
  }

  ghost function VolumeOf(image: seq<Byte>): (v: Volume)
    requires HeadersOk(image)
    ensures v.Valid()
  {
    Decode(image, ParseGeometry(image).value)
  }

  ghost function RootOf(image: seq<Byte>): (c: int)
    requires HeadersOk(image)
  {
    ParseGeometry(image).value.rootCluster
  }

  ghost function HintOf(image: seq<Byte>): (h: nat)
    requires HeadersOk(image)
  {
    ParseFsInfo(image, ParseGeometry(image).value).value.freeHint
  }

  ghost predicate AccountsFor(image: seq<Byte>, n: Node)
    requires HeadersOk(image)
  {
    Accounts(VolumeOf(image), RootOf(image), HintOf(image), n)
  }

  lemma ImageUnfolds(image: seq<Byte>)
    ensures InspectImage(image).Ok? ==> HeadersOk(image)
    ensures HeadersOk(image) ==> InspectImage(image) == InspectVolume(VolumeOf(image), RootOf(image), HintOf(image))
  {
    hide ParseGeometry, ParseFsInfo, FatsMatch, FatEntry, Decode, InspectVolume;
  }

  /** inspect_image accepts some bytes exactly when their headers are in order and a directory tree accounts
      for the volume they hold; that tree is the only one, and the report lists it. */
  lemma ImageDecides(image: seq<Byte>)
    ensures InspectImage(image).Ok? <==>
              HeadersOk(image) && exists n :: AccountsFor(image, n)
    ensures HeadersOk(image) ==>
              forall n, m :: AccountsFor(image, n) && AccountsFor(image, m) ==> n == m
    ensures HeadersOk(image) ==> forall n :: AccountsFor(image, n) ==>
              InspectImage(image) == Ok(Report(TreeRecords(ROOT_PATH, n), VolumeOf(image).ClusterCount() - |Held(n)|, |Held(n)|))
  {
    hide HeadersOk, InspectVolume, VolumeOf, RootOf, HintOf, Accounts, TreeRecords, Held, InspectImage;
    ImageUnfolds(image);
    if HeadersOk(image) {
      InspectDecides(VolumeOf(image), RootOf(image), HintOf(image));
      if n :| Accounts(VolumeOf(image), RootOf(image), HintOf(image), n) {
        assert AccountsFor(image, n);
      }
    }
  }

  /** In accepted bytes, two records that share a cluster have the same path. */
  lemma ImageRecordsDisjoint(image: seq<Byte>, r: Record, s: Record, c: int)
    requires InspectImage(image).Ok? && HeadersOk(image)
    requires r in InspectImage(image).value.records && s in InspectImage(image).value.records
    requires Occupies(VolumeOf(image), r.entry, c) && Occupies(VolumeOf(image), s.entry, c)
    ensures r.path == s.path
  {
    hide InspectVolume, VolumeOf, RootOf, HintOf, Occupies, InspectImage, HeadersOk;
    ImageUnfolds(image);
    RecordsDisjoint(VolumeOf(image), RootOf(image), HintOf(image), r, s, c);
  }

  /** In accepted bytes, a cluster's FAT entry is nonzero exactly when the root directory or a record owns it,
      and the reported free clusters are the others. */
  lemma ImageAllocatedIsOwned(image: seq<Byte>, n: Node, c: int)
    requires InspectImage(image).Ok? && HeadersOk(image) && DescribesFolder(VolumeOf(image), RootOf(image), n)
    requires VolumeOf(image).InRange(c)
    ensures VolumeOf(image).fat[c] != 0 <==>
            c in Own(n) || exists r :: r in InspectImage(image).value.records && Occupies(VolumeOf(image), r.entry, c)
    ensures InspectImage(image).value.freeClusters + |Held(n)| == VolumeOf(image).ClusterCount()
  {
    hide InspectVolume, VolumeOf, RootOf, HintOf, Occupies, InspectImage, HeadersOk, DescribesFolder, Held, Own;
    ImageUnfolds(image);
    AllocatedIsOwned(VolumeOf(image), RootOf(image), HintOf(image), n, c);
    FreePlusOwned(VolumeOf(image), RootOf(image), HintOf(image), n);
  }
}
