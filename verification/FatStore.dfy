// The formatter's writes, in place on the image bytes, and what each leaves on the volume
// (tools/fat32_image.py, _set_fat and the allocation loops).

module FatStore {
  import opened Bytes
  import opened FatChain
  import opened FatDirectory
  import opened FatTree
  import opened FatInspector
  import opened FatGeometry
  import opened FatFormat
  import opened FatLayout
  import opened FatPlan

  const MEDIA_ENTRY := 0x0FFF_FFF8

  /** A volume under construction: root slots so far, contents so far, everything after them blank. */
  ghost predicate Stored(v: Volume, ss: seq<Slot>, contents: seq<seq<Byte>>) {
    && |ss| <= SLOTS
    && v.Valid() && v.clusterBytes == SECTOR_BYTES && |v.fat| == CLUSTER_COUNT + 2
    && v.fat[0] == MEDIA_ENTRY && v.fat[1] == FAT32_EOC
    && v.fat[ROOT_CLUSTER] == FAT32_EOC && v.data[ROOT_CLUSTER] == Pack(ss)
    && Start(contents, |contents|) <= |v.fat|
    && (forall j :: 0 <= j < |contents| ==> contents[j] != [] && Holds(v, Start(contents, j), contents[j]))
    && (forall c :: Start(contents, |contents|) <= c < |v.fat| ==> v.fat[c] == 0 && v.data[c] == Zeros(SECTOR_BYTES))
  }

  lemma StoredIsLaidOut(v: Volume, ss: seq<Slot>, contents: seq<seq<Byte>>)
    requires Stored(v, ss, contents)
    ensures LaidOut(v, Pack(ss), contents)
  {
    hide Holds, Pack, Start;
  }

  // Appending a content, cluster by cluster

  /** `v` and `w` agree outside clusters `lo..hi`. */
  ghost predicate SameOutside(v: Volume, w: Volume, lo: int, hi: int) {
    && v.Valid() && w.Valid() && |v.fat| == |w.fat| && v.clusterBytes == w.clusterBytes
    && (forall c :: 0 <= c < |v.fat| && !(lo <= c < hi) ==> v.fat[c] == w.fat[c])
    && (forall c :: 0 <= c < |v.fat| && !(lo <= c < hi) ==> v.data[c] == w.data[c])
  }

  /** The first `n` clusters of `content` are in place from `first`. */
  ghost predicate Laid(v: Volume, first: nat, content: seq<Byte>, n: nat) {
    && v.Valid() && v.clusterBytes == SECTOR_BYTES
    && 2 <= first && n <= Blocks(content) && first + Blocks(content) <= |v.fat|
    && forall i :: 0 <= i < n ==>
         v.fat[first + i] == Following(first, Blocks(content), i) && v.data[first + i] == PaddedBlock(content, i)
  }

  lemma LaidStep(v: Volume, w: Volume, first: nat, content: seq<Byte>, n: nat)
    requires Laid(v, first, content, n) && n < Blocks(content)
    requires v.data[first + n] == Zeros(SECTOR_BYTES)
    requires w.Valid()
    requires w == v.(fat := v.fat[first + n := Following(first, Blocks(content), n)],
                     data := v.data[first + n := Patch(v.data[first + n], 0, Block(content, n))])
    ensures Laid(w, first, content, n + 1) && SameOutside(v, w, first + n, first + n + 1)
  {
    hide Blocks, Block;
    assert Patch(Zeros(SECTOR_BYTES), 0, Block(content, n)) == PaddedBlock(content, n);
    forall i | 0 <= i < n + 1
      ensures w.fat[first + i] == Following(first, Blocks(content), i) && w.data[first + i] == PaddedBlock(content, i)
    {
      if i < n {
        assert v.fat[first + i] == Following(first, Blocks(content), i) && v.data[first + i] == PaddedBlock(content, i);
      }
    }
  }

  lemma HoldsUntouched(v: Volume, w: Volume, lo: int, hi: int, first: nat, content: seq<Byte>)
    requires SameOutside(v, w, lo, hi) && Holds(v, first, content)
    requires first + Blocks(content) <= lo || hi <= first
    ensures Holds(w, first, content)
  {
    hide Blocks, PaddedBlock;
    forall i | 0 <= i < Blocks(content)
      ensures w.fat[first + i] == Following(first, Blocks(content), i) && w.data[first + i] == PaddedBlock(content, i)
    {
      assert v.fat[first + i] == Following(first, Blocks(content), i) && v.data[first + i] == PaddedBlock(content, i);
    }
  }

  lemma {:induction false} StartAppend(contents: seq<seq<Byte>>, content: seq<Byte>, j: nat)
    requires j <= |contents|
    ensures Start(contents + [content], j) == Start(contents, j)
    ensures j == |contents| ==> Start(contents + [content], j + 1) == Start(contents, j) + Blocks(content)
    decreases j
  {
    if j > 0 {
      StartAppend(contents, content, j - 1);
    }
  }

  lemma StoredAppend(v: Volume, w: Volume, ss: seq<Slot>, contents: seq<seq<Byte>>, content: seq<Byte>)
    requires Stored(v, ss, contents) && content != []
    requires var next := Start(contents, |contents|);
             SameOutside(v, w, next, next + Blocks(content)) && Holds(w, next, content)
    ensures Stored(w, ss, contents + [content])
  {
    hide Blocks, Holds, Start, Pack;
    var next := Start(contents, |contents|);
    var all := contents + [content];
    StartAppend(contents, content, |contents|);
    HoldsEnd(w, next, content);
    forall j | 0 <= j < |all|
      ensures all[j] != [] && Holds(w, Start(all, j), all[j])
    {
      StartAppend(contents, content, if j < |contents| then j else |contents|);
      if j < |contents| {
        StartMonotone(contents, j, |contents|);
        HoldsUntouched(v, w, next, next + Blocks(content), Start(contents, j), contents[j]);
      }
    }
  }

  lemma HoldsEnd(v: Volume, first: nat, content: seq<Byte>)
    requires Holds(v, first, content)
    ensures first + Blocks(content) <= |v.fat|
  {
  }

  // Writing entries

  lemma StoredRootSlot(v: Volume, ss: seq<Slot>, contents: seq<seq<Byte>>, s: Slot)
    requires Stored(v, ss, contents) && |ss| < SLOTS
    ensures var w := v.(data := v.data[ROOT_CLUSTER := Patch(v.data[ROOT_CLUSTER], ENTRY_BYTES * |ss|, s)]);
            Stored(w, ss + [s], contents)
  {
    hide Blocks, Holds, Pack;
    var w := v.(data := v.data[ROOT_CLUSTER := Patch(v.data[ROOT_CLUSTER], ENTRY_BYTES * |ss|, s)]);
    PackAppend(ss, s);
    forall j | 0 <= j < |contents|
      ensures Holds(w, Start(contents, j), contents[j])
    {
      HoldsUntouched(v, w, ROOT_CLUSTER, ROOT_CLUSTER + 1, Start(contents, j), contents[j]);
    }
  }

  lemma {:induction false} StartReplace(contents: seq<seq<Byte>>, k: nat, block: seq<Byte>, j: nat)
    requires k < |contents| && |block| == |contents[k]| && j <= |contents|
    ensures Start(contents[k := block], j) == Start(contents, j)
    decreases j
  {
    if j > 0 {
      StartReplace(contents, k, block, j - 1);
    }
  }

  lemma BlockHeld(v: Volume, c: nat, block: seq<Byte>)
    requires |block| == SECTOR_BYTES
    ensures Blocks(block) == 1
    ensures Holds(v, c, block) <==>
            v.Valid() && v.clusterBytes == SECTOR_BYTES && v.InRange(c) && v.fat[c] == FAT32_EOC && v.data[c] == block
  {
    assert Block(block, 0) == block[0..SECTOR_BYTES] == block;
    assert PaddedBlock(block, 0) == block + Zeros(0) == block;
    if v.Valid() && v.clusterBytes == SECTOR_BYTES && v.InRange(c) && v.fat[c] == FAT32_EOC && v.data[c] == block {
      assert v.fat[c + 0] == Following(c, 1, 0) && v.data[c + 0] == PaddedBlock(block, 0);
      assert Holds(v, c, block);
    }
    if Holds(v, c, block) {
      HoldsAt(v, c, block, c);
    }
  }

  /** Overwriting a stored one-cluster content. */
  lemma StoredReplace(v: Volume, ss: seq<Slot>, contents: seq<seq<Byte>>, k: nat, block: seq<Byte>)
    requires Stored(v, ss, contents) && k < |contents| && |contents[k]| == |block| == SECTOR_BYTES
    ensures v.InRange(Start(contents, k)) && v.data[Start(contents, k)] == contents[k]
    ensures Stored(v.(data := v.data[Start(contents, k) := block]), ss, contents[k := block])
  {
    hide Blocks, Holds, Pack, Start;
    var c := Start(contents, k);
    BlockHeld(v, c, contents[k]);
    var w := v.(data := v.data[c := block]);
    BlockHeld(w, c, block);
    var all := contents[k := block];
    StartMonotone(contents, k, |contents|);
    StartReplace(contents, k, block, |contents|);
    forall j | 0 <= j < |all|
      ensures all[j] != [] && Holds(w, Start(all, j), all[j])
    {
      StartReplace(contents, k, block, j);
      if j != k {
        StartMonotone(contents, if j < k then j else k, if j < k then k else j);
        HoldsUntouched(v, w, c, c + 1, Start(contents, j), contents[j]);
      }
    }
  }

  // The bytes

  ghost predicate OnDisk(image: seq<Byte>, g: Geometry, ss: seq<Slot>, contents: seq<seq<Byte>>) {
    && IsFormat(g) && |image| == IMAGE_BYTES && g.Fits(image)
    && FatsMatch(image, g) && FatTidy(image)
    && Stored(Decode(image, g), ss, contents)
  }

  method PutBytes(image: array<Byte>, at: nat, b: seq<Byte>)
    requires at + |b| <= image.Length
    modifies image
    ensures image[..] == Patch(old(image[..]), at, b)
  {
    forall k | 0 <= k < |b| {
      image[at + k] := b[k];
    }
  }

  method PutFat(image: array<Byte>, cluster: nat, value: nat)
    requires image.Length == IMAGE_BYTES && cluster <= CLUSTER_COUNT + 1 && value <= FAT32_EOC
    modifies image
    ensures image[..] == SetFat(old(image[..]), cluster, value)
  {
    for copy := 0 to FAT_COPIES
      invariant image[..] == if copy == 0 then old(image[..])
                             else if copy == 1 then Patch(old(image[..]), RESERVED_BYTES + 4 * cluster, Le32(value))
                             else SetFat(old(image[..]), cluster, value)
    {
      PutBytes(image, RESERVED_BYTES + copy * FAT_SECTORS * SECTOR_BYTES + 4 * cluster, Le32(value));
    }
  }

  method PutCluster(image: array<Byte>, cluster: nat, at: nat, b: seq<Byte>)
    requires image.Length == IMAGE_BYTES && 2 <= cluster <= CLUSTER_COUNT + 1 && at + |b| <= SECTOR_BYTES
    modifies image
    ensures image[..] == WriteCluster(old(image[..]), cluster, at, b)
  {
    PutBytes(image, (FIRST_DATA_SECTOR - 2 + cluster) * SECTOR_BYTES + at, b);
  }

  /** One cluster of a content: link it, then copy its block. */
  lemma LayStepDecodes(image: seq<Byte>, g: Geometry, first: nat, content: seq<Byte>, n: nat)
    requires IsFormat(g) && |image| == IMAGE_BYTES && g.Fits(image) && FatsMatch(image, g) && FatTidy(image)
    requires Laid(Decode(image, g), first, content, n) && n < Blocks(content)
    requires first + n <= CLUSTER_COUNT + 1 && Decode(image, g).data[first + n] == Zeros(SECTOR_BYTES)
    ensures var v := Decode(image, g);
            var linked := SetFat(image, first + n, Following(first, Blocks(content), n));
            var r := WriteCluster(linked, first + n, 0, Block(content, n));
            && g.Fits(r) && FatsMatch(r, g) && FatTidy(r) && r[..RESERVED_BYTES] == image[..RESERVED_BYTES]
            && Laid(Decode(r, g), first, content, n + 1)
            && SameOutside(v, Decode(r, g), first + n, first + n + 1)
  {
    hide SetFat, WriteCluster, Decode, Laid, SameOutside, Blocks, Block, FatsMatch, FatTidy;
    LaidFits(Decode(image, g), first, content, n);
    var linked := SetFat(image, first + n, Following(first, Blocks(content), n));
    SetFatDecodes(image, g, first + n, Following(first, Blocks(content), n));
    WriteDecodes(linked, g, first + n, 0, Block(content, n));
    LaidStep(Decode(image, g), Decode(WriteCluster(linked, first + n, 0, Block(content, n)), g), first, content, n);
  }

  lemma LaidFits(v: Volume, first: nat, content: seq<Byte>, n: nat)
    requires Laid(v, first, content, n) && n < Blocks(content) && |v.fat| <= CLUSTER_COUNT + 2
    ensures v.Valid() && 2 <= first && Following(first, Blocks(content), n) <= FAT32_EOC
  {
  }

  lemma SameOutsideExtends(u: Volume, v: Volume, w: Volume, lo: int, hi: int)
    requires lo <= hi && SameOutside(u, v, lo, hi) && SameOutside(v, w, hi, hi + 1)
    ensures SameOutside(u, w, lo, hi + 1)
  {
  }

  /** Stores `content` in the clusters from `first` on. */
  method LayContent(image: array<Byte>, ghost g: Geometry, first: nat, content: seq<Byte>,
                    ghost ss: seq<Slot>, ghost contents: seq<seq<Byte>>)
    requires OnDisk(image[..], g, ss, contents) && content != []
    requires first == Start(contents, |contents|) && first + Blocks(content) <= CLUSTER_COUNT + 2
    modifies image
    ensures OnDisk(image[..], g, ss, contents + [content])
    ensures image[..RESERVED_BYTES] == old(image[..RESERVED_BYTES])
  {
    hide Decode, FatsMatch, FatTidy, Holds, SameOutside, Blocks, Block, Start, Pack, SetFat, WriteCluster, Laid;
    ghost var v0 := Decode(image[..], g);
    var clusters := Blocks(content);
    LaidStart(v0, first, content);
    for ordinal := 0 to clusters
      invariant g.Fits(image[..]) && FatsMatch(image[..], g) && FatTidy(image[..])
      invariant image[..RESERVED_BYTES] == old(image[..RESERVED_BYTES])
      invariant Laid(Decode(image[..], g), first, content, ordinal)
      invariant SameOutside(v0, Decode(image[..], g), first, first + ordinal)
    {
      ghost var before := image[..];
      var cluster := first + ordinal;
      UntouchedAt(v0, Decode(before, g), first, first + ordinal, cluster);
      LayStepDecodes(before, g, first, content, ordinal);
      LaidFits(Decode(before, g), first, content, ordinal);
      PutFat(image, cluster, Following(first, clusters, ordinal));
      PutCluster(image, cluster, 0, Block(content, ordinal));
      SameOutsideExtends(v0, Decode(before, g), Decode(image[..], g), first, first + ordinal);
      assert image[..RESERVED_BYTES] == image[..][..RESERVED_BYTES];
      assert before[..RESERVED_BYTES] == old(image[..RESERVED_BYTES]);
    }
    LaidIsHeld(Decode(image[..], g), first, content);
    StoredAppend(v0, Decode(image[..], g), ss, contents, content);
  }

  lemma LaidStart(v: Volume, first: nat, content: seq<Byte>)
    requires v.Valid() && v.clusterBytes == SECTOR_BYTES && 2 <= first && first + Blocks(content) <= |v.fat|
    ensures Laid(v, first, content, 0) && SameOutside(v, v, first, first)
  {
  }

  lemma LaidIsHeld(v: Volume, first: nat, content: seq<Byte>)
    requires Laid(v, first, content, Blocks(content))
    ensures Holds(v, first, content)
  {
  }

  lemma UntouchedAt(v: Volume, w: Volume, lo: int, hi: int, c: int)
    requires SameOutside(v, w, lo, hi) && 0 <= c < |v.fat| && !(lo <= c < hi)
    ensures w.data[c] == v.data[c] && w.fat[c] == v.fat[c]
  {
  }

  /** Adds the next root directory entry. */
  method AddRootEntry(image: array<Byte>, ghost g: Geometry, index: nat, s: Slot,
                      ghost ss: seq<Slot>, ghost contents: seq<seq<Byte>>)
    requires OnDisk(image[..], g, ss, contents) && index == |ss| < SLOTS
    modifies image
    ensures OnDisk(image[..], g, ss + [s], contents)
    ensures image[..RESERVED_BYTES] == old(image[..RESERVED_BYTES])
  {
    hide Decode, FatsMatch, FatTidy, Stored, WriteCluster;
    WriteDecodes(image[..], g, ROOT_CLUSTER, ENTRY_BYTES * index, s);
    StoredRootSlot(Decode(image[..], g), ss, contents, s);
    PutCluster(image, ROOT_CLUSTER, ENTRY_BYTES * index, s);
    assert image[..RESERVED_BYTES] == image[..][..RESERVED_BYTES];
  }

  /** Allocates an empty directory cluster. */
  method AddDirectory(image: array<Byte>, ghost g: Geometry, cluster: nat,
                      ghost ss: seq<Slot>, ghost contents: seq<seq<Byte>>)
    requires OnDisk(image[..], g, ss, contents) && cluster == Start(contents, |contents|) <= CLUSTER_COUNT + 1
    modifies image
    ensures OnDisk(image[..], g, ss, contents + [Pack([])])
    ensures image[..RESERVED_BYTES] == old(image[..RESERVED_BYTES])
  {
    hide Decode, FatsMatch, FatTidy, SetFat;
    SetFatDecodes(image[..], g, cluster, FAT32_EOC);
    StoredDirectory(Decode(image[..], g), ss, contents);
    PutFat(image, cluster, FAT32_EOC);
    assert image[..RESERVED_BYTES] == image[..][..RESERVED_BYTES];
  }

  lemma StoredDirectory(v: Volume, ss: seq<Slot>, contents: seq<seq<Byte>>)
    requires Stored(v, ss, contents) && Start(contents, |contents|) <= CLUSTER_COUNT + 1
    ensures Stored(v.(fat := v.fat[Start(contents, |contents|) := FAT32_EOC]), ss, contents + [Pack([])])
  {
    hide Start, Holds, Blocks, Pack, Stored, SameOutside;
    var next := Start(contents, |contents|);
    NextBlank(v, ss, contents);
    var w := v.(fat := v.fat[next := FAT32_EOC]);
    Relinked(v, next);
    EmptyDirectory();
    BlockHeld(w, next, Pack([]));
    StoredAppend(v, w, ss, contents, Pack([]));
  }

  lemma NextBlank(v: Volume, ss: seq<Slot>, contents: seq<seq<Byte>>)
    requires Stored(v, ss, contents) && Start(contents, |contents|) <= CLUSTER_COUNT + 1
    ensures var next := Start(contents, |contents|);
            v.Valid() && v.clusterBytes == SECTOR_BYTES && v.InRange(next) && v.data[next] == Zeros(SECTOR_BYTES)
  {
    hide Holds, Pack;
  }

  lemma Relinked(v: Volume, c: nat)
    requires v.Valid() && v.InRange(c)
    ensures var w := v.(fat := v.fat[c := FAT32_EOC]); w.Valid() && SameOutside(v, w, c, c + 1)
  {
  }

  lemma EmptyDirectory()
    ensures Pack([]) == Zeros(SECTOR_BYTES)
  {
  }

  /** Adds the next entry to a directory cluster. */
  method AddEntry(image: array<Byte>, ghost g: Geometry, cluster: nat, index: nat, s: Slot,
                  ghost ss: seq<Slot>, ghost contents: seq<seq<Byte>>, ghost k: nat, ghost slots: seq<Slot>)
    requires OnDisk(image[..], g, ss, contents) && k < |contents| && cluster == Start(contents, k) <= CLUSTER_COUNT + 1
    requires index == |slots| < SLOTS && contents[k] == Pack(slots)
    modifies image
    ensures OnDisk(image[..], g, ss, contents[k := Pack(slots + [s])])
    ensures image[..RESERVED_BYTES] == old(image[..RESERVED_BYTES])
  {
    hide Decode, FatsMatch, FatTidy, Stored, WriteCluster, Pack;
    WriteDecodes(image[..], g, cluster, ENTRY_BYTES * index, s);
    StoredReplace(Decode(image[..], g), ss, contents, k, Pack(slots + [s]));
    PackAppend(slots, s);
    PutCluster(image, cluster, ENTRY_BYTES * index, s);
    assert image[..RESERVED_BYTES] == image[..][..RESERVED_BYTES];
  }

  // FSInfo

  lemma ReservedWrite(image: seq<Byte>, g: Geometry, at: nat, b: seq<Byte>)
    requires IsFormat(g) && |image| == IMAGE_BYTES && g.Fits(image) && at + |b| <= RESERVED_BYTES
    ensures g.Fits(Patch(image, at, b)) && Decode(Patch(image, at, b), g) == Decode(image, g)
    ensures FatsMatch(Patch(image, at, b), g) == FatsMatch(image, g)
    ensures FatTidy(image) ==> FatTidy(Patch(image, at, b))
  {
    ReservedTidy(image, at, b);
    hide FatTidy;
    var r := Patch(image, at, b);
    FormatFits(g, image);
    forall c: nat | c <= CLUSTER_COUNT + 1
      ensures FatEntry(r, g, c) == FatEntry(image, g, c)
      ensures ClusterData(r, g, c) == ClusterData(image, g, c)
    {
      ReservedWriteAt(image, g, at, b, c);
    }
    assert Decode(r, g).fat == Decode(image, g).fat && Decode(r, g).data == Decode(image, g).data;
    assert r[g.FatOffset(0, 0)..g.FatOffset(1, 0)] == image[g.FatOffset(0, 0)..g.FatOffset(1, 0)];
    assert r[g.FatOffset(1, 0)..g.FatOffset(2, 0)] == image[g.FatOffset(1, 0)..g.FatOffset(2, 0)];
  }

  lemma ReservedTidy(image: seq<Byte>, at: nat, b: seq<Byte>)
    requires |image| == IMAGE_BYTES && at + |b| <= RESERVED_BYTES
    ensures FatTidy(image) ==> FatTidy(Patch(image, at, b))
  {
    forall c: nat | c <= CLUSTER_COUNT + 1
      ensures TopByte(Patch(image, at, b), c) == TopByte(image, c)
    {
    }
  }

  lemma ReservedWriteAt(image: seq<Byte>, g: Geometry, at: nat, b: seq<Byte>, c: nat)
    requires IsFormat(g) && |image| == IMAGE_BYTES && g.Fits(image) && at + |b| <= RESERVED_BYTES
    requires c <= CLUSTER_COUNT + 1
    ensures g.Fits(Patch(image, at, b))
    ensures FatEntry(Patch(image, at, b), g, c) == FatEntry(image, g, c)
    ensures ClusterData(Patch(image, at, b), g, c) == ClusterData(image, g, c)
  {
    FormatFits(g, image);
    var o := RESERVED_BYTES + 4 * c;
    assert Patch(image, at, b)[o..o + 4] == image[o..o + 4];
    U32Same(image, Patch(image, at, b), o);
  }

  /** Writes the free count and the next-free hint to both FSInfo sectors. */
  method PutFsInfo(image: array<Byte>, ghost g: Geometry, free: nat, next: nat,
                   ghost ss: seq<Slot>, ghost contents: seq<seq<Byte>>)
    requires OnDisk(image[..], g, ss, contents) && free < 0x1_0000_0000 && next < 0x1_0000_0000
    modifies image
    ensures OnDisk(image[..], g, ss, contents)
    ensures image[..] == Patch(Patch(old(image[..]), 512, FsInfoSector(free, next)), 3584, FsInfoSector(free, next))
  {
    hide Decode, FatsMatch, FatTidy, Stored, FsInfoSector;
    var info := FsInfoSector(free, next);
    ReservedWrite(image[..], g, FSINFO_SECTOR * SECTOR_BYTES, info);
    PutBytes(image, FSINFO_SECTOR * SECTOR_BYTES, info);
    ReservedWrite(image[..], g, (BACKUP_BOOT_SECTOR + FSINFO_SECTOR) * SECTOR_BYTES, info);
    PutBytes(image, (BACKUP_BOOT_SECTOR + FSINFO_SECTOR) * SECTOR_BYTES, info);
  }
}
