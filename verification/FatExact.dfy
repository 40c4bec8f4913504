// A volume on disk, byte for byte: what is stored and the reserved sectors leave no byte open
// (tools/fat32_image.py, build_image).

module FatExact {
  import opened Bytes
  import opened FatChain
  import opened FatDirectory
  import opened FatInspector
  import opened FatGeometry
  import opened FatFormat
  import opened FatLayout
  import opened FatPlan
  import opened FatStore

  // Entries and their bytes

  lemma EntryBytes(image: seq<Byte>, g: Geometry, c: nat)
    requires IsFormat(g) && |image| == IMAGE_BYTES && g.Fits(image) && FatTidy(image) && c <= CLUSTER_COUNT + 1
    ensures U32(image, RESERVED_BYTES + 4 * c) == FatEntry(image, g, c)
  {
    hide U32;
    FormatFits(g, image);
    var at := RESERVED_BYTES + 4 * c;
    assert TopByte(image, c) < 16;
    SmallWord(image, at);
  }

  lemma SmallWord(s: seq<Byte>, at: nat)
    requires at + 4 <= |s| && s[at + 3] < 16
    ensures U32(s, at) % 0x1000_0000 == U32(s, at)
  {
  }

  lemma WordUnique(a: seq<Byte>, b: seq<Byte>, at: nat)
    requires at + 4 <= |a| && at + 4 <= |b| && U32(a, at) == U32(b, at)
    ensures a[at] == b[at] && a[at + 1] == b[at + 1] && a[at + 2] == b[at + 2] && a[at + 3] == b[at + 3]
  {
    var (a1, b1) := (a[at + 1] as int + 0x100 * (a[at + 2] as int + 0x100 * a[at + 3] as int),
                     b[at + 1] as int + 0x100 * (b[at + 2] as int + 0x100 * b[at + 3] as int));
    LowDigit(a[at], a1, b[at], b1);
    LowDigit(a[at + 1], a[at + 2] as int + 0x100 * a[at + 3] as int, b[at + 1], b[at + 2] as int + 0x100 * b[at + 3] as int);
    LowDigit(a[at + 2], a[at + 3], b[at + 2], b[at + 3]);
  }

  lemma LowDigit(x: Byte, u: int, y: Byte, v: int)
    requires x as int + 0x100 * u == y as int + 0x100 * v
    ensures x == y && u == v
  {
  }

  // One volume for one set of contents

  lemma StoredUnique(v: Volume, w: Volume, ss: seq<Slot>, contents: seq<seq<Byte>>, c: nat)
    requires Stored(v, ss, contents) && Stored(w, ss, contents) && c <= CLUSTER_COUNT + 1
    ensures v.fat[c] == w.fat[c] && (c >= 2 ==> v.data[c] == w.data[c])
  {
    hide Pack, Holds, Start, PaddedBlock;
    if ROOT_CLUSTER < c < Start(contents, |contents|) {
      var j := Located(contents, |contents|, c);
      HoldsAt(v, Start(contents, j), contents[j], c);
      HoldsAt(w, Start(contents, j), contents[j], c);
    }
  }

  /** Two images with the same reserved sectors that store the same are the same. */
  lemma DiskUnique(a: seq<Byte>, b: seq<Byte>, g: Geometry, ss: seq<Slot>, contents: seq<seq<Byte>>)
    requires OnDisk(a, g, ss, contents) && OnDisk(b, g, ss, contents) && a[..RESERVED_BYTES] == b[..RESERVED_BYTES]
    ensures a == b
  {
    hide OnDisk;
    DiskParts(a, g, ss, contents);
    DiskParts(b, g, ss, contents);
    forall k | 0 <= k < IMAGE_BYTES
      ensures a[k] == b[k]
    {
      var span := FAT_SECTORS * SECTOR_BYTES;
      if k < RESERVED_BYTES {
        assert a[k] == a[..RESERVED_BYTES][k];
      } else if k < RESERVED_BYTES + span {
        SameFatByte(a, b, g, ss, contents, k);
      } else if k < RESERVED_BYTES + 2 * span {
        SameFatByte(a, b, g, ss, contents, k - span);
        SecondCopy(a, g, k);
        SecondCopy(b, g, k);
      } else {
        SameDataByte(a, b, g, ss, contents, k);
      }
    }
  }

  lemma DiskParts(image: seq<Byte>, g: Geometry, ss: seq<Slot>, contents: seq<seq<Byte>>)
    requires OnDisk(image, g, ss, contents)
    ensures IsFormat(g) && |image| == IMAGE_BYTES && g.Fits(image) && FatsMatch(image, g) && FatTidy(image)
    ensures Stored(Decode(image, g), ss, contents)
  {
    hide FatsMatch, FatTidy, Stored, Decode;
  }

  lemma SecondCopy(image: seq<Byte>, g: Geometry, k: nat)
    requires IsFormat(g) && |image| == IMAGE_BYTES && g.Fits(image) && FatsMatch(image, g)
    requires RESERVED_BYTES + FAT_SECTORS * SECTOR_BYTES <= k < RESERVED_BYTES + 2 * FAT_SECTORS * SECTOR_BYTES
    ensures image[k] == image[k - FAT_SECTORS * SECTOR_BYTES]
  {
    FormatFits(g, image);
    var span := FAT_SECTORS * SECTOR_BYTES;
    var first, second := image[RESERVED_BYTES..RESERVED_BYTES + span], image[RESERVED_BYTES + span..RESERVED_BYTES + 2 * span];
    assert first == second;
    assert second[k - span - RESERVED_BYTES] == image[k];
  }

  lemma SameFatByte(a: seq<Byte>, b: seq<Byte>, g: Geometry, ss: seq<Slot>, contents: seq<seq<Byte>>, k: nat)
    requires OnDisk(a, g, ss, contents) && OnDisk(b, g, ss, contents)
    requires RESERVED_BYTES <= k < RESERVED_BYTES + FAT_SECTORS * SECTOR_BYTES
    requires |a| == |b| == IMAGE_BYTES
    ensures a[k] == b[k]
  {
    hide OnDisk, U32, Stored, FatEntry, ClusterData;
    DiskParts(a, g, ss, contents);
    DiskParts(b, g, ss, contents);
    var c := (k - RESERVED_BYTES) / 4;
    if c <= CLUSTER_COUNT + 1 {
      StoredUnique(Decode(a, g), Decode(b, g), ss, contents, c);
      EntryBytes(a, g, c);
      EntryBytes(b, g, c);
      assert Decode(a, g).fat[c] == FatEntry(a, g, c) && Decode(b, g).fat[c] == FatEntry(b, g, c);
      WordUnique(a, b, RESERVED_BYTES + 4 * c);
    }
  }

  lemma SameDataByte(a: seq<Byte>, b: seq<Byte>, g: Geometry, ss: seq<Slot>, contents: seq<seq<Byte>>, k: nat)
    requires OnDisk(a, g, ss, contents) && OnDisk(b, g, ss, contents)
    requires FIRST_DATA_SECTOR * SECTOR_BYTES <= k < IMAGE_BYTES && |a| == |b| == IMAGE_BYTES
    ensures a[k] == b[k]
  {
    hide OnDisk, Stored, FatEntry, ClusterData;
    DiskParts(a, g, ss, contents);
    DiskParts(b, g, ss, contents);
    var c := k / SECTOR_BYTES - FIRST_DATA_SECTOR + 2;
    StoredUnique(Decode(a, g), Decode(b, g), ss, contents, c);
    ClusterByte(a, g, c, k % SECTOR_BYTES);
    ClusterByte(b, g, c, k % SECTOR_BYTES);
  }

  lemma ClusterByte(image: seq<Byte>, g: Geometry, c: nat, i: nat)
    requires IsFormat(g) && |image| == IMAGE_BYTES && g.Fits(image) && 2 <= c <= CLUSTER_COUNT + 1 && i < SECTOR_BYTES
    ensures |Decode(image, g).data[c]| == SECTOR_BYTES
    ensures Decode(image, g).data[c][i] == image[(FIRST_DATA_SECTOR - 2 + c) * SECTOR_BYTES + i]
  {
    hide FatEntry;
    FormatFits(g, image);
    assert Decode(image, g).data[c] == ClusterData(image, g, c);
  }

  // The first entries

  /** A directory entry, byte by byte. */
  lemma EntryLayout(name: seq<Byte>, attributes: Byte, cluster: nat, size: nat)
    requires |name| == 11 && cluster <= FAT32_MAX_CLUSTER && size < 0x1_0000_0000
    ensures var s := DirectoryEntry(name, attributes, cluster, size);
            && s[..11] == name && s[11] == attributes && s[12..20] == Zeros(8) && s[22..26] == Zeros(4)
            && s[26] as int + 0x100 * s[27] as int + 0x1_0000 * s[20] as int + 0x100_0000 * s[21] as int == cluster
            && s[28] as int + 0x100 * s[29] as int + 0x1_0000 * s[30] as int + 0x100_0000 * s[31] as int == size
  {
    var s := DirectoryEntry(name, attributes, cluster, size);
    assert s[20..22] == Le16(cluster / 0x1_0000) && s[26..28] == Le16(cluster % 0x1_0000) && s[28..32] == Le32(size);
  }

  /** The reserved FAT entries with the root's, and the label at the head of the root directory. */
  ghost predicate StartLayout(image: seq<Byte>, volumeName: seq<Byte>) {
    && |image| == 67_108_864
    && image[16_384..16_396] == [0xF8, 0xFF, 0xFF, 0x0F, 0xFF, 0xFF, 0xFF, 0x0F, 0xFF, 0xFF, 0xFF, 0x0F]
    && image[1_049_600..1_049_632] == volumeName + [0x08] + Zeros(20)
  }

  lemma DiskStarts(image: seq<Byte>, g: Geometry, ss: seq<Slot>, contents: seq<seq<Byte>>, volumeName: seq<Byte>)
    requires OnDisk(image, g, ss, contents) && |volumeName| == 11
    requires ss != [] && ss[0] == DirectoryEntry(volumeName, LABEL_ATTRIBUTE, 0, 0)
    ensures StartLayout(image, volumeName)
  {
    hide OnDisk, Stored, FatEntry, ClusterData, Pack, DirectoryEntry, U32, FatTidy;
    DiskParts(image, g, ss, contents);
    var v := Decode(image, g);
    StoredStarts(v, ss, contents);
    EntryBytes(image, g, 0);
    EntryBytes(image, g, 1);
    EntryBytes(image, g, 2);
    FirstWords(image);
    RootStarts(image, g, ss, volumeName);
  }

  lemma StoredStarts(v: Volume, ss: seq<Slot>, contents: seq<seq<Byte>>)
    requires Stored(v, ss, contents)
    ensures |ss| <= SLOTS && v.fat[0] == 0x0FFF_FFF8 && v.fat[1] == v.fat[2] == 0x0FFF_FFFF && v.data[2] == Pack(ss)
  {
    hide Pack, Holds, Start;
  }

  lemma FirstWords(image: seq<Byte>)
    requires |image| == IMAGE_BYTES
    requires U32(image, 16_384) == 0x0FFF_FFF8 && U32(image, 16_388) == U32(image, 16_392) == 0x0FFF_FFFF
    ensures image[16_384..16_396] == [0xF8, 0xFF, 0xFF, 0x0F, 0xFF, 0xFF, 0xFF, 0x0F, 0xFF, 0xFF, 0xFF, 0x0F]
  {
    hide U32;
    var m: seq<Byte> := [0xF8, 0xFF, 0xFF, 0x0F];
    var e: seq<Byte> := [0xFF, 0xFF, 0xFF, 0x0F];
    LiteralWords();
    WordIs(image, 16_384, m);
    WordIs(image, 16_388, e);
    WordIs(image, 16_392, e);
  }

  lemma LiteralWords()
    ensures U32([0xF8, 0xFF, 0xFF, 0x0F], 0) == 0x0FFF_FFF8 && U32([0xFF, 0xFF, 0xFF, 0x0F], 0) == 0x0FFF_FFFF
  {
  }

  lemma WordIs(image: seq<Byte>, at: nat, w: seq<Byte>)
    requires |w| == 4 && at + 4 <= |image| && U32(image, at) == U32(w, 0)
    ensures image[at] == w[0] && image[at + 1] == w[1] && image[at + 2] == w[2] && image[at + 3] == w[3]
  {
    var padded := image[..at] + w;
    assert U32(padded, at) == U32(w, 0);
    WordUnique(image, padded, at);
  }

  lemma RootStarts(image: seq<Byte>, g: Geometry, ss: seq<Slot>, volumeName: seq<Byte>)
    requires IsFormat(g) && |image| == IMAGE_BYTES && g.Fits(image) && |volumeName| == 11
    requires 0 < |ss| <= SLOTS && ss[0] == DirectoryEntry(volumeName, LABEL_ATTRIBUTE, 0, 0)
    requires Decode(image, g).data[2] == Pack(ss)
    ensures image[1_049_600..1_049_632] == volumeName + [0x08] + Zeros(20)
  {
    hide Pack, DirectoryEntry, Decode;
    PackedSlot(ss, 0);
    LabelBytes(volumeName);
    forall i | 0 <= i < 32
      ensures image[1_049_600 + i] == ss[0][i]
    {
      ClusterByte(image, g, 2, i);
    }
  }

  lemma LabelBytes(volumeName: seq<Byte>)
    requires |volumeName| == 11
    ensures DirectoryEntry(volumeName, LABEL_ATTRIBUTE, 0, 0) == volumeName + [0x08] + Zeros(20)
  {
  }
}
