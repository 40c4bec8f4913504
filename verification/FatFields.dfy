// The inspector's rules as numbers at byte offsets: which boot sectors, FSInfo sectors, FATs, directory slots and
// names it takes (tools/fat32_image.py).

module FatFields {
  import opened Bytes
  import opened FatChain
  import opened FatDirectory
  import opened FatNames
  import opened FatInspector
  import opened FatGeometry
  import opened FatImages

  // Boot sector

  ghost function FirstData(image: seq<Byte>): (n: nat)
    requires |image| >= 512
  {
    U16(image, 14) + 2 * U32(image, 36)
  }

  ghost function ClusterTotal(image: seq<Byte>): (n: int)
    requires |image| >= 512
  {
    if image[13] == 0 then 0 else (U32(image, 32) - FirstData(image)) / image[13] as int
  }

  /** The fields of the boot sector that say how the volume is divided. */
  ghost predicate RegionsFit(image: seq<Byte>)
    requires |image| >= 512
  {
    && image[510..512] == [0x55, 0xAA]
    && U16(image, 11) in {512, 1024, 2048, 4096} && image[13] in {1, 2, 4, 8, 16, 32, 64, 128}
    && U16(image, 14) >= 2 && image[16] == 2 && U16(image, 17) == 0 && U16(image, 19) == 0 && U16(image, 22) == 0
    && U32(image, 36) > 0 && FirstData(image) < U32(image, 32)
    && |image| == U32(image, 32) * U16(image, 11)
  }

  /** The rest, for a volume of `count` clusters. */
  ghost predicate PlacesFit(image: seq<Byte>, count: int)
    requires |image| >= 512
  {
    && 65525 <= count <= 0x0FFF_FFEE
    && U32(image, 36) * U16(image, 11) >= 4 * (count + 2)
    && 2 <= U32(image, 44) <= count + 1
    && 0 < U16(image, 48) < U16(image, 14) && 0 < U16(image, 50) < U16(image, 14) && U16(image, 48) != U16(image, 50)
    && forall i :: 71 <= i < 82 ==> 0x20 <= image[i] <= 0x7E
  }

  ghost predicate BootFits(image: seq<Byte>) {
    |image| >= 512 && RegionsFit(image) && PlacesFit(image, ClusterTotal(image))
  }

  lemma FatRoom(bytes: nat, count: nat)
    ensures bytes / 4 > count + 1 <==> bytes >= 4 * (count + 2)
  {
  }

  lemma Products(image: seq<Byte>)
    requires |image| >= 512 && U16(image, 11) <= 4096
    ensures CheckedMul(U32(image, 36), U16(image, 11)) == Ok(U32(image, 36) * U16(image, 11))
    ensures CheckedMul(U32(image, 32), U16(image, 11)) == Ok(U32(image, 32) * U16(image, 11))
    ensures CheckedMul(2, U32(image, 36)) == Ok(2 * U32(image, 36))
  {
    hide CheckedMul, U16;
    SectorChecked(U32(image, 36), U16(image, 11));
    SectorChecked(U32(image, 32), U16(image, 11));
    CheckedMulExact(2, U32(image, 36));
  }

  lemma PlacesIff(image: seq<Byte>, count: nat)
    requires |image| >= 512 && U16(image, 11) in {512, 1024, 2048, 4096} && image[13] in {1, 2, 4, 8, 16, 32, 64, 128}
    requires 2 <= U16(image, 14) < 0x1_0000 && U32(image, 36) > 0 && FirstData(image) < U32(image, 32)
    requires count == (U32(image, 32) - FirstData(image)) / image[13] as int && 65525 <= count <= 0x0FFF_FFEE
    ensures ParsePlaces(image, U16(image, 11), image[13], U16(image, 14), FirstData(image), count).Ok? <==>
            PlacesFit(image, count) && |image| == U32(image, 32) * U16(image, 11)
  {
    hide CheckedMul, U16, U32, RStrip;
    Products(image);
    FatRoom(U32(image, 36) * U16(image, 11), count);
  }

  /** A boot sector is accepted exactly when every field fits. */
  lemma BootIff(image: seq<Byte>)
    ensures ParseGeometry(image).Ok? <==> BootFits(image)
  {
    hide CheckedMul, U16, U32, ParsePlaces, PlacesFit;
    if |image| >= 512 && U16(image, 11) in {512, 1024, 2048, 4096} && image[13] in {1, 2, 4, 8, 16, 32, 64, 128}
       && 2 <= U16(image, 14) && U32(image, 36) > 0 {
      Products(image);
      if FirstData(image) < U32(image, 32) {
        CountIff(image);
      }
    }
  }

  lemma CountIff(image: seq<Byte>)
    requires |image| >= 512 && U16(image, 11) in {512, 1024, 2048, 4096} && image[13] in {1, 2, 4, 8, 16, 32, 64, 128}
    requires 2 <= U16(image, 14) < 0x1_0000 && U32(image, 36) > 0 && FirstData(image) < U32(image, 32)
    ensures var count := (U32(image, 32) - FirstData(image)) / image[13] as int;
            ParseRegions(image, U16(image, 11), image[13], U16(image, 14), FirstData(image)).Ok? <==>
            PlacesFit(image, count) && |image| == U32(image, 32) * U16(image, 11)
  {
    hide U16, U32, ParsePlaces;
    var count := (U32(image, 32) - FirstData(image)) / image[13] as int;
    if 65525 <= count <= 0x0FFF_FFEE {
      PlacesIff(image, count);
    }
  }

  /** And the geometry is then read from these offsets. */
  lemma BootRead(image: seq<Byte>)
    requires ParseGeometry(image).Ok?
    ensures |image| >= 512
    ensures var g := ParseGeometry(image).value;
            && g.bytesPerSector == U16(image, 11) && g.sectorsPerCluster == image[13] as int
            && g.reservedSectors == U16(image, 14) && g.totalSectors == U32(image, 32) && g.fatSectors == U32(image, 36)
            && g.rootCluster == U32(image, 44) && g.fsinfoSector == U16(image, 48) && g.backupBootSector == U16(image, 50)
            && g.volumeId == U32(image, 67) && g.volumeLabel <= image[71..82]
            && (forall i :: 71 + |g.volumeLabel| <= i < 82 ==> image[i] == 0x20)
            && (g.volumeLabel != [] ==> g.volumeLabel[|g.volumeLabel| - 1] != 0x20)
  {
    hide CheckedMul, U16, U32, ParseRegions;
    Products(image);
    RegionsRead(image);
    LabelRead(image);
  }

  lemma RegionsRead(image: seq<Byte>)
    requires |image| >= 512 && U16(image, 11) in {512, 1024, 2048, 4096} && image[13] in {1, 2, 4, 8, 16, 32, 64, 128}
    requires 2 <= U16(image, 14) < 0x1_0000 && U32(image, 36) > 0
    requires ParseRegions(image, U16(image, 11), image[13], U16(image, 14), FirstData(image)).Ok?
    ensures var g := ParseRegions(image, U16(image, 11), image[13], U16(image, 14), FirstData(image)).value;
            && g.bytesPerSector == U16(image, 11) && g.sectorsPerCluster == image[13] as int
            && g.reservedSectors == U16(image, 14) && g.totalSectors == U32(image, 32) && g.fatSectors == U32(image, 36)
            && g.rootCluster == U32(image, 44) && g.fsinfoSector == U16(image, 48) && g.backupBootSector == U16(image, 50)
            && g.volumeId == U32(image, 67) && g.volumeLabel == RStrip(image[71..82])
            && forall i :: 71 <= i < 82 ==> 0x20 <= image[i] <= 0x7E
  {
    hide CheckedMul, U16, U32, RStrip;
    Products(image);
  }

  lemma LabelRead(image: seq<Byte>)
    requires |image| >= 512 && forall i :: 71 <= i < 82 ==> 0x20 <= image[i] <= 0x7E
    ensures var name := RStrip(image[71..82]);
            && name <= image[71..82]
            && (forall i :: 71 + |name| <= i < 82 ==> image[i] == 0x20)
            && (name != [] ==> name[|name| - 1] != 0x20)
  {
    var name := RStrip(image[71..82]);
    forall i | 71 + |name| <= i < 82
      ensures image[i] == 0x20
    {
      assert IsSpace(image[71..82][i - 71]);
    }
  }

  // FSInfo, FAT copies and the reserved entries

  /** The three signatures at `at`, a free count that is unknown or possible, a next hint that is unknown or a cluster. */
  ghost predicate InfoFits(image: seq<Byte>, at: nat, count: nat)
    requires at + 512 <= |image|
  {
    && U32(image, at) == 0x4161_5252 && U32(image, at + 484) == 0x6141_7272 && U32(image, at + 508) == 0xAA55_0000
    && (U32(image, at + 488) == 0xFFFF_FFFF || U32(image, at + 488) <= count)
    && (U32(image, at + 492) == 0xFFFF_FFFF || 2 <= U32(image, at + 492) <= count + 1)
  }

  lemma InfoInside(image: seq<Byte>, g: Geometry)
    requires g.Fits(image)
    ensures g.fsinfoSector * g.bytesPerSector + g.bytesPerSector <= |image|
    ensures g.SectorOffset(g.fsinfoSector) == Ok(g.fsinfoSector * g.bytesPerSector)
  {
    hide CheckedMul;
    SectorChecked(g.fsinfoSector, g.bytesPerSector);
    MulLe(g.fsinfoSector + 1, g.totalSectors, g.bytesPerSector);
  }

  lemma SliceWord(image: seq<Byte>, lo: nat, hi: nat, at: nat)
    requires lo <= hi <= |image| && lo + at + 4 <= hi
    ensures U32(image[lo..hi], at) == U32(image, lo + at)
  {
  }

  lemma InfoIff(image: seq<Byte>, g: Geometry)
    requires g.Fits(image)
    ensures var at := g.fsinfoSector * g.bytesPerSector;
            && at + 512 <= |image|
            && (ParseFsInfo(image, g).Ok? <==> InfoFits(image, at, g.clusterCount))
            && (ParseFsInfo(image, g).Ok? ==>
                  ParseFsInfo(image, g).value == FsInfo(U32(image, at + 488), U32(image, at + 492)))
  {
    hide U32;
    InfoInside(image, g);
    var at := g.fsinfoSector * g.bytesPerSector;
    var hi := at + g.bytesPerSector;
    SliceWord(image, at, hi, 0);
    SliceWord(image, at, hi, 484);
    SliceWord(image, at, hi, 488);
    SliceWord(image, at, hi, 492);
    SliceWord(image, at, hi, 508);
  }

  /** Where the first FAT starts and how long each FAT is, in bytes. */
  ghost function FatStart(image: seq<Byte>): (at: nat)
    requires |image| >= 512
  {
    hide U16;
    U16(image, 14) * U16(image, 11)
  }

  ghost function FatSpan(image: seq<Byte>): (n: nat)
    requires |image| >= 512
  {
    hide U16, U32;
    U32(image, 36) * U16(image, 11)
  }

  ghost function InfoAt(image: seq<Byte>): (at: nat)
    requires |image| >= 512
  {
    hide U16;
    U16(image, 48) * U16(image, 11)
  }

  /** The two FATs are the same bytes, and start with the media mark and an end mark. */
  ghost predicate FatsFit(image: seq<Byte>, fat: nat, span: nat) {
    && fat + 2 * span <= |image| && span >= 8
    && image[fat..fat + span] == image[fat + span..fat + 2 * span]
    && U32(image, fat) % 0x1000_0000 == 0x0FFF_FFF8
    && U32(image, fat + 4) % 0x1000_0000 >= 0x0FFF_FFF8
  }

  /** The header of an acceptable image, as bytes. */
  ghost predicate HeadersFit(image: seq<Byte>) {
    && BootFits(image)
    && ClusterTotal(image) >= 0 && InfoAt(image) + 512 <= |image| && InfoFits(image, InfoAt(image), ClusterTotal(image))
    && FatsFit(image, FatStart(image), FatSpan(image))
  }

  lemma CopiesIff(image: seq<Byte>, g: Geometry)
    requires g.Fits(image)
    ensures (FatsMatch(image, g) && FatEntry(image, g, 0) == 0x0FFF_FF00 + MEDIA && FatEntry(image, g, 1) >= FAT32_EOC_MIN) <==>
            FatsFit(image, g.reservedSectors * g.bytesPerSector, g.fatSectors * g.bytesPerSector)
  {
    hide U32, FatEntry, FatsMatch, Geometry.Fits, Geometry.FatOffset, Geometry.Valid;
    CopiesAre(image, g);
    EntriesAre(image, g);
  }

  lemma CopiesAre(image: seq<Byte>, g: Geometry)
    requires g.Fits(image)
    ensures var (fat, span) := (g.reservedSectors * g.bytesPerSector, g.fatSectors * g.bytesPerSector);
            && fat + 2 * span <= |image| && span >= 8
            && (FatsMatch(image, g) <==> image[fat..fat + span] == image[fat + span..fat + 2 * span])
  {
    hide U32, Geometry.FatOffset;
    FatCopyStart(g, 0);
    FatCopyStart(g, 1);
    FatEntryInside(g, 1, 1);
    FatEntryInside(g, 0, 1);
    FatEntryFour(g);
  }

  lemma FatEntryFour(g: Geometry)
    ensures g.FatOffset(0, 1) == g.FatOffset(0, 0) + 4
  {
  }

  lemma EntriesAre(image: seq<Byte>, g: Geometry)
    requires g.Fits(image)
    ensures g.reservedSectors * g.bytesPerSector + 8 <= |image|
    ensures FatEntry(image, g, 0) == U32(image, g.reservedSectors * g.bytesPerSector) % 0x1000_0000
    ensures FatEntry(image, g, 1) == U32(image, g.reservedSectors * g.bytesPerSector + 4) % 0x1000_0000
  {
    hide U32, FatEntry, Geometry.FatOffset, Geometry.Valid, Geometry.Fits;
    FatCopyStart(g, 0);
    EntryIs(image, g, 0);
    EntryIs(image, g, 1);
    FatEntryFour(g);
  }

  lemma EntryIs(image: seq<Byte>, g: Geometry, cluster: nat)
    requires g.Fits(image) && cluster <= 1
    ensures cluster <= g.maximumCluster && g.FatOffset(0, cluster) + 4 <= |image|
    ensures FatEntry(image, g, cluster) == U32(image, g.FatOffset(0, cluster)) % 0x1000_0000
  {
    hide U32, FatValue, Geometry.FatOffset;
    FatValueTotal(image, g, 0, cluster);
  }

  /** The header checks pass exactly on those bytes. */
  lemma HeadersIff(image: seq<Byte>)
    ensures HeadersOk(image) <==> HeadersFit(image)
  {
    hide ParseGeometry, ParseFsInfo, FatsMatch, FatEntry, U16, U32, InfoFits, BootFits, RegionsFit, PlacesFit;
    BootIff(image);
    if ParseGeometry(image).Ok? {
      var g := ParseGeometry(image).value;
      BootRead(image);
      InfoIff(image, g);
      CopiesIff(image, g);
    }
  }

  /** Where a cluster's bytes start. */
  ghost function ClusterAt(image: seq<Byte>, c: nat): (at: nat)
    requires |image| >= 512 && c >= 2
  {
    hide U16, U32, FirstData;
    var first: nat := (c - 2) * image[13] as int;
    (FirstData(image) + first) * U16(image, 11)
  }

  /** What the volume then holds: FAT entries of 28 bits from the first FAT, and the clusters of the data region. */
  lemma VolumeRead(image: seq<Byte>, c: nat)
    requires HeadersOk(image) && c < |VolumeOf(image).fat|
    ensures |image| >= 512 && FatStart(image) + 4 * c + 4 <= |image|
    ensures VolumeOf(image).fat[c] == U32(image, FatStart(image) + 4 * c) % 0x1000_0000
    ensures c >= 2 ==> ClusterAt(image, c) + U16(image, 11) * image[13] as int <= |image|
    ensures c >= 2 ==>
              VolumeOf(image).data[c] == image[ClusterAt(image, c)..ClusterAt(image, c) + U16(image, 11) * image[13] as int]
  {
    hide ParseGeometry, FatValue, U16, U32, Geometry.Valid;
    var g := ParseGeometry(image).value;
    BootRead(image);
    FatValueTotal(image, g, 0, c);
    FatCopyStart(g, 0);
    assert g.FatOffset(0, c) == g.FatOffset(0, 0) + 4 * c;
    if c >= 2 {
      ClusterTranslates(g, c);
      FirstDataIs(g);
    }
  }

  lemma FirstDataIs(g: Geometry)
    requires g.Valid()
    ensures g.firstDataSector == g.reservedSectors + 2 * g.fatSectors
  {
  }

  // Directory slots

  /** A 16-bit code unit that is padding, or a printable ASCII character. */
  ghost predicate UnitFits(low: Byte, high: Byte) {
    (low == 0 && high == 0) || (low == 0xFF && high == 0xFF) || (0x20 <= low <= 0x7E && high == 0)
  }

  /** The long-name records let through: an order from 1 to 20 in the low five bits, type and cluster zero, and
      thirteen acceptable code units. */
  lemma LongNameIff(s: Slot)
    ensures LongNameHeaderOk(s) && LongNameTextOk(s) <==>
            && 1 <= s[0] as int % 32 <= 20
            && s[12] == 0 && s[26] == 0 && s[27] == 0
            && forall at :: at in {1, 3, 5, 7, 9, 14, 16, 18, 20, 22, 24, 28, 30} ==> UnitFits(s[at], s[at + 1])
  {
    UnitsIff(s);
  }

  lemma UnitIff(s: Slot, at: nat)
    requires at + 2 <= 32
    ensures CodePointOk(U16(s, at)) <==> UnitFits(s[at], s[at + 1])
  {
  }

  lemma UnitsIff(s: Slot)
    ensures LongNameTextOk(s) <==>
            forall at :: at in {1, 3, 5, 7, 9, 14, 16, 18, 20, 22, 24, 28, 30} ==> UnitFits(s[at], s[at + 1])
  {
    hide CodePointOk, UnitFits, U16;
    forall at: nat | at + 2 <= 32
      ensures CodePointOk(U16(s, at)) <==> UnitFits(s[at], s[at + 1])
    {
      UnitIff(s, at);
    }
    var offsets := [1, 3, 5, 7, 9, 14, 16, 18, 20, 22, 24, 28, 30];
    assert LONG_NAME_OFFSETS == offsets;
    assert forall at :: at in {1, 3, 5, 7, 9, 14, 16, 18, 20, 22, 24, 28, 30} <==> at in offsets;
    if LongNameTextOk(s) {
      forall at | at in offsets
        ensures UnitFits(s[at], s[at + 1])
      {
        var i :| 0 <= i < |offsets| && offsets[i] == at;
        assert CodePointOk(U16(s, LONG_NAME_OFFSETS[i]));
      }
    } else {
      var i :| 0 <= i < |offsets| && !CodePointOk(U16(s, LONG_NAME_OFFSETS[i]));
      assert offsets[i] in offsets && !UnitFits(s[offsets[i]], s[offsets[i] + 1]);
    }
  }

  /** An ordinary slot, byte by byte. */
  lemma EntryRead(s: Slot, text: Text)
    ensures var e := EntryOf(s, text);
            && e.name == s[..11] && e.text == text && e.attributes == s[11]
            && e.firstCluster == s[26] as int + 0x100 * s[27] as int + 0x1_0000 * s[20] as int + 0x100_0000 * s[21] as int
            && e.size == s[28] as int + 0x100 * s[29] as int + 0x1_0000 * s[30] as int + 0x100_0000 * s[31] as int
            && (e.IsDirectory() <==> s[11] % 32 >= 16)
            && (IsDotName(e.name) <==>
                  s[0] == 0x2E && (s[1] == 0x20 || s[1] == 0x2E) && forall i :: 2 <= i < 11 ==> s[i] == 0x20)
  {
    DotIff(s[..11]);
  }

  lemma DotIff(name: seq<Byte>)
    requires |name| == 11
    ensures IsDotName(name) <==>
            name[0] == 0x2E && (name[1] == 0x20 || name[1] == 0x2E) && forall i :: 2 <= i < 11 ==> name[i] == 0x20
  {
    var (one, two) := (DOT_NAME, DOTDOT_NAME);
    assert |one| == |two| == 11;
    assert forall i :: 0 <= i < 11 ==> one[i] == if i == 0 then 0x2E else 0x20;
    assert forall i :: 0 <= i < 11 ==> two[i] == if i < 2 then 0x2E else 0x20;
    if name[0] == 0x2E && name[1] == 0x20 && forall i :: 2 <= i < 11 ==> name[i] == 0x20 {
      assert name == one;
    }
    if name[0] == 0x2E && name[1] == 0x2E && forall i :: 2 <= i < 11 ==> name[i] == 0x20 {
      assert name == two;
    }
  }

  // Names and paths

  /** `part` is `field` without the white space at its end. */
  ghost predicate Trimmed(field: seq<Byte>, part: seq<Byte>) {
    && part <= field
    && (forall i :: |part| <= i < |field| ==> 9 <= field[i] <= 13 || 28 <= field[i] <= 32)
    && (part != [] ==> !(9 <= part[|part| - 1] <= 13 || 28 <= part[|part| - 1] <= 32))
  }

  lemma TrimmedIs(field: seq<Byte>, part: seq<Byte>)
    ensures RStrip(field) == part <==> Trimmed(field, part)
  {
    var r := RStrip(field);
    assert r == field[..|r|];
    if Trimmed(field, part) {
      assert part == field[..|part|];
    }
  }

  /** A short name reads as its trimmed base, then a dot and its trimmed extension unless that is empty; it is
      refused exactly when a byte is not ASCII or the base is blank. */
  lemma NameIff(name: seq<Byte>, text: Text)
    requires |name| == 11
    ensures ShortNameText(name) == Ok(text) <==>
            && (forall i :: 0 <= i < 11 ==> name[i] < 128)
            && exists base, extension ::
                 && base != [] && Trimmed(name[..8], base) && Trimmed(name[8..], extension)
                 && text == base + if extension == [] then [] else [0x2E] + extension
    ensures ShortNameText(name).Ok? <==>
            && (forall i :: 0 <= i < 11 ==> name[i] < 128)
            && exists i :: 0 <= i < 8 && !(9 <= name[i] <= 13 || 28 <= name[i] <= 32)
  {
    hide RStrip, Trimmed;
    var (base, extension) := (RStrip(name[..8]), RStrip(name[8..]));
    TrimmedIs(name[..8], base);
    TrimmedIs(name[8..], extension);
    forall b, x | Trimmed(name[..8], b) && Trimmed(name[8..], x)
      ensures b == base && x == extension
    {
      TrimmedIs(name[..8], b);
      TrimmedIs(name[8..], x);
    }
    BlankIff(name[..8], base);
  }

  lemma BlankIff(field: seq<Byte>, part: seq<Byte>)
    requires Trimmed(field, part)
    ensures part == [] <==> forall i :: 0 <= i < |field| ==> 9 <= field[i] <= 13 || 28 <= field[i] <= 32
  {
  }

  /** Two names clash exactly when they differ at most in the case of letters. */
  lemma CaseAlike(a: seq<Byte>, b: seq<Byte>)
    ensures Upper(a) == Upper(b) <==>
            && |a| == |b|
            && forall i :: 0 <= i < |a| ==>
                 || a[i] == b[i]
                 || (0x41 <= a[i] <= 0x5A && b[i] as int == a[i] as int + 32)
                 || (0x41 <= b[i] <= 0x5A && a[i] as int == b[i] as int + 32)
  {
    if Upper(a) == Upper(b) {
      forall i | 0 <= i < |a|
        ensures UpperByte(a[i]) == UpperByte(b[i])
      {
        assert Upper(a)[i] == Upper(b)[i];
      }
    }
  }

  /** A path without trailing slashes is extended by a slash and the name; the root's children are bare names. */
  lemma {:induction false} PathExtends(path: Text, slashes: seq<Byte>, text: Text)
    requires (path != [] ==> path[|path| - 1] != 0x2F) && forall i :: 0 <= i < |slashes| ==> slashes[i] == 0x2F
    ensures ChildPath(path + slashes, text) == if path == [] && |slashes| == 1 then text else path + [0x2F] + text
  {
    Slashes(path, slashes);
    if path != [] {
      assert (path + slashes)[|path| - 1] != SLASH;
    }
    if path == [] && |slashes| == 1 {
      assert path + slashes == [SLASH];
    }
  }

  lemma {:induction false} Slashes(path: Text, slashes: seq<Byte>)
    requires (path != [] ==> path[|path| - 1] != 0x2F) && forall i :: 0 <= i < |slashes| ==> slashes[i] == 0x2F
    ensures TrimSlashes(path + slashes) == path
    decreases |slashes|
  {
    if slashes == [] {
      assert path + slashes == path;
    } else {
      var fewer := slashes[..|slashes| - 1];
      Slashes(path, fewer);
      assert (path + slashes)[..|path + slashes| - 1] == path + fewer;
    }
  }

  // Encoding names

  ghost predicate Plain(s: Text) {
    forall i :: 0 <= i < |s| ==> 0x41 <= s[i] <= 0x5A || 0x30 <= s[i] <= 0x39 || s[i] == 0x5F || s[i] == 0x2D
  }

  ghost function Spaces(n: nat): (s: Text)
    ensures |s| == n && forall i :: 0 <= i < n ==> s[i] == 0x20
  {
    seq(n, _ => 0x20)
  }

  /** Up to eight and up to three letters, digits, underscores or hyphens, joined by a dot that may be left out
      before an empty extension. */
  ghost predicate Splits(upper: Text, base: Text, extension: Text) {
    && 1 <= |base| <= 8 && |extension| <= 3 && Plain(base) && Plain(extension)
    && (upper == base + [0x2E] + extension || (extension == [] && upper == base))
  }

  lemma SplitEncodes(upper: Text, base: Text, extension: Text)
    requires Splits(upper, base, extension)
    ensures ShortNameBytes(upper) == Ok(base + Spaces(8 - |base|) + extension + Spaces(3 - |extension|))
  {
    hide Spaces, Padded;
    SplitBase(upper, base, extension);
    PaddedBy(base, 8);
    PaddedBy(extension, 3);
    var (b, x) := (Spaces(8 - |base|), Spaces(3 - |extension|));
    assert (base + b) + (extension + x) == base + b + extension + x;
  }

  lemma SplitBase(upper: Text, base: Text, extension: Text)
    requires Splits(upper, base, extension)
    ensures BaseOf(upper) == base && extension == (if |base| < |upper| then upper[|base| + 1..] else [])
    ensures DOT !in extension && AllAllowed(base + extension)
  {
    hide BaseOf;
    assert forall i :: 0 <= i < |base| ==> upper[i] == base[i];
    BaseOfPrefix(upper, |base|);
    assert upper[..|base|] == base;
    if |base| < |upper| {
      assert upper[|base| + 1..] == extension;
    }
  }

  lemma PaddedBy(s: Text, n: nat)
    requires |s| <= n
    ensures Padded(s, n) == s + Spaces(n - |s|)
  {
  }

  /** Exactly these names are encoded, each as its base and its extension filled up with spaces. */
  lemma EncodeIff(upper: Text, name: seq<Byte>)
    ensures ShortNameBytes(upper) == Ok(name) <==>
            exists base, extension ::
              Splits(upper, base, extension) && name == base + Spaces(8 - |base|) + extension + Spaces(3 - |extension|)
  {
    hide Spaces, ShortNameBytes, Splits;
    if ShortNameBytes(upper).Ok? {
      var base, extension := EncodedSplits(upper);
      SplitEncodes(upper, base, extension);
    }
    forall base, extension | Splits(upper, base, extension)
      ensures 1 <= |base| <= 8 && |extension| <= 3
      ensures ShortNameBytes(upper) == Ok(base + Spaces(8 - |base|) + extension + Spaces(3 - |extension|))
    {
      SplitLengths(upper, base, extension);
      SplitEncodes(upper, base, extension);
    }
  }

  lemma SplitLengths(upper: Text, base: Text, extension: Text)
    requires Splits(upper, base, extension)
    ensures 1 <= |base| <= 8 && |extension| <= 3
  {
  }

  lemma EncodedSplits(upper: Text) returns (base: Text, extension: Text)
    requires ShortNameBytes(upper).Ok?
    ensures Splits(upper, base, extension)
  {
    base := BaseOf(upper);
    extension := if |base| < |upper| then upper[|base| + 1..] else [];
    AllowedParts(base, extension);
    assert upper == if |base| < |upper| then base + [0x2E] + extension else base;
  }
}
