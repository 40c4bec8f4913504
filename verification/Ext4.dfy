// The ext4 superblock profile, the JBD2 superblock profile and the edits made to them (tools/ext4_image.py).

module Ext4 {
  import opened Bytes
  import opened Crc32c

  const SUPERBLOCK := 1024
  const BLOCK_BYTES := 4096
  const INODE_BYTES := 256
  const UUID: seq<Byte> := [0x5A, 0x70, 0x6F, 0x74, 0x65, 0x2D, 0x45, 0x58, 0x54, 0x34, 0, 0, 0, 0, 0, 1]
  const LABEL: seq<Byte> := [0x52, 0x53, 0x44, 0x45, 0x58, 0x54, 0x34]

  // Feature masks

  function Weigh(mask: nat, bit: nat): (v: nat)
    requires bit > 0
  {
    if mask / bit % 2 == 1 then bit else 0
  }

  predicate Has(mask: nat, bit: nat)
    requires bit > 0
  {
    mask / bit % 2 == 1
  }

  /** No bit outside the known compatible features. */
  predicate CompatKnown(m: nat) {
    m == Weigh(m, 0x4) + Weigh(m, 0x8) + Weigh(m, 0x20)
  }

  predicate IncompatKnown(m: nat) {
    m == Weigh(m, 0x2) + Weigh(m, 0x4) + Weigh(m, 0x40) + Weigh(m, 0x80) + Weigh(m, 0x2000)
  }

  predicate RoCompatKnown(m: nat) {
    m == Weigh(m, 0x1) + Weigh(m, 0x2) + Weigh(m, 0x8) + Weigh(m, 0x20) + Weigh(m, 0x40) + Weigh(m, 0x400)
  }

  predicate FeaturesPresent(compat: nat, incompat: nat, ro: nat) {
    && Has(compat, 0x4) && Has(compat, 0x8) && Has(compat, 0x20)
    && Has(incompat, 0x2) && Has(incompat, 0x40) && Has(incompat, 0x80) && Has(incompat, 0x2000)
    && Has(ro, 0x1) && Has(ro, 0x2) && Has(ro, 0x8) && Has(ro, 0x20) && Has(ro, 0x40) && Has(ro, 0x400)
  }

  lemma CompatExact(m: nat)
    ensures CompatKnown(m) && Has(m, 0x4) && Has(m, 0x8) && Has(m, 0x20) <==> m == 0x2C
  {
  }

  lemma IncompatExact(m: nat)
    ensures IncompatKnown(m) && Has(m, 0x2) && Has(m, 0x40) && Has(m, 0x80) && Has(m, 0x2000) <==> m == 0x20C2 || m == 0x20C6
    ensures m == 0x20C2 ==> !Has(m, 0x4)
    ensures m == 0x20C6 ==> Has(m, 0x4)
  {
  }

  lemma RoCompatExact(m: nat)
    ensures RoCompatKnown(m) && Has(m, 0x1) && Has(m, 0x2) && Has(m, 0x8) && Has(m, 0x20) && Has(m, 0x40) && Has(m, 0x400) <==>
            m == 0x46B
  {
  }

  /** Exactly one compatible mask, one read-only mask, and two incompatible masks pass: with or without the
      recovery bit. */
  lemma MasksExact(compat: nat, incompat: nat, ro: nat)
    ensures CompatKnown(compat) && IncompatKnown(incompat) && RoCompatKnown(ro) && FeaturesPresent(compat, incompat, ro) <==>
            compat == 0x2C && incompat in {0x20C2, 0x20C6} && ro == 0x46B
    ensures incompat in {0x20C2, 0x20C6} ==> (Has(incompat, 0x4) <==> incompat == 0x20C6)
  {
    hide Has, CompatKnown, IncompatKnown, RoCompatKnown;
    CompatExact(compat);
    IncompatExact(incompat);
    RoCompatExact(ro);
  }

  // The superblock

  datatype Refusal =
    | TooSmall | BadMagic | LogBlockSize | BlockSize | UnknownCompat | UnknownIncompat | UnknownRoCompat | MissingFeatures
    | InodeSize | Unaligned | BlockCount | FreeBlocks | InodeCounts | GroupGeometry | WrongUuid | LabelNotAscii | WrongLabel
    | ChecksumMismatch

  datatype Report = Report(blocks: nat, freeBlocks: nat, inodes: nat, freeInodes: nat, blocksPerGroup: nat,
                           inodesPerGroup: nat, needsRecovery: bool, checksum: seq<Byte>)

  /** The bytes before the first zero. */
  function UntilZero(s: seq<Byte>): (r: seq<Byte>) {
    if s == [] || s[0] == 0 then [] else [s[0]] + UntilZero(s[1..])
  }

  function Shifted(log: nat): (size: nat) {
    if log == 0 then 1024 else 2 * Shifted(log - 1)
  }

  function Blocks(sb: seq<Byte>): (n: nat)
    requires |sb| == 1024
  {
    U32(sb, 0x04) + 0x1_0000_0000 * U32(sb, 0x150)
  }

  function Free(sb: seq<Byte>): (n: nat)
    requires |sb| == 1024
  {
    U32(sb, 0x0C) + 0x1_0000_0000 * U32(sb, 0x158)
  }

  function FeatureRefusal(sb: seq<Byte>): (r: Result<(), Refusal>)
    requires |sb| == 1024
  {
    var (compat, incompat, ro) := (U32(sb, 0x5C), U32(sb, 0x60), U32(sb, 0x64));
    if !CompatKnown(compat) then Err(UnknownCompat)
    else if !IncompatKnown(incompat) then Err(UnknownIncompat)
    else if !RoCompatKnown(ro) then Err(UnknownRoCompat)
    else if !FeaturesPresent(compat, incompat, ro) then Err(MissingFeatures)
    else Ok(())
  }

  function GeometryRefusal(sb: seq<Byte>, imageBytes: nat): (r: Result<(), Refusal>)
    requires |sb| == 1024
  {
    if U16(sb, 0x58) != INODE_BYTES then Err(InodeSize)
    else if imageBytes % BLOCK_BYTES != 0 then Err(Unaligned)
    else if Blocks(sb) == 0 || Blocks(sb) > imageBytes / BLOCK_BYTES then Err(BlockCount)
    else if Free(sb) > Blocks(sb) then Err(FreeBlocks)
    else if U32(sb, 0x00) == 0 || U32(sb, 0x10) > U32(sb, 0x00) then Err(InodeCounts)
    else if U32(sb, 0x20) == 0 || U32(sb, 0x28) == 0 then Err(GroupGeometry)
    else Ok(())
  }

  function IdentityRefusal(sb: seq<Byte>): (r: Result<(), Refusal>)
    requires |sb| == 1024
  {
    var name := UntilZero(sb[0x78..0x88]);
    if sb[0x68..0x78] != UUID then Err(WrongUuid)
    else if exists k :: 0 <= k < |name| && name[k] >= 128 then Err(LabelNotAscii)
    else if name != LABEL then Err(WrongLabel)
    else Ok(())
  }

  /** The stored checksum word equals the computed one. */
  predicate ChecksumHolds(sb: seq<Byte>)
    requires |sb| == 1024
  {
    Word(sb[0x3FC..]) == Crc(sb[..0x3FC], Ones())
  }

  function ReportOf(sb: seq<Byte>): (r: Report)
    requires |sb| == 1024
  {
    Report(Blocks(sb), Free(sb), U32(sb, 0x00), U32(sb, 0x10), U32(sb, 0x20), U32(sb, 0x28), Has(U32(sb, 0x60), 0x4),
           sb[0x3FC..])
  }

  function ParseSuperblock(image: seq<Byte>): (r: Result<Report, Refusal>) {
    if |image| < 2048 then Err(TooSmall)
    else
      var sb := image[SUPERBLOCK..2048];
      if U16(sb, 0x38) != 0xEF53 then Err(BadMagic)
      else if U32(sb, 0x18) > 6 then Err(LogBlockSize)
      else if Shifted(U32(sb, 0x18)) != BLOCK_BYTES then Err(BlockSize)
      else
        var _ :- FeatureRefusal(sb);
        var _ :- GeometryRefusal(sb, |image|);
        var _ :- IdentityRefusal(sb);
        if !ChecksumHolds(sb) then Err(ChecksumMismatch) else Ok(ReportOf(sb))
  }

  /** A superblock that carries its own checksum is one whose 1024 bytes leave a zero remainder. */
  lemma ChecksumIsResidue(sb: seq<Byte>)
    requires |sb| == 1024
    ensures ChecksumHolds(sb) <==> Crc(sb, Ones()) == Zero(32)
  {
    hide Crc, Word;
    assert sb == sb[..0x3FC] + sb[0x3FC..];
    ResidueIff(sb[..0x3FC], sb[0x3FC..], Ones());
  }

  lemma AcceptedHoldsChecksum(image: seq<Byte>)
    requires ParseSuperblock(image).Ok?
    ensures |image| >= 2048 && ChecksumHolds(image[SUPERBLOCK..2048])
  {
    hide ChecksumHolds, FeatureRefusal, GeometryRefusal, IdentityRefusal;
  }

  /** `b` is `a` with other bytes at `at` to `at + 4`. */
  ghost predicate ChangedAt(a: seq<Byte>, b: seq<Byte>, at: nat) {
    at + 4 <= |a| == |b| && a[..at] == b[..at] && a[at + 4..] == b[at + 4..]
  }

  /** Any change within four consecutive bytes of an accepted superblock, the checksum's own included, is refused. */
  lemma BurstRefused(image: seq<Byte>, changed: seq<Byte>, at: nat)
    requires ParseSuperblock(image).Ok?
    requires SUPERBLOCK <= at <= 2044 && ChangedAt(image, changed, at) && image != changed
    ensures ParseSuperblock(changed).Err?
  {
    hide ParseSuperblock, Crc, ChecksumHolds;
    if ParseSuperblock(changed).Ok? {
      AcceptedHoldsChecksum(image);
      AcceptedHoldsChecksum(changed);
      var (a, b) := (image[SUPERBLOCK..2048], changed[SUPERBLOCK..2048]);
      ChecksumIsResidue(a);
      ChecksumIsResidue(b);
      WindowChanges(image, changed, at);
      var k := at - SUPERBLOCK;
      BurstDetected(a[..k], a[k..k + 4], b[k..k + 4], a[k + 4..], Ones());
      assert false;
    }
  }

  lemma WindowChanges(image: seq<Byte>, changed: seq<Byte>, at: nat)
    requires |image| >= 2048 && SUPERBLOCK <= at <= 2044 && ChangedAt(image, changed, at) && image != changed
    ensures var (a, b, k) := (image[SUPERBLOCK..2048], changed[SUPERBLOCK..2048], at - SUPERBLOCK);
            && a == a[..k] + a[k..k + 4] + a[k + 4..] && b == a[..k] + b[k..k + 4] + a[k + 4..]
            && a[k..k + 4] != b[k..k + 4]
  {
    var (a, b, k) := (image[SUPERBLOCK..2048], changed[SUPERBLOCK..2048], at - SUPERBLOCK);
    SliceOfSlice(image, SUPERBLOCK, 2048, 0, k);
    SliceOfSlice(changed, SUPERBLOCK, 2048, 0, k);
    assert image[..at][SUPERBLOCK..] == changed[..at][SUPERBLOCK..];
    SliceOfSlice(image, SUPERBLOCK, 2048, k + 4, 1024);
    SliceOfSlice(changed, SUPERBLOCK, 2048, k + 4, 1024);
    assert image[at + 4..][..2044 - at] == changed[at + 4..][..2044 - at];
    SliceOfSlice(image, SUPERBLOCK, 2048, k, k + 4);
    SliceOfSlice(changed, SUPERBLOCK, 2048, k, k + 4);
    assert image == image[..at] + image[at..at + 4] + image[at + 4..];
    assert changed == changed[..at] + changed[at..at + 4] + changed[at + 4..];
  }

  /** In particular any single byte. */
  lemma SingleByteRefused(image: seq<Byte>, at: nat, value: Byte)
    requires ParseSuperblock(image).Ok? && SUPERBLOCK <= at < 2048 && at < |image| && image[at] != value
    ensures ParseSuperblock(image[at := value]).Err?
  {
    hide ParseSuperblock, ChecksumHolds;
    AcceptedHoldsChecksum(image);
    var k := if at > 2044 then 2044 else at;
    var changed := image[at := value];
    assert ChangedAt(image, changed, k);
    BurstRefused(image, changed, k);
  }

  // The damage the tool inflicts on a superblock

  datatype Mutation = Magic | BlockSizeField | MissingExtents | Missing64Bit | MissingMetadataCsum | UnsupportedIncompat
    | BlocksRange | SuperblockChecksum

  function Toggle80(b: Byte): (r: Byte) {
    if b >= 128 then b - 128 else b + 128
  }

  function Mutate(kind: Mutation, image: seq<Byte>): (r: seq<Byte>)
    requires |image| >= 2048
    ensures |r| == |image|
  {
    var sb := SUPERBLOCK;
    match kind
    case Magic => Patch(image, sb + 0x38, Le16(0))
    case BlockSizeField => Patch(image, sb + 0x18, Le32(1))
    case MissingExtents => Patch(image, sb + 0x60, Le32(U32(image, sb + 0x60) - Weigh(U32(image, sb + 0x60), 0x40)))
    case Missing64Bit => Patch(image, sb + 0x60, Le32(U32(image, sb + 0x60) - Weigh(U32(image, sb + 0x60), 0x80)))
    case MissingMetadataCsum => Patch(image, sb + 0x64, Le32(U32(image, sb + 0x64) - Weigh(U32(image, sb + 0x64), 0x400)))
    case UnsupportedIncompat =>
      var incompat := U32(image, sb + 0x60);
      Patch(image, sb + 0x60, Le32(if Has(incompat, 0x1_0000) then incompat else SetBit16(incompat); incompat + 0x1_0000))
    case BlocksRange => Patch(Patch(image, sb + 0x04, Le32(0xFFFF_FFFF)), sb + 0x150, Le32(0xFFFF_FFFF))
    case SuperblockChecksum => Patch(image, sb + 0x3FC, [Toggle80(image[sb + 0x3FC])])
  }

  lemma SetBit16(v: nat)
    requires v < 0x1_0000_0000 && !Has(v, 0x1_0000)
    ensures v + 0x1_0000 < 0x1_0000_0000
  {
    assert v / 0x1_0000 < 0x1_0000;
  }

  lemma ReadInside(image: seq<Byte>, at: nat)
    requires |image| >= 2048 && at + 4 <= 1024
    ensures U32(image[SUPERBLOCK..2048], at) == U32(image, SUPERBLOCK + at)
    ensures U16(image[SUPERBLOCK..2048], at) == U16(image, SUPERBLOCK + at)
  {
  }

  /** What an accepted superblock says in the fields the mutations touch. */
  lemma AcceptedFields(image: seq<Byte>)
    requires ParseSuperblock(image).Ok?
    ensures |image| >= 2048
    ensures U16(image, SUPERBLOCK + 0x38) == 0xEF53 && Shifted(U32(image, SUPERBLOCK + 0x18)) == BLOCK_BYTES
    ensures U32(image, SUPERBLOCK + 0x60) in {0x20C2, 0x20C6} && U32(image, SUPERBLOCK + 0x64) == 0x46B
  {
    hide ChecksumHolds, GeometryRefusal, IdentityRefusal, U32, U16, CompatKnown, IncompatKnown, RoCompatKnown, FeaturesPresent;
    ReadInside(image, 0x38);
    ReadInside(image, 0x18);
    ReadInside(image, 0x60);
    ReadInside(image, 0x64);
    var sb := image[SUPERBLOCK..2048];
    MasksExact(U32(sb, 0x5C), U32(sb, 0x60), U32(sb, 0x64));
  }

  // Which superblocks are accepted, field by field

  /** The eight numeric fields of the profile, at their offsets from the superblock's start. */
  ghost predicate NumbersFit(image: seq<Byte>)
    requires |image| >= 2048
  {
    var blocks := U32(image, 1024 + 0x04) + 0x1_0000_0000 * U32(image, 1024 + 0x150);
    var free := U32(image, 1024 + 0x0C) + 0x1_0000_0000 * U32(image, 1024 + 0x158);
    && |image| % 4096 == 0 && U16(image, 1024 + 0x58) == 256
    && 0 < blocks && 4096 * blocks <= |image| && free <= blocks
    && U32(image, 1024) > 0 && U32(image, 1024 + 0x10) <= U32(image, 1024)
    && U32(image, 1024 + 0x20) > 0 && U32(image, 1024 + 0x28) > 0
  }

  /** The fixed identifier, and the seven letters of the volume name ended by a zero. */
  ghost predicate NamesFit(image: seq<Byte>)
    requires |image| >= 2048
  {
    && image[1128..1144] == [0x5A, 0x70, 0x6F, 0x74, 0x65, 0x2D, 0x45, 0x58, 0x54, 0x34, 0, 0, 0, 0, 0, 1]
    && image[1144..1152] == [0x52, 0x53, 0x44, 0x45, 0x58, 0x54, 0x34, 0]
  }

  ghost predicate ProfileHolds(image: seq<Byte>) {
    && |image| >= 2048
    && U16(image, 1024 + 0x38) == 0xEF53 && U32(image, 1024 + 0x18) == 2
    && U32(image, 1024 + 0x5C) == 0x2C && U32(image, 1024 + 0x60) in {0x20C2, 0x20C6} && U32(image, 1024 + 0x64) == 0x46B
    && NumbersFit(image) && NamesFit(image)
    && Crc(image[1024..2048], Ones()) == Zero(32)
  }

  lemma ShiftedIs(log: nat)
    ensures Shifted(log) >= 1024
    ensures Shifted(log) == 4096 <==> log == 2
  {
    if log > 2 {
      ShiftedGrows(log - 3);
    } else {
      assert Shifted(1) == 2 * Shifted(0) && Shifted(2) == 2 * Shifted(1);
    }
  }

  lemma {:induction false} ShiftedGrows(n: nat)
    ensures Shifted(n + 3) >= 8192
  {
    if n == 0 {
      assert Shifted(1) == 2 * Shifted(0) && Shifted(2) == 2 * Shifted(1) && Shifted(3) == 2 * Shifted(2);
    } else {
      ShiftedGrows(n - 1);
    }
  }

  lemma GeometryIff(image: seq<Byte>)
    requires |image| >= 2048
    ensures GeometryRefusal(image[SUPERBLOCK..2048], |image|).Ok? <==> NumbersFit(image)
  {
    hide U32, U16;
    ReadInside(image, 0x00);
    ReadInside(image, 0x04);
    ReadInside(image, 0x0C);
    ReadInside(image, 0x10);
    ReadInside(image, 0x20);
    ReadInside(image, 0x28);
    ReadInside(image, 0x58);
    ReadInside(image, 0x150);
    ReadInside(image, 0x158);
  }

  /** A name ends at its first zero. */
  lemma {:induction false} UntilZeroIs(s: seq<Byte>, name: seq<Byte>)
    requires |name| < |s| && forall k :: 0 <= k < |name| ==> name[k] != 0
    ensures UntilZero(s) == name <==> s[..|name| + 1] == name + [0]
    decreases |name|
  {
    if name != [] {
      UntilZeroIs(s[1..], name[1..]);
      assert s[..|name| + 1] == [s[0]] + s[1..][..|name|];
      assert name + [0] == [name[0]] + (name[1..] + [0]);
      assert s[0] != 0 ==> UntilZero(s)[0] == s[0] && UntilZero(s)[1..] == UntilZero(s[1..]);
      assert (name + [0])[1..] == name[1..] + [0] && s[..|name| + 1][1..] == s[1..][..|name|];
    }
  }

  lemma IdentityIff(image: seq<Byte>)
    requires |image| >= 2048
    ensures IdentityRefusal(image[SUPERBLOCK..2048]).Ok? <==> NamesFit(image)
  {
    hide UntilZero;
    var sb := image[SUPERBLOCK..2048];
    SliceOfSlice(image, SUPERBLOCK, 2048, 0x68, 0x78);
    SliceOfSlice(image, SUPERBLOCK, 2048, 0x78, 0x88);
    UntilZeroIs(sb[0x78..0x88], LABEL);
    assert sb[0x78..0x88][..8] == image[1144..1152];
    assert LABEL + [0] == [0x52, 0x53, 0x44, 0x45, 0x58, 0x54, 0x34, 0];
  }

  /** A superblock is accepted exactly when every field of the profile fits and its 1024 bytes leave no remainder. */
  lemma AcceptedIff(image: seq<Byte>)
    ensures ParseSuperblock(image).Ok? <==> ProfileHolds(image)
  {
    hide Crc, ChecksumHolds, GeometryRefusal, IdentityRefusal, NumbersFit, NamesFit, U32, U16, CompatKnown, IncompatKnown,
      RoCompatKnown, FeaturesPresent, Shifted;
    if |image| >= 2048 {
      var sb := image[SUPERBLOCK..2048];
      ReadInside(image, 0x38);
      ReadInside(image, 0x18);
      ReadInside(image, 0x5C);
      ReadInside(image, 0x60);
      ReadInside(image, 0x64);
      ShiftedIs(U32(sb, 0x18));
      MasksExact(U32(sb, 0x5C), U32(sb, 0x60), U32(sb, 0x64));
      GeometryIff(image);
      IdentityIff(image);
      ChecksumIsResidue(sb);
    }
  }

  /** What is then reported. */
  lemma AcceptedReports(image: seq<Byte>)
    requires ParseSuperblock(image).Ok?
    ensures |image| >= 2048
    ensures var r := ParseSuperblock(image).value;
            && r.blocks == U32(image, 1024 + 0x04) + 0x1_0000_0000 * U32(image, 1024 + 0x150)
            && r.freeBlocks == U32(image, 1024 + 0x0C) + 0x1_0000_0000 * U32(image, 1024 + 0x158)
            && r.inodes == U32(image, 1024) && r.freeInodes == U32(image, 1024 + 0x10)
            && r.blocksPerGroup == U32(image, 1024 + 0x20) && r.inodesPerGroup == U32(image, 1024 + 0x28)
            && (r.needsRecovery <==> U32(image, 1024 + 0x60) == 0x20C6)
            && r.checksum == image[2044..2048]
  {
    hide ParseSuperblock, U32, U16, Has, ReportOf;
    AcceptedIs(image);
    NumbersReported(image);
    AcceptedFields(image);
    RecoveryReported(image);
  }

  lemma NumbersReported(image: seq<Byte>)
    requires |image| >= 2048
    ensures var r := ReportOf(image[SUPERBLOCK..2048]);
            && r.blocks == U32(image, 1024 + 0x04) + 0x1_0000_0000 * U32(image, 1024 + 0x150)
            && r.freeBlocks == U32(image, 1024 + 0x0C) + 0x1_0000_0000 * U32(image, 1024 + 0x158)
            && r.inodes == U32(image, 1024) && r.freeInodes == U32(image, 1024 + 0x10)
            && r.blocksPerGroup == U32(image, 1024 + 0x20) && r.inodesPerGroup == U32(image, 1024 + 0x28)
  {
    hide U32, U16, Has;
    ReadInside(image, 0x00);
    ReadInside(image, 0x04);
    ReadInside(image, 0x0C);
    ReadInside(image, 0x10);
    ReadInside(image, 0x20);
    ReadInside(image, 0x28);
    ReadInside(image, 0x150);
    ReadInside(image, 0x158);
  }

  lemma RecoveryReported(image: seq<Byte>)
    requires |image| >= 2048 && U32(image, 1024 + 0x60) in {0x20C2, 0x20C6}
    ensures var r := ReportOf(image[SUPERBLOCK..2048]);
            && (r.needsRecovery <==> U32(image, 1024 + 0x60) == 0x20C6)
            && r.checksum == image[2044..2048]
  {
    hide U32, U16;
    ReadInside(image, 0x60);
    assert image[SUPERBLOCK..2048][0x3FC..] == image[2044..2048];
  }

  lemma AcceptedIs(image: seq<Byte>)
    requires ParseSuperblock(image).Ok?
    ensures |image| >= 2048 && ParseSuperblock(image).value == ReportOf(image[SUPERBLOCK..2048])
  {
    hide ChecksumHolds, GeometryRefusal, IdentityRefusal, FeatureRefusal, U32, U16, Shifted, ReportOf;
  }

  lemma WordChanges(image: seq<Byte>, at: nat, v: nat)
    requires |image| >= 2048 && SUPERBLOCK <= at <= 2044 && v < 0x1_0000_0000 && U32(image, at) != v
    ensures ChangedAt(image, Patch(image, at, Le32(v)), at) && image != Patch(image, at, Le32(v))
  {
    hide Le32;
    var changed := Patch(image, at, Le32(v));
    assert U32(changed, at) == U32(Le32(v), 0);
  }

  lemma FewBytesChange(image: seq<Byte>, at: nat, b: seq<Byte>)
    requires SUPERBLOCK <= at <= 2044 && |b| <= 4 && |image| >= 2048
    ensures ChangedAt(image, Patch(image, at, b), at)
  {
    var changed := Patch(image, at, b);
    assert changed[..at] == image[..at] && changed[at + 4..] == image[at + 4..];
  }

  lemma NotTwo(log: nat)
    requires Shifted(log) == BLOCK_BYTES
    ensures log != 1
  {
    assert Shifted(1) == 2 * Shifted(0);
  }

  /** Every mutation of an accepted superblock is refused. */
  lemma MutationRefused(kind: Mutation, image: seq<Byte>)
    requires ParseSuperblock(image).Ok?
    requires kind == BlocksRange ==> |image| / BLOCK_BYTES < 0xFFFF_FFFF_FFFF_FFFF
    ensures |image| >= 2048 && ParseSuperblock(Mutate(kind, image)).Err?
  {
    hide ParseSuperblock, Patch, U32, U16, Shifted, Le32, Le16;
    AcceptedFields(image);
    var sb := SUPERBLOCK;
    var changed := Mutate(kind, image);
    match kind {
      case Magic =>
        FewBytesChange(image, sb + 0x38, Le16(0));
        PatchReads(image, sb + 0x38, 0);
        BurstRefused(image, changed, sb + 0x38);
      case BlockSizeField =>
        NotTwo(U32(image, sb + 0x18));
        WordChanges(image, sb + 0x18, 1);
        BurstRefused(image, changed, sb + 0x18);
      case MissingExtents =>
        WordChanges(image, sb + 0x60, U32(image, sb + 0x60) - 0x40);
        BurstRefused(image, changed, sb + 0x60);
      case Missing64Bit =>
        WordChanges(image, sb + 0x60, U32(image, sb + 0x60) - 0x80);
        BurstRefused(image, changed, sb + 0x60);
      case MissingMetadataCsum =>
        WordChanges(image, sb + 0x64, U32(image, sb + 0x64) - 0x400);
        BurstRefused(image, changed, sb + 0x64);
      case UnsupportedIncompat =>
        WordChanges(image, sb + 0x60, U32(image, sb + 0x60) + 0x1_0000);
        BurstRefused(image, changed, sb + 0x60);
      case BlocksRange =>
        HugeRefused(image);
      case SuperblockChecksum =>
        var b := Toggle80(image[sb + 0x3FC]);
        FewBytesChange(image, sb + 0x3FC, [b]);
        assert changed[sb + 0x3FC] == b;
        BurstRefused(image, changed, sb + 0x3FC);
    }
  }

  /** The bytes each mutation of an accepted image leaves: one field with a wrong value, the rest as it was. */
  lemma MutationIs(kind: Mutation, image: seq<Byte>)
    requires ParseSuperblock(image).Ok?
    ensures |image| >= 2048 && Damaged(kind, image, Mutate(kind, image))
    ensures forall k :: 0 <= k < |image| && !Touched(kind, k) ==> Mutate(kind, image)[k] == image[k]
  {
    hide ParseSuperblock, U32, U16, Shifted, Le32, Le16;
    AcceptedFields(image);
    WordWritten(image, 1024 + 0x18, 1);
    WordWritten(image, 1024 + 0x60, U32(image, 1024 + 0x60) - 0x40);
    WordWritten(image, 1024 + 0x60, U32(image, 1024 + 0x60) - 0x80);
    WordWritten(image, 1024 + 0x60, U32(image, 1024 + 0x60) + 0x1_0000);
    WordWritten(image, 1024 + 0x64, 0x6B);
    PatchReads(image, 1024 + 0x38, 0);
    HugeFields(image);
  }

  /** The field a mutation is named after, and its wrong value. */
  ghost predicate Damaged(kind: Mutation, image: seq<Byte>, changed: seq<Byte>)
    requires |image| >= 2048
  {
    && |changed| == |image|
    && var incompat := U32(image, 1024 + 0x60);
       match kind
       case Magic => U16(changed, 1024 + 0x38) == 0
       case BlockSizeField => U32(changed, 1024 + 0x18) == 1
       case MissingExtents => U32(changed, 1024 + 0x60) == incompat - 0x40
       case Missing64Bit => U32(changed, 1024 + 0x60) == incompat - 0x80
       case MissingMetadataCsum => U32(changed, 1024 + 0x64) == 0x6B
       case UnsupportedIncompat => U32(changed, 1024 + 0x60) == incompat + 0x1_0000
       case BlocksRange => U32(changed, 1024 + 0x04) == 0xFFFF_FFFF && U32(changed, 1024 + 0x150) == 0xFFFF_FFFF
       case SuperblockChecksum => (changed[2044] as int - image[2044] as int) % 256 == 128
  }

  ghost predicate Touched(kind: Mutation, k: int) {
    match kind
    case Magic => 1080 <= k < 1082
    case BlockSizeField => 1048 <= k < 1052
    case MissingExtents => 1120 <= k < 1124
    case Missing64Bit => 1120 <= k < 1124
    case MissingMetadataCsum => 1124 <= k < 1128
    case UnsupportedIncompat => 1120 <= k < 1124
    case BlocksRange => 1028 <= k < 1032 || 1360 <= k < 1364
    case SuperblockChecksum => k == 2044
  }

  lemma WordWritten(image: seq<Byte>, at: nat, v: nat)
    requires at + 4 <= |image| && v < 0x1_0000_0000
    ensures U32(Patch(image, at, Le32(v)), at) == v
  {
    hide Le32;
    var changed := Patch(image, at, Le32(v));
    assert U32(changed, at) == U32(Le32(v), 0);
  }

  lemma PatchReads(image: seq<Byte>, at: nat, v: nat)
    requires at + 2 <= |image| && v < 0x1_0000
    ensures U16(Patch(image, at, Le16(v)), at) == v
  {
    var changed := Patch(image, at, Le16(v));
    assert changed[at] == Le16(v)[0] && changed[at + 1] == Le16(v)[1];
  }

  /** A block count with all 64 bits set exceeds any image shorter than 2^75 bytes. */
  lemma HugeRefused(image: seq<Byte>)
    requires |image| >= 2048 && |image| / BLOCK_BYTES < 0xFFFF_FFFF_FFFF_FFFF
    ensures ParseSuperblock(Mutate(BlocksRange, image)).Err?
  {
    hide ChecksumHolds, IdentityRefusal, FeatureRefusal, U16, Shifted;
    var changed := Mutate(BlocksRange, image);
    var sb := changed[SUPERBLOCK..2048];
    HugeFields(image);
    ReadInside(changed, 0x04);
    ReadInside(changed, 0x150);
    assert Blocks(sb) == 0xFFFF_FFFF_FFFF_FFFF;
    assert GeometryRefusal(sb, |changed|).Err?;
  }

  lemma HugeFields(image: seq<Byte>)
    requires |image| >= 2048
    ensures var changed := Mutate(BlocksRange, image);
            U32(changed, SUPERBLOCK + 0x04) == 0xFFFF_FFFF && U32(changed, SUPERBLOCK + 0x150) == 0xFFFF_FFFF
  {
    var b := Le32(0xFFFF_FFFF);
    var changed := Mutate(BlocksRange, image);
    assert forall k :: 0 <= k < 4 ==> changed[SUPERBLOCK + 0x04 + k] == b[k] && changed[SUPERBLOCK + 0x150 + k] == b[k];
  }

  // The recovery marker

  /** The superblock with the recovery bit set and its checksum renewed. */
  function MarkSuperblock(sb: seq<Byte>): (r: seq<Byte>)
    requires |sb| == 1024 && U32(sb, 0x60) < 0xFFFF_FFFC
    ensures |r| == 1024
  {
    var marked := Patch(sb, 0x60, Le32(U32(sb, 0x60) + 0x4));
    Patch(marked, 0x3FC, WordBytes(Crc(marked[..0x3FC], Ones())))
  }

  lemma CleanMask(image: seq<Byte>)
    requires ParseSuperblock(image).Ok?
    ensures |image| >= 2048
    ensures U32(image[SUPERBLOCK..2048], 0x60) == if ParseSuperblock(image).value.needsRecovery then 0x20C6 else 0x20C2
  {
    hide ChecksumHolds, GeometryRefusal, IdentityRefusal, FeatureRefusal, U32;
    AcceptedFields(image);
    ReadInside(image, 0x60);
  }

  /** Equal but for the incompatible mask and the checksum. */
  ghost predicate SameBut(a: seq<Byte>, b: seq<Byte>) {
    |a| == |b| == 1024 && forall k :: 0 <= k < 1024 && !(0x60 <= k < 0x64) && k < 0x3FC ==> a[k] == b[k]
  }

  lemma MarkedFields(sb: seq<Byte>)
    requires |sb| == 1024 && U32(sb, 0x60) < 0xFFFF_FFFC
    ensures var m := MarkSuperblock(sb); SameBut(sb, m) && U32(m, 0x60) == U32(sb, 0x60) + 0x4 && ChecksumHolds(m)
  {
    hide Crc, Le32, WordBytes, Word;
    var v := U32(sb, 0x60) + 0x4;
    var marked := Patch(sb, 0x60, Le32(v));
    var sum := WordBytes(Crc(marked[..0x3FC], Ones()));
    var m := MarkSuperblock(sb);
    assert m[..0x3FC] == marked[..0x3FC] && m[0x3FC..] == sum;
    assert forall k :: 0 <= k < 4 ==> m[0x60 + k] == Le32(v)[k];
    assert U32(m, 0x60) == U32(Le32(v), 0);
  }

  lemma SameReads(a: seq<Byte>, b: seq<Byte>, at: nat)
    requires SameBut(a, b) && (at + 4 <= 0x60 || 0x64 <= at) && at + 4 <= 0x3FC
    ensures U32(a, at) == U32(b, at) && U16(a, at) == U16(b, at)
  {
  }

  lemma SameIdentity(a: seq<Byte>, b: seq<Byte>)
    requires SameBut(a, b)
    ensures IdentityRefusal(a) == IdentityRefusal(b)
  {
    assert a[0x68..0x78] == b[0x68..0x78] && a[0x78..0x88] == b[0x78..0x88];
  }

  lemma SameGeometry(a: seq<Byte>, b: seq<Byte>, imageBytes: nat)
    requires SameBut(a, b)
    ensures GeometryRefusal(a, imageBytes) == GeometryRefusal(b, imageBytes)
    ensures Blocks(a) == Blocks(b) && Free(a) == Free(b) && U32(a, 0x00) == U32(b, 0x00) && U32(a, 0x10) == U32(b, 0x10)
    ensures U32(a, 0x20) == U32(b, 0x20) && U32(a, 0x28) == U32(b, 0x28)
  {
    hide SameBut, U32, U16;
    SameReads(a, b, 0x58);
    SameReads(a, b, 0x04);
    SameReads(a, b, 0x150);
    SameReads(a, b, 0x0C);
    SameReads(a, b, 0x158);
    SameReads(a, b, 0x00);
    SameReads(a, b, 0x10);
    SameReads(a, b, 0x20);
    SameReads(a, b, 0x28);
  }

  /** Marking a clean accepted image gives an accepted image that needs recovery and differs in nothing else
      the parser reports but the checksum. */
  lemma MarkerAccepted(image: seq<Byte>)
    requires ParseSuperblock(image).Ok? && !ParseSuperblock(image).value.needsRecovery
    ensures |image| >= 2048 && U32(image[SUPERBLOCK..2048], 0x60) == 0x20C2
    ensures var marked := Patch(image, SUPERBLOCK, MarkSuperblock(image[SUPERBLOCK..2048]));
            var (r, s) := (ParseSuperblock(image).value, ParseSuperblock(marked));
            s.Ok? && s.value == r.(needsRecovery := true, checksum := s.value.checksum)
  {
    hide ChecksumHolds, GeometryRefusal, IdentityRefusal, U32, U16, MarkSuperblock, Patch, SameBut, Shifted,
      CompatKnown, IncompatKnown, RoCompatKnown, FeaturesPresent, Blocks, Free;
    AcceptedFields(image);
    ReadInside(image, 0x60);
    var sb := image[SUPERBLOCK..2048];
    MasksExact(U32(sb, 0x5C), U32(sb, 0x60), U32(sb, 0x64));
    MarkedFields(sb);
    var m := MarkSuperblock(sb);
    var marked := Patch(image, SUPERBLOCK, m);
    WindowPatched(image, m);
    SameReads(sb, m, 0x38);
    SameReads(sb, m, 0x18);
    SameReads(sb, m, 0x5C);
    SameReads(sb, m, 0x64);
    MasksExact(U32(m, 0x5C), U32(m, 0x60), U32(m, 0x64));
    SameGeometry(sb, m, |image|);
    SameIdentity(sb, m);
  }

  lemma WindowPatched(image: seq<Byte>, m: seq<Byte>)
    requires |image| >= 2048 && |m| == 1024
    ensures Patch(image, SUPERBLOCK, m)[SUPERBLOCK..2048] == m
  {
  }
}
