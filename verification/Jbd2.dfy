// The JBD2 superblock profile and its upgrade (_parse_journal_superblock and _upgrade_journal_superblock in
// tools/ext4_image.py). All fields are big-endian, and the checksum covers the block with its own field zero.

module Jbd2 {
  import opened Bytes
  import opened Crc32c
  import Ext4

  const JOURNAL_BYTES := 1024
  const MAGIC := 0xC03B_3998
  const V2 := 4
  const FEATURES := 0x13
  const CRC32C_TYPE: Byte := 4
  const BLOCK_COUNT := 1024
  const FIELD := 0xFC

  datatype JournalRefusal = WrongSize | BadMagic | NotV2 | BlockSize | RingGeometry | NotClean | FeatureMasks
    | ChecksumType | WrongUuid | ChecksumMismatch

  datatype JournalReport = JournalReport(sequence: nat, checksum: seq<Byte>)

  /** A big-endian word's bits. */
  function WordBe(s: seq<Byte>): (w: Bits)
    requires |s| == 4
    ensures |w| == 32
  {
    Word([s[3], s[2], s[1], s[0]])
  }

  function WordBeBytes(w: Bits): (s: seq<Byte>)
    requires |w| == 32
    ensures |s| == 4 && WordBe(s) == w
  {
    var b := WordBytes(w);
    assert b == [b[0], b[1], b[2], b[3]];
    [b[3], b[2], b[1], b[0]]
  }

  function Blanked(data: seq<Byte>): (r: seq<Byte>)
    requires |data| == JOURNAL_BYTES
    ensures |r| == JOURNAL_BYTES
  {
    Patch(data, FIELD, Be32(0))
  }

  predicate ChecksumHolds(data: seq<Byte>)
    requires |data| == JOURNAL_BYTES
  {
    WordBe(data[FIELD..FIELD + 4]) == Crc(Blanked(data), Ones())
  }

  /** What is checked before the features: who wrote it and where it lives. */
  function GeometryRefusal(data: seq<Byte>): (r: Result<(), JournalRefusal>)
    requires |data| == JOURNAL_BYTES
  {
    if U32Be(data, 0x00) != MAGIC then Err(BadMagic)
    else if U32Be(data, 0x04) != V2 then Err(NotV2)
    else if U32Be(data, 0x0C) != Ext4.BLOCK_BYTES then Err(BlockSize)
    else if U32Be(data, 0x10) != BLOCK_COUNT || U32Be(data, 0x14) != 1 then Err(RingGeometry)
    else if U32Be(data, 0x1C) != 0 then Err(NotClean)
    else Ok(())
  }

  predicate ProfileHolds(data: seq<Byte>)
    requires |data| == JOURNAL_BYTES
  {
    U32Be(data, 0x24) == 0 && U32Be(data, 0x28) == FEATURES && U32Be(data, 0x2C) == 0
  }

  function ParseJournal(data: seq<Byte>): (r: Result<JournalReport, JournalRefusal>) {
    if |data| != JOURNAL_BYTES then Err(WrongSize)
    else
      var _ :- GeometryRefusal(data);
      if !ProfileHolds(data) then Err(FeatureMasks)
      else if data[0x50] != CRC32C_TYPE then Err(ChecksumType)
      else if data[0x30..0x40] != Ext4.UUID then Err(WrongUuid)
      else if !ChecksumHolds(data) then Err(ChecksumMismatch)
      else Ok(JournalReport(U32Be(data, 0x18), data[FIELD..FIELD + 4]))
  }

  /** A journal superblock is accepted exactly when every field holds its one value and the stored word is the
      checksum of the block with that word zero. */
  lemma AcceptedIff(data: seq<Byte>)
    ensures ParseJournal(data).Ok? <==>
            && |data| == 1024
            && U32Be(data, 0x00) == 0xC03B_3998 && U32Be(data, 0x04) == 4 && U32Be(data, 0x0C) == 4096
            && U32Be(data, 0x10) == 1024 && U32Be(data, 0x14) == 1 && U32Be(data, 0x1C) == 0
            && U32Be(data, 0x24) == 0 && U32Be(data, 0x28) == 0x13 && U32Be(data, 0x2C) == 0 && data[0x50] == 4
            && data[0x30..0x40] == [0x5A, 0x70, 0x6F, 0x74, 0x65, 0x2D, 0x45, 0x58, 0x54, 0x34, 0, 0, 0, 0, 0, 1]
            && Word([data[255], data[254], data[253], data[252]]) == Crc(data[..252] + [0, 0, 0, 0] + data[256..], Ones())
  {
    hide U32Be, Crc, Word;
    if |data| == 1024 {
      BlankedIs(data);
      assert data[0xFC..0x100] == [data[252], data[253], data[254], data[255]];
    }
  }

  lemma BlankedIs(data: seq<Byte>)
    requires |data| == 1024
    ensures Blanked(data) == data[..252] + [0, 0, 0, 0] + data[256..]
  {
    assert Be32(0) == [0, 0, 0, 0];
  }

  lemma AcceptedHoldsChecksum(data: seq<Byte>)
    requires ParseJournal(data).Ok?
    ensures |data| == JOURNAL_BYTES && ChecksumHolds(data)
  {
    hide ChecksumHolds, GeometryRefusal, ProfileHolds;
  }

  lemma BlankedParts(data: seq<Byte>, at: nat)
    requires |data| == JOURNAL_BYTES && at + 4 <= JOURNAL_BYTES && (at + 4 <= FIELD || FIELD + 4 <= at)
    ensures Blanked(data)[at..at + 4] == data[at..at + 4]
    ensures Blanked(data) == Blanked(data)[..at] + data[at..at + 4] + Blanked(data)[at + 4..]
  {
    hide Be32;
  }

  /** Any change within four consecutive bytes outside the checksum field, or inside it, is refused. */
  lemma BurstRefused(data: seq<Byte>, changed: seq<Byte>, at: nat)
    requires ParseJournal(data).Ok? && Ext4.ChangedAt(data, changed, at) && data != changed
    requires at == FIELD || at >= FIELD + 4 || at + 4 <= FIELD
    ensures ParseJournal(changed).Err?
  {
    hide ParseJournal, Crc, ChecksumHolds, Blanked, WordBe;
    if ParseJournal(changed).Ok? {
      AcceptedHoldsChecksum(data);
      AcceptedHoldsChecksum(changed);
      ChecksumsDiffer(data, changed, at);
      assert false;
    }
  }

  lemma ChecksumsDiffer(data: seq<Byte>, changed: seq<Byte>, at: nat)
    requires |data| == JOURNAL_BYTES && Ext4.ChangedAt(data, changed, at) && data != changed
    requires at == FIELD || at >= FIELD + 4 || at + 4 <= FIELD
    ensures !(ChecksumHolds(data) && ChecksumHolds(changed))
  {
    hide Crc, Blanked, Word;
    var (d, c) := (data[at..at + 4], changed[at..at + 4]);
    assert d != c by {
      assert data == data[..at] + d + data[at + 4..] && changed == changed[..at] + c + changed[at + 4..];
    }
    if at == FIELD {
      SameBlanked(data, changed);
      var (x, y) := ([d[3], d[2], d[1], d[0]], [c[3], c[2], c[1], c[0]]);
      assert d == [x[3], x[2], x[1], x[0]] && c == [y[3], y[2], y[1], y[0]];
      if Word(x) == Word(y) {
        WordInjective(x, y);
      }
    } else {
      BlankedParts(data, at);
      BlankedParts(changed, at);
      OutsideSame(data, changed, at);
      BurstDetected(Blanked(data)[..at], d, c, Blanked(data)[at + 4..], Ones());
    }
  }

  lemma SameBlanked(data: seq<Byte>, changed: seq<Byte>)
    requires |data| == JOURNAL_BYTES && Ext4.ChangedAt(data, changed, FIELD)
    ensures Blanked(data) == Blanked(changed)
  {
    hide Be32;
  }

  lemma OutsideSame(data: seq<Byte>, changed: seq<Byte>, at: nat)
    requires |data| == JOURNAL_BYTES && Ext4.ChangedAt(data, changed, at) && (at >= FIELD + 4 || at + 4 <= FIELD)
    ensures Blanked(data)[..at] == Blanked(changed)[..at] && Blanked(data)[at + 4..] == Blanked(changed)[at + 4..]
    ensures data[FIELD..FIELD + 4] == changed[FIELD..FIELD + 4]
  {
    hide Be32;
    forall k | 0 <= k < JOURNAL_BYTES && !(at <= k < at + 4)
      ensures data[k] == changed[k]
    {
      if k < at {
        assert data[k] == data[..at][k] && changed[k] == changed[..at][k];
      } else {
        assert data[k] == data[at + 4..][k - at - 4] && changed[k] == changed[at + 4..][k - at - 4];
      }
    }
  }

  /** In particular any single byte. */
  lemma SingleByteRefused(data: seq<Byte>, at: nat, value: Byte)
    requires ParseJournal(data).Ok? && at < |data| && data[at] != value
    ensures ParseJournal(data[at := value]).Err?
  {
    hide ParseJournal, ChecksumHolds;
    AcceptedHoldsChecksum(data);
    var k := if at < FIELD then (if at + 4 <= FIELD then at else FIELD - 4)
             else if at < FIELD + 4 then FIELD
             else if at + 4 <= JOURNAL_BYTES then at else JOURNAL_BYTES - 4;
    var changed := data[at := value];
    assert Ext4.ChangedAt(data, changed, k);
    BurstRefused(data, changed, k);
  }

  // The upgrade

  function SetProfile(data: seq<Byte>): (r: seq<Byte>)
    requires |data| == JOURNAL_BYTES
    ensures |r| == JOURNAL_BYTES
  {
    var features := Patch(Patch(Patch(data, 0x24, Be32(0)), 0x28, Be32(FEATURES)), 0x2C, Be32(0));
    Patch(features, 0x50, [CRC32C_TYPE])
  }

  function Sealed(data: seq<Byte>): (r: seq<Byte>)
    requires |data| == JOURNAL_BYTES
    ensures |r| == JOURNAL_BYTES
  {
    var blank := Patch(data, FIELD, Be32(0));
    Patch(blank, FIELD, WordBeBytes(Crc(blank, Ones())))
  }

  /** The upgrade as the source performs it: its own checks, the edits, then the parser. */
  method Upgrade(data: seq<Byte>) returns (r: Result<seq<Byte>, JournalRefusal>)
    ensures r.Ok? <==>
            |data| == JOURNAL_BYTES && GeometryRefusal(data).Ok? && data[0x30..0x40] == Ext4.UUID
    ensures r.Ok? ==> r.value == Sealed(SetProfile(data)) && ParseJournal(r.value).Ok?
  {
    hide ParseJournal, Patch, Be32, Crc, WordBeBytes, U32Be;
    if |data| != JOURNAL_BYTES {
      return Err(WrongSize);
    }
    if U32Be(data, 0x00) != MAGIC {
      return Err(BadMagic);
    }
    if U32Be(data, 0x04) != V2 {
      return Err(NotV2);
    }
    if U32Be(data, 0x0C) != Ext4.BLOCK_BYTES || U32Be(data, 0x14) != 1 {
      return Err(RingGeometry);
    }
    var out := Patch(data, 0x24, Be32(0));
    out := Patch(out, 0x28, Be32(FEATURES));
    out := Patch(out, 0x2C, Be32(0));
    out := Patch(out, 0x50, [CRC32C_TYPE]);
    out := Patch(out, FIELD, Be32(0));
    var crc := Crc32cRaw(out, Ones());
    out := Patch(out, FIELD, WordBeBytes(crc));
    UpgradeParses(data);
    var parsed := ParseJournal(out);
    if parsed.Err? {
      return Err(parsed.error);
    }
    return Ok(out);
  }

  /** Unchanged outside the fields the upgrade writes. */
  ghost predicate SameElsewhere(a: seq<Byte>, b: seq<Byte>) {
    |a| == |b| == JOURNAL_BYTES &&
    forall k :: 0 <= k < JOURNAL_BYTES && !(0x24 <= k < 0x30) && k != 0x50 && !(FIELD <= k < FIELD + 4) ==> a[k] == b[k]
  }

  lemma UpgradeFields(data: seq<Byte>)
    requires |data| == JOURNAL_BYTES
    ensures var out := Sealed(SetProfile(data));
            SameElsewhere(data, out) && ProfileHolds(out) && out[0x50] == CRC32C_TYPE && ChecksumHolds(out)
  {
    hide Crc, Be32, WordBeBytes, WordBe, Patch;
    var out := SetProfile(data);
    ProfileWritten(data);
    SealedFields(out);
    var sealed := Sealed(out);
    assert forall k :: 0 <= k < JOURNAL_BYTES && !(FIELD <= k < FIELD + 4) ==> sealed[k] == out[k];
    SameWord(out, sealed, 0x24);
    SameWord(out, sealed, 0x28);
    SameWord(out, sealed, 0x2C);
  }

  lemma SameWord(a: seq<Byte>, b: seq<Byte>, at: nat)
    requires at + 4 <= |a| && at + 4 <= |b| && forall k :: at <= k < at + 4 ==> a[k] == b[k]
    ensures U32Be(a, at) == U32Be(b, at)
  {
  }

  lemma ProfileWritten(data: seq<Byte>)
    requires |data| == JOURNAL_BYTES
    ensures var out := SetProfile(data);
            && ProfileHolds(out) && out[0x50] == CRC32C_TYPE
            && forall k :: 0 <= k < JOURNAL_BYTES && !(0x24 <= k < 0x30) && k != 0x50 ==> out[k] == data[k]
  {
    hide Be32, U32Be, Patch;
    var (z, f, out) := (Be32(0), Be32(FEATURES), SetProfile(data));
    var a := Patch(data, 0x24, z);
    var b := Patch(a, 0x28, f);
    var c := Patch(b, 0x2C, z);
    WordPatched(data, 0x24, z);
    WordPatched(a, 0x28, f);
    WordPatched(b, 0x2C, z);
    WordAway(a, 0x28, f, 0x24);
    WordAway(b, 0x2C, z, 0x24);
    WordAway(b, 0x2C, z, 0x28);
    WordAway(c, 0x50, [CRC32C_TYPE], 0x24);
    WordAway(c, 0x50, [CRC32C_TYPE], 0x28);
    WordAway(c, 0x50, [CRC32C_TYPE], 0x2C);
  }

  lemma WordPatched(data: seq<Byte>, at: nat, word: seq<Byte>)
    requires |word| == 4 && at + 4 <= |data|
    ensures U32Be(Patch(data, at, word), at) == U32Be(word, 0)
  {
    hide Patch;
  }

  lemma WordAway(data: seq<Byte>, at: nat, b: seq<Byte>, where: nat)
    requires at + |b| <= |data| && where + 4 <= |data| && (where + 4 <= at || at + |b| <= where)
    ensures U32Be(Patch(data, at, b), where) == U32Be(data, where)
  {
    hide Patch;
  }

  lemma SealedFields(data: seq<Byte>)
    requires |data| == JOURNAL_BYTES
    ensures var out := Sealed(data);
            ChecksumHolds(out) && forall k :: 0 <= k < JOURNAL_BYTES && !(FIELD <= k < FIELD + 4) ==> out[k] == data[k]
  {
    hide Crc, Be32, WordBeBytes, WordBe;
    var blank := Patch(data, FIELD, Be32(0));
    var word := WordBeBytes(Crc(blank, Ones()));
    var out := Sealed(data);
    assert out[FIELD..FIELD + 4] == word;
    assert Blanked(out) == blank;
  }

  /** After the upgrade the parser accepts exactly what had the right geometry and identity. */
  lemma UpgradeParses(data: seq<Byte>)
    requires |data| == JOURNAL_BYTES
    ensures ParseJournal(Sealed(SetProfile(data))).Ok? <==> GeometryRefusal(data).Ok? && data[0x30..0x40] == Ext4.UUID
  {
    hide Sealed, SetProfile, ChecksumHolds, ProfileHolds, U32Be, SameElsewhere;
    var out := Sealed(SetProfile(data));
    UpgradeFields(data);
    Elsewhere(data, out);
  }

  lemma Elsewhere(data: seq<Byte>, out: seq<Byte>)
    requires SameElsewhere(data, out)
    ensures GeometryRefusal(data) == GeometryRefusal(out) && data[0x30..0x40] == out[0x30..0x40]
  {
    hide U32Be;
    SameWord(data, out, 0x00);
    SameWord(data, out, 0x04);
    SameWord(data, out, 0x0C);
    SameWord(data, out, 0x10);
    SameWord(data, out, 0x14);
    SameWord(data, out, 0x1C);
  }
}
