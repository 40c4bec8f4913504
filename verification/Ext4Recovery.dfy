// The recovery-marker image: the filesystem superblock marked dirty, the journal superblock still clean
// (prepare_recovery_marker_image in tools/ext4_image.py).

module Ext4Recovery {
  import opened Bytes
  import opened Crc32c
  import opened Ext4
  import Jbd2

  datatype MarkerRefusal = BadSuperblock(superblock: Refusal) | BadJournal(journal: Jbd2.JournalRefusal) | AlreadyDirty
    | NotConstructed

  /** The journal superblock in the given block, or as much of it as the image has. */
  function JournalAt(image: seq<Byte>, block: nat): (data: seq<Byte>) {
    var at := BLOCK_BYTES * block;
    if at > |image| then []
    else if at + Jbd2.JOURNAL_BYTES > |image| then image[at..]
    else image[at..at + Jbd2.JOURNAL_BYTES]
  }

  /** An image whose two superblocks are accepted and which is not yet marked. */
  predicate Markable(image: seq<Byte>, block: nat) {
    && ParseSuperblock(image).Ok? && !ParseSuperblock(image).value.needsRecovery
    && Jbd2.ParseJournal(JournalAt(image, block)).Ok?
  }

  /** No block but the first reaches into the filesystem superblock, and the first not with its journal part. */
  lemma JournalUntouched(image: seq<Byte>, block: nat, sb: seq<Byte>)
    requires |image| >= 2048 && |sb| == 1024
    ensures JournalAt(Patch(image, SUPERBLOCK, sb), block) == JournalAt(image, block)
  {
    var at, marked := BLOCK_BYTES * block, Patch(image, SUPERBLOCK, sb);
    if block > 0 {
      assert at >= BLOCK_BYTES;
    }
    if at <= |image| {
      var end := if at + Jbd2.JOURNAL_BYTES > |image| then |image| else at + Jbd2.JOURNAL_BYTES;
      assert marked[at..end] == image[at..end];
    }
  }

  /** Clones an image at the crash point. It succeeds exactly on an unmarked image whose superblocks are both
      accepted, and its own final test never fails: the clone is accepted, needs recovery, differs in nothing
      else the parser reports but the checksum, and has the same clean journal. */
  method PrepareMarker(image: seq<Byte>, block: nat) returns (r: Result<seq<Byte>, MarkerRefusal>)
    ensures r.Ok? <==> Markable(image, block)
    ensures r.Ok? ==> |image| >= 2048 && U32(image[SUPERBLOCK..2048], 0x60) == 0x20C2
    ensures r.Ok? ==> r.value == Patch(image, SUPERBLOCK, MarkSuperblock(image[SUPERBLOCK..2048]))
    ensures r.Ok? ==> var (a, b) := (ParseSuperblock(image).value, ParseSuperblock(r.value));
                      b.Ok? && b.value == a.(needsRecovery := true, checksum := b.value.checksum)
    ensures r.Ok? ==> JournalAt(r.value, block) == JournalAt(image, block)
    ensures r.Err? ==> r.error != NotConstructed
  {
    hide ParseSuperblock, Jbd2.ParseJournal, JournalAt, Patch, Le32, WordBytes, U32, Crc;
    var report := ParseSuperblock(image);
    if report.Err? {
      return Err(BadSuperblock(report.error));
    }
    var journal := Jbd2.ParseJournal(JournalAt(image, block));
    if journal.Err? {
      return Err(BadJournal(journal.error));
    }
    CleanMask(image);
    if report.value.needsRecovery {
      return Err(AlreadyDirty);
    }
    var superblock := image[SUPERBLOCK..2048];
    superblock := Patch(superblock, 0x60, Le32(U32(superblock, 0x60) + 0x4));
    var crc := Crc32cRaw(superblock[..0x3FC], Ones());
    superblock := Patch(superblock, 0x3FC, WordBytes(crc));
    var output := Patch(image, SUPERBLOCK, superblock);
    MarkerAccepted(image);
    JournalUntouched(image, block, superblock);
    var marked := ParseSuperblock(output);
    var still := Jbd2.ParseJournal(JournalAt(output, block));
    if marked.Err? || still.Err? || !marked.value.needsRecovery {
      return Err(NotConstructed);
    }
    r := Ok(output);
  }

  // An image that can be marked

  function SuperblockByte(k: nat): (b: Byte) {
    if k == 0x00 || k == 0x04 || k == 0x20 || k == 0x28 then 1
    else if k == 0x18 then 2
    else if k == 0x38 then 0x53
    else if k == 0x39 then 0xEF
    else if k == 0x59 then 1
    else if k == 0x5C then 0x2C
    else if k == 0x60 then 0xC2
    else if k == 0x61 then 0x20
    else if k == 0x64 then 0x6B
    else if k == 0x65 then 0x04
    else if 0x68 <= k < 0x78 then UUID[k - 0x68]
    else if 0x78 <= k < 0x7F then LABEL[k - 0x78]
    else 0
  }

  function SampleBody(): (s: seq<Byte>)
    ensures |s| == 0x3FC && forall k :: 0 <= k < 0x3FC ==> s[k] == SuperblockByte(k)
  {
    seq(0x3FC, k requires 0 <= k < 0x3FC => SuperblockByte(k))
  }

  function SampleSuperblock(): (sb: seq<Byte>)
    ensures |sb| == 1024
  {
    SampleBody() + Checksum(SampleBody())
  }

  function Checksum(body: seq<Byte>): (s: seq<Byte>)
    ensures |s| == 4 && Word(s) == Crc(body, Ones())
  {
    WordBytes(Crc(body, Ones()))
  }

  function JournalByte(k: nat): (b: Byte) {
    if k == 0x00 then 0xC0
    else if k == 0x01 then 0x3B
    else if k == 0x02 then 0x39
    else if k == 0x03 then 0x98
    else if k == 0x07 then 4
    else if k == 0x0E then 0x10
    else if k == 0x12 then 4
    else if k == 0x17 then 1
    else if k == 0x2B then 0x13
    else if k == 0x50 then 4
    else if 0x30 <= k < 0x40 then UUID[k - 0x30]
    else 0
  }

  function SampleJournal(): (data: seq<Byte>)
    ensures |data| == Jbd2.JOURNAL_BYTES
  {
    Patch(BlankJournal(), Jbd2.FIELD, Jbd2.WordBeBytes(Crc(BlankJournal(), Ones())))
  }

  function BlankJournal(): (data: seq<Byte>)
    ensures |data| == Jbd2.JOURNAL_BYTES && forall k :: 0 <= k < Jbd2.JOURNAL_BYTES ==> data[k] == JournalByte(k)
  {
    seq(Jbd2.JOURNAL_BYTES, k requires 0 <= k < Jbd2.JOURNAL_BYTES => JournalByte(k))
  }

  /** One block with the filesystem superblock, one with the journal's. */
  function SampleImage(): (image: seq<Byte>)
    ensures |image| == 8192
  {
    hide SampleSuperblock, SampleJournal;
    Zeros(1024) + SampleSuperblock() + Zeros(2048) + SampleJournal() + Zeros(3072)
  }

  lemma {:induction false} UntilZeroAt(s: seq<Byte>, n: nat)
    requires n < |s| && s[n] == 0 && forall k :: 0 <= k < n ==> s[k] != 0
    ensures UntilZero(s) == s[..n]
    decreases n
  {
    if n > 0 {
      UntilZeroAt(s[1..], n - 1);
      assert s[..n] == [s[0]] + s[1..][..n - 1];
    }
  }

  lemma SampleWord(at: nat, a: Byte, b: Byte)
    requires at + 4 <= 0x3FC && SuperblockByte(at) == a && SuperblockByte(at + 1) == b
    requires SuperblockByte(at + 2) == SuperblockByte(at + 3) == 0
    ensures U32(SampleSuperblock(), at) == U16(SampleSuperblock(), at) == a as nat + 256 * b as nat
  {
    hide Checksum, SuperblockByte, SampleBody;
  }

  lemma SampleFeatures()
    ensures var sb := SampleSuperblock();
            && U16(sb, 0x38) == 0xEF53 && Shifted(U32(sb, 0x18)) == BLOCK_BYTES && U32(sb, 0x18) == 2
            && U32(sb, 0x5C) == 0x2C && U32(sb, 0x60) == 0x20C2 && U32(sb, 0x64) == 0x46B
            && FeatureRefusal(sb) == Ok(())
  {
    hide SampleSuperblock, U32, U16, CompatKnown, IncompatKnown, RoCompatKnown, FeaturesPresent;
    SampleWord(0x38, 0x53, 0xEF);
    SampleWord(0x18, 2, 0);
    SampleWord(0x5C, 0x2C, 0);
    SampleWord(0x60, 0xC2, 0x20);
    SampleWord(0x64, 0x6B, 0x04);
    MasksExact(0x2C, 0x20C2, 0x46B);
    assert Shifted(2) == 2 * Shifted(1) == BLOCK_BYTES;
  }

  lemma SampleCounts()
    ensures var sb := SampleSuperblock(); Blocks(sb) == 1 && Free(sb) == 0
  {
    hide SampleSuperblock, U32, U16;
    SampleWord(0x04, 1, 0);
    SampleWord(0x150, 0, 0);
    SampleWord(0x0C, 0, 0);
    SampleWord(0x158, 0, 0);
  }

  lemma SampleInodes()
    ensures var sb := SampleSuperblock();
            && U16(sb, 0x58) == INODE_BYTES && U32(sb, 0x00) == 1 && U32(sb, 0x10) == 0
            && U32(sb, 0x20) == 1 && U32(sb, 0x28) == 1
  {
    hide SampleSuperblock, U32, U16;
    SampleWord(0x58, 0, 1);
    SampleWord(0x00, 1, 0);
    SampleWord(0x10, 0, 0);
    SampleWord(0x20, 1, 0);
    SampleWord(0x28, 1, 0);
  }

  lemma SampleGeometry()
    ensures GeometryRefusal(SampleSuperblock(), 8192) == Ok(())
  {
    hide SampleSuperblock, U32, U16, Blocks, Free;
    SampleCounts();
    SampleInodes();
  }

  lemma SampleChecksum()
    ensures ChecksumHolds(SampleSuperblock())
  {
    hide Crc, Word, Checksum, SampleBody;
    var sb, body := SampleSuperblock(), SampleBody();
    assert sb[..0x3FC] == body && sb[0x3FC..] == Checksum(body);
  }

  lemma SampleUuid()
    ensures SampleSuperblock()[0x68..0x78] == UUID
  {
    hide Checksum, SampleBody;
    var sb := SampleSuperblock();
    forall k | 0 <= k < 16
      ensures sb[0x68 + k] == UUID[k]
    {
      assert sb[0x68 + k] == SuperblockByte(0x68 + k);
    }
  }

  lemma SampleLabelByte(k: nat)
    requires k < 8
    ensures SampleSuperblock()[0x78 + k] == if k < 7 then LABEL[k] else 0
  {
    hide Checksum, SampleBody;
    assert SampleSuperblock()[0x78 + k] == SuperblockByte(0x78 + k);
  }

  lemma SampleLabel()
    ensures UntilZero(SampleSuperblock()[0x78..0x88]) == LABEL
  {
    hide SampleSuperblock, UntilZero;
    var sb := SampleSuperblock();
    var name := sb[0x78..0x88];
    forall k | 0 <= k < 8
      ensures name[k] == if k < 7 then LABEL[k] else 0
    {
      SampleLabelByte(k);
    }
    assert name[..7] == LABEL;
    UntilZeroAt(name, 7);
  }

  lemma SampleIdentity()
    ensures IdentityRefusal(SampleSuperblock()) == Ok(())
  {
    hide SampleSuperblock, UntilZero;
    SampleUuid();
    SampleLabel();
  }

  /** The refusal theorems speak of something: this superblock is accepted. */
  lemma SampleAccepted()
    ensures ParseSuperblock(SampleImage()).Ok? && !ParseSuperblock(SampleImage()).value.needsRecovery
  {
    hide SampleSuperblock, SampleJournal, FeatureRefusal, GeometryRefusal, IdentityRefusal, ChecksumHolds, U32, U16, Shifted;
    var sb := SampleSuperblock();
    assert SampleImage()[SUPERBLOCK..2048] == sb;
    SampleFeatures();
    SampleGeometry();
    SampleIdentity();
    SampleChecksum();
  }

  lemma SampleJournalAccepted()
    ensures Jbd2.ParseJournal(SampleJournal()).Ok?
  {
    hide Crc, WordBytes, Word, Jbd2.WordBeBytes, Jbd2.WordBe, BlankJournal;
    var data := SampleJournal();
    var blank := BlankJournal();
    assert forall k :: 0 <= k < Jbd2.JOURNAL_BYTES && !(Jbd2.FIELD <= k < Jbd2.FIELD + 4) ==> data[k] == JournalByte(k);
    assert data[0x30..0x40] == UUID;
    assert Jbd2.Blanked(data) == blank;
    assert data[Jbd2.FIELD..Jbd2.FIELD + 4] == Jbd2.WordBeBytes(Crc(blank, Ones()));
  }

  /** There is an image that can be marked. */
  lemma SampleMarkable()
    ensures Markable(SampleImage(), 1)
  {
    hide SampleSuperblock, SampleJournal, ParseSuperblock, Jbd2.ParseJournal;
    SampleAccepted();
    SampleJournalAccepted();
    assert JournalAt(SampleImage(), 1) == SampleJournal();
  }
}
