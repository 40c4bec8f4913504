// Where the staging checks and the inspector disagree: fifteen files, or fifteen namespaces, pass the checks,
// fill the root directory to its last slot, and leave no room for the end marker (tools/fat32_image.py).

module FatLimits {
  import opened Bytes
  import opened FatChain
  import opened FatDirectory
  import opened FatInspector
  import opened FatGeometry
  import opened FatFormat
  import opened FatNames
  import opened FatLayout
  import opened FatPlan
  import opened FatVolume
  import opened FatPopulate
  import opened FatTreeStage

  /** The names A to O. */
  function Letter(i: nat): (b: Byte)
    requires i < 15
  {
    (0x41 + i) as Byte
  }

  const FIFTEEN_FILES: seq<Upload> := seq(15, i requires 0 <= i < 15 => Upload([Letter(i)], [1]))
  const FIFTEEN_NAMESPACES: seq<Upload> := seq(15, i requires 0 <= i < 15 => Upload([Letter(i), SLASH, Letter(i)], [1]))

  lemma LetterNamed(i: nat)
    requires i < 15
    ensures ShortNameBytes([Letter(i)]) == Ok(Padded([Letter(i)], 8) + Padded([], 3))
  {
    hide Padded;
    var s := [Letter(i)];
    BaseOfPrefix(s, 1);
    assert s[..1] == s && s + [] == s;
  }

  lemma LettersDiffer(i: nat, j: nat)
    requires i < j < 15
    ensures ShortNameBytes([Letter(i)]) != ShortNameBytes([Letter(j)])
  {
    hide ShortNameBytes;
    LetterNamed(i);
    LetterNamed(j);
    assert (Padded([Letter(i)], 8) + Padded([], 3))[0] == Letter(i);
    assert (Padded([Letter(j)], 8) + Padded([], 3))[0] == Letter(j);
  }

  lemma {:induction false} OneBlockEach(us: seq<Upload>)
    requires forall i :: 0 <= i < |us| ==> us[i].payload == [1]
    ensures SumBlocks(us) == |us|
    decreases |us|
  {
    if us != [] {
      OneBlockEach(us[..|us| - 1]);
    }
  }

  /** Fifteen one-letter files pass every check of populate_data_files, and the finished image is refused. */
  lemma FifteenFilesRefused(image: seq<Byte>)
    ensures FilesOk(FIFTEEN_FILES) && PlanOk(FilesPlan(FIFTEEN_FILES))
    ensures Finished(image, DATA_VOLUME_ID, FilesPlan(FIFTEEN_FILES)) ==> InspectImage(image) == Err(NoEndMarker)
  {
    hide ShortNameBytes, Finished, InspectImage, PlanOk, RootSlots;
    var us := FIFTEEN_FILES;
    forall i | 0 <= i < 15
      ensures UploadOk(us[i])
    {
      LetterNamed(i);
    }
    forall i, j | 0 <= i < j < 15
      ensures ShortNameBytes(us[i].name) != ShortNameBytes(us[j].name)
    {
      LettersDiffer(i, j);
    }
    OneBlockEach(us);
    FilesPlanOk(us);
    if Finished(image, DATA_VOLUME_ID, FilesPlan(us)) {
      FinishedInspected(image, DATA_VOLUME_ID, FilesPlan(us));
    }
  }

  lemma NamespacePath(i: nat)
    requires i < 15
    ensures var u := FIFTEEN_NAMESPACES[i];
            && PathOk(u) && BeforeSlash(u.name) == AfterSlash(u.name) == [Letter(i)]
            && MemberOf(u).directory == MemberOf(u).file.name == ShortNameBytes([Letter(i)]).value
            && MemberOf(u).file.payload == [1]
  {
    hide ShortNameBytes;
    var s := FIFTEEN_NAMESPACES[i].name;
    assert s[0] == Letter(i) != SLASH && s[1..][0] == SLASH;
    assert BeforeSlash(s) == [Letter(i)] + BeforeSlash(s[1..]) == [Letter(i)];
    assert s[2..] == [Letter(i)];
    LetterNamed(i);
  }

  /** With every directory named once, there are as many directories as files and no group has two. */
  lemma {:induction false} OneEach(ms: seq<Member>, d: seq<Byte>)
    requires forall i, j :: 0 <= i < j < |ms| ==> ms[i].directory != ms[j].directory
    requires forall i :: 0 <= i < |ms| ==> Blocks(ms[i].file.payload) == 1
    ensures |Directories(ms)| == |ms| == SumMembers(ms)
    ensures |Group(ms, d)| <= 1 && (Group(ms, d) != [] ==> exists i :: 0 <= i < |ms| && ms[i].directory == d)
    decreases |ms|
  {
    hide Blocks;
    if ms != [] {
      var n := |ms| - 1;
      OneEach(ms[..n], d);
      DirectoriesExact(ms[..n]);
    }
  }

  lemma FifteenMembers()
    ensures AllPathsOk(FIFTEEN_NAMESPACES)
    ensures var ms := MembersOf(FIFTEEN_NAMESPACES);
            && (forall i, j :: 0 <= i < j < |ms| ==> ms[i].directory != ms[j].directory)
            && (forall i :: 0 <= i < |ms| ==> Blocks(ms[i].file.payload) == 1)
  {
    hide PathOk, MemberOf, ShortNameBytes;
    var us := FIFTEEN_NAMESPACES;
    forall i | 0 <= i < 15
      ensures PathOk(us[i]) && Blocks(MemberOf(us[i]).file.payload) == 1
    {
      NamespacePath(i);
    }
    forall i, j | 0 <= i < j < 15
      ensures MemberOf(us[i]).directory != MemberOf(us[j]).directory
    {
      NamespacePath(i);
      NamespacePath(j);
      LetterNamed(i);
      LetterNamed(j);
      LettersDiffer(i, j);
    }
  }

  /** Fifteen one-file namespaces pass every check of populate_data_tree, and the finished image is refused. */
  lemma FifteenNamespacesRefused(image: seq<Byte>)
    ensures TreeOk(FIFTEEN_NAMESPACES) && PlanOk(TreePlan(MembersOf(FIFTEEN_NAMESPACES)))
    ensures Finished(image, DATA_VOLUME_ID, TreePlan(MembersOf(FIFTEEN_NAMESPACES))) ==> InspectImage(image) == Err(NoEndMarker)
  {
    hide Finished, InspectImage, PlanOk, RootSlots, MembersOf, Directories, Group, SumMembers, TreeDirs, PathOk;
    FifteenMembers();
    var ms := MembersOf(FIFTEEN_NAMESPACES);
    forall d
      ensures |Directories(ms)| == |ms| == SumMembers(ms) && |Group(ms, d)| <= 1
    {
      OneEach(ms, d);
    }
    OneEach(ms, []);
    TreePlanOk(FIFTEEN_NAMESPACES);
    if Finished(image, DATA_VOLUME_ID, TreePlan(ms)) {
      FinishedInspected(image, DATA_VOLUME_ID, TreePlan(ms));
    }
  }
}
