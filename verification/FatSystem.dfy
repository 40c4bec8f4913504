// The system volume: the measured BusyBox profiles, extra root files and one level of resource directories
// (tools/fat32_image.py, build_image for the system role).

module FatSystem {
  import opened Bytes
  import opened FatChain
  import opened FatDirectory
  import opened FatTree
  import opened FatInspector
  import opened FatGeometry
  import opened FatFormat
  import opened FatNames
  import opened FatLayout
  import opened FatPlan
  import opened FatStore
  import opened FatExact
  import opened FatAllocate
  import opened FatVolume
  import opened FatPopulate
  import opened FatTreeStage
  import opened Sorting

  /** A legacy profile: its bytes, and whether their SHA-256 digest and ELF header are the measured ones. */
  datatype Binary = Binary(payload: seq<Byte>, measured: bool)

  const BUSYBOX: Text := [0x42, 0x55, 0x53, 0x59, 0x42, 0x4F, 0x58]
  const UNAMEBOX: Text := [0x55, 0x4E, 0x41, 0x4D, 0x45, 0x42, 0x4F, 0x58]
  const CATBOX: Text := [0x43, 0x41, 0x54, 0x42, 0x4F, 0x58]
  const PROFILE_NAMES: seq<Text> := [BUSYBOX, UNAMEBOX, CATBOX]
  const PROFILE_SIZES: seq<nat> := [33_584, 38_368, 38_632]

  predicate ProfilesOk(bs: seq<Binary>) {
    bs == [] || (|bs| == 3 && forall i :: 0 <= i < 3 ==> |bs[i].payload| == PROFILE_SIZES[i] && bs[i].measured)
  }

  /** The profiles as files of the root directory. */
  function Profiles(bs: seq<Binary>): (us: seq<Upload>)
    requires |bs| <= 3
    ensures |us| == |bs|
  {
    seq(|bs|, i requires 0 <= i < |bs| => Upload(PROFILE_NAMES[i], bs[i].payload))
  }

  // What the formatter demands of its files

  predicate IsRoot(u: Upload) {
    SLASH !in u.name
  }

  /** A root file, or a file one directory down. */
  predicate ExtraOk(u: Upload) {
    if IsRoot(u) then UploadOk(u) else PathOk(u)
  }

  predicate AllExtrasOk(us: seq<Upload>) {
    forall i :: 0 <= i < |us| ==> ExtraOk(us[i])
  }

  /** The name a file occupies in the root directory: its own or its directory's. */
  function RootKey(u: Upload): (n: seq<Byte>) {
    var r := ShortNameBytes(BeforeSlash(u.name));
    if r.Ok? then r.value else []
  }

  function LeafKey(u: Upload): (n: seq<Byte>) {
    if !OneSlash(u.name) then []
    else
      var r := ShortNameBytes(AfterSlash(u.name));
      if r.Ok? then r.value else []
  }

  /** Two files that cannot be on one volume: the same root name, unless it is a directory for both and they
      have different names in it. */
  predicate Clash(u: Upload, v: Upload) {
    RootKey(u) == RootKey(v) && (IsRoot(u) || IsRoot(v) || LeafKey(u) == LeafKey(v))
  }

  predicate Apart(us: seq<Upload>) {
    forall i, j :: 0 <= i < j < |us| ==> !Clash(us[i], us[j])
  }

  function RootExtras(us: seq<Upload>): (r: seq<Upload>)
    ensures forall u :: u in r <==> u in us && IsRoot(u)
  {
    if us == [] then []
    else
      var n := |us| - 1;
      assert us == us[..n] + [us[n]];
      RootExtras(us[..n]) + if IsRoot(us[n]) then [us[n]] else []
  }

  function TreeExtras(us: seq<Upload>): (r: seq<Upload>)
    ensures forall u :: u in r <==> u in us && !IsRoot(u)
  {
    if us == [] then []
    else
      var n := |us| - 1;
      assert us == us[..n] + [us[n]];
      TreeExtras(us[..n]) + if IsRoot(us[n]) then [] else [us[n]]
  }

  lemma ExtrasOk(us: seq<Upload>)
    requires AllExtrasOk(us)
    ensures AllUploadsOk(RootExtras(us)) && AllPathsOk(TreeExtras(us))
  {
    hide RootExtras, TreeExtras, UploadOk, PathOk;
    forall u | u in us
      ensures ExtraOk(u)
    {
    }
    forall i | 0 <= i < |RootExtras(us)|
      ensures UploadOk(RootExtras(us)[i])
    {
      assert RootExtras(us)[i] in RootExtras(us);
    }
    forall i | 0 <= i < |TreeExtras(us)|
      ensures PathOk(TreeExtras(us)[i])
    {
      assert TreeExtras(us)[i] in TreeExtras(us);
    }
  }

  function ExtraFiles(us: seq<Upload>): (files: seq<Staged>)
    requires AllExtrasOk(us)
    ensures |files| == |RootExtras(us)|
  {
    ExtrasOk(us);
    StagedOf(RootExtras(us))
  }

  function ExtraMembers(us: seq<Upload>): (ms: seq<Member>)
    requires AllExtrasOk(us)
    ensures |ms| == |TreeExtras(us)|
  {
    ExtrasOk(us);
    MembersOf(TreeExtras(us))
  }

  function SystemPlan(us: seq<Upload>): (p: Plan)
    requires AllExtrasOk(us)
  {
    Plan(SYSTEM_LABEL, SYSTEM_ATTRIBUTE, ExtraFiles(us), TreeDirs(ExtraMembers(us)))
  }

  /** Profiles and extra files together fit: in their names, their directories, the root directory and the
      volume. */
  ghost predicate Fitting(us: seq<Upload>) {
    && AllExtrasOk(us) && Apart(us)
    && var ms := ExtraMembers(us);
    && (forall d :: d in Directories(ms) ==> |Group(ms, d)| <= 13)
    && |RootExtras(us)| + |Directories(ms)| <= 14
    && SumBlocks(RootExtras(us)) + |Directories(ms)| + SumMembers(ms) <= 129_021
  }

  ghost predicate SystemOk(bs: seq<Binary>, us: seq<Upload>) {
    ProfilesOk(bs) && Fitting(Profiles(bs) + us)
  }

  // Keys

  lemma {:induction false} NoSlash(s: Text)
    requires SLASH !in s
    ensures BeforeSlash(s) == s
    decreases |s|
  {
    if s != [] {
      NoSlash(s[1..]);
    }
  }

  lemma RootKeyed(u: Upload)
    requires ExtraOk(u)
    ensures IsRoot(u) ==> ShortNameBytes(u.name) == Ok(RootKey(u))
    ensures !IsRoot(u) ==> MemberOf(u) == Member(RootKey(u), Staged(LeafKey(u), u.payload))
  {
    hide ShortNameBytes, AfterSlash, BeforeSlash;
    if IsRoot(u) {
      NoSlash(u.name);
    }
  }

  lemma ProfileNamed(i: nat)
    requires i < 3
    ensures ShortNameBytes(PROFILE_NAMES[i]) == Ok(Padded(PROFILE_NAMES[i], 8) + Padded([], 3))
    ensures SLASH !in PROFILE_NAMES[i]
  {
    hide Padded;
    var s := PROFILE_NAMES[i];
    assert AllAllowed(s);
    BaseOfPrefix(s, |s|);
    assert s[..|s|] == s && s + [] == s;
  }

  lemma ProfileApart(i: nat, j: nat)
    requires i < j < 3
    ensures ShortNameBytes(PROFILE_NAMES[i]) != ShortNameBytes(PROFILE_NAMES[j])
  {
    hide ShortNameBytes;
    ProfileNamed(i);
    ProfileNamed(j);
    var a, b := Padded(PROFILE_NAMES[i], 8) + Padded([], 3), Padded(PROFILE_NAMES[j], 8) + Padded([], 3);
    assert a[0] == PROFILE_NAMES[i][0] && b[0] == PROFILE_NAMES[j][0];
  }

  /** The profiles never stand in each other's way. */
  lemma ProfilesFit(bs: seq<Binary>)
    requires ProfilesOk(bs)
    ensures AllExtrasOk(Profiles(bs)) && Apart(Profiles(bs)) && RootExtras(Profiles(bs)) == Profiles(bs)
    ensures TreeExtras(Profiles(bs)) == []
  {
    hide ShortNameBytes, BeforeSlash;
    var us := Profiles(bs);
    forall i | 0 <= i < |us|
      ensures ExtraOk(us[i]) && IsRoot(us[i])
    {
      ProfileNamed(i);
    }
    forall i, j | 0 <= i < j < |us|
      ensures !Clash(us[i], us[j])
    {
      ProfileApart(i, j);
      RootKeyed(us[i]);
      RootKeyed(us[j]);
    }
    AllRoot(us);
  }

  lemma NoExtras()
    ensures RootExtras([]) == [] && TreeExtras([]) == []
  {
  }

  lemma {:induction false} AllRoot(us: seq<Upload>)
    requires forall i :: 0 <= i < |us| ==> IsRoot(us[i])
    ensures RootExtras(us) == us && TreeExtras(us) == []
    decreases |us|
  {
    hide IsRoot, RootExtras, TreeExtras;
    if us == [] {
      NoExtras();
    } else {
      var n := |us| - 1;
      AllRoot(us[..n]);
      SplitSnoc(us[..n], us[n]);
      assert us == us[..n] + [us[n]];
    }
  }

  // The plan is in order

  lemma {:induction false} RootsApart(us: seq<Upload>)
    requires AllExtrasOk(us) && Apart(us)
    ensures forall i, j :: 0 <= i < j < |RootExtras(us)| ==> RootKey(RootExtras(us)[i]) != RootKey(RootExtras(us)[j])
    decreases |us|
  {
    hide RootKey, LeafKey, ExtraOk;
    if us != [] {
      var n := |us| - 1;
      RootsApart(us[..n]);
      var r := RootExtras(us[..n]);
      if IsRoot(us[n]) {
        forall i | 0 <= i < |r|
          ensures RootKey(r[i]) != RootKey(us[n])
        {
          var k := IndexOf(us[..n], r[i]);
          assert !Clash(us[k], us[n]);
        }
      }
    }
  }

  lemma IndexOf(us: seq<Upload>, u: Upload) returns (k: nat)
    requires u in us
    ensures k < |us| && us[k] == u
  {
    k :| 0 <= k < |us| && us[k] == u;
  }

  lemma {:induction false} MembersApart(us: seq<Upload>)
    requires AllExtrasOk(us) && Apart(us)
    ensures forall i, j :: 0 <= i < j < |TreeExtras(us)| ==>
              RootKey(TreeExtras(us)[i]) != RootKey(TreeExtras(us)[j]) || LeafKey(TreeExtras(us)[i]) != LeafKey(TreeExtras(us)[j])
    decreases |us|
  {
    hide RootKey, LeafKey, ExtraOk;
    if us != [] {
      var n := |us| - 1;
      MembersApart(us[..n]);
      var r := TreeExtras(us[..n]);
      if !IsRoot(us[n]) {
        forall i | 0 <= i < |r|
          ensures RootKey(r[i]) != RootKey(us[n]) || LeafKey(r[i]) != LeafKey(us[n])
        {
          var k := IndexOf(us[..n], r[i]);
          assert !Clash(us[k], us[n]);
        }
      }
    }
  }

  lemma ExtraAt(us: seq<Upload>, i: nat)
    requires AllExtrasOk(us) && i < |RootExtras(us)|
    ensures ExtraFiles(us)[i] == Staged(RootKey(RootExtras(us)[i]), RootExtras(us)[i].payload)
    ensures StagedOk(ExtraFiles(us)[i]) && RootExtras(us)[i] in us && IsRoot(RootExtras(us)[i])
  {
    hide RootExtras, RootKey, ShortNameBytes, ShortName;
    ExtrasOk(us);
    var u := RootExtras(us)[i];
    assert u in RootExtras(us);
    var k := IndexOf(us, u);
    RootKeyed(us[k]);
    UploadStaged(u);
  }

  lemma MemberAt(us: seq<Upload>, i: nat)
    requires AllExtrasOk(us) && i < |TreeExtras(us)|
    ensures var u := TreeExtras(us)[i];
            ExtraMembers(us)[i] == Member(RootKey(u), Staged(LeafKey(u), u.payload)) && u in us && !IsRoot(u)
  {
    hide TreeExtras, RootKey, LeafKey, MemberOf;
    ExtrasOk(us);
    var u := TreeExtras(us)[i];
    assert u in TreeExtras(us);
    var k := IndexOf(us, u);
    RootKeyed(us[k]);
  }

  lemma ExtrasUnique(us: seq<Upload>)
    requires AllExtrasOk(us) && Apart(us)
    ensures UniqueMembers(ExtraMembers(us))
  {
    hide AllExtrasOk, Apart, TreeExtras, RootKey, LeafKey, ExtraMembers;
    MembersApart(us);
    forall i, j | 0 <= i < j < |TreeExtras(us)|
      ensures ExtraMembers(us)[i].directory != ExtraMembers(us)[j].directory
           || ExtraMembers(us)[i].file.name != ExtraMembers(us)[j].file.name
    {
      MemberAt(us, i);
      MemberAt(us, j);
    }
  }

  /** No root file has the name of a directory. */
  lemma FileNotDirectory(us: seq<Upload>, i: nat, d: seq<Byte>)
    requires AllExtrasOk(us) && Apart(us) && i < |RootExtras(us)| && d in Directories(ExtraMembers(us))
    ensures ExtraFiles(us)[i].name != d
  {
    hide AllExtrasOk, RootExtras, TreeExtras, RootKey, LeafKey, ExtraMembers, ExtraFiles, Directories;
    DirectoriesExact(ExtraMembers(us));
    var k :| 0 <= k < |ExtraMembers(us)| && ExtraMembers(us)[k].directory == d;
    ExtraAt(us, i);
    MemberAt(us, k);
    var a := IndexOf(us, RootExtras(us)[i]);
    var b := IndexOf(us, TreeExtras(us)[k]);
    assert a < b ==> !Clash(us[a], us[b]);
    assert b < a ==> !Clash(us[b], us[a]);
  }

  lemma SystemNames(us: seq<Upload>)
    requires AllExtrasOk(us) && Apart(us)
    ensures var p := SystemPlan(us);
            forall i, j :: 0 <= i < j < |p.files| + |p.dirs| ==> RootName(p, i) != RootName(p, j)
  {
    hide AllExtrasOk, Apart, RootExtras, TreeExtras, RootKey, ExtraMembers, ExtraFiles, Directories, Group, Sort;
    var p, ms := SystemPlan(us), ExtraMembers(us);
    var names := TreeNames(ms);
    RootsApart(us);
    forall i, j | 0 <= i < j < |p.files| + |p.dirs|
      ensures RootName(p, i) != RootName(p, j)
    {
      if j < |p.files| {
        ExtraAt(us, i);
        ExtraAt(us, j);
      } else if i < |p.files| {
        assert names[j - |p.files|] in names;
        FileNotDirectory(us, i, names[j - |p.files|]);
      } else {
        assert NameKey(names[i - |p.files|]) != NameKey(names[j - |p.files|]);
      }
    }
  }

  lemma SystemLabel()
    ensures IsLabel(SYSTEM_LABEL)
  {
  }

  lemma SystemPlanOk(us: seq<Upload>)
    requires Fitting(us)
    ensures AllExtrasOk(us) && PlanOk(SystemPlan(us)) && |RootSlots(SystemPlan(us))| < SLOTS
    ensures UsedBy(SystemPlan(us))
            == 1 + SumBlocks(RootExtras(us)) + |Directories(ExtraMembers(us))| + SumMembers(ExtraMembers(us))
  {
    hide Apart, ExtraOk, Shape, Start, PackageOk, StagedOk, RootSlots, SumMembers, SumDirs, SumFiles, Group, Directories, Sort,
         MembersOf, RootName, TreeDirs, RootExtras, TreeExtras, AllUploadsOk, AllPathsOk;
    var p, ms := SystemPlan(us), ExtraMembers(us);
    ExtrasOk(us);
    ExtrasUnique(us);
    forall i | 0 <= i < |p.files|
      ensures StagedOk(p.files[i])
    {
      ExtraAt(us, i);
    }
    forall d | 0 <= d < |p.dirs|
      ensures PackageOk(p.dirs[d])
    {
      TreePackageOk(TreeExtras(us), d);
    }
    PlanEnds(p);
    StagedSum(RootExtras(us));
    TreeSumAll(ms);
    SystemLabel();
    SystemNames(us);
  }

  // Preparation

  ghost predicate UsesRoot(us: seq<Upload>, n: seq<Byte>) {
    exists i :: 0 <= i < |us| && IsRoot(us[i]) && RootKey(us[i]) == n
  }

  /** The loop state of the preparation. */
  ghost predicate Gathered(us: seq<Upload>, prepared: seq<Staged>, occupied: set<seq<Byte>>, order: seq<seq<Byte>>,
                           grouped: map<seq<Byte>, seq<Staged>>, pairs: set<(seq<Byte>, seq<Byte>)>, total: nat) {
    && AllExtrasOk(us) && Apart(us)
    && prepared == ExtraFiles(us)
    && Collected(ExtraMembers(us), order, grouped, pairs, total)
    && forall n :: n in occupied <==> UsesRoot(us, n)
  }

  lemma ExtrasSnoc(us: seq<Upload>, u: Upload)
    requires AllExtrasOk(us) && ExtraOk(u)
    ensures AllExtrasOk(us + [u])
    ensures ExtraFiles(us + [u]) == ExtraFiles(us) + if IsRoot(u) then [Staged(RootKey(u), u.payload)] else []
    ensures ExtraMembers(us + [u]) == ExtraMembers(us) + if IsRoot(u) then [] else [MemberOf(u)]
  {
    hide RootKey, ShortNameBytes, PathOk, UploadOk, MemberOf, RootExtras, TreeExtras;
    var all := us + [u];
    ExtrasOk(us);
    ExtrasOk(all);
    RootKeyed(u);
    SplitSnoc(us, u);
    if IsRoot(u) {
      assert StagedOf(RootExtras(us) + [u]) == StagedOf(RootExtras(us)) + [Staged(RootKey(u), u.payload)];
    } else {
      assert MembersOf(TreeExtras(us) + [u]) == MembersOf(TreeExtras(us)) + [MemberOf(u)];
    }
  }

  lemma SplitSnoc(us: seq<Upload>, u: Upload)
    ensures RootExtras(us + [u]) == RootExtras(us) + if IsRoot(u) then [u] else []
    ensures TreeExtras(us + [u]) == TreeExtras(us) + if IsRoot(u) then [] else [u]
  {
    assert (us + [u])[..|us|] == us;
  }

  /** What the sets of the preparation say about the files so far. */
  lemma GroupedMeans(us: seq<Upload>, prepared: seq<Staged>, occupied: set<seq<Byte>>, order: seq<seq<Byte>>,
                     grouped: map<seq<Byte>, seq<Staged>>, pairs: set<(seq<Byte>, seq<Byte>)>, total: nat)
    requires Gathered(us, prepared, occupied, order, grouped, pairs, total)
    ensures forall d :: d in grouped <==> exists i :: 0 <= i < |us| && !IsRoot(us[i]) && RootKey(us[i]) == d
    ensures forall k :: k in pairs <==> exists i :: 0 <= i < |us| && !IsRoot(us[i]) && k == (RootKey(us[i]), LeafKey(us[i]))
  {
    hide AllExtrasOk, Apart, TreeExtras, RootKey, LeafKey, ExtraMembers, ExtraFiles, Directories, Group, SumMembers, UsesRoot;
    var ms := ExtraMembers(us);
    DirectoriesExact(ms);
    forall k | 0 <= k < |ms|
      ensures exists i :: 0 <= i < |us| && !IsRoot(us[i]) && us[i] == TreeExtras(us)[k]
      ensures ms[k].directory == RootKey(TreeExtras(us)[k]) && ms[k].file.name == LeafKey(TreeExtras(us)[k])
    {
      MemberAt(us, k);
      var i := IndexOf(us, TreeExtras(us)[k]);
    }
    forall i | 0 <= i < |us| && !IsRoot(us[i])
      ensures exists k :: 0 <= k < |ms| && TreeExtras(us)[k] == us[i]
    {
      assert us[i] in TreeExtras(us);
      var k := IndexOf(TreeExtras(us), us[i]);
    }
  }

  lemma ApartSnoc(us: seq<Upload>, u: Upload)
    requires Apart(us) && forall i :: 0 <= i < |us| ==> !Clash(us[i], u)
    ensures Apart(us + [u])
  {
    hide Clash;
    var all := us + [u];
    forall i, j | 0 <= i < j < |all|
      ensures !Clash(all[i], all[j])
    {
      assert all[i] == us[i] && (j < |us| ==> all[j] == us[j]);
    }
  }

  lemma UsesSnoc(us: seq<Upload>, u: Upload, n: seq<Byte>)
    ensures UsesRoot(us + [u], n) <==> UsesRoot(us, n) || (IsRoot(u) && RootKey(u) == n)
  {
    hide RootKey;
    var all := us + [u];
    if i :| 0 <= i < |all| && IsRoot(all[i]) && RootKey(all[i]) == n {
      assert i < |us| ==> us[i] == all[i];
    }
    if i :| 0 <= i < |us| && IsRoot(us[i]) && RootKey(us[i]) == n {
      assert all[i] == us[i];
    }
    assert all[|us|] == u;
  }

  /** A root file whose name is free joins the files. */
  lemma GatherRoot(us: seq<Upload>, prepared: seq<Staged>, occupied: set<seq<Byte>>, order: seq<seq<Byte>>,
                   grouped: map<seq<Byte>, seq<Staged>>, pairs: set<(seq<Byte>, seq<Byte>)>, total: nat, u: Upload)
    requires Gathered(us, prepared, occupied, order, grouped, pairs, total)
    requires ExtraOk(u) && IsRoot(u) && RootKey(u) !in occupied && RootKey(u) !in grouped
    ensures Gathered(us + [u], prepared + [Staged(RootKey(u), u.payload)], occupied + {RootKey(u)}, order, grouped, pairs, total)
  {
    hide AllExtrasOk, Apart, RootKey, LeafKey, ExtraMembers, ExtraFiles, Collected, UsesRoot, ExtraOk;
    GroupedMeans(us, prepared, occupied, order, grouped, pairs, total);
    forall i | 0 <= i < |us|
      ensures !Clash(us[i], u)
    {
      if RootKey(us[i]) == RootKey(u) && IsRoot(us[i]) {
        Uses(us, i);
        assert false;
      }
    }
    ApartSnoc(us, u);
    ExtrasSnoc(us, u);
    forall n
      ensures n in occupied + {RootKey(u)} <==> UsesRoot(us + [u], n)
    {
      UsesSnoc(us, u, n);
    }
    assert ExtraMembers(us) + [] == ExtraMembers(us);
  }

  lemma Uses(us: seq<Upload>, i: nat)
    requires i < |us| && IsRoot(us[i])
    ensures UsesRoot(us, RootKey(us[i]))
  {
  }

  /** A file whose directory is not a root file and which that directory does not yet hold joins its group. */
  lemma GatherMember(us: seq<Upload>, prepared: seq<Staged>, occupied: set<seq<Byte>>, order: seq<seq<Byte>>,
                     grouped: map<seq<Byte>, seq<Staged>>, pairs: set<(seq<Byte>, seq<Byte>)>, total: nat, u: Upload)
    requires Gathered(us, prepared, occupied, order, grouped, pairs, total)
    requires ExtraOk(u) && !IsRoot(u) && RootKey(u) !in occupied && (RootKey(u), LeafKey(u)) !in pairs
    ensures PathOk(u)
    ensures var m := MemberOf(u);
            var order' := if m.directory in grouped then order else order + [m.directory];
            var grouped' := grouped[m.directory := (if m.directory in grouped then grouped[m.directory] else []) + [m.file]];
            Gathered(us + [u], prepared, occupied, order', grouped', pairs + {(m.directory, m.file.name)},
                     total + Blocks(m.file.payload))
  {
    hide AllExtrasOk, Apart, RootKey, LeafKey, ExtraMembers, ExtraFiles, Collected, UsesRoot, PathOk, MemberOf, Blocks;
    GroupedMeans(us, prepared, occupied, order, grouped, pairs, total);
    forall i | 0 <= i < |us|
      ensures !Clash(us[i], u)
    {
      if RootKey(us[i]) == RootKey(u) && IsRoot(us[i]) {
        Uses(us, i);
        assert false;
      }
    }
    ApartSnoc(us, u);
    ExtrasSnoc(us, u);
    RootKeyed(u);
    ExtrasUnique(us);
    CollectStep(ExtraMembers(us), order, grouped, pairs, total, MemberOf(u));
    forall n
      ensures n in occupied <==> UsesRoot(us + [u], n)
    {
      UsesSnoc(us, u, n);
    }
    assert ExtraFiles(us) + [] == ExtraFiles(us);
  }

  /** A name already taken is a clash with an earlier file. */
  lemma RootClash(all: seq<Upload>, k: nat, prepared: seq<Staged>, occupied: set<seq<Byte>>, order: seq<seq<Byte>>,
                  grouped: map<seq<Byte>, seq<Staged>>, pairs: set<(seq<Byte>, seq<Byte>)>, total: nat)
    requires k < |all| && Gathered(all[..k], prepared, occupied, order, grouped, pairs, total)
    requires if IsRoot(all[k]) then RootKey(all[k]) in occupied || RootKey(all[k]) in grouped
             else RootKey(all[k]) in occupied || (RootKey(all[k]), LeafKey(all[k])) in pairs
    ensures !Apart(all)
  {
    hide AllExtrasOk, RootKey, LeafKey, ExtraMembers, ExtraFiles, Collected;
    GroupedMeans(all[..k], prepared, occupied, order, grouped, pairs, total);
    var i :| 0 <= i < k && Clash(all[..k][i], all[k]);
    assert Clash(all[i], all[k]);
  }

  /** The names some files take in the root directory. */
  function NamesIn(files: seq<Staged>): (names: set<seq<Byte>>) {
    set f | f in files :: f.name
  }

  lemma NothingGathered(bs: seq<Binary>)
    requires ProfilesOk(bs)
    ensures AllExtrasOk(Profiles(bs))
    ensures Gathered(Profiles(bs), ExtraFiles(Profiles(bs)), NamesIn(ExtraFiles(Profiles(bs))), [], map[], {}, 0)
  {
    hide AllExtrasOk, Apart, RootKey, ExtraFiles, ShortNameBytes;
    var us := Profiles(bs);
    ProfilesFit(bs);
    ExtrasOk(us);
    assert ExtraMembers(us) == [];
    NothingCollected();
    forall n
      ensures n in NamesIn(ExtraFiles(us)) <==> UsesRoot(us, n)
    {
      ProfileNames(bs, n);
    }
  }

  lemma ProfileNames(bs: seq<Binary>, n: seq<Byte>)
    requires ProfilesOk(bs) && AllExtrasOk(Profiles(bs)) && RootExtras(Profiles(bs)) == Profiles(bs)
    ensures n in NamesIn(ExtraFiles(Profiles(bs))) <==> UsesRoot(Profiles(bs), n)
  {
    hide AllExtrasOk, RootKey, ExtraFiles, Profiles, IsRoot, RootExtras, UsesRoot;
    var us := Profiles(bs);
    NamesMatch(us, n);
  }

  /** The names of root files are the root names used. */
  lemma NamesMatch(us: seq<Upload>, n: seq<Byte>)
    requires AllExtrasOk(us) && RootExtras(us) == us
    ensures n in NamesIn(ExtraFiles(us)) <==> UsesRoot(us, n)
  {
    hide AllExtrasOk, RootKey, ExtraFiles, IsRoot;
    forall i | 0 <= i < |us|
      ensures ExtraFiles(us)[i].name == RootKey(us[i]) && IsRoot(us[i]) && ExtraFiles(us)[i] in ExtraFiles(us)
    {
      ExtraAt(us, i);
    }
  }

  /** One extra file, after `k` files have been gathered. */
  method GatherOne(ghost all: seq<Upload>, ghost k: nat, u: Upload, prepared: seq<Staged>, names: set<seq<Byte>>,
                   order: seq<seq<Byte>>, grouped: map<seq<Byte>, seq<Staged>>, members: set<(seq<Byte>, seq<Byte>)>,
                   ghost total: nat)
    returns (r: Result<(), FatError>, prepared': seq<Staged>, names': set<seq<Byte>>, order': seq<seq<Byte>>,
             grouped': map<seq<Byte>, seq<Staged>>, members': set<(seq<Byte>, seq<Byte>)>, ghost total': nat)
    requires k < |all| && all[k] == u && Gathered(all[..k], prepared, names, order, grouped, members, total)
    ensures r.Err? ==> !Fitting(all)
    ensures r.Ok? ==> Gathered(all[..k + 1], prepared', names', order', grouped', members', total')
  {
    hide AllExtrasOk, ExtraMembers, ExtraFiles, Gathered, RootExtras, TreeExtras, ExtraOk, RootKey, LeafKey, MemberOf, Fitting,
         PathOk, UploadOk, Blocks, Profiles, IsRoot, Apart;
    prepared', names', order', grouped', members', total' := prepared, names, order, grouped, members, total;
    r := Ok(());
    assert all[..k + 1] == all[..k] + [u];
    if !ExtraOk(u) {
      NotFitting(all, k);
      r := Err(BadStagedPath);
      return;
    }
    var name := RootKey(u);
    if name in names || (if IsRoot(u) then name in grouped else (name, LeafKey(u)) in members) {
      RootClash(all, k, prepared, names, order, grouped, members, total);
      ClashUnfits(all);
      r := Err(DuplicateStagedName);
    } else if IsRoot(u) {
      GatherRoot(all[..k], prepared, names, order, grouped, members, total, u);
      names', prepared' := names + {name}, prepared + [Staged(name, u.payload)];
    } else {
      GatherMember(all[..k], prepared, names, order, grouped, members, total, u);
      var m := MemberOf(u);
      members', total' := members + {(m.directory, m.file.name)}, total + Blocks(m.file.payload);
      order' := if m.directory in grouped then order else order + [m.directory];
      grouped' := grouped[m.directory := (if m.directory in grouped then grouped[m.directory] else []) + [m.file]];
    }
  }

  lemma Prefixes(first: seq<Upload>, us: seq<Upload>)
    ensures (first + us)[..|first|] == first && (first + us)[..|first| + |us|] == first + us
  {
  }

  /** The loop over the extra files: root files, directories in order of first appearance, and their groups. */
  method Gather(bs: seq<Binary>, us: seq<Upload>)
    returns (r: Result<(seq<Staged>, seq<seq<Byte>>, map<seq<Byte>, seq<Staged>>), FatError>,
             ghost occupied: set<seq<Byte>>, ghost pairs: set<(seq<Byte>, seq<Byte>)>, ghost total: nat)
    requires ProfilesOk(bs)
    ensures r.Err? ==> !Fitting(Profiles(bs) + us)
    ensures r.Ok? ==> Gathered(Profiles(bs) + us, r.value.0, occupied, r.value.1, r.value.2, pairs, total)
  {
    hide AllExtrasOk, ExtraMembers, ExtraFiles, Gathered, RootExtras, Fitting, Profiles, NamesIn;
    ghost var all := Profiles(bs) + us;
    NothingGathered(bs);
    var prepared := ExtraFiles(Profiles(bs));
    var names := NamesIn(prepared);
    var order: seq<seq<Byte>> := [];
    var grouped: map<seq<Byte>, seq<Staged>> := map[];
    var members: set<(seq<Byte>, seq<Byte>)> := {};
    occupied, pairs, total := names, members, 0;
    Prefixes(Profiles(bs), us);
    for i := 0 to |us|
      invariant occupied == names && pairs == members
      invariant Gathered(all[..|bs| + i], prepared, names, order, grouped, members, total)
    {
      var one;
      one, prepared, names, order, grouped, members, total :=
        GatherOne(all, |bs| + i, us[i], prepared, names, order, grouped, members, total);
      occupied, pairs := names, members;
      if one.Err? {
        return Err(one.error), occupied, pairs, total;
      }
    }
    r := Ok((prepared, order, grouped));
  }

  /** The checks of the system role, and the root files and sorted directories they produce. The room check
      is made here at once; the source makes it file by file as it allocates. */
  method PrepareSystem(bs: seq<Binary>, us: seq<Upload>) returns (r: Result<(seq<Staged>, seq<Package>), FatError>)
    ensures r.Ok? <==> SystemOk(bs, us)
    ensures r.Ok? ==> var all := Profiles(bs) + us;
                      AllExtrasOk(all) && r.value == (ExtraFiles(all), TreeDirs(ExtraMembers(all)))
  {
    hide AllExtrasOk, ExtraMembers, ExtraFiles, Gathered, Directories, Group, SumMembers, TreeDirs, Fitting, SumFiles, SumDirs,
         Profiles;
    if !ProfilesOk(bs) {
      return Err(BadProfile);
    }
    ghost var all := Profiles(bs) + us;
    var gathered, occupied, pairs, total := Gather(bs, us);
    if gathered.Err? {
      return Err(gathered.error);
    }
    var (prepared, order, grouped) := gathered.value;
    GatheredFits(all, prepared, occupied, order, grouped, pairs, total);
    if exists d :: d in order && |grouped[d]| > SLOTS - 3 {
      return Err(BadStagedCount);
    }
    if 1 + |prepared| + |order| >= SLOTS {
      return Err(BadStagedCount);
    }
    var dirs := SortTree(order, grouped, ExtraMembers(all));
    var needed := Needed(prepared, dirs);
    TreeSumAll(ExtraMembers(all));
    if ROOT_CLUSTER + 1 + needed > CLUSTER_COUNT + 2 {
      return Err(StagedTooLarge);
    }
    r := Ok((prepared, dirs));
  }

  lemma NotFitting(all: seq<Upload>, k: nat)
    requires k < |all| && !ExtraOk(all[k])
    ensures !Fitting(all)
  {
    hide ExtraOk, ExtraMembers;
  }

  lemma ClashUnfits(all: seq<Upload>)
    requires !Apart(all)
    ensures !Fitting(all)
  {
    hide Apart, AllExtrasOk, ExtraMembers;
  }

  /** Once everything is gathered, the remaining checks decide. */
  lemma GatheredFits(us: seq<Upload>, prepared: seq<Staged>, occupied: set<seq<Byte>>, order: seq<seq<Byte>>,
                     grouped: map<seq<Byte>, seq<Staged>>, pairs: set<(seq<Byte>, seq<Byte>)>, total: nat)
    requires Gathered(us, prepared, occupied, order, grouped, pairs, total)
    ensures AllExtrasOk(us) && prepared == ExtraFiles(us) && order == Directories(ExtraMembers(us))
    ensures forall d :: d in order ==> d in grouped && grouped[d] == Group(ExtraMembers(us), d)
    ensures Fitting(us) <==>
              && (forall d :: d in order ==> |grouped[d]| <= SLOTS - 3)
              && 1 + |prepared| + |order| < SLOTS
              && ROOT_CLUSTER + 1 + SumFiles(prepared) + |order| + SumMembers(ExtraMembers(us)) <= CLUSTER_COUNT + 2
  {
    hide Apart, AllExtrasOk, AllUploadsOk, AllPathsOk, ExtraMembers, Directories, Group, SumMembers, RootExtras, SumFiles, SumBlocks;
    ExtrasOk(us);
    StagedSum(RootExtras(us));
  }

  /** Clusters for root files, directories and their files. */
  method Needed(files: seq<Staged>, dirs: seq<Package>) returns (n: nat)
    ensures n == SumFiles(files) + |dirs| + SumDirs(dirs, |dirs|)
  {
    hide Blocks;
    n := 0;
    for i := 0 to |files|
      invariant n == SumFiles(files[..i])
    {
      SumNext(files, i);
      n := n + Blocks(files[i].payload);
    }
    assert files[..|files|] == files;
    for d := 0 to |dirs|
      invariant n == SumFiles(files) + d + SumDirs(dirs, d)
    {
      n := n + 1;
      var inside := dirs[d].files;
      for k := 0 to |inside|
        invariant n == SumFiles(files) + d + 1 + SumDirs(dirs, d) + SumFiles(inside[..k])
      {
        SumNext(inside, k);
        n := n + Blocks(inside[k].payload);
      }
      assert inside[..|inside|] == inside;
    }
  }

  // Allocation

  /** The next directory: an empty cluster and its root entry. */
  method OpenOne(image: array<Byte>, name: seq<Byte>, slot: nat, next: nat, ghost g: Geometry, ghost p: Plan, ghost d: nat)
    requires image.Length == IMAGE_BYTES && PlanOk(p) && d < |p.dirs| && name == p.dirs[d].name
    requires slot == |p.files| + 1 + d && next == Place(p, |p.files| + d)
    requires OnDisk(image[..], g, RootSlots(p)[..|p.files| + d + 1], Opening(p, d))
    modifies image
    ensures OnDisk(image[..], g, RootSlots(p)[..|p.files| + d + 2], Opening(p, d + 1))
    ensures image[..RESERVED_BYTES] == old(image[..RESERVED_BYTES])
    ensures next == DirCluster(p, d) && next + 1 == Place(p, |p.files| + d + 1)
  {
    hide PlanOk, OnDisk, Place, Pack, RootSlots, Contents, DirCluster, DirectoryEntry, Opening;
    OpeningStep(p, d);
    DirRootSlot(p, d);
    AddDirectory(image, g, next, RootSlots(p)[..|p.files| + d + 1], Opening(p, d));
    AddRootEntry(image, g, slot, DirectoryEntry(name, DIRECTORY_ATTRIBUTE, next, 0),
                 RootSlots(p)[..|p.files| + d + 1], Opening(p, d + 1));
  }

  /** A cluster and a root entry for each directory. */
  method OpenNamed(image: array<Byte>, dirs: seq<Package>, slot: nat, first: nat, ghost g: Geometry, ghost p: Plan)
    returns (clusters: seq<nat>, next: nat)
    requires image.Length == IMAGE_BYTES && PlanOk(p) && dirs == p.dirs
    requires slot == |p.files| + 1 && first == Place(p, |p.files|)
    requires OnDisk(image[..], g, RootSlots(p)[..|p.files| + 1], Contents(p)[..|p.files|])
    modifies image
    ensures OnDisk(image[..], g, RootSlots(p), Partial(p, 0, [], 0))
    ensures image[..RESERVED_BYTES] == old(image[..RESERVED_BYTES])
    ensures |clusters| == |dirs| && (forall d :: 0 <= d < |dirs| ==> clusters[d] == DirCluster(p, d))
    ensures next == Place(p, FirstMember(p, 0))
  {
    hide PlanOk, OnDisk, Partial, Place, Pack, RootSlots, Contents, DirCluster, DirectoryEntry;
    clusters, next := [], first;
    assert Opening(p, 0) == Contents(p)[..|p.files|];
    for d := 0 to |dirs|
      invariant next == Place(p, |p.files| + d)
      invariant |clusters| == d && forall e :: 0 <= e < d ==> clusters[e] == DirCluster(p, e)
      invariant OnDisk(image[..], g, RootSlots(p)[..|p.files| + d + 1], Opening(p, d))
      invariant image[..RESERVED_BYTES] == old(image[..RESERVED_BYTES])
    {
      OpenOne(image, dirs[d].name, slot + d, next, g, p, d);
      clusters := clusters + [next];
      next := next + 1;
    }
    OpeningDone(p);
    FirstMemberInside(p, 0);
    AllSlots(p);
  }

  /** The allocation loops of the system role: root files, directories, then the files of each directory. */
  method LaySystem(image: array<Byte>, files: seq<Staged>, dirs: seq<Package>, ghost g: Geometry, ghost p: Plan)
    returns (next: nat)
    requires image.Length == IMAGE_BYTES && PlanOk(p) && p.attributes == SYSTEM_ATTRIBUTE && files == p.files && dirs == p.dirs
    requires OnDisk(image[..], g, RootSlots(p)[..1], [])
    modifies image
    ensures OnDisk(image[..], g, RootSlots(p), Contents(p))
    ensures image[..RESERVED_BYTES] == old(image[..RESERVED_BYTES])
    ensures next == Start(Shape(p), Total(p))
  {
    hide PlanOk, OnDisk, RootSlots, Contents, Partial, Start, Shape, Pairs, DirCluster, FirstMember;
    next := LayRootFiles(image, files, SYSTEM_ATTRIBUTE, g, p);
    var clusters: seq<nat>;
    clusters, next := OpenNamed(image, dirs, |files| + 1, next, g, p);
    FirstMemberInside(p, 0);
    NoPairs(dirs);
    for d := 0 to |dirs|
      invariant |Pairs(dirs, d)| <= |Pairs(dirs, |dirs|)| && FirstMember(p, d) <= Total(p)
      invariant next == Place(p, FirstMember(p, d))
      invariant OnDisk(image[..], g, RootSlots(p), Partial(p, d, [], |Pairs(dirs, d)|))
      invariant image[..RESERVED_BYTES] == old(image[..RESERVED_BYTES])
    {
      FirstMemberInside(p, d + 1);
      next := FillDirectory(image, dirs[d].files, SYSTEM_ATTRIBUTE, clusters[d], next, g, p, d, RootSlots(p));
    }
    FirstMemberInside(p, |dirs|);
    PartialDone(p);
  }

  // Reading it back

  function SystemPath(u: Upload): (t: Text) {
    if OneSlash(u.name) then TreePath(u) else Canonical(u.name)
  }

  function SystemPaths(us: seq<Upload>): (ts: seq<Text>)
    ensures |ts| == |us|
  {
    seq(|us|, i requires 0 <= i < |us| => SystemPath(us[i]))
  }

  lemma RootPathNamed(us: seq<Upload>, i: nat)
    requires AllExtrasOk(us) && i < |RootExtras(us)| && PlanOk(SystemPlan(us))
    ensures FilePath(SystemPlan(us), i) == SystemPath(RootExtras(us)[i])
    ensures SystemPlan(us).files[i].payload == RootExtras(us)[i].payload
  {
    hide PlanOk, Canonical, ShortNameBytes, ShortNameText, RootKey, RootExtras, TreeDirs, ExtraFiles, BeforeSlash, StagedOk;
    var u := RootExtras(us)[i];
    ExtraAt(us, i);
    var k := IndexOf(us, u);
    assert ExtraOk(us[k]);
    RootKeyed(u);
    NameRoundTrip(u.name);
  }

  /** Every profile and extra file is reported under its path and reads back; no other file is reported. */
  lemma SystemHeld(image: seq<Byte>, us: seq<Upload>)
    requires AllExtrasOk(us) && Complete(image, SYSTEM_VOLUME_ID, SystemPlan(us))
    ensures HoldsExactly(image, SystemPaths(us), PayloadsOf(us))
  {
    hide AllExtrasOk, Complete, InspectImage, Leads, PlanOk, SystemPath, FilePath, MemberPath, Available, TreeDirs, RootExtras,
         TreeExtras;
    var p := SystemPlan(us);
    CompleteInspected(image, SYSTEM_VOLUME_ID, p);
    forall i | 0 <= i < |us|
      ensures Available(image, SystemPaths(us)[i], PayloadsOf(us)[i])
    {
      UploadHeld(image, us, i);
    }
    forall r | r in InspectImage(image).value.records && !r.entry.IsDirectory()
      ensures exists i :: 0 <= i < |us| && Leads(image, r, SystemPaths(us)[i], PayloadsOf(us)[i])
    {
      var i := ReportedUpload(image, us, r);
      assert Leads(image, r, SystemPaths(us)[i], PayloadsOf(us)[i]);
    }
  }

  lemma MemberNamedHere(us: seq<Upload>, i: nat, d: nat, k: nat)
    requires AllExtrasOk(us) && PlanOk(SystemPlan(us)) && i < |TreeExtras(us)| && IsMember(SystemPlan(us), d, k)
    requires ExtraMembers(us)[i] == Member(SystemPlan(us).dirs[d].name, SystemPlan(us).dirs[d].files[k])
    ensures MemberPath(SystemPlan(us), d, k) == SystemPath(TreeExtras(us)[i])
    ensures SystemPlan(us).dirs[d].files[k].payload == TreeExtras(us)[i].payload
  {
    hide PlanOk, MemberPath, TreePath, TreeDirs, MemberOf, TreeExtras;
    ExtrasOk(us);
    assert PathOk(TreeExtras(us)[i]);
    MemberNamed(TreeExtras(us), i, SystemPlan(us), d, k);
  }

  lemma UploadHeld(image: seq<Byte>, us: seq<Upload>, i: nat)
    requires AllExtrasOk(us) && Complete(image, SYSTEM_VOLUME_ID, SystemPlan(us)) && i < |us|
    ensures Available(image, SystemPath(us[i]), us[i].payload)
  {
    hide AllExtrasOk, Finished, InspectImage, PlanOk, SystemPath, FilePath, MemberPath, Available, TreeDirs, RootExtras,
         TreeExtras, RootSlots, ExtraMembers, ExtraFiles;
    var p := SystemPlan(us);
    assert us[i] in us;
    if IsRoot(us[i]) {
      var k := IndexOf(RootExtras(us), us[i]);
      RootPathNamed(us, k);
      FileAvailable(image, SYSTEM_VOLUME_ID, p, k);
    } else {
      var j := IndexOf(TreeExtras(us), us[i]);
      var d, k := MemberPlanned(ExtraMembers(us), j);
      MemberNamedHere(us, j, d, k);
      MemberAvailable(image, SYSTEM_VOLUME_ID, p, d, k);
    }
  }

  lemma ReportedUpload(image: seq<Byte>, us: seq<Upload>, r: Record) returns (i: nat)
    requires AllExtrasOk(us) && Complete(image, SYSTEM_VOLUME_ID, SystemPlan(us)) && InspectImage(image).Ok?
    requires r in InspectImage(image).value.records && !r.entry.IsDirectory()
    ensures i < |us| && Leads(image, r, SystemPath(us[i]), us[i].payload)
  {
    hide AllExtrasOk, Finished, InspectImage, PlanOk, SystemPath, FilePath, MemberPath, TreeDirs, RootExtras,
         TreeExtras, RootSlots, ExtraMembers, ExtraFiles, Leads;
    var p := SystemPlan(us);
    ReportedIsPlanned(image, SYSTEM_VOLUME_ID, p, r);
    if k: nat :| k < |p.files| && Leads(image, r, FilePath(p, k), p.files[k].payload) {
      RootPathNamed(us, k);
      ExtraAt(us, k);
      i := IndexOf(us, RootExtras(us)[k]);
    } else {
      var d: nat, k: nat :| IsMember(p, d, k) && Leads(image, r, MemberPath(p, d, k), p.dirs[d].files[k].payload);
      var j := PlannedMember(ExtraMembers(us), d, k);
      MemberNamedHere(us, j, d, k);
      MemberAt(us, j);
      i := IndexOf(us, TreeExtras(us)[j]);
    }
  }

  /** The fixed bytes of a system volume. */
  ghost predicate SystemLayout(image: seq<Byte>, free: nat, next: nat) {
    var name: seq<Byte> := [0x52, 0x53, 0x44, 0x53, 0x59, 0x53, 0x20, 0x20, 0x20, 0x20, 0x20];
    ReservedLayout(image, 0x2000_0001, name, free, next) && StartLayout(image, name)
  }

  /** Builds the system volume. It succeeds exactly when no profiles or the three measured ones are given and
      all files fit together; the inspector always accepts the result, reports each profile and extra file
      under its path with its bytes, and no other file. */
  method BuildSystem(bs: seq<Binary>, us: seq<Upload>) returns (r: Result<seq<Byte>, FatError>)
    ensures r.Ok? <==> SystemOk(bs, us)
    ensures r.Ok? ==> var all := Profiles(bs) + us;
                      && AllExtrasOk(all) && Complete(r.value, SYSTEM_VOLUME_ID, SystemPlan(all))
                      && InspectImage(r.value) == Ok(PlanReport(SystemPlan(all)))
                      && HoldsExactly(r.value, SystemPaths(all), PayloadsOf(all)) && Marked(r.value, 0x21)
                      && var next := 2 + UsedBy(SystemPlan(all));
                         SystemLayout(r.value, 129_024 - next, if next > 129_023 then 0xFFFF_FFFF else next)
  {
    hide ReservedArea, ReservedLayout, StartLayout, FsInfoSector, Marked;
    hide AllExtrasOk, ExtraMembers, ExtraFiles, Fitting, TreeDirs, PlanOk, OnDisk, RootSlots, Contents, Start, Shape, LabelledImage,
         InspectImage, Finished, PlanReport, HoldsExactly, BootSector, DirectoryEntry;
    var prepared := PrepareSystem(bs, us);
    if prepared.Err? {
      return Err(prepared.error);
    }
    var (files, dirs) := prepared.value;
    ghost var all := Profiles(bs) + us;
    ghost var p, g := SystemPlan(all), VolumeGeometry(SYSTEM_VOLUME_ID, SYSTEM_LABEL);
    SystemPlanOk(all);
    SystemLabel();
    LabelledOnDisk(SYSTEM_VOLUME_ID, SYSTEM_LABEL);
    RootBegins(p);
    var image := BuildLabelled(SYSTEM_VOLUME_ID, SYSTEM_LABEL);
    assert image[..RESERVED_BYTES] == image[..][..RESERVED_BYTES];
    var next := LaySystem(image, files, dirs, g, p);
    PlanFits(p);
    Finish(image, SYSTEM_VOLUME_ID, p, Zeros(SECTOR_BYTES), next, CLUSTER_COUNT - (next - 2));
    FinishedInspected(image[..], SYSTEM_VOLUME_ID, p);
    SystemHeld(image[..], all);
    CompleteMarked(image[..], SYSTEM_VOLUME_ID, p);
    r := Ok(image[..]);
  }
}
