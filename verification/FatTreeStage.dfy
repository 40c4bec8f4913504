// Staging one-level application namespaces (tools/fat32_image.py, populate_data_tree).

module FatTreeStage {
  import opened Bytes
  import opened FatChain
  import opened FatDirectory
  import opened FatTree
  import opened FatInspector
  import opened FatGeometry
  import opened FatFormat
  import opened FatNames
  import opened FatLayout
  import opened FatPlan
  import opened FatStore
  import opened FatExact
  import opened FatAllocate
  import opened FatVolume
  import opened FatPopulate
  import opened Sorting

  // Paths

  /** The part of a path before its first slash. */
  function BeforeSlash(s: Text): (b: Text)
    ensures b <= s && SLASH !in b && (|b| < |s| ==> s[|b|] == SLASH)
  {
    if s == [] || s[0] == SLASH then [] else [s[0]] + BeforeSlash(s[1..])
  }

  predicate OneSlash(s: Text) {
    var b := BeforeSlash(s);
    |b| < |s| && SLASH !in s[|b| + 1..]
  }

  function AfterSlash(s: Text): (r: Text)
    requires OneSlash(s)
  {
    s[|BeforeSlash(s)| + 1..]
  }

  predicate PathOk(u: Upload) {
    && OneSlash(u.name)
    && ShortNameBytes(BeforeSlash(u.name)).Ok?
    && ShortNameBytes(AfterSlash(u.name)).Ok?
    && 0 < |u.payload| <= 16_777_216
  }

  predicate AllPathsOk(us: seq<Upload>) {
    forall i :: 0 <= i < |us| ==> PathOk(us[i])
  }

  /** A file with the encoded name of its directory. */
  datatype Member = Member(directory: seq<Byte>, file: Staged)

  function MemberOf(u: Upload): (m: Member)
    requires PathOk(u)
  {
    Member(ShortNameBytes(BeforeSlash(u.name)).value, Staged(ShortNameBytes(AfterSlash(u.name)).value, u.payload))
  }

  function MembersOf(us: seq<Upload>): (ms: seq<Member>)
    requires AllPathsOk(us)
    ensures |ms| == |us|
  {
    seq(|us|, i requires 0 <= i < |us| => MemberOf(us[i]))
  }

  // Grouping

  /** The files of one directory, in the order given. */
  function Group(ms: seq<Member>, directory: seq<Byte>): (files: seq<Staged>) {
    if ms == [] then []
    else
      var n := |ms| - 1;
      Group(ms[..n], directory) + if ms[n].directory == directory then [ms[n].file] else []
  }

  /** Directories in order of first appearance. */
  function Directories(ms: seq<Member>): (ds: seq<seq<Byte>>)
  {
    if ms == [] then []
    else
      var n := |ms| - 1;
      var ds := Directories(ms[..n]);
      if ms[n].directory in ds then ds else ds + [ms[n].directory]
  }

  const NameKey: seq<Byte> -> seq<Byte> := (n: seq<Byte>) => n
  const FileKey: Staged -> seq<Byte> := (f: Staged) => f.name

  function TreeDirs(ms: seq<Member>): (ds: seq<Package>)
    ensures |ds| == |Directories(ms)|
  {
    var names := Sort(NameKey, Directories(ms));
    seq(|names|, d requires 0 <= d < |names| => Package(names[d], Sort(FileKey, Group(ms, names[d]))))
  }

  function TreePlan(ms: seq<Member>): (p: Plan) {
    Plan(DATA_LABEL, FILE_ATTRIBUTE, [], TreeDirs(ms))
  }

  function SumMembers(ms: seq<Member>): (n: nat) {
    if ms == [] then 0 else SumMembers(ms[..|ms| - 1]) + Blocks(ms[|ms| - 1].file.payload)
  }

  ghost predicate UniqueMembers(ms: seq<Member>) {
    forall i, j :: 0 <= i < j < |ms| ==>
      ms[i].directory != ms[j].directory || ms[i].file.name != ms[j].file.name
  }

  /** No file twice, and no directory with more files than one cluster lists. */
  ghost predicate Groupable(ms: seq<Member>) {
    && UniqueMembers(ms)
    && forall d :: d in Directories(ms) ==> |Group(ms, d)| <= 13
  }

  /** What populate_data_tree itself demands of its files. */
  ghost predicate TreeOk(us: seq<Upload>) {
    && us != [] && AllPathsOk(us)
    && var ms := MembersOf(us);
    && Groupable(ms)
    && |Directories(ms)| <= 15
    && |Directories(ms)| + SumMembers(ms) <= 129_021
  }

  // Facts about grouping

  lemma {:induction false} DirectoriesExact(ms: seq<Member>)
    ensures DistinctKeys(NameKey, Directories(ms))
    ensures forall d :: d in Directories(ms) <==> exists i :: 0 <= i < |ms| && ms[i].directory == d
    decreases |ms|
  {
    if ms != [] {
      var n := |ms| - 1;
      DirectoriesExact(ms[..n]);
      forall d
        ensures d in Directories(ms) <==> exists i :: 0 <= i < |ms| && ms[i].directory == d
      {
        if i :| 0 <= i < |ms| && ms[i].directory == d {
          assert i < n ==> ms[..n][i] == ms[i];
        }
        if d in Directories(ms[..n]) {
          var i :| 0 <= i < n && ms[..n][i].directory == d;
          assert ms[i].directory == d;
        }
      }
    }
  }

  lemma {:induction false} GroupMember(ms: seq<Member>, directory: seq<Byte>, f: Staged) returns (i: nat)
    requires f in Group(ms, directory)
    ensures i < |ms| && ms[i] == Member(directory, f)
    decreases |ms|
  {
    var n := |ms| - 1;
    if f in Group(ms[..n], directory) {
      i := GroupMember(ms[..n], directory, f);
    } else {
      i := n;
    }
  }

  lemma {:induction false} GroupDistinct(ms: seq<Member>, directory: seq<Byte>)
    requires UniqueMembers(ms)
    ensures DistinctKeys(FileKey, Group(ms, directory))
    decreases |ms|
  {
    if ms != [] {
      var n := |ms| - 1;
      GroupDistinct(ms[..n], directory);
      var g := Group(ms[..n], directory);
      if ms[n].directory == directory {
        forall k | 0 <= k < |g|
          ensures FileKey(g[k]) != FileKey(ms[n].file)
        {
          var i := GroupMember(ms[..n], directory, g[k]);
          assert ms[i] == ms[..n][i];
        }
      }
    }
  }

  // Sums do not depend on the order of files

  lemma {:induction false} SumSplit(a: seq<Staged>, b: seq<Staged>)
    ensures SumFiles(a + b) == SumFiles(a) + SumFiles(b)
    decreases |b|
  {
    if b == [] {
      assert a + b == a;
    } else {
      assert (a + b)[..|a + b| - 1] == a + b[..|b| - 1];
      SumSplit(a, b[..|b| - 1]);
    }
  }

  lemma SumRemove(b: seq<Staged>, k: nat)
    requires k < |b|
    ensures SumFiles(b) == SumFiles(b[..k] + b[k + 1..]) + Blocks(b[k].payload)
  {
    hide Blocks, SumFiles;
    assert b == (b[..k] + [b[k]]) + b[k + 1..];
    SumSplit(b[..k] + [b[k]], b[k + 1..]);
    SumSplit(b[..k], [b[k]]);
    SumSplit(b[..k], b[k + 1..]);
    SumOne(b[k]);
  }

  lemma SumOne(f: Staged)
    ensures SumFiles([f]) == Blocks(f.payload)
  {
    assert [f][..0] == [];
  }

  lemma MultisetRemove(b: seq<Staged>, k: nat)
    requires k < |b|
    ensures multiset(b[..k] + b[k + 1..]) == multiset(b) - multiset{b[k]}
  {
    assert b == b[..k] + [b[k]] + b[k + 1..];
  }

  lemma {:induction false} SumPermuted(a: seq<Staged>, b: seq<Staged>)
    requires multiset(a) == multiset(b)
    ensures SumFiles(a) == SumFiles(b)
    decreases |a|
  {
    hide SumFiles;
    SameLength(a, b);
    if a == [] {
      assert b == [];
    } else {
      var n := |a| - 1;
      assert a[..n] + a[n + 1..] == a[..n];
      MultisetRemove(a, n);
      SumRemove(a, n);
      assert a[n] in multiset(b);
      var k :| 0 <= k < |b| && b[k] == a[n];
      MultisetRemove(b, k);
      SumPermuted(a[..n], b[..k] + b[k + 1..]);
      SumRemove(b, k);
    }
  }

  /** Blocks of the files of the first `n` listed directories. */
  ghost function SumGroups(ms: seq<Member>, names: seq<seq<Byte>>): (s: nat) {
    if names == [] then 0 else SumGroups(ms, names[..|names| - 1]) + SumFiles(Group(ms, names[|names| - 1]))
  }

  lemma {:induction false} SumGroupsStep(ms: seq<Member>, names: seq<seq<Byte>>)
    requires ms != [] && DistinctKeys(NameKey, names)
    ensures var m := ms[|ms| - 1];
            SumGroups(ms, names) == SumGroups(ms[..|ms| - 1], names)
                                    + if m.directory in names then Blocks(m.file.payload) else 0
    decreases |names|
  {
    hide Group, SumFiles, Blocks;
    if names != [] {
      var n, m := |names| - 1, ms[|ms| - 1];
      SumGroupsStep(ms, names[..n]);
      LastApart(names, m.directory);
      assert ms == ms[..|ms| - 1] + [m];
      GroupSnoc(ms[..|ms| - 1], m, names[n]);
      var g := Group(ms[..|ms| - 1], names[n]);
      if m.directory == names[n] {
        SumSplit(g, [m.file]);
        SumOne(m.file);
      } else {
        assert g + [] == g;
      }
    }
  }

  lemma LastApart(names: seq<seq<Byte>>, d: seq<Byte>)
    requires names != [] && DistinctKeys(NameKey, names)
    ensures var n := |names| - 1;
            && DistinctKeys(NameKey, names[..n])
            && (d == names[n] ==> d !in names[..n])
            && (d in names <==> d == names[n] || d in names[..n])
  {
    var n := |names| - 1;
    assert names == names[..n] + [names[n]];
    assert forall i :: 0 <= i < n ==> names[..n][i] == names[i] && NameKey(names[i]) != NameKey(names[n]);
  }

  /** Grouping neither loses nor duplicates a file. */
  lemma {:induction false} SumGrouped(ms: seq<Member>, names: seq<seq<Byte>>)
    requires DistinctKeys(NameKey, names)
    requires forall i :: 0 <= i < |ms| ==> ms[i].directory in names
    ensures SumGroups(ms, names) == SumMembers(ms)
    decreases |ms|
  {
    hide SumGroups, DistinctKeys, Blocks;
    if ms == [] {
      NoGroups(names);
    } else {
      SumGroupsStep(ms, names);
      assert ms[|ms| - 1].directory in names;
      assert forall i :: 0 <= i < |ms| - 1 ==> ms[..|ms| - 1][i] == ms[i];
      SumGrouped(ms[..|ms| - 1], names);
    }
  }

  lemma {:induction false} NoGroups(names: seq<seq<Byte>>)
    ensures SumGroups([], names) == 0
    decreases |names|
  {
    if names != [] {
      NoGroups(names[..|names| - 1]);
    }
  }

  // The plan of a tree

  lemma TreeNames(ms: seq<Member>) returns (names: seq<seq<Byte>>)
    ensures names == Sort(NameKey, Directories(ms))
    ensures DistinctKeys(NameKey, names)
    ensures forall d :: d in names <==> d in Directories(ms)
    ensures |names| == |Directories(ms)|
  {
    names := Sort(NameKey, Directories(ms));
    DirectoriesExact(ms);
    SortStrict(NameKey, Directories(ms));
    forall d
      ensures d in names <==> d in Directories(ms)
    {
      assert d in names <==> d in multiset(names);
      assert d in Directories(ms) <==> d in multiset(Directories(ms));
    }
  }

  lemma MemberStaged(u: Upload)
    requires PathOk(u)
    ensures ShortName(MemberOf(u).directory) && StagedOk(MemberOf(u).file)
  {
    NameRoundTrip(BeforeSlash(u.name));
    NameRoundTrip(AfterSlash(u.name));
  }

  lemma TreePackageOk(us: seq<Upload>, d: nat)
    requires AllPathsOk(us) && Groupable(MembersOf(us)) && d < |TreeDirs(MembersOf(us))|
    ensures PackageOk(TreeDirs(MembersOf(us))[d])
  {
    hide PathOk, MemberOf, Group, Directories, Sort;
    var ms := MembersOf(us);
    var names := TreeNames(ms);
    var pkg := TreeDirs(ms)[d];
    assert pkg == Package(names[d], Sort(FileKey, Group(ms, names[d])));
    assert names[d] in names && names[d] in Directories(ms);
    DirectoriesExact(ms);
    var i :| 0 <= i < |ms| && ms[i].directory == names[d];
    MemberStaged(us[i]);
    GroupDistinct(ms, names[d]);
    SortStrict(FileKey, Group(ms, names[d]));
    forall k | 0 <= k < |pkg.files|
      ensures StagedOk(pkg.files[k])
    {
      GroupFileOk(us, names[d], pkg.files[k], pkg.files, k);
    }
    assert forall k, l :: 0 <= k < l < |pkg.files| ==> FileKey(pkg.files[k]) != FileKey(pkg.files[l]);
  }

  lemma GroupFileOk(us: seq<Upload>, directory: seq<Byte>, f: Staged, files: seq<Staged>, k: nat)
    requires AllPathsOk(us) && files == Sort(FileKey, Group(MembersOf(us), directory))
    requires k < |files| && f == files[k]
    ensures StagedOk(f)
  {
    hide PathOk, MemberOf, Group, Sort;
    assert f in multiset(files);
    var i := GroupMember(MembersOf(us), directory, f);
    MemberStaged(us[i]);
  }

  lemma {:induction false} TreeSum(ms: seq<Member>, names: seq<seq<Byte>>, n: nat)
    requires names == Sort(NameKey, Directories(ms)) && n <= |names|
    ensures SumDirs(TreeDirs(ms), n) == SumGroups(ms, names[..n])
    decreases n
  {
    hide Group, Sort, Directories, SumFiles;
    if n > 0 {
      TreeSum(ms, names, n - 1);
      assert names[..n][..n - 1] == names[..n - 1];
      SumPermuted(Sort(FileKey, Group(ms, names[n - 1])), Group(ms, names[n - 1]));
    }
  }

  lemma TreeSumAll(ms: seq<Member>)
    ensures SumDirs(TreeDirs(ms), |TreeDirs(ms)|) == SumMembers(ms)
  {
    hide Group, Sort, TreeDirs, Directories;
    var names := TreeNames(ms);
    TreeSum(ms, names, |names|);
    assert names[..|names|] == names;
    DirectoriesExact(ms);
    SumGrouped(ms, names);
  }

  lemma TreeRootNames(ms: seq<Member>)
    ensures var p := TreePlan(ms);
            forall i, j :: 0 <= i < j < |p.files| + |p.dirs| ==> RootName(p, i) != RootName(p, j)
  {
    hide Group, Directories, Sort;
    var p := TreePlan(ms);
    var names := TreeNames(ms);
    forall i, j | 0 <= i < j < |p.files| + |p.dirs|
      ensures RootName(p, i) != RootName(p, j)
    {
      assert NameKey(names[i]) != NameKey(names[j]);
    }
  }

  lemma TreePlanOk(us: seq<Upload>)
    requires TreeOk(us)
    ensures PlanOk(TreePlan(MembersOf(us)))
    ensures UsedBy(TreePlan(MembersOf(us))) == 1 + |Directories(MembersOf(us))| + SumMembers(MembersOf(us))
    ensures |RootSlots(TreePlan(MembersOf(us)))| == 1 + |Directories(MembersOf(us))|
  {
    hide Shape, Start, Pairs, PackageOk, RootSlots, SumMembers, SumDirs, Group, Directories, Sort, MembersOf, RootName,
         TreeDirs;
    var ms := MembersOf(us);
    var p := TreePlan(ms);
    forall d | 0 <= d < |p.dirs|
      ensures PackageOk(p.dirs[d])
    {
      TreePackageOk(us, d);
    }
    PlanEnds(p);
    TreeSumAll(ms);
    DataLabel();
    TreeRootNames(ms);
  }

  /** The checks of populate_data_tree, in order, and its directories sorted by name. */
  method PrepareTree(us: seq<Upload>) returns (r: Result<(seq<Package>, nat), FatError>)
    ensures r.Ok? <==> TreeOk(us)
    ensures r.Ok? ==> r.value == (TreeDirs(MembersOf(us)), SumMembers(MembersOf(us)))
  {
    hide ShortNameBytes, OneSlash, BeforeSlash, AfterSlash, Sort, TreeOk, Blocks, Directories, Group, SumMembers, TreeDirs;
    TreeOkUnfolds(us);
    NothingCollected();
    if us == [] {
      return Err(BadStagedCount);
    }
    var order: seq<seq<Byte>> := [];
    var grouped: map<seq<Byte>, seq<Staged>> := map[];
    var occupied: set<(seq<Byte>, seq<Byte>)> := {};
    var total: nat := 0;
    ghost var ms: seq<Member> := [];
    for i := 0 to |us|
      invariant AllPathsOk(us[..i]) && ms == MembersOf(us[..i])
      invariant Collected(ms, order, grouped, occupied, total) && UniqueMembers(ms)
    {
      var u := us[i];
      if !OneSlash(u.name) {
        assert !PathOk(us[i]);
        return Err(BadStagedPath);
      }
      var directory, name := ShortNameBytes(BeforeSlash(u.name)), ShortNameBytes(AfterSlash(u.name));
      if directory.Err? || name.Err? || u.payload == [] || |u.payload| > MAX_FILE_BYTES {
        assert !PathOk(us[i]);
        return Err(if directory.Err? then directory.error else if name.Err? then name.error else BadStagedSize);
      }
      assert PathOk(u);
      var m := MemberOf(u);
      if (m.directory, m.file.name) in occupied {
        DuplicateMember(us, i, ms, order, grouped, occupied, total);
        return Err(DuplicateStagedName);
      }
      CollectStep(ms, order, grouped, occupied, total, m);
      occupied := occupied + {(m.directory, m.file.name)};
      total := total + Blocks(u.payload);
      if m.directory in grouped {
        grouped := grouped[m.directory := grouped[m.directory] + [m.file]];
      } else {
        order := order + [m.directory];
        grouped := grouped[m.directory := [m.file]];
      }
      assert us[..i + 1] == us[..i] + [u];
      assert MembersOf(us[..i + 1]) == ms + [m];
      ms := ms + [m];
    }
    assert us[..|us|] == us;
    if |order| > SLOTS - 1 {
      return Err(BadStagedCount);
    }
    if exists d :: d in order && |grouped[d]| > SLOTS - 3 {
      return Err(BadStagedCount);
    }
    if ROOT_CLUSTER + |order| + total > CLUSTER_COUNT + 1 {
      return Err(StagedTooLarge);
    }
    var dirs := SortTree(order, grouped, ms);
    r := Ok((dirs, total));
  }

  /** Directories in name order, each with its files in name order. */
  method SortTree(order: seq<seq<Byte>>, grouped: map<seq<Byte>, seq<Staged>>, ghost ms: seq<Member>)
    returns (dirs: seq<Package>)
    requires order == Directories(ms)
    requires forall d :: d in order ==> d in grouped && grouped[d] == Group(ms, d)
    ensures dirs == TreeDirs(ms)
  {
    hide Directories, Group, Sort;
    var names := Sort(NameKey, order);
    dirs := [];
    for d := 0 to |names|
      invariant |TreeDirs(ms)| == |names| && dirs == TreeDirs(ms)[..d]
    {
      assert names[d] in multiset(names) && names[d] in order;
      dirs := dirs + [Package(names[d], Sort(FileKey, grouped[names[d]]))];
    }
  }

  /** The loop state of the preparation: what has been grouped, counted and seen. */
  ghost predicate Collected(ms: seq<Member>, order: seq<seq<Byte>>, grouped: map<seq<Byte>, seq<Staged>>,
                            occupied: set<(seq<Byte>, seq<Byte>)>, total: nat) {
    && order == Directories(ms) && total == SumMembers(ms)
    && (forall d :: d in order <==> d in grouped)
    && (forall d :: d in order ==> grouped[d] == Group(ms, d))
    && (forall k :: k in occupied <==> exists i :: 0 <= i < |ms| && k == (ms[i].directory, ms[i].file.name))
  }

  lemma NothingCollected()
    ensures Collected([], [], map[], {}, 0) && UniqueMembers([])
  {
  }

  lemma CollectStep(ms: seq<Member>, order: seq<seq<Byte>>, grouped: map<seq<Byte>, seq<Staged>>,
                    occupied: set<(seq<Byte>, seq<Byte>)>, total: nat, m: Member)
    requires Collected(ms, order, grouped, occupied, total) && UniqueMembers(ms)
    requires (m.directory, m.file.name) !in occupied
    ensures UniqueMembers(ms + [m])
    ensures var order' := if m.directory in grouped then order else order + [m.directory];
            var grouped' := grouped[m.directory := (if m.directory in grouped then grouped[m.directory] else []) + [m.file]];
            Collected(ms + [m], order', grouped', occupied + {(m.directory, m.file.name)}, total + Blocks(m.file.payload))
  {
    hide Blocks, Directories, Group, SumMembers;
    MembersSnoc(ms, m);
    UniqueSnoc(ms, m, occupied);
    OccupiedSnoc(ms, m, occupied);
    if m.directory !in grouped {
      NoGroup(ms, m.directory);
    }
    forall d
      ensures Group(ms + [m], d) == Group(ms, d) + if m.directory == d then [m.file] else []
    {
      GroupSnoc(ms, m, d);
    }
    forall d | d in order && d != m.directory
      ensures Group(ms, d) + [] == Group(ms, d)
    {
    }
  }

  lemma MembersSnoc(ms: seq<Member>, m: Member)
    ensures Directories(ms + [m]) == if m.directory in Directories(ms) then Directories(ms) else Directories(ms) + [m.directory]
    ensures SumMembers(ms + [m]) == SumMembers(ms) + Blocks(m.file.payload)
  {
    hide Blocks;
    assert (ms + [m])[..|ms|] == ms;
  }

  lemma GroupSnoc(ms: seq<Member>, m: Member, d: seq<Byte>)
    ensures Group(ms + [m], d) == Group(ms, d) + if m.directory == d then [m.file] else []
  {
    assert (ms + [m])[..|ms|] == ms;
  }

  lemma UniqueSnoc(ms: seq<Member>, m: Member, occupied: set<(seq<Byte>, seq<Byte>)>)
    requires UniqueMembers(ms) && (m.directory, m.file.name) !in occupied
    requires forall i :: 0 <= i < |ms| ==> (ms[i].directory, ms[i].file.name) in occupied
    ensures UniqueMembers(ms + [m])
  {
    var all := ms + [m];
    forall i, j | 0 <= i < j < |all|
      ensures all[i].directory != all[j].directory || all[i].file.name != all[j].file.name
    {
      assert all[i] == ms[i] && (j < |ms| ==> all[j] == ms[j]);
    }
  }

  lemma OccupiedSnoc(ms: seq<Member>, m: Member, occupied: set<(seq<Byte>, seq<Byte>)>)
    requires forall k :: k in occupied <==> exists i :: 0 <= i < |ms| && k == (ms[i].directory, ms[i].file.name)
    ensures var all := ms + [m];
            forall k :: k in occupied + {(m.directory, m.file.name)} <==>
              exists i :: 0 <= i < |all| && k == (all[i].directory, all[i].file.name)
  {
    var all := ms + [m];
    assert all[|ms|] == m;
    forall k | k in occupied
      ensures exists i :: 0 <= i < |all| && k == (all[i].directory, all[i].file.name)
    {
      var i :| 0 <= i < |ms| && k == (ms[i].directory, ms[i].file.name);
      assert all[i] == ms[i];
    }
    forall i | 0 <= i < |all|
      ensures (all[i].directory, all[i].file.name) in occupied + {(m.directory, m.file.name)}
    {
      assert i < |ms| ==> all[i] == ms[i];
    }
  }

  lemma {:induction false} NoGroup(ms: seq<Member>, directory: seq<Byte>)
    requires directory !in Directories(ms)
    ensures Group(ms, directory) == []
    decreases |ms|
  {
    if ms != [] {
      NoGroup(ms[..|ms| - 1], directory);
    }
  }

  lemma DuplicateMember(us: seq<Upload>, i: nat, ms: seq<Member>, order: seq<seq<Byte>>, grouped: map<seq<Byte>, seq<Staged>>,
                        occupied: set<(seq<Byte>, seq<Byte>)>, total: nat)
    requires i < |us| && AllPathsOk(us[..i]) && ms == MembersOf(us[..i]) && PathOk(us[i])
    requires Collected(ms, order, grouped, occupied, total)
    requires (MemberOf(us[i]).directory, MemberOf(us[i]).file.name) in occupied
    ensures !TreeOk(us)
  {
    hide PathOk, MemberOf, Group, Directories, SumMembers;
    var j :| 0 <= j < |ms| && ms[j].directory == MemberOf(us[i]).directory && ms[j].file.name == MemberOf(us[i]).file.name;
    assert us[..i][j] == us[j];
    if AllPathsOk(us) {
      assert MembersOf(us)[j] == ms[j] && MembersOf(us)[i] == MemberOf(us[i]);
    }
  }

  lemma TreeOkUnfolds(us: seq<Upload>)
    ensures TreeOk(us) ==> us != [] && AllPathsOk(us)
    ensures us != [] && AllPathsOk(us) ==>
              var ms := MembersOf(us);
              (TreeOk(us) <==>
                && UniqueMembers(ms)
                && |Directories(ms)| <= SLOTS - 1
                && (forall d :: d in Directories(ms) ==> |Group(ms, d)| <= SLOTS - 3)
                && ROOT_CLUSTER + |Directories(ms)| + SumMembers(ms) <= CLUSTER_COUNT + 1)
  {
  }

  // The allocation loops

  /** First loop of populate_data_tree: one cluster per directory. */
  method OpenDirectories(image: array<Byte>, n: nat, ghost g: Geometry, ghost p: Plan)
    returns (clusters: seq<nat>, next: nat)
    requires image.Length == IMAGE_BYTES && PlanOk(p) && p.files == [] && n == |p.dirs|
    requires OnDisk(image[..], g, RootSlots(p)[..1], [])
    modifies image
    ensures OnDisk(image[..], g, RootSlots(p)[..1], Partial(p, 0, [], 0))
    ensures image[..RESERVED_BYTES] == old(image[..RESERVED_BYTES])
    ensures |clusters| == n && (forall d :: 0 <= d < n ==> clusters[d] == DirCluster(p, d))
    ensures next == Place(p, FirstMember(p, 0))
  {
    hide PlanOk, OnDisk, Partial, Place, Pack, RootSlots, DirCluster;
    clusters, next := [], ROOT_CLUSTER + 1;
    RootBegins(p);
    assert Opening(p, 0) == [];
    for d := 0 to n
      invariant next == Place(p, d)
      invariant |clusters| == d && forall e :: 0 <= e < d ==> clusters[e] == DirCluster(p, e)
      invariant OnDisk(image[..], g, RootSlots(p)[..1], Opening(p, d))
      invariant image[..RESERVED_BYTES] == old(image[..RESERVED_BYTES])
    {
      OpeningStep(p, d);
      AddDirectory(image, g, next, RootSlots(p)[..1], Opening(p, d));
      clusters := clusters + [next];
      next := next + 1;
    }
    OpeningDone(p);
    FirstMemberInside(p, 0);
  }

  /** The first `d` directories are filled and have their root entries, the others are open, and `next` is free. */
  ghost predicate Filled(bytes: seq<Byte>, g: Geometry, p: Plan, d: nat, next: nat)
    requires PlanOk(p) && p.files == [] && d <= |p.dirs|
  {
    && |Pairs(p.dirs, d)| <= |Pairs(p.dirs, |p.dirs|)| && FirstMember(p, d) <= Total(p) && next == Place(p, FirstMember(p, d))
    && OnDisk(bytes, g, RootSlots(p)[..d + 1], Partial(p, d, [], |Pairs(p.dirs, d)|))
  }

  /** The root entry, the dot entries and the files of one directory. */
  method LayDirectory(image: array<Byte>, package: Package, slot: nat, cluster: nat, next: nat, ghost g: Geometry, ghost p: Plan,
                      ghost d: nat) returns (after: nat)
    requires image.Length == IMAGE_BYTES && PlanOk(p) && p.files == [] && p.attributes == FILE_ATTRIBUTE
    requires d < |p.dirs| && package == p.dirs[d] && slot == d + 1 && cluster == DirCluster(p, d)
    requires Filled(image[..], g, p, d, next)
    modifies image
    ensures Filled(image[..], g, p, d + 1, after)
    ensures image[..RESERVED_BYTES] == old(image[..RESERVED_BYTES])
  {
    hide PlanOk, OnDisk, RootSlots, Contents, Partial, Start, Shape, DirectoryEntry, Pairs, DirCluster, FirstMember, Place;
    DirRootSlot(p, d);
    AddRootEntry(image, g, slot, DirectoryEntry(package.name, DIRECTORY_ATTRIBUTE, cluster, 0), RootSlots(p)[..d + 1],
                 Partial(p, d, [], |Pairs(p.dirs, d)|));
    FirstMemberInside(p, d + 1);
    after := FillDirectory(image, package.files, FILE_ATTRIBUTE, cluster, next, g, p, d, RootSlots(p)[..d + 2]);
  }

  /** Second loop: the root entry, the dot entries and the files of each directory. */
  method LayTree(image: array<Byte>, dirs: seq<Package>, ghost g: Geometry, ghost p: Plan) returns (next: nat)
    requires image.Length == IMAGE_BYTES && PlanOk(p) && p.files == [] && p.attributes == FILE_ATTRIBUTE && dirs == p.dirs
    requires OnDisk(image[..], g, RootSlots(p)[..1], [])
    modifies image
    ensures OnDisk(image[..], g, RootSlots(p), Contents(p))
    ensures image[..RESERVED_BYTES] == old(image[..RESERVED_BYTES])
    ensures next == Start(Shape(p), Total(p))
  {
    hide PlanOk, OnDisk, RootSlots, Contents, Partial, Start, Shape, Filled, DirCluster, FirstMember, Place;
    var clusters: seq<nat>;
    clusters, next := OpenDirectories(image, |dirs|, g, p);
    FirstMemberInside(p, 0);
    NoneFilled(image[..], g, p, next);
    for d := 0 to |dirs|
      invariant Filled(image[..], g, p, d, next)
      invariant image[..RESERVED_BYTES] == old(image[..RESERVED_BYTES])
    {
      next := LayDirectory(image, dirs[d], d + 1, clusters[d], next, g, p, d);
    }
    AllFilled(image[..], g, p, next);
  }

  lemma NoneFilled(bytes: seq<Byte>, g: Geometry, p: Plan, next: nat)
    requires PlanOk(p) && p.files == [] && FirstMember(p, 0) <= Total(p) && next == Place(p, FirstMember(p, 0))
    requires OnDisk(bytes, g, RootSlots(p)[..1], Partial(p, 0, [], 0))
    ensures Filled(bytes, g, p, 0, next)
  {
    hide PlanOk, OnDisk, RootSlots, Partial, FirstMember, Place, Pairs;
    NoPairs(p.dirs);
  }

  lemma AllFilled(bytes: seq<Byte>, g: Geometry, p: Plan, next: nat)
    requires PlanOk(p) && p.files == [] && Filled(bytes, g, p, |p.dirs|, next)
    ensures OnDisk(bytes, g, RootSlots(p), Contents(p)) && next == Start(Shape(p), Total(p))
  {
    hide PlanOk, OnDisk, RootSlots, Contents, Partial, Start, Shape, Pairs, FirstMember;
    FirstMemberInside(p, |p.dirs|);
    PartialDone(p);
    AllSlots(p);
  }

  lemma AllSlots(p: Plan)
    requires PlanOk(p)
    ensures |RootSlots(p)| == 1 + |p.files| + |p.dirs| && RootSlots(p)[..|p.files| + |p.dirs| + 1] == RootSlots(p)
  {
    hide PlanOk;
  }

  lemma NoPairs(dirs: seq<Package>)
    ensures Pairs(dirs, 0) == []
  {
  }

  // Reading uploads back

  lemma {:induction false} InGroup(ms: seq<Member>, i: nat)
    requires i < |ms|
    ensures ms[i].file in Group(ms, ms[i].directory)
    decreases |ms|
  {
    var n := |ms| - 1;
    if i < n {
      InGroup(ms[..n], i);
    }
  }

  /** Every member has its place in the plan, and every place its member. */
  lemma MemberPlanned(ms: seq<Member>, i: nat) returns (d: nat, k: nat)
    requires i < |ms|
    ensures IsMember(TreePlan(ms), d, k)
    ensures TreeDirs(ms)[d].name == ms[i].directory && TreeDirs(ms)[d].files[k] == ms[i].file
  {
    hide Group, Directories, Sort;
    var names := TreeNames(ms);
    DirectoriesExact(ms);
    assert ms[i].directory in Directories(ms) && ms[i].directory in names;
    d :| 0 <= d < |names| && names[d] == ms[i].directory;
    var group := Group(ms, names[d]);
    InGroup(ms, i);
    var files := Sort(FileKey, group);
    assert TreeDirs(ms)[d] == Package(names[d], files);
    SortSorts(FileKey, group);
    assert ms[i].file in multiset(group) && ms[i].file in multiset(files);
    k :| 0 <= k < |files| && files[k] == ms[i].file;
  }

  lemma PlannedMember(ms: seq<Member>, d: nat, k: nat) returns (i: nat)
    requires IsMember(TreePlan(ms), d, k)
    ensures i < |ms| && ms[i] == Member(TreeDirs(ms)[d].name, TreeDirs(ms)[d].files[k])
  {
    hide Group, Directories, Sort;
    var names := TreeNames(ms);
    var group := Group(ms, names[d]);
    var files := Sort(FileKey, group);
    assert TreeDirs(ms)[d] == Package(names[d], files);
    SortSorts(FileKey, group);
    assert files[k] in multiset(files) && files[k] in multiset(group);
    i := GroupMember(ms, names[d], files[k]);
  }

  /** The path a staged file is reported under: its two names in canonical form. */
  function TreePath(u: Upload): (t: Text)
    requires OneSlash(u.name)
  {
    Canonical(BeforeSlash(u.name)) + [SLASH] + Canonical(AfterSlash(u.name))
  }

  function TreePaths(us: seq<Upload>): (ts: seq<Text>)
    requires AllPathsOk(us)
    ensures |ts| == |us|
  {
    seq(|us|, i requires 0 <= i < |us| => TreePath(us[i]))
  }

  lemma NothingTrimmed(t: Text)
    requires SLASH !in t
    ensures TrimSlashes(t) == t
  {
  }

  lemma MemberNamed(us: seq<Upload>, i: nat, p: Plan, d: nat, k: nat)
    requires AllPathsOk(us) && i < |us| && PlanOk(p) && IsMember(p, d, k)
    requires MemberOf(us[i]) == Member(p.dirs[d].name, p.dirs[d].files[k])
    ensures MemberPath(p, d, k) == TreePath(us[i]) && p.dirs[d].files[k].payload == us[i].payload
  {
    hide PlanOk, ShortNameBytes, ShortNameText, BeforeSlash, AfterSlash, TrimSlashes, Canonical;
    var u := us[i];
    assert PathOk(u);
    NameRoundTrip(BeforeSlash(u.name));
    NameRoundTrip(AfterSlash(u.name));
    PlanDir(p, d);
    PlanMember(p, d, k);
    CanonicalShorter(BeforeSlash(u.name));
    NothingTrimmed(Canonical(BeforeSlash(u.name)));
  }

  lemma CanonicalShorter(t: Text)
    requires SLASH !in t
    ensures SLASH !in Canonical(t) && Canonical(t) != [SLASH]
  {
  }

  /** Every staged file is reported under its path and reads back; no other file is reported. */
  lemma TreeHeld(image: seq<Byte>, us: seq<Upload>)
    requires AllPathsOk(us) && Complete(image, DATA_VOLUME_ID, TreePlan(MembersOf(us)))
    ensures HoldsExactly(image, TreePaths(us), PayloadsOf(us))
  {
    hide Complete, InspectImage, Leads, PlanOk, TreePath, FilePath, MemberPath, Available, TreeDirs, PathOk, MemberOf;
    var ms := MembersOf(us);
    var p := TreePlan(ms);
    CompleteInspected(image, DATA_VOLUME_ID, p);
    forall i | 0 <= i < |us|
      ensures Available(image, TreePaths(us)[i], PayloadsOf(us)[i])
    {
      var d, k := MemberPlanned(ms, i);
      MemberNamed(us, i, p, d, k);
      MemberAvailable(image, DATA_VOLUME_ID, p, d, k);
    }
    forall r | r in InspectImage(image).value.records && !r.entry.IsDirectory()
      ensures exists i :: 0 <= i < |us| && Leads(image, r, TreePaths(us)[i], PayloadsOf(us)[i])
    {
      ReportedIsPlanned(image, DATA_VOLUME_ID, p, r);
      var d: nat, k: nat :| IsMember(p, d, k) && Leads(image, r, MemberPath(p, d, k), p.dirs[d].files[k].payload);
      var i := PlannedMember(ms, d, k);
      MemberNamed(us, i, p, d, k);
      assert Leads(image, r, TreePaths(us)[i], PayloadsOf(us)[i]);
    }
  }

  /** Stages one-level application namespaces in a fresh data volume. It succeeds exactly on a fresh volume
      and well-formed paths in at most fourteen namespaces of at most thirteen files; fifteen namespaces
      pass its own checks and are refused by the inspection. The inspector then reports each file under its
      path with its bytes, and no other file. */
  method PopulateTree(source: seq<Byte>, us: seq<Upload>) returns (r: Result<seq<Byte>, FatError>)
    ensures r.Ok? <==> source == FreshImage(DATA_VOLUME_ID, DATA_LABEL) && TreeOk(us) && |Directories(MembersOf(us))| <= 14
    ensures r.Ok? ==> && AllPathsOk(us) && Complete(r.value, DATA_VOLUME_ID, TreePlan(MembersOf(us)))
                      && InspectImage(r.value) == Ok(PlanReport(TreePlan(MembersOf(us))))
                      && HoldsExactly(r.value, TreePaths(us), PayloadsOf(us)) && Marked(r.value, 0x20)
                      && var next := 3 + |Directories(MembersOf(us))| + SumMembers(MembersOf(us));
                         DataLayout(r.value, 129_024 - next, if next > 129_023 then 0xFFFF_FFFF else next)
  {
    hide ReservedArea, ReservedLayout, StartLayout, Marked;
    hide FreshImage, InspectImage, PlanOk, OnDisk, RootSlots, Contents, BootSector, FsInfoSector, Directories, Group,
         DirectoryEntry, Start, Shape, RootNode, TreeRecords, Finished, PlanReport, Partial, Pairs, SumMembers, TreeDirs, HoldsExactly;
    var verified := VerifyData(source);
    if verified.Err? {
      return Err(verified.error);
    }
    var prepared := PrepareTree(us);
    if prepared.Err? {
      return Err(prepared.error);
    }
    var (dirs, totalClusters) := prepared.value;
    TreePlanOk(us);
    ghost var p, g := TreePlan(MembersOf(us)), VolumeGeometry(DATA_VOLUME_ID, DATA_LABEL);
    DataLabel();
    FreshOnDisk(DATA_VOLUME_ID, DATA_LABEL);
    PlanFits(p);
    RootBegins(p);
    var image := new Byte[|source|](i requires 0 <= i < |source| => source[i]);
    assert image[..] == source;
    var next := LayTree(image, dirs, g, p);
    Finish(image, DATA_VOLUME_ID, p, FsInfoSector(CLUSTER_COUNT - 1, ROOT_CLUSTER + 1), next,
           CLUSTER_COUNT - 1 - |dirs| - totalClusters);
    FinishedInspected(image[..], DATA_VOLUME_ID, p);
    var report := Inspect(image[..]);
    if report.Err? {
      return Err(report.error);
    }
    TreeHeld(image[..], us);
    CompleteMarked(image[..], DATA_VOLUME_ID, p);
    r := Ok(image[..]);
  }
}
