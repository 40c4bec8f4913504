// The formatter's allocation loops over a whole plan: root files, directory clusters, then the entries and
// files of each directory (tools/fat32_image.py, build_image, populate_data_files, populate_data_tree).

module FatAllocate {
  import opened Bytes
  import opened FatChain
  import opened FatDirectory
  import opened FatInspector
  import opened FatGeometry
  import opened FatFormat
  import opened FatNames
  import opened FatLayout
  import opened FatPlan
  import opened FatStore

  function LabelSlot(volumeName: seq<Byte>): (s: Slot)
    requires |volumeName| == 11
  {
    DirectoryEntry(volumeName, LABEL_ATTRIBUTE, 0, 0)
  }

  /** The cluster at which content `j` of a plan starts; past the last one, the next free cluster. */
  function Place(p: Plan, j: nat): (c: nat)
    requires j <= Total(p)
  {
    Start(Shape(p), j)
  }

  lemma PlaceNext(p: Plan, j: nat)
    requires PlanOk(p) && j < Total(p)
    ensures Place(p, j + 1) == Place(p, j) + Blocks(Shape(p)[j]) <= CLUSTER_COUNT + 2
    ensures Place(p, j) <= CLUSTER_COUNT + 2
  {
    hide Shape;
    StartMonotone(Shape(p), j + 1, Total(p));
  }

  lemma {:induction false} SameStart(a: seq<seq<Byte>>, b: seq<seq<Byte>>, j: nat)
    requires j <= |a| && j <= |b| && forall i :: 0 <= i < j ==> |a[i]| == |b[i]|
    ensures Start(a, j) == Start(b, j)
    decreases j
  {
    if j > 0 {
      SameStart(a, b, j - 1);
    }
  }

  // How much room a plan needs

  function SumFiles(files: seq<Staged>): (n: nat) {
    if files == [] then 0 else SumFiles(files[..|files| - 1]) + Blocks(files[|files| - 1].payload)
  }

  /** Blocks of the files of the first `n` directories. */
  function SumDirs(dirs: seq<Package>, n: nat): (s: nat)
    requires n <= |dirs|
  {
    if n == 0 then 0 else SumDirs(dirs, n - 1) + SumFiles(dirs[n - 1].files)
  }

  /** Position of the first file of directory `d`; past the last directory, the end. */
  function FirstMember(p: Plan, d: nat): (j: nat)
    requires d <= |p.dirs|
  {
    |p.files| + |p.dirs| + |Pairs(p.dirs, d)|
  }

  lemma {:induction false} PairsGrow(dirs: seq<Package>, d: nat, n: nat)
    requires d <= n <= |dirs|
    ensures |Pairs(dirs, d)| <= |Pairs(dirs, n)|
    decreases n
  {
    if d < n {
      PairsGrow(dirs, d, n - 1);
    }
  }

  lemma FirstMemberInside(p: Plan, d: nat)
    requires d <= |p.dirs|
    ensures FirstMember(p, d) <= Total(p) && |Pairs(p.dirs, d)| <= |Pairs(p.dirs, |p.dirs|)|
    ensures d < |p.dirs| ==> FirstMember(p, d + 1) == FirstMember(p, d) + |p.dirs[d].files|
    ensures FirstMember(p, |p.dirs|) == Total(p) && FirstMember(p, 0) == |p.files| + |p.dirs|
  {
    PairsGrow(p.dirs, d, |p.dirs|);
  }

  lemma {:induction false} RootPlaces(p: Plan, i: nat)
    requires i <= |p.files|
    ensures Place(p, i) == ROOT_CLUSTER + 1 + SumFiles(p.files[..i])
    decreases i
  {
    if i > 0 {
      RootPlaces(p, i - 1);
      SumNext(p.files, i - 1);
      assert Shape(p)[i - 1] == p.files[i - 1].payload;
    } else {
      assert p.files[..0] == [];
    }
  }

  lemma {:induction false} DirPlaces(p: Plan, d: nat)
    requires d <= |p.dirs|
    ensures Place(p, |p.files| + d) == Place(p, |p.files|) + d
    decreases d
  {
    if d > 0 {
      DirPlaces(p, d - 1);
      assert |Shape(p)[|p.files| + d - 1]| == SECTOR_BYTES;
    }
  }

  lemma PlaceStep(p: Plan, j: nat)
    requires j < Total(p)
    ensures Place(p, j + 1) == Place(p, j) + Blocks(Shape(p)[j])
  {
    hide Shape;
  }

  lemma MemberShape(p: Plan, d: nat, k: nat)
    requires d < |p.dirs| && k < |p.dirs[d].files|
    ensures FirstMember(p, d) + k < Total(p) && Shape(p)[FirstMember(p, d) + k] == p.dirs[d].files[k].payload
  {
    hide Pairs;
    PairAt(p.dirs, |p.dirs|, d, k);
  }

  lemma SumNext(files: seq<Staged>, k: nat)
    requires k < |files|
    ensures SumFiles(files[..k + 1]) == SumFiles(files[..k]) + Blocks(files[k].payload)
  {
    hide Blocks;
    assert files[..k + 1][..k] == files[..k];
  }

  lemma {:induction false} MemberPlaces(p: Plan, d: nat, k: nat)
    requires d < |p.dirs| && k <= |p.dirs[d].files|
    ensures FirstMember(p, d) + k <= Total(p)
    ensures Place(p, FirstMember(p, d) + k) == Place(p, FirstMember(p, d)) + SumFiles(p.dirs[d].files[..k])
    decreases k
  {
    hide Pairs, Place, Shape, Blocks, FirstMember, Total;
    FirstMemberInside(p, d);
    if k > 0 {
      MemberPlaces(p, d, k - 1);
      MemberShape(p, d, k - 1);
      PlaceStep(p, FirstMember(p, d) + k - 1);
      SumNext(p.dirs[d].files, k - 1);
    } else {
      assert p.dirs[d].files[..0] == [];
    }
  }

  lemma {:induction false} DirectoryPlaces(p: Plan, d: nat)
    requires d <= |p.dirs|
    ensures FirstMember(p, d) <= Total(p)
    ensures Place(p, FirstMember(p, d)) == Place(p, |p.files| + |p.dirs|) + SumDirs(p.dirs, d)
    decreases d
  {
    hide Place, Pairs, FirstMember, SumFiles, Total;
    FirstMemberInside(p, d);
    FirstMemberInside(p, 0);
    if d > 0 {
      var files := p.dirs[d - 1].files;
      DirectoryPlaces(p, d - 1);
      FirstMemberInside(p, d - 1);
      MemberPlaces(p, d - 1, |files|);
      assert files[..|files|] == files;
    }
  }

  /** The next free cluster after a whole plan. */
  lemma PlanEnds(p: Plan)
    ensures Start(Shape(p), Total(p)) == ROOT_CLUSTER + 1 + SumFiles(p.files) + |p.dirs| + SumDirs(p.dirs, |p.dirs|)
  {
    hide Start, Shape, SumFiles, SumDirs, Pairs;
    RootPlaces(p, |p.files|);
    assert p.files[..|p.files|] == p.files;
    DirPlaces(p, |p.dirs|);
    DirectoryPlaces(p, |p.dirs|);
    FirstMemberInside(p, |p.dirs|);
  }

  // Root files

  /** One root file: its content comes next and its entry is the next root slot. */
  lemma FileStep(p: Plan, i: nat)
    requires PlanOk(p) && i < |p.files|
    ensures var f := p.files[i];
            && f.payload != [] && |f.payload| < 0x1_0000_0000 && |f.name| == 11
            && Place(p, i) + Blocks(f.payload) == Place(p, i + 1) <= CLUSTER_COUNT + 2 && Place(p, i) <= FAT32_MAX_CLUSTER
            && Start(Contents(p)[..i], i) == Place(p, i)
            && Contents(p)[..i + 1] == Contents(p)[..i] + [f.payload]
            && i + 2 <= |RootSlots(p)| <= SLOTS
            && RootSlots(p)[..i + 2] == RootSlots(p)[..i + 1] + [DirectoryEntry(f.name, p.attributes, Place(p, i), |f.payload|)]
  {
    hide PlanOk, Contents, Shape, RootSlots, DirectoryEntry, Start, TextOf;
    PlanFile(p, i);
    FileContent(p, i);
    PlaceNext(p, i);
    SamePlaces(p, i);
    SameStart(Contents(p)[..i], Contents(p), i);
    RootSlotNext(p, i);
  }

  lemma RootBegins(p: Plan)
    requires PlanOk(p)
    ensures |p.volumeName| == 11 && RootSlots(p)[..1] == [LabelSlot(p.volumeName)]
    ensures Contents(p)[..0] == [] && Place(p, 0) == ROOT_CLUSTER + 1
  {
    hide DirectoryEntry;
  }

  /** The loop over root files. */
  method LayRootFiles(image: array<Byte>, files: seq<Staged>, attributes: Byte, ghost g: Geometry, ghost p: Plan)
    returns (next: nat)
    requires image.Length == IMAGE_BYTES && PlanOk(p) && files == p.files && attributes == p.attributes
    requires OnDisk(image[..], g, RootSlots(p)[..1], [])
    modifies image
    ensures OnDisk(image[..], g, RootSlots(p)[..|files| + 1], Contents(p)[..|files|])
    ensures image[..RESERVED_BYTES] == old(image[..RESERVED_BYTES])
    ensures next == Place(p, |files|)
  {
    hide PlanOk, OnDisk, RootSlots, Contents, DirectoryEntry, Place, Blocks;
    RootBegins(p);
    next := ROOT_CLUSTER + 1;
    for i := 0 to |files|
      invariant next == Place(p, i)
      invariant OnDisk(image[..], g, RootSlots(p)[..i + 1], Contents(p)[..i])
      invariant image[..RESERVED_BYTES] == old(image[..RESERVED_BYTES])
    {
      var f := files[i];
      FileStep(p, i);
      LayContent(image, g, next, f.payload, RootSlots(p)[..i + 1], Contents(p)[..i]);
      AddRootEntry(image, g, i + 1, DirectoryEntry(f.name, attributes, next, |f.payload|),
                   RootSlots(p)[..i + 1], Contents(p)[..i + 1]);
      next := next + Blocks(f.payload);
    }
  }

  // Directory clusters

  /** Contents once the first `n` directories are open and empty. */
  ghost function Opening(p: Plan, n: nat): (s: seq<seq<Byte>>)
    requires PlanOk(p) && n <= |p.dirs|
    ensures |s| == |p.files| + n
  {
    Contents(p)[..|p.files|] + seq(n, _ => Pack([]))
  }

  lemma OpeningStep(p: Plan, d: nat)
    requires PlanOk(p) && d < |p.dirs|
    ensures Opening(p, d) + [Pack([])] == Opening(p, d + 1)
    ensures Start(Opening(p, d), |Opening(p, d)|) == DirCluster(p, d) <= CLUSTER_COUNT + 1
    ensures Place(p, |p.files| + d) == DirCluster(p, d) && Place(p, |p.files| + d + 1) == DirCluster(p, d) + 1
  {
    hide PlanOk, Pack, Contents, Shape, Start;
    forall i | 0 <= i < |p.files| + d
      ensures |Opening(p, d)[i]| == |Shape(p)[i]|
    {
      if i < |p.files| {
        ContentLength(p, i);
      } else {
        DirContent(p, i - |p.files|);
      }
    }
    SameStart(Opening(p, d), Shape(p), |p.files| + d);
    PlaceNext(p, |p.files| + d);
    DirContent(p, d);
  }

  /** The root entry of a directory. */
  lemma DirRootSlot(p: Plan, d: nat)
    requires PlanOk(p) && d < |p.dirs|
    ensures |p.dirs[d].name| == 11 && |p.files| + d + 2 <= |RootSlots(p)| <= SLOTS && DirCluster(p, d) <= FAT32_MAX_CLUSTER
    ensures RootSlots(p)[..|p.files| + d + 2] == RootSlots(p)[..|p.files| + d + 1]
            + [DirectoryEntry(p.dirs[d].name, DIRECTORY_ATTRIBUTE, DirCluster(p, d), 0)]
  {
    hide PlanOk, DirectoryEntry, RootSlots, TextOf, Opening, DirCluster;
    PlanDir(p, d);
    OpeningStep(p, d);
    RootSlotNext(p, |p.files| + d);
  }

  // Filling directories

  /** The contents while directory `d` is being filled: earlier directories complete, `d` with the given
      slots, later ones still empty, and the first `m` directory files. */
  ghost function Partial(p: Plan, d: nat, slots: seq<Slot>, m: nat): (s: seq<seq<Byte>>)
    requires PlanOk(p) && d <= |p.dirs| && |slots| <= SLOTS && m <= |Pairs(p.dirs, |p.dirs|)|
    ensures |s| == |p.files| + |p.dirs| + m
  {
    seq(|p.files| + |p.dirs| + m, j requires 0 <= j < |p.files| + |p.dirs| + m => PartialAt(p, d, slots, j))
  }

  ghost function PartialAt(p: Plan, d: nat, slots: seq<Slot>, j: nat): (s: seq<Byte>)
    requires PlanOk(p) && d <= |p.dirs| && |slots| <= SLOTS && j < Total(p)
  {
    if !(|p.files| <= j < |p.files| + |p.dirs|) then PayloadAt(p, j)
    else if j < |p.files| + d then DirBlock(p, j - |p.files|)
    else if j == |p.files| + d then Pack(slots)
    else Pack([])
  }

  lemma OpeningDone(p: Plan)
    requires PlanOk(p)
    ensures Opening(p, |p.dirs|) == Partial(p, 0, [], 0)
  {
    hide PlanOk, Pack, DirBlock, PayloadAt;
    var a, b := Opening(p, |p.dirs|), Partial(p, 0, [], 0);
    forall j | 0 <= j < |a|
      ensures a[j] == b[j]
    {
      assert b[j] == PartialAt(p, 0, [], j);
      assert j < |p.files| ==> a[j] == ContentAt(p, j);
    }
  }

  lemma PartialSlot(p: Plan, d: nat, slots: seq<Slot>, more: seq<Slot>, m: nat)
    requires PlanOk(p) && d < |p.dirs| && |slots| <= SLOTS && |more| <= SLOTS && m <= |Pairs(p.dirs, |p.dirs|)|
    ensures Partial(p, d, slots, m)[|p.files| + d] == Pack(slots)
    ensures Partial(p, d, slots, m)[|p.files| + d := Pack(more)] == Partial(p, d, more, m)
  {
    hide PlanOk, Pack, DirBlock, PayloadAt;
    var a, b := Partial(p, d, slots, m)[|p.files| + d := Pack(more)], Partial(p, d, more, m);
    forall j | 0 <= j < |a|
      ensures a[j] == b[j]
    {
      assert PartialAt(p, d, slots, j) == PartialAt(p, d, more, j) || j == |p.files| + d;
    }
  }

  lemma PartialFile(p: Plan, d: nat, slots: seq<Slot>, k: nat)
    requires PlanOk(p) && d < |p.dirs| && |slots| <= SLOTS && k < |p.dirs[d].files|
    ensures |Pairs(p.dirs, d)| + k + 1 <= |Pairs(p.dirs, |p.dirs|)|
    ensures var m := |Pairs(p.dirs, d)| + k;
            Partial(p, d, slots, m) + [p.dirs[d].files[k].payload] == Partial(p, d, slots, m + 1)
  {
    hide PlanOk, Pack, DirBlock, Pairs;
    PairAt(p.dirs, |p.dirs|, d, k);
    var m := |Pairs(p.dirs, d)| + k;
    var a, b := Partial(p, d, slots, m) + [p.dirs[d].files[k].payload], Partial(p, d, slots, m + 1);
    forall j | 0 <= j < |a|
      ensures a[j] == b[j]
    {
      assert j < |p.files| + |p.dirs| + m ==> a[j] == PartialAt(p, d, slots, j);
    }
  }

  lemma PartialNext(p: Plan, d: nat, m: nat)
    requires PlanOk(p) && d < |p.dirs| && m <= |Pairs(p.dirs, |p.dirs|)|
    ensures |DirSlots(p, d)| <= SLOTS
    ensures Partial(p, d, DirSlots(p, d), m) == Partial(p, d + 1, [], m)
  {
    hide PlanOk, Pack, Pairs, DirSlots, PayloadAt;
    PlanDir(p, d);
    var a, b := Partial(p, d, DirSlots(p, d), m), Partial(p, d + 1, [], m);
    forall j | 0 <= j < |a|
      ensures a[j] == b[j]
    {
      assert a[j] == PartialAt(p, d, DirSlots(p, d), j) && b[j] == PartialAt(p, d + 1, [], j);
    }
  }

  lemma PartialDone(p: Plan)
    requires PlanOk(p)
    ensures Partial(p, |p.dirs|, [], |Pairs(p.dirs, |p.dirs|)|) == Contents(p)
  {
    hide PlanOk, DirBlock, Pairs, PayloadAt;
    var a, b := Partial(p, |p.dirs|, [], |Pairs(p.dirs, |p.dirs|)|), Contents(p);
    forall j | 0 <= j < |a|
      ensures a[j] == b[j]
    {
      assert a[j] == PartialAt(p, |p.dirs|, [], j) && b[j] == ContentAt(p, j);
    }
  }

  lemma PartialStart(p: Plan, d: nat, slots: seq<Slot>, m: nat, j: nat)
    requires PlanOk(p) && d <= |p.dirs| && |slots| <= SLOTS && m <= |Pairs(p.dirs, |p.dirs|)|
    requires j <= |p.files| + |p.dirs| + m
    ensures Start(Partial(p, d, slots, m), j) == Place(p, j)
  {
    hide PlanOk, DirBlock, Pack, PayloadAt, Start;
    forall i | 0 <= i < j
      ensures |Partial(p, d, slots, m)[i]| == |Shape(p)[i]|
    {
      assert Partial(p, d, slots, m)[i] == PartialAt(p, d, slots, i) && Shape(p)[i] == ShapeAt(p, i);
    }
    SameStart(Partial(p, d, slots, m), Shape(p), j);
  }

  /** Where file `k` of directory `d` goes. */
  lemma MemberRoom(p: Plan, d: nat, k: nat)
    requires PlanOk(p) && d < |p.dirs| && k < |p.dirs[d].files|
    ensures var f, j := p.dirs[d].files[k], FirstMember(p, d) + k;
            && f.payload != [] && |f.payload| < 0x1_0000_0000 && |f.name| == 11
            && j < Total(p) && Place(p, j) + Blocks(f.payload) == Place(p, j + 1) <= CLUSTER_COUNT + 2
            && Place(p, j) <= FAT32_MAX_CLUSTER
  {
    hide PlanOk, Contents, Shape, Pairs, Start;
    PlanMember(p, d, k);
    MemberShape(p, d, k);
    PlaceNext(p, FirstMember(p, d) + k);
  }

  /** And the entry that names it. */
  lemma MemberSlot(p: Plan, d: nat, k: nat)
    requires PlanOk(p) && IsPlaced(p, d, k)
    ensures 3 + k <= |DirSlots(p, d)| <= SLOTS - 1
    ensures DirSlots(p, d)[..3 + k] == DirSlots(p, d)[..2 + k] + [MemberEntry(p, d, k)]
  {
    hide PlanOk, DirSlots, Shape, Pairs, DirectoryEntry, TextOf, Start;
    DirSlotNext(p, d, 2 + k);
  }

  ghost predicate IsPlaced(p: Plan, d: nat, k: nat) {
    && d < |p.dirs| && k < |p.dirs[d].files|
    && |p.dirs[d].files[k].name| == 11 && |p.dirs[d].files[k].payload| < 0x1_0000_0000
    && FirstMember(p, d) + k <= Total(p) && Place(p, FirstMember(p, d) + k) <= FAT32_MAX_CLUSTER
  }

  ghost function MemberEntry(p: Plan, d: nat, k: nat): (s: Slot)
    requires IsPlaced(p, d, k)
  {
    var f := p.dirs[d].files[k];
    DirectoryEntry(f.name, p.attributes, Place(p, FirstMember(p, d) + k), |f.payload|)
  }

  /** The first two entries of a directory. */
  lemma DotStep(p: Plan, d: nat)
    requires PlanOk(p) && d < |p.dirs|
    ensures 2 <= |DirSlots(p, d)| <= SLOTS - 1 && DirCluster(p, d) <= CLUSTER_COUNT + 1
    ensures DirSlots(p, d)[..1] == [DirectoryEntry(DOT_NAME, DIRECTORY_ATTRIBUTE, DirCluster(p, d), 0)]
    ensures DirSlots(p, d)[..2] == DirSlots(p, d)[..1] + [DirectoryEntry(DOTDOT_NAME, DIRECTORY_ATTRIBUTE, ROOT_CLUSTER, 0)]
  {
    hide PlanOk, DirectoryEntry, DirSlots, TextOf, DirCluster, Opening;
    OpeningStep(p, d);
    DirSlotNext(p, d, 0);
    DirSlotNext(p, d, 1);
    assert DirSlots(p, d)[..0] == [];
  }

  method LayDots(image: array<Byte>, cluster: nat, ghost g: Geometry, ghost p: Plan, ghost d: nat, ghost ss: seq<Slot>)
    requires image.Length == IMAGE_BYTES && PlanOk(p) && d < |p.dirs| && cluster == DirCluster(p, d)
    requires |Pairs(p.dirs, d)| <= |Pairs(p.dirs, |p.dirs|)|
    requires OnDisk(image[..], g, ss, Partial(p, d, [], |Pairs(p.dirs, d)|))
    modifies image
    ensures |DirSlots(p, d)| <= SLOTS
    ensures OnDisk(image[..], g, ss, Partial(p, d, DirSlots(p, d)[..2], |Pairs(p.dirs, d)|))
    ensures image[..RESERVED_BYTES] == old(image[..RESERVED_BYTES])
  {
    hide PlanOk, OnDisk, DirSlots, Partial, Start, DirectoryEntry, Pack, DirCluster, Pairs, Opening;
    ghost var k, m, one, two := |p.files| + d, |Pairs(p.dirs, d)|, DirSlots(p, d)[..1], DirSlots(p, d)[..2];
    OpeningStep(p, d);
    DotStep(p, d);
    PartialStart(p, d, [], m, k);
    PartialSlot(p, d, [], one, m);
    var dot := DirectoryEntry(DOT_NAME, DIRECTORY_ATTRIBUTE, cluster, 0);
    assert [] + [dot] == one;
    AddEntry(image, g, cluster, 0, dot, ss, Partial(p, d, [], m), k, []);
    PartialStart(p, d, one, m, k);
    PartialSlot(p, d, one, two, m);
    var dotdot := DirectoryEntry(DOTDOT_NAME, DIRECTORY_ATTRIBUTE, ROOT_CLUSTER, 0);
    AddEntry(image, g, cluster, 1, dotdot, ss, Partial(p, d, one, m), k, one);
  }

  /** One file of a directory: its blocks, then its entry. */
  method LayMember(image: array<Byte>, f: Staged, attributes: Byte, cluster: nat, k: nat, first: nat,
                   ghost g: Geometry, ghost p: Plan, ghost d: nat, ghost ss: seq<Slot>)
    returns (next: nat)
    requires image.Length == IMAGE_BYTES && PlanOk(p) && d < |p.dirs| && k < |p.dirs[d].files| && f == p.dirs[d].files[k]
    requires attributes == p.attributes && cluster == DirCluster(p, d) && |DirSlots(p, d)| <= SLOTS
    requires |Pairs(p.dirs, d)| + k <= |Pairs(p.dirs, |p.dirs|)| && first == Place(p, FirstMember(p, d) + k)
    requires OnDisk(image[..], g, ss, Partial(p, d, DirSlots(p, d)[..2 + k], |Pairs(p.dirs, d)| + k))
    modifies image
    ensures |Pairs(p.dirs, d)| + k + 1 <= |Pairs(p.dirs, |p.dirs|)|
    ensures OnDisk(image[..], g, ss, Partial(p, d, DirSlots(p, d)[..3 + k], |Pairs(p.dirs, d)| + k + 1))
    ensures image[..RESERVED_BYTES] == old(image[..RESERVED_BYTES])
    ensures next == Place(p, FirstMember(p, d) + k + 1)
  {
    hide PlanOk, OnDisk, DirSlots, Partial, Start, Place, Blocks, Pairs, DirectoryEntry, Pack, DirCluster, Opening;
    ghost var m, slots, at := |Pairs(p.dirs, d)| + k, DirSlots(p, d)[..2 + k], |p.files| + d;
    MemberRoom(p, d, k);
    MemberSlot(p, d, k);
    PartialFile(p, d, slots, k);
    PartialStart(p, d, slots, m, |p.files| + |p.dirs| + m);
    LayContent(image, g, first, f.payload, ss, Partial(p, d, slots, m));
    var s := DirectoryEntry(f.name, attributes, first, |f.payload|);
    OpeningStep(p, d);
    PartialStart(p, d, slots, m + 1, at);
    PartialSlot(p, d, slots, slots + [s], m + 1);
    AddEntry(image, g, cluster, 2 + k, s, ss, Partial(p, d, slots, m + 1), at, slots);
    next := first + Blocks(f.payload);
  }

  /** The dot entries and the files of directory `d`. */
  method FillDirectory(image: array<Byte>, files: seq<Staged>, attributes: Byte, cluster: nat, first: nat,
                       ghost g: Geometry, ghost p: Plan, ghost d: nat, ghost ss: seq<Slot>)
    returns (next: nat)
    requires image.Length == IMAGE_BYTES && PlanOk(p) && d < |p.dirs| && files == p.dirs[d].files
    requires attributes == p.attributes && cluster == DirCluster(p, d)
    requires |Pairs(p.dirs, d)| <= |Pairs(p.dirs, |p.dirs|)| && first == Place(p, FirstMember(p, d))
    requires OnDisk(image[..], g, ss, Partial(p, d, [], |Pairs(p.dirs, d)|))
    modifies image
    ensures |Pairs(p.dirs, d + 1)| <= |Pairs(p.dirs, |p.dirs|)|
    ensures OnDisk(image[..], g, ss, Partial(p, d + 1, [], |Pairs(p.dirs, d + 1)|))
    ensures image[..RESERVED_BYTES] == old(image[..RESERVED_BYTES])
    ensures next == Place(p, FirstMember(p, d + 1))
  {
    hide PlanOk, OnDisk, DirSlots, Partial, Place, Pairs, DirCluster;
    LayDots(image, cluster, g, p, d, ss);
    next := first;
    for k := 0 to |files|
      invariant |Pairs(p.dirs, d)| + k <= |Pairs(p.dirs, |p.dirs|)|
      invariant next == Place(p, FirstMember(p, d) + k)
      invariant OnDisk(image[..], g, ss, Partial(p, d, DirSlots(p, d)[..2 + k], |Pairs(p.dirs, d)| + k))
      invariant image[..RESERVED_BYTES] == old(image[..RESERVED_BYTES])
    {
      next := LayMember(image, files[k], attributes, cluster, k, next, g, p, d, ss);
    }
    assert DirSlots(p, d)[..2 + |files|] == DirSlots(p, d);
    FirstMemberInside(p, d);
    FirstMemberInside(p, d + 1);
    PartialNext(p, d, |Pairs(p.dirs, d + 1)|);
  }
}
