// What the formatter is asked to store, the directory blocks and extents that store it, and the proof
// that the inspector accepts the result (tools/fat32_image.py, build_image and populate_data_*).

module FatPlan {
  import opened Bytes
  import opened FatChain
  import opened FatDirectory
  import opened FatTree
  import opened FatInspector
  import opened FatAcceptance
  import opened FatGeometry
  import opened FatFormat
  import opened FatNames
  import opened FatLayout

  const SLOTS := 16
  const MAX_FILE_BYTES := 16_777_216
  const FILE_ATTRIBUTE: Byte := 0x20
  const SYSTEM_ATTRIBUTE: Byte := 0x21
  const DIRECTORY_ATTRIBUTE: Byte := 0x10
  const LABEL_ATTRIBUTE: Byte := 0x08

  datatype Staged = Staged(name: seq<Byte>, payload: seq<Byte>)
  datatype Package = Package(name: seq<Byte>, files: seq<Staged>)

  /** Files and one level of directories for a volume: root files first, then directories, then the
      files of each directory. */
  datatype Plan = Plan(volumeName: seq<Byte>, attributes: Byte, files: seq<Staged>, dirs: seq<Package>)

  // Directory blocks

  /** A directory block: the given slots, then zeros. */
  function Pack(slots: seq<Slot>): (block: seq<Byte>)
    requires |slots| <= SLOTS
    ensures |block| == SECTOR_BYTES
  {
    seq(SECTOR_BYTES, k requires 0 <= k < SECTOR_BYTES =>
      if k / ENTRY_BYTES < |slots| then slots[k / ENTRY_BYTES][k % ENTRY_BYTES] else 0)
  }

  lemma PackedSlot(slots: seq<Slot>, i: nat)
    requires |slots| <= SLOTS && i < SLOTS
    ensures Slots(Pack(slots))[i] == if i < |slots| then slots[i] else Zeros(ENTRY_BYTES)
  {
    var s := Slots(Pack(slots))[i];
    assert s == Pack(slots)[ENTRY_BYTES * i..ENTRY_BYTES * i + ENTRY_BYTES];
    forall t | 0 <= t < ENTRY_BYTES
      ensures s[t] == if i < |slots| then slots[i][t] else 0
    {
      assert (ENTRY_BYTES * i + t) / ENTRY_BYTES == i && (ENTRY_BYTES * i + t) % ENTRY_BYTES == t;
    }
  }

  /** Writing the next entry appends it. */
  lemma PackAppend(slots: seq<Slot>, s: Slot)
    requires |slots| < SLOTS
    ensures Patch(Pack(slots), ENTRY_BYTES * |slots|, s) == Pack(slots + [s])
  {
    var n := |slots|;
    var a, b := Patch(Pack(slots), ENTRY_BYTES * n, s), Pack(slots + [s]);
    forall k | 0 <= k < SECTOR_BYTES
      ensures a[k] == b[k]
    {
      var q, t := k / ENTRY_BYTES, k % ENTRY_BYTES;
      assert k == ENTRY_BYTES * q + t;
      if q < n {
      } else if q == n {
        assert ENTRY_BYTES * n <= k < ENTRY_BYTES * n + ENTRY_BYTES;
      } else {
        assert k >= ENTRY_BYTES * n + ENTRY_BYTES;
      }
    }
  }

  predicate Encodable(e: Entry) {
    |e.name| == 11 && e.firstCluster <= FAT32_MAX_CLUSTER && e.size < 0x1_0000_0000
  }

  ghost predicate EntryOk(e: Entry) {
    && Encodable(e) && e.name[0] != 0 && e.name[0] != 0xE5
    && ShortNameText(e.name) == Ok(e.text)
    && e.attributes / 8 % 2 == 0
  }

  ghost predicate EntriesOk(es: seq<Entry>) {
    forall i :: 0 <= i < |es| ==> EntryOk(es[i])
  }

  predicate AllEncodable(es: seq<Entry>) {
    forall i :: 0 <= i < |es| ==> Encodable(es[i])
  }

  function SlotOf(e: Entry): (s: Slot)
    requires Encodable(e)
  {
    DirectoryEntry(e.name, e.attributes, e.firstCluster, e.size)
  }

  function SlotsOf(es: seq<Entry>): (ss: seq<Slot>)
    requires AllEncodable(es)
    ensures |ss| == |es|
  {
    seq(|es|, i requires 0 <= i < |es| => SlotOf(es[i]))
  }

  lemma SlotListed(e: Entry)
    requires EntryOk(e)
    ensures var s := SlotOf(e);
            && IsListed(s) && s[..11] == e.name
            && EntryOf(s, e.text) == e
  {
    EntryRoundTrip(e.name, e.attributes, e.firstCluster, e.size, e.text);
    var s := SlotOf(e);
    assert s[0] == s[..11][0];
  }

  lemma {:induction false} ListingOf(es: seq<Entry>)
    requires EntriesOk(es)
    ensures AllEncodable(es)
    ensures WellFormedSlots(SlotsOf(es)) && Listing(SlotsOf(es)) == es
    decreases |es|
  {
    hide DirectoryEntry;
    forall i | 0 <= i < |es|
      ensures var s := SlotsOf(es)[i]; IsListed(s) && s[..11] == es[i].name && EntryOf(s, es[i].text) == es[i]
    {
      SlotListed(es[i]);
    }
    if es != [] {
      ListingOf(es[1..]);
      assert SlotsOf(es)[1..] == SlotsOf(es[1..]);
    }
  }

  /** The volume label's slot is skipped. */
  lemma ListingWithLabel(volumeName: seq<Byte>, es: seq<Entry>)
    requires IsLabel(volumeName) && EntriesOk(es) && AllEncodable(es)
    ensures var ss := [DirectoryEntry(volumeName, LABEL_ATTRIBUTE, 0, 0)] + SlotsOf(es);
            WellFormedSlots(ss) && Listing(ss) == es
  {
    hide DirectoryEntry, SlotsOf, WellFormedSlots, Listing, IsOrdinary, IsListed;
    LabelSkipped(volumeName);
    ListingOf(es);
    SkipSlot(DirectoryEntry(volumeName, LABEL_ATTRIBUTE, 0, 0), SlotsOf(es));
  }

  lemma LabelSkipped(volumeName: seq<Byte>)
    requires IsLabel(volumeName)
    ensures var s := DirectoryEntry(volumeName, LABEL_ATTRIBUTE, 0, 0); IsOrdinary(s) && !IsListed(s)
  {
    hide DirectoryEntry;
    var s := DirectoryEntry(volumeName, LABEL_ATTRIBUTE, 0, 0);
    EntryRoundTrip(volumeName, LABEL_ATTRIBUTE, 0, 0, []);
    assert s[0] == s[..11][0] == volumeName[0];
  }

  /** An ordinary slot that is not listed, in front of others. */
  lemma SkipSlot(s: Slot, ss: seq<Slot>)
    requires IsOrdinary(s) && !IsListed(s) && WellFormedSlots(ss)
    ensures WellFormedSlots([s] + ss) && Listing([s] + ss) == Listing(ss)
  {
    hide LongNameHeaderOk, LongNameTextOk, ShortNameText;
    var all := [s] + ss;
    assert all[1..] == ss && [] + Listing(ss) == Listing(ss);
    assert forall i :: 0 <= i < |ss| ==> all[i + 1] == ss[i];
  }

  /** A one-cluster directory with room for an end marker is read back in full. */
  lemma PackedContent(v: Volume, c: int, ss: seq<Slot>, es: seq<Entry>)
    requires v.Valid() && v.InRange(c) && |ss| < SLOTS && v.data[c] == Pack(ss)
    requires WellFormedSlots(ss) && Listing(ss) == es
    ensures FolderContent(v, [c], es)
  {
    hide Pack, Slots, Listing, WellFormedSlots;
    var all, k := FlatSlots(v, [c]), |ss|;
    assert [c][1..] == [];
    assert all == Slots(Pack(ss)) + FlatSlots(v, []) == Slots(Pack(ss));
    PackedSlots(ss);
    assert [c][..0] == [];
    assert IsEnd(all[k]) && Reads(all, k, es);
  }

  lemma PackedSlots(ss: seq<Slot>)
    requires |ss| <= SLOTS
    ensures |Slots(Pack(ss))| == SLOTS && Slots(Pack(ss))[..|ss|] == ss
    ensures |ss| < SLOTS ==> IsEnd(Slots(Pack(ss))[|ss|])
  {
    forall i | 0 <= i < |ss|
      ensures Slots(Pack(ss))[i] == ss[i]
    {
      PackedSlot(ss, i);
    }
    if |ss| < SLOTS {
      PackedSlot(ss, |ss|);
    }
  }

  /** Without room for one it is refused. */
  lemma FullDirectoryRefused(v: Volume, c: int, ss: seq<Slot>, path: Text, owners: Owners, stack: set<int>)
    requires v.Valid() && v.InRange(c) && |ss| == SLOTS && v.data[c] == Pack(ss) && v.clusterBytes == SECTOR_BYTES
    requires v.fat[c] >= FAT32_EOC_MIN && WellFormedSlots(ss)
    requires c !in owners && c !in stack
    ensures ParseDirectory(v, c, path, owners, stack) == Err(NoEndMarker)
  {
    assert IsPath(v, c, [c]);
    WalkChainExact(v, c, [c]);
    hide Pack, Slots, Listing, WellFormedSlots, ScanSlots;
    PackedSlots(ss);
    assert ss[..SLOTS] == ss == Slots(Pack(ss))[..SLOTS] == Slots(Pack(ss));
    ScanComplete(ss, false, [], SLOTS, [] + Listing(ss));
    var scan := ScanSlots(ss, false, []).value;
    assert [c][1..] == [];
    assert ScanChain(v, [], path, owners[c := path], scan.pending, scan.entries) == Err(NoEndMarker);
    assert ScanChain(v, [c], path, owners, false, []) == Err(NoEndMarker);
  }

  // Plans

  ghost predicate StagedOk(f: Staged) {
    ShortName(f.name) && 0 < |f.payload| <= MAX_FILE_BYTES
  }

  ghost predicate PackageOk(d: Package) {
    && ShortName(d.name) && |d.files| <= SLOTS - 3
    && (forall k :: 0 <= k < |d.files| ==> StagedOk(d.files[k]))
    && forall k, l :: 0 <= k < l < |d.files| ==> d.files[k].name != d.files[l].name
  }

  /** Directory files as (directory, position) pairs, in storage order. */
  function Pairs(dirs: seq<Package>, n: nat): (s: seq<(nat, nat)>)
    requires n <= |dirs|
    ensures forall m :: 0 <= m < |s| ==> s[m].0 < n && s[m].1 < |dirs[s[m].0].files|
  {
    if n == 0 then [] else Pairs(dirs, n - 1) + seq(|dirs[n - 1].files|, k => (n - 1, k))
  }

  function RootName(p: Plan, i: nat): (name: seq<Byte>)
    requires i < |p.files| + |p.dirs|
  {
    if i < |p.files| then p.files[i].name else p.dirs[i - |p.files|].name
  }

  function Total(p: Plan): (n: nat) {
    |p.files| + |p.dirs| + |Pairs(p.dirs, |p.dirs|)|
  }

  /** Content `j`, with blank blocks in place of directories: enough to place everything. */
  function Shape(p: Plan): (s: seq<seq<Byte>>)
    ensures |s| == Total(p)
  {
    seq(Total(p), j requires 0 <= j < Total(p) => ShapeAt(p, j))
  }

  function ShapeAt(p: Plan, j: nat): (s: seq<Byte>)
    requires j < Total(p)
  {
    if |p.files| <= j < |p.files| + |p.dirs| then Zeros(SECTOR_BYTES) else PayloadAt(p, j)
  }

  function PayloadAt(p: Plan, j: nat): (s: seq<Byte>)
    requires j < Total(p) && !(|p.files| <= j < |p.files| + |p.dirs|)
  {
    var nf, nd := |p.files|, |p.dirs|;
    if j < nf then p.files[j].payload
    else
      var (d, k) := Pairs(p.dirs, nd)[j - nf - nd];
      p.dirs[d].files[k].payload
  }

  ghost predicate PlanOk(p: Plan) {
    && IsLabel(p.volumeName) && (p.attributes == FILE_ATTRIBUTE || p.attributes == SYSTEM_ATTRIBUTE)
    && (forall i :: 0 <= i < |p.files| ==> StagedOk(p.files[i]))
    && (forall d :: 0 <= d < |p.dirs| ==> PackageOk(p.dirs[d]))
    && (forall i, j :: 0 <= i < j < |p.files| + |p.dirs| ==> RootName(p, i) != RootName(p, j))
    && Start(Shape(p), Total(p)) <= CLUSTER_COUNT + 2
    && 1 + |p.files| + |p.dirs| <= SLOTS
  }

  lemma PlanAttributes(p: Plan)
    requires PlanOk(p)
    ensures p.attributes / 8 % 2 == 0 && p.attributes / 0x10 % 2 == 0
  {
  }

  lemma PlanFile(p: Plan, i: nat)
    requires PlanOk(p) && i < |p.files|
    ensures StagedOk(p.files[i])
  {
  }

  lemma PlanMember(p: Plan, d: nat, k: nat)
    requires PlanOk(p) && d < |p.dirs| && k < |p.dirs[d].files|
    ensures StagedOk(p.dirs[d].files[k])
  {
    assert PackageOk(p.dirs[d]);
  }

  lemma PlanDir(p: Plan, d: nat)
    requires PlanOk(p) && d < |p.dirs|
    ensures ShortName(p.dirs[d].name) && |p.dirs[d].files| <= SLOTS - 3
  {
    assert PackageOk(p.dirs[d]);
  }

  function MemberIndex(p: Plan, d: nat, k: nat): (j: nat)
    requires d < |p.dirs|
  {
    |p.files| + |p.dirs| + |Pairs(p.dirs, d)| + k
  }

  lemma {:induction false} PairAt(dirs: seq<Package>, n: nat, d: nat, k: nat)
    requires d < n <= |dirs| && k < |dirs[d].files|
    ensures |Pairs(dirs, d)| + k < |Pairs(dirs, n)| && Pairs(dirs, n)[|Pairs(dirs, d)| + k] == (d, k)
    decreases n
  {
    if d < n - 1 {
      PairAt(dirs, n - 1, d, k);
    }
  }

  /** Every content starts at a cluster the volume has. */
  lemma StartInRange(p: Plan, j: nat)
    requires PlanOk(p) && j < Total(p)
    ensures 3 <= Start(Shape(p), j) < CLUSTER_COUNT + 2 || Blocks(Shape(p)[j]) == 0
    ensures Start(Shape(p), j) <= CLUSTER_COUNT + 2
  {
    StartMonotone(Shape(p), j, Total(p));
  }

  function TextOf(name: seq<Byte>): (t: Text)
    requires |name| == 11
  {
    var r := ShortNameText(name);
    if r.Ok? then r.value else []
  }

  ghost function FileEntry(p: Plan, f: Staged, j: nat): (e: Entry)
    requires |f.name| == 11 && j < Total(p)
  {
    Entry(f.name, TextOf(f.name), p.attributes, Start(Shape(p), j), |f.payload|)
  }

  ghost function DirEntry(name: seq<Byte>, cluster: nat): (e: Entry)
    requires |name| == 11
  {
    Entry(name, TextOf(name), DIRECTORY_ATTRIBUTE, cluster, 0)
  }

  ghost function DirCluster(p: Plan, d: nat): (c: nat)
    requires d < |p.dirs|
  {
    Start(Shape(p), |p.files| + d)
  }

  lemma FileEntryOk(p: Plan, f: Staged, j: nat)
    requires PlanOk(p) && StagedOk(f) && j < Total(p)
    ensures EntryOk(FileEntry(p, f, j))
  {
    hide ShortNameText, PlanOk, Shape;
    PlanAttributes(p);
    ShortNameFacts(f.name);
    StartInRange(p, j);
  }

  lemma DirEntryOk(name: seq<Byte>, cluster: nat)
    requires ShortName(name) || name == DOT_NAME || name == DOTDOT_NAME
    requires cluster <= CLUSTER_COUNT + 2
    ensures EntryOk(DirEntry(name, cluster))
  {
    hide ShortNameText;
    if ShortName(name) {
      ShortNameFacts(name);
    } else {
      DotNamesDecode();
    }
  }

  lemma DotNamesDecode()
    ensures ShortNameText(DOT_NAME) == Ok([DOT]) && ShortNameText(DOTDOT_NAME) == Ok([DOT, DOT])
  {
    DotDecodes([DOT]);
    DotDecodes([DOT, DOT]);
  }

  lemma DotDecodes(s: Text)
    requires 1 <= |s| <= 8 && forall i :: 0 <= i < |s| ==> s[i] == DOT
    ensures ShortNameText(Padded(s, 11)) == Ok(s)
  {
    hide RStrip;
    var name := Padded(s, 11);
    assert IsAscii(name);
    assert name[..8] == Padded(s, 8);
    RStripSpaces(s, 8);
    assert name[8..] == Padded([], 3);
    RStripSpaces([], 3);
    assert s + [] == s;
  }

  lemma {:induction false} RStripSpaces(s: Text, n: nat)
    requires |s| <= n && (|s| > 0 ==> !IsSpace(s[|s| - 1]))
    ensures RStrip(Padded(s, n)) == s
    decreases n
  {
    if |s| < n {
      RStripSpaces(s, n - 1);
      assert Padded(s, n)[..n - 1] == Padded(s, n - 1);
    } else {
      assert Padded(s, n) == s;
    }
  }

  // Directory contents of a plan

  ghost function RootEntries(p: Plan): (es: seq<Entry>)
    requires PlanOk(p)
    ensures |es| == |p.files| + |p.dirs|
  {
    seq(|p.files| + |p.dirs|, i requires 0 <= i < |p.files| + |p.dirs| => RootEntry(p, i))
  }

  ghost function RootEntry(p: Plan, i: nat): (e: Entry)
    requires PlanOk(p) && i < |p.files| + |p.dirs|
  {
    if i < |p.files| then FileEntry(p, p.files[i], i)
    else DirEntry(p.dirs[i - |p.files|].name, DirCluster(p, i - |p.files|))
  }

  ghost function DirEntries(p: Plan, d: nat): (es: seq<Entry>)
    requires PlanOk(p) && d < |p.dirs|
    ensures |es| == 2 + |p.dirs[d].files|
  {
    seq(2 + |p.dirs[d].files|, i requires 0 <= i < 2 + |p.dirs[d].files| => DirMember(p, d, i))
  }

  ghost function DirMember(p: Plan, d: nat, i: nat): (e: Entry)
    requires PlanOk(p) && d < |p.dirs| && i < 2 + |p.dirs[d].files|
  {
    if i == 0 then DirEntry(DOT_NAME, DirCluster(p, d))
    else if i == 1 then DirEntry(DOTDOT_NAME, ROOT_CLUSTER)
    else
      PairAt(p.dirs, |p.dirs|, d, i - 2);
      FileEntry(p, p.dirs[d].files[i - 2], MemberIndex(p, d, i - 2))
  }

  lemma RootEntryOk(p: Plan, i: nat)
    requires PlanOk(p) && i < |p.files| + |p.dirs|
    ensures EntryOk(RootEntry(p, i))
  {
    hide PlanOk, EntryOk, FileEntry, DirEntry, Start;
    if i < |p.files| {
      PlanFile(p, i);
      FileEntryOk(p, p.files[i], i);
    } else {
      PlanDir(p, i - |p.files|);
      StartInRange(p, i);
      DirEntryOk(p.dirs[i - |p.files|].name, DirCluster(p, i - |p.files|));
    }
  }

  lemma DirMemberOk(p: Plan, d: nat, i: nat)
    requires PlanOk(p) && d < |p.dirs| && i < 2 + |p.dirs[d].files|
    ensures EntryOk(DirMember(p, d, i))
  {
    hide PlanOk, EntryOk, FileEntry, DirEntry;
    StartInRange(p, |p.files| + d);
    if i == 0 {
      DirEntryOk(DOT_NAME, DirCluster(p, d));
    } else if i == 1 {
      DirEntryOk(DOTDOT_NAME, ROOT_CLUSTER);
    } else {
      PairAt(p.dirs, |p.dirs|, d, i - 2);
      PlanMember(p, d, i - 2);
      FileEntryOk(p, p.dirs[d].files[i - 2], MemberIndex(p, d, i - 2));
    }
  }

  lemma RootEntriesOk(p: Plan)
    requires PlanOk(p)
    ensures EntriesOk(RootEntries(p)) && AllEncodable(RootEntries(p))
  {
    hide PlanOk, RootEntry;
    forall i | 0 <= i < |p.files| + |p.dirs|
      ensures EntryOk(RootEntries(p)[i])
    {
      RootEntryOk(p, i);
    }
  }

  lemma DirEntriesOk(p: Plan, d: nat)
    requires PlanOk(p) && d < |p.dirs|
    ensures EntriesOk(DirEntries(p, d)) && AllEncodable(DirEntries(p, d))
  {
    hide PlanOk, DirMember;
    forall i | 0 <= i < |DirEntries(p, d)|
      ensures EntryOk(DirEntries(p, d)[i])
    {
      DirMemberOk(p, d, i);
    }
  }

  ghost function RootSlots(p: Plan): (ss: seq<Slot>)
    requires PlanOk(p)
    ensures |ss| == 1 + |p.files| + |p.dirs|
  {
    RootEntriesOk(p);
    [DirectoryEntry(p.volumeName, LABEL_ATTRIBUTE, 0, 0)] + SlotsOf(RootEntries(p))
  }

  ghost function DirSlots(p: Plan, d: nat): (ss: seq<Slot>)
    requires PlanOk(p) && d < |p.dirs|
    ensures |ss| == 2 + |p.dirs[d].files|
  {
    DirEntriesOk(p, d);
    SlotsOf(DirEntries(p, d))
  }

  lemma RootSlotNext(p: Plan, i: nat)
    requires PlanOk(p) && i < |p.files| + |p.dirs|
    ensures Encodable(RootEntry(p, i)) && i + 2 <= |RootSlots(p)| <= SLOTS
    ensures RootSlots(p)[..i + 2] == RootSlots(p)[..i + 1] + [SlotOf(RootEntry(p, i))]
  {
    hide PlanOk, DirectoryEntry, RootEntry;
    PlanRoom(p);
    RootEntriesOk(p);
    assert RootEntries(p)[i] == RootEntry(p, i);
    assert SlotsOf(RootEntries(p))[i] == SlotOf(RootEntry(p, i));
    assert RootSlots(p)[i + 1] == SlotOf(RootEntry(p, i));
  }

  lemma PlanRoom(p: Plan)
    requires PlanOk(p)
    ensures 1 + |p.files| + |p.dirs| <= SLOTS
  {
  }

  lemma DirSlotNext(p: Plan, d: nat, i: nat)
    requires PlanOk(p) && d < |p.dirs| && i < |DirSlots(p, d)|
    ensures |DirSlots(p, d)| <= SLOTS - 1 && Encodable(DirMember(p, d, i))
    ensures DirSlots(p, d)[..i + 1] == DirSlots(p, d)[..i] + [SlotOf(DirMember(p, d, i))]
  {
    hide PlanOk, DirectoryEntry, DirMember;
    PlanDir(p, d);
    DirEntriesOk(p, d);
    assert DirEntries(p, d)[i] == DirMember(p, d, i);
    assert SlotsOf(DirEntries(p, d))[i] == SlotOf(DirMember(p, d, i));
  }

  ghost function RootBlock(p: Plan): (b: seq<Byte>)
    requires PlanOk(p)
  {
    Pack(RootSlots(p))
  }

  ghost function DirBlock(p: Plan, d: nat): (b: seq<Byte>)
    requires PlanOk(p) && d < |p.dirs|
    ensures |b| == SECTOR_BYTES
  {
    Pack(DirSlots(p, d))
  }

  ghost function Contents(p: Plan): (s: seq<seq<Byte>>)
    requires PlanOk(p)
    ensures |s| == Total(p)
  {
    seq(Total(p), j requires 0 <= j < Total(p) => ContentAt(p, j))
  }

  ghost function ContentAt(p: Plan, j: nat): (s: seq<Byte>)
    requires PlanOk(p) && j < Total(p)
  {
    if |p.files| <= j < |p.files| + |p.dirs| then DirBlock(p, j - |p.files|) else PayloadAt(p, j)
  }

  /** What each content is, by position. */
  lemma FileContent(p: Plan, i: nat)
    requires PlanOk(p) && i < |p.files|
    ensures Contents(p)[i] == Shape(p)[i] == p.files[i].payload
  {
  }

  lemma DirContent(p: Plan, d: nat)
    requires PlanOk(p) && d < |p.dirs|
    ensures Contents(p)[|p.files| + d] == DirBlock(p, d) && |Shape(p)[|p.files| + d]| == SECTOR_BYTES
  {
    hide PlanOk, DirBlock, PayloadAt;
    assert ContentAt(p, |p.files| + d) == DirBlock(p, d);
  }

  lemma MemberContent(p: Plan, d: nat, k: nat)
    requires PlanOk(p) && d < |p.dirs| && k < |p.dirs[d].files|
    ensures MemberIndex(p, d, k) < Total(p)
    ensures Contents(p)[MemberIndex(p, d, k)] == Shape(p)[MemberIndex(p, d, k)] == p.dirs[d].files[k].payload
  {
    hide PlanOk, DirBlock, Pairs;
    PairAt(p.dirs, |p.dirs|, d, k);
  }

  lemma ContentLength(p: Plan, j: nat)
    requires PlanOk(p) && j < Total(p)
    ensures |Contents(p)[j]| == |Shape(p)[j]|
  {
    hide PlanOk, DirBlock, PayloadAt;
  }

  /** Directory blocks are one cluster each, so the blank shape places contents where they belong. */
  lemma {:induction false} SamePlaces(p: Plan, j: nat)
    requires PlanOk(p) && j <= Total(p)
    ensures Start(Contents(p), j) == Start(Shape(p), j)
    decreases j
  {
    hide PlanOk, Contents, Shape;
    if j > 0 {
      SamePlaces(p, j - 1);
      ContentLength(p, j - 1);
    }
  }

  ghost function PathAt(p: Plan, j: nat): (t: Text)
    requires PlanOk(p) && j < Total(p)
  {
    var nf, nd := |p.files|, |p.dirs|;
    if j < nf then TextOf(p.files[j].name)
    else if j < nf + nd then TextOf(p.dirs[j - nf].name)
    else
      var (d, k) := Pairs(p.dirs, nd)[j - nf - nd];
      ChildPath(TextOf(p.dirs[d].name), TextOf(p.dirs[d].files[k].name))
  }

  ghost function Paths(p: Plan): (s: seq<Text>)
    requires PlanOk(p)
    ensures |s| == Total(p)
  {
    seq(Total(p), j requires 0 <= j < Total(p) => PathAt(p, j))
  }

  // The tree of a plan

  ghost function FileNode(p: Plan, j: nat): (n: Node)
    requires PlanOk(p) && j < Total(p)
  {
    File(Run(Start(Shape(p), j), Blocks(Shape(p)[j])))
  }

  ghost function DirNode(p: Plan, d: nat): (n: Node)
    requires PlanOk(p) && d < |p.dirs|
  {
    Folder([DirCluster(p, d)], 1, DirEntries(p, d),
           seq(2 + |p.dirs[d].files|, i requires 0 <= i < 2 + |p.dirs[d].files| => DirChild(p, d, i)))
  }

  ghost function DirChild(p: Plan, d: nat, i: nat): (n: Node)
    requires PlanOk(p) && d < |p.dirs| && i < 2 + |p.dirs[d].files|
  {
    if i < 2 then Dot
    else
      PairAt(p.dirs, |p.dirs|, d, i - 2);
      FileNode(p, MemberIndex(p, d, i - 2))
  }

  ghost function RootNode(p: Plan): (n: Node)
    requires PlanOk(p)
  {
    Folder([ROOT_CLUSTER], 1, RootEntries(p),
           seq(|p.files| + |p.dirs|, i requires 0 <= i < |p.files| + |p.dirs| => RootChild(p, i)))
  }

  ghost function RootChild(p: Plan, i: nat): (n: Node)
    requires PlanOk(p) && i < |p.files| + |p.dirs|
  {
    if i < |p.files| then FileNode(p, i) else DirNode(p, i - |p.files|)
  }

  // Stored contents are what their entries describe

  lemma StoredFile(v: Volume, e: Entry, content: seq<Byte>)
    requires Holds(v, e.firstCluster, content) && content != [] && e.size == |content|
    requires !IsDotName(e.name) && !e.IsDirectory()
    ensures DescribesEntry(v, e, File(Run(e.firstCluster, Blocks(content))))
  {
    hide IsPath;
    HoldsIsChain(v, e.firstCluster, content);
  }

  lemma StoredFolder(v: Volume, c: nat, ss: seq<Slot>, es: seq<Entry>, children: seq<Node>)
    requires v.Valid() && v.InRange(c) && v.fat[c] >= FAT32_EOC_MIN
    requires |ss| < SLOTS && v.data[c] == Pack(ss) && WellFormedSlots(ss) && Listing(ss) == es
    requires NamesUnique(es) && DescribesAll(v, es, children)
    ensures DescribesFolder(v, c, Folder([c], 1, es, children))
  {
    hide WellFormedSlots, Listing, Pack, FolderContent, DescribesAll, DescribesEntry, NamesUnique;
    assert IsPath(v, c, [c]);
    PackedContent(v, c, ss, es);
    assert [c][..1] == [c];
    FolderFound(v, c, Folder([c], 1, es, children));
  }

  lemma StoredAt(v: Volume, p: Plan, j: nat)
    requires PlanOk(p) && LaidOut(v, RootBlock(p), Contents(p)) && j < Total(p)
    ensures Holds(v, Start(Shape(p), j), Contents(p)[j]) && Contents(p)[j] != []
  {
    hide PlanOk, Contents, Shape, Holds, RootBlock;
    SamePlaces(p, j);
  }

  lemma FileDescribed(v: Volume, p: Plan, i: nat)
    requires PlanOk(p) && LaidOut(v, RootBlock(p), Contents(p)) && i < |p.files|
    ensures DescribesEntry(v, RootEntry(p, i), FileNode(p, i))
  {
    hide PlanOk, ShortNameText, Contents, Shape, Holds, LaidOut, RootBlock, DescribesEntry;
    StoredAt(v, p, i);
    FileContent(p, i);
    PlanFile(p, i);
    ShortNameFacts(p.files[i].name);
    PlanAttributes(p);
    StoredFile(v, RootEntry(p, i), p.files[i].payload);
  }

  lemma MemberDescribed(v: Volume, p: Plan, d: nat, k: nat)
    requires PlanOk(p) && LaidOut(v, RootBlock(p), Contents(p)) && d < |p.dirs| && k < |p.dirs[d].files|
    ensures DescribesEntry(v, DirMember(p, d, k + 2), DirChild(p, d, k + 2))
  {
    hide PlanOk, ShortNameText, Contents, Shape, Holds, LaidOut, RootBlock, DescribesEntry, Pairs;
    MemberContent(p, d, k);
    StoredAt(v, p, MemberIndex(p, d, k));
    PlanMember(p, d, k);
    ShortNameFacts(p.dirs[d].files[k].name);
    PlanAttributes(p);
    StoredFile(v, DirMember(p, d, k + 2), p.dirs[d].files[k].payload);
  }

  lemma DirDescribed(v: Volume, p: Plan, d: nat)
    requires PlanOk(p) && LaidOut(v, RootBlock(p), Contents(p)) && d < |p.dirs|
    ensures DescribesFolder(v, DirCluster(p, d), DirNode(p, d))
  {
    hide PlanOk, Contents, Shape, Holds, LaidOut, RootBlock, DescribesEntry, DescribesFolder, DirMember, DirChild,
         WellFormedSlots, Listing, NamesUnique, Pack, EntryOk, ShortName, Blocks, PaddedBlock;
    var c, n, j := DirCluster(p, d), DirNode(p, d), |p.files| + d;
    StoredAt(v, p, j);
    DirContent(p, d);
    DirStored(v, c, DirBlock(p, d));
    DirEntriesOk(p, d);
    ListingOf(DirEntries(p, d));
    DirNamesUnique(p, d);
    PlanDir(p, d);
    forall i | 0 <= i < |n.entries|
      ensures DescribesEntry(v, n.entries[i], n.children[i])
    {
      DirMemberDescribed(v, p, d, i);
    }
    StoredFolder(v, c, DirSlots(p, d), DirEntries(p, d), n.children);
  }

  lemma DirMemberDescribed(v: Volume, p: Plan, d: nat, i: nat)
    requires PlanOk(p) && LaidOut(v, RootBlock(p), Contents(p)) && d < |p.dirs| && i < 2 + |p.dirs[d].files|
    ensures DescribesEntry(v, DirMember(p, d, i), DirChild(p, d, i))
  {
    hide PlanOk, LaidOut, Contents, RootBlock;
    if i >= 2 {
      MemberDescribed(v, p, d, i - 2);
    }
  }

  lemma DirStored(v: Volume, c: nat, block: seq<Byte>)
    requires Holds(v, c, block) && |block| == SECTOR_BYTES
    ensures v.Valid() && v.InRange(c) && v.fat[c] == FAT32_EOC && v.data[c] == block
  {
    assert Blocks(block) == 1;
    HoldsAt(v, c, block, c);
    assert Block(block, 0) == block[0..SECTOR_BYTES] == block;
    assert block + Zeros(0) == block;
  }

  lemma DirNamesUnique(p: Plan, d: nat)
    requires PlanOk(p) && d < |p.dirs|
    ensures NamesUnique(DirEntries(p, d))
  {
    var es := DirEntries(p, d);
    forall i, j | 0 <= i < j < |es|
      ensures Upper(es[i].name) != Upper(es[j].name)
    {
      DirNamesDiffer(p, d, i, j);
    }
  }

  lemma DirNamesDiffer(p: Plan, d: nat, i: nat, j: nat)
    requires PlanOk(p) && d < |p.dirs| && i < j < 2 + |p.dirs[d].files|
    ensures Upper(DirMember(p, d, i).name) != Upper(DirMember(p, d, j).name)
  {
    assert DOT_NAME[0] == DOT && DOT_NAME[1] == SPACE && DOTDOT_NAME[1] == DOT && DOTDOT_NAME[0] == DOT;
    assert PackageOk(p.dirs[d]);
    var a, b := DirMember(p, d, i).name, DirMember(p, d, j).name;
    if j == 1 {
      assert Upper(a)[1] == SPACE && Upper(b)[1] == DOT;
    } else {
      PlanMember(p, d, j - 2);
      ShortNameFacts(b);
      if i < 2 {
        assert Upper(a)[0] == DOT && Upper(b)[0] == b[0] && IsAllowed(b[0]);
      } else {
        PlanMember(p, d, i - 2);
        ShortNameFacts(a);
      }
    }
  }

  lemma RootNamesUnique(p: Plan)
    requires PlanOk(p)
    ensures NamesUnique(RootEntries(p))
  {
    forall i | 0 <= i < |p.files| + |p.dirs|
      ensures Upper(RootEntry(p, i).name) == RootEntry(p, i).name == RootName(p, i)
    {
      RootNameUpper(p, i);
    }
  }

  lemma RootNameUpper(p: Plan, i: nat)
    requires PlanOk(p) && i < |p.files| + |p.dirs|
    ensures ShortName(RootName(p, i)) && Upper(RootName(p, i)) == RootName(p, i) == RootEntry(p, i).name
  {
    if i < |p.files| {
      PlanFile(p, i);
    } else {
      PlanDir(p, i - |p.files|);
    }
    ShortNameFacts(RootName(p, i));
  }

  lemma RootChildDescribed(v: Volume, p: Plan, i: nat)
    requires PlanOk(p) && LaidOut(v, RootBlock(p), Contents(p)) && i < |p.files| + |p.dirs|
    ensures DescribesEntry(v, RootEntry(p, i), RootChild(p, i))
  {
    hide PlanOk, LaidOut, Contents, RootBlock, DescribesFolder, ShortName, ShortNameText, DirNode, FileNode, FileEntry, Shape, IsChain;
    if i < |p.files| {
      FileDescribed(v, p, i);
    } else {
      var d := i - |p.files|;
      PlanDir(p, d);
      ShortNameFacts(p.dirs[d].name);
      StartInRange(p, i);
      DirDescribed(v, p, d);
    }
  }

  lemma RootDescribed(v: Volume, p: Plan)
    requires PlanOk(p) && LaidOut(v, RootBlock(p), Contents(p)) && |RootSlots(p)| < SLOTS
    ensures DescribesFolder(v, ROOT_CLUSTER, RootNode(p))
  {
    hide Contents, Shape, Holds, DescribesEntry, DescribesFolder, RootEntry, RootChild,
         WellFormedSlots, Listing, NamesUnique, Pack, EntryOk, ShortName, Blocks, PaddedBlock;
    var n := RootNode(p);
    RootEntriesOk(p);
    ListingWithLabel(p.volumeName, RootEntries(p));
    RootNamesUnique(p);
    forall i | 0 <= i < |n.entries|
      ensures DescribesEntry(v, n.entries[i], n.children[i])
    {
      RootChildDescribed(v, p, i);
    }
    StoredFolder(v, ROOT_CLUSTER, RootSlots(p), RootEntries(p), n.children);
  }

  // Ownership

  ghost predicate OwnsContents(p: Plan, o: Owners)
    requires PlanOk(p)
  {
    forall j, c :: 0 <= j < Total(p) && c in Run(Start(Contents(p), j), Blocks(Contents(p)[j])) ==>
                     c in o && o[c] == Paths(p)[j]
  }

  lemma FileOwned(p: Plan, o: Owners, j: nat)
    requires PlanOk(p) && OwnsContents(p, o) && j < Total(p)
    ensures Owns(o, PathAt(p, j), FileNode(p, j))
  {
    hide PlanOk, Contents, Shape, PathAt;
    SamePlaces(p, j);
    ContentLength(p, j);
    assert Own(FileNode(p, j)) == Run(Start(Contents(p), j), Blocks(Contents(p)[j]));
  }

  lemma DirClusterOwned(p: Plan, o: Owners, d: nat)
    requires PlanOk(p) && OwnsContents(p, o) && d < |p.dirs|
    ensures DirCluster(p, d) in o && o[DirCluster(p, d)] == PathAt(p, |p.files| + d)
  {
    hide PlanOk, Contents, Shape, PathAt, DirBlock;
    var j := |p.files| + d;
    SamePlaces(p, j);
    DirContent(p, d);
    var run := Run(Start(Contents(p), j), Blocks(Contents(p)[j]));
    assert run[0] == DirCluster(p, d) && DirCluster(p, d) in run;
  }

  lemma DirChildOwned(p: Plan, o: Owners, d: nat, i: nat)
    requires PlanOk(p) && OwnsContents(p, o) && d < |p.dirs| && i < 2 + |p.dirs[d].files|
    ensures Owns(o, ChildPath(PathAt(p, |p.files| + d), DirMember(p, d, i).text), DirChild(p, d, i))
  {
    hide PlanOk, OwnsContents, Shape, Contents, TextOf, ChildPath;
    if i >= 2 {
      PairAt(p.dirs, |p.dirs|, d, i - 2);
      assert ChildPath(PathAt(p, |p.files| + d), DirMember(p, d, i).text) == PathAt(p, MemberIndex(p, d, i - 2));
      FileOwned(p, o, MemberIndex(p, d, i - 2));
    }
  }

  lemma DirOwned(p: Plan, o: Owners, d: nat)
    requires PlanOk(p) && OwnsContents(p, o) && d < |p.dirs|
    ensures Owns(o, PathAt(p, |p.files| + d), DirNode(p, d))
  {
    hide PlanOk, OwnsContents, Shape, Contents, PathAt, DirMember, DirChild, ChildPath;
    var n, path := DirNode(p, d), PathAt(p, |p.files| + d);
    DirClusterOwned(p, o, d);
    assert Own(n) == [DirCluster(p, d)];
    forall i | 0 <= i < |n.children|
      ensures Owns(o, ChildPath(path, n.entries[i].text), n.children[i])
    {
      DirChildOwned(p, o, d, i);
    }
  }

  lemma RootChildOwned(p: Plan, o: Owners, i: nat)
    requires PlanOk(p) && OwnsContents(p, o) && i < |p.files| + |p.dirs|
    ensures Owns(o, ChildPath(ROOT_PATH, RootEntry(p, i).text), RootChild(p, i))
  {
    hide PlanOk, OwnsContents, Shape, Contents, TextOf, Owns, DirNode, FileNode, DirCluster;
    assert ChildPath(ROOT_PATH, RootEntry(p, i).text) == PathAt(p, i);
    if i < |p.files| {
      FileOwned(p, o, i);
    } else {
      DirOwned(p, o, i - |p.files|);
    }
  }

  lemma RootNodeOwned(p: Plan, o: Owners)
    requires PlanOk(p) && OwnsContents(p, o) && ROOT_CLUSTER in o && o[ROOT_CLUSTER] == ROOT_PATH
    ensures Owns(o, ROOT_PATH, RootNode(p))
  {
    hide PlanOk, Shape, Contents, RootEntry, RootChild, ChildPath, OwnsContents;
    var n := RootNode(p);
    assert Own(n) == [ROOT_CLUSTER];
    forall i | 0 <= i < |n.children|
      ensures Owns(o, ChildPath(ROOT_PATH, n.entries[i].text), n.children[i])
    {
      RootChildOwned(p, o, i);
    }
  }

  /** Each content's clusters can be given its path. */
  lemma RootOwned(p: Plan)
    requires PlanOk(p)
    ensures Owns(OwnerMap(Contents(p), Paths(p), Total(p)), ROOT_PATH, RootNode(p))
  {
    hide PlanOk, Shape, Contents, Paths, OwnerMap, Owns, RootNode;
    OwnerMapOwns(Contents(p), Paths(p), Total(p));
    RootNodeOwned(p, OwnerMap(Contents(p), Paths(p), Total(p)));
  }

  // Acceptance

  lemma {:induction false} HeldCovers(p: Plan, c: int)
    requires PlanOk(p) && ROOT_CLUSTER <= c < Start(Shape(p), Total(p))
    ensures c in Held(RootNode(p))
  {
    hide PlanOk, Shape, RootEntry, RootChild, Contents;
    var n := RootNode(p);
    assert Own(n) == [ROOT_CLUSTER];
    if c > ROOT_CLUSTER {
      var j := Located(Shape(p), Total(p), c);
      var i := HeldAt(p, j, c);
      HeldByOne(n.children, c);
      assert n.children[i] == RootChild(p, i);
    }
  }

  /** The root child whose subtree holds a cluster of content `j`. */
  lemma HeldAt(p: Plan, j: nat, c: int) returns (i: nat)
    requires PlanOk(p) && j < Total(p)
    requires Start(Shape(p), j) <= c < Start(Shape(p), j) + Blocks(Shape(p)[j])
    ensures i < |p.files| + |p.dirs| && c in Held(RootChild(p, i))
  {
    hide PlanOk, Shape, Contents, DirNode, Pairs, Blocks;
    var nf, nd := |p.files|, |p.dirs|;
    HeldInFile(p, j, c);
    if j < nf {
      i := j;
    } else if j < nf + nd {
      i := j;
      HeldInDir(p, j - nf, c);
    } else {
      var (d, k) := Pairs(p.dirs, nd)[j - nf - nd];
      i := nf + d;
      PairIndex(p.dirs, nd, j - nf - nd);
      HeldInMember(p, d, k, c);
    }
  }

  lemma HeldInFile(p: Plan, j: nat, c: int)
    requires PlanOk(p) && j < Total(p)
    requires Start(Shape(p), j) <= c < Start(Shape(p), j) + Blocks(Shape(p)[j])
    ensures c in Held(FileNode(p, j))
  {
    hide PlanOk, Shape;
    assert FileNode(p, j).chain[c - Start(Shape(p), j)] == c;
  }

  lemma HeldInDir(p: Plan, d: nat, c: int)
    requires PlanOk(p) && d < |p.dirs|
    requires DirCluster(p, d) <= c < DirCluster(p, d) + Blocks(Shape(p)[|p.files| + d])
    ensures c in Held(DirNode(p, d))
  {
    hide PlanOk, Shape, DirMember, DirChild;
    DirContent(p, d);
    assert Own(DirNode(p, d)) == [c];
  }

  lemma HeldInMember(p: Plan, d: nat, k: nat, c: int)
    requires PlanOk(p) && d < |p.dirs| && k < |p.dirs[d].files| && MemberIndex(p, d, k) < Total(p)
    requires c in Held(FileNode(p, MemberIndex(p, d, k)))
    ensures c in Held(DirNode(p, d))
  {
    hide PlanOk, Shape, DirMember, FileNode;
    var n := DirNode(p, d);
    assert n.children[k + 2] == DirChild(p, d, k + 2);
    HeldByOne(n.children, c);
  }

  lemma {:induction false} PairIndex(dirs: seq<Package>, n: nat, m: nat)
    requires n <= |dirs| && m < |Pairs(dirs, n)|
    ensures var (d, k) := Pairs(dirs, n)[m]; |Pairs(dirs, d)| + k == m
    decreases n
  {
    if m < |Pairs(dirs, n - 1)| {
      PairIndex(dirs, n - 1, m);
    }
  }

  /** The inspector accepts every laid-out plan that leaves the root directory room for its end marker,
      and reports exactly the plan's tree and its exact free count. */
  lemma PlanAccepted(v: Volume, p: Plan, hint: nat)
    requires PlanOk(p) && LaidOut(v, RootBlock(p), Contents(p)) && |RootSlots(p)| < SLOTS
    requires hint == UNKNOWN_FREE || hint == CLUSTER_COUNT - (Start(Shape(p), Total(p)) - ROOT_CLUSTER)
    ensures Accounts(v, ROOT_CLUSTER, hint, RootNode(p))
    ensures |Held(RootNode(p))| == Start(Shape(p), Total(p)) - ROOT_CLUSTER
  {
    hide PlanOk, Shape, Contents, DescribesFolder, RootNode, Held, Owns, RootBlock, RootSlots;
    var n := RootNode(p);
    RootDescribed(v, p);
    RootOwned(p);
    HeldIsUsed(v, ROOT_CLUSTER, n);
    LaidOutUsed(v, RootBlock(p), Contents(p));
    SamePlaces(p, Total(p));
    forall c | c in Used(v)
      ensures c in Held(n)
    {
      HeldCovers(p, c);
    }
    assert Used(v) == Held(n);
  }

  /** And refuses every plan that does not. */
  lemma PlanRefused(v: Volume, p: Plan, hint: nat)
    requires PlanOk(p) && LaidOut(v, RootBlock(p), Contents(p)) && |RootSlots(p)| == SLOTS
    ensures InspectVolume(v, ROOT_CLUSTER, hint) == Err(NoEndMarker)
  {
    hide Shape, Contents, ParseDirectory, Holds, WellFormedSlots, Pack;
    RootEntriesOk(p);
    ListingWithLabel(p.volumeName, RootEntries(p));
    FullDirectoryRefused(v, ROOT_CLUSTER, RootSlots(p), ROOT_PATH, map[], {});
  }
}
