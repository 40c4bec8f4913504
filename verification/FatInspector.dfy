// The inspector's mutable walk: one ownership map and one directory stack shared by every call
// (tools/fat32_image.py, _parse_directory and the allocation loop of inspect_image).

module FatInspector {
  import opened Bytes
  import opened FatChain
  import opened FatDirectory
  import opened FatTree

  class DirectoryInspector {
    const volume: Volume
    var owners: Owners
    var directoryStack: set<int>

    constructor (v: Volume)
      ensures volume == v && owners == map[] && directoryStack == {}
    {
      volume := v;
      owners := map[];
      directoryStack := {};
    }

    /** Reads the clusters of one directory up to its end marker, claiming each for `path`. */
    method ReadEntries(chain: seq<int>, path: Text) returns (r: Result<seq<Entry>, FatError>)
      requires volume.Valid() && forall i :: 0 <= i < |chain| ==> volume.InRange(chain[i])
      modifies this`owners
      ensures var spec := ScanChain(volume, chain, path, old(owners), false, []);
              && (spec.Err? ==> r == Err(spec.error))
              && (spec.Ok? ==> r == Ok(spec.value.0) && owners == spec.value.1)
    {
      var entries: seq<Entry> := [];
      var longNamePending := false;
      for i := 0 to |chain|
        invariant ScanChain(volume, chain[i..], path, owners, longNamePending, entries)
                  == ScanChain(volume, chain, path, old(owners), false, [])
      {
        var cluster := chain[i];
        assert chain[i..][0] == cluster && chain[i..][1..] == chain[i + 1..];
        if cluster in owners && owners[cluster] != path {
          return Err(CrossLinkedDirectory);
        }
        owners := owners[cluster := path];
        var scan := ReadSlots(volume.data[cluster], longNamePending, entries);
        if scan.Err? {
          return Err(scan.error);
        }
        entries, longNamePending := scan.value.entries, scan.value.pending;
        if scan.value.ended {
          return Ok(entries);
        }
      }
      return Err(NoEndMarker);
    }

    /** The entry loop over one cluster. */
    static method ReadSlots(block: seq<Byte>, pending: bool, found: seq<Entry>)
      returns (r: Result<Scan, FatError>)
      ensures r == ScanSlots(Slots(block), pending, found)
    {
      var entries, longNamePending := found, pending;
      var slots := Slots(block);
      assert slots[0..] == slots;
      for i := 0 to |block| / ENTRY_BYTES
        invariant ScanSlots(slots[i..], longNamePending, entries) == ScanSlots(slots, pending, found)
      {
        var s := block[ENTRY_BYTES * i..ENTRY_BYTES * i + ENTRY_BYTES];
        assert slots[i..][0] == s && slots[i..][1..] == slots[i + 1..];
        if s[0] == 0 {
          return Ok(Scan(true, longNamePending, entries));
        } else if s[0] == 0xE5 {
          longNamePending := false;
        } else if s[11] == 0x0F {
          if !LongNameHeaderOk(s) {
            return Err(MalformedLongName);
          } else if !LongNameTextOk(s) {
            return Err(InvalidLongNameText);
          }
          longNamePending := true;
        } else if longNamePending {
          return Err(LongNamesDisabled);
        } else if s[11] / 8 % 2 == 0 {
          var text := ShortNameText(s[..11]);
          if text.Err? {
            return Err(text.error);
          }
          entries := entries + [EntryOf(s, text.value)];
        }
      }
      r := Ok(Scan(false, longNamePending, entries));
    }

    method ClaimChain(chain: seq<int>, path: Text) returns (r: Result<(), FatError>)
      modifies this`owners
      ensures var spec := ClaimFile(chain, path, old(owners));
              && (spec.Err? ==> r == Err(spec.error))
              && (spec.Ok? ==> r.Ok? && owners == spec.value)
    {
      for i := 0 to |chain|
        invariant ClaimFile(chain[i..], path, owners) == ClaimFile(chain, path, old(owners))
      {
        assert chain[i..][1..] == chain[i + 1..];
        if chain[i] in owners && owners[chain[i]] != path {
          return Err(CrossLinkedFile);
        }
        owners := owners[chain[i] := path];
      }
      r := Ok(());
    }

    method Parse(cluster: int, path: Text) returns (r: Result<seq<Record>, FatError>)
      requires volume.Valid()
      modifies this
      ensures var spec := ParseDirectory(volume, cluster, path, old(owners), old(directoryStack));
              && (spec.Err? ==> r == Err(spec.error))
              && (spec.Ok? ==> r == Ok(spec.value.0) && owners == spec.value.1 && directoryStack == old(directoryStack))
      decreases Clusters(volume) - directoryStack, 0, 0
    {
      hide WalkFrom, VisitEntries, FolderContent;
      if cluster in directoryStack {
        return Err(DirectoryCycle);
      }
      directoryStack := directoryStack + {cluster};
      var chain := ComputeChain(volume, cluster);
      if chain.Err? {
        return Err(chain.error);
      }
      WalkChainExact(volume, cluster, chain.value);
      var entries := ReadEntries(chain.value, path);
      if entries.Err? {
        return Err(entries.error);
      }
      assert cluster in Clusters(volume) - old(directoryStack);
      var descendants := VisitAll(entries.value, path);
      if descendants.Err? {
        return Err(descendants.error);
      }
      directoryStack := directoryStack - {cluster};
      r := Ok(Records(path, entries.value) + descendants.value);
    }

    /** The record loop: names must stay distinct under case folding. */
    method VisitAll(entries: seq<Entry>, path: Text) returns (r: Result<seq<Record>, FatError>)
      requires volume.Valid()
      modifies this
      ensures var spec := VisitEntries(volume, entries, path, {}, old(owners), old(directoryStack));
              && (spec.Err? ==> r == Err(spec.error))
              && (spec.Ok? ==> r == Ok(spec.value.0) && owners == spec.value.1 && directoryStack == old(directoryStack))
      decreases Clusters(volume) - directoryStack, 2, 0
    {
      hide VisitEntry;
      ghost var stack := directoryStack;
      ghost var goal := VisitEntries(volume, entries, path, {}, owners, stack);
      var folded: set<seq<Byte>> := {};
      var descendants: seq<Record> := [];
      assert entries[0..] == entries;
      assert goal.Ok? ==> [] + goal.value.0 == goal.value.0;
      for i := 0 to |entries|
        invariant directoryStack == stack
        invariant var rest := VisitEntries(volume, entries[i..], path, folded, owners, stack);
                  goal == if rest.Ok? then Ok((descendants + rest.value.0, rest.value.1)) else rest
      {
        var e := entries[i];
        assert entries[i..][0] == e && entries[i..][1..] == entries[i + 1..];
        if Upper(e.name) in folded {
          return Err(DuplicateName);
        }
        folded := folded + {Upper(e.name)};
        var found := Visit(e, ChildPath(path, e.text));
        if found.Err? {
          return Err(found.error);
        }
        ghost var rest := VisitEntries(volume, entries[i + 1..], path, folded, owners, stack);
        assert rest.Ok? ==> descendants + (found.value + rest.value.0) == (descendants + found.value) + rest.value.0;
        descendants := descendants + found.value;
      }
      assert descendants + [] == descendants;
      r := Ok(descendants);
    }

    method Visit(e: Entry, path: Text) returns (r: Result<seq<Record>, FatError>)
      requires volume.Valid()
      modifies this
      ensures var spec := VisitEntry(volume, e, path, old(owners), old(directoryStack));
              && (spec.Err? ==> r == Err(spec.error))
              && (spec.Ok? ==> r == Ok(spec.value.0) && owners == spec.value.1 && directoryStack == old(directoryStack))
      decreases Clusters(volume) - directoryStack, 1
    {
      if IsDotName(e.name) {
        return Ok([]);
      } else if e.IsDirectory() {
        if e.firstCluster < 2 {
          return Err(DirectoryWithoutCluster);
        }
        r := Parse(e.firstCluster, path);
      } else {
        var chain := ComputeChain(volume, e.firstCluster);
        if chain.Err? {
          return Err(chain.error);
        }
        var expected := ClustersFor(e.size, volume.clusterBytes);
        if |chain.value| != expected || e.size > |chain.value| * volume.clusterBytes {
          return Err(SizeChainMismatch);
        }
        var claimed := ClaimChain(chain.value, path);
        if claimed.Err? {
          return Err(claimed.error);
        }
        r := Ok([]);
      }
    }
  }

  // The whole inspection of a decoded volume

  const ROOT_PATH: Text := [SLASH]
  const UNKNOWN_FREE := 0xFFFF_FFFF

  datatype Report = Report(records: seq<Record>, freeClusters: int, allocatedClusters: nat)

  ghost function Used(v: Volume): (s: set<int>) {
    set c | 2 <= c < |v.fat| && v.InRange(c) && v.fat[c] != 0
  }

  ghost function InspectVolume(v: Volume, root: int, hint: nat): (r: Result<Report, FatError>)
    requires v.Valid()
  {
    var (records, owners) :- ParseDirectory(v, root, ROOT_PATH, map[], {});
    if !(Used(v) <= owners.Keys) then Err(LeakedClusters)
    else
      var free := v.ClusterCount() - |Used(v)|;
      if hint != UNKNOWN_FREE && hint != free then Err(FreeCountMismatch)
      else Ok(Report(records, free, |Used(v)|))
  }

  method ComputeInspection(v: Volume, root: int, hint: nat) returns (r: Result<Report, FatError>)
    requires v.Valid()
    ensures r == InspectVolume(v, root, hint)
  {
    hide ParseDirectory;
    var inspector := new DirectoryInspector(v);
    var records := inspector.Parse(root, ROOT_PATH);
    if records.Err? {
      return Err(records.error);
    }
    var inUse := 0;
    var leaked: seq<int> := [];
    ghost var used: set<int> := {};
    for cluster := 2 to |v.fat|
      invariant used == set c | 2 <= c < cluster && v.InRange(c) && v.fat[c] != 0
      invariant inUse == |used|
      invariant leaked == [] <==> used <= inspector.owners.Keys
    {
      if v.fat[cluster] != 0 {
        assert used + {cluster} == set c | 2 <= c < cluster + 1 && v.InRange(c) && v.fat[c] != 0;
        used := used + {cluster};
        inUse := inUse + 1;
        if cluster !in inspector.owners {
          leaked := leaked + [cluster];
        }
      }
    }
    assert used == Used(v);
    if leaked != [] {
      return Err(LeakedClusters);
    }
    var free := v.ClusterCount() - inUse;
    if hint != UNKNOWN_FREE && hint != free {
      return Err(FreeCountMismatch);
    }
    r := Ok(Report(records.value, free, inUse));
  }
}

// What acceptance means (tools/fat32_image.py, inspect_image).
module FatAcceptance {
  import opened Bytes
  import opened FatChain
  import opened FatDirectory
  import opened FatTree
  import opened FatInspector

  /** A tree that accounts for the whole volume: it starts at the root, its clusters can be given one
      path each, no allocated cluster lies outside it, and the free-space hint agrees with it. */
  ghost predicate Accounts(v: Volume, root: int, hint: nat, n: Node)
    requires v.Valid()
  {
    && DescribesFolder(v, root, n)
    && (exists o :: Owns(o, ROOT_PATH, n))
    && Used(v) <= Held(n)
    && (hint == 0xFFFF_FFFF || hint == v.ClusterCount() - |Held(n)|)
  }

  lemma {:induction false} HeldByOne(children: seq<Node>, c: int)
    ensures c in HeldByAll(children) <==> exists i :: 0 <= i < |children| && c in Held(children[i])
    decreases |children|
  {
    if children != [] {
      HeldByOne(children[1..], c);
      assert forall i :: 1 <= i < |children| ==> children[i] == children[1..][i - 1];
      assert forall i :: 0 <= i < |children[1..]| ==> children[1..][i] == children[i + 1];
    }
  }

  lemma {:induction false} NodeUsed(v: Volume, e: Entry, n: Node, c: int)
    requires v.Valid() && DescribesEntry(v, e, n) && c in Held(n)
    ensures c in Used(v)
    decreases n, 1
  {
    if IsDotName(e.name) {
    } else if e.IsDirectory() {
      FolderUsed(v, e.firstCluster, n, c);
    } else {
      ChainAllocated(v, e.firstCluster, n.chain);
    }
  }

  lemma {:induction false} FolderUsed(v: Volume, cluster: int, n: Node, c: int)
    requires v.Valid() && DescribesFolder(v, cluster, n) && c in Held(n)
    ensures c in Used(v)
    decreases n, 0
  {
    if c in Own(n) {
      ChainAllocated(v, cluster, n.chain);
    } else {
      HeldByOne(n.children, c);
      var i :| 0 <= i < |n.children| && c in Held(n.children[i]);
      NodeUsed(v, n.entries[i], n.children[i], c);
    }
  }

  lemma HeldIsUsed(v: Volume, root: int, n: Node)
    requires v.Valid() && DescribesFolder(v, root, n)
    ensures Held(n) <= Used(v)
  {
    forall c | c in Held(n)
      ensures c in Used(v)
    {
      FolderUsed(v, root, n, c);
    }
  }

  lemma AccountedIsAccepted(v: Volume, root: int, hint: nat, n: Node)
    requires v.Valid() && Accounts(v, root, hint, n)
    ensures Held(n) == Used(v)
    ensures InspectVolume(v, root, hint)
            == Ok(Report(TreeRecords(ROOT_PATH, n), v.ClusterCount() - |Held(n)|, |Held(n)|))
  {
    hide ParseDirectory, DescribesFolder, Owns, Held, TreeRecords;
    HeldIsUsed(v, root, n);
    var o :| Owns(o, ROOT_PATH, n);
    ParseComplete(v, root, n, ROOT_PATH, map[], {}, o);
    TreeReported(v, root, n, ROOT_PATH);
  }

  /** inspect_image accepts a volume exactly when one directory tree accounts for all of it; that tree
      is unique, and the report lists it, with its clusters as the allocated ones. */
  lemma InspectDecides(v: Volume, root: int, hint: nat)
    requires v.Valid()
    ensures InspectVolume(v, root, hint).Ok? <==> exists n :: Accounts(v, root, hint, n)
    ensures forall n, m :: Accounts(v, root, hint, n) && Accounts(v, root, hint, m) ==> n == m
    ensures forall n :: Accounts(v, root, hint, n) ==>
              && Held(n) == Used(v)
              && InspectVolume(v, root, hint)
                 == Ok(Report(TreeRecords(ROOT_PATH, n), v.ClusterCount() - |Held(n)|, |Held(n)|))
  {
    hide InspectVolume, DescribesFolder, Owns, Held, TreeRecords;
    forall n | Accounts(v, root, hint, n)
      ensures Held(n) == Used(v)
      ensures InspectVolume(v, root, hint)
              == Ok(Report(TreeRecords(ROOT_PATH, n), v.ClusterCount() - |Held(n)|, |Held(n)|))
    {
      AccountedIsAccepted(v, root, hint, n);
    }
    forall n, m | Accounts(v, root, hint, n) && Accounts(v, root, hint, m)
      ensures n == m
    {
      FolderUnique(v, root, n, m);
    }
    if InspectVolume(v, root, hint).Ok? {
      var n := AcceptedTree(v, root, hint);
    }
  }

  lemma AcceptedTree(v: Volume, root: int, hint: nat) returns (n: Node)
    requires v.Valid() && InspectVolume(v, root, hint).Ok?
    ensures Accounts(v, root, hint, n)
  {
    hide ParseDirectory, DescribesFolder, Held, TreeRecords;
    n := ParseSound(v, root, ROOT_PATH, map[], {});
    HeldIsUsed(v, root, n);
    TreeReported(v, root, n, ROOT_PATH);
    assert Owns(ParseDirectory(v, root, ROOT_PATH, map[], {}).value.1, ROOT_PATH, n);
    assert Held(n) == Used(v);
  }

  // Records and clusters

  /** Cluster `c` belongs to what the entry names: to its file chain, or to the walked part of its
      directory chain. */
  ghost predicate Occupies(v: Volume, e: Entry, c: int)
    requires v.Valid()
  {
    exists n :: DescribesEntry(v, e, n) && c in Own(n)
  }

  /** The records of a directory are those of its entries and, below each, those of its subtree. */
  lemma {:induction false} RecordsSplit(path: Text, entries: seq<Entry>, children: seq<Node>, r: Record) returns (i: nat)
    requires |children| == |entries|
    requires r in Records(path, entries) + ChildRecords(path, entries, children)
    ensures i < |entries|
    ensures var child := ChildPath(path, entries[i].text);
            r == Record(child, entries[i]) || r in TreeRecords(child, children[i])
    decreases |children|
  {
    hide TreeRecords, ChildPath;
    if j :| 0 <= j < |entries| && Records(path, entries)[j] == r {
      return j;
    }
    if r in TreeRecords(ChildPath(path, entries[0].text), children[0]) {
      return 0;
    }
    var k := RecordsSplit(path, entries[1..], children[1..], r);
    return k + 1;
  }

  lemma {:induction false} RecordsJoin(path: Text, entries: seq<Entry>, children: seq<Node>, r: Record, i: nat)
    requires |children| == |entries| && i < |entries|
    requires var child := ChildPath(path, entries[i].text);
             r == Record(child, entries[i]) || r in TreeRecords(child, children[i])
    ensures r in Records(path, entries) + ChildRecords(path, entries, children)
    decreases |children|
  {
    if r == Record(ChildPath(path, entries[i].text), entries[i]) {
      assert Records(path, entries)[i] == r;
    } else if i > 0 {
      assert entries[1..][i - 1] == entries[i] && children[1..][i - 1] == children[i];
      RecordsJoin(path, entries[1..], children[1..], r, i - 1);
      if r in Records(path, entries[1..]) {
        var j :| 0 <= j < |entries[1..]| && Records(path, entries[1..])[j] == r;
        assert Records(path, entries)[j + 1] == r;
      }
    }
  }

  /** Every record of a tree owns, under its own path, each cluster it occupies. */
  lemma {:induction false} RecordOwned(v: Volume, path: Text, n: Node, cluster: int, o: Owners, r: Record, c: int)
    requires v.Valid() && DescribesFolder(v, cluster, n) && Owns(o, path, n)
    requires r in TreeRecords(path, n) && Occupies(v, r.entry, c)
    ensures c in o && o[c] == r.path
    decreases n
  {
    var i := RecordsSplit(path, n.entries, n.children, r);
    var child, e, m := ChildPath(path, n.entries[i].text), n.entries[i], n.children[i];
    assert DescribesEntry(v, e, m) && Owns(o, child, m);
    if r == Record(child, e) {
      var m' :| DescribesEntry(v, e, m') && c in Own(m');
      EntryUnique(v, e, m, m');
    } else {
      RecordOwned(v, child, m, e.firstCluster, o, r, c);
    }
  }

  /** Every cluster of a tree below its root belongs to one of its records. */
  lemma {:induction false} HeldByRecord(v: Volume, path: Text, n: Node, cluster: int, c: int) returns (r: Record)
    requires v.Valid() && DescribesFolder(v, cluster, n) && c in HeldByAll(n.children)
    ensures r in TreeRecords(path, n) && Occupies(v, r.entry, c)
    decreases n
  {
    HeldByOne(n.children, c);
    var i :| 0 <= i < |n.children| && c in Held(n.children[i]);
    var child, e, m := ChildPath(path, n.entries[i].text), n.entries[i], n.children[i];
    assert DescribesEntry(v, e, m);
    if c in Own(m) {
      r := Record(child, e);
    } else {
      r := HeldByRecord(v, child, m, e.firstCluster, c);
    }
    RecordsJoin(path, n.entries, n.children, r, i);
  }

  /** The ownership map an accepting inspection ends with. */
  lemma AcceptedOwners(v: Volume, root: int, hint: nat, n: Node) returns (o: Owners)
    requires v.Valid() && InspectVolume(v, root, hint).Ok? && DescribesFolder(v, root, n)
    ensures Owns(o, ROOT_PATH, n) && o.Keys == Held(n) == Used(v)
    ensures InspectVolume(v, root, hint).value.records == TreeRecords(ROOT_PATH, n)
  {
    hide ParseDirectory, DescribesFolder, Owns, TreeRecords, Held;
    TreeReported(v, root, n, ROOT_PATH);
    HeldIsUsed(v, root, n);
    o := ParseDirectory(v, root, ROOT_PATH, map[], {}).value.1;
  }

  /** Whenever inspect_image accepts, two records that share a cluster have the same path. */
  lemma RecordsDisjoint(v: Volume, root: int, hint: nat, r: Record, s: Record, c: int)
    requires v.Valid() && InspectVolume(v, root, hint).Ok?
    requires r in InspectVolume(v, root, hint).value.records && s in InspectVolume(v, root, hint).value.records
    requires Occupies(v, r.entry, c) && Occupies(v, s.entry, c)
    ensures r.path == s.path
  {
    hide InspectVolume, DescribesFolder, Owns, TreeRecords, Occupies;
    var n := AcceptedTree(v, root, hint);
    var o := AcceptedOwners(v, root, hint, n);
    RecordOwned(v, ROOT_PATH, n, root, o, r, c);
    RecordOwned(v, ROOT_PATH, n, root, o, s, c);
  }

  /** Nor does any record share a cluster with the root directory, unless its path is the root's. */
  lemma RootDisjoint(v: Volume, root: int, hint: nat, n: Node, r: Record, c: int)
    requires v.Valid() && InspectVolume(v, root, hint).Ok? && DescribesFolder(v, root, n)
    requires r in InspectVolume(v, root, hint).value.records
    requires Occupies(v, r.entry, c) && c in Own(n)
    ensures r.path == ROOT_PATH
  {
    hide InspectVolume, DescribesFolder, TreeRecords, Occupies;
    var o := AcceptedOwners(v, root, hint, n);
    RecordOwned(v, ROOT_PATH, n, root, o, r, c);
  }

  /** The clusters with a nonzero FAT entry are exactly those of the root directory and the records. */
  lemma AllocatedIsOwned(v: Volume, root: int, hint: nat, n: Node, c: int)
    requires v.Valid() && InspectVolume(v, root, hint).Ok? && DescribesFolder(v, root, n) && v.InRange(c)
    ensures v.fat[c] != 0 <==>
            c in Own(n) || exists r :: r in InspectVolume(v, root, hint).value.records && Occupies(v, r.entry, c)
  {
    hide InspectVolume, TreeRecords;
    var o := AcceptedOwners(v, root, hint, n);
    var records := InspectVolume(v, root, hint).value.records;
    if v.fat[c] != 0 && c !in Own(n) {
      assert c in Used(v);
      var r := HeldByRecord(v, ROOT_PATH, n, root, c);
      assert r in records && Occupies(v, r.entry, c);
    }
    if r :| r in records && Occupies(v, r.entry, c) {
      RecordOwned(v, ROOT_PATH, n, root, o, r, c);
    }
  }

  /** Free clusters and owned clusters add up to the volume. */
  lemma FreePlusOwned(v: Volume, root: int, hint: nat, n: Node)
    requires v.Valid() && InspectVolume(v, root, hint).Ok? && DescribesFolder(v, root, n)
    ensures InspectVolume(v, root, hint).value.freeClusters + |Held(n)| == v.ClusterCount()
  {
    hide ParseDirectory, DescribesFolder, Owns, TreeRecords, Held;
    var o := AcceptedOwners(v, root, hint, n);
  }
}
