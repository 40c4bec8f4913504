// The recursive directory walk with its ownership map and directory stack, and the directory tree it
// decides (tools/fat32_image.py, _parse_directory).

module FatTree {
  import opened Bytes
  import opened FatChain
  import opened FatDirectory

  datatype Record = Record(path: Text, entry: Entry)

  function Records(path: Text, entries: seq<Entry>): (rs: seq<Record>)
    ensures |rs| == |entries|
  {
    seq(|entries|, i requires 0 <= i < |entries| => Record(ChildPath(path, entries[i].text), entries[i]))
  }

  /** Clusters needed for `size` bytes, rounded up. */
  function ClustersFor(size: nat, clusterBytes: nat): (n: nat)
    requires clusterBytes > 0
    ensures size <= n * clusterBytes < size + clusterBytes
  {
    (size + clusterBytes - 1) / clusterBytes
  }

  // The walk

  function ClaimFile(chain: seq<int>, path: Text, owners: Owners): (r: Result<Owners, FatError>) {
    if chain == [] then Ok(owners)
    else if chain[0] in owners && owners[chain[0]] != path then Err(CrossLinkedFile)
    else ClaimFile(chain[1..], path, owners[chain[0] := path])
  }

  function VisitFile(v: Volume, e: Entry, path: Text, owners: Owners): (r: Result<Owners, FatError>)
    requires v.Valid()
  {
    var chain :- WalkChain(v, e.firstCluster);
    if |chain| != ClustersFor(e.size, v.clusterBytes) || e.size > |chain| * v.clusterBytes then Err(SizeChainMismatch)
    else ClaimFile(chain, path, owners)
  }

  /** One directory: its records, then those of its subdirectories, depth first. */
  function ParseDirectory(v: Volume, cluster: int, path: Text, owners: Owners, stack: set<int>)
    : (r: Result<(seq<Record>, Owners), FatError>)
    requires v.Valid()
    decreases Clusters(v) - stack, 0, 0
  {
    if cluster in stack then Err(DirectoryCycle)
    else
      var chain :- WalkChain(v, cluster);
      WalkChainExact(v, cluster, chain);
      var (entries, owners') :- ScanChain(v, chain, path, owners, false, []);
      assert cluster in Clusters(v) - stack;
      var (descendants, owners'') :- VisitEntries(v, entries, path, {}, owners', stack + {cluster});
      Ok((Records(path, entries) + descendants, owners''))
  }

  function VisitEntries(v: Volume, entries: seq<Entry>, path: Text, folded: set<seq<Byte>>,
                        owners: Owners, stack: set<int>)
    : (r: Result<(seq<Record>, Owners), FatError>)
    requires v.Valid()
    decreases Clusters(v) - stack, 1, |entries|
  {
    if entries == [] then Ok(([], owners))
    else
      var e := entries[0];
      if Upper(e.name) in folded then Err(DuplicateName)
      else
        var (found, owners') :- VisitEntry(v, e, ChildPath(path, e.text), owners, stack);
        var (rest, owners'') :- VisitEntries(v, entries[1..], path, folded + {Upper(e.name)}, owners', stack);
        Ok((found + rest, owners''))
  }

  function VisitEntry(v: Volume, e: Entry, path: Text, owners: Owners, stack: set<int>)
    : (r: Result<(seq<Record>, Owners), FatError>)
    requires v.Valid()
    decreases Clusters(v) - stack, 1, 0
  {
    if IsDotName(e.name) then Ok(([], owners))
    else if e.IsDirectory() then
      if e.firstCluster < 2 then Err(DirectoryWithoutCluster)
      else ParseDirectory(v, e.firstCluster, path, owners, stack)
    else
      var owners' :- VisitFile(v, e, path, owners);
      Ok(([], owners'))
  }

  // The tree, independently of the walk

  /** A directory is the chain it starts, how many of its clusters hold entries, those entries, and
      one subtree per entry. */
  datatype Node =
    | Dot
    | File(chain: seq<int>)
    | Folder(chain: seq<int>, walked: nat, entries: seq<Entry>, children: seq<Node>)

  ghost predicate NamesUnique(entries: seq<Entry>) {
    forall i, j :: 0 <= i < j < |entries| ==> Upper(entries[i].name) != Upper(entries[j].name)
  }

  /** `n` is the directory that starts at `cluster` of the volume. */
  ghost predicate DescribesFolder(v: Volume, cluster: int, n: Node)
    requires v.Valid()
    decreases n, 0
  {
    && n.Folder?
    && IsPath(v, cluster, n.chain)
    && 1 <= n.walked <= |n.chain|
    && FolderContent(v, n.chain[..n.walked], n.entries)
    && NamesUnique(n.entries)
    && |n.children| == |n.entries|
    && forall i :: 0 <= i < |n.entries| ==> DescribesEntry(v, n.entries[i], n.children[i])
  }

  /** `n` is what the entry `e` names. */
  ghost predicate DescribesEntry(v: Volume, e: Entry, n: Node)
    requires v.Valid()
    decreases n, 1
  {
    if IsDotName(e.name) then n == Dot
    else if e.IsDirectory() then e.firstCluster >= 2 && DescribesFolder(v, e.firstCluster, n)
    else n.File? && IsChain(v, e.firstCluster, n.chain) && |n.chain| == ClustersFor(e.size, v.clusterBytes)
  }

  ghost predicate DescribesAll(v: Volume, entries: seq<Entry>, children: seq<Node>)
    requires v.Valid()
  {
    && |children| == |entries|
    && forall i :: 0 <= i < |entries| ==> DescribesEntry(v, entries[i], children[i])
  }

  /** The clusters of a node itself: a file's chain, or a directory's chain up to its end marker. */
  ghost function Own(n: Node): (s: seq<int>) {
    match n
    case Dot => []
    case File(chain) => chain
    case Folder(chain, walked, _, _) => if walked <= |chain| then chain[..walked] else chain
  }

  /** The clusters of a whole tree. */
  ghost function Held(n: Node): (s: set<int>) {
    (set c | c in Own(n)) + if n.Folder? then HeldByAll(n.children) else {}
  }

  ghost function HeldByAll(children: seq<Node>): (s: set<int>) {
    if children == [] then {} else Held(children[0]) + HeldByAll(children[1..])
  }

  /** Every cluster a tree occupies carries, in `owners`, the path of the file or directory it is in. */
  ghost predicate Owns(owners: Owners, path: Text, n: Node)
    decreases n
  {
    && (forall c :: c in Own(n) ==> c in owners && owners[c] == path)
    && (n.Folder? ==>
          && |n.children| == |n.entries|
          && forall i :: 0 <= i < |n.children| ==> Owns(owners, ChildPath(path, n.entries[i].text), n.children[i]))
  }

  ghost predicate OwnsAll(owners: Owners, path: Text, entries: seq<Entry>, children: seq<Node>) {
    && |children| == |entries|
    && forall i :: 0 <= i < |children| ==> Owns(owners, ChildPath(path, entries[i].text), children[i])
  }

  /** The records of a tree in the order the walk reports them. */
  ghost function TreeRecords(path: Text, n: Node): (rs: seq<Record>)
    decreases n
  {
    if n.Folder? then Records(path, n.entries) + ChildRecords(path, n.entries, n.children) else []
  }

  ghost function ChildRecords(path: Text, entries: seq<Entry>, children: seq<Node>): (rs: seq<Record>)
    decreases children
  {
    if children == [] || entries == [] then []
    else TreeRecords(ChildPath(path, entries[0].text), children[0]) + ChildRecords(path, entries[1..], children[1..])
  }

  ghost predicate Submap(a: Owners, b: Owners) {
    forall c :: c in a ==> c in b && a[c] == b[c]
  }

  // A successful walk found a tree

  lemma {:induction false} OwnsMonotone(a: Owners, b: Owners, path: Text, n: Node)
    requires Submap(a, b) && Owns(a, path, n)
    ensures Owns(b, path, n)
    decreases n
  {
    if n.Folder? {
      forall i | 0 <= i < |n.children|
        ensures Owns(b, ChildPath(path, n.entries[i].text), n.children[i])
      {
        OwnsMonotone(a, b, ChildPath(path, n.entries[i].text), n.children[i]);
      }
    }
  }

  lemma {:induction false} ClaimFileExact(chain: seq<int>, path: Text, owners: Owners)
    ensures ClaimFile(chain, path, owners)
            == if Compatible(owners, chain, path) then Ok(Claimed(owners, chain, path)) else Err(CrossLinkedFile)
    decreases |chain|
  {
    if chain == [] {
      assert Claimed(owners, chain, path) == owners;
    } else {
      ClaimedStep(owners, chain, path);
      ClaimFileExact(chain[1..], path, owners[chain[0] := path]);
    }
  }

  /** What a step of the walk does to the ownership map, given the tree it found. */
  ghost predicate Grows(owners: Owners, owners': Owners, held: set<int>) {
    Submap(owners, owners') && owners'.Keys == owners.Keys + held
  }

  lemma ClaimedGrows(owners: Owners, clusters: seq<int>, path: Text)
    requires Compatible(owners, clusters, path)
    ensures Grows(owners, Claimed(owners, clusters, path), set c | c in clusters)
    ensures forall c :: c in clusters ==> c in Claimed(owners, clusters, path) && Claimed(owners, clusters, path)[c] == path
  {
  }

  lemma {:induction false} ParseSound(v: Volume, cluster: int, path: Text, owners: Owners, stack: set<int>)
    returns (n: Node)
    requires v.Valid() && ParseDirectory(v, cluster, path, owners, stack).Ok?
    ensures DescribesFolder(v, cluster, n)
    ensures var (records, owners') := ParseDirectory(v, cluster, path, owners, stack).value;
            && records == TreeRecords(path, n)
            && Grows(owners, owners', Held(n))
            && Owns(owners', path, n)
    decreases Clusters(v) - stack, 0, 0
  {
    hide ParseDirectory, VisitEntries, FolderContent, IsPath, Claimed, Compatible, DescribesFolder, DescribesAll,
         NamesUnique, Owns, OwnsAll, Grows, Held, HeldByAll;
    var chain, w, entries := ParseOpens(v, cluster, path, owners, stack);
    var owners1 := Claimed(owners, chain[..w], path);
    var (_, owners2) := VisitEntries(v, entries, path, {}, owners1, stack + {cluster}).value;
    assert cluster in Clusters(v) - stack;
    var children := VisitAllSound(v, entries, path, {}, owners1, stack + {cluster});
    n := Folder(chain, w, entries, children);
    FolderFound(v, cluster, n);
    ClaimedGrows(owners, chain[..w], path);
    FolderOwned(owners, owners1, owners2, path, n);
  }

  lemma FolderOwned(owners: Owners, owners1: Owners, owners2: Owners, path: Text, n: Node)
    requires n.Folder? && Grows(owners, owners1, set c | c in Own(n))
    requires forall c :: c in Own(n) ==> c in owners1 && owners1[c] == path
    requires Grows(owners1, owners2, HeldByAll(n.children)) && OwnsAll(owners2, path, n.entries, n.children)
    ensures Grows(owners, owners2, Held(n)) && Owns(owners2, path, n)
  {
  }

  /** What a successful walk knows once it has read a directory's own clusters. */
  lemma ParseOpens(v: Volume, cluster: int, path: Text, owners: Owners, stack: set<int>)
    returns (chain: seq<int>, w: nat, entries: seq<Entry>)
    requires v.Valid() && ParseDirectory(v, cluster, path, owners, stack).Ok?
    ensures cluster !in stack && v.InRange(cluster)
    ensures IsPath(v, cluster, chain) && 1 <= w <= |chain| && FolderContent(v, chain[..w], entries)
    ensures Compatible(owners, chain[..w], path)
    ensures var visit := VisitEntries(v, entries, path, {}, Claimed(owners, chain[..w], path), stack + {cluster});
            && visit.Ok?
            && ParseDirectory(v, cluster, path, owners, stack)
               == Ok((Records(path, entries) + visit.value.0, visit.value.1))
  {
    chain := WalkChain(v, cluster).value;
    WalkChainExact(v, cluster, chain);
    entries := ScanChain(v, chain, path, owners, false, []).value.0;
    w := ScanFindsContent(v, chain, path, owners);
  }

  lemma FolderFound(v: Volume, cluster: int, n: Node)
    requires v.Valid() && n.Folder? && IsPath(v, cluster, n.chain) && 1 <= n.walked <= |n.chain|
    requires FolderContent(v, n.chain[..n.walked], n.entries)
    requires NamesUnique(n.entries) && DescribesAll(v, n.entries, n.children)
    ensures DescribesFolder(v, cluster, n)
  {
  }

  lemma {:induction false} VisitAllSound(v: Volume, entries: seq<Entry>, path: Text, folded: set<seq<Byte>>,
                                         owners: Owners, stack: set<int>)
    returns (children: seq<Node>)
    requires v.Valid() && VisitEntries(v, entries, path, folded, owners, stack).Ok?
    ensures DescribesAll(v, entries, children)
    ensures NamesUnique(entries) && forall i :: 0 <= i < |entries| ==> Upper(entries[i].name) !in folded
    ensures var (records, owners') := VisitEntries(v, entries, path, folded, owners, stack).value;
            && records == ChildRecords(path, entries, children)
            && Grows(owners, owners', HeldByAll(children))
            && OwnsAll(owners', path, entries, children)
    decreases Clusters(v) - stack, 1, |entries|
  {
    hide ParseDirectory, VisitEntry, Owns, DescribesEntry, Held;
    if entries == [] {
      return [];
    }
    var e := entries[0];
    var (_, owners1) := VisitEntry(v, e, ChildPath(path, e.text), owners, stack).value;
    var (_, owners2) := VisitEntries(v, entries[1..], path, folded + {Upper(e.name)}, owners1, stack).value;
    var first := VisitSound(v, e, ChildPath(path, e.text), owners, stack);
    var rest := VisitAllSound(v, entries[1..], path, folded + {Upper(e.name)}, owners1, stack);
    children := [first] + rest;
    assert children[1..] == rest;
    OwnsMonotone(owners1, owners2, ChildPath(path, e.text), first);
    forall i | 0 <= i < |entries|
      ensures DescribesEntry(v, entries[i], children[i])
      ensures Owns(owners2, ChildPath(path, entries[i].text), children[i])
      ensures Upper(entries[i].name) !in folded
      ensures i > 0 ==> Upper(entries[i].name) != Upper(e.name)
    {
      if i > 0 {
        assert entries[i] == entries[1..][i - 1] && children[i] == rest[i - 1];
      }
    }
    assert NamesUnique(entries) by {
      assert forall i :: 1 <= i < |entries| ==> entries[i] == entries[1..][i - 1];
    }
  }

  lemma {:induction false} VisitSound(v: Volume, e: Entry, path: Text, owners: Owners, stack: set<int>)
    returns (n: Node)
    requires v.Valid() && VisitEntry(v, e, path, owners, stack).Ok?
    ensures DescribesEntry(v, e, n)
    ensures var (records, owners') := VisitEntry(v, e, path, owners, stack).value;
            && records == TreeRecords(path, n)
            && Grows(owners, owners', Held(n))
            && Owns(owners', path, n)
    decreases Clusters(v) - stack, 1, 0
  {
    if IsDotName(e.name) {
      n := Dot;
    } else if e.IsDirectory() {
      n := ParseSound(v, e.firstCluster, path, owners, stack);
    } else {
      var chain := WalkChain(v, e.firstCluster).value;
      WalkChainExact(v, e.firstCluster, chain);
      ClaimFileExact(chain, path, owners);
      n := File(chain);
    }
  }

  // A volume has at most one tree at a cluster

  lemma {:induction false} FolderUnique(v: Volume, cluster: int, n: Node, m: Node)
    requires v.Valid() && DescribesFolder(v, cluster, n) && DescribesFolder(v, cluster, m)
    ensures n == m
    decreases n, 0
  {
    PathUnique(v, cluster, n.chain, m.chain);
    PathDistinct(v, cluster, n.chain);
    ContentUnique(v, n.chain, n.walked, n.entries, m.walked, m.entries);
    forall i | 0 <= i < |n.children|
      ensures n.children[i] == m.children[i]
    {
      EntryUnique(v, n.entries[i], n.children[i], m.children[i]);
    }
    assert n.children == m.children;
  }

  lemma {:induction false} EntryUnique(v: Volume, e: Entry, n: Node, m: Node)
    requires v.Valid() && DescribesEntry(v, e, n) && DescribesEntry(v, e, m)
    ensures n == m
    decreases n, 1
  {
    if IsDotName(e.name) {
    } else if e.IsDirectory() {
      FolderUnique(v, e.firstCluster, n, m);
    } else if e.firstCluster != 0 {
      PathUnique(v, e.firstCluster, n.chain, m.chain);
    }
  }

  // A directory never occurs inside itself

  /** The first clusters of the directories in a tree. */
  ghost function Heads(n: Node): (s: set<int>) {
    match n
    case Folder(chain, _, _, children) => (if chain == [] then {} else {chain[0]}) + HeadsOfAll(children)
    case _ => {}
  }

  ghost function HeadsOfAll(children: seq<Node>): (s: set<int>) {
    if children == [] then {} else Heads(children[0]) + HeadsOfAll(children[1..])
  }

  ghost function Height(n: Node): (h: nat) {
    if n.Folder? then 1 + HeightOfAll(n.children) else 0
  }

  ghost function HeightOfAll(children: seq<Node>): (h: nat) {
    if children == [] then 0
    else
      var a, b := Height(children[0]), HeightOfAll(children[1..]);
      if a > b then a else b
  }

  /** A directory that starts anywhere in a tree is described by a part of that tree. */
  lemma {:induction false} HeadDescribed(v: Volume, entries: seq<Entry>, children: seq<Node>, cluster: int)
    returns (m: Node)
    requires v.Valid() && DescribesAll(v, entries, children) && cluster in HeadsOfAll(children)
    ensures DescribesFolder(v, cluster, m) && Height(m) <= HeightOfAll(children)
    decreases children
  {
    var n := children[0];
    assert DescribesEntry(v, entries[0], n);
    if cluster in HeadsOfAll(children[1..]) {
      m := HeadDescribed(v, entries[1..], children[1..], cluster);
    } else {
      assert n.Folder? && DescribesFolder(v, entries[0].firstCluster, n);
      if cluster == n.chain[0] {
        m := n;
      } else {
        m := HeadDescribed(v, n.entries, n.children, cluster);
      }
    }
  }

  lemma NotInsideItself(v: Volume, cluster: int, n: Node)
    requires v.Valid() && DescribesFolder(v, cluster, n)
    ensures cluster !in HeadsOfAll(n.children)
  {
    if cluster in HeadsOfAll(n.children) {
      var m := HeadDescribed(v, n.entries, n.children, cluster);
      FolderUnique(v, cluster, n, m);
      assert false;
    }
  }

  // A tree whose clusters can be owned consistently is found by the walk

  lemma SubmapClaimed(owners: Owners, o: Owners, clusters: seq<int>, path: Text)
    requires Submap(owners, o)
    requires forall c :: c in clusters ==> c in o && o[c] == path
    ensures Compatible(owners, clusters, path)
    ensures Submap(Claimed(owners, clusters, path), o)
  {
  }

  lemma {:induction false} ParseComplete(v: Volume, cluster: int, n: Node, path: Text, owners: Owners,
                                         stack: set<int>, o: Owners)
    requires v.Valid() && DescribesFolder(v, cluster, n)
    requires Owns(o, path, n) && Submap(owners, o) && stack !! Heads(n)
    ensures var r := ParseDirectory(v, cluster, path, owners, stack);
            r.Ok? && Submap(r.value.1, o)
    decreases n, 0
  {
    hide FolderContent, ScanChain, WalkFrom, VisitEntries, Claimed;
    WalkChainExact(v, cluster, n.chain);
    SubmapClaimed(owners, o, n.chain[..n.walked], path);
    ContentFoundByScan(v, n.chain, n.walked, path, owners, n.entries);
    NotInsideItself(v, cluster, n);
    VisitAllComplete(v, n.entries, n.children, path, {}, Claimed(owners, n.chain[..n.walked], path),
                     stack + {cluster}, o);
  }

  lemma {:induction false} VisitAllComplete(v: Volume, entries: seq<Entry>, children: seq<Node>, path: Text,
                                            folded: set<seq<Byte>>, owners: Owners, stack: set<int>, o: Owners)
    requires v.Valid() && DescribesAll(v, entries, children) && NamesUnique(entries)
    requires forall i :: 0 <= i < |entries| ==> Upper(entries[i].name) !in folded
    requires OwnsAll(o, path, entries, children) && Submap(owners, o) && stack !! HeadsOfAll(children)
    ensures var r := VisitEntries(v, entries, path, folded, owners, stack);
            r.Ok? && Submap(r.value.1, o)
    decreases children, |entries|
  {
    if entries != [] {
      var e := entries[0];
      VisitComplete(v, e, children[0], ChildPath(path, e.text), owners, stack, o);
      var (_, owners1) := VisitEntry(v, e, ChildPath(path, e.text), owners, stack).value;
      assert forall i :: 0 <= i < |entries[1..]| ==> entries[1..][i] == entries[i + 1];
      VisitAllComplete(v, entries[1..], children[1..], path, folded + {Upper(e.name)}, owners1, stack, o);
    }
  }

  lemma {:induction false} VisitComplete(v: Volume, e: Entry, n: Node, path: Text, owners: Owners,
                                         stack: set<int>, o: Owners)
    requires v.Valid() && DescribesEntry(v, e, n)
    requires Owns(o, path, n) && Submap(owners, o) && stack !! Heads(n)
    ensures var r := VisitEntry(v, e, path, owners, stack);
            r.Ok? && Submap(r.value.1, o)
    decreases n, 1
  {
    if IsDotName(e.name) {
    } else if e.IsDirectory() {
      ParseComplete(v, e.firstCluster, n, path, owners, stack, o);
    } else {
      WalkChainExact(v, e.firstCluster, n.chain);
      SubmapClaimed(owners, o, n.chain, path);
      ClaimFileExact(n.chain, path, owners);
    }
  }

  /** The walk from the root succeeds exactly when the volume holds a finite directory tree whose
      clusters can be assigned one path each; it then reports that tree and owns exactly its clusters. */
  lemma WalkDecidesTree(v: Volume, root: int, n: Node, path: Text)
    requires v.Valid() && DescribesFolder(v, root, n)
    ensures var r := ParseDirectory(v, root, path, map[], {});
            && (r.Ok? <==> exists o :: Owns(o, path, n))
            && (r.Ok? ==> r.value.0 == TreeRecords(path, n) && r.value.1.Keys == Held(n) && Owns(r.value.1, path, n))
  {
    var r := ParseDirectory(v, root, path, map[], {});
    if r.Ok? {
      TreeReported(v, root, n, path);
    }
    if o :| Owns(o, path, n) {
      ParseComplete(v, root, n, path, map[], {}, o);
    }
  }

  lemma TreeReported(v: Volume, root: int, n: Node, path: Text)
    requires v.Valid() && DescribesFolder(v, root, n) && ParseDirectory(v, root, path, map[], {}).Ok?
    ensures var (records, owners) := ParseDirectory(v, root, path, map[], {}).value;
            records == TreeRecords(path, n) && owners.Keys == Held(n) && Owns(owners, path, n)
  {
    hide ParseDirectory, DescribesFolder, Owns, Held, TreeRecords;
    var m := ParseSound(v, root, path, map[], {});
    FolderUnique(v, root, n, m);
  }

  lemma NoTreeNoWalk(v: Volume, root: int, path: Text)
    requires v.Valid() && !exists n :: DescribesFolder(v, root, n)
    ensures ParseDirectory(v, root, path, map[], {}).Err?
  {
    if ParseDirectory(v, root, path, map[], {}).Ok? {
      var n := ParseSound(v, root, path, map[], {});
      assert false;
    }
  }
}
