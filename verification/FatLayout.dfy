// Contiguous allocation: what the formatter leaves on a volume, and why a chain walk reads it back
// (tools/fat32_image.py, the allocation loops of build_image and populate_data_*).

module FatLayout {
  import opened Bytes
  import opened FatChain
  import opened FatDirectory
  import opened FatTree
  import opened FatInspector
  import opened FatFormat
  import opened FatGeometry

  /** Clusters a content needs. */
  function Blocks(content: seq<Byte>): (n: nat)
    ensures n == ClustersFor(|content|, SECTOR_BYTES)
    ensures |content| > 0 <==> n > 0
  {
    (|content| + SECTOR_BYTES - 1) / SECTOR_BYTES
  }

  /** Block `i` of a content, as written. */
  function Block(content: seq<Byte>, i: nat): (b: seq<Byte>)
    requires i < Blocks(content)
    ensures 0 < |b| <= SECTOR_BYTES
  {
    var start := SECTOR_BYTES * i;
    content[start..if |content| - start <= SECTOR_BYTES then |content| else start + SECTOR_BYTES]
  }

  /** The same, with the zeros that fill the cluster. */
  function PaddedBlock(content: seq<Byte>, i: nat): (b: seq<Byte>)
    requires i < Blocks(content)
    ensures |b| == SECTOR_BYTES
  {
    Block(content, i) + Zeros(SECTOR_BYTES - |Block(content, i)|)
  }

  function Following(first: nat, n: nat, i: nat): (x: nat) {
    if i + 1 < n then first + i + 1 else FAT32_EOC
  }

  /** The volume holds `content` in a contiguous chain from `first`. */
  ghost predicate Holds(v: Volume, first: nat, content: seq<Byte>) {
    && v.Valid() && v.clusterBytes == SECTOR_BYTES
    && 2 <= first && first + Blocks(content) <= |v.fat|
    && forall i :: 0 <= i < Blocks(content) ==>
         v.fat[first + i] == Following(first, Blocks(content), i) && v.data[first + i] == PaddedBlock(content, i)
  }

  function Run(first: nat, n: nat): (s: seq<int>)
    ensures |s| == n && forall i :: 0 <= i < n ==> s[i] == first + i
  {
    seq(n, i => first + i)
  }

  lemma HoldsIsChain(v: Volume, first: nat, content: seq<Byte>)
    requires Holds(v, first, content) && content != []
    ensures IsPath(v, first, Run(first, Blocks(content)))
  {
    var n := Blocks(content);
    var p := Run(first, n);
    forall i | 0 <= i < n
      ensures v.InRange(p[i])
      ensures i < n - 1 ==> v.fat[p[i]] == p[i + 1]
    {
      assert v.fat[first + i] == Following(first, n, i);
    }
    assert v.fat[first + (n - 1)] == Following(first, n, n - 1);
  }

  lemma HoldsAt(v: Volume, first: nat, content: seq<Byte>, c: nat)
    requires Holds(v, first, content) && first <= c < first + Blocks(content)
    ensures v.Valid() && v.InRange(c) && v.fat[c] == Following(first, Blocks(content), c - first) && v.fat[c] != 0
    ensures v.data[c] == PaddedBlock(content, c - first)
  {
    var i := c - first;
    assert v.fat[first + i] == Following(first, Blocks(content), i) && v.data[first + i] == PaddedBlock(content, i);
  }

  // Reading a file back

  ghost function ReadChain(v: Volume, chain: seq<int>): (s: seq<Byte>)
    requires v.Valid() && forall i :: 0 <= i < |chain| ==> v.InRange(chain[i])
  {
    if chain == [] then [] else ReadChain(v, chain[..|chain| - 1]) + v.data[chain[|chain| - 1]]
  }

  lemma BlockJoins(content: seq<Byte>, i: nat)
    requires i < Blocks(content)
    ensures SECTOR_BYTES * i <= |content|
    ensures content[..SECTOR_BYTES * i] + PaddedBlock(content, i)
            == if i + 1 < Blocks(content) then content[..SECTOR_BYTES * (i + 1)]
               else content + Zeros(SECTOR_BYTES * (i + 1) - |content|)
  {
    assert content[..SECTOR_BYTES * i] + Block(content, i)
           == if i + 1 < Blocks(content) then content[..SECTOR_BYTES * (i + 1)] else content;
  }

  lemma {:induction false} ReadRun(v: Volume, first: nat, content: seq<Byte>, n: nat)
    requires Holds(v, first, content) && n <= Blocks(content)
    ensures forall i :: 0 <= i < n ==> v.InRange(Run(first, n)[i])
    ensures ReadChain(v, Run(first, n))
            == if n < Blocks(content) then content[..SECTOR_BYTES * n]
               else content + Zeros(SECTOR_BYTES * n - |content|)
    decreases n
  {
    hide Holds, Blocks, PaddedBlock, ReadChain;
    if n > 0 {
      ReadRun(v, first, content, n - 1);
      HoldsAt(v, first, content, first);
      HoldsAt(v, first, content, first + n - 1);
      ReadLast(v, first, n - 1, n);
      BlockJoins(content, n - 1);
    } else {
      ReadNothing(v, first, content);
    }
  }

  lemma ReadLast(v: Volume, first: nat, m: nat, n: nat)
    requires v.Valid() && n == m + 1 && v.InRange(first) && v.InRange(first + m)
    ensures forall i :: 0 <= i < m ==> v.InRange(Run(first, m)[i])
    ensures forall i :: 0 <= i < n ==> v.InRange(Run(first, n)[i])
    ensures ReadChain(v, Run(first, n)) == ReadChain(v, Run(first, m)) + v.data[first + m]
  {
    assert Run(first, n)[..m] == Run(first, m);
  }

  lemma ReadNothing(v: Volume, first: nat, content: seq<Byte>)
    requires Holds(v, first, content)
    ensures ReadChain(v, Run(first, 0)) == []
    ensures Blocks(content) == 0 ==> content == []
    ensures content[..0] == [] && Zeros(0) == []
  {
  }

  /** Following the chain of a stored content returns it, padded with zeros to whole clusters. */
  lemma ReadBack(v: Volume, first: nat, content: seq<Byte>)
    requires Holds(v, first, content) && content != []
    ensures WalkChain(v, first) == Ok(Run(first, Blocks(content)))
    ensures forall i :: 0 <= i < Blocks(content) ==> v.InRange(Run(first, Blocks(content))[i])
    ensures ReadChain(v, Run(first, Blocks(content))) == content + Zeros(SECTOR_BYTES * Blocks(content) - |content|)
  {
    HoldsIsChain(v, first, content);
    WalkChainExact(v, first, Run(first, Blocks(content)));
    ReadRun(v, first, content, Blocks(content));
  }

  // Contents one after another, from cluster 3

  /** The first cluster of content `j` when contents are laid out in order. */
  function Start(contents: seq<seq<Byte>>, j: nat): (c: nat)
    requires j <= |contents|
    ensures c >= ROOT_CLUSTER + 1
    decreases j
  {
    if j == 0 then ROOT_CLUSTER + 1 else Start(contents, j - 1) + Blocks(contents[j - 1])
  }

  /** The volume holds a root directory block and all contents, in order, and nothing else. */
  ghost predicate LaidOut(v: Volume, root: seq<Byte>, contents: seq<seq<Byte>>) {
    && v.Valid() && v.clusterBytes == SECTOR_BYTES
    && |v.fat| == CLUSTER_COUNT + 2
    && v.fat[ROOT_CLUSTER] == FAT32_EOC && v.data[ROOT_CLUSTER] == root
    && Start(contents, |contents|) <= |v.fat|
    && (forall j :: 0 <= j < |contents| ==> contents[j] != [] && Holds(v, Start(contents, j), contents[j]))
    && (forall c :: Start(contents, |contents|) <= c < |v.fat| ==> v.fat[c] == 0)
  }

  lemma {:induction false} StartMonotone(contents: seq<seq<Byte>>, i: nat, j: nat)
    requires i <= j <= |contents|
    ensures i < j ==> Start(contents, i) + Blocks(contents[i]) <= Start(contents, j)
    ensures Start(contents, i) <= Start(contents, j)
    decreases j - i
  {
    if i < j {
      StartMonotone(contents, i + 1, j);
    }
  }

  /** Every cluster between the root and the end belongs to one of the contents. */
  lemma {:induction false} Located(contents: seq<seq<Byte>>, n: nat, c: nat) returns (j: nat)
    requires n <= |contents| && ROOT_CLUSTER + 1 <= c < Start(contents, n)
    ensures j < n && Start(contents, j) <= c < Start(contents, j) + Blocks(contents[j])
    decreases n
  {
    if c < Start(contents, n - 1) {
      j := Located(contents, n - 1, c);
    } else {
      j := n - 1;
    }
  }

  lemma {:induction false} IntervalSize(lo: int, hi: int) returns (s: set<int>)
    requires lo <= hi
    ensures (forall c :: c in s <==> lo <= c < hi) && |s| == hi - lo
    decreases hi - lo
  {
    if lo == hi {
      return {};
    }
    var t := IntervalSize(lo, hi - 1);
    s := t + {hi - 1};
  }

  /** The allocated clusters of such a volume are the root and the clusters up to the end. */
  lemma LaidOutUsed(v: Volume, root: seq<Byte>, contents: seq<seq<Byte>>)
    requires LaidOut(v, root, contents)
    ensures forall c :: c in Used(v) <==> ROOT_CLUSTER <= c < Start(contents, |contents|)
    ensures |Used(v)| == Start(contents, |contents|) - ROOT_CLUSTER
  {
    hide Holds, Start;
    var end := Start(contents, |contents|);
    forall c: int | ROOT_CLUSTER < c < end
      ensures c in Used(v)
    {
      var j := Located(contents, |contents|, c);
      HoldsAt(v, Start(contents, j), contents[j], c);
    }
    var s := IntervalSize(ROOT_CLUSTER, end);
    assert s == Used(v);
  }

  // Ownership: every content has its path

  /** The ownership map that gives each content's clusters its path. */
  ghost function OwnerMap(contents: seq<seq<Byte>>, paths: seq<Text>, n: nat): (o: Owners)
    requires n <= |contents| == |paths|
    decreases n
  {
    if n == 0 then map[ROOT_CLUSTER := ROOT_PATH]
    else Claimed(OwnerMap(contents, paths, n - 1), Run(Start(contents, n - 1), Blocks(contents[n - 1])), paths[n - 1])
  }

  lemma {:induction false} OwnerMapOwns(contents: seq<seq<Byte>>, paths: seq<Text>, n: nat)
    requires n <= |contents| == |paths|
    ensures var o := OwnerMap(contents, paths, n);
            && ROOT_CLUSTER in o && o[ROOT_CLUSTER] == ROOT_PATH
            && (forall c :: c in o ==> c < Start(contents, n))
            && (forall j, c :: 0 <= j < n && c in Run(Start(contents, j), Blocks(contents[j])) ==> c in o && o[c] == paths[j])
    decreases n
  {
    hide Blocks, Start, Claimed, Run;
    if n > 0 {
      OwnerMapOwns(contents, paths, n - 1);
      StartMonotone(contents, n - 1, n);
      var o' := OwnerMap(contents, paths, n - 1);
      var first, size := Start(contents, n - 1), Blocks(contents[n - 1]);
      ClaimedRun(o', first, size, paths[n - 1]);
      StartNext(contents, n - 1);
      forall j, c | 0 <= j < n - 1 && c in Run(Start(contents, j), Blocks(contents[j]))
        ensures c in o' && o'[c] == paths[j] && c !in Run(first, size)
      {
        RunMembers(first, size, c);
      }
    }
  }

  lemma StartNext(contents: seq<seq<Byte>>, j: nat)
    requires j < |contents|
    ensures Start(contents, j + 1) == Start(contents, j) + Blocks(contents[j])
  {
  }

  lemma RunMembers(first: nat, n: nat, c: int)
    ensures c in Run(first, n) <==> first <= c < first + n
  {
    if first <= c < first + n {
      assert Run(first, n)[c - first] == c;
    }
  }

  /** Claiming a run gives its clusters the path and leaves the others alone. */
  lemma ClaimedRun(o: Owners, first: nat, n: nat, path: Text)
    ensures var o' := Claimed(o, Run(first, n), path);
            && (forall c :: c in o' <==> c in o || c in Run(first, n))
            && (forall c :: c in o' ==> o'[c] == if c in Run(first, n) then path else o[c])
            && (forall c :: c in Run(first, n) ==> c < first + n)
  {
    hide Run;
    forall c | c in Run(first, n)
      ensures c < first + n
    {
      RunMembers(first, n, c);
    }
  }
}
