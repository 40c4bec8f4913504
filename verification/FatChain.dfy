// The FAT and its cluster chains (tools/fat32_image.py, walk_chain).

module FatChain {
  import opened Bytes

  const FAT32_MAX_CLUSTER := 0x0FFF_FFEF
  const FAT32_BAD := 0x0FFF_FFF7
  const FAT32_EOC_MIN := 0x0FFF_FFF8
  const FAT32_EOC := 0x0FFF_FFFF
  const ENTRY_BYTES := 32

  datatype FatError =
    | AdditionOverflow | MultiplicationOverflow | VolumeTooSmall
    | ClusterOutsideData | ClusterEscapedVolume | SectorOutsideVolume
    | TruncatedBoot | BadBootSignature | BadSectorSize | BadClusterSize | BadReservedGeometry
    | BadLegacyFields | MetadataConsumesVolume | NotFat32 | FatTooShort | BadRootCluster
    | BadFsInfoSector | BadBackupSector | LengthMismatch | BadLabel
    | BadFsInfoSignature | BadFsInfoHint
    | FatCopyInvalid | FatIndexInvalid | FatLookupEscaped | FatCopiesDiffer
    | BadMediaEntry | BadReservedEntry
    | ChainOutOfRange | CyclicChain | ChainTooLong | ChainBadCluster | ChainFreeOrReserved
    | NotAscii | EmptyShortName | DirectoryCycle | CrossLinkedDirectory | MalformedLongName | InvalidLongNameText
    | LongNamesDisabled | NoEndMarker | DuplicateName | DirectoryWithoutCluster
    | SizeChainMismatch | CrossLinkedFile | LeakedClusters | FreeCountMismatch
    | BadStagedName | BadStagedCount | BadStagedSize | DuplicateStagedName | BadStagedPath
    | StagedTooLarge | NotFreshVolume | BadProfile

  /** What the inspector sees once the geometry is known: one FAT value (28 bits) and one block
      of bytes per cluster number. Entries 0 and 1 of the FAT are reserved. */
  datatype Volume = Volume(fat: seq<nat>, data: seq<seq<Byte>>, clusterBytes: nat) {
    predicate InRange(cluster: int) {
      2 <= cluster < |fat|
    }

    function ClusterCount(): int {
      |fat| - 2
    }

    ghost predicate Valid() {
      && 2 <= |fat| <= FAT32_MAX_CLUSTER + 1
      && |data| == |fat|
      && clusterBytes > 0 && clusterBytes % ENTRY_BYTES == 0
      && (forall c :: InRange(c) ==> |data[c]| == clusterBytes)
      && (forall c :: 0 <= c < |fat| ==> fat[c] <= FAT32_EOC)
    }
  }

  ghost function Clusters(v: Volume): (s: set<int>) {
    set c | 2 <= c < |v.fat| && v.InRange(c)
  }

  /** The walk of one chain, `chain` being the clusters already collected. */
  function WalkFrom(v: Volume, cluster: int, chain: seq<int>): (r: Result<seq<int>, FatError>)
    requires v.Valid()
    decreases Clusters(v) - (set c | c in chain)
  {
    if !v.InRange(cluster) then Err(ChainOutOfRange)
    else if cluster in chain then Err(CyclicChain)
    else if |chain| >= v.ClusterCount() then Err(ChainTooLong)
    else
      var following := v.fat[cluster];
      if following >= FAT32_EOC_MIN then Ok(chain + [cluster])
      else if following == FAT32_BAD then Err(ChainBadCluster)
      else if following < 2 || 0x0FFF_FFF0 <= following <= 0x0FFF_FFF6 then Err(ChainFreeOrReserved)
      else
        assert cluster in Clusters(v) - (set c | c in chain);
        assert cluster in (set c | c in chain + [cluster]);
        WalkFrom(v, following, chain + [cluster])
  }

  function WalkChain(v: Volume, first: int): (r: Result<seq<int>, FatError>)
    requires v.Valid()
  {
    if first == 0 then Ok([]) else WalkFrom(v, first, [])
  }

  method ComputeChain(v: Volume, first: int) returns (r: Result<seq<int>, FatError>)
    requires v.Valid()
    ensures r == WalkChain(v, first)
  {
    if first == 0 {
      return Ok([]);
    }
    var chain: seq<int> := [];
    var seen: set<int> := {};
    var cluster := first;
    while true
      invariant seen == set c | c in chain
      invariant WalkFrom(v, cluster, chain) == WalkFrom(v, first, [])
      decreases Clusters(v) - seen
    {
      if cluster < 2 || cluster >= |v.fat| {
        return Err(ChainOutOfRange);
      }
      if cluster in seen {
        return Err(CyclicChain);
      }
      if |chain| >= v.ClusterCount() {
        return Err(ChainTooLong);
      }
      assert cluster in Clusters(v) - seen;
      seen := seen + {cluster};
      chain := chain + [cluster];
      var following := v.fat[cluster];
      if following >= FAT32_EOC_MIN {
        return Ok(chain);
      }
      if following == FAT32_BAD {
        return Err(ChainBadCluster);
      }
      if following < 2 || 0x0FFF_FFF0 <= following <= 0x0FFF_FFF6 {
        return Err(ChainFreeOrReserved);
      }
      cluster := following;
    }
  }

  // What a chain is, independently of how it is walked.

  /** `p` follows the FAT from `first` to an end-of-chain mark, through data clusters only. */
  ghost predicate IsPath(v: Volume, first: int, p: seq<int>) {
    && |p| > 0 && p[0] == first
    && (forall i :: 0 <= i < |p| ==> v.InRange(p[i]))
    && (forall i :: 0 <= i < |p| - 1 ==> v.fat[p[i]] == p[i + 1])
    && v.fat[p[|p| - 1]] >= 0x0FFF_FFF8
  }

  /** The chain a directory entry or the boot sector names; cluster 0 names the empty chain. */
  ghost predicate IsChain(v: Volume, first: int, p: seq<int>) {
    if first == 0 then p == [] else IsPath(v, first, p)
  }

  ghost predicate Distinct(p: seq<int>) {
    forall i, j :: 0 <= i < j < |p| ==> p[i] != p[j]
  }

  /** Two paths from one cluster agree step by step, and neither can outlast the other. */
  lemma {:induction false} PathUnique(v: Volume, first: int, p: seq<int>, q: seq<int>)
    requires v.Valid() && IsPath(v, first, p) && IsPath(v, first, q)
    ensures p == q
    decreases |p|
  {
    assert |p| > 1 ==> v.fat[p[0]] == p[1];
    assert |q| > 1 ==> v.fat[q[0]] == q[1];
    if |p| > 1 {
      assert IsPath(v, p[1], p[1..]);
      assert IsPath(v, p[1], q[1..]);
      PathUnique(v, p[1], p[1..], q[1..]);
      assert p == [p[0]] + p[1..] && q == [q[0]] + q[1..];
    } else {
      assert p == q == [first];
    }
  }

  lemma PathTail(v: Volume, first: int, p: seq<int>, i: nat)
    requires v.Valid() && IsPath(v, first, p) && i < |p|
    ensures IsPath(v, p[i], p[i..])
  {
  }

  /** A path that reaches end-of-chain never repeats a cluster. */
  lemma PathDistinct(v: Volume, first: int, p: seq<int>)
    requires v.Valid() && IsPath(v, first, p)
    ensures Distinct(p)
  {
    forall i, j | 0 <= i < j < |p|
      ensures p[i] != p[j]
    {
      if p[i] == p[j] {
        PathTail(v, first, p, i);
        PathTail(v, first, p, j);
        PathUnique(v, p[i], p[i..], p[j..]);
        assert false;
      }
    }
  }

  lemma {:induction false} WalkSound(v: Volume, cluster: int, chain: seq<int>)
    requires v.Valid()
    requires WalkFrom(v, cluster, chain).Ok?
    ensures var r := WalkFrom(v, cluster, chain).value;
            chain <= r && IsPath(v, cluster, r[|chain|..])
    decreases Clusters(v) - (set c | c in chain)
  {
    var following := v.fat[cluster];
    var r := WalkFrom(v, cluster, chain).value;
    if following >= FAT32_EOC_MIN {
      assert r[|chain|..] == [cluster];
    } else {
      assert cluster in Clusters(v) - (set c | c in chain);
      assert cluster in (set c | c in chain + [cluster]);
      WalkSound(v, following, chain + [cluster]);
      var tail := r[|chain + [cluster]|..];
      assert r[|chain|..] == [cluster] + tail;
    }
  }

  /** Distinct clusters in range are at most as many as there are data clusters. */
  lemma {:induction false} Pigeonhole(n: nat, p: seq<int>)
    requires Distinct(p)
    requires forall i :: 0 <= i < |p| ==> 2 <= p[i] < n + 2
    ensures |p| <= n
  {
    if |p| > 0 {
      assert 2 <= p[0] < n + 2;
      if exists k :: 0 <= k < |p| && p[k] == n + 1 {
        var k :| 0 <= k < |p| && p[k] == n + 1;
        var q := p[..k] + p[k + 1..];
        assert forall i :: 0 <= i < |q| ==> q[i] == if i < k then p[i] else p[i + 1];
        Pigeonhole(n - 1, q);
      } else {
        Pigeonhole(n - 1, p);
      }
    }
  }

  lemma {:induction false} WalkComplete(v: Volume, cluster: int, chain: seq<int>, tail: seq<int>)
    requires v.Valid() && IsPath(v, cluster, tail)
    requires Distinct(chain + tail)
    requires forall i :: 0 <= i < |chain| ==> v.InRange(chain[i])
    ensures WalkFrom(v, cluster, chain) == Ok(chain + tail)
    decreases |tail|
  {
    assert (chain + tail)[|chain|] == cluster;
    assert forall i :: 0 <= i < |chain| ==> (chain + tail)[i] == chain[i];
    Pigeonhole(v.ClusterCount(), chain + tail);
    if |tail| == 1 {
      assert tail == [cluster];
    } else {
      assert IsPath(v, tail[1], tail[1..]);
      assert chain + tail == (chain + [cluster]) + tail[1..];
      WalkComplete(v, tail[1], chain + [cluster], tail[1..]);
    }
  }

  /** walk_chain returns the chain from its first cluster exactly when there is one. */
  lemma WalkChainExact(v: Volume, first: int, p: seq<int>)
    requires v.Valid()
    ensures WalkChain(v, first) == Ok(p) <==> IsChain(v, first, p)
    ensures IsChain(v, first, p) ==> Distinct(p)
  {
    if first != 0 {
      if IsPath(v, first, p) {
        PathDistinct(v, first, p);
        assert [] + p == p;
        WalkComplete(v, first, [], p);
      }
      if WalkChain(v, first).Ok? {
        WalkSound(v, first, []);
      }
    }
  }

  lemma {:induction false} WalkNeverTooLong(v: Volume, cluster: int, chain: seq<int>)
    requires v.Valid() && Distinct(chain)
    requires forall i :: 0 <= i < |chain| ==> v.InRange(chain[i])
    ensures WalkFrom(v, cluster, chain) != Err(ChainTooLong)
    decreases Clusters(v) - (set c | c in chain)
  {
    if v.InRange(cluster) && cluster !in chain {
      Pigeonhole(v.ClusterCount(), chain + [cluster]);
      var following := v.fat[cluster];
      assert cluster in Clusters(v) - (set c | c in chain);
      assert cluster in (set c | c in chain + [cluster]);
      if 2 <= following < 0x0FFF_FFF0 {
        WalkNeverTooLong(v, following, chain + [cluster]);
      }
    }
  }

  /** The length bound of walk_chain can never be the check that refuses a chain. */
  lemma LengthBoundUnreachable(v: Volume, first: int)
    requires v.Valid()
    ensures WalkChain(v, first) != Err(ChainTooLong)
  {
    if first != 0 {
      WalkNeverTooLong(v, first, []);
    }
  }

  // Why a walk fails

  /** Distinct data clusters that follow the FAT from `first`. */
  ghost predicate Linked(v: Volume, first: int, p: seq<int>) {
    && |p| > 0 && p[0] == first && Distinct(p)
    && (forall i :: 0 <= i < |p| ==> v.InRange(p[i]))
    && (forall i :: 0 <= i < |p| - 1 ==> v.fat[p[i]] == p[i + 1])
  }

  lemma {:induction false} WalkFollows(v: Volume, first: int, p: seq<int>, k: nat)
    requires v.Valid() && Linked(v, first, p) && k < |p|
    ensures WalkFrom(v, first, []) == WalkFrom(v, p[k], p[..k])
    decreases k
  {
    if k > 0 {
      WalkFollows(v, first, p, k - 1);
      Pigeonhole(v.ClusterCount(), p);
      assert p[k - 1] !in p[..k - 1];
      assert v.fat[p[k - 1]] == p[k] && v.InRange(p[k]);
      assert p[..k] == p[..k - 1] + [p[k - 1]];
    }
  }

  /** A walk that comes to the end of such clusters is refused by what the last one's entry says: a bad cluster, a free
      or reserved one, one already seen, or one past the volume. */
  lemma WalkErrors(v: Volume, first: int, p: seq<int>)
    requires v.Valid() && Linked(v, first, p)
    ensures var following := v.fat[p[|p| - 1]];
            && (following == 0x0FFF_FFF7 ==> WalkFrom(v, first, []) == Err(ChainBadCluster))
            && (following < 2 || 0x0FFF_FFF0 <= following <= 0x0FFF_FFF6 ==> WalkFrom(v, first, []) == Err(ChainFreeOrReserved))
            && (following in p ==> WalkFrom(v, first, []) == Err(CyclicChain))
            && (|v.fat| <= following < 0x0FFF_FFF0 ==> WalkFrom(v, first, []) == Err(ChainOutOfRange))
  {
    var k := |p| - 1;
    WalkFollows(v, first, p, k);
    Pigeonhole(v.ClusterCount(), p);
    assert p[k] !in p[..k];
    assert p[..k] + [p[k]] == p;
    LastStep(v, p[k], p[..k]);
    LastStep(v, v.fat[p[k]], p);
    if v.fat[p[k]] in p {
      assert v.InRange(v.fat[p[k]]);
    }
  }

  lemma LastStep(v: Volume, cluster: int, chain: seq<int>)
    requires v.Valid()
    ensures WalkFrom(v, cluster, chain) ==
            if !v.InRange(cluster) then Err(ChainOutOfRange)
            else if cluster in chain then Err(CyclicChain)
            else if |chain| >= v.ClusterCount() then Err(ChainTooLong)
            else if v.fat[cluster] >= 0x0FFF_FFF8 then Ok(chain + [cluster])
            else if v.fat[cluster] == 0x0FFF_FFF7 then Err(ChainBadCluster)
            else if v.fat[cluster] < 2 || v.fat[cluster] >= 0x0FFF_FFF0 then Err(ChainFreeOrReserved)
            else WalkFrom(v, v.fat[cluster], chain + [cluster])
  {
  }

  /** A walked chain holds only clusters the FAT marks as in use. */
  lemma ChainAllocated(v: Volume, first: int, p: seq<int>)
    requires v.Valid() && IsChain(v, first, p)
    ensures forall c :: c in p ==> v.InRange(c) && v.fat[c] != 0
  {
    forall c | c in p
      ensures v.InRange(c) && v.fat[c] != 0
    {
      var i :| 0 <= i < |p| && p[i] == c;
      if i < |p| - 1 {
        assert v.fat[p[i]] == p[i + 1];
      }
    }
  }
}
