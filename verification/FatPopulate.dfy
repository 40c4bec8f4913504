// Staging files into the root of a fresh data volume (tools/fat32_image.py, populate_data_files).

module FatPopulate {
  import opened Bytes
  import opened FatChain
  import opened FatDirectory
  import opened FatTree
  import opened FatInspector
  import opened FatGeometry
  import opened FatFormat
  import opened FatNames
  import opened FatLayout
  import opened FatPlan
  import opened FatStore
  import opened FatExact
  import opened FatAllocate
  import opened FatVolume

  // Staging files

  /** A file to stage, its name already upper-cased. */
  datatype Upload = Upload(name: Text, payload: seq<Byte>)

  predicate UploadOk(u: Upload) {
    0 < |u.payload| <= 16_777_216 && ShortNameBytes(u.name).Ok?
  }

  predicate AllUploadsOk(us: seq<Upload>) {
    forall i :: 0 <= i < |us| ==> UploadOk(us[i])
  }

  function StagedOf(us: seq<Upload>): (s: seq<Staged>)
    requires AllUploadsOk(us)
    ensures |s| == |us|
  {
    seq(|us|, i requires 0 <= i < |us| => Staged(ShortNameBytes(us[i].name).value, us[i].payload))
  }

  function SumBlocks(us: seq<Upload>): (n: nat) {
    if us == [] then 0 else SumBlocks(us[..|us| - 1]) + Blocks(us[|us| - 1].payload)
  }

  /** What populate_data_files itself demands of its files. */
  predicate FilesOk(us: seq<Upload>) {
    && 1 <= |us| <= 15
    && AllUploadsOk(us)
    && (forall i, j :: 0 <= i < j < |us| ==> ShortNameBytes(us[i].name) != ShortNameBytes(us[j].name))
    && SumBlocks(us) <= 129_021
  }

  function FilesPlan(us: seq<Upload>): (p: Plan)
    requires AllUploadsOk(us)
  {
    Plan(DATA_LABEL, FILE_ATTRIBUTE, StagedOf(us), [])
  }

  lemma {:induction false} StagedSum(us: seq<Upload>)
    requires AllUploadsOk(us)
    ensures SumFiles(StagedOf(us)) == SumBlocks(us)
    decreases |us|
  {
    hide ShortNameBytes, Blocks;
    if us != [] {
      var n := |us| - 1;
      assert AllUploadsOk(us[..n]) && StagedOf(us)[..n] == StagedOf(us[..n]);
      StagedSum(us[..n]);
    }
  }

  lemma FilesPlanOk(us: seq<Upload>)
    requires FilesOk(us)
    ensures PlanOk(FilesPlan(us)) && Total(FilesPlan(us)) == |us|
    ensures UsedBy(FilesPlan(us)) == 1 + SumBlocks(us)
    ensures |RootSlots(FilesPlan(us))| == 1 + |us| && |Contents(FilesPlan(us))| == |us|
  {
    hide ShortNameBytes, Shape, RootSlots, Contents, SumBlocks, Start;
    var p := FilesPlan(us);
    StagedSum(us);
    PlanEnds(p);
    forall i | 0 <= i < |us|
      ensures StagedOk(p.files[i])
    {
      UploadStaged(us[i]);
    }
    DataLabel();
  }

  lemma UploadStaged(u: Upload)
    requires UploadOk(u)
    ensures StagedOk(Staged(ShortNameBytes(u.name).value, u.payload))
  {
    NameRoundTrip(u.name);
  }

  /** The loop state of the preparation after `i` files. */
  ghost predicate PreparedTo(us: seq<Upload>, i: nat, names: set<seq<Byte>>, prepared: seq<Staged>, total: nat) {
    && i <= |us| && AllUploadsOk(us[..i]) && prepared == StagedOf(us[..i]) && total == SumBlocks(us[..i])
    && (forall j :: 0 <= j < i ==> ShortNameBytes(us[j].name).Ok? && ShortNameBytes(us[j].name).value in names)
    && (forall n :: n in names ==> exists j :: 0 <= j < i && ShortNameBytes(us[j].name) == Ok(n))
    && (forall j, k :: 0 <= j < k < i ==> ShortNameBytes(us[j].name) != ShortNameBytes(us[k].name))
  }

  lemma PrepareStep(us: seq<Upload>, i: nat, names: set<seq<Byte>>, prepared: seq<Staged>, total: nat)
    requires i < |us| && PreparedTo(us, i, names, prepared, total)
    requires UploadOk(us[i]) && ShortNameBytes(us[i].name).value !in names
    ensures var name := ShortNameBytes(us[i].name).value;
            PreparedTo(us, i + 1, names + {name}, prepared + [Staged(name, us[i].payload)], total + Blocks(us[i].payload))
  {
    hide ShortNameBytes, Blocks;
    var some, more := us[..i], us[..i + 1];
    assert more[..i] == some && more[i] == us[i];
    assert AllUploadsOk(more) && StagedOf(more) == StagedOf(some) + [Staged(ShortNameBytes(us[i].name).value, us[i].payload)];
    var names' := names + {ShortNameBytes(us[i].name).value};
    forall n | n in names'
      ensures exists j :: 0 <= j < i + 1 && ShortNameBytes(us[j].name) == Ok(n)
    {
      if n in names {
        var j :| 0 <= j < i && ShortNameBytes(us[j].name) == Ok(n);
      } else {
        assert ShortNameBytes(us[i].name) == Ok(n);
      }
    }
  }

  /** The checks of populate_data_files, in order, and the staged names they produce. */
  method PrepareFiles(us: seq<Upload>) returns (r: Result<(seq<Staged>, nat), FatError>)
    ensures r.Ok? <==> FilesOk(us)
    ensures r.Ok? ==> r.value == (StagedOf(us), SumBlocks(us))
  {
    hide ShortNameBytes, Blocks;
    if us == [] || |us| > SLOTS - 1 {
      return Err(BadStagedCount);
    }
    var names: set<seq<Byte>> := {};
    var prepared: seq<Staged> := [];
    var totalClusters: nat := 0;
    for i := 0 to |us|
      invariant PreparedTo(us, i, names, prepared, totalClusters)
    {
      var u := us[i];
      if u.payload == [] || |u.payload| > MAX_FILE_BYTES {
        assert !UploadOk(us[i]);
        return Err(BadStagedSize);
      }
      var name := ShortNameBytes(u.name);
      if name.Err? {
        assert !UploadOk(us[i]);
        return Err(name.error);
      }
      assert UploadOk(us[i]);
      if name.value in names {
        var j :| 0 <= j < i && ShortNameBytes(us[j].name) == Ok(name.value);
        return Err(DuplicateStagedName);
      }
      PrepareStep(us, i, names, prepared, totalClusters);
      names := names + {name.value};
      prepared := prepared + [Staged(name.value, u.payload)];
      totalClusters := totalClusters + Blocks(u.payload);
    }
    assert us[..|us|] == us;
    if ROOT_CLUSTER + 1 + totalClusters - 1 > CLUSTER_COUNT + 1 {
      return Err(StagedTooLarge);
    }
    r := Ok((prepared, totalClusters));
  }

  function NamesOf(us: seq<Upload>): (ts: seq<Text>)
    ensures |ts| == |us|
  {
    seq(|us|, i requires 0 <= i < |us| => Canonical(us[i].name))
  }

  function PayloadsOf(us: seq<Upload>): (bs: seq<seq<Byte>>)
    ensures |bs| == |us|
  {
    seq(|us|, i requires 0 <= i < |us| => us[i].payload)
  }

  /** Every staged file is reported under its canonical name and reads back; no other file is reported. */
  lemma FilesHeld(image: seq<Byte>, us: seq<Upload>)
    requires AllUploadsOk(us) && Complete(image, DATA_VOLUME_ID, FilesPlan(us))
    ensures HoldsExactly(image, NamesOf(us), PayloadsOf(us))
  {
    hide Complete, InspectImage, Leads, PlanOk, Canonical, FilePath, Available;
    var p := FilesPlan(us);
    CompleteInspected(image, DATA_VOLUME_ID, p);
    forall i | 0 <= i < |us|
      ensures FilePath(p, i) == NamesOf(us)[i] && p.files[i].payload == PayloadsOf(us)[i]
      ensures Available(image, NamesOf(us)[i], PayloadsOf(us)[i])
    {
      FileNamed(us, i);
      FileAvailable(image, DATA_VOLUME_ID, p, i);
    }
    forall r | r in InspectImage(image).value.records && !r.entry.IsDirectory()
      ensures exists i :: 0 <= i < |us| && Leads(image, r, NamesOf(us)[i], PayloadsOf(us)[i])
    {
      ReportedIsPlanned(image, DATA_VOLUME_ID, p, r);
      var i: nat :| i < |p.files| && Leads(image, r, FilePath(p, i), p.files[i].payload);
      assert Leads(image, r, NamesOf(us)[i], PayloadsOf(us)[i]);
    }
  }

  lemma FileNamed(us: seq<Upload>, i: nat)
    requires AllUploadsOk(us) && i < |us| && PlanOk(FilesPlan(us))
    ensures FilePath(FilesPlan(us), i) == Canonical(us[i].name)
  {
    hide PlanOk, Canonical, ShortNameBytes, ShortNameText;
    assert UploadOk(us[i]);
    NameRoundTrip(us[i].name);
  }

  /** Stages ordinary files in the root of a fresh data volume. It succeeds exactly on a fresh volume and
      well-formed files that leave the root directory its end marker: fourteen, one fewer than its own
      count check admits. The result is then the finished image of those files: the inspector reports each
      of them under its canonical name with its bytes, and no other file. */
  method PopulateFiles(source: seq<Byte>, us: seq<Upload>) returns (r: Result<seq<Byte>, FatError>)
    ensures r.Ok? <==> source == FreshImage(DATA_VOLUME_ID, DATA_LABEL) && FilesOk(us) && |us| <= 14
    ensures r.Ok? ==> && AllUploadsOk(us) && Complete(r.value, DATA_VOLUME_ID, FilesPlan(us))
                      && InspectImage(r.value) == Ok(PlanReport(FilesPlan(us)))
                      && HoldsExactly(r.value, NamesOf(us), PayloadsOf(us)) && Marked(r.value, 0x20)
                      && var next := 3 + SumBlocks(us);
                         DataLayout(r.value, 129_024 - next, if next > 129_023 then 0xFFFF_FFFF else next)
  {
    hide ReservedArea, ReservedLayout, StartLayout, Marked;
    hide FreshImage, InspectImage, FilesOk, PlanOk, OnDisk, RootSlots, Contents, BootSector, FsInfoSector, ShortNameBytes,
         DirectoryEntry, Start, Shape, RootNode, TreeRecords, Finished, PlanReport, HoldsExactly;
    var verified := VerifyData(source);
    if verified.Err? {
      return Err(verified.error);
    }
    var prepared := PrepareFiles(us);
    if prepared.Err? {
      return Err(prepared.error);
    }
    var (files, totalClusters) := prepared.value;
    FilesFit(us);
    FilesPlanOk(us);
    ghost var p, g := FilesPlan(us), VolumeGeometry(DATA_VOLUME_ID, DATA_LABEL);
    DataLabel();
    FreshOnDisk(DATA_VOLUME_ID, DATA_LABEL);
    var image := new Byte[|source|](i requires 0 <= i < |source| => source[i]);
    assert image[..] == source;
    RootBegins(p);
    var next := LayRootFiles(image, files, FILE_ATTRIBUTE, g, p);
    assert RootSlots(p)[..|us| + 1] == RootSlots(p) && Contents(p)[..|us|] == Contents(p);
    Finish(image, DATA_VOLUME_ID, p, FsInfoSector(CLUSTER_COUNT - 1, ROOT_CLUSTER + 1), next, CLUSTER_COUNT - 1 - totalClusters);
    FinishedInspected(image[..], DATA_VOLUME_ID, p);
    var report := Inspect(image[..]);
    if report.Err? {
      return Err(report.error);
    }
    FilesHeld(image[..], us);
    CompleteMarked(image[..], DATA_VOLUME_ID, p);
    r := Ok(image[..]);
  }

  lemma FilesFit(us: seq<Upload>)
    requires FilesOk(us)
    ensures 1 <= |us| <= SLOTS - 1 && AllUploadsOk(us) && ROOT_CLUSTER + 1 + SumBlocks(us) <= CLUSTER_COUNT + 2
  {
  }
}
